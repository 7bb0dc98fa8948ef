/** What the host may expect of the Default Control Pipe: which requests are answered, with what bytes, and
    what they do to the device (sections 9.4.3, 9.4.6 and 9.4.7 of the USB 2.0 specification;
    scratch_sw/bare_metal/common/usbdev-utils.hh). */
module UsbRequests {
  import opened Words
  import opened UsbHardware

  const GET_DESCRIPTOR := 6
  const SET_ADDRESS := 5
  const SET_CONFIGURATION := 9
  const VENDOR_TEST_CONFIG := 0x7c
  const DESC_TYPE_DEVICE := 1
  const DESC_TYPE_CONFIGURATION := 2

  datatype CtrlState = CtrlSetup | StatusSetAddr | StatusGetDesc | StatusSetConfig
  datatype DeviceState = Powered | Addressed | Configured

  /** The fields of the control pipe's state, and what has been assumed so far of the host and of user code.
      `clean`: every packet was presented on an endpoint with nothing outstanding. `orderly`: moreover, while a
      reply of endpoint zero was outstanding no request was processed and, if the reply was to a SET_ADDRESS or
      SET_CONFIGURATION, no packet of endpoint zero at all; and user code did not send on endpoint zero.
      `prompt`: moreover, no packet of endpoint zero was processed while any of its replies was outstanding. */
  datatype Pipe = Pipe(ctrl: CtrlState, devAddr: nat, devState: DeviceState, clean: bool, orderly: bool, prompt: bool)

  /** The three descriptors, each of which fits a packet. */
  datatype Descriptors = Descriptors(device: seq<byte>, config: seq<byte>, test: seq<byte>)

  predicate FitPackets(d: Descriptors) {
    |d.device| <= MAX_PACKET_LENGTH && |d.config| <= MAX_PACKET_LENGTH && |d.test| <= MAX_PACKET_LENGTH
  }

  /** The requests that get a reply. */
  predicate Answered(data: seq<byte>) {
    |data| == 8 && (
      || (data[1] == GET_DESCRIPTOR && (data[3] == DESC_TYPE_DEVICE || data[3] == DESC_TYPE_CONFIGURATION))
      || data[1] == SET_ADDRESS || data[1] == SET_CONFIGURATION || data[1] == VENDOR_TEST_CONFIG)
  }

  function Shortened(descriptor: seq<byte>, wLength: nat): (bytes: seq<byte>) {
    if wLength > |descriptor| then descriptor else descriptor[..wLength]
  }

  function WLength(data: seq<byte>): (n: nat)
    requires |data| == 8
  {
    var lo: int, hi: int := data[6], data[7];
    lo + 0x100 * hi
  }

  /** A descriptor cut to the length asked for, or a zero-length acknowledgement. */
  function Reply(d: Descriptors, data: seq<byte>): (bytes: seq<byte>)
    requires Answered(data)
  {
    if data[1] == GET_DESCRIPTOR then
      Shortened(if data[3] == DESC_TYPE_DEVICE then d.device else d.config, WLength(data))
    else if data[1] == VENDOR_TEST_CONFIG then Shortened(d.test, WLength(data))
    else []
  }

  /** bytes are the first n of full, or all of them if there are fewer. */
  predicate CutTo(full: seq<byte>, n: nat, bytes: seq<byte>) {
    bytes <= full && |bytes| == if n < |full| then n else |full|
  }

  /** The requests answered are GET_DESCRIPTOR for the device or the configuration, SET_ADDRESS, SET_CONFIGURATION and
      one of the vendor's, and nothing else; each descriptor is cut to the length its request asks for. */
  lemma {:induction false} ReplyMeans(d: Descriptors, data: seq<byte>)
    requires |data| == 8
    ensures Answered(data) <==> (data[1] == 6 && (data[3] == 1 || data[3] == 2)) || data[1] in {5, 9, 0x7c}
    ensures var lo: int, hi: int := data[6], data[7];
      && (data[1] == 6 && data[3] == 1 ==> CutTo(d.device, lo + 256 * hi, Reply(d, data)))
      && (data[1] == 6 && data[3] == 2 ==> CutTo(d.config, lo + 256 * hi, Reply(d, data)))
      && (data[1] == 0x7c ==> CutTo(d.test, lo + 256 * hi, Reply(d, data)))
    ensures data[1] == 5 || data[1] == 9 ==> Reply(d, data) == []
  {
  }

  predicate IsRequest(p: Packet) {
    p.ep == 0 && p.setup && Answered(p.payload)
  }

  /** The requests among the packets the host delivered, in order. */
  function Requests(ps: seq<Packet>): (reqs: seq<seq<byte>>)
    ensures forall i :: 0 <= i < |reqs| ==> Answered(reqs[i])
  {
    if ps == [] then []
    else
      var p := ps[|ps| - 1];
      if IsRequest(p) then Requests(ps[..|ps| - 1]) + [p.payload] else Requests(ps[..|ps| - 1])
  }

  function Replies(d: Descriptors, reqs: seq<seq<byte>>): (rs: seq<seq<byte>>)
    requires forall i :: 0 <= i < |reqs| ==> Answered(reqs[i])
    ensures |rs| == |reqs| && forall i :: 0 <= i < |rs| ==> rs[i] == Reply(d, reqs[i])
  {
    seq(|reqs|, i requires 0 <= i < |reqs| => Reply(d, reqs[i]))
  }

  /** The device address after a run of completed requests: that of the last SET_ADDRESS. */
  function AddressAfter(reqs: seq<seq<byte>>): (a: nat)
    requires forall i :: 0 <= i < |reqs| ==> Answered(reqs[i])
  {
    if reqs == [] then 0
    else
      var last := reqs[|reqs| - 1];
      assert Answered(last);
      if last[1] == SET_ADDRESS then last[2] else AddressAfter(reqs[..|reqs| - 1])
  }

  /** The device state after a run of completed requests. */
  function StateAfter(reqs: seq<seq<byte>>): (s: DeviceState)
    requires forall i :: 0 <= i < |reqs| ==> Answered(reqs[i])
  {
    if reqs == [] then Powered
    else
      var last := reqs[|reqs| - 1];
      assert Answered(last);
      if last[1] == SET_ADDRESS then Addressed
      else if last[1] == SET_CONFIGURATION then Configured
      else StateAfter(reqs[..|reqs| - 1])
  }

  /** The control state while the reply to a request has yet to be collected. */
  function Awaiting(data: seq<byte>): (s: CtrlState)
    requires Answered(data)
    ensures s != CtrlSetup
  {
    if data[1] == SET_ADDRESS then StatusSetAddr
    else if data[1] == SET_CONFIGURATION then StatusSetConfig
    else StatusGetDesc
  }

  /** The status states of SET_ADDRESS and SET_CONFIGURATION, and that of everything else. */
  lemma {:induction false} AwaitingMeans(data: seq<byte>)
    requires Answered(data)
    ensures Awaiting(data) == StatusSetAddr <==> data[1] == 5
    ensures Awaiting(data) == StatusSetConfig <==> data[1] == 9
    ensures Awaiting(data) == StatusGetDesc <==> data[1] == 6 || data[1] == 0x7c
  {
  }

  /** The requests whose replies are complete: all but the last while its reply is awaited. */
  function Completed(reqs: seq<seq<byte>>, waiting: bool): (done: seq<seq<byte>>)
    requires waiting ==> reqs != []
    ensures forall r :: r in done ==> r in reqs
  {
    if waiting then reqs[..|reqs| - 1] else reqs
  }

  /** The control state when the first n packets delivered have been processed. A reply is awaited in the three
      status states; and also in the setup state, when the status packet that acknowledges a descriptor has
      overtaken the notice of its collection. */
  predicate CtrlLaw(reqs: seq<seq<byte>>, waiting: bool, p: Pipe)
    requires forall i :: 0 <= i < |reqs| ==> Answered(reqs[i])
  {
    if !waiting then p.ctrl == CtrlSetup
    else
      reqs != [] &&
      var last := reqs[|reqs| - 1];
      Answered(last) &&
      if p.ctrl == CtrlSetup then Awaiting(last) == StatusGetDesc && !p.prompt
      else p.ctrl == Awaiting(last) && (p.ctrl == StatusSetAddr ==> p.devAddr == last[2])
  }

  /** The law of the Default Control Pipe after the first n packets delivered: every request has been given
      its reply, in order; and the address and the device state are those of the completed requests only,
      but for a link reset, which has cleared the address if it came since it was last written. */
  predicate ControlLaw(d: Descriptors, r: Usb, n: nat, waiting: bool, p: Pipe)
    requires Valid(r)
  {
    n <= |r.delivered| &&
    var reqs := Requests(r.delivered[..n]);
    && r.asked[0] == Replies(d, reqs)
    && CtrlLaw(reqs, waiting, p)
    && p.devState == StateAfter(Completed(reqs, waiting))
    && r.address == if r.addressReset then 0 else AddressAfter(Completed(reqs, waiting))
  }

  /** The law speaks of nothing else the host or another endpoint can change. */
  lemma {:induction false} LawEvolves(d: Descriptors, r: Usb, s: Usb, n: nat, waiting: bool, p: Pipe, mine: set<nat>,
      taken: nat)
    requires Valid(r) && ControlLaw(d, r, n, waiting, p) && Evolved(r, s, mine, taken)
    requires s.asked[0] == r.asked[0]
    ensures Valid(s) && ControlLaw(d, s, n, waiting, p)
  {
    hide Valid, Outstanding, Requests, AddressAfter, StateAfter, Replies, CtrlLaw, Quiet;
    assert s.delivered[..n] == r.delivered[..n];
  }

  lemma {:induction false} RequestsNext(ps: seq<Packet>, n: nat)
    requires n < |ps|
    ensures Requests(ps[..n + 1]) == if IsRequest(ps[n]) then Requests(ps[..n]) + [ps[n].payload] else Requests(ps[..n])
  {
    assert ps[..n + 1][..n] == ps[..n];
  }

  /** A packet that is no request changes nothing. */
  lemma {:induction false} LawSkips(d: Descriptors, r: Usb, n: nat, waiting: bool, p: Pipe)
    requires Valid(r) && ControlLaw(d, r, n, waiting, p) && n < |r.delivered|
    requires !IsRequest(r.delivered[n])
    ensures ControlLaw(d, r, n + 1, waiting, p)
  {
    RequestsNext(r.delivered, n);
    hide Valid, Requests, AddressAfter, StateAfter, CtrlLaw;
  }

  /** While the reply to a descriptor request is awaited the control state may return to setup. */
  lemma {:induction false} LawReturnsToSetup(d: Descriptors, r: Usb, n: nat, waiting: bool, p: Pipe)
    requires Valid(r) && ControlLaw(d, r, n, waiting, p)
    requires waiting ==> !p.prompt && (p.ctrl == CtrlSetup || p.ctrl == StatusGetDesc)
    ensures ControlLaw(d, r, n, waiting, p.(ctrl := CtrlSetup)) && (p.ctrl != CtrlSetup ==> waiting)
    ensures forall a: nat :: ControlLaw(d, r, n, waiting, p.(ctrl := CtrlSetup, devAddr := a))
  {
    hide Valid, Requests, AddressAfter, StateAfter;
  }

  /** A request whose reply has just been presented is awaited. */
  lemma {:induction false} LawReplies(d: Descriptors, r: Usb, s: Usb, n: nat, p: Pipe, q: Pipe)
    requires Valid(r) && ControlLaw(d, r, n, false, p) && Evolved(r, s, {0}, 0) && Valid(s)
    requires n < |r.delivered| && IsRequest(r.delivered[n])
    requires var data := r.delivered[n].payload;
      && s.asked[0] == r.asked[0] + [Reply(d, data)]
      && q.ctrl == Awaiting(data) && q.devState == p.devState && (q.ctrl == StatusSetAddr ==> q.devAddr == data[2])
    ensures ControlLaw(d, s, n + 1, true, q)
  {
    var data := r.delivered[n].payload;
    RequestsNext(r.delivered, n);
    OneMoreReply(d, Requests(r.delivered[..n]), data);
    ReplyAwaited(Requests(r.delivered[..n]), data, q);
    LawSees(r, s, n + 1);
    hide Valid, Evolved, Requests, Replies, Reply, Awaiting, AddressAfter, StateAfter, CtrlLaw, IsRequest;
    assert Completed(Requests(r.delivered[..n]), false) == Requests(r.delivered[..n]);
    hide Completed;
  }

  lemma {:induction false} ReplyAwaited(reqs: seq<seq<byte>>, data: seq<byte>, q: Pipe)
    requires Answered(data) && forall i :: 0 <= i < |reqs| ==> Answered(reqs[i])
    requires q.ctrl == Awaiting(data) && (q.ctrl == StatusSetAddr ==> q.devAddr == data[2])
    ensures CtrlLaw(reqs + [data], true, q)
  {
    assert (reqs + [data])[|reqs|] == data;
    hide Answered, Awaiting;
  }

  lemma {:induction false} LawSees(r: Usb, s: Usb, n: nat)
    requires Valid(r) && Evolved(r, s, {0}, 0) && n <= |r.delivered|
    ensures n <= |s.delivered| && s.delivered[..n] == r.delivered[..n]
    ensures (s.address == r.address && s.addressReset == r.addressReset) || (s.address == 0 && s.addressReset)
  {
    hide Valid, Outstanding, Quiet;
    assert s.delivered[..n] == r.delivered[..n];
  }

  lemma {:induction false} OneMoreReply(d: Descriptors, reqs: seq<seq<byte>>, data: seq<byte>)
    requires Answered(data) && forall i :: 0 <= i < |reqs| ==> Answered(reqs[i])
    ensures Completed(reqs + [data], true) == reqs && (reqs + [data])[|reqs|] == data
    ensures Replies(d, reqs + [data]) == Replies(d, reqs) + [Reply(d, data)]
  {
    hide Reply, Answered;
    assert (reqs + [data])[..|reqs|] == reqs;
  }

  /** What `ep0_sent` makes of the state. */
  function Collected(p: Pipe): (q: Pipe) {
    p.(ctrl := CtrlSetup,
       devState := match p.ctrl
         case StatusSetAddr => Addressed
         case StatusSetConfig => Configured
         case _ => p.devState)
  }

  /** Once the reply has been collected the request is complete. */
  lemma {:induction false} LawCompletes(d: Descriptors, r: Usb, s: Usb, n: nat, p: Pipe)
    requires Valid(r) && Valid(s) && ControlLaw(d, r, n, true, p)
    requires s == if p.ctrl == StatusSetAddr then r.(address := p.devAddr, addressReset := false) else r
    ensures ControlLaw(d, s, n, false, Collected(p))
  {
    OneMoreCompleted(Requests(r.delivered[..n]));
    hide Requests, Replies, AddressAfter, StateAfter, Valid;
  }

  lemma {:induction false} OneMoreCompleted(reqs: seq<seq<byte>>)
    requires reqs != [] && forall i :: 0 <= i < |reqs| ==> Answered(reqs[i])
    ensures var last, before := reqs[|reqs| - 1], reqs[..|reqs| - 1];
      && |last| == 8
      && AddressAfter(reqs) == (if Awaiting(last) == StatusSetAddr then last[2] else AddressAfter(before))
      && StateAfter(reqs) == (if Awaiting(last) == StatusSetAddr then Addressed
                              else if Awaiting(last) == StatusSetConfig then Configured else StateAfter(before))
  {
  }
}
