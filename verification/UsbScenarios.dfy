/** Runs from reset in which packets overtake the notice that a reply was collected. Between the calls the host
    acts at the moments given and at no other (scratch_sw/bare_metal/common/usbdev-utils.hh). */
module UsbScenarios {
  import opened Words
  import opened UsbHardware
  import opened UsbRegisters
  import opened UsbRequests
  import opened UsbRuns
  import opened UsbDevice
  import opened UsbUtils
  import opened UsbProperties

  /** What has become of the last reply: none is outstanding, it waits for collection, it has been collected but
      not retrieved, or it was presented over one of which that was so. */
  datatype Stage = Idle | Waiting | Collected | Overlaid

  /** A moment of a run: the packets sent so far, of which software has taken n; the replies presented; how many
      buffers each Available FIFO still holds at least; and up to which endpoint user code has a packet waiting. */
  datatype Scene =
    Scene(ps: seq<Packet>, n: nat, replies: seq<seq<byte>>, stage: Stage, setups: nat, outs: nat, busy: nat)

  /** The host has nothing in mind and uses the address zero, which is the device's. */
  ghost predicate At(r: Usb, c: Scene) {
    && Valid(r) && r.todo == [] && r.delivered == c.ps && r.popped == c.n && r.address == 0
    && |r.avSetup| >= c.setups && |r.avOut| >= c.outs
    && (forall ep :: 0 < ep < MAX_ENDPOINTS ==> (Outstanding(r, ep) <==> ep <= c.busy))
    && r.asked[0] == c.replies
    && match c.stage
       case Idle => r.inSent == {} && !Outstanding(r, 0) && |r.got[0]| == |c.replies|
       case Waiting => r.inSent == {} && r.slots[0].ready && |r.got[0]| == |c.replies| - 1
       case Collected => r.inSent == {0} && !r.slots[0].ready && |r.got[0]| == |c.replies|
       case Overlaid => r.inSent == {0} && r.slots[0].ready && |r.got[0]| == |c.replies| - 1
  }

  /** Software touching no endpoint leaves everything but what it has taken as it is. */
  lemma {:induction false} StaysAt(r: Usb, s: Usb, c: Scene, taken: nat)
    requires At(r, c) && Evolved(r, s, {}, taken)
    ensures At(s, c.(n := c.n + taken)) && |s.rx| == |c.ps| - (c.n + taken) && Outstanding(s, 0) == Outstanding(r, 0)
    ensures Outstanding(r, 0) <==> c.stage != Idle
  {
  }

  predicate Memory(mem: seq<seq<u32>>) {
    |mem| == BUFFER_COUNT && forall b :: 0 <= b < BUFFER_COUNT ==> |mem[b]| == BUFFER_WORDS
  }

  // ----- reset -----

  const START := Scene([], 0, [], Idle, AV_SETUP_DEPTH, AV_OUT_DEPTH, 0)

  /** A device out of reset and a host that has nothing in mind. */
  ghost predicate Reset(r: Usb) {
    && Sound(r, AllBuffers()) && r.todo == [] && r.delivered == [] && r.popped == 0 && r.address == 0
    && r.avSetup == [] && r.avOut == [] && r.inSent == {} && r.over == []
    && forall ep :: 0 <= ep < MAX_ENDPOINTS ==> !Outstanding(r, ep) && r.asked[ep] == [] && r.got[ep] == []
  }

  lemma {:induction false} BootIsCalm(r: Usb, s: Usb, avail: set<nat>)
    requires Reset(r)
    requires Evolved(r, s, {}, 0) && Sound(s, multiset(avail))
    requires avail == {} || FullSince(r, s)
    ensures At(s, START)
  {
    StaysAt(r, s, START.(setups := 0, outs := 0), 0);
    FifosFilled(r, s, avail);
    hide Sound, Valid, Outstanding, BothFull, DealtOut, Evolved, FullSince;
  }

  lemma {:induction false} FifosFilled(r: Usb, s: Usb, avail: set<nat>)
    requires Valid(r) && r.todo == [] && Valid(s) && !Outstanding(s, 0) && Sound(s, multiset(avail))
    requires avail == {} || FullSince(r, s)
    ensures |s.avSetup| == AV_SETUP_DEPTH && |s.avOut| == AV_OUT_DEPTH
  {
    hide Sound, Valid, Evolved, Outstanding, BothFull, DealtOut;
    if avail == {} {
      AllocationFails(s, avail);
    } else {
      var t: Usb, a: Usb, b: Usb :| Valid(t) && Evolved(r, t, {}, 0) && BothFull(t, a, b, s);
      SuppliedFully(r, t, a, b, s);
    }
  }

  /** With a quiet host, FIFOs found full stay full. */
  lemma {:induction false} SuppliedFully(r: Usb, t: Usb, a: Usb, b: Usb, s: Usb)
    requires Valid(r) && r.todo == [] && Valid(t) && Evolved(r, t, {}, 0) && BothFull(t, a, b, s)
    ensures Valid(s) && |s.avSetup| == AV_SETUP_DEPTH && |s.avOut| == AV_OUT_DEPTH
  {
    hide Outstanding;
  }

  method OutOfReset(mem: seq<seq<u32>>) returns (dev: OpenTitanUsbdev)
    requires Memory(mem)
    ensures fresh(dev) && Reset(dev.usb)
  {
    dev := new OpenTitanUsbdev(mem, []);
  }

  /** Out of reset, `init` done; callbacks of user code send nothing. The lowest four buffers wait for SETUP packets
      and the next eight for OUT packets. */
  method Init(mem: seq<seq<u32>>, d: Descriptors) returns (usb: UsbdevUtils)
    requires Memory(mem) && FitPackets(d)
    ensures fresh(usb) && fresh(usb.usbdev) && fresh(usb.packetData) && usb.descriptors == d && usb.sends == {}
    ensures usb.Inv() && At(usb.usbdev.usb, START)
    ensures usb.State() == Pipe(CtrlSetup, 0, Powered, true, true, true)
    ensures usb.clean && usb.ctrlState == CtrlSetup && usb.devState == Powered
    ensures usb.usbdev.usb.avSetup == [0, 1, 2, 3] && usb.usbdev.usb.avOut == [4, 5, 6, 7, 8, 9, 10, 11]
    ensures forall b :: b in usb.bufAvail <==> 12 <= b < 32
  {
    var dev := OutOfReset(mem);
    ghost var start := dev.usb;
    hide Sound, Evolved, BothFull, At, Laws, Outstanding, AllBuffers, DealtOut, UpTo;
    usb := new UsbdevUtils(dev, d, {});
    FirstBuffers(start, dev.usb, usb.bufAvail);
    hide Valid, Reset;
    SoundIfClean(d, dev.usb, multiset(usb.bufAvail), dev.usb.popped, Outstanding(dev.usb, 0), usb.State());
    BootIsCalm(start, dev.usb, usb.bufAvail);
  }

  method Boot(mem: seq<seq<u32>>, d: Descriptors) returns (usb: UsbdevUtils)
    requires Memory(mem) && FitPackets(d)
    ensures fresh(usb) && fresh(usb.usbdev) && fresh(usb.packetData) && usb.descriptors == d && usb.sends == {}
    ensures usb.Inv() && At(usb.usbdev.usb, START)
    ensures usb.State() == Pipe(CtrlSetup, 0, Powered, true, true, true)
    ensures usb.clean && usb.ctrlState == CtrlSetup && usb.devState == Powered
  {
    usb := Init(mem, d);
  }

  /** With a host that does nothing every assumption goes on holding, and no assertion fails. */
  method QuietRounds(mem: seq<seq<u32>>, d: Descriptors, rounds: nat) returns (usb: UsbdevUtils)
    requires Memory(mem) && FitPackets(d)
    ensures usb.Inv() && usb.clean && usb.orderly && usb.prompt && Sound(usb.usbdev.usb, multiset(usb.bufAvail))
  {
    usb := Boot(mem, d);
    NothingSent(usb.usbdev.usb);
    ghost var start, p := usb.usbdev.usb, usb.State();
    CourseSelf(start, 0, p, {});
    hide Laws, Valid, Outstanding, Course, Done, AllOutstanding, BadAddress, At, Sound;
    var round := 0;
    while round < rounds
      invariant fresh(usb) && fresh(usb.usbdev) && fresh(usb.packetData) && usb.sends == {}
      invariant usb.Inv() && Course(start, 0, p, usb.usbdev.usb, usb.State(), {})
    {
      ghost var was, q := usb.usbdev.usb, usb.State();
      CourseMeans(start, 0, p, was, q, {});
      StillPrompt(start, p, was, q);
      var trapped := usb.Service();
      CourseTrans(start, 0, p, was, was.popped, q, usb.usbdev.usb, usb.State(), {});
      StillPrompt(start, p, usb.usbdev.usb, usb.State());
      round := round + 1;
    }
    StillPrompt(start, p, usb.usbdev.usb, usb.State());
    SoundIfClean(usb.descriptors, usb.usbdev.usb, multiset(usb.bufAvail), usb.usbdev.usb.popped,
                 Outstanding(usb.usbdev.usb, 0), usb.State());
  }

  lemma {:induction false} NothingSent(r: Usb)
    requires At(r, START)
    ensures Valid(r) && r.todo == [] && r.delivered == []
  {
  }

  lemma {:induction false} StillPrompt(r: Usb, p: Pipe, s: Usb, q: Pipe)
    requires Course(r, 0, p, s, q, {}) && r.todo == [] && r.delivered == [] && p.clean && p.orderly && p.prompt
    ensures q.clean && q.orderly && q.prompt && s.delivered == [] && !BadAddress(s)
  {
    HostIsToBlame(r, 0, p, s, q);
    hide LeavesAlone, Valid;
  }

  // ----- what the host may do at one moment -----

  /** A packet of endpoint zero for which there is a buffer, but no SETUP packet while a reply waits. */
  predicate MaySend(e: Event, c: Scene) {
    EventValid(e) && c.n <= |c.ps| &&
    match e
    case DeliverSetup(addr, ep, _, _) =>
      addr == 0 && ep == 0 && c.setups > 0 && |c.ps| - c.n < RX_DEPTH && (c.stage == Idle || c.stage == Collected)
    case DeliverOut(addr, ep, _, _) => addr == 0 && ep == 0 && c.outs > 0 && |c.ps| - c.n < RX_DEPTH - 1
    case _ => false
  }

  function Sent(e: Event): (p: Packet)
    requires EventValid(e) && (e.DeliverSetup? || e.DeliverOut?)
  {
    Packet(e.ep, e.DeliverSetup?, Bytes(e.words, e.size))
  }

  function AfterSent(c: Scene, e: Event): (now: Scene)
    requires MaySend(e, c)
  {
    if e.DeliverSetup? then c.(ps := c.ps + [Sent(e)], setups := c.setups - 1)
    else c.(ps := c.ps + [Sent(e)], outs := c.outs - 1)
  }

  lemma {:induction false} OneAttempt(r: Usb, e: Event)
    requires Valid(r) && EventValid(e)
    ensures Run(SetOut(r, [e])) == Step(SetOut(r, [e]))
  {
  }

  /** An attempt the device can accept takes place; which endpoints are outstanding is as before. */
  lemma {:induction false} TakesPlace(r: Usb, e: Event)
    requires Valid(r) && EventValid(e) && Enabled(r, e)
    ensures var t := SetOut(r, [e]); Enabled(t, e) && Run(t) == Apply(t, e).(todo := [])
    ensures forall ep: nat :: ep < MAX_ENDPOINTS ==> Outstanding(Run(SetOut(r, [e])), ep) == Outstanding(r, ep)
  {
    OneAttempt(r, e);
    var t := SetOut(r, [e]);
    assert t.todo[0] == e && t.todo[1..] == [];
    StepIsHostOnly(t);
    hide Apply, Valid, Pool, Quiet;
  }

  lemma {:induction false} Delivers(r: Usb, c: Scene, e: Event)
    requires At(r, c) && MaySend(e, c)
    ensures At(Run(SetOut(r, [e])), AfterSent(c, e))
  {
    assert c.stage == Idle ==> !r.slots[0].ready;
    TakesPlace(r, e);
    hide Bytes, Outstanding, Run;
  }

  lemma {:induction false} Collects(r: Usb, c: Scene)
    requires At(r, c) && c.stage == Waiting
    ensures At(Run(SetOut(r, [Collect(0, 0)])), c.(stage := Collected))
  {
    TakesPlace(r, Collect(0, 0));
    hide Bytes, Outstanding, Run;
  }

  /** The host sends a packet. */
  method HostSends(usb: UsbdevUtils, e: Event, ghost c: Scene)
    requires usb.Inv() && At(usb.usbdev.usb, c) && MaySend(e, c)
    modifies usb.usbdev
    ensures usb.Inv() && At(usb.usbdev.usb, AfterSent(c, e))
  {
    Delivers(usb.usbdev.usb, c, e);
    hide Laws, Run, Outstanding, Bytes;
    usb.Host([e]);
  }

  /** The host collects the reply. */
  method HostCollects(usb: UsbdevUtils, ghost c: Scene)
    requires usb.Inv() && At(usb.usbdev.usb, c) && c.stage == Waiting
    modifies usb.usbdev
    ensures usb.Inv() && At(usb.usbdev.usb, c.(stage := Collected))
  {
    Collects(usb.usbdev.usb, c);
    hide Laws, Run, Outstanding;
    usb.Host([Collect(0, 0)]);
  }

  // ----- software takes its turn -----

  /** A look for collected packets that finds none. */
  method FindNone(usb: UsbdevUtils, ghost c: Scene)
    requires usb.Inv() && At(usb.usbdev.usb, c) && (c.stage == Idle || c.stage == Waiting)
    modifies usb, usb.usbdev
    ensures usb.Inv() && At(usb.usbdev.usb, c) && usb.State() == old(usb.State())
  {
    ghost var start := usb.usbdev.usb;
    NothingToFind(start, c);
    hide Laws, Valid, Outstanding, Evolved, RepliesAdvance, BadAddress, At, Course;
    ghost var ep;
    var found, trapped;
    found, trapped, ep := usb.RetrieveOne();
    StaysAt(start, usb.usbdev.usb, c, 0);
  }

  lemma {:induction false} NothingToFind(r: Usb, c: Scene)
    requires At(r, c) && (c.stage == Idle || c.stage == Waiting)
    ensures |r.todo| + |r.inSent| == 0
  {
    hide Valid, Outstanding;
  }

  /** The buffers software has are supplied. */
  method Supply(usb: UsbdevUtils, ghost c: Scene)
    requires usb.Inv() && At(usb.usbdev.usb, c)
    modifies usb, usb.usbdev
    ensures usb.Inv() && At(usb.usbdev.usb, c) && usb.State() == old(usb.State())
  {
    ghost var start := usb.usbdev.usb;
    hide Laws, Valid, Outstanding, Evolved, BothFull, DealtOut, At;
    usb.SupplyBuffers(usb.usbdev.usb.popped, Outstanding(usb.usbdev.usb, 0));
    StaysAt(start, usb.usbdev.usb, c, 0);
  }

  /** A look for received packets that finds none. */
  method ReceiveNone(usb: UsbdevUtils, ghost c: Scene)
    requires usb.Inv() && At(usb.usbdev.usb, c) && c.n == |c.ps|
    modifies usb, usb.usbdev, usb.packetData
    ensures usb.Inv() && At(usb.usbdev.usb, c) && usb.State() == old(usb.State())
  {
    ghost var start := usb.usbdev.usb;
    hide Laws, Valid, Outstanding, Evolved, Done, At, AllOutstanding, Course;
    ghost var mid;
    var found, trapped;
    found, trapped, mid := usb.ReceiveOne();
    StaysAt(start, mid, c, if found then 1 else 0);
  }

  /** The next packet, which is for endpoint zero, is taken and processed. `mid` is the moment between the two. */
  method TakeNext(usb: UsbdevUtils, ghost c: Scene) returns (ghost mid: Usb)
    requires usb.Inv() && usb.clean && At(usb.usbdev.usb, c) && c.n < |c.ps| && c.ps[c.n].ep == 0 && c.busy == 0
    modifies usb, usb.usbdev, usb.packetData
    ensures usb.Inv() && Valid(mid) && At(mid, c.(n := c.n + 1)) && (c.stage != Idle <==> Outstanding(mid, 0))
    ensures var packet := c.ps[c.n];
      Handled(usb.descriptors, mid, Noted(old(usb.State()), c.stage != Idle, packet.setup, packet.payload),
              usb.usbdev.usb, usb.State(), packet.setup, packet.payload)
    ensures SoundOrLost(usb.usbdev.usb, multiset(usb.bufAvail), usb.clean)
  {
    ghost var start := usb.usbdev.usb;
    hide Laws, Valid, Outstanding, Evolved, Done, At, SoundOrLost, AllOutstanding, Noted, Handled, Course;
    var found, trapped;
    found, trapped, mid := usb.ReceiveOne();
    IsTaken(start, mid, c, found, trapped);
  }

  /** The packet is there to be taken; and since endpoint one is idle a buffer can be had for its reply. */
  lemma {:induction false} IsTaken(r: Usb, s: Usb, c: Scene, found: bool, trapped: bool)
    requires At(r, c) && c.n < |c.ps| && c.busy == 0 && Valid(s) && Evolved(r, s, {}, if found then 1 else 0)
    requires (!found ==> s.popped >= |r.delivered|) && (trapped ==> AllOutstanding(s))
    ensures found && !trapped && At(s, c.(n := c.n + 1)) && r.popped == c.n && s.delivered == c.ps
    ensures Outstanding(s, 0) <==> c.stage != Idle
  {
    StaysAt(r, s, c, if found then 1 else 0);
    hide Valid, Outstanding, Evolved;
    assert !Outstanding(s, 1);
  }

  /** What a request answered in this moment leaves. */
  function Answers(c: Scene, reply: seq<byte>): (now: Scene) {
    c.(n := c.n + 1, replies := c.replies + [reply], stage := if c.stage == Idle then Waiting else Overlaid)
  }

  /** The next packet is a request that finds the pipe in the setup state: it is answered. */
  method Answer(usb: UsbdevUtils, ghost c: Scene)
    requires usb.Inv() && usb.clean && At(usb.usbdev.usb, c) && (c.stage == Idle || c.stage == Collected) && c.busy == 0
    requires usb.ctrlState == CtrlSetup && c.n < |c.ps| && IsRequest(c.ps[c.n])
    modifies usb, usb.usbdev, usb.packetData
    ensures usb.Inv() && usb.ctrlState == Awaiting(c.ps[c.n].payload) && usb.devState == old(usb.devState)
    ensures c.ps[c.n].payload[1] == SET_ADDRESS ==> usb.devAddr == c.ps[c.n].payload[2]
    ensures At(usb.usbdev.usb, Answers(c, Reply(usb.descriptors, c.ps[c.n].payload)))
    ensures if c.stage == Idle then usb.clean else !usb.clean && Lost(usb.usbdev.usb, multiset(usb.bufAvail))
  {
    hide Laws, Valid, Outstanding, Evolved, At, Lost, Sound, Answered, Reply, Presented;
    ghost var mid := TakeNext(usb, c);
    IsAnswered(mid, usb.usbdev.usb, c, Reply(usb.descriptors, c.ps[c.n].payload));
  }

  lemma {:induction false} IsAnswered(r: Usb, s: Usb, c: Scene, reply: seq<byte>)
    requires At(r, c.(n := c.n + 1)) && (c.stage == Idle || c.stage == Collected) && Valid(r) && Presented(r, s, reply)
    ensures At(s, Answers(c, reply))
  {
  }

  /** The next packet finds the pipe in a status state: it is answered by nothing and takes the pipe to the setup
      state. */
  method PassOver(usb: UsbdevUtils, ghost c: Scene)
    requires usb.Inv() && usb.clean && At(usb.usbdev.usb, c) && c.busy == 0
    requires usb.ctrlState != CtrlSetup && c.n < |c.ps| && c.ps[c.n].ep == 0
    modifies usb, usb.usbdev, usb.packetData
    ensures usb.Inv() && At(usb.usbdev.usb, c.(n := c.n + 1))
    ensures usb.clean && usb.ctrlState == CtrlSetup && usb.devState == old(usb.devState)
    ensures c.stage != Idle && IsRequest(c.ps[c.n]) ==> !usb.orderly
    ensures Sound(usb.usbdev.usb, multiset(usb.bufAvail))
  {
    ghost var p := usb.State();
    hide Laws, Handled, Noted, Valid, Outstanding, Evolved, At, Lost, Sound, Answered, Reply, Presented;
    ghost var mid := TakeNext(usb, c);
    IsPassedOver(usb.descriptors, mid, p, usb.usbdev.usb, usb.State(), c);
  }

  lemma {:induction false} IsPassedOver(d: Descriptors, r: Usb, p: Pipe, s: Usb, q: Pipe, c: Scene)
    requires c.n < |c.ps| && Valid(r) && At(r, c.(n := c.n + 1)) && p.ctrl != CtrlSetup
    requires var packet := c.ps[c.n];
      Handled(d, r, Noted(p, c.stage != Idle, packet.setup, packet.payload), s, q, packet.setup, packet.payload)
    ensures At(s, c.(n := c.n + 1)) && q.ctrl == CtrlSetup && q.clean == p.clean && q.devState == p.devState
    ensures c.stage != Idle && IsRequest(c.ps[c.n]) ==> !q.orderly
  {
    hide At, Valid, Answered;
    StaysAt(r, s, c.(n := c.n + 1), 0);
    hide Evolved;
  }

  // ----- the first request -----

  /** What the host sends. */
  function Setup(words: seq<u32>): (e: Event)
    requires |words| == BUFFER_WORDS
    ensures EventValid(e) && e.DeliverSetup? && Sent(e) == Packet(0, true, Bytes(words, 8))
  {
    DeliverSetup(0, 0, words, 8)
  }

  function Acknowledge(words: seq<u32>): (e: Event)
    requires |words| == BUFFER_WORDS
    ensures EventValid(e) && e.DeliverOut? && Sent(e) == Packet(0, false, Bytes(words, 0))
  {
    DeliverOut(0, 0, words, 0)
  }

  predicate Request(words: seq<u32>) {
    |words| == BUFFER_WORDS && Answered(Bytes(words, 8))
  }

  /** The first request has been taken and answered. */
  function First(d: Descriptors, first: seq<u32>): (c: Scene)
    requires Request(first)
  {
    Scene([Sent(Setup(first))], 1, [Reply(d, Bytes(first, 8))], Waiting, AV_SETUP_DEPTH - 1, AV_OUT_DEPTH, 0)
  }

  /** The first request has been sent. */
  function Opening(first: seq<u32>): (c: Scene)
    requires Request(first)
  {
    START.(ps := [Sent(Setup(first))], setups := AV_SETUP_DEPTH - 1)
  }

  lemma {:induction false} OpeningMeans(d: Descriptors, first: seq<u32>)
    requires Request(first)
    ensures var c, data := Opening(first), Bytes(first, 8);
      && MaySend(Setup(first), START) && AfterSent(START, Setup(first)) == c
      && c.stage == Idle && c.busy == 0 && c.n + 1 == |c.ps| && IsRequest(c.ps[c.n]) && c.ps[c.n].payload == data
      && Answers(c, Reply(d, data)) == First(d, first)
  {
    hide Bytes, Reply, Answered;
    assert [] + [Sent(Setup(first))] == [Sent(Setup(first))];
  }

  /** Out of reset the device gets a request. */
  method Asked(mem: seq<seq<u32>>, d: Descriptors, request: seq<u32>) returns (usb: UsbdevUtils)
    requires Memory(mem) && FitPackets(d) && Request(request)
    ensures fresh(usb) && fresh(usb.usbdev) && fresh(usb.packetData) && usb.descriptors == d && usb.Inv()
    ensures usb.State() == Pipe(CtrlSetup, 0, Powered, true, true, true)
    ensures usb.clean && usb.ctrlState == CtrlSetup && usb.devState == Powered
    ensures At(usb.usbdev.usb, Opening(request))
  {
    OpeningMeans(d, request);
    hide *;
    usb := Boot(mem, d);
    HostSends(usb, Setup(request), START);
  }

  /** It answers it, in a whole round of service. */
  method FirstRound(mem: seq<seq<u32>>, d: Descriptors, request: seq<u32>) returns (usb: UsbdevUtils)
    requires Memory(mem) && FitPackets(d) && Request(request)
    ensures fresh(usb) && fresh(usb.usbdev) && fresh(usb.packetData) && usb.descriptors == d && usb.Inv()
    ensures usb.clean && usb.ctrlState == Awaiting(Bytes(request, 8)) && usb.devState == Powered
    ensures Bytes(request, 8)[1] == SET_ADDRESS ==> usb.devAddr == Bytes(request, 8)[2]
    ensures At(usb.usbdev.usb, First(d, request))
  {
    OpeningMeans(d, request);
    usb := Asked(mem, d, request);
    hide *;
    Serves(usb, Opening(request));
  }

  /** That round, in which software finds one packet received. */
  method Serves(usb: UsbdevUtils, ghost c: Scene)
    requires usb.Inv() && usb.clean && usb.ctrlState == CtrlSetup && At(usb.usbdev.usb, c)
    requires c.stage == Idle && c.busy == 0 && c.n + 1 == |c.ps| && IsRequest(c.ps[c.n])
    modifies usb, usb.usbdev, usb.packetData
    ensures usb.Inv() && usb.clean && At(usb.usbdev.usb, Answers(c, Reply(usb.descriptors, c.ps[c.n].payload)))
    ensures usb.ctrlState == Awaiting(c.ps[c.n].payload) && usb.devState == old(usb.devState)
    ensures c.ps[c.n].payload[1] == SET_ADDRESS ==> usb.devAddr == c.ps[c.n].payload[2]
  {
    hide Laws, Valid, Outstanding, At, Lost, Sound, Reply, Awaiting, Answered, FitPackets;
    FindNone(usb, c);
    Supply(usb, c);
    Answer(usb, c);
    ReceiveNone(usb, Answers(c, Reply(usb.descriptors, c.ps[c.n].payload)));
  }

  /** The next round begins: software finds nothing collected, and then the host collects the reply. */
  method ReplyCollected(mem: seq<seq<u32>>, d: Descriptors, request: seq<u32>) returns (usb: UsbdevUtils)
    requires Memory(mem) && FitPackets(d) && Request(request)
    ensures fresh(usb) && fresh(usb.usbdev) && fresh(usb.packetData) && usb.descriptors == d && usb.Inv()
    ensures usb.clean && usb.ctrlState == Awaiting(Bytes(request, 8)) && usb.devState == Powered
    ensures Bytes(request, 8)[1] == SET_ADDRESS ==> usb.devAddr == Bytes(request, 8)[2]
    ensures At(usb.usbdev.usb, First(d, request).(stage := Collected))
  {
    usb := FirstRound(mem, d, request);
    hide Laws, Valid, Outstanding, At, Lost, Sound, Bytes, Reply, Awaiting, Answered, FitPackets;
    FindNone(usb, First(d, request));
    HostCollects(usb, First(d, request));
  }

  // ----- an acknowledgement and a request before the next look for collected packets -----

  /** What the host sends after collecting the reply to the first request. */
  function Proceeds(d: Descriptors, first: seq<u32>, status: seq<u32>, next: seq<u32>): (c: Scene)
    requires Request(first) && |status| == BUFFER_WORDS && Request(next)
    ensures c.ps == [Sent(Setup(first)), Sent(Acknowledge(status)), Sent(Setup(next))]
    ensures c == Scene(c.ps, 1, [Reply(d, Bytes(first, 8))], Collected, AV_SETUP_DEPTH - 2, AV_OUT_DEPTH - 1, 0)
  {
    hide Bytes, Reply, Answered;
    AfterSent(AfterSent(First(d, first).(stage := Collected), Acknowledge(status)), Setup(next))
  }

  /** After collecting a reply the host acknowledges it and sends its next request, all before software's next look
      for collected packets. The acknowledgement takes the pipe back to the setup state, so that the request is
      answered although the endpoint still holds the collected packet, and its buffer is lost. */
  method StatusThenRequest(mem: seq<seq<u32>>, d: Descriptors, first: seq<u32>, status: seq<u32>, next: seq<u32>)
      returns (usb: UsbdevUtils)
    requires Memory(mem) && FitPackets(d) && Request(first) && |status| == BUFFER_WORDS && Request(next)
    ensures fresh(usb) && fresh(usb.usbdev) && fresh(usb.packetData) && usb.Inv() && usb.descriptors == d
    ensures At(usb.usbdev.usb, Overtaken(d, first, status, next))
    ensures !usb.clean && Lost(usb.usbdev.usb, multiset(usb.bufAvail))
    ensures usb.ctrlState == Awaiting(Bytes(next, 8)) && usb.devState == Powered
    ensures Bytes(next, 8)[1] == SET_ADDRESS ==> usb.devAddr == Bytes(next, 8)[2]
  {
    ProceedsMeans(d, first, status, next);
    usb := ReplyCollected(mem, d, first);
    hide *;
    HostSends(usb, Acknowledge(status), First(d, first).(stage := Collected));
    HostSends(usb, Setup(next), AfterSent(First(d, first).(stage := Collected), Acknowledge(status)));
    PassesAndAnswers(usb, Proceeds(d, first, status, next));
  }

  /** The second request has been answered, and the host has not yet collected that reply. */
  function Overtaken(d: Descriptors, first: seq<u32>, status: seq<u32>, next: seq<u32>): (c: Scene)
    requires Request(first) && |status| == BUFFER_WORDS && Request(next)
    ensures |c.ps| == 3 && c.n == 3 && c.stage == Overlaid
    ensures c.replies == [Reply(d, Bytes(first, 8)), Reply(d, Bytes(next, 8))]
  {
    hide Bytes, Reply, Answered;
    var c := Proceeds(d, first, status, next);
    Answers(c.(n := 2), Reply(d, Bytes(next, 8)))
  }

  lemma {:induction false} ProceedsMeans(d: Descriptors, first: seq<u32>, status: seq<u32>, next: seq<u32>)
    requires Request(first) && |status| == BUFFER_WORDS && Request(next)
    ensures var c0, c := First(d, first).(stage := Collected), Proceeds(d, first, status, next);
      && MaySend(Acknowledge(status), c0) && MaySend(Setup(next), AfterSent(c0, Acknowledge(status)))
      && AfterSent(AfterSent(c0, Acknowledge(status)), Setup(next)) == c
      && c.stage == Collected && c.busy == 0 && c.n + 1 < |c.ps| && c.ps[c.n].ep == 0 && IsRequest(c.ps[c.n + 1])
      && c.ps[c.n + 1].payload == Bytes(next, 8)
      && Answers(c.(n := c.n + 1), Reply(d, Bytes(next, 8))) == Overtaken(d, first, status, next)
  {
    hide Bytes, Reply, Answered;
  }

  /** The rest of the round. */
  method PassesAndAnswers(usb: UsbdevUtils, ghost c: Scene)
    requires usb.Inv() && usb.clean && usb.ctrlState != CtrlSetup && At(usb.usbdev.usb, c)
    requires c.stage == Collected && c.busy == 0 && c.n + 1 < |c.ps| && c.ps[c.n].ep == 0 && IsRequest(c.ps[c.n + 1])
    modifies usb, usb.usbdev, usb.packetData
    ensures usb.Inv() && !usb.clean && Lost(usb.usbdev.usb, multiset(usb.bufAvail))
    ensures At(usb.usbdev.usb, Answers(c.(n := c.n + 1), Reply(usb.descriptors, c.ps[c.n + 1].payload)))
    ensures usb.ctrlState == Awaiting(c.ps[c.n + 1].payload) && usb.devState == old(usb.devState)
    ensures c.ps[c.n + 1].payload[1] == SET_ADDRESS ==> usb.devAddr == c.ps[c.n + 1].payload[2]
  {
    hide Laws, Valid, Outstanding, At, Lost, Bytes, Reply, Answered, Awaiting, FitPackets, Answers, Sound;
    Supply(usb, c);
    PassOver(usb, c);
    Answer(usb, c.(n := c.n + 1));
  }

  /** The next look for collected packets takes the new reply for the one collected. Its buffer is handed to software
      while the host may still collect the packet in it. */
  method BufferTwice(mem: seq<seq<u32>>, d: Descriptors, first: seq<u32>, status: seq<u32>, next: seq<u32>)
      returns (usb: UsbdevUtils, bufferId: nat)
    requires Memory(mem) && FitPackets(d) && Request(first) && |status| == BUFFER_WORDS && Request(next)
    ensures Valid(usb.usbdev.usb) && usb.usbdev.usb.slots[0].ready && usb.usbdev.usb.slots[0].buf == bufferId
    ensures (multiset(usb.bufAvail) + multiset{bufferId} + Pool(usb.usbdev.usb))[bufferId] >= 2
  {
    usb := StatusThenRequest(mem, d, first, status, next);
    ghost var c := Overtaken(d, first, status, next);
    OverlaidMeans(usb.usbdev.usb, c);
    hide Laws, At, Sound, Pool, Evolved, Lost;
    var found, ep;
    found, ep, bufferId := usb.usbdev.RetrieveCollectedPacket(multiset(usb.bufAvail));
    HeldTwice(usb.usbdev.usb, multiset(usb.bufAvail));
  }

  lemma {:induction false} OverlaidMeans(r: Usb, c: Scene)
    requires At(r, c) && c.stage == Overlaid
    ensures Valid(r) && r.todo == [] && r.inSent == {0} && r.slots[0].ready && |r.got[0]| < |r.asked[0]|
    ensures r.asked[0] == c.replies
  {
  }

  lemma {:induction false} HeldTwice(r: Usb, own: multiset<nat>)
    requires Valid(r) && Outstanding(r, 0)
    ensures var b := r.slots[0].buf; (own + multiset{b} + Pool(r))[b] >= 2
  {
    HeldAt(r, 0, MAX_ENDPOINTS);
    hide Valid, Held, Outstanding, RxBufs;
    assert r.slots[0].buf in Pool(r);
  }

  /** And the second request is completed although the host has collected only the reply to the first, whose own
      completion is never acted on. */
  method CompletedTooSoon(mem: seq<seq<u32>>, d: Descriptors, first: seq<u32>, status: seq<u32>, next: seq<u32>)
      returns (usb: UsbdevUtils, trapped: bool)
    requires Memory(mem) && FitPackets(d) && Request(first) && |status| == BUFFER_WORDS && Request(next)
    ensures trapped <==> Is(Bytes(next, 8), SET_ADDRESS) && Bytes(next, 8)[2] >= 0x80
    ensures !trapped ==> usb.devState == StateAfter([Bytes(next, 8)])
    ensures |usb.usbdev.usb.got| == MAX_ENDPOINTS && |usb.usbdev.usb.got[0]| == 1
  {
    usb := StatusThenRequest(mem, d, first, status, next);
    ghost var start, p, c := usb.usbdev.usb, usb.State(), Overtaken(d, first, status, next);
    OverlaidMeans(start, c);
    hide Laws, At, Sound, Evolved, Lost, RepliesAdvance, BadAddress, Reply, Bytes, Course, Outstanding, Valid;
    var found;
    ghost var e;
    found, trapped, e := usb.RetrieveOne();
    OneDone(Bytes(next, 8));
    NoMoreCollected(start, c, start.popped, p, usb.usbdev.usb, usb.State(), usb.sends);
  }

  lemma {:induction false} NoMoreCollected(r: Usb, c: Scene, n: nat, p: Pipe, s: Usb, q: Pipe, sends: set<nat>)
    requires At(r, c) && c.stage == Overlaid && Course(r, n, p, s, q, sends)
    ensures |s.got| == MAX_ENDPOINTS && |s.got[0]| == |c.replies| - 1
  {
    hide LeavesAlone, CleanLost, OrderLost, PromptLost;
  }

  lemma {:induction false} OneDone(data: seq<byte>)
    requires Answered(data)
    ensures StateAfter([data]) == match Awaiting(data)
                                  case StatusSetAddr => Addressed
                                  case StatusSetConfig => Configured
                                  case _ => Powered
  {
    assert [data][..0] == [];
  }

  // ----- a request alone -----

  /** After collecting a reply the host sends its next request at once. */
  function Hurries(d: Descriptors, first: seq<u32>, next: seq<u32>): (c: Scene)
    requires Request(first) && Request(next)
    ensures c == Scene([Sent(Setup(first)), Sent(Setup(next))], 1, [Reply(d, Bytes(first, 8))], Collected,
                       AV_SETUP_DEPTH - 2, AV_OUT_DEPTH, 0)
  {
    hide Bytes, Reply, Answered;
    AfterSent(First(d, first).(stage := Collected), Setup(next))
  }

  lemma {:induction false} HurriesMeans(d: Descriptors, first: seq<u32>, next: seq<u32>)
    requires Request(first) && Request(next)
    ensures var c0, c := First(d, first).(stage := Collected), Hurries(d, first, next);
      && MaySend(Setup(next), c0) && AfterSent(c0, Setup(next)) == c
      && c.stage != Idle && c.busy == 0 && c.n < |c.ps| && c.ps[c.n].ep == 0 && IsRequest(c.ps[c.n])
  {
    hide Bytes, Reply, Answered;
  }

  /** A request that comes alone after the collection is taken for the acknowledgement: it gets no reply, and no
      buffer is lost. */
  method RequestOvertakes(mem: seq<seq<u32>>, d: Descriptors, first: seq<u32>, next: seq<u32>)
      returns (usb: UsbdevUtils)
    requires Memory(mem) && FitPackets(d) && Request(first) && Request(next)
    ensures fresh(usb) && fresh(usb.usbdev) && usb.Inv() && At(usb.usbdev.usb, Hurries(d, first, next).(n := 2))
    ensures usb.ctrlState == CtrlSetup && usb.devState == Powered && !usb.orderly
    ensures Sound(usb.usbdev.usb, multiset(usb.bufAvail))
  {
    HurriesMeans(d, first, next);
    usb := ReplyCollected(mem, d, first);
    hide *;
    HostSends(usb, Setup(next), First(d, first).(stage := Collected));
    Supply(usb, Hurries(d, first, next));
    PassOver(usb, Hurries(d, first, next));
  }

  /** A request that in this way overtakes the notice that a SET_CONFIGURATION is complete undoes it: the request gets
      no reply, and when the notice comes the device does not become configured. */
  method ConfigurationForgotten(mem: seq<seq<u32>>, d: Descriptors, first: seq<u32>, next: seq<u32>)
      returns (usb: UsbdevUtils)
    requires Memory(mem) && FitPackets(d) && Request(first) && Request(next) && Is(Bytes(first, 8), SET_CONFIGURATION)
    ensures usb.Inv() && usb.devState == Powered && usb.ctrlState == CtrlSetup
  {
    usb := RequestOvertakes(mem, d, first, next);
    CollectedMeans(usb.usbdev.usb, Hurries(d, first, next).(n := 2));
    hide Laws, Valid, Outstanding, Bytes, Reply, RepliesAdvance, BadAddress, At, Course;
    ghost var ep;
    var found, trapped;
    found, trapped, ep := usb.RetrieveOne();
  }

  lemma {:induction false} CollectedMeans(r: Usb, c: Scene)
    requires At(r, c) && c.stage == Collected
    ensures r.inSent == {0}
  {
  }

  /** A host that follows a SET_ADDRESS as it should uses the new address from then on, and the device does not hear
      it before it has acted on the notice. */
  lemma {:induction false} NewAddressUnheard(r: Usb, c: Scene, e: Event)
    requires At(r, c) && EventValid(e) && (e.DeliverSetup? || e.DeliverOut? || e.Collect?) && e.addr != 0
    ensures Run(SetOut(r, [e])) == r
  {
    OneAttempt(r, e);
  }

  /** A SET_ADDRESS is answered whatever its address; once the answer has been collected the assertion fails exactly
      for an address beyond seven bits. */
  method AddressTooLarge(mem: seq<seq<u32>>, d: Descriptors, request: seq<u32>)
      returns (usb: UsbdevUtils, trapped: bool)
    requires Memory(mem) && FitPackets(d) && Request(request) && Is(Bytes(request, 8), SET_ADDRESS)
    ensures trapped <==> Bytes(request, 8)[2] >= 0x80
  {
    usb := ReplyCollected(mem, d, request);
    CollectedMeans(usb.usbdev.usb, First(d, request).(stage := Collected));
    hide Laws, Valid, Outstanding, Bytes, Reply, RepliesAdvance, BadAddress, At, Course;
    var found;
    ghost var e;
    found, trapped, e := usb.RetrieveOne();
  }

  // ----- a packet with no buffer left for its reply -----

  /** User code sends a packet on the next endpoint. */
  method Occupy(usb: UsbdevUtils, ghost c: Scene, ep: nat)
    requires usb.Inv() && usb.clean && At(usb.usbdev.usb, c) && c.busy + 1 == ep < MAX_ENDPOINTS && c.stage == Waiting
    modifies usb, usb.usbdev
    ensures usb.Inv() && usb.clean && At(usb.usbdev.usb, c.(busy := ep))
  {
    ghost var start := usb.usbdev.usb;
    SoundIfClean(usb.descriptors, start, multiset(usb.bufAvail), start.popped, Outstanding(start, 0), usb.State());
    SomeLeft(start, usb.bufAvail, c);
    hide Laws, Valid, Evolved, At, Sound, OverAfter, Outstanding;
    var ok := usb.SendData(ep, []);
    IsOccupied(start, usb.usbdev.usb, c, ep);
  }

  lemma {:induction false} SomeLeft(r: Usb, avail: set<nat>, c: Scene)
    requires Sound(r, multiset(avail)) && At(r, c) && c.busy + 1 < MAX_ENDPOINTS
    ensures avail != {} && Valid(r) && !Outstanding(r, c.busy + 1)
  {
    if avail == {} {
      AllocationFails(r, avail);
    }
    hide Sound, Valid, Outstanding;
  }

  lemma {:induction false} IsOccupied(r: Usb, s: Usb, c: Scene, ep: nat)
    requires At(r, c) && c.busy + 1 == ep < MAX_ENDPOINTS && c.stage == Waiting
    requires Valid(r) && Evolved(r, s, {ep}, 0) && Valid(s) && Outstanding(s, ep)
    ensures At(s, c.(busy := ep))
  {
  }

  /** User code has a packet waiting on every endpoint, and the host has sent seven OUT packets and a request. */
  function Crowded(d: Descriptors, first: seq<u32>, status: seq<u32>, next: seq<u32>, k: nat): (c: Scene)
    requires Request(first) && |status| == BUFFER_WORDS && Request(next) && k <= 8
    ensures |c.ps| == k + 1 && c == First(d, first).(ps := c.ps, stage := Collected, busy := MAX_ENDPOINTS - 1,
      setups := AV_SETUP_DEPTH - (if k == 8 then 2 else 1), outs := AV_OUT_DEPTH - (if k == 8 then 7 else k))
    ensures k > 0 ==> c.ps[1] == Sent(Acknowledge(status))
  {
    hide Bytes, Reply, Answered;
    if k == 0 then First(d, first).(stage := Collected, busy := MAX_ENDPOINTS - 1)
    else AfterSent(Crowded(d, first, status, next, k - 1), if k == 8 then Setup(next) else Acknowledge(status))
  }

  /** No buffer can be had for the reply to an acknowledgement that overtakes the notice, if user code has a packet
      waiting on every endpoint and the receive FIFO is full again when its buffer is released. */
  method NoBufferLeft(mem: seq<seq<u32>>, d: Descriptors, first: seq<u32>, status: seq<u32>, next: seq<u32>,
      more: seq<u32>)
      returns (usb: UsbdevUtils, trapped: bool)
    requires Memory(mem) && FitPackets(d)
    requires Request(first) && |status| == BUFFER_WORDS && Request(next) && Request(more)
    ensures trapped && usb.clean && usb.bufAvail == {} && Valid(usb.usbdev.usb) && AllOutstanding(usb.usbdev.usb)
  {
    CrowdedMeans(d, first, status, next);
    usb := FirstRound(mem, d, first);
    hide *;
    OccupyAll(usb, First(d, first));
    FindNone(usb, First(d, first).(busy := MAX_ENDPOINTS - 1));
    HostCollects(usb, First(d, first).(busy := MAX_ENDPOINTS - 1));
    HostCrowds(usb, d, first, status, next);
    Supply(usb, Crowded(d, first, status, next, 8));
    trapped := LastStraw(usb, Crowded(d, first, status, next, 8), more);
  }

  lemma {:induction false} CrowdedMeans(d: Descriptors, first: seq<u32>, status: seq<u32>, next: seq<u32>)
    requires Request(first) && |status| == BUFFER_WORDS && Request(next)
    ensures var c, f := Crowded(d, first, status, next, 8), First(d, first);
      && c.stage == Collected && c.busy == MAX_ENDPOINTS - 1 && |c.ps| == c.n + 8 && c.ps[c.n].ep == 0 && c.setups > 0
      && f.(busy := MAX_ENDPOINTS - 1).(stage := Collected) == Crowded(d, first, status, next, 0)
      && f.stage == Waiting && f.busy == 0
  {
    hide Bytes, Reply, Answered;
  }

  method OccupyAll(usb: UsbdevUtils, ghost c: Scene)
    requires usb.Inv() && usb.clean && At(usb.usbdev.usb, c) && c.busy == 0 && c.stage == Waiting
    modifies usb, usb.usbdev
    ensures usb.Inv() && usb.clean && At(usb.usbdev.usb, c.(busy := MAX_ENDPOINTS - 1))
  {
    hide Laws, Valid, At, Outstanding, FitPackets;
    ghost var now := c;
    var ep := 1;
    while ep < MAX_ENDPOINTS
      invariant 1 <= ep <= MAX_ENDPOINTS && now == c.(busy := now.busy) && now.busy + 1 == ep
      invariant usb.Inv() && usb.clean && At(usb.usbdev.usb, now)
    {
      Occupy(usb, now, ep);
      now := now.(busy := ep);
      ep := ep + 1;
    }
  }

  method HostCrowds(usb: UsbdevUtils, ghost d: Descriptors, ghost first: seq<u32>, status: seq<u32>, next: seq<u32>)
    requires Request(first) && |status| == BUFFER_WORDS && Request(next)
    requires usb.Inv() && At(usb.usbdev.usb, Crowded(d, first, status, next, 0))
    modifies usb.usbdev
    ensures usb.Inv() && At(usb.usbdev.usb, Crowded(d, first, status, next, 8))
  {
    hide Laws, Valid, At, Outstanding, Bytes, Reply, Answered, FitPackets;
    var k := 0;
    while k < 8
      invariant 0 <= k <= 8 && usb.Inv() && At(usb.usbdev.usb, Crowded(d, first, status, next, k))
    {
      HostSends(usb, if k == 7 then Setup(next) else Acknowledge(status), Crowded(d, first, status, next, k));
      k := k + 1;
    }
  }

  /** The acknowledgement is taken, one more request arrives, and only then the acknowledgement's buffer is released,
      which makes up for the buffer of that request. */
  method LastStraw(usb: UsbdevUtils, ghost c: Scene, more: seq<u32>) returns (trapped: bool)
    requires usb.Inv() && usb.clean && At(usb.usbdev.usb, c) && c.stage == Collected && c.busy == MAX_ENDPOINTS - 1
    requires |c.ps| == c.n + 8 && c.ps[c.n].ep == 0 && c.setups > 0 && Request(more)
    modifies usb, usb.usbdev, usb.packetData
    ensures trapped && usb.clean && usb.bufAvail == {} && Valid(usb.usbdev.usb) && AllOutstanding(usb.usbdev.usb)
  {
    ghost var n, waiting := usb.usbdev.usb.popped, Outstanding(usb.usbdev.usb, 0);
    hide Laws, Valid, At, Sound, Evolved, Outstanding, Taken, LastTaken, Bytes, Answered, BothFull, DealtOut, Run,
      AllOutstanding, JustTaken, Handled, NoMoreToDo, Course, Done, Holding, FitPackets;
    var bufNum, isSetup, data := TakeAck(usb, c);
    OneMore(usb, c.(n := c.n + 1), more, Holding(usb.bufAvail, bufNum), n, waiting);
    trapped := Asserts(usb, bufNum, isSetup, data, AfterSent(c.(n := c.n + 1), Setup(more)), n, waiting);
  }

  method TakeAck(usb: UsbdevUtils, ghost c: Scene) returns (bufNum: nat, isSetup: bool, data: seq<byte>)
    requires usb.Inv() && usb.clean && At(usb.usbdev.usb, c)
    requires |c.ps| == c.n + 8 && c.ps[c.n].ep == 0
    modifies usb.usbdev, usb.packetData
    ensures usb.Ready() && bufNum < BUFFER_COUNT && |data| <= MAX_PACKET_LENGTH
    ensures Laws(usb.descriptors, usb.usbdev.usb, Holding(usb.bufAvail, bufNum), old(usb.usbdev.usb.popped),
                 old(Outstanding(usb.usbdev.usb, 0)), usb.State())
    ensures At(usb.usbdev.usb, c.(n := c.n + 1)) && usb.usbdev.usb.todo == []
    ensures JustTaken(usb.usbdev.usb, old(usb.usbdev.usb.popped))
    ensures LastTaken(usb.usbdev.usb) == Packet(0, isSetup, data)
    ensures Outstanding(usb.usbdev.usb, 0) == old(Outstanding(usb.usbdev.usb, 0))
  {
    ghost var start := usb.usbdev.usb;
    hide Laws, Valid, At, Sound, Evolved, Outstanding, Taken, LastTaken, BothFull, DealtOut, JustTaken, NoMoreToDo,
      Course, Done, Holding, FitPackets;
    var found, ep;
    found, bufNum, ep, isSetup, data := usb.ReceiveKept();
    AckTaken(start, usb.usbdev.usb, c, found);
  }

  /** While the packet just taken is in software's hands another request arrives. */
  method OneMore(usb: UsbdevUtils, ghost c: Scene, more: seq<u32>, ghost own: multiset<nat>, ghost n: nat,
      ghost waiting: bool)
    requires usb.Ready() && Laws(usb.descriptors, usb.usbdev.usb, own, n, waiting, usb.State())
    requires At(usb.usbdev.usb, c) && Request(more) && MaySend(Setup(more), c)
    requires JustTaken(usb.usbdev.usb, n)
    modifies usb.usbdev
    ensures usb.Ready() && Laws(usb.descriptors, usb.usbdev.usb, own, n, waiting, usb.State())
    ensures At(usb.usbdev.usb, AfterSent(c, Setup(more)))
    ensures JustTaken(usb.usbdev.usb, n) && LastTaken(usb.usbdev.usb) == old(LastTaken(usb.usbdev.usb))
    ensures Outstanding(usb.usbdev.usb, 0) == old(Outstanding(usb.usbdev.usb, 0))
  {
    ghost var mid := usb.usbdev.usb;
    Delivers(mid, c, Setup(more));
    hide Laws, At, Outstanding, Bytes, Answered, Run, JustTaken, LastTaken, MaySend, FitPackets, SetOut;
    usb.HostAmid([Setup(more)], own, n, waiting);
    StillTaken(mid, usb.usbdev.usb, [Setup(more)], n);
  }

  /** The buffer is released, and the acknowledgement processed. */
  method Asserts(usb: UsbdevUtils, bufNum: nat, setup: bool, data: seq<byte>, ghost c: Scene, ghost n: nat,
      ghost waiting: bool) returns (trapped: bool)
    requires usb.Ready() && usb.clean && bufNum < BUFFER_COUNT && |data| <= MAX_PACKET_LENGTH
    requires Laws(usb.descriptors, usb.usbdev.usb, Holding(usb.bufAvail, bufNum), n, waiting, usb.State())
    requires JustTaken(usb.usbdev.usb, n) && LastTaken(usb.usbdev.usb) == Packet(0, setup, data)
    requires waiting == Outstanding(usb.usbdev.usb, 0) && At(usb.usbdev.usb, c)
    requires c.stage == Collected && c.busy == MAX_ENDPOINTS - 1 && |c.ps| == c.n + 8
    modifies usb, usb.usbdev
    ensures trapped && usb.clean && usb.bufAvail == {} && Valid(usb.usbdev.usb) && AllOutstanding(usb.usbdev.usb)
  {
    ghost var full := usb.usbdev.usb;
    hide Laws, Valid, At, Sound, Evolved, Outstanding, LastTaken, BothFull, DealtOut, AllOutstanding, JustTaken,
      Handled, NoMoreToDo, Course, Done, Holding, FitPackets;
    usb.BufRelease(bufNum, n, waiting);
    SoundIfClean(usb.descriptors, usb.usbdev.usb, multiset(usb.bufAvail), n, waiting, usb.State());
    NoneLeft(full, usb.usbdev.usb, usb.bufAvail, c, n);
    trapped := usb.ProcessEp0(n, setup, data);
  }

  lemma {:induction false} AckTaken(r: Usb, s: Usb, c: Scene, found: bool)
    requires At(r, c) && |c.ps| == c.n + 8 && c.ps[c.n].ep == 0
    requires Valid(r) && Valid(s) && Evolved(r, s, {}, if found then 1 else 0) && Taken(r, s, if found then 1 else 0)
    ensures found && At(s, c.(n := c.n + 1)) && s.todo == [] && JustTaken(s, r.popped) && LastTaken(s).ep == 0
    ensures Outstanding(s, 0) == Outstanding(r, 0)
  {
    StaysAt(r, s, c, if found then 1 else 0);
    TakenSince(r, s, if found then 1 else 0);
    hide Evolved, Outstanding, Undisturbed, Done;
  }

  lemma {:induction false} StillTaken(r: Usb, s: Usb, script: seq<Event>, n: nat)
    requires Valid(r) && JustTaken(r, n) && forall k :: 0 <= k < |script| ==> EventValid(script[k])
    requires s == Run(SetOut(r, script))
    ensures JustTaken(s, n) && LastTaken(s) == LastTaken(r) && Outstanding(s, 0) == Outstanding(r, 0)
  {
    HostKeepsPipe(r, script);
    hide Run, Outstanding;
  }

  /** With every endpoint and the receive FIFO full, what is left is just enough for the Available FIFOs. */
  lemma {:induction false} NoneLeft(r: Usb, s: Usb, avail: set<nat>, c: Scene, n: nat)
    requires At(r, c) && c.stage == Collected && c.busy == MAX_ENDPOINTS - 1 && |c.ps| == c.n + 8
    requires Valid(r) && JustTaken(r, n) && Evolved(r, s, {}, 0) && Sound(s, multiset(avail))
    requires avail == {} || exists a: Usb, b: Usb :: BothFull(r, a, b, s)
    ensures avail == {} && AllOutstanding(s) && JustTaken(s, n) && LastTaken(s) == LastTaken(r)
    ensures Outstanding(s, 0) == Outstanding(r, 0)
  {
    StaysAt(r, s, c, 0);
    Everywhere(s, c);
    TakenThrough(r, s, n);
    if avail != {} {
      var a: Usb, b: Usb :| BothFull(r, a, b, s);
      EvolvedSelf(r);
      SuppliedFully(r, r, a, b, s);
    }
    hide At, Evolved, BothFull, DealtOut, Sound, AllOutstanding, Valid;
    TwelveLeft(s, avail);
  }

  lemma {:induction false} TwelveLeft(r: Usb, avail: set<nat>)
    requires Sound(r, multiset(avail)) && Valid(r) && AllOutstanding(r) && |r.rx| == RX_DEPTH
    ensures |avail| + |r.avSetup| + |r.avOut| == AV_SETUP_DEPTH + AV_OUT_DEPTH
  {
    HeldAll(r, MAX_ENDPOINTS);
    hide Held, Intact, Outstanding, Valid;
    assert |multiset(avail)| + |Pool(r)| == |AllBuffers()|;
    assert |Pool(r)| == |r.avSetup| + |r.avOut| + |r.rx| + |Held(r, MAX_ENDPOINTS)|;
  }

  lemma {:induction false} Everywhere(r: Usb, c: Scene)
    requires At(r, c) && c.stage == Collected && c.busy == MAX_ENDPOINTS - 1
    ensures AllOutstanding(r)
  {
  }

  lemma {:induction false} TakenThrough(r: Usb, s: Usb, n: nat)
    requires Valid(r) && JustTaken(r, n) && Evolved(r, s, {}, 0)
    ensures Valid(s) && JustTaken(s, n) && LastTaken(s) == LastTaken(r) && Outstanding(s, 0) == Outstanding(r, 0)
  {
  }

  lemma {:induction false} HeldAll(r: Usb, n: nat)
    requires Valid(r) && n <= MAX_ENDPOINTS && forall ep :: 0 <= ep < n ==> Outstanding(r, ep)
    ensures |Held(r, n)| == n
  {
    hide Valid, Outstanding;
    if n > 0 {
      HeldAll(r, n - 1);
    }
  }
}
