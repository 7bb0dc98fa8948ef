/** Buffer management and the Default Control Pipe (scratch_sw/bare_metal/common/usbdev-utils.hh). */
module UsbUtils {
  import opened Words
  import opened UsbHardware
  import opened UsbRegisters
  import opened UsbRequests
  import opened UsbRuns
  import opened UsbDevice

  /** What is kept. In a clean run every buffer is in exactly one place: in an orderly one the Default Control
      Pipe moreover obeys its law. */
  ghost predicate Laws(d: Descriptors, r: Usb, own: multiset<nat>, n: nat, waiting: bool, p: Pipe) {
    && Valid(r) && (p.clean ==> Sound(r, own)) && (p.clean <==> r.over == [])
    && (p.orderly ==> p.clean && ControlLaw(d, r, n, waiting, p)) && (p.prompt ==> p.orderly)
  }

  /** How many replies of the Default Control Pipe are complete. */
  function Done(r: Usb): (n: int)
    requires Valid(r)
  {
    |r.asked[0]| - if Outstanding(r, 0) then 1 else 0
  }

  /** What software owns: the buffers of its bitmap and the one it has in hand. */
  function Holding(avail: set<nat>, bufNum: nat): (own: multiset<nat>) {
    multiset(avail) + multiset{bufNum}
  }

  // ----- what each step does to the state -----

  /** Presenting a packet is clean only on an endpoint with nothing outstanding. */
  function AfterSend(p: Pipe, idle: bool, ep: nat): (q: Pipe) {
    p.(clean := p.clean && idle, orderly := p.orderly && idle && ep != 0, prompt := p.prompt && idle && ep != 0)
  }

  /** A packet of the Default Control Pipe is about to be processed, perhaps while a reply is outstanding. */
  function Noted(p: Pipe, waiting: bool, setup: bool, data: seq<byte>): (q: Pipe) {
    var loses := (setup && Answered(data)) || p.ctrl == StatusSetAddr || p.ctrl == StatusSetConfig;
    p.(orderly := p.orderly && !(waiting && loses), prompt := p.prompt && !waiting)
  }

  /** A request has been answered. */
  function Replied(p: Pipe, idle: bool, data: seq<byte>): (q: Pipe)
    requires Answered(data)
  {
    p.(ctrl := Awaiting(data), devAddr := if data[1] == SET_ADDRESS then data[2] else p.devAddr,
       clean := p.clean && idle)
  }

  /** A packet has been presented on the Default Control Pipe. */
  predicate Presented(r: Usb, s: Usb, reply: seq<byte>)
    requires Valid(r)
  {
    && Evolved(r, s, {0}, 0) && Outstanding(s, 0) && s.asked[0] == r.asked[0] + [reply] && s.over == OverAfter(r, 0)
    && (r.todo == [] ==> s.slots[0].ready && s.inSent == r.inSent)
  }

  /** Exactly what processing a packet of the Default Control Pipe does, in any state: in the setup state a
      request is answered, whether or not a reply is outstanding; in a status state nothing is, whatever the
      packet, and the pipe returns to the setup state. */
  predicate Handled(d: Descriptors, r: Usb, p: Pipe, s: Usb, q: Pipe, setup: bool, data: seq<byte>)
    requires Valid(r)
  {
    if p.ctrl == CtrlSetup && setup && Answered(data) then
      Presented(r, s, Reply(d, data)) && q == Replied(p, !Outstanding(r, 0), data)
    else Evolved(r, s, {}, 0) && q == p.(ctrl := CtrlSetup)
  }

  /** A packet for the Default Control Pipe has been taken and noted, and is about to be processed. */
  ghost predicate Arrived(d: Descriptors, r: Usb, own: multiset<nat>, p: Pipe, setup: bool, data: seq<byte>) {
    && Valid(r) && 0 < r.popped <= |r.delivered| && Laws(d, r, own, r.popped - 1, Outstanding(r, 0), p)
    && (p.orderly ==> r.delivered[r.popped - 1] == Packet(0, setup, data))
    && (p.orderly && Outstanding(r, 0) ==>
      !(setup && Answered(data)) && (p.ctrl == CtrlSetup || p.ctrl == StatusGetDesc))
    && (p.prompt ==> !Outstanding(r, 0))
  }

  /** Every endpoint holds a buffer. */
  predicate AllOutstanding(r: Usb)
    requires Valid(r)
  {
    forall ep :: 0 <= ep < MAX_ENDPOINTS ==> Outstanding(r, ep)
  }

  // ----- what user code is told -----

  /** A call of a callback of user code: with a packet received, or because one it sent has been collected. */
  datatype Call = Recv(packet: Packet) | TxDone(ep: nat)

  predicate Told(before: seq<Call>, calls: seq<Call>, call: Call) {
    calls == before + [call]
  }

  /** The packets user code has been handed, in order. */
  function Heard(calls: seq<Call>): (ps: seq<Packet>) {
    if calls == [] then []
    else
      var last := calls[|calls| - 1];
      Heard(calls[..|calls| - 1]) + if last.Recv? then [last.packet] else []
  }

  /** The packets for endpoints other than zero. */
  function Others(ps: seq<Packet>): (others: seq<Packet>) {
    if ps == [] then []
    else
      var last := ps[|ps| - 1];
      Others(ps[..|ps| - 1]) + if last.ep != 0 then [last] else []
  }

  /** User code has been handed exactly the packets the host sent to its endpoints, as far as they have been taken,
      once each and in order. */
  predicate HeardAll(calls: seq<Call>, r: Usb) {
    r.popped <= |r.delivered| && Heard(calls) == Others(r.delivered[..r.popped])
  }

  /** The host does nothing, and there is nothing to retrieve or receive. */
  predicate Idle(r: Usb) {
    r.todo == [] && r.inSent == {} && r.rx == []
  }

  class UsbdevUtils {
    const usbdev: OpenTitanUsbdev
    const descriptors: Descriptors
    const packetData: array<byte>
    /** The endpoints on which callbacks of user code send. */
    const sends: set<nat>
    var bufAvail: set<nat>
    var devAddr: nat
    var devState: DeviceState
    var ctrlState: CtrlState
    /** The calls of the callbacks of endpoints other than zero. */
    ghost var calls: seq<Call>
    ghost var clean: bool
    ghost var orderly: bool
    ghost var prompt: bool

    ghost predicate Ready()
      reads this`bufAvail, usbdev
    {
      bufAvail <= UpTo(BUFFER_COUNT) && packetData.Length == MAX_PACKET_LENGTH && FitPackets(descriptors)
        && Valid(usbdev.usb)
    }

    ghost function State(): (p: Pipe)
      reads this
    {
      Pipe(ctrlState, devAddr, devState, clean, orderly, prompt)
    }

    ghost function Everything(): (all: (Usb, set<nat>, Pipe, seq<Call>))
      reads this, usbdev
    {
      (usbdev.usb, bufAvail, State(), calls)
    }

    /** What has been assumed of the host and of user code is put down. */
    ghost method Record(q: Pipe)
      requires q == State().(clean := q.clean, orderly := q.orderly, prompt := q.prompt)
      modifies this`clean, this`orderly, this`prompt
      ensures State() == q
    {
      clean, orderly, prompt := q.clean, q.orderly, q.prompt;
    }

    /** Between calls. */
    ghost predicate Inv()
      reads this, usbdev
    {
      && Ready()
      && Laws(descriptors, usbdev.usb, multiset(bufAvail), usbdev.usb.popped, Outstanding(usbdev.usb, 0), State())
    }

    constructor (dev: OpenTitanUsbdev, d: Descriptors, sends: set<nat>)
      requires Sound(dev.usb, AllBuffers()) && dev.usb.delivered == [] && dev.usb.popped == 0
      requires dev.usb.address == 0 && !Outstanding(dev.usb, 0) && dev.usb.asked[0] == [] && dev.usb.over == []
      requires FitPackets(d)
      modifies dev
      ensures Inv() && State() == Pipe(CtrlSetup, 0, Powered, true, true, true) && |calls| == 0
      ensures usbdev == dev && descriptors == d && this.sends == sends && fresh(packetData)
      ensures Evolved(old(dev.usb), dev.usb, {}, 0)
      ensures bufAvail == {} || FullSince(old(dev.usb), dev.usb)
      ensures old(dev.usb).todo == [] ==> DealtOut(old(dev.usb), dev.usb, UpTo(BUFFER_COUNT), bufAvail)
    {
      usbdev, descriptors, this.sends := dev, d, sends;
      packetData := new byte[MAX_PACKET_LENGTH];
      devAddr, devState, ctrlState := 0, Powered, CtrlSetup;
      bufAvail := UpTo(BUFFER_COUNT);
      clean, orderly, prompt, calls := true, true, true, [];
      new;
      assert |calls| == 0;
      NothingAsked(d, dev.usb);
      hide *;
      FirstSupply();
    }

    /** The first packet buffers are supplied, once by the driver's `init` and once more. */
    method FirstSupply()
      requires Ready() && Laws(descriptors, usbdev.usb, multiset(bufAvail), 0, false, State())
      requires usbdev.usb.popped == 0 && !Outstanding(usbdev.usb, 0)
      modifies this`bufAvail, usbdev
      ensures Inv() && Evolved(old(usbdev.usb), usbdev.usb, {}, 0)
      ensures bufAvail == {} || FullSince(old(usbdev.usb), usbdev.usb)
      ensures old(usbdev.usb).todo == [] ==> DealtOut(old(usbdev.usb), usbdev.usb, old(bufAvail), bufAvail)
    {
      ghost var start, all := usbdev.usb, bufAvail;
      hide Holding, Laws, Sound, Evolved, BothFull, UpTo, DealtOut, FitPackets, Outstanding;
      SupplyBuffers(0, false);
      ghost var mid, left := usbdev.usb, bufAvail;
      SupplyBuffers(0, false);
      EvolvedSelf(start);
      ThreeSteps(start, start, mid, usbdev.usb);
      SamePipe(start, usbdev.usb, {}, 0);
      DealtAgain(start, mid, usbdev.usb, all, left, bufAvail);
    }

    /** `buf_alloc`: the lowest available buffer. */
    method BufAlloc() returns (ok: bool, bufNum: nat)
      requires bufAvail <= UpTo(BUFFER_COUNT)
      modifies this`bufAvail
      ensures ok <==> old(bufAvail) != {}
      ensures !ok ==> bufAvail == old(bufAvail)
      ensures ok ==> bufNum in old(bufAvail) && bufAvail == old(bufAvail) - {bufNum} && bufNum < BUFFER_COUNT
      ensures ok ==> forall b | b in old(bufAvail) :: bufNum <= b
    {
      bufNum := 0;
      hide *;
      FromStart(bufAvail);
      if bufAvail != {} {
        while bufNum < BUFFER_COUNT
          invariant bufNum <= BUFFER_COUNT && FromIndex(bufAvail, bufAvail, bufNum) && bufAvail == old(bufAvail)
        {
          NextIndex(bufAvail, bufAvail, bufNum, multiset{});
          if bufNum in bufAvail {
            Lowest(bufAvail, bufNum);
            bufAvail := bufAvail - {bufNum};
            return true, bufNum;
          }
          bufNum := bufNum + 1;
        }
        NoneAbove(bufAvail, bufAvail);
      }
      ok := false;
    }

    /** `buf_release` */
    method BufRelease(bufNum: nat, ghost n: nat, ghost waiting: bool)
      requires Ready() && bufNum < BUFFER_COUNT
      requires Laws(descriptors, usbdev.usb, Holding(bufAvail, bufNum), n, waiting, State())
      modifies this`bufAvail, usbdev
      ensures Ready() && Evolved(old(usbdev.usb), usbdev.usb, {}, 0)
      ensures Laws(descriptors, usbdev.usb, multiset(bufAvail), n, waiting, State())
      ensures bufAvail == {} || exists a: Usb, b: Usb :: BothFull(old(usbdev.usb), a, b, usbdev.usb)
      ensures old(usbdev.usb).todo == [] ==>
        usbdev.usb.todo == [] && DealtOut(old(usbdev.usb), usbdev.usb, old(bufAvail) + {bufNum}, bufAvail)
    {
      Released(descriptors, usbdev.usb, bufAvail, bufNum, n, waiting, State());
      hide Holding, Laws, Sound, Evolved, Valid, UpTo, BothFull, DealtOut, FitPackets;
      bufAvail := bufAvail + {bufNum};
      SupplyBuffers(n, waiting);
    }

    /** `supply_buffers` */
    method SupplyBuffers(ghost n: nat, ghost waiting: bool)
      requires Ready()
      requires Laws(descriptors, usbdev.usb, multiset(bufAvail), n, waiting, State())
      modifies this`bufAvail, usbdev
      ensures Ready() && Evolved(old(usbdev.usb), usbdev.usb, {}, 0)
      ensures Laws(descriptors, usbdev.usb, multiset(bufAvail), n, waiting, State())
      ensures bufAvail == {} || exists a: Usb, b: Usb :: BothFull(old(usbdev.usb), a, b, usbdev.usb)
      ensures old(usbdev.usb).todo == [] ==>
        usbdev.usb.todo == [] && DealtOut(old(usbdev.usb), usbdev.usb, old(bufAvail), bufAvail)
    {
      ghost var start, own := usbdev.usb, multiset(bufAvail);
      hide Holding, Laws, Sound, Evolved, Valid, UpTo, BothFull, DealtOut;
      bufAvail := SupplyFrom(bufAvail, own);
      Kept(descriptors, start, usbdev.usb, own, multiset(bufAvail), n, waiting, State(), {}, 0);
    }

    method SupplyFrom(bitmap: set<nat>, ghost own: multiset<nat>) returns (left: set<nat>)
      requires Valid(usbdev.usb) && bitmap <= UpTo(BUFFER_COUNT)
      modifies usbdev
      ensures Valid(usbdev.usb) && left <= UpTo(BUFFER_COUNT) && Evolved(old(usbdev.usb), usbdev.usb, {}, 0)
      ensures old(Sound(usbdev.usb, own)) && own == multiset(bitmap) ==> Sound(usbdev.usb, multiset(left))
      ensures left == {} || exists a: Usb, b: Usb :: BothFull(old(usbdev.usb), a, b, usbdev.usb)
      ensures old(usbdev.usb).todo == [] ==>
        usbdev.usb.todo == [] && DealtOut(old(usbdev.usb), usbdev.usb, bitmap, left)
    {
      ghost var setupAt, outAt;
      ghost var none: multiset<nat> := multiset{};
      assert multiset(bitmap) + none == multiset(bitmap);
      hide *;
      left, setupAt, outAt := usbdev.SupplyBuffers(bitmap, none);
      assert multiset(left) + none == multiset(left);
    }

    /** `send_data`: fails only when no buffer is available, and then changes nothing. */
    method SendData(ep: nat, data: seq<byte>) returns (ok: bool)
      requires Inv() && ep < MAX_ENDPOINTS && |data| <= MAX_PACKET_LENGTH
      modifies this`bufAvail, this`clean, this`orderly, this`prompt, usbdev
      ensures Inv() && Evolved(old(usbdev.usb), usbdev.usb, {ep}, 0)
      ensures ok <==> old(bufAvail) != {}
      ensures !ok ==> usbdev.usb == old(usbdev.usb) && State() == old(State()) && bufAvail == old(bufAvail)
      ensures ok ==> Outstanding(usbdev.usb, ep) && usbdev.usb.asked[ep] == old(usbdev.usb.asked[ep]) + [data]
      ensures ok ==> usbdev.usb.over == old(OverAfter(usbdev.usb, ep))
      ensures ok ==> State() == AfterSend(old(State()), old(!Outstanding(usbdev.usb, ep)), ep)
    {
      ghost var p, avail := State(), bufAvail;
      EvolvedMine(usbdev.usb, {ep});
      hide Holding, Laws, Sound, Evolved, Valid, Outstanding, UpTo, FitPackets;
      var bufNum;
      ok, bufNum := BufAlloc();
      assert State() == p;
      if ok {
        InHand(avail, bufNum);
        assert Holding(bufAvail, bufNum) == multiset(avail);
        Present(bufNum, ep, data);
      }
    }

    /** The rest of `send_data`, once a buffer has been allocated. */
    method Present(bufNum: nat, ep: nat, data: seq<byte>)
      requires Valid(usbdev.usb) && ep < MAX_ENDPOINTS && |data| <= MAX_PACKET_LENGTH && bufNum < BUFFER_COUNT
      requires Laws(descriptors, usbdev.usb, Holding(bufAvail, bufNum), usbdev.usb.popped,
                    Outstanding(usbdev.usb, 0), State())
      modifies this`clean, this`orderly, this`prompt, usbdev
      ensures Valid(usbdev.usb) && Evolved(old(usbdev.usb), usbdev.usb, {ep}, 0)
      ensures Laws(descriptors, usbdev.usb, multiset(bufAvail), usbdev.usb.popped, Outstanding(usbdev.usb, 0), State())
      ensures Outstanding(usbdev.usb, ep) && usbdev.usb.asked[ep] == old(usbdev.usb.asked[ep]) + [data]
      ensures usbdev.usb.over == old(OverAfter(usbdev.usb, ep))
      ensures State() == AfterSend(old(State()), old(!Outstanding(usbdev.usb, ep)), ep)
    {
      ghost var start, idle, p := usbdev.usb, !Outstanding(usbdev.usb, ep), State();
      hide Holding, Laws, Sound, SoundOrLost, Evolved, Valid, Outstanding, UpTo, FitPackets, Accounts;
      usbdev.PacketSend(bufNum, ep, data, multiset(bufAvail));
      SendKeeps(descriptors, start, usbdev.usb, Holding(bufAvail, bufNum), multiset(bufAvail), ep, idle, p);
      Record(AfterSend(p, idle, ep));
    }

    /** A callback of another endpoint may send any packets it likes, on the endpoints that user code sends on. */
    method UserCallback(ghost call: Call)
      requires Inv()
      modifies this, usbdev
      ensures Told(old(calls), calls, call)
      ensures Inv() && NoMoreToDo(old(usbdev.usb), usbdev.usb) && OnlyAssumed(old(State()), State())
      ensures Course(old(usbdev.usb), old(usbdev.usb.popped), old(State()), usbdev.usb, State(), sends)
      ensures orderly ==> SameReplies(old(usbdev.usb), usbdev.usb)
    {
      ghost var start, p := usbdev.usb, State();
      var n: nat := *;
      calls := calls + [call];
      RepliesSelf(start);
      CourseSelf(start, start.popped, p, sends);
      hide Holding, Laws, Valid, UpTo, Outstanding, NoMoreToDo, SameReplies, FitPackets, Course, Told;
      while n > 0
        invariant Inv() && Valid(start) && NoMoreToDo(start, usbdev.usb) && OnlyAssumed(p, State())
        invariant Course(start, start.popped, p, usbdev.usb, State(), sends)
        invariant orderly ==> SameReplies(start, usbdev.usb)
        invariant Told(old(calls), calls, call)
      {
        CallbackSend(start, p);
        n := n - 1;
      }
    }

    method CallbackSend(ghost start: Usb, ghost p: Pipe)
      requires Inv() && Valid(start) && NoMoreToDo(start, usbdev.usb) && OnlyAssumed(p, State())
      requires Course(start, start.popped, p, usbdev.usb, State(), sends)
      requires orderly ==> SameReplies(start, usbdev.usb)
      modifies this`bufAvail, this`clean, this`orderly, this`prompt, usbdev
      ensures Inv() && NoMoreToDo(start, usbdev.usb) && OnlyAssumed(p, State())
      ensures Course(start, start.popped, p, usbdev.usb, State(), sends)
      ensures orderly ==> SameReplies(start, usbdev.usb)
    {
      hide Holding, Laws, Evolved, Valid, UpTo, Outstanding, NoMoreToDo, SameReplies, FitPackets, Course, OverAfter;
      var ep: nat, data: seq<byte> := *, *;
      if ep in sends && ep < MAX_ENDPOINTS && |data| <= MAX_PACKET_LENGTH {
        ghost var was, q := usbdev.usb, State();
        SoundIfClean(descriptors, was, multiset(bufAvail), was.popped, Outstanding(was, 0), q);
        var ok := SendData(ep, data);
        RepliesTrans(start, was, usbdev.usb, {ep});
        if ok {
          SendCourse(was, start.popped, q, usbdev.usb, ep, data, sends);
          CourseTrans(start, start.popped, p, was, start.popped, q, usbdev.usb, State(), sends);
        }
      }
    }

    // ----- processing a packet of the Default Control Pipe -----

    /** Presents a reply from the buffer allocated for it. */
    method SendFrom(bufNum: nat, reply: seq<byte>)
      requires Valid(usbdev.usb) && bufNum < BUFFER_COUNT && |reply| <= MAX_PACKET_LENGTH
      modifies usbdev
      ensures Valid(usbdev.usb) && Presented(old(usbdev.usb), usbdev.usb, reply)
      ensures old(Sound(usbdev.usb, Holding(bufAvail, bufNum))) ==>
        SoundOrLost(usbdev.usb, multiset(bufAvail), old(!Outstanding(usbdev.usb, 0)))
    {
      ghost var start := usbdev.usb;
      hide *;
      usbdev.PacketSend(bufNum, 0, reply, multiset(bufAvail));
      IsPresented(start, usbdev.usb, reply);
    }

    /** Releases the buffer allocated for a reply that is not sent. */
    method Decline(bufNum: nat, setup: bool, data: seq<byte>)
      requires Ready() && bufNum < BUFFER_COUNT && ctrlState == CtrlSetup && (orderly ==> !(setup && Answered(data)))
      requires Arrived(descriptors, usbdev.usb, Holding(bufAvail, bufNum), State(), setup, data)
      modifies this`bufAvail, usbdev
      ensures Inv() && Evolved(old(usbdev.usb), usbdev.usb, {}, 0) && (clean ==> Sound(usbdev.usb, multiset(bufAvail)))
    {
      ghost var start := usbdev.usb;
      ArrivedMeans(descriptors, start, Holding(bufAvail, bufNum), State(), setup, data);
      hide Holding, Arrived, Laws, Sound, Evolved, Valid, Answered, Outstanding, BothFull, DealtOut, UpTo, FitPackets;
      ghost var n, waiting := start.popped - 1, Outstanding(start, 0);
      BufRelease(bufNum, n, waiting);
      DeclineKeeps(descriptors, start, usbdev.usb, n, multiset(bufAvail), State(), setup, data);
      SoundIfClean(descriptors, usbdev.usb, multiset(bufAvail), usbdev.usb.popped, Outstanding(usbdev.usb, 0), State());
    }

    /** The requests of `ep0_recv`; the buffer is to be released when no reply was sent. Where the source stalls
        the endpoint, and for a request it does not know, nothing is sent. */
    method HandleRequest(bufNum: nat, data: seq<byte>) returns (release: bool)
      requires Ready() && bufNum < BUFFER_COUNT && |data| == 8 && ctrlState == CtrlSetup
      requires Arrived(descriptors, usbdev.usb, Holding(bufAvail, bufNum), State(), true, data)
      modifies this`clean, this`orderly, this`prompt, this`ctrlState, this`devAddr, usbdev
      ensures Ready() && (release <==> !Answered(data))
      ensures release ==> usbdev.usb == old(usbdev.usb) && State() == old(State())
      ensures !release ==> Inv() && Answering(old(usbdev.usb), old(State()), usbdev.usb, State(), data)
      ensures !release && old(clean) ==> SoundOrLost(usbdev.usb, multiset(bufAvail), clean)
    {
      ghost var own := Holding(bufAvail, bufNum);
      ArrivedMeans(descriptors, usbdev.usb, own, State(), true, data);
      release := false;
      hide Holding, Arrived, Laws, Sound, SoundOrLost, Evolved, Valid, WLength, WValue, UpTo, Presented, Outstanding;
      var wValue := WValue(data);
      if data[1] == GET_DESCRIPTOR {
        if data[3] == DESC_TYPE_DEVICE {
          Respond(bufNum, Shortened(descriptors.device, WLength(data)), data, StatusGetDesc);
        } else if data[3] == DESC_TYPE_CONFIGURATION {
          Respond(bufNum, Shortened(descriptors.config, WLength(data)), data, StatusGetDesc);
        } else {
          release := true;
        }
      } else if data[1] == SET_ADDRESS {
        devAddr := wValue % 0x100;
        Respond(bufNum, [], data, StatusSetAddr);
      } else if data[1] == SET_CONFIGURATION {
        Respond(bufNum, [], data, StatusSetConfig);
      } else if data[1] == VENDOR_TEST_CONFIG {
        Respond(bufNum, Shortened(descriptors.test, WLength(data)), data, StatusGetDesc);
      } else {
        ctrlState := CtrlSetup;
        release := true;
      }
    }

    ghost predicate Answering(r: Usb, p: Pipe, s: Usb, q: Pipe, data: seq<byte>)
      requires Valid(r)
    {
      Answered(data) && Presented(r, s, Reply(descriptors, data)) && q == Replied(p, !Outstanding(r, 0), data)
    }

    /** Presents the reply to a request from the buffer allocated for it. */
    method SendReply(bufNum: nat, reply: seq<byte>, data: seq<byte>)
      requires Ready() && bufNum < BUFFER_COUNT && |reply| <= MAX_PACKET_LENGTH
      requires Arrived(descriptors, usbdev.usb, Holding(bufAvail, bufNum), State(), true, data)
      requires Answered(data) && reply == Reply(descriptors, data) && ctrlState == CtrlSetup
      requires Awaiting(data) == StatusSetAddr ==> devAddr == data[2]
      modifies usbdev
      ensures Valid(usbdev.usb) && Presented(old(usbdev.usb), usbdev.usb, reply)
      ensures clean ==> SoundOrLost(usbdev.usb, multiset(bufAvail), old(!Outstanding(usbdev.usb, 0)))
      ensures Laws(descriptors, usbdev.usb, multiset(bufAvail), usbdev.usb.popped, Outstanding(usbdev.usb, 0),
                   State().(ctrl := Awaiting(data), clean := clean && old(!Outstanding(usbdev.usb, 0))))
    {
      ghost var start, idle, p := usbdev.usb, !Outstanding(usbdev.usb, 0), State();
      ghost var own, left := Holding(bufAvail, bufNum), multiset(bufAvail);
      ArrivedSound(descriptors, start, own, p, true, data);
      hide Holding, Laws, Evolved, Arrived, Sound, SoundOrLost, Valid, Reply, Answered, Awaiting, Outstanding, UpTo,
        Presented, FitPackets, Ready;
      SendFrom(bufNum, reply);
      ReplyKeeps(descriptors, start, usbdev.usb, own, left, idle, p, data);
    }

    /** The request is then awaited. */
    method Respond(bufNum: nat, reply: seq<byte>, data: seq<byte>, next: CtrlState)
      requires Ready() && bufNum < BUFFER_COUNT && |reply| <= MAX_PACKET_LENGTH
      requires Arrived(descriptors, usbdev.usb, Holding(bufAvail, bufNum), State(), true, data)
      requires Answered(data) && reply == Reply(descriptors, data) && ctrlState == CtrlSetup && next == Awaiting(data)
      requires next == StatusSetAddr ==> devAddr == data[2]
      modifies this`clean, this`orderly, this`prompt, this`ctrlState, usbdev
      ensures Inv() && Presented(old(usbdev.usb), usbdev.usb, reply)
      ensures State() == old(State()).(ctrl := next, clean := old(clean && !Outstanding(usbdev.usb, 0)))
      ensures old(clean) ==> SoundOrLost(usbdev.usb, multiset(bufAvail), clean)
    {
      hide Holding, Laws, Evolved, Arrived, Sound, SoundOrLost, Valid, Reply, Answered, Awaiting, Outstanding, UpTo,
        Presented, FitPackets;
      ghost var idle := !Outstanding(usbdev.usb, 0);
      SendReply(bufNum, reply, data);
      Record(State().(clean := clean && idle));
      ctrlState := next;
    }

    /** `ep0_recv`: exactly what `Handled` says, unless no buffer can be had for a reply and its assertion fails.
        When a reply is presented over one still outstanding, a buffer is lost. */
    method Ep0Recv(setup: bool, data: seq<byte>) returns (trapped: bool)
      requires Ready() && |data| <= MAX_PACKET_LENGTH
      requires Arrived(descriptors, usbdev.usb, multiset(bufAvail), State(), setup, data)
      modifies this`bufAvail, this`clean, this`orderly, this`prompt, this`ctrlState, this`devAddr, usbdev
      ensures trapped <==> old(bufAvail) == {}
      ensures trapped ==> Ready() && usbdev.usb == old(usbdev.usb) && State() == old(State()) && bufAvail == {}
      ensures !trapped ==>
        Inv() && Handled(descriptors, old(usbdev.usb), old(State()), usbdev.usb, State(), setup, data)
      ensures !trapped && old(clean) ==> SoundOrLost(usbdev.usb, multiset(bufAvail), clean)
    {
      hide Holding, Arrived, Laws, Sound, Valid, Evolved, Answered, Presented, Outstanding, Inv, Ready, Replied, Reply;
      var ok, bufNum := AllocReply(setup, data);
      trapped := !ok;
      if ok {
        var release := true;
        if ctrlState == CtrlSetup {
          if setup && |data| == 8 {
            release := HandleRequest(bufNum, data);
          }
        } else {
          ctrlState := CtrlSetup;
        }
        if release {
          Decline(bufNum, setup, data);
        }
      }
    }

    /** The buffer allocated at the start of `ep0_recv`. */
    method AllocReply(setup: bool, data: seq<byte>) returns (ok: bool, bufNum: nat)
      requires Ready()
      requires Arrived(descriptors, usbdev.usb, multiset(bufAvail), State(), setup, data)
      modifies this`bufAvail
      ensures Ready() && Valid(usbdev.usb) && (ok <==> old(bufAvail) != {}) && (!ok ==> bufAvail == {})
      ensures ok ==> bufNum < BUFFER_COUNT && (Answered(data) ==> |data| == 8)
      ensures ok ==> (orderly && setup && Answered(data) ==> ctrlState == CtrlSetup)
      ensures ok ==> Arrived(descriptors, usbdev.usb, Holding(bufAvail, bufNum), State(), setup, data)
      ensures ok ==>
        Arrived(descriptors, usbdev.usb, Holding(bufAvail, bufNum), State().(ctrl := CtrlSetup), setup, data)
    {
      ghost var p, avail := State(), bufAvail;
      ArrivedMeans(descriptors, usbdev.usb, multiset(avail), p, setup, data);
      OnlyEight(data);
      hide Holding, Arrived, Laws, Sound, Valid, Answered, UpTo, FitPackets;
      ok, bufNum := BufAlloc();
      assert State() == p;
      if ok {
        InHand(avail, bufNum);
        assert Holding(bufAvail, bufNum) == multiset(avail);
      }
    }

    // ----- servicing -----

    /** `ep0_sent`: the reply has been collected, so the request takes effect, unless it is a SET_ADDRESS beyond
        seven bits, for which the assertion fails. */
    method Ep0Sent() returns (trapped: bool)
      requires Ready() && (orderly ==> !Outstanding(usbdev.usb, 0))
      requires Laws(descriptors, usbdev.usb, multiset(bufAvail), usbdev.usb.popped, true, State())
      modifies this`devState, this`ctrlState, usbdev
      ensures Ready() && NoMoreToDo(old(usbdev.usb), usbdev.usb) && SameReplies(old(usbdev.usb), usbdev.usb)
      ensures Undisturbed(old(usbdev.usb), usbdev.usb)
      ensures trapped <==> old(ctrlState) == StatusSetAddr && devAddr >= 0x80
      ensures trapped && orderly ==> BadAddress(usbdev.usb)
      ensures !trapped ==> Inv() && State() == Collected(old(State()))
    {
      ghost var start, own, p := usbdev.usb, multiset(bufAvail), State();
      ghost var at;
      hide Holding, Laws, Sound, Evolved, Valid, BadAddress, NoMoreToDo, SameReplies, Outstanding, UpTo, FitPackets,
        Undisturbed;
      trapped, at := CompleteRequest(own);
      if trapped {
        BadAddressLaw(descriptors, start, at, own, p);
      } else {
        SentKeeps(descriptors, start, at, usbdev.usb, own, p);
      }
    }

    /** The request takes effect; `at` is the device before its address is written. */
    method CompleteRequest(ghost own: multiset<nat>) returns (trapped: bool, ghost at: Usb)
      requires Valid(usbdev.usb)
      modifies this`devState, this`ctrlState, usbdev
      ensures trapped <==> old(ctrlState) == StatusSetAddr && devAddr >= 0x80
      ensures Valid(at) && Evolved(old(usbdev.usb), at, {}, 0)
      ensures usbdev.usb == if !trapped && old(ctrlState) == StatusSetAddr then WriteAddress(at, devAddr) else at
      ensures old(Sound(usbdev.usb, own)) ==> Sound(at, own)
      ensures !trapped ==> State() == Collected(old(State()))
    {
      ghost var p := State();
      hide Sound, Evolved, Valid;
      trapped := false;
      if ctrlState == StatusSetAddr {
        devState := Addressed;
        var ok;
        ok, at := usbdev.SetDeviceAddress(devAddr, own);
        if !ok {
          return true, at;
        }
        ctrlState := CtrlSetup;
        assert State() == Collected(p);
      } else {
        at := usbdev.usb;
        EvolvedSelf(at);
        if ctrlState == StatusSetConfig {
          devState := Configured;
          ctrlState := CtrlSetup;
        } else {
          ctrlState := CtrlSetup;
        }
        assert State() == Collected(p);
      }
    }

    /** One round of the first loop of `service`: a collected packet gives its buffer back and is reported. */
    method RetrieveOne() returns (found: bool, trapped: bool, ghost ep: nat)
      requires Inv()
      modifies this, usbdev
      ensures Ready() && (trapped ==> found) && (!trapped ==> Inv())
      ensures 0 in old(usbdev.usb.inSent) ==> found && (trapped <==> old(ctrlState == StatusSetAddr && devAddr >= 0x80))
      ensures 0 in old(usbdev.usb.inSent) && !trapped ==> State() == Collected(old(State()))
      ensures !found ==>
        old(usbdev.usb.inSent) == {} && Evolved(old(usbdev.usb), usbdev.usb, {}, 0) && State() == old(State())
      ensures trapped && orderly ==> BadAddress(usbdev.usb)
      ensures |usbdev.usb.todo| + |usbdev.usb.inSent| + (if found then 1 else 0)
        <= |old(usbdev.usb.todo)| + |old(usbdev.usb.inSent)|
      ensures Course(old(usbdev.usb), old(usbdev.usb.popped), old(State()), usbdev.usb, State(), sends)
      ensures usbdev.usb.popped == old(usbdev.usb.popped)
      ensures !found && old(usbdev.usb.todo) == [] ==> Everything() == old(Everything())
      ensures if found && ep != 0 then Told(old(calls), calls, TxDone(ep)) else calls == old(calls)
      ensures old(HeardAll(calls, usbdev.usb)) ==> HeardAll(calls, usbdev.usb)
      ensures orderly ==> RepliesAdvance(old(usbdev.usb), usbdev.usb)
    {
      ghost var start, p, told := usbdev.usb, State(), calls;
      hide Holding, Laws, Sound, Evolved, Valid, UpTo, Outstanding, SameReplies, RepliesAdvance, BadAddress,
        FitPackets, Given, Course, Undisturbed, Told;
      trapped := false;
      var endpointId;
      found, endpointId := RetrieveBuffer();
      ep := endpointId;
      ghost var after := usbdev.usb;
      GivenMeans(start, after, found, ep, orderly);
      UndisturbedCourse(start, start.popped, p, after, State(), sends);
      if found {
        trapped := Notify(endpointId, start.popped);
        CourseTrans(start, start.popped, p, after, start.popped, p, usbdev.usb, State(), sends);
        if orderly {
          AdvanceTrans(start, after, usbdev.usb);
        }
      }
      StillHeard(start, p, usbdev.usb, State(), told, calls, sends);
    }

    /** The callback of the endpoint whose packet has been collected. */
    method Notify(ep: nat, ghost n: nat) returns (trapped: bool)
      requires Ready() && n == usbdev.usb.popped && (ep == 0 && orderly ==> !Outstanding(usbdev.usb, 0))
      requires Laws(descriptors, usbdev.usb, multiset(bufAvail), n, ep == 0 || Outstanding(usbdev.usb, 0), State())
      modifies this, usbdev
      ensures Ready() && (trapped ==> ep == 0) && (!trapped ==> Inv()) && NoMoreToDo(old(usbdev.usb), usbdev.usb)
      ensures Course(old(usbdev.usb), n, old(State()), usbdev.usb, State(), sends)
      ensures ep == 0 ==> (trapped <==> old(ctrlState == StatusSetAddr && devAddr >= 0x80))
      ensures ep == 0 && !trapped ==> State() == Collected(old(State()))
      ensures trapped && orderly ==> BadAddress(usbdev.usb)
      ensures orderly ==> SameReplies(old(usbdev.usb), usbdev.usb)
      ensures if ep != 0 then Told(old(calls), calls, TxDone(ep)) else calls == old(calls)
    {
      ghost var start, p := usbdev.usb, State();
      hide Holding, Laws, Sound, Evolved, Valid, UpTo, Outstanding, SameReplies, BadAddress, FitPackets, Course,
        Undisturbed, Told, NoMoreToDo;
      trapped := false;
      if ep == 0 {
        trapped := Ep0Sent();
        UndisturbedCourse(start, n, p, usbdev.usb, State(), sends);
      } else {
        UserCallback(TxDone(ep));
      }
    }

    /** A collected packet is retrieved and its buffer released. */
    method RetrieveBuffer() returns (found: bool, ep: nat)
      requires Ready()
      requires Laws(descriptors, usbdev.usb, multiset(bufAvail), usbdev.usb.popped, Outstanding(usbdev.usb, 0), State())
      modifies this`bufAvail, usbdev
      ensures Ready() && Valid(usbdev.usb) && Given(old(usbdev.usb), usbdev.usb, found, ep, orderly)
      ensures Laws(descriptors, usbdev.usb, multiset(bufAvail), usbdev.usb.popped, old(Outstanding(usbdev.usb, 0)),
        State())
      ensures !found && old(usbdev.usb.todo) == [] ==> usbdev.usb == old(usbdev.usb) && bufAvail == old(bufAvail)
    {
      ghost var start, own, n, waiting := usbdev.usb, multiset(bufAvail), usbdev.usb.popped, Outstanding(usbdev.usb, 0);
      SoundIfClean(descriptors, start, own, n, waiting, State());
      hide Holding, Laws, Sound, Evolved, Valid, UpTo, Outstanding, FitPackets, BothFull, DealtOut, Given;
      var bufNum;
      found, ep, bufNum := usbdev.RetrieveCollectedPacket(own);
      if found {
        IsGiven(start, usbdev.usb, true, ep, orderly);
        Kept(descriptors, start, usbdev.usb, own, own + multiset{bufNum}, n, waiting, State(), {ep}, 0);
        ReleaseRetrieved(bufNum, ep, start, n, waiting);
      } else {
        IsGiven(start, usbdev.usb, false, ep, orderly);
        Kept(descriptors, start, usbdev.usb, own, own, n, waiting, State(), {}, 0);
      }
    }

    method ReleaseRetrieved(bufNum: nat, ghost ep: nat, ghost start: Usb, ghost n: nat, ghost waiting: bool)
      requires Ready() && bufNum < BUFFER_COUNT && Valid(start) && Given(start, usbdev.usb, true, ep, orderly)
        && n == start.popped
      requires Laws(descriptors, usbdev.usb, Holding(bufAvail, bufNum), n, waiting, State())
      modifies this`bufAvail, usbdev
      ensures Ready() && Valid(usbdev.usb) && Given(start, usbdev.usb, true, ep, orderly) && usbdev.usb.popped == n
      ensures Laws(descriptors, usbdev.usb, multiset(bufAvail), n, waiting, State())
    {
      ghost var after := usbdev.usb;
      hide Holding, Laws, Sound, Evolved, Valid, UpTo, Outstanding, FitPackets, BothFull, DealtOut, Given;
      BufRelease(bufNum, n, waiting);
      GivenThen(start, after, usbdev.usb, ep, orderly);
    }

    /** The oldest received packet is taken and its buffer released. */
    method TakePacket() returns (found: bool, ep: nat, isSetup: bool, data: seq<byte>)
      requires Ready()
      requires Laws(descriptors, usbdev.usb, multiset(bufAvail), usbdev.usb.popped, Outstanding(usbdev.usb, 0), State())
      modifies this`bufAvail, usbdev, packetData
      ensures Ready() && |data| <= MAX_PACKET_LENGTH && Evolved(old(usbdev.usb), usbdev.usb, {}, if found then 1 else 0)
      ensures Taken(old(usbdev.usb), usbdev.usb, if found then 1 else 0)
      ensures usbdev.usb.popped == old(usbdev.usb.popped) + if found then 1 else 0
      ensures Laws(descriptors, usbdev.usb, multiset(bufAvail), old(usbdev.usb.popped), Outstanding(usbdev.usb, 0),
                   State())
      ensures found && clean ==> LastTaken(usbdev.usb) == Packet(ep, isSetup, data)
      ensures !found && old(usbdev.usb.todo) == [] ==> usbdev.usb == old(usbdev.usb) && bufAvail == old(bufAvail)
    {
      ghost var start, n, waiting := usbdev.usb, usbdev.usb.popped, Outstanding(usbdev.usb, 0);
      hide *;
      var bufNum;
      found, bufNum, ep, isSetup, data := ReceiveKept();
      if !found {
        return;
      }
      ReleaseTaken(bufNum, start, n, waiting);
    }

    /** A packet is taken, its buffer still in hand. */
    method ReceiveKept() returns (found: bool, bufNum: nat, ep: nat, isSetup: bool, data: seq<byte>)
      requires Ready()
      requires Laws(descriptors, usbdev.usb, multiset(bufAvail), usbdev.usb.popped, Outstanding(usbdev.usb, 0), State())
      modifies usbdev, packetData
      ensures Ready() && Valid(usbdev.usb) && |data| <= MAX_PACKET_LENGTH && bufNum < BUFFER_COUNT
      ensures var taken := if found then 1 else 0;
        Evolved(old(usbdev.usb), usbdev.usb, {}, taken) && Taken(old(usbdev.usb), usbdev.usb, taken)
      ensures !found ==> usbdev.usb.popped == old(usbdev.usb.popped)
      ensures !found && old(usbdev.usb.todo) == [] ==> usbdev.usb == old(usbdev.usb)
      ensures !found ==>
        Laws(descriptors, usbdev.usb, multiset(bufAvail), old(usbdev.usb.popped), Outstanding(usbdev.usb, 0), State())
      ensures found ==>
        Laws(descriptors, usbdev.usb, Holding(bufAvail, bufNum), old(usbdev.usb.popped),
             old(Outstanding(usbdev.usb, 0)), State())
      ensures found && clean ==> LastTaken(usbdev.usb) == Packet(ep, isSetup, data)
    {
      ghost var start, own, n, waiting := usbdev.usb, multiset(bufAvail), usbdev.usb.popped, Outstanding(usbdev.usb, 0);
      SoundIfClean(descriptors, start, own, n, waiting, State());
      hide Holding, Laws, Sound, Evolved, Valid, UpTo, Outstanding, FitPackets, Taken, LastTaken;
      found, bufNum, ep, isSetup, data := ReceiveData(own);
      ghost var left := if found then own + multiset{bufNum} else own;
      Kept(descriptors, start, usbdev.usb, own, left, n, waiting, State(), {}, if found then 1 else 0);
      IsHolding(bufAvail, bufNum);
      SamePipe(start, usbdev.usb, {}, if found then 1 else 0);
    }

    method ReleaseTaken(bufNum: nat, ghost start: Usb, ghost n: nat, ghost waiting: bool)
      requires Ready() && bufNum < BUFFER_COUNT && Valid(start) && n == start.popped
      requires Evolved(start, usbdev.usb, {}, 1) && Taken(start, usbdev.usb, 1)
      requires Laws(descriptors, usbdev.usb, Holding(bufAvail, bufNum), n, waiting, State())
      modifies this`bufAvail, usbdev
      ensures Ready() && Valid(usbdev.usb) && Evolved(start, usbdev.usb, {}, 1) && Taken(start, usbdev.usb, 1)
      ensures LastTaken(usbdev.usb) == old(LastTaken(usbdev.usb))
      ensures usbdev.usb.popped == n + 1 && Outstanding(usbdev.usb, 0) == Outstanding(start, 0)
      ensures Laws(descriptors, usbdev.usb, multiset(bufAvail), n, waiting, State())
    {
      ghost var after := usbdev.usb;
      hide Holding, Laws, Sound, Evolved, Valid, UpTo, Outstanding, FitPackets, BothFull, DealtOut, Taken, LastTaken;
      BufRelease(bufNum, n, waiting);
      TakenThen(start, after, usbdev.usb, 1);
    }

    method ReceiveData(ghost own: multiset<nat>) returns (found: bool, bufNum: nat, ep: nat, isSetup: bool,
        data: seq<byte>)
      requires Ready()
      modifies usbdev, packetData
      ensures Ready() && Valid(usbdev.usb) && |data| <= MAX_PACKET_LENGTH && bufNum < BUFFER_COUNT
      ensures Evolved(old(usbdev.usb), usbdev.usb, {}, if found then 1 else 0)
      ensures Taken(old(usbdev.usb), usbdev.usb, if found then 1 else 0)
      ensures !found && old(usbdev.usb.todo) == [] ==> usbdev.usb == old(usbdev.usb)
      ensures !found && old(Sound(usbdev.usb, own)) ==> Sound(usbdev.usb, own)
      ensures found && old(Sound(usbdev.usb, own)) ==>
        Sound(usbdev.usb, own + multiset{bufNum}) && LastTaken(usbdev.usb) == Packet(ep, isSetup, data)
    {
      ghost var start := usbdev.usb;
      NothingReceived(start);
      hide Holding, Valid, Sound, Evolved, UpTo, Taken, FitPackets;
      var size;
      found, bufNum, ep, size, isSetup := usbdev.PacketReceive(packetData, own);
      data := packetData[..size];
      TakenMeans(start, usbdev.usb, if found then 1 else 0);
    }

    /** One round of the second loop: the oldest received packet is taken and processed. `mid` is the moment
        between the two. */
    method ReceiveOne() returns (found: bool, trapped: bool, ghost mid: Usb)
      requires Inv()
      modifies this, usbdev, packetData
      ensures Ready() && (trapped ==> found) && (!trapped ==> Inv())
      ensures Valid(mid) && Evolved(old(usbdev.usb), mid, {}, if found then 1 else 0)
      ensures !found ==> usbdev.usb == mid && State() == old(State()) && mid.popped >= |old(usbdev.usb.delivered)|
      ensures found && old(clean) ==> Took(old(usbdev.usb.popped), old(State()), mid, trapped)
      ensures trapped ==> usbdev.usb == mid && clean == old(clean)
      ensures |usbdev.usb.todo| + |usbdev.usb.rx| + (if found then 1 else 0)
        <= |old(usbdev.usb.todo)| + |old(usbdev.usb.rx)|
      ensures Course(old(usbdev.usb), old(usbdev.usb.popped), old(State()), usbdev.usb, State(), sends)
      ensures trapped ==> !prompt && (orderly ==> clean) && (clean ==> AllOutstanding(usbdev.usb))
      ensures !trapped && orderly ==> Done(usbdev.usb) == old(Done(usbdev.usb))
      ensures FirstPacket(usbdev.usb, old(usbdev.usb.popped), old(Outstanding(usbdev.usb, 0)))
      ensures found ==> usbdev.usb.popped > old(usbdev.usb.popped)
      ensures !found && old(usbdev.usb.todo) == [] ==> Everything() == old(Everything())
      ensures old(clean) && old(HeardAll(calls, usbdev.usb)) ==> HeardAll(calls, usbdev.usb)
    {
      ghost var start, p, told := usbdev.usb, State(), calls;
      hide Holding, Laws, Sound, Evolved, Valid, UpTo, Outstanding, Done, FitPackets, AllOutstanding, Took, Ready,
        Course, Undisturbed, JustTaken, FirstPacket, HeardAll, Told;
      trapped := false;
      var ep, isSetup, data;
      found, ep, isSetup, data := TakePacket();
      mid := usbdev.usb;
      TakenSince(start, mid, if found then 1 else 0);
      UndisturbedCourse(start, start.popped, p, mid, p, sends);
      if found {
        trapped := ProcessTaken(start.popped, ep, isSetup, data);
        CourseTrans(start, start.popped, p, mid, start.popped, p, usbdev.usb, State(), sends);
      } else {
        CourseSelf(mid, start.popped, p, sends);
      }
      PacketTaken(start, mid, p, usbdev.usb, State(), told, calls, if found then 1 else 0, sends);
    }

    method ProcessTaken(ghost n: nat, ep: nat, setup: bool, data: seq<byte>) returns (trapped: bool)
      requires Ready() && |data| <= MAX_PACKET_LENGTH && JustTaken(usbdev.usb, n)
      requires Laws(descriptors, usbdev.usb, multiset(bufAvail), n, Outstanding(usbdev.usb, 0), State())
      requires clean ==> LastTaken(usbdev.usb) == Packet(ep, setup, data)
      modifies this, usbdev
      ensures Ready() && (!trapped ==> Inv()) && NoMoreToDo(old(usbdev.usb), usbdev.usb)
      ensures Course(old(usbdev.usb), n, old(State()), usbdev.usb, State(), sends)
      ensures trapped ==> !prompt && (orderly ==> clean) && (clean ==> AllOutstanding(usbdev.usb))
      ensures old(clean) ==> Took(n, old(State()), old(usbdev.usb), trapped)
      ensures trapped ==> usbdev.usb == old(usbdev.usb) && clean == old(clean)
      ensures !trapped && orderly ==> Done(usbdev.usb) == old(Done(usbdev.usb))
      ensures if ep == 0 then calls == old(calls) else Told(old(calls), calls, Recv(Packet(ep, setup, data)))
    {
      hide Holding, Laws, Sound, Evolved, Valid, UpTo, Outstanding, Handled, Done, FitPackets, AllOutstanding, Noted,
        NoMoreToDo, Course, JustTaken;
      trapped := false;
      TakenAt(usbdev.usb, n);
      if ep == 0 {
        trapped := ProcessEp0(n, setup, data);
      } else {
        ProcessOther(n, Packet(ep, setup, data));
      }
    }

    /** A packet for the Default Control Pipe, just taken, is processed. */
    method ProcessEp0(ghost n: nat, setup: bool, data: seq<byte>) returns (trapped: bool)
      requires Ready() && |data| <= MAX_PACKET_LENGTH && JustTaken(usbdev.usb, n)
      requires Laws(descriptors, usbdev.usb, multiset(bufAvail), n, Outstanding(usbdev.usb, 0), State())
      requires clean ==> LastTaken(usbdev.usb) == Packet(0, setup, data)
      modifies this`bufAvail, this`clean, this`orderly, this`prompt, this`ctrlState, this`devAddr, usbdev
      ensures Ready() && (!trapped ==> Inv()) && NoMoreToDo(old(usbdev.usb), usbdev.usb)
      ensures Course(old(usbdev.usb), n, old(State()), usbdev.usb, State(), sends)
      ensures trapped ==> !prompt && (orderly ==> clean) && (clean ==> AllOutstanding(usbdev.usb))
      ensures trapped <==> old(bufAvail) == {}
      ensures trapped ==> usbdev.usb == old(usbdev.usb) && clean == old(clean) && bufAvail == {}
      ensures !trapped ==>
        Handled(descriptors, old(usbdev.usb), Noted(old(State()), old(Outstanding(usbdev.usb, 0)), setup, data),
                usbdev.usb, State(), setup, data)
      ensures !trapped && old(clean) ==> SoundOrLost(usbdev.usb, multiset(bufAvail), clean)
      ensures !trapped && orderly ==> Done(usbdev.usb) == old(Done(usbdev.usb))
    {
      ghost var start, own, p, waiting := usbdev.usb, multiset(bufAvail), State(), Outstanding(usbdev.usb, 0);
      TakenAt(start, n);
      NotedCourse(descriptors, start, n, own, p, setup, data, sends);
      Arrives(descriptors, start, multiset(bufAvail), p, setup, data);
      RepliesSelf(start);
      if clean && bufAvail == {} {
        AllocationFails(start, bufAvail);
      }
      Record(Noted(p, waiting, setup, data));
      hide Holding, Laws, Sound, Evolved, Valid, UpTo, Handled, Done, FitPackets, Arrived, NoMoreToDo, Noted,
        Answered, Outstanding, AllOutstanding, Course, JustTaken;
      trapped := Ep0Recv(setup, data);
      if !trapped {
        HandledMeans(descriptors, start, p, usbdev.usb, State(), setup, data);
        HandledCourse(descriptors, start, n, own, p, usbdev.usb, State(), setup, data, sends);
      }
    }

    /** A packet for another endpoint is reported to user code. */
    method ProcessOther(ghost n: nat, ghost packet: Packet)
      requires Ready() && JustTaken(usbdev.usb, n)
      requires Laws(descriptors, usbdev.usb, multiset(bufAvail), n, Outstanding(usbdev.usb, 0), State())
      requires clean ==> LastTaken(usbdev.usb).ep != 0
      modifies this, usbdev
      ensures Inv() && NoMoreToDo(old(usbdev.usb), usbdev.usb)
      ensures Course(old(usbdev.usb), n, old(State()), usbdev.usb, State(), sends)
      ensures orderly ==> Done(usbdev.usb) == old(Done(usbdev.usb))
      ensures Told(old(calls), calls, Recv(packet))
    {
      ghost var start, p := usbdev.usb, State();
      CourseSelf(start, n, p, sends);
      PassesBy(descriptors, start, n, multiset(bufAvail), p);
      hide Holding, Laws, Sound, Evolved, Valid, UpTo, Outstanding, Done, FitPackets, SameReplies, NoMoreToDo, Course,
        JustTaken, LastTaken;
      UserCallback(Recv(packet));
      CourseTrans(start, n, p, start, start.popped, p, usbdev.usb, State(), sends);
      if orderly {
        RepliesDone(start, usbdev.usb);
      }
    }

    /** `service`: collected packets first, then buffers for reception, then received packets. Every packet
        delivered before the call has been taken, and a reply collected before it is complete. Each assumption that
        fails has failed for its reason (`Course`). As long as things are prompt an assertion of the code fails only
        for a SET_ADDRESS beyond seven bits. */
    method Service() returns (trapped: bool)
      requires Inv()
      modifies this, usbdev, packetData
      ensures Ready() && (!trapped ==> Inv())
      ensures Course(old(usbdev.usb), old(usbdev.usb.popped), old(State()), usbdev.usb, State(), sends)
      ensures !trapped ==> usbdev.usb.popped >= |old(usbdev.usb.delivered)|
      ensures !trapped && orderly ==> Done(usbdev.usb) >= old(Done(usbdev.usb))
      ensures !trapped && orderly && old(0 in usbdev.usb.inSent) ==> Done(usbdev.usb) > old(Done(usbdev.usb))
      ensures !trapped && orderly && old(0 in usbdev.usb.inSent) ==>
        FirstPacket(usbdev.usb, old(usbdev.usb.popped), false)
      ensures clean && old(HeardAll(calls, usbdev.usb)) ==> HeardAll(calls, usbdev.usb)
      ensures old(Idle(usbdev.usb)) ==>
        && !trapped && State() == old(State()) && calls == old(calls)
        && DealtOut(old(usbdev.usb), usbdev.usb, old(bufAvail), bufAvail)
      ensures trapped && orderly ==> BadAddress(usbdev.usb) || (AllOutstanding(usbdev.usb) && !prompt)
    {
      ghost var first, p := usbdev.usb, State();
      hide Holding, Laws, Sound, Evolved, Valid, UpTo, Outstanding, Done, BadAddress, FitPackets, AllOutstanding,
        Course, Undisturbed, FirstPacket;
      trapped := RetrieveAll();
      if !trapped {
        ghost var retrieved, q := usbdev.usb, State();
        Resupply();
        ghost var supplied := usbdev.usb;
        SuppliedHeard(retrieved, supplied, calls);
        CourseThen(first, first.popped, p, retrieved, q, supplied, sends);
        trapped := ReceiveAll();
        CourseTrans(first, first.popped, p, supplied, supplied.popped, q, usbdev.usb, State(), sends);
        CourseMeans(supplied, supplied.popped, q, usbdev.usb, State(), sends);
      }
    }

    /** The call of `supply_buffers` between the two loops. */
    method Resupply()
      requires Inv()
      modifies this`bufAvail, usbdev
      ensures Inv() && Undisturbed(old(usbdev.usb), usbdev.usb) && Done(usbdev.usb) == old(Done(usbdev.usb))
      ensures Outstanding(usbdev.usb, 0) == old(Outstanding(usbdev.usb, 0))
      ensures usbdev.usb.popped == old(usbdev.usb.popped)
      ensures old(usbdev.usb.todo) == [] ==>
        usbdev.usb.todo == [] && DealtOut(old(usbdev.usb), usbdev.usb, old(bufAvail), bufAvail)
    {
      ghost var start := usbdev.usb;
      hide Holding, Laws, Sound, Evolved, Valid, UpTo, Outstanding, Done, FitPackets, Course, Undisturbed, BothFull,
        DealtOut;
      SupplyBuffers(usbdev.usb.popped, Outstanding(usbdev.usb, 0));
      SamePipe(start, usbdev.usb, {}, 0);
      SameDone(start, usbdev.usb, {}, 0);
      HostDisturbsNot(start, usbdev.usb, {}, 0);
    }

    /** The state of `service` between two rounds of its first loop, which began at `start`; the last round began
        at `was`. */
    ghost predicate Retrieving(start: Usb, p: Pipe, told: seq<Call>, was: Usb, found: bool, trapped: bool)
      reads this, usbdev
    {
      && Ready() && (!trapped ==> Inv()) && Valid(start) && Valid(was) && usbdev.usb.popped == start.popped
      && Course(start, start.popped, p, usbdev.usb, State(), sends)
      && (trapped && orderly ==> BadAddress(usbdev.usb))
      && (HeardAll(told, start) ==> HeardAll(calls, usbdev.usb))
      && (orderly ==> RepliesAdvance(start, was) && RepliesAdvance(was, usbdev.usb))
      && (!found ==> was.inSent == {})
    }

    /** Another round of the first loop. */
    method RetrieveAgain(ghost start: Usb, ghost p: Pipe, ghost told: seq<Call>, ghost was: Usb)
        returns (found: bool, trapped: bool)
      requires Retrieving(start, p, told, was, true, false)
      modifies this, usbdev
      ensures Retrieving(start, p, told, old(usbdev.usb), found, trapped)
      ensures |usbdev.usb.todo| + |usbdev.usb.inSent| + (if found then 1 else 0)
        <= |old(usbdev.usb.todo)| + |old(usbdev.usb.inSent)|
    {
      ghost var last, q := usbdev.usb, State();
      hide Holding, Laws, Valid, UpTo, Outstanding, BadAddress, FitPackets, RepliesAdvance, Done, Evolved, Course,
        HeardAll, Told;
      if orderly {
        AdvanceTrans(start, was, last);
      }
      CourseMeans(start, start.popped, p, last, q, sends);
      ghost var ep;
      found, trapped, ep := RetrieveOne();
      CourseTrans(start, start.popped, p, last, last.popped, q, usbdev.usb, State(), sends);
    }

    /** The first loop of `service`. */
    method RetrieveAll() returns (trapped: bool)
      requires Inv()
      modifies this, usbdev
      ensures Ready() && (!trapped ==> Inv())
      ensures Course(old(usbdev.usb), old(usbdev.usb.popped), old(State()), usbdev.usb, State(), sends)
      ensures trapped && orderly ==> BadAddress(usbdev.usb)
      ensures usbdev.usb.popped == old(usbdev.usb.popped)
      ensures old(usbdev.usb.todo == [] && usbdev.usb.inSent == {}) ==> !trapped && Everything() == old(Everything())
      ensures old(HeardAll(calls, usbdev.usb)) ==> HeardAll(calls, usbdev.usb)
      ensures !trapped && orderly ==> Done(usbdev.usb) >= old(Done(usbdev.usb))
      ensures !trapped && orderly && old(0 in usbdev.usb.inSent) ==>
        Done(usbdev.usb) > old(Done(usbdev.usb)) && !Outstanding(usbdev.usb, 0)
    {
      ghost var start, was, p, told := usbdev.usb, usbdev.usb, State(), calls;
      RepliesSelf(start);
      AdvanceTrans(start, start, start);
      hide Holding, Laws, Valid, UpTo, Outstanding, BadAddress, FitPackets, RepliesAdvance, Done, Evolved, Course,
        HeardAll, Told;
      var found;
      ghost var ep;
      found, trapped, ep := RetrieveOne();
      assert Retrieving(start, p, told, was, found, trapped);
      while found && !trapped
        invariant Retrieving(start, p, told, was, found, trapped)
        invariant start.todo == [] && start.inSent == {} ==> !found && !trapped && Everything() == old(Everything())
        decreases |usbdev.usb.todo| + |usbdev.usb.inSent|, found
      {
        ghost var last := usbdev.usb;
        found, trapped := RetrieveAgain(start, p, told, was);
        was := last;
      }
      if !trapped && orderly {
        AllRetrieved(start, was, usbdev.usb);
      }
    }

    /** The state between two rounds of the second loop. */
    ghost predicate Receiving(start: Usb, p: Pipe, told: seq<Call>, found: bool, trapped: bool)
      reads this, usbdev
    {
      && Ready() && (!trapped ==> Inv()) && Valid(start)
      && Course(start, start.popped, p, usbdev.usb, State(), sends)
      && (trapped ==> !prompt && (orderly ==> clean) && (clean ==> AllOutstanding(usbdev.usb)))
      && (!found ==> usbdev.usb.popped >= |start.delivered|) && (found ==> usbdev.usb.popped > start.popped)
      && (!trapped && orderly ==> Done(usbdev.usb) == Done(start))
      && FirstPacket(usbdev.usb, start.popped, Outstanding(start, 0))
      && (clean && HeardAll(told, start) ==> HeardAll(calls, usbdev.usb))
    }

    /** Another round of the second loop. */
    method ReceiveAgain(ghost start: Usb, ghost p: Pipe, ghost told: seq<Call>) returns (found: bool, trapped: bool)
      requires Receiving(start, p, told, true, false)
      modifies this, usbdev, packetData
      ensures Receiving(start, p, told, found, trapped)
      ensures |usbdev.usb.todo| + |usbdev.usb.rx| + (if found then 1 else 0)
        <= |old(usbdev.usb.todo)| + |old(usbdev.usb.rx)|
    {
      ghost var was, q := usbdev.usb, State();
      hide Holding, Laws, Valid, UpTo, Outstanding, FitPackets, Done, AllOutstanding, Evolved, Took, Course,
        FirstPacket, HeardAll;
      CourseMeans(start, start.popped, p, was, q, sends);
      ghost var mid;
      found, trapped, mid := ReceiveOne();
      CourseTrans(start, start.popped, p, was, was.popped, q, usbdev.usb, State(), sends);
      FirstRemains(was, was.popped, q, usbdev.usb, State(), start.popped, Outstanding(start, 0), sends);
    }

    /** The second loop of `service`. */
    method ReceiveAll() returns (trapped: bool)
      requires Inv()
      modifies this, usbdev, packetData
      ensures Ready() && (!trapped ==> Inv())
      ensures Course(old(usbdev.usb), old(usbdev.usb.popped), old(State()), usbdev.usb, State(), sends)
      ensures !trapped ==> usbdev.usb.popped >= |old(usbdev.usb.delivered)|
      ensures trapped ==> !prompt && (orderly ==> clean) && (clean ==> AllOutstanding(usbdev.usb))
      ensures !trapped && orderly ==> Done(usbdev.usb) == old(Done(usbdev.usb))
      ensures FirstPacket(usbdev.usb, old(usbdev.usb.popped), old(Outstanding(usbdev.usb, 0)))
      ensures clean && old(HeardAll(calls, usbdev.usb)) ==> HeardAll(calls, usbdev.usb)
      ensures old(usbdev.usb.todo == [] && usbdev.usb.rx == []) ==> !trapped && Everything() == old(Everything())
    {
      ghost var start, p, told := usbdev.usb, State(), calls;
      hide Holding, Laws, Valid, UpTo, Outstanding, FitPackets, Done, AllOutstanding, Evolved, Took, Course,
        FirstPacket, HeardAll;
      var found;
      ghost var mid;
      found, trapped, mid := ReceiveOne();
      assert Receiving(start, p, told, found, trapped);
      while found && !trapped
        invariant Receiving(start, p, told, found, trapped)
        invariant start.todo == [] && start.rx == [] ==> !found && !trapped && Everything() == old(Everything())
        decreases |usbdev.usb.todo| + |usbdev.usb.rx|, found
      {
        found, trapped := ReceiveAgain(start, p, told);
      }
    }

    /** The host makes some attempts at this very moment. */
    method Host(script: seq<Event>)
      requires Inv() && usbdev.usb.todo == [] && forall k :: 0 <= k < |script| ==> EventValid(script[k])
      modifies usbdev
      ensures Inv() && usbdev.usb == Run(SetOut(old(usbdev.usb), script))
    {
      ghost var start := usbdev.usb;
      HostKeepsPipe(start, script);
      hide Holding, Laws, Sound, Valid, Run, Outstanding;
      HostAmid(script, multiset(bufAvail), start.popped, Outstanding(start, 0));
    }

    /** The same in the midst of a call. */
    method HostAmid(script: seq<Event>, ghost own: multiset<nat>, ghost n: nat, ghost waiting: bool)
      requires Ready() && Laws(descriptors, usbdev.usb, own, n, waiting, State())
      requires usbdev.usb.todo == [] && forall k :: 0 <= k < |script| ==> EventValid(script[k])
      modifies usbdev
      ensures Ready() && usbdev.usb == Run(SetOut(old(usbdev.usb), script))
      ensures Laws(descriptors, usbdev.usb, own, n, waiting, State())
    {
      ghost var start := usbdev.usb;
      HostKeepsLaws(descriptors, start, script, own, n, waiting, State());
      hide Holding, Laws, Sound, Valid, Run;
      usbdev.Play(script, own);
    }

    /** Whatever was next among the packets delivered has been taken; on the Default Control Pipe it has been
        processed exactly as `Handled` says, and a buffer lost if it was a request answered too early. */
    ghost predicate Took(n: int, p: Pipe, mid: Usb, trapped: bool)
      requires Valid(mid)
      reads this, usbdev
    {
      0 <= n < |mid.delivered| &&
      var packet := mid.delivered[n];
      packet.ep == 0 && !trapped ==>
        && Handled(descriptors, mid, Noted(p, Outstanding(mid, 0), packet.setup, packet.payload), usbdev.usb, State(),
                   packet.setup, packet.payload)
        && SoundOrLost(usbdev.usb, multiset(bufAvail), clean)
    }
  }

  /** What the fields hold is the same. */
  predicate OnlyAssumed(p: Pipe, q: Pipe) {
    q == p.(clean := q.clean, orderly := q.orderly, prompt := q.prompt)
  }

  /** A send of user code. */
  lemma {:induction false} SendCourse(r: Usb, n: nat, p: Pipe, s: Usb, ep: nat, data: seq<byte>, sends: set<nat>)
    requires Valid(r) && ep < MAX_ENDPOINTS && Evolved(r, s, {ep}, 0) && ep in sends && (p.clean <==> r.over == [])
    requires Valid(s) && s.asked[ep] == r.asked[ep] + [data] && s.over == OverAfter(r, ep)
    ensures Course(r, n, p, s, AfterSend(p, !Outstanding(r, ep), ep), sends)
  {
    assert Outstanding(r, ep) ==> s.over[|r.over|] == ep;
  }

  lemma {:induction false} Lowest(avail: set<nat>, b: nat)
    requires FromIndex(avail, avail, b) && b in avail
    ensures b < BUFFER_COUNT && forall c | c in avail :: b <= c
  {
  }

  lemma {:induction false} InHand(avail: set<nat>, b: nat)
    requires b in avail
    ensures multiset(avail) == Holding(avail - {b}, b)
  {
  }

  lemma {:induction false} IsHolding(avail: set<nat>, b: nat)
    ensures Holding(avail, b) == multiset(avail) + multiset{b}
  {
  }

  lemma {:induction false} EvolvedMine(r: Usb, mine: set<nat>)
    requires Valid(r)
    ensures Evolved(r, r, mine, 0)
  {
  }

  lemma {:induction false} EvolvedValid(r: Usb, s: Usb, mine: set<nat>, taken: nat)
    requires Valid(r) && Evolved(r, s, mine, taken)
    ensures Valid(s)
  {
  }

  /** Nothing has been presented on the Default Control Pipe, and its reply, if collected, still counts so. */
  predicate SameReplies(r: Usb, s: Usb)
    requires Valid(r) && Valid(s)
  {
    && |s.asked[0]| == |r.asked[0]| && Outstanding(s, 0) == Outstanding(r, 0)
    && (0 in r.inSent ==> 0 in s.inSent)
  }

  lemma {:induction false} RepliesSelf(r: Usb)
    requires Valid(r)
    ensures SameReplies(r, r) && NoMoreToDo(r, r)
  {
  }

  lemma {:induction false} RepliesTrans(r: Usb, s: Usb, t: Usb, mine: set<nat>)
    requires Valid(r) && Valid(s) && Evolved(s, t, mine, 0)
    ensures Valid(t) && (0 !in mine && SameReplies(r, s) ==> SameReplies(r, t))
    ensures NoMoreToDo(r, s) ==> NoMoreToDo(r, t)
  {
  }

  // ----- steps of the laws -----

  lemma {:induction false} NothingAsked(d: Descriptors, r: Usb)
    requires Valid(r) && Sound(r, AllBuffers()) && r.delivered == [] && r.popped == 0 && r.address == 0
      && r.asked[0] == [] && r.over == []
    ensures Laws(d, r, multiset(UpTo(BUFFER_COUNT)), 0, false, Pipe(CtrlSetup, 0, Powered, true, true, true))
  {
  }

  lemma {:induction false} SoundIfClean(d: Descriptors, r: Usb, own: multiset<nat>, n: nat, waiting: bool, p: Pipe)
    requires Laws(d, r, own, n, waiting, p)
    ensures Valid(r) && (p.clean ==> Sound(r, own)) && (p.orderly ==> p.clean) && (p.prompt ==> p.orderly)
    ensures p.clean <==> r.over == []
  {
  }

  lemma {:induction false} Kept(d: Descriptors, r: Usb, s: Usb, own: multiset<nat>, left: multiset<nat>, n: nat,
      waiting: bool, p: Pipe, mine: set<nat>, taken: nat)
    requires Laws(d, r, own, n, waiting, p)
    requires Valid(r) && Evolved(r, s, mine, taken) && (p.clean && Sound(r, own) ==> Sound(s, left))
    requires 0 in mine ==> Valid(s) && s.asked[0] == r.asked[0]
    requires mine != {} ==> s.over == r.over
    ensures Valid(s) && Laws(d, s, left, n, waiting, p)
  {
    EvolvedValid(r, s, mine, taken);
    SameOver(r, s, mine, taken);
    SameAsked0(r, s, mine, taken);
    hide Sound, Evolved, ControlLaw;
    if p.orderly {
      LawEvolves(d, r, s, n, waiting, p, mine, taken);
    }
  }

  lemma {:induction false} SameOver(r: Usb, s: Usb, mine: set<nat>, taken: nat)
    requires Valid(r) && Evolved(r, s, mine, taken)
    ensures mine == {} ==> s.over == r.over
  {
  }

  lemma {:induction false} SameAsked0(r: Usb, s: Usb, mine: set<nat>, taken: nat)
    requires Valid(r) && Evolved(r, s, mine, taken)
    ensures 0 !in mine ==> s.asked[0] == r.asked[0]
  {
  }

  /** A buffer in software's hand is not also in the bitmap. */
  lemma {:induction false} Released(d: Descriptors, r: Usb, avail: set<nat>, b: nat, n: nat, waiting: bool, p: Pipe)
    requires avail <= UpTo(BUFFER_COUNT) && b < BUFFER_COUNT
    requires Laws(d, r, Holding(avail, b), n, waiting, p)
    ensures avail + {b} <= UpTo(BUFFER_COUNT)
    ensures Laws(d, r, multiset(avail + {b}), n, waiting, p)
  {
    if p.clean {
      CountedOnce(r, Holding(avail, b), b);
    }
  }

  lemma {:induction false} SendKeeps(d: Descriptors, r: Usb, s: Usb, own: multiset<nat>, left: multiset<nat>, ep: nat,
      idle: bool, p: Pipe)
    requires Valid(r) && ep < MAX_ENDPOINTS && Evolved(r, s, {ep}, 0) && Valid(s)
    requires Laws(d, r, own, r.popped, Outstanding(r, 0), p)
    requires Sound(r, own) ==> SoundOrLost(s, left, idle)
    requires s.over == OverAfter(r, ep) && (idle <==> !Outstanding(r, ep))
    ensures Laws(d, s, left, s.popped, Outstanding(s, 0), AfterSend(p, idle, ep))
  {
    hide Sound, Lost, ControlLaw, Valid, Quiet;
    if p.orderly && idle && ep != 0 {
      LawEvolves(d, r, s, r.popped, Outstanding(r, 0), p, {ep}, 0);
      SamePromise(d, s, s.popped, Outstanding(s, 0), p, AfterSend(p, idle, ep));
    }
  }

  /** The law does not ask whether things have been clean, and loses nothing when they are no longer prompt. */
  lemma {:induction false} SamePromise(d: Descriptors, r: Usb, n: nat, waiting: bool, p: Pipe, q: Pipe)
    requires Valid(r) && ControlLaw(d, r, n, waiting, p)
    requires q == p.(clean := q.clean, orderly := q.orderly, prompt := q.prompt) && (q.prompt ==> p.prompt)
    ensures ControlLaw(d, r, n, waiting, q)
  {
    hide Requests, AddressAfter, StateAfter, Replies, Valid;
  }

  lemma {:induction false} SamePipe(r: Usb, s: Usb, mine: set<nat>, taken: nat)
    requires Valid(r) && Evolved(r, s, mine, taken)
    ensures Valid(s) && (0 !in mine ==> Outstanding(s, 0) == Outstanding(r, 0))
    ensures s.popped == r.popped + taken && r.delivered <= s.delivered && s.popped <= |s.delivered|
    ensures |s.todo| + |s.rx| + taken <= |r.todo| + |r.rx| && |s.todo| + |s.inSent| <= |r.todo| + |r.inSent|
    ensures taken == 0 ==> NoMoreToDo(r, s)
  {
  }

  /** The host's remaining attempts and the work they left have not grown. */
  predicate NoMoreToDo(r: Usb, s: Usb) {
    && s.popped == r.popped && r.delivered <= s.delivered
    && |s.todo| + |s.rx| <= |r.todo| + |r.rx| && |s.todo| + |s.inSent| <= |r.todo| + |r.inSent|
  }

  // ----- processing a packet of the Default Control Pipe -----

  lemma {:induction false} ArrivedMeans(d: Descriptors, r: Usb, own: multiset<nat>, p: Pipe, setup: bool,
      data: seq<byte>)
    requires Arrived(d, r, own, p, setup, data)
    ensures Valid(r) && 0 < r.popped <= |r.delivered| && Laws(d, r, own, r.popped - 1, Outstanding(r, 0), p)
    ensures (p.clean ==> Sound(r, own)) && (p.orderly ==> p.clean)
    ensures p.orderly && setup && Answered(data) ==> !Outstanding(r, 0) && p.ctrl == CtrlSetup
    ensures Arrived(d, r, own, p.(ctrl := CtrlSetup), setup, data)
    ensures p.ctrl == CtrlSetup ==> forall a: nat :: Arrived(d, r, own, p.(devAddr := a), setup, data)
  {
    hide ControlLaw, Sound, Valid, Answered;
    if p.orderly {
      LawReturnsToSetup(d, r, r.popped - 1, Outstanding(r, 0), p);
      if p.ctrl == CtrlSetup {
        assert forall a: nat :: p.(ctrl := CtrlSetup, devAddr := a) == p.(devAddr := a);
      }
    }
  }

  lemma {:induction false} ArrivedSound(d: Descriptors, r: Usb, own: multiset<nat>, p: Pipe, setup: bool,
      data: seq<byte>)
    requires Arrived(d, r, own, p, setup, data)
    ensures Valid(r) && (p.clean ==> Sound(r, own))
  {
  }

  lemma {:induction false} IsPresented(r: Usb, s: Usb, reply: seq<byte>)
    requires Valid(r) && Evolved(r, s, {0}, 0) && Valid(s) && Outstanding(s, 0) && s.asked[0] == r.asked[0] + [reply]
    requires s.over == OverAfter(r, 0)
    requires r.todo == [] ==> s.inSent == r.inSent && exists b: nat :: s.slots[0] == InSlot(b, |reply|, true, false)
    ensures Presented(r, s, reply)
  {
    hide Valid, Evolved, Outstanding;
  }

  lemma {:induction false} ReplyKeeps(d: Descriptors, r: Usb, s: Usb, own: multiset<nat>, left: multiset<nat>,
      idle: bool, p: Pipe, data: seq<byte>)
    requires Valid(r) && Valid(s) && Answered(data) && Presented(r, s, Reply(d, data)) && (idle <==> !Outstanding(r, 0))
    requires Arrived(d, r, own, p, true, data) && p.ctrl == CtrlSetup
    requires Awaiting(data) == StatusSetAddr ==> p.devAddr == data[2]
    requires Sound(r, own) ==> SoundOrLost(s, left, idle)
    ensures Laws(d, s, left, s.popped, Outstanding(s, 0), p.(ctrl := Awaiting(data), clean := p.clean && idle))
    ensures p.clean ==> SoundOrLost(s, left, idle)
  {
    hide Sound, Lost, ControlLaw, Valid, Reply, Awaiting, Answered;
    if p.orderly {
      LawReplies(d, r, s, r.popped - 1, p, p.(ctrl := Awaiting(data), clean := p.clean && idle));
    }
  }

  lemma {:induction false} DeclineKeeps(d: Descriptors, r: Usb, s: Usb, n: nat, left: multiset<nat>, p: Pipe,
      setup: bool, data: seq<byte>)
    requires Valid(r) && Evolved(r, s, {}, 0) && Valid(s) && r.popped == n + 1 <= |r.delivered|
    requires p.orderly ==> r.delivered[n] == Packet(0, setup, data) && !(setup && Answered(data))
    requires Laws(d, s, left, n, Outstanding(r, 0), p)
    ensures Laws(d, s, left, s.popped, Outstanding(s, 0), p)
  {
    hide Sound, ControlLaw, Valid, Answered;
    if p.orderly {
      LawSkips(d, s, n, Outstanding(s, 0), p);
    }
  }

  /** No buffer can be had for a reply only when every endpoint holds one: the reception side holds at most
      twenty. So there is always one when the reply endpoint has nothing outstanding. */
  lemma {:induction false} AllocationFails(r: Usb, avail: set<nat>)
    requires Sound(r, multiset(avail)) && avail == {}
    ensures AllOutstanding(r)
  {
    HeldFew(r, MAX_ENDPOINTS);
    hide Held, Intact;
    assert |multiset(avail)| + |Pool(r)| == |AllBuffers()|;
    assert |Pool(r)| == |r.avSetup| + |r.avOut| + |r.rx| + |Held(r, MAX_ENDPOINTS)|;
  }

  lemma {:induction false} OnlyEight(data: seq<byte>)
    ensures Answered(data) ==> |data| == 8
  {
  }

  function WValue(data: seq<byte>): (n: nat)
    requires |data| == 8
    ensures n % 0x100 == data[2]
  {
    var lo: int, hi: int := data[2], data[3];
    lo + 0x100 * hi
  }

  // ----- completing a request -----

  /** The last request is a SET_ADDRESS beyond the seven bits of an address. */
  predicate BadAddress(r: Usb) {
    r.popped <= |r.delivered| &&
    var reqs := Requests(r.delivered[..r.popped]);
    reqs != [] && reqs[|reqs| - 1][1] == SET_ADDRESS && reqs[|reqs| - 1][2] >= 0x80
  }

  lemma {:induction false} BadAddressLaw(d: Descriptors, r: Usb, s: Usb, own: multiset<nat>, p: Pipe)
    requires Valid(r) && Evolved(r, s, {}, 0) && p.ctrl == StatusSetAddr && p.devAddr >= 0x80
    requires Laws(d, r, own, r.popped, true, p)
    ensures p.orderly ==> BadAddress(s)
    ensures Valid(s) && NoMoreToDo(r, s) && SameReplies(r, s) && Undisturbed(r, s)
  {
    EvolvedValid(r, s, {}, 0);
    SamePipe(r, s, {}, 0);
    RepliesSelf(r);
    RepliesTrans(r, r, s, {});
    HostDisturbsNot(r, s, {}, 0);
    if p.orderly {
      LawOf(d, r, own, r.popped, true, p);
      LawEvolves(d, r, s, r.popped, true, p, {}, 0);
      hide ControlLaw, BadAddress, Laws, Evolved, Valid;
      AwaitsBadAddress(d, s, p);
    }
  }

  lemma {:induction false} AwaitsBadAddress(d: Descriptors, r: Usb, p: Pipe)
    requires Valid(r) && ControlLaw(d, r, r.popped, true, p) && p.ctrl == StatusSetAddr && p.devAddr >= 0x80
    ensures BadAddress(r)
  {
    hide Valid, Requests, AddressAfter, StateAfter, Replies;
  }

  lemma {:induction false} SentKeeps(d: Descriptors, r: Usb, at: Usb, s: Usb, own: multiset<nat>, p: Pipe)
    requires Valid(r) && Evolved(r, at, {}, 0) && Valid(at) && (Sound(r, own) ==> Sound(at, own))
    requires s == if p.ctrl == StatusSetAddr then WriteAddress(at, p.devAddr) else at
    requires Laws(d, r, own, r.popped, true, p) && (p.orderly ==> !Outstanding(r, 0))
    ensures Valid(s) && NoMoreToDo(r, s) && SameReplies(r, s) && Undisturbed(r, s)
    ensures Laws(d, s, own, s.popped, Outstanding(s, 0), Collected(p))
  {
    RepliesSelf(r);
    RepliesTrans(r, r, at, {});
    Kept(d, r, at, own, own, r.popped, true, p, {}, 0);
    SamePipe(r, at, {}, 0);
    HostDisturbsNot(r, at, {}, 0);
    hide Sound, Valid, Outstanding, Evolved, Laws, Undisturbed;
    CompletionKept(d, at, s, own, r.popped, p);
    if p.ctrl == StatusSetAddr {
      AddressDisturbsNot(r, at, p.devAddr);
    }
  }

  lemma {:induction false} CompletionKept(d: Descriptors, r: Usb, s: Usb, own: multiset<nat>, n: nat, p: Pipe)
    requires Valid(r) && Laws(d, r, own, n, true, p) && (p.orderly ==> !Outstanding(r, 0))
    requires s == if p.ctrl == StatusSetAddr then WriteAddress(r, p.devAddr) else r
    ensures Valid(s) && SameReplies(r, s) && NoMoreToDo(r, s) && Outstanding(s, 0) == Outstanding(r, 0)
    ensures Laws(d, s, own, n, Outstanding(s, 0), Collected(p))
  {
    AddressIsApart(r, p.devAddr, own);
    hide Sound, Valid, Outstanding;
    if p.orderly {
      LawOf(d, r, own, n, true, p);
      LawCompletes(d, r, s, n, p);
    }
    hide ControlLaw;
  }

  lemma {:induction false} DealtAgain(r: Usb, s: Usb, t: Usb, all: set<nat>, left: set<nat>, rest: set<nat>)
    requires Valid(r) && Valid(s) && all <= UpTo(BUFFER_COUNT)
    requires r.todo == [] ==> s.todo == [] && DealtOut(r, s, all, left)
    requires s.todo == [] ==> DealtOut(s, t, left, rest)
    ensures r.todo == [] ==> DealtOut(r, t, all, rest)
  {
    hide Valid, DealtOut, UpTo;
    if r.todo == [] {
      DealtTwice(r, s, t, all, left, rest);
    }
  }

  lemma {:induction false} LawOf(d: Descriptors, r: Usb, own: multiset<nat>, n: nat, waiting: bool, p: Pipe)
    requires p.orderly && Laws(d, r, own, n, waiting, p)
    ensures Valid(r) && ControlLaw(d, r, n, waiting, p)
  {
  }

  // ----- one round of service -----

  /** Packets have been taken, and nothing else has happened to the replies or to what was delivered. */
  predicate Taken(r: Usb, s: Usb, taken: nat)
    requires Valid(r) && Valid(s)
  {
    && s.popped == r.popped + taken && r.delivered <= s.delivered && s.popped <= |s.delivered|
    && (taken == 0 ==> r.popped == |r.delivered|)
    && |s.todo| + |s.rx| + taken <= |r.todo| + |r.rx| && Done(s) == Done(r)
    && (taken == 1 ==> s.early == r.early + [Outstanding(r, 0)])
  }

  lemma {:induction false} HeardPrefix(calls: seq<Call>, r: Usb, s: Usb)
    requires r.popped == s.popped && r.delivered <= s.delivered && HeardAll(calls, r)
    ensures HeardAll(calls, s)
  {
    assert s.delivered[..r.popped] == r.delivered[..r.popped];
  }

  lemma {:induction false} HeardNext(before: seq<Call>, more: seq<Call>, r: Usb, s: Usb, packet: Packet)
    requires HeardAll(before, r) && s.popped == r.popped + 1 <= |s.delivered| && r.delivered <= s.delivered
    requires packet == s.delivered[r.popped] && more == if packet.ep == 0 then [] else [Recv(packet)]
    ensures HeardAll(before + more, s)
  {
    var ps := s.delivered[..s.popped];
    assert ps[..r.popped] == r.delivered[..r.popped] && ps[r.popped] == packet;
    if more != [] {
      assert (before + more)[..|before|] == before;
    } else {
      assert before + more == before;
    }
  }

  lemma {:induction false} HeardCompleted(before: seq<Call>, ep: nat, r: Usb)
    ensures HeardAll(before, r) <==> HeardAll(before + [TxDone(ep)], r)
  {
    assert (before + [TxDone(ep)])[..|before|] == before;
  }

  /** Retrieving a packet hands user code none. */
  lemma {:induction false} StillHeard(r: Usb, p: Pipe, s: Usb, q: Pipe, before: seq<Call>, calls: seq<Call>,
      sends: set<nat>)
    requires Course(r, r.popped, p, s, q, sends) && s.popped == r.popped
    requires calls == before || exists ep: nat :: Told(before, calls, TxDone(ep))
    ensures HeardAll(before, r) ==> HeardAll(calls, s)
  {
    CourseMeans(r, r.popped, p, s, q, sends);
    if HeardAll(before, r) {
      HeardPrefix(before, r, s);
      if calls != before {
        var ep: nat :| Told(before, calls, TxDone(ep));
        HeardCompleted(before, ep, s);
      }
    }
  }

  lemma {:induction false} SuppliedHeard(r: Usb, s: Usb, calls: seq<Call>)
    requires Undisturbed(r, s)
    ensures s.popped == r.popped && HeardAll(calls, r) ==> HeardAll(calls, s)
  {
    if s.popped == r.popped && HeardAll(calls, r) {
      HeardPrefix(calls, r, s);
    }
  }

  /** A packet taken is handed to user code unless it is for endpoint zero. */
  lemma {:induction false} HeardOneMore(r: Usb, mid: Usb, p: Pipe, s: Usb, q: Pipe, before: seq<Call>,
      calls: seq<Call>, sends: set<nat>)
    requires Valid(r) && Valid(mid) && Taken(r, mid, 1)
    requires Course(mid, r.popped, p, s, q, sends) && s.popped == mid.popped
    requires var packet := LastTaken(mid);
      if packet.ep == 0 then calls == before else Told(before, calls, Recv(packet))
    ensures HeardAll(before, r) ==> HeardAll(calls, s)
  {
    CourseMeans(mid, r.popped, p, s, q, sends);
    if HeardAll(before, r) {
      var packet := mid.delivered[r.popped];
      HeardNext(before, if packet.ep == 0 then [] else [Recv(packet)], r, mid, packet);
      assert before + [] == before;
      HeardPrefix(calls, mid, s);
    }
  }

  /** If the n-th packet has been taken, then while endpoint zero held a packet or not. */
  predicate FirstPacket(r: Usb, n: nat, early: bool) {
    n < r.popped ==> n < |r.early| && r.early[n] == early
  }

  /** A packet has been taken, or none, and processed. */
  lemma {:induction false} PacketTaken(r: Usb, mid: Usb, p: Pipe, s: Usb, q: Pipe, before: seq<Call>,
      calls: seq<Call>, taken: nat, sends: set<nat>)
    requires Valid(r) && Valid(mid) && taken <= 1 && Taken(r, mid, taken)
    requires Course(mid, r.popped, p, s, q, sends) && s.popped == mid.popped
    requires taken == 0 ==> calls == before
    requires taken == 1 && p.clean ==>
               var packet := LastTaken(mid);
      if packet.ep == 0 then calls == before else Told(before, calls, Recv(packet))
    ensures FirstPacket(s, r.popped, Outstanding(r, 0)) && s.popped == r.popped + taken
    ensures p.clean && HeardAll(before, r) ==> HeardAll(calls, s)
  {
    FirstTaken(r, mid, taken);
    CourseMeans(mid, r.popped, p, s, q, sends);
    if taken == 1 {
      FirstRemains(mid, r.popped, p, s, q, r.popped, Outstanding(r, 0), sends);
      if p.clean {
        HeardOneMore(r, mid, p, s, q, before, calls, sends);
      }
    } else if HeardAll(before, r) {
      HeardPrefix(calls, r, s);
    }
    hide HeardAll, FirstPacket, Course, Told;
  }

  lemma {:induction false} FirstTaken(r: Usb, s: Usb, taken: nat)
    requires Valid(r) && Valid(s) && taken <= 1 && Taken(r, s, taken)
    ensures FirstPacket(s, r.popped, Outstanding(r, 0)) && s.popped == r.popped + taken
  {
    hide Outstanding;
  }

  lemma {:induction false} FirstRemains(r: Usb, m: nat, p: Pipe, s: Usb, q: Pipe, n: nat, early: bool, sends: set<nat>)
    requires FirstPacket(r, n, early) && n < r.popped && Course(r, m, p, s, q, sends)
    ensures FirstPacket(s, n, early) && s.popped >= r.popped
  {
    hide LeavesAlone, CleanLost, OrderLost, PromptLost;
  }

  lemma {:induction false} TakenThen(r: Usb, s: Usb, t: Usb, taken: nat)
    requires Valid(r) && Valid(s) && Evolved(r, s, {}, taken) && Taken(r, s, taken) && Evolved(s, t, {}, 0)
    ensures Valid(t) && Evolved(r, t, {}, taken) && Taken(r, t, taken) && LastTaken(t) == LastTaken(s)
    ensures t.popped == r.popped + taken && Outstanding(t, 0) == Outstanding(r, 0)
  {
    var none: set<nat> := {};
    assert none + none == none;
    EvolvedTrans(r, s, t, none, none, taken, 0);
    SamePipe(s, t, {}, 0);
    SamePipe(r, t, {}, taken);
    SameDone(s, t, {}, 0);
    hide Evolved, Valid, Done, Outstanding;
  }

  lemma {:induction false} TakenMeans(r: Usb, s: Usb, taken: nat)
    requires Valid(r) && Evolved(r, s, {}, taken) && (taken == 0 ==> r.popped == |r.delivered|)
    requires taken == 1 ==> s.early == r.early + [Outstanding(r, 0)]
    ensures Valid(s) && Taken(r, s, taken) && Outstanding(s, 0) == Outstanding(r, 0)
    ensures s.popped == r.popped + taken <= |s.delivered|
  {
    SamePipe(r, s, {}, taken);
    SameDone(r, s, {}, taken);
  }

  lemma {:induction false} NothingReceived(r: Usb)
    requires Valid(r)
    ensures r.rx == [] ==> r.popped == |r.delivered|
  {
  }

  lemma {:induction false} RepliesDone(r: Usb, s: Usb)
    requires Valid(r) && Valid(s) && SameReplies(r, s)
    ensures Done(s) == Done(r)
  {
  }

  lemma {:induction false} SameDone(r: Usb, s: Usb, mine: set<nat>, taken: nat)
    requires Valid(r) && Evolved(r, s, mine, taken) && 0 !in mine
    ensures Valid(s) && Done(s) == Done(r) && (0 in r.inSent ==> 0 in s.inSent)
  {
  }

  /** Nothing has been presented, and a collected reply is either still to be retrieved or has been. */
  predicate RepliesAdvance(r: Usb, s: Usb)
    requires Valid(r) && Valid(s)
  {
    && |s.asked[0]| == |r.asked[0]| && (Outstanding(s, 0) ==> Outstanding(r, 0))
    && (0 in r.inSent ==> 0 in s.inSent || !Outstanding(s, 0))
  }

  lemma {:induction false} AdvanceTrans(r: Usb, s: Usb, t: Usb)
    requires Valid(r) && Valid(s) && Valid(t) && RepliesAdvance(r, s)
    ensures RepliesAdvance(s, t) || SameReplies(s, t) ==> RepliesAdvance(r, t)
    ensures RepliesAdvance(r, r)
  {
  }

  /** Once no collected packet is left, a reply collected earlier is complete. */
  lemma {:induction false} AllRetrieved(r: Usb, s: Usb, t: Usb)
    requires Valid(r) && Valid(s) && Valid(t) && RepliesAdvance(r, s) && RepliesAdvance(s, t) && s.inSent == {}
    ensures Done(t) >= Done(r) && (0 in r.inSent ==> Done(t) > Done(r) && !Outstanding(t, 0))
  {
  }

  /** An endpoint whose packet was collected has given its buffer back, the reply endpoint before any other. */
  predicate Given(r: Usb, s: Usb, found: bool, ep: nat, orderly: bool)
    requires Valid(r) && Valid(s)
  {
    && NoMoreToDo(r, s) && |s.todo| + |s.inSent| + (if found then 1 else 0) <= |r.todo| + |r.inSent|
    && Undisturbed(r, s)
    && (!found ==> r.inSent == {} && Evolved(r, s, {}, 0))
    && (0 in r.inSent ==> found && ep == 0)
    && (orderly ==> RepliesAdvance(r, s))
    && (if found && ep == 0 then Outstanding(r, 0) && (orderly ==> !Outstanding(s, 0))
        else Outstanding(s, 0) == Outstanding(r, 0))
  }

  lemma {:induction false} IsGiven(r: Usb, s: Usb, found: bool, ep: nat, orderly: bool)
    requires Valid(r) && Valid(s) && s.asked == r.asked && Evolved(r, s, if found then {ep} else {}, 0)
    requires forall e | e in r.inSent :: ep <= e
    requires if found then |s.todo| + |s.inSent| < |r.todo| + |r.inSent| && ep < MAX_ENDPOINTS && Outstanding(r, ep)
             else r.inSent == {}
    requires found && orderly ==> !Outstanding(s, ep)
    ensures Given(r, s, found, ep, orderly)
  {
    SamePipe(r, s, if found then {ep} else {}, 0);
    HostDisturbsNot(r, s, if found then {ep} else {}, 0);
    hide Quiet, Undisturbed;
  }

  lemma {:induction false} GivenThen(r: Usb, s: Usb, t: Usb, ep: nat, orderly: bool)
    requires Valid(r) && Valid(s) && Given(r, s, true, ep, orderly) && Evolved(s, t, {}, 0)
    ensures Valid(t) && Given(r, t, true, ep, orderly) && t.popped == r.popped
  {
    SamePipe(s, t, {}, 0);
    HostDisturbsNot(s, t, {}, 0);
    UndisturbedTrans(r, s, t);
    hide Quiet, Undisturbed;
  }

  lemma {:induction false} GivenMeans(r: Usb, s: Usb, found: bool, ep: nat, orderly: bool)
    requires Valid(r) && Valid(s) && Given(r, s, found, ep, orderly)
    ensures NoMoreToDo(r, s) && |s.todo| + |s.inSent| + (if found then 1 else 0) <= |r.todo| + |r.inSent|
    ensures Undisturbed(r, s)
    ensures !found ==> r.inSent == {} && Evolved(r, s, {}, 0)
    ensures 0 in r.inSent ==> found && ep == 0
    ensures orderly ==> RepliesAdvance(r, s)
    ensures if found && ep == 0 then Outstanding(r, 0) && (orderly ==> !Outstanding(s, 0))
            else Outstanding(s, 0) == Outstanding(r, 0)
  {
  }

  /** A packet is taken for the Default Control Pipe. */
  lemma {:induction false} Arrives(d: Descriptors, r: Usb, own: multiset<nat>, p: Pipe, setup: bool, data: seq<byte>)
    requires Valid(r) && 0 < r.popped <= |r.delivered| && Laws(d, r, own, r.popped - 1, Outstanding(r, 0), p)
    requires p.clean ==> r.delivered[r.popped - 1] == Packet(0, setup, data)
    ensures Arrived(d, r, own, Noted(p, Outstanding(r, 0), setup, data), setup, data)
    ensures p.clean ==> Sound(r, own)
    ensures p.orderly ==> p.clean
    ensures Noted(p, Outstanding(r, 0), setup, data).prompt ==> p.clean && !Outstanding(r, 0)
  {
    hide ControlLaw, Sound, Valid, Answered;
    var q := Noted(p, Outstanding(r, 0), setup, data);
    if q.orderly {
      SamePromise(d, r, r.popped - 1, Outstanding(r, 0), p, q);
    }
  }

  /** The last packet taken is the n-th, and whether a reply was outstanding then still holds. */
  predicate JustTaken(r: Usb, n: nat)
    requires Valid(r)
  {
    r.popped == n + 1 <= |r.delivered| && r.early[n] == Outstanding(r, 0)
  }

  lemma {:induction false} TakenAt(r: Usb, n: nat)
    requires Valid(r) && JustTaken(r, n)
    ensures n == r.popped - 1 && 0 < r.popped <= |r.delivered| && LastTaken(r) == r.delivered[n]
  {
  }

  lemma {:induction false} TakenSince(r: Usb, s: Usb, taken: nat)
    requires Valid(r) && Valid(s) && Evolved(r, s, {}, taken) && Taken(r, s, taken)
    ensures Undisturbed(r, s) && (taken == 1 ==> JustTaken(s, r.popped))
  {
    HostDisturbsNot(r, s, {}, taken);
    SamePipe(r, s, {}, taken);
    hide Undisturbed;
  }

  /** A packet taken while a reply is outstanding is the reason why assumptions fail. */
  lemma {:induction false} NotedCourse(d: Descriptors, r: Usb, n: nat, own: multiset<nat>, p: Pipe, setup: bool,
      data: seq<byte>, sends: set<nat>)
    requires Valid(r) && JustTaken(r, n) && Laws(d, r, own, n, Outstanding(r, 0), p)
    requires p.clean ==> LastTaken(r) == Packet(0, setup, data)
    ensures Course(r, n, p, r, Noted(p, Outstanding(r, 0), setup, data), sends)
    ensures p.clean && Outstanding(r, 0) ==> EarlyPacket(r, n, n) && r.delivered[n] == Packet(0, setup, data)
  {
    TakenEarly(r, n, p, setup, data);
    hide Answered, ControlLaw, Valid, Sound, Outstanding, EarlyLoss, EarlyPacket, Course, JustTaken;
    var q := Noted(p, Outstanding(r, 0), setup, data);
    if p.orderly && !q.orderly {
      UnheededLoss(d, r, n, p, setup, data);
    }
    TooEarly(r, n, p, q, sends);
  }

  lemma {:induction false} TakenEarly(r: Usb, n: nat, p: Pipe, setup: bool, data: seq<byte>)
    requires Valid(r) && JustTaken(r, n) && (p.clean ==> LastTaken(r) == Packet(0, setup, data))
    ensures p.clean && Outstanding(r, 0) ==> EarlyPacket(r, n, n) && r.delivered[n] == Packet(0, setup, data)
  {
  }

  lemma {:induction false} UnheededLoss(d: Descriptors, r: Usb, n: nat, p: Pipe, setup: bool, data: seq<byte>)
    requires Valid(r) && EarlyPacket(r, n, n) && ControlLaw(d, r, n, true, p)
    requires r.delivered[n] == Packet(0, setup, data)
    requires (setup && Answered(data)) || p.ctrl == StatusSetAddr || p.ctrl == StatusSetConfig
    ensures EarlyLoss(r, n, n)
  {
    hide Requests, Replies, AddressAfter, StateAfter, Answered, Valid;
  }

  lemma {:induction false} HandledCourse(d: Descriptors, r: Usb, n: nat, own: multiset<nat>, p: Pipe, s: Usb, q: Pipe,
      setup: bool, data: seq<byte>, sends: set<nat>)
    requires Valid(r) && JustTaken(r, n) && Laws(d, r, own, n, Outstanding(r, 0), p)
    requires p.clean ==> LastTaken(r) == Packet(0, setup, data)
    requires Handled(d, r, Noted(p, Outstanding(r, 0), setup, data), s, q, setup, data)
    ensures Course(r, n, p, s, q, sends)
  {
    NotedCourse(d, r, n, own, p, setup, data, sends);
    var noted := Noted(p, Outstanding(r, 0), setup, data);
    if p.ctrl == CtrlSetup && setup && Answered(data) {
      PresentedLater(r, s, Reply(d, data));
      if noted.clean && Outstanding(r, 0) {
        EarlyRemains(r, s, n, n);
        assert EarlyRequest(s, n, n);
      }
      hide Later, LeavesAlone, Valid, Outstanding, Evolved, EarlyPacket;
      assert Course(r, n, noted, s, q, sends);
    } else {
      HostDisturbsNot(r, s, {}, 0);
      hide Undisturbed, Noted;
      UndisturbedCourse(r, n, noted, s, q, sends);
    }
    hide Course, Noted;
    CourseTrans(r, n, p, r, n, noted, s, q, sends);
  }

  lemma {:induction false} PresentedLater(r: Usb, s: Usb, reply: seq<byte>)
    requires Valid(r) && Presented(r, s, reply)
    ensures Later(r, s) && forall sends: set<nat> :: LeavesAlone(r, s, sends)
  {
  }

  lemma {:induction false} HandledMeans(d: Descriptors, r: Usb, p: Pipe, s: Usb, q: Pipe, setup: bool, data: seq<byte>)
    requires Valid(r) && Handled(d, r, Noted(p, Outstanding(r, 0), setup, data), s, q, setup, data)
    ensures Valid(s) && NoMoreToDo(r, s) && (q.orderly ==> Done(s) == Done(r))
  {
    if p.ctrl == CtrlSetup && setup && Answered(data) {
      SamePipe(r, s, {0}, 0);
    } else {
      SamePipe(r, s, {}, 0);
      SameDone(r, s, {}, 0);
    }
    hide Valid, Evolved, Reply, Awaiting, Answered;
  }

  /** A packet for another endpoint is no request. */
  lemma {:induction false} PassesBy(d: Descriptors, r: Usb, n: nat, own: multiset<nat>, p: Pipe)
    requires Valid(r) && JustTaken(r, n) && Laws(d, r, own, n, Outstanding(r, 0), p)
    requires p.clean ==> LastTaken(r).ep != 0
    ensures Laws(d, r, own, r.popped, Outstanding(r, 0), p) && n <= r.popped
  {
    hide ControlLaw, Sound, Valid;
    if p.orderly {
      LawSkips(d, r, n, Outstanding(r, 0), p);
    }
  }

  /** Whatever the host does by itself keeps the laws. */
  lemma {:induction false} HostKeepsLaws(d: Descriptors, r: Usb, script: seq<Event>, own: multiset<nat>, n: nat,
      waiting: bool, p: Pipe)
    requires Valid(r) && Laws(d, r, own, n, waiting, p) && forall k :: 0 <= k < |script| ==> EventValid(script[k])
    ensures Laws(d, Run(SetOut(r, script)), own, n, waiting, p)
  {
    var t := SetOut(r, script);
    TodoIsApart(r, script);
    assert p.orderly ==> ControlLaw(d, t, n, waiting, p);
    RunKeeps(t, own);
    hide Sound, ControlLaw, Run, Pool, Intact;
    Kept(d, t, Run(t), own, own, n, waiting, p, {}, 0);
  }

  lemma {:induction false} HostKeepsPipe(r: Usb, script: seq<Event>)
    requires Valid(r) && forall k :: 0 <= k < |script| ==> EventValid(script[k])
    ensures var s := Run(SetOut(r, script));
      && s.popped == r.popped && s.early == r.early && Outstanding(s, 0) == Outstanding(r, 0)
      && LastTaken(s) == LastTaken(r)
  {
    var t := SetOut(r, script);
    RunKeeps(t, multiset{});
    assert Outstanding(t, 0) == Outstanding(r, 0);
    SamePipe(t, Run(t), {}, 0);
    hide Run, Sound, Pool, Outstanding;
  }
}
