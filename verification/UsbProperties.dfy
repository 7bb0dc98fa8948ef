/** What the host sees over any run of the device, and what the bring-up program keeps
    (scratch_sw/bare_metal/common/usbdev-utils.hh, scratch_sw/bare_metal/checks/usbdev_check.cc). */
module UsbProperties {
  import opened Words
  import opened UsbHardware
  import opened UsbRegisters
  import opened UsbRequests
  import opened UsbRuns
  import opened UsbDevice
  import opened UsbUtils

  predicate Is(data: seq<byte>, request: nat) {
    Answered(data) && data[1] == request
  }

  /** The address is that of the last SET_ADDRESS, whatever follows it, and zero before the first. */
  lemma {:induction false} AddressIsLast(reqs: seq<seq<byte>>, k: nat)
    requires k < |reqs| && forall i :: 0 <= i < |reqs| ==> Answered(reqs[i])
    requires Is(reqs[k], SET_ADDRESS) && forall i :: k < i < |reqs| ==> !Is(reqs[i], SET_ADDRESS)
    ensures AddressAfter(reqs) == reqs[k][2]
  {
    if k < |reqs| - 1 {
      AddressIsLast(reqs[..|reqs| - 1], k);
    }
  }

  lemma {:induction false} NoAddressYet(reqs: seq<seq<byte>>)
    requires forall i :: 0 <= i < |reqs| ==> Answered(reqs[i]) && !Is(reqs[i], SET_ADDRESS)
    ensures AddressAfter(reqs) == 0
  {
    if reqs != [] {
      NoAddressYet(reqs[..|reqs| - 1]);
    }
  }

  predicate Configures(reqs: seq<seq<byte>>, k: nat) {
    k < |reqs| && Is(reqs[k], SET_CONFIGURATION) && forall i :: k < i < |reqs| ==> !Is(reqs[i], SET_ADDRESS)
  }

  /** The device is configured exactly when a SET_CONFIGURATION is complete and no SET_ADDRESS after it is. */
  lemma {:induction false} ConfiguredExactly(reqs: seq<seq<byte>>)
    requires forall i :: 0 <= i < |reqs| ==> Answered(reqs[i])
    ensures StateAfter(reqs) == Configured <==> exists k: nat :: Configures(reqs, k)
  {
    if reqs != [] {
      var last, before := reqs[|reqs| - 1], reqs[..|reqs| - 1];
      ConfiguredExactly(before);
      assert Answered(last);
      if last[1] == SET_CONFIGURATION {
        assert Configures(reqs, |reqs| - 1);
      } else if last[1] != SET_ADDRESS {
        forall k: nat ensures Configures(reqs, k) <==> Configures(before, k) {
          assert k < |before| ==> before[k] == reqs[k];
        }
      }
    }
  }

  /** In an orderly run every reply the host collects is the one its request calls for, in order; and the
      device's address and state follow from requests whose replies the host has collected. */
  lemma {:induction false} RepliesAreFaithful(d: Descriptors, r: Usb, own: multiset<nat>, p: Pipe)
    requires Sound(r, own) && ControlLaw(d, r, r.popped, Outstanding(r, 0), p)
    ensures var reqs := Requests(r.delivered[..r.popped]);
      && r.got[0] <= Replies(d, reqs) && |reqs| <= |r.got[0]| + 1
      && (forall i :: 0 <= i < |r.got[0]| ==> r.got[0][i] == Reply(d, reqs[i]))
    ensures exists k: nat :: TakesEffect(r, k, p.devState)
  {
    CollectedFirst(r);
    hide Valid, Outstanding, Requests, Reply, AddressAfter, StateAfter, Pool, Intact;
    var reqs := Requests(r.delivered[..r.popped]);
    var k := |Completed(reqs, Outstanding(r, 0))|;
    assert Completed(reqs, Outstanding(r, 0)) == reqs[..k];
    assert TakesEffect(r, k, p.devState);
  }

  /** The replies collected are the first ones presented, and at most one more is. */
  lemma {:induction false} CollectedFirst(r: Usb)
    requires Valid(r) && Presents(r, 0)
    ensures r.got[0] <= r.asked[0] && |r.asked[0]| <= |r.got[0]| + 1
    ensures |r.asked[0]| == |r.got[0]| + 1 ==> Outstanding(r, 0)
  {
  }

  /** The first k requests, all with collected replies, have determined the address and the state. A link reset
      since the address was last written has cleared it. */
  predicate TakesEffect(r: Usb, k: nat, devState: DeviceState) {
    r.popped <= |r.delivered| &&
    var reqs := Requests(r.delivered[..r.popped]);
    && 0 < |r.got| && k <= |r.got[0]| && k <= |reqs|
    && devState == StateAfter(reqs[..k]) && r.address == if r.addressReset then 0 else AddressAfter(reqs[..k])
  }

  /** As long as no packet of endpoint zero is processed while a reply is outstanding, the control state is a
      status state exactly while one is. */
  lemma {:induction false} StatusWhileOutstanding(d: Descriptors, r: Usb, own: multiset<nat>, p: Pipe)
    requires Valid(r) && Laws(d, r, own, r.popped, Outstanding(r, 0), p) && p.prompt
    ensures p.ctrl != CtrlSetup <==> Outstanding(r, 0)
  {
    hide Valid, Requests, AddressAfter, StateAfter, Sound;
  }

  /** No buffer is ever in two places, and none is lost: a buffer the hardware holds in one place is held
      nowhere else and is not available to software. */
  lemma {:induction false} OnePlaceOnly(r: Usb, avail: set<nat>, b: nat)
    requires Sound(r, multiset(avail)) && b < BUFFER_COUNT
    ensures (if b in avail then 1 else 0) + multiset(r.avSetup)[b] + multiset(r.avOut)[b] + multiset(RxBufs(r.rx))[b]
            + Held(r, MAX_ENDPOINTS)[b] == 1
  {
    hide Valid, Held, Intact, RxBufs;
    assert (multiset(avail) + Pool(r))[b] == 1;
  }

  // ----- a whole run -----

  /** How far a run got. */
  datatype Outcome = Running | Disconnected | AssertionFailed

  /** User code has presented nothing but the sign-on message, and that once if it has been sent. */
  predicate OnlySignOn(r: Usb, signon: seq<byte>, sent: bool) {
    && Valid(r) && (forall ep :: 0 < ep < MAX_ENDPOINTS && Outstanding(r, ep) ==> ep == 1 && sent)
    && forall ep :: 0 < ep < MAX_ENDPOINTS ==> r.asked[ep] == if ep == 1 && sent then [signon] else []
  }

  /** The bring-up program, whose callbacks send nothing: from reset it services the device for any number of rounds
      against any host. In the first round that finds the device configured it disconnects, or sends its sign-on
      message, which it repeats only while no buffer can be had. User code is handed what the host sends to its
      endpoints, once and in order. Only the host can bring an assumption down, and while
      things are orderly the only assertion that can fail is that of a SET_ADDRESS beyond seven bits. */
  method EntryPoint(mem: seq<seq<u32>>, todo: seq<Event>, d: Descriptors, signon: seq<byte>, doDisconnect: bool,
      rounds: nat)
      returns (usb: UsbdevUtils, outcome: Outcome, sent: bool)
    requires |mem| == BUFFER_COUNT && forall b :: 0 <= b < BUFFER_COUNT ==> |mem[b]| == BUFFER_WORDS
    requires forall k :: 0 <= k < |todo| ==> EventValid(todo[k])
    requires FitPackets(d) && |signon| <= MAX_PACKET_LENGTH
    ensures usb.descriptors == d && (outcome != AssertionFailed ==> usb.Inv())
    ensures HostBlamed(usb.usbdev.usb, usb.State())
    ensures OnlySignOn(usb.usbdev.usb, signon, sent) && (sent ==> !doDisconnect)
    ensures usb.clean ==> HeardAll(usb.calls, usb.usbdev.usb)
    ensures outcome == Disconnected ==> doDisconnect && usb.devState == Configured
    ensures outcome == Running && rounds > 0 && usb.devState == Configured ==>
              !doDisconnect && (sent || usb.bufAvail == {})
    ensures outcome == AssertionFailed && usb.orderly ==> BadAddress(usb.usbdev.usb)
  {
    usb := PowerUp(mem, todo, d, signon);
    outcome, sent := Running, false;
    var round := 0;
    while round < rounds && outcome == Running
      invariant usb.descriptors == d && fresh(usb) && fresh(usb.usbdev) && fresh(usb.packetData) && usb.sends == {}
      invariant outcome != AssertionFailed ==> usb.Inv()
      invariant HostBlamed(usb.usbdev.usb, usb.State()) && OnlySignOn(usb.usbdev.usb, signon, sent)
      invariant usb.clean ==> HeardAll(usb.calls, usb.usbdev.usb)
      invariant (sent ==> !doDisconnect) && (outcome == Disconnected ==> doDisconnect && usb.devState == Configured)
      invariant outcome == Running && round > 0 && usb.devState == Configured ==>
                  !doDisconnect && (sent || usb.bufAvail == {})
      invariant 0 <= round <= rounds
      invariant outcome == AssertionFailed && usb.orderly ==> BadAddress(usb.usbdev.usb)
      decreases rounds - round, outcome == Running
    {
      outcome, sent := Round(usb, signon, doDisconnect, sent);
      round := round + 1;
    }
  }

  method PowerUp(mem: seq<seq<u32>>, todo: seq<Event>, d: Descriptors, ghost signon: seq<byte>)
      returns (usb: UsbdevUtils)
    requires |mem| == BUFFER_COUNT && forall b :: 0 <= b < BUFFER_COUNT ==> |mem[b]| == BUFFER_WORDS
    requires forall k :: 0 <= k < |todo| ==> EventValid(todo[k])
    requires FitPackets(d)
    ensures fresh(usb) && fresh(usb.usbdev) && fresh(usb.packetData) && usb.descriptors == d && usb.sends == {}
    ensures usb.Inv() && HostBlamed(usb.usbdev.usb, usb.State()) && OnlySignOn(usb.usbdev.usb, signon, false)
    ensures HeardAll(usb.calls, usb.usbdev.usb)
  {
    var dev := new OpenTitanUsbdev(mem, todo);
    ghost var start := dev.usb;
    assert OnlySignOn(start, signon, false);
    hide Laws, Valid, Sound, Outstanding, BothFull, Evolved, OnlySignOn, AllBuffers;
    usb := new UsbdevUtils(dev, d, {});
    HostKeepsSignOn(start, usb.usbdev.usb, signon, false);
    HostKeepsHeard(start, usb.usbdev.usb, usb.calls);
  }

  /** One round of its loop. */
  method Round(usb: UsbdevUtils, signon: seq<byte>, doDisconnect: bool, sent0: bool)
      returns (outcome: Outcome, sent: bool)
    requires usb.Inv() && usb.sends == {} && |signon| <= MAX_PACKET_LENGTH
    requires HostBlamed(usb.usbdev.usb, usb.State()) && OnlySignOn(usb.usbdev.usb, signon, sent0)
    requires usb.clean ==> HeardAll(usb.calls, usb.usbdev.usb)
    modifies usb, usb.usbdev, usb.packetData
    ensures outcome != AssertionFailed ==> usb.Inv()
    ensures HostBlamed(usb.usbdev.usb, usb.State()) && OnlySignOn(usb.usbdev.usb, signon, sent)
    ensures usb.clean ==> HeardAll(usb.calls, usb.usbdev.usb)
    ensures (sent0 ==> sent) && (sent ==> sent0 || (!doDisconnect && usb.devState == Configured))
    ensures outcome != AssertionFailed ==> (outcome == Disconnected <==> doDisconnect && usb.devState == Configured)
    ensures outcome == Running && usb.devState == Configured ==> sent || usb.bufAvail == {}
    ensures outcome == AssertionFailed && usb.orderly ==> BadAddress(usb.usbdev.usb)
  {
    ghost var start, p := usb.usbdev.usb, usb.State();
    hide Laws, Valid, Outstanding, Course, HostBlamed, OnlySignOn, BadAddress, AllOutstanding, Done, FitPackets;
    outcome, sent := Running, sent0;
    var trapped := usb.Service();
    ServiceKeeps(start, p, usb.usbdev.usb, usb.State(), signon, sent);
    if trapped {
      outcome := AssertionFailed;
    } else if usb.devState == Configured {
      if doDisconnect {
        outcome := Disconnected;
      } else if !sent {
        sent := SignOn(usb, signon);
      }
    }
  }

  method SignOn(usb: UsbdevUtils, signon: seq<byte>) returns (sent: bool)
    requires usb.Inv() && |signon| <= MAX_PACKET_LENGTH
    requires HostBlamed(usb.usbdev.usb, usb.State()) && OnlySignOn(usb.usbdev.usb, signon, false)
    modifies usb, usb.usbdev
    ensures usb.Inv() && HostBlamed(usb.usbdev.usb, usb.State()) && OnlySignOn(usb.usbdev.usb, signon, sent)
    ensures usb.devState == old(usb.devState) && (sent || usb.bufAvail == {})
    ensures usb.clean ==> old(usb.clean)
    ensures old(HeardAll(usb.calls, usb.usbdev.usb)) ==> HeardAll(usb.calls, usb.usbdev.usb)
  {
    ghost var start, p := usb.usbdev.usb, usb.State();
    assert !Outstanding(start, 1);
    hide Laws, Valid, Outstanding, HostBlamed, OnlySignOn, FitPackets, Evolved, OverAfter;
    sent := usb.SendData(1, signon);
    if HeardAll(usb.calls, start) {
      SendKeepsHeard(start, usb.usbdev.usb, usb.calls, 1);
    }
    if sent {
      SignOnKeeps(start, p, usb.usbdev.usb, signon);
    }
  }

  lemma {:induction false} HostKeepsHeard(r: Usb, s: Usb, calls: seq<Call>)
    requires Valid(r) && r.popped == 0 && Evolved(r, s, {}, 0) && calls == []
    ensures HeardAll(calls, s)
  {
  }

  lemma {:induction false} SendKeepsHeard(r: Usb, s: Usb, calls: seq<Call>, ep: nat)
    requires Valid(r) && HeardAll(calls, r) && Evolved(r, s, {ep}, 0)
    ensures HeardAll(calls, s)
  {
    HeardPrefix(calls, r, s);
  }

  lemma {:induction false} HostKeepsSignOn(r: Usb, s: Usb, signon: seq<byte>, sent: bool)
    requires OnlySignOn(r, signon, sent) && Evolved(r, s, {}, 0)
    ensures OnlySignOn(s, signon, sent)
  {
  }

  /** And since endpoint two is idle a buffer can be had for every reply. */
  lemma {:induction false} ServiceKeeps(r: Usb, p: Pipe, s: Usb, q: Pipe, signon: seq<byte>, sent: bool)
    requires HostBlamed(r, p) && OnlySignOn(r, signon, sent) && Course(r, r.popped, p, s, q, {})
    ensures HostBlamed(s, q) && OnlySignOn(s, signon, sent) && !AllOutstanding(s)
  {
    StillBlamed(r, p, s, q);
    hide Later, HostBlamed, CleanLost, OrderLost, PromptLost;
    CourseMeans(r, r.popped, p, s, q, {});
    hide Valid, Outstanding;
    assert !Outstanding(s, 2);
  }

  lemma {:induction false} SignOnKeeps(r: Usb, p: Pipe, s: Usb, data: seq<byte>)
    requires HostBlamed(r, p) && OnlySignOn(r, data, false)
    requires Valid(r) && Evolved(r, s, {1}, 0) && Valid(s) && s.asked[1] == r.asked[1] + [data]
    ensures HostBlamed(s, p) && OnlySignOn(s, data, true)
  {
    assert Later(r, s);
    BlameRemains(r, s, p);
    hide HostBlamed;
  }
}
