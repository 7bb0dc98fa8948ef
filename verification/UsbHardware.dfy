/** The USB device's registers and packet memory, and what the host does to them while software runs
    (scratch_sw/bare_metal/common/platform-usbdev.hh, hw/vendor/lowrisc_ip/ip/usbdev/rtl/usbdev.sv). */
module UsbHardware {
  import opened Words

  const BUFFER_COUNT := 32
  const MAX_ENDPOINTS := 12
  const MAX_PACKET_LENGTH := 64
  const BUFFER_WORDS := 16
  const AV_SETUP_DEPTH := 4
  const AV_OUT_DEPTH := 8
  const RX_DEPTH := 8

  /** An entry of the receive FIFO. */
  datatype RxEntry = RxEntry(buf: nat, size: nat, setup: bool, ep: nat)

  /** A `configIn` register. `pend` marks a packet the hardware has withdrawn. */
  datatype InSlot = InSlot(buf: nat, size: nat, ready: bool, pend: bool)

  /** A packet as the host sent it. */
  datatype Packet = Packet(ep: nat, setup: bool, payload: seq<byte>)

  /** What the host can do. Tokens carry the address of the device they are for. A delivery fills a whole buffer,
      of which the first `size` bytes are the packet. */
  datatype Event =
    | DeliverSetup(addr: nat, ep: nat, words: seq<u32>, size: nat)
    | DeliverOut(addr: nat, ep: nat, words: seq<u32>, size: nat)
    | Collect(addr: nat, ep: nat)
    | Cancel(ep: nat)
    | LinkReset

  /** Registers and memory, then the host's side: what it will attempt, what it has delivered, how much
      of that software has taken, per endpoint the packets software presented and the host collected, and
      whether it has reset the link since the address was last written. Last what software did too early: for
      each packet taken, whether endpoint zero then held a packet (`early`), and the endpoints configured for a
      packet while they still held another (`over`). */
  datatype Usb = Usb(
    avSetup: seq<nat>, avOut: seq<nat>, rx: seq<RxEntry>, inSent: set<nat>, slots: seq<InSlot>,
    mem: seq<seq<u32>>, address: nat,
    todo: seq<Event>, delivered: seq<Packet>, popped: nat,
    asked: seq<seq<seq<byte>>>, got: seq<seq<seq<byte>>>, addressReset: bool,
    early: seq<bool>, over: seq<nat>)

  function Bytes(words: seq<u32>, size: nat): (bs: seq<byte>)
    requires size <= 4 * |words|
    ensures |bs| == size
  {
    WordsBytes(words)[..size]
  }

  predicate EventValid(e: Event) {
    match e
    case DeliverSetup(_, ep, ws, n) => ep < MAX_ENDPOINTS && |ws| == BUFFER_WORDS && n <= MAX_PACKET_LENGTH
    case DeliverOut(_, ep, ws, n) => ep < MAX_ENDPOINTS && |ws| == BUFFER_WORDS && n <= MAX_PACKET_LENGTH
    case Collect(_, ep) => ep < MAX_ENDPOINTS
    case Cancel(ep) => ep < MAX_ENDPOINTS
    case LinkReset => true
  }

  predicate SlotValid(s: InSlot) {
    s.buf < BUFFER_COUNT && s.size <= MAX_PACKET_LENGTH && !(s.ready && s.pend)
  }

  predicate RxValid(e: RxEntry) {
    e.buf < BUFFER_COUNT && e.size <= MAX_PACKET_LENGTH && e.ep < MAX_ENDPOINTS
  }

  predicate Valid(r: Usb) {
    && |r.slots| == |r.asked| == |r.got| == MAX_ENDPOINTS && |r.mem| == BUFFER_COUNT
    && |r.avSetup| <= AV_SETUP_DEPTH && |r.avOut| <= AV_OUT_DEPTH && |r.rx| <= RX_DEPTH
    && (forall b :: 0 <= b < BUFFER_COUNT ==> |r.mem[b]| == BUFFER_WORDS)
    && (forall k :: 0 <= k < |r.avSetup| ==> r.avSetup[k] < BUFFER_COUNT)
    && (forall k :: 0 <= k < |r.avOut| ==> r.avOut[k] < BUFFER_COUNT)
    && (forall k :: 0 <= k < |r.rx| ==> RxValid(r.rx[k]))
    && (forall ep :: 0 <= ep < MAX_ENDPOINTS ==> SlotValid(r.slots[ep]))
    && (forall ep | ep in r.inSent :: ep < MAX_ENDPOINTS)
    && (forall k :: 0 <= k < |r.todo| ==> EventValid(r.todo[k]))
    && r.popped + |r.rx| == |r.delivered| && |r.early| == r.popped
  }

  // ----- one event -----

  /** The device listens to its own address only. A SETUP packet needs a SETUP buffer and any receive entry; an OUT
      packet may not take the last entry. */
  predicate Enabled(r: Usb, e: Event)
    requires Valid(r) && EventValid(e)
  {
    match e
    case DeliverSetup(addr, _, _, _) => addr == r.address && r.avSetup != [] && |r.rx| < RX_DEPTH
    case DeliverOut(addr, _, _, _) => addr == r.address && r.avOut != [] && |r.rx| < RX_DEPTH - 1
    case Collect(addr, ep) => addr == r.address && r.slots[ep].ready
    case _ => true
  }

  /** A SETUP packet or a link reset withdraws a packet waiting for collection. */
  function Withdrawn(s: InSlot): (t: InSlot) {
    s.(ready := false, pend := s.ready || s.pend)
  }

  function Store(r: Usb, b: nat, ep: nat, setup: bool, words: seq<u32>, size: nat): (s: Usb)
    requires Valid(r) && b < BUFFER_COUNT && |words| == BUFFER_WORDS && size <= MAX_PACKET_LENGTH
  {
    r.(mem := r.mem[b := words],
       rx := r.rx + [RxEntry(b, size, setup, ep)],
       delivered := r.delivered + [Packet(ep, setup, Bytes(words, size))])
  }

  function Apply(r: Usb, e: Event): (s: Usb)
    requires Valid(r) && EventValid(e) && Enabled(r, e)
  {
    match e
    case DeliverSetup(_, ep, ws, n) =>
      Store(r, r.avSetup[0], ep, true, ws, n).(
        avSetup := r.avSetup[1..], slots := r.slots[ep := Withdrawn(r.slots[ep])])
    case DeliverOut(_, ep, ws, n) => Store(r, r.avOut[0], ep, false, ws, n).(avOut := r.avOut[1..])
    case Collect(_, ep) =>
      r.(slots := r.slots[ep := r.slots[ep].(ready := false)],
         inSent := r.inSent + {ep},
         got := r.got[ep := r.got[ep] + [Bytes(r.mem[r.slots[ep].buf], r.slots[ep].size)]])
    case Cancel(ep) => r.(slots := r.slots[ep := Withdrawn(r.slots[ep])])
    case LinkReset =>
      r.(slots := seq(MAX_ENDPOINTS, i requires 0 <= i < MAX_ENDPOINTS => Withdrawn(r.slots[i])),
         address := 0, addressReset := true)
  }

  /** The host's next attempt; one that the device cannot accept changes nothing. */
  function Step(r: Usb): (s: Usb)
    requires Valid(r) && r.todo != []
  {
    var e := r.todo[0];
    (if Enabled(r, e) then Apply(r, e) else r).(todo := r.todo[1..])
  }

  /** OUT packets leave an entry of the receive FIFO for a SETUP packet. */
  lemma {:induction false} RoomForSetup(r: Usb, e: Event)
    requires Valid(r) && EventValid(e) && e.DeliverOut? && Enabled(r, e)
    ensures |Apply(r, e).rx| < RX_DEPTH
  {
    hide Valid;
  }

  /** A link reset, which the host may bring about at any time, clears the address and withdraws every packet waiting
      for collection; it takes nothing from software and nothing that has been received or collected. */
  lemma {:induction false} LinkResetMeans(r: Usb)
    requires Valid(r)
    ensures EventValid(LinkReset) && Enabled(r, LinkReset)
    ensures var s := Apply(r, LinkReset);
      && Valid(s) && s.address == 0 && s.addressReset
      && (forall ep :: 0 <= ep < MAX_ENDPOINTS ==>
            !s.slots[ep].ready && s.slots[ep].pend == (r.slots[ep].ready || r.slots[ep].pend)
            && s.slots[ep].buf == r.slots[ep].buf && s.slots[ep].size == r.slots[ep].size)
      && s == r.(slots := s.slots, address := s.address, addressReset := s.addressReset)
  {
    hide RxValid;
  }

  // ----- ownership -----

  /** An endpoint holds a buffer from the moment a packet is presented until software retrieves it. */
  predicate Outstanding(r: Usb, ep: nat)
    requires Valid(r) && ep < MAX_ENDPOINTS
  {
    r.slots[ep].ready || r.slots[ep].pend || ep in r.inSent
  }

  /** The buffers held by the first n endpoints. */
  function Held(r: Usb, n: nat): (bufs: multiset<nat>)
    requires Valid(r) && n <= MAX_ENDPOINTS
  {
    if n == 0 then multiset{}
    else Held(r, n - 1) + if Outstanding(r, n - 1) then multiset{r.slots[n - 1].buf} else multiset{}
  }

  function RxBufs(rx: seq<RxEntry>): (bufs: seq<nat>)
    ensures |bufs| == |rx| && forall k :: 0 <= k < |rx| ==> bufs[k] == rx[k].buf
  {
    seq(|rx|, i requires 0 <= i < |rx| => rx[i].buf)
  }

  /** Every buffer the hardware owns, once for each place that holds it. */
  function Pool(r: Usb): (bufs: multiset<nat>)
    requires Valid(r)
  {
    multiset(r.avSetup) + multiset(r.avOut) + multiset(RxBufs(r.rx)) + Held(r, MAX_ENDPOINTS)
  }

  function UpTo(n: nat): (s: set<nat>)
    ensures |s| == n && forall b :: b in s <==> 0 <= b < n
  {
    if n == 0 then {} else UpTo(n - 1) + {n - 1}
  }

  function AllBuffers(): (bufs: multiset<nat>)
    ensures |bufs| == BUFFER_COUNT && forall b :: bufs[b] == if 0 <= b < BUFFER_COUNT then 1 else 0
  {
    multiset(UpTo(BUFFER_COUNT))
  }

  // ----- what the buffers hold -----

  /** A receive entry describes the packet the host delivered, and its buffer holds the payload. */
  predicate Receives(r: Usb, e: RxEntry, p: Packet)
    requires Valid(r) && RxValid(e)
  {
    e.ep == p.ep && e.setup == p.setup && Bytes(r.mem[e.buf], e.size) == p.payload
  }

  /** The host has collected what was presented on an endpoint, in order, except perhaps the last packet:
      either it is still waiting in its buffer, unharmed, or the hardware has withdrawn it. Collected and
      not yet retrieved, the endpoint is neither. */
  predicate Presents(r: Usb, ep: nat)
    requires Valid(r) && ep < MAX_ENDPOINTS
  {
    var s := r.slots[ep];
    (ep in r.inSent ==> !s.ready && !s.pend) &&
    if s.ready then r.asked[ep] == r.got[ep] + [Bytes(r.mem[s.buf], s.size)]
    else if s.pend then |r.asked[ep]| == |r.got[ep]| + 1 && r.got[ep] <= r.asked[ep]
    else r.asked[ep] == r.got[ep]
  }

  predicate Intact(r: Usb)
    requires Valid(r)
  {
    && (forall k :: 0 <= k < |r.rx| ==> Receives(r, r.rx[k], r.delivered[r.popped + k]))
    && (forall ep :: 0 <= ep < MAX_ENDPOINTS ==> Presents(r, ep))
  }

  /** Together with the buffers that software owns, every buffer is in exactly one place, and every
      packet in flight is whole. */
  predicate Sound(r: Usb, own: multiset<nat>) {
    Valid(r) && own + Pool(r) == AllBuffers() && Intact(r)
  }

  // ----- facts about Held -----

  lemma {:induction false} HeldSame(r: Usb, s: Usb, n: nat)
    requires Valid(r) && Valid(s) && n <= MAX_ENDPOINTS
    requires forall ep :: 0 <= ep < n ==> Outstanding(r, ep) == Outstanding(s, ep)
    requires forall ep :: 0 <= ep < n ==> r.slots[ep].buf == s.slots[ep].buf
    ensures Held(r, n) == Held(s, n)
  {
    hide Valid, Outstanding;
    if n > 0 {
      HeldSame(r, s, n - 1);
    }
  }

  lemma {:induction false} HeldAt(r: Usb, ep: nat, n: nat)
    requires Valid(r) && ep < n <= MAX_ENDPOINTS && Outstanding(r, ep)
    ensures r.slots[ep].buf in Held(r, n)
  {
    hide Valid, Outstanding;
    if ep < n - 1 {
      HeldAt(r, ep, n - 1);
    }
  }

  /** The buffer one endpoint holds, if any. */
  function Carried(r: Usb, ep: nat): (bufs: multiset<nat>)
    requires Valid(r) && ep < MAX_ENDPOINTS
  {
    if Outstanding(r, ep) then multiset{r.slots[ep].buf} else multiset{}
  }

  lemma {:induction false} HeldNext(r: Usb, n: nat)
    requires Valid(r) && 0 < n <= MAX_ENDPOINTS
    ensures Held(r, n) == Held(r, n - 1) + Carried(r, n - 1)
  {
    hide Outstanding;
  }

  /** States that agree on every endpoint but one hold the same buffers but for that one. */
  lemma {:induction false} HeldDiffers(r: Usb, s: Usb, ep: nat, n: nat)
    requires Valid(r) && Valid(s) && ep < n <= MAX_ENDPOINTS
    requires forall i :: 0 <= i < n && i != ep ==> Carried(r, i) == Carried(s, i)
    ensures Held(s, n) + Carried(r, ep) == Held(r, n) + Carried(s, ep)
  {
    HeldNext(r, n);
    HeldNext(s, n);
    hide Valid, Outstanding, Held, Carried;
    if ep < n - 1 {
      HeldDiffers(r, s, ep, n - 1);
      AddToBoth(Held(r, n - 1), Held(s, n - 1), Carried(r, n - 1), Carried(r, ep), Carried(s, ep));
    } else {
      HeldAgrees(r, s, ep);
      Exchange(Held(r, ep), Carried(r, ep), Carried(s, ep));
    }
  }

  lemma {:induction false} AddToBoth(a: multiset<nat>, b: multiset<nat>, more: multiset<nat>, c: multiset<nat>,
      d: multiset<nat>)
    requires b + c == a + d
    ensures b + more + c == a + more + d
  {
    assert b + more + c == b + c + more && a + more + d == a + d + more;
  }

  lemma {:induction false} Exchange(a: multiset<nat>, b: multiset<nat>, c: multiset<nat>)
    ensures a + b + c == a + c + b
  {
  }

  lemma {:induction false} HeldAgrees(r: Usb, s: Usb, n: nat)
    requires Valid(r) && Valid(s) && n <= MAX_ENDPOINTS
    requires forall i :: 0 <= i < n ==> Carried(r, i) == Carried(s, i)
    ensures Held(s, n) == Held(r, n)
  {
    if n > 0 {
      HeldNext(r, n);
      HeldNext(s, n);
      hide Valid, Outstanding, Held, Carried;
      HeldAgrees(r, s, n - 1);
    }
  }

  lemma {:induction false} HeldFew(r: Usb, n: nat)
    requires Valid(r) && n <= MAX_ENDPOINTS
    ensures |Held(r, n)| <= n
    ensures |Held(r, n)| == n ==> forall ep :: 0 <= ep < n ==> Outstanding(r, ep)
  {
    hide Valid, Outstanding;
    if n > 0 {
      HeldFew(r, n - 1);
    }
  }

  // ----- what one event keeps -----

  /** What holds between two moments in which software acted only on the endpoints in `mine` and took
      `taken` packets: which other endpoints are outstanding and with which buffer, everything presented,
      delivered or collected, and the device address unless a link reset clears it. */
  predicate Evolved(r: Usb, s: Usb, mine: set<nat>, taken: nat)
    requires Valid(r)
  {
    && Valid(s)
    && (forall ep :: 0 <= ep < MAX_ENDPOINTS && ep !in mine ==> Outstanding(r, ep) == Outstanding(s, ep))
    && (forall ep :: 0 <= ep < MAX_ENDPOINTS && ep !in mine ==>
          r.slots[ep].buf == s.slots[ep].buf && r.slots[ep].size == s.slots[ep].size)
    && (forall ep :: 0 <= ep < MAX_ENDPOINTS && ep !in mine ==> r.asked[ep] == s.asked[ep])
    && (forall ep :: 0 <= ep < MAX_ENDPOINTS ==> r.got[ep] <= s.got[ep])
    && (forall ep | ep in r.inSent :: ep !in mine ==> ep in s.inSent)
    && s.popped == r.popped + taken && r.delivered <= s.delivered
    && r.early <= s.early && r.over <= s.over && (mine == {} ==> s.over == r.over)
    && ((s.addressReset == r.addressReset && s.address == r.address) || (s.addressReset && s.address == 0))
    && |s.todo| + |s.rx| + taken <= |r.todo| + |r.rx| && |s.todo| + |s.inSent| <= |r.todo| + |r.inSent|
    && Quiet(r, s, mine)
  }

  /** A host with nothing left to attempt does nothing: packets come and go only by what software does. */
  predicate Quiet(r: Usb, s: Usb, mine: set<nat>)
    requires Valid(r) && Valid(s)
  {
    r.todo == [] ==>
      && s.todo == [] && s.delivered == r.delivered && s.inSent <= r.inSent && s.got == r.got
      && |r.avSetup| <= |s.avSetup| && |r.avOut| <= |s.avOut|
      && forall ep :: 0 <= ep < MAX_ENDPOINTS && ep !in mine ==> s.slots[ep] == r.slots[ep]
  }

  /** What the host never does: it takes no buffer from software, only drains the Available FIFOs, and
      writes no buffer but one it takes from them. */
  predicate HostOnly(r: Usb, s: Usb)
    requires Valid(r)
  {
    && Evolved(r, s, {}, 0) && Pool(s) == Pool(r)
    && |s.avSetup| <= |r.avSetup| && |s.avOut| <= |r.avOut|
    && (forall b :: b in s.avSetup ==> b in r.avSetup) && (forall b :: b in s.avOut ==> b in r.avOut)
    && (forall b :: 0 <= b < BUFFER_COUNT && b !in r.avSetup && b !in r.avOut ==> s.mem[b] == r.mem[b])
  }

  lemma {:induction false} EvolvedSelf(r: Usb)
    requires Valid(r)
    ensures Evolved(r, r, {}, 0) && HostOnly(r, r)
  {
  }

  lemma {:induction false} EvolvedTrans(r: Usb, s: Usb, t: Usb, a: set<nat>, b: set<nat>, m: nat, n: nat)
    requires Valid(r) && Evolved(r, s, a, m) && Evolved(s, t, b, n)
    ensures Evolved(r, t, a + b, m + n)
  {
    hide Valid, Outstanding;
  }

  lemma {:induction false} HostOnlyTrans(r: Usb, s: Usb, t: Usb)
    requires Valid(r) && HostOnly(r, s) && HostOnly(s, t)
    ensures HostOnly(r, t)
  {
  }

  lemma {:induction false} ApplyValid(r: Usb, e: Event)
    requires Valid(r) && EventValid(e) && Enabled(r, e)
    ensures Valid(Apply(r, e))
  {
    hide Bytes;
  }

  lemma {:induction false} StepValid(r: Usb)
    requires Valid(r) && r.todo != []
    ensures Valid(Step(r))
  {
    var e := r.todo[0];
    if Enabled(r, e) {
      ApplyValid(r, e);
      hide Enabled, Apply;
    }
  }

  lemma {:induction false} BusyHost(r: Usb, s: Usb, mine: set<nat>)
    requires Valid(r) && Valid(s) && r.todo != []
    ensures Quiet(r, s, mine)
  {
  }

  lemma {:induction false} DeliverEvolves(r: Usb, e: Event)
    requires Valid(r) && EventValid(e) && Enabled(r, e) && r.todo != [] && (e.DeliverSetup? || e.DeliverOut?)
    ensures Evolved(r, Apply(r, e).(todo := r.todo[1..]), {}, 0)
  {
    ApplyValid(r, e);
    hide Bytes, RxValid, Quiet;
    BusyHost(r, Apply(r, e).(todo := r.todo[1..]), {});
  }

  lemma {:induction false} CollectEvolves(r: Usb, e: Event)
    requires Valid(r) && EventValid(e) && Enabled(r, e) && r.todo != [] && e.Collect?
    ensures Evolved(r, Apply(r, e).(todo := r.todo[1..]), {}, 0)
  {
    ApplyValid(r, e);
    hide Bytes, RxValid, Quiet;
    BusyHost(r, Apply(r, e).(todo := r.todo[1..]), {});
  }

  lemma {:induction false} WithdrawEvolves(r: Usb, e: Event)
    requires Valid(r) && EventValid(e) && r.todo != [] && (e.Cancel? || e.LinkReset?)
    ensures Evolved(r, Apply(r, e).(todo := r.todo[1..]), {}, 0)
  {
    ApplyValid(r, e);
    hide Bytes, RxValid, Quiet;
    BusyHost(r, Apply(r, e).(todo := r.todo[1..]), {});
  }

  lemma {:induction false} ApplyEvolves(r: Usb, e: Event)
    requires Valid(r) && EventValid(e) && Enabled(r, e) && r.todo != []
    ensures Evolved(r, Apply(r, e).(todo := r.todo[1..]), {}, 0)
  {
    hide Valid, Evolved, Apply;
    if e.DeliverSetup? || e.DeliverOut? {
      DeliverEvolves(r, e);
    } else if e.Collect? {
      CollectEvolves(r, e);
    } else {
      WithdrawEvolves(r, e);
    }
  }

  lemma {:induction false} RxBufsAppend(rx: seq<RxEntry>, e: RxEntry)
    ensures multiset(RxBufs(rx + [e])) == multiset(RxBufs(rx)) + multiset{e.buf}
  {
    assert RxBufs(rx + [e]) == RxBufs(rx) + [e.buf];
  }

  lemma {:induction false} TakeFirst(q: seq<nat>)
    requires q != []
    ensures multiset(q) == multiset(q[1..]) + multiset{q[0]}
  {
    assert q == [q[0]] + q[1..];
  }

  /** A buffer moves from the head of one queue to the end of the receive FIFO. */
  lemma {:induction false} MoveOne(q: seq<nat>, rx: seq<RxEntry>, e: RxEntry, others: multiset<nat>)
    requires q != [] && e.buf == q[0]
    ensures multiset(q) + others + multiset(RxBufs(rx)) == multiset(q[1..]) + others + multiset(RxBufs(rx + [e]))
  {
    TakeFirst(q);
    RxBufsAppend(rx, e);
  }

  /** A delivered packet's buffer moves from an Available FIFO to the receive FIFO. */
  lemma {:induction false} DeliverKeepsPool(r: Usb, e: Event)
    requires Valid(r) && EventValid(e) && Enabled(r, e) && (e.DeliverSetup? || e.DeliverOut?)
    ensures Valid(Apply(r, e)) && Pool(Apply(r, e)) == Pool(r)
  {
    ApplyValid(r, e);
    var s := Apply(r, e);
    HeldSame(r, s, MAX_ENDPOINTS);
    if e.DeliverSetup? {
      MoveOne(r.avSetup, r.rx, RxEntry(r.avSetup[0], e.size, true, e.ep), multiset(r.avOut));
    } else {
      MoveOne(r.avOut, r.rx, RxEntry(r.avOut[0], e.size, false, e.ep), multiset(r.avSetup));
      assert multiset(r.avSetup) + multiset(r.avOut) == multiset(r.avOut) + multiset(r.avSetup);
      assert multiset(s.avSetup) + multiset(s.avOut) == multiset(s.avOut) + multiset(s.avSetup);
    }
    hide Valid, Held, RxBufs, Bytes;
  }

  lemma {:induction false} ApplyKeepsPool(r: Usb, e: Event)
    requires Valid(r) && EventValid(e) && Enabled(r, e)
    ensures Valid(Apply(r, e)) && Pool(Apply(r, e)) == Pool(r)
  {
    if e.DeliverSetup? || e.DeliverOut? {
      DeliverKeepsPool(r, e);
    } else {
      ApplyValid(r, e);
      HeldSame(r, Apply(r, e), MAX_ENDPOINTS);
      hide Valid, Held, Bytes;
    }
  }

  /** The packet taken last. */
  function LastTaken(r: Usb): (p: Packet)
    requires Valid(r)
  {
    if 0 < r.popped <= |r.delivered| then r.delivered[r.popped - 1] else Packet(0, false, [])
  }

  // ----- exclusive ownership -----

  /** No receive entry and no outstanding endpoint uses the buffer. */
  predicate Free(r: Usb, b: nat)
    requires Valid(r)
  {
    && (forall k :: 0 <= k < |r.rx| ==> r.rx[k].buf != b)
    && (forall ep :: 0 <= ep < MAX_ENDPOINTS && Outstanding(r, ep) ==> r.slots[ep].buf != b)
  }

  lemma {:induction false} CountedOnce(r: Usb, own: multiset<nat>, b: nat)
    requires Sound(r, own)
    ensures own[b] + multiset(r.avSetup)[b] + multiset(r.avOut)[b] + multiset(RxBufs(r.rx))[b]
      + Held(r, MAX_ENDPOINTS)[b] <= 1
  {
    hide Valid, Held, Intact;
    assert (own + Pool(r))[b] <= 1;
  }

  /** A buffer that software owns, or that waits in an Available FIFO, is used nowhere else. */
  lemma {:induction false} OwnedIsFree(r: Usb, own: multiset<nat>, b: nat)
    requires Sound(r, own) && (b in own || b in r.avSetup || b in r.avOut)
    ensures Free(r, b) && (b in own ==> b !in r.avSetup && b !in r.avOut)
  {
    CountedOnce(r, own, b);
    forall k | 0 <= k < |r.rx| ensures r.rx[k].buf != b {
      assert RxBufs(r.rx)[k] in multiset(RxBufs(r.rx));
    }
    forall ep | 0 <= ep < MAX_ENDPOINTS && Outstanding(r, ep) ensures r.slots[ep].buf != b {
      HeldAt(r, ep, MAX_ENDPOINTS);
    }
    hide Valid, Held, Intact, Outstanding;
  }

  /** Writing a buffer that nobody uses harms no packet. */
  lemma {:induction false} StoreKeepsIntact(r: Usb, b: nat, ep: nat, setup: bool, words: seq<u32>, size: nat)
    requires Valid(r) && Intact(r) && b < BUFFER_COUNT && Free(r, b) && |r.rx| < RX_DEPTH
    requires ep < MAX_ENDPOINTS && |words| == BUFFER_WORDS && size <= MAX_PACKET_LENGTH
    ensures var s := Store(r, b, ep, setup, words, size); Valid(s) && Intact(s)
  {
    var s := Store(r, b, ep, setup, words, size);
    hide Bytes;
    assert Valid(s);
    forall k | 0 <= k < |s.rx| ensures Receives(s, s.rx[k], s.delivered[s.popped + k]) {
      if k < |r.rx| {
        assert Receives(r, r.rx[k], r.delivered[r.popped + k]);
      }
    }
    forall e | 0 <= e < MAX_ENDPOINTS ensures Presents(s, e) {
      assert Presents(r, e);
    }
  }

  /** Packets waiting for collection have been withdrawn or collected, and nothing else. */
  predicate SlotsMoved(r: Usb, s: Usb)
    requires Valid(r) && Valid(s)
  {
    && s.rx == r.rx && s.delivered == r.delivered && s.popped == r.popped && s.mem == r.mem && s.asked == r.asked
    && forall ep :: 0 <= ep < MAX_ENDPOINTS ==>
      || (s.slots[ep] == r.slots[ep] && s.got[ep] == r.got[ep] && (ep in s.inSent <==> ep in r.inSent))
      || (s.slots[ep] == Withdrawn(r.slots[ep]) && s.got[ep] == r.got[ep] && (ep in s.inSent <==> ep in r.inSent))
      || (r.slots[ep].ready && s.slots[ep] == r.slots[ep].(ready := false)
          && s.got[ep] == r.got[ep] + [Bytes(r.mem[r.slots[ep].buf], r.slots[ep].size)])
  }

  lemma {:induction false} OnlySlotsMove(r: Usb, e: Event)
    requires Valid(r) && EventValid(e) && Enabled(r, e) && !e.DeliverSetup? && !e.DeliverOut?
    ensures Valid(Apply(r, e)) && SlotsMoved(r, Apply(r, e))
  {
    ApplyValid(r, e);
    hide Bytes, Valid, SlotValid;
  }

  /** Withdrawing packets, and collecting one, harm no packet. */
  lemma {:induction false} SlotsKeepIntact(r: Usb, s: Usb)
    requires Valid(r) && Intact(r) && Valid(s) && SlotsMoved(r, s)
    ensures Intact(s)
  {
    hide Bytes;
    forall k | 0 <= k < |s.rx| ensures Receives(s, s.rx[k], s.delivered[s.popped + k]) {
      assert Receives(r, r.rx[k], r.delivered[r.popped + k]);
    }
    forall ep | 0 <= ep < MAX_ENDPOINTS ensures Presents(s, ep) {
      assert Presents(r, ep);
    }
  }

  lemma {:induction false} DeliverKeepsIntact(r: Usb, own: multiset<nat>, e: Event, b: nat)
    requires Sound(r, own) && EventValid(e) && Enabled(r, e) && (e.DeliverSetup? || e.DeliverOut?)
    requires b == if e.DeliverSetup? then r.avSetup[0] else r.avOut[0]
    ensures Valid(Apply(r, e)) && Intact(Apply(r, e))
  {
    OwnedIsFree(r, own, b);
    StoreKeepsIntact(r, b, e.ep, e.DeliverSetup?, e.words, e.size);
    StoreThenWithdraw(r, e, b);
    hide Bytes, Intact, Pool, Free, Valid, SlotsMoved, Apply, Store;
    SlotsKeepIntact(Store(r, b, e.ep, e.DeliverSetup?, e.words, e.size), Apply(r, e));
  }

  lemma {:induction false} StoreThenWithdraw(r: Usb, e: Event, b: nat)
    requires Valid(r) && EventValid(e) && Enabled(r, e) && (e.DeliverSetup? || e.DeliverOut?)
    requires b == if e.DeliverSetup? then r.avSetup[0] else r.avOut[0]
    requires b < BUFFER_COUNT && Valid(Store(r, b, e.ep, e.DeliverSetup?, e.words, e.size))
    ensures Valid(Apply(r, e)) && SlotsMoved(Store(r, b, e.ep, e.DeliverSetup?, e.words, e.size), Apply(r, e))
  {
    ApplyValid(r, e);
    hide Bytes, Valid;
  }

  lemma {:induction false} ApplyKeepsIntact(r: Usb, own: multiset<nat>, e: Event)
    requires Sound(r, own) && EventValid(e) && Enabled(r, e)
    ensures Valid(Apply(r, e)) && Intact(Apply(r, e))
  {
    if e.DeliverSetup? || e.DeliverOut? {
      DeliverKeepsIntact(r, own, e, if e.DeliverSetup? then r.avSetup[0] else r.avOut[0]);
    } else {
      OnlySlotsMove(r, e);
      hide Bytes, Intact, Pool, Valid, SlotsMoved, Apply;
      SlotsKeepIntact(r, Apply(r, e));
    }
  }

  /** Only the script of what the host has yet to attempt differs. */
  lemma {:induction false} TodoIsApart(r: Usb, todo: seq<Event>)
    requires Valid(r) && Valid(r.(todo := todo))
    ensures Pool(r.(todo := todo)) == Pool(r) && Intact(r.(todo := todo)) == Intact(r)
  {
    var s := r.(todo := todo);
    HeldSame(r, s, MAX_ENDPOINTS);
    hide Held;
    assert forall k :: 0 <= k < |r.rx| ==>
      Receives(s, r.rx[k], r.delivered[r.popped + k]) == Receives(r, r.rx[k], r.delivered[r.popped + k]);
    assert forall ep :: 0 <= ep < MAX_ENDPOINTS ==> Presents(s, ep) == Presents(r, ep);
  }

  lemma {:induction false} ApplyTakesFromFifos(r: Usb, e: Event)
    requires Valid(r) && EventValid(e) && Enabled(r, e)
    ensures var s := Apply(r, e);
      && |s.mem| == BUFFER_COUNT && |s.avSetup| <= |r.avSetup| && |s.avOut| <= |r.avOut|
      && (forall b :: b in s.avSetup ==> b in r.avSetup) && (forall b :: b in s.avOut ==> b in r.avOut)
      && (forall b :: 0 <= b < BUFFER_COUNT && b !in r.avSetup && b !in r.avOut ==> s.mem[b] == r.mem[b])
  {
    hide Bytes;
  }

  lemma {:induction false} StepIsHostOnly(r: Usb)
    requires Valid(r) && r.todo != []
    ensures Valid(Step(r)) && HostOnly(r, Step(r))
  {
    StepValid(r);
    var e := r.todo[0];
    if Enabled(r, e) {
      ApplyEvolves(r, e);
      ApplyKeepsPool(r, e);
      ApplyTakesFromFifos(r, e);
      TodoIsApart(Apply(r, e), r.todo[1..]);
      hide Apply, Pool, Evolved, Enabled, Valid;
    } else {
      EvolvedSelf(r);
      TodoIsApart(r, r.todo[1..]);
      hide Pool, Enabled;
    }
  }

  /** Whatever the host does next, the buffers stay partitioned and the packets whole. */
  lemma {:induction false} StepKeepsSound(r: Usb, own: multiset<nat>)
    requires Sound(r, own) && r.todo != []
    ensures Sound(Step(r), own)
  {
    StepIsHostOnly(r);
    var e := r.todo[0];
    if Enabled(r, e) {
      ApplyKeepsIntact(r, own, e);
      TodoIsApart(Apply(r, e), r.todo[1..]);
    } else {
      TodoIsApart(r, r.todo[1..]);
    }
    hide Apply, Pool, Evolved, Enabled, Valid, Intact;
  }

  /** The host sets out on a script of attempts. */
  function SetOut(r: Usb, script: seq<Event>): (s: Usb)
    requires Valid(r) && forall k :: 0 <= k < |script| ==> EventValid(script[k])
    ensures Valid(s) && s == r.(todo := script)
  {
    r.(todo := script)
  }

  /** All of the host's attempts, one after the other. */
  function Run(r: Usb): (s: Usb)
    requires Valid(r)
    ensures Valid(s) && s.todo == []
    decreases |r.todo|
  {
    if r.todo == [] then r
    else
      StepValid(r);
      Run(Step(r))
  }

  lemma {:induction false} RunKeeps(r: Usb, own: multiset<nat>)
    requires Valid(r)
    ensures HostOnly(r, Run(r)) && (Sound(r, own) ==> Sound(Run(r), own))
    decreases |r.todo|
  {
    EvolvedSelf(r);
    if r.todo != [] {
      StepIsHostOnly(r);
      assert |Step(r).todo| < |r.todo|;
      hide Sound, HostOnly, Valid, Step;
      RunKeeps(Step(r), own);
      HostOnlyTrans(r, Step(r), Run(r));
      if Sound(r, own) {
        StepKeepsSound(r, own);
      }
    }
  }
}
