/** Software's accesses to the USB device's registers and packet memory
    (scratch_sw/bare_metal/common/platform-usbdev.hh), and exactly when each keeps every buffer in one place. */
module UsbRegisters {
  import opened Words
  import opened UsbHardware

  /** A write to `availableSetupBuffer` or `availableOutBuffer`; the hardware drops it when the FIFO is full. */
  function Supply(r: Usb, setup: bool, b: nat): (s: Usb)
    requires Valid(r) && b < BUFFER_COUNT
    ensures Valid(s)
  {
    if setup then (if |r.avSetup| < AV_SETUP_DEPTH then r.(avSetup := r.avSetup + [b]) else r)
    else if |r.avOut| < AV_OUT_DEPTH then r.(avOut := r.avOut + [b])
    else r
  }

  predicate HasRoom(r: Usb, setup: bool) {
    if setup then |r.avSetup| < AV_SETUP_DEPTH else |r.avOut| < AV_OUT_DEPTH
  }

  /** A read of `receiveBuffer` takes the oldest entry. */
  function Pop(r: Usb): (s: Usb)
    requires Valid(r) && r.rx != []
    ensures Valid(s)
  {
    r.(rx := r.rx[1..], popped := r.popped + 1, early := r.early + [Outstanding(r, 0)])
  }

  /** Writing one bit to `inSent` clears it. */
  function ClearSent(r: Usb, ep: nat): (s: Usb)
    requires Valid(r) && ep < MAX_ENDPOINTS
    ensures Valid(s)
  {
    r.(inSent := r.inSent - {ep})
  }

  function Fill(r: Usb, b: nat, words: seq<u32>): (s: Usb)
    requires Valid(r) && b < BUFFER_COUNT && |words| == BUFFER_WORDS
    ensures Valid(s)
  {
    r.(mem := r.mem[b := words])
  }

  function OverAfter(r: Usb, ep: nat): (over: seq<nat>)
    requires Valid(r) && ep < MAX_ENDPOINTS
  {
    if Outstanding(r, ep) then r.over + [ep] else r.over
  }

  /** The first write of `packet_send` to `configIn`. The pending bit is cleared only by writing one. */
  function Configure(r: Usb, ep: nat, b: nat, size: nat): (s: Usb)
    requires Valid(r) && ep < MAX_ENDPOINTS && b < BUFFER_COUNT && size <= MAX_PACKET_LENGTH
    ensures Valid(s)
  {
    r.(slots := r.slots[ep := InSlot(b, size, false, r.slots[ep].pend)],
       over := OverAfter(r, ep))
  }

  /** The second, which writes the register back with the ready bit set: the host may now collect `data`. */
  function MakeReady(r: Usb, ep: nat, data: seq<byte>): (s: Usb)
    requires Valid(r) && ep < MAX_ENDPOINTS
    ensures Valid(s)
  {
    r.(slots := r.slots[ep := r.slots[ep].(ready := true, pend := false)],
       asked := r.asked[ep := r.asked[ep] + [data]])
  }

  /** A write that leaves software's address in the register answers an earlier link reset. */
  function WriteAddress(r: Usb, address: nat): (s: Usb)
    requires Valid(r)
    ensures Valid(s)
  {
    r.(address := address, addressReset := false)
  }

  // ----- accounting for buffers -----

  /** The hardware's buffers changed by exactly what one endpoint gave up and what it took. */
  predicate Accounts(r: Usb, s: Usb, ep: nat)
    requires Valid(r) && Valid(s) && ep < MAX_ENDPOINTS
  {
    Pool(s) + Carried(r, ep) == Pool(r) + Carried(s, ep)
  }

  lemma {:induction false} PoolDiffers(r: Usb, s: Usb, ep: nat)
    requires Valid(r) && Valid(s) && ep < MAX_ENDPOINTS
    requires s.avSetup == r.avSetup && s.avOut == r.avOut && s.rx == r.rx
    requires forall i :: 0 <= i < MAX_ENDPOINTS && i != ep ==>
      s.slots[i] == r.slots[i] && (i in s.inSent <==> i in r.inSent)
    ensures Accounts(r, s, ep)
  {
    HeldDiffers(r, s, ep, MAX_ENDPOINTS);
    hide Valid, Held, RxBufs, Outstanding, Carried;
    Regroup(multiset(r.avSetup) + multiset(r.avOut) + multiset(RxBufs(r.rx)),
            Held(r, MAX_ENDPOINTS), Held(s, MAX_ENDPOINTS), Carried(r, ep), Carried(s, ep));
  }

  lemma {:induction false} Regroup(rest: multiset<nat>, a: multiset<nat>, b: multiset<nat>, c: multiset<nat>,
      d: multiset<nat>)
    requires b + c == a + d
    ensures rest + b + c == rest + a + d
  {
    assert rest + (b + c) == rest + b + c && rest + (a + d) == rest + a + d;
  }

  lemma {:induction false} Cancel(a: multiset<nat>, b: multiset<nat>, c: multiset<nat>)
    requires a + c == b + c
    ensures a == b
  {
    assert a + c - c == a && b + c - c == b;
  }

  lemma {:induction false} AccountsTrans(r: Usb, s: Usb, t: Usb, ep: nat)
    requires Valid(r) && Valid(s) && Valid(t) && ep < MAX_ENDPOINTS && Accounts(r, s, ep) && Accounts(s, t, ep)
    ensures Accounts(r, t, ep)
  {
    hide Valid, Pool, Carried;
    var a, b, c := Pool(t) + Carried(r, ep), Pool(r) + Carried(t, ep), Pool(s) + Carried(s, ep);
    assert a + c == (Pool(t) + Carried(s, ep)) + (Pool(s) + Carried(r, ep));
    assert b + c == (Pool(s) + Carried(t, ep)) + (Pool(r) + Carried(s, ep));
    Cancel(a, b, c);
  }

  /** The host moves buffers about but takes none. */
  lemma {:induction false} HostAccounts(r: Usb, s: Usb, ep: nat)
    requires Valid(r) && Valid(s) && HostOnly(r, s) && ep < MAX_ENDPOINTS
    ensures Accounts(r, s, ep)
  {
    hide Valid, Outstanding, Pool;
  }

  /** Some buffer is in no place at all. */
  ghost predicate Lost(r: Usb, own: multiset<nat>)
    requires Valid(r)
  {
    exists b: nat :: b < BUFFER_COUNT && (own + Pool(r))[b] == 0
  }

  ghost predicate SoundOrLost(r: Usb, own: multiset<nat>, sound: bool)
    requires Valid(r)
  {
    if sound then Sound(r, own) else Lost(r, own)
  }

  lemma {:induction false} LostIsNotSound(r: Usb, own: multiset<nat>)
    requires Valid(r) && Lost(r, own)
    ensures !Sound(r, own)
  {
    hide Pool, Valid;
    var b: nat :| b < BUFFER_COUNT && (own + Pool(r))[b] == 0;
  }

  /** A buffer given up by an endpoint that nobody retrieved is lost: no place holds it any more. */
  lemma {:induction false} LostBuffer(r: Usb, s: Usb, ep: nat, b: nat, own: multiset<nat>)
    requires Sound(r, own + multiset{b}) && Valid(s) && ep < MAX_ENDPOINTS && Accounts(r, s, ep)
    requires Outstanding(r, ep) && Outstanding(s, ep) && s.slots[ep].buf == b
    ensures (own + Pool(s))[r.slots[ep].buf] == 0 && SoundOrLost(s, own, false)
  {
    var lost := r.slots[ep].buf;
    assert SlotValid(r.slots[ep]);
    HeldAt(r, ep, MAX_ENDPOINTS);
    hide Valid, Held, Outstanding, Intact, RxBufs, SlotValid;
    assert lost in Pool(r);
    assert (own + multiset{b} + Pool(r))[lost] == 1;
    assert (Pool(s) + multiset{lost})[lost] == (Pool(r) + multiset{b})[lost];
  }

  // ----- supplying buffers -----

  lemma {:induction false} SupplyEvolves(r: Usb, setup: bool, b: nat)
    requires Valid(r) && b < BUFFER_COUNT && HasRoom(r, setup)
    ensures Evolved(r, Supply(r, setup, b), {}, 0)
  {
  }

  lemma {:induction false} SameIntact(r: Usb, s: Usb)
    requires Valid(r) && Valid(s) && Intact(r)
    requires s.rx == r.rx && s.delivered == r.delivered && s.popped == r.popped && s.mem == r.mem
    requires s.asked == r.asked && s.got == r.got && s.slots == r.slots && s.inSent <= r.inSent
    ensures Intact(s)
  {
    hide Bytes;
    forall k | 0 <= k < |s.rx| ensures Receives(s, s.rx[k], s.delivered[s.popped + k]) {
      assert Receives(r, r.rx[k], r.delivered[r.popped + k]);
    }
    forall ep | 0 <= ep < MAX_ENDPOINTS ensures Presents(s, ep) {
      assert Presents(r, ep);
    }
  }

  lemma {:induction false} SupplyAddsToPool(r: Usb, setup: bool, b: nat)
    requires Valid(r) && b < BUFFER_COUNT && HasRoom(r, setup)
    ensures Pool(Supply(r, setup, b)) == Pool(r) + multiset{b}
  {
    var s := Supply(r, setup, b);
    HeldSame(r, s, MAX_ENDPOINTS);
    hide Valid, Held, RxBufs;
    assert multiset(r.avSetup + [b]) == multiset(r.avSetup) + multiset{b};
    assert multiset(r.avOut + [b]) == multiset(r.avOut) + multiset{b};
  }

  /** A buffer pushed to an Available FIFO with room passes from software to the hardware. */
  lemma {:induction false} SupplyKeepsSound(r: Usb, setup: bool, b: nat, own: multiset<nat>)
    requires Sound(r, own + multiset{b}) && b < BUFFER_COUNT && HasRoom(r, setup)
    ensures Sound(Supply(r, setup, b), own)
  {
    SupplyAddsToPool(r, setup, b);
    SameIntact(r, Supply(r, setup, b));
    hide Valid, Pool, Intact;
  }

  // ----- retrieving collected packets -----

  lemma {:induction false} ClearSentGivesUp(r: Usb, ep: nat)
    requires Valid(r) && Intact(r) && ep in r.inSent
    ensures Outstanding(r, ep) && !Outstanding(ClearSent(r, ep), ep)
    ensures Pool(r) == Pool(ClearSent(r, ep)) + multiset{r.slots[ep].buf}
  {
    var s := ClearSent(r, ep);
    assert Presents(r, ep);
    PoolDiffers(r, s, ep);
    hide Valid, Pool, Outstanding;
  }

  /** Retrieving a collected packet passes its buffer to software. */
  lemma {:induction false} ClearSentKeepsSound(r: Usb, ep: nat, own: multiset<nat>)
    requires Sound(r, own) && ep in r.inSent
    ensures Sound(ClearSent(r, ep), own + multiset{r.slots[ep].buf}) && !Outstanding(ClearSent(r, ep), ep)
  {
    ClearSentGivesUp(r, ep);
    SameIntact(r, ClearSent(r, ep));
    hide Valid, Pool, Intact;
  }

  // ----- receiving packets -----
  lemma {:induction false} PopGivesUp(r: Usb)
    requires Valid(r) && r.rx != []
    ensures Pool(r) == Pool(Pop(r)) + multiset{r.rx[0].buf}
  {
    var s := Pop(r);
    HeldSame(r, s, MAX_ENDPOINTS);
    assert RxBufs(r.rx) == [r.rx[0].buf] + RxBufs(s.rx);
    hide Valid, Held, RxBufs, Outstanding;
  }

  lemma {:induction false} PopKeepsIntact(r: Usb)
    requires Valid(r) && Intact(r) && r.rx != []
    ensures Intact(Pop(r)) && Receives(r, r.rx[0], r.delivered[r.popped])
  {
    var s := Pop(r);
    hide Bytes;
    forall k | 0 <= k < |s.rx| ensures Receives(s, s.rx[k], s.delivered[s.popped + k]) {
      assert Receives(r, r.rx[k + 1], r.delivered[r.popped + (k + 1)]);
    }
    forall ep | 0 <= ep < MAX_ENDPOINTS ensures Presents(s, ep) {
      assert Presents(r, ep);
    }
    assert Receives(r, r.rx[0], r.delivered[r.popped + 0]);
  }

  /** Taking a received packet passes its buffer, holding the payload, to software. */
  lemma {:induction false} PopKeepsSound(r: Usb, own: multiset<nat>)
    requires Sound(r, own) && r.rx != []
    ensures Sound(Pop(r), own + multiset{r.rx[0].buf})
    ensures Receives(r, r.rx[0], r.delivered[r.popped])
  {
    PopGivesUp(r);
    PopKeepsIntact(r);
    hide Valid, Pool, Intact, Receives, RxValid;
  }

  // ----- presenting packets -----

  lemma {:induction false} FillKeepsIntact(r: Usb, b: nat, words: seq<u32>)
    requires Valid(r) && Intact(r) && Free(r, b) && b < BUFFER_COUNT && |words| == BUFFER_WORDS
    ensures Intact(Fill(r, b, words))
  {
    var s := Fill(r, b, words);
    hide Bytes;
    forall k | 0 <= k < |s.rx| ensures Receives(s, s.rx[k], s.delivered[s.popped + k]) {
      assert Receives(r, r.rx[k], r.delivered[r.popped + k]);
    }
    forall e | 0 <= e < MAX_ENDPOINTS ensures Presents(s, e) {
      assert Presents(r, e);
    }
  }

  /** Software may write a buffer it owns. */
  lemma {:induction false} FillKeepsSound(r: Usb, b: nat, words: seq<u32>, own: multiset<nat>)
    requires Sound(r, own) && b in own && b < BUFFER_COUNT && |words| == BUFFER_WORDS
    ensures Sound(Fill(r, b, words), own)
  {
    OwnedIsFree(r, own, b);
    HeldSame(r, Fill(r, b, words), MAX_ENDPOINTS);
    FillKeepsIntact(r, b, words);
    hide Held, Intact, Valid, Free;
  }

  lemma {:induction false} FillKeepsPool(r: Usb, b: nat, words: seq<u32>)
    requires Valid(r) && b < BUFFER_COUNT && |words| == BUFFER_WORDS
    ensures Pool(Fill(r, b, words)) == Pool(r)
  {
    HeldSame(r, Fill(r, b, words), MAX_ENDPOINTS);
    hide Valid, Held;
  }

  lemma {:induction false} FillEvolves(r: Usb, b: nat, words: seq<u32>)
    requires Valid(r) && b < BUFFER_COUNT && |words| == BUFFER_WORDS
    ensures Evolved(r, Fill(r, b, words), {}, 0)
  {
  }

  lemma {:induction false} ConfigureKeepsIntact(r: Usb, ep: nat, b: nat, size: nat)
    requires Valid(r) && Intact(r) && ep < MAX_ENDPOINTS && b < BUFFER_COUNT && size <= MAX_PACKET_LENGTH
      && !Outstanding(r, ep)
    ensures Intact(Configure(r, ep, b, size))
  {
    var s := Configure(r, ep, b, size);
    hide Bytes;
    forall k | 0 <= k < |s.rx| ensures Receives(s, s.rx[k], s.delivered[s.popped + k]) {
      assert Receives(r, r.rx[k], r.delivered[r.popped + k]);
    }
    forall e | 0 <= e < MAX_ENDPOINTS ensures Presents(s, e) {
      assert Presents(r, e);
    }
  }

  /** An endpoint with nothing outstanding may be configured. */
  lemma {:induction false} ConfigureKeepsSound(r: Usb, ep: nat, b: nat, size: nat, own: multiset<nat>)
    requires Sound(r, own) && ep < MAX_ENDPOINTS && b < BUFFER_COUNT && size <= MAX_PACKET_LENGTH && !Outstanding(r, ep)
    ensures Sound(Configure(r, ep, b, size), own) && !Outstanding(Configure(r, ep, b, size), ep)
  {
    var s := Configure(r, ep, b, size);
    PoolDiffers(r, s, ep);
    ConfigureKeepsIntact(r, ep, b, size);
    Cancel(Pool(r), Pool(s), multiset{});
    hide Pool, Intact, Valid;
  }

  lemma {:induction false} MakeReadyTakes(r: Usb, ep: nat, data: seq<byte>)
    requires Valid(r) && ep < MAX_ENDPOINTS && !Outstanding(r, ep)
    ensures Pool(MakeReady(r, ep, data)) == Pool(r) + multiset{r.slots[ep].buf}
  {
    var s := MakeReady(r, ep, data);
    PoolDiffers(r, s, ep);
    hide Valid, Pool, Outstanding;
  }

  lemma {:induction false} MakeReadyKeepsIntact(r: Usb, ep: nat, data: seq<byte>)
    requires Valid(r) && Intact(r) && ep < MAX_ENDPOINTS && !Outstanding(r, ep)
    requires Bytes(r.mem[r.slots[ep].buf], r.slots[ep].size) == data
    ensures Intact(MakeReady(r, ep, data))
  {
    var s := MakeReady(r, ep, data);
    hide Bytes;
    forall k | 0 <= k < |s.rx| ensures Receives(s, s.rx[k], s.delivered[s.popped + k]) {
      assert Receives(r, r.rx[k], r.delivered[r.popped + k]);
    }
    forall e | 0 <= e < MAX_ENDPOINTS ensures Presents(s, e) {
      assert Presents(r, e);
    }
  }

  /** Presenting a packet passes its buffer to the endpoint. */
  lemma {:induction false} MakeReadyKeepsSound(r: Usb, ep: nat, data: seq<byte>, own: multiset<nat>)
    requires ep < MAX_ENDPOINTS && Valid(r) && Sound(r, own + multiset{r.slots[ep].buf}) && !Outstanding(r, ep)
    requires Bytes(r.mem[r.slots[ep].buf], r.slots[ep].size) == data
    ensures Sound(MakeReady(r, ep, data), own)
  {
    MakeReadyTakes(r, ep, data);
    MakeReadyKeepsIntact(r, ep, data);
    hide Valid, Pool, Intact, Bytes;
  }

  // ----- presenting on an endpoint that still holds a packet -----

  /** The buffer of the packet that was there is lost. */
  lemma {:induction false} PresentOverOutstanding(r: Usb, ep: nat, b: nat, size: nat, data: seq<byte>,
      own: multiset<nat>)
    requires Sound(r, own + multiset{b}) && ep < MAX_ENDPOINTS && b < BUFFER_COUNT && size <= MAX_PACKET_LENGTH
    requires Outstanding(r, ep)
    ensures (own + Pool(MakeReady(Configure(r, ep, b, size), ep, data)))[r.slots[ep].buf] == 0
    ensures SoundOrLost(MakeReady(Configure(r, ep, b, size), ep, data), own, false)
  {
    var s := MakeReady(Configure(r, ep, b, size), ep, data);
    PoolDiffers(r, s, ep);
    hide Sound, Pool, Accounts;
    LostBuffer(r, s, ep, b, own);
  }

  /** Presenting a packet keeps every buffer in one place exactly when the endpoint had nothing outstanding. */
  lemma {:induction false} PresentExactly(r: Usb, ep: nat, b: nat, size: nat, own: multiset<nat>)
    requires Sound(r, own + multiset{b}) && ep < MAX_ENDPOINTS && b < BUFFER_COUNT && size <= MAX_PACKET_LENGTH
    ensures Sound(MakeReady(Configure(r, ep, b, size), ep, Bytes(r.mem[b], size)), own) <==> !Outstanding(r, ep)
  {
    if Outstanding(r, ep) {
      PresentOverOutstanding(r, ep, b, size, Bytes(r.mem[b], size), own);
      LostIsNotSound(MakeReady(Configure(r, ep, b, size), ep, Bytes(r.mem[b], size)), own);
    } else {
      ConfigureKeepsSound(r, ep, b, size, own + multiset{b});
      MakeReadyKeepsSound(Configure(r, ep, b, size), ep, Bytes(r.mem[b], size), own);
    }
  }
}
