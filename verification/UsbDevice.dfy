/** The driver class of the USB device (scratch_sw/bare_metal/common/platform-usbdev.hh). Between any two
    register accesses the host may do anything the hardware lets it. */
module UsbDevice {
  import opened Words
  import opened Memory
  import opened UsbHardware
  import opened UsbRegisters
  import opened UsbTransfer

  class OpenTitanUsbdev {
    var usb: Usb

    /** After reset nothing is supplied, received or presented, whatever the memory holds and the host plans. */
    constructor (mem: seq<seq<u32>>, todo: seq<Event>)
      requires |mem| == BUFFER_COUNT && forall b :: 0 <= b < BUFFER_COUNT ==> |mem[b]| == BUFFER_WORDS
      requires forall k :: 0 <= k < |todo| ==> EventValid(todo[k])
      ensures Sound(usb, AllBuffers()) && usb.delivered == [] && usb.popped == 0 && usb.address == 0
      ensures usb.todo == todo && usb.avSetup == [] && usb.avOut == [] && usb.inSent == {} && usb.over == []
      ensures forall ep :: 0 <= ep < MAX_ENDPOINTS ==> !Outstanding(usb, ep) && usb.asked[ep] == [] && usb.got[ep] == []
    {
      usb := AtReset(mem, todo);
      new;
      ResetIsSound(mem, todo);
    }

    /** The host's next attempts, all made at this moment. */
    method Play(script: seq<Event>, ghost own: multiset<nat>)
      requires Valid(usb) && usb.todo == [] && forall k :: 0 <= k < |script| ==> EventValid(script[k])
      modifies this
      ensures Valid(usb) && usb == Run(SetOut(old(usb), script)) && usb.todo == []
      ensures old(Sound(usb, own)) ==> Sound(usb, own)
    {
      ghost var start := usb;
      usb := SetOut(usb, script);
      TodoIsApart(start, script);
      RunKeeps(usb, own);
      hide Sound, Valid, HostOnly;
      usb := Run(usb);
    }

    /** The host acts, for as long as it likes. */
    method Hardware(ghost own: multiset<nat>)
      requires Valid(usb)
      modifies this
      ensures HostOnly(old(usb), usb) && Valid(usb) && Evolved(old(usb), usb, {}, 0) && Pool(usb) == old(Pool(usb))
      ensures old(usb).todo == [] ==> usb == old(usb)
      ensures forall setup :: old(HasRoom(usb, setup)) ==> HasRoom(usb, setup)
      ensures old(Sound(usb, own)) ==> Sound(usb, own)
    {
      var start := usb;
      EvolvedSelf(usb);
      var n: nat := *;
      hide Valid, Sound, HostOnly, Evolved, Step;
      while n > 0 && usb.todo != []
        invariant Valid(usb) && HostOnly(start, usb)
        invariant Sound(start, own) ==> Sound(usb, own)
        invariant start.todo == [] ==> usb == start
        decreases n
      {
        StepIsHostOnly(usb);
        HostOnlyTrans(start, usb, Step(usb));
        if Sound(start, own) {
          StepKeepsSound(usb, own);
        }
        usb := Step(usb);
        n := n - 1;
      }
      HostOnlyMeans(start, usb);
    }

    /** One round of `supply_buffers`: a buffer goes to the OUT FIFO only when the SETUP FIFO has been found full in
        this round, and neither FIFO is ever overfilled. */
    method SupplyOne(index: nat, ghost own: multiset<nat>)
        returns (taken: bool, ghost setupAt: Usb, ghost outAt: Usb, ghost at: Usb)
      requires Valid(usb) && index < BUFFER_COUNT
      modifies this
      ensures Valid(usb) && Evolved(old(usb), usb, {}, 0)
      ensures taken ==> TookOne(old(usb), setupAt, at, usb, index)
      ensures old(usb).todo == [] ==> usb == Dealt(old(usb), [index]) && (taken <==> usb != old(usb))
      ensures taken && old(Sound(usb, own + multiset{index})) ==> Sound(usb, own)
      ensures !taken && old(Sound(usb, own + multiset{index})) ==> Sound(usb, own + multiset{index})
      ensures !taken ==> BothFull(old(usb), setupAt, outAt, usb)
    {
      ghost var start := usb;
      hide *;
      Hardware(own + multiset{index});
      setupAt, outAt, at := usb, usb, usb;
      if HasRoom(usb, true) {
        Hardware(own + multiset{index});
        at := usb;
        WriteAvailable(true, index, own);
        ThreeSteps(start, setupAt, at, usb);
        TakenBySetup(start, setupAt, at, usb, index);
        return true, setupAt, outAt, at;
      }
      Hardware(own + multiset{index});
      outAt := usb;
      if HasRoom(usb, false) {
        Hardware(own + multiset{index});
        at := usb;
        WriteAvailable(false, index, own);
        ThreeSteps(start, setupAt, outAt, at);
        EvolvedSelf(at);
        ThreeSteps(start, at, at, usb);
        TakenByOut(start, setupAt, outAt, at, usb, index);
        return true, setupAt, outAt, at;
      }
      BothFullNow(start, setupAt, outAt);
      NoneTaken(start, setupAt, outAt, index);
      taken := false;
    }

    method WriteAvailable(setup: bool, index: nat, ghost own: multiset<nat>)
      requires Valid(usb) && index < BUFFER_COUNT && HasRoom(usb, setup)
      modifies this
      ensures Valid(usb) && Evolved(old(usb), usb, {}, 0)
      ensures usb == if setup then old(usb).(avSetup := old(usb).avSetup + [index])
                     else old(usb).(avOut := old(usb).avOut + [index])
      ensures old(Sound(usb, own + multiset{index})) ==> Sound(usb, own)
    {
      SupplyEvolves(usb, setup, index);
      if Sound(usb, own + multiset{index}) {
        SupplyKeepsSound(usb, setup, index, own);
      }
      usb := Supply(usb, setup, index);
    }

    /** `supply_buffers`: what is pushed passes from the bitmap to the hardware, and buffers are left over only
        when both Available FIFOs have been found full. While the host does nothing the lowest buffers fill the SETUP
        FIFO and the next ones the OUT FIFO. `rest` is whatever else software owns. */
    method SupplyBuffers(bufferBitmap: set<nat>, ghost rest: multiset<nat>)
        returns (left: set<nat>, ghost setupAt: Usb, ghost outAt: Usb)
      requires Valid(usb) && bufferBitmap <= UpTo(BUFFER_COUNT)
      modifies this
      ensures Valid(usb) && Evolved(old(usb), usb, {}, 0) && left <= bufferBitmap
      ensures old(Sound(usb, multiset(bufferBitmap) + rest)) ==> Sound(usb, multiset(left) + rest)
      ensures left == {} || BothFull(old(usb), setupAt, outAt, usb)
      ensures old(usb).todo == [] ==> usb.todo == [] && DealtOut(old(usb), usb, bufferBitmap, left)
    {
      ghost var start := usb;
      left := bufferBitmap;
      setupAt, outAt := usb, usb;
      hide *;
      SupplyStarts(usb, bufferBitmap, rest);
      for index := 0 to BUFFER_COUNT
        invariant Supplying(start, usb, bufferBitmap, left, rest, index)
      {
        var full;
        left, full, setupAt, outAt := SupplyNext(index, left, bufferBitmap, rest, start);
        if full {
          return;
        }
      }
      SupplyEnds(start, usb, bufferBitmap, left, rest);
    }

    /** One round of the loop. */
    method SupplyNext(index: nat, bitmap: set<nat>, ghost all: set<nat>, ghost rest: multiset<nat>, ghost start: Usb)
        returns (left: set<nat>, full: bool, ghost setupAt: Usb, ghost outAt: Usb)
      requires index < BUFFER_COUNT && Valid(start) && Supplying(start, usb, all, bitmap, rest, index)
      modifies this
      ensures full ==> Valid(usb) && Evolved(start, usb, {}, 0) && left <= all
      ensures full && Sound(start, multiset(all) + rest) ==> Sound(usb, multiset(left) + rest)
      ensures full ==> BothFull(start, setupAt, outAt, usb) && (start.todo == [] ==> usb.todo == [])
      ensures full && start.todo == [] ==> DealtOut(start, usb, all, left)
      ensures !full ==> Supplying(start, usb, all, left, rest, index + 1)
    {
      ghost var was := usb;
      SupplyGoesOn(start, usb, all, bitmap, rest, index);
      hide *;
      left, full, setupAt, outAt := SupplyIndex(index, bitmap, all, rest);
      DealtNext(start, was, bitmap, usb, left, all, index, full);
      if full {
        FullAfter(start, was, setupAt, outAt, usb);
      } else {
        EvolvedSelf(start);
        ThreeSteps(start, start, was, usb);
        StillSupplying(start, usb, all, left, rest, index + 1);
      }
    }

    /** The round for one bit of the bitmap. */
    method SupplyIndex(index: nat, bitmap: set<nat>, ghost all: set<nat>, ghost rest: multiset<nat>)
        returns (left: set<nat>, full: bool, ghost setupAt: Usb, ghost outAt: Usb)
      requires Valid(usb) && index < BUFFER_COUNT && FromIndex(bitmap, all, index)
      modifies this
      ensures Valid(usb) && Evolved(old(usb), usb, {}, 0) && left <= bitmap <= all
      ensures old(Sound(usb, multiset(bitmap) + rest)) ==> Sound(usb, multiset(left) + rest)
      ensures if full then BothFull(old(usb), setupAt, outAt, usb) else FromIndex(left, all, index + 1)
      ensures old(usb).todo == [] ==> usb.todo == [] && DealtIndex(old(usb), bitmap, usb, left, index, full)
    {
      NextIndex(bitmap, all, index, rest);
      EvolvedSelf(usb);
      IndexDealt(usb, bitmap, index);
      hide *;
      left, full, setupAt, outAt := bitmap, false, usb, usb;
      if index in bitmap {
        var taken;
        ghost var at;
        taken, setupAt, outAt, at := SupplyOne(index, multiset(bitmap - {index}) + rest);
        full := !taken;
        if taken {
          left := bitmap - {index};
        }
      }
    }

    /** `retrieve_collected_packet`: the lowest endpoint whose packet has been collected gives its buffer back. */
    method RetrieveCollectedPacket(ghost own: multiset<nat>) returns (found: bool, endpointId: nat, bufferId: nat)
      requires Valid(usb)
      modifies this
      ensures Valid(usb) && bufferId < BUFFER_COUNT && endpointId <= MAX_ENDPOINTS
      ensures forall e | e in old(usb).inSent :: endpointId <= e
      ensures !found ==> Evolved(old(usb), usb, {}, 0) && old(usb).inSent == {}
      ensures !found && old(usb).todo == [] ==> usb == old(usb)
      ensures !found && old(Sound(usb, own)) ==> Sound(usb, own)
      ensures found ==> endpointId < MAX_ENDPOINTS && Evolved(old(usb), usb, {endpointId}, 0)
      ensures found ==> |usb.todo| + |usb.inSent| < |old(usb).todo| + |old(usb).inSent|
      ensures usb.asked == old(usb).asked && usb.over == old(usb).over
      ensures found ==> old(Outstanding(usb, endpointId)) && bufferId == usb.slots[endpointId].buf
      ensures found && old(usb).todo == [] ==>
        usb.slots == old(usb).slots && usb.inSent == old(usb).inSent - {endpointId}
      ensures found && old(Sound(usb, own)) ==>
        Sound(usb, own + multiset{bufferId}) && !Outstanding(usb, endpointId)
    {
      ghost var start := usb;
      bufferId := 0;
      hide *;
      Hardware(own);
      endpointId := FirstSent(usb.inSent);
      found := endpointId < MAX_ENDPOINTS;
      LowestSent(start, usb, endpointId);
      SameAsked(start, usb);
      if found {
        ghost var seen := usb;
        StillSent(start, seen, endpointId);
        Hardware(own);
        StillSent(seen, usb, endpointId);
        ghost var before := usb;
        ClearInSent(endpointId, own);
        ghost var cleared := usb;
        Hardware(own + multiset{usb.slots[endpointId].buf});
        bufferId := usb.slots[endpointId].buf;
        Retrieved(start, seen, before, cleared, usb, endpointId);
      }
    }

    /** `packet_send`: afterwards the packet is outstanding on its endpoint. If the endpoint
        had something outstanding its buffer is lost, otherwise the buffers stay partitioned. The source's result
        is always zero. */
    method PacketSend(bufferId: nat, endpointId: nat, data: seq<byte>, ghost own: multiset<nat>)
      requires Valid(usb) && bufferId < BUFFER_COUNT && endpointId < MAX_ENDPOINTS && |data| <= MAX_PACKET_LENGTH
      modifies this
      ensures Valid(usb) && Evolved(old(usb), usb, {endpointId}, 0) && Outstanding(usb, endpointId)
      ensures usb.asked[endpointId] == old(usb).asked[endpointId] + [data]
      ensures usb.slots[endpointId].buf == bufferId && Accounts(old(usb), usb, endpointId)
      ensures usb.over == old(OverAfter(usb, endpointId))
      ensures old(usb).todo == [] ==>
        usb.slots[endpointId] == InSlot(bufferId, |data|, true, false) && usb.inSent == old(usb).inSent
      ensures old(Sound(usb, own + multiset{bufferId})) ==> SoundOrLost(usb, own, old(!Outstanding(usb, endpointId)))
    {
      ghost var start, held := usb, own + multiset{bufferId};
      hide *;
      LoadBuffer(bufferId, data, held);
      ghost var loaded := usb;
      ConfigureIn(bufferId, endpointId, data, held);
      ghost var configured := usb;
      SetReady(bufferId, endpointId, data, own);
      SentInSteps(start, loaded, configured, usb, endpointId);
      SentAccounts(start, loaded, configured, usb, endpointId, bufferId, own);
    }

    /** The packet is written to its buffer; a zero-length packet needs no transfer. */
    method LoadBuffer(bufferId: nat, data: seq<byte>, ghost own: multiset<nat>)
      requires Valid(usb) && bufferId < BUFFER_COUNT && |data| <= MAX_PACKET_LENGTH && bufferId in own
      modifies this
      ensures Valid(usb) && Evolved(old(usb), usb, {}, 0) && Pool(usb) == old(Pool(usb))
      ensures old(Sound(usb, own)) ==> Sound(usb, own) && Holds(usb, bufferId, data)
    {
      ghost var start := usb;
      hide *;
      Hardware(own);
      ghost var mid := usb;
      EvolvedSelf(start);
      EvolvedSelf(usb);
      EmptyIsHeld(usb, bufferId);
      if |data| > 0 {
        BufferSize(usb, bufferId);
        var words := TransferToDevice(usb.mem[bufferId], data, |data|);
        Filled(usb, bufferId, data, words, own);
        usb := Fill(usb, bufferId, words);
      }
      ThreeSteps(start, start, mid, usb);
    }

    /** The first write to `configIn`. */
    method ConfigureIn(bufferId: nat, endpointId: nat, data: seq<byte>, ghost own: multiset<nat>)
      requires Valid(usb) && bufferId < BUFFER_COUNT && endpointId < MAX_ENDPOINTS && |data| <= MAX_PACKET_LENGTH
        && bufferId in own
      modifies this
      ensures Valid(usb) && Evolved(old(usb), usb, {endpointId}, 0) && usb.asked == old(usb).asked
      ensures usb.over == old(OverAfter(usb, endpointId))
      ensures old(usb).todo == [] ==> usb.inSent == old(usb).inSent
      ensures usb.slots[endpointId].buf == bufferId && usb.slots[endpointId].size == |data|
      ensures Accounts(old(usb), usb, endpointId)
      ensures old(Sound(usb, own) && Holds(usb, bufferId, data) && !Outstanding(usb, endpointId)) ==>
        Sound(usb, own) && Holds(usb, bufferId, data) && !Outstanding(usb, endpointId)
    {
      ghost var start := usb;
      hide *;
      Hardware(own);
      ghost var before := usb;
      usb := Configure(usb, endpointId, bufferId, |data|);
      ghost var after := usb;
      if Sound(before, own) && !Outstanding(before, endpointId) {
        ConfigureKeepsSound(before, endpointId, bufferId, |data|, own);
      }
      Hardware(own);
      ConfigureSteps(start, before, after, usb, endpointId, bufferId, |data|);
      ConfigureAccounts(start, before, after, usb, endpointId);
      if Sound(start, own) && Holds(start, bufferId, data) && !Outstanding(start, endpointId) {
        HostKeepsBytes(start, before, own, bufferId, data);
        HostKeepsBytes(after, usb, own, bufferId, data);
      }
    }

    /** The second, after which the host may collect the packet. */
    method SetReady(bufferId: nat, endpointId: nat, data: seq<byte>, ghost own: multiset<nat>)
      requires Valid(usb) && endpointId < MAX_ENDPOINTS
      requires usb.slots[endpointId].buf == bufferId && usb.slots[endpointId].size == |data|
      modifies this
      ensures Valid(usb) && Evolved(old(usb), usb, {endpointId}, 0) && Outstanding(usb, endpointId)
      ensures usb.asked[endpointId] == old(usb).asked[endpointId] + [data] && usb.over == old(usb).over
      ensures usb.slots[endpointId].buf == bufferId && Accounts(old(usb), usb, endpointId)
      ensures old(usb).todo == [] ==>
        usb.slots[endpointId] == InSlot(bufferId, |data|, true, false) && usb.inSent == old(usb).inSent
      ensures
        old(Sound(usb, own + multiset{bufferId}) && Holds(usb, bufferId, data) && !Outstanding(usb, endpointId)) ==>
        Sound(usb, own)
    {
      ghost var start := usb;
      hide *;
      MakeReadySteps(start, endpointId, data);
      if Sound(usb, own + multiset{bufferId}) && Holds(usb, bufferId, data) && !Outstanding(usb, endpointId) {
        HoldsMeans(usb, bufferId, data);
        MakeReadyKeepsSound(usb, endpointId, data, own);
      }
      usb := MakeReady(usb, endpointId, data);
      ghost var ready := usb;
      Hardware(own);
      ReadySteps(start, ready, usb, endpointId, data);
      ReadyAccounts(start, ready, usb, endpointId, data);
    }

    /** `packet_receive`: the oldest packet not yet taken, with its buffer; its bytes are those the host sent. */
    method PacketReceive(destination: array<byte>, ghost own: multiset<nat>)
        returns (found: bool, bufferId: nat, endpointId: nat, size: nat, isSetup: bool)
      requires Valid(usb) && destination.Length == MAX_PACKET_LENGTH
      modifies this, destination
      ensures Valid(usb) && bufferId < BUFFER_COUNT && endpointId < MAX_ENDPOINTS && size <= MAX_PACKET_LENGTH
      ensures Evolved(old(usb), usb, {}, if found then 1 else 0)
      ensures !found ==> old(usb).rx == [] && (old(usb).todo == [] ==> usb == old(usb))
      ensures found ==> usb.early == old(usb).early + [old(Outstanding(usb, 0))]
      ensures !found && old(Sound(usb, own)) ==> Sound(usb, own)
      ensures found && old(Sound(usb, own)) ==>
        && Sound(usb, own + multiset{bufferId})
        && LastTaken(usb) == Packet(endpointId, isSetup, destination[..size])
    {
      ghost var start := usb;
      found, bufferId, endpointId, size, isSetup := false, 0, 0, 0, false;
      hide *;
      Hardware(own);
      ReceivedOnlyGrows(start, usb);
      if usb.rx == [] {
        return;
      }
      ghost var seen := usb;
      Hardware(own);
      StillReceived(seen, usb);
      EvolvedSelf(start);
      ThreeSteps(start, start, seen, usb);
      found := true;
      bufferId, endpointId, size, isSetup := PopEntry(start, own);
      BufferSize(usb, bufferId);
      if size > 0 {
        TransferFromDevice(destination, usb.mem[bufferId], size);
      }
      TakenIn(usb, RxEntry(bufferId, size, isSetup, endpointId), LastTaken(usb), old(destination[..]), destination[..]);
    }

    /** The oldest entry of the receive FIFO; its buffer, now software's, holds the packet. */
    method PopEntry(ghost start: Usb, ghost own: multiset<nat>)
        returns (bufferId: nat, endpointId: nat, size: nat, isSetup: bool)
      requires Valid(start) && Evolved(start, usb, {}, 0) && Valid(usb) && usb.rx != [] && RxValid(usb.rx[0])
      modifies this
      ensures Valid(usb) && bufferId < BUFFER_COUNT && endpointId < MAX_ENDPOINTS && size <= MAX_PACKET_LENGTH
      ensures Evolved(start, usb, {}, 1) && usb.early == start.early + [Outstanding(start, 0)]
      ensures old(Sound(usb, own)) ==>
        && Sound(usb, own + multiset{bufferId})
        && IsPacket(usb, RxEntry(bufferId, size, isSetup, endpointId), LastTaken(usb))
    {
      ghost var before := usb;
      bufferId, endpointId, size, isSetup := usb.rx[0].buf, usb.rx[0].ep, usb.rx[0].size, usb.rx[0].setup;
      PopSteps(start, before);
      if Sound(before, own) {
        PopKeepsSound(before, own);
      }
      hide *;
      usb := Pop(usb);
      ghost var after := usb;
      Hardware(own + multiset{bufferId});
      Received(start, before, after, usb, own);
    }

    /** `set_device_address`: only seven-bit addresses are accepted. `at` is the state just before the write. */
    method SetDeviceAddress(address: nat, ghost own: multiset<nat>) returns (ok: bool, ghost at: Usb)
      requires Valid(usb)
      modifies this
      ensures ok <==> address < 0x80
      ensures Valid(at) && Evolved(old(usb), at, {}, 0) && usb == if ok then WriteAddress(at, address) else at
      ensures old(Sound(usb, own)) ==> Sound(at, own)
    {
      hide Valid, Sound, HostOnly, Evolved;
      Hardware(own);
      at := usb;
      if address >= 0x80 {
        return false, at;
      }
      usb := WriteAddress(usb, address);
      ok := true;
    }

    /** The search of `retrieve_collected_packet`. */
    method FirstSent(sent: set<nat>) returns (endpointId: nat)
      ensures endpointId <= MAX_ENDPOINTS && (endpointId < MAX_ENDPOINTS ==> endpointId in sent)
      ensures forall ep :: 0 <= ep < endpointId ==> ep !in sent
    {
      endpointId := 0;
      while endpointId < MAX_ENDPOINTS && endpointId !in sent
        invariant endpointId <= MAX_ENDPOINTS && forall ep :: 0 <= ep < endpointId ==> ep !in sent
      {
        endpointId := endpointId + 1;
      }
    }

    method ClearInSent(endpointId: nat, ghost own: multiset<nat>)
      requires Valid(usb) && endpointId in usb.inSent
      modifies this
      ensures endpointId < MAX_ENDPOINTS && usb == ClearSent(old(usb), endpointId)
      ensures old(Sound(usb, own)) ==>
        Sound(usb, own + multiset{usb.slots[endpointId].buf}) && !Outstanding(usb, endpointId)
    {
      if Sound(usb, own) {
        ClearSentKeepsSound(usb, endpointId, own);
      }
      hide Sound, Outstanding;
      usb := ClearSent(usb, endpointId);
    }
  }

  /** The moments of one retrieval: the register was read at s, cleared between t and u. */
  lemma {:induction false} Retrieved(r: Usb, s: Usb, t: Usb, u: Usb, v: Usb, ep: nat)
    requires Valid(r) && Evolved(r, s, {}, 0) && Valid(s) && Evolved(s, t, {}, 0) && ep in s.inSent
    requires ep < MAX_ENDPOINTS && Valid(t) && u == ClearSent(t, ep) && Evolved(u, v, {}, 0)
    ensures Valid(v) && Evolved(r, v, {ep}, 0) && Outstanding(r, ep)
      && v.slots[ep].buf == u.slots[ep].buf < BUFFER_COUNT
    ensures |v.todo| + |v.inSent| < |r.todo| + |r.inSent|
    ensures Outstanding(v, ep) == Outstanding(u, ep) && v.asked == r.asked && v.over == r.over
    ensures r.todo == [] ==> v.slots == r.slots && v.inSent == r.inSent - {ep}
  {
    var none: set<nat> := {};
    assert none + none == none;
    EvolvedTrans(r, s, t, none, none, 0, 0);
    StillSent(s, t, ep);
    hide Evolved, Valid, Outstanding;
    ClearedSince(r, t, u, v, ep);
  }

  lemma {:induction false} ClearedSince(r: Usb, t: Usb, u: Usb, v: Usb, ep: nat)
    requires Valid(r) && Evolved(r, t, {}, 0) && Valid(t) && ep in t.inSent && ep < MAX_ENDPOINTS
    requires u == ClearSent(t, ep) && Evolved(u, v, {}, 0)
    ensures Valid(v) && Evolved(r, v, {ep}, 0) && Outstanding(r, ep)
    ensures v.slots[ep].buf == u.slots[ep].buf < BUFFER_COUNT
    ensures |v.todo| + |v.inSent| < |r.todo| + |r.inSent|
    ensures Outstanding(v, ep) == Outstanding(u, ep) && v.asked == r.asked && v.over == r.over
    ensures r.todo == [] ==> v.slots == r.slots && v.inSent == r.inSent - {ep}
  {
    hide RxValid, EventValid;
  }

  lemma {:induction false} LowestSent(r: Usb, s: Usb, ep: nat)
    requires Valid(r) && Evolved(r, s, {}, 0) && forall e :: 0 <= e < ep ==> e !in s.inSent
    ensures forall e | e in r.inSent :: ep <= e
    ensures ep == MAX_ENDPOINTS ==> r.inSent == {}
  {
    hide Outstanding;
  }

  lemma {:induction false} SameAsked(r: Usb, s: Usb)
    requires Valid(r) && Evolved(r, s, {}, 0)
    ensures s.asked == r.asked && s.over == r.over
  {
    hide Outstanding;
  }

  lemma {:induction false} ReceivedOnlyGrows(r: Usb, s: Usb)
    requires Valid(r) && Evolved(r, s, {}, 0)
    ensures s.rx == [] ==> r.rx == []
  {
  }

  lemma {:induction false} StillReceived(r: Usb, s: Usb)
    requires Valid(r) && Evolved(r, s, {}, 0) && r.rx != []
    ensures Valid(s) && s.rx != [] && RxValid(s.rx[0])
  {
  }

  lemma {:induction false} PopSteps(r: Usb, t: Usb)
    requires Valid(r) && Evolved(r, t, {}, 0) && Valid(t) && t.rx != []
    ensures Valid(Pop(t)) && Evolved(r, Pop(t), {}, 1) && Pop(t).early == r.early + [Outstanding(r, 0)]
    ensures var e := t.rx[0]; e.buf < BUFFER_COUNT && e.ep < MAX_ENDPOINTS && e.size <= MAX_PACKET_LENGTH
  {
  }

  /** The packet popped at s is the one the host delivered, and its buffer still holds it. */
  lemma {:induction false} Received(r: Usb, s: Usb, t: Usb, u: Usb, own: multiset<nat>)
    requires Valid(r) && Valid(s) && s.rx != [] && t == Pop(s) && Valid(t) && Evolved(r, t, {}, 1)
      && HostOnly(t, u) && Valid(u)
    requires Evolved(t, u, {}, 0) && s.rx[0].buf < BUFFER_COUNT && s.rx[0].size <= MAX_PACKET_LENGTH
    requires Sound(s, own) ==> Sound(t, own + multiset{s.rx[0].buf}) && RxValid(s.rx[0]) && s.popped < |s.delivered|
                               && Receives(s, s.rx[0], s.delivered[s.popped])
    ensures Evolved(r, u, {}, 1) && u.early == t.early
    ensures Sound(s, own) ==> IsPacket(u, s.rx[0], LastTaken(u))
  {
    ReceivedPacket(r, s, t, u);
    if Sound(s, own) {
      var e, p := s.rx[0], s.delivered[s.popped];
      hide Valid, Sound, Outstanding, Evolved, HostOnly, LastTaken;
      assert IsPacket(t, e, p);
      HostKeepsBytes(t, u, own + multiset{e.buf}, e.buf, p.payload);
    }
  }

  predicate IsPacket(r: Usb, e: RxEntry, p: Packet)
    requires Valid(r) && e.buf < BUFFER_COUNT
  {
    p.ep == e.ep && p.setup == e.setup && |p.payload| == e.size && Holds(r, e.buf, p.payload)
  }

  lemma {:induction false} ReceivedPacket(r: Usb, s: Usb, t: Usb, u: Usb)
    requires Valid(r) && Valid(s) && s.rx != [] && t == Pop(s) && Valid(t) && Evolved(r, t, {}, 1)
      && Evolved(t, u, {}, 0)
    ensures Valid(u) && Evolved(r, u, {}, 1) && t.mem == s.mem && u.early == t.early
    ensures s.popped == r.popped < |s.delivered| && LastTaken(u) == s.delivered[s.popped]
  {
  }

  lemma {:induction false} TakenIn(r: Usb, e: RxEntry, p: Packet, was: seq<byte>, now: seq<byte>)
    requires Valid(r) && e.buf < BUFFER_COUNT && e.size <= MAX_PACKET_LENGTH && |r.mem[e.buf]| == BUFFER_WORDS
    requires e.size <= |was|
    requires if e.size > 0 then now == Spliced(was, 0, WordsBytes(r.mem[e.buf])[..e.size]) else now == was
    ensures e.size <= |now| && (IsPacket(r, e, p) ==> p == Packet(e.ep, e.setup, now[..e.size]))
  {
    hide Valid, WordsBytes;
  }

  /** The first bytes of a buffer are a packet's. */
  predicate Holds(r: Usb, b: nat, data: seq<byte>)
    requires Valid(r) && b < BUFFER_COUNT
  {
    |data| <= MAX_PACKET_LENGTH && Bytes(r.mem[b], |data|) == data
  }

  lemma {:induction false} BufferSize(r: Usb, b: nat)
    requires Valid(r) && b < BUFFER_COUNT
    ensures |r.mem| == BUFFER_COUNT && |r.mem[b]| == BUFFER_WORDS && 4 * |r.mem[b]| == MAX_PACKET_LENGTH
  {
  }

  lemma {:induction false} EmptyIsHeld(r: Usb, b: nat)
    requires Valid(r) && b < BUFFER_COUNT
    ensures Holds(r, b, [])
  {
  }

  lemma {:induction false} Filled(r: Usb, b: nat, data: seq<byte>, words: seq<u32>, own: multiset<nat>)
    requires Valid(r) && b < BUFFER_COUNT && b in own && |data| <= MAX_PACKET_LENGTH
    requires words == Pack(data[..|data|]) + r.mem[b][(|data| + 3) / 4..]
    ensures |words| == BUFFER_WORDS && Valid(Fill(r, b, words)) && Evolved(r, Fill(r, b, words), {}, 0)
    ensures Holds(Fill(r, b, words), b, data) && Pool(Fill(r, b, words)) == Pool(r)
    ensures Sound(r, own) ==> Sound(Fill(r, b, words), own)
  {
    assert data[..|data|] == data;
    SendThenReceive(r.mem[b], data);
    hide WordsBytes, Pack, Evolved, Valid, Sound;
    FillEvolves(r, b, words);
    FillKeepsPool(r, b, words);
    if Sound(r, own) {
      FillKeepsSound(r, b, words, own);
    }
  }

  /** The device address has no part in who owns a buffer or what it holds. */
  lemma {:induction false} AddressIsApart(r: Usb, address: nat, own: multiset<nat>)
    requires Valid(r)
    ensures Sound(r, own) ==> Sound(WriteAddress(r, address), own)
    ensures forall ep: nat :: ep < MAX_ENDPOINTS ==> Outstanding(WriteAddress(r, address), ep) == Outstanding(r, ep)
  {
    var s := WriteAddress(r, address);
    HeldSame(r, s, MAX_ENDPOINTS);
    if Intact(r) {
      SameIntact(r, s);
    }
    hide Held, Intact, RxBufs, Valid;
  }

  lemma {:induction false} HoldsMeans(r: Usb, b: nat, data: seq<byte>)
    requires Valid(r) && b < BUFFER_COUNT && Holds(r, b, data)
    ensures |data| <= 4 * |r.mem[b]| && Bytes(r.mem[b], |data|) == data
  {
  }

  /** The host leaves a buffer that software owns alone. */
  lemma {:induction false} HostKeepsBytes(r: Usb, s: Usb, own: multiset<nat>, b: nat, data: seq<byte>)
    requires Sound(r, own) && b in own && b < BUFFER_COUNT && Valid(r) && HostOnly(r, s) && Valid(s)
    ensures s.mem[b] == r.mem[b] && Holds(s, b, data) == Holds(r, b, data)
  {
    OwnedIsFree(r, own, b);
    hide Valid, Sound, Evolved, Pool, Free, Bytes;
  }

  lemma {:induction false} ConfigureSteps(r: Usb, s: Usb, t: Usb, u: Usb, ep: nat, b: nat, size: nat)
    requires Valid(r) && Evolved(r, s, {}, 0) && Valid(s) && ep < MAX_ENDPOINTS && b < BUFFER_COUNT
      && size <= MAX_PACKET_LENGTH
    requires t == Configure(s, ep, b, size) && Evolved(t, u, {}, 0)
    ensures Valid(t) && Valid(u) && Evolved(r, u, {ep}, 0) && u.asked == r.asked
    ensures u.slots[ep].buf == b && u.slots[ep].size == size && u.over == OverAfter(r, ep)
    ensures r.todo == [] ==> u.inSent == r.inSent
    ensures Outstanding(r, ep) == Outstanding(s, ep) && Outstanding(t, ep) == Outstanding(u, ep)
    ensures t.mem == s.mem && forall c: nat, data :: c < BUFFER_COUNT ==> Holds(t, c, data) == Holds(s, c, data)
  {
  }

  lemma {:induction false} MakeReadySteps(r: Usb, ep: nat, data: seq<byte>)
    requires Valid(r) && ep < MAX_ENDPOINTS
    ensures r.slots[ep].buf < BUFFER_COUNT && Valid(MakeReady(r, ep, data))
  {
  }

  lemma {:induction false} ReadySteps(r: Usb, s: Usb, t: Usb, ep: nat, data: seq<byte>)
    requires Valid(r) && ep < MAX_ENDPOINTS && s == MakeReady(r, ep, data) && Evolved(s, t, {}, 0)
    ensures Valid(t) && Evolved(r, t, {ep}, 0) && Outstanding(t, ep) && t.asked[ep] == r.asked[ep] + [data]
    ensures t.over == r.over && (r.todo == [] ==> t.inSent == r.inSent)
  {
  }

  lemma {:induction false} ConfigureAccounts(r: Usb, s: Usb, t: Usb, u: Usb, ep: nat)
    requires Valid(r) && HostOnly(r, s) && Valid(s) && Valid(t) && HostOnly(t, u) && Valid(u) && ep < MAX_ENDPOINTS
    requires exists b: nat, size: nat :: b < BUFFER_COUNT && size <= MAX_PACKET_LENGTH && t == Configure(s, ep, b, size)
    ensures Accounts(r, u, ep)
  {
    PoolDiffers(s, t, ep);
    hide Valid, HostOnly, Accounts;
    HostAccounts(r, s, ep);
    HostAccounts(t, u, ep);
    AccountsTrans(r, s, t, ep);
    AccountsTrans(r, t, u, ep);
  }

  lemma {:induction false} ReadyAccounts(r: Usb, s: Usb, t: Usb, ep: nat, data: seq<byte>)
    requires Valid(r) && ep < MAX_ENDPOINTS && s == MakeReady(r, ep, data) && HostOnly(s, t) && Valid(t)
      && Evolved(s, t, {}, 0)
    ensures Accounts(r, t, ep) && t.slots[ep].buf == r.slots[ep].buf
    ensures r.todo == [] ==> t.slots[ep] == r.slots[ep].(ready := true, pend := false)
  {
    PoolDiffers(r, s, ep);
    hide Outstanding, HostOnly, Accounts;
    HostAccounts(s, t, ep);
    AccountsTrans(r, s, t, ep);
  }

  /** Over the whole of `packet_send` the endpoint gives up what it held and takes the new packet's buffer. */
  lemma {:induction false} SentAccounts(r: Usb, s: Usb, t: Usb, u: Usb, ep: nat, b: nat, own: multiset<nat>)
    requires Valid(r) && Valid(s) && Valid(t) && Valid(u) && ep < MAX_ENDPOINTS && Evolved(r, s, {}, 0)
      && Pool(s) == Pool(r)
    requires Accounts(s, t, ep) && Accounts(t, u, ep) && Outstanding(u, ep) && u.slots[ep].buf == b
    requires Sound(r, own + multiset{b}) && !Outstanding(r, ep) ==> Sound(u, own)
    ensures Accounts(r, u, ep)
    ensures Sound(r, own + multiset{b}) ==> SoundOrLost(u, own, !Outstanding(r, ep))
  {
    assert Carried(r, ep) == Carried(s, ep);
    assert Accounts(r, s, ep) by { hide Pool, Carried, Valid, Evolved; }
    hide Accounts, Sound, Evolved;
    AccountsTrans(r, s, t, ep);
    AccountsTrans(r, t, u, ep);
    if Sound(r, own + multiset{b}) && Outstanding(r, ep) {
      LostBuffer(r, u, ep, b, own);
    }
  }

  lemma {:induction false} SentInSteps(r: Usb, s: Usb, t: Usb, u: Usb, ep: nat)
    requires Valid(r) && Evolved(r, s, {}, 0) && Valid(s) && Evolved(s, t, {ep}, 0) && Valid(t)
      && Evolved(t, u, {ep}, 0)
    requires ep < MAX_ENDPOINTS
    ensures Evolved(r, u, {ep}, 0) && s.asked[ep] == r.asked[ep] && Outstanding(r, ep) == Outstanding(s, ep)
    ensures OverAfter(s, ep) == OverAfter(r, ep)
    ensures r.todo == [] ==> s.todo == [] && t.todo == [] && s.inSent == r.inSent
  {
  }

  lemma {:induction false} StillSent(r: Usb, s: Usb, ep: nat)
    requires Valid(r) && Evolved(r, s, {}, 0)
    ensures Valid(s) && (ep in r.inSent ==> ep in s.inSent) && (ep in s.inSent ==> ep < MAX_ENDPOINTS)
  {
  }

  // ----- which FIFO a buffer goes to -----

  /** Between r and s one buffer was pushed, at the moment `at`: to the SETUP FIFO if it had been seen with room, and
      otherwise to the OUT FIFO. */
  predicate TookOne(r: Usb, setupAt: Usb, at: Usb, s: Usb, index: nat)
    requires Valid(r)
  {
    && Evolved(r, setupAt, {}, 0) && Evolved(setupAt, at, {}, 0)
    && if |setupAt.avSetup| < AV_SETUP_DEPTH then s == at.(avSetup := at.avSetup + [index])
       else s == at.(avOut := at.avOut + [index])
  }

  function Min(a: int, b: int): (m: int) {
    if a < b then a else b
  }

  /** How many of these buffers the SETUP FIFO has room for, and of the others the OUT FIFO. */
  function ToSetup(r: Usb, bufs: seq<nat>): (n: nat)
    requires |r.avSetup| <= AV_SETUP_DEPTH
  {
    Min(|bufs|, AV_SETUP_DEPTH - |r.avSetup|)
  }

  function ToOut(r: Usb, bufs: seq<nat>): (n: nat)
    requires |r.avSetup| <= AV_SETUP_DEPTH && |r.avOut| <= AV_OUT_DEPTH
  {
    Min(|bufs| - ToSetup(r, bufs), AV_OUT_DEPTH - |r.avOut|)
  }

  /** The first buffers fill the SETUP FIFO, the next ones the OUT FIFO. */
  function Dealt(r: Usb, bufs: seq<nat>): (s: Usb)
    requires |r.avSetup| <= AV_SETUP_DEPTH && |r.avOut| <= AV_OUT_DEPTH
  {
    var n, m := ToSetup(r, bufs), ToOut(r, bufs);
    r.(avSetup := r.avSetup + bufs[..n], avOut := r.avOut + bufs[n..n + m])
  }

  /** The bits of a bitmap below n, lowest first. */
  function Ascending(bitmap: set<nat>, n: nat): (bufs: seq<nat>) {
    if n == 0 then [] else if n - 1 in bitmap then Ascending(bitmap, n - 1) + [n - 1] else Ascending(bitmap, n - 1)
  }

  lemma {:induction false} AscendingMeans(bitmap: set<nat>, n: nat)
    ensures var bufs := Ascending(bitmap, n);
      && (forall b :: b in bufs <==> b in bitmap && b < n)
      && forall i, j :: 0 <= i < j < |bufs| ==> bufs[i] < bufs[j]
  {
    if n > 0 {
      AscendingMeans(bitmap, n - 1);
      var before, bufs := Ascending(bitmap, n - 1), Ascending(bitmap, n);
      forall i, j | 0 <= i < j < |bufs|
        ensures bufs[i] < bufs[j]
      {
        assert bufs[i] in before;
        assert j < |before| ==> bufs[j] == before[j];
      }
    }
  }

  /** The bitmap's buffers have been dealt out, lowest first, and those for which there was no room are left. */
  ghost predicate DealtOut(r: Usb, s: Usb, bitmap: set<nat>, left: set<nat>)
    requires Valid(r)
  {
    var bufs := Ascending(bitmap, BUFFER_COUNT);
    s == Dealt(r, bufs) && forall b :: b in left <==> b in bufs[ToSetup(r, bufs) + ToOut(r, bufs)..]
  }

  /** So far all below an index have been. */
  ghost predicate DealtUpTo(r: Usb, s: Usb, bitmap: set<nat>, left: set<nat>, index: nat)
    requires Valid(r)
  {
    var bufs := Ascending(bitmap, index);
    && s == Dealt(r, bufs) && ToSetup(r, bufs) + ToOut(r, bufs) == |bufs|
    && forall b :: b in left <==> b in bitmap && index <= b < BUFFER_COUNT
  }

  ghost predicate QuietlyDealt(r: Usb, s: Usb, bitmap: set<nat>, left: set<nat>, index: nat)
    requires Valid(r)
  {
    r.todo == [] ==> s.todo == [] && DealtUpTo(r, s, bitmap, left, index)
  }

  /** One bit of the bitmap has been looked at. */
  predicate DealtIndex(r: Usb, bitmap: set<nat>, s: Usb, left: set<nat>, index: nat, full: bool)
    requires Valid(r)
  {
    if index in bitmap then
      s == Dealt(r, [index]) && (full <==> s == r) && left == if full then bitmap else bitmap - {index}
    else s == r && left == bitmap && !full
  }

  /** The loop of `supply_buffers` has looked at the bits below an index. */
  ghost predicate Supplying(r: Usb, s: Usb, all: set<nat>, left: set<nat>, rest: multiset<nat>, index: nat)
    requires Valid(r)
  {
    && Valid(s) && Evolved(r, s, {}, 0) && FromIndex(left, all, index) && all <= UpTo(BUFFER_COUNT)
    && (Sound(r, multiset(all) + rest) ==> Sound(s, multiset(left) + rest)) && QuietlyDealt(r, s, all, left, index)
  }

  lemma {:induction false} SupplyStarts(r: Usb, all: set<nat>, rest: multiset<nat>)
    requires Valid(r) && all <= UpTo(BUFFER_COUNT)
    ensures Supplying(r, r, all, all, rest, 0)
  {
    EvolvedSelf(r);
    FromStart(all);
    NoneDealt(r, all);
    hide Valid, Evolved, FromIndex, UpTo, Sound, QuietlyDealt;
  }

  lemma {:induction false} SupplyGoesOn(r: Usb, s: Usb, all: set<nat>, left: set<nat>, rest: multiset<nat>, index: nat)
    requires Valid(r) && Supplying(r, s, all, left, rest, index)
    ensures Valid(s) && Evolved(r, s, {}, 0) && FromIndex(left, all, index) && all <= UpTo(BUFFER_COUNT)
    ensures Sound(r, multiset(all) + rest) ==> Sound(s, multiset(left) + rest)
    ensures QuietlyDealt(r, s, all, left, index)
  {
    hide Valid, Evolved, FromIndex, UpTo, Sound, QuietlyDealt;
  }

  lemma {:induction false} StillSupplying(r: Usb, s: Usb, all: set<nat>, left: set<nat>, rest: multiset<nat>,
      index: nat)
    requires Valid(r) && Valid(s) && Evolved(r, s, {}, 0) && FromIndex(left, all, index) && all <= UpTo(BUFFER_COUNT)
    requires Sound(r, multiset(all) + rest) ==> Sound(s, multiset(left) + rest)
    requires QuietlyDealt(r, s, all, left, index)
    ensures Supplying(r, s, all, left, rest, index)
  {
    hide Valid, Evolved, FromIndex, UpTo, Sound, QuietlyDealt;
  }

  lemma {:induction false} SupplyEnds(r: Usb, s: Usb, all: set<nat>, left: set<nat>, rest: multiset<nat>)
    requires Valid(r) && Supplying(r, s, all, left, rest, BUFFER_COUNT)
    ensures Valid(s) && Evolved(r, s, {}, 0) && left == {} && left <= all
    ensures Sound(r, multiset(all) + rest) ==> Sound(s, multiset(left) + rest)
    ensures r.todo == [] ==> s.todo == [] && DealtOut(r, s, all, left)
  {
    SupplyGoesOn(r, s, all, left, rest, BUFFER_COUNT);
    NoneAbove(left, all);
    AllDealt(r, s, all, left);
    hide *;
  }

  lemma {:induction false} IndexDealt(r: Usb, bitmap: set<nat>, index: nat)
    requires Valid(r)
    ensures r.todo == [] ==> Dealt(r, [index]).todo == []
    ensures index !in bitmap ==> DealtIndex(r, bitmap, r, bitmap, index, false)
    ensures index in bitmap && Dealt(r, [index]) == r ==> DealtIndex(r, bitmap, r, bitmap, index, true)
    ensures index in bitmap && Dealt(r, [index]) != r ==>
              DealtIndex(r, bitmap, Dealt(r, [index]), bitmap - {index}, index, false)
  {
  }

  lemma {:induction false} TakenBySetup(r: Usb, setupAt: Usb, at: Usb, s: Usb, index: nat)
    requires Valid(r) && Evolved(r, setupAt, {}, 0) && Valid(setupAt) && Evolved(setupAt, at, {}, 0)
    requires HasRoom(setupAt, true) && s == at.(avSetup := at.avSetup + [index])
    requires r.todo == [] ==> setupAt == r && at == setupAt
    ensures TookOne(r, setupAt, at, s, index)
    ensures r.todo == [] ==> s == Dealt(r, [index]) && s != r
  {
    hide Valid, Evolved;
    assert |s.avSetup| == |at.avSetup| + 1;
  }

  lemma {:induction false} TakenByOut(r: Usb, setupAt: Usb, outAt: Usb, at: Usb, s: Usb, index: nat)
    requires Valid(r) && Evolved(r, setupAt, {}, 0) && Valid(setupAt) && Evolved(setupAt, outAt, {}, 0)
    requires Valid(outAt) && Evolved(outAt, at, {}, 0)
    requires !HasRoom(setupAt, true) && HasRoom(outAt, false) && s == at.(avOut := at.avOut + [index])
    requires r.todo == [] ==> setupAt == r && outAt == setupAt && at == outAt
    ensures TookOne(r, setupAt, at, s, index)
    ensures r.todo == [] ==> s == Dealt(r, [index]) && s != r
  {
    EvolvedSelf(at);
    ThreeSteps(setupAt, outAt, at, at);
    SetupFits(r);
    hide Valid, Evolved;
    assert |s.avOut| == |at.avOut| + 1;
  }

  lemma {:induction false} SetupFits(r: Usb)
    requires Valid(r)
    ensures |r.avSetup| <= AV_SETUP_DEPTH && |r.avOut| <= AV_OUT_DEPTH
  {
  }

  lemma {:induction false} NoneTaken(r: Usb, setupAt: Usb, outAt: Usb, index: nat)
    requires Valid(r) && !HasRoom(setupAt, true) && !HasRoom(outAt, false)
    requires r.todo == [] ==> setupAt == r && outAt == r
    ensures r.todo == [] ==> Dealt(r, [index]) == r
  {
  }

  lemma {:induction false} NoneDealt(r: Usb, bitmap: set<nat>)
    requires Valid(r) && bitmap <= UpTo(BUFFER_COUNT)
    ensures QuietlyDealt(r, r, bitmap, bitmap, 0)
  {
    NothingDealt(r);
    hide Valid, Dealt, ToSetup, ToOut;
  }

  lemma {:induction false} NothingDealt(r: Usb)
    requires Valid(r)
    ensures Dealt(r, []) == r && ToSetup(r, []) + ToOut(r, []) == 0
  {
    SetupFits(r);
    hide Valid;
    assert Dealt(r, []) == r.(avSetup := r.avSetup + [], avOut := r.avOut + []);
  }

  lemma {:induction false} AscendingPrefix(bitmap: set<nat>, i: nat, n: nat)
    requires i <= n
    ensures Ascending(bitmap, i) <= Ascending(bitmap, n)
  {
    if i < n {
      AscendingPrefix(bitmap, i, n - 1);
    }
  }

  lemma {:induction false} DealtOneMore(r: Usb, bufs: seq<nat>, b: nat)
    requires |r.avSetup| <= AV_SETUP_DEPTH && |r.avOut| <= AV_OUT_DEPTH && ToSetup(r, bufs) + ToOut(r, bufs) == |bufs|
    ensures var s, t := Dealt(r, bufs), Dealt(r, bufs + [b]);
      && |s.avSetup| <= AV_SETUP_DEPTH && |s.avOut| <= AV_OUT_DEPTH && t == Dealt(s, [b])
      && (t != s ==> ToSetup(r, bufs + [b]) + ToOut(r, bufs + [b]) == |bufs| + 1)
      && (t == s ==> |s.avSetup| == AV_SETUP_DEPTH && |s.avOut| == AV_OUT_DEPTH)
  {
    var s, t, n, m := Dealt(r, bufs), Dealt(r, bufs + [b]), ToSetup(r, bufs), ToOut(r, bufs);
    assert (bufs + [b])[..n] == bufs[..n] && (bufs + [b])[n..n + m] == bufs[n..n + m];
    if |s.avSetup| < AV_SETUP_DEPTH {
      assert (bufs + [b])[..n + 1] == bufs[..n] + [b];
      assert |t.avSetup| == |s.avSetup| + 1;
    } else if |s.avOut| < AV_OUT_DEPTH {
      assert (bufs + [b])[n..n + m + 1] == bufs[n..n + m] + [b];
      assert |t.avOut| == |s.avOut| + 1;
    }
  }

  /** Once both FIFOs are full nothing more is dealt. */
  lemma {:induction false} DealtFull(r: Usb, bufs: seq<nat>, all: seq<nat>)
    requires |r.avSetup| <= AV_SETUP_DEPTH && |r.avOut| <= AV_OUT_DEPTH && ToSetup(r, bufs) + ToOut(r, bufs) == |bufs|
    requires |Dealt(r, bufs).avSetup| == AV_SETUP_DEPTH && |Dealt(r, bufs).avOut| == AV_OUT_DEPTH && bufs <= all
    ensures Dealt(r, all) == Dealt(r, bufs) && ToSetup(r, all) + ToOut(r, all) == |bufs|
  {
    var n, m := ToSetup(r, bufs), ToOut(r, bufs);
    assert all[..n] == bufs[..n] && all[n..n + m] == bufs[n..n + m];
  }

  lemma {:induction false} DealtNext(r: Usb, s: Usb, left: set<nat>, t: Usb, rest: set<nat>, bitmap: set<nat>,
      index: nat, full: bool)
    requires Valid(r) && Valid(s) && index < BUFFER_COUNT && bitmap <= UpTo(BUFFER_COUNT)
    requires QuietlyDealt(r, s, bitmap, left, index)
    requires s.todo == [] ==> t.todo == [] && DealtIndex(s, left, t, rest, index, full)
    ensures full && r.todo == [] ==> t.todo == [] && DealtOut(r, t, bitmap, rest)
    ensures !full ==> QuietlyDealt(r, t, bitmap, rest, index + 1)
  {
    if r.todo == [] && index in left {
      OneDealt(r, s, bitmap, left, index);
      hide Valid, Dealt, DealtUpTo;
      if full {
        AllFull(r, t, bitmap, rest, index);
      }
    } else if r.todo == [] {
      NoneToDeal(r, s, bitmap, left, index);
    }
    hide Valid, Dealt, DealtUpTo;
  }

  lemma {:induction false} NoneToDeal(r: Usb, s: Usb, bitmap: set<nat>, left: set<nat>, index: nat)
    requires Valid(r) && DealtUpTo(r, s, bitmap, left, index) && index !in left && index < BUFFER_COUNT
    ensures DealtUpTo(r, s, bitmap, left, index + 1)
  {
    hide Valid, Dealt, ToSetup, ToOut;
    assert index !in bitmap;
  }

  lemma {:induction false} OneDealt(r: Usb, s: Usb, bitmap: set<nat>, left: set<nat>, index: nat)
    requires Valid(r) && DealtUpTo(r, s, bitmap, left, index) && index in left
    ensures |s.avSetup| <= AV_SETUP_DEPTH && |s.avOut| <= AV_OUT_DEPTH
    ensures var t := Dealt(s, [index]);
      if t == s then |s.avSetup| == AV_SETUP_DEPTH && |s.avOut| == AV_OUT_DEPTH
      else DealtUpTo(r, t, bitmap, left - {index}, index + 1)
  {
    SetupFits(r);
    DealtOneMore(r, Ascending(bitmap, index), index);
    hide Valid, Dealt, ToSetup, ToOut;
    assert Ascending(bitmap, index + 1) == Ascending(bitmap, index) + [index];
  }

  lemma {:induction false} AllFull(r: Usb, s: Usb, bitmap: set<nat>, left: set<nat>, index: nat)
    requires Valid(r) && index < BUFFER_COUNT && bitmap <= UpTo(BUFFER_COUNT) && DealtUpTo(r, s, bitmap, left, index)
    requires |s.avSetup| == AV_SETUP_DEPTH && |s.avOut| == AV_OUT_DEPTH
    ensures DealtOut(r, s, bitmap, left)
  {
    var bufs, all := Ascending(bitmap, index), Ascending(bitmap, BUFFER_COUNT);
    SetupFits(r);
    hide Valid, Dealt, ToSetup, ToOut, Ascending, UpTo;
    assert s == Dealt(r, bufs) && ToSetup(r, bufs) + ToOut(r, bufs) == |bufs|;
    assert forall b :: b in left <==> b in bitmap && index <= b < BUFFER_COUNT;
    hide DealtUpTo;
    AscendingPrefix(bitmap, index, BUFFER_COUNT);
    DealtFull(r, bufs, all);
    RestOf(bitmap, index);
  }

  lemma {:induction false} RestOf(bitmap: set<nat>, index: nat)
    requires index <= BUFFER_COUNT
    ensures var bufs, all := Ascending(bitmap, index), Ascending(bitmap, BUFFER_COUNT);
      |bufs| <= |all| && forall b :: b in all[|bufs|..] <==> b in bitmap && index <= b < BUFFER_COUNT
  {
    var bufs, all := Ascending(bitmap, index), Ascending(bitmap, BUFFER_COUNT);
    AscendingPrefix(bitmap, index, BUFFER_COUNT);
    AscendingMeans(bitmap, index);
    AscendingMeans(bitmap, BUFFER_COUNT);
    hide Ascending;
    var rest := all[|bufs|..];
    assert all == bufs + rest;
    forall b | b in rest
      ensures b in bitmap && index <= b < BUFFER_COUNT
    {
      var k :| 0 <= k < |rest| && rest[k] == b;
      assert all[|bufs| + k] == b && b in all;
    }
    forall b | b in bitmap && index <= b < BUFFER_COUNT
      ensures b in rest
    {
      assert b in all && b !in bufs;
    }
  }

  lemma {:induction false} AllDealt(r: Usb, s: Usb, bitmap: set<nat>, left: set<nat>)
    requires Valid(r) && QuietlyDealt(r, s, bitmap, left, BUFFER_COUNT)
    ensures r.todo == [] ==> s.todo == [] && DealtOut(r, s, bitmap, left)
  {
    hide Valid, Dealt, Ascending, ToSetup, ToOut;
  }

  /** What could not be dealt out finds no room the next time either. */
  lemma {:induction false} DealtTwice(r: Usb, s: Usb, t: Usb, all: set<nat>, left: set<nat>, rest: set<nat>)
    requires Valid(r) && Valid(s) && all <= UpTo(BUFFER_COUNT)
    requires DealtOut(r, s, all, left) && DealtOut(s, t, left, rest)
    ensures t == s && rest == left && DealtOut(r, t, all, rest)
  {
    SetupFits(r);
    var bufs, more := Ascending(all, BUFFER_COUNT), Ascending(left, BUFFER_COUNT);
    AscendingMeans(all, BUFFER_COUNT);
    AscendingMeans(left, BUFFER_COUNT);
    forall b | b in left ensures b in more {
      assert b in bufs;
    }
    hide Valid, Ascending, UpTo;
    if more == [] {
      NothingDealt(s);
    } else {
      assert more[0] in left;
      DealtFull(s, [], more);
      NothingDealt(s);
    }
  }

  /** At reset the four lowest buffers go to the SETUP FIFO, the next eight to the OUT FIFO. */
  lemma {:induction false} FirstBuffers(r: Usb, s: Usb, left: set<nat>)
    requires Valid(r) && r.avSetup == [] && r.avOut == [] && DealtOut(r, s, UpTo(BUFFER_COUNT), left)
    ensures s.avSetup == [0, 1, 2, 3] && s.avOut == [4, 5, 6, 7, 8, 9, 10, 11]
    ensures forall b :: b in left <==> 12 <= b < 32
  {
    Counting(BUFFER_COUNT);
    SetupFits(r);
    hide Valid, Ascending, UpTo, Dealt, ToSetup, ToOut;
    FirstDealt(r, Ascending(UpTo(BUFFER_COUNT), BUFFER_COUNT));
  }

  lemma {:induction false} FirstDealt(r: Usb, bufs: seq<nat>)
    requires r.avSetup == [] && r.avOut == [] && |bufs| == 32 && forall i :: 0 <= i < 32 ==> bufs[i] == i
    ensures Dealt(r, bufs).avSetup == [0, 1, 2, 3] && Dealt(r, bufs).avOut == [4, 5, 6, 7, 8, 9, 10, 11]
    ensures ToSetup(r, bufs) + ToOut(r, bufs) == 12 && forall b :: b in bufs[12..] <==> 12 <= b < 32
  {
    Numbered(bufs);
    assert ToSetup(r, bufs) == 4 && ToOut(r, bufs) == 8;
  }

  lemma {:induction false} Numbered(bufs: seq<nat>)
    requires |bufs| == 32 && forall i :: 0 <= i < 32 ==> bufs[i] == i
    ensures bufs[..4] == [0, 1, 2, 3] && bufs[4..12] == [4, 5, 6, 7, 8, 9, 10, 11]
    ensures forall b :: b in bufs[12..] <==> 12 <= b < 32
  {
    forall b | 12 <= b < 32 ensures b in bufs[12..] {
      assert bufs[12..][b - 12] == b;
    }
  }

  lemma {:induction false} Counting(n: nat)
    requires n <= BUFFER_COUNT
    ensures var bufs := Ascending(UpTo(BUFFER_COUNT), n);
      |bufs| == n && forall i :: 0 <= i < n ==> bufs[i] == i
  {
    if n > 0 {
      Counting(n - 1);
    }
  }

  /** What is left of the bitmap lies at or above an index. */
  predicate FromIndex(left: set<nat>, bufferBitmap: set<nat>, index: nat) {
    left <= bufferBitmap && forall b | b in left :: index <= b < BUFFER_COUNT
  }

  lemma {:induction false} FromStart(avail: set<nat>)
    requires avail <= UpTo(BUFFER_COUNT)
    ensures FromIndex(avail, avail, 0)
  {
  }

  lemma {:induction false} NextIndex(left: set<nat>, bufferBitmap: set<nat>, index: nat, rest: multiset<nat>)
    requires FromIndex(left, bufferBitmap, index)
    ensures left <= bufferBitmap && FromIndex(left - {index}, bufferBitmap, index + 1)
    ensures index !in left ==> FromIndex(left, bufferBitmap, index + 1)
    ensures index in left ==> multiset(left) + rest == multiset(left - {index}) + rest + multiset{index}
  {
  }

  lemma {:induction false} NoneAbove(left: set<nat>, bufferBitmap: set<nat>)
    requires FromIndex(left, bufferBitmap, BUFFER_COUNT)
    ensures left == {} && left <= bufferBitmap
  {
  }

  lemma {:induction false} FullAfter(r: Usb, s: Usb, setupAt: Usb, outAt: Usb, t: Usb)
    requires Valid(r) && Evolved(r, s, {}, 0) && Valid(s) && BothFull(s, setupAt, outAt, t)
    ensures BothFull(r, setupAt, outAt, t) && Evolved(r, t, {}, 0)
  {
    EvolvedSelf(r);
    assert Valid(setupAt) && Valid(outAt);
    hide Evolved, Valid, HasRoom;
    ThreeSteps(r, r, s, setupAt);
    ThreeSteps(r, setupAt, outAt, t);
  }

  lemma {:induction false} HostOnlyMeans(r: Usb, s: Usb)
    requires Valid(r) && HostOnly(r, s)
    ensures Valid(s) && Evolved(r, s, {}, 0) && Pool(s) == Pool(r)
    ensures forall setup :: HasRoom(r, setup) ==> HasRoom(s, setup)
  {
    hide Valid, Outstanding, Pool;
  }

  lemma {:induction false} ThreeSteps(r: Usb, s: Usb, t: Usb, u: Usb)
    requires Valid(r) && Evolved(r, s, {}, 0) && Valid(s) && Evolved(s, t, {}, 0) && Valid(t) && Evolved(t, u, {}, 0)
    ensures Evolved(r, u, {}, 0)
  {
  }

  lemma {:induction false} BothFullNow(r: Usb, s: Usb, t: Usb)
    requires Valid(r) && Evolved(r, s, {}, 0) && Valid(s) && Evolved(s, t, {}, 0) && Valid(t)
    requires !HasRoom(s, true) && !HasRoom(t, false)
    ensures Evolved(r, t, {}, 0) && BothFull(r, s, t, t)
  {
  }

  /** During a call that began at r and ended at s both Available FIFOs were found full. */
  predicate BothFull(r: Usb, setupAt: Usb, outAt: Usb, s: Usb)
    requires Valid(r)
  {
    && Evolved(r, setupAt, {}, 0) && !HasRoom(setupAt, true)
    && Evolved(setupAt, outAt, {}, 0) && !HasRoom(outAt, false)
    && Evolved(outAt, s, {}, 0)
  }

  /** At some time since r both Available FIFOs were found full, one after the other. */
  ghost predicate FullSince(r: Usb, s: Usb)
    requires Valid(r)
  {
    exists t: Usb, a: Usb, b: Usb :: Valid(t) && Evolved(r, t, {}, 0) && BothFull(t, a, b, s)
  }

  function AtReset(mem: seq<seq<u32>>, todo: seq<Event>): (r: Usb) {
    Usb([], [], [], {}, seq(MAX_ENDPOINTS, _ => InSlot(0, 0, false, false)), mem, 0,
        todo, [], 0, seq(MAX_ENDPOINTS, _ => []), seq(MAX_ENDPOINTS, _ => []), false, [], [])
  }

  lemma {:induction false} ResetIsIntact(mem: seq<seq<u32>>, todo: seq<Event>)
    requires |mem| == BUFFER_COUNT && forall b :: 0 <= b < BUFFER_COUNT ==> |mem[b]| == BUFFER_WORDS
    requires forall k :: 0 <= k < |todo| ==> EventValid(todo[k])
    ensures Valid(AtReset(mem, todo)) && Intact(AtReset(mem, todo))
    ensures forall ep :: 0 <= ep < MAX_ENDPOINTS ==> !Outstanding(AtReset(mem, todo), ep)
  {
    hide Bytes;
  }

  lemma {:induction false} ResetIsSound(mem: seq<seq<u32>>, todo: seq<Event>)
    requires |mem| == BUFFER_COUNT && forall b :: 0 <= b < BUFFER_COUNT ==> |mem[b]| == BUFFER_WORDS
    requires forall k :: 0 <= k < |todo| ==> EventValid(todo[k])
    ensures Sound(AtReset(mem, todo), AllBuffers())
    ensures forall ep :: 0 <= ep < MAX_ENDPOINTS ==> !Outstanding(AtReset(mem, todo), ep)
  {
    var r := AtReset(mem, todo);
    ResetIsIntact(mem, todo);
    NothingHeld(r, MAX_ENDPOINTS);
    hide Held, Intact, Valid, Outstanding;
    assert RxBufs(r.rx) == [];
    assert Pool(r) == multiset{};
  }

  lemma {:induction false} NothingHeld(r: Usb, n: nat)
    requires Valid(r) && n <= MAX_ENDPOINTS && forall ep :: 0 <= ep < n ==> !Outstanding(r, ep)
    ensures Held(r, n) == multiset{}
  {
    hide Valid, Outstanding;
    if n > 0 {
      NothingHeld(r, n - 1);
    }
  }
}
