/** Naturally aligned power-of-two regions (sw/device/lib/dif/dif_rv_core_ibex.c). */
module Napot {

  type exponent = k: bv32 | k < 32

  /** `1u << k` */
  function Size(k: exponent): (s: bv32) {
    1 << k
  }

  /** `(1u << k) - 1` */
  function Mask(k: exponent): (m: bv32) {
    Size(k) - 1
  }

  /** The low k bits are a zero above k - 1 ones. */
  predicate Encodes(napot: bv32, k: exponent) {
    napot & Mask(k) == Mask(k) >> 1
  }

  /** Some bit among the low 31 is clear. */
  predicate HasClearBit(napot: bv32) {
    napot & 0x7fff_ffff != 0x7fff_ffff
  }

  predicate LowOnes(napot: bv32, k: exponent) {
    napot & Mask(k) == Mask(k)
  }

  predicate AlignedTo(addr: bv32, size: bv32) {
    addr & (size - 1) == 0
  }

  /** `to_napot` */
  function ToNapot(addr: bv32, size: bv32): (napot: bv32) {
    addr | ((size - 1) >> 1)
  }

  function Start(napot: bv32, size: bv32): (addr: bv32) {
    napot & !((size - 1) >> 1)
  }

  /** `from_napot`: a linear search for the size. size0 is what the caller's size variable held before,
      and what it still holds when no size is found. */
  method FromNapot(napot: bv32, size0: bv32) returns (addr: bv32, size: bv32)
    ensures size == Decoded(napot, size0)
    ensures addr == Start(napot, size)
    ensures !HasClearBit(napot) ==> size == size0 && addr == napot & !((size0 - 1) >> 1)
  {
    hide Encodes, LowOnes, HasClearBit;
    size := size0;
    var i: bv32 := 1;
    NoOnes(napot);
    while i < 32
      invariant 1 <= i <= 32 && size == size0 && LowOnes(napot, i - 1)
      decreases 32 - i
    {
      if Encodes(napot, i) {
        size := Size(i);
        OrderIsUnique(napot, i);
        return Start(napot, size), size;
      }
      OnesGrow(napot, i);
      i := i + 1;
    }
    AllOnes(napot);
    addr := Start(napot, size);
  }

  /** The size found, or the caller's old one. */
  ghost function Decoded(napot: bv32, size0: bv32): (size: bv32) {
    if HasClearBit(napot) then Size(Order(napot)) else size0
  }

  /** The size exponent a word with a clear bit among its low 31 encodes. */
  ghost function Order(napot: bv32): (k: exponent)
    requires HasClearBit(napot)
    ensures 1 <= k && Encodes(napot, k)
  {
    hide Encodes, LowOnes, HasClearBit;
    NoOnes(napot);
    OrderFrom(napot, 1)
  }

  ghost function OrderFrom(napot: bv32, i: exponent): (k: exponent)
    requires HasClearBit(napot) && 1 <= i && LowOnes(napot, i - 1)
    ensures 1 <= k && Encodes(napot, k)
    decreases 32 - i
  {
    hide Encodes, LowOnes, HasClearBit;
    if i == 31 then
      LastChance(napot);
      i
    else if Encodes(napot, i) then i
    else
      OnesGrow(napot, i);
      OrderFrom(napot, i + 1)
  }

  lemma {:induction false} LastChance(napot: bv32)
    requires HasClearBit(napot) && LowOnes(napot, 30)
    ensures Encodes(napot, 31)
  {
  }

  lemma {:induction false} NoOnes(napot: bv32)
    ensures LowOnes(napot, 0)
  {
  }

  lemma {:induction false} AllOnes(napot: bv32)
    requires LowOnes(napot, 31)
    ensures !HasClearBit(napot)
  {
  }

  lemma {:induction false} OnesGrow(napot: bv32, i: exponent)
    requires 1 <= i && LowOnes(napot, i - 1) && !Encodes(napot, i)
    ensures LowOnes(napot, i)
  {
  }

  /** A word encodes one size at most. */
  lemma {:induction false} OrderIsUnique(napot: bv32, k: exponent)
    requires 1 <= k && Encodes(napot, k)
    ensures HasClearBit(napot) && Order(napot) == k
  {
  }

  /** Decoding undoes encoding for every region of 2^1 to 2^31 bytes aligned to its size. */
  lemma {:induction false} DecodeEncode(addr: bv32, k: exponent)
    requires 1 <= k && AlignedTo(addr, Size(k))
    ensures var napot := ToNapot(addr, Size(k));
      HasClearBit(napot) && Order(napot) == k && Start(napot, Size(k)) == addr
  {
  }

  /** Encoding undoes decoding for every word with a clear bit among its low 31, and what was decoded is
      aligned to its size. */
  lemma {:induction false} EncodeDecode(napot: bv32)
    requires HasClearBit(napot)
    ensures var size := Size(Order(napot));
      ToNapot(Start(napot, size), size) == napot && AlignedTo(Start(napot, size), size)
  {
  }

  /** Of the aligned power-of-two regions the caller admits, exactly those of two bytes or more decode to what was
      encoded; and of the one-byte regions only those whose address has its low 31 bits all set, and only if the
      caller's size variable held one already. */
  lemma {:induction false} RoundTripExactly(addr: bv32, k: exponent, size0: bv32)
    requires AlignedTo(addr, Size(k))
    ensures var napot := ToNapot(addr, Size(k));
      (Decoded(napot, size0) == Size(k) && Start(napot, Decoded(napot, size0)) == addr) <==>
      (k >= 1 || (!HasClearBit(addr) && size0 == 1))
  {
    if k >= 1 {
      DecodeEncode(addr, k);
      hide *;
    } else {
      OneByte(addr);
      if HasClearBit(addr) {
        NotOneByte(Order(addr));
      }
      hide HasClearBit, Encodes, Mask, AlignedTo, ToNapot, Start;
    }
  }

  lemma {:induction false} OneByte(addr: bv32)
    ensures ToNapot(addr, Size(0)) == addr && Start(addr, 1) == addr && Size(0) == 1
  {
  }

  lemma {:induction false} NotOneByte(k: exponent)
    requires 1 <= k
    ensures Size(k) != 1
  {
  }
}
