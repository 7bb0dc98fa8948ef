/** CRC-32 (sw/device/lib/base/crc32.c) against polynomial division over GF(2). */
module Polynomials {
  import opened Words

  /** A polynomial over GF(2): its coefficients, highest power first. */
  type Poly = seq<bool>

  function Zeros(n: nat): (p: Poly)
    ensures |p| == n
  {
    seq(n, _ => false)
  }

  /** Sum of two polynomials written with the same number of coefficients. */
  function Add(p: Poly, q: Poly): (r: Poly)
    requires |p| == |q|
    ensures |r| == |p|
  {
    seq(|p|, i requires 0 <= i < |p| => p[i] != q[i])
  }

  /** Multiplication by a constant of GF(2). */
  function Scale(c: bool, p: Poly): (r: Poly)
    ensures |r| == |p|
  {
    if c then p else Zeros(|p|)
  }

  /** Product with a polynomial of degree 32: (q*x + c) * g == (q*g)*x + c*g. */
  function Times(q: Poly, g: Poly): (r: Poly)
    requires |g| == 33
    ensures |r| == |q| + 32
  {
    if q == [] then Zeros(32)
    else
      var k := |q| - 1;
      Add(Times(q[..k], g) + [false], Zeros(k) + Scale(q[k], g))
  }

  /** r is the remainder of p divided by g: p == q*g + r with r of degree below 32. */
  ghost predicate IsRemainder(p: Poly, g: Poly, r: Poly)
    requires |g| == 33
  {
    |r| == 32 && exists q: Poly :: IsQuotient(p, g, q, r)
  }

  ghost predicate IsQuotient(p: Poly, g: Poly, q: Poly, r: Poly)
    requires |g| == 33
  {
    |r| == 32 && |p| == |q| + 32 && p == Add(Times(q, g), Zeros(|q|) + r)
  }

  lemma {:induction false} TimesAdd(p: Poly, q: Poly, g: Poly)
    requires |p| == |q| && |g| == 33
    ensures Times(Add(p, q), g) == Add(Times(p, g), Times(q, g))
  {
    if p != [] {
      var k := |p| - 1;
      TimesAdd(p[..k], q[..k], g);
      assert Add(p, q)[..k] == Add(p[..k], q[..k]);
      SumOfSteps(Times(p[..k], g), Times(q[..k], g), p[k], q[k], g, k);
      hide Add, Scale;
    }
  }

  lemma {:induction false} SumOfSteps(u: Poly, v: Poly, a: bool, b: bool, g: Poly, k: nat)
    requires |g| == 33 && |u| == |v| == k + 32
    ensures Add(Add(u, v) + [false], Zeros(k) + Scale(a != b, g))
      == Add(Add(u + [false], Zeros(k) + Scale(a, g)), Add(v + [false], Zeros(k) + Scale(b, g)))
  {
  }

  /** A multiple of a monic polynomial of degree 32 has degree below 32 only if it is zero. */
  lemma {:induction false} LowMultipleIsZero(q: Poly, g: Poly)
    requires |g| == 33 && g[0]
    requires forall i :: 0 <= i < |q| ==> !Times(q, g)[i]
    ensures q == Zeros(|q|)
  {
    if q != [] {
      var k := |q| - 1;
      var t := Times(q[..k], g);
      forall i | 0 <= i < k
        ensures !t[i]
      {
        assert Times(q, g)[i] == ((t + [false])[i] != (Zeros(k) + Scale(q[k], g))[i]);
      }
      LowMultipleIsZero(q[..k], g);
      TimesZeros(k, g);
      assert Times(q, g)[k] == ((t + [false])[k] != (Zeros(k) + Scale(q[k], g))[k]);
      assert q == q[..k] + [q[k]];
    }
  }

  lemma {:induction false} TimesZeros(k: nat, g: Poly)
    requires |g| == 33
    ensures Times(Zeros(k), g) == Zeros(k + 32)
  {
    if k != 0 {
      TimesZeros(k - 1, g);
      assert Zeros(k)[..k - 1] == Zeros(k - 1);
    }
  }

  /** Division by a monic polynomial has one remainder. */
  lemma {:induction false} RemainderIsUnique(p: Poly, g: Poly, r: Poly, r': Poly)
    requires |g| == 33 && g[0]
    requires IsRemainder(p, g, r) && IsRemainder(p, g, r')
    ensures r == r'
  {
    var q: Poly :| IsQuotient(p, g, q, r);
    var q': Poly :| IsQuotient(p, g, q', r');
    var n := |q|;
    var t, t' := Times(q, g), Times(q', g);
    var d := Add(q, q');
    TimesAdd(q, q', g);
    forall i | 0 <= i < n + 32
      ensures Times(d, g)[i] == ((Zeros(n) + r)[i] != (Zeros(n) + r')[i])
    {
      assert p[i] == (t[i] != (Zeros(n) + r)[i]);
      assert p[i] == (t'[i] != (Zeros(n) + r')[i]);
    }
    LowMultipleIsZero(d, g);
    TimesZeros(n, g);
    forall i | 0 <= i < 32
      ensures r[i] == r'[i]
    {
      assert !Times(d, g)[n + i];
      assert (Zeros(n) + r)[n + i] == r[i] && (Zeros(n) + r')[n + i] == r'[i];
    }
  }

  /** p(x) * x + b * x^32 */
  function Shifted(p: Poly, b: bool): (r: Poly)
    requires |p| >= 32
    ensures |r| == |p| + 1
  {
    var k := |p| - 32;
    seq(|p| + 1, i requires 0 <= i < |p| + 1 => (if i < |p| then p[i] else false) != (i == k && b))
  }

  /** The remainder after one more input bit: shift it, and subtract g when the top coefficient is set. */
  ghost predicate IsNextRemainder(g: Poly, r: Poly, b: bool, next: Poly)
    requires |g| == 33 && |r| == 32
  {
    |next| == 32 &&
    forall j :: 0 <= j < 32 ==> next[j] == ((j < 31 && r[j + 1]) != ((r[0] != b) && g[j + 1]))
  }

  lemma {:induction false} StepKeepsQuotient(p: Poly, g: Poly, q: Poly, r: Poly, b: bool, next: Poly)
    requires |g| == 33 && g[0]
    requires IsQuotient(p, g, q, r) && IsNextRemainder(g, r, b, next)
    ensures IsQuotient(Shifted(p, b), g, q + [r[0] != b], next)
  {
  }
}

module Crc32 {
  import opened Words
  import opened Memory
  import opened Polynomials

  const CRC32_POLY: u32 := 0xedb88320

  // ----- the generator and the reflected state -----

  /** The generator polynomial G of section 3.2.9 of IEEE 802.3-2018, coefficients of x^32 down to x^0. */
  function Generator(): (g: Poly)
    ensures |g| == 33 && g[0]
  {
    [true] + ([false, false, false, false, false, true, false, false]
      + ([true, true, false, false, false, false, false, true]
      + ([false, false, false, true, true, true, false, true]
      + [true, false, true, true, false, true, true, true])))
  }

  /** G(x) = x^32 + x^26 + x^23 + x^22 + x^16 + x^12 + x^11 + x^10 + x^8 + x^7 + x^5 + x^4 + x^2 + x + 1. */
  lemma {:induction false} GeneratorPowers(k: nat)
    requires k <= 32
    ensures Generator()[32 - k] <==> k in {32, 26, 23, 22, 16, 12, 11, 10, 8, 7, 5, 4, 2, 1, 0}
  {
  }

  /** The register is reflected: its bit i is the coefficient of x^(31-i). */
  function Reflected(state: u32): (p: Poly)
    ensures |p| == 32
  {
    Bits(state, 32)
  }

  lemma {:induction false} PolyIsReflectedGenerator()
    ensures Generator() == [true] + Reflected(CRC32_POLY)
  {
    var p: u32, b0: byte, b1: byte, b2: byte, b3: byte := CRC32_POLY, 0x20, 0x83, 0xb8, 0xed;
    WordBits(p, b0, b1, b2, b3);
    Bits20();
    Bits83();
    BitsB8();
    BitsED();
  }

  lemma {:induction false} Bits20()
    ensures Bits(0x20, 8) == [false, false, false, false, false, true, false, false]
  {
  }

  lemma {:induction false} Bits83()
    ensures Bits(0x83, 8) == [true, true, false, false, false, false, false, true]
  {
  }

  lemma {:induction false} BitsB8()
    ensures Bits(0xb8, 8) == [false, false, false, true, true, true, false, true]
  {
  }

  lemma {:induction false} BitsED()
    ensures Bits(0xed, 8) == [true, false, true, true, false, true, true, true]
  {
  }

  lemma {:induction false} WordBits(w: u32, b0: byte, b1: byte, b2: byte, b3: byte)
    requires WordBytes(w) == [b0, b1, b2, b3]
    ensures Bits(w, 32) == Bits(b0, 8) + (Bits(b1, 8) + (Bits(b2, 8) + Bits(b3, 8)))
  {
    BitsSplitByte(w, 24);
    BitsSplitByte(w / 256, 16);
    BitsSplitByte(w / 256 / 256, 8);
  }

  lemma {:induction false} BitsSplitByte(n: nat, w: nat)
    ensures Bits(n, 8 + w) == Bits(n % 256, 8) + Bits(n / 256, w)
  {
    LowByte(n);
    BitsSplit(n, 8, w);
    BitsLow(n, n % 256, 8);
  }

  lemma {:induction false} LowByte(n: nat)
    ensures Shr(n, 8) == n / 256
    ensures Low(n, 8) == Low(n % 256, 8)
  {
    Pow2At32();
    ShrLowIsDivMod(n, 8);
    ShrLowIsDivMod(n % 256, 8);
  }

  lemma {:induction false} BitsSplit(n: nat, k: nat, w: nat)
    ensures Bits(n, k + w) == Bits(n, k) + Bits(Shr(n, k), w)
  {
    if k != 0 {
      BitsSplit(n / 2, k - 1, w);
    }
  }

  lemma {:induction false} BitsLow(n: nat, m: nat, k: nat)
    requires Low(n, k) == Low(m, k)
    ensures Bits(n, k) == Bits(m, k)
  {
    if k != 0 {
      BitsLow(n / 2, m / 2, k - 1);
    }
  }

  // ----- specification of the register -----

  /** The register after one more message bit. */
  function BitStep(state: u32, bit: bool): (next: u32)
  {
    if (state % 2 == 1) != bit then XorWord(state / 2, CRC32_POLY) else state / 2
  }

  function XorWord(a: u32, b: u32): (c: u32)
    ensures c == Xor(a, b)
  {
    Pow2At32();
    XorBound(a, b, 32);
    Xor(a, b)
  }

  /** The register after a string of message bits. */
  function Fold(state: u32, bits: seq<bool>): (next: u32)
  {
    if bits == [] then state
    else BitStep(Fold(state, bits[..|bits| - 1]), bits[|bits| - 1])
  }

  /** Message bits in transmission order: each byte least significant bit first. */
  function MessageBits(bytes: seq<byte>): (bits: seq<bool>)
    ensures |bits| == 8 * |bytes|
  {
    if bytes == [] then [] else MessageBits(bytes[..|bytes| - 1]) + Bits(bytes[|bytes| - 1], 8)
  }

  /** The register after a string of message bytes. */
  function Crc(state: u32, bytes: seq<byte>): (next: u32)
  {
    if bytes == [] then state else Fold(Crc(state, bytes[..|bytes| - 1]), Bits(bytes[|bytes| - 1], 8))
  }

  /** The polynomial init(x) * x^n + M(x) * x^32 for an n-bit message M. */
  function Dividend(init: Poly, msg: Poly): (p: Poly)
    requires |init| == 32
    ensures |p| == |msg| + 32
  {
    Add(init + Zeros(|msg|), msg + Zeros(32))
  }

  /** Every register value is the remainder of the message polynomial divided by G. */
  lemma {:induction false} FoldIsRemainder(init: u32, bits: seq<bool>)
    ensures IsRemainder(Dividend(Reflected(init), bits), Generator(), Reflected(Fold(init, bits)))
  {
    var g := Generator();
    if bits == [] {
      assert IsQuotient(Dividend(Reflected(init), bits), g, [], Reflected(init));
    } else {
      var k := |bits| - 1;
      var before := Dividend(Reflected(init), bits[..k]);
      var s := Fold(init, bits[..k]);
      FoldIsRemainder(init, bits[..k]);
      var q: Poly :| IsQuotient(before, g, q, Reflected(s));
      var top := (s % 2 == 1) != bits[k];
      StepIsNextRemainder(s, bits[k]);
      StepKeepsQuotient(before, g, q, Reflected(s), bits[k], Reflected(BitStep(s, bits[k])));
      DividendShift(Reflected(init), bits);
      assert IsQuotient(Dividend(Reflected(init), bits), g, q + [top], Reflected(Fold(init, bits)));
    }
  }

  lemma {:induction false} DividendShift(init: Poly, bits: Poly)
    requires |init| == 32 && bits != []
    ensures Dividend(init, bits) == Shifted(Dividend(init, bits[..|bits| - 1]), bits[|bits| - 1])
  {
  }

  /** One register step, coefficient by coefficient: shift and add the generator when the top is set. */
  lemma {:induction false} StepIsNextRemainder(s: u32, b: bool)
    ensures Reflected(s)[0] == (s % 2 == 1)
    ensures IsNextRemainder(Generator(), Reflected(s), b, Reflected(BitStep(s, b)))
  {
    var g := Generator();
    PolyIsReflectedGenerator();
    BitsXor(s / 2, CRC32_POLY, 32);
    HalfBits(s);
    forall j | 0 <= j < 32
      ensures g[j + 1] == Reflected(CRC32_POLY)[j]
    {
      assert ([true] + Reflected(CRC32_POLY))[j + 1] == Reflected(CRC32_POLY)[j];
    }
  }

  lemma {:induction false} HalfBits(s: u32)
    ensures forall j :: 0 <= j < 32 ==> Bits(s / 2, 32)[j] == (j < 31 && Bits(s, 32)[j + 1])
  {
    assert Bits(s, 32)[1..] == Bits(s / 2, 31);
    Pow2At32();
    TopBitClear(s / 2, 31);
    forall j | 0 <= j < 31
      ensures Bits(s / 2, 32)[j] == Bits(s, 32)[j + 1]
    {
      assert Bits(s, 32)[1..][j] == Bits(s / 2, 31)[j];
    }
  }

  lemma {:induction false} TopBitClear(n: nat, w: nat)
    requires n < Pow2(w)
    ensures Bits(n, w + 1) == Bits(n, w) + [false]
  {
    if w != 0 {
      TopBitClear(n / 2, w - 1);
    }
  }

  // ----- streaming -----

  lemma {:induction false} FoldAppend(s: u32, a: seq<bool>, b: seq<bool>)
    ensures Fold(s, a + b) == Fold(Fold(s, a), b)
  {
    if b == [] {
      assert a + b == a;
    } else {
      var k := |b| - 1;
      assert (a + b)[..|a + b| - 1] == a + b[..k];
      FoldAppend(s, a, b[..k]);
    }
  }

  lemma {:induction false} CrcIsFold(s: u32, bytes: seq<byte>)
    ensures Crc(s, bytes) == Fold(s, MessageBits(bytes))
  {
    if bytes != [] {
      var k := |bytes| - 1;
      CrcIsFold(s, bytes[..k]);
      FoldAppend(s, MessageBits(bytes[..k]), Bits(bytes[k], 8));
    }
  }

  /** Every byte stream leaves the remainder of its message polynomial in the register. */
  lemma {:induction false} CrcIsRemainder(init: u32, bytes: seq<byte>)
    ensures IsRemainder(Dividend(Reflected(init), MessageBits(bytes)), Generator(), Reflected(Crc(init, bytes)))
  {
    CrcIsFold(init, bytes);
    FoldIsRemainder(init, MessageBits(bytes));
  }

  /** Feeding a message in two chunks is feeding it at once, wherever it is split. */
  lemma {:induction false} ChunksCompose(s: u32, a: seq<byte>, b: seq<byte>)
    ensures Crc(Crc(s, a), b) == Crc(s, a + b)
  {
    if b == [] {
      assert a + b == a;
    } else {
      var k := |b| - 1;
      assert (a + b)[..|a + b| - 1] == a + b[..k];
      ChunksCompose(s, a, b[..k]);
    }
  }

  // ----- the code -----

  /** `crc32_internal_add8`: xor the byte in, then eight shift steps. */
  method InternalAdd8(state: u32, byte: byte) returns (ctx: u32)
    ensures ctx == Fold(state, Bits(byte, 8))
  {
    ctx := XorByte(state, byte);
    ghost var bits := Bits(byte, 8);
    for i := 0 to 8
      invariant ctx == Xor(Fold(state, bits[..i]), Shr(byte, i))
    {
      var lsb := ctx % 2 == 1;
      AddStep(state, byte, i);
      ctx := ctx / 2;
      if lsb {
        ctx := XorWord(ctx, CRC32_POLY);
      }
    }
    assert bits[..8] == bits;
    LowByte(byte);
    XorZero(Fold(state, bits));
  }

  function XorByte(a: u32, b: byte): (c: u32)
    ensures c == Xor(a, b)
  {
    XorWord(a, b)
  }

  lemma {:induction false} AddStep(state: u32, byte: byte, i: nat)
    requires i < 8
    ensures var ctx, bits := Xor(Fold(state, Bits(byte, 8)[..i]), Shr(byte, i)), Bits(byte, 8);
      Xor(Fold(state, bits[..i + 1]), Shr(byte, i + 1))
        == if ctx % 2 == 1 then Xor(ctx / 2, CRC32_POLY) else ctx / 2
  {
    var bits := Bits(byte, 8);
    var s, b := Fold(state, bits[..i]), Shr(byte, i);
    assert bits[..i + 1][..i] == bits[..i];
    BitsAt(byte, 8, i);
    ShrNext(byte, i);
    StepOfXor(s, b);
    hide Xor, Bits, Shr, BitStep;
  }

  /** A step of the register with the byte xored in is that with the byte's lowest bit fed in. */
  lemma {:induction false} StepOfXor(s: u32, b: nat)
    ensures var ctx := Xor(s, b);
      Xor(BitStep(s, b % 2 == 1), b / 2) == if ctx % 2 == 1 then Xor(ctx / 2, CRC32_POLY) else ctx / 2
  {
    XorStep(s, b);
    XorAssoc(s / 2, b / 2, CRC32_POLY);
    XorComm(b / 2, CRC32_POLY);
    XorAssoc(s / 2, CRC32_POLY, b / 2);
    hide Xor;
  }

  /** `crc32_internal_add32`: the four bytes of the word in memory order. */
  method InternalAdd32(state: u32, word: u32) returns (ctx: u32)
    ensures ctx == Crc(state, WordBytes(word))
  {
    var bytes := WordBytes(word);
    ctx := state;
    for i := 0 to 4
      invariant ctx == Crc(state, bytes[..i])
    {
      assert bytes[..i + 1][..i] == bytes[..i];
      ctx := InternalAdd8(ctx, bytes[i]);
    }
    assert bytes[..4] == bytes;
  }

  lemma {:induction false} NextByte(s: u32, bytes: seq<byte>, i: nat)
    requires i < |bytes|
    ensures Crc(s, bytes[..i + 1]) == Fold(Crc(s, bytes[..i]), Bits(bytes[i], 8))
  {
    assert bytes[..i + 1][..i] == bytes[..i];
  }

  lemma {:induction false} NextWord(s: u32, bytes: seq<byte>, i: nat)
    requires i + 4 <= |bytes|
    ensures Crc(s, bytes[..i + 4]) == Crc(Crc(s, bytes[..i]), bytes[i..i + 4])
  {
    assert bytes[..i + 4] == bytes[..i] + bytes[i..i + 4];
    ChunksCompose(s, bytes[..i], bytes[i..i + 4]);
  }

  lemma {:induction false} StillAligned(base: nat, i: nat)
    requires Aligned(base, i)
    ensures Aligned(base, i + 4)
  {
    assert base + (i + 4) == 4 * ((base + i) / 4 + 1);
  }

  /** The aligned body of the buffer. */
  method AddWords(state0: u32, buf: array<byte>, base: nat, from: nat, len: nat, ghost init: u32)
      returns (state: u32, data: nat)
    requires from <= len <= buf.Length && (from < len ==> Aligned(base, from)) && state0 == Crc(init, buf[..][..from])
    ensures from <= data <= len && state == Crc(init, buf[..][..data])
  {
    ghost var bytes := buf[..];
    state, data := state0, from;
    hide Crc, Fold, Bits, Aligned, WordBytes, BytesWord;
    while len - data >= 4
      invariant from <= data <= len && (data < len ==> Aligned(base, data))
      invariant state == Crc(init, bytes[..data])
    {
      var word := Read32(buf, base, data);
      assert bytes[data..data + 4] == WordBytes(word);
      NextWord(init, bytes, data);
      StillAligned(base, data);
      state := InternalAdd32(state, word);
      data := data + 4;
    }
  }

  /** The `uint32_t` the callers of crc32.h pass around by pointer. */
  class Context {
    var ctx: u32

    constructor ()
      ensures ctx == 0xffff_ffff
    {
      ctx := 0xffff_ffff;
    }

    method Add8(byte: byte)
      modifies this
      ensures ctx == Fold(old(ctx), Bits(byte, 8))
    {
      ctx := InternalAdd8(ctx, byte);
    }

    method Add32(word: u32)
      modifies this
      ensures ctx == Crc(old(ctx), WordBytes(word))
    {
      ctx := InternalAdd32(ctx, word);
    }

    /** `crc32_add`: unaligned head, aligned body, unaligned tail, for a buffer at any address. */
    method Add(buf: array<byte>, base: nat, len: nat)
      requires len <= buf.Length
      modifies this
      ensures ctx == Crc(old(ctx), buf[..len])
    {
      var state := ctx;
      ghost var init, bytes := ctx, buf[..];
      var data := 0;
      assert Crc(init, bytes[..0]) == init;
      hide Crc, Fold, Bits, Aligned, WordBytes, BytesWord;
      while data < len && !Aligned(base, data)
        invariant 0 <= data <= len
        invariant state == Crc(init, bytes[..data])
      {
        NextByte(init, bytes, data);
        state := InternalAdd8(state, buf[data]);
        data := data + 1;
      }
      state, data := AddWords(state, buf, base, data, len, init);
      while data < len
        invariant 0 <= data <= len
        invariant state == Crc(init, bytes[..data])
      {
        NextByte(init, bytes, data);
        state := InternalAdd8(state, buf[data]);
        data := data + 1;
      }
      ctx := state;
    }

    method Finish() returns (crc: u32)
      ensures Reflected(crc) == Complement(Reflected(ctx))
    {
      Pow2At32();
      ComplementBits(ctx, 32);
      crc := 0xffff_ffff - ctx;
    }
  }

  function Complement(p: Poly): (r: Poly)
    ensures |r| == |p|
  {
    seq(|p|, i requires 0 <= i < |p| => !p[i])
  }

  lemma {:induction false} ComplementBits(n: nat, w: nat)
    requires n < Pow2(w)
    ensures Bits(Pow2(w) - 1 - n, w) == Complement(Bits(n, w))
  {
    if w != 0 {
      ComplementBits(n / 2, w - 1);
      var m := Pow2(w) - 1 - n;
      assert m % 2 == 1 - n % 2 && m / 2 == Pow2(w - 1) - 1 - n / 2;
      assert Bits(m, w) == [m % 2 == 1] + Bits(m / 2, w - 1);
    }
  }

  /** The all-ones initial register. */
  function Ones(): (p: Poly)
    ensures |p| == 32
  {
    Complement(Zeros(32))
  }

  /** `crc32`: the complement of the remainder of ones(x) * x^n + M(x) * x^32. */
  method Crc32(buf: array<byte>, base: nat, len: nat) returns (crc: u32)
    requires len <= buf.Length
    ensures IsRemainder(Dividend(Ones(), MessageBits(buf[..len])), Generator(), Complement(Reflected(crc)))
  {
    var ctx := new Context();
    ctx.Add(buf, base, len);
    crc := ctx.Finish();
    CrcIsRemainder(0xffff_ffff, buf[..len]);
    OnesBits();
    ComplementTwice(Reflected(ctx.ctx));
  }

  lemma {:induction false} OnesBits()
    ensures Reflected(0xffff_ffff) == Ones()
  {
    Pow2At32();
    BitsOfZero(32);
    ComplementBits(0, 32);
  }

  lemma {:induction false} BitsOfZero(w: nat)
    ensures Bits(0, w) == Zeros(w)
  {
    if w != 0 {
      BitsOfZero(w - 1);
    }
  }

  lemma {:induction false} ComplementTwice(p: Poly)
    ensures Complement(Complement(p)) == p
  {
  }

  /** For a frame of at least 32 bits this is the dividend of section 3.2.9 of IEEE 802.3-2018:
      the message with its first 32 bits complemented, times x^32. */
  lemma {:induction false} IeeeDividend(msg: Poly)
    requires |msg| >= 32
    ensures Dividend(Ones(), msg) == Complement(msg[..32]) + msg[32..] + Zeros(32)
  {
  }

  /** The check value is determined by the message alone. */
  lemma {:induction false} CrcIsUnique(msg: Poly, crc: u32, crc': u32)
    requires IsRemainder(Dividend(Ones(), msg), Generator(), Complement(Reflected(crc)))
    requires IsRemainder(Dividend(Ones(), msg), Generator(), Complement(Reflected(crc')))
    ensures crc == crc'
  {
    RemainderIsUnique(Dividend(Ones(), msg), Generator(), Complement(Reflected(crc)), Complement(Reflected(crc')));
    ComplementTwice(Reflected(crc));
    ComplementTwice(Reflected(crc'));
    Pow2At32();
    BitsInjective(crc, crc', 32);
  }
}
