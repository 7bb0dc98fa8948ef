/** Machine words as bounded naturals: widths, bit strings, bitwise operators and the
    little-endian byte order shared by every routine in the project. */
module Words {

  const TWO_32: nat := 0x1_0000_0000
  const TWO_64: nat := 0x1_0000_0000_0000_0000

  type byte = b: nat | b < 256
  type u16 = n: nat | n < 0x1_0000
  type u32 = n: nat | n < 0x1_0000_0000
  type u64 = n: nat | n < 0x1_0000_0000_0000_0000

  // ----- powers of two -----

  function Pow2(n: nat): (p: nat)
    ensures p >= 1
  {
    if n == 0 then 1 else 2 * Pow2(n - 1)
  }

  lemma {:induction false} Pow2Add(a: nat, b: nat)
    ensures Pow2(a + b) == Pow2(a) * Pow2(b)
  {
    if a == 0 {
    } else {
      Pow2Add(a - 1, b);
      assert Pow2(a + b) == 2 * Pow2(a - 1 + b);
    }
  }

  // ----- bit strings, least significant bit first -----

  function Bits(n: nat, w: nat): (bs: seq<bool>)
    ensures |bs| == w
  {
    if w == 0 then [] else [n % 2 == 1] + Bits(n / 2, w - 1)
  }

  /** Bitwise exclusive or on naturals. */
  function Xor(a: nat, b: nat): (c: nat)
    decreases a + b
  {
    if a == 0 && b == 0 then 0
    else (if a % 2 != b % 2 then 1 else 0) + 2 * Xor(a / 2, b / 2)
  }

  lemma {:induction false} XorComm(a: nat, b: nat)
    ensures Xor(a, b) == Xor(b, a)
    decreases a + b
  {
    if a != 0 || b != 0 {
      XorComm(a / 2, b / 2);
    }
  }

  lemma {:induction false} XorZero(a: nat)
    ensures Xor(a, 0) == a == Xor(0, a)
  {
    if a != 0 {
      XorZero(a / 2);
    }
  }

  /** One step of the recursion, stated without the base case. */
  lemma {:induction false} XorStep(a: nat, b: nat)
    ensures Xor(a, b) % 2 == (if a % 2 != b % 2 then 1 else 0)
    ensures Xor(a, b) / 2 == Xor(a / 2, b / 2)
  {
  }

  lemma {:induction false} XorAssoc(a: nat, b: nat, c: nat)
    ensures Xor(Xor(a, b), c) == Xor(a, Xor(b, c))
    decreases a + b + c
  {
    if a == 0 && b == 0 && c == 0 {
    } else {
      XorAssoc(a / 2, b / 2, c / 2);
      XorStep(a, b);
      XorStep(b, c);
      XorStep(Xor(a, b), c);
      XorStep(a, Xor(b, c));
    }
  }

  lemma {:induction false} XorBound(a: nat, b: nat, w: nat)
    requires a < Pow2(w) && b < Pow2(w)
    ensures Xor(a, b) < Pow2(w)
  {
    if w != 0 {
      XorBound(a / 2, b / 2, w - 1);
      XorStep(a, b);
    }
  }

  /** `n >> k` */
  function Shr(n: nat, k: nat): (r: nat)
  {
    if k == 0 then n else Shr(n / 2, k - 1)
  }

  /** `n & (2^k - 1)` */
  function Low(n: nat, k: nat): (r: nat)
  {
    if k == 0 then 0 else n % 2 + 2 * Low(n / 2, k - 1)
  }

  lemma {:induction false} ShrLowIsDivMod(n: nat, k: nat)
    ensures Shr(n, k) == n / Pow2(k) && Low(n, k) == n % Pow2(k)
  {
    if k != 0 {
      ShrLowIsDivMod(n / 2, k - 1);
      HalfSplit(n, Pow2(k - 1), Pow2(k));
    }
  }

  lemma {:induction false} XorShr(a: nat, b: nat, k: nat)
    ensures Shr(Xor(a, b), k) == Xor(Shr(a, k), Shr(b, k))
  {
    if k != 0 {
      XorStep(a, b);
      XorShr(a / 2, b / 2, k - 1);
    }
  }

  /** The low k bits of two naturals agree exactly when the low k bits of their
      exclusive or are clear. */
  lemma {:induction false} XorLow(a: nat, b: nat, k: nat)
    ensures Low(Xor(a, b), k) == 0 <==> Low(a, k) == Low(b, k)
  {
    if k != 0 {
      XorStep(a, b);
      XorLow(a / 2, b / 2, k - 1);
    }
  }

  /** Dividing by q = 2p is halving and then dividing by p. */
  lemma {:induction false} HalfSplit(a: nat, p: nat, q: nat)
    requires p >= 1 && q == 2 * p
    ensures a / q == (a / 2) / p
    ensures (a % q) / 2 == (a / 2) % p
    ensures (a % q) % 2 == a % 2
  {
    var h := a / 2;
    var d, r := h / p, h % p;
    assert h == p * d + r;
    assert q * d == 2 * (p * d);
    DivModUnique(a, q, d, 2 * r + a % 2);
  }

  lemma {:induction false} DivModUnique(a: nat, d: nat, q: nat, r: nat)
    requires d >= 1 && r < d && a == d * q + r
    ensures a / d == q && a % d == r
  {
    var q', r' := a / d, a % d;
    assert a == d * q' + r';
    assert d * (q - q') == d * q - d * q' == r' - r;
    if q' < q {
      MulAtLeast(d, q - q');
    } else if q < q' {
      MulAtLeast(d, q' - q);
    }
  }

  lemma {:induction false} MulAtLeast(d: nat, k: nat)
    requires k >= 1
    ensures d * k >= d
  {
    assert d * k == d * (k - 1) + d;
  }

  lemma {:induction false} Pow2At32()
    ensures Pow2(8) == 0x100 && Pow2(16) == 0x1_0000 && Pow2(32) == TWO_32
  {
    assert Pow2(8) == 0x100;
    Pow2Add(8, 8);
    Pow2Add(16, 16);
  }

  lemma {:induction false} ShrNext(n: nat, k: nat)
    ensures Shr(n, k + 1) == Shr(n, k) / 2
  {
    if k != 0 {
      ShrNext(n / 2, k - 1);
    }
  }

  lemma {:induction false} BitsAt(n: nat, w: nat, i: nat)
    requires i < w
    ensures Bits(n, w)[i] <==> Shr(n, i) % 2 == 1
  {
    if i != 0 {
      BitsAt(n / 2, w - 1, i - 1);
    }
  }

  lemma {:induction false} BitsXor(a: nat, b: nat, w: nat)
    ensures forall i :: 0 <= i < w ==> (Bits(Xor(a, b), w)[i] <==> Bits(a, w)[i] != Bits(b, w)[i])
  {
    if w != 0 {
      BitsXor(a / 2, b / 2, w - 1);
      XorStep(a, b);
    }
  }

  /** Bit strings of words are faithful: equal strings come from equal words. */
  lemma {:induction false} BitsInjective(a: nat, b: nat, w: nat)
    requires a < Pow2(w) && b < Pow2(w)
    requires Bits(a, w) == Bits(b, w)
    ensures a == b
  {
    if w != 0 {
      assert Bits(a, w)[0] == Bits(b, w)[0];
      assert Bits(a, w)[1..] == Bits(b, w)[1..];
      BitsInjective(a / 2, b / 2, w - 1);
    }
  }

  // ----- little-endian byte order -----

  /** The natural number a byte string denotes, least significant byte first. */
  function LittleEndian(bs: seq<byte>): (n: nat)
  {
    if bs == [] then 0 else bs[0] + 256 * LittleEndian(bs[1..])
  }

  /** A 32-bit word as its four bytes in memory. */
  function WordBytes(w: u32): (bs: seq<byte>)
    ensures |bs| == 4
  {
    [w % 256, w / 256 % 256, w / 256 / 256 % 256, w / 256 / 256 / 256]
  }

  /** The 32-bit word held by four bytes of memory. */
  function BytesWord(bs: seq<byte>): (w: u32)
    requires |bs| == 4
  {
    var b0: int, b1: int, b2: int, b3: int := bs[0], bs[1], bs[2], bs[3];
    b0 + 256 * (b1 + 256 * (b2 + 256 * b3))
  }

  lemma {:induction false} BytesWordRoundTrip(bs: seq<byte>)
    requires |bs| == 4
    ensures WordBytes(BytesWord(bs)) == bs
  {
    var w := BytesWord(bs);
    var b0: int, b1: int, b2: int, b3: int := bs[0], bs[1], bs[2], bs[3];
    assert w / 256 == b1 + 256 * (b2 + 256 * b3);
    assert w / 256 / 256 == b2 + 256 * b3;
  }

  lemma {:induction false} WordBytesRoundTrip(w: u32)
    ensures BytesWord(WordBytes(w)) == w
  {
  }

  /** The bytes of a run of words, in memory order. */
  function WordsBytes(ws: seq<u32>): (bs: seq<byte>)
    ensures |bs| == 4 * |ws|
  {
    if ws == [] then [] else WordBytes(ws[0]) + WordsBytes(ws[1..])
  }

  /** Bytes merged into words; the last word is padded with zeros. */
  function Pack(bytes: seq<byte>): (ws: seq<u32>)
    ensures |ws| == (|bytes| + 3) / 4
  {
    if bytes == [] then []
    else if |bytes| < 4 then [BytesWord((bytes + [0, 0, 0])[..4])]
    else [BytesWord(bytes[..4])] + Pack(bytes[4..])
  }

  lemma {:induction false} PackKeepsBytes(bytes: seq<byte>)
    ensures WordsBytes(Pack(bytes))[..|bytes|] == bytes
  {
    if bytes == [] {
    } else if |bytes| < 4 {
      BytesWordRoundTrip((bytes + [0, 0, 0])[..4]);
      var ws := Pack(bytes);
      assert WordsBytes(ws) == WordBytes(ws[0]) + WordsBytes([]);
    } else {
      BytesWordRoundTrip(bytes[..4]);
      PackKeepsBytes(bytes[4..]);
      var ws := Pack(bytes);
      assert WordsBytes(ws) == bytes[..4] + WordsBytes(ws[1..]);
      assert ws[1..] == Pack(bytes[4..]);
    }
  }

  lemma {:induction false} PackAppend(a: seq<byte>, t: seq<byte>)
    requires |a| % 4 == 0
    ensures Pack(a + t) == Pack(a) + Pack(t)
  {
    if a == [] {
      assert a + t == t;
    } else {
      hide Pack, BytesWord;
      FirstOfBoth(a, t);
      PackFirst(a);
      PackFirst(a + t);
      PackAppend(a[4..], t);
      assert Pack(a + t) == [BytesWord(a[..4])] + (Pack(a[4..]) + Pack(t));
    }
  }

  lemma {:induction false} FirstOfBoth(a: seq<byte>, t: seq<byte>)
    requires a != [] && |a| % 4 == 0
    ensures |a| >= 4 && (a + t)[..4] == a[..4] && (a + t)[4..] == a[4..] + t && |a[4..]| % 4 == 0
  {
  }

  lemma {:induction false} PackFirst(bytes: seq<byte>)
    requires |bytes| >= 4
    ensures Pack(bytes) == [BytesWord(bytes[..4])] + Pack(bytes[4..])
  {
  }

  lemma {:induction false} WordsBytesAt(ws: seq<u32>, k: nat)
    requires k < |ws|
    ensures WordsBytes(ws)[4 * k..4 * k + 4] == WordBytes(ws[k])
  {
    if k > 0 {
      WordsBytesAt(ws[1..], k - 1);
      assert WordsBytes(ws)[4 * k..4 * k + 4] == WordsBytes(ws[1..])[4 * (k - 1)..4 * (k - 1) + 4];
    }
  }

  lemma {:induction false} WordsBytesConcat(a: seq<u32>, b: seq<u32>)
    ensures WordsBytes(a + b) == WordsBytes(a) + WordsBytes(b)
  {
    if a == [] {
      assert a + b == b;
    } else {
      WordsBytesConcat(a[1..], b);
      assert (a + b)[1..] == a[1..] + b && (a + b)[0] == a[0];
      hide WordBytes;
    }
  }

  /** Packing is undone by reading the words back, whatever follows them. */
  lemma {:induction false} PackedAhead(a: seq<byte>, tail: seq<u32>)
    ensures WordsBytes(Pack(a) + tail)[..|a|] == a
  {
    WordsBytesConcat(Pack(a), tail);
    PackKeepsBytes(a);
    assert (WordsBytes(Pack(a)) + WordsBytes(tail))[..|a|] == WordsBytes(Pack(a))[..|a|];
  }
}
