/** The word-at-a-time <string.h> functions of sw/device/lib/base/memory.c against their byte-wise
    meaning, for every length and every pair of alignments. */
module MemoryFunctions {
  import opened Words
  import opened Memory

  const NULL: nat := 0

  /** PTRDIFF_MAX of the 32-bit target. */
  const PTRDIFF_MAX: nat := 0x7fff_ffff

  // ----- splitting a buffer into head, body and tail -----

  function NumLeadingBytes(left: nat, right: nat, len: nat): (n: nat)
    ensures n <= len
  {
    if len < 4 then len
    else if right == NULL || Misalignment32(left) == Misalignment32(right) then (4 - Misalignment32(left)) % 4
    else len
  }

  function TailOffset(left: nat, right: nat, len: nat): (n: nat)
    ensures NumLeadingBytes(left, right, len) <= n <= len
  {
    NumLeadingBytes(left, right, len) + (len - NumLeadingBytes(left, right, len)) / 4 * 4
  }

  /** From i up to `to` there are only whole words, aligned in the one buffer or in both. */
  predicate WholeWords(left: nat, right: nat, i: nat, to: nat) {
    i <= to && (to - i) % 4 == 0 && (i < to ==> Aligned(left, i) && (right != NULL ==> Aligned(right, i)))
  }

  lemma {:induction false} NextWord(left: nat, right: nat, i: nat, to: nat)
    requires WholeWords(left, right, i, to) && i < to
    ensures i + 4 <= to && Aligned(left, i) && (right != NULL ==> Aligned(right, i))
      && WholeWords(left, right, i + 4, to)
  {
  }

  lemma {:induction false} AlignedOn(base: nat, i: nat, n: nat)
    requires Aligned(base, i) && n % 4 == 0
    ensures Aligned(base, i + n)
  {
    assert base + (i + n) == 4 * ((base + i) / 4 + n / 4);
  }

  lemma {:induction false} LastWord(left: nat, right: nat, from: nat, end: nat)
    requires WholeWords(left, right, from, end) && from < end
    ensures from + 4 <= end && WholeWords(left, right, from, end - 4)
    ensures Aligned(left, end - 4) && (right != NULL ==> Aligned(right, end - 4))
  {
    assert (end - 4 - from) % 4 == 0;
    AlignedOn(left, from, end - 4 - from);
    if right != NULL {
      AlignedOn(right, from, end - 4 - from);
    }
    hide Aligned;
  }

  /** The body starts at a word boundary of the one buffer, or of both if they are equally misaligned. */
  lemma {:induction false} BodyIsAligned(left: nat, right: nat, len: nat)
    requires len >= 4 && (right == NULL || Misalignment32(left) == Misalignment32(right))
    ensures var n := NumLeadingBytes(left, right, len);
      n < 4 && Aligned(left, n) && (right != NULL ==> Aligned(right, n))
  {
  }

  /** `compute_alignment`: the body is whole words, aligned in both buffers. */
  method ComputeAlignment(left: nat, right: nat, len: nat) returns (bodyOffset: nat, tailOffset: nat)
    ensures bodyOffset == NumLeadingBytes(left, right, len) && tailOffset == TailOffset(left, right, len)
    ensures bodyOffset <= tailOffset <= len && WholeWords(left, right, bodyOffset, tailOffset)
    ensures Misalignment32(left) == Misalignment32(right) || right == NULL || len < 4 ==>
      len - tailOffset < 4 && (len >= 4 ==> bodyOffset < 4)
  {
    if len >= 4 && (right == NULL || Misalignment32(left) == Misalignment32(right)) {
      BodyIsAligned(left, right, len);
    }
    hide Aligned, Misalignment32;
    bodyOffset := NumLeadingBytes(left, right, len);
    var numWords := (len - bodyOffset) / 4;
    tailOffset := bodyOffset + numWords * 4;
  }

  function RepeatByte(b: byte): (w: u32)
    ensures WordBytes(w) == [b, b, b, b]
  {
    BytesWordRoundTrip([b, b, b, b]);
    BytesWord([b, b, b, b])
  }

  // ----- copying and filling -----

  /** `memcpy`: the first len bytes are copied and nothing else changes; a null pointer on either side
      makes it do nothing. */
  method Memcpy(dest: array?<byte>, destBase: nat, src: array?<byte>, srcBase: nat, len: nat)
    requires dest != null && src != null ==> dest != src && len <= dest.Length && len <= src.Length && srcBase != NULL
    modifies dest
    ensures dest != null && src != null ==> dest[..] == Spliced(old(dest[..]), 0, src[..len])
    ensures dest != null && src == null ==> dest[..] == old(dest[..])
  {
    if dest != null && src != null {
      CopyAll(dest, destBase, src, srcBase, len);
    }
  }

  method CopyAll(dest: array<byte>, destBase: nat, src: array<byte>, srcBase: nat, len: nat)
    requires dest != src && len <= dest.Length && len <= src.Length && srcBase != NULL
    modifies dest
    ensures dest[..] == Spliced(old(dest[..]), 0, src[..len])
  {
    var bodyOffset, tailOffset := ComputeAlignment(destBase, srcBase, len);
    ghost var was := dest[..];
    SpliceNothing(was, 0);
    hide Spliced;
    assert src[..][..0] == [];
    CopyBytes(dest, src, 0, bodyOffset, was);
    CopyWords(dest, destBase, src, srcBase, bodyOffset, tailOffset, was);
    CopyBytes(dest, src, tailOffset, len, was);
    assert src[..][..len] == src[..len];
  }

  method CopyBytes(dest: array<byte>, src: array<byte>, from: nat, to: nat, ghost was: seq<byte>)
    requires dest != src && from <= to <= dest.Length == |was| && to <= src.Length
    requires dest[..] == Spliced(was, 0, src[..][..from])
    modifies dest
    ensures dest[..] == Spliced(was, 0, src[..][..to])
  {
    ghost var s := src[..];
    hide Spliced;
    var i := from;
    while i < to
      invariant from <= i <= to
      invariant dest[..] == Spliced(was, 0, s[..i])
    {
      SpliceNext(was, 0, s, i, 1);
      Write8(src[i], dest, i);
      i := i + 1;
    }
  }

  method CopyWords(dest: array<byte>, destBase: nat, src: array<byte>, srcBase: nat, from: nat, to: nat,
      ghost was: seq<byte>)
    requires dest != src && from <= to <= dest.Length == |was| && to <= src.Length
    requires WholeWords(destBase, srcBase, from, to) && srcBase != NULL
    requires dest[..] == Spliced(was, 0, src[..][..from])
    modifies dest
    ensures dest[..] == Spliced(was, 0, src[..][..to])
  {
    ghost var s := src[..];
    hide Spliced, WholeWords, Aligned;
    var i := from;
    while i < to
      invariant from <= i <= to && WholeWords(destBase, srcBase, i, to)
      invariant dest[..] == Spliced(was, 0, s[..i])
    {
      NextWord(destBase, srcBase, i, to);
      SpliceNext(was, 0, s, i, 4);
      var word := Read32(src, srcBase, i);
      Write32(word, dest, destBase, i);
      i := i + 4;
    }
  }

  function Filled(b: byte, n: nat): (s: seq<byte>)
    ensures |s| == n && forall i :: 0 <= i < n ==> s[i] == b
  {
    seq(n, _ => b)
  }

  /** `memset`: the value is converted to a byte and stored in the first len bytes. */
  method Memset(dest: array<byte>, destBase: nat, value: int, len: nat)
    requires len <= dest.Length
    modifies dest
    ensures dest[..] == Spliced(old(dest[..]), 0, Filled(value % 256, len))
  {
    var value8: byte := value % 256;
    var bodyOffset, tailOffset := ComputeAlignment(destBase, NULL, len);
    ghost var was, s := dest[..], Filled(value8, len);
    SpliceNothing(was, 0);
    hide Spliced, Filled;
    FillBytes(dest, value8, 0, bodyOffset, was, s);
    FillWords(dest, destBase, RepeatByte(value8), value8, bodyOffset, tailOffset, was, s);
    FillBytes(dest, value8, tailOffset, len, was, s);
    assert s[..len] == s;
  }

  method FillBytes(dest: array<byte>, value8: byte, from: nat, to: nat, ghost was: seq<byte>, ghost s: seq<byte>)
    requires from <= to <= dest.Length == |was| && to <= |s| && s == Filled(value8, |s|)
    requires dest[..] == Spliced(was, 0, s[..from])
    modifies dest
    ensures dest[..] == Spliced(was, 0, s[..to])
  {
    hide Spliced;
    var i := from;
    while i < to
      invariant from <= i <= to
      invariant dest[..] == Spliced(was, 0, s[..i])
    {
      SpliceNext(was, 0, s, i, 1);
      assert s[i..i + 1] == [value8];
      Write8(value8, dest, i);
      i := i + 1;
    }
  }

  method FillWords(dest: array<byte>, destBase: nat, value32: u32, ghost value8: byte, from: nat, to: nat,
                   ghost was: seq<byte>, ghost s: seq<byte>)
    requires from <= to <= dest.Length == |was| && WholeWords(destBase, NULL, from, to)
    requires to <= |s| && s == Filled(value8, |s|)
    requires WordBytes(value32) == [value8, value8, value8, value8]
    requires dest[..] == Spliced(was, 0, s[..from])
    modifies dest
    ensures dest[..] == Spliced(was, 0, s[..to])
  {
    hide Spliced, WholeWords, Aligned;
    var i := from;
    while i < to
      invariant from <= i <= to && WholeWords(destBase, NULL, i, to)
      invariant dest[..] == Spliced(was, 0, s[..i])
    {
      NextWord(destBase, NULL, i, to);
      SpliceNext(was, 0, s, i, 4);
      assert s[i..i + 4] == WordBytes(value32);
      Write32(value32, dest, destBase, i);
      i := i + 4;
    }
  }

  // ----- comparing -----

  const MEM_CMP_EQ: int := 0
  const MEM_CMP_LT: int := -42
  const MEM_CMP_GT: int := 42

  /** a comes before b in lexicographic byte order: they first differ at a smaller byte of a. */
  ghost predicate LexLess(a: seq<byte>, b: seq<byte>) {
    exists k: nat :: FirstLess(a, b, k)
  }

  ghost predicate FirstLess(a: seq<byte>, b: seq<byte>, k: nat) {
    k < |a| && k < |b| && a[..k] == b[..k] && a[k] < b[k]
  }

  /** r is the answer memcmp gives for two strings in lexicographic order. */
  ghost predicate IsLexOrder(a: seq<byte>, b: seq<byte>, r: int) {
    && (r == MEM_CMP_LT <==> LexLess(a, b))
    && (r == MEM_CMP_GT <==> LexLess(b, a))
    && (r == MEM_CMP_EQ <==> a == b)
    && r in {MEM_CMP_LT, MEM_CMP_EQ, MEM_CMP_GT}
  }

  ghost predicate FirstDifferAt(a: seq<byte>, b: seq<byte>, k: nat) {
    k < |a| && k < |b| && a[..k] == b[..k] && a[k] != b[k]
  }

  lemma {:induction false} FirstDifference(a: seq<byte>, b: seq<byte>, k: nat)
    requires |a| == |b| && k < |a| && a[..k] == b[..k] && a[k] != b[k]
    ensures IsLexOrder(a, b, if a[k] < b[k] then MEM_CMP_LT else MEM_CMP_GT)
  {
    if a[k] < b[k] {
      assert FirstLess(a, b, k);
    } else {
      assert FirstLess(b, a, k);
    }
    forall j: nat | j < |a| && a[..j] == b[..j] && a[j] != b[j]
      ensures j == k
    {
      PrefixAgrees(a, b, j, k);
      PrefixAgrees(a, b, k, j);
    }
  }

  lemma {:induction false} PrefixAgrees(a: seq<byte>, b: seq<byte>, n: nat, i: nat)
    requires n <= |a| && n <= |b| && a[..n] == b[..n]
    ensures i < n ==> a[i] == b[i]
  {
  }

  lemma {:induction false} SameIsLexEqual(a: seq<byte>)
    ensures IsLexOrder(a, a, MEM_CMP_EQ)
  {
  }

  /** Byte-swapped little-endian words compare as the bytes do in memory order. */
  lemma {:induction false} SwappedWords(a: seq<byte>, b: seq<byte>)
    requires |a| == 4 && |b| == 4
    ensures BigEndian(a) == BigEndian(b) <==> a == b
    ensures a != b ==> exists k: nat :: FirstDifferAt(a, b, k)
    ensures forall k: nat :: FirstDifferAt(a, b, k) ==>
      (BigEndian(a) < BigEndian(b) <==> a[k] < b[k])
  {
    if a[0] != b[0] {
      assert FirstDifferAt(a, b, 0);
    } else if a[1] != b[1] {
      assert FirstDifferAt(a, b, 1);
    } else if a[2] != b[2] {
      assert FirstDifferAt(a, b, 2);
    } else if a[3] != b[3] {
      assert FirstDifferAt(a, b, 3);
    }
    forall k: nat | FirstDifferAt(a, b, k)
      ensures BigEndian(a) < BigEndian(b) <==> a[k] < b[k]
    {
      PrefixAgrees(a, b, k, 0);
      PrefixAgrees(a, b, k, 1);
      PrefixAgrees(a, b, k, 2);
    }
  }

  /** The number four bytes denote, most significant first. */
  function BigEndian(a: seq<byte>): (n: u32)
    requires |a| == 4
  {
    BytesWord([a[3], a[2], a[1], a[0]])
  }

  /** `__builtin_bswap32` */
  function Bswap32(w: u32): (r: u32)
    ensures r == BigEndian(WordBytes(w))
  {
    BigEndian(WordBytes(w))
  }

  /** `memcmp`: lexicographic byte order. */
  method Memcmp(lhs: array<byte>, lhsBase: nat, rhs: array<byte>, rhsBase: nat, len: nat) returns (r: int)
    requires len <= lhs.Length && len <= rhs.Length && rhsBase != NULL
    ensures IsLexOrder(lhs[..len], rhs[..len], r)
    ensures r < 0 <==> LexLess(lhs[..len], rhs[..len])
    ensures r > 0 <==> LexLess(rhs[..len], lhs[..len])
    ensures r == 0 <==> lhs[..len] == rhs[..len]
  {
    var bodyOffset, tailOffset := ComputeAlignment(lhsBase, rhsBase, len);
    r := CompareBytes(lhs, rhs, 0, bodyOffset, len);
    if r == MEM_CMP_EQ {
      r := CompareWords(lhs, lhsBase, rhs, rhsBase, bodyOffset, tailOffset, len);
    }
    if r == MEM_CMP_EQ {
      r := CompareBytes(lhs, rhs, tailOffset, len, len);
    }
    SameIsLexEqual(lhs[..len]);
    assert lhs[..len][..len] == lhs[..len] && rhs[..len][..len] == rhs[..len];
  }

  method CompareBytes(lhs: array<byte>, rhs: array<byte>, from: nat, to: nat, ghost len: nat) returns (r: int)
    requires from <= to <= len <= lhs.Length && len <= rhs.Length && lhs[..len][..from] == rhs[..len][..from]
    ensures r == MEM_CMP_EQ ==> lhs[..len][..to] == rhs[..len][..to]
    ensures r != MEM_CMP_EQ ==> IsLexOrder(lhs[..len], rhs[..len], r)
  {
    ghost var a, b := lhs[..len], rhs[..len];
    hide IsLexOrder;
    var i := from;
    while i < to
      invariant from <= i <= to && a[..i] == b[..i]
    {
      if lhs[i] != rhs[i] {
        FirstDifference(a, b, i);
      }
      if lhs[i] < rhs[i] {
        return MEM_CMP_LT;
      } else if lhs[i] > rhs[i] {
        return MEM_CMP_GT;
      }
      i := i + 1;
    }
    return MEM_CMP_EQ;
  }

  method CompareWords(lhs: array<byte>, lhsBase: nat, rhs: array<byte>, rhsBase: nat, from: nat, to: nat,
      ghost len: nat)
    returns (r: int)
    requires from <= to <= len <= lhs.Length && len <= rhs.Length
    requires WholeWords(lhsBase, rhsBase, from, to) && rhsBase != NULL
    requires lhs[..len][..from] == rhs[..len][..from]
    ensures r == MEM_CMP_EQ ==> lhs[..len][..to] == rhs[..len][..to]
    ensures r != MEM_CMP_EQ ==> IsLexOrder(lhs[..len], rhs[..len], r)
  {
    ghost var a, b := lhs[..len], rhs[..len];
    hide IsLexOrder, BigEndian, BytesWord, WholeWords, Aligned;
    var i := from;
    while i < to
      invariant from <= i <= to && WholeWords(lhsBase, rhsBase, i, to) && a[..i] == b[..i]
    {
      NextWord(lhsBase, rhsBase, i, to);
      var left := Read32(lhs, lhsBase, i);
      var right := Read32(rhs, rhsBase, i);
      var wordLeft, wordRight := Bswap32(left), Bswap32(right);
      assert a[i..i + 4] == lhs[i..i + 4] && b[i..i + 4] == rhs[i..i + 4];
      WordDifference(a, b, i);
      if wordLeft < wordRight {
        return MEM_CMP_LT;
      } else if wordLeft > wordRight {
        return MEM_CMP_GT;
      }
      i := i + 4;
    }
    return MEM_CMP_EQ;
  }

  lemma {:induction false} WordDifference(a: seq<byte>, b: seq<byte>, i: nat)
    requires |a| == |b| && i + 4 <= |a| && a[..i] == b[..i]
    ensures var x, y := BigEndian(a[i..i + 4]), BigEndian(b[i..i + 4]);
      && (x < y ==> IsLexOrder(a, b, MEM_CMP_LT))
      && (x > y ==> IsLexOrder(a, b, MEM_CMP_GT))
      && (x == y ==> a[..i + 4] == b[..i + 4])
  {
    var a4, b4 := a[i..i + 4], b[i..i + 4];
    SwappedWords(a4, b4);
    assert a[..i + 4] == a[..i] + a4 && b[..i + 4] == b[..i] + b4;
    if a4 != b4 {
      var k: nat :| FirstDifferAt(a4, b4, k);
      assert a[..i + k] == a[..i] + a4[..k] && b[..i + k] == b[..i] + b4[..k];
      FirstDifference(a, b, i + k);
    }
  }

  // ----- comparing from the end -----

  /** r is the answer memrcmp gives: the order of the buffers read as little-endian numbers. */
  ghost predicate IsNumericOrder(a: seq<byte>, b: seq<byte>, r: int) {
    && (r == MEM_CMP_LT <==> LittleEndian(a) < LittleEndian(b))
    && (r == MEM_CMP_GT <==> LittleEndian(a) > LittleEndian(b))
    && (r == MEM_CMP_EQ <==> LittleEndian(a) == LittleEndian(b))
    && r in {MEM_CMP_LT, MEM_CMP_EQ, MEM_CMP_GT}
  }

  /** The high-order bytes decide the order of two little-endian numbers of equal length. */
  lemma {:induction false} HighBytesDecide(a: seq<byte>, b: seq<byte>, i: nat)
    requires |a| == |b| && i <= |a| && LittleEndian(a[i..]) < LittleEndian(b[i..])
    ensures LittleEndian(a) < LittleEndian(b)
  {
    if i == 0 {
      assert a[0..] == a && b[0..] == b;
    } else {
      assert a[1..][i - 1..] == a[i..] && b[1..][i - 1..] == b[i..];
      HighBytesDecide(a[1..], b[1..], i - 1);
    }
  }

  lemma {:induction false} SuffixDecides(a: seq<byte>, b: seq<byte>, i: nat)
    requires |a| == |b| && i <= |a| && LittleEndian(a[i..]) != LittleEndian(b[i..])
    ensures IsNumericOrder(a, b, if LittleEndian(a[i..]) < LittleEndian(b[i..]) then MEM_CMP_LT else MEM_CMP_GT)
  {
    if LittleEndian(a[i..]) < LittleEndian(b[i..]) {
      HighBytesDecide(a, b, i);
    } else {
      HighBytesDecide(b, a, i);
    }
  }

  lemma {:induction false} ByteStep(a: seq<byte>, i: nat)
    requires i < |a|
    ensures LittleEndian(a[i..]) == a[i] + 256 * LittleEndian(a[i + 1..])
  {
  }

  lemma {:induction false} WordStep(a: seq<byte>, i: nat)
    requires i + 4 <= |a|
    ensures LittleEndian(a[i..]) == BytesWord(a[i..i + 4]) + TWO_32 * LittleEndian(a[i + 4..])
  {
    ByteStep(a, i);
    ByteStep(a, i + 1);
    ByteStep(a, i + 2);
    ByteStep(a, i + 3);
  }

  lemma {:induction false} SuffixWordDifference(a: seq<byte>, b: seq<byte>, i: nat)
    requires |a| == |b| && i + 4 <= |a| && a[i + 4..] == b[i + 4..]
    ensures var x, y := BytesWord(a[i..i + 4]), BytesWord(b[i..i + 4]);
      && (x < y ==> IsNumericOrder(a, b, MEM_CMP_LT))
      && (x > y ==> IsNumericOrder(a, b, MEM_CMP_GT))
      && (x == y ==> a[i..] == b[i..])
  {
    var x, y := BytesWord(a[i..i + 4]), BytesWord(b[i..i + 4]);
    WordStep(a, i);
    WordStep(b, i);
    BytesWordRoundTrip(a[i..i + 4]);
    BytesWordRoundTrip(b[i..i + 4]);
    hide BytesWord, WordBytes, LittleEndian;
    if x != y {
      SuffixDecides(a, b, i);
    } else {
      assert a[i..] == a[i..i + 4] + a[i + 4..] && b[i..] == b[i..i + 4] + b[i + 4..];
    }
  }

  /** Byte strings of equal length denote the same number only if they are the same. */
  lemma {:induction false} LittleEndianInjective(a: seq<byte>, b: seq<byte>)
    requires |a| == |b|
    ensures LittleEndian(a) == LittleEndian(b) <==> a == b
  {
    if a != [] {
      LittleEndianInjective(a[1..], b[1..]);
      assert a == [a[0]] + a[1..] && b == [b[0]] + b[1..];
    }
  }

  /** `memrcmp`: numeric order of little-endian buffers of any length. */
  method Memrcmp(lhs: array<byte>, lhsBase: nat, rhs: array<byte>, rhsBase: nat, len: nat) returns (r: int)
    requires len <= lhs.Length && len <= rhs.Length && rhsBase != NULL
    ensures IsNumericOrder(lhs[..len], rhs[..len], r)
    ensures r < 0 <==> LittleEndian(lhs[..len]) < LittleEndian(rhs[..len])
    ensures r > 0 <==> LittleEndian(lhs[..len]) > LittleEndian(rhs[..len])
    ensures r == 0 <==> lhs[..len] == rhs[..len]
  {
    var bodyOffset, tailOffset := ComputeAlignment(lhsBase, rhsBase, len);
    ghost var a, b := lhs[..len], rhs[..len];
    r := RCompareBytes(lhs, rhs, tailOffset, len, len);
    if r == MEM_CMP_EQ {
      r := RCompareWords(lhs, lhsBase, rhs, rhsBase, bodyOffset, tailOffset, len);
    }
    if r == MEM_CMP_EQ {
      r := RCompareBytes(lhs, rhs, 0, bodyOffset, len);
    }
    assert a[0..] == a && b[0..] == b;
  }

  method RCompareBytes(lhs: array<byte>, rhs: array<byte>, from: nat, to: nat, ghost len: nat) returns (r: int)
    requires from <= to <= len <= lhs.Length && len <= rhs.Length && lhs[..len][to..] == rhs[..len][to..]
    ensures r == MEM_CMP_EQ ==> lhs[..len][from..] == rhs[..len][from..]
    ensures r != MEM_CMP_EQ ==> IsNumericOrder(lhs[..len], rhs[..len], r)
  {
    ghost var a, b := lhs[..len], rhs[..len];
    hide IsNumericOrder, LittleEndian;
    var end := to;
    while end > from
      invariant from <= end <= to && a[end..] == b[end..]
    {
      var i := end - 1;
      ByteStep(a, i);
      ByteStep(b, i);
      if lhs[i] != rhs[i] {
        SuffixDecides(a, b, i);
      }
      if lhs[i] < rhs[i] {
        return MEM_CMP_LT;
      } else if lhs[i] > rhs[i] {
        return MEM_CMP_GT;
      }
      assert a[i..] == [a[i]] + a[end..] && b[i..] == [b[i]] + b[end..];
      end := end - 1;
    }
    return MEM_CMP_EQ;
  }

  method RCompareWords(lhs: array<byte>, lhsBase: nat, rhs: array<byte>, rhsBase: nat, from: nat, to: nat,
      ghost len: nat)
    returns (r: int)
    requires from <= to <= len <= lhs.Length && len <= rhs.Length
    requires WholeWords(lhsBase, rhsBase, from, to) && rhsBase != NULL
    requires lhs[..len][to..] == rhs[..len][to..]
    ensures r == MEM_CMP_EQ ==> lhs[..len][from..] == rhs[..len][from..]
    ensures r != MEM_CMP_EQ ==> IsNumericOrder(lhs[..len], rhs[..len], r)
  {
    ghost var a, b := lhs[..len], rhs[..len];
    hide IsNumericOrder, LittleEndian, BytesWord, WholeWords, Aligned;
    var end := to;
    while end > from
      invariant from <= end <= to && WholeWords(lhsBase, rhsBase, from, end) && a[end..] == b[end..]
    {
      LastWord(lhsBase, rhsBase, from, end);
      var i := end - 4;
      var wordLeft := Read32(lhs, lhsBase, i);
      var wordRight := Read32(rhs, rhsBase, i);
      assert a[i..end] == lhs[i..end] && b[i..end] == rhs[i..end];
      SuffixWordDifference(a, b, i);
      if wordLeft < wordRight {
        return MEM_CMP_LT;
      } else if wordLeft > wordRight {
        return MEM_CMP_GT;
      }
      end := end - 4;
    }
    return MEM_CMP_EQ;
  }

  // ----- searching -----

  datatype Found = At(i: nat) | Nowhere

  ghost predicate IsFirst(s: seq<byte>, b: byte, r: Found) {
    match r
    case At(i) => i < |s| && s[i] == b && b !in s[..i]
    case Nowhere => b !in s
  }

  ghost predicate IsLast(s: seq<byte>, b: byte, r: Found) {
    match r
    case At(i) => i < |s| && s[i] == b && b !in s[i + 1..]
    case Nowhere => b !in s
  }

  /** `~(word ^ value32)` */
  function BitsEq(word: u32, value32: u32): (bits: u32) {
    Pow2At32();
    XorBound(word, value32, 32);
    TWO_32 - 1 - Xor(word, value32)
  }

  /** A byte of bitsEq is all ones exactly where the two words hold the same byte. */
  predicate ByteMatches(bitsEq: u32, k: nat)
    requires k < 4
  {
    WordBytes(bitsEq)[k] == 0xff
  }

  /** The first matching byte of a word in memory order, or 4. */
  function FirstMatch(bitsEq: u32): (k: nat)
    ensures k <= 4 && (k < 4 ==> ByteMatches(bitsEq, k))
    ensures forall j :: 0 <= j < k ==> !ByteMatches(bitsEq, j)
  {
    if ByteMatches(bitsEq, 0) then 0
    else if ByteMatches(bitsEq, 1) then 1
    else if ByteMatches(bitsEq, 2) then 2
    else if ByteMatches(bitsEq, 3) then 3
    else 4
  }

  /** One more than the last matching byte of a word, or 0. */
  function LastMatch(bitsEq: u32): (k: nat)
    ensures k <= 4 && (k > 0 ==> ByteMatches(bitsEq, k - 1))
    ensures forall j :: k <= j < 4 ==> !ByteMatches(bitsEq, j)
  {
    if ByteMatches(bitsEq, 3) then 4
    else if ByteMatches(bitsEq, 2) then 3
    else if ByteMatches(bitsEq, 1) then 2
    else if ByteMatches(bitsEq, 0) then 1
    else 0
  }

  lemma {:induction false} MatchingWord(word: u32, value32: u32, b: byte)
    requires WordBytes(value32) == [b, b, b, b]
    ensures forall k :: 0 <= k < 4 ==> (ByteMatches(BitsEq(word, value32), k) <==> WordBytes(word)[k] == b)
  {
    forall k | 0 <= k < 4
      ensures ByteMatches(BitsEq(word, value32), k) <==> WordBytes(word)[k] == b
    {
      MatchingBytes(word, value32, k);
    }
  }

  lemma {:induction false} MatchingBytes(word: u32, value32: u32, k: nat)
    requires k < 4
    ensures ByteMatches(BitsEq(word, value32), k) <==> WordBytes(word)[k] == WordBytes(value32)[k]
  {
    XorOfBytes(word, value32, k);
    ComplementBytes(Xor(word, value32), k);
  }

  lemma {:induction false} ComplementBytes(x: u32, k: nat)
    requires k < 4
    ensures WordBytes(TWO_32 - 1 - x)[k] == 255 - WordBytes(x)[k]
  {
    var bs := WordBytes(x);
    WordBytesRoundTrip(x);
    BytesWordRoundTrip([255 - bs[0], 255 - bs[1], 255 - bs[2], 255 - bs[3]]);
  }

  lemma {:induction false} XorOfBytes(a: u32, b: u32, k: nat)
    requires k < 4
    ensures Xor(a, b) < TWO_32
    ensures WordBytes(Xor(a, b))[k] == 0 <==> WordBytes(a)[k] == WordBytes(b)[k]
  {
    Pow2At32();
    XorBound(a, b, 32);
    XorShr(a, b, 8 * k);
    XorLow(Shr(a, 8 * k), Shr(b, 8 * k), 8);
    ByteOf(a, k);
    ByteOf(b, k);
    ByteOf(Xor(a, b), k);
  }

  lemma {:induction false} ByteOf(w: u32, k: nat)
    requires k < 4
    ensures WordBytes(w)[k] == Low(Shr(w, 8 * k), 8)
  {
    Pow2At32();
    ShrLowIsDivMod(Shr(w, 8 * k), 8);
    ShiftBytes(w);
    if k == 3 {
      assert w / 256 / 256 / 256 < 256;
    }
  }

  lemma {:induction false} ShiftBytes(w: nat)
    ensures Shr(w, 8) == w / 256
    ensures Shr(w, 16) == w / 256 / 256
    ensures Shr(w, 24) == w / 256 / 256 / 256
  {
    Pow2At32();
    ShrTwice(w, 8, 8);
    ShrTwice(w, 16, 8);
    ShrLowIsDivMod(w, 8);
    ShrLowIsDivMod(Shr(w, 8), 8);
    ShrLowIsDivMod(Shr(w, 16), 8);
  }

  lemma {:induction false} ShrTwice(n: nat, j: nat, k: nat)
    ensures Shr(Shr(n, j), k) == Shr(n, j + k)
  {
    if j != 0 {
      ShrTwice(n / 2, j - 1, k);
    }
  }

  /** `memchr`: the first match. The bytes read are the first `read` ones. None past the match is among them exactly
      when len is at least PTRDIFF_MAX or the match lies before or after the words or is the last byte of its word.
      From PTRDIFF_MAX on the buffer may therefore end before len when the search stops inside it. */
  method Memchr(buf: array<byte>, base: nat, value: int, len: nat) returns (r: Found, ghost read: nat)
    requires len <= buf.Length || (len >= 0x7fff_ffff && (value % 256) in buf[..])
    ensures IsFirst(if len <= buf.Length then buf[..len] else buf[..], value % 256, r)
    ensures if r.At? then r.i < read <= len else read == len
    ensures r.At? ==>
      read == r.i + if len >= 0x7fff_ffff || !InWords(base, len, r.i) then 1 else 4 - (base + r.i) % 4
    ensures r.At? ==> (read == r.i + 1 <==> len >= 0x7fff_ffff || !InWords(base, len, r.i) || (base + r.i) % 4 == 3)
  {
    var value8: byte := value % 256;
    var bodyOffset, tailOffset := ComputeAlignment(base, NULL, len);
    if len >= PTRDIFF_MAX {
      tailOffset := 0;
    }
    r, read := FindByte(buf, value8, 0, bodyOffset);
    if r == Nowhere && bodyOffset < tailOffset {
      r, read := FindWord(buf, base, value8, RepeatByte(value8), bodyOffset, tailOffset);
    }
    if r == Nowhere {
      r, read := FindByte(buf, value8, if bodyOffset < tailOffset then tailOffset else bodyOffset, len);
    }
  }

  /** A byte of the body, which is searched word by word. */
  predicate InWords(base: nat, len: nat, i: nat) {
    NumLeadingBytes(base, NULL, len) <= i < TailOffset(base, NULL, len)
  }

  method FindByte(buf: array<byte>, value8: byte, from: nat, to: nat) returns (r: Found, ghost read: nat)
    requires from <= to && from <= buf.Length && value8 !in buf[..from]
    requires to <= buf.Length || value8 in buf[..]
    ensures r == Nowhere ==> to <= buf.Length && value8 !in buf[..to]
    ensures r.At? ==> from <= r.i < to && IsFirst(buf[..], value8, r)
    ensures read == if r.At? then r.i + 1 else to
  {
    assert buf[..buf.Length] == buf[..];
    var i := from;
    while i < to
      invariant from <= i <= to && i <= buf.Length && value8 !in buf[..i]
    {
      if buf[i] == value8 {
        assert buf[..][..i] == buf[..i];
        return At(i), i + 1;
      }
      assert buf[..i + 1] == buf[..i] + [buf[i]];
      i := i + 1;
    }
    return Nowhere, to;
  }

  method FindWord(buf: array<byte>, base: nat, value8: byte, value32: u32, from: nat, to: nat)
      returns (r: Found, ghost read: nat)
    requires from <= to <= buf.Length && WholeWords(base, NULL, from, to) && value8 !in buf[..from]
    requires WordBytes(value32) == [value8, value8, value8, value8]
    ensures r == Nowhere ==> value8 !in buf[..to]
    ensures r.At? ==> from <= r.i < to && IsFirst(buf[..], value8, r)
    ensures if r.At? then read == r.i + 4 - (base + r.i) % 4 && read <= to else read == to
  {
    ghost var s := buf[..];
    hide BitsEq, WordBytes, ByteMatches, BytesWord, WholeWords, Aligned;
    var i := from;
    while i < to
      invariant from <= i <= to && WholeWords(base, NULL, i, to) && value8 !in s[..i]
    {
      NextWord(base, NULL, i, to);
      var word := Read32(buf, base, i);
      var k := FirstMatch(BitsEq(word, value32));
      MatchingWord(word, value32, value8);
      assert s[..i + k] == s[..i] + WordBytes(word)[..k];
      if k < 4 {
        ByteInWord(base, i, k);
        return At(i + k), i + 4;
      }
      i := i + 4;
    }
    return Nowhere, to;
  }

  lemma {:induction false} ByteInWord(base: nat, i: nat, k: nat)
    requires Aligned(base, i) && k < 4
    ensures (base + (i + k)) % 4 == k
  {
  }

  lemma {:induction false} FirstIsUnique(s: seq<byte>, b: byte, i: nat, r: Found)
    requires i < |s| && s[i] == b && b !in s[..i] && IsFirst(s, b, r)
    ensures r == At(i)
  {
    assert forall k :: 0 <= k < i ==> s[..i][k] != b;
    assert forall k :: 0 <= k < r.i ==> s[..r.i][k] != b;
  }

  /** The match is the first byte of a word, and the whole word is read. */
  method MemchrReadsOn() returns (r: Found, ghost read: nat)
    ensures r == At(0) && read == 4
  {
    var buf := new byte[] [7, 0, 0, 0];
    r, read := Memchr(buf, 4, 7, 4);
    FirstIsUnique(buf[..4], 7, 0, r);
  }

  lemma {:induction false} LastInWord(s: seq<byte>, i: nat, w: seq<byte>, k: nat, b: byte)
    requires i + 4 <= |s| && s[i..i + 4] == w && k <= 4 && b !in w[k..] && b !in s[i + 4..]
    ensures b !in s[i + k..]
    ensures k > 0 && w[k - 1] == b ==> IsLast(s, b, At(i + k - 1))
  {
  }

  /** `memrchr`: the last match. */
  method Memrchr(buf: array<byte>, base: nat, value: int, len: nat) returns (r: Found)
    requires len <= buf.Length
    ensures IsLast(buf[..len], value % 256, r)
  {
    var value8: byte := value % 256;
    var bodyOffset, tailOffset := ComputeAlignment(base, NULL, len);
    r := RFindByte(buf, value8, tailOffset, len, len);
    if r == Nowhere {
      r := RFindWord(buf, base, value8, RepeatByte(value8), bodyOffset, tailOffset, len);
    }
    if r == Nowhere {
      r := RFindByte(buf, value8, 0, bodyOffset, len);
    }
    assert buf[0..len] == buf[..len];
  }

  method RFindByte(buf: array<byte>, value8: byte, from: nat, to: nat, ghost len: nat) returns (r: Found)
    requires from <= to <= len <= buf.Length && value8 !in buf[to..len]
    ensures r == Nowhere ==> value8 !in buf[from..len]
    ensures r.At? ==> IsLast(buf[..len], value8, r)
  {
    var end := to;
    while end > from
      invariant from <= end <= to && value8 !in buf[end..len]
    {
      var i := end - 1;
      if buf[i] == value8 {
        assert buf[..len][i + 1..] == buf[end..len];
        return At(i);
      }
      assert buf[i..len] == [buf[i]] + buf[end..len];
      end := end - 1;
    }
    return Nowhere;
  }

  method RFindWord(buf: array<byte>, base: nat, value8: byte, value32: u32, from: nat, to: nat, ghost len: nat)
    returns (r: Found)
    requires from <= to <= len <= buf.Length && WholeWords(base, NULL, from, to) && value8 !in buf[to..len]
    requires WordBytes(value32) == [value8, value8, value8, value8]
    ensures r == Nowhere ==> value8 !in buf[from..len]
    ensures r.At? ==> IsLast(buf[..len], value8, r)
  {
    ghost var s := buf[..len];
    hide BitsEq, WordBytes, ByteMatches, BytesWord, WholeWords, Aligned;
    assert s[to..] == buf[to..len];
    var end := to;
    while end > from
      invariant from <= end <= to && WholeWords(base, NULL, from, end) && value8 !in s[end..]
    {
      LastWord(base, NULL, from, end);
      var i := end - 4;
      var word := Read32(buf, base, i);
      var k := LastMatch(BitsEq(word, value32));
      MatchingWord(word, value32, value8);
      LastInWord(s, i, WordBytes(word), k, value8);
      if k > 0 {
        return At(i + k - 1);
      }
      end := end - 4;
    }
    assert s[from..] == buf[from..len];
    return Nowhere;
  }
}
