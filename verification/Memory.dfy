/** Main memory seen by the driver library (sw/device/lib/base/memory.h): byte buffers with a
    base address, read and written a byte or an aligned word at a time. */
module Memory {
  import opened Words

  /** The address of element i of a buffer that starts at address base is a multiple of four. */
  predicate Aligned(base: nat, i: nat) {
    (base + i) % 4 == 0
  }

  /** Bytes by which an address is ahead of the previous word boundary. */
  function Misalignment32(addr: nat): (m: nat)
    ensures m < 4
  {
    addr % 4
  }

  /** A buffer with one stretch of bytes, starting at offset i, replaced by bs. */
  function Spliced(was: seq<byte>, i: nat, bs: seq<byte>): (now: seq<byte>)
    requires i + |bs| <= |was|
    ensures |now| == |was|
  {
    was[..i] + bs + was[i + |bs|..]
  }

  lemma {:induction false} SliceOfSlice(s: seq<byte>, from: nat, to: nat, a: nat, b: nat)
    requires from <= to <= |s| && a <= b <= to - from
    ensures s[from..to][a..b] == s[from + a..from + b]
  {
    forall i | 0 <= i < b - a
      ensures s[from..to][a..b][i] == s[from + a..from + b][i]
    {
    }
  }

  /** The words around an address. */
  lemma {:induction false} AroundAddress(addr: nat)
    ensures var m := Misalignment32(addr);
      && m <= addr && (addr - m) % 4 == 0
      && (addr + (4 - m)) % 4 == 0 && Misalignment32(addr + (4 - m)) == 0
  {
  }

  lemma {:induction false} RoomForWord(offset: nat, size: nat)
    requires offset % 4 == 0 && size % 4 == 0 && offset < size
    ensures offset + 4 <= size
  {
  }

  lemma {:induction false} SpliceNothing(was: seq<byte>, i: nat)
    requires i <= |was|
    ensures Spliced(was, i, []) == was
  {
  }

  /** Writing a source piece by piece from an offset on: the next piece extends the prefix written. */
  lemma {:induction false} SpliceNext(was: seq<byte>, off: nat, src: seq<byte>, i: nat, n: nat)
    requires i + n <= |src| && off + i + n <= |was|
    ensures Spliced(Spliced(was, off, src[..i]), off + i, src[i..i + n]) == Spliced(was, off, src[..i + n])
  {
  }

  /** Replacing part of a word and storing the word back replaces just that part of the buffer. */
  lemma {:induction false} SpliceWithin(was: seq<byte>, w: nat, m: nat, bs: seq<byte>)
    requires w + 4 <= |was| && m + |bs| <= 4
    ensures Spliced(was, w, Spliced(was[w..w + 4], m, bs)) == Spliced(was, w + m, bs)
  {
  }

  /** `read_32`: the address must be word aligned and the word inside the buffer. */
  method Read32(buf: array<byte>, base: nat, i: nat) returns (w: u32)
    requires i + 4 <= buf.Length && Aligned(base, i)
    ensures WordBytes(w) == buf[i..i + 4]
    ensures w == BytesWord(buf[i..i + 4])
  {
    BytesWordRoundTrip([buf[i], buf[i + 1], buf[i + 2], buf[i + 3]]);
    assert buf[i..i + 4] == [buf[i], buf[i + 1], buf[i + 2], buf[i + 3]];
    w := BytesWord([buf[i], buf[i + 1], buf[i + 2], buf[i + 3]]);
  }

  /** `read_32` of read-only memory. */
  function Load32(mem: seq<byte>, base: nat, i: nat): (w: u32)
    requires i + 4 <= |mem| && Aligned(base, i)
    ensures WordBytes(w) == mem[i..i + 4]
  {
    BytesWordRoundTrip(mem[i..i + 4]);
    BytesWord(mem[i..i + 4])
  }

  /** `write_32`: changes exactly the four bytes of one aligned word. */
  method Write32(w: u32, buf: array<byte>, base: nat, i: nat)
    requires i + 4 <= buf.Length && Aligned(base, i)
    modifies buf
    ensures buf[..] == Spliced(old(buf[..]), i, WordBytes(w))
  {
    var bs := WordBytes(w);
    buf[i] := bs[0];
    buf[i + 1] := bs[1];
    buf[i + 2] := bs[2];
    buf[i + 3] := bs[3];
  }

  method Write8(b: byte, buf: array<byte>, i: nat)
    requires i < buf.Length
    modifies buf
    ensures buf[..] == Spliced(old(buf[..]), i, [b])
  {
    buf[i] := b;
  }

  /** `memcpy` of a few bytes of a word held in a register. */
  method StoreBytes(bytes: seq<byte>, buf: array<byte>, pos: nat)
    requires pos + |bytes| <= buf.Length
    modifies buf
    ensures buf[..] == Spliced(old(buf[..]), pos, bytes)
  {
    ghost var was := buf[..];
    SpliceNothing(was, pos);
    hide Spliced;
    for k := 0 to |bytes|
      invariant buf[..] == Spliced(was, pos, bytes[..k])
    {
      SpliceNext(was, pos, bytes, k, 1);
      assert bytes[k..k + 1] == [bytes[k]];
      Write8(bytes[k], buf, pos + k);
    }
    assert bytes[..|bytes|] == bytes;
  }
}
