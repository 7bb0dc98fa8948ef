/** Unaligned copies to and from memory-mapped I/O with aligned word accesses only
    (sw/device/lib/base/mmio.c). */
module Mmio {
  import opened Words
  import opened Memory

  /** A region of device memory that can only be accessed a whole aligned word at a time. */
  class MmioRegion {
    var mem: seq<byte>
    ghost var wordReads: nat

    constructor (mem: seq<byte>)
      ensures this.mem == mem && wordReads == 0
    {
      this.mem, wordReads := mem, 0;
    }

    method Read32(offset: nat) returns (bytes: seq<byte>)
      requires offset % 4 == 0 && offset + 4 <= |mem|
      modifies this`wordReads
      ensures bytes == mem[offset..offset + 4] && wordReads == old(wordReads) + 1
    {
      wordReads := wordReads + 1;
      bytes := mem[offset..offset + 4];
    }

    method Write32(offset: nat, bytes: seq<byte>)
      requires offset % 4 == 0 && offset + 4 <= |mem| && |bytes| == 4
      modifies this`mem
      ensures mem == Spliced(old(mem), offset, bytes)
    {
      mem := mem[..offset] + bytes + mem[offset + 4..];
    }
  }

  /** The state of a copy of len bytes after the first pos: mem and buf are what the region and the
      buffer held before it. */
  ghost predicate Copied(fromMmio: bool, mem: seq<byte>, offset: nat, buf: seq<byte>, len: nat, pos: nat,
                         memNow: seq<byte>, bufNow: seq<byte>)
  {
    && offset + len <= |mem| && pos <= len <= |buf|
    && if fromMmio then memNow == mem && bufNow == Spliced(buf, 0, mem[offset..offset + len][..pos])
       else bufNow == buf && memNow == Spliced(mem, offset, buf[..len][..pos])
  }

  /** One step of a copy: n bytes between position m of the word at w and the buffer at pos. */
  ghost predicate Transferred(fromMmio: bool, m: nat, pos: nat, n: nat,
                              mem: seq<byte>, buf: seq<byte>, memNext: seq<byte>, bufNext: seq<byte>)
  {
    && m + n <= |mem| && pos + n <= |buf|
    && if fromMmio then memNext == mem && bufNext == Spliced(buf, pos, mem[m..m + n])
       else bufNext == buf && memNext == Spliced(mem, m, buf[pos..pos + n])
  }

  lemma {:induction false} CopiedNext(fromMmio: bool, mem: seq<byte>, offset: nat, buf: seq<byte>, len: nat, pos: nat,
      n: nat, memNow: seq<byte>, bufNow: seq<byte>, memNext: seq<byte>, bufNext: seq<byte>)
    requires Copied(fromMmio, mem, offset, buf, len, pos, memNow, bufNow) && pos + n <= len
    requires Transferred(fromMmio, offset + pos, pos, n, memNow, bufNow, memNext, bufNext)
    ensures Copied(fromMmio, mem, offset, buf, len, pos + n, memNext, bufNext)
  {
    if fromMmio {
      CopiedOut(mem, offset, buf, len, pos, n);
    } else {
      CopiedIn(mem, offset, buf, len, pos, n);
    }
    hide Spliced;
  }

  lemma {:induction false} CopiedOut(mem: seq<byte>, offset: nat, buf: seq<byte>, len: nat, pos: nat, n: nat)
    requires offset + len <= |mem| && pos + n <= len <= |buf|
    ensures var range := mem[offset..offset + len];
      Spliced(Spliced(buf, 0, range[..pos]), pos, mem[offset + pos..offset + pos + n])
      == Spliced(buf, 0, range[..pos + n])
  {
    SliceOfSlice(mem, offset, offset + len, pos, pos + n);
    hide Spliced;
    SpliceNext(buf, 0, mem[offset..offset + len], pos, n);
  }

  lemma {:induction false} CopiedIn(mem: seq<byte>, offset: nat, buf: seq<byte>, len: nat, pos: nat, n: nat)
    requires offset + len <= |mem| && pos + n <= len <= |buf|
    ensures Spliced(Spliced(mem, offset, buf[..len][..pos]), offset + pos, buf[pos..pos + n])
      == Spliced(mem, offset, buf[..len][..pos + n])
  {
    SliceOfSlice(buf, 0, len, pos, pos + n);
    hide Spliced;
    SpliceNext(mem, offset, buf[..len], pos, n);
  }

  lemma {:induction false} CopyStarts(fromMmio: bool, mem: seq<byte>, offset: nat, buf: seq<byte>, len: nat)
    requires offset + len <= |mem| && len <= |buf|
    ensures Copied(fromMmio, mem, offset, buf, len, 0, mem, buf)
  {
  }

  lemma {:induction false} CopyEnds(fromMmio: bool, mem: seq<byte>, offset: nat, buf: seq<byte>, len: nat,
      memNow: seq<byte>, bufNow: seq<byte>)
    requires Copied(fromMmio, mem, offset, buf, len, len, memNow, bufNow)
    ensures fromMmio ==> memNow == mem && bufNow == Spliced(buf, 0, mem[offset..offset + len])
    ensures !fromMmio ==> bufNow == buf && memNow == Spliced(mem, offset, buf[..len])
  {
    assert mem[offset..offset + len][..len] == mem[offset..offset + len];
    assert buf[..len][..len] == buf[..len];
  }

  /** A word of the region. */
  predicate IsWord(w: nat, size: nat) {
    w % 4 == 0 && w + 4 <= size
  }

  /** One word of the copy. Reading is needed unless the whole word is overwritten. */
  method TransferWord(base: MmioRegion, w: nat, m: nat, n: nat, buf: array<byte>, pos: nat, fromMmio: bool)
    requires IsWord(w, |base.mem|) && m + n <= 4 && pos + n <= buf.Length
    modifies base, buf
    ensures base.wordReads == old(base.wordReads) + if fromMmio || n < 4 then 1 else 0
    ensures Transferred(fromMmio, w + m, pos, n, old(base.mem), old(buf[..]), base.mem, buf[..])
  {
    var currentWord: seq<byte> := [0, 0, 0, 0];
    if fromMmio || n != 4 {
      currentWord := base.Read32(w);
    }
    if fromMmio {
      SliceOfSlice(base.mem, w, w + 4, m, m + n);
      StoreBytes(currentWord[m..m + n], buf, pos);
    } else {
      SpliceWithin(base.mem, w, m, buf[pos..pos + n]);
      currentWord := Spliced(currentWord, m, buf[pos..pos + n]);
      assert n == 4 ==> currentWord == Spliced(base.mem[w..w + 4], m, buf[pos..pos + n]);
      base.Write32(w, currentWord);
    }
  }

  /** The partial word at the start, up to the first word boundary. */
  method CopyHead(base: MmioRegion, offset0: nat, buf: array<byte>, len0: nat, fromMmio: bool) returns (pos: nat)
    requires |base.mem| % 4 == 0 && offset0 + len0 <= |base.mem| && len0 <= buf.Length
    modifies base, buf
    ensures pos <= len0 && (pos < len0 ==> Misalignment32(offset0 + pos) == 0) && |base.mem| == |old(base.mem)|
    ensures Copied(fromMmio, old(base.mem), offset0, old(buf[..]), len0, pos, base.mem, buf[..])
    ensures pos == if offset0 % 4 == 0 then 0 else if offset0 % 4 + len0 < 4 then len0 else 4 - offset0 % 4
    ensures base.wordReads - old(base.wordReads) == if pos > 0 then 1 else 0
  {
    CopyStarts(fromMmio, base.mem, offset0, buf[..], len0);
    pos := 0;
    var misalignment := Misalignment32(offset0);
    HeadArithmetic(offset0, len0, |base.mem|);
    hide Misalignment32, Copied, IsWord;
    if len0 != 0 && misalignment != 0 {
      var realignment := 4 - misalignment;
      if realignment > len0 {
        realignment := len0;
      }
      CopyFirst(base, offset0, misalignment, realignment, buf, len0, fromMmio);
      pos := realignment;
    }
  }

  /** The first n bytes, which lie in one word from its byte m on. */
  method CopyFirst(base: MmioRegion, offset: nat, m: nat, n: nat, buf: array<byte>, ghost len: nat, fromMmio: bool)
    requires m <= offset && IsWord(offset - m, |base.mem|) && m + n <= 4 && n <= len <= buf.Length
    requires offset + len <= |base.mem|
    modifies base, buf
    ensures |base.mem| == |old(base.mem)|
    ensures base.wordReads == old(base.wordReads) + if fromMmio || n < 4 then 1 else 0
    ensures Copied(fromMmio, old(base.mem), offset, old(buf[..]), len, n, base.mem, buf[..])
  {
    ghost var mem, was := base.mem, buf[..];
    var w := offset - m;
    CopyStarts(fromMmio, mem, offset, was, len);
    hide Copied, Transferred, Spliced, IsWord;
    TransferWord(base, w, m, n, buf, 0, fromMmio);
    assert w + m == offset + 0 && 0 + n == n;
    CopiedNext(fromMmio, mem, offset, was, len, 0, n, mem, was, base.mem, buf[..]);
    SameSize(fromMmio, mem, offset, was, len, n, base.mem, buf[..]);
  }

  /** How many words of the region are read: to copy out, each word touched; to copy in, only those overwritten in
      part. */
  function Reads(offset: nat, len: nat, fromMmio: bool): (n: nat) {
    if len == 0 then 0
    else if fromMmio then (offset % 4 + len + 3) / 4
    else (if offset % 4 != 0 then 1 else 0)
         + if (offset + len) % 4 != 0 && (offset % 4 == 0 || offset % 4 + len > 4) then 1 else 0
  }

  /** `mmio_region_memcpy32`: exactly the bytes [offset, offset + len) of the region are copied from or
      to the first len bytes of the buffer, and no word is read that need not be. */
  method Memcpy32(base: MmioRegion, offset0: nat, buf: array<byte>, len0: nat, fromMmio: bool)
    requires |base.mem| % 4 == 0 && offset0 + len0 <= |base.mem| && len0 <= buf.Length
    modifies base, buf
    ensures base.wordReads - old(base.wordReads) == Reads(offset0, len0, fromMmio)
    ensures fromMmio ==> base.mem == old(base.mem)
    ensures fromMmio ==> buf[..] == Spliced(old(buf[..]), 0, old(base.mem)[offset0..offset0 + len0])
    ensures !fromMmio ==> buf[..] == old(buf[..])
    ensures !fromMmio ==> base.mem == Spliced(old(base.mem), offset0, old(buf[..len0]))
  {
    ghost var mem, was := base.mem, buf[..];
    hide Copied, Spliced, Misalignment32;
    var pos := CopyHead(base, offset0, buf, len0, fromMmio);
    CopyRest(base, offset0, buf, len0, pos, fromMmio, mem, was);
    CopyEnds(fromMmio, mem, offset0, was, len0, base.mem, buf[..]);
    ReadsAddUp(offset0, len0, pos, fromMmio);
  }

  lemma {:induction false} HeadArithmetic(offset: nat, len: nat, size: nat)
    requires size % 4 == 0 && offset + len <= size
    ensures var m := Misalignment32(offset);
      && m <= offset && (len > 0 ==> IsWord(offset - m, size))
      && (4 - m < len ==> Misalignment32(offset + (4 - m)) == 0)
  {
    AroundAddress(offset);
    if len > 0 {
      RoomForWord(offset - Misalignment32(offset), size);
    }
  }

  lemma {:induction false} ReadsAddUp(offset: nat, len: nat, pos: nat, fromMmio: bool)
    requires pos == if offset % 4 == 0 then 0 else if offset % 4 + len < 4 then len else 4 - offset % 4
    ensures Reads(offset, len, fromMmio) == (if pos > 0 then 1 else 0) + RestReads(len - pos, fromMmio)
  {
  }

  /** From a word boundary on. */
  function RestReads(len: nat, fromMmio: bool): (n: nat) {
    if fromMmio then (len + 3) / 4 else if len % 4 != 0 then 1 else 0
  }

  /** The full-word part of `mmio_region_memcpy32`. */
  method CopyRest(base: MmioRegion, offset0: nat, buf: array<byte>, len0: nat, pos0: nat, fromMmio: bool,
                  ghost mem: seq<byte>, ghost was: seq<byte>)
    requires |mem| % 4 == 0 && |base.mem| == |mem| && offset0 + len0 <= |mem| && len0 <= buf.Length == |was|
    requires pos0 <= len0 && (pos0 < len0 ==> Misalignment32(offset0 + pos0) == 0)
    requires Copied(fromMmio, mem, offset0, was, len0, pos0, base.mem, buf[..])
    modifies base, buf
    ensures base.wordReads - old(base.wordReads) == RestReads(len0 - pos0, fromMmio)
    ensures Copied(fromMmio, mem, offset0, was, len0, len0, base.mem, buf[..])
  {
    var offset, pos, len := offset0 + pos0, pos0, len0 - pos0;
    hide Misalignment32, Copied, Transferred;
    while len > 0
      invariant offset == offset0 + pos && len + pos == len0 && 0 <= len
      invariant len > 0 ==> Misalignment32(offset) == 0
      invariant len > 0 ==> (pos - pos0) % 4 == 0
      invariant base.wordReads - old(base.wordReads) == RestReads(pos - pos0, fromMmio)
      invariant |base.mem| == |mem| && Copied(fromMmio, mem, offset0, was, len0, pos, base.mem, buf[..])
    {
      var bytesToCopy := 4;
      if bytesToCopy > len {
        bytesToCopy := len;
      }
      ghost var memNow, bufNow := base.mem, buf[..];
      AroundAddress(offset);
      RoomForWord(offset, |mem|);
      TransferWord(base, offset, 0, bytesToCopy, buf, pos, fromMmio);
      CopiedNext(fromMmio, mem, offset0, was, len0, pos, bytesToCopy, memNow, bufNow, base.mem, buf[..]);
      SameSize(fromMmio, mem, offset0, was, len0, pos + bytesToCopy, base.mem, buf[..]);
      offset, pos, len := offset + bytesToCopy, pos + bytesToCopy, len - bytesToCopy;
    }
  }

  lemma {:induction false} SameSize(fromMmio: bool, mem: seq<byte>, offset: nat, buf: seq<byte>, len: nat, pos: nat,
      memNow: seq<byte>, bufNow: seq<byte>)
    requires Copied(fromMmio, mem, offset, buf, len, pos, memNow, bufNow)
    ensures |memNow| == |mem|
  {
  }

  /** `mmio_region_memcpy_from_mmio32` */
  method MemcpyFromMmio32(base: MmioRegion, offset: nat, dest: array<byte>, len: nat)
    requires |base.mem| % 4 == 0 && offset + len <= |base.mem| && len <= dest.Length
    modifies base, dest
    ensures base.mem == old(base.mem)
    ensures base.wordReads - old(base.wordReads) == if len == 0 then 0 else (offset % 4 + len + 3) / 4
    ensures dest[..] == Spliced(old(dest[..]), 0, base.mem[offset..offset + len])
  {
    Memcpy32(base, offset, dest, len, true);
  }

  /** `mmio_region_memcpy_to_mmio32` */
  method MemcpyToMmio32(base: MmioRegion, offset: nat, src: array<byte>, len: nat)
    requires |base.mem| % 4 == 0 && offset + len <= |base.mem| && len <= src.Length
    modifies base, src
    ensures src[..] == old(src[..])
    ensures base.mem == Spliced(old(base.mem), offset, src[..len])
  {
    Memcpy32(base, offset, src, len, false);
  }

  /** Writing a buffer to a device and reading it back gives the same bytes, at any offset. */
  method RoundTrip(base: MmioRegion, offset: nat, src: array<byte>, dest: array<byte>, len: nat)
    requires src != dest && |base.mem| % 4 == 0 && offset + len <= |base.mem| && len <= src.Length && len <= dest.Length
    modifies base, src, dest
    ensures dest[..len] == old(src[..len])
  {
    MemcpyToMmio32(base, offset, src, len);
    assert base.mem[offset..offset + len] == src[..len];
    MemcpyFromMmio32(base, offset, dest, len);
  }
}
