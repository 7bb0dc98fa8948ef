/** `usbdev_transfer` (scratch_sw/bare_metal/common/platform-usbdev.hh): copying a packet between main
    memory and packet buffer memory, which takes only whole words. */
module UsbTransfer {
  import opened Words
  import opened Memory

  /** A packet is a number of sixteen-byte rounds and a remainder. */
  lemma {:induction false} Unrolled(size: nat)
    ensures size / 16 * 16 + size % 16 == size && size / 16 * 16 % 16 == 0
  {
  }

  lemma {:induction false} RoomForRound(d: nat, end: nat)
    requires d % 4 == 0 && end % 16 == 0 && 4 * d < end
    ensures 4 * d + 16 <= end && (d + 4) % 4 == 0
  {
  }

  /** The first d words of the source have reached the device. */
  ghost predicate CopiedOut(destination: seq<u32>, buffer: seq<u32>, source: seq<byte>, d: nat) {
    4 * d <= |source| && d <= |buffer| && destination == Pack(source[..4 * d]) + buffer[d..]
  }

  lemma {:induction false} CopyWordOut(destination: seq<u32>, buffer: seq<u32>, source: seq<byte>, d: nat)
    requires CopiedOut(destination, buffer, source, d) && 4 * d + 4 <= |source| && d < |buffer|
    ensures CopiedOut(destination[d := BytesWord(source[4 * d..4 * d + 4])], buffer, source, d + 1)
  {
    var w := source[4 * d..4 * d + 4];
    assert source[..4 * d + 4] == source[..4 * d] + w;
    PackAppend(source[..4 * d], w);
    assert w[..4] == w && w[4..] == [];
    assert Pack(w) == [BytesWord(w)];
  }

  /** The tail is collected into one word, its missing bytes zero. */
  lemma {:induction false} CopyTailOut(destination: seq<u32>, buffer: seq<u32>, source: seq<byte>, d: nat, size: nat)
    requires CopiedOut(destination, buffer, source, d) && 4 * d < size < 4 * d + 4 && size <= |source| && d < |buffer|
    ensures destination[d := BytesWord((source[4 * d..size] + [0, 0, 0])[..4])]
      == Pack(source[..size]) + buffer[d + 1..]
  {
    var t := source[4 * d..size];
    assert source[..size] == source[..4 * d] + t;
    PackAppend(source[..4 * d], t);
  }

  lemma {:induction false} TailWord(t: seq<byte>)
    requires 1 <= |t| <= 3
    ensures var b0: int, b1: int, b2: int := t[0], if |t| > 1 then t[1] else 0, if |t| > 2 then t[2] else 0;
      BytesWord((t + [0, 0, 0])[..4]) == b0 + 0x100 * b1 + 0x1_0000 * b2
  {
  }

  /** `*destination++ = *source++`, one word. */
  method CopyWord(buffer: seq<u32>, source: seq<byte>, was: seq<u32>, d: nat) returns (destination: seq<u32>)
    requires CopiedOut(was, buffer, source, d) && |was| == |buffer| && 4 * d + 4 <= |source| && d < |buffer|
    ensures |destination| == |buffer| && CopiedOut(destination, buffer, source, d + 1)
  {
    CopyWordOut(was, buffer, source, d);
    hide CopiedOut;
    destination := was[d := BytesWord(source[4 * d..4 * d + 4])];
  }

  /** Four words a round, then word by word. */
  method CopyWordsOut(buffer: seq<u32>, source: seq<byte>, size0: nat)
      returns (destination: seq<u32>, d: nat, size: nat)
    requires size0 <= |source| && size0 <= 4 * |buffer|
    ensures 4 * d + size == size0 && size < 4 && |destination| == |buffer| && CopiedOut(destination, buffer, source, d)
  {
    var unrollSize := size0 / 16 * 16;
    destination, d := buffer, 0;
    NothingOut(buffer, source);
    Unrolled(size0);
    hide *;
    while 4 * d < unrollSize
      invariant 4 * d <= unrollSize && |destination| == |buffer| && d % 4 == 0
      invariant CopiedOut(destination, buffer, source, d)
    {
      RoomForRound(d, unrollSize);
      destination := CopyWord(buffer, source, destination, d);
      destination := CopyWord(buffer, source, destination, d + 1);
      destination := CopyWord(buffer, source, destination, d + 2);
      destination := CopyWord(buffer, source, destination, d + 3);
      d := d + 4;
    }
    size := size0 % 16;
    while size >= 4
      invariant 4 * d + size == size0 && |destination| == |buffer|
      invariant CopiedOut(destination, buffer, source, d)
      decreases size
    {
      destination := CopyWord(buffer, source, destination, d);
      d := d + 1;
      size := size - 4;
    }
  }

  lemma {:induction false} NothingOut(buffer: seq<u32>, source: seq<byte>)
    ensures CopiedOut(buffer, buffer, source, 0)
  {
  }

  /** Towards the device exactly ceil(size / 4) words are written, the last one padded with zeros. */
  method TransferToDevice(buffer: seq<u32>, source: seq<byte>, size0: nat) returns (destination: seq<u32>)
    requires size0 <= |source| && size0 <= 4 * |buffer|
    ensures destination == Pack(source[..size0]) + buffer[(size0 + 3) / 4..]
  {
    var d, size;
    destination, d, size := CopyWordsOut(buffer, source, size0);
    if size == 0 {
      return;
    }
    var trailingBytes := source[4 * d..size0];
    var partialWord: int := trailingBytes[0];
    if size > 1 {
      var b: int := trailingBytes[1];
      partialWord := partialWord + 0x100 * b;
    }
    if size > 2 {
      var b: int := trailingBytes[2];
      partialWord := partialWord + 0x1_0000 * b;
    }
    TailWord(trailingBytes);
    CopyTailOut(destination, buffer, source, d, size0);
    destination := destination[d := partialWord];
  }

  // ----- from the device -----

  /** The first d words of the device's buffer have reached main memory. */
  ghost predicate CopiedIn(now: seq<byte>, was: seq<byte>, source: seq<u32>, d: nat) {
    d <= |source| && 4 * d <= |was| && now == Spliced(was, 0, WordsBytes(source)[..4 * d])
  }

  lemma {:induction false} CopyWordIn(now: seq<byte>, was: seq<byte>, source: seq<u32>, d: nat)
    requires CopiedIn(now, was, source, d) && d < |source| && 4 * d + 4 <= |was|
    ensures CopiedIn(Spliced(now, 4 * d, WordBytes(source[d])), was, source, d + 1)
  {
    hide WordBytes, WordsBytes, Spliced;
    WordsBytesAt(source, d);
    SpliceNext(was, 0, WordsBytes(source), 4 * d, 4);
  }

  lemma {:induction false} NothingIn(was: seq<byte>, source: seq<u32>)
    ensures CopiedIn(was, was, source, 0)
  {
  }

  /** `*destination++ = *source++`, one word. */
  method StoreWord(destination: array<byte>, source: seq<u32>, d: nat, ghost was: seq<byte>)
    requires CopiedIn(destination[..], was, source, d) && d < |source| && 4 * d + 4 <= destination.Length == |was|
    modifies destination
    ensures CopiedIn(destination[..], was, source, d + 1)
  {
    CopyWordIn(destination[..], was, source, d);
    hide CopiedIn, Spliced, WordBytes;
    Write32(source[d], destination, 0, 4 * d);
  }

  method CopyWordsIn(destination: array<byte>, source: seq<u32>, size0: nat) returns (d: nat, size: nat)
    requires size0 <= destination.Length && size0 <= 4 * |source|
    modifies destination
    ensures 4 * d + size == size0 && size < 4 && CopiedIn(destination[..], old(destination[..]), source, d)
  {
    ghost var was := destination[..];
    var unrollSize := size0 / 16 * 16;
    d := 0;
    NothingIn(was, source);
    Unrolled(size0);
    hide *;
    while 4 * d < unrollSize
      invariant 4 * d <= unrollSize && d % 4 == 0
      invariant CopiedIn(destination[..], was, source, d)
    {
      RoomForRound(d, unrollSize);
      StoreWord(destination, source, d, was);
      StoreWord(destination, source, d + 1, was);
      StoreWord(destination, source, d + 2, was);
      StoreWord(destination, source, d + 3, was);
      d := d + 4;
    }
    size := size0 % 16;
    while size >= 4
      invariant 4 * d + size == size0
      invariant CopiedIn(destination[..], was, source, d)
      decreases size
    {
      StoreWord(destination, source, d, was);
      d := d + 1;
      size := size - 4;
    }
  }

  lemma {:induction false} CopyTailIn(now: seq<byte>, was: seq<byte>, source: seq<u32>, d: nat, size: nat)
    requires CopiedIn(now, was, source, d) && d < |source| && size < 4 && 4 * d + size <= |was|
    ensures Spliced(now, 4 * d, WordBytes(source[d])[..size]) == Spliced(was, 0, WordsBytes(source)[..4 * d + size])
  {
    hide WordBytes, WordsBytes, Spliced;
    WordsBytesAt(source, d);
    SliceOfSlice(WordsBytes(source), 4 * d, 4 * d + 4, 0, size);
    SpliceNext(was, 0, WordsBytes(source), 4 * d, size);
  }

  /** From the device no byte at or past size is written. */
  method TransferFromDevice(destination: array<byte>, source: seq<u32>, size0: nat)
    requires size0 <= destination.Length && size0 <= 4 * |source|
    modifies destination
    ensures destination[..] == Spliced(old(destination[..]), 0, WordsBytes(source)[..size0])
  {
    var d, size := CopyWordsIn(destination, source, size0);
    if size == 0 {
      return;
    }
    var trailingBytes := WordBytes(source[d]);
    CopyTailIn(destination[..], old(destination[..]), source, d, size);
    hide CopiedIn, Spliced, WordBytes;
    StoreBytes(trailingBytes[..size], destination, 4 * d);
  }

  /** Reading back what was sent gives the same bytes, whatever the buffer held before. */
  lemma {:induction false} SendThenReceive(buffer: seq<u32>, data: seq<byte>)
    requires |data| <= 4 * |buffer|
    ensures WordsBytes(Pack(data) + buffer[(|data| + 3) / 4..])[..|data|] == data
  {
    PackedAhead(data, buffer[(|data| + 3) / 4..]);
  }
}
