/** FIFO transfers and multi-segment transactions (sw/device/lib/dif/dif_spi_host.c). */
module SpiDriver {
  import opened Words
  import opened Memory
  import opened SpiQueue
  import opened SpiHostHardware

  // ----- writing the transmit queue -----

  lemma {:induction false} FlattenAppend<T>(a: seq<seq<T>>, b: seq<seq<T>>)
    ensures Flatten(a + b) == Flatten(a) + Flatten(b)
  {
    if a == [] {
      assert a + b == b;
    } else {
      FlattenAppend(a[1..], b);
      assert (a + b)[0] == a[0] && (a + b)[1..] == a[1..] + b;
      hide Flatten;
      assert a[0] + Flatten(a[1..] + b) == a[0] + Flatten(a[1..]) + Flatten(b);
    }
  }

  lemma {:induction false} FlattenOne<T>(e: seq<T>)
    ensures Flatten([e]) == e
  {
  }

  /** The entries pushed after the first n hold exactly bytes, and none is empty. */
  ghost predicate Pushed(entries: seq<seq<byte>>, n: nat, bytes: seq<byte>) {
    n <= |entries| && Flatten(entries[n..]) == bytes && forall k :: n <= k < |entries| ==> entries[k] != []
  }

  lemma {:induction false} PushedNext(entries: seq<seq<byte>>, n: nat, src: seq<byte>, i: nat, m: nat)
    requires i + m <= |src| && m > 0 && Pushed(entries, n, src[..i])
    ensures Pushed(entries + [src[i..i + m]], n, src[..i + m])
  {
    var e := src[i..i + m];
    assert (entries + [e])[n..] == entries[n..] + [e];
    FlattenAppend(entries[n..], [e]);
    FlattenOne(e);
    assert src[..i + m] == src[..i] + e;
  }

  /** The bytes before the first word boundary. */
  function HeadBytes(base: nat, len: nat): (n: nat) {
    var n := (4 - base % 4) % 4;
    if n < len then n else len
  }

  /** `dif_spi_host_fifo_write`: exactly the first len bytes are pushed, whatever the alignment, never into a full
      queue, and in whole words but for the bytes before the first and after the last word boundary. src is what the
      source memory holds during the call. */
  method FifoWrite(spi: SpiHost, src: seq<byte>, base: nat, len: nat)
    requires spi.Valid() && len <= |src|
    modifies spi`commandsDone, spi`txDrained, spi`rxFilled, spi`txEntries
    ensures spi.Valid() && old(spi.txEntries) <= spi.txEntries
    ensures Pushed(spi.txEntries, |old(spi.txEntries)|, src[..len])
    ensures var head := HeadBytes(base, len);
      |spi.txEntries| == |old(spi.txEntries)| + head + (len - head) / 4 + (len - head) % 4
  {
    ghost var before := spi.txEntries;
    Starts(spi, src);
    hide Writing, HeadBytes, Aligned;
    var ptr := 0;
    ghost var head, words := HeadBytes(base, len), 0;
    HeadEnds(base, len);
    while !Aligned(base, ptr) && ptr < len
      invariant ptr <= head && Writing(spi, before, src, ptr, ptr)
      decreases len - ptr
    {
      HeadGoesOn(base, len, ptr);
      TxFifoWrite8(spi, src, ptr, before, ptr);
      ptr := ptr + 1;
    }
    while len - ptr > 3
      invariant ptr <= len && (ptr < len ==> Aligned(base, ptr))
      invariant ptr == head + 4 * words && Writing(spi, before, src, ptr, head + words)
    {
      NextAligned(base, ptr);
      TxFifoWrite32(spi, src, base, ptr, before, head + words);
      ptr, words := ptr + 4, words + 1;
    }
    ghost var rest := len - ptr;
    while len - ptr > 0
      invariant ptr <= len && Writing(spi, before, src, ptr, head + words + rest - (len - ptr))
    {
      TxFifoWrite8(spi, src, ptr, before, head + words + rest - (len - ptr));
      ptr := ptr + 1;
    }
    Written(spi, before, src, len, head, words, rest);
  }

  /** The first ptr bytes have been pushed, in this many entries. */
  ghost predicate Writing(spi: SpiHost, before: seq<seq<byte>>, src: seq<byte>, ptr: nat, count: nat)
    reads spi
  {
    && spi.Valid() && before <= spi.txEntries && ptr <= |src|
    && Pushed(spi.txEntries, |before|, src[..ptr]) && |spi.txEntries| == |before| + count
  }

  lemma {:induction false} Starts(spi: SpiHost, src: seq<byte>)
    requires spi.Valid()
    ensures Writing(spi, spi.txEntries, src, 0, 0)
  {
  }

  lemma {:induction false} Written(spi: SpiHost, before: seq<seq<byte>>, src: seq<byte>, len: nat, head: nat,
      words: nat, rest: nat)
    requires Writing(spi, before, src, len, head + words + rest) && len == head + 4 * words + rest && rest < 4
    ensures spi.Valid() && before <= spi.txEntries && len <= |src| && Pushed(spi.txEntries, |before|, src[..len])
    ensures |spi.txEntries| == |before| + head + (len - head) / 4 + (len - head) % 4
  {
    DivModUnique(len - head, 4, words, rest);
  }

  lemma {:induction false} NextAligned(base: nat, ptr: nat)
    requires Aligned(base, ptr)
    ensures Aligned(base, ptr + 4)
  {
  }

  lemma {:induction false} HeadEnds(base: nat, len: nat)
    ensures HeadBytes(base, len) <= len && (HeadBytes(base, len) < len ==> Aligned(base, HeadBytes(base, len)))
  {
  }

  lemma {:induction false} HeadGoesOn(base: nat, len: nat, ptr: nat)
    requires ptr <= HeadBytes(base, len) && ptr < len && !Aligned(base, ptr)
    ensures ptr < HeadBytes(base, len)
  {
  }

  /** `tx_fifo_write8` */
  method TxFifoWrite8(spi: SpiHost, src: seq<byte>, ptr: nat, ghost before: seq<seq<byte>>, ghost count: nat)
    requires ptr < |src| && Writing(spi, before, src, ptr, count)
    modifies spi`commandsDone, spi`txDrained, spi`rxFilled, spi`txEntries
    ensures Writing(spi, before, src, ptr + 1, count + 1)
  {
    spi.WaitTxFifo();
    PushedNext(spi.txEntries, |before|, src, ptr, 1);
    assert src[ptr..ptr + 1] == [src[ptr]];
    hide Pushed;
    spi.WriteTxData([src[ptr]]);
  }

  /** `tx_fifo_write32` */
  method TxFifoWrite32(spi: SpiHost, src: seq<byte>, base: nat, ptr: nat, ghost before: seq<seq<byte>>,
      ghost count: nat)
    requires ptr + 4 <= |src| && Aligned(base, ptr) && Writing(spi, before, src, ptr, count)
    modifies spi`commandsDone, spi`txDrained, spi`rxFilled, spi`txEntries
    ensures Writing(spi, before, src, ptr + 4, count + 1)
  {
    spi.WaitTxFifo();
    PushedNext(spi.txEntries, |before|, src, ptr, 4);
    hide Pushed;
    spi.WriteTxData(WordBytes(Load32(src, base, ptr)));
  }

  // ----- reading the receive queue -----

  /** pos bytes of the words ws have been stored in the destination, n words have been popped, and the
      queue holds the bytes in between. */
  ghost predicate Reading(ws: seq<u32>, n: nat, queue: seq<byte>, was: seq<byte>, now: seq<byte>, pos: nat) {
    && n <= |ws| && pos + |queue| == 4 * n && pos <= |was|
    && queue == WordsBytes(ws)[pos..4 * n]
    && now == Spliced(was, 0, WordsBytes(ws)[..pos])
  }

  lemma {:induction false} WordAt(ws: seq<u32>, n: nat)
    requires n < |ws|
    ensures WordsBytes(ws)[4 * n..4 * n + 4] == WordBytes(ws[n])
  {
    var bs := WordsBytes(ws);
    if n == 0 {
      assert bs == WordBytes(ws[0]) + WordsBytes(ws[1..]);
    } else {
      WordAt(ws[1..], n - 1);
      assert bs == WordBytes(ws[0]) + WordsBytes(ws[1..]);
      assert bs[4 * n..4 * n + 4] == WordsBytes(ws[1..])[4 * (n - 1)..4 * (n - 1) + 4];
    }
  }

  lemma {:induction false} ReadingStarts(ws: seq<u32>, was: seq<byte>)
    ensures Reading(ws, 0, [], was, was, 0)
  {
  }

  lemma {:induction false} ReadingRefill(ws: seq<u32>, n: nat, queue: seq<byte>, was: seq<byte>, now: seq<byte>,
      pos: nat)
    requires Reading(ws, n, queue, was, now, pos) && n < |ws|
    ensures Reading(ws, n + 1, queue + WordBytes(ws[n]), was, now, pos)
  {
    WordAt(ws, n);
    var bs := WordsBytes(ws);
    assert bs[pos..4 * n + 4] == bs[pos..4 * n] + bs[4 * n..4 * n + 4];
  }

  lemma {:induction false} ReadingStore(ws: seq<u32>, n: nat, queue: seq<byte>, was: seq<byte>, now: seq<byte>,
      pos: nat, bs: seq<byte>, rest: seq<byte>)
    requires Reading(ws, n, queue, was, now, pos) && queue == bs + rest && pos + |bs| <= |was|
    ensures Reading(ws, n, rest, was, Spliced(now, pos, bs), pos + |bs|)
  {
    var all := WordsBytes(ws);
    SliceOfSlice(all, pos, 4 * n, 0, |bs|);
    SliceOfSlice(all, pos, 4 * n, |bs|, |queue|);
    assert bs == queue[0..|bs|] && rest == queue[|bs|..|queue|];
    hide Spliced, WordsBytes;
    SpliceNext(was, 0, all, pos, |bs|);
  }

  lemma {:induction false} ReadingEnds(ws: seq<u32>, n: nat, queue: seq<byte>, was: seq<byte>, now: seq<byte>, pos: nat)
    requires Reading(ws, n, queue, was, now, pos) && |queue| < 4
    ensures n == (pos + 3) / 4 && now == Spliced(was, 0, WordsBytes(ws)[..pos])
  {
  }

  /** Another word is due while bytes are wanted and the queue is short. */
  lemma {:induction false} WordDue(ws: seq<u32>, n: nat, queue: seq<byte>, was: seq<byte>, now: seq<byte>, pos: nat,
      m: nat)
    requires Reading(ws, n, queue, was, now, pos)
    ensures |queue| < m && pos + m <= 4 * |ws| ==> n < |ws|
  {
  }

  /** Wait for a word and put it in the queue. */
  method Refill(spi: SpiHost, queue: Queue, ghost start: nat, ghost was: seq<byte>, ghost now: seq<byte>,
      ghost pos: nat)
    requires spi.Valid() && queue.Valid() && queue.length <= 4
    requires start <= spi.rxPopped < |spi.rxStream|
    requires Reading(spi.rxStream[start..], spi.rxPopped - start, queue.Contents(), was, now, pos)
    modifies spi`commandsDone, spi`txDrained, spi`rxFilled, spi`rxPopped, queue`length, queue.data
    ensures spi.Valid() && queue.Valid() && queue.length == old(queue.length) + 4 && start < spi.rxPopped
    ensures Reading(spi.rxStream[start..], spi.rxPopped - start, queue.Contents(), was, now, pos)
  {
    spi.WaitRxFifo();
    ReadingRefill(spi.rxStream[start..], spi.rxPopped - start, queue.Contents(), was, now, pos);
    hide Reading;
    var w := spi.ReadRxData();
    queue.EnqueueWord(w);
  }

  /** The state between two rounds of `dif_spi_host_fifo_read`. */
  ghost predicate BetweenRounds(spi: SpiHost, queue: Queue, dst: array<byte>, start: nat, was: seq<byte>, ptr: nat)
    reads spi, queue, queue.data, dst
  {
    && spi.Valid() && queue.Valid() && queue.length < 4 && queue.data != dst
    && start <= spi.rxPopped <= |spi.rxStream| && dst.Length == |was|
    && Reading(spi.rxStream[start..], spi.rxPopped - start, queue.Contents(), was, dst[..], ptr)
  }

  /** A word is put in the queue unless it already holds the m bytes that are wanted. */
  method Fetch(spi: SpiHost, queue: Queue, dst: array<byte>, ptr: nat, m: nat, ghost start: nat, ghost was: seq<byte>)
    requires BetweenRounds(spi, queue, dst, start, was, ptr) && 0 < m <= 4 && ptr + m <= 4 * (|spi.rxStream| - start)
    modifies spi`commandsDone, spi`txDrained, spi`rxFilled, spi`rxPopped, queue`length, queue.data
    ensures spi.Valid() && queue.Valid() && m <= queue.length < 4 + m && queue.data != dst
    ensures start <= spi.rxPopped <= |spi.rxStream| && dst.Length == |was|
    ensures Reading(spi.rxStream[start..], spi.rxPopped - start, queue.Contents(), was, dst[..], ptr)
  {
    WordDue(spi.rxStream[start..], spi.rxPopped - start, queue.Contents(), was, dst[..], ptr, m);
    hide Reading, Spliced, WordsBytes;
    if queue.length < m {
      Refill(spi, queue, start, was, dst[..], ptr);
    }
  }

  /** One byte of the head or tail loop of `dif_spi_host_fifo_read`. */
  method ReadByte(spi: SpiHost, queue: Queue, dst: array<byte>, ptr: nat, ghost start: nat, ghost was: seq<byte>)
    requires BetweenRounds(spi, queue, dst, start, was, ptr)
    requires ptr < dst.Length && ptr + 1 <= 4 * (|spi.rxStream| - start)
    modifies spi`commandsDone, spi`txDrained, spi`rxFilled, spi`rxPopped, queue`length, queue.data, dst
    ensures BetweenRounds(spi, queue, dst, start, was, ptr + 1)
  {
    ghost var ws := spi.rxStream[start..];
    hide Reading, Spliced, WordsBytes;
    Fetch(spi, queue, dst, ptr, 1, start, was);
    ghost var before := queue.Contents();
    var b := queue.DequeueByte();
    ReadingStore(ws, spi.rxPopped - start, before, was, dst[..], ptr, [b], queue.Contents());
    Write8(b, dst, ptr);
  }

  /** One word of the body loop of `dif_spi_host_fifo_read`. */
  method ReadWord(spi: SpiHost, queue: Queue, dst: array<byte>, base: nat, ptr: nat, ghost start: nat,
      ghost was: seq<byte>)
    requires BetweenRounds(spi, queue, dst, start, was, ptr)
    requires ptr + 4 <= dst.Length && ptr + 4 <= 4 * (|spi.rxStream| - start) && Aligned(base, ptr)
    modifies spi`commandsDone, spi`txDrained, spi`rxFilled, spi`rxPopped, queue`length, queue.data, dst
    ensures BetweenRounds(spi, queue, dst, start, was, ptr + 4)
  {
    ghost var ws := spi.rxStream[start..];
    hide Reading, Spliced, WordsBytes;
    Fetch(spi, queue, dst, ptr, 4, start, was);
    ghost var before := queue.Contents();
    var w := queue.DequeueWord();
    ReadingStore(ws, spi.rxPopped - start, before, was, dst[..], ptr, WordBytes(w), queue.Contents());
    Write32(w, dst, base, ptr);
  }

  /** `dif_spi_host_fifo_read`: the first len bytes of the words due are stored, for any alignment and
      length; ceil(len / 4) words are popped and none from an empty queue. */
  method FifoRead(spi: SpiHost, dst: array<byte>, base: nat, len: nat)
    requires spi.Valid() && len <= dst.Length && spi.rxPopped + (len + 3) / 4 <= |spi.rxStream|
    modifies spi`commandsDone, spi`txDrained, spi`rxFilled, spi`rxPopped, dst
    ensures spi.Valid() && spi.rxPopped == old(spi.rxPopped) + (len + 3) / 4
    ensures dst[..] == Spliced(old(dst[..]), 0, WordsBytes(spi.rxStream[old(spi.rxPopped)..])[..len])
  {
    ghost var was, start := dst[..], spi.rxPopped;
    var queue := new Queue();
    ReadingStarts(spi.rxStream[start..], was);
    assert len <= 4 * (|spi.rxStream| - start);
    ReadRounds(spi, queue, dst, base, len, start, was);
    ReadingEnds(spi.rxStream[start..], spi.rxPopped - start, queue.Contents(), was, dst[..], len);
  }

  /** The three loops of `dif_spi_host_fifo_read`. */
  method ReadRounds(spi: SpiHost, queue: Queue, dst: array<byte>, base: nat, len: nat, ghost start: nat,
      ghost was: seq<byte>)
    requires BetweenRounds(spi, queue, dst, start, was, 0)
    requires len <= dst.Length && len <= 4 * (|spi.rxStream| - start)
    modifies spi`commandsDone, spi`txDrained, spi`rxFilled, spi`rxPopped, queue`length, queue.data, dst
    ensures BetweenRounds(spi, queue, dst, start, was, len)
  {
    hide BetweenRounds;
    var ptr := 0;
    while !Aligned(base, ptr) && ptr < len
      invariant ptr <= len && BetweenRounds(spi, queue, dst, start, was, ptr)
      decreases len - ptr
    {
      ReadByte(spi, queue, dst, ptr, start, was);
      ptr := ptr + 1;
    }
    while len - ptr > 3
      invariant ptr <= len && (ptr < len ==> Aligned(base, ptr))
      invariant BetweenRounds(spi, queue, dst, start, was, ptr)
    {
      ReadWord(spi, queue, dst, base, ptr, start, was);
      ptr := ptr + 4;
    }
    while len - ptr > 0
      invariant ptr <= len && BetweenRounds(spi, queue, dst, start, was, ptr)
    {
      ReadByte(spi, queue, dst, ptr, start, was);
      ptr := ptr + 1;
    }
  }
}
