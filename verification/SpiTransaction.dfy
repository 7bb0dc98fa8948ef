/** Multi-segment transactions (sw/device/lib/dif/dif_spi_host.c). */
module SpiTransaction {
  import opened Words
  import opened Memory
  import opened SpiHostHardware
  import opened SpiDriver

  /** A transmit buffer is the memory it names as read while the segments are issued, before anything
      received is stored; a receive buffer is memory the transaction writes. */
  datatype Segment =
    | Opcode(width: Width, opcode: byte)
    | Address(width: Width, fourBytes: bool, address: u32)
    | Dummy(width: Width, length: nat)
    | Tx(width: Width, txbuf: seq<byte>, txbase: nat, length: nat)
    | Rx(width: Width, rxbuf: array<byte>, rxbase: nat, length: nat)
    | Bidir(width: Width, txbuf: seq<byte>, txbase: nat, rxbuf: array<byte>, rxbase: nat, length: nat)
    | OtherType

  datatype DifResult = Ok | BadArg

  predicate Sends(s: Segment) {
    s.Tx? || s.Bidir?
  }

  predicate Reads(s: Segment) {
    s.Rx? || s.Bidir?
  }

  /** `(uint16_t)length`: the bytes a data segment moves between memory and the queues. */
  function Count(s: Segment): (n: nat) {
    if Sends(s) || Reads(s) then s.length % 0x1_0000 else 0
  }

  /** What a data segment moves fits its buffers. */
  predicate WellFormed(s: Segment) {
    (Sends(s) ==> Count(s) <= |s.txbuf|) && (Reads(s) ==> Count(s) <= s.rxbuf.Length)
  }

  predicate AllWellFormed(segs: seq<Segment>) {
    forall i :: 0 <= i < |segs| ==> WellFormed(segs[i])
  }

  lemma {:induction false} WellFormedAt(segs: seq<Segment>, i: nat)
    requires AllWellFormed(segs) && i < |segs|
    ensures WellFormed(segs[i])
  {
  }

  // ----- what a transaction means -----

  /** `(uint16_t)length` as the hardware counts it. */
  function Cycles(length: nat): (n: nat) {
    if length % 0x1_0000 == 0 then 0x10_0000 else length % 0x1_0000
  }

  /** The command a segment stands for: one each, but none for a dummy segment of no cycles. */
  function SegmentCommands(s: Segment, last: bool): (cs: seq<Command>)
    ensures |cs| <= 1
  {
    match s
    case Opcode(w, _) => [Command(1, w, Transmit, !last)]
    case Address(w, four, _) => [Command(if four then 4 else 3, w, Transmit, !last)]
    case Dummy(w, n) => if n > 0 then [Command(Cycles(n), w, DummyCycles, !last)] else []
    case Tx(w, _, _, n) => [Command(Cycles(n), w, Transmit, !last)]
    case Rx(w, _, _, n) => [Command(Cycles(n), w, Receive, !last)]
    case Bidir(w, _, _, _, _, n) => [Command(Cycles(n), w, Bidirectional, !last)]
    case OtherType => []
  }

  /** Each segment but an empty dummy asks for its own width, direction and length, where the hardware counts a
      multiple of 65536 as 2^20. */
  lemma {:induction false} CommandMeant(s: Segment, last: bool)
    ensures SegmentCommands(s, last) == [] <==> s.OtherType? || (s.Dummy? && s.length == 0)
    ensures SegmentCommands(s, last) != [] ==>
              var c := SegmentCommands(s, last)[0];
      && c.width == s.width && c.csaat == !last && (Receives(c) <==> s.Rx? || s.Bidir?)
      && (Transmits(c) <==> s.Opcode? || s.Address? || s.Tx? || s.Bidir?)
      && c.len == if s.Opcode? then 1
                  else if s.Address? then (if s.fourBytes then 4 else 3)
                  else if s.length % 0x1_0000 == 0 then 0x10_0000
                  else s.length % 0x1_0000
  {
  }

  /** The commands of the first n segments of a transaction; only its very last segment releases chip select. */
  function Commands(segs: seq<Segment>, n: nat): (cs: seq<Command>)
    requires n <= |segs|
  {
    if n == 0 then [] else Commands(segs, n - 1) + SegmentCommands(segs[n - 1], n == |segs|)
  }

  /** The four bytes of an address, most significant first. */
  function BigEndianBytes(a: u32): (bs: seq<byte>)
    ensures |bs| == 4
  {
    var le := WordBytes(a);
    [le[3], le[2], le[1], le[0]]
  }


  /** The commands from segment i on. */
  function CommandsFrom(segs: seq<Segment>, i: nat): (cs: seq<Command>)
    requires i <= |segs|
    decreases |segs| - i
  {
    if i == |segs| then [] else SegmentCommands(segs[i], i + 1 == |segs|) + CommandsFrom(segs, i + 1)
  }

  /** The bytes a segment has for the wire. */
  function SegmentWire(s: Segment): (bytes: seq<byte>)
    requires WellFormed(s)
  {
    match s
    case Opcode(_, op) => [op]
    case Address(_, four, a) => if four then BigEndianBytes(a) else BigEndianBytes(a)[1..]
    case Tx(_, buf, _, _) => buf[..Count(s)]
    case Bidir(_, buf, _, _, _, _) => buf[..Count(s)]
    case _ => []
  }

  /** The number that bytes denote, the most significant first. */
  function Number(bytes: seq<byte>): (n: nat) {
    if bytes == [] then 0
    else
      var low: int := bytes[|bytes| - 1];
      256 * Number(bytes[..|bytes| - 1]) + low
  }

  lemma {:induction false} NumberNext(bytes: seq<byte>, b: byte)
    ensures var low: int := b;
      Number(bytes + [b]) == 256 * Number(bytes) + low
  {
    assert (bytes + [b])[..|bytes|] == bytes;
  }

  lemma {:induction false} NumberOne(b: byte)
    ensures Number([b]) == b
  {
    NumberNext([], b);
    assert [] + [b] == [b];
  }

  /** An address goes out most significant byte first; in three-byte mode its top byte is left out. */
  lemma {:induction false} AddressOnWire(s: Segment)
    requires s.Address?
    ensures |SegmentWire(s)| == if s.fourBytes then 4 else 3
    ensures Number(SegmentWire(s)) == if s.fourBytes then s.address else s.address % 0x100_0000
  {
    var le := WordBytes(s.address);
    WordBytesRoundTrip(s.address);
    var w0: int, w1: int, w2: int, w3: int := le[0], le[1], le[2], le[3];
    assert s.address == w0 + 256 * (w1 + 256 * (w2 + 256 * w3));
    var high := if s.fourBytes then [le[3]] else [];
    NumberOne(le[3]);
    NumberNext(high, le[2]);
    NumberNext(high + [le[2]], le[1]);
    NumberNext(high + [le[2]] + [le[1]], le[0]);
    assert SegmentWire(s) == high + [le[2]] + [le[1]] + [le[0]];
    hide Number, WordBytes, BytesWord;
  }

  /** The bytes of the segments from segment i on. */
  function TransactionWire(segs: seq<Segment>, i: nat): (bytes: seq<byte>)
    requires AllWellFormed(segs) && i <= |segs|
    decreases |segs| - i
  {
    if i == |segs| then [] else SegmentWire(segs[i]) + TransactionWire(segs, i + 1)
  }

  /** The bytes the device answers during a segment. */
  function AnswerLength(s: Segment): (n: nat) {
    if Reads(s) then Cycles(s.length) else 0
  }

  /** The bytes of them that are stored. */
  function StoredLength(s: Segment): (n: nat)
    ensures n <= AnswerLength(s)
  {
    if Reads(s) then Count(s) else 0
  }

  /** How far into the device's answer the first n segments reach. */
  function MisoAfter(segs: seq<Segment>, n: nat, from: nat): (m: nat)
    requires n <= |segs|
  {
    if n == 0 then from else MisoAfter(segs, n - 1, from) + AnswerLength(segs[n - 1])
  }

  /** The device's answer during segment i. */
  function Answer(segs: seq<Segment>, i: nat, from: nat, miso: nat -> byte): (bytes: seq<byte>)
    requires i < |segs|
    ensures |bytes| == AnswerLength(segs[i])
  {
    MisoBytes(miso, MisoAfter(segs, i, from), AnswerLength(segs[i]))
  }

  function WordsDue(segs: seq<Segment>, n: nat, from: nat, miso: nat -> byte): (ws: seq<u32>)
    requires n <= |segs|
  {
    if n == 0 then [] else WordsDue(segs, n - 1, from, miso) + Pack(Answer(segs, n - 1, from, miso))
  }

  /** How many words are read back for the first n segments. */
  function Popped(segs: seq<Segment>, n: nat): (m: nat)
    requires n <= |segs|
  {
    if n == 0 then 0 else Popped(segs, n - 1) + (StoredLength(segs[n - 1]) + 3) / 4
  }

  /** What is read back for segment i when these words are there to be read. */
  function Fetched(segs: seq<Segment>, i: nat, words: seq<u32>): (bytes: seq<byte>)
    requires i < |segs| && Popped(segs, i + 1) <= |words|
    ensures |bytes| == StoredLength(segs[i])
  {
    WordsBytes(words[Popped(segs, i)..])[..StoredLength(segs[i])]
  }

  function RxBuffers(segs: seq<Segment>): (bufs: set<array<byte>>) {
    set i | 0 <= i < |segs| && Reads(segs[i]) :: segs[i].rxbuf
  }

  /** A receiving segment that names a buffer replaces its first bytes by exactly what was read back. */
  function Stored(s: Segment, bytes: seq<byte>, buf: array<byte>, was: seq<byte>): (now: seq<byte>)
    requires WellFormed(s) && |bytes| == StoredLength(s) && |was| == buf.Length
    ensures |now| == |was|
  {
    if Reads(s) && s.rxbuf == buf then Spliced(was, 0, bytes) else was
  }

  /** What a buffer holds once the first n segments have been read into memory. */
  function Delivered(segs: seq<Segment>, n: nat, buf: array<byte>, was: seq<byte>, words: seq<u32>): (now: seq<byte>)
    requires AllWellFormed(segs) && n <= |segs| && |was| == buf.Length && Popped(segs, n) <= |words|
    ensures |now| == |was|
  {
    if n == 0 then was
    else Stored(segs[n - 1], Fetched(segs, n - 1, words), buf, Delivered(segs, n - 1, buf, was, words))
  }

  // ----- transmit queue bookkeeping -----

  /** The entries hold exactly what the commands take. */
  ghost predicate Feeds(commands: seq<Command>, entries: seq<seq<byte>>) {
    if commands == [] then entries == []
    else if Transmits(commands[0]) then
      |Flatten(entries)| >= commands[0].len && Feeds(commands[1..], Unsent(entries, commands[0].len))
    else Feeds(commands[1..], entries)
  }

  lemma {:induction false} SentAppend(a: seq<seq<byte>>, b: seq<seq<byte>>, n: nat)
    requires |Flatten(a)| >= n
    ensures Sent(a + b, n) == Sent(a, n) && Unsent(a + b, n) == Unsent(a, n) + b
  {
    if n != 0 {
      assert (a + b)[1..] == a[1..] + b;
      if |a[0]| < n {
        SentAppend(a[1..], b, n - |a[0]|);
      }
    }
  }

  lemma {:induction false} FeedsAppend(c1: seq<Command>, e1: seq<seq<byte>>, c2: seq<Command>, e2: seq<seq<byte>>)
    requires Feeds(c1, e1)
    ensures Feeds(c1 + c2, e1 + e2) <==> Feeds(c2, e2)
    ensures Wire(c1 + c2, e1 + e2) == Wire(c1, e1) + Wire(c2, e2)
  {
    if c1 == [] {
      assert c1 + c2 == c2 && e1 + e2 == e2;
    } else {
      var c := c1[0];
      assert (c1 + c2)[1..] == c1[1..] + c2 && (c1 + c2)[0] == c;
      if Transmits(c) {
        SentAppend(e1, e2, c.len);
        FlattenAppend(e1, e2);
        FeedsAppend(c1[1..], Unsent(e1, c.len), c2, e2);
      } else {
        FeedsAppend(c1[1..], e1, c2, e2);
      }
    }
  }

  lemma {:induction false} SentAll(entries: seq<seq<byte>>, n: nat)
    requires |Flatten(entries)| == n && forall k :: 0 <= k < |entries| ==> entries[k] != []
    ensures Sent(entries, n) == Flatten(entries) && Unsent(entries, n) == []
  {
    if entries != [] {
      SentAll(entries[1..], n - |entries[0]|);
      FlattenNonempty(entries[1..]);
      assert |entries| > 1 ==> entries[1..][0] == entries[1];
    }
  }

  lemma {:induction false} FlattenNonempty(entries: seq<seq<byte>>)
    ensures |entries| > 0 && entries[0] != [] ==> |Flatten(entries)| > 0
  {
  }

  /** One command and what was pushed for it. */
  ghost predicate Issues(c: seq<Command>, entries: seq<seq<byte>>, wire: seq<byte>) {
    Feeds(c, entries) && Wire(c, entries) == wire
  }

  lemma {:induction false} DataIssues(c: Command, entries: seq<seq<byte>>, bytes: seq<byte>)
    requires Transmits(c) && Pushed(entries, 0, bytes) && |bytes| == c.len
    ensures Issues([c], entries, bytes)
  {
    assert entries[0..] == entries;
    SentAll(entries, c.len);
    assert [c][1..] == [];
  }

  lemma {:induction false} QuietIssues(c: Command)
    requires !Transmits(c)
    ensures Issues([c], [], [])
  {
  }

  /** A single entry of which a command takes the first n bytes. */
  lemma {:induction false} EntryIssues(c: Command, entry: seq<byte>)
    requires Transmits(c) && 0 < c.len <= |entry|
    ensures Issues([c], [entry], entry[..c.len])
  {
  }

  /** What is pushed for a segment: an address is one entry whatever its length. */
  ghost predicate EntriesOf(s: Segment, entries: seq<seq<byte>>)
    requires WellFormed(s)
  {
    match s
    case Opcode(_, op) => entries == [[op]]
    case Address(_, four, a) => entries == [if four then BigEndianBytes(a) else BigEndianBytes(a)[1..] + [0]]
    case Tx(_, buf, _, _) => Pushed(entries, 0, buf[..Count(s)])
    case Bidir(_, buf, _, _, _, _) => Pushed(entries, 0, buf[..Count(s)])
    case _ => entries == []
  }

  /** The command of a segment takes no more than what was pushed for it. */
  predicate TakesItsOwn(s: Segment) {
    Sends(s) ==> Count(s) != 0
  }

  lemma {:induction false} SegmentIssues(s: Segment, last: bool, entries: seq<seq<byte>>)
    requires WellFormed(s) && TakesItsOwn(s) && EntriesOf(s, entries)
    ensures Issues(SegmentCommands(s, last), entries, SegmentWire(s))
  {
    var cs := SegmentCommands(s, last);
    match s
    case Opcode(_, op) => EntryIssues(cs[0], [op]);
    case Address(_, four, a) => EntryIssues(cs[0], entries[0]);
    case Tx(_, buf, _, _) => DataIssues(cs[0], entries, buf[..Count(s)]);
    case Bidir(_, buf, _, _, _, _) => DataIssues(cs[0], entries, buf[..Count(s)]);
    case Rx(_, _, _, _) => QuietIssues(cs[0]);
    case Dummy(_, n) => if n > 0 { QuietIssues(cs[0]); }
    case OtherType =>
  }

  /** A command takes whole entries, and does not stop before it has what it needs. */
  lemma {:induction false} UnsentDrops(entries: seq<seq<byte>>, j: nat, n: nat) returns (m: nat)
    requires j < |entries| && |Flatten(entries[..j])| < n <= |Flatten(entries)|
    ensures j < m <= |entries| && Unsent(entries, n) == entries[m..]
  {
    if j > 0 {
      assert entries[..j][0] == entries[0] && entries[..j][1..] == entries[1..][..j - 1];
    }
    if |entries[0]| >= n {
      m := 1;
    } else {
      var k := if j == 0 then 0 else j - 1;
      assert j == 0 ==> entries[1..][..k] == [];
      var q := UnsentDrops(entries[1..], k, n - |entries[0]|);
      m := q + 1;
    }
  }

  // ----- when every command gets its bytes -----

  /** es[j] was pushed for segment j. */
  ghost predicate PushedFor(segs: seq<Segment>, es: seq<seq<seq<byte>>>)
    requires AllWellFormed(segs)
  {
    |es| <= |segs| && forall j :: 0 <= j < |es| ==> EntriesOf(segs[j], es[j])
  }

  predicate AllTakeTheirOwn(segs: seq<Segment>, i: nat) {
    forall j :: i <= j < |segs| ==> TakesItsOwn(segs[j])
  }

  /** Once some of the entries have gone to earlier commands, those left are not enough. */
  lemma {:induction false} Starves(segs: seq<Segment>, i: nat, es: seq<seq<seq<byte>>>, k: nat)
    requires AllWellFormed(segs) && PushedFor(segs, es) && |es| == |segs| && i <= |segs|
    requires 0 < k <= |Flatten(es[i..])|
    ensures !Feeds(CommandsFrom(segs, i), Flatten(es[i..])[k..])
    decreases |segs| - i
  {
    var all := Flatten(es[i..]);
    var cs, more, rest := SegmentCommands(segs[i], i + 1 == |segs|), CommandsFrom(segs, i + 1), Flatten(es[i + 1..]);
    assert es[i..][1..] == es[i + 1..] && all == es[i] + rest && EntriesOf(segs[i], es[i]);
    if cs == [] || !Transmits(cs[0]) {
      assert all == rest && cs + more == if cs == [] then more else cs + more;
      Starves(segs, i + 1, es, k);
      assert cs != [] ==> (cs + more)[1..] == more;
    } else {
      assert (cs + more)[0] == cs[0] && (cs + more)[1..] == more;
      if |Flatten(all[k..])| >= cs[0].len {
        var m := TakesFromRest(segs[i], i + 1 == |segs|, es[i], rest, k);
        assert Unsent(all[k..], cs[0].len) == rest[m..];
        Starves(segs, i + 1, es, m);
      }
    }
  }

  /** A command that finds some of its own entries gone takes some of the next ones. */
  lemma {:induction false} TakesFromRest(s: Segment, last: bool, own: seq<seq<byte>>, rest: seq<seq<byte>>, k: nat)
      returns (m: nat)
    requires WellFormed(s) && EntriesOf(s, own) && k <= |own| + |rest| && (k > 0 || !TakesItsOwn(s))
    requires var cs := SegmentCommands(s, last);
      cs != [] && Transmits(cs[0]) && |Flatten((own + rest)[k..])| >= cs[0].len
    ensures var cs := SegmentCommands(s, last);
      0 < m <= |rest| && Unsent((own + rest)[k..], cs[0].len) == rest[m..]
  {
    var n := SegmentCommands(s, last)[0].len;
    OwnAreTooFew(s, last, own, k);
    hide SegmentCommands, EntriesOf, Flatten, Unsent, WellFormed;
    if k < |own| {
      assert (own + rest)[k..] == own[k..] + rest;
      m := RestDrops(own[k..], rest, n);
    } else {
      assert (own + rest)[k..] == [] + rest[k - |own|..];
      m := RestDrops([], rest[k - |own|..], n);
      assert rest[k - |own|..][m..] == rest[k - |own| + m..];
      m := k - |own| + m;
    }
  }

  lemma {:induction false} RestDrops(own: seq<seq<byte>>, rest: seq<seq<byte>>, n: nat) returns (m: nat)
    requires |Flatten(own)| < n <= |Flatten(own + rest)|
    ensures 0 < m <= |rest| && Unsent(own + rest, n) == rest[m..]
  {
    FlattenAppend(own, rest);
    assert rest != [];
    hide Flatten, Unsent;
    assert (own + rest)[..|own|] == own;
    var q := UnsentDrops(own + rest, |own|, n);
    m := q - |own|;
    assert (own + rest)[q..] == rest[m..];
  }

  lemma {:induction false} OwnAreTooFew(s: Segment, last: bool, own: seq<seq<byte>>, k: nat)
    requires WellFormed(s) && EntriesOf(s, own) && (k > 0 || !TakesItsOwn(s))
    requires SegmentCommands(s, last) != []
    ensures |Flatten(if k < |own| then own[k..] else [])| < SegmentCommands(s, last)[0].len
  {
    if k < |own| && Sends(s) {
      assert own[0..] == own && own == own[..k] + own[k..];
      FlattenAppend(own[..k], own[k..]);
      if k > 0 {
        assert own[..k][0] == own[0] != [];
        FlattenNonempty(own[..k]);
      }
    }
  }

  /** Every command gets what it takes exactly when no segment transmits a multiple of 65536 bytes, and then the
      wire carries the segments' bytes in order. */
  lemma {:induction false} FedExactly(segs: seq<Segment>, i: nat, es: seq<seq<seq<byte>>>)
    requires AllWellFormed(segs) && PushedFor(segs, es) && |es| == |segs| && i <= |segs|
    ensures Feeds(CommandsFrom(segs, i), Flatten(es[i..])) <==> AllTakeTheirOwn(segs, i)
    ensures AllTakeTheirOwn(segs, i) ==>
              Wire(CommandsFrom(segs, i), Flatten(es[i..])) == TransactionWire(segs, i)
    decreases |segs| - i
  {
    if i < |segs| {
      var cs, more, rest := SegmentCommands(segs[i], i + 1 == |segs|), CommandsFrom(segs, i + 1), Flatten(es[i + 1..]);
      assert es[i..][1..] == es[i + 1..] && Flatten(es[i..]) == es[i] + rest && EntriesOf(segs[i], es[i]);
      FedExactly(segs, i + 1, es);
      if TakesItsOwn(segs[i]) {
        SegmentIssues(segs[i], i + 1 == |segs|, es[i]);
        FeedsAppend(cs, es[i], more, rest);
      } else {
        Overdraws(segs, i, es);
      }
    }
  }

  lemma {:induction false} Overdraws(segs: seq<Segment>, i: nat, es: seq<seq<seq<byte>>>)
    requires AllWellFormed(segs) && PushedFor(segs, es) && |es| == |segs| && i < |segs| && !TakesItsOwn(segs[i])
    ensures !Feeds(CommandsFrom(segs, i), Flatten(es[i..]))
  {
    var cs, more, rest := SegmentCommands(segs[i], i + 1 == |segs|), CommandsFrom(segs, i + 1), Flatten(es[i + 1..]);
    var all := Flatten(es[i..]);
    assert es[i..][1..] == es[i + 1..] && all == es[i] + rest && EntriesOf(segs[i], es[i]);
    assert (cs + more)[0] == cs[0] && (cs + more)[1..] == more && all[0..] == all;
    if |Flatten(all)| >= cs[0].len {
      var m := TakesFromRest(segs[i], i + 1 == |segs|, es[i], rest, 0);
      Starves(segs, i + 1, es, m);
    }
  }

  lemma {:induction false} CommandsSplit(segs: seq<Segment>, i: nat)
    requires i <= |segs|
    ensures Commands(segs, |segs|) == Commands(segs, i) + CommandsFrom(segs, i)
    decreases |segs| - i
  {
    if i < |segs| {
      CommandsSplit(segs, i + 1);
      hide SegmentCommands;
    }
  }

  /** The entries are those pushed for the first n segments. */
  ghost predicate AllPushed(segs: seq<Segment>, n: nat, entries: seq<seq<byte>>)
    requires AllWellFormed(segs)
  {
    exists es: seq<seq<seq<byte>>> :: |es| == n && PushedFor(segs, es) && Flatten(es) == entries
  }

  lemma {:induction false} PushedMore(segs: seq<Segment>, n: nat, entries: seq<seq<byte>>, more: seq<seq<byte>>)
    requires AllWellFormed(segs) && n < |segs| && AllPushed(segs, n, entries) && EntriesOf(segs[n], more)
    ensures AllPushed(segs, n + 1, entries + more)
  {
    var es :| |es| == n && PushedFor(segs, es) && Flatten(es) == entries;
    FlattenAppend(es, [more]);
    FlattenOne(more);
    assert PushedFor(segs, es + [more]);
  }

  /** The wire of a whole transaction. */
  lemma {:induction false} WireExactly(segs: seq<Segment>, entries: seq<seq<byte>>)
    requires AllWellFormed(segs) && AllPushed(segs, |segs|, entries)
    ensures Feeds(Commands(segs, |segs|), entries) <==> AllTakeTheirOwn(segs, 0)
    ensures AllTakeTheirOwn(segs, 0) ==> Wire(Commands(segs, |segs|), entries) == TransactionWire(segs, 0)
  {
    var es :| |es| == |segs| && PushedFor(segs, es) && Flatten(es) == entries;
    assert es[0..] == es;
    CommandsSplit(segs, 0);
    assert Commands(segs, 0) + CommandsFrom(segs, 0) == CommandsFrom(segs, 0);
    hide Feeds, Wire, Flatten, TransactionWire;
    FedExactly(segs, 0, es);
  }

  /** A transmit segment of no bytes takes the opcode that follows it, and the opcode's own command gets nothing. */
  lemma {:induction false} EmptyTransmit(width: Width, base: nat, op: byte)
    ensures var segs := [Tx(width, [], base, 0), Opcode(width, op)];
      AllWellFormed(segs) && AllPushed(segs, 2, [[op]]) && !Feeds(Commands(segs, 2), [[op]])
  {
    var segs := [Tx(width, [], base, 0), Opcode(width, op)];
    assert AllWellFormed(segs) && Flatten([[], [[op]]]) == [[op]] && PushedFor(segs, [[], [[op]]]) by {
      assert EntriesOf(segs[0], []) && EntriesOf(segs[1], [[op]]);
      FlattenOne([[op]]);
    }
    assert !TakesItsOwn(segs[0]);
    WireExactly(segs, [[op]]);
  }

  // ----- issuing segments -----

  /** The parts of the peripheral's state that issuing a segment adds to. */
  datatype Queues = Queues(commands: seq<Command>, entries: seq<seq<byte>>, stream: seq<u32>, used: nat)

  ghost function QueuesOf(spi: SpiHost): (q: Queues)
    reads spi
  {
    Queues(spi.commands, spi.txEntries, spi.rxStream, spi.misoUsed)
  }

  /** What issuing one segment adds: its command, its transmit entries and the words now due. */
  ghost predicate Issued(was: Queues, now: Queues, s: Segment, last: bool, miso: nat -> byte)
    requires WellFormed(s)
  {
    && was.commands <= now.commands && was.entries <= now.entries
    && now.commands[|was.commands|..] == SegmentCommands(s, last)
    && EntriesOf(s, now.entries[|was.entries|..])
    && now.stream == was.stream + Pack(MisoBytes(miso, was.used, AnswerLength(s)))
    && now.used == was.used + AnswerLength(s)
  }

  /** `write_command_reg` */
  method WriteCommandReg(spi: SpiHost, length: u16, speed: Width, direction: Direction, lastSegment: bool)
    requires spi.Valid() && |spi.commands| < spi.commandsDone + CMD_DEPTH
    modifies spi`commands, spi`rxStream, spi`misoUsed
    ensures spi.Valid()
    ensures var c := Command(if length == 0 then 0x10_0000 else length, speed, direction, !lastSegment);
      && spi.commands == old(spi.commands) + [c]
      && spi.rxStream == old(spi.rxStream)
         + (if Receives(c) then Pack(MisoBytes(spi.miso, old(spi.misoUsed), c.len)) else [])
      && spi.misoUsed == old(spi.misoUsed) + (if Receives(c) then c.len else 0)
  {
    CommandRoundTrip(length, speed, direction, lastSegment);
    hide Decode, CommandReg;
    spi.WriteCommand(CommandReg(length, speed, direction, lastSegment));
  }

  lemma {:induction false} NothingReceived(miso: nat -> byte, from: nat)
    ensures Pack(MisoBytes(miso, from, 0)) == []
  {
  }

  /** `issue_opcode` */
  method IssueOpcode(spi: SpiHost, s: Segment, lastSegment: bool)
    requires spi.Valid() && s.Opcode? && |spi.commands| < spi.commandsDone + CMD_DEPTH
    modifies spi`commands, spi`commandsDone, spi`txEntries, spi`txDrained, spi`rxStream, spi`rxFilled, spi`misoUsed
    ensures spi.Valid() && Issued(old(QueuesOf(spi)), QueuesOf(spi), s, lastSegment, spi.miso)
  {
    spi.WaitTxFifo();
    spi.WriteTxData([s.opcode]);
    WriteCommandReg(spi, 1, s.width, Transmit, lastSegment);
    NothingReceived(spi.miso, old(spi.misoUsed));
  }

  /** `issue_address`: big-endian on the wire; in three-byte mode the fourth byte pushed is discarded. */
  method IssueAddress(spi: SpiHost, s: Segment, lastSegment: bool)
    requires spi.Valid() && s.Address? && |spi.commands| < spi.commandsDone + CMD_DEPTH
    modifies spi`commands, spi`commandsDone, spi`txEntries, spi`txDrained, spi`rxStream, spi`rxFilled, spi`misoUsed
    ensures spi.Valid() && Issued(old(QueuesOf(spi)), QueuesOf(spi), s, lastSegment, spi.miso)
  {
    spi.WaitTxFifo();
    var address := Byteswap32(s.address);
    var length: u16;
    if s.fourBytes {
      length := 4;
    } else {
      length := 3;
      ShiftOutTop(s.address);
      address := address / 0x100;
    }
    spi.WriteTxData(WordBytes(address));
    WriteCommandReg(spi, length, s.width, Transmit, lastSegment);
    NothingReceived(spi.miso, old(spi.misoUsed));
    assert spi.txEntries[|old(spi.txEntries)|..] == [WordBytes(address)];
  }

  /** `bitfield_byteswap32` */
  function Byteswap32(a: u32): (r: u32)
    ensures WordBytes(r) == BigEndianBytes(a)
  {
    BytesWordRoundTrip(BigEndianBytes(a));
    BytesWord(BigEndianBytes(a))
  }

  lemma {:induction false} ShiftOutTop(a: u32)
    ensures WordBytes(Byteswap32(a) / 0x100) == BigEndianBytes(a)[1..] + [0]
  {
  }

  /** `issue_dummy`: no command at all for zero cycles. */
  method IssueDummy(spi: SpiHost, s: Segment, lastSegment: bool)
    requires spi.Valid() && s.Dummy? && |spi.commands| < spi.commandsDone + CMD_DEPTH
    modifies spi`commands, spi`commandsDone, spi`txEntries, spi`txDrained, spi`rxStream, spi`rxFilled, spi`misoUsed
    ensures spi.Valid() && Issued(old(QueuesOf(spi)), QueuesOf(spi), s, lastSegment, spi.miso)
  {
    NothingReceived(spi.miso, spi.misoUsed);
    if s.length > 0 {
      WriteCommandReg(spi, s.length % 0x1_0000, s.width, DummyCycles, lastSegment);
    }
  }

  /** `issue_data_phase` */
  method IssueDataPhase(spi: SpiHost, s: Segment, lastSegment: bool)
    requires spi.Valid() && WellFormed(s) && (s.Tx? || s.Rx? || s.Bidir?)
    requires |spi.commands| < spi.commandsDone + CMD_DEPTH
    modifies spi`commands, spi`commandsDone, spi`txEntries, spi`txDrained, spi`rxStream, spi`rxFilled, spi`misoUsed
    ensures spi.Valid() && Issued(old(QueuesOf(spi)), QueuesOf(spi), s, lastSegment, spi.miso)
  {
    var direction := if s.Tx? then Transmit else if s.Rx? then Receive else Bidirectional;
    NothingReceived(spi.miso, spi.misoUsed);
    WriteCommandReg(spi, s.length % 0x1_0000, s.width, direction, lastSegment);
    if !s.Rx? {
      ghost var n := |spi.txEntries|;
      FifoWrite(spi, s.txbuf, s.txbase, s.length % 0x1_0000);
      assert spi.txEntries[n..][0..] == spi.txEntries[n..];
    }
  }

  // ----- the transaction -----

  predicate HasOther(segs: seq<Segment>) {
    exists i :: 0 <= i < |segs| && segs[i].OtherType?
  }

  /** Only the segments before the first one of another type have been issued. */
  ghost predicate Stopped(segs: seq<Segment>, cs: seq<Command>, entries: seq<seq<byte>>)
    requires AllWellFormed(segs)
  {
    exists n | 0 <= n < |segs| :: segs[n].OtherType? && !HasOther(segs[..n])
                                  && cs == Commands(segs, n) && AllPushed(segs, n, entries)
  }

  /** The switch of the first loop of `dif_spi_host_transaction`. */
  method IssueSegment(spi: SpiHost, s: Segment, lastSegment: bool)
    requires spi.Valid() && WellFormed(s) && !s.OtherType?
    modifies spi`commands, spi`commandsDone, spi`txEntries, spi`txDrained, spi`rxStream, spi`rxFilled, spi`misoUsed
    ensures spi.Valid() && Issued(old(QueuesOf(spi)), QueuesOf(spi), s, lastSegment, spi.miso)
  {
    spi.WaitReady();
    if s.Opcode? {
      IssueOpcode(spi, s, lastSegment);
    } else if s.Address? {
      IssueAddress(spi, s, lastSegment);
    } else if s.Dummy? {
      IssueDummy(spi, s, lastSegment);
    } else {
      IssueDataPhase(spi, s, lastSegment);
    }
  }

  /** The first i segments have been issued since the queues were as in `was`. */
  ghost predicate IssuedSoFar(was: Queues, now: Queues, segs: seq<Segment>, i: nat, miso: nat -> byte)
    requires AllWellFormed(segs) && i <= |segs|
  {
    && was.commands <= now.commands && was.entries <= now.entries
    && now.commands[|was.commands|..] == Commands(segs, i) && AllPushed(segs, i, now.entries[|was.entries|..])
    && now.stream == was.stream + WordsDue(segs, i, was.used, miso) && now.used == MisoAfter(segs, i, was.used)
  }

  lemma {:induction false} NothingIssued(was: Queues, segs: seq<Segment>, miso: nat -> byte)
    requires AllWellFormed(segs)
    ensures IssuedSoFar(was, was, segs, 0, miso)
  {
    assert PushedFor(segs, []) && Flatten<seq<byte>>([]) == was.entries[|was.entries|..];
  }

  lemma {:induction false} NextDue(segs: seq<Segment>, i: nat, from: nat, miso: nat -> byte)
    requires i < |segs|
    ensures Commands(segs, i + 1) == Commands(segs, i) + SegmentCommands(segs[i], i + 1 == |segs|)
    ensures WordsDue(segs, i + 1, from, miso)
            == WordsDue(segs, i, from, miso) + Pack(MisoBytes(miso, MisoAfter(segs, i, from), AnswerLength(segs[i])))
    ensures MisoAfter(segs, i + 1, from) == MisoAfter(segs, i, from) + AnswerLength(segs[i])
  {
    hide Pack, MisoBytes, SegmentCommands, AnswerLength;
  }

  lemma {:induction false} OneMoreIssued(was: Queues, q: Queues, now: Queues, segs: seq<Segment>, i: nat,
      miso: nat -> byte)
    requires AllWellFormed(segs) && i < |segs| && IssuedSoFar(was, q, segs, i, miso)
    requires Issued(q, now, segs[i], i + 1 == |segs|, miso)
    ensures IssuedSoFar(was, now, segs, i + 1, miso)
  {
    hide EntriesOf, AllPushed, Commands, WordsDue, MisoAfter, SegmentCommands, AnswerLength, Pack, MisoBytes,
      WellFormed;
    NextDue(segs, i, was.used, miso);
    assert now.commands[|was.commands|..] == q.commands[|was.commands|..] + now.commands[|q.commands|..];
    assert now.entries[|was.entries|..] == q.entries[|was.entries|..] + now.entries[|q.entries|..];
    PushedMore(segs, i, q.entries[|was.entries|..], now.entries[|q.entries|..]);
  }

  /** One round of the first loop. */
  method IssueNext(spi: SpiHost, segs: seq<Segment>, i: nat, ghost was: Queues)
    requires spi.Valid() && AllWellFormed(segs) && i < |segs| && !segs[i].OtherType?
    requires IssuedSoFar(was, QueuesOf(spi), segs, i, spi.miso)
    modifies spi`commands, spi`commandsDone, spi`txEntries, spi`txDrained, spi`rxStream, spi`rxFilled, spi`misoUsed
    ensures spi.Valid() && IssuedSoFar(was, QueuesOf(spi), segs, i + 1, spi.miso)
  {
    hide *;
    WellFormedAt(segs, i);
    IssueSegment(spi, segs[i], i == |segs| - 1);
    OneMoreIssued(was, old(QueuesOf(spi)), QueuesOf(spi), segs, i, spi.miso);
  }

  /** The first loop: stops at the first segment of another type. */
  method IssueAll(spi: SpiHost, segs: seq<Segment>) returns (i: nat)
    requires spi.Valid() && AllWellFormed(segs)
    modifies spi`commands, spi`commandsDone, spi`txEntries, spi`txDrained, spi`rxStream, spi`rxFilled, spi`misoUsed
    ensures spi.Valid() && i <= |segs|
    ensures i < |segs| ==> segs[i].OtherType?
    ensures forall k :: 0 <= k < i ==> !segs[k].OtherType?
    ensures IssuedSoFar(old(QueuesOf(spi)), QueuesOf(spi), segs, i, spi.miso)
  {
    hide *;
    ghost var was := QueuesOf(spi);
    NothingIssued(was, segs, spi.miso);
    i := 0;
    while i < |segs| && !segs[i].OtherType?
      invariant i <= |segs| && spi.Valid()
      invariant forall k :: 0 <= k < i ==> !segs[k].OtherType?
      invariant IssuedSoFar(was, QueuesOf(spi), segs, i, spi.miso)
    {
      IssueNext(spi, segs, i, was);
      i := i + 1;
    }
  }

  lemma {:induction false} DuePrefix(segs: seq<Segment>, i: nat, n: nat, from: nat, miso: nat -> byte)
    requires i <= n <= |segs|
    ensures WordsDue(segs, i, from, miso) <= WordsDue(segs, n, from, miso)
  {
    if i < n {
      DuePrefix(segs, i, n - 1, from, miso);
    }
  }

  predicate ReadsItsOwn(s: Segment) {
    Reads(s) ==> Count(s) != 0
  }

  /** The read position of segment i is where its answer begins if and only if no word was unread at the start and no
      earlier segment receives a multiple of 65536 bytes, of which nothing is read back. */
  lemma {:induction false} ReadPosition(segs: seq<Segment>, i: nat, unread: nat, from: nat, miso: nat -> byte)
    requires i <= |segs|
    ensures Popped(segs, i) <= |WordsDue(segs, i, from, miso)|
    ensures Popped(segs, i) == unread + |WordsDue(segs, i, from, miso)|
            <==> unread == 0 && forall j :: 0 <= j < i ==> ReadsItsOwn(segs[j])
  {
    if i > 0 {
      ReadPosition(segs, i - 1, unread, from, miso);
      hide Pack;
    }
  }

  /** Then what is fetched is the segment's own answer, whatever padding ended the segments before. */
  lemma {:induction false} AnswerIsNext(segs: seq<Segment>, i: nat, from: nat, miso: nat -> byte)
    requires i < |segs| && forall j :: 0 <= j <= i ==> ReadsItsOwn(segs[j])
    ensures Popped(segs, i + 1) <= |WordsDue(segs, |segs|, from, miso)|
    ensures Fetched(segs, i, WordsDue(segs, |segs|, from, miso)) == Answer(segs, i, from, miso)
  {
    ReadPosition(segs, i, 0, from, miso);
    ReadPosition(segs, i + 1, 0, from, miso);
    var tail := DueAround(segs, i, from, miso);
    hide WordsBytes, Pack, WordsDue, Answer;
    PackedAhead(Answer(segs, i, from, miso), tail);
  }

  lemma {:induction false} DueAround(segs: seq<Segment>, i: nat, from: nat, miso: nat -> byte)
      returns (tail: seq<u32>)
    requires i < |segs|
    ensures var due, all := WordsDue(segs, i, from, miso), WordsDue(segs, |segs|, from, miso);
      |due| <= |WordsDue(segs, i + 1, from, miso)| <= |all| && all[|due|..] == Pack(Answer(segs, i, from, miso)) + tail
  {
    var due, next, all := WordsDue(segs, i, from, miso), WordsDue(segs, i + 1, from, miso),
      WordsDue(segs, |segs|, from, miso);
    DuePrefix(segs, i + 1, |segs|, from, miso);
    tail := all[|next|..];
    hide Answer, Pack;
    assert all == due + (Pack(Answer(segs, i, from, miso)) + tail);
  }

  /** After a receive segment of no bytes the next one is given what the device answered to the first. */
  lemma {:induction false} EmptyReceive(s: Segment, t: Segment, from: nat, miso: nat -> byte)
    requires s.Rx? && s.length == 0 && Reads(t) && Count(t) != 0
    ensures var words := WordsDue([s, t], 2, from, miso);
      Popped([s, t], 2) <= |words| && Fetched([s, t], 1, words) == Answer([s, t], 0, from, miso)[..Count(t)]
  {
    var segs := [s, t];
    var a, b := Answer(segs, 0, from, miso), Answer(segs, 1, from, miso);
    var words := WordsDue(segs, 2, from, miso);
    assert WordsDue(segs, 0, from, miso) == [] && WordsDue(segs, 1, from, miso) == [] + Pack(a) == Pack(a);
    assert words == Pack(a) + Pack(b);
    assert Popped(segs, 0) == 0 && Popped(segs, 1) == 0;
    assert Popped(segs, 2) == (Count(t) + 3) / 4;
    PackedAhead(a, Pack(b));
    assert words[0..] == words;
    hide WordsBytes, Pack, WordsDue, Answer;
    assert WordsBytes(words)[..Count(t)] == WordsBytes(words)[..|a|][..Count(t)];
  }

  lemma {:induction false} PoppedGrows(segs: seq<Segment>, i: nat, n: nat)
    requires i <= n <= |segs|
    ensures Popped(segs, i) <= Popped(segs, n)
  {
    if i < n {
      PoppedGrows(segs, i, n - 1);
    }
  }

  lemma {:induction false} ReadingLength(s: Segment)
    requires WellFormed(s) && Reads(s)
    ensures s.length % 0x1_0000 == StoredLength(s) <= s.rxbuf.Length
  {
  }

  /** Before segment i is read: the words that there are to be read, of which those before it have been popped. */
  ghost predicate AtSegment(spi: SpiHost, segs: seq<Segment>, i: nat, start: nat, words: seq<u32>)
    requires i <= |segs|
    reads spi
  {
    && spi.Valid() && start <= |spi.rxStream| && spi.rxStream[start..] == words
    && spi.rxPopped == start + Popped(segs, i) && Popped(segs, |segs|) <= |words|
  }

  lemma {:induction false} FetchedNext(segs: seq<Segment>, i: nat, start: nat, words: seq<u32>, stream: seq<u32>)
    requires i < |segs| && start <= |stream| && stream[start..] == words && Popped(segs, |segs|) <= |words|
    ensures Popped(segs, i) + (StoredLength(segs[i]) + 3) / 4 == Popped(segs, i + 1) <= |words|
    ensures var p, n := start + Popped(segs, i), StoredLength(segs[i]);
      p + (n + 3) / 4 <= |stream| && WordsBytes(stream[p..])[..n] == Fetched(segs, i, words)
  {
    PoppedGrows(segs, i + 1, |segs|);
    assert stream[start..][Popped(segs, i)..] == stream[start + Popped(segs, i)..];
    hide WordsBytes;
  }

  /** A receiving segment's round of the second loop. */
  method ReadAnswer(spi: SpiHost, segs: seq<Segment>, i: nat, ghost start: nat, ghost words: seq<u32>)
    requires i < |segs| && WellFormed(segs[i]) && Reads(segs[i]) && AtSegment(spi, segs, i, start, words)
    requires Popped(segs, i + 1) <= |words|
    modifies spi`commandsDone, spi`txDrained, spi`rxFilled, spi`rxPopped, segs[i].rxbuf
    ensures AtSegment(spi, segs, i + 1, start, words)
    ensures segs[i].rxbuf[..] == Spliced(old(segs[i].rxbuf[..]), 0, Fetched(segs, i, words))
  {
    var s := segs[i];
    ReadingLength(s);
    FetchedNext(segs, i, start, words, spi.rxStream);
    hide WordsBytes, Fetched, Spliced, Popped, WellFormed, spi.Valid;
    FifoRead(spi, s.rxbuf, s.rxbase, s.length % 0x1_0000);
  }

  /** Every receive buffer holds what the first n segments deliver to it. */
  ghost predicate AllDelivered(segs: seq<Segment>, n: nat, was: map<array<byte>, seq<byte>>, words: seq<u32>)
    requires AllWellFormed(segs) && n <= |segs| && Popped(segs, n) <= |words|
    reads RxBuffers(segs)
  {
    forall b | b in RxBuffers(segs) ::
      b in was && |was[b]| == b.Length && b[..] == Delivered(segs, n, b, was[b], words)
  }

  /** One round of the second loop. */
  method ReadNext(spi: SpiHost, segs: seq<Segment>, i: nat, ghost start: nat, ghost words: seq<u32>,
      ghost was: map<array<byte>, seq<byte>>)
    requires AllWellFormed(segs) && i < |segs| && Popped(segs, i) <= Popped(segs, i + 1) <= |words|
    requires AtSegment(spi, segs, i, start, words) && AllDelivered(segs, i, was, words)
    modifies spi`commandsDone, spi`txDrained, spi`rxFilled, spi`rxPopped, RxBuffers(segs)
    ensures AtSegment(spi, segs, i + 1, start, words) && AllDelivered(segs, i + 1, was, words)
  {
    hide spi.Valid, Spliced, Fetched;
    DeliveredNext(segs, i, words);
    if Reads(segs[i]) {
      assert WellFormed(segs[i]) && segs[i].rxbuf in RxBuffers(segs);
      ReadAnswer(spi, segs, i, start, words);
    }
  }

  /** The rounds of the second loop. */
  method ReadRounds(spi: SpiHost, segs: seq<Segment>, ghost start: nat, ghost words: seq<u32>,
      ghost was: map<array<byte>, seq<byte>>)
    requires AllWellFormed(segs) && AtSegment(spi, segs, 0, start, words) && Popped(segs, |segs|) <= |words|
    requires AllDelivered(segs, 0, was, words)
    modifies spi`commandsDone, spi`txDrained, spi`rxFilled, spi`rxPopped, RxBuffers(segs)
    ensures AtSegment(spi, segs, |segs|, start, words) && AllDelivered(segs, |segs|, was, words)
  {
    hide *;
    PoppedGrows(segs, 0, |segs|);
    for i := 0 to |segs|
      invariant Popped(segs, i) <= |words|
      invariant AtSegment(spi, segs, i, start, words) && AllDelivered(segs, i, was, words)
    {
      PoppedGrows(segs, i, i + 1);
      PoppedGrows(segs, i + 1, |segs|);
      ReadNext(spi, segs, i, start, words, was);
    }
  }

  /** The second loop: each receiving segment's buffer gets what is fetched for it. */
  method ReadAll(spi: SpiHost, segs: seq<Segment>, ghost words: seq<u32>)
    requires spi.Valid() && AllWellFormed(segs) && spi.rxStream[spi.rxPopped..] == words
    requires Popped(segs, |segs|) <= |words|
    modifies spi`commandsDone, spi`txDrained, spi`rxFilled, spi`rxPopped, RxBuffers(segs)
    ensures spi.Valid() && spi.rxStream[spi.rxPopped..] == words[Popped(segs, |segs|)..]
    ensures forall b | b in RxBuffers(segs) :: b[..] == Delivered(segs, |segs|, b, old(b[..]), words)
  {
    ghost var start := spi.rxPopped;
    ghost var was := map b | b in RxBuffers(segs) :: b[..];
    ReadRounds(spi, segs, start, words, was);
    assert spi.rxStream[spi.rxPopped..] == spi.rxStream[start..][Popped(segs, |segs|)..];
  }

  lemma {:induction false} DeliveredNext(segs: seq<Segment>, i: nat, words: seq<u32>)
    requires AllWellFormed(segs) && i < |segs| && Popped(segs, i) <= Popped(segs, i + 1) <= |words|
    ensures forall buf: array<byte>, was: seq<byte> | |was| == buf.Length ::
      Delivered(segs, i + 1, buf, was, words)
      == Stored(segs[i], Fetched(segs, i, words), buf, Delivered(segs, i, buf, was, words))
  {
    hide Stored, Fetched;
  }

  /** All segments have been issued. Every command gets its bytes, and the wire carries the segments' bytes in order, if
      and only if no segment transmits a multiple of 65536 bytes. */
  ghost predicate CarriedOut(segs: seq<Segment>, cs: seq<Command>, entries: seq<seq<byte>>)
    requires AllWellFormed(segs)
  {
    && cs == Commands(segs, |segs|) && AllPushed(segs, |segs|, entries)
    && (Feeds(cs, entries) <==> AllTakeTheirOwn(segs, 0))
    && (AllTakeTheirOwn(segs, 0) ==> Wire(cs, entries) == TransactionWire(segs, 0))
  }

  lemma {:induction false} AllIssued(was: Queues, now: Queues, segs: seq<Segment>, miso: nat -> byte)
    requires AllWellFormed(segs) && IssuedSoFar(was, now, segs, |segs|, miso)
    ensures CarriedOut(segs, now.commands[|was.commands|..], now.entries[|was.entries|..])
    ensures now.stream == was.stream + WordsDue(segs, |segs|, was.used, miso)
  {
    WireExactly(segs, now.entries[|was.entries|..]);
    hide Feeds, Wire, Commands, TransactionWire, WordsDue, AllPushed, AllTakeTheirOwn, MisoAfter;
  }

  /** The words there are to be read once all segments have been issued. */
  lemma {:induction false} EnoughWords(segs: seq<Segment>, stream: seq<u32>, popped: nat, from: nat, miso: nat -> byte)
    requires popped <= |stream|
    ensures var due := WordsDue(segs, |segs|, from, miso);
      (stream + due)[popped..] == stream[popped..] + due && Popped(segs, |segs|) <= |stream[popped..] + due|
  {
    ReadPosition(segs, |segs|, 0, from, miso);
  }

  lemma {:induction false} IssuedInOrder(was: Queues, now: Queues, segs: seq<Segment>, n: nat, miso: nat -> byte)
    requires AllWellFormed(segs) && n <= |segs| && IssuedSoFar(was, now, segs, n, miso)
    requires n < |segs| ==> segs[n].OtherType?
    requires forall k :: 0 <= k < n ==> !segs[k].OtherType?
    ensures was.commands <= now.commands && was.entries <= now.entries && (n < |segs| <==> HasOther(segs))
    ensures HasOther(segs) ==> Stopped(segs, now.commands[|was.commands|..], now.entries[|was.entries|..])
  {
    hide Commands, WordsDue, AllPushed, MisoAfter;
  }

  /** `dif_spi_host_transaction` as far as the end of the first loop. */
  method IssueOrStop(spi: SpiHost, csid: nat, segs: seq<Segment>) returns (r: DifResult)
    requires spi.Valid() && AllWellFormed(segs)
    modifies spi
    ensures spi.Valid() && spi.csid == csid && spi.rxPopped == old(spi.rxPopped)
    ensures old(spi.commands) <= spi.commands && old(spi.txEntries) <= spi.txEntries
    ensures r == if HasOther(segs) then BadArg else Ok
    ensures var cs, es := spi.commands[|old(spi.commands)|..], spi.txEntries[|old(spi.txEntries)|..];
      if r == Ok then CarriedOut(segs, cs, es) else Stopped(segs, cs, es)
    ensures r == Ok ==>
              spi.rxStream == old(spi.rxStream) + WordsDue(segs, |segs|, old(spi.misoUsed), spi.miso)
  {
    ghost var was := QueuesOf(spi);
    hide WordsDue, AllWellFormed, IssuedSoFar, CarriedOut, Stopped, HasOther;
    spi.csid := csid;
    var issued := IssueAll(spi, segs);
    IssuedInOrder(was, QueuesOf(spi), segs, issued, spi.miso);
    if issued < |segs| {
      return BadArg;
    }
    AllIssued(was, QueuesOf(spi), segs, spi.miso);
    r := Ok;
  }

  /** `dif_spi_host_transaction`. Each receiving segment gets the next words of those that were unread and those that
      became due; `ReadPosition` and `AnswerIsNext` say when they are its own. An unknown segment type stops the
      transaction after the segments before it have been issued, with nothing read back. */
  method Transaction(spi: SpiHost, csid: nat, segs: seq<Segment>) returns (r: DifResult)
    requires spi.Valid() && AllWellFormed(segs)
    modifies spi, RxBuffers(segs)
    ensures spi.Valid() && spi.csid == csid
    ensures old(spi.commands) <= spi.commands && old(spi.txEntries) <= spi.txEntries
    ensures r == BadArg <==> HasOther(segs)
    ensures r == Ok ==>
              CarriedOut(segs, spi.commands[|old(spi.commands)|..], spi.txEntries[|old(spi.txEntries)|..])
    ensures r == Ok ==>
              var words := old(spi.rxStream[spi.rxPopped..]) + WordsDue(segs, |segs|, old(spi.misoUsed), spi.miso);
      && Popped(segs, |segs|) <= |words| && spi.rxStream[spi.rxPopped..] == words[Popped(segs, |segs|)..]
      && forall b | b in RxBuffers(segs) :: b[..] == Delivered(segs, |segs|, b, old(b[..]), words)
    ensures r == BadArg ==>
              spi.rxPopped == old(spi.rxPopped) && forall b | b in RxBuffers(segs) :: b[..] == old(b[..])
    ensures r == BadArg ==>
              Stopped(segs, spi.commands[|old(spi.commands)|..], spi.txEntries[|old(spi.txEntries)|..])
  {
    ghost var words := spi.rxStream[spi.rxPopped..] + WordsDue(segs, |segs|, spi.misoUsed, spi.miso);
    EnoughWords(segs, spi.rxStream, spi.rxPopped, spi.misoUsed, spi.miso);
    hide *;
    r := IssueOrStop(spi, csid, segs);
    assert r == Ok ==> spi.rxStream[spi.rxPopped..] == words;
    if r == BadArg {
      return;
    }
    ReadAll(spi, segs, words);
  }

  // ----- releasing chip select -----

  /** The last command a transaction issues lets go of chip select. */
  ghost predicate ReleasesChipSelect(cs: seq<Command>) {
    cs != [] && !cs[|cs| - 1].csaat
  }

  lemma {:induction false} EarlierKeepChipSelect(segs: seq<Segment>, n: nat)
    requires n < |segs|
    ensures forall k :: 0 <= k < |Commands(segs, n)| ==> Commands(segs, n)[k].csaat
  {
    if n > 0 {
      EarlierKeepChipSelect(segs, n - 1);
    }
  }

  /** Chip select is released exactly when the last segment issues a command at all. A transaction that
      ends in a dummy segment of no cycles leaves the device selected. */
  lemma {:induction false} ChipSelectReleased(segs: seq<Segment>)
    requires segs != [] && forall i :: 0 <= i < |segs| ==> !segs[i].OtherType?
    ensures ReleasesChipSelect(Commands(segs, |segs|)) <==> segs[|segs| - 1] != Dummy(segs[|segs| - 1].width, 0)
  {
    var n := |segs| - 1;
    EarlierKeepChipSelect(segs, n);
    var earlier, last := Commands(segs, n), SegmentCommands(segs[n], true);
    assert Commands(segs, n + 1) == earlier + last;
    assert last != [] ==> !last[0].csaat;
    hide Commands;
  }

  /** Segments whose buffers are all different each deliver exactly what was fetched for them. */
  lemma {:induction false} DistinctBuffers(segs: seq<Segment>, n: nat, i: nat, was: seq<byte>, words: seq<u32>)
    requires AllWellFormed(segs) && i < n <= |segs| && Reads(segs[i]) && |was| == segs[i].rxbuf.Length
    requires Popped(segs, i + 1) <= Popped(segs, n) <= |words|
    requires forall j :: 0 <= j < n && Reads(segs[j]) && j != i ==> segs[j].rxbuf != segs[i].rxbuf
    ensures Delivered(segs, n, segs[i].rxbuf, was, words) == Spliced(was, 0, Fetched(segs, i, words))
  {
    hide Spliced, Fetched;
    if i + 1 == n {
      Untouched(segs, i, segs[i].rxbuf, was, words);
    } else {
      PoppedGrows(segs, i + 1, n - 1);
      DistinctBuffers(segs, n - 1, i, was, words);
    }
  }

  lemma {:induction false} Untouched(segs: seq<Segment>, n: nat, buf: array<byte>, was: seq<byte>, words: seq<u32>)
    requires AllWellFormed(segs) && n <= |segs| && |was| == buf.Length && Popped(segs, n) <= |words|
    requires forall j :: 0 <= j < n && Reads(segs[j]) ==> segs[j].rxbuf != buf
    ensures Delivered(segs, n, buf, was, words) == was
  {
    if n > 0 {
      Untouched(segs, n - 1, buf, was, words);
    }
  }
}
