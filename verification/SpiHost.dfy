/** The SPI host block as its driver sees it: command, transmit and receive queues that the hardware
    serves concurrently with software. */
module SpiHostHardware {
  import opened Words

  const TX_DEPTH: nat := 72
  const RX_DEPTH: nat := 64
  const CMD_DEPTH: nat := 4

  datatype Width = Standard | Dual | Quad

  datatype Direction = DummyCycles | Receive | Transmit | Bidirectional

  datatype Command = Command(len: nat, width: Width, direction: Direction, csaat: bool)

  // ----- the command register -----

  function WidthField(w: Width): (n: nat) {
    match w case Standard => 0 case Dual => 1 case Quad => 2
  }

  function DirectionField(d: Direction): (n: nat) {
    match d case DummyCycles => 0 case Receive => 1 case Transmit => 2 case Bidirectional => 3
  }

  /** `length - 1` as a 32-bit value, of which the LEN field keeps 20 bits. */
  function LenField(length: u16): (n: nat) {
    (length + TWO_32 - 1) % TWO_32 % 0x10_0000
  }

  /** The value `write_command_reg` writes. */
  function CommandReg(length: u16, speed: Width, direction: Direction, lastSegment: bool): (reg: nat) {
    LenField(length) * 32 + DirectionField(direction) * 8 + WidthField(speed) * 2 + (if lastSegment then 0 else 1)
  }

  function WidthOf(n: nat): (w: Width) {
    if n == 0 then Standard else if n == 1 then Dual else Quad
  }

  function DirectionOf(n: nat): (d: Direction) {
    if n == 0 then DummyCycles else if n == 1 then Receive else if n == 2 then Transmit else Bidirectional
  }

  /** How the hardware reads the register: LEN counts from zero. */
  function Decode(reg: nat): (c: Command) {
    Command(reg / 32 + 1, WidthOf(reg / 2 % 4), DirectionOf(reg / 8 % 4), reg % 2 == 1)
  }

  /** The hardware sees the command that was meant, except that a length of zero asks for 2^20 units. */
  lemma {:induction false} CommandRoundTrip(length: u16, speed: Width, direction: Direction, lastSegment: bool)
    ensures Decode(CommandReg(length, speed, direction, lastSegment))
      == Command(if length == 0 then 0x10_0000 else length, speed, direction, !lastSegment)
    ensures var reg := CommandReg(length, speed, direction, lastSegment);
      && (reg % 2 == 0 <==> lastSegment)
      && reg / 2 % 4 == (match speed case Standard => 0 case Dual => 1 case Quad => 2)
      && reg / 8 % 4
         == (match direction case DummyCycles => 0 case Receive => 1 case Transmit => 2 case Bidirectional => 3)
      && reg / 32 == if length == 0 then 0xf_ffff else length - 1
  {
    assert WidthOf(WidthField(speed)) == speed && DirectionOf(DirectionField(direction)) == direction;
    assert WidthField(speed) < 4 && DirectionField(direction) < 4;
    hide WidthOf, WidthField, DirectionOf, DirectionField;
    RegisterFields(LenField(length), DirectionField(direction), WidthField(speed), if lastSegment then 0 else 1);
    LenFieldValue(length);
    hide LenField;
  }

  lemma {:induction false} LenFieldValue(length: u16)
    ensures LenField(length) + 1 == if length == 0 then 0x10_0000 else length
  {
  }

  lemma {:induction false} RegisterFields(n: nat, d: nat, w: nat, c: nat)
    requires d < 4 && w < 4 && c < 2
    ensures var reg := n * 32 + d * 8 + w * 2 + c;
      reg / 32 == n && reg / 8 % 4 == d && reg / 2 % 4 == w && reg % 2 == c
  {
    var reg := n * 32 + d * 8 + w * 2 + c;
    assert reg / 2 == n * 16 + d * 4 + w;
    assert reg / 8 == n * 4 + d;
  }

  // ----- what the hardware does with commands -----

  function Flatten<T>(entries: seq<seq<T>>): (all: seq<T>) {
    if entries == [] then [] else entries[0] + Flatten(entries[1..])
  }

  /** The bytes of one transmitting command: entries are used up in order, and what the last one holds
      beyond the command is discarded when the segment closes. */
  function Sent(entries: seq<seq<byte>>, n: nat): (bytes: seq<byte>) {
    if n == 0 || entries == [] then []
    else if |entries[0]| >= n then entries[0][..n]
    else entries[0] + Sent(entries[1..], n - |entries[0]|)
  }

  function Unsent(entries: seq<seq<byte>>, n: nat): (rest: seq<seq<byte>>) {
    if n == 0 || entries == [] then entries
    else if |entries[0]| >= n then entries[1..]
    else Unsent(entries[1..], n - |entries[0]|)
  }

  predicate Transmits(c: Command) {
    c.direction == Transmit || c.direction == Bidirectional
  }

  predicate Receives(c: Command) {
    c.direction == Receive || c.direction == Bidirectional
  }

  /** The bytes driven on the wire by a list of commands fed from a transmit queue. */
  function Wire(commands: seq<Command>, entries: seq<seq<byte>>): (bytes: seq<byte>) {
    if commands == [] then []
    else if Transmits(commands[0]) then
      Sent(entries, commands[0].len) + Wire(commands[1..], Unsent(entries, commands[0].len))
    else Wire(commands[1..], entries)
  }

  class SpiHost {
    var csid: nat
    /** Commands issued, of which the first commandsDone have been taken up by the hardware. */
    var commands: seq<Command>
    var commandsDone: nat
    /** Entries pushed into the transmit queue, of which the first txDrained have left it. */
    var txEntries: seq<seq<byte>>
    var txDrained: nat
    /** Words the commands issued so far will produce: rxFilled have arrived, rxPopped have been read. */
    var rxStream: seq<u32>
    var rxFilled: nat
    var rxPopped: nat
    /** The bytes the attached device answers, in order, and how many the commands account for. */
    const miso: nat -> byte
    var misoUsed: nat

    constructor (miso: nat -> byte)
      ensures Valid() && this.miso == miso && misoUsed == 0
      ensures commands == [] && txEntries == [] && rxStream == [] && rxPopped == 0
    {
      this.miso := miso;
      csid := 0;
      commands, commandsDone, txEntries, txDrained := [], 0, [], 0;
      rxStream, rxFilled, rxPopped, misoUsed := [], 0, 0, 0;
    }

    ghost predicate Valid()
      reads this
    {
      && commandsDone <= |commands| <= commandsDone + CMD_DEPTH
      && txDrained <= |txEntries| <= txDrained + TX_DEPTH
      && rxPopped <= rxFilled <= |rxStream| && rxFilled - rxPopped <= RX_DEPTH
    }

    /** Any amount of progress the hardware can make by itself. */
    method Hardware()
      requires Valid()
      modifies this`commandsDone, this`txDrained, this`rxFilled
      ensures Valid() && commandsDone >= old(commandsDone) && txDrained >= old(txDrained) && rxFilled >= old(rxFilled)
    {
      var c: nat, t: nat, r: nat := *, *, *;
      if commandsDone <= c <= |commands| {
        commandsDone := c;
      }
      if txDrained <= t <= |txEntries| {
        txDrained := t;
      }
      if rxFilled <= r <= |rxStream| && r - rxPopped <= RX_DEPTH {
        rxFilled := r;
      }
    }

    /** `wait_ready` */
    method WaitReady()
      requires Valid()
      modifies this`commandsDone, this`txDrained, this`rxFilled
      ensures Valid() && |commands| < commandsDone + CMD_DEPTH
    {
      Hardware();
      while |commands| == commandsDone + CMD_DEPTH
        invariant Valid()
        decreases |commands| - commandsDone
      {
        commandsDone := commandsDone + 1;
      }
    }

    /** `wait_tx_fifo` */
    method WaitTxFifo()
      requires Valid()
      modifies this`commandsDone, this`txDrained, this`rxFilled
      ensures Valid() && |txEntries| < txDrained + TX_DEPTH && commandsDone >= old(commandsDone)
    {
      Hardware();
      while |txEntries| == txDrained + TX_DEPTH
        invariant Valid() && commandsDone >= old(commandsDone)
        decreases |txEntries| - txDrained
      {
        txDrained := txDrained + 1;
      }
    }

    /** `wait_rx_fifo`; some word must still be due. */
    method WaitRxFifo()
      requires Valid() && rxPopped < |rxStream|
      modifies this`commandsDone, this`txDrained, this`rxFilled
      ensures Valid() && rxPopped < rxFilled
    {
      Hardware();
      while rxFilled == rxPopped
        invariant Valid()
        decreases |rxStream| - rxFilled
      {
        rxFilled := rxFilled + 1;
      }
    }

    /** A write to TXDATA: the queue must not be full. */
    method WriteTxData(bytes: seq<byte>)
      requires Valid() && |txEntries| < txDrained + TX_DEPTH
      modifies this`txEntries
      ensures Valid() && txEntries == old(txEntries) + [bytes]
    {
      txEntries := txEntries + [bytes];
    }

    /** A read of RXDATA: the queue must not be empty. */
    method ReadRxData() returns (w: u32)
      requires Valid() && rxPopped < rxFilled
      modifies this`rxPopped
      ensures Valid() && rxPopped == old(rxPopped) + 1 && w == rxStream[old(rxPopped)]
    {
      w := rxStream[rxPopped];
      rxPopped := rxPopped + 1;
    }

    /** A write to COMMAND: the host must be ready. A receiving command makes words due. */
    method WriteCommand(reg: nat)
      requires Valid() && |commands| < commandsDone + CMD_DEPTH
      modifies this`commands, this`rxStream, this`misoUsed
      ensures Valid() && commands == old(commands) + [Decode(reg)]
      ensures var c := Decode(reg);
        if Receives(c) then
          rxStream == old(rxStream) + Pack(MisoBytes(miso, old(misoUsed), c.len)) && misoUsed == old(misoUsed) + c.len
        else rxStream == old(rxStream) && misoUsed == old(misoUsed)
    {
      var c := Decode(reg);
      commands := commands + [c];
      if Receives(c) {
        rxStream := rxStream + Pack(MisoBytes(miso, misoUsed, c.len));
        misoUsed := misoUsed + c.len;
      }
    }
  }

  function MisoBytes(miso: nat -> byte, from: nat, n: nat): (bytes: seq<byte>)
    ensures |bytes| == n
  {
    seq(n, i requires 0 <= i < n => miso(from + i))
  }
}
