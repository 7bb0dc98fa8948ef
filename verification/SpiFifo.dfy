/** The re-alignment queue of sw/device/lib/dif/dif_spi_host.c. */
module SpiQueue {
  import opened Words
  import opened Memory

  /** `queue_t`: up to two words of bytes waiting to be stored. */
  class Queue {
    var length: nat
    var data: array<byte>

    ghost predicate Valid()
      reads this
    {
      data.Length == 8 && length <= 8
    }

    ghost function Contents(): (s: seq<byte>)
      reads this, data
      requires Valid()
      ensures |s| == length
    {
      data[..length]
    }

    constructor ()
      ensures Valid() && fresh(data) && Contents() == []
    {
      length := 0;
      data := new byte[8](_ => 0);
    }

    method EnqueueByte(b: byte)
      requires Valid() && length < 8
      modifies this`length, data
      ensures Valid() && Contents() == old(Contents()) + [b]
    {
      data[length] := b;
      length := length + 1;
    }

    /** `enqueue_word`: a single store when the queue ends on a word boundary, byte by byte otherwise. */
    method EnqueueWord(w: u32)
      requires Valid() && length <= 4
      modifies this`length, data
      ensures Valid() && Contents() == old(Contents()) + WordBytes(w)
    {
      if length % 4 == 0 {
        Write32(w, data, 0, length);
        length := length + 4;
      } else {
        var bytes, i := WordBytes(w), 0;
        while i < 4
          invariant i <= 4 && Valid() && Contents() == old(Contents()) + bytes[..i]
        {
          EnqueueByte(bytes[i]);
          i := i + 1;
        }
      }
    }

    /** `dequeue_byte`: the eight bytes move down one place. */
    method DequeueByte() returns (val: byte)
      requires Valid() && length >= 1
      modifies this`length, data
      ensures Valid() && old(Contents()) == [val] + Contents()
    {
      val := data[0];
      data[0], data[1], data[2], data[3], data[4], data[5], data[6], data[7] :=
        data[1], data[2], data[3], data[4], data[5], data[6], data[7], 0;
      length := length - 1;
    }

    /** `dequeue_word`: the upper word moves down. */
    method DequeueWord() returns (val: u32)
      requires Valid() && length >= 4
      modifies this`length, data
      ensures Valid() && old(Contents()) == WordBytes(val) + Contents()
    {
      ghost var was := data[..];
      hide WordBytes, BytesWord;
      val := Read32(data, 0, 0);
      var upper := Read32(data, 0, 4);
      Write32(upper, data, 0, 0);
      MovedDown(was, data[..], WordBytes(upper), length);
      length := length - 4;
    }
  }

  lemma {:induction false} MovedDown(was: seq<byte>, now: seq<byte>, upper: seq<byte>, length: nat)
    requires |was| == 8 && 4 <= length <= 8 && upper == was[4..8] && now == Spliced(was, 0, upper)
    ensures |now| == 8 && was[..length] == was[0..4] + now[..length - 4]
  {
  }
}
