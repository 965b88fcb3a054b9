/** libcdp/stream_writer.c: bounds-checked big-endian writes into a caller's buffer. */
module StreamWriting {
  import opened Bytes
  import Checksum

  /** What a writer's caller can observe: the buffer, the write position and the size the
      writer may use. */
  datatype WriterState = WriterState(bytes: seq<Byte>, position: nat, size: nat) {
    predicate Valid() {
      position <= size <= |bytes|
    }

    function Written(): seq<Byte>
      requires Valid()
    {
      bytes[..position]
    }
  }

  /** From s, a call moved to t without disturbing what was written before s or anything
      behind t's position. */
  predicate Confined(s: WriterState, t: WriterState) {
    && s.Valid() && t.Valid()
    && t.size == s.size && |t.bytes| == |s.bytes| && s.position <= t.position
    && t.bytes[..s.position] == s.Written()
    && t.bytes[t.position..] == s.bytes[t.position..]
  }

  /** From s, a call tried to write out and ended in t: it succeeds exactly when out fits. */
  predicate Appends(s: WriterState, out: seq<Byte>, t: WriterState, ok: bool) {
    && Confined(s, t)
    && ok == (s.position + |out| <= s.size)
    && (ok ==> t.Written() == s.Written() + out)
  }

  lemma ConfinedTwice(s: WriterState, t: WriterState, u: WriterState)
    requires Confined(s, t) && Confined(t, u)
    ensures Confined(s, u)
  {
    assert u.bytes[..s.position] == u.bytes[..t.position][..s.position] == t.bytes[..s.position];
    assert u.bytes[u.position..] == t.bytes[t.position..][u.position - t.position..];
    assert s.bytes[u.position..] == s.bytes[t.position..][u.position - t.position..];
  }

  /** Two writes in a row are one write of the concatenation. */
  lemma AppendsTwice(s: WriterState, out1: seq<Byte>, t: WriterState, out2: seq<Byte>, u: WriterState, ok: bool)
    requires Appends(s, out1, t, true) && Appends(t, out2, u, ok)
    ensures Appends(s, out1 + out2, u, ok)
  {
    ConfinedTwice(s, t, u);
    assert (s.Written() + out1) + out2 == s.Written() + (out1 + out2);
  }

  lemma AppendsNothing(s: WriterState)
    requires s.Valid()
    ensures Appends(s, [], s, true)
  {
    assert s.Written() + [] == s.Written();
  }

  class StreamWriter {
    const buffer: array<Byte>
    const size: nat
    var position: nat

    ghost predicate Valid()
      reads this
    {
      position <= size <= buffer.Length
    }

    ghost function State(): WriterState
      reads this, buffer
    {
      WriterState(buffer[..], position, size)
    }

    constructor (buffer: array<Byte>, size: nat)
      requires size <= buffer.Length
      ensures Valid() && this.buffer == buffer && this.size == size && position == 0
    {
      this.buffer := buffer;
      this.size := size;
      position := 0;
    }

    /** An empty buffer gets no writer. */
    static method New(buffer: array<Byte>, size: nat) returns (writer: StreamWriter?)
      requires size <= buffer.Length
      ensures writer == null <==> size == 0
      ensures writer != null ==>
                fresh(writer) && writer.Valid() && writer.buffer == buffer && writer.size == size && writer.position == 0
    {
      if size == 0 {
        return null;
      }
      writer := new StreamWriter(buffer, size);
    }

    predicate Need(needed: nat)
      requires Valid()
      reads this
    {
      needed <= size - position
    }

    method Put8(value: Byte) returns (ok: bool)
      requires Valid()
      modifies this`position, buffer
      ensures Appends(old(State()), [value], State(), ok)
    {
      if !Need(1) {
        return false;
      }
      buffer[position] := value;
      position := position + 1;
      return true;
    }

    method Put16(value: U16) returns (ok: bool)
      requires Valid()
      modifies this`position, buffer
      ensures Appends(old(State()), Be16(value), State(), ok)
    {
      if !Need(2) {
        return false;
      }
      buffer[position] := value / 0x100;
      buffer[position + 1] := value % 0x100;
      position := position + 2;
      return true;
    }

    method Put24(value: U24) returns (ok: bool)
      requires Valid()
      modifies this`position, buffer
      ensures Appends(old(State()), Be24(value), State(), ok)
    {
      if !Need(3) {
        return false;
      }
      buffer[position] := value / 0x1_0000;
      buffer[position + 1] := value / 0x100 % 0x100;
      buffer[position + 2] := value % 0x100;
      position := position + 3;
      return true;
    }

    method Put32(value: U32) returns (ok: bool)
      requires Valid()
      modifies this`position, buffer
      ensures Appends(old(State()), Be32(value), State(), ok)
    {
      if !Need(4) {
        return false;
      }
      buffer[position] := value / 0x100_0000;
      buffer[position + 1] := value / 0x1_0000 % 0x100;
      buffer[position + 2] := value / 0x100 % 0x100;
      buffer[position + 3] := value % 0x100;
      position := position + 4;
      return true;
    }

    method PutBuffer(value: seq<Byte>) returns (ok: bool)
      requires Valid()
      modifies this`position, buffer
      ensures Appends(old(State()), value, State(), ok)
    {
      if |value| == 0 {
        AppendsNothing(State());
        return true;
      }
      if !Need(|value|) {
        return false;
      }
      forall i | 0 <= i < |value| {
        buffer[position + i] := value[i];
      }
      position := position + |value|;
      return true;
    }

    method PutString(value: CString) returns (ok: bool)
      requires Valid()
      modifies this`position, buffer
      ensures Appends(old(State()), value, State(), ok)
    {
      var length := |value|;
      if !Need(length) {
        return false;
      }
      forall i | 0 <= i < length {
        buffer[position + i] := value[i];
      }
      position := position + length;
      return true;
    }

    /** Overwrites two bytes of what was written with the checksum of all of it. */
    method InjectChecksum(at: nat) returns (ok: bool)
      requires Valid()
      modifies buffer
      ensures ok == (at + 2 <= position)
      ensures ok ==> buffer[..position] == Checksum.Inject(old(buffer[..position]), at)
      ensures buffer[position..] == old(buffer[position..])
    {
      var length := position;
      if length < at + 2 {
        return false;
      }
      var checksum := Checksum.IpComputeCsum(buffer[..length]);
      buffer[at + 1] := checksum / 0x100;
      buffer[at] := checksum % 0x100;
      return true;
    }
  }
}
