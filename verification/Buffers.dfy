/** The growable byte store (`byte_buffer`). */
module Buffers {
  import opened Wrappers

  const DEFAULT_CAPACITY: nat := 4096

  class ByteBuffer {
    var data: array<char>
    var readPos: nat
    var writePos: nat

    // History since construction or the last reset: all bytes written, all bytes read.
    ghost var written: seq<char>
    ghost var taken: seq<char>
    // Bytes moved by `Grow` since construction, and the capacity at construction.
    ghost var copied: nat
    ghost var firstCapacity: nat

    ghost predicate Valid()
      reads this, data
    {
      && readPos <= writePos <= data.Length
      && written == taken + data[readPos..writePos]
      && copied + firstCapacity <= data.Length
    }

    /** The unread bytes. */
    ghost function Contents(): seq<char>
      requires readPos <= writePos <= data.Length
      reads this, data
    {
      data[readPos..writePos]
    }

    constructor (capacity: nat := DEFAULT_CAPACITY)
      ensures Valid() && fresh(data) && data.Length == capacity
      ensures Contents() == [] && written == [] && taken == []
    {
      data := new char[capacity](_ => '\0');
      readPos, writePos := 0, 0;
      written, taken, copied, firstCapacity := [], [], 0, capacity;
    }

    /** Takes over the storage of `other`, which is left with no storage at all. */
    constructor MoveFrom(other: ByteBuffer)
      requires other.Valid()
      modifies other
      ensures Valid() && Contents() == old(other.Contents()) && data == old(other.data)
      ensures other.Valid() && fresh(other.data) && other.data.Length == 0 && other.Contents() == []
    {
      data, readPos, writePos := other.data, other.readPos, other.writePos;
      written, taken := other.written, other.taken;
      copied, firstCapacity := other.copied, other.firstCapacity;
      new;
      other.data := new char[0];
      other.readPos, other.writePos := 0, 0;
      other.written, other.taken, other.copied, other.firstCapacity := [], [], 0, 0;
    }

    function Size(): (n: nat)
      requires readPos <= writePos
      reads this
    {
      writePos - readPos
    }

    function Available(): (n: nat)
      requires writePos <= data.Length
      reads this
    {
      data.Length - writePos
    }

    method Clear()
      requires Valid()
      modifies this
      ensures Valid() && Contents() == [] && data == old(data) && writePos == 0
    {
      readPos, writePos := 0, 0;
      written, taken := [], [];
    }

    /** Doubles the capacity until `additional` bytes fit, and drops the bytes already read. */
    method Grow(additional: nat)
      requires Valid() && data.Length >= 1 && additional > Available()
      modifies this
      ensures Valid() && fresh(data) && Contents() == old(Contents())
      ensures written == old(written) && taken == old(taken) && firstCapacity == old(firstCapacity)
      ensures old(writePos) + additional <= data.Length < 2 * (old(writePos) + additional)
      ensures readPos == 0 && copied == old(copied) + |Contents()|
    {
      var required := writePos + additional;
      var newCapacity := data.Length;
      while newCapacity < required
        invariant newCapacity >= 1
        invariant newCapacity == data.Length || 2 * data.Length <= newCapacity < 2 * required
        decreases required - newCapacity
      {
        newCapacity := newCapacity * 2;
      }
      var size := Size();
      var newData := Copied(data, readPos, size, newCapacity);
      data, readPos, writePos := newData, 0, size;
      copied := copied + size;
    }

    /** New storage, with a part of the old one at its front. */
    static method Copied(data: array<char>, from: nat, size: nat, capacity: nat) returns (newData: array<char>)
      requires from + size <= data.Length && size <= capacity
      ensures fresh(newData) && newData.Length == capacity && newData[..size] == data[from..from + size]
    {
      newData := new char[capacity](_ => '\0');
      forall i | 0 <= i < size {
        newData[i] := data[from + i];
      }
      ghost var moved, kept := newData[..size], data[from..from + size];
      forall i | 0 <= i < size ensures moved[i] == kept[i] {
        assert newData[i] == data[from + i];
      }
      SameElements(moved, kept);
    }

    method EnsureCapacity(additional: nat)
      requires Valid() && (additional > Available() ==> data.Length >= 1)
      modifies this
      ensures Valid() && Contents() == old(Contents())
      ensures written == old(written) && taken == old(taken) && firstCapacity == old(firstCapacity)
      ensures additional <= Available() && data.Length >= old(data.Length)
      ensures data == old(data) || fresh(data)
    {
      if additional > Available() {
        Grow(additional);
      }
    }

    method Write(bytes: seq<char>)
      requires Valid() && (|bytes| > Available() ==> data.Length >= 1)
      modifies this, data
      ensures Valid() && Contents() == old(Contents()) + bytes
      ensures written == old(written) + bytes && taken == old(taken)
      ensures firstCapacity == old(firstCapacity)
      ensures data.Length >= old(data.Length) && (data == old(data) || fresh(data))
    {
      EnsureCapacity(|bytes|);
      Append(bytes);
    }

    /** Copies the bytes behind the unread ones, where there is room for them. */
    method Append(bytes: seq<char>)
      requires Valid() && |bytes| <= Available()
      modifies this`writePos, this`written, data
      ensures Valid() && Contents() == old(Contents()) + bytes && written == old(written) + bytes
    {
      ghost var kept := Contents();
      forall i | 0 <= i < |bytes| {
        data[writePos + i] := bytes[i];
      }
      writePos := writePos + |bytes|;
      ghost var all := data[readPos..writePos];
      forall i | 0 <= i < |all| ensures all[i] == (kept + bytes)[i] {
        assert all[i] == data[readPos + i];
      }
      SameElements(all, kept + bytes);
      written := written + bytes;
    }

    method Read(maxSize: nat) returns (bytes: seq<char>)
      requires Valid()
      modifies this
      ensures Valid() && data == old(data)
      ensures |bytes| == if maxSize < old(|Contents()|) then maxSize else old(|Contents()|)
      ensures old(Contents()) == bytes + Contents()
      ensures taken == old(taken) + bytes && written == old(written) && firstCapacity == old(firstCapacity)
    {
      var n := if maxSize < Size() then maxSize else Size();
      bytes := data[readPos..readPos + n];
      assert data[readPos..writePos] == bytes + data[readPos + n..writePos];
      readPos := readPos + n;
      taken := taken + bytes;
    }

    method Peek(maxSize: nat) returns (bytes: seq<char>)
      requires Valid()
      ensures bytes <= Contents()
      ensures |bytes| == if maxSize < |Contents()| then maxSize else |Contents()|
    {
      var n := if maxSize < Size() then maxSize else Size();
      bytes := data[readPos..readPos + n];
    }

    /** The first occurrence of `value` at or after `offset` among the unread bytes. */
    method FindByte(value: char, offset: nat) returns (r: Option<nat>)
      requires Valid() && offset <= Size()
      ensures r.Some? ==> offset <= r.value < |Contents()| && Contents()[r.value] == value
      ensures forall i :: offset <= i < (if r.Some? then r.value else |Contents()|) ==> Contents()[i] != value
    {
      var i := readPos + offset;
      while i < writePos
        invariant readPos + offset <= i <= writePos
        invariant forall k :: offset <= k < i - readPos ==> Contents()[k] != value
      {
        if data[i] == value { return Some(i - readPos); }
        i := i + 1;
      }
      return None;
    }

    /** The first occurrence of `pattern` at or after `offset` among the unread bytes. */
    method FindPattern(pattern: seq<char>, offset: nat) returns (r: Option<nat>)
      requires Valid()
      ensures pattern == [] ==> r == Some(offset)
      ensures pattern != [] && r.Some? ==>
        offset <= r.value && r.value + |pattern| <= |Contents()| && Contents()[r.value..][..|pattern|] == pattern
      ensures pattern != [] ==>
        forall i :: offset <= i && i + |pattern| <= |Contents()| && (r.Some? ==> i < r.value)
          ==> Contents()[i..][..|pattern|] != pattern
    {
      if pattern == [] { return Some(offset); }
      if |pattern| > Size() { return None; }
      var i := offset;
      while i <= Size() - |pattern|
        invariant offset <= i
        invariant forall k | offset <= k < i && k + |pattern| <= |Contents()| ::
          Contents()[k..][..|pattern|] != pattern
      {
        SliceOfSlice(data[..], readPos, writePos, i, |pattern|);
        if data[readPos + i..readPos + i + |pattern|] == pattern { return Some(i); }
        i := i + 1;
      }
      return None;
    }

    static lemma SameElements(a: seq<char>, b: seq<char>)
      requires |a| == |b| && forall i :: 0 <= i < |a| ==> a[i] == b[i]
      ensures a == b
    {
    }

    static lemma SliceOfSlice(s: seq<char>, from: nat, to: nat, i: nat, n: nat)
      requires from + i + n <= to <= |s|
      ensures s[from..to][i..][..n] == s[from + i..from + i + n]
    {
    }

    /** Moves the unread bytes to the front. */
    method Compact()
      requires Valid()
      modifies this, data
      ensures Valid() && Contents() == old(Contents()) && data == old(data) && readPos == 0
      ensures written == old(written) && taken == old(taken)
      ensures copied == old(copied) && firstCapacity == old(firstCapacity)
    {
      if readPos == 0 { return; }
      var remaining := Size();
      ghost var kept := Contents();
      forall i | 0 <= i < remaining {
        data[i] := data[readPos + i];
      }
      readPos, writePos := 0, remaining;
      forall i | 0 <= i < remaining ensures Contents()[i] == kept[i] {
        assert Contents()[i] == data[i];
      }
      SameElements(Contents(), kept);
    }
  }

  // ----- runs -----

  datatype Op = Write(bytes: seq<char>) | Read(max: nat) | Peek(max: nat) | Compact

  /** The bytes handed in by the writes of a run. */
  function Inputs(ops: seq<Op>): seq<char> {
    if ops == [] then []
    else Inputs(ops[..|ops| - 1]) + if ops[|ops| - 1].Write? then ops[|ops| - 1].bytes else []
  }

  /**
   Over any run, what was read so far followed by what is still unread is what was written, and
   growing has copied no more bytes than the capacity it added.
   */
  method Replay(buf: ByteBuffer, ops: seq<Op>) returns (out: seq<char>)
    requires buf.Valid() && buf.data.Length >= 1 && buf.written == [] && buf.taken == []
    modifies buf, buf.data
    ensures buf.Valid() && out + buf.Contents() == Inputs(ops)
    ensures buf.firstCapacity == old(buf.firstCapacity)
    ensures buf.copied <= buf.data.Length - old(buf.firstCapacity)
  {
    out := [];
    for k := 0 to |ops|
      invariant buf.Valid() && buf.data.Length >= 1
      invariant buf.data == old(buf.data) || fresh(buf.data)
      invariant buf.taken == out && buf.written == Inputs(ops[..k])
      invariant buf.firstCapacity == old(buf.firstCapacity)
    {
      assert ops[..k + 1][..k] == ops[..k];
      match ops[k]
      case Write(bytes) => buf.Write(bytes);
      case Read(max) =>
        var got := buf.Read(max);
        out := out + got;
      case Peek(max) =>
        var seen := buf.Peek(max);
      case Compact => buf.Compact();
    }
    assert ops[..|ops|] == ops;
  }

  // ----- when the doubling loop ends -----

  function Doubled(capacity: nat, times: nat): nat {
    if times == 0 then capacity else 2 * Doubled(capacity, times - 1)
  }

  lemma {:induction false} DoublingExceeds(capacity: nat, times: nat)
    ensures capacity >= 1 ==> Doubled(capacity, times) >= times
    ensures capacity == 0 ==> Doubled(capacity, times) == 0
  {
    if times > 0 { DoublingExceeds(capacity, times - 1); }
  }

  /** Doubling reaches the required capacity exactly when it does not start from nothing. */
  lemma GrowEndsIff(capacity: nat, required: nat)
    ensures (exists times :: Doubled(capacity, times) >= required) <==> capacity >= 1 || required == 0
  {
    DoublingExceeds(capacity, required);
    if capacity == 0 {
      forall times ensures Doubled(capacity, times) == 0 { DoublingExceeds(capacity, times); }
    }
    assert capacity >= 1 || required == 0 ==> Doubled(capacity, required) >= required;
  }
}
