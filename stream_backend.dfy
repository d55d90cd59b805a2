/** The in-memory stream backend of `src/io/backend.rs`: a byte buffer with a
  * read cursor and a write cursor, and the default methods every stream
  * backend inherits.
  *
  * `BufferState` is the backend's state as a value; the step functions say
  * what each operation does to it and the lemmas prove the stream laws on
  * them. The class `BufferBackend` holds the same three fields and updates
  * them in place; each of its methods is proved to perform its step. */
module StreamBackend {
  import opened Common

  const READ_NOT_SUPPORTED := "Read not supported"
  const WRITE_NOT_SUPPORTED := "Write not supported"
  const MARK_NOT_SUPPORTED := "Mark not supported"
  const SEEK_NOT_SUPPORTED := "Seek not supported"
  const RESET_NOT_SUPPORTED := "Reset not supported"
  const SEEK_OUT_OF_BOUNDS := "Seek position out of bounds"

  /** Size of the scratch buffer used by the default `skip`. */
  const SKIP_CHUNK: nat := 8192

  function Min(a: nat, b: nat): nat { if a < b then a else b }

  /** An opaque stream position handed out by `mark`. */
  datatype StreamMark = StreamMark(position: nat)

  datatype BufferState = BufferState(buffer: seq<u8>, readPos: nat, writePos: nat) {
    /** Everything written is in the buffer and the reader never passes the writer. */
    predicate Valid() {
      readPos <= writePos == |buffer|
    }

    /** The bytes written but not yet read. */
    function Unread(): seq<u8>
      requires Valid()
    {
      buffer[readPos..writePos]
    }
  }

  /** State after `BufferBackend::new()` (and `with_capacity`, since capacity
    * is not observable). */
  function EmptyState(): (s: BufferState)
    ensures s.Valid() && s.Unread() == []
  {
    BufferState([], 0, 0)
  }

  /** State after `BufferBackend::from_vec(v)`: all of `v` is unread. */
  function FromVecState(v: seq<u8>): (s: BufferState)
    ensures s.Valid() && s.Unread() == v && s.readPos == 0
  {
    BufferState(v, 0, |v|)
  }

  /** `read` into a slice of length `len`: the new state and the bytes copied
    * into the front of the slice. */
  function ReadStep(s: BufferState, len: nat): (r: (BufferState, seq<u8>))
    requires s.Valid()
    ensures r.0.Valid() && r.0.buffer == s.buffer && r.0.writePos == s.writePos
    ensures |r.1| == Min(len, s.writePos - s.readPos)
    ensures s.Unread() == r.1 + r.0.Unread()
  {
    var available := if s.writePos >= s.readPos then s.writePos - s.readPos else 0;
    var n := Min(len, available);
    assert s.buffer[s.readPos..s.writePos]
        == s.buffer[s.readPos..s.readPos + n] + s.buffer[s.readPos + n..s.writePos];
    (s.(readPos := s.readPos + n), s.buffer[s.readPos..s.readPos + n])
  }

  function Zeros(n: nat): (z: seq<u8>)
    ensures |z| == n
  {
    seq(n, i => 0)
  }

  /** `write`: grow the buffer when the data does not fit after the write
    * cursor, copy the data there and advance the cursor. */
  function WriteStep(s: BufferState, data: seq<u8>): (t: BufferState)
    requires s.Valid()
    ensures t.Valid() && t.readPos == s.readPos
    ensures t.buffer == s.buffer + data
  {
    var grown := if s.writePos + |data| > |s.buffer|
                 then s.buffer + Zeros(s.writePos + |data| - |s.buffer|)
                 else s.buffer;
    var buffer := grown[..s.writePos] + data + grown[s.writePos + |data|..];
    assert grown[..s.writePos] == s.buffer;
    BufferState(buffer, s.readPos, s.writePos + |data|)
  }

  function ResetStep(s: BufferState): (t: BufferState)
    requires s.Valid()
    ensures t.Valid() && t.Unread() == s.buffer
  {
    s.(readPos := 0)
  }

  /** `mark`: the current read position. */
  function MarkOf(s: BufferState): StreamMark {
    StreamMark(s.readPos)
  }

  /** `seek`: move the read cursor to the mark when it lies within the
    * written data; `None` stands for the out-of-bounds error, which leaves
    * the state as it was. */
  function SeekStep(s: BufferState, mark: StreamMark): (r: Option<BufferState>)
    requires s.Valid()
    ensures r.Some? <==> mark.position <= s.writePos
    ensures r.Some? ==> r.value.Valid() && r.value.readPos == mark.position
                        && r.value.Unread() == s.buffer[mark.position..]
  {
    if mark.position <= s.writePos then Some(s.(readPos := mark.position)) else None
  }

  // ---------------------------------------------------------------------
  // Stream laws

  /** A fresh `from_vec(v)` backend reads back exactly `v`. */
  lemma FromVecReadsBack(v: seq<u8>)
    ensures ReadStep(FromVecState(v), |v|).1 == v
    ensures ReadStep(FromVecState(v), |v|).0.Unread() == []
  {
  }

  /** Reading `a` bytes and then `b` bytes yields the same bytes and state as
    * one read of `a + b` bytes. */
  lemma ReadsConcatenate(s: BufferState, a: nat, b: nat)
    requires s.Valid()
    ensures var (s1, x) := ReadStep(s, a);
            var (s2, y) := ReadStep(s1, b);
            (s2, x + y) == ReadStep(s, a + b)
  {
    var (s1, x) := ReadStep(s, a);
    var (s2, y) := ReadStep(s1, b);
    var (t, z) := ReadStep(s, a + b);
    assert s2.readPos == t.readPos;
    assert x + y == z by {
      assert s.Unread() == x + y + s2.Unread();
      assert s.Unread() == z + t.Unread();
    }
  }

  /** Writing appends to the unread bytes and leaves the earlier bytes unchanged. */
  lemma WriteAppends(s: BufferState, data: seq<u8>)
    requires s.Valid()
    ensures WriteStep(s, data).Unread() == s.Unread() + data
    ensures WriteStep(s, data).buffer[..|s.buffer|] == s.buffer
  {
    var t := WriteStep(s, data);
    assert t.buffer[t.readPos..t.writePos] == s.buffer[s.readPos..] + data;
  }

  /** The state after a sequence of writes. */
  function WriteAll(s: BufferState, writes: seq<seq<u8>>): (t: BufferState)
    requires s.Valid()
    ensures t.Valid()
    decreases |writes|
  {
    if writes == [] then s else WriteAll(WriteStep(s, writes[0]), writes[1..])
  }

  function Flatten(writes: seq<seq<u8>>): seq<u8> {
    if writes == [] then [] else writes[0] + Flatten(writes[1..])
  }

  lemma {:induction false} WriteAllBuffer(s: BufferState, writes: seq<seq<u8>>)
    requires s.Valid()
    ensures WriteAll(s, writes).buffer == s.buffer + Flatten(writes)
    ensures WriteAll(s, writes).readPos == s.readPos
    decreases |writes|
  {
    if writes != [] {
      WriteAllBuffer(WriteStep(s, writes[0]), writes[1..]);
      assert s.buffer + writes[0] + Flatten(writes[1..]) == s.buffer + Flatten(writes);
    }
  }

  /** Any sequence of writes into a new backend, then `reset`, then a read of
    * the total length returns exactly the concatenation of the writes. */
  lemma WriteResetReadRoundTrip(writes: seq<seq<u8>>)
    ensures var s := ResetStep(WriteAll(EmptyState(), writes));
            ReadStep(s, |Flatten(writes)|).1 == Flatten(writes)
  {
    WriteAllBuffer(EmptyState(), writes);
  }

  /** Seeking to a mark taken earlier restores the read position, however
    * much was read in between. */
  lemma MarkSeekRestores(s: BufferState, len: nat)
    requires s.Valid()
    ensures SeekStep(ReadStep(s, len).0, MarkOf(s)) == Some(s)
  {
  }

  /** A seek past the written data fails. */
  lemma SeekPastEndFails(s: BufferState, position: nat)
    requires s.Valid() && position > s.writePos
    ensures SeekStep(s, StreamMark(position)) == None
  {
  }

  // ---------------------------------------------------------------------
  // The backend object

  class BufferBackend {
    var buffer: seq<u8>
    var readPos: nat
    var writePos: nat

    function State(): BufferState
      reads this
    {
      BufferState(buffer, readPos, writePos)
    }

    predicate Valid()
      reads this
    {
      State().Valid()
    }

    constructor New()
      ensures Valid() && State() == EmptyState()
    {
      buffer := [];
      readPos := 0;
      writePos := 0;
    }

    /** The capacity is only a preallocation hint. */
    constructor WithCapacity(capacity: nat)
      ensures Valid() && State() == EmptyState()
    {
      buffer := [];
      readPos := 0;
      writePos := 0;
    }

    constructor FromVec(v: seq<u8>)
      ensures Valid() && State() == FromVecState(v)
    {
      buffer := v;
      readPos := 0;
      writePos := |v|;
    }

    /** Reads into the slice `buf[..len]`; the bytes after the copied ones are
      * left alone. Never fails. */
    method Read(buf: array<u8>, len: nat) returns (n: nat)
      requires Valid() && len <= buf.Length
      modifies this, buf
      ensures Valid()
      ensures n == Min(len, old(writePos - readPos)) && n <= buf.Length
      ensures State() == ReadStep(old(State()), len).0
      ensures buf[..n] == ReadStep(old(State()), len).1
      ensures buf[n..] == old(buf[n..])
    {
      var available := if writePos >= readPos then writePos - readPos else 0;
      var toRead := Min(len, available);
      if toRead > 0 {
        ghost var before := buf[..];
        var i := 0;
        while i < toRead
          invariant 0 <= i <= toRead
          invariant buffer == old(buffer) && readPos == old(readPos) && writePos == old(writePos)
          invariant forall k :: 0 <= k < i ==> buf[k] == buffer[readPos + k]
          invariant forall k :: i <= k < buf.Length ==> buf[k] == before[k]
        {
          buf[i] := buffer[readPos + i];
          i := i + 1;
        }
        assert buf[..toRead] == buffer[readPos..readPos + toRead];
        assert buf[toRead..] == before[toRead..];
        readPos := readPos + toRead;
      }
      n := toRead;
    }

    /** Writes all of `data`; never fails. */
    method Write(data: seq<u8>) returns (n: nat)
      requires Valid()
      modifies this
      ensures Valid() && State() == WriteStep(old(State()), data)
      ensures n == |data|
    {
      if writePos + |data| > |buffer| {
        buffer := buffer + Zeros(writePos + |data| - |buffer|);
      }
      buffer := buffer[..writePos] + data + buffer[writePos + |data|..];
      writePos := writePos + |data|;
      n := |data|;
    }

    method Reset()
      requires Valid()
      modifies this
      ensures Valid() && State() == ResetStep(old(State()))
    {
      readPos := 0;
    }

    method SupportsReset() returns (b: bool)
      ensures b
    {
      b := true;
    }

    method SupportsMark() returns (b: bool)
      ensures b
    {
      b := true;
    }

    method Mark() returns (mark: StreamMark)
      requires Valid()
      ensures mark == MarkOf(State())
    {
      mark := StreamMark(readPos);
    }

    method Seek(mark: StreamMark) returns (r: Result<()>)
      requires Valid()
      modifies this
      ensures Valid()
      ensures SeekStep(old(State()), mark).Some? ==> r.Success? && State() == SeekStep(old(State()), mark).value
      ensures SeekStep(old(State()), mark).None? ==> r == Failure(SEEK_OUT_OF_BOUNDS) && State() == old(State())
    {
      var pos := mark.position;
      if pos <= writePos {
        readPos := pos;
        r := Success(());
      } else {
        r := Failure(SEEK_OUT_OF_BOUNDS);
      }
    }

    /** The stream's default `skip`, which this backend inherits: read and
      * discard chunks of at most 8192 bytes until `count` bytes are skipped
      * or a read returns nothing. */
    method Skip(count: nat) returns (skipped: nat)
      requires Valid()
      modifies this
      ensures Valid()
      ensures skipped == Min(count, old(writePos - readPos))
      ensures State() == ReadStep(old(State()), count).0
    {
      var buf := new u8[Min(count, SKIP_CHUNK)];
      var total := 0;
      while total < count
        invariant Valid() && buffer == old(buffer) && writePos == old(writePos)
        invariant total <= count && readPos == old(readPos) + total
        decreases count - total
      {
        var toSkip := Min(count - total, buf.Length);
        var n := Read(buf, toSkip);
        if n == 0 {
          break;
        }
        total := total + n;
      }
      skipped := total;
    }

    method Close() returns (r: Result<()>)
      ensures r.Success?
    {
      r := Success(());
    }

    method DataAvailable() returns (r: Result<bool>)
      ensures r == Success(true)
    {
      r := Success(true);
    }
  }

  /** A backend that overrides none of the stream operations: it gets the
    * defaults, which refuse reading, writing, marking, seeking and
    * resetting, and accept closing. */
  class DefaultBackend {
    constructor () {}

    method Read(buf: array<u8>, len: nat) returns (r: Result<nat>)
      ensures r == Failure(READ_NOT_SUPPORTED)
    {
      r := Failure(READ_NOT_SUPPORTED);
    }

    method Write(data: seq<u8>) returns (r: Result<nat>)
      ensures r == Failure(WRITE_NOT_SUPPORTED)
    {
      r := Failure(WRITE_NOT_SUPPORTED);
    }

    method Close() returns (r: Result<()>)
      ensures r.Success?
    {
      r := Success(());
    }

    method DataAvailable() returns (r: Result<bool>)
      ensures r == Success(true)
    {
      r := Success(true);
    }

    /** The default `skip`: with nothing to skip it succeeds at once,
      * otherwise the first read's error is propagated. */
    method Skip(count: nat) returns (r: Result<nat>)
      ensures count == 0 ==> r == Success(0)
      ensures count > 0 ==> r == Failure(READ_NOT_SUPPORTED)
    {
      var buf := new u8[Min(count, SKIP_CHUNK)];
      var total := 0;
      if total < count {
        // The first read of the loop already fails.
        var n := Read(buf, Min(count - total, buf.Length));
        return Failure(n.error);
      }
      r := Success(total);
    }

    method SupportsMark() returns (b: bool)
      ensures !b
    {
      b := false;
    }

    method Mark() returns (r: Result<StreamMark>)
      ensures r == Failure(MARK_NOT_SUPPORTED)
    {
      r := Failure(MARK_NOT_SUPPORTED);
    }

    method Seek(mark: StreamMark) returns (r: Result<()>)
      ensures r == Failure(SEEK_NOT_SUPPORTED)
    {
      r := Failure(SEEK_NOT_SUPPORTED);
    }

    method Reset() returns (r: Result<()>)
      ensures r == Failure(RESET_NOT_SUPPORTED)
    {
      r := Failure(RESET_NOT_SUPPORTED);
    }

    method SupportsReset() returns (b: bool)
      ensures !b
    {
      b := false;
    }
  }
}
