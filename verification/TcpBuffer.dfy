/** The growable byte buffer of a connection: a byte array with a read and a write index. */
module TcpBuffers {
  import opened Bytes

  /** The value of a TcpBuffer: storage and the two indices. */
  datatype View = View(data: seq<byte>, read: int, write: int) {
    predicate Valid() {
      0 <= read <= write <= |data| <= INT_MAX
    }

    function Readable(): seq<byte>
      requires 0 <= read <= write <= |data|
    {
      data[read..write]
    }
  }

  // ---------------------------------------------------------------------
  // Specification functions, one per member function of the class
  // ---------------------------------------------------------------------

  function Zeros(n: nat): (s: seq<byte>)
    ensures |s| == n && forall k :: 0 <= k < n ==> s[k] == 0
  {
    seq(n, _ => 0)
  }

  /** Compact once a third of the storage has been read. The bytes beyond the new
      write index are whatever was there before. */
  function Adjust(v: View): View {
    if v.read < |v.data| / 3 then v
    else if 0 <= v.read < v.write <= |v.data| then View(v.Readable() + v.data[v.write - v.read..], 0, v.write - v.read)
    else View(v.data, 0, v.write - v.read)
  }

  function Resize(v: View, size: nat): (r: View)
    requires v.Valid()
    ensures |r.data| == size && 0 == r.read <= r.write <= size && r.write <= |v.Readable()|
  {
    var kept := if size < |v.Readable()| then v.Readable()[..size] else v.Readable();
    View(kept + Zeros(size - |kept|), 0, |kept|)
  }

  function GrownSize(v: View): int {
    3 * (|v.data| + v.write) / 2
  }

  /** What writeToBuffer needs in order to stay inside its storage. */
  predicate WriteFits(v: View, n: nat)
    requires v.Valid()
  {
    n > |v.data| - v.write ==> |v.Readable()| + n <= GrownSize(v) <= INT_MAX
  }

  /** Bytes copied behind the write index. */
  function Filled(v: View, bytes: seq<byte>): (f: View)
    requires v.Valid() && |bytes| <= |v.data| - v.write
    ensures f.Valid() && |f.data| == |v.data| && f.read == v.read && f.write == v.write
  {
    v.(data := v.data[..v.write] + bytes + v.data[v.write + |bytes|..])
  }

  function Write(v: View, bytes: seq<byte>): View
    requires v.Valid() && WriteFits(v, |bytes|)
  {
    var g := if |bytes| > |v.data| - v.write then Resize(v, GrownSize(v)) else v;
    Filled(g, bytes).(write := g.write + |bytes|)
  }

  function MoveRead(v: View, n: int): (moved: View)
    ensures v.Valid() && v.read + n <= v.write ==> moved.Valid() && |moved.data| == |v.data| && moved.write <= v.write
  {
    if 0 <= v.read + n < |v.data| then Adjust(v.(read := v.read + n)) else v
  }

  function MoveWrite(v: View, n: int): View {
    if 0 <= v.write + n < |v.data| then Adjust(v.(write := v.write + n)) else v
  }

  function ReadCount(v: View, n: nat): nat
    requires v.Valid()
  {
    if |v.Readable()| > n then n else |v.Readable()|
  }

  function ReadOut(v: View, n: nat): View
    requires v.Valid()
  {
    if v.Readable() == [] then v else Adjust(v.(read := v.read + ReadCount(v, n)))
  }

  // ---------------------------------------------------------------------
  // What the operations mean for the queue of unread bytes
  // ---------------------------------------------------------------------

  lemma AdjustKeepsReadable(v: View)
    requires v.Valid()
    ensures Adjust(v).Valid() && Adjust(v).Readable() == v.Readable()
    ensures |Adjust(v).data| == |v.data| && Adjust(v).write <= v.write
  {
  }

  /** When the buffer is compacted, and every byte afterwards. */
  lemma AdjustExactly(v: View)
    requires v.Valid()
    ensures v.read < |v.data| / 3 ==> Adjust(v) == v
    ensures v.read >= |v.data| / 3 ==>
      var a := Adjust(v);
      && a.read == 0 && a.write == v.write - v.read && |a.data| == |v.data|
      && forall k :: 0 <= k < |a.data| ==> a.data[k] == v.data[if k < a.write then v.read + k else k]
  {
  }

  /** Every byte after a resize: the unread bytes that fit, then zeros. */
  lemma ResizeExactly(v: View, size: nat)
    requires v.Valid()
    ensures var r := Resize(v, size);
      && r.read == 0 && r.write == (if |v.Readable()| < size then |v.Readable()| else size) && |r.data| == size
      && forall k :: 0 <= k < size ==> r.data[k] == if k < r.write then v.data[v.read + k] else 0
  {
  }

  /** Growth moves the unread bytes; a write appends to them and loses nothing. */
  lemma WriteAppends(v: View, bytes: seq<byte>)
    requires v.Valid() && WriteFits(v, |bytes|)
    ensures Write(v, bytes).Valid()
    ensures Write(v, bytes).Readable() == v.Readable() + bytes
  {
  }

  /** A move of the read index drops exactly the bytes moved over, unless it would
      reach the capacity: then nothing moves. */
  lemma MoveReadDrops(v: View, n: nat)
    requires v.Valid() && n <= |v.Readable()|
    ensures var after := MoveRead(v, n);
      && after.Valid()
      && |after.data| == |v.data| && after.write <= v.write
      && (v.read + n < |v.data| ==> after.Readable() == v.Readable()[n..])
      && (v.read + n == |v.data| ==> after == v)
  {
    if v.read + n < |v.data| {
      AdjustKeepsReadable(v.(read := v.read + n));
    }
  }

  /** Any move of the read index, back ones included: refused outside the storage, else the bytes from the new index
      on are readable. */
  lemma MoveReadExactly(v: View, n: int)
    requires v.Valid() && v.read + n <= v.write
    ensures !(0 <= v.read + n < |v.data|) ==> MoveRead(v, n) == v
    ensures 0 <= v.read + n < |v.data| ==>
      MoveRead(v, n).Valid() && MoveRead(v, n).Readable() == v.data[v.read + n..v.write]
  {
    if 0 <= v.read + n < |v.data| {
      AdjustKeepsReadable(v.(read := v.read + n));
    }
  }

  lemma MoveWriteExactly(v: View, n: int)
    requires v.Valid() && v.read <= v.write + n
    ensures v.write + n >= |v.data| ==> MoveWrite(v, n) == v
    ensures v.write + n < |v.data| ==>
      MoveWrite(v, n).Valid() && MoveWrite(v, n).Readable() == v.data[v.read..v.write + n]
  {
    if v.write + n < |v.data| {
      AdjustKeepsReadable(v.(write := v.write + n));
    }
  }

  /** A move by a number that is not positive drops nothing; it may bring back bytes that had been dropped. */
  lemma MoveReadBack(v: View, n: int)
    requires v.Valid() && n <= 0
    ensures MoveRead(v, n).Valid() && |MoveRead(v, n).Readable()| >= |v.Readable()|
  {
    if 0 <= v.read + n < |v.data| {
      AdjustKeepsReadable(v.(read := v.read + n));
    }
  }

  /** A read hands out the first bytes and leaves the others. */
  lemma ReadOutSplits(v: View, n: nat)
    requires v.Valid()
    ensures ReadOut(v, n).Valid()
    ensures v.Readable() == v.Readable()[..ReadCount(v, n)] + ReadOut(v, n).Readable()
  {
    var moved := v.(read := v.read + ReadCount(v, n));
    AdjustKeepsReadable(moved);
    assert moved.Readable() == v.Readable()[ReadCount(v, n)..];
  }

  /** The kernel has put bytes behind the write index; moveWriteIndex makes them readable
      unless they fill the storage to the end. */
  lemma FillAppends(v: View, bytes: seq<byte>)
    requires v.Valid() && |bytes| <= |v.data| - v.write
    ensures var after := MoveWrite(Filled(v, bytes), |bytes|);
      && after.Valid() && |after.data| == |v.data|
      && (v.write + |bytes| < |v.data| ==> after.Readable() == v.Readable() + bytes && after.write < |after.data|)
      && (v.write + |bytes| == |v.data| ==> after == Filled(v, bytes) && after.Readable() == v.Readable())
  {
    var f := Filled(v, bytes);
    assert f.Readable() == v.Readable();
    if v.write + |bytes| < |v.data| {
      var m := f.(write := v.write + |bytes|);
      assert m.Readable() == v.Readable() + bytes;
      AdjustKeepsReadable(m);
    }
  }

  // ---------------------------------------------------------------------
  // FIFO refinement over every run
  // ---------------------------------------------------------------------

  datatype Op =
    | DoWrite(bytes: seq<byte>)
    | DoFill(bytes: seq<byte>)   // a read(2) into the free space, then moveWriteIndex
    | DoRead(size: nat)
    | DoMoveRead(size: nat)
    | DoResize(size: nat)
    | DoAdjust

  /** A buffer with its history: every byte accepted and every byte handed out. */
  datatype Fifo = Fifo(view: View, accepted: seq<byte>, handedOut: seq<byte>)

  predicate Allowed(op: Op, v: View)
    requires v.Valid()
  {
    match op
    case DoWrite(bytes) => WriteFits(v, |bytes|)
    case DoFill(bytes) => |bytes| <= |v.data| - v.write
    case DoRead(_) => true
    case DoMoveRead(n) => n <= |v.Readable()|
    case DoResize(n) => |v.Readable()| <= n <= INT_MAX
    case DoAdjust => true
  }

  function Perform(op: Op, f: Fifo): Fifo
    requires f.view.Valid() && Allowed(op, f.view)
  {
    var v := f.view;
    match op
    case DoWrite(bytes) => Fifo(Write(v, bytes), f.accepted + bytes, f.handedOut)
    case DoFill(bytes) =>
      Fifo(MoveWrite(Filled(v, bytes), |bytes|),
           if v.write + |bytes| < |v.data| then f.accepted + bytes else f.accepted, f.handedOut)
    case DoRead(n) => Fifo(ReadOut(v, n), f.accepted, f.handedOut + v.Readable()[..ReadCount(v, n)])
    case DoMoveRead(n) =>
      Fifo(MoveRead(v, n), f.accepted, if v.read + n < |v.data| then f.handedOut + v.Readable()[..n] else f.handedOut)
    case DoResize(n) => Fifo(Resize(v, n), f.accepted, f.handedOut)
    case DoAdjust => Fifo(Adjust(v), f.accepted, f.handedOut)
  }

  predicate IsFifo(f: Fifo) {
    f.view.Valid() && f.handedOut + f.view.Readable() == f.accepted
  }

  lemma StepIsFifo(op: Op, f: Fifo)
    requires IsFifo(f) && Allowed(op, f.view)
    ensures IsFifo(Perform(op, f))
  {
    hide Write, Filled, MoveWrite, MoveRead, ReadOut, Resize, Adjust;
    match op
    case DoWrite(bytes) => WriteIsFifo(bytes, f);
    case DoFill(bytes) => FillIsFifo(bytes, f);
    case DoRead(n) => ReadIsFifo(n, f);
    case DoMoveRead(n) => MoveReadIsFifo(n, f);
    case DoResize(n) => ResizeKeepsReadableIff(f.view, n);
    case DoAdjust => AdjustKeepsReadable(f.view);
  }

  lemma WriteIsFifo(bytes: seq<byte>, f: Fifo)
    requires IsFifo(f) && Allowed(DoWrite(bytes), f.view)
    ensures IsFifo(Perform(DoWrite(bytes), f))
  {
    hide Write;
    WriteAppends(f.view, bytes);
  }

  lemma ReadIsFifo(n: nat, f: Fifo)
    requires IsFifo(f)
    ensures IsFifo(Perform(DoRead(n), f))
  {
    hide ReadOut;
    ReadOutSplits(f.view, n);
  }

  lemma FillIsFifo(bytes: seq<byte>, f: Fifo)
    requires IsFifo(f) && Allowed(DoFill(bytes), f.view)
    ensures IsFifo(Perform(DoFill(bytes), f))
  {
    hide Filled, MoveWrite;
    FillAppends(f.view, bytes);
  }

  lemma MoveReadIsFifo(n: nat, f: Fifo)
    requires IsFifo(f) && Allowed(DoMoveRead(n), f.view)
    ensures IsFifo(Perform(DoMoveRead(n), f))
  {
    var v := f.view;
    MoveReadDrops(v, n);
    SplitAfter(f.handedOut, v.Readable(), n);
  }

  lemma SplitAfter(a: seq<byte>, b: seq<byte>, n: nat)
    requires n <= |b|
    ensures (a + b[..n]) + b[n..] == a + b
  {
  }

  /** A run in which every operation is allowed where it happens. */
  ghost predicate AllowedRun(ops: seq<Op>, f: Fifo) {
    ops == [] || (f.view.Valid() && Allowed(ops[0], f.view) && AllowedRun(ops[1..], Perform(ops[0], f)))
  }

  ghost function PerformAll(ops: seq<Op>, f: Fifo): Fifo
    requires AllowedRun(ops, f)
  {
    if ops == [] then f else PerformAll(ops[1..], Perform(ops[0], f))
  }

  /** Every run keeps 0 <= read <= write <= size, and what was handed out followed by what
      is readable is what was accepted, in order, through growth and compaction. */
  lemma {:induction false} RunIsFifo(ops: seq<Op>, f: Fifo)
    requires IsFifo(f) && AllowedRun(ops, f)
    ensures IsFifo(PerformAll(ops, f))
    decreases |ops|
  {
    if ops != [] {
      StepIsFifo(ops[0], f);
      RunIsFifo(ops[1..], Perform(ops[0], f));
    }
  }

  /** The resize condition is exact: a smaller resize loses unread bytes. */
  lemma ResizeKeepsReadableIff(v: View, size: nat)
    requires v.Valid() && size <= INT_MAX
    ensures Resize(v, size).Valid()
    ensures Resize(v, size).Readable() == v.Readable() <==> |v.Readable()| <= size
  {
    assert |v.Readable()| <= size ==> Resize(v, size).Readable() == v.Readable();
    assert |Resize(v, size).Readable()| <= size;
  }

  // ---------------------------------------------------------------------
  // The class
  // ---------------------------------------------------------------------

  class TcpBuffer {
    var readIndex: int
    var writeIndex: int
    var size: int
    var buffer: array<byte>

    ghost predicate Valid()
      reads this, buffer
    {
      size == buffer.Length && State().Valid()
    }

    function State(): View
      reads this, buffer
    {
      View(buffer[..], readIndex, writeIndex)
    }

    constructor (capacity: nat)
      requires capacity <= INT_MAX
      ensures Valid() && fresh(buffer)
      ensures State() == View(Zeros(capacity), 0, 0)
    {
      readIndex, writeIndex, size := 0, 0, capacity;
      buffer := new byte[capacity](_ => 0);
    }

    function ReadAble(): int
      reads this
    {
      writeIndex - readIndex
    }

    function WriteAble(): int
      reads this
    {
      size - writeIndex
    }

    method WriteToBuffer(bytes: seq<byte>)
      requires Valid() && WriteFits(State(), |bytes|)
      modifies this, buffer
      ensures Valid() && (buffer == old(buffer) || fresh(buffer))
      ensures State() == Write(old(State()), bytes)
      ensures State().Readable() == old(State().Readable()) + bytes
      ensures size == if |bytes| > old(WriteAble()) then 3 * (old(size) + old(writeIndex)) / 2 else old(size)
    {
      hide Resize, Filled;
      WriteAppends(State(), bytes);
      if |bytes| > WriteAble() {
        var newSize := 3 * (size + writeIndex) / 2;
        ResizeBuffer(newSize);
      }
      Append(bytes);
    }

    /** The copy behind the write index. */
    method Append(bytes: seq<byte>)
      requires Valid() && writeIndex + |bytes| <= size
      modifies this`writeIndex, buffer
      ensures Valid()
      ensures var v := old(State());
        v.Valid() && |bytes| <= |v.data| - v.write && State() == Filled(v, bytes).(write := v.write + |bytes|)
    {
      CopyInto(buffer, writeIndex, bytes);
      writeIndex := writeIndex + |bytes|;
    }

    /** The out-parameter keeps its old value when there is nothing to read. */
    method ReadFromBuffer(readBuf: seq<byte>, n: nat) returns (result: seq<byte>)
      requires Valid()
      modifies this, buffer
      ensures Valid() && buffer == old(buffer)
      ensures State() == ReadOut(old(State()), n)
      ensures var before := old(State().Readable());
        if before == [] then result == readBuf && State().Readable() == []
        else result + State().Readable() == before && |result| == (if n < |before| then n else |before|)
    {
      hide Adjust, ReadOut;
      ghost var v := State();
      ReadOutSplits(v, n);
      ReadOutIs(v, n);
      if ReadAble() == 0 {
        return readBuf;
      }
      var readSize := if ReadAble() > n then n else ReadAble();
      result := buffer[readIndex..readIndex + readSize];
      readIndex := readIndex + readSize;
      assert State() == v.(read := v.read + readSize);
      AdjustBuffer();
    }

    lemma ReadOutIs(v: View, n: nat)
      requires v.Valid()
      ensures var count := if n < v.write - v.read then n else v.write - v.read;
        && ReadCount(v, n) == count && v.Readable()[..count] == v.data[v.read..v.read + count]
        && ReadOut(v, n) == (if v.read == v.write then v else Adjust(v.(read := v.read + count)))
    {
    }

    method ResizeBuffer(newSize: nat)
      requires Valid() && newSize <= INT_MAX
      modifies this
      ensures Valid() && fresh(buffer)
      ensures State() == Resize(old(State()), newSize)
    {
      var tmp := new byte[newSize](_ => 0);
      var count := if ReadAble() < newSize then ReadAble() else newSize;
      CopyInto(tmp, 0, buffer[readIndex..readIndex + count]);
      readIndex, writeIndex, size := 0, count, newSize;
      buffer := tmp;
    }

    method AdjustBuffer()
      requires size == buffer.Length
      requires 0 <= readIndex && writeIndex <= size
      modifies this, buffer
      ensures buffer == old(buffer) && size == old(size)
      ensures State() == Adjust(old(State()))
    {
      if readIndex < buffer.Length / 3 {
        return;
      }
      ghost var v := State();
      var count := ReadAble();
      if count > 0 {
        forall k | 0 <= k < count {
          buffer[k] := buffer[readIndex + k];
        }
        Compacted(v, buffer[..]);
      }
      readIndex, writeIndex := 0, count;
    }

    lemma Compacted(v: View, after: seq<byte>)
      requires 0 <= v.read < v.write <= |v.data| == |after|
      requires forall k :: 0 <= k < |after| ==> after[k] == v.data[if k < v.write - v.read then v.read + k else k]
      ensures after == v.Readable() + v.data[v.write - v.read..]
    {
    }

    /** The indices stay in order exactly when the move is refused or stays within the readable bytes. */
    method MoveReadIndex(n: int)
      requires Valid()
      modifies this, buffer
      ensures buffer == old(buffer) && size == old(size)
      ensures State() == MoveRead(old(State()), n)
      ensures Valid() <==> !(old(writeIndex) < old(readIndex) + n < size)
    {
      var newIndex := readIndex + n;
      if newIndex < 0 || newIndex >= buffer.Length {
        return;
      }
      readIndex := newIndex;
      AdjustBuffer();
    }

    method MoveWriteIndex(n: int)
      requires Valid()
      modifies this, buffer
      ensures buffer == old(buffer) && size == old(size)
      ensures State() == MoveWrite(old(State()), n)
      ensures Valid() <==> !(0 <= old(writeIndex) + n < old(readIndex))
    {
      var newIndex := writeIndex + n;
      if newIndex < 0 || newIndex >= buffer.Length {
        return;
      }
      writeIndex := newIndex;
      AdjustBuffer();
    }
  }
}
