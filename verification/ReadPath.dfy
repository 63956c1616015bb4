/** The read side of a connection: filling the in-buffer from the socket, then decoding it. */
module ReadPath {
  import opened Bytes
  import opened TcpBuffers
  import opened TinyPB
  import opened TinyPBCoder
  import opened Streaming

  /** What one read(2) returned. Interrupted: an error other than EAGAIN. */
  datatype ReadResult = Data(bytes: seq<byte>) | Eof | WouldBlock | Interrupted

  /** The growth at the head of the read loop. */
  function MakeRoom(v: View): View
    requires v.Valid() && 2 * |v.data| <= INT_MAX
  {
    if v.write == |v.data| then Resize(v, 2 * |v.data|) else v
  }

  /** The results are what a kernel can return to this loop: at least one byte and at most the free space
      per read, and the last result is the one that ends the loop. */
  ghost predicate Plausible(v: View, rs: seq<ReadResult>)
    decreases |rs|
  {
    && v.Valid() && 2 * |v.data| <= INT_MAX && rs != []
    && (var room := MakeRoom(v);
        match rs[0]
        case Data(bytes) =>
          && 0 < |bytes| <= |room.data| - room.write
          && (if |bytes| == |room.data| - room.write
              then Plausible(MoveWrite(Filled(room, bytes), |bytes|), rs[1..])
              else |rs| == 1)
        case Interrupted => Plausible(room, rs[1..])
        case _ => |rs| == 1)
  }

  /** The in-buffer after the read loop. */
  ghost function ReadLoop(v: View, rs: seq<ReadResult>): View
    requires Plausible(v, rs)
    decreases |rs|
  {
    var room := MakeRoom(v);
    match rs[0]
    case Data(bytes) =>
      var after := MoveWrite(Filled(room, bytes), |bytes|);
      if |bytes| == |room.data| - room.write then ReadLoop(after, rs[1..]) else after
    case Interrupted => ReadLoop(room, rs[1..])
    case _ => room
  }

  /** The read loop itself. */
  method FillFrom(buffer: TcpBuffer, rs: seq<ReadResult>) returns (closed: bool)
    requires buffer.Valid() && Plausible(buffer.State(), rs)
    modifies buffer, buffer.buffer
    ensures buffer.Valid() <==> ReadLoop(old(buffer.State()), rs).Valid()
    ensures buffer.buffer == old(buffer.buffer) || fresh(buffer.buffer)
    ensures buffer.State() == ReadLoop(old(buffer.State()), rs)
    ensures closed <==> rs[|rs| - 1].Eof?
  {
    ghost var v := buffer.State();
    var k := 0;
    while true
      invariant k < |rs| && buffer.Valid() && Plausible(buffer.State(), rs[k..])
      invariant buffer.buffer == old(buffer.buffer) || fresh(buffer.buffer)
      invariant ReadLoop(buffer.State(), rs[k..]) == ReadLoop(v, rs)
      decreases |rs| - k
    {
      var again := ReadOnce(buffer, rs[k], rs[k..]);
      if !again {
        closed := rs[k].Eof?;
        return;
      }
      assert rs[k..][1..] == rs[k + 1..];
      k := k + 1;
    }
  }

  method ReadOnce(buffer: TcpBuffer, result: ReadResult, ghost rs: seq<ReadResult>) returns (again: bool)
    requires buffer.Valid() && Plausible(buffer.State(), rs) && result == rs[0]
    modifies buffer, buffer.buffer
    ensures buffer.buffer == old(buffer.buffer) || fresh(buffer.buffer)
    ensures buffer.Valid() <==> buffer.State().Valid()
    ensures !again ==> |rs| == 1 && buffer.State() == ReadLoop(old(buffer.State()), rs)
    ensures again ==>
      Plausible(buffer.State(), rs[1..]) && ReadLoop(buffer.State(), rs[1..]) == ReadLoop(old(buffer.State()), rs)
  {
    hide Filled, MoveWrite, Resize;
    if buffer.WriteAble() == 0 {
      buffer.ResizeBuffer(2 * buffer.buffer.Length);
    }
    ghost var room := buffer.State();
    assert room == MakeRoom(old(buffer.State()));
    var readCount := buffer.WriteAble();
    match result {
      case Data(bytes) =>
        Fill(buffer, bytes);
        buffer.MoveWriteIndex(|bytes|);
        return |bytes| == readCount;
      case Eof => return false;
      case WouldBlock => return false;
      case Interrupted => return true;
    }
  }

  /** The bytes of the read that ended the loop. */
  function Kept(rs: seq<ReadResult>): seq<byte> {
    if rs != [] && rs[|rs| - 1].Data? then rs[|rs| - 1].bytes else []
  }

  /** read(2) puts bytes behind the write index. */
  method Fill(buffer: TcpBuffer, bytes: seq<byte>)
    requires buffer.Valid() && |bytes| <= |buffer.State().data| - buffer.State().write
    modifies buffer.buffer
    ensures buffer.Valid() && buffer.State() == Filled(old(buffer.State()), bytes)
  {
    CopyInto(buffer.buffer, buffer.writeIndex, bytes);
  }

  function BytesOf(r: ReadResult): seq<byte> {
    if r.Data? then r.bytes else []
  }

  /** All bytes the kernel handed over. */
  function HandedOver(rs: seq<ReadResult>): seq<byte> {
    if rs == [] then [] else BytesOf(rs[0]) + HandedOver(rs[1..])
  }

  /** While the write index is below the capacity the buffer never grows, and of all bytes read only those
      of a last, short read are appended: a read that fills the space is refused by moveWriteIndex
      and the next one overwrites its bytes. */
  lemma {:induction false} ReadLoopKeepsLast(v: View, rs: seq<ReadResult>)
    requires Plausible(v, rs) && v.write < |v.data|
    ensures var after := ReadLoop(v, rs);
      && after.Valid() && |after.data| == |v.data| && after.write < |after.data|
      && after.Readable() == v.Readable() + Kept(rs)
    decreases |rs|
  {
    hide Filled, MoveWrite, Resize;
    match rs[0]
    case Data(bytes) =>
      FillAppends(v, bytes);
      if |bytes| == |v.data| - v.write {
        var refused := MoveWrite(Filled(v, bytes), |bytes|);
        ReadLoopKeepsLast(refused, rs[1..]);
      }
    case Interrupted => ReadLoopKeepsLast(v, rs[1..]);
    case _ => assert v.Readable() + [] == v.Readable();
  }

  /** A buffer that is full when the loop is entered is doubled first; what was in it stays. */
  lemma FullBufferDoubles(v: View, rs: seq<ReadResult>)
    requires Plausible(v, rs) && v.write == |v.data| > 0
    ensures var after := ReadLoop(v, rs);
      && after.Valid() && |after.data| == 2 * |v.data| && after.write < |after.data|
      && after.Readable() == v.Readable() + Kept(rs)
  {
    var room := MakeRoom(v);
    ResizeKeepsReadableIff(v, 2 * |v.data|);
    ResizeExactly(v, 2 * |v.data|);
    hide Filled, MoveWrite, Resize;
    match rs[0]
    case Data(bytes) =>
      FillAppends(room, bytes);
      if |bytes| == |room.data| - room.write {
        ReadLoopKeepsLast(MoveWrite(Filled(room, bytes), |bytes|), rs[1..]);
      }
    case Interrupted => ReadLoopKeepsLast(room, rs[1..]);
    case _ => assert v.Readable() + [] == v.Readable();
  }

  /** Some result before the last one carries bytes. */
  predicate HasFillingRead(rs: seq<ReadResult>) {
    exists k :: 0 <= k < |rs| - 1 && rs[k].Data?
  }

  lemma {:induction false} KeptIff(v: View, rs: seq<ReadResult>)
    requires Plausible(v, rs)
    ensures if HasFillingRead(rs) then |Kept(rs)| < |HandedOver(rs)| else Kept(rs) == HandedOver(rs)
    decreases |rs|
  {
    assert rs != [];
    hide Filled, MoveWrite, Plausible;
    if |rs| == 1 {
      assert HandedOver(rs[1..]) == [];
      assert HandedOver(rs) == Kept(rs);
    } else {
      PlausibleNext(v, rs);
      KeptIff(AfterFirst(v, rs[0]), rs[1..]);
      KeptOfTail(rs);
    }
  }

  /** The buffer after the first of several results. */
  ghost function AfterFirst(v: View, r: ReadResult): View
    requires v.Valid() && 2 * |v.data| <= INT_MAX && (r.Data? ==> |r.bytes| <= |MakeRoom(v).data| - MakeRoom(v).write)
  {
    var room := MakeRoom(v);
    if r.Data? then MoveWrite(Filled(room, r.bytes), |r.bytes|) else room
  }

  lemma PlausibleNext(v: View, rs: seq<ReadResult>)
    requires Plausible(v, rs) && |rs| > 1
    ensures v.Valid() && 2 * |v.data| <= INT_MAX
    ensures rs[0].Data? ==> 0 < |rs[0].bytes| <= |MakeRoom(v).data| - MakeRoom(v).write
    ensures Plausible(AfterFirst(v, rs[0]), rs[1..])
  {
    hide Filled, MoveWrite;
  }

  lemma KeptOfTail(rs: seq<ReadResult>)
    requires |rs| > 1
    requires if HasFillingRead(rs[1..]) then |Kept(rs[1..])| < |HandedOver(rs[1..])|
             else Kept(rs[1..]) == HandedOver(rs[1..])
    requires rs[0].Data? ==> rs[0].bytes != []
    ensures if HasFillingRead(rs) then |Kept(rs)| < |HandedOver(rs)| else Kept(rs) == HandedOver(rs)
  {
    hide HandedOver, Kept, HasFillingRead;
    LastKept(rs);
    FillingReadOfTail(rs);
    FirstHandedOver(rs);
    LongerThan(BytesOf(rs[0]), Kept(rs[1..]), HandedOver(rs[1..]));
  }

  lemma LongerThan(a: seq<byte>, kept: seq<byte>, rest: seq<byte>)
    requires |kept| <= |rest|
    ensures (a != [] ==> |kept| < |a + rest|) && (a == [] ==> a + rest == rest)
  {
  }

  lemma LastKept(rs: seq<ReadResult>)
    requires |rs| > 1
    ensures Kept(rs) == Kept(rs[1..])
  {
    assert rs[1..][|rs| - 2] == rs[|rs| - 1];
  }

  lemma FirstHandedOver(rs: seq<ReadResult>)
    requires rs != []
    ensures HandedOver(rs) == BytesOf(rs[0]) + HandedOver(rs[1..])
  {
  }

  lemma FillingReadOfTail(rs: seq<ReadResult>)
    requires |rs| > 1
    ensures HasFillingRead(rs) <==> rs[0].Data? || HasFillingRead(rs[1..])
  {
    assert forall k :: 1 <= k < |rs| ==> rs[k] == rs[1..][k - 1];
    if k :| 0 <= k < |rs[1..]| - 1 && rs[1..][k].Data? {
      assert rs[k + 1].Data?;
    }
  }

  /** The in-buffer keeps everything the kernel handed over if and only if no read but the last one carried bytes. */
  lemma ReadLoopExactIff(v: View, rs: seq<ReadResult>)
    requires Plausible(v, rs) && v.write < |v.data|
    ensures ReadLoop(v, rs).Valid()
    ensures ReadLoop(v, rs).Readable() == v.Readable() + HandedOver(rs) <==> !HasFillingRead(rs)
  {
    assert v.Valid();
    hide Plausible, ReadLoop, HasFillingRead, Kept, HandedOver;
    ReadLoopKeepsLast(v, rs);
    KeptIff(v, rs);
    SameRest(v.Readable(), Kept(rs), HandedOver(rs));
  }

  lemma SameRest(a: seq<byte>, b: seq<byte>, c: seq<byte>)
    ensures a + b == a + c <==> b == c
  {
    assert (a + b)[|a|..] == b && (a + c)[|a|..] == c;
  }

  /** It can fail: a read that fills an empty buffer is lost. */
  lemma FillingReadIsLost(bytes: seq<byte>)
    requires |bytes| == 128
    ensures var v, rs := View(Zeros(128), 0, 0), [Data(bytes), WouldBlock];
      && Plausible(v, rs) && HandedOver(rs) == bytes
      && ReadLoop(v, rs).Valid() && ReadLoop(v, rs).Readable() == []
  {
    var v, rs := View(Zeros(128), 0, 0), [Data(bytes), WouldBlock];
    assert rs[1..] == [WouldBlock];
    FillAppends(v, bytes);
    assert Plausible(Filled(v, bytes), rs[1..]);
    assert HandedOver(rs[1..]) == [] by {
      assert rs[1..][1..] == [];
    }
    assert bytes + [] == bytes;
  }

  // ---------------------------------------------------------------------
  // Runs of onRead
  // ---------------------------------------------------------------------

  predicate EndsInEof(rs: seq<ReadResult>) {
    rs != [] && rs[|rs| - 1].Eof?
  }

  /** One onRead after the other: each fills the buffer and decodes it. The end of file ends the run without decoding,
      and a call of decode that does not return lets no other call follow. */
  ghost predicate PlausibleRun(v: View, calls: seq<seq<ReadResult>>)
    decreases |calls|
  {
    calls == []
    || (Plausible(v, calls[0])
        && (if EndsInEof(calls[0]) then |calls| == 1
            else
              var filled := ReadLoop(v, calls[0]);
              && filled.Valid() && (|calls| > 1 ==> DecodeAll(filled).verdict == Finished)
              && PlausibleRun(DecodeAll(filled).view, calls[1..])))
  }

  /** What the calls of decode find in the buffer. */
  ghost function Deliveries(v: View, calls: seq<seq<ReadResult>>): seq<Delivery>
    requires PlausibleRun(v, calls)
    decreases |calls|
  {
    if calls == [] || EndsInEof(calls[0]) then []
    else
      var filled := ReadLoop(v, calls[0]);
      [Delivery(Kept(calls[0]), filled)] + Deliveries(DecodeAll(filled).view, calls[1..])
  }

  /** Over every run the write index stays below the capacity, which never changes, and each
      call appends what its last short read returned to what decode had left. */
  lemma {:induction false} RunDelivers(v: View, calls: seq<seq<ReadResult>>)
    requires v.Valid() && v.write < |v.data| && PlausibleRun(v, calls)
    ensures Delivered(v.Readable(), Deliveries(v, calls))
    ensures forall d <- Deliveries(v, calls) ::
      d.view.Valid() && |d.view.data| == |v.data| && d.view.write < |v.data|
    decreases |calls|
  {
    hide Plausible, ReadLoop, DecodeAll, Kept;
    if calls != [] && !EndsInEof(calls[0]) {
      ReadLoopKeepsLast(v, calls[0]);
      var next := DecodeAll(ReadLoop(v, calls[0])).view;
      RunDelivers(next, calls[1..]);
      var ds := Deliveries(v, calls);
      assert ds[1..] == Deliveries(next, calls[1..]);
    }
  }

  /** All bytes that the kernel handed over in a run. */
  function AllHandedOver(calls: seq<seq<ReadResult>>): seq<byte> {
    if calls == [] then [] else HandedOver(calls[0]) + AllHandedOver(calls[1..])
  }

  /** Some read of a run filled the space. */
  predicate SomeReadFills(calls: seq<seq<ReadResult>>) {
    calls != [] && (HasFillingRead(calls[0]) || SomeReadFills(calls[1..]))
  }

  /** Over every run decode is given all bytes that the kernel handed over if and only if no read filled the space. */
  lemma {:induction false} RunKeepsAllIff(v: View, calls: seq<seq<ReadResult>>)
    requires PlausibleRun(v, calls)
    ensures if SomeReadFills(calls) then |Chunks(Deliveries(v, calls))| < |AllHandedOver(calls)|
            else Chunks(Deliveries(v, calls)) == AllHandedOver(calls)
    decreases |calls|
  {
    hide Plausible, ReadLoop, DecodeAll, Kept, HandedOver, HasFillingRead, EndsInEof;
    if calls != [] {
      KeptIff(v, calls[0]);
      if EndsInEof(calls[0]) {
        EofKeepsNothing(calls[0]);
        assert calls[1..] == [] && !SomeReadFills(calls[1..]) && AllHandedOver(calls[1..]) == [];
      } else {
        var next := DecodeAll(ReadLoop(v, calls[0])).view;
        RunKeepsAllIff(next, calls[1..]);
        assert Deliveries(v, calls)[1..] == Deliveries(next, calls[1..]);
      }
    }
  }

  lemma EofKeepsNothing(rs: seq<ReadResult>)
    requires EndsInEof(rs)
    ensures Kept(rs) == []
  {
  }

  /** A decoded frame lies in front of the write index. */
  lemma {:induction false} DecodedAreSmall(v: View)
    requires v.Valid() && v.write < |v.data|
    ensures forall m <- DecodeAll(v).messages :: m.pkLength < |v.data|
    decreases |v.Readable()|
  {
    hide TurnOf;
    var t := TurnOf(v);
    if t.Goes? {
      OutputIsSmall(v);
      if |t.view.Readable()| < |v.Readable()| {
        DecodedAreSmall(t.view);
      }
    }
  }

  lemma OutputIsSmall(v: View)
    requires v.Valid() && v.write < |v.data| && TurnOf(v).Goes?
    ensures forall m <- TurnOf(v).output :: m.pkLength < |v.data|
  {
    hide ParseFrame, MoveRead;
    var found := Scan(v.data, v.read, v.write);
    if m :| ParseFrame(v.data, found.start, found.pkLen) == Parsed(m) {
      ParsedIsLaidOut(v.data, found.start, found.pkLen, m);
    }
  }

  lemma {:induction false} OutputsAreSmall(ds: seq<Delivery>, capacity: nat)
    requires forall d <- ds :: d.view.Valid() && |d.view.data| == capacity && d.view.write < capacity
    ensures forall m <- Outputs(ds) :: m.pkLength < capacity
  {
    hide DecodeAll;
    if ds != [] {
      DecodedAreSmall(ds[0].view);
      OutputsAreSmall(ds[1..], capacity);
    }
  }

  /** The in-buffer never grows. So over any run no message whose frame is as long as the capacity, or longer,
      is ever decoded, whatever else comes in. */
  lemma LargeFramesNeverArrive(v: View, calls: seq<seq<ReadResult>>, m: Message)
    requires v.Valid() && v.write < |v.data| && PlausibleRun(v, calls)
    requires Encodable(m) && FrameLength(m) >= |v.data|
    ensures forall d <- Deliveries(v, calls) :: d.view.Valid()
    ensures forall x <- Outputs(Deliveries(v, calls)) :: x.pkLength < |v.data|
    ensures Received(m) !in Outputs(Deliveries(v, calls))
  {
    hide Deliveries, Outputs, PlausibleRun;
    RunDelivers(v, calls);
    OutputsAreSmall(Deliveries(v, calls), |v.data|);
  }
}
