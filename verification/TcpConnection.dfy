/** One TCP connection: in-buffer, out-buffer, and the callbacks waiting for writes and replies. */
module TcpConnections {
  import opened Bytes
  import opened TcpBuffers
  import opened TinyPB
  import opened TinyPBCoder
  import opened ReadPath
  import opened Correlation

  datatype TcpState = NotConnected | Connected | HalfClosing | Closed

  datatype ConnectionType = ByServer | ByClient

  /** A message object with its done callback. */
  type Pushed = (TinyPBProtocol, Callback)

  function Objects(ps: seq<Pushed>): (objects: seq<TinyPBProtocol>)
    ensures |objects| == |ps| && forall k :: 0 <= k < |ps| ==> objects[k] == ps[k].0
  {
    if ps == [] then [] else [ps[0].0] + Objects(ps[1..])
  }

  /** A message object whose done callback has run, with the value that was encoded. */
  datatype Sent = Sent(message: TinyPBProtocol, done: Callback, value: Message)

  ghost function Sents(ps: seq<Pushed>, values: seq<Message>): (ss: seq<Sent>)
    requires |ps| == |values|
    ensures |ss| == |ps| && forall k :: 0 <= k < |ps| ==> ss[k] == Sent(ps[k].0, ps[k].1, values[k])
  {
    seq(|ps|, k requires 0 <= k < |ps| => Sent(ps[k].0, ps[k].1, values[k]))
  }

  ghost function Pairs(ss: seq<Sent>): (ps: seq<Pushed>)
    ensures |ps| == |ss| && forall k :: 0 <= k < |ss| ==> ps[k] == (ss[k].message, ss[k].done)
  {
    seq(|ss|, k requires 0 <= k < |ss| => (ss[k].message, ss[k].done))
  }

  ghost function SentValues(ss: seq<Sent>): (ms: seq<Message>)
    ensures |ms| == |ss| && forall k :: 0 <= k < |ss| ==> ms[k] == ss[k].value
  {
    seq(|ss|, k requires 0 <= k < |ss| => ss[k].value)
  }

  lemma SentMore(ss: seq<Sent>, ps: seq<Pushed>, values: seq<Message>)
    requires |ps| == |values|
    ensures Pairs(ss + Sents(ps, values)) == Pairs(ss) + ps
    ensures SentValues(ss + Sents(ps, values)) == SentValues(ss) + values
  {
  }

  /** More has been encoded since the earlier sends. */
  lemma EncodeMore(wire: seq<seq<byte>>, ms: seq<Message>, counts: seq<nat>, added: seq<Message>)
    requires SendsEverything(wire, ms, counts) && AllEncodable(added)
    ensures SendsEverything(wire, ms + added, counts) && Stream(ms + added) == Stream(ms) + Stream(added)
  {
    hide Stream, Encodable;
    StreamAppend(ms, added);
    forall k | 0 <= k < |wire|
      ensures wire[k] == Stream((ms + added)[..counts[k]])
    {
      assert (ms + added)[..counts[k]] == ms[..counts[k]];
    }
  }

  lemma SendAll(wire: seq<seq<byte>>, ms: seq<Message>, counts: seq<nat>)
    requires SendsEverything(wire, ms, counts)
    ensures SendsEverything(wire + [Stream(ms)], ms, counts + [|ms|])
  {
    hide Stream, Encodable;
    assert ms[..|ms|] == ms;
  }

  /** A message object that had the first value has been encoded and has the second. */
  ghost predicate IsSent(before: Message, after: Message) {
    Encodable(before) && after == Encoded(before)
  }

  class TcpConnection {
    var inBuffer: TcpBuffer
    var outBuffer: TcpBuffer
    var state: TcpState
    const kind: ConnectionType
    var writeDone: seq<Pushed>
    var client: Client
    var watchesIn: bool
    var watchesOut: bool

    // History
    ghost var encoded: seq<Message>      // everything ever encoded into the out-buffer
    ghost var wire: seq<seq<byte>>       // the bytes of each successful write
    ghost var counts: seq<nat>           // how much of encoded each write carried
    ghost var pushed: seq<Pushed>        // everything pushed by pushSendMessage
    ghost var doneRan: seq<Sent>         // the done callbacks run, with their message and its encoded value

    ghost predicate Valid()
      reads this`inBuffer, this`outBuffer, this`encoded, this`wire, this`counts
      reads inBuffer, outBuffer, inBuffer.buffer, outBuffer.buffer
    {
      && inBuffer != outBuffer && inBuffer.buffer != outBuffer.buffer
      && inBuffer.Valid() && inBuffer.writeIndex < inBuffer.size
      && OutValid()
    }

    /** The out-buffer still holds everything ever encoded, and each write sent all there was. */
    ghost predicate OutValid()
      reads this`outBuffer, this`encoded, this`wire, this`counts, outBuffer, outBuffer.buffer
    {
      && outBuffer.Valid() && SendsEverything(wire, encoded, counts)
      && outBuffer.State().Readable() == Stream(encoded)
    }

    /** On a client: the messages pushed are those called back, in push order, followed by those that wait; and the
        messages encoded are exactly the values of those called back, in the same order. */
    ghost predicate SendsInOrder()
      reads this`pushed, this`doneRan, this`writeDone, this`encoded
    {
      pushed == Pairs(doneRan) + writeDone && encoded == SentValues(doneRan)
    }

    constructor (bufferSize: nat, kind: ConnectionType)
      requires 0 < bufferSize <= INT_MAX
      ensures Valid() && SendsInOrder()
      ensures fresh(inBuffer) && fresh(outBuffer) && fresh(inBuffer.buffer) && fresh(outBuffer.buffer)
      ensures this.kind == kind && state == NotConnected && pushed == [] && wire == [] && client == Client(map[], [])
      ensures inBuffer.State() == View(Zeros(bufferSize), 0, 0) && outBuffer.State() == View(Zeros(bufferSize), 0, 0)
      ensures watchesIn == (kind == ByServer) && !watchesOut && writeDone == [] && encoded == [] && doneRan == []
    {
      inBuffer := new TcpBuffer(bufferSize);
      outBuffer := new TcpBuffer(bufferSize);
      state, this.kind, writeDone, client := NotConnected, kind, [], Client(map[], []);
      watchesIn, watchesOut := kind == ByServer, false;
      encoded, wire, counts, doneRan, pushed := [], [], [], [], [];
      new;
      NothingSent();
    }

    /** The argument is ignored. */
    method SetState(state: TcpState)
      modifies this`state
      ensures this.state == Connected
    {
      this.state := Connected;
    }

    method Shutdown()
      modifies this`state
      ensures state == if old(state) == Closed || old(state) == NotConnected then old(state) else HalfClosing
    {
      if state == Closed || state == NotConnected {
        return;
      }
      state := HalfClosing;
    }

    method Clear()
      modifies this`state, this`watchesIn, this`watchesOut
      ensures state == Closed
      ensures if old(state) != Closed then !watchesIn && !watchesOut
              else watchesIn == old(watchesIn) && watchesOut == old(watchesOut)
    {
      if state == Closed {
        return;
      }
      watchesIn, watchesOut := false, false;
      state := Closed;
    }

    method PushSendMessage(message: TinyPBProtocol, done: Callback)
      modifies this`writeDone, this`pushed
      ensures writeDone == old(writeDone) + [(message, done)] && pushed == old(pushed) + [(message, done)]
      ensures old(SendsInOrder()) ==> SendsInOrder()
    {
      writeDone := writeDone + [(message, done)];
      pushed := pushed + [(message, done)];
    }

    method PushReadMessage(msgId: Id, done: Callback)
      modifies this`client
      ensures client.ran == old(client.ran) && client.readDone.Keys == old(client.readDone.Keys) + {msgId}
      ensures client.readDone[msgId] == if msgId in old(client.readDone) then old(client.readDone)[msgId] else done
      ensures forall id <- old(client.readDone) :: client.readDone[id] == old(client.readDone)[id]
      ensures client == Register(old(client), msgId, done)
    {
      if msgId !in client.readDone {
        client := client.(readDone := client.readDone[msgId := done]);
      }
    }

    /** Encodes into the out-buffer and asks to be told when the socket is writable. */
    method Reply(messages: seq<TinyPBProtocol>)
      requires Valid() && FramesFit(outBuffer.State(), Values(messages))
      modifies this`encoded, this`watchesOut, outBuffer, outBuffer.buffer, messages
      ensures Valid() && watchesOut
      ensures outBuffer.buffer == old(outBuffer.buffer) || fresh(outBuffer.buffer)
      ensures encoded == old(encoded) + old(Values(messages))
      ensures forall k :: 0 <= k < |messages| ==> IsSent(old(Values(messages))[k], messages[k].Value())
    {
      hide SendsEverything, Stream, FramesFit, IsSent;
      EncodeAll(messages);
      watchesOut := true;
    }

    method EncodeAll(messages: seq<TinyPBProtocol>)
      requires OutValid() && FramesFit(outBuffer.State(), Values(messages))
      modifies this`encoded, outBuffer, outBuffer.buffer, messages
      ensures OutValid() && encoded == old(encoded) + old(Values(messages))
      ensures outBuffer.buffer == old(outBuffer.buffer) || fresh(outBuffer.buffer)
      ensures forall k :: 0 <= k < |messages| ==> IsSent(old(Values(messages))[k], messages[k].Value())
    {
      hide Stream, WriteFrames, FramesFit, Encoded, Encodable, SendsEverything;
      ghost var added := Values(messages);
      Encode(messages, outBuffer);
      EncodeMore(wire, encoded, counts, added);
      encoded := encoded + added;
    }

    /** One writable event. Writes are all-or-nothing; failures counts the attempts that fail with an error
        other than EAGAIN before one succeeds (ready) or would block. Nothing is ever taken out of the out-buffer. */
    method OnWrite(failures: nat, ready: bool)
      requires Valid()
      requires state == Connected && kind == ByClient ==> FramesFit(outBuffer.State(), Values(Objects(writeDone)))
      modifies this`state, this`watchesIn, this`watchesOut, this`writeDone, this`encoded, this`wire, this`counts,
               this`doneRan, outBuffer, outBuffer.buffer, Objects(writeDone)
      ensures Valid() && (kind == ByClient && old(SendsInOrder()) ==> SendsInOrder())
      ensures outBuffer.buffer == old(outBuffer.buffer) || fresh(outBuffer.buffer)
      ensures old(state) != Connected ==>
        && state == Closed && writeDone == old(writeDone) && encoded == old(encoded)
        && wire == old(wire) && doneRan == old(doneRan)
      ensures old(state) == Connected ==>
        && state == Connected && writeDone == []
        && encoded == old(encoded) + (if kind == ByClient then old(Values(Objects(writeDone))) else [])
        && doneRan == old(doneRan)
          + (if kind == ByClient then Sents(old(writeDone), old(Values(Objects(writeDone)))) else [])
        && wire == old(wire) + (if ready && Stream(encoded) != [] then [Stream(encoded)] else [])
        && watchesOut == (old(watchesOut) && !ready && Stream(encoded) != [])
      ensures old(state) == Connected && kind == ByClient ==> forall k :: 0 <= k < |old(writeDone)| ==>
        IsSent(old(Values(Objects(writeDone)))[k], old(writeDone)[k].0.Value())
    {
      hide SendsEverything, Stream, FramesFit, Objects, Values, Sents, Pairs, SentValues, IsSent;
      if state != Connected {
        Clear();
        return;
      }
      ghost var ss, ps, values := doneRan, writeDone, Values(Objects(writeDone));
      WriteConnected(failures, ready);
      SentMore(ss, ps, values);
      assert Pairs(ss) + ps + [] == Pairs(ss) + ps;
    }

    method WriteConnected(failures: nat, ready: bool)
      requires Valid()
      requires kind == ByClient ==> FramesFit(outBuffer.State(), Values(Objects(writeDone)))
      modifies this`watchesOut, this`writeDone, this`encoded, this`wire, this`counts, this`doneRan,
               outBuffer, outBuffer.buffer, Objects(writeDone)
      ensures Valid() && writeDone == []
      ensures outBuffer.buffer == old(outBuffer.buffer) || fresh(outBuffer.buffer)
      ensures encoded == old(encoded) + (if kind == ByClient then old(Values(Objects(writeDone))) else [])
      ensures doneRan == old(doneRan)
        + (if kind == ByClient then Sents(old(writeDone), old(Values(Objects(writeDone)))) else [])
      ensures wire == old(wire) + (if ready && Stream(encoded) != [] then [Stream(encoded)] else [])
      ensures watchesOut == (old(watchesOut) && !ready && Stream(encoded) != [])
      ensures kind == ByClient ==> forall k :: 0 <= k < |old(writeDone)| ==>
        IsSent(old(Values(Objects(writeDone)))[k], old(writeDone)[k].0.Value())
    {
      hide SendsEverything, Stream, FramesFit, Objects, Values, Sents, IsSent, Valid, OutValid;
      ghost var values := Values(Objects(writeDone));
      EncodePending();
      var isWriteAll := WriteOut(failures, ready);
      if isWriteAll {
        watchesOut := false;
      }
      if kind == ByClient {
        doneRan := doneRan + Sents(writeDone, values);
      }
      writeDone := [];
    }

    /** A client encodes what has been pushed. */
    method EncodePending()
      requires Valid()
      requires kind == ByClient ==> FramesFit(outBuffer.State(), Values(Objects(writeDone)))
      modifies this`encoded, outBuffer, outBuffer.buffer, Objects(writeDone)
      ensures Valid()
      ensures outBuffer.buffer == old(outBuffer.buffer) || fresh(outBuffer.buffer)
      ensures encoded == old(encoded) + (if kind == ByClient then old(Values(Objects(writeDone))) else [])
      ensures kind == ByClient ==> forall k :: 0 <= k < |writeDone| ==>
        IsSent(old(Values(Objects(writeDone)))[k], writeDone[k].0.Value())
    {
      hide SendsEverything, Stream, FramesFit, Objects, IsSent;
      if kind == ByClient {
        EncodeAll(Objects(writeDone));
      }
    }

    method WriteOut(failures: nat, ready: bool) returns (isWriteAll: bool)
      requires Valid()
      modifies this`wire, this`counts
      ensures Valid()
      ensures isWriteAll <==> ready || Stream(encoded) == []
      ensures wire == old(wire) + (if ready && Stream(encoded) != [] then [Stream(encoded)] else [])
    {
      hide Stream;
      isWriteAll := false;
      var failed := 0;
      while true
        invariant !isWriteAll && Valid() && wire == old(wire) && failed <= failures
        decreases failures - failed
      {
        if outBuffer.ReadAble() == 0 {
          assert outBuffer.State().Readable() == [];
          isWriteAll := true;
          break;
        }
        assert outBuffer.State().Readable() != [];
        if failed < failures {
          failed := failed + 1;
        } else if ready {
          SendAll(wire, encoded, counts);
          wire, counts := wire + [outBuffer.State().Readable()], counts + [|encoded|];
          isWriteAll := true;
          break;
        } else {
          break;
        }
      }
    }

    /** One readable event; decode is followed for at most limit iterations. A server returns the requests for its
        dispatcher; a client runs callbacks. Neither happens while decode goes on. */
    method OnRead(rs: seq<ReadResult>, limit: nat) returns (requests: seq<TinyPBProtocol>, verdict: Verdict)
      requires Valid() && (state == Connected ==> Plausible(inBuffer.State(), rs))
      modifies this`state, this`watchesIn, this`watchesOut, this`client, inBuffer, inBuffer.buffer
      ensures Valid()
      ensures old(state) != Connected ==>
        state == Closed && client == old(client) && inBuffer.State() == old(inBuffer.State()) && requests == []
      ensures old(state) == Connected ==>
        var filled := ReadLoop(old(inBuffer.State()), rs);
        && filled.Valid() && filled.Readable() == old(inBuffer.State().Readable()) + Kept(rs)
        && (if rs[|rs| - 1].Eof?
            then state == Closed && client == old(client) && inBuffer.State() == filled && requests == []
            else
              var d := Turns(filled, limit);
              && state == Connected && verdict == d.verdict
              && (verdict == GoesOn ==> inBuffer.State() == d.view && client == old(client) && requests == [])
              && (verdict == Finished ==>
                    && inBuffer.State() == d.view
                    && (kind == ByClient ==> client == DispatchAll(old(client), d.messages) && requests == [])
                    && (kind == ByServer ==> client == old(client) && Values(requests) == d.messages)))
    {
      hide SendsEverything, Stream, ReadLoop, Plausible, Turns, DispatchAll;
      requests, verdict := [], Finished;
      if state != Connected {
        Clear();
        return;
      }
      ReadLoopKeepsLast(inBuffer.State(), rs);
      var isClose := FillFrom(inBuffer, rs);
      if isClose {
        Clear();
        return;
      }
      requests, verdict := Execute(limit);
    }

    method Execute(limit: nat) returns (requests: seq<TinyPBProtocol>, verdict: Verdict)
      requires Valid()
      modifies this`client, inBuffer, inBuffer.buffer
      ensures Valid()
      ensures var d := Turns(old(inBuffer.State()), limit);
        && verdict == d.verdict
        && (verdict == GoesOn ==> inBuffer.State() == d.view && client == old(client) && requests == [])
        && (verdict == Finished ==>
              && inBuffer.State() == d.view
              && (kind == ByClient ==> client == DispatchAll(old(client), d.messages) && requests == [])
              && (kind == ByServer ==> client == old(client) && Values(requests) == d.messages))
    {
      hide SendsEverything, Stream, Turns;
      requests := [];
      var result;
      result, verdict := Decode(inBuffer, limit);
      if verdict != Finished {
        return;
      }
      if kind == ByServer {
        requests := result;
      } else {
        RunCallbacks(result);
      }
    }

    method RunCallbacks(result: seq<TinyPBProtocol>)
      modifies this`client
      ensures client == DispatchAll(old(client), Values(result))
    {
      ghost var ms := Values(result);
      for i := 0 to |result|
        invariant DispatchAll(client, ms[i..]) == DispatchAll(old(client), ms)
      {
        assert ms[i..][0] == ms[i] && ms[i..][1..] == ms[i + 1..];
        var msgId := result[i].msgId;
        if msgId in client.readDone {
          client := Client(client.readDone - {msgId}, client.ran + [(client.readDone[msgId], result[i].Value())]);
        }
      }
    }
  }

  // ---------------------------------------------------------------------
  // Whole runs of a client
  // ---------------------------------------------------------------------

  datatype Command = Push(message: TinyPBProtocol, done: Callback) | Writable(failures: nat, ready: bool)

  ghost function Subjects(commands: seq<Command>): set<TinyPBProtocol> {
    set k | 0 <= k < |commands| && commands[k].Push? :: commands[k].message
  }

  ghost function PushedBy(commands: seq<Command>): seq<Pushed> {
    if commands == [] then []
    else
      var n := |commands| - 1;
      PushedBy(commands[..n]) + (if commands[n].Push? then [(commands[n].message, commands[n].done)] else [])
  }

  ghost predicate SameFrame(before: Message, value: Message) {
    Encodable(before) && Encodable(value) && Frame(value) == Frame(before)
  }

  ghost predicate SentOrNot(before: Message, value: Message) {
    value == before || IsSent(before, value)
  }

  lemma SentAgain(before: Message, value: Message, after: Message)
    requires SentOrNot(before, value) && IsSent(value, after)
    ensures IsSent(before, after)
  {
    if Encodable(before) {
      EncodedIsStable(before);
    }
  }

  lemma SentHasSameFrame(before: Message, value: Message)
    requires SentOrNot(before, value) && Encodable(value)
    ensures SameFrame(before, value)
  {
    if Encodable(before) {
      EncodedIsStable(before);
    }
  }

  ghost predicate StillInitial(initial: map<TinyPBProtocol, Message>)
    reads initial.Keys
  {
    forall m <- initial :: SentOrNot(initial[m], m.Value())
  }

  ghost predicate RecordsInitial(ps: seq<Pushed>, ss: seq<Sent>, initial: map<TinyPBProtocol, Message>) {
    && (forall p <- ps :: p.0 in initial)
    && (forall s <- ss :: s.message in initial && SentOrNot(initial[s.message], s.value))
  }

  lemma RecordsMore(ps: seq<Pushed>, ss: seq<Sent>, values: seq<Message>, initial: map<TinyPBProtocol, Message>)
    requires RecordsInitial(ps, ss, initial) && |values| == |ps|
    requires forall k :: 0 <= k < |ps| ==> SentOrNot(initial[ps[k].0], values[k])
    ensures RecordsInitial([], ss + Sents(ps, values), initial)
  {
    hide SentOrNot;
  }

  /** A client in a run: the values of its messages, and those recorded when they were sent, are the
      ones at the start of the run, before or after encoding. */
  ghost predicate Running(connection: TcpConnection, initial: map<TinyPBProtocol, Message>)
    reads connection, connection.inBuffer, connection.outBuffer, connection.inBuffer.buffer, connection.outBuffer.buffer
    reads initial.Keys
  {
    && connection.Valid() && connection.SendsInOrder()
    && connection.kind == ByClient && connection.state == Connected
    && StillInitial(initial) && RecordsInitial(connection.writeDone, connection.doneRan, initial)
  }

  /** The frames of everything that waits fit the out-buffer and its growth. */
  predicate PendingFits(connection: TcpConnection)
    reads connection, connection.outBuffer, connection.outBuffer.buffer, Objects(connection.writeDone)
  {
    FramesFit(connection.outBuffer.State(), Values(Objects(connection.writeDone)))
  }

  method Write(connection: TcpConnection, failures: nat, ready: bool, ghost initial: map<TinyPBProtocol, Message>)
    requires Running(connection, initial) && PendingFits(connection)
    modifies connection`writeDone, connection`state, connection`watchesIn, connection`watchesOut,
             connection`encoded, connection`wire, connection`counts, connection`doneRan,
             connection.outBuffer, connection.outBuffer.buffer, initial.Keys
    ensures Running(connection, initial) && connection.writeDone == []
    ensures connection.outBuffer.buffer == old(connection.outBuffer.buffer) || fresh(connection.outBuffer.buffer)
  {
    hide SendsEverything, Stream, FramesFit, Values, IsSent, Pairs, SentValues, TcpConnection.Valid,
         TcpConnection.OutValid, RecordsInitial;
    ghost var ps, ss, values := connection.writeDone, connection.doneRan, Values(Objects(connection.writeDone));
    PendingInitial(ps, ss, initial);
    RecordsMore(ps, ss, values, initial);
    connection.OnWrite(failures, ready);
    forall m | m in initial
      ensures SentOrNot(initial[m], m.Value())
    {
      if IsSent(old(m.Value()), m.Value()) {
        SentAgain(initial[m], old(m.Value()), m.Value());
      }
    }
  }

  /** What waits has its initial value, before or after encoding. */
  lemma PendingInitial(ps: seq<Pushed>, ss: seq<Sent>, initial: map<TinyPBProtocol, Message>)
    requires StillInitial(initial) && RecordsInitial(ps, ss, initial)
    ensures forall k :: 0 <= k < |ps| ==> ps[k].0 in initial && Objects(ps)[k] in initial.Keys
    ensures forall k :: 0 <= k < |ps| ==> SentOrNot(initial[ps[k].0], Values(Objects(ps))[k])
  {
    hide SentOrNot;
    assert forall k :: 0 <= k < |ps| ==> ps[k] in ps;
  }

  ghost function InitialValues(subjects: set<TinyPBProtocol>): map<TinyPBProtocol, Message>
    reads subjects
  {
    map m | m in subjects :: m.Value()
  }

  lemma StartsRunning(connection: TcpConnection, subjects: set<TinyPBProtocol>)
    requires connection.Valid() && connection.SendsInOrder() && connection.pushed == []
    requires connection.kind == ByClient && connection.state == Connected
    ensures Running(connection, InitialValues(subjects))
  {
    hide SendsEverything, Stream, Pairs;
    assert |Pairs(connection.doneRan) + connection.writeDone| == 0;
  }

  /** Over every run of pushes and writable events, up to a write whose frames the grown buffer cannot hold: the
      messages pushed have been encoded and called back exactly once, in push order, or wait; each write
      carried the frames of all messages encoded by then (Valid); and every frame encoded is the one of the
      value that its message had at the start, however often the message was pushed. */
  method RunClient(connection: TcpConnection, commands: seq<Command>) returns (steps: nat)
    requires connection.Valid() && connection.SendsInOrder() && connection.pushed == []
    requires connection.kind == ByClient && connection.state == Connected
    modifies connection, connection.outBuffer, connection.outBuffer.buffer, Subjects(commands)
    ensures steps <= |commands|
    ensures steps < |commands| ==> commands[steps].Writable? && !PendingFits(connection)
    ensures connection.Valid() && connection.SendsInOrder()
    ensures connection.pushed == PushedBy(commands[..steps])
    ensures steps > 0 && commands[steps - 1].Writable? ==> connection.writeDone == []
    ensures forall s <- connection.doneRan ::
      s.message in Subjects(commands) && SameFrame(old(s.message.Value()), s.value)
  {
    hide Running, SameFrame, Values, PendingFits, TcpConnection.Valid, TcpConnection.SendsInOrder;
    ghost var initial := InitialValues(Subjects(commands));
    StartsRunning(connection, Subjects(commands));
    steps := 0;
    while steps < |commands|
      invariant steps <= |commands|
      invariant Running(connection, initial)
      invariant connection.outBuffer == old(connection.outBuffer)
      invariant connection.outBuffer.buffer == old(connection.outBuffer.buffer) || fresh(connection.outBuffer.buffer)
      invariant connection.pushed == PushedBy(commands[..steps])
      invariant steps > 0 && commands[steps - 1].Writable? ==> connection.writeDone == []
    {
      assert commands[..steps + 1][..steps] == commands[..steps];
      match commands[steps] {
        case Push(message, done) => Push(connection, message, done, initial);
        case Writable(failures, ready) =>
          if !PendingFits(connection) {
            break;
          }
          Write(connection, failures, ready, initial);
      }
      steps := steps + 1;
    }
    SentSame(connection, initial);
  }

  method Push(connection: TcpConnection, message: TinyPBProtocol, done: Callback,
              ghost initial: map<TinyPBProtocol, Message>)
    requires Running(connection, initial) && message in initial
    modifies connection`writeDone, connection`pushed
    ensures Running(connection, initial) && connection.pushed == old(connection.pushed) + [(message, done)]
  {
    hide SendsEverything, Stream;
    connection.PushSendMessage(message, done);
  }

  lemma SentSame(connection: TcpConnection, initial: map<TinyPBProtocol, Message>)
    requires Running(connection, initial)
    ensures connection.Valid() && connection.SendsInOrder()
    ensures forall s <- connection.doneRan :: s.message in initial && SameFrame(initial[s.message], s.value)
  {
    hide SendsEverything, Stream, SentOrNot, SameFrame, Pairs, SentValues;
    forall s | s in connection.doneRan
      ensures SameFrame(initial[s.message], s.value)
    {
      EncodedWhenSent(connection, s);
      SentHasSameFrame(initial[s.message], s.value);
    }
  }

  lemma EverythingEncodable(wire: seq<seq<byte>>, ms: seq<Message>, counts: seq<nat>)
    requires SendsEverything(wire, ms, counts)
    ensures AllEncodable(ms)
  {
  }

  lemma EncodedWhenSent(connection: TcpConnection, s: Sent)
    requires connection.Valid() && connection.SendsInOrder() && s in connection.doneRan
    ensures Encodable(s.value)
  {
    hide SendsEverything, Stream, Encodable;
    assert AllEncodable(connection.encoded) by {
      EverythingEncodable(connection.wire, connection.encoded, connection.counts);
    }
    var k :| 0 <= k < |connection.doneRan| && connection.doneRan[k] == s;
    assert connection.encoded[k] == s.value;
  }
}
