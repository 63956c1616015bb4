/** Encoding messages into a TcpBuffer and decoding them out of one. */
module TinyPBCoder {
  import opened Bytes
  import opened Sequences
  import opened TcpBuffers
  import opened TinyPB

  // ---------------------------------------------------------------------
  // Encoding
  // ---------------------------------------------------------------------

  ghost predicate AllEncodable(ms: seq<Message>) {
    forall k :: 0 <= k < |ms| ==> Encodable(ms[k])
  }

  ghost function Frames(ms: seq<Message>): (fs: seq<seq<byte>>)
    requires AllEncodable(ms)
    ensures |fs| == |ms| && forall k :: 0 <= k < |ms| ==> fs[k] == Frame(ms[k])
  {
    if ms == [] then [] else [Frame(ms[0])] + Frames(ms[1..])
  }

  lemma {:induction false} FramesTake(ms: seq<Message>, k: nat)
    requires AllEncodable(ms) && k <= |ms|
    ensures Frames(ms[..k]) == Frames(ms)[..k]
  {
    var taken := Frames(ms[..k]);
    assert forall j :: 0 <= j < k ==> taken[j] == Frames(ms)[j];
  }

  lemma {:induction false} FramesDrop(ms: seq<Message>, k: nat)
    requires AllEncodable(ms) && k <= |ms|
    ensures Frames(ms[k..]) == Frames(ms)[k..]
  {
    var dropped := Frames(ms[k..]);
    assert forall j :: 0 <= j < |ms| - k ==> dropped[j] == Frames(ms)[k + j];
  }

  /** The frames of a list of messages, one after the other. */
  ghost function Stream(ms: seq<Message>): seq<byte>
    requires AllEncodable(ms)
  {
    Flatten(Frames(ms))
  }

  lemma StreamCons(ms: seq<Message>)
    requires AllEncodable(ms) && ms != []
    ensures Stream(ms) == Frame(ms[0]) + Stream(ms[1..])
  {
    FramesDrop(ms, 1);
  }

  lemma StreamAppend(a: seq<Message>, b: seq<Message>)
    requires AllEncodable(a) && AllEncodable(b)
    ensures AllEncodable(a + b) && Stream(a + b) == Stream(a) + Stream(b)
  {
    hide Frame, Encodable, Flatten;
    var ms := a + b;
    FramesTake(ms, |a|);
    FramesDrop(ms, |a|);
    assert ms[..|a|] == a && ms[|a|..] == b;
    assert Frames(ms) == Frames(ms)[..|a|] + Frames(ms)[|a|..];
    FlattenAppend(Frames(a), Frames(b));
  }

  predicate FramesFit(v: View, ms: seq<Message>)
    decreases |ms|
  {
    ms == []
    || (v.Valid() && Encodable(ms[0]) && WriteFits(v, FrameLength(ms[0])) && FramesFit(Write(v, Frame(ms[0])), ms[1..]))
  }

  ghost function WriteFrames(v: View, ms: seq<Message>): View
    requires FramesFit(v, ms)
    decreases |ms|
  {
    if ms == [] then v else WriteFrames(Write(v, Frame(ms[0])), ms[1..])
  }

  lemma {:induction false} FramesFitEncodable(v: View, ms: seq<Message>)
    requires FramesFit(v, ms)
    ensures AllEncodable(ms)
    decreases |ms|
  {
    if ms != [] {
      FramesFitEncodable(Write(v, Frame(ms[0])), ms[1..]);
      assert forall k :: 0 < k < |ms| ==> ms[k] == ms[1..][k - 1];
    }
  }

  /** Encoding appends the frames to the unread bytes. */
  lemma {:induction false} WriteFramesAppends(v: View, ms: seq<Message>)
    requires v.Valid() && FramesFit(v, ms) && AllEncodable(ms)
    ensures WriteFrames(v, ms).Valid() && WriteFrames(v, ms).Readable() == v.Readable() + Stream(ms)
    decreases |ms|
  {
    if ms != [] {
      WriteAppends(v, Frame(ms[0]));
      WriteFramesAppends(Write(v, Frame(ms[0])), ms[1..]);
      StreamCons(ms);
      Assoc(v.Readable(), Frame(ms[0]), Stream(ms[1..]));
    }
  }

  lemma WriteFramesStep(v: View, ms: seq<Message>, k: nat)
    requires k < |ms| && FramesFit(v, ms[k..])
    ensures v.Valid() && Encodable(ms[k]) && WriteFits(v, FrameLength(ms[k]))
    ensures FramesFit(Write(v, Frame(ms[k])), ms[k + 1..])
    ensures WriteFrames(v, ms[k..]) == WriteFrames(Write(v, Frame(ms[k])), ms[k + 1..])
  {
    assert ms[k] == ms[k..][0] && ms[k..][1..] == ms[k + 1..];
  }

  method EncodeTinyPB(message: TinyPBProtocol) returns (buffer: array<byte>)
    requires Encodable(message.Value())
    modifies message
    ensures fresh(buffer)
    ensures buffer[..] == Frame(old(message.Value()))
    ensures message.Value() == Encoded(old(message.Value()))
  {
    ghost var m := message.Value();
    if message.msgId == [] {
      message.msgId := DEFAULT_MSG_ID;
    }
    assert message.Value() == m.(msgId := SentId(m));
    FilledInId(m);
    buffer := Serialize(message);
    SetLengths(message, buffer.Length);
  }

  method SetLengths(message: TinyPBProtocol, pkLen: int32)
    requires Encodable(message.Value())
    modifies message
    ensures var m := old(message.Value());
      message.Value() == m.(pkLength := pkLen, msgIdLen := |m.msgId|, methodNameLen := |m.methodName|,
                            errInfoLen := |m.errInfo|, parseSuccess := true)
  {
    message.pkLength, message.msgIdLen := pkLen, |message.msgId|;
    message.methodNameLen, message.errInfoLen := |message.methodName|, |message.errInfo|;
    message.parseSuccess := true;
  }

  /** The part of encodeTinyPB that fills the new array at its write position. */
  method Serialize(message: TinyPBProtocol) returns (buffer: array<byte>)
    requires Encodable(message.Value()) && message.msgId != []
    ensures fresh(buffer)
    ensures buffer[..] == Frame(message.Value())
  {
    ghost var m := message.Value();
    var pkLen := 2 + 24 + |message.msgId| + |message.methodName| + |message.errInfo| + |message.pbBody|;
    buffer := new byte[pkLen](_ => 0);
    var tmp := PutTextInt(buffer, 0, [PB_START], pkLen);
    tmp := Put(buffer, tmp, ToNet(|message.msgId|));
    assert buffer[..tmp] == HeadToId(m);
    tmp := PutTextInt(buffer, tmp, message.msgId, |message.methodName|);
    tmp := PutTextInt(buffer, tmp, message.methodName, message.errCode);
    tmp := Put(buffer, tmp, ToNet(|message.errInfo|));
    tmp := PutText(buffer, tmp, message.errInfo);
    assert buffer[..tmp] == HeadToBody(m);
    tmp := PutTextInt(buffer, tmp, message.pbBody, 1);
    buffer[tmp] := PB_END;
    assert buffer[..] == buffer[..tmp] + [PB_END];
  }

  /** memcpy at the write position, which then moves behind the copy. */
  method Put(buffer: array<byte>, at: nat, bytes: seq<byte>) returns (next: nat)
    requires at + |bytes| <= buffer.Length
    modifies buffer
    ensures next == at + |bytes|
    ensures buffer[..next] == old(buffer[..at]) + bytes
  {
    CopyInto(buffer, at, bytes);
    next := at + |bytes|;
  }

  /** The copy is skipped for an empty string. */
  method PutText(buffer: array<byte>, at: nat, text: seq<byte>) returns (next: nat)
    requires at + |text| <= buffer.Length
    modifies buffer
    ensures next == at + |text|
    ensures buffer[..next] == old(buffer[..at]) + text
  {
    next := at;
    if text != [] {
      next := Put(buffer, at, text);
    }
  }

  /** A text, then a 32-bit int in network byte order. */
  method PutTextInt(buffer: array<byte>, at: nat, text: seq<byte>, x: int32) returns (next: nat)
    requires at + |text| + 4 <= buffer.Length
    modifies buffer
    ensures next == at + |text| + 4
    ensures buffer[..next] == old(buffer[..at]) + text + ToNet(x)
  {
    next := PutText(buffer, at, text);
    next := Put(buffer, next, ToNet(x));
  }

  function Values(ps: seq<TinyPBProtocol>): (ms: seq<Message>)
    reads ps
    ensures |ms| == |ps| && forall k :: 0 <= k < |ps| ==> ms[k] == ps[k].Value()
  {
    if ps == [] then [] else [ps[0].Value()] + Values(ps[1..])
  }

  /** The first k objects have been encoded, and so have later occurrences of them. */
  ghost predicate EncodedUpTo(messages: seq<TinyPBProtocol>, ms: seq<Message>, k: nat)
    reads messages
  {
    && |messages| == |ms| && k <= |ms| && AllEncodable(ms)
    && (forall i, j :: 0 <= i < |ms| && 0 <= j < |ms| && messages[i] == messages[j] ==> ms[i] == ms[j])
    && (forall j :: 0 <= j < |ms| ==> messages[j].Value() == ms[j] || messages[j].Value() == Encoded(ms[j]))
    && (forall j :: 0 <= j < k ==> messages[j].Value() == Encoded(ms[j]))
  }

  /** What is left to encode leads to the given buffer. */
  ghost predicate EncodesTo(v: View, ms: seq<Message>, final: View) {
    FramesFit(v, ms) && WriteFrames(v, ms) == final
  }

  /** The same object may occur more than once. */
  method Encode(messages: seq<TinyPBProtocol>, outBuffer: TcpBuffer)
    requires outBuffer.Valid() && FramesFit(outBuffer.State(), Values(messages))
    modifies messages, outBuffer, outBuffer.buffer
    ensures outBuffer.Valid() && (outBuffer.buffer == old(outBuffer.buffer) || fresh(outBuffer.buffer))
    ensures outBuffer.State() == WriteFrames(old(outBuffer.State()), old(Values(messages)))
    ensures EncodedUpTo(messages, old(Values(messages)), |messages|)
    ensures outBuffer.State().Readable() == old(outBuffer.State().Readable()) + Stream(old(Values(messages)))
  {
    ghost var v, ms := outBuffer.State(), Values(messages);
    FramesFitEncodable(v, ms);
    WriteFramesAppends(v, ms);
    ghost var final := WriteFrames(v, ms);
    assert ms[0..] == ms;
    NothingEncoded(messages);
    hide Frame, Stream, FramesFit, WriteFrames, AllEncodable, EncodedUpTo, Values;
    for k := 0 to |messages|
      invariant outBuffer.Valid() && (outBuffer.buffer == old(outBuffer.buffer) || fresh(outBuffer.buffer))
      invariant EncodesTo(outBuffer.State(), ms[k..], final)
      invariant EncodedUpTo(messages, ms, k)
    {
      EncodeNth(messages, k, outBuffer, ms, final);
    }
    assert ms[|ms|..] == [];
    EncodesNothing(outBuffer.State(), final);
  }

  lemma NothingEncoded(messages: seq<TinyPBProtocol>)
    requires AllEncodable(Values(messages))
    ensures EncodedUpTo(messages, Values(messages), 0)
  {
  }

  lemma EncodesNothing(v: View, final: View)
    requires EncodesTo(v, [], final)
    ensures v == final
  {
  }

  /** One round of the loop. */
  method EncodeNth(messages: seq<TinyPBProtocol>, k: nat, outBuffer: TcpBuffer, ghost ms: seq<Message>,
                   ghost final: View)
    requires k < |messages| && EncodedUpTo(messages, ms, k)
    requires outBuffer.Valid() && EncodesTo(outBuffer.State(), ms[k..], final)
    modifies messages[k], outBuffer, outBuffer.buffer
    ensures outBuffer.Valid() && (outBuffer.buffer == old(outBuffer.buffer) || fresh(outBuffer.buffer))
    ensures EncodedUpTo(messages, ms, k + 1) && EncodesTo(outBuffer.State(), ms[k + 1..], final)
  {
    WriteFramesStep(outBuffer.State(), ms, k);
    hide Frame, FramesFit, WriteFrames, Encodable, Encoded, WriteFits, TcpBuffers.Write;
    EncodeOne(messages[k], outBuffer, ms[k]);
  }

  method EncodeOne(message: TinyPBProtocol, outBuffer: TcpBuffer, ghost m: Message)
    requires Encodable(m) && (message.Value() == m || message.Value() == Encoded(m))
    requires outBuffer.Valid() && WriteFits(outBuffer.State(), FrameLength(m))
    modifies message, outBuffer, outBuffer.buffer
    ensures outBuffer.Valid() && (outBuffer.buffer == old(outBuffer.buffer) || fresh(outBuffer.buffer))
    ensures outBuffer.State() == Write(old(outBuffer.State()), Frame(m))
    ensures message.Value() == Encoded(m)
  {
    EncodedIsStable(m);
    var buffer := EncodeTinyPB(message);
    outBuffer.WriteToBuffer(buffer[..]);
  }

  // ---------------------------------------------------------------------
  // The scan for a frame
  // ---------------------------------------------------------------------

  /** What the scan concludes at one index. OutOfBounds: the four length bytes or the end position lie
      outside the storage, or the end position overflows an int. */
  datatype Test = Pass(pkLen: int32) | Fail | OutOfBounds

  function TestAt(tmp: seq<byte>, i: nat, write: nat): (t: Test)
    requires i < write <= |tmp|
    ensures t.Pass? ==> i + 1 < write && i + 5 <= |tmp| && t.pkLen == FromNet(tmp, i + 1) && 1 <= i + t.pkLen <= write
    ensures t.Pass? ==> tmp[i] == PB_START && tmp[i + t.pkLen - 1] == PB_END && t.pkLen != 1
  {
    if tmp[i] == PB_START && i + 1 < write then
      if !IntFits(tmp, i + 1) then OutOfBounds
      else
        var pkLen := FromNet(tmp, i + 1);
        var j := i + pkLen - 1;
        if i + pkLen > INT_MAX then OutOfBounds
        else if j >= write then Fail
        else if j < 0 then OutOfBounds
        else if tmp[j] == PB_END then Pass(pkLen) else Fail
    else Fail
  }

  /** When exactly a position passes. */
  lemma TestPassesIff(tmp: seq<byte>, i: nat, write: nat, pkLen: int32)
    requires i < write <= |tmp|
    ensures TestAt(tmp, i, write) == Pass(pkLen) <==>
      && tmp[i] == 0x02 && i + 1 < write && i + 5 <= |tmp| && pkLen == FromNet(tmp, i + 1)
      && i + pkLen <= 0x7fff_ffff && 1 <= i + pkLen <= write && tmp[i + pkLen - 1] == 0x03
  {
  }

  datatype Scanned = Found(start: nat, pkLen: int32) | NotFound | Broken

  function Scan(tmp: seq<byte>, i: nat, write: nat): (s: Scanned)
    requires i <= write <= |tmp|
    ensures s.Found? ==> i <= s.start < write && TestAt(tmp, s.start, write) == Pass(s.pkLen)
    decreases write - i
  {
    if i == write then NotFound
    else
      match TestAt(tmp, i, write)
      case Pass(pkLen) => Found(i, pkLen)
      case OutOfBounds => Broken
      case Fail => Scan(tmp, i + 1, write)
  }

  /** The scan stops at the first index whose test does not fail. */
  lemma {:induction false} ScanIsFirst(tmp: seq<byte>, i: nat, k: nat, write: nat)
    requires i <= k <= write <= |tmp|
    requires forall j :: i <= j < k ==> TestAt(tmp, j, write) == Fail
    ensures Scan(tmp, i, write) == Scan(tmp, k, write)
    decreases k - i
  {
    if i < k {
      ScanIsFirst(tmp, i + 1, k, write);
    }
  }

  lemma {:induction false} ScanFindsNothingIff(tmp: seq<byte>, i: nat, write: nat)
    requires i <= write <= |tmp|
    ensures Scan(tmp, i, write) == NotFound <==> forall k :: i <= k < write ==> TestAt(tmp, k, write) == Fail
    decreases write - i
  {
    if i < write {
      ScanFindsNothingIff(tmp, i + 1, write);
    }
  }

  method FindFrame(tmp: seq<byte>, read: nat, write: nat) returns (found: Scanned)
    requires read <= write <= |tmp|
    ensures found == Scan(tmp, read, write)
  {
    var i := read;
    while i < write
      invariant read <= i <= write
      invariant Scan(tmp, read, write) == Scan(tmp, i, write)
    {
      if tmp[i] == PB_START {
        if i + 1 < write {
          if i + 5 > |tmp| {
            return Broken;
          }
          var pkLen := FromNet(tmp, i + 1);
          if i + pkLen > INT_MAX {
            return Broken;
          }
          var j := i + pkLen - 1;
          if j >= write {
            i := i + 1;
            continue;
          }
          if j < 0 {
            return Broken;
          }
          if tmp[j] == PB_END {
            return Found(i, pkLen);
          }
        }
      }
      i := i + 1;
    }
    return NotFound;
  }

  // ---------------------------------------------------------------------
  // Decoding
  // ---------------------------------------------------------------------

  /** What one iteration of decode does: it ends the call, its behaviour is undefined, or it moves the
      read index and pushes a message or none. */
  datatype Turn = Returns | Breaks | Goes(output: seq<Message>, view: View)

  /** The frame is parsed from the snapshot taken before the read index moved. */
  function TurnOf(v: View): (t: Turn)
    requires v.Valid()
    ensures t.Returns? <==> Scan(v.data, v.read, v.write) == NotFound
    ensures t.Goes? ==> t.view.Valid() && |t.view.data| == |v.data| && t.view.write <= v.write && |t.output| <= 1
  {
    match Scan(v.data, v.read, v.write)
    case NotFound => Returns
    case Broken => Breaks
    case Found(start, pkLen) =>
      match ParseFrame(v.data, start, pkLen)
      case Parsed(m) => Goes([m], MoveRead(v, pkLen))
      case Dropped => Goes([], MoveRead(v, pkLen))
      case Undefined => Breaks
  }

  /** Where a call of decode is: it has returned, its behaviour is undefined, or it goes on. */
  datatype Verdict = Finished | Faulted | GoesOn

  datatype Decoded = Decoded(messages: seq<Message>, view: View, verdict: Verdict)

  /** The outputs so far, followed by those of the rest of the call. */
  function Behind(done: seq<Message>, d: Decoded): Decoded {
    d.(messages := done + d.messages)
  }

  /** The first n iterations of a call of decode. A call need not come to an end. */
  function Turns(v: View, n: nat): (d: Decoded)
    requires v.Valid()
    ensures d.view.Valid() && |d.view.data| == |v.data| && d.view.write <= v.write
    ensures d.verdict == Finished ==> Scan(d.view.data, d.view.read, d.view.write) == NotFound
    decreases n
  {
    if n == 0 then Decoded([], v, GoesOn)
    else
      match TurnOf(v)
      case Returns => Decoded([], v, Finished)
      case Breaks => Decoded([], v, Faulted)
      case Goes(output, view) => Behind(output, Turns(view, n - 1))
  }

  /** A call of decode for as long as each iteration leaves fewer unread bytes than there were before. */
  function DecodeAll(v: View): (d: Decoded)
    requires v.Valid()
    ensures d.view.Valid() && |d.view.data| == |v.data| && d.view.write <= v.write
    ensures |d.view.Readable()| <= |v.Readable()|
    ensures d.verdict == Finished ==> Scan(d.view.data, d.view.read, d.view.write) == NotFound
    decreases |v.Readable()|
  {
    match TurnOf(v)
    case Returns => Decoded([], v, Finished)
    case Breaks => Decoded([], v, Faulted)
    case Goes(output, view) =>
      if |view.Readable()| >= |v.Readable()| then Decoded([], v, GoesOn) else Behind(output, DecodeAll(view))
  }

  /** How many iterations that is. */
  function TurnCount(v: View): (n: nat)
    requires v.Valid()
    ensures n <= |v.Readable()| + 1
    decreases |v.Readable()|
  {
    match TurnOf(v)
    case Goes(_, view) => if |view.Readable()| >= |v.Readable()| then 0 else 1 + TurnCount(view)
    case _ => 1
  }

  lemma {:induction false} DecodeAllIsTurns(v: View)
    requires v.Valid()
    ensures Turns(v, TurnCount(v)) == DecodeAll(v)
    decreases |v.Readable()|
  {
    hide TurnOf, Scan;
    var t := TurnOf(v);
    if t.Goes? && |t.view.Readable()| < |v.Readable()| {
      DecodeAllIsTurns(t.view);
    }
  }

  /** Following a call for m iterations, then for n more. */
  lemma {:induction false} TurnsAdd(v: View, m: nat, n: nat)
    requires v.Valid()
    ensures var d := Turns(v, m);
      Turns(v, m + n) == if d.verdict == GoesOn then Behind(d.messages, Turns(d.view, n)) else d
    decreases m
  {
    hide TurnOf, Scan;
    var t := TurnOf(v);
    if m == 0 {
      NothingBehind(Turns(v, n));
    } else if t.Goes? {
      TurnsAdd(t.view, m - 1, n);
      var d := Turns(t.view, m - 1);
      BehindBehind(t.output, d.messages, Turns(d.view, n));
    }
  }

  lemma NothingBehind(d: Decoded)
    ensures Behind([], d) == d
  {
    assert [] + d.messages == d.messages;
  }

  lemma BehindBehind(a: seq<Message>, b: seq<Message>, d: Decoded)
    ensures Behind(a, Behind(b, d)) == Behind(a + b, d)
  {
    Assoc(a, b, d.messages);
  }

  /** A call that ends while making progress all the time has ended after one iteration per byte and one more. */
  lemma EndedTurns(v: View, n: nat)
    requires v.Valid() && n > |v.Readable()| && DecodeAll(v).verdict != GoesOn
    ensures Turns(v, n) == DecodeAll(v)
  {
    hide Turns, DecodeAll, TurnCount;
    DecodeAllIsTurns(v);
    TurnsAdd(v, TurnCount(v), n - TurnCount(v));
  }

  function Copies<T>(s: seq<T>, n: nat): (copies: seq<T>)
    ensures |copies| == n * |s|
  {
    if n == 0 then [] else s + Copies(s, n - 1)
  }

  /** An iteration that changes nothing is repeated for ever, output and all. */
  lemma {:induction false} RepeatedForever(v: View, output: seq<Message>, n: nat)
    requires v.Valid() && TurnOf(v) == Goes(output, v)
    ensures Turns(v, n) == Decoded(Copies(output, n), v, GoesOn)
  {
    hide TurnOf;
    if n > 0 {
      RepeatedForever(v, output, n - 1);
    }
  }

  // ---------------------------------------------------------------------
  // The imperative decoder
  // ---------------------------------------------------------------------

  /** How far the parsing of a frame into its message object has come. */
  datatype Stage = Reached(at: nat) | Ended(why: Parse)

  ghost predicate Achieves(h: Header, stage: Stage, m: Message) {
    match h
    case Header(message, at) => stage == Reached(at) && m == message
    case NoHeader(why) => stage == Ended(why)
  }

  method ParseIdInto(tmp: seq<byte>, start: nat, pkLen: int32, m: TinyPBProtocol) returns (stage: Stage)
    requires m.Value() == EMPTY_MESSAGE
    modifies m
    ensures Achieves(ParseId(tmp, start, pkLen), stage, m.Value())
  {
    m.pkLength := pkLen;
    var end := start + pkLen - 1;
    var idLenAt := start + 5;
    if idLenAt >= end {
      return Ended(Dropped);
    }
    if !IntFits(tmp, idLenAt) {
      return Ended(Parse.Undefined);
    }
    m.msgIdLen := FromNet(tmp, idLenAt);
    var idAt := idLenAt + 4;
    if !CopyFits(tmp, idAt, m.msgIdLen, MSG_ID_CAPACITY) {
      return Ended(Parse.Undefined);
    }
    m.msgId := tmp[idAt..idAt + m.msgIdLen];
    return Reached(idAt + m.msgIdLen);
  }

  method ParseMethodInto(tmp: seq<byte>, nameLenAt: nat, end: int, m: TinyPBProtocol) returns (stage: Stage)
    modifies m
    ensures Achieves(ParseMethod(tmp, nameLenAt, end, old(m.Value())), stage, m.Value())
  {
    if nameLenAt >= end {
      return Ended(Dropped);
    }
    if !IntFits(tmp, nameLenAt) {
      return Ended(Parse.Undefined);
    }
    m.methodNameLen := FromNet(tmp, nameLenAt);
    var nameAt := nameLenAt + 4;
    if !CopyFits(tmp, nameAt, m.methodNameLen, TEXT_CAPACITY) {
      return Ended(Parse.Undefined);
    }
    m.SetMethodName(tmp[nameAt..nameAt + m.methodNameLen]);
    return Reached(nameAt + m.methodNameLen);
  }

  method ParseErrorInto(tmp: seq<byte>, codeAt: nat, end: int, m: TinyPBProtocol) returns (stage: Stage)
    modifies m
    ensures Achieves(ParseError(tmp, codeAt, end, old(m.Value())), stage, m.Value())
  {
    if codeAt >= end {
      return Ended(Dropped);
    }
    if !IntFits(tmp, codeAt) {
      return Ended(Parse.Undefined);
    }
    m.errCode := FromNet(tmp, codeAt);
    var infoLenAt := codeAt + 4;
    if infoLenAt >= end {
      return Ended(Dropped);
    }
    if !IntFits(tmp, infoLenAt) {
      return Ended(Parse.Undefined);
    }
    m.errInfoLen := FromNet(tmp, infoLenAt);
    var infoAt := infoLenAt + 4;
    if !CopyFits(tmp, infoAt, m.errInfoLen, TEXT_CAPACITY) || !TextEnds(tmp[infoAt..infoAt + m.errInfoLen]) {
      return Ended(Parse.Undefined);
    }
    m.SetErrInfo(CString(tmp[infoAt..infoAt + m.errInfoLen]));
    return Reached(infoAt);
  }

  method ParseHeaderInto(tmp: seq<byte>, start: nat, pkLen: int32, m: TinyPBProtocol) returns (stage: Stage)
    requires m.Value() == EMPTY_MESSAGE
    modifies m
    ensures Achieves(ParseHeader(tmp, start, pkLen), stage, m.Value())
  {
    hide ParseId, ParseMethod, ParseError;
    var end := start + pkLen - 1;
    stage := ParseIdInto(tmp, start, pkLen, m);
    if stage.Reached? {
      stage := ParseMethodInto(tmp, stage.at, end, m);
    }
    if stage.Reached? {
      stage := ParseErrorInto(tmp, stage.at, end, m);
    }
  }

  /** The message object built from one frame; null when the frame is dropped. */
  method ParseMessage(tmp: seq<byte>, start: nat, pkLen: int32) returns (message: TinyPBProtocol?, ok: bool)
    ensures message != null ==> fresh(message)
    ensures match ParseFrame(tmp, start, pkLen)
      case Parsed(m) => ok && message != null && message.Value() == m
      case Dropped => ok && message == null
      case Undefined => !ok && message == null
  {
    var m := new TinyPBProtocol();
    var stage := ParseHeaderInto(tmp, start, pkLen, m);
    if stage.Ended? {
      return null, stage.why == Dropped;
    }
    var bodyLen := BodyLength(m.Value());
    var bodyAt := stage.at + m.errInfoLen;
    if !CopyFits(tmp, bodyAt, bodyLen, INT_MAX) {
      return null, false;
    }
    m.pbBody := tmp[bodyAt..bodyAt + bodyLen];
    m.parseSuccess := true;
    return m, true;
  }

  /** The body of the loop. */
  method DecodeOnce(buffer: TcpBuffer) returns (message: TinyPBProtocol?, verdict: Verdict)
    requires buffer.Valid()
    modifies buffer, buffer.buffer
    ensures buffer.Valid() && buffer.buffer == old(buffer.buffer)
    ensures buffer.size == old(buffer.size) && buffer.writeIndex <= old(buffer.writeIndex)
    ensures message != null ==> fresh(message)
    ensures match TurnOf(old(buffer.State()))
      case Returns => verdict == Finished && message == null && buffer.State() == old(buffer.State())
      case Breaks => verdict == Faulted && message == null
      case Goes(output, view) =>
        verdict == GoesOn && buffer.State() == view && output == (if message == null then [] else [message.Value()])
  {
    hide ParseFrame, Scan, TestAt, MoveRead;
    message, verdict := null, Finished;
    var tmp := buffer.buffer[..];
    var found := FindFrame(tmp, buffer.readIndex, buffer.writeIndex);
    match found {
      case NotFound =>
      case Broken => verdict := Faulted;
      case Found(start, pkLen) =>
        buffer.MoveReadIndex(pkLen);
        var ok;
        message, ok := ParseMessage(tmp, start, pkLen);
        verdict := if ok then GoesOn else Faulted;
    }
  }

  /** The state of the call after one iteration more. */
  function Continue(done: seq<Message>, v: View, t: Turn, n: nat): Decoded
    requires t.Goes? ==> t.view.Valid()
  {
    if t.Returns? then Decoded(done, v, Finished)
    else if t.Breaks? then Decoded(done, v, Faulted)
    else Behind(done + t.output, Turns(t.view, n))
  }

  lemma TurnsContinue(v: View, done: seq<Message>, n: nat)
    requires v.Valid()
    ensures Behind(done, Turns(v, n + 1)) == Continue(done, v, TurnOf(v), n)
  {
    hide TurnOf;
    var t := TurnOf(v);
    assert done + [] == done;
    if t.Goes? {
      BehindBehind(done, t.output, Turns(t.view, n));
    }
  }

  /** The loop, for at most limit iterations. */
  method Decode(buffer: TcpBuffer, limit: nat) returns (out: seq<TinyPBProtocol>, verdict: Verdict)
    requires buffer.Valid()
    modifies buffer, buffer.buffer
    ensures buffer.Valid() && buffer.buffer == old(buffer.buffer)
    ensures buffer.size == old(buffer.size) && buffer.writeIndex <= old(buffer.writeIndex)
    ensures forall k :: 0 <= k < |out| ==> fresh(out[k])
    ensures var d := Turns(old(buffer.State()), limit);
      Values(out) == d.messages && verdict == d.verdict && (verdict != Faulted ==> buffer.State() == d.view)
  {
    hide Turns, TurnOf, Values;
    out, verdict := [], GoesOn;
    NoValues();
    ghost var d := Turns(buffer.State(), limit);
    NothingBehind(d);
    for k := 0 to limit
      invariant buffer.Valid() && buffer.buffer == old(buffer.buffer)
      invariant buffer.size == old(buffer.size) && buffer.writeIndex <= old(buffer.writeIndex)
      invariant forall j :: 0 <= j < |out| ==> fresh(out[j])
      invariant verdict == GoesOn && d == Behind(Values(out), Turns(buffer.State(), limit - k))
    {
      ghost var done := Values(out);
      TurnsContinue(buffer.State(), done, limit - k - 1);
      var message;
      message, verdict := DecodeOnce(buffer);
      assert Values(out) == done;
      if verdict != GoesOn {
        return;
      }
      assert done + [] == done;
      if message != null {
        ValuesSnoc(out, message);
        out := out + [message];
      }
    }
    NoTurns(buffer.State());
    assert Values(out) + [] == Values(out);
  }

  lemma NoTurns(v: View)
    requires v.Valid()
    ensures Turns(v, 0) == Decoded([], v, GoesOn)
  {
  }

  lemma NoValues()
    ensures Values([]) == []
  {
  }

  lemma ValuesSnoc(ps: seq<TinyPBProtocol>, p: TinyPBProtocol)
    ensures Values(ps + [p]) == Values(ps) + [p.Value()]
  {
  }
}
