/** The server's dispatcher: from a decoded request to the closure that a service runs when it has completed the call,
    and from there to the reply in the connection's out-buffer. */
module RpcDispatchers {
  import opened Bytes
  import opened ErrorCodes
  import opened Sequences
  import opened TcpBuffers
  import opened TinyPB
  import opened TinyPBCoder
  import opened Streaming
  import opened Correlation
  import opened TcpConnections

  const DOT: byte := 0x2e

  type Name = seq<byte>

  /** A service, as the request bodies that each of its methods can parse. */
  type Service = map<Name, seq<byte> -> bool>

  /** How a service completes a call: with a response whose serialisation is the given body, or with one that cannot
      be serialised, where the failed attempt leaves the given bytes in the body. */
  datatype Completion = Answer(body: seq<byte>) | Unserialisable(left: seq<byte>)

  /** An ASCII literal as bytes. */
  function Text(s: string): (bytes: seq<byte>)
    ensures |bytes| == |s|
  {
    if s == "" then [] else [if s[0] < 128 as char then s[0] as int else 0x3f] + Text(s[1..])
  }

  // ---------------------------------------------------------------------
  // Names
  // ---------------------------------------------------------------------

  datatype Split = Split(service: Name, name: Name) | NoSplit

  ghost predicate SplitsAtLastDot(full: Name, s: Split) {
    match s
    case Split(service, name) => full == service + [DOT] + name && DOT !in name
    case NoSplit => DOT !in full
  }

  lemma LastDot(full: Name, s: Split)
    requires SplitsAtLastDot(full, s)
    ensures match s
      case Split(service, name) =>
        && |service| < |full| && full[|service|] == DOT && (forall k :: |service| < k < |full| ==> full[k] != DOT)
        && service == full[..|service|] && name == full[|service| + 1..]
      case NoSplit => forall k :: 0 <= k < |full| ==> full[k] != DOT
  {
    if s.Split? {
      var n := |s.service|;
      assert full[..n] == s.service && full[n + 1..] == s.name;
      assert forall k :: n < k < |full| ==> full[k] == s.name[k - n - 1];
    }
  }

  /** There is exactly one way to split a name at its last dot, and none without a dot. */
  lemma SplitIsUnique(full: Name, s: Split, t: Split)
    requires SplitsAtLastDot(full, s) && SplitsAtLastDot(full, t)
    ensures s == t
  {
    LastDot(full, s);
    LastDot(full, t);
  }

  /** find_last_of. */
  function SplitName(full: Name): (s: Split)
    ensures SplitsAtLastDot(full, s)
  {
    if full == [] then NoSplit
    else
      var n := |full| - 1;
      if full[n] == DOT then Split(full[..n], [])
      else
        match SplitName(full[..n])
        case NoSplit => NoSplit
        case Split(service, name) => Split(service, name + [full[n]])
  }

  // ---------------------------------------------------------------------
  // Replies
  // ---------------------------------------------------------------------

  function WithErrorCode(m: Message, code: int32, info: seq<byte>): Message
    requires |info| <= INT_MAX
  {
    m.(errCode := code, errInfo := info, errInfoLen := |info|)
  }

  /** What becomes of a request: an error stops it, or its service is called. */
  datatype Judgement = Stopped(code: int32) | Accepted

  function Judge(services: map<Name, Service>, request: Message): Judgement {
    match SplitName(request.methodName)
    case NoSplit => Stopped(ERROR_PARSE_SERVICE_NAME)
    case Split(service, name) =>
      if service !in services then Stopped(ERROR_SERVICE_NOT_FOUND)
      else if name !in services[service] then Stopped(ERROR_METHOD_NOT_FOUND)
      else if !services[service][name](request.pbBody) then Stopped(ERROR_FAILED_DESERIALIZE)
      else Accepted
  }

  /** Why a request with this split name is stopped, and with which text. */
  ghost predicate Stops(services: map<Name, Service>, split: Split, body: seq<byte>, code: int32, info: seq<byte>) {
    match split
    case NoSplit => code == ERROR_PARSE_SERVICE_NAME && info == Text("parse service name error")
    case Split(service, name) =>
      if service !in services then code == ERROR_SERVICE_NOT_FOUND && info == Text("service not found")
      else if name !in services[service] then code == ERROR_METHOD_NOT_FOUND && info == Text("method not found")
      else
        && !services[service][name](body)
        && code == ERROR_FAILED_DESERIALIZE && info == Text("deserialize request error")
  }

  /** The service has the method, which can parse the body. */
  ghost predicate Takes(services: map<Name, Service>, split: Split, body: seq<byte>) {
    && split.Split? && split.service in services
    && split.name in services[split.service] && services[split.service][split.name](body)
  }

  function ErrorText(code: int32): (text: seq<byte>)
    ensures |text| < TEXT_CAPACITY
  {
    Text(if code == ERROR_PARSE_SERVICE_NAME then "parse service name error"
         else if code == ERROR_SERVICE_NOT_FOUND then "service not found"
         else if code == ERROR_METHOD_NOT_FOUND then "method not found"
         else if code == ERROR_FAILED_DESERIALIZE then "deserialize request error"
         else "serialize response error")
  }

  /** The response object before anything is known about the call. */
  function Response(request: Message): Message
    requires |request.methodName| <= INT_MAX
  {
    EMPTY_MESSAGE.(msgId := request.msgId, methodName := request.methodName, methodNameLen := |request.methodName|)
  }

  /** The response object after the dispatcher is done with the request. */
  function Prepared(services: map<Name, Service>, request: Message): Message
    requires |request.methodName| <= INT_MAX
  {
    match Judge(services, request)
    case Stopped(code) => WithErrorCode(Response(request), code, ErrorText(code))
    case Accepted => Response(request)
  }

  /** The response object when the closure sends it. */
  function Completed(response: Message, completion: Completion): Message {
    match completion
    case Answer(body) => WithErrorCode(response.(pbBody := body), 0, [])
    case Unserialisable(left) =>
      WithErrorCode(response.(pbBody := left), ERROR_FAILED_SERIALIZE, ErrorText(ERROR_FAILED_SERIALIZE))
  }

  /** What a reply says about how the service completed the call. */
  ghost predicate Carries(reply: Message, completion: Completion) {
    match completion
    case Answer(body) => reply.pbBody == body && reply.errCode == 0 && reply.errInfo == []
    case Unserialisable(left) =>
      && reply.pbBody == left && reply.errCode == ERROR_FAILED_SERIALIZE
      && reply.errInfo == Text("serialize response error")
  }

  // ---------------------------------------------------------------------
  // Runs of a server
  // ---------------------------------------------------------------------

  /** A request is dispatched, or a service runs the closure of an accepted call, whenever and as often as it likes. */
  datatype ServerEvent = Requested(request: Message) | Ran(call: nat, completion: Completion)

  /** The response objects of the accepted calls, and the replies encoded so far. */
  datatype Server = Server(responses: seq<Message>, replies: seq<Message>)

  ghost predicate CanHappen(s: Server, e: ServerEvent) {
    match e
    case Requested(request) => |request.methodName| <= INT_MAX
    case Ran(call, completion) => call < |s.responses| && Encodable(Completed(s.responses[call], completion))
  }

  /** Sending a reply changes the response object, which a second run of the closure sends again. */
  ghost function Serve(services: map<Name, Service>, s: Server, e: ServerEvent): Server
    requires CanHappen(s, e)
  {
    match e
    case Requested(request) =>
      if Judge(services, request).Accepted? then s.(responses := s.responses + [Response(request)]) else s
    case Ran(call, completion) =>
      var reply := Completed(s.responses[call], completion);
      Server(s.responses[call := Encoded(reply)], s.replies + [reply])
  }

  ghost predicate Possible(services: map<Name, Service>, es: seq<ServerEvent>)
    decreases |es|, 0
  {
    es == []
    || (Possible(services, es[..|es| - 1]) && CanHappen(ServeAll(services, es[..|es| - 1]), es[|es| - 1]))
  }

  ghost function ServeAll(services: map<Name, Service>, es: seq<ServerEvent>): Server
    requires Possible(services, es)
    decreases |es|, 1
  {
    if es == [] then Server([], []) else Serve(services, ServeAll(services, es[..|es| - 1]), es[|es| - 1])
  }

  /** The requests whose services were called; the k-th of them is call k. */
  ghost function Calls(services: map<Name, Service>, es: seq<ServerEvent>): seq<Message> {
    if es == [] then []
    else
      var e := es[|es| - 1];
      Calls(services, es[..|es| - 1])
      + (if e.Requested? && Judge(services, e.request).Accepted? then [e.request] else [])
  }

  /** The calls whose closures ran, in that order. */
  ghost function Runs(es: seq<ServerEvent>): seq<nat> {
    if es == [] then []
    else
      var e := es[|es| - 1];
      Runs(es[..|es| - 1]) + (if e.Ran? then [e.call] else [])
  }

  /** How these were completed. */
  ghost function Completions(es: seq<ServerEvent>): seq<Completion> {
    if es == [] then []
    else
      var e := es[|es| - 1];
      Completions(es[..|es| - 1]) + (if e.Ran? then [e.completion] else [])
  }

  /** The message answers the request: same id, same method. */
  ghost predicate Answers(reply: Message, request: Message) {
    SentId(reply) == SentId(request) && reply.methodName == request.methodName
  }

  ghost predicate Matched(s: Server, calls: seq<Message>, runs: seq<nat>, completions: seq<Completion>) {
    && |s.responses| == |calls| && |s.replies| == |runs| == |completions|
    && (forall j :: 0 <= j < |runs| ==> Carries(s.replies[j], completions[j]))
    && (forall k :: 0 <= k < |calls| ==> Answers(s.responses[k], calls[k]))
    && (forall j :: 0 <= j < |runs| ==> runs[j] < |calls| && Answers(s.replies[j], calls[runs[j]]))
  }

  lemma ServeMatches(services: map<Name, Service>, s: Server, e: ServerEvent, calls: seq<Message>, runs: seq<nat>,
                     completions: seq<Completion>)
    requires CanHappen(s, e) && Matched(s, calls, runs, completions)
    ensures var more := if e.Requested? && Judge(services, e.request).Accepted? then [e.request] else [];
      Matched(Serve(services, s, e), calls + more, runs + (if e.Ran? then [e.call] else []),
              completions + (if e.Ran? then [e.completion] else []))
  {
    hide Judge, Carries, Completed, Answers;
    match e
    case Requested(request) =>
      assert runs + [] == runs && calls + [] == calls && completions + [] == completions;
      ResponseAnswers(request);
    case Ran(call, completion) =>
      assert calls + [] == calls;
      CompletedCarries(s.responses[call], completion);
      CompletedAnswers(s.responses[call], completion, calls[call]);
  }

  lemma ResponseAnswers(request: Message)
    requires |request.methodName| <= INT_MAX
    ensures Answers(Response(request), request)
  {
  }

  lemma CompletedCarries(response: Message, completion: Completion)
    ensures Carries(Completed(response, completion), completion)
    ensures Encodable(Completed(response, completion)) ==> Carries(Encoded(Completed(response, completion)), completion)
    ensures Completed(response, completion).msgId == response.msgId
    ensures Completed(response, completion).methodName == response.methodName
  {
    hide Text;
  }

  lemma CompletedAnswers(response: Message, completion: Completion, request: Message)
    requires Answers(response, request)
    ensures Answers(Completed(response, completion), request)
    ensures Encodable(Completed(response, completion)) ==> Answers(Encoded(Completed(response, completion)), request)
  {
  }

  /** Over every run there is one reply for each time a closure ran, in that order, under the id and method of the
      request of its call, and it carries what the service completed the call with; requests stopped by an error have
      no call and so no reply. */
  lemma {:induction false} RepliesMatchCalls(services: map<Name, Service>, es: seq<ServerEvent>)
    requires Possible(services, es)
    ensures Matched(ServeAll(services, es), Calls(services, es), Runs(es), Completions(es))
    ensures forall request <- Calls(services, es) ::
      exists split :: SplitsAtLastDot(request.methodName, split) && Takes(services, split, request.pbBody)
  {
    hide Judge, Serve, CanHappen, Matched, Takes, SplitsAtLastDot;
    if es == [] {
      NothingMatched();
    } else {
      var earlier, e := es[..|es| - 1], es[|es| - 1];
      RepliesMatchCalls(services, earlier);
      ServeMatches(services, ServeAll(services, earlier), e, Calls(services, earlier), Runs(earlier),
                   Completions(earlier));
      if e.Requested? {
        JudgedRight(services, e.request);
      }
    }
  }

  lemma NothingMatched()
    ensures Matched(Server([], []), [], [], [])
  {
  }

  /** The judgement in terms of the name and the registered services. */
  lemma JudgedRight(services: map<Name, Service>, request: Message)
    ensures SplitsAtLastDot(request.methodName, SplitName(request.methodName))
    ensures Judge(services, request) == Accepted <==> Takes(services, SplitName(request.methodName), request.pbBody)
    ensures Judge(services, request).Stopped? ==>
      var code := Judge(services, request).code;
      Stops(services, SplitName(request.methodName), request.pbBody, code, ErrorText(code))
  {
    hide SplitName, SplitsAtLastDot, Text;
  }

  /** Services that run each closure at most once, for requests with different ids, give different ids to all
      replies. */
  lemma AtMostOneReplyEach(services: map<Name, Service>, es: seq<ServerEvent>)
    requires Possible(services, es) && DistinctIds(Calls(services, es))
    requires forall i, j :: 0 <= i < j < |Runs(es)| ==> Runs(es)[i] != Runs(es)[j]
    ensures DistinctIds(ServeAll(services, es).replies)
  {
    hide Possible, ServeAll, Calls, Runs, Completions;
    RepliesMatchCalls(services, es);
    var replies, calls, runs := ServeAll(services, es).replies, Calls(services, es), Runs(es);
    forall i, j | 0 <= i < j < |replies|
      ensures SentId(replies[i]) != SentId(replies[j])
    {
      var a, b := runs[i], runs[j];
      assert a < b || b < a;
    }
  }

  /** The service of a request with this id was called and has run its closure. */
  ghost predicate AnsweredFor(services: map<Name, Service>, es: seq<ServerEvent>, id: Id) {
    exists j :: 0 <= j < |Runs(es)| && Runs(es)[j] < |Calls(services, es)|
      && SentId(Calls(services, es)[Runs(es)[j]]) == id
  }

  /** What of it a client gets to see: the body of a reply with an err_info runs too long. */
  ghost predicate Tells(m: Message, completion: Completion) {
    match completion
    case Answer(body) => m.pbBody == body && m.errCode == 0 && m.errInfo == []
    case Unserialisable(_) => m.errCode == ERROR_FAILED_SERIALIZE && m.errInfo == Text("serialize response error")
  }

  /** Seen from a client: after it has read and decoded the replies to its requests, a registered callback has run if
      and only if the service was called for a request with its id and ran the closure, whether or not its response
      could be serialised. A request stopped by an error, or a closure that is never run, leaves the callback
      registered. What the callback gets is what the service completed the call with.
      A reply with an err_info is only decoded while the buffer holds the bytes that decode
      takes for its body; otherwise the behaviour is undefined. */
  lemma CallbacksRunForAnswers(services: map<Name, Service>, es: seq<ServerEvent>, v: View, c: Client, id: Id)
    requires Possible(services, es) && id in c.readDone
    requires v.Valid() && v.write < |v.data|
    requires AllFit(ServeAll(services, es).replies) && AllEncodable(ServeAll(services, es).replies)
    requires v.Readable() == Stream(ServeAll(services, es).replies)
    ensures BodiesFit(v, 0, ServeAll(services, es).replies) ==>
      DecodeAll(v).verdict == Finished
      && (id !in DispatchAll(c, DecodeAll(v).messages).readDone <==> AnsweredFor(services, es, id))
      && HandedOn(c, DispatchAll(c, DecodeAll(v).messages), DecodeAll(v).messages)
      && |DecodeAll(v).messages| == |Completions(es)|
      && forall j :: 0 <= j < |Completions(es)| ==> Tells(DecodeAll(v).messages[j], Completions(es)[j])
    ensures !BodiesFit(v, 0, ServeAll(services, es).replies) ==> DecodeAll(v).verdict == Faulted
  {
    hide Possible, ServeAll, Calls, Runs, Completions, DecodeAll, BodiesFit, AllFit, DispatchAll, Stream, Carries,
         Tells, FirstReplies;
    var replies := ServeAll(services, es).replies;
    DecodeReplies(v, replies);
    if BodiesFit(v, 0, replies) {
      var messages := DecodeAll(v).messages;
      DispatchRunsFirstReplies(c, messages);
      FirstRepliesHandedOn(c.readDone, messages);
      RepliesMatchCalls(services, es);
      forall j | 0 <= j < |messages|
        ensures Tells(messages[j], Completions(es)[j])
      {
        CarriedIsTold(replies[j], messages[j], Completions(es)[j]);
      }
    }
  }

  /** Each callback run since has got one of the messages, under whose id it was registered. */
  ghost predicate HandedOn(c: Client, after: Client, messages: seq<Message>) {
    && c.ran <= after.ran
    && forall run <- after.ran[|c.ran|..] ::
         run.1 in messages && run.1.msgId in c.readDone && c.readDone[run.1.msgId] == run.0
  }

  lemma {:induction false} FirstRepliesHandedOn(readDone: map<Id, Callback>, messages: seq<Message>)
    ensures forall run <- FirstReplies(readDone, messages) ::
      run.1 in messages && run.1.msgId in readDone && readDone[run.1.msgId] == run.0
  {
    if messages != [] {
      FirstRepliesHandedOn(readDone, messages[..|messages| - 1]);
    }
  }

  lemma CarriedIsTold(reply: Message, m: Message, completion: Completion)
    requires Carries(reply, completion) && m.errCode == reply.errCode && m.errInfo == CString(reply.errInfo)
    requires reply.errInfo == [] ==> m.pbBody == reply.pbBody
    ensures Tells(m, completion)
  {
    hide Text;
    SerializeErrorText();
  }

  /** Decoding replies keeps their ids and errors, and the body of those without err_info. */
  lemma DecodeReplies(v: View, replies: seq<Message>)
    requires v.Valid() && v.write < |v.data|
    requires AllFit(replies) && AllEncodable(replies) && v.Readable() == Stream(replies)
    ensures BodiesFit(v, 0, replies) ==>
      DecodeAll(v).verdict == Finished && |DecodeAll(v).messages| == |replies|
      && forall k :: 0 <= k < |replies| ==> CameThrough(replies[k], DecodeAll(v).messages[k])
    ensures !BodiesFit(v, 0, replies) ==> DecodeAll(v).verdict == Faulted
  {
    hide BodiesFit, Extractions, AllFit, Stream, Consume, DecodeAll, BodyFits, CameThrough;
    assert Stream(replies) + [] == Stream(replies);
    DecodeWholeFrames(v, replies, []);
    if BodiesFit(v, 0, replies) {
      var c := Consume(v, Frames(replies));
      EmptyIsQuiet(c);
      QuietReturns(c);
      var out := Extractions(v, 0, replies);
      assert out + [] == out;
      ExtractionsComeThrough(v, replies);
    }
  }

  lemma ExtractionsComeThrough(v: View, replies: seq<Message>)
    requires v.Valid() && v.write < |v.data| && AllFit(replies) && BodiesFit(v, 0, replies)
    requires AllEncodable(replies) && v.Readable() == Stream(replies)
    ensures forall k :: 0 <= k < |replies| ==> CameThrough(replies[k], Extractions(v, 0, replies)[k])
  {
    ExtractionsKeepHeaders(v, 0, replies);
    hide BodiesFit, Extractions, Stream, BodyFits, Frames, Sendable, HeaderOf, Received, FitsDecoder, Flatten, Frame,
         CameThrough, RejectedThroughout;
    NothingRejected(v, Frames(replies));
    PrefixAt(v.Readable(), Stream(replies), []);
    ExtractionsKeepSendable(v, 0, replies);
    var out := Extractions(v, 0, replies);
    forall k | 0 <= k < |replies|
      ensures CameThrough(replies[k], out[k])
    {
      ThroughHeader(replies[k], out[k]);
    }
  }

  ghost predicate CameThrough(reply: Message, m: Message) {
    && m.msgId == SentId(reply) && m.errCode == reply.errCode && m.errInfo == CString(reply.errInfo)
    && (reply.errInfo == [] ==> m.pbBody == reply.pbBody)
  }

  lemma ThroughHeader(reply: Message, m: Message)
    requires Encodable(reply) && m == HeaderOf(reply).(pbBody := m.pbBody, parseSuccess := true)
    requires Sendable(reply) ==> m == Received(reply)
    requires FitsDecoder(reply)
    ensures CameThrough(reply, m)
  {
  }

  /** The reply for a failed serialisation, alone in a buffer, is decoded if and only if 43 bytes are free behind it. */
  lemma ErrorReplyNeedsRoom(response: Message, left: seq<byte>, spare: nat)
    requires FitsDecoder(Completed(response, Unserialisable(left))) && 0 < spare
    requires FrameLength(Completed(response, Unserialisable(left))) + spare <= INT_MAX
    ensures var reply := Completed(response, Unserialisable(left));
      var v := View(Frame(reply) + Zeros(spare), 0, FrameLength(reply));
      && v.Valid() && v.Readable() == Stream([reply])
      && (DecodeAll(v).verdict == Finished <==> spare >= 43) && (DecodeAll(v).verdict == Faulted <==> spare < 43)
  {
    hide Frame, Frames, Stream, DecodeAll, ErrorText, Completed, MoveRead, FitsDecoder, BodyFits, CameThrough;
    var reply := Completed(response, Unserialisable(left));
    var v := View(Frame(reply) + Zeros(spare), 0, FrameLength(reply));
    FitAlone(reply);
    FrameAlone(reply);
    assert v.Readable() == Frame(reply);
    DecodeReplies(v, [reply]);
    CompletedCarries(response, Unserialisable(left));
    BodyNeedsRoom(reply, left, v.data, spare);
    BodiesAlone(v, reply);
  }

  lemma FitAlone(m: Message)
    requires FitsDecoder(m)
    ensures Encodable(m) && AllFit([m]) && AllEncodable([m])
  {
  }

  lemma FrameAlone(m: Message)
    requires Encodable(m)
    ensures AllEncodable([m]) && Stream([m]) == Frame(m)
  {
    hide Frame;
    StreamCons([m]);
    assert Stream([]) == [] && Frame(m) + [] == Frame(m);
  }

  lemma BodiesAlone(v: View, m: Message)
    requires v.Valid() && FitsDecoder(m) && v.read == 0 && v.write == FrameLength(m) < |v.data|
    ensures BodiesFit(v, 0, [m]) <==> BodyFits(v.data, 0, m)
  {
    hide BodyFits;
    MoveReadExactly(v, FrameLength(m));
    FirstBody(v, 0, [m]);
  }

  lemma BodyNeedsRoom(reply: Message, left: seq<byte>, data: seq<byte>, spare: nat)
    requires FitsDecoder(reply) && Carries(reply, Unserialisable(left))
    requires |data| == FrameLength(reply) + spare <= INT_MAX
    ensures BodyFits(data, 0, reply) <==> spare >= 43
  {
    hide Text;
    SerializeErrorText();
  }

  lemma SerializeErrorText()
    ensures var text := ErrorText(ERROR_FAILED_SERIALIZE);
      |text| == 24 && CString(text) == text && text == Text("serialize response error")
  {
    hide Text, CString;
    var s := "serialize response error";
    assert ErrorText(ERROR_FAILED_SERIALIZE) == Text(s);
    NoNul(s);
    TextHasNoNul(s);
    CStringIdentity(Text(s));
  }

  lemma NoNul(s: string)
    requires s == "serialize response error"
    ensures |s| == 24 && forall k :: 0 <= k < |s| ==> s[k] != 0 as char
  {
  }

  lemma {:induction false} TextHasNoNul(s: string)
    requires forall k :: 0 <= k < |s| ==> s[k] != 0 as char
    ensures 0 !in Text(s)
  {
    if s != "" {
      TextHasNoNul(s[1..]);
    }
  }

  // ---------------------------------------------------------------------
  // The dispatcher
  // ---------------------------------------------------------------------

  class RpcDispatcher {
    var serviceMap: map<Name, Service>

    constructor ()
      ensures serviceMap == map[]
    {
      serviceMap := map[];
    }

    /** A second registration under the same name replaces the first. */
    method RegisterService(name: Name, service: Service)
      modifies this
      ensures serviceMap == old(serviceMap)[name := service]
    {
      serviceMap := serviceMap[name := service];
    }

    method ParseServiceFullName(full: Name) returns (split: Split)
      ensures split == SplitName(full) && SplitsAtLastDot(full, split)
    {
      if full == [] {
        return NoSplit;
      }
      var pos := |full| - 1;
      while pos >= 0 && full[pos] != DOT
        invariant -1 <= pos < |full| && forall k :: pos < k < |full| ==> full[k] != DOT
      {
        pos := pos - 1;
      }
      if pos < 0 {
        split := NoSplit;
      } else {
        split := Split(full[..pos], full[pos + 1..]);
      }
      SplitIsUnique(full, split, SplitName(full));
    }

    /** One request. When no error stops it, the service gets a closure for this response and this connection. */
    method Dispatch(request: TinyPBProtocol, response: TinyPBProtocol, connection: TcpConnection)
      returns (closure: RpcClosure?)
      requires response.Value() == EMPTY_MESSAGE && request != response && |request.methodName| <= INT_MAX
      modifies response
      ensures response.Value() == Prepared(serviceMap, request.Value())
      ensures closure != null <==> Judge(serviceMap, request.Value()) == Accepted
      ensures closure != null ==> fresh(closure) && closure.response == response && closure.connection == connection
      ensures response.msgId == request.msgId && response.methodName == request.methodName && response.pbBody == []
      ensures closure != null ==> response.errCode == 0 && response.errInfo == []
      ensures exists split ::
        SplitsAtLastDot(request.methodName, split)
        && (if closure != null then Takes(serviceMap, split, request.pbBody)
            else Stops(serviceMap, split, request.pbBody, response.errCode, response.errInfo))
    {
      hide SplitName, SplitsAtLastDot, Text;
      closure := null;
      response.msgId := request.msgId;
      response.SetMethodName(request.methodName);
      var split := ParseServiceFullName(request.methodName);
      if split.NoSplit? {
        SetTinyPBErrorCode(response, ERROR_PARSE_SERVICE_NAME, Text("parse service name error"));
        return;
      }
      if split.service !in serviceMap {
        SetTinyPBErrorCode(response, ERROR_SERVICE_NOT_FOUND, Text("service not found"));
        return;
      }
      var service := serviceMap[split.service];
      if split.name !in service {
        SetTinyPBErrorCode(response, ERROR_METHOD_NOT_FOUND, Text("method not found"));
        return;
      }
      if !service[split.name](request.pbBody) {
        SetTinyPBErrorCode(response, ERROR_FAILED_DESERIALIZE, Text("deserialize request error"));
        return;
      }
      closure := new RpcClosure(response, connection);
    }
  }

  method SetTinyPBErrorCode(m: TinyPBProtocol, code: int32, info: seq<byte>)
    requires |info| <= INT_MAX
    modifies m
    ensures m.Value() == old(m.Value()).(errCode := code, errInfo := info, errInfoLen := |info|)
  {
    m.errCode := code;
    m.SetErrInfo(info);
    m.errInfoLen := |info|;
  }

  lemma OneValue(p: TinyPBProtocol)
    ensures Values([p]) == [p.Value()]
  {
  }

  /** What the dispatcher hands to the service. */
  class RpcClosure {
    const response: TinyPBProtocol
    const connection: TcpConnection

    constructor (response: TinyPBProtocol, connection: TcpConnection)
      ensures this.response == response && this.connection == connection
    {
      this.response, this.connection := response, connection;
    }

    /** The service has completed the call: the reply is appended to what the connection has encoded. */
    method Run(completion: Completion)
      requires connection.Valid()
      requires FramesFit(connection.outBuffer.State(), [Completed(response.Value(), completion)])
      modifies response, connection`encoded, connection`watchesOut, connection.outBuffer, connection.outBuffer.buffer
      ensures connection.Valid() && connection.watchesOut
      ensures connection.encoded == old(connection.encoded) + [Completed(old(response.Value()), completion)]
      ensures IsSent(Completed(old(response.Value()), completion), response.Value())
      ensures var reply := connection.encoded[|old(connection.encoded)|];
        && Carries(reply, completion) && Carries(response.Value(), completion)
        && reply.msgId == old(response.msgId) && reply.methodName == old(response.methodName)
    {
      CompletedCarries(response.Value(), completion);
      hide FramesFit, Completed, Carries, Encoded, Encodable, TcpConnection.Valid;
      Send(completion);
    }

    method Send(completion: Completion)
      requires connection.Valid()
      requires FramesFit(connection.outBuffer.State(), [Completed(response.Value(), completion)])
      modifies response, connection`encoded, connection`watchesOut, connection.outBuffer, connection.outBuffer.buffer
      ensures connection.Valid() && connection.watchesOut
      ensures connection.encoded == old(connection.encoded) + [Completed(old(response.Value()), completion)]
      ensures IsSent(Completed(old(response.Value()), completion), response.Value())
    {
      hide SendsEverything, Stream, FramesFit, Completed, IsSent, Values;
      Fill(completion);
      OneValue(response);
      var messages := [response];
      connection.Reply(messages);
      assert messages[0] == response;
    }

    method Fill(completion: Completion)
      modifies response
      ensures response.Value() == Completed(old(response.Value()), completion)
    {
      hide Text;
      match completion {
        case Unserialisable(left) =>
          response.pbBody := left;
          SetTinyPBErrorCode(response, ERROR_FAILED_SERIALIZE, Text("serialize response error"));
        case Answer(body) =>
          response.pbBody := body;
          response.errCode := 0;
          response.SetErrInfo([]);
      }
    }
  }
}
