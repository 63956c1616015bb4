/** TinyPB messages: the protocol object, its frame on the wire, and how one frame is parsed. */
module TinyPB {
  import opened Bytes
  import opened Framing

  const PB_START: byte := 0x02
  const PB_END: byte := 0x03
  const MSG_ID_CAPACITY := 100
  const TEXT_CAPACITY := 512

  /** The id "114514" given to messages that have none. */
  const DEFAULT_MSG_ID: seq<byte> := [0x31, 0x31, 0x34, 0x35, 0x31, 0x34]

  /** The value of a TinyPBProtocol object. */
  datatype Message = Message(
    pkLength: int32, msgIdLen: int32, msgId: seq<byte>, methodNameLen: int32, methodName: seq<byte>,
    errCode: int32, errInfoLen: int32, errInfo: seq<byte>, pbBody: seq<byte>, checkSum: int32, parseSuccess: bool)

  const EMPTY_MESSAGE := Message(0, 0, [], 0, [], 0, 0, [], [], 0, false)

  class TinyPBProtocol {
    var pkLength: int32
    var msgIdLen: int32
    var msgId: seq<byte>
    var methodNameLen: int32
    var methodName: seq<byte>
    var errCode: int32
    var errInfoLen: int32
    var errInfo: seq<byte>
    var pbBody: seq<byte>
    var checkSum: int32
    var parseSuccess: bool

    function Value(): Message
      reads this
    {
      Message(pkLength, msgIdLen, msgId, methodNameLen, methodName, errCode, errInfoLen, errInfo, pbBody, checkSum,
              parseSuccess)
    }

    constructor ()
      ensures Value() == EMPTY_MESSAGE
    {
      pkLength, msgIdLen, methodNameLen, errCode, errInfoLen, checkSum := 0, 0, 0, 0, 0, 0;
      msgId, methodName, errInfo, pbBody, parseSuccess := [], [], [], [], false;
    }

    /** Also overwrites the length field. */
    method SetMethodName(name: seq<byte>)
      requires |name| <= INT_MAX
      modifies this
      ensures Value() == old(Value()).(methodName := name, methodNameLen := |name|)
    {
      methodName := name;
      methodNameLen := |name|;
    }

    /** Also overwrites the length field. */
    method SetErrInfo(info: seq<byte>)
      requires |info| <= INT_MAX
      modifies this
      ensures Value() == old(Value()).(errInfo := info, errInfoLen := |info|)
    {
      errInfo := info;
      errInfoLen := |info|;
    }
  }

  // ---------------------------------------------------------------------
  // Frames
  // ---------------------------------------------------------------------

  function SentId(m: Message): (id: seq<byte>)
    ensures id != []
  {
    if m.msgId == [] then DEFAULT_MSG_ID else m.msgId
  }

  function FrameLength(m: Message): nat {
    2 + 24 + |SentId(m)| + |m.methodName| + |m.errInfo| + |m.pbBody|
  }

  /** The length is computed in, and sent as, a 32-bit int. */
  predicate Encodable(m: Message) {
    FrameLength(m) <= INT_MAX
  }

  /** The message object after encoding: id filled in, lengths and success flag set. */
  function Encoded(m: Message): Message
    requires Encodable(m)
  {
    m.(msgId := SentId(m), pkLength := FrameLength(m), msgIdLen := |SentId(m)|,
       methodNameLen := |m.methodName|, errInfoLen := |m.errInfo|, parseSuccess := true)
  }

  // The frame, cut where the decoder computes an index.

  function HeadToId(m: Message): seq<byte>
    requires Encodable(m)
  {
    [PB_START] + ToNet(FrameLength(m)) + ToNet(|SentId(m)|)
  }

  function HeadToMethod(m: Message): seq<byte>
    requires Encodable(m)
  {
    HeadToId(m) + SentId(m) + ToNet(|m.methodName|)
  }

  function HeadToError(m: Message): seq<byte>
    requires Encodable(m)
  {
    HeadToMethod(m) + m.methodName + ToNet(m.errCode) + ToNet(|m.errInfo|)
  }

  function HeadToBody(m: Message): seq<byte>
    requires Encodable(m)
  {
    HeadToError(m) + m.errInfo
  }

  function Frame(m: Message): (f: seq<byte>)
    requires Encodable(m)
    ensures |f| == FrameLength(m)
  {
    HeadToBody(m) + m.pbBody + ToNet(1) + [PB_END]
  }

  /** Sending the object a second time yields the same frame. */
  lemma EncodedIsStable(m: Message)
    requires Encodable(m)
    ensures Encodable(Encoded(m)) && Encoded(Encoded(m)) == Encoded(m) && Frame(Encoded(m)) == Frame(m)
  {
  }

  lemma FilledInId(m: Message)
    requires Encodable(m)
    ensures Encodable(m.(msgId := SentId(m))) && Frame(m.(msgId := SentId(m))) == Frame(m)
  {
  }

  // ---------------------------------------------------------------------
  // Parsing one frame, found at tmp[start..start + pkLen]
  // ---------------------------------------------------------------------

  /** Dropped: a length check fails and the frame is skipped without output.
      Undefined: the source copies or reads outside an array, or asks for a string of negative length. */
  datatype Parse = Parsed(message: Message) | Dropped | Undefined

  /** The fields parsed so far and the index to go on at, or the reason to stop. */
  datatype Header = Header(message: Message, at: nat) | NoHeader(why: Parse)

  /** memcpy of n bytes of tmp into a local array of the given capacity stays inside both. */
  predicate CopyFits(tmp: seq<byte>, at: int, n: int, capacity: nat) {
    0 <= n <= capacity && 0 <= at && at + n <= |tmp|
  }

  predicate IntFits(tmp: seq<byte>, at: int) {
    0 <= at && at + 4 <= |tmp|
  }

  /** err_info goes through std::string(char*): all 512 bytes may be used only if a NUL ends the text. */
  predicate TextEnds(info: seq<byte>) {
    |info| < TEXT_CAPACITY || (|info| == TEXT_CAPACITY && 0 in info)
  }

  function ParseId(tmp: seq<byte>, start: nat, pkLen: int32): (h: Header)
    ensures h.NoHeader? ==> !h.why.Parsed?
  {
    var lenAt, at := start + 5, start + 9;
    if lenAt >= start + pkLen - 1 then NoHeader(Dropped)
    else if !IntFits(tmp, lenAt) then NoHeader(Undefined)
    else
      var len := FromNet(tmp, lenAt);
      if !CopyFits(tmp, at, len, MSG_ID_CAPACITY) then NoHeader(Undefined)
      else Header(EMPTY_MESSAGE.(pkLength := pkLen, msgIdLen := len, msgId := tmp[at..at + len]), at + len)
  }

  function ParseMethod(tmp: seq<byte>, lenAt: nat, end: int, m: Message): (h: Header)
    ensures h.NoHeader? ==> !h.why.Parsed?
  {
    var at := lenAt + 4;
    if lenAt >= end then NoHeader(Dropped)
    else if !IntFits(tmp, lenAt) then NoHeader(Undefined)
    else
      var len := FromNet(tmp, lenAt);
      if !CopyFits(tmp, at, len, TEXT_CAPACITY) then NoHeader(Undefined)
      else Header(m.(methodNameLen := len, methodName := tmp[at..at + len]), at + len)
  }

  function ParseError(tmp: seq<byte>, codeAt: nat, end: int, m: Message): (h: Header)
    ensures h.NoHeader? ==> !h.why.Parsed?
  {
    var lenAt, at := codeAt + 4, codeAt + 8;
    if codeAt >= end then NoHeader(Dropped)
    else if !IntFits(tmp, codeAt) then NoHeader(Undefined)
    else if lenAt >= end then NoHeader(Dropped)
    else if !IntFits(tmp, lenAt) then NoHeader(Undefined)
    else
      var len := FromNet(tmp, lenAt);
      if !CopyFits(tmp, at, len, TEXT_CAPACITY) || !TextEnds(tmp[at..at + len]) then NoHeader(Undefined)
      else
        var info := CString(tmp[at..at + len]);
        Header(m.(errCode := FromNet(tmp, codeAt), errInfoLen := |info|, errInfo := info), at)
  }

  /** All header fields, and the index of err_info. */
  function ParseHeader(tmp: seq<byte>, start: nat, pkLen: int32): (h: Header)
    ensures h.NoHeader? ==> !h.why.Parsed?
  {
    var end := start + pkLen - 1;
    var id := ParseId(tmp, start, pkLen);
    if id.NoHeader? then id
    else
      var name := ParseMethod(tmp, id.at, end, id.message);
      if name.NoHeader? then name else ParseError(tmp, name.at, end, name.message)
  }

  /** The body length as the source computes it: the length of err_info is added. */
  function BodyLength(m: Message): int {
    var errInfoLen: int := m.errInfoLen;
    m.pkLength - m.msgIdLen - m.methodNameLen - -errInfoLen - 2 - 24
  }

  /** The body length with the stray minus sign removed. */
  function CorrectedBodyLength(m: Message): int {
    m.pkLength - m.msgIdLen - m.methodNameLen - m.errInfoLen - 2 - 24
  }

  function ParseBody(tmp: seq<byte>, h: Header, bodyLen: int): Parse
    requires h.Header?
  {
    var bodyAt := h.at + h.message.errInfoLen;
    if !CopyFits(tmp, bodyAt, bodyLen, INT_MAX) then Undefined
    else Parsed(h.message.(pbBody := tmp[bodyAt..bodyAt + bodyLen], parseSuccess := true))
  }

  function ParseFrame(tmp: seq<byte>, start: nat, pkLen: int32): Parse {
    var h := ParseHeader(tmp, start, pkLen);
    if h.NoHeader? then h.why else ParseBody(tmp, h, BodyLength(h.message))
  }

  /** The same decoder with the sign corrected. */
  function CorrectedParseFrame(tmp: seq<byte>, start: nat, pkLen: int32): Parse {
    var h := ParseHeader(tmp, start, pkLen);
    if h.NoHeader? then h.why else ParseBody(tmp, h, CorrectedBodyLength(h.message))
  }

  // ---------------------------------------------------------------------
  // Round trips
  // ---------------------------------------------------------------------

  /** The decoder's fixed-size arrays can hold the texts of the message. */
  predicate FitsDecoder(m: Message) {
    Encodable(m) && |SentId(m)| <= MSG_ID_CAPACITY && |m.methodName| <= TEXT_CAPACITY && TextEnds(m.errInfo)
  }

  /** What the receiver is meant to get: everything but the checksum, which is never decoded. */
  function Received(m: Message): Message
    requires Encodable(m)
  {
    Encoded(m).(checkSum := 0)
  }

  /** A text followed by a number, both where a head ends. */
  lemma AtTextInt(tmp: seq<byte>, at: nat, head: seq<byte>, text: seq<byte>, x: int32)
    requires At(tmp, at, head + text + ToNet(x))
    ensures At(tmp, at, head) && At(tmp, at + |head|, text)
    ensures IntFits(tmp, at + |head| + |text|) && FromNet(tmp, at + |head| + |text|) == x
  {
    AtSplit(tmp, at, head + text, ToNet(x));
    AtSplit(tmp, at, head, text);
    NetRoundTrip(tmp, at + |head| + |text|, x);
  }

  predicate HoldsFrame(tmp: seq<byte>, start: nat, m: Message) {
    Encodable(m) && At(tmp, start, Frame(m))
  }

  // Every integer and text of a frame lies where the decoder looks for it.

  lemma LayoutBody(tmp: seq<byte>, start: nat, m: Message)
    requires HoldsFrame(tmp, start, m)
    ensures At(tmp, start, HeadToError(m))
    ensures tmp[start + FrameLength(m) - 1] == PB_END
    ensures var infoAt := start + 21 + |SentId(m)| + |m.methodName|;
      At(tmp, infoAt, m.errInfo) && At(tmp, infoAt + |m.errInfo|, m.pbBody)
  {
    AtSplit(tmp, start, HeadToBody(m) + m.pbBody + ToNet(1), [PB_END]);
    AtTextInt(tmp, start, HeadToBody(m), m.pbBody, 1);
    AtSplit(tmp, start, HeadToError(m), m.errInfo);
    var endAt := start + FrameLength(m) - 1;
    assert tmp[endAt] == tmp[endAt..endAt + 1][0];
  }

  lemma LayoutError(tmp: seq<byte>, start: nat, m: Message)
    requires Encodable(m) && At(tmp, start, HeadToError(m))
    ensures At(tmp, start, HeadToMethod(m))
    ensures var nameAt := start + 13 + |SentId(m)|;
      && At(tmp, nameAt, m.methodName)
      && IntFits(tmp, nameAt + |m.methodName|) && FromNet(tmp, nameAt + |m.methodName|) == m.errCode
      && IntFits(tmp, nameAt + |m.methodName| + 4) && FromNet(tmp, nameAt + |m.methodName| + 4) == |m.errInfo|
  {
    AtSplit(tmp, start, HeadToMethod(m) + m.methodName + ToNet(m.errCode), ToNet(|m.errInfo|));
    AtTextInt(tmp, start, HeadToMethod(m), m.methodName, m.errCode);
    NetRoundTrip(tmp, start + 17 + |SentId(m)| + |m.methodName|, |m.errInfo|);
  }

  lemma LayoutMethod(tmp: seq<byte>, start: nat, m: Message)
    requires Encodable(m) && At(tmp, start, HeadToMethod(m))
    ensures tmp[start] == PB_START
    ensures FromNet(tmp, start + 1) == FrameLength(m) && FromNet(tmp, start + 5) == |SentId(m)|
    ensures var idAt := start + 9;
      && At(tmp, idAt, SentId(m))
      && IntFits(tmp, idAt + |SentId(m)|) && FromNet(tmp, idAt + |SentId(m)|) == |m.methodName|
  {
    AtTextInt(tmp, start, HeadToId(m), SentId(m), |m.methodName|);
    AtTextInt(tmp, start, [PB_START], ToNet(FrameLength(m)), |SentId(m)|);
    assert tmp[start] == tmp[start..start + 1][0];
    NetRoundTrip(tmp, start + 1, FrameLength(m));
  }

  /** The header texts and numbers lie where ParseHeader looks for them. */
  predicate LaidOut(tmp: seq<byte>, start: nat, id: seq<byte>, name: seq<byte>, code: int32, info: seq<byte>) {
    var nameLenAt := start + 9 + |id|;
    var codeAt := nameLenAt + 4 + |name|;
    && IntFits(tmp, start + 5) && FromNet(tmp, start + 5) == |id| && At(tmp, start + 9, id)
    && IntFits(tmp, nameLenAt) && FromNet(tmp, nameLenAt) == |name| && At(tmp, nameLenAt + 4, name)
    && IntFits(tmp, codeAt) && FromNet(tmp, codeAt) == code
    && IntFits(tmp, codeAt + 4) && FromNet(tmp, codeAt + 4) == |info| && At(tmp, codeAt + 8, info)
  }

  lemma FrameIsLaidOut(tmp: seq<byte>, start: nat, m: Message)
    requires HoldsFrame(tmp, start, m)
    ensures LaidOut(tmp, start, SentId(m), m.methodName, m.errCode, m.errInfo)
  {
    LayoutBody(tmp, start, m);
    LayoutError(tmp, start, m);
    LayoutMethod(tmp, start, m);
  }

  /** The bytes that no field of the message decides: start and end byte, the checksum 1, and the id "114514" of a
      message that has none. */
  lemma FrameConstants(m: Message)
    requires Encodable(m)
    ensures var f, n := Frame(m), FrameLength(m);
      && f[0] == 0x02 && f[n - 5..] == [0, 0, 0, 1, 0x03]
      && (m.msgId == [] ==> f[9..15] == [0x31, 0x31, 0x34, 0x35, 0x31, 0x34])
  {
    FrameTail(m);
    hide FromNet, ToNet, Frame, HeadToError, HeadToMethod;
    var f := Frame(m);
    assert At(f, 0, f);
    LayoutBody(f, 0, m);
    LayoutError(f, 0, m);
    LayoutMethod(f, 0, m);
  }

  lemma FrameTail(m: Message)
    requires Encodable(m)
    ensures Frame(m)[FrameLength(m) - 5..] == [0, 0, 0, 1, 0x03]
  {
    assert ToNet(1) == [0, 0, 0, 1];
    hide ToNet, HeadToBody;
    assert Frame(m) == (HeadToBody(m) + m.pbBody) + [0, 0, 0, 1, 0x03];
  }

  /** The header fields of a received frame: of err_info the part before its first NUL is kept. */
  function HeaderOf(m: Message): Message
    requires Encodable(m)
  {
    var info := CString(m.errInfo);
    Received(m).(errInfo := info, errInfoLen := |info|, pbBody := [], parseSuccess := false)
  }

  lemma ParseIdOf(tmp: seq<byte>, start: nat, pkLen: int32, id: seq<byte>)
    requires 6 < pkLen && |id| <= MSG_ID_CAPACITY
    requires IntFits(tmp, start + 5) && FromNet(tmp, start + 5) == |id| && At(tmp, start + 9, id)
    ensures ParseId(tmp, start, pkLen)
      == Header(EMPTY_MESSAGE.(pkLength := pkLen, msgIdLen := |id|, msgId := id), start + 9 + |id|)
  {
  }

  lemma ParseMethodOf(tmp: seq<byte>, at: nat, end: int, name: seq<byte>, m: Message)
    requires at < end && |name| <= TEXT_CAPACITY
    requires IntFits(tmp, at) && FromNet(tmp, at) == |name| && At(tmp, at + 4, name)
    ensures ParseMethod(tmp, at, end, m) == Header(m.(methodNameLen := |name|, methodName := name), at + 4 + |name|)
  {
  }

  lemma ParseErrorOf(tmp: seq<byte>, at: nat, end: int, code: int32, info: seq<byte>, m: Message)
    requires at + 4 < end && TextEnds(info)
    requires IntFits(tmp, at) && FromNet(tmp, at) == code
    requires IntFits(tmp, at + 4) && FromNet(tmp, at + 4) == |info| && At(tmp, at + 8, info)
    ensures var kept := CString(info);
      ParseError(tmp, at, end, m) == Header(m.(errCode := code, errInfoLen := |kept|, errInfo := kept), at + 8)
  {
  }

  lemma ParseLaidOut(tmp: seq<byte>, start: nat, m: Message)
    requires FitsDecoder(m)
    requires LaidOut(tmp, start, SentId(m), m.methodName, m.errCode, m.errInfo)
    ensures ParseHeader(tmp, start, FrameLength(m)) == Header(HeaderOf(m), start + 21 + |SentId(m)| + |m.methodName|)
  {
    hide ParseId, ParseMethod, ParseError, At, FromNet, CString;
    var id, name, end := SentId(m), m.methodName, start + FrameLength(m) - 1;
    ParseIdOf(tmp, start, FrameLength(m), id);
    var acc := EMPTY_MESSAGE.(pkLength := FrameLength(m), msgIdLen := |id|, msgId := id);
    ParseMethodOf(tmp, start + 9 + |id|, end, name, acc);
    var acc' := acc.(methodNameLen := |name|, methodName := name);
    ParseErrorOf(tmp, start + 13 + |id| + |name|, end, m.errCode, m.errInfo, acc');
  }

  /** The header of a frame is parsed exactly, whatever surrounds the frame. */
  lemma ParseHeaderOfFrame(tmp: seq<byte>, start: nat, m: Message)
    requires HoldsFrame(tmp, start, m) && FitsDecoder(m)
    ensures ParseHeader(tmp, start, FrameLength(m)) == Header(HeaderOf(m), start + 21 + |SentId(m)| + |m.methodName|)
  {
    FrameIsLaidOut(tmp, start, m);
    ParseLaidOut(tmp, start, m);
  }

  /** Where the decoder looks for the body, and how many bytes it takes. */
  function BodyAt(start: nat, m: Message): nat {
    start + 21 + |SentId(m)| + |m.methodName| + |CString(m.errInfo)|
  }

  function OverlongBody(m: Message): nat {
    |m.pbBody| + |m.errInfo| + |CString(m.errInfo)|
  }

  predicate BodyFits(tmp: seq<byte>, start: nat, m: Message) {
    BodyAt(start, m) + OverlongBody(m) <= |tmp| && OverlongBody(m) <= INT_MAX
  }

  function Extracted(tmp: seq<byte>, start: nat, m: Message): Message
    requires Encodable(m) && BodyFits(tmp, start, m)
  {
    HeaderOf(m).(pbBody := tmp[BodyAt(start, m)..BodyAt(start, m) + OverlongBody(m)], parseSuccess := true)
  }

  /** Exactly what the decoder makes of any frame: the body starts right behind the kept part
      of err_info and runs too long by the length of err_info plus that of the kept part. */
  lemma ParseFrameOfFrame(tmp: seq<byte>, start: nat, m: Message)
    requires HoldsFrame(tmp, start, m) && FitsDecoder(m)
    ensures ParseFrame(tmp, start, FrameLength(m))
      == if BodyFits(tmp, start, m) then Parsed(Extracted(tmp, start, m)) else Undefined
  {
    hide ParseHeader;
    ParseHeaderOfFrame(tmp, start, m);
    assert BodyLength(HeaderOf(m)) == OverlongBody(m);
  }

  /** The round trip holds exactly when err_info is empty. */
  lemma RoundTripIff(tmp: seq<byte>, start: nat, m: Message)
    requires HoldsFrame(tmp, start, m) && FitsDecoder(m)
    ensures ParseFrame(tmp, start, FrameLength(m)) == Parsed(Received(m)) <==> m.errInfo == []
  {
    hide ParseHeader;
    ParseFrameOfFrame(tmp, start, m);
    LayoutBody(tmp, start, m);
  }

  lemma RoundTrip(tmp: seq<byte>, start: nat, m: Message)
    requires HoldsFrame(tmp, start, m) && FitsDecoder(m) && m.errInfo == []
    ensures ParseFrame(tmp, start, FrameLength(m)) == Parsed(Received(m))
    ensures BodyFits(tmp, start, m) && Extracted(tmp, start, m) == Received(m)
  {
    hide ParseFrame, Extracted;
    RoundTripIff(tmp, start, m);
    ParseFrameOfFrame(tmp, start, m);
  }

  lemma ErrorBody(tmp: seq<byte>, start: nat, m: Message)
    requires HoldsFrame(tmp, start, m) && CString(m.errInfo) == m.errInfo
    requires start + FrameLength(m) - 5 + 2 * |m.errInfo| <= |tmp|
    ensures var at, end := BodyAt(start, m), start + FrameLength(m) - 5;
      tmp[at..at + OverlongBody(m)] == m.pbBody + tmp[end..end + 2 * |m.errInfo|]
  {
    LayoutBody(tmp, start, m);
    SliceAppend(tmp, BodyAt(start, m), BodyAt(start, m) + |m.pbBody|, BodyAt(start, m) + OverlongBody(m));
  }

  /** For a non-empty NUL-free err_info every field but the body survives, and the body
      is the true one followed by the next 2 * |err_info| bytes, when the buffer has that many. */
  lemma ErrorFrame(tmp: seq<byte>, start: nat, m: Message)
    requires HoldsFrame(tmp, start, m) && FitsDecoder(m) && 0 !in m.errInfo
    requires start + FrameLength(m) - 5 + 2 * |m.errInfo| <= |tmp| <= INT_MAX
    ensures var end := start + FrameLength(m) - 5;
      ParseFrame(tmp, start, FrameLength(m))
      == Parsed(Received(m).(pbBody := m.pbBody + tmp[end..end + 2 * |m.errInfo|]))
  {
    hide ParseFrame, HoldsFrame, CString, TextEnds;
    CStringIdentity(m.errInfo);
    ParseFrameOfFrame(tmp, start, m);
    ErrorBody(tmp, start, m);
  }

  /** With the sign corrected the round trip holds for every NUL-free err_info, and only for those. */
  lemma CorrectedRoundTripIff(tmp: seq<byte>, start: nat, m: Message)
    requires HoldsFrame(tmp, start, m) && FitsDecoder(m)
    ensures CorrectedParseFrame(tmp, start, FrameLength(m)) == Parsed(Received(m)) <==> 0 !in m.errInfo
  {
    hide ParseHeader;
    ParseHeaderOfFrame(tmp, start, m);
    LayoutBody(tmp, start, m);
    CStringIdentity(m.errInfo);
  }

  lemma IdParsed(tmp: seq<byte>, start: nat, pkLen: int32)
    requires ParseId(tmp, start, pkLen).Header?
    ensures var h := ParseId(tmp, start, pkLen);
      var id := h.message.msgId;
      && IntFits(tmp, start + 5) && FromNet(tmp, start + 5) == |id| && At(tmp, start + 9, id)
      && h.at == start + 9 + |id|
      && h.message == EMPTY_MESSAGE.(pkLength := pkLen, msgIdLen := |id|, msgId := id)
  {
  }

  lemma MethodParsed(tmp: seq<byte>, at: nat, end: int, m: Message)
    requires ParseMethod(tmp, at, end, m).Header?
    ensures var h := ParseMethod(tmp, at, end, m);
      var name := h.message.methodName;
      && IntFits(tmp, at) && FromNet(tmp, at) == |name| && At(tmp, at + 4, name) && h.at == at + 4 + |name|
      && h.message == m.(methodNameLen := |name|, methodName := name)
  {
  }

  lemma ErrorParsed(tmp: seq<byte>, at: nat, end: int, m: Message)
    requires ParseError(tmp, at, end, m).Header?
    ensures var h := ParseError(tmp, at, end, m);
      && IntFits(tmp, at) && IntFits(tmp, at + 4) && at + 4 < end && h.at == at + 8
      && 0 <= FromNet(tmp, at + 4) && at + 8 + FromNet(tmp, at + 4) <= |tmp|
      && (var info := CString(tmp[at + 8..at + 8 + FromNet(tmp, at + 4)]);
          |info| <= INT_MAX && h.message == m.(errCode := FromNet(tmp, at), errInfoLen := |info|, errInfo := info))
  {
  }

  /** A length and a text that fits its array lie at the index. */
  predicate HoldsField(tmp: seq<byte>, at: nat, capacity: nat) {
    IntFits(tmp, at) && CopyFits(tmp, at + 4, FromNet(tmp, at), capacity)
  }

  /** The index behind them. */
  function NextField(tmp: seq<byte>, at: nat): int {
    at + 4 + if IntFits(tmp, at) then FromNet(tmp, at) else 0
  }

  /** Exactly when a frame is skipped: one of the four numbers would lie at or behind its end byte, and everything
      before could be read. */
  lemma DroppedIff(tmp: seq<byte>, start: nat, pkLen: int32)
    ensures var end, idAt := start + pkLen - 1, start + 5;
      ParseFrame(tmp, start, pkLen) == Dropped <==>
        || idAt >= end
        || (HoldsField(tmp, idAt, 100)
            && (var nameAt := NextField(tmp, idAt);
                || nameAt >= end
                || (HoldsField(tmp, nameAt, 512)
                    && (var codeAt := NextField(tmp, nameAt);
                        codeAt >= end || (IntFits(tmp, codeAt) && codeAt + 4 >= end)))))
  {
    hide FromNet, CString;
  }

  /** Where err_info starts in the frame of a message. */
  function InfoAt(start: nat, m: Message): nat {
    start + 21 + |m.msgId| + |m.methodName|
  }

  /** The bytes at an index, as many as the number in front of them says. */
  function CountedText(tmp: seq<byte>, at: int): seq<byte> {
    if 4 <= at && IntFits(tmp, at - 4) && CopyFits(tmp, at, FromNet(tmp, at - 4), INT_MAX)
    then tmp[at..at + FromNet(tmp, at - 4)] else []
  }

  /** The other direction: whatever is parsed, from however damaged a frame, has its texts and numbers laid out
      in the buffer, its header inside the frame, and a body of the computed length right behind the kept err_info. */
  lemma ParsedIsLaidOut(tmp: seq<byte>, start: nat, pkLen: int32, m: Message)
    requires ParseFrame(tmp, start, pkLen) == Parsed(m)
    ensures InfoAt(start, m) - 4 < start + pkLen - 1
    ensures LaidOut(tmp, start, m.msgId, m.methodName, m.errCode, CountedText(tmp, InfoAt(start, m)))
    ensures m.errInfo == CString(CountedText(tmp, InfoAt(start, m)))
    ensures At(tmp, InfoAt(start, m) + |m.errInfo|, m.pbBody) && |m.pbBody| == BodyLength(m)
    ensures m.parseSuccess && m.pkLength == pkLen && m.msgIdLen == |m.msgId|
    ensures m.methodNameLen == |m.methodName| && m.errInfoLen == |m.errInfo|
  {
    hide ParseHeader, LaidOut, CountedText, At, CString;
    var h := ParseHeader(tmp, start, pkLen);
    HeaderIsLaidOut(tmp, start, pkLen);
    ParsedBody(tmp, h, BodyLength(h.message));
  }

  lemma ParsedBody(tmp: seq<byte>, h: Header, bodyLen: int)
    requires h.Header? && ParseBody(tmp, h, bodyLen).Parsed?
    ensures var m := ParseBody(tmp, h, bodyLen).message;
      && At(tmp, h.at + h.message.errInfoLen, m.pbBody) && |m.pbBody| == bodyLen
      && m == h.message.(pbBody := m.pbBody, parseSuccess := true)
  {
  }

  lemma HeaderIsLaidOut(tmp: seq<byte>, start: nat, pkLen: int32)
    requires ParseHeader(tmp, start, pkLen).Header?
    ensures var m, at := ParseHeader(tmp, start, pkLen).message, ParseHeader(tmp, start, pkLen).at;
      && at == InfoAt(start, m) && at - 4 < start + pkLen - 1
      && LaidOut(tmp, start, m.msgId, m.methodName, m.errCode, CountedText(tmp, at))
      && m.errInfo == CString(CountedText(tmp, at))
      && m.pkLength == pkLen && m.msgIdLen == |m.msgId|
      && m.methodNameLen == |m.methodName| && m.errInfoLen == |m.errInfo|
  {
    hide ParseId, ParseMethod, ParseError, FromNet, CString;
    var end := start + pkLen - 1;
    var id := ParseId(tmp, start, pkLen);
    IdParsed(tmp, start, pkLen);
    var name := ParseMethod(tmp, id.at, end, id.message);
    MethodParsed(tmp, id.at, end, id.message);
    ErrorParsed(tmp, name.at, end, name.message);
  }
}
