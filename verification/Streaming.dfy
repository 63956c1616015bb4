/** What decode does to a stream of frames: progress, garbage, and frames cut into chunks. */
module Streaming {
  import opened Bytes
  import opened Sequences
  import opened Framing
  import opened TcpBuffers
  import opened TinyPB
  import opened TinyPBCoder

  // ---------------------------------------------------------------------
  // Progress
  // ---------------------------------------------------------------------

  /** An iteration is defined and leaves as many unread bytes as before: the declared length is not positive, or
      the frame ends where moveReadIndex would reach the capacity. */
  ghost predicate Stalls(v: View)
    requires v.Valid()
  {
    match Scan(v.data, v.read, v.write)
    case Found(start, pkLen) =>
      ParseFrame(v.data, start, pkLen) != Undefined && (pkLen <= 0 || v.read + pkLen == |v.data|)
    case _ => false
  }

  lemma StallsIff(v: View)
    requires v.Valid()
    ensures Stalls(v) <==> TurnOf(v).Goes? && |TurnOf(v).view.Readable()| >= |v.Readable()|
  {
    hide ParseFrame, MoveRead, TestAt;
    var found := Scan(v.data, v.read, v.write);
    if found.Found? && found.pkLen > 0 {
      MoveReadDrops(v, found.pkLen);
    } else if found.Found? {
      MoveReadBack(v, found.pkLen);
    }
  }

  /** A whole call makes progress until it has ended or stalls. */
  lemma {:induction false} CallStallsIff(v: View)
    requires v.Valid()
    ensures DecodeAll(v).verdict == GoesOn <==> Stalls(DecodeAll(v).view)
    decreases |v.Readable()|
  {
    hide Stalls, TurnOf;
    StallsIff(v);
    var t := TurnOf(v);
    if t.Goes? && |t.view.Readable()| < |v.Readable()| {
      CallStallsIff(t.view);
    }
  }

  /** Any other iteration consumes the declared number of bytes, at least two, whatever precedes the frame; a frame
      too short for a message id is skipped without output. */
  lemma TurnConsumes(v: View)
    requires v.Valid() && TurnOf(v).Goes? && !Stalls(v)
    ensures Scan(v.data, v.read, v.write).Found?
    ensures var pkLen := Scan(v.data, v.read, v.write).pkLen;
      && 2 <= pkLen <= |v.Readable()| && TurnOf(v).view.Readable() == v.Readable()[pkLen..]
      && (pkLen <= 6 ==> TurnOf(v).output == [])
  {
    MoveReadDrops(v, Scan(v.data, v.read, v.write).pkLen);
  }

  /** Behind every start byte that is followed by another byte, a whole length field has arrived, and it is positive. */
  predicate PositiveLengths(s: seq<byte>) {
    forall k :: 0 <= k < |s| - 1 && s[k] == PB_START ==> k + 5 <= |s| && FromNet(s, k + 1) > 0
  }

  lemma PositiveLengthsDrop(s: seq<byte>, n: nat)
    requires PositiveLengths(s) && n <= |s|
    ensures PositiveLengths(s[n..])
  {
    var t := s[n..];
    forall k | 0 <= k < |t| - 1 && t[k] == PB_START
      ensures k + 5 <= |t| && FromNet(t, k + 1) > 0
    {
      assert s[n + k] == PB_START;
    }
  }

  lemma PositiveNeverStalls(v: View)
    requires v.Valid() && v.write < |v.data| && PositiveLengths(v.Readable())
    ensures !Stalls(v)
  {
    hide ParseFrame, Scan, TestAt, FromNet;
    var found := Scan(v.data, v.read, v.write);
    if found.Found? {
      var k := found.start - v.read;
      assert v.Readable()[k] == PB_START;
      SliceFromNet(v.data, v.read, v.write, k + 1);
    }
  }

  lemma SliceFromNet(s: seq<byte>, a: nat, b: nat, k: nat)
    requires a <= b <= |s|
    ensures k + 4 <= b - a ==> FromNet(s[a..b], k) == FromNet(s, a + k)
  {
  }

  /** With the write index below the capacity and positive declared lengths in the unread bytes, decode comes to an end,
      after at most one iteration per unread byte and one more. Both hypotheses are needed: see CapacityRepeats for the
      first and CutLengthStalls for the second. */
  lemma {:induction false} DecodeTerminates(v: View)
    requires v.Valid() && v.write < |v.data| && PositiveLengths(v.Readable())
    ensures DecodeAll(v).verdict != GoesOn
    ensures Turns(v, |v.Readable()| + 1) == DecodeAll(v)
    decreases |v.Readable()|
  {
    hide Turns, Stalls, PositiveLengths, TurnOf, Scan, ParseFrame, MoveRead, TestAt;
    PositiveNeverStalls(v);
    StallsIff(v);
    var t := TurnOf(v);
    if t.Goes? {
      TurnConsumes(v);
      PositiveLengthsDrop(v.Readable(), Scan(v.data, v.read, v.write).pkLen);
      DecodeTerminates(t.view);
    }
    EndedTurns(v, |v.Readable()| + 1);
  }

  /** Exactly when such an iteration leaves the buffer as it is, and then so do all later ones. */
  lemma StuckIff(v: View, n: nat)
    requires v.Valid() && Stalls(v)
    ensures var end := v.read + Scan(v.data, v.read, v.write).pkLen;
      TurnOf(v).view == v <==>
        end < 0 || end == |v.data| || (end == v.read && (v.read == 0 || v.read < |v.data| / 3))
    ensures TurnOf(v).view == v ==> Turns(v, n) == Decoded(Copies(TurnOf(v).output, n), v, GoesOn)
  {
    hide ParseFrame, Turns;
    if TurnOf(v).view == v {
      RepeatedForever(v, TurnOf(v).output, n);
    }
  }

  /** A frame that ends at the capacity is found again and its message pushed again, for ever. The in-buffer of a
      connection never gets there: over every run of onRead its write index stays below the capacity. */
  lemma CapacityRepeats(v: View, m: Message, n: nat)
    requires Sendable(m) && v.Valid() && v.write == |v.data| && v.Readable() == Frame(m)
    ensures Turns(v, n) == Decoded(Copies([Received(m)], n), v, GoesOn)
  {
    hide Frame, Scan, ParseFrame;
    WholeAt(Frame(m));
    ScanFindsFrame(v, 0, m);
    RoundTrip(v.data, v.read, m);
    RepeatedForever(v, [Received(m)], n);
  }

  lemma WholeAt(s: seq<byte>)
    ensures At(s, 0, s)
  {
  }

  // ---------------------------------------------------------------------
  // One call of decode on a stream of frames, possibly behind garbage
  // ---------------------------------------------------------------------

  /** The message survives the trip: it fits the decoder's arrays and carries no err_info. */
  predicate Sendable(m: Message) {
    FitsDecoder(m) && m.errInfo == []
  }

  ghost predicate AllSendable(ms: seq<Message>) {
    forall k :: 0 <= k < |ms| ==> Sendable(ms[k])
  }

  ghost function ReceivedAll(ms: seq<Message>): (rs: seq<Message>)
    requires AllSendable(ms)
    ensures |rs| == |ms|
  {
    if ms == [] then [] else [Received(ms[0])] + ReceivedAll(ms[1..])
  }

  lemma {:induction false} ReceivedAllAppend(a: seq<Message>, b: seq<Message>)
    requires AllSendable(a) && AllSendable(b)
    ensures AllSendable(a + b) && ReceivedAll(a + b) == ReceivedAll(a) + ReceivedAll(b)
  {
    hide Received, Sendable, FitsDecoder;
    if a == [] {
      assert a + b == b;
    } else {
      assert (a + b)[1..] == a[1..] + b;
      ReceivedAllAppend(a[1..], b);
    }
  }

  /** No position among the first g unread bytes passes the scan's test. */
  ghost predicate Rejected(v: View, g: nat)
    requires v.Valid() && g <= |v.Readable()|
  {
    forall k :: v.read <= k < v.read + g ==> TestAt(v.data, k, v.write) == Fail
  }

  lemma FramePasses(tmp: seq<byte>, at: nat, write: nat, m: Message)
    requires HoldsFrame(tmp, at, m) && at + FrameLength(m) <= write <= |tmp| <= INT_MAX
    ensures TestAt(tmp, at, write) == Pass(FrameLength(m))
  {
    LayoutBody(tmp, at, m);
    LayoutError(tmp, at, m);
    LayoutMethod(tmp, at, m);
  }

  lemma FrameInStorage(v: View, g: nat, m: Message)
    requires v.Valid() && Encodable(m) && At(v.Readable(), g, Frame(m))
    ensures HoldsFrame(v.data, v.read + g, m) && v.read + g + FrameLength(m) <= v.write
  {
    hide Frame;
    SliceSlice(v.data, v.read, v.write, g, g + FrameLength(m));
  }

  lemma ScanFindsFrame(v: View, g: nat, m: Message)
    requires v.Valid() && Encodable(m) && At(v.Readable(), g, Frame(m)) && Rejected(v, g)
    ensures Scan(v.data, v.read, v.write) == Found(v.read + g, FrameLength(m))
    ensures HoldsFrame(v.data, v.read + g, m)
  {
    hide Frame, TestAt, At, HoldsFrame;
    var at := v.read + g;
    FrameInStorage(v, g, m);
    FramePasses(v.data, at, v.write, m);
    ScanIsFirst(v.data, v.read, at, v.write);
  }

  /** A frame behind g rejected bytes is decoded, but it is the first bytes that are dropped:
      g bytes of garbage are still in front afterwards, now the last g bytes of garbage and frame. */
  lemma TurnOfFrame(v: View, g: nat, m: Message)
    requires v.Valid() && v.write < |v.data|
    requires FitsDecoder(m) && At(v.Readable(), g, Frame(m)) && Rejected(v, g)
    ensures TurnOf(v) == (if BodyFits(v.data, v.read + g, m)
                          then Goes([Extracted(v.data, v.read + g, m)], MoveRead(v, FrameLength(m))) else Breaks)
    ensures MoveRead(v, FrameLength(m)).Readable() == v.Readable()[FrameLength(m)..]
    ensures Sendable(m) ==> BodyFits(v.data, v.read + g, m) && Extracted(v.data, v.read + g, m) == Received(m)
  {
    hide Frame, TurnOf, Scan, ParseFrame, MoveRead, Extracted, BodyFits, Rejected, At, HoldsFrame, TextEnds;
    ScanFindsFrame(v, g, m);
    ParseFrameOfFrame(v.data, v.read + g, m);
    TurnOfFound(v, v.read + g, FrameLength(m));
    MoveReadDrops(v, FrameLength(m));
    if Sendable(m) {
      RoundTrip(v.data, v.read + g, m);
    }
  }

  lemma TurnOfFound(v: View, start: nat, pkLen: int32)
    requires v.Valid() && Scan(v.data, v.read, v.write) == Found(start, pkLen)
    ensures var p := ParseFrame(v.data, start, pkLen);
      && (p.Parsed? ==> TurnOf(v) == Goes([p.message], MoveRead(v, pkLen)))
      && (p == Undefined ==> TurnOf(v) == Breaks)
  {
  }

  lemma DecodeAllOfFrame(v: View, g: nat, m: Message)
    requires v.Valid() && v.write < |v.data|
    requires FitsDecoder(m) && At(v.Readable(), g, Frame(m)) && Rejected(v, g)
    ensures var start, next := v.read + g, MoveRead(v, FrameLength(m));
      && next.Valid() && next.write < |next.data|
      && FrameLength(m) <= |v.Readable()| && next.Readable() == v.Readable()[FrameLength(m)..]
      && (Sendable(m) ==> BodyFits(v.data, start, m) && Extracted(v.data, start, m) == Received(m))
      && DecodeAll(v) == (if BodyFits(v.data, start, m) then Behind([Extracted(v.data, start, m)], DecodeAll(next))
                          else Decoded([], v, Faulted))
  {
    hide TurnOf, Frame, Extracted, BodyFits, Received, Sendable;
    TurnOfFrame(v, g, m);
    MoveReadDrops(v, FrameLength(m));
  }

  /** The buffer once the given frames have been consumed. */
  ghost function Consume(v: View, fs: seq<seq<byte>>): View
    decreases |fs|
  {
    if fs == [] then v else Consume(MoveRead(v, |fs[0]|), fs[1..])
  }

  ghost predicate RejectedThroughout(v: View, g: nat, fs: seq<seq<byte>>)
    decreases |fs|
  {
    fs == []
    || (v.Valid() && g <= |v.Readable()| && Rejected(v, g) && RejectedThroughout(MoveRead(v, |fs[0]|), g, fs[1..]))
  }

  /** The decoder's arrays can hold the texts of every message. */
  ghost predicate AllFit(ms: seq<Message>) {
    forall k :: 0 <= k < |ms| ==> FitsDecoder(ms[k])
  }

  /** The bytes taken for the body of each frame lie in the storage when the frame is decoded. */
  ghost predicate BodiesFit(v: View, g: nat, ms: seq<Message>)
    requires v.Valid() && AllFit(ms)
    decreases |ms|
  {
    ms == []
    || (BodyFits(v.data, v.read + g, ms[0]) && MoveRead(v, FrameLength(ms[0])).Valid()
        && BodiesFit(MoveRead(v, FrameLength(ms[0])), g, ms[1..]))
  }

  /** The messages that come out: all fields but the body as in the frames, err_info up to its first NUL. */
  ghost function Extractions(v: View, g: nat, ms: seq<Message>): (out: seq<Message>)
    requires v.Valid() && AllFit(ms) && BodiesFit(v, g, ms)
    ensures |out| == |ms|
    decreases |ms|
  {
    if ms == [] then []
    else [Extracted(v.data, v.read + g, ms[0])] + Extractions(MoveRead(v, FrameLength(ms[0])), g, ms[1..])
  }

  lemma FitAreEncodable(ms: seq<Message>)
    requires AllFit(ms)
    ensures AllEncodable(ms) && (ms != [] ==> AllFit(ms[1..]) && AllEncodable(ms[1..]))
  {
  }

  lemma {:induction false} ExtractionsKeepHeaders(v: View, g: nat, ms: seq<Message>)
    requires v.Valid() && AllFit(ms) && BodiesFit(v, g, ms)
    ensures var out := Extractions(v, g, ms);
      forall k :: 0 <= k < |ms| ==> out[k] == HeaderOf(ms[k]).(pbBody := out[k].pbBody, parseSuccess := true)
    decreases |ms|
  {
    hide HeaderOf, FitsDecoder, BodyFits, MoveRead;
    if ms != [] {
      ExtractionsKeepHeaders(MoveRead(v, FrameLength(ms[0])), g, ms[1..]);
      assert forall k :: 0 < k < |ms| ==> ms[k] == ms[1..][k - 1];
    }
  }

  /** Behind garbage that never passes the test, every frame of a stream is decoded, in order,
      and g bytes too many stay in the buffer. */
  lemma {:induction false} DecodeBehindGarbage(v: View, g: nat, ms: seq<Message>)
    requires v.Valid() && v.write < |v.data|
    requires AllFit(ms) && At(v.Readable(), g, Stream(ms)) && RejectedThroughout(v, g, Frames(ms))
    ensures var c := Consume(v, Frames(ms));
      && c.Valid() && c.write < |c.data| && |Stream(ms)| <= |v.Readable()|
      && c.Readable() == v.Readable()[|Stream(ms)|..]
      && (AllSendable(ms) ==> BodiesFit(v, g, ms) && Extractions(v, g, ms) == ReceivedAll(ms))
      && (if BodiesFit(v, g, ms) then DecodeAll(v) == Behind(Extractions(v, g, ms), DecodeAll(c))
          else DecodeAll(v).verdict == Faulted)
    decreases |ms|
  {
    hide DecodeAll, MoveRead, At, Rejected, Frame, Frames, Flatten, Received, Extracted, BodyFits, Sendable,
         FitsDecoder, AllFit, AllSendable, Consume, RejectedThroughout, BodiesFit, Extractions, ReceivedAll,
         FrameLength, Stream;
    FitAreEncodable(ms);
    if ms == [] {
      NoFrames(v, g);
    } else {
      var m, n, next := ms[0], FrameLength(ms[0]), MoveRead(v, FrameLength(ms[0]));
      FramesDrop(ms, 1);
      FirstRejected(v, g, Frames(ms));
      DecodeFirstFrame(v, g, ms);
      FirstBody(v, g, ms);
      DecodeBehindGarbage(next, g, ms[1..]);
      DropDrop(v.Readable(), n, |Stream(ms[1..])|);
      if BodiesFit(v, g, ms) {
        BehindBehind([Extracted(v.data, v.read + g, m)], Extractions(next, g, ms[1..]),
                     DecodeAll(Consume(v, Frames(ms))));
      }
    }
  }

  /** A frame without err_info gives back its message exactly, whatever the others are. */
  lemma {:induction false} ExtractionsKeepSendable(v: View, g: nat, ms: seq<Message>)
    requires v.Valid() && v.write < |v.data|
    requires AllFit(ms) && At(v.Readable(), g, Stream(ms)) && RejectedThroughout(v, g, Frames(ms))
    requires BodiesFit(v, g, ms)
    ensures forall k :: 0 <= k < |ms| && Sendable(ms[k]) ==> Extractions(v, g, ms)[k] == Received(ms[k])
    decreases |ms|
  {
    hide DecodeAll, MoveRead, At, Rejected, Frame, Frames, Flatten, Received, Extracted, BodyFits, Sendable,
         FitsDecoder, AllFit, Consume, RejectedThroughout, BodiesFit, Extractions, ReceivedAll, FrameLength, Stream;
    FitAreEncodable(ms);
    if ms != [] {
      var next := MoveRead(v, FrameLength(ms[0]));
      FramesDrop(ms, 1);
      FirstRejected(v, g, Frames(ms));
      DecodeFirstFrame(v, g, ms);
      FirstBody(v, g, ms);
      ExtractionsKeepSendable(next, g, ms[1..]);
      assert forall k :: 0 < k < |ms| ==> ms[k] == ms[1..][k - 1];
    }
  }

  lemma NoFrames(v: View, g: nat)
    requires v.Valid() && v.write < |v.data|
    ensures Frames([]) == [] && Stream([]) == [] && Consume(v, []) == v && ReceivedAll([]) == []
    ensures BodiesFit(v, g, []) && Extractions(v, g, []) == [] && Behind([], DecodeAll(v)) == DecodeAll(v)
    ensures v.Readable()[0..] == v.Readable()
  {
    hide DecodeAll;
    NothingBehind(DecodeAll(v));
  }

  lemma FirstRejected(v: View, g: nat, fs: seq<seq<byte>>)
    requires fs != [] && RejectedThroughout(v, g, fs)
    ensures v.Valid() && g <= |v.Readable()| && Rejected(v, g) && RejectedThroughout(MoveRead(v, |fs[0]|), g, fs[1..])
    ensures Consume(v, fs) == Consume(MoveRead(v, |fs[0]|), fs[1..])
  {
  }

  lemma FirstBody(v: View, g: nat, ms: seq<Message>)
    requires v.Valid() && AllFit(ms) && ms != [] && MoveRead(v, FrameLength(ms[0])).Valid()
    ensures var next := MoveRead(v, FrameLength(ms[0]));
      && (BodiesFit(v, g, ms) <==> BodyFits(v.data, v.read + g, ms[0]) && BodiesFit(next, g, ms[1..]))
      && (BodiesFit(v, g, ms) ==>
            Extractions(v, g, ms) == [Extracted(v.data, v.read + g, ms[0])] + Extractions(next, g, ms[1..]))
      && (AllSendable(ms) ==> Sendable(ms[0]) && AllSendable(ms[1..]))
      && (AllSendable(ms) ==> ReceivedAll(ms) == [Received(ms[0])] + ReceivedAll(ms[1..]))
  {
    hide MoveRead, Frame, FitsDecoder, BodyFits, Extracted, Received, Sendable, FrameLength;
  }

  lemma DecodeFirstFrame(v: View, g: nat, ms: seq<Message>)
    requires v.Valid() && v.write < |v.data|
    requires AllFit(ms) && ms != [] && At(v.Readable(), g, Stream(ms)) && Rejected(v, g)
    ensures var m, n, next := ms[0], FrameLength(ms[0]), MoveRead(v, FrameLength(ms[0]));
      && next.Valid() && next.write < |next.data|
      && n <= |v.Readable()| && next.Readable() == v.Readable()[n..]
      && At(next.Readable(), g, Stream(ms[1..])) && |Stream(ms)| == n + |Stream(ms[1..])|
      && (Sendable(m) ==> BodyFits(v.data, v.read + g, m) && Extracted(v.data, v.read + g, m) == Received(m))
      && DecodeAll(v) == (if BodyFits(v.data, v.read + g, m)
                          then Behind([Extracted(v.data, v.read + g, m)], DecodeAll(next)) else Decoded([], v, Faulted))
  {
    hide DecodeAll, MoveRead, Frame, Received, Extracted, BodyFits, Sendable;
    StreamCons(ms);
    AtSplitDrop(v.Readable(), g, Frame(ms[0]), Stream(ms[1..]));
    DecodeAllOfFrame(v, g, ms[0]);
  }

  lemma DropDrop(s: seq<byte>, a: nat, b: nat)
    requires a + b <= |s|
    ensures s[a..][b..] == s[a + b..]
  {
  }

  // ---------------------------------------------------------------------
  // Frames cut into chunks
  // ---------------------------------------------------------------------

  /** The scan of the unread bytes finds nothing, also when it looks at stale bytes behind them. */
  ghost predicate Quiet(v: View)
    requires v.Valid()
  {
    Scan(v.data, v.read, v.write) == NotFound
  }

  lemma {:induction false} NothingRejected(v: View, fs: seq<seq<byte>>)
    requires v.Valid() && v.write < |v.data| && Flatten(fs) <= v.Readable()
    ensures RejectedThroughout(v, 0, fs)
    decreases |fs|
  {
    if fs != [] {
      MoveReadDrops(v, |fs[0]|);
      assert Flatten(fs)[|fs[0]|..] == Flatten(fs[1..]);
      NothingRejected(MoveRead(v, |fs[0]|), fs[1..]);
    }
  }

  lemma PrefixAt(s: seq<byte>, a: seq<byte>, b: seq<byte>)
    requires s == a + b
    ensures At(s, 0, a) && s[|a|..] == b
  {
  }

  /** One call of decode on whole frames followed by anything: it goes on with what follows, behind the messages of
      all frames, if and only if the bytes taken for their bodies lie in the storage. */
  lemma DecodeWholeFrames(v: View, ms: seq<Message>, tail: seq<byte>)
    requires v.Valid() && v.write < |v.data|
    requires AllFit(ms) && v.Readable() == Stream(ms) + tail
    ensures var c := Consume(v, Frames(ms));
      && c.Valid() && c.Readable() == tail
      && (AllSendable(ms) ==> BodiesFit(v, 0, ms) && Extractions(v, 0, ms) == ReceivedAll(ms))
      && (if BodiesFit(v, 0, ms) then DecodeAll(v) == Behind(Extractions(v, 0, ms), DecodeAll(c))
          else DecodeAll(v).verdict == Faulted)
  {
    hide Consume, FitsDecoder, Sendable, DecodeAll, Extractions, BodiesFit, Frame, Flatten, Frames, RejectedThroughout;
    FitAreEncodable(ms);
    NothingRejected(v, Frames(ms));
    PrefixAt(v.Readable(), Stream(ms), tail);
    DecodeBehindGarbage(v, 0, ms);
  }

  /** One call of decode: it returns exactly the complete frames, comes to an end and leaves exactly the
      unfinished one, if and only if the scan finds nothing in the unfinished one. */
  lemma DecodeExactIff(v: View, ms: seq<Message>, tail: seq<byte>)
    requires v.Valid() && v.write < |v.data|
    requires AllSendable(ms) && v.Readable() == Stream(ms) + tail
    ensures var c, d := Consume(v, Frames(ms)), DecodeAll(v);
      && c.Valid() && c.Readable() == tail
      && ((d.messages == ReceivedAll(ms) && d.verdict == Finished && d.view.Readable() == tail) <==> Quiet(c))
      && (Quiet(c) ==> d == Decoded(ReceivedAll(ms), c, Finished))
  {
    hide Consume, MoveRead, Stream, Frames, Received, Extractions, BodiesFit, TurnOf;
    DecodeWholeFrames(v, ms, tail);
    var c := Consume(v, Frames(ms));
    if Quiet(c) {
      QuietReturns(c);
      assert ReceivedAll(ms) + [] == ReceivedAll(ms);
    } else {
      DecodeTakesMore(c);
    }
  }

  lemma QuietReturns(v: View)
    requires v.Valid() && Quiet(v)
    ensures DecodeAll(v) == Decoded([], v, Finished)
  {
  }

  lemma DecodeTakesMore(v: View)
    requires v.Valid() && !Quiet(v)
    ensures DecodeAll(v).verdict == Finished ==> |DecodeAll(v).view.Readable()| < |v.Readable()|
  {
  }

  /** A chunk, and the buffer right after the chunk was appended to its unread bytes. How it was appended,
      and what the bytes behind the write index are, is left open. */
  datatype Delivery = Delivery(chunk: seq<byte>, view: View)

  ghost predicate Delivered(left: seq<byte>, ds: seq<Delivery>)
    decreases |ds|
  {
    ds == []
    || (var v := ds[0].view;
        && v.Valid() && v.write < |v.data| && v.Readable() == left + ds[0].chunk
        && Delivered(DecodeAll(v).view.Readable(), ds[1..]))
  }

  ghost function Chunks(ds: seq<Delivery>): seq<byte> {
    if ds == [] then [] else ds[0].chunk + Chunks(ds[1..])
  }

  /** Each call of decode returns the frames that the chunk completed and leaves the unfinished one. */
  ghost predicate DecodesExactly(ds: seq<Delivery>, ms: seq<Message>)
    requires AllSendable(ms)
  {
    ds == []
    || (ds[0].view.Valid()
        && (var bytes, d := ds[0].view.Readable(), DecodeAll(ds[0].view);
            var k := Complete(Frames(ms), |bytes|);
            && d.messages == ReceivedAll(ms[..k]) && d.verdict == Finished
            && d.view.Readable() == Unfinished(Frames(ms), bytes)
            && DecodesExactly(ds[1..], ms[k..])))
  }

  /** After each chunk, the scan of the unfinished frame finds nothing. */
  ghost predicate QuietThroughout(ds: seq<Delivery>, fs: seq<seq<byte>>) {
    ds == []
    || (ds[0].view.Valid()
        && (var k := Complete(fs, |ds[0].view.Readable()|);
            var c := Consume(ds[0].view, fs[..k]);
            c.Valid() && Quiet(c) && QuietThroughout(ds[1..], fs[k..])))
  }

  /** One chunk of a run. */
  lemma DeliveryExactIff(v: View, ms: seq<Message>, more: seq<byte>)
    requires v.Valid() && v.write < |v.data|
    requires AllSendable(ms) && v.Readable() + more <= Stream(ms)
    ensures var fs := Frames(ms);
      var k, u := Complete(fs, |v.Readable()|), Unfinished(fs, v.Readable());
      var c, d := Consume(v, fs[..k]), DecodeAll(v);
      && c.Valid() && c.Readable() == u && u + more <= Stream(ms[k..]) && Frames(ms[k..]) == fs[k..]
      && (d.messages == ReceivedAll(ms[..k]) && d.verdict == Finished && d.view.Readable() == u <==> Quiet(c))
  {
    var fs := Frames(ms);
    var k := Complete(fs, |v.Readable()|);
    UnfinishedInStream(fs, v.Readable(), more);
    assert v.Readable() <= Stream(ms);
    CompleteFits(fs, v.Readable());
    FramesTake(ms, k);
    FramesDrop(ms, k);
    DecodeExactIff(v, ms[..k], Unfinished(fs, v.Readable()));
  }

  /** The decoder is exact at every chunk of a run if and only if the unfinished frames stay quiet. */
  lemma {:induction false} StreamingExactIff(left: seq<byte>, ds: seq<Delivery>, ms: seq<Message>)
    requires AllSendable(ms) && Delivered(left, ds) && left + Chunks(ds) <= Stream(ms)
    ensures DecodesExactly(ds, ms) <==> QuietThroughout(ds, Frames(ms))
    decreases |ds|
  {
    if ds != [] {
      var v, rest := ds[0].view, Chunks(ds[1..]);
      Assoc(left, ds[0].chunk, rest);
      DeliveryExactIff(v, ms, rest);
      var k := Complete(Frames(ms), |v.Readable()|);
      if Quiet(Consume(v, Frames(ms)[..k])) {
        StreamingExactIff(DecodeAll(v).view.Readable(), ds[1..], ms[k..]);
      }
    }
  }

  ghost function Outputs(ds: seq<Delivery>): seq<Message>
    requires forall k :: 0 <= k < |ds| ==> ds[k].view.Valid()
  {
    if ds == [] then [] else DecodeAll(ds[0].view).messages + Outputs(ds[1..])
  }

  ghost function FinalLeft(left: seq<byte>, ds: seq<Delivery>): seq<byte>
    requires Delivered(left, ds)
    decreases |ds|
  {
    if ds == [] then left else FinalLeft(DecodeAll(ds[0].view).view.Readable(), ds[1..])
  }

  lemma {:induction false} DeliveredValid(left: seq<byte>, ds: seq<Delivery>)
    requires Delivered(left, ds)
    ensures forall k :: 0 <= k < |ds| ==> ds[k].view.Valid()
    decreases |ds|
  {
    if ds != [] {
      DeliveredValid(DecodeAll(ds[0].view).view.Readable(), ds[1..]);
      assert forall k :: 0 < k < |ds| ==> ds[k] == ds[1..][k - 1];
    }
  }

  lemma {:induction false} StreamingLeftover(left: seq<byte>, ds: seq<Delivery>, ms: seq<Message>)
    requires AllSendable(ms) && Delivered(left, ds) && left + Chunks(ds) <= Stream(ms)
    requires Complete(Frames(ms), |left|) == 0 && QuietThroughout(ds, Frames(ms))
    ensures FinalLeft(left, ds) == Unfinished(Frames(ms), left + Chunks(ds))
    decreases |ds|
  {
    hide DecodeAll, Consume, Quiet, Frame, Received, Complete, Unfinished, Flatten, Frames, Stream;
    var fs := Frames(ms);
    if ds == [] {
      assert left + [] == left;
      NothingComplete(fs, left);
    } else {
      var v, rest := ds[0].view, Chunks(ds[1..]);
      Assoc(left, ds[0].chunk, rest);
      DeliveryExactIff(v, ms, rest);
      CompleteMore(fs, v.Readable(), rest);
      NothingMoreComplete(fs, v.Readable());
      StreamingLeftover(Unfinished(fs, v.Readable()), ds[1..], ms[Complete(fs, |v.Readable()|)..]);
    }
  }

  lemma {:induction false} StreamingOutputs(left: seq<byte>, ds: seq<Delivery>, ms: seq<Message>)
    requires AllSendable(ms) && Delivered(left, ds) && left + Chunks(ds) <= Stream(ms)
    requires Complete(Frames(ms), |left|) == 0 && QuietThroughout(ds, Frames(ms))
    requires forall k :: 0 <= k < |ds| ==> ds[k].view.Valid()
    ensures Outputs(ds) == ReceivedAll(ms[..Complete(Frames(ms), |left + Chunks(ds)|)])
    decreases |ds|
  {
    hide DecodeAll, Consume, Quiet, Frame, Received, Complete, Unfinished, Flatten, Frames, Stream;
    var fs := Frames(ms);
    if ds == [] {
      assert left + [] == left && ms[..0] == [];
    } else {
      var v, rest := ds[0].view, Chunks(ds[1..]);
      Assoc(left, ds[0].chunk, rest);
      DeliveryExactIff(v, ms, rest);
      var k, u := Complete(fs, |v.Readable()|), Unfinished(fs, v.Readable());
      CompleteMore(fs, v.Readable(), rest);
      NothingMoreComplete(fs, v.Readable());
      StreamingOutputs(u, ds[1..], ms[k..]);
      ReceivedAllSplit(ms, k, Complete(fs[k..], |u + rest|));
    }
  }

  /** However the frames of ms are cut into chunks, if the unfinished frames stay quiet then the outputs of all
      calls together are the messages whose frames have arrived completely, in order, and what is left
      in the buffer is exactly the unfinished frame. */
  lemma StreamingDecode(left: seq<byte>, ds: seq<Delivery>, ms: seq<Message>)
    requires AllSendable(ms) && Delivered(left, ds) && left + Chunks(ds) <= Stream(ms)
    requires Complete(Frames(ms), |left|) == 0 && QuietThroughout(ds, Frames(ms))
    ensures forall k :: 0 <= k < |ds| ==> ds[k].view.Valid()
    ensures Outputs(ds) == ReceivedAll(ms[..Complete(Frames(ms), |left + Chunks(ds)|)])
    ensures FinalLeft(left, ds) == Unfinished(Frames(ms), left + Chunks(ds))
  {
    DeliveredValid(left, ds);
    StreamingOutputs(left, ds, ms);
    StreamingLeftover(left, ds, ms);
  }

  lemma NothingComplete(fs: seq<seq<byte>>, s: seq<byte>)
    requires Complete(fs, |s|) == 0
    ensures Unfinished(fs, s) == s
  {
  }

  lemma NothingMoreComplete(fs: seq<seq<byte>>, s: seq<byte>)
    ensures Complete(fs[Complete(fs, |s|)..], |Unfinished(fs, s)|) == 0
  {
    CompleteMore(fs, s, []);
    assert s + [] == s && Unfinished(fs, s) + [] == Unfinished(fs, s);
  }

  lemma ReceivedAllSplit(ms: seq<Message>, k: nat, l: nat)
    requires AllSendable(ms) && k + l <= |ms|
    ensures ReceivedAll(ms[..k + l]) == ReceivedAll(ms[..k]) + ReceivedAll(ms[k..][..l])
  {
    assert ms[..k + l] == ms[..k] + ms[k..][..l];
    ReceivedAllAppend(ms[..k], ms[k..][..l]);
  }

  // ---------------------------------------------------------------------
  // When the unfinished frame is quiet
  // ---------------------------------------------------------------------

  /** Every chunk ends where a frame ends. */
  ghost predicate EndsAtFrames(ds: seq<Delivery>, fs: seq<seq<byte>>) {
    ds == []
    || (ds[0].view.Valid() && Unfinished(fs, ds[0].view.Readable()) == []
        && EndsAtFrames(ds[1..], fs[Complete(fs, |ds[0].view.Readable()|)..]))
  }

  /** When every chunk ends at a frame boundary, nothing has to be assumed about stale bytes. */
  lemma {:induction false} WholeFramesAreQuiet(left: seq<byte>, ds: seq<Delivery>, ms: seq<Message>)
    requires AllSendable(ms) && Delivered(left, ds) && left + Chunks(ds) <= Stream(ms)
    requires EndsAtFrames(ds, Frames(ms))
    ensures QuietThroughout(ds, Frames(ms))
    decreases |ds|
  {
    hide DecodeAll, Consume, Frame, Received, Complete, Unfinished, Flatten, Frames, Stream;
    if ds != [] {
      var v, rest := ds[0].view, Chunks(ds[1..]);
      Assoc(left, ds[0].chunk, rest);
      DeliveryExactIff(v, ms, rest);
      var k := Complete(Frames(ms), |v.Readable()|);
      assert Quiet(Consume(v, Frames(ms)[..k]));
      WholeFramesAreQuiet(DecodeAll(v).view.Readable(), ds[1..], ms[k..]);
    }
  }

  /** An unfinished frame is quiet when its length field has arrived, or only its first byte has,
      and it has no further start byte so far. */
  lemma CleanTailIsQuiet(v: View, m: Message)
    requires v.Valid() && v.read + FrameLength(m) <= INT_MAX
    requires Encodable(m) && |v.Readable()| < FrameLength(m) && v.Readable() <= Frame(m)
    requires |v.Readable()| <= 1 || |v.Readable()| >= 5
    requires PB_START !in v.Readable()[if v.Readable() == [] then 0 else 1..]
    ensures Quiet(v)
  {
    forall k | v.read <= k < v.write
      ensures TestAt(v.data, k, v.write) == Fail
    {
      if k == v.read {
        if |v.Readable()| >= 5 {
          SliceSlice(v.data, v.read, v.write, 1, 5);
          SliceSlice(Frame(m), 0, |v.Readable()|, 1, 5);
          assert Frame(m)[0..|v.Readable()|] == v.Readable();
          LengthField(m);
          NetRoundTrip(v.data, k + 1, FrameLength(m));
        }
      } else {
        assert v.data[k] == v.Readable()[1..][k - v.read - 1];
      }
    }
    ScanFindsNothingIff(v.data, v.read, v.write);
  }

  /** Every sendable message that arrives in a fresh buffer with room to spare is decoded, and nothing is left. */
  lemma FreshBufferDecodes(m: Message, spare: nat)
    requires Sendable(m) && 0 < spare && FrameLength(m) + spare <= INT_MAX
    ensures var v := View(Frame(m) + Zeros(spare), 0, FrameLength(m));
      && v.Valid() && Delivered([], [Delivery(Frame(m), v)])
      && DecodeAll(v).messages == [Received(m)] && DecodeAll(v).verdict == Finished
      && DecodeAll(v).view.Readable() == []
  {
    hide Frame;
    var v := View(Frame(m) + Zeros(spare), 0, FrameLength(m));
    StreamCons([m]);
    assert Stream([]) == [];
    assert v.Readable() == Frame(m) == Stream([m]) + [];
    DecodeWholeFrames(v, [m], []);
    EmptyIsQuiet(Consume(v, Frames([m])));
    DecodeExactIff(v, [m], []);
    DeliverOne(Delivery(Frame(m), v));
    OneReceived(m);
  }

  lemma EmptyIsQuiet(v: View)
    requires v.Valid() && v.Readable() == []
    ensures Quiet(v)
  {
  }

  lemma DeliverOne(d: Delivery)
    requires d.view.Valid() && d.view.write < |d.view.data| && d.view.Readable() == d.chunk
    ensures Delivered([], [d])
  {
    assert [] + d.chunk == d.chunk;
  }

  lemma OneReceived(m: Message)
    requires Sendable(m)
    ensures ReceivedAll([m]) == [Received(m)]
  {
  }

  lemma LengthField(m: Message)
    requires Encodable(m)
    ensures Frame(m)[0] == PB_START && Frame(m)[1..5] == ToNet(FrameLength(m)) && Frame(m)[FrameLength(m) - 1] == PB_END
  {
    hide Frame, HeadToMethod, HeadToError, ToNet, FromNet;
    var f := Frame(m);
    assert At(f, 0, f);
    LayoutBody(f, 0, m);
    LayoutError(f, 0, m);
    HeadHoldsLength(f, m);
  }

  lemma HeadHoldsLength(f: seq<byte>, m: Message)
    requires Encodable(m) && At(f, 0, HeadToMethod(m))
    ensures |f| >= 5 && f[0] == PB_START && f[1..5] == ToNet(FrameLength(m))
  {
    hide ToNet, FromNet;
    AtTextInt(f, 0, HeadToId(m), SentId(m), |m.methodName|);
    AtTextInt(f, 0, [PB_START], ToNet(FrameLength(m)), |SentId(m)|);
    assert f[0] == f[0..1][0];
  }

  /** The first two bytes of a frame shorter than 2^24. */
  const CUT: seq<byte> := [PB_START, 0]

  lemma CutFrame(m: Message)
    requires Encodable(m)
    ensures Frame(m)[..2] == CUT <==> FrameLength(m) < 0x100_0000
  {
    LengthField(m);
    assert Frame(m)[1] == Frame(m)[1..5][0];
  }

  /** Without that condition decode can fail to end: a small frame at the front of a fresh 128-byte buffer, followed by
      the first two bytes of the next frame, of fewer than 2^24 bytes. The length read for the cut frame is 0, the
      byte before it is the end byte of the frame before, and every further iteration leaves everything as it is. */
  lemma CutLengthStalls(m: Message, next: Message, n: nat)
    requires Sendable(m) && FrameLength(m) < 42 && Encodable(next) && FrameLength(next) < 0x100_0000
    ensures var v := View(Frame(m) + Frame(next)[..2] + Zeros(126 - FrameLength(m)), 0, FrameLength(m) + 2);
      && v.Valid() && v.Readable() <= Stream([m, next])
      && Turns(v, n + 1) == Decoded([Received(m)], v.(read := FrameLength(m)), GoesOn)
  {
    hide Frame, Turns, TurnOf, Scan, Received, Stream, FromNet, Sendable;
    var f, zeros := Frame(m), Zeros(126 - FrameLength(m));
    var v := View(f + Frame(next)[..2] + zeros, 0, |f| + 2);
    CutFrame(next);
    LengthField(m);
    TwoFrames(m, next);
    CutLengthIsZero(f, CUT, zeros);
    FirstTurn(v, m, CUT);
    StallAfterEnd(v.(read := |f|));
    OneThenNothing(v, Received(m), v.(read := |f|), n);
  }

  lemma OneThenNothing(v: View, m: Message, after: View, n: nat)
    requires v.Valid() && TurnOf(v) == Goes([m], after) && TurnOf(after) == Goes([], after)
    ensures Turns(v, n + 1) == Decoded([m], after, GoesOn)
  {
    hide TurnOf;
    RepeatedForever(after, [], n);
    NoCopies<Message>(n);
  }

  lemma {:induction false} NoCopies<T>(n: nat)
    ensures Copies<T>([], n) == []
  {
    assert |Copies<T>([], n)| == n * 0;
  }

  lemma TwoFrames(m: Message, next: Message)
    requires Encodable(m) && Encodable(next)
    ensures AllEncodable([m, next]) && Frame(m) + Frame(next)[..2] <= Stream([m, next])
  {
    hide Frame;
    StreamCons([m, next]);
    StreamCons([next]);
    assert [m, next][1..] == [next] && Stream([]) == [];
  }

  /** The turn for a frame at the front of a buffer that is not compacted. */
  lemma FirstTurn(v: View, m: Message, tail: seq<byte>)
    requires v.Valid() && v.read == 0 && v.write < |v.data| && FrameLength(m) < |v.data| / 3
    requires Sendable(m) && v.Readable() == Frame(m) + tail
    ensures TurnOf(v) == Goes([Received(m)], v.(read := FrameLength(m)))
  {
    hide Frame, TurnOf;
    assert At(v.Readable(), 0, Frame(m));
    TurnOfFrame(v, 0, m);
  }

  lemma CutLengthIsZero(f: seq<byte>, cut: seq<byte>, zeros: seq<byte>)
    requires f != [] && f[|f| - 1] == PB_END && cut == [PB_START, 0] && |zeros| >= 3
    requires forall k :: 0 <= k < |zeros| ==> zeros[k] == 0
    ensures var data := f + cut + zeros;
      && data[..|f| + 2] == f + cut
      && data[|f| - 1] == PB_END && data[|f|] == PB_START && FromNet(data, |f| + 1) == 0
  {
  }

  /** A length of 0 right after an old end byte changes nothing. */
  lemma StallAfterEnd(v: View)
    requires v.Valid() && 0 < v.read && v.read + 1 < v.write && v.read + 5 <= |v.data| && v.read < |v.data| / 3
    requires v.data[v.read - 1] == PB_END && v.data[v.read] == PB_START && FromNet(v.data, v.read + 1) == 0
    ensures TurnOf(v) == Goes([], v)
  {
    hide Scan, FromNet;
    StallScan(v);
  }

  lemma StallScan(v: View)
    requires v.Valid() && 0 < v.read && v.read + 1 < v.write && v.read + 5 <= |v.data|
    requires v.data[v.read - 1] == PB_END && v.data[v.read] == PB_START && FromNet(v.data, v.read + 1) == 0
    ensures Scan(v.data, v.read, v.write) == Found(v.read, 0)
  {
    hide FromNet;
    assert TestAt(v.data, v.read, v.write) == Pass(0);
  }
}
