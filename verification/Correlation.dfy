/** Matching replies to registered callbacks, and why a client tolerates a server that keeps
    sending everything it ever encoded. */
module Correlation {
  import opened Bytes
  import opened Sequences
  import opened Framing
  import opened TcpBuffers
  import opened TinyPB
  import opened TinyPBCoder
  import opened Streaming
  import opened ReadPath

  type Id = seq<byte>
  type Callback = nat

  /** m_read_done, and the history of callbacks run with their message. */
  datatype Client = Client(readDone: map<Id, Callback>, ran: seq<(Callback, Message)>)

  function Dispatch(c: Client, m: Message): Client {
    if m.msgId in c.readDone then Client(c.readDone - {m.msgId}, c.ran + [(c.readDone[m.msgId], m)]) else c
  }

  function DispatchAll(c: Client, ms: seq<Message>): Client
    decreases |ms|
  {
    if ms == [] then c else DispatchAll(Dispatch(c, ms[0]), ms[1..])
  }

  /** std::map::insert: a callback already registered under the id stays. */
  function Register(c: Client, id: Id, callback: Callback): Client {
    if id in c.readDone then c else c.(readDone := c.readDone[id := callback])
  }

  ghost function Ids(ms: seq<Message>): set<Id> {
    set k | 0 <= k < |ms| :: ms[k].msgId
  }

  /** The callbacks that should run: for each registered id that occurs, the first message carrying it,
      in order of first occurrence. */
  ghost function FirstReplies(readDone: map<Id, Callback>, ms: seq<Message>): seq<(Callback, Message)> {
    if ms == [] then []
    else
      var n := |ms| - 1;
      FirstReplies(readDone, ms[..n])
      + (if ms[n].msgId in readDone && ms[n].msgId !in Ids(ms[..n]) then [(readDone[ms[n].msgId], ms[n])] else [])
  }

  lemma {:induction false} DispatchAllAppend(c: Client, a: seq<Message>, b: seq<Message>)
    ensures DispatchAll(c, a + b) == DispatchAll(DispatchAll(c, a), b)
    decreases |a|
  {
    if a == [] {
      assert a + b == b;
    } else {
      assert (a + b)[0] == a[0] && (a + b)[1..] == a[1..] + b;
      DispatchAllAppend(Dispatch(c, a[0]), a[1..], b);
    }
  }

  /** Dispatching runs exactly the first replies: each registered callback at most once, with the first
      message carrying its id, in that order; the ids seen are no longer registered. */
  lemma {:induction false} DispatchRunsFirstReplies(c: Client, ms: seq<Message>)
    ensures DispatchAll(c, ms) == Client(c.readDone - Ids(ms), c.ran + FirstReplies(c.readDone, ms))
    decreases |ms|
  {
    if ms == [] {
      assert c.ran + [] == c.ran;
      assert Ids(ms) == {};
    } else {
      var n := |ms| - 1;
      var init, last := ms[..n], ms[n];
      assert ms == init + [last];
      DispatchAllAppend(c, init, [last]);
      DispatchRunsFirstReplies(c, init);
      IdsSnoc(init, last);
      var before := DispatchAll(c, init);
      assert DispatchAll(before, [last]) == Dispatch(before, last);
      DispatchLast(c, init, last, before);
    }
  }

  lemma DispatchLast(c: Client, init: seq<Message>, last: Message, before: Client)
    requires before == Client(c.readDone - Ids(init), c.ran + FirstReplies(c.readDone, init))
    ensures Dispatch(before, last)
      == Client(c.readDone - (Ids(init) + {last.msgId}), c.ran + FirstReplies(c.readDone, init + [last]))
  {
    hide Ids, FirstReplies;
    FirstRepliesSnoc(c.readDone, init, last);
    MinusBoth(c.readDone, Ids(init), last.msgId);
    if last.msgId !in before.readDone {
      MinusAbsent(before.readDone, last.msgId);
    }
  }

  lemma FirstRepliesSnoc(readDone: map<Id, Callback>, init: seq<Message>, last: Message)
    ensures FirstReplies(readDone, init + [last])
      == FirstReplies(readDone, init)
        + (if last.msgId in readDone && last.msgId !in Ids(init) then [(readDone[last.msgId], last)] else [])
  {
    hide Ids;
    var ms := init + [last];
    assert ms[..|ms| - 1] == init && ms[|ms| - 1] == last;
  }

  lemma MinusBoth(m: map<Id, Callback>, ids: set<Id>, id: Id)
    ensures m - (ids + {id}) == (m - ids) - {id}
  {
  }

  lemma MinusAbsent(m: map<Id, Callback>, id: Id)
    requires id !in m
    ensures m - {id} == m
  {
  }

  lemma IdsSnoc(init: seq<Message>, last: Message)
    ensures Ids(init + [last]) == Ids(init) + {last.msgId}
  {
    var ms := init + [last];
    assert forall k :: 0 <= k < |init| ==> ms[k] == init[k];
    assert ms[|init|] == last;
  }

  /** Messages whose ids have all been seen run nothing. */
  lemma DuplicatesRunNothing(c: Client, a: seq<Message>, b: seq<Message>)
    requires Ids(b) <= Ids(a)
    ensures DispatchAll(c, a + b) == DispatchAll(c, a)
  {
    DispatchAllAppend(c, a, b);
    DispatchRunsFirstReplies(c, a);
    SeenRunNothing(DispatchAll(c, a), b);
  }

  lemma {:induction false} SeenRunNothing(c: Client, b: seq<Message>)
    requires Ids(b) !! c.readDone.Keys
    ensures DispatchAll(c, b) == c
    decreases |b|
  {
    if b != [] {
      assert b[0].msgId in Ids(b);
      assert Ids(b[1..]) <= Ids(b) by {
        assert forall k :: 0 <= k < |b| - 1 ==> b[1..][k] == b[k + 1];
      }
      SeenRunNothing(c, b[1..]);
    }
  }

  // ---------------------------------------------------------------------
  // Registrations at any time
  // ---------------------------------------------------------------------

  datatype Event = Registered(id: Id, callback: Callback) | Arrived(message: Message)

  function Handle(c: Client, e: Event): Client {
    match e
    case Registered(id, callback) => Register(c, id, callback)
    case Arrived(m) => Dispatch(c, m)
  }

  function HandleAll(c: Client, es: seq<Event>): Client
    decreases |es|
  {
    if es == [] then c else HandleAll(Handle(c, es[0]), es[1..])
  }

  /** An id is held from a registration to the next message that carries it. */
  predicate HeldAfter(held: bool, es: seq<Event>, id: Id)
    decreases |es|
  {
    if es == [] then held
    else
      match es[0]
      case Registered(id', _) => HeldAfter(held || id' == id, es[1..], id)
      case Arrived(m) => HeldAfter(held && m.msgId != id, es[1..], id)
  }

  /** The registrations of a callback for an id that are made while the id is not held. */
  function TimesAccepted(held: bool, es: seq<Event>, id: Id, callback: Callback): nat
    decreases |es|
  {
    if es == [] then 0
    else
      match es[0]
      case Registered(id', callback') =>
        (if !held && id' == id && callback' == callback then 1 else 0)
        + TimesAccepted(held || id' == id, es[1..], id, callback)
      case Arrived(m) => TimesAccepted(held && m.msgId != id, es[1..], id, callback)
  }

  function TimesRun(ran: seq<(Callback, Message)>, id: Id, callback: Callback): nat {
    if ran == [] then 0
    else
      var n := |ran| - 1;
      TimesRun(ran[..n], id, callback) + if ran[n].0 == callback && ran[n].1.msgId == id then 1 else 0
  }

  function StillHeld(c: Client, id: Id, callback: Callback): nat {
    if id in c.readDone && c.readDone[id] == callback then 1 else 0
  }

  /** Over any interleaving of registrations and messages: the runs of a callback for an id, and its registration
      still held, are exactly the earlier ones and its registrations made while the id was not held. */
  lemma {:induction false} RegistrationsBalance(c: Client, es: seq<Event>, id: Id, callback: Callback)
    ensures var after := HandleAll(c, es);
      && (id in after.readDone <==> HeldAfter(id in c.readDone, es, id))
      && TimesRun(after.ran, id, callback) + StillHeld(after, id, callback)
         == TimesRun(c.ran, id, callback) + StillHeld(c, id, callback)
          + TimesAccepted(id in c.readDone, es, id, callback)
    decreases |es|
  {
    if es != [] {
      var next := Handle(c, es[0]);
      assert |next.ran| > |c.ran| ==> next.ran[..|next.ran| - 1] == c.ran;
      RegistrationsBalance(next, es[1..], id, callback);
    }
  }

  /** No message with the id arrives. */
  predicate Quieted(es: seq<Event>, id: Id) {
    forall k :: 0 <= k < |es| && es[k].Arrived? ==> es[k].message.msgId != id
  }

  /** What is registered under an id stays until a message with the id arrives, whatever else is registered. */
  lemma {:induction false} RegistrationStays(c: Client, es: seq<Event>, id: Id)
    requires id in c.readDone && Quieted(es, id)
    ensures id in HandleAll(c, es).readDone && HandleAll(c, es).readDone[id] == c.readDone[id]
    decreases |es|
  {
    if es != [] {
      assert es[0].Arrived? ==> es[0].message.msgId != id;
      assert forall k :: 0 <= k < |es| - 1 ==> es[1..][k] == es[k + 1];
      RegistrationStays(Handle(c, es[0]), es[1..], id);
    }
  }

  lemma {:induction false} HandleAllAppend(c: Client, a: seq<Event>, b: seq<Event>)
    ensures HandleAll(c, a + b) == HandleAll(HandleAll(c, a), b)
    decreases |a|
  {
    if a == [] {
      assert a + b == b;
    } else {
      assert (a + b)[0] == a[0] && (a + b)[1..] == a[1..] + b;
      HandleAllAppend(Handle(c, a[0]), a[1..], b);
    }
  }

  /** A registration made while its id is not held is answered by the first message with the id: that message is
      handed to the registered callback, whatever was registered and received before and in between. */
  lemma RegistrationIsAnswered(c: Client, before: seq<Event>, id: Id, callback: Callback, between: seq<Event>,
                               m: Message)
    requires !HeldAfter(id in c.readDone, before, id) && Quieted(between, id) && m.msgId == id
    ensures var es := before + [Registered(id, callback)] + between;
      && HandleAll(c, es + [Arrived(m)]).ran == HandleAll(c, es).ran + [(callback, m)]
      && id !in HandleAll(c, es + [Arrived(m)]).readDone
  {
    var es := before + [Registered(id, callback)] + between;
    var free := HandleAll(c, before);
    RegistrationsBalance(c, before, id, callback);
    HandleAllAppend(c, before, [Registered(id, callback)]);
    HandleAllAppend(c, before + [Registered(id, callback)], between);
    HandleAllAppend(c, es, [Arrived(m)]);
    RegistrationStays(Handle(free, Registered(id, callback)), between, id);
  }

  // ---------------------------------------------------------------------
  // End to end
  // ---------------------------------------------------------------------

  ghost predicate Within(counts: seq<nat>, total: nat) {
    forall k :: 0 <= k < |counts| ==> counts[k] <= total
  }

  /** The messages on the wire when the k-th send transmits the first counts[k] of all messages again. */
  ghost function Resent(ms: seq<Message>, counts: seq<nat>): (rs: seq<Message>)
    requires Within(counts, |ms|)
    ensures AllSendable(ms) ==> AllSendable(rs)
  {
    if counts == [] then [] else Resent(ms, counts[..|counts| - 1]) + ms[..counts[|counts| - 1]]
  }

  ghost predicate Growing(counts: seq<nat>, total: nat) {
    && Within(counts, total)
    && (forall j, k :: 0 <= j <= k < |counts| ==> counts[j] <= counts[k])
  }

  ghost function Total(counts: seq<nat>): nat {
    if counts == [] then 0 else Total(counts[..|counts| - 1]) + counts[|counts| - 1]
  }

  lemma {:induction false} ResentLength(ms: seq<Message>, counts: seq<nat>)
    requires Within(counts, |ms|)
    ensures |Resent(ms, counts)| == Total(counts)
  {
    if counts != [] {
      ResentLength(ms, counts[..|counts| - 1]);
    }
  }

  /** How many different messages are among the first n that were sent: as many as the longest
      of the sends that have arrived, or as have arrived of the last one. */
  ghost function Seen(counts: seq<nat>, total: nat, n: nat): (seen: nat)
    requires Within(counts, total)
    ensures seen <= total
  {
    if counts == [] then 0
    else
      var earlier := counts[..|counts| - 1];
      var before := Total(earlier);
      if n <= before then Seen(earlier, total, n)
      else
        var whole, part := Seen(earlier, total, before), n - before;
        if part > counts[|counts| - 1] then Larger(whole, counts[|counts| - 1]) else Larger(whole, part)
  }

  function Larger(a: nat, b: nat): nat {
    if a < b then b else a
  }

  /** When everything has arrived, that is what the last send carried. */
  lemma {:induction false} SeenEverything(counts: seq<nat>, total: nat)
    requires Growing(counts, total)
    ensures Seen(counts, total, Total(counts)) == if counts == [] then 0 else counts[|counts| - 1]
  {
    if counts != [] {
      var n := |counts| - 1;
      SeenEverything(counts[..n], total);
      assert n > 0 ==> counts[n - 1] <= counts[n];
    }
  }

  /** Receiving a prefix of the messages again, and perhaps some more. */
  lemma OnceMore(c: Client, ms: seq<Message>, q: nat, p: nat)
    requires q <= |ms| && p <= |ms|
    ensures DispatchAll(c, ms[..q] + ms[..p]) == DispatchAll(c, ms[..Larger(q, p)])
  {
    if p <= q {
      assert ms[..p] <= ms[..q];
      DuplicatesRunNothing(c, ms[..q], ms[..p]);
    } else {
      var more := ms[q..p];
      assert ms[..p] == ms[..q] + more;
      assert ms[..q] + ms[..p] == (ms[..q] + ms[..q]) + more;
      DispatchAllAppend(c, ms[..q] + ms[..q], more);
      DuplicatesRunNothing(c, ms[..q], ms[..q]);
      DispatchAllAppend(c, ms[..q], more);
    }
  }

  /** A client that receives any part of the repeated history behaves as if it had received
      every message in it once. */
  lemma {:induction false} ResendingIsHarmless(c: Client, ms: seq<Message>, counts: seq<nat>, n: nat)
    requires Within(counts, |ms|) && n <= |Resent(ms, counts)|
    ensures DispatchAll(c, Resent(ms, counts)[..n]) == DispatchAll(c, ms[..Seen(counts, |ms|, n)])
    decreases |counts|
  {
    hide DispatchAll;
    if counts == [] {
      assert Resent(ms, counts)[..n] == ms[..0];
    } else {
      var last := |counts| - 1;
      var earlier := Resent(ms, counts[..last]);
      ResentLength(ms, counts[..last]);
      if n <= |earlier| {
        ResendingIsHarmless(c, ms, counts[..last], n);
        assert Resent(ms, counts)[..n] == earlier[..n];
      } else {
        ResendingIsHarmless(c, ms, counts[..last], |earlier|);
        ResendSome(c, ms, earlier, Seen(counts[..last], |ms|, |earlier|), n - |earlier|);
        assert Resent(ms, counts)[..n] == earlier + ms[..n - |earlier|];
      }
    }
  }

  lemma ResendSome(c: Client, ms: seq<Message>, earlier: seq<Message>, q: nat, p: nat)
    requires q <= |ms| && p <= |ms|
    requires DispatchAll(c, earlier[..|earlier|]) == DispatchAll(c, ms[..q])
    ensures DispatchAll(c, earlier + ms[..p]) == DispatchAll(c, ms[..Larger(q, p)])
  {
    hide DispatchAll;
    assert earlier[..|earlier|] == earlier;
    DispatchAllAppend(c, earlier, ms[..p]);
    DispatchAllAppend(c, ms[..q], ms[..p]);
    OnceMore(c, ms, q, p);
  }

  /** In how many sends message j was. */
  ghost function TimesSent(counts: seq<nat>, j: nat): nat {
    if counts == [] then 0
    else TimesSent(counts[..|counts| - 1], j) + if j < counts[|counts| - 1] then 1 else 0
  }

  lemma {:induction false} ResentTimes(ms: seq<Message>, counts: seq<nat>, j: nat)
    requires Within(counts, |ms|)
    requires j < |ms| && forall i :: 0 <= i < |ms| && i != j ==> ms[i] != ms[j]
    ensures multiset(Resent(ms, counts))[ms[j]] == TimesSent(counts, j)
  {
    if counts != [] {
      var n := |counts| - 1;
      ResentTimes(ms, counts[..n], j);
      OnceInPrefix(ms, counts[n], j);
    }
  }

  lemma OnceInPrefix(ms: seq<Message>, n: nat, j: nat)
    requires n <= |ms| && j < |ms| && forall i :: 0 <= i < |ms| && i != j ==> ms[i] != ms[j]
    ensures multiset(ms[..n])[ms[j]] == if j < n then 1 else 0
  {
    if j < n {
      assert ms[..n] == ms[..j] + [ms[j]] + ms[j + 1..n];
      assert ms[j] !in ms[..j] && ms[j] !in ms[j + 1..n];
    } else {
      assert ms[j] !in ms[..n];
    }
  }

  /** The k-th successful send carried every frame encoded so far. */
  ghost predicate SendsEverything(wire: seq<seq<byte>>, ms: seq<Message>, counts: seq<nat>) {
    && |wire| == |counts| && Growing(counts, |ms|) && AllEncodable(ms)
    && forall k :: 0 <= k < |wire| ==> wire[k] == Stream(ms[..counts[k]])
  }

  lemma {:induction false} WireIsResent(wire: seq<seq<byte>>, ms: seq<Message>, counts: seq<nat>)
    requires SendsEverything(wire, ms, counts) && AllSendable(ms)
    ensures Flatten(wire) == Stream(Resent(ms, counts))
    decreases |wire|
  {
    hide Sendable, Frame, Frames, Flatten;
    if wire == [] {
      NothingSent();
    } else {
      var n := |wire| - 1;
      WireIsResent(wire[..n], ms, counts[..n]);
      assert wire == wire[..n] + [wire[n]];
      FlattenAppend(wire[..n], [wire[n]]);
      FlattenOne(wire[n]);
      SendableAreEncodable(Resent(ms, counts[..n]));
      StreamAppend(Resent(ms, counts[..n]), ms[..counts[n]]);
    }
  }

  lemma NothingSent()
    ensures Flatten<byte>([]) == [] && Stream([]) == []
  {
  }

  lemma SendableAreEncodable(ms: seq<Message>)
    requires AllSendable(ms)
    ensures AllEncodable(ms)
  {
  }

  lemma {:induction false} EverythingComplete(fs: seq<seq<byte>>)
    ensures Complete(fs, |Flatten(fs)|) == |fs|
  {
    if fs != [] {
      EverythingComplete(fs[1..]);
    }
  }

  lemma {:induction false} ReceivedAllAt(ms: seq<Message>)
    requires AllSendable(ms)
    ensures forall k :: 0 <= k < |ms| ==> ReceivedAll(ms)[k] == Received(ms[k])
  {
    hide Received;
    if ms != [] {
      ReceivedAllAt(ms[1..]);
      assert forall k :: 1 <= k < |ms| ==> ReceivedAll(ms)[k] == ReceivedAll(ms[1..])[k - 1];
    }
  }

  lemma {:induction false} ReceivedAllTake(ms: seq<Message>, n: nat)
    requires AllSendable(ms) && n <= |ms|
    ensures ReceivedAll(ms[..n]) == ReceivedAll(ms)[..n]
  {
    hide Received;
    assert ms == ms[..n] + ms[n..];
    ReceivedAllAppend(ms[..n], ms[n..]);
  }

  lemma {:induction false} ReceivedResent(ms: seq<Message>, counts: seq<nat>)
    requires AllSendable(ms) && Within(counts, |ms|)
    ensures ReceivedAll(Resent(ms, counts)) == Resent(ReceivedAll(ms), counts)
    decreases |counts|
  {
    hide Received, Sendable;
    if counts != [] {
      var n := |counts| - 1;
      ReceivedResent(ms, counts[..n]);
      ReceivedAllAppend(Resent(ms, counts[..n]), ms[..counts[n]]);
      ReceivedAllTake(ms, counts[n]);
    }
  }

  /** How many frames are complete in what has been delivered. */
  ghost function FramesArrived(ms: seq<Message>, counts: seq<nat>, ds: seq<Delivery>): nat
    requires AllSendable(ms) && Within(counts, |ms|)
  {
    SendableAreEncodable(Resent(ms, counts));
    Complete(Frames(Resent(ms, counts)), |Chunks(ds)|)
  }

  /** Any part of the bytes sent has been delivered, in whatever chunks. */
  lemma SomeDelivered(wire: seq<seq<byte>>, ms: seq<Message>, counts: seq<nat>, ds: seq<Delivery>)
    requires AllSendable(ms) && SendsEverything(wire, ms, counts)
    requires Delivered([], ds) && Chunks(ds) <= Flatten(wire)
    requires QuietThroughout(ds, Frames(Resent(ms, counts)))
    ensures forall k :: 0 <= k < |ds| ==> ds[k].view.Valid()
    ensures var rs, n := Resent(ReceivedAll(ms), counts), FramesArrived(ms, counts, ds);
      && n <= |rs| && Outputs(ds) == rs[..n]
      && (Chunks(ds) == Flatten(wire) ==> n == |rs|)
  {
    hide Delivered, QuietThroughout, Outputs, Chunks, Sendable, Received;
    var rs, n := Resent(ms, counts), FramesArrived(ms, counts, ds);
    WireIsResent(wire, ms, counts);
    SendableAreEncodable(rs);
    assert [] + Chunks(ds) == Chunks(ds);
    NothingYet(Frames(rs));
    StreamingDecode([], ds, rs);
    EverythingComplete(Frames(rs));
    ReceivedResent(ms, counts);
    ReceivedAllTake(rs, n);
  }

  lemma NothingYet(fs: seq<seq<byte>>)
    ensures fs == [] || fs[0] != [] ==> Complete(fs, 0) == 0
  {
  }

  /** The client once the first reply for each registered id among the first n messages has run its callback. */
  ghost function AfterFirstReplies(c: Client, ms: seq<Message>, n: nat): Client
    requires AllSendable(ms) && n <= |ms|
  {
    var sent := ReceivedAll(ms[..n]);
    Client(c.readDone - Ids(sent), c.ran + FirstReplies(c.readDone, sent))
  }

  /** How many different messages are among the frames that have arrived. */
  ghost function SeenIn(ds: seq<Delivery>, ms: seq<Message>, counts: seq<nat>): (seen: nat)
    requires AllSendable(ms) && Within(counts, |ms|)
    ensures seen <= |ms|
  {
    Seen(counts, |ms|, FramesArrived(ms, counts, ds))
  }

  lemma DeliveredRunsFirstReplies(wire: seq<seq<byte>>, ms: seq<Message>, counts: seq<nat>, ds: seq<Delivery>,
                                  c: Client)
    requires AllSendable(ms) && SendsEverything(wire, ms, counts)
    requires Delivered([], ds) && Chunks(ds) <= Flatten(wire)
    requires QuietThroughout(ds, Frames(Resent(ms, counts)))
    ensures forall k :: 0 <= k < |ds| ==> ds[k].view.Valid()
    ensures DispatchAll(c, Outputs(ds)) == AfterFirstReplies(c, ms, SeenIn(ds, ms, counts))
    ensures Chunks(ds) == Flatten(wire) && counts != [] ==> SeenIn(ds, ms, counts) == counts[|counts| - 1]
  {
    hide Delivered, QuietThroughout, Outputs, Chunks, Sendable, Received, DispatchAll, FirstReplies, ReceivedAll,
         Frames, Stream, Flatten, Ids, FramesArrived, Seen, Resent, AllEncodable;
    var n := FramesArrived(ms, counts, ds);
    var seen := SeenIn(ds, ms, counts);
    SomeDelivered(wire, ms, counts, ds);
    ResendingIsHarmless(c, ReceivedAll(ms), counts, n);
    ReceivedAllTake(ms, seen);
    DispatchRunsFirstReplies(c, ReceivedAll(ms[..seen]));
    SeenEverything(counts, |ms|);
    ResentLength(ReceivedAll(ms), counts);
  }

  /** End to end. A server that never removes sent data sends all its frames again with every write. A client that
      has read any part of those bytes, in whatever chunks the read calls return, has run exactly the first replies
      among the messages that have arrived: each registered callback at most once, with the first message carrying its
      id. Once all bytes are there, these are the replies to everything in the last send. */
  lemma EndToEnd(wire: seq<seq<byte>>, ms: seq<Message>, counts: seq<nat>, v: View, calls: seq<seq<ReadResult>>,
                 c: Client)
    requires AllSendable(ms) && SendsEverything(wire, ms, counts)
    requires v.Valid() && v.write < |v.data| && v.Readable() == [] && PlausibleRun(v, calls)
    requires Chunks(Deliveries(v, calls)) <= Flatten(wire)
    requires QuietThroughout(Deliveries(v, calls), Frames(Resent(ms, counts)))
    ensures forall k :: 0 <= k < |Deliveries(v, calls)| ==> Deliveries(v, calls)[k].view.Valid()
    ensures DispatchAll(c, Outputs(Deliveries(v, calls)))
         == AfterFirstReplies(c, ms, SeenIn(Deliveries(v, calls), ms, counts))
    ensures Chunks(Deliveries(v, calls)) == Flatten(wire) && counts != [] ==>
      SeenIn(Deliveries(v, calls), ms, counts) == counts[|counts| - 1]
  {
    hide Delivered, QuietThroughout, Outputs, Chunks, Deliveries, Resent, DispatchAll, AfterFirstReplies, PlausibleRun,
         Frames, Flatten, SeenIn, AllSendable;
    RunDelivers(v, calls);
    DeliveredRunsFirstReplies(wire, ms, counts, Deliveries(v, calls), c);
  }

  /** The same from the bytes that the kernel handed over, when no read fills the space: none of them is lost. */
  lemma EndToEndRead(wire: seq<seq<byte>>, ms: seq<Message>, counts: seq<nat>, v: View, calls: seq<seq<ReadResult>>,
                     c: Client)
    requires AllSendable(ms) && SendsEverything(wire, ms, counts)
    requires v.Valid() && v.write < |v.data| && v.Readable() == [] && PlausibleRun(v, calls)
    requires !SomeReadFills(calls) && AllHandedOver(calls) <= Flatten(wire)
    requires QuietThroughout(Deliveries(v, calls), Frames(Resent(ms, counts)))
    ensures Chunks(Deliveries(v, calls)) == AllHandedOver(calls)
    ensures forall k :: 0 <= k < |Deliveries(v, calls)| ==> Deliveries(v, calls)[k].view.Valid()
    ensures DispatchAll(c, Outputs(Deliveries(v, calls)))
         == AfterFirstReplies(c, ms, SeenIn(Deliveries(v, calls), ms, counts))
    ensures AllHandedOver(calls) == Flatten(wire) && counts != [] ==>
      SeenIn(Deliveries(v, calls), ms, counts) == counts[|counts| - 1]
  {
    hide Delivered, QuietThroughout, Outputs, Chunks, Deliveries, Resent, DispatchAll, AfterFirstReplies, PlausibleRun,
         Frames, Flatten, SendsEverything, SeenIn, AllSendable, AllHandedOver, SomeReadFills;
    RunKeepsAllIff(v, calls);
    EndToEnd(wire, ms, counts, v, calls, c);
  }

  /** The ids that go out are pairwise different. */
  ghost predicate DistinctIds(ms: seq<Message>) {
    forall i, j :: 0 <= i < j < |ms| ==> SentId(ms[i]) != SentId(ms[j])
  }

  /** A server is not protected: when it is the client that resends, the server's dispatcher gets request j once
      for every send that it was in, and executes it each time. */
  lemma RequestsArriveAgain(wire: seq<seq<byte>>, ms: seq<Message>, counts: seq<nat>, ds: seq<Delivery>, j: nat)
    requires AllSendable(ms) && DistinctIds(ms) && SendsEverything(wire, ms, counts) && j < |ms|
    requires Delivered([], ds) && Chunks(ds) == Flatten(wire)
    requires QuietThroughout(ds, Frames(Resent(ms, counts)))
    ensures forall k :: 0 <= k < |ds| ==> ds[k].view.Valid()
    ensures multiset(Outputs(ds))[Received(ms[j])] == TimesSent(counts, j)
  {
    hide Delivered, QuietThroughout, Outputs, Chunks, Frames, Stream, Flatten, FramesArrived, Resent, ReceivedAll;
    var rs := ReceivedAll(ms);
    SomeDelivered(wire, ms, counts, ds);
    ReceivedAllAt(ms);
    assert Resent(rs, counts)[..|Resent(rs, counts)|] == Resent(rs, counts);
    forall i | 0 <= i < |rs| && i != j
      ensures rs[i] != rs[j]
    {
      assert rs[i].msgId == SentId(ms[i]) && rs[j].msgId == SentId(ms[j]);
    }
    ResentTimes(rs, counts, j);
  }
}
