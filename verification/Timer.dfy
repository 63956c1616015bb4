/** The timer of an event loop: a time-ordered multimap of events behind a one-shot timerfd. */
module Timers {

  // ---------------------------------------------------------------------
  // std::multimap<int64_t, TimerEvent::s_ptr>
  // ---------------------------------------------------------------------

  datatype Entry<E> = Entry(key: int, event: E)

  ghost predicate Sorted<E>(es: seq<Entry<E>>) {
    forall i, j :: 0 <= i <= j < |es| ==> es[i].key <= es[j].key
  }

  /** upper_bound: how many entries come before the first key greater than the given one. */
  function Upper<E>(es: seq<Entry<E>>, key: int): (n: nat)
    ensures n <= |es|
  {
    if es == [] || es[0].key > key then 0 else 1 + Upper(es[1..], key)
  }

  /** lower_bound: how many entries come before the first key not less than the given one. */
  function Lower<E>(es: seq<Entry<E>>, key: int): (n: nat)
    ensures n <= |es|
  {
    if es == [] || es[0].key >= key then 0 else 1 + Lower(es[1..], key)
  }

  lemma {:induction false} BoundsSplit<E>(es: seq<Entry<E>>, key: int)
    requires Sorted(es)
    ensures Lower(es, key) <= Upper(es, key)
    ensures forall k :: 0 <= k < |es| ==> (k < Upper(es, key) <==> es[k].key <= key)
    ensures forall k :: 0 <= k < |es| ==> (k < Lower(es, key) <==> es[k].key < key)
  {
    if es != [] {
      BoundsSplit(es[1..], key);
      forall k | 0 <= k < |es|
        ensures (k < Upper(es, key) <==> es[k].key <= key) && (k < Lower(es, key) <==> es[k].key < key)
      {
        if k > 0 {
          assert es[k] == es[1..][k - 1];
        }
      }
    }
  }

  /** emplace: behind all entries with the same key. */
  function Insert<E>(es: seq<Entry<E>>, key: int, event: E): seq<Entry<E>> {
    var n := Upper(es, key);
    es[..n] + [Entry(key, event)] + es[n..]
  }

  lemma InsertSorted<E>(es: seq<Entry<E>>, key: int, event: E)
    requires Sorted(es)
    ensures Sorted(Insert(es, key, event))
  {
    BoundsSplit(es, key);
  }

  /** The new entry stands behind everything that is not later and in front of everything that is. */
  ghost predicate PutBehind<E>(before: seq<Entry<E>>, after: seq<Entry<E>>, key: int, event: E) {
    exists n :: 0 <= n <= |before|
      && after == before[..n] + [Entry(key, event)] + before[n..]
      && (forall k :: 0 <= k < n ==> before[k].key <= key)
      && (forall k :: n <= k < |before| ==> before[k].key > key)
  }

  lemma InsertPutsBehind<E>(es: seq<Entry<E>>, key: int, event: E)
    requires Sorted(es)
    ensures PutBehind(es, Insert(es, key, event), key, event)
  {
    BoundsSplit(es, key);
    var n := Upper(es, key);
    assert Insert(es, key, event) == es[..n] + [Entry(key, event)] + es[n..];
  }

  /** The first key changes only when the new one is smaller. */
  lemma InsertFirst<E>(es: seq<Entry<E>>, key: int, event: E)
    ensures var after := Insert(es, key, event);
      && after != []
      && after[0] == if es == [] || es[0].key > key then Entry(key, event) else es[0]
  {
  }

  function Events<E>(es: seq<Entry<E>>): (events: seq<E>)
    ensures |events| == |es| && forall k :: 0 <= k < |es| ==> events[k] == es[k].event
  {
    if es == [] then [] else [es[0].event] + Events(es[1..])
  }

  ghost function EventSet<E>(es: seq<Entry<E>>): set<E> {
    set e | e in Events(es)
  }

  ghost predicate Distinct<E>(es: seq<Entry<E>>) {
    forall i, j :: 0 <= i < j < |es| ==> es[i].event != es[j].event
  }

  /** All entries but those of one event, in order. */
  function Without<E(==)>(es: seq<Entry<E>>, event: E): seq<Entry<E>> {
    if es == [] then []
    else (if es[0].event == event then [] else [es[0]]) + Without(es[1..], event)
  }

  lemma {:induction false} WithoutAbsent<E>(es: seq<Entry<E>>, event: E)
    requires forall k :: 0 <= k < |es| ==> es[k].event != event
    ensures Without(es, event) == es
  {
    if es != [] {
      WithoutAbsent(es[1..], event);
    }
  }

  lemma {:induction false} WithoutOne<E>(es: seq<Entry<E>>, i: nat, event: E)
    requires i < |es| && es[i].event == event && Distinct(es)
    ensures Without(es, event) == es[..i] + es[i + 1..]
  {
    if i == 0 {
      WithoutAbsent(es[1..], event);
    } else {
      WithoutOne(es[1..], i - 1, event);
      assert es[..i] == [es[0]] + es[1..][..i - 1];
      assert es[1..][i..] == es[i + 1..];
    }
  }

  // ---------------------------------------------------------------------
  // Clock, events, timerfd
  // ---------------------------------------------------------------------

  /** getNowMs, for a clock that does not go back. */
  class Clock {
    var now: int

    method GetNowMs() returns (t: int)
      modifies this
      ensures t == now && old(now) <= now
    {
      var elapsed :| elapsed >= 0;
      now := now + elapsed;
      t := now;
    }
  }

  class TimerEvent {
    var arriveTime: int
    const interval: int
    const isRepeated: bool
    var isCanceled: bool

    constructor (interval: int, isRepeated: bool, clock: Clock)
      modifies clock
      ensures this.interval == interval && this.isRepeated == isRepeated && !isCanceled
      ensures old(clock.now) <= clock.now && arriveTime == clock.now + interval
    {
      this.interval, this.isRepeated, isCanceled := interval, isRepeated, false;
      new;
      ResetArriveTime(clock);
    }

    method ResetArriveTime(clock: Clock)
      modifies this`arriveTime, clock
      ensures old(clock.now) <= clock.now && arriveTime == clock.now + interval
    {
      var a := clock.GetNowMs();
      arriveTime := a + interval;
    }

    method SetCanceled(value: bool)
      modifies this`isCanceled
      ensures isCanceled == value
    {
      isCanceled := value;
    }
  }

  datatype Timespec = Timespec(sec: int, nsec: int)

  /** The timespec of an interval in ms is normalised, is not zero (which would disarm the timer), and lasts as long. */
  function ToTimespec(interval: int): (ts: Timespec)
    requires interval > 0
    ensures 0 <= ts.sec && 0 <= ts.nsec < 1_000_000_000 && ts != Timespec(0, 0)
    ensures ts.sec * 1_000_000_000 + ts.nsec == interval * 1_000_000
  {
    Timespec(interval / 1000, interval % 1000 * 1_000_000)
  }

  function Milliseconds(ts: Timespec): int {
    ts.sec * 1000 + ts.nsec / 1_000_000
  }

  /** One-shot: once expired it stays readable until it is read or set again. */
  datatype TimerFd = Disarmed | Armed(setAt: int, expiry: int)

  // ---------------------------------------------------------------------
  // The timer
  // ---------------------------------------------------------------------

  /** The entries whose events have not been canceled. */
  ghost function Live<E>(es: seq<Entry<E>>, canceled: set<E>): seq<Entry<E>> {
    if es == [] then []
    else Live(es[..|es| - 1], canceled) + (if es[|es| - 1].event in canceled then [] else [es[|es| - 1]])
  }

  ghost function Canceled(es: seq<Entry<TimerEvent>>): set<TimerEvent>
    reads EventSet(es)
  {
    set e | e in EventSet(es) && e.isCanceled
  }

  function Repeated(es: seq<Entry<TimerEvent>>): seq<TimerEvent> {
    if es == [] then []
    else Repeated(es[..|es| - 1]) + (if es[|es| - 1].event.isRepeated then [es[|es| - 1].event] else [])
  }

  ghost function RepeatedSet(es: seq<Entry<TimerEvent>>): set<TimerEvent> {
    set e | e in Repeated(es)
  }

  lemma RepeatedNext(es: seq<Entry<TimerEvent>>, i: nat)
    requires i < |es|
    ensures Repeated(es[..i + 1]) == Repeated(es[..i]) + (if es[i].event.isRepeated then [es[i].event] else [])
    ensures es[i].event.isRepeated ==> es[i].event in RepeatedSet(es)
  {
    assert es[..i + 1][..i] == es[..i];
    if es[i].event.isRepeated {
      RepeatedHolds(es, i);
    }
  }

  lemma {:induction false} RepeatedHolds(es: seq<Entry<TimerEvent>>, i: nat)
    requires i < |es| && es[i].event.isRepeated
    ensures es[i].event in Repeated(es)
  {
    if i < |es| - 1 {
      RepeatedHolds(es[..|es| - 1], i);
    }
  }

  /** Entries inserted one after the other. */
  function InsertAll<E>(es: seq<Entry<E>>, more: seq<Entry<E>>): seq<Entry<E>> {
    if more == [] then es
    else
      var n := |more| - 1;
      Insert(InsertAll(es, more[..n]), more[n].key, more[n].event)
  }

  lemma NothingReArmed(fired: seq<Entry<TimerEvent>>, es: seq<Entry<TimerEvent>>)
    ensures Repeated(fired[..0]) == [] && Events<TimerEvent>([]) == [] && InsertAll(es, []) == es
  {
  }

  lemma InsertAllNext<E>(es: seq<Entry<E>>, more: seq<Entry<E>>, key: int, event: E)
    ensures InsertAll(es, more + [Entry(key, event)]) == Insert(InsertAll(es, more), key, event)
    ensures Events(more + [Entry(key, event)]) == Events(more) + [event]
  {
    assert (more + [Entry(key, event)])[..|more|] == more;
  }

  lemma {:induction false} InsertAllHolds<E>(es: seq<Entry<E>>, more: seq<Entry<E>>, x: Entry<E>)
    ensures x in InsertAll(es, more) <==> x in es || x in more
  {
    if more != [] {
      var n := |more| - 1;
      InsertAllHolds(es, more[..n], x);
      InsertHolds(InsertAll(es, more[..n]), more[n].key, more[n].event, x);
      assert more == more[..n] + [more[n]];
    }
  }

  /** Every key is the arrive time of its event, and no event is pending twice. */
  ghost predicate Agree(es: seq<Entry<TimerEvent>>)
    reads Events(es)
  {
    && Sorted(es) && Distinct(es)
    && forall k :: 0 <= k < |es| ==> es[k].key == es[k].event.arriveTime
  }

  lemma InsertAgrees(es: seq<Entry<TimerEvent>>, event: TimerEvent)
    requires Agree(es) && event !in Events(es)
    ensures Agree(Insert(es, event.arriveTime, event))
  {
    InsertSorted(es, event.arriveTime, event);
    hide Sorted, Upper;
    var n, after := Upper(es, event.arriveTime), Insert(es, event.arriveTime, event);
    forall i, j | 0 <= i < j < |after|
      ensures after[i].event != after[j].event
    {
      assert forall k :: 0 <= k < |es| ==> Events(es)[k] == es[k].event;
    }
  }

  lemma RemoveAgrees(es: seq<Entry<TimerEvent>>, i: nat)
    requires Agree(es) && i < |es|
    ensures Agree(es[..i] + es[i + 1..])
    ensures es[i].event !in Events(es[..i] + es[i + 1..])
  {
    var after := es[..i] + es[i + 1..];
    assert forall k :: 0 <= k < |after| ==> after[k] == es[if k < i then k else k + 1];
  }

  /** An event is only to be found among the entries with its arrive time. */
  lemma NotInRange(es: seq<Entry<TimerEvent>>, event: TimerEvent)
    requires Agree(es)
    requires forall k :: Lower(es, event.arriveTime) <= k < Upper(es, event.arriveTime) ==> es[k].event != event
    ensures forall k :: 0 <= k < |es| ==> es[k].event != event
    ensures event !in Events(es)
  {
    BoundsSplit(es, event.arriveTime);
  }

  lemma {:induction false} UpperIs<E>(es: seq<Entry<E>>, n: nat, key: int)
    requires n <= |es| && forall k :: 0 <= k < n ==> es[k].key <= key
    requires n < |es| ==> es[n].key > key
    ensures Upper(es, key) == n
  {
    if n > 0 {
      assert forall k :: 0 <= k < n - 1 ==> es[1..][k] == es[k + 1];
      UpperIs(es[1..], n - 1, key);
    }
  }

  lemma {:induction false} LiveHolds<E>(es: seq<Entry<E>>, canceled: set<E>)
    ensures forall x <- Live(es, canceled) :: x.event !in canceled && x in es
  {
    if es != [] {
      LiveHolds(es[..|es| - 1], canceled);
    }
  }

  lemma {:induction false} LiveIsDistinct<E>(es: seq<Entry<E>>, canceled: set<E>)
    requires Distinct(es)
    ensures Distinct(Live(es, canceled))
  {
    if es != [] {
      LiveIsDistinct(es[..|es| - 1], canceled);
      LiveHolds(es[..|es| - 1], canceled);
    }
  }

  /** The indices increase, and they are exactly those with the property. */
  ghost predicate Selects(at: seq<nat>, chosen: seq<bool>) {
    && (forall i :: 0 <= i < |at| ==> at[i] < |chosen| && chosen[at[i]])
    && (forall i, j :: 0 <= i < j < |at| ==> at[i] < at[j])
    && (forall k :: 0 <= k < |chosen| && chosen[k] ==> k in at)
  }

  ghost function Chosen(chosen: seq<bool>): (at: seq<nat>)
    ensures forall i :: 0 <= i < |at| ==> at[i] < |chosen|
  {
    if chosen == [] then []
    else
      var n := |chosen| - 1;
      Chosen(chosen[..n]) + if chosen[n] then [n] else []
  }

  lemma {:induction false} ChosenSelects(chosen: seq<bool>)
    ensures Selects(Chosen(chosen), chosen)
  {
    if chosen != [] {
      var n := |chosen| - 1;
      ChosenSelects(chosen[..n]);
      var before, last := Chosen(chosen[..n]), chosen[n];
      assert Chosen(chosen) == before + if last then [n] else [];
      assert chosen == chosen[..n] + [last];
      hide Chosen;
      SelectsSnoc(before, chosen[..n], last);
    }
  }

  lemma SelectsSnoc(at: seq<nat>, chosen: seq<bool>, last: bool)
    requires Selects(at, chosen)
    ensures Selects(at + (if last then [|chosen|] else []), chosen + [last])
  {
    var more, all := at + (if last then [|chosen|] else []), chosen + [last];
    assert forall i :: 0 <= i < |at| ==> more[i] == at[i];
    forall k | 0 <= k < |all| && all[k]
      ensures k in more
    {
      if k == |chosen| {
        assert more[|at|] == k;
      } else {
        assert chosen[k];
      }
    }
  }

  ghost function NotCanceled<E>(es: seq<Entry<E>>, canceled: set<E>): (chosen: seq<bool>)
    ensures |chosen| == |es| && forall k :: 0 <= k < |es| ==> chosen[k] == (es[k].event !in canceled)
  {
    seq(|es|, k requires 0 <= k < |es| => es[k].event !in canceled)
  }

  /** Exactly the entries that have not been canceled, in their order. */
  lemma {:induction false} LiveExactly<E>(es: seq<Entry<E>>, canceled: set<E>)
    ensures var at, live := Chosen(NotCanceled(es, canceled)), Live(es, canceled);
      && Selects(at, NotCanceled(es, canceled)) && |at| == |live|
      && forall i :: 0 <= i < |at| ==> live[i] == es[at[i]]
  {
    hide Selects;
    ChosenSelects(NotCanceled(es, canceled));
    if es != [] {
      var n := |es| - 1;
      LiveExactly(es[..n], canceled);
      assert NotCanceled(es, canceled)[..n] == NotCanceled(es[..n], canceled);
    }
  }

  /** Only the cancellation of the given entries matters. */
  lemma {:induction false} LiveAgrees<E>(es: seq<Entry<E>>, a: set<E>, b: set<E>)
    requires forall x <- es :: x.event in a <==> x.event in b
    ensures Live(es, a) == Live(es, b)
  {
    if es != [] {
      LiveAgrees(es[..|es| - 1], a, b);
    }
  }

  lemma {:induction false} RepeatedIsSub(es: seq<Entry<TimerEvent>>)
    ensures forall e <- Repeated(es) :: e.isRepeated && e in Events(es)
  {
    hide Events;
    if es != [] {
      RepeatedIsSub(es[..|es| - 1]);
      EarlierEvents(es);
    }
  }

  ghost function AreRepeated(es: seq<Entry<TimerEvent>>): (chosen: seq<bool>)
    ensures |chosen| == |es| && forall k :: 0 <= k < |es| ==> chosen[k] == es[k].event.isRepeated
  {
    seq(|es|, k requires 0 <= k < |es| => es[k].event.isRepeated)
  }

  /** Exactly the repeated events, in their order. */
  lemma {:induction false} RepeatedExactly(es: seq<Entry<TimerEvent>>)
    ensures var at, events := Chosen(AreRepeated(es)), Repeated(es);
      && Selects(at, AreRepeated(es)) && |at| == |events|
      && forall i :: 0 <= i < |at| ==> events[i] == es[at[i]].event
  {
    hide Selects;
    ChosenSelects(AreRepeated(es));
    if es != [] {
      var n := |es| - 1;
      RepeatedExactly(es[..n]);
      assert AreRepeated(es)[..n] == AreRepeated(es[..n]);
    }
  }

  lemma EarlierEvents<E>(es: seq<Entry<E>>)
    requires es != []
    ensures var n := |es| - 1;
      es[n].event in Events(es) && forall e <- Events(es[..n]) :: e in Events(es)
  {
    var n := |es| - 1;
    assert Events(es)[n] == es[n].event;
    forall e | e in Events(es[..n])
      ensures e in Events(es)
    {
      var k :| 0 <= k < n && Events(es[..n])[k] == e;
      assert Events(es)[k] == e;
    }
  }

  lemma InsertHolds<E>(es: seq<Entry<E>>, key: int, event: E, x: Entry<E>)
    ensures x in Insert(es, key, event) <==> x in es || x == Entry(key, event)
  {
    var n, after := Upper(es, key), Insert(es, key, event);
    assert after[n] == Entry(key, event);
    assert es == es[..n] + es[n..];
  }

  lemma EventsHold<E>(es: seq<Entry<E>>, event: E)
    ensures event in Events(es) <==> exists x :: x in es && x.event == event
  {
    if event in Events(es) {
      var k :| 0 <= k < |es| && Events(es)[k] == event;
      assert es[k] in es && es[k].event == event;
    }
    if x :| x in es && x.event == event {
      var k :| 0 <= k < |es| && es[k] == x;
      assert Events(es)[k] == event;
    }
  }

  lemma InsertAddsOne<E>(es: seq<Entry<E>>, key: int, event: E, other: E)
    ensures other in Events(Insert(es, key, event)) <==> other in Events(es) || other == event
  {
    var after := Insert(es, key, event);
    EventsHold(after, other);
    EventsHold(es, other);
    InsertHolds(es, key, event, Entry(key, event));
    forall x
      ensures x in after <==> x in es || x == Entry(key, event)
    {
      InsertHolds(es, key, event, x);
    }
  }

  lemma InsertEventSet<E>(es: seq<Entry<E>>, key: int, event: E)
    ensures EventSet(Insert(es, key, event)) == EventSet(es) + {event}
  {
    forall e
      ensures e in EventSet(Insert(es, key, event)) <==> e in EventSet(es) + {event}
    {
      InsertAddsOne(es, key, event, e);
    }
  }

  lemma EventSetCons<E>(x: Entry<E>, es: seq<Entry<E>>)
    ensures EventSet([x] + es) == {x.event} + EventSet(es)
  {
    assert ([x] + es)[1..] == es;
    assert Events([x] + es) == [x.event] + Events(es);
  }

  lemma {:induction false} WithoutEvents<E>(es: seq<Entry<E>>, event: E)
    ensures EventSet(Without(es, event)) == EventSet(es) - {event}
  {
    hide Events, EventSet;
    if es == [] {
      NoEvents<E>();
    } else {
      var rest := Without(es[1..], event);
      WithoutEvents(es[1..], event);
      assert es == [es[0]] + es[1..];
      EventSetCons(es[0], es[1..]);
      EventSetCons(es[0], rest);
      assert [] + rest == rest;
    }
  }

  lemma NoEvents<E>()
    ensures EventSet<E>([]) == {}
  {
  }

  lemma EventSetSnoc<E>(es: seq<Entry<E>>, x: Entry<E>)
    ensures EventSet(es + [x]) == EventSet(es) + {x.event}
  {
    forall e
      ensures e in EventSet(es + [x]) <==> e in EventSet(es) + {x.event}
    {
      EventsHold(es + [x], e);
      EventsHold(es, e);
    }
  }

  lemma {:induction false} InsertAllEventSet<E>(es: seq<Entry<E>>, more: seq<Entry<E>>)
    ensures EventSet(InsertAll(es, more)) == EventSet(es) + EventSet(more)
  {
    hide Insert, EventSet;
    if more == [] {
      NoEvents<E>();
    } else {
      var n := |more| - 1;
      InsertAllEventSet(es, more[..n]);
      InsertEventSet(InsertAll(es, more[..n]), more[n].key, more[n].event);
      assert more == more[..n] + [more[n]] && more[n] == Entry(more[n].key, more[n].event);
      EventSetSnoc(more[..n], more[n]);
    }
  }

  lemma SubEvents<E>(a: seq<Entry<E>>, b: seq<Entry<E>>)
    requires forall x <- a :: x in b
    ensures EventSet(a) <= EventSet(b)
  {
    forall e | e in EventSet(a)
      ensures e in EventSet(b)
    {
      EventsHold(a, e);
      EventsHold(b, e);
    }
  }

  /** Firing makes nothing pending that was not, and collects only what was pending and live. */
  lemma FiringStays<E>(es: seq<Entry<E>>, n: nat, canceled: set<E>, rearmed: seq<Entry<E>>)
    requires n <= |es| && EventSet(rearmed) <= EventSet(Live(es[..n], canceled))
    ensures EventSet(InsertAll(es[n..], rearmed)) <= EventSet(es)
    ensures forall x <- Live(es[..n], canceled) :: x.event in EventSet(es) && x.event !in canceled
  {
    var fired := Live(es[..n], canceled);
    LiveHolds(es[..n], canceled);
    SubEvents(fired, es);
    SubEvents(es[n..], es);
    InsertAllEventSet(es[n..], rearmed);
    forall x | x in fired
      ensures x.event in EventSet(es)
    {
      EventsHold(es, x.event);
    }
  }

  lemma DropAgrees(es: seq<Entry<TimerEvent>>, n: nat)
    requires Agree(es) && n <= |es|
    ensures Agree(es[n..])
    ensures forall i, j :: 0 <= i < n <= j < |es| ==> es[i].event != es[j].event
  {
    assert forall k :: 0 <= k < |es| - n ==> es[n..][k] == es[n + k];
  }

  /** What is collected from the due part, and what is left. */
  lemma FiredApart(es: seq<Entry<TimerEvent>>, n: nat, canceled: set<TimerEvent>)
    requires Agree(es) && n <= |es|
    ensures var fired := Live(es[..n], canceled);
      && Agree(es[n..]) && Distinct(fired)
      && (forall k :: 0 <= k < |fired| ==> fired[k].event !in Events(es[n..]))
      && EventSet(fired) <= EventSet(es)
  {
    DropAgrees(es, n);
    LiveHolds(es[..n], canceled);
    LiveIsDistinct(es[..n], canceled);
    var fired := Live(es[..n], canceled);
    forall k | 0 <= k < |fired|
      ensures fired[k].event !in Events(es[n..])
    {
      EventsHold(es[n..], fired[k].event);
    }
    forall e | e in Events(fired)
      ensures e in Events(es)
    {
      EventsHold(fired, e);
      EventsHold(es, e);
    }
  }

  lemma OnlyLater(rest: seq<Entry<TimerEvent>>, rearmed: seq<Entry<TimerEvent>>, now: int)
    requires forall x <- rest :: x.key > now
    requires forall x <- rearmed :: now + x.event.interval <= x.key
    ensures (forall e <- Events(rearmed) :: e.interval >= 1) ==> forall x <- InsertAll(rest, rearmed) :: x.key > now
  {
    if forall e <- Events(rearmed) :: e.interval >= 1 {
      forall x | x in InsertAll(rest, rearmed)
        ensures x.key > now
      {
        InsertAllHolds(rest, rearmed, x);
        EventsHold(rearmed, x.event);
      }
    }
  }

  /** When the timerfd expires that is armed for an arrival: then, or 100 ms ahead if it is past. */
  function Later(first: int, now: int): (expiry: int)
    ensures expiry > now && (first > now ==> expiry == first) && (first <= now ==> expiry == now + 100)
  {
    if first > now then first else now + 100
  }

  class Timer {
    var pending: seq<Entry<TimerEvent>>
    var fd: TimerFd
    const clock: Clock

    ghost predicate KeysAgree()
      reads this, Events(pending)
    {
      Agree(pending)
    }

    /** While something is pending the timerfd is armed, or has expired and not been handled; and it
        expires no later than the earliest arrival, or 100 ms after it was set. */
    ghost predicate ArmedInTime()
      reads this, clock
    {
      pending != [] ==>
        && fd.Armed? && fd.setAt <= clock.now
        && (fd.expiry <= pending[0].key || fd.expiry <= fd.setAt + 100)
    }

    ghost predicate Valid()
      reads this, clock, Events(pending)
    {
      KeysAgree() && ArmedInTime()
    }

    constructor (clock: Clock)
      ensures Valid() && this.clock == clock && pending == []
    {
      this.clock := clock;
      pending, fd := [], Disarmed;
    }

    method AddTimerEvent(event: TimerEvent)
      requires Sorted(pending)
      modifies this, clock
      ensures pending == Insert(old(pending), event.arriveTime, event) && Sorted(pending)
      ensures old(clock.now) <= clock.now && PutBehind(old(pending), pending, event.arriveTime, event)
      ensures old(KeysAgree()) ==>
        if old(pending) == [] || old(pending)[0].key > event.arriveTime
        then fd == Armed(clock.now, Later(event.arriveTime, clock.now)) else fd == old(fd)
      ensures old(KeysAgree()) && event !in Events(old(pending)) ==> KeysAgree()
      ensures old(Valid()) && event !in Events(old(pending)) ==> Valid()
    {
      hide Insert, Sorted, Distinct, PutBehind;
      ghost var es := pending;
      InsertSorted(es, event.arriveTime, event);
      InsertFirst(es, event.arriveTime, event);
      InsertPutsBehind(es, event.arriveTime, event);
      if KeysAgree() {
        FirstAgrees(es);
        if event !in Events(es) {
          InsertAgrees(es, event);
        }
      }
      var isResetTimerfd := false;
      if pending == [] {
        isResetTimerfd := true;
      } else if pending[0].event.arriveTime > event.arriveTime {
        isResetTimerfd := true;
      }
      pending := Insert(pending, event.arriveTime, event);
      if isResetTimerfd {
        ResetArriveTime();
      }
    }

    lemma FirstAgrees(es: seq<Entry<TimerEvent>>)
      requires Agree(es)
      ensures es != [] ==> es[0].key == es[0].event.arriveTime
    {
    }

    method ResetArriveTime()
      modifies this`fd, clock
      ensures old(clock.now) <= clock.now
      ensures pending == [] ==> fd == old(fd)
      ensures pending != [] ==>
        var first := pending[0].event.arriveTime;
        fd == Armed(clock.now, Later(first, clock.now))
      ensures KeysAgree() ==> ArmedInTime()
    {
      if pending == [] {
        return;
      }
      var now := clock.GetNowMs();
      var interval;
      if pending[0].event.arriveTime > now {
        interval := pending[0].event.arriveTime - now;
      } else {
        interval := 100;
      }
      var ts := ToTimespec(interval);
      fd := Armed(now, now + Milliseconds(ts));
    }

    /** Removes exactly this event, and cancels it. */
    method DeleteTimerEvent(event: TimerEvent)
      requires Valid()
      modifies this`pending, event`isCanceled
      ensures Valid() && event.isCanceled
      ensures pending == Without(old(pending), event) && event !in Events(pending)
    {
      hide Sorted, Lower, Upper, Without;
      event.SetCanceled(true);
      var it, end := Lower(pending, event.arriveTime), Upper(pending, event.arriveTime);
      BoundsSplit(pending, event.arriveTime);
      while it != end
        invariant Lower(pending, event.arriveTime) <= it <= end
        invariant forall k :: 0 <= k < it ==> pending[k].event != event
      {
        if pending[it].event == event {
          break;
        }
        it := it + 1;
      }
      if it != end {
        WithoutOne(pending, it, event);
        RemoveAgrees(pending, it);
        pending := pending[..it] + pending[it + 1..];
      } else {
        NotInRange(pending, event);
        WithoutAbsent(pending, event);
      }
    }

    /** The due events that have not been canceled, in key-then-insertion order. */
    method Collect(now: int) returns (it: nat, fired: seq<Entry<TimerEvent>>)
      requires Sorted(pending)
      ensures it == Upper(pending, now)
      ensures fired == Live(pending[..it], Canceled(pending))
    {
      hide Live, Canceled, Sorted;
      LiveNone(pending, Canceled(pending));
      it, fired := 0, [];
      while it < |pending|
        invariant it <= |pending| && forall k :: 0 <= k < it ==> pending[k].key <= now
        invariant fired == Live(pending[..it], Canceled(pending))
      {
        if pending[it].key > now {
          break;
        }
        LiveNext(pending, it, Canceled(pending));
        CanceledAt(pending, it);
        if !pending[it].event.isCanceled {
          fired := fired + [pending[it]];
        }
        it := it + 1;
      }
      UpperIs(pending, it, now);
    }

    lemma LiveNone(es: seq<Entry<TimerEvent>>, canceled: set<TimerEvent>)
      ensures Live(es[..0], canceled) == []
    {
    }

    lemma LiveNext(es: seq<Entry<TimerEvent>>, k: nat, canceled: set<TimerEvent>)
      requires k < |es|
      ensures Live(es[..k + 1], canceled) == Live(es[..k], canceled) + if es[k].event in canceled then [] else [es[k]]
    {
      assert es[..k + 1][..k] == es[..k];
    }

    lemma CanceledAt(es: seq<Entry<TimerEvent>>, k: nat)
      requires k < |es|
      ensures es[k].event in Canceled(es) <==> es[k].event.isCanceled
    {
      assert Events(es)[k] == es[k].event;
    }

    /** Takes the due entries out of the map and returns the live ones. */
    method TakeDue(now: int) returns (fired: seq<Entry<TimerEvent>>)
      requires KeysAgree()
      modifies this`pending
      ensures fired == Live(old(pending[..Upper(pending, now)]), Canceled(old(pending)))
      ensures pending == old(pending[Upper(pending, now)..]) && KeysAgree()
      ensures Distinct(fired) && EventSet(fired) <= EventSet(old(pending))
      ensures forall k :: 0 <= k < |fired| ==> fired[k].event !in Events(pending)
      ensures forall x <- pending :: x.key > now
    {
      hide Live;
      var it;
      it, fired := Collect(now);
      FiredApart(pending, it, Canceled(pending));
      BoundsSplit(pending, now);
      pending := pending[it..];
    }

    method ReArm(event: TimerEvent)
      requires KeysAgree() && event !in Events(pending)
      modifies this, clock, event`arriveTime
      ensures old(clock.now) <= clock.now && old(clock.now) + event.interval <= event.arriveTime
      ensures event.arriveTime <= clock.now + event.interval
      ensures pending == Insert(old(pending), event.arriveTime, event) && KeysAgree()
    {
      hide Insert;
      event.ResetArriveTime(clock);
      AddTimerEvent(event);
    }

    /** Puts the repeated events back, each under a new arrive time. */
    method ReArmAll(fired: seq<Entry<TimerEvent>>, ghost now: int) returns (ghost rearmed: seq<Entry<TimerEvent>>)
      requires KeysAgree() && Distinct(fired) && now <= clock.now
      requires forall k :: 0 <= k < |fired| ==> fired[k].event !in Events(pending)
      modifies this, clock, RepeatedSet(fired)`arriveTime
      ensures KeysAgree() && old(clock.now) <= clock.now
      ensures Events(rearmed) == Repeated(fired) && forall x <- rearmed :: now <= x.key - x.event.interval <= clock.now
      ensures pending == InsertAll(old(pending), rearmed) && (rearmed == [] ==> fd == old(fd))
    {
      hide Insert, InsertAll, Sorted, Upper, Live, Repeated, Events;
      rearmed := [];
      NothingReArmed(fired, pending);
      for i := 0 to |fired|
        invariant KeysAgree() && old(clock.now) <= clock.now
        invariant Events(rearmed) == Repeated(fired[..i])
        invariant forall x <- rearmed :: now <= x.key - x.event.interval <= clock.now
        invariant pending == InsertAll(old(pending), rearmed) && (rearmed == [] ==> fd == old(fd))
        invariant forall k :: i <= k < |fired| ==> fired[k].event !in Events(pending)
      {
        var event := fired[i].event;
        RepeatedNext(fired, i);
        if event.isRepeated {
          ghost var before, was := pending, rearmed;
          ReArm(event);
          rearmed := was + [Entry(event.arriveTime, event)];
          InsertAllNext(old(pending), was, event.arriveTime, event);
          forall k | i + 1 <= k < |fired|
            ensures fired[k].event !in Events(pending)
          {
            InsertAddsOne(before, event.arriveTime, event, fired[k].event);
          }
        }
      }
      assert fired[..|fired|] == fired;
    }

    /** Reads the timerfd empty, which disarms it if it has expired, then reads the clock. */
    method Drain() returns (now: int)
      modifies this`fd, clock
      ensures old(clock.now) <= now == clock.now
      ensures fd == Disarmed || (fd == old(fd) && fd.expiry > old(clock.now))
    {
      var drainedAt := clock.GetNowMs();
      if fd.Armed? && fd.expiry <= drainedAt {
        fd := Disarmed;
      }
      now := clock.GetNowMs();
    }

    /** The readable event of the timerfd, up to the callbacks. Returns what fired, in the order in which the callbacks
        are then run, the time at which the due events were determined, and the entries that put the repeated ones
        back. */
    method OnTimer() returns (fired: seq<Entry<TimerEvent>>, now: int, ghost rearmed: seq<Entry<TimerEvent>>)
      requires Valid()
      modifies this, clock, EventSet(pending)`arriveTime
      ensures Valid()
      ensures old(clock.now) <= now <= clock.now
      ensures fired == Live(old(pending[..Upper(pending, now)]), old(Canceled(pending)))
      ensures Events(rearmed) == Repeated(fired) && forall x <- rearmed :: now <= x.key - x.event.interval <= clock.now
      ensures pending == InsertAll(old(pending[Upper(pending, now)..]), rearmed)
      ensures forall e <- Events(old(pending)) :: e !in Repeated(fired) ==> e.arriveTime == old(e.arriveTime)
      ensures (forall e <- Repeated(fired) :: e.interval >= 1) ==> forall x <- pending :: x.key > now
      ensures if pending != [] then fd == Armed(clock.now, Later(pending[0].event.arriveTime, clock.now))
              else fd == Disarmed || (fd == old(fd) && fd.expiry > old(clock.now))
    {
      hide Insert, InsertAll, Repeated, Live, Upper, Sorted, Distinct, Canceled;
      now := Drain();
      fired, rearmed := FireDue(now);
      ResetArriveTime();
    }

    /** Takes the due entries out of the map and puts the repeated ones back. */
    method FireDue(now: int) returns (fired: seq<Entry<TimerEvent>>, ghost rearmed: seq<Entry<TimerEvent>>)
      requires KeysAgree() && now <= clock.now
      modifies this, clock, EventSet(pending)`arriveTime
      ensures KeysAgree() && old(clock.now) <= clock.now
      ensures fired == Live(old(pending[..Upper(pending, now)]), old(Canceled(pending)))
      ensures Events(rearmed) == Repeated(fired) && forall x <- rearmed :: now <= x.key - x.event.interval <= clock.now
      ensures pending == InsertAll(old(pending[Upper(pending, now)..]), rearmed)
      ensures forall e <- Events(old(pending)) :: e !in Repeated(fired) ==> e.arriveTime == old(e.arriveTime)
      ensures (forall e <- Repeated(fired) :: e.interval >= 1) ==> forall x <- pending :: x.key > now
      ensures pending == [] ==> fd == old(fd)
    {
      hide Insert, InsertAll, Repeated, Live, Upper, Sorted, Distinct, Canceled;
      fired := TakeDue(now);
      ghost var rest := pending;
      RepeatedIsSub(fired);
      rearmed := ReArmAll(fired, now);
      OnlyLater(rest, rearmed, now);
      if rearmed != [] {
        InsertAllHolds(rest, rearmed, rearmed[0]);
      }
    }
  }

  // ---------------------------------------------------------------------
  // Runs as a step system
  // ---------------------------------------------------------------------

  /** What happens to a timer. Collected is onTimer up to its callbacks; CalledBack is one of these. In between,
      callbacks and others add and delete as they like. Nothing: a command that cannot be carried out. */
  datatype Happening<E> =
    | Added(event: E, key: int)
    | Deleted(event: E)
    | Uncanceled(event: E)
    | Collected(now: int, rearmed: seq<Entry<E>>)
    | CalledBack
    | Nothing

  /** An event collected, and at which step. */
  datatype Due<E> = Due(at: nat, event: E)

  /** A callback run, and at which step. */
  datatype Firing<E> = Firing(due: Due<E>, step: nat)

  /** What is pending and canceled; with the history of insertions, collections and callbacks. */
  datatype Alarms<E> = Alarms(pending: seq<Entry<E>>, canceled: set<E>, inserted: seq<E>, collected: seq<Due<E>>,
                              ran: seq<Firing<E>>, steps: nat)

  ghost function Dues<E>(at: nat, events: seq<E>): (ds: seq<Due<E>>)
    ensures |ds| == |events| && forall k :: 0 <= k < |events| ==> ds[k] == Due(at, events[k])
  {
    seq(|events|, k requires 0 <= k < |events| => Due(at, events[k]))
  }

  /** The live due entries. */
  ghost function Ripe<E>(a: Alarms<E>, now: int): seq<Entry<E>> {
    Live(a.pending[..Upper(a.pending, now)], a.canceled)
  }

  /** An event is added only while it is not pending, and onTimer is not entered before its callbacks are through. */
  ghost predicate CanHappen<E>(a: Alarms<E>, h: Happening<E>) {
    match h
    case Added(event, _) => event !in EventSet(a.pending)
    case Collected(now, rearmed) =>
      |a.ran| == |a.collected| && EventSet(rearmed) <= EventSet(Ripe(a, now)) && Distinct(rearmed)
    case CalledBack => |a.ran| < |a.collected|
    case _ => true
  }

  ghost function Happen<E>(a: Alarms<E>, h: Happening<E>): Alarms<E>
    requires CanHappen(a, h)
  {
    var b := a.(steps := a.steps + 1);
    match h
    case Added(event, key) => b.(pending := Insert(a.pending, key, event), inserted := a.inserted + [event])
    case Deleted(event) => b.(pending := Without(a.pending, event), canceled := a.canceled + {event})
    case Uncanceled(event) => b.(canceled := a.canceled - {event})
    case Collected(now, rearmed) =>
      b.(pending := InsertAll(a.pending[Upper(a.pending, now)..], rearmed), inserted := a.inserted + Events(rearmed),
         collected := a.collected + Dues(a.steps, Events(Ripe(a, now))))
    case CalledBack => b.(ran := a.ran + [Firing(a.collected[|a.ran|], a.steps)])
    case Nothing => b
  }

  ghost predicate Possible<E>(canceled: set<E>, hs: seq<Happening<E>>)
    decreases |hs|, 0
  {
    hs == [] || (Possible(canceled, hs[..|hs| - 1]) && CanHappen(After(canceled, hs[..|hs| - 1]), hs[|hs| - 1]))
  }

  /** A run from an empty timer. */
  ghost function After<E>(canceled: set<E>, hs: seq<Happening<E>>): Alarms<E>
    requires Possible(canceled, hs)
    decreases |hs|, 1
  {
    if hs == [] then Alarms([], canceled, [], [], [], 0) else Happen(After(canceled, hs[..|hs| - 1]), hs[|hs| - 1])
  }

  ghost predicate UncanceledBetween<E>(hs: seq<Happening<E>>, from: int, to: int, event: E) {
    exists k :: 0 <= k < |hs| && from < k < to && hs[k] == Uncanceled(event)
  }

  ghost predicate AddedBetween<E>(hs: seq<Happening<E>>, from: int, to: int, event: E) {
    exists k :: 0 <= k < |hs| && from < k < to && hs[k].Added? && hs[k].event == event
  }

  ghost predicate BackBetween<E>(hs: seq<Happening<E>>, from: int, to: int, event: E) {
    UncanceledBetween(hs, from, to, event) && AddedBetween(hs, from, to, event)
  }

  lemma BetweenMore<E>(hs: seq<Happening<E>>, h: Happening<E>, from: int, to: int, event: E)
    ensures UncanceledBetween(hs, from, to, event) ==> UncanceledBetween(hs + [h], from, to, event)
    ensures AddedBetween(hs, from, to, event) ==> AddedBetween(hs + [h], from, to, event)
    ensures UncanceledBetween(hs, from, |hs|, event) ==> UncanceledBetween(hs + [h], from, |hs| + 1, event)
    ensures AddedBetween(hs, from, |hs|, event) ==> AddedBetween(hs + [h], from, |hs| + 1, event)
    ensures from < |hs| && h == Uncanceled(event) ==> UncanceledBetween(hs + [h], from, |hs| + 1, event)
    ensures from < |hs| && h.Added? && h.event == event ==> AddedBetween(hs + [h], from, |hs| + 1, event)
  {
    var more := hs + [h];
    assert more[|hs|] == h;
    if k :| 0 <= k < |hs| && hs[k] == Uncanceled(event) && from < k {
      assert more[k] == hs[k];
    }
    assert forall k :: 0 <= k < |hs| ==> more[k] == hs[k];
  }

  /** Callbacks run in the order of collection, each once. */
  ghost predicate RunInOrder<E>(a: Alarms<E>, hs: seq<Happening<E>>) {
    && a.steps == |hs| && |a.ran| <= |a.collected|
    && (forall k :: 0 <= k < |a.ran| ==> a.ran[k].due == a.collected[k])
    && (forall f <- a.ran :: f.due.at < f.step < |hs| && hs[f.step] == CalledBack)
  }

  /** Whatever had been deleted when it was collected was back. */
  ghost predicate CollectedBack<E>(collected: seq<Due<E>>, hs: seq<Happening<E>>) {
    && (forall d <- collected :: d.at < |hs| && hs[d.at].Collected?)
    && (forall d <- collected, j :: 0 <= j < d.at && hs[j] == Deleted(d.event) ==> BackBetween(hs, j, d.at, d.event))
  }

  /** Whatever has been deleted is canceled or has been un-canceled, and is not pending or has been added. */
  ghost predicate DeletedAway<E>(a: Alarms<E>, hs: seq<Happening<E>>) {
    forall j :: 0 <= j < |hs| && hs[j].Deleted? ==>
      var e := hs[j].event;
      && (e in a.canceled || UncanceledBetween(hs, j, |hs|, e))
      && (e !in EventSet(a.pending) || AddedBetween(hs, j, |hs|, e))
  }

  lemma StepInOrder<E>(a: Alarms<E>, hs: seq<Happening<E>>, h: Happening<E>)
    requires RunInOrder(a, hs) && CollectedBack(a.collected, hs) && CanHappen(a, h)
    ensures RunInOrder(Happen(a, h), hs + [h])
  {
    hide Insert, InsertAll, Without, Ripe, BackBetween, EventSet;
    var more := hs + [h];
    assert forall k :: 0 <= k < |hs| ==> more[k] == hs[k];
    assert more[|hs|] == h;
    if h.CalledBack? {
      assert a.collected[|a.ran|] in a.collected;
    }
  }

  lemma StepCollectedBack<E>(a: Alarms<E>, hs: seq<Happening<E>>, h: Happening<E>)
    requires a.steps == |hs| && CollectedBack(a.collected, hs) && DeletedAway(a, hs) && CanHappen(a, h)
    ensures CollectedBack(Happen(a, h).collected, hs + [h])
  {
    hide Insert, InsertAll, Without, UncanceledBetween, AddedBetween, Upper;
    var more, after := hs + [h], Happen(a, h);
    assert forall k :: 0 <= k < |hs| ==> more[k] == hs[k];
    assert more[|hs|] == h;
    if h.Collected? {
      FiringStays(a.pending, Upper(a.pending, h.now), a.canceled, h.rearmed);
    }
    forall d, j | d in after.collected && 0 <= j < d.at && more[j] == Deleted(d.event)
      ensures BackBetween(more, j, d.at, d.event)
    {
      BetweenMore(hs, h, j, d.at, d.event);
    }
  }

  lemma StepDeletedAway<E>(a: Alarms<E>, hs: seq<Happening<E>>, h: Happening<E>)
    requires DeletedAway(a, hs) && CanHappen(a, h)
    ensures DeletedAway(Happen(a, h), hs + [h])
  {
    StepEventSet(a, h);
    hide Insert, InsertAll, Without, UncanceledBetween, AddedBetween, Upper, EventSet, Ripe;
    var more, after := hs + [h], Happen(a, h);
    forall j | 0 <= j < |more| && more[j].Deleted?
      ensures var e := more[j].event;
        && (e in after.canceled || UncanceledBetween(more, j, |more|, e))
        && (e !in EventSet(after.pending) || AddedBetween(more, j, |more|, e))
    {
      if j < |hs| {
        assert more[j] == hs[j];
        BetweenMore(hs, h, j, |hs|, more[j].event);
      }
    }
  }

  /** Only adding makes an event pending, and deleting it undoes that. */
  lemma StepEventSet<E>(a: Alarms<E>, h: Happening<E>)
    requires CanHappen(a, h)
    ensures forall e <- EventSet(Happen(a, h).pending) ::
      (e in EventSet(a.pending) || (h.Added? && h.event == e)) && h != Deleted(e)
  {
    hide Insert, InsertAll, Without, Live, Upper;
    match h
    case Added(event, key) => InsertEventSet(a.pending, key, event);
    case Deleted(event) => WithoutEvents(a.pending, event);
    case Collected(now, rearmed) => FiringStays(a.pending, Upper(a.pending, now), a.canceled, rearmed);
    case _ =>
  }

  lemma {:induction false} RunKeepsOrder<E>(canceled: set<E>, hs: seq<Happening<E>>)
    requires Possible(canceled, hs)
    ensures RunInOrder(After(canceled, hs), hs) && CollectedBack(After(canceled, hs).collected, hs)
    ensures DeletedAway(After(canceled, hs), hs)
  {
    hide CanHappen, Happen, RunInOrder, CollectedBack, DeletedAway;
    if hs == [] {
      NothingRun(canceled);
    } else {
      var earlier, h := hs[..|hs| - 1], hs[|hs| - 1];
      RunKeepsOrder(canceled, earlier);
      var a := After(canceled, earlier);
      assert hs == earlier + [h];
      assert a.steps == |earlier| by {
        StepsCounted(a, earlier);
      }
      StepInOrder(a, earlier, h);
      StepCollectedBack(a, earlier, h);
      StepDeletedAway(a, earlier, h);
    }
  }

  lemma NothingRun<E>(canceled: set<E>)
    ensures var a := Alarms([], canceled, [], [], [], 0);
      RunInOrder(a, []) && CollectedBack(a.collected, []) && DeletedAway(a, [])
  {
  }

  lemma StepsCounted<E>(a: Alarms<E>, hs: seq<Happening<E>>)
    requires RunInOrder(a, hs)
    ensures a.steps == |hs|
  {
  }

  /** When the callback of a deleted event runs, over every run in which callbacks and others add, delete and un-cancel
      at any time. Every event collected has its callback run, once and in the order of collection, whatever
      happens in the meantime. So after a deletion it runs if the onTimer that is still running had collected the event
      before, and otherwise only if the event has been both un-canceled and added before it was collected again. */
  lemma DeletedRunsOnlyIf<E>(canceled: set<E>, hs: seq<Happening<E>>)
    requires Possible(canceled, hs)
    ensures var a := After(canceled, hs);
      |a.ran| <= |a.collected| && forall k :: 0 <= k < |a.ran| ==> a.ran[k].due == a.collected[k]
    ensures forall f <- After(canceled, hs).ran ::
      f.due.at < f.step < |hs| && hs[f.due.at].Collected? && hs[f.step] == CalledBack
    ensures forall f <- After(canceled, hs).ran, j :: 0 <= j < f.step && hs[j] == Deleted(f.due.event) ==>
      f.due.at < j || BackBetween(hs, j, f.due.at, f.due.event)
  {
    hide Possible, After, BackBetween;
    RunKeepsOrder(canceled, hs);
    var a := After(canceled, hs);
    forall f | f in a.ran
      ensures f.due in a.collected
    {
      var k :| 0 <= k < |a.ran| && a.ran[k] == f;
      assert a.collected[k] == f.due;
    }
  }

  /** It does run after a deletion: a and b are due together, the callback of a deletes b, and then the
      callback of b runs although b is canceled and not pending. */
  lemma DeletedByCallbackRuns<E>(a: E, b: E, s: int, t: int, now: int)
    requires a != b && s <= t <= now
    ensures var hs := [Added(a, s), Added(b, t), Collected(now, []), CalledBack, Deleted(b), CalledBack];
      && Possible({}, hs) && After({}, hs).ran == [Firing(Due(2, a), 3), Firing(Due(2, b), 5)]
      && b in After({}, hs).canceled && After({}, hs).pending == []
  {
    hide Possible, After, Insert, InsertAll, EventSet, Upper, Live;
    var none: Alarms<E> := Alarms([], {}, [], [], [], 0);
    TwoRipe(a, b, s, t, now);
    NothingHappened<E>({});
    var hs: seq<Happening<E>> := [];
    HappenedNext({}, hs, Added(a, s), none);
    hs := hs + [Added(a, s)];
    HappenedNext({}, hs, Added(b, t), none.(pending := [Entry(s, a)], inserted := [a], steps := 1));
    hs := hs + [Added(b, t)];
    var es := [Entry(s, a), Entry(t, b)];
    HappenedNext({}, hs, Collected(now, []), none.(pending := es, inserted := [a, b], steps := 2));
    var two := [Due(2, a), Due(2, b)];
    assert Dues(2, Events([Entry(s, a), Entry(t, b)])) == two;
    hs := hs + [Collected(now, [])];
    HappenedNext({}, hs, CalledBack, none.(inserted := [a, b], collected := two, steps := 3));
    hs := hs + [CalledBack];
    HappenedNext({}, hs, Deleted(b), Alarms([], {}, [a, b], two, [Firing(Due(2, a), 3)], 4));
    hs := hs + [Deleted(b)];
    HappenedNext({}, hs, CalledBack, Alarms([], {b}, [a, b], two, [Firing(Due(2, a), 3)], 5));
    assert hs + [CalledBack] == [Added(a, s), Added(b, t), Collected(now, []), CalledBack, Deleted(b), CalledBack];
  }

  lemma NothingHappened<E>(canceled: set<E>)
    ensures Possible<E>(canceled, []) && After(canceled, []) == Alarms([], canceled, [], [], [], 0)
  {
  }

  lemma HappenedNext<E>(canceled: set<E>, hs: seq<Happening<E>>, h: Happening<E>, a: Alarms<E>)
    requires Possible(canceled, hs) && After(canceled, hs) == a && CanHappen(a, h)
    ensures Possible(canceled, hs + [h]) && After(canceled, hs + [h]) == Happen(a, h)
  {
    var more := hs + [h];
    assert more[..|more| - 1] == hs;
  }

  lemma TwoRipe<E>(a: E, b: E, s: int, t: int, now: int)
    requires a != b && s <= t <= now
    ensures Insert([], s, a) == [Entry(s, a)] && Insert([Entry(s, a)], t, b) == [Entry(s, a), Entry(t, b)]
    ensures EventSet<E>([]) == {} && EventSet([Entry(s, a)]) == {a} && InsertAll<E>([], []) == []
    ensures var es := [Entry(s, a), Entry(t, b)];
      Upper(es, now) == 2 && es[..2] == es && es[2..] == [] && Live(es, {}) == es
  {
    var one, es := [Entry(s, a)], [Entry(s, a), Entry(t, b)];
    assert es[..1] == one && one[..0] == [];
    assert es[1..] == [Entry(t, b)] && [Entry(t, b)][1..] == [];
    assert Live(one, {}) == one;
    assert Events(one) == [a];
  }

  // ---------------------------------------------------------------------
  // First come, first served
  // ---------------------------------------------------------------------

  /** Where an event was last inserted. */
  ghost function LastAt<E>(inserted: seq<E>, event: E): (at: int)
    ensures -1 <= at < |inserted| && (at >= 0 <==> event in inserted)
    ensures at >= 0 ==> inserted[at] == event && event !in inserted[at + 1..]
  {
    if inserted == [] then -1
    else if inserted[|inserted| - 1] == event then |inserted| - 1
    else LastAt(inserted[..|inserted| - 1], event)
  }

  lemma LastAtMore<E>(inserted: seq<E>, event: E, other: E)
    ensures LastAt(inserted + [event], event) == |inserted|
    ensures other != event ==> LastAt(inserted + [event], other) == LastAt(inserted, other)
  {
    assert (inserted + [event])[..|inserted|] == inserted;
  }

  ghost function Keys<E>(es: seq<Entry<E>>): (keys: seq<int>)
    ensures |keys| == |es| && forall k :: 0 <= k < |es| ==> keys[k] == es[k].key
  {
    seq(|es|, k requires 0 <= k < |es| => es[k].key)
  }

  /** When each event was last inserted. */
  ghost function Stamps<E>(es: seq<Entry<E>>, inserted: seq<E>): (stamps: seq<int>)
    ensures |stamps| == |es| && forall k :: 0 <= k < |es| ==> stamps[k] == LastAt(inserted, es[k].event)
  {
    seq(|es|, k requires 0 <= k < |es| => LastAt(inserted, es[k].event))
  }

  /** By key, and by stamp where keys are equal. */
  ghost predicate Ranked(keys: seq<int>, stamps: seq<int>) {
    && |keys| == |stamps|
    && forall i, j :: 0 <= i < j < |keys| ==> keys[i] < keys[j] || (keys[i] == keys[j] && stamps[i] < stamps[j])
  }

  lemma RankedPut(keys: seq<int>, stamps: seq<int>, n: nat, key: int, stamp: int)
    requires Ranked(keys, stamps) && n <= |keys|
    requires (forall k :: 0 <= k < n ==> keys[k] <= key) && (forall k :: n <= k < |keys| ==> keys[k] > key)
    requires forall k :: 0 <= k < |stamps| ==> stamps[k] < stamp
    ensures Ranked(keys[..n] + [key] + keys[n..], stamps[..n] + [stamp] + stamps[n..])
  {
    var ks, ss := keys[..n] + [key] + keys[n..], stamps[..n] + [stamp] + stamps[n..];
    forall i, j | 0 <= i < j < |ks|
      ensures ks[i] < ks[j] || (ks[i] == ks[j] && ss[i] < ss[j])
    {
      var p, q := if i < n then i else i - 1, if j < n then j else j - 1;
      assert i != n ==> ks[i] == keys[p] && ss[i] == stamps[p];
      assert j != n ==> ks[j] == keys[q] && ss[j] == stamps[q];
    }
  }

  lemma RankedPart(keys: seq<int>, stamps: seq<int>, i: nat, j: nat)
    requires Ranked(keys, stamps) && i <= j <= |keys|
    ensures Ranked(keys[..i] + keys[j..], stamps[..i] + stamps[j..])
  {
  }

  /** No event is pending twice, and of two with the same key the one inserted first stands first. */
  ghost predicate FirstComeFirst<E>(es: seq<Entry<E>>, inserted: seq<E>) {
    Sorted(es) && Distinct(es) && Ranked(Keys(es), Stamps(es, inserted))
  }

  lemma InsertFirstComeFirst<E>(es: seq<Entry<E>>, inserted: seq<E>, key: int, event: E)
    requires FirstComeFirst(es, inserted) && event !in EventSet(es)
    ensures FirstComeFirst(Insert(es, key, event), inserted + [event])
  {
    InsertSorted(es, key, event);
    InsertPutsBehind(es, key, event);
    InsertDistinct(es, key, event);
    hide Insert, Sorted, Distinct, LastAt, Ranked;
    PutRanked(es, Insert(es, key, event), inserted, key, event);
  }

  lemma PutRanked<E>(es: seq<Entry<E>>, after: seq<Entry<E>>, inserted: seq<E>, key: int, event: E)
    requires Ranked(Keys(es), Stamps(es, inserted)) && event !in EventSet(es) && PutBehind(es, after, key, event)
    ensures Ranked(Keys(after), Stamps(after, inserted + [event]))
  {
    hide LastAt, Ranked, EventSet;
    var n :| 0 <= n <= |es| && after == es[..n] + [Entry(key, event)] + es[n..]
      && (forall k :: 0 <= k < n ==> es[k].key <= key) && (forall k :: n <= k < |es| ==> es[k].key > key);
    PutKeys(es, n, Entry(key, event));
    PutStamps(es, n, Entry(key, event), inserted);
    RankedPut(Keys(es), Stamps(es, inserted), n, key, |inserted|);
  }

  lemma PutKeys<E>(es: seq<Entry<E>>, n: nat, x: Entry<E>)
    requires n <= |es|
    ensures Keys(es[..n] + [x] + es[n..]) == Keys(es)[..n] + [x.key] + Keys(es)[n..]
  {
  }

  lemma PutStamps<E>(es: seq<Entry<E>>, n: nat, x: Entry<E>, inserted: seq<E>)
    requires n <= |es| && x.event !in EventSet(es)
    ensures Stamps(es[..n] + [x] + es[n..], inserted + [x.event])
         == Stamps(es, inserted)[..n] + [|inserted|] + Stamps(es, inserted)[n..]
  {
    OthersStay(es, inserted, x.event);
    hide LastAt, EventSet;
  }

  lemma InsertDistinct<E>(es: seq<Entry<E>>, key: int, event: E)
    requires Distinct(es) && event !in EventSet(es)
    ensures Distinct(Insert(es, key, event))
  {
    hide Upper;
    var n, after := Upper(es, key), Insert(es, key, event);
    assert forall k :: 0 <= k < |es| ==> Events(es)[k] == es[k].event;
    assert forall k :: 0 <= k < |after| ==>
      after[k] == if k < n then es[k] else if k == n then Entry(key, event) else es[k - 1];
  }

  lemma OthersStay<E>(es: seq<Entry<E>>, inserted: seq<E>, event: E)
    requires event !in EventSet(es)
    ensures LastAt(inserted + [event], event) == |inserted|
    ensures forall k :: 0 <= k < |es| ==> LastAt(inserted + [event], es[k].event) == LastAt(inserted, es[k].event)
  {
    hide LastAt;
    forall k | 0 <= k < |es|
      ensures LastAt(inserted + [event], es[k].event) == LastAt(inserted, es[k].event)
    {
      assert Events(es)[k] == es[k].event;
      LastAtMore(inserted, event, es[k].event);
    }
    LastAtMore(inserted, event, event);
  }

  lemma PartFirstComeFirst<E>(es: seq<Entry<E>>, i: nat, j: nat, inserted: seq<E>)
    requires FirstComeFirst(es, inserted) && i <= j <= |es|
    ensures FirstComeFirst(es[..i] + es[j..], inserted)
  {
    hide LastAt, Ranked;
    var rest, keys, stamps := es[..i] + es[j..], Keys(es), Stamps(es, inserted);
    assert forall k :: 0 <= k < |rest| ==> rest[k] == es[if k < i then k else k - i + j];
    assert Keys(rest) == keys[..i] + keys[j..];
    assert Stamps(rest, inserted) == stamps[..i] + stamps[j..];
    RankedPart(keys, stamps, i, j);
  }

  lemma WithoutFirstComeFirst<E>(es: seq<Entry<E>>, event: E, inserted: seq<E>)
    requires FirstComeFirst(es, inserted)
    ensures FirstComeFirst(Without(es, event), inserted)
  {
    if k :| 0 <= k < |es| && es[k].event == event {
      WithoutOne(es, k, event);
      PartFirstComeFirst(es, k, k + 1, inserted);
    } else {
      WithoutAbsent(es, event);
    }
  }

  lemma {:induction false} InsertAllFirstComeFirst<E>(es: seq<Entry<E>>, more: seq<Entry<E>>, inserted: seq<E>)
    requires FirstComeFirst(es, inserted) && Distinct(more) && EventSet(more) !! EventSet(es)
    ensures FirstComeFirst(InsertAll(es, more), inserted + Events(more))
  {
    hide FirstComeFirst, EventSet, Insert, InsertAll, Events;
    if more == [] {
      NothingInserted(es, inserted);
    } else {
      var init, last := more[..|more| - 1], more[|more| - 1];
      assert more == init + [last] && last == Entry(last.key, last.event);
      InsertAllNext(es, init, last.key, last.event);
      EventSetSnoc(init, last);
      InsertAllFirstComeFirst(es, init, inserted);
      InsertAllEventSet(es, init);
      NotEarlier(init, last);
      InsertFirstComeFirst(InsertAll(es, init), inserted + Events(init), last.key, last.event);
      assert inserted + Events(init) + [last.event] == inserted + Events(more);
    }
  }

  lemma NothingInserted<E>(es: seq<Entry<E>>, inserted: seq<E>)
    ensures InsertAll(es, []) == es && inserted + Events<E>([]) == inserted
  {
  }

  lemma NotEarlier<E>(init: seq<Entry<E>>, last: Entry<E>)
    requires Distinct(init + [last])
    ensures last.event !in EventSet(init) && Distinct(init)
  {
    var all := init + [last];
    assert forall k :: 0 <= k < |init| ==> all[k] == init[k];
    assert all[|init|] == last;
    EventsHold(init, last.event);
  }

  lemma StepFirstComeFirst<E>(a: Alarms<E>, h: Happening<E>)
    requires FirstComeFirst(a.pending, a.inserted) && CanHappen(a, h)
    ensures FirstComeFirst(Happen(a, h).pending, Happen(a, h).inserted)
  {
    match h
    case Added(event, key) => InsertFirstComeFirst(a.pending, a.inserted, key, event);
    case Deleted(event) => WithoutFirstComeFirst(a.pending, event, a.inserted);
    case Collected(now, rearmed) => CollectFirstComeFirst(a, now, rearmed);
    case _ =>
  }

  lemma CollectFirstComeFirst<E>(a: Alarms<E>, now: int, rearmed: seq<Entry<E>>)
    requires FirstComeFirst(a.pending, a.inserted) && CanHappen(a, Collected(now, rearmed))
    ensures var b := Happen(a, Collected(now, rearmed)); FirstComeFirst(b.pending, b.inserted)
  {
    var n := Upper(a.pending, now);
    PartFirstComeFirst(a.pending, 0, n, a.inserted);
    assert a.pending[..0] + a.pending[n..] == a.pending[n..];
    RipeIsTaken(a, now);
    hide FirstComeFirst, EventSet, InsertAll, Ripe, Upper;
    InsertAllFirstComeFirst(a.pending[n..], rearmed, a.inserted);
  }

  lemma RipeIsTaken<E>(a: Alarms<E>, now: int)
    requires Distinct(a.pending)
    ensures EventSet(Ripe(a, now)) !! EventSet(a.pending[Upper(a.pending, now)..])
  {
    var n := Upper(a.pending, now);
    var rest, fired := a.pending[n..], Ripe(a, now);
    LiveHolds(a.pending[..n], a.canceled);
    forall e | e in EventSet(fired)
      ensures e !in EventSet(rest)
    {
      EventsHold(fired, e);
      EventsHold(rest, e);
      var x :| x in fired && x.event == e;
      var k :| 0 <= k < n && a.pending[k] == x;
      assert forall l :: 0 <= l < |rest| ==> rest[l] == a.pending[n + l];
    }
  }

  lemma {:induction false} RunFirstComeFirst<E>(canceled: set<E>, hs: seq<Happening<E>>)
    requires Possible(canceled, hs)
    ensures FirstComeFirst(After(canceled, hs).pending, After(canceled, hs).inserted)
  {
    hide CanHappen, Happen, FirstComeFirst;
    if hs == [] {
      NothingFirst(canceled);
    } else {
      RunFirstComeFirst(canceled, hs[..|hs| - 1]);
      StepFirstComeFirst(After(canceled, hs[..|hs| - 1]), hs[|hs| - 1]);
    }
  }

  lemma NothingFirst<E>(canceled: set<E>)
    ensures FirstComeFirst<E>([], [])
  {
  }

  /** The k-th pending event has an earlier key than the l-th one, or the same and was inserted before it. */
  ghost predicate ComesFirst<E>(a: Alarms<E>, k: nat, l: nat)
    requires k < |a.pending| && l < |a.pending|
  {
    var x, y := a.pending[k], a.pending[l];
    x.key < y.key || (x.key == y.key && LastAt(a.inserted, x.event) < LastAt(a.inserted, y.event))
  }

  /** The events are exactly the pending ones that are due and not canceled, by arrive time, and of those with the same
      arrive time the one inserted first comes first. */
  ghost predicate DueInOrder<E>(a: Alarms<E>, now: int, events: seq<E>) {
    && (forall k :: 0 <= k < |a.pending| ==>
          (a.pending[k].event in events <==> a.pending[k].key <= now && a.pending[k].event !in a.canceled))
    && (forall e <- events :: e in EventSet(a.pending))
    && (forall i, j, k, l :: 0 <= i < j < |events| && 0 <= k < |a.pending| && 0 <= l < |a.pending| ==>
          a.pending[k].event == events[i] && a.pending[l].event == events[j] ==> ComesFirst(a, k, l))
  }

  /** That is what onTimer collects, over every run. */
  lemma CollectedInOrder<E>(canceled: set<E>, hs: seq<Happening<E>>, now: int, rearmed: seq<Entry<E>>)
    returns (events: seq<E>)
    requires Possible(canceled, hs) && CanHappen(After(canceled, hs), Collected(now, rearmed))
    ensures var a := After(canceled, hs);
      && DueInOrder(a, now, events)
      && Happen(a, Collected(now, rearmed)).collected == a.collected + Dues(|hs|, events)
  {
    RunFirstComeFirst(canceled, hs);
    RunKeepsOrder(canceled, hs);
    var a := After(canceled, hs);
    hide Possible, After;
    RipeInOrder(a, now);
    events := Events(Ripe(a, now));
  }

  lemma RipeInOrder<E>(a: Alarms<E>, now: int)
    requires FirstComeFirst(a.pending, a.inserted)
    ensures DueInOrder(a, now, Events(Ripe(a, now)))
  {
    BoundsSplit(a.pending, now);
    var n := Upper(a.pending, now);
    LiveExactly(a.pending[..n], a.canceled);
    var at := Chosen(NotCanceled(a.pending[..n], a.canceled));
    hide LastAt, Upper, Live, Chosen, Sorted, EventSet, ComesFirst;
    var events := Events(Ripe(a, now));
    forall k | 0 <= k < n && a.pending[k].event !in a.canceled
      ensures k in at
    {
      assert NotCanceled(a.pending[..n], a.canceled)[k];
    }
    DueByIndex(a, now, at, events);
  }

  /** The events are picked from the pending ones by increasing indices. */
  lemma DueByIndex<E>(a: Alarms<E>, now: int, at: seq<nat>, events: seq<E>)
    requires FirstComeFirst(a.pending, a.inserted) && |at| == |events|
    requires forall i :: 0 <= i < |at| ==> at[i] < |a.pending| && events[i] == a.pending[at[i]].event
    requires forall i, j :: 0 <= i < j < |at| ==> at[i] < at[j]
    requires forall k :: 0 <= k < |a.pending| ==>
      (k in at <==> a.pending[k].key <= now && a.pending[k].event !in a.canceled)
    ensures DueInOrder(a, now, events)
  {
    hide LastAt, Sorted, EventSet, Ripe;
    AmongEvents(a.pending, at, events);
    forall k | 0 <= k < |a.pending|
      ensures a.pending[k].event in events <==> k in at
    {
      if i :| 0 <= i < |at| && at[i] == k {
        assert events[i] == a.pending[k].event;
      }
      if i :| 0 <= i < |at| && events[i] == a.pending[k].event {
        assert at[i] == k;
      }
    }
    forall i, j, k, l | 0 <= i < j < |events| && 0 <= k < |a.pending| && 0 <= l < |a.pending|
      && a.pending[k].event == events[i] && a.pending[l].event == events[j]
      ensures ComesFirst(a, k, l)
    {
      assert k == at[i] && l == at[j];
      assert Keys(a.pending)[k] == a.pending[k].key && Keys(a.pending)[l] == a.pending[l].key;
    }
  }

  lemma AmongEvents<E>(es: seq<Entry<E>>, at: seq<nat>, events: seq<E>)
    requires |at| == |events| && forall i :: 0 <= i < |at| ==> at[i] < |es| && events[i] == es[at[i]].event
    ensures forall e <- events :: e in EventSet(es)
  {
    forall e | e in events
      ensures e in EventSet(es)
    {
      var i :| 0 <= i < |events| && events[i] == e;
      assert Events(es)[at[i]] == e;
    }
  }

  // ---------------------------------------------------------------------
  // Runs of the class
  // ---------------------------------------------------------------------

  /** Fire is onTimer up to its callbacks, CallBack its next callback. */
  datatype Command = Add(event: TimerEvent) | Delete(event: TimerEvent) | Uncancel(event: TimerEvent) | Fire | CallBack

  ghost function Subjects(commands: seq<Command>): set<TimerEvent> {
    set k | 0 <= k < |commands| && !commands[k].Fire? && !commands[k].CallBack? :: commands[k].event
  }

  lemma SubjectKnown(commands: seq<Command>, i: nat)
    requires i < |commands| && !commands[i].Fire? && !commands[i].CallBack?
    ensures commands[i].event in Subjects(commands)
  {
  }

  ghost predicate AllCarriedOut(hs: seq<Happening<TimerEvent>>, commands: seq<Command>) {
    |hs| <= |commands| && forall i :: 0 <= i < |hs| ==> CarriesOut(hs[i], commands[i])
  }

  lemma OneMoreCarriedOut(hs: seq<Happening<TimerEvent>>, h: Happening<TimerEvent>, commands: seq<Command>)
    requires AllCarriedOut(hs, commands) && |hs| < |commands| && CarriesOut(h, commands[|hs|])
    ensures AllCarriedOut(hs + [h], commands)
  {
  }

  ghost predicate CarriesOut(h: Happening<TimerEvent>, command: Command) {
    match h
    case Added(event, _) => command == Add(event)
    case Deleted(event) => command == Delete(event)
    case Uncanceled(event) => command == Uncancel(event)
    case Collected(_, _) => command == Fire
    case CalledBack => command == CallBack
    case Nothing => !command.Delete? && !command.Uncancel?
  }

  /** The timer and its events are in the given state. */
  ghost predicate Shows(timer: Timer, a: Alarms<TimerEvent>, subjects: set<TimerEvent>)
    reads timer, timer.clock, Events(timer.pending), subjects
  {
    && timer.Valid() && EventSet(timer.pending) <= subjects && timer.pending == a.pending
    && (forall e <- subjects :: e.isCanceled <==> e in a.canceled)
  }

  ghost function Canceleds(subjects: set<TimerEvent>): set<TimerEvent>
    reads subjects
  {
    set e | e in subjects && e.isCanceled
  }

  /** The events whose callbacks are still to be run. */
  ghost function StillDue<E>(a: Alarms<E>): (events: seq<E>)
    requires |a.ran| <= |a.collected|
    ensures |events| == |a.collected| - |a.ran|
    ensures forall k :: 0 <= k < |events| ==> events[k] == a.collected[|a.ran| + k].event
  {
    seq(|a.collected| - |a.ran|, k requires 0 <= k < |a.collected| - |a.ran| => a.collected[|a.ran| + k].event)
  }

  ghost function RanEvents<E>(ran: seq<Firing<E>>): (events: seq<E>)
    ensures |events| == |ran| && forall k :: 0 <= k < |ran| ==> events[k] == ran[k].due.event
  {
    seq(|ran|, k requires 0 <= k < |ran| => ran[k].due.event)
  }

  /** The callbacks run and those still to be run are the ones of the given state. */
  ghost predicate CallsAre<E>(a: Alarms<E>, called: seq<E>, due: seq<E>) {
    |a.ran| <= |a.collected| && called == RanEvents(a.ran) && due == StillDue(a)
  }

  /** Carries out a command; an event is added only while it is not pending, and onTimer only entered when the
      callbacks of the last one are through. */
  method Perform(timer: Timer, command: Command, before: seq<TimerEvent>, due: seq<TimerEvent>,
                 ghost a: Alarms<TimerEvent>, ghost subjects: set<TimerEvent>)
    returns (called: seq<TimerEvent>, later: seq<TimerEvent>, ghost h: Happening<TimerEvent>)
    requires Shows(timer, a, subjects) && CallsAre(a, before, due)
    requires command.Fire? || command.CallBack? || command.event in subjects
    modifies timer, timer.clock, subjects
    ensures CanHappen(a, h) && CarriesOut(h, command)
    ensures Shows(timer, Happen(a, h), subjects) && CallsAre(Happen(a, h), called, later)
  {
    hide Insert, InsertAll, Without, Live, Upper, Sorted, Distinct;
    called, later, h := before, due, Nothing;
    match command {
      case Add(event) =>
        if event !in Events(timer.pending) {
          h := Added(event, event.arriveTime);
          InsertEventSet(timer.pending, event.arriveTime, event);
          timer.AddTimerEvent(event);
        }
      case Delete(event) =>
        h := Deleted(event);
        WithoutEvents(timer.pending, event);
        timer.DeleteTimerEvent(event);
      case Uncancel(event) =>
        h := Uncanceled(event);
        event.SetCanceled(false);
      case Fire =>
        if due == [] {
          later, h := FireAlarms(timer, a, subjects);
        }
      case CallBack =>
        if due != [] {
          h := CalledBack;
          called, later := before + [due[0]], due[1..];
        }
    }
  }

  method FireAlarms(timer: Timer, ghost a: Alarms<TimerEvent>, ghost subjects: set<TimerEvent>)
    returns (due: seq<TimerEvent>, ghost h: Happening<TimerEvent>)
    requires Shows(timer, a, subjects) && |a.ran| == |a.collected|
    modifies timer, timer.clock, subjects
    ensures h.Collected? && CanHappen(a, h) && Shows(timer, Happen(a, h), subjects)
    ensures due == StillDue(Happen(a, h))
  {
    hide Insert, InsertAll, Live, Upper, Repeated, Canceled, Happen, CanHappen, StillDue, Timer.Valid, EventSet;
    ghost var es, canceled := timer.pending, Canceled(timer.pending);
    CanceledOnes(es);
    PendingDistinct(timer);
    var fired, now;
    ghost var rearmed;
    fired, now, rearmed := timer.OnTimer();
    h := Collected(now, rearmed);
    due := Events(fired);
    FiredHappens(a, fired, now, rearmed, canceled);
  }

  lemma PendingDistinct(timer: Timer)
    requires timer.Valid()
    ensures Distinct(timer.pending)
  {
  }

  lemma CanceledOnes(es: seq<Entry<TimerEvent>>)
    ensures forall e <- EventSet(es) :: e in Canceled(es) <==> e.isCanceled
  {
  }

  /** What OnTimer returns is a step of the step system. */
  lemma FiredHappens(a: Alarms<TimerEvent>, fired: seq<Entry<TimerEvent>>, now: int, rearmed: seq<Entry<TimerEvent>>,
                     canceled: set<TimerEvent>)
    requires |a.ran| == |a.collected| && forall e <- EventSet(a.pending) :: e in canceled <==> e in a.canceled
    requires fired == Live(a.pending[..Upper(a.pending, now)], canceled) && Events(rearmed) == Repeated(fired)
    requires Distinct(a.pending)
    ensures var h := Collected(now, rearmed);
      && CanHappen(a, h) && StillDue(Happen(a, h)) == Events(fired)
      && Happen(a, h).pending == InsertAll(a.pending[Upper(a.pending, now)..], rearmed)
      && Happen(a, h).canceled == a.canceled && EventSet(Happen(a, h).pending) <= EventSet(a.pending)
      && |Happen(a, h).ran| <= |Happen(a, h).collected|
  {
    hide Insert, InsertAll, Live, Upper, Distinct, Repeated, EventSet;
    var n := Upper(a.pending, now);
    RipeIsLive(a, now, canceled);
    RepeatedAmong(fired, rearmed);
    FiringStays(a.pending, n, a.canceled, rearmed);
  }

  lemma RipeIsLive<E>(a: Alarms<E>, now: int, canceled: set<E>)
    requires Distinct(a.pending) && forall e <- EventSet(a.pending) :: e in canceled <==> e in a.canceled
    ensures Live(a.pending[..Upper(a.pending, now)], canceled) == Ripe(a, now) && Distinct(Ripe(a, now))
  {
    hide Live, Upper;
    var n := Upper(a.pending, now);
    forall x | x in a.pending[..n]
      ensures x.event in canceled <==> x.event in a.canceled
    {
      EventsHold(a.pending, x.event);
    }
    LiveAgrees(a.pending[..n], canceled, a.canceled);
    LiveIsDistinct(a.pending[..n], a.canceled);
  }

  lemma RepeatedAmong(fired: seq<Entry<TimerEvent>>, rearmed: seq<Entry<TimerEvent>>)
    requires Distinct(fired) && Events(rearmed) == Repeated(fired)
    ensures Distinct(rearmed) && EventSet(rearmed) <= EventSet(fired)
  {
    hide Repeated;
    RepeatedIsDistinct(fired, rearmed);
    RepeatedIsSub(fired);
  }

  lemma RepeatedIsDistinct(fired: seq<Entry<TimerEvent>>, rearmed: seq<Entry<TimerEvent>>)
    requires Distinct(fired) && Events(rearmed) == Repeated(fired)
    ensures Distinct(rearmed)
  {
    RepeatedApart(fired);
    assert forall k :: 0 <= k < |rearmed| ==> Events(rearmed)[k] == rearmed[k].event;
  }

  lemma {:induction false} RepeatedApart(es: seq<Entry<TimerEvent>>)
    requires Distinct(es)
    ensures forall i, j :: 0 <= i < j < |Repeated(es)| ==> Repeated(es)[i] != Repeated(es)[j]
  {
    if es != [] {
      var init, last := es[..|es| - 1], es[|es| - 1];
      RepeatedApart(init);
      RepeatedIsSub(init);
      assert forall k :: 0 <= k < |init| ==> Events(init)[k] == es[k].event;
      assert forall k :: 0 <= k < |Repeated(init)| ==> Repeated(init)[k] in Repeated(init);
    }
  }

  lemma ShowsEmpty(timer: Timer, subjects: set<TimerEvent>)
    requires timer.pending == []
    ensures var a := Alarms([], Canceleds(subjects), [], [], [], 0);
      Shows(timer, a, subjects) && CallsAre(a, [], [])
  {
  }

  lemma CallsAreRan<E>(a: Alarms<E>, called: seq<E>, due: seq<E>)
    requires CallsAre(a, called, due)
    ensures called == RanEvents(a.ran)
  {
  }

  lemma ShowsValid(timer: Timer, a: Alarms<TimerEvent>, subjects: set<TimerEvent>)
    requires Shows(timer, a, subjects)
    ensures timer.Valid()
  {
  }

  /** Every run of commands on an empty timer is a run of the step system, and the callbacks run are its callbacks; the
      timer stays armed in time with agreeing keys. */
  method Run(timer: Timer, commands: seq<Command>)
    returns (called: seq<TimerEvent>, ghost hs: seq<Happening<TimerEvent>>)
    requires timer.pending == []
    modifies timer, timer.clock, Subjects(commands)
    ensures timer.Valid()
    ensures |hs| == |commands| && AllCarriedOut(hs, commands)
    ensures var canceled := old(Canceleds(Subjects(commands)));
      && Possible(canceled, hs)
      && Shows(timer, After(canceled, hs), Subjects(commands)) && called == RanEvents(After(canceled, hs).ran)
  {
    ghost var subjects := Subjects(commands);
    ghost var canceled := Canceleds(subjects);
    var due := [];
    called, hs := [], [];
    assert AllCarriedOut(hs, commands);
    ghost var a: Alarms<TimerEvent> := Alarms([], canceled, [], [], [], 0);
    NothingHappened(canceled);
    ShowsEmpty(timer, subjects);
    hide CanHappen, Happen, Possible, After, CarriesOut, AllCarriedOut, Shows, CallsAre, Canceleds, Subjects;
    for i := 0 to |commands|
      invariant |hs| == i && AllCarriedOut(hs, commands)
      invariant Possible(canceled, hs) && After(canceled, hs) == a && Shows(timer, a, subjects)
      invariant CallsAre(a, called, due)
    {
      if !commands[i].Fire? && !commands[i].CallBack? {
        SubjectKnown(commands, i);
      }
      ghost var h;
      called, due, h := Perform(timer, commands[i], called, due, a, subjects);
      HappenedNext(canceled, hs, h, a);
      OneMoreCarriedOut(hs, h, commands);
      hs, a := hs + [h], Happen(a, h);
    }
    ShowsValid(timer, a, subjects);
    CallsAreRan(a, called, due);
  }
}
