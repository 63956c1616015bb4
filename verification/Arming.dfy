/** Arming the timerfd from several threads: inserting an event, copying the map and setting the timerfd are separate
    steps, and the last one is taken outside the lock. */
module Arming {
  import opened Timers

  /** Where a call is that has to arm the timerfd: it has still to copy the map, or it has copied it with the given
      first key; since are the entries inserted after that copy. */
  datatype Call<E> = Resetting | Copied(first: int, since: seq<Entry<E>>)

  datatype State<E> = State(pending: seq<Entry<E>>, fd: TimerFd, now: int, calls: map<nat, Call<E>>)

  /** Put: the first critical section of addTimerEvent. Remove: an erasure by deleteTimerEvent or onTimer. Drain:
      onTimer is entered. Copy and Set: resetArriveTime. Any of them by any thread, at any time. */
  datatype Step<E> =
    | Put(call: nat, key: int, event: E)
    | Remove(index: nat)
    | Drain(call: nat)
    | Copy(call: nat)
    | Set(call: nat)
    | Tick(to: int)

  predicate Enabled<E>(a: State<E>, s: Step<E>) {
    match s
    case Put(call, _, _) => call !in a.calls
    case Remove(index) => index < |a.pending|
    case Drain(call) => call !in a.calls
    case Copy(call) => call in a.calls && a.calls[call].Resetting?
    case Set(call) => call in a.calls && a.calls[call].Copied?
    case Tick(to) => a.now <= to
  }

  function Noticed<E>(calls: map<nat, Call<E>>, x: Entry<E>): map<nat, Call<E>> {
    map c | c in calls :: if calls[c].Copied? then calls[c].(since := calls[c].since + [x]) else Resetting
  }

  /** The first event that a call of resetArriveTime sees decides when the timerfd expires. */
  function ArmedFor(first: int, now: int): TimerFd {
    Armed(now, if first > now then first else now + 100)
  }

  function Take<E>(a: State<E>, s: Step<E>): State<E>
    requires Enabled(a, s)
  {
    match s
    case Put(call, key, event) =>
      var calls := Noticed(a.calls, Entry(key, event));
      a.(pending := Insert(a.pending, key, event),
         calls := if a.pending == [] || a.pending[0].key > key then calls[call := Resetting] else calls)
    case Remove(index) => a.(pending := a.pending[..index] + a.pending[index + 1..])
    case Drain(call) =>
      a.(fd := if a.fd.Armed? && a.fd.expiry <= a.now then Disarmed else a.fd, calls := a.calls[call := Resetting])
    case Copy(call) =>
      a.(calls := if a.pending == [] then a.calls - {call} else a.calls[call := Copied(a.pending[0].key, [])])
    case Set(call) => a.(fd := ArmedFor(a.calls[call].first, a.now), calls := a.calls - {call})
    case Tick(to) => a.(now := to)
  }

  /** A call of addTimerEvent has to arm the timerfd exactly when its event is earlier than all others. */
  lemma PutArmsIff<E>(a: State<E>, call: nat, key: int, event: E)
    requires Sorted(a.pending) && Enabled(a, Put(call, key, event))
    ensures call in Take(a, Put(call, key, event)).calls <==> forall x <- a.pending :: x.key > key
  {
    if a.pending != [] {
      assert a.pending[0] in a.pending;
    }
  }

  /** The timerfd expires no later than the earliest event, or 100 ms after it was set. */
  ghost predicate InTime<E>(a: State<E>) {
    a.pending != [] ==>
      && a.fd.Armed? && a.fd.setAt <= a.now
      && (a.fd.expiry <= a.pending[0].key || a.fd.expiry <= a.fd.setAt + 100)
  }

  /** An event that is earlier than the first one copied was inserted after the copy and is still pending. */
  ghost predicate Overtaken<E>(a: State<E>, call: nat)
    requires call in a.calls && a.calls[call].Copied?
  {
    exists x :: x in a.calls[call].since && x in a.pending && x.key < a.calls[call].first
  }

  /** What is earlier than a copied first event was inserted after the copy. */
  ghost predicate Remembered<E>(a: State<E>) {
    && Sorted(a.pending)
    && forall c, x :: c in a.calls && a.calls[c].Copied? && x in a.pending && x.key < a.calls[c].first ==>
         x in a.calls[c].since
  }

  lemma StepRemembered<E>(a: State<E>, s: Step<E>)
    requires Remembered(a) && Enabled(a, s)
    ensures Remembered(Take(a, s))
  {
    match s
    case Put(call, key, event) => PutRemembered(a, call, key, event);
    case Remove(index) => RemoveRemembered(a, index);
    case _ =>
  }

  lemma PutRemembered<E>(a: State<E>, call: nat, key: int, event: E)
    requires Remembered(a) && Enabled(a, Put(call, key, event))
    ensures Remembered(Take(a, Put(call, key, event)))
  {
    InsertSorted(a.pending, key, event);
    hide Insert, Sorted;
    var b := Take(a, Put(call, key, event));
    forall c, x | c in b.calls && b.calls[c].Copied? && x in b.pending && x.key < b.calls[c].first
      ensures x in b.calls[c].since
    {
      InsertHolds(a.pending, key, event, x);
      assert b.calls[c].since == a.calls[c].since + [Entry(key, event)];
    }
  }

  lemma RemoveRemembered<E>(a: State<E>, index: nat)
    requires Remembered(a) && index < |a.pending|
    ensures Remembered(Take(a, Remove(index)))
  {
    var rest := a.pending[..index] + a.pending[index + 1..];
    assert forall k :: 0 <= k < |rest| ==> rest[k] == a.pending[if k < index then k else k + 1];
  }

  /** Exactly when a call arms the timerfd in time: no earlier event was inserted between its copy and its set and is
      still pending, or the first event it copied is at most 100 ms ahead. */
  lemma SetInTimeIff<E>(a: State<E>, call: nat)
    requires Remembered(a) && Enabled(a, Set(call))
    ensures InTime(Take(a, Set(call))) <==> !Overtaken(a, call) || a.calls[call].first <= a.now + 100
  {
    var first := a.calls[call].first;
    if a.pending != [] && a.pending[0].key < first {
      assert a.pending[0] in a.pending;
      assert Overtaken(a, call);
    }
    if x :| x in a.calls[call].since && x in a.pending && x.key < first {
      var k :| 0 <= k < |a.pending| && a.pending[k] == x;
      assert a.pending[0].key <= x.key;
    }
  }

  /** The timerfd is in time, or some call is under way that will see to it. */
  ghost predicate Covered<E>(a: State<E>) {
    || InTime(a)
    || exists c :: c in a.calls && (a.calls[c].Resetting? || a.calls[c].first <= a.pending[0].key)
  }

  /** A set that does not make the timerfd late. */
  ghost predicate Orderly<E>(a: State<E>, s: Step<E>)
    requires Enabled(a, s)
  {
    s.Set? ==> !Overtaken(a, s.call)
  }

  lemma StepCovered<E>(a: State<E>, s: Step<E>)
    requires Remembered(a) && Covered(a) && Enabled(a, s) && Orderly(a, s)
    ensures Covered(Take(a, s))
  {
    var b := Take(a, s);
    if s.Set? {
      SetInTimeIff(a, s.call);
    } else if !InTime(a) {
      var c :| c in a.calls && (a.calls[c].Resetting? || a.calls[c].first <= a.pending[0].key);
      StaysUnderWay(a, s, c);
    } else {
      StaysInTime(a, s);
    }
  }

  lemma StaysUnderWay<E>(a: State<E>, s: Step<E>, c: nat)
    requires Sorted(a.pending) && a.pending != [] && Enabled(a, s) && !s.Set?
    requires c in a.calls && (a.calls[c].Resetting? || a.calls[c].first <= a.pending[0].key)
    ensures Covered(Take(a, s))
  {
    var b := Take(a, s);
    match s
    case Put(call, key, event) =>
      InsertFirst(a.pending, key, event);
      if a.pending[0].key > key {
        assert b.calls[call].Resetting?;
      } else {
        assert b.calls[c].Resetting? || b.calls[c].first <= b.pending[0].key;
      }
    case Drain(call) => assert b.calls[call].Resetting?;
    case Copy(call) => assert b.calls[call].first <= b.pending[0].key;
    case Remove(index) =>
      if b.pending != [] {
        assert b.pending[0].key >= a.pending[0].key;
        assert b.calls[c].Resetting? || b.calls[c].first <= b.pending[0].key;
      }
    case Tick(_) => assert b.calls[c].Resetting? || b.calls[c].first <= b.pending[0].key;
    case Set(_) =>
  }

  lemma StaysInTime<E>(a: State<E>, s: Step<E>)
    requires Sorted(a.pending) && InTime(a) && Enabled(a, s) && !s.Set?
    ensures Covered(Take(a, s))
  {
    var b := Take(a, s);
    match s
    case Put(call, key, event) =>
      InsertFirst(a.pending, key, event);
      if a.pending == [] || a.pending[0].key > key {
        assert b.calls[call].Resetting?;
      }
    case Drain(call) => assert b.calls[call].Resetting?;
    case Remove(index) =>
      if b.pending != [] {
        assert b.pending[0].key >= a.pending[0].key;
      }
    case _ =>
  }

  function Start<E>(now: int): State<E> {
    State([], Disarmed, now, map[])
  }

  ghost predicate Possible<E>(a: State<E>, ss: seq<Step<E>>)
    decreases |ss|
  {
    ss == [] || (Enabled(a, ss[0]) && Possible(Take(a, ss[0]), ss[1..]))
  }

  ghost function TakeAll<E>(a: State<E>, ss: seq<Step<E>>): State<E>
    requires Possible(a, ss)
    decreases |ss|
  {
    if ss == [] then a else TakeAll(Take(a, ss[0]), ss[1..])
  }

  /** No earlier event is inserted between a copy and its set. */
  ghost predicate AllOrderly<E>(a: State<E>, ss: seq<Step<E>>)
    requires Possible(a, ss)
    decreases |ss|
  {
    ss == [] || (Orderly(a, ss[0]) && AllOrderly(Take(a, ss[0]), ss[1..]))
  }

  lemma {:induction false} RunCovered<E>(a: State<E>, ss: seq<Step<E>>)
    requires Remembered(a) && Covered(a) && Possible(a, ss) && AllOrderly(a, ss)
    ensures Remembered(TakeAll(a, ss)) && Covered(TakeAll(a, ss))
    decreases |ss|
  {
    hide Remembered, Covered, Take, Orderly, Enabled;
    if ss != [] {
      StepRemembered(a, ss[0]);
      StepCovered(a, ss[0]);
      RunCovered(Take(a, ss[0]), ss[1..]);
    }
  }

  /** Over every interleaving in which no call is overtaken, the timerfd is in time whenever no call is under way. */
  lemma ArmedUnlessOvertaken<E>(now: int, ss: seq<Step<E>>)
    requires Possible(Start(now), ss) && AllOrderly(Start(now), ss)
    ensures var a := TakeAll(Start(now), ss);
      a.calls == map[] ==> InTime(a)
  {
    RunCovered(Start(now), ss);
  }

  /** An overtaken call can leave it too late: one thread copies the map when a is first, another inserts b, copies and
      sets the timerfd for it, and then the first thread sets it for a. */
  lemma OvertakenIsLate<E>(a: E, b: E)
    ensures var ss := [Put(0, 1000, a), Copy(0), Put(1, 500, b), Copy(1), Set(1), Set(0)];
      && Possible(Start(0), ss)
      && TakeAll(Start(0), ss) == State([Entry(500, b), Entry(1000, a)], Armed(0, 1000), 0, map[])
      && !InTime(TakeAll(Start(0), ss))
  {
    hide Possible, TakeAll, Insert, Noticed, ArmedFor;
    var one, two := [Entry(1000, a)], [Entry(500, b), Entry(1000, a)];
    TwoInserts(a, b);
    var copied := State(one, Disarmed, 0, map[0 := Copied(1000, [])]);
    var overtaken := Copied(1000, [Entry(500, b)]);
    var put := State(two, Disarmed, 0, map[0 := overtaken, 1 := Resetting]);
    BothSet(put, overtaken);
    PutNoticed(a, b);
    var ss := [Put(1, 500, b), Copy(1), Set(1), Set(0)];
    Before(copied, ss, ss[1..], put);
    ss := [Copy(0)] + ss;
    Before(copied.(calls := map[0 := Resetting]), ss, ss[1..], copied);
    ss := [Put(0, 1000, a)] + ss;
    Before(Start(0), ss, ss[1..], copied.(calls := map[0 := Resetting]));
    assert ss == [Put(0, 1000, a), Copy(0), Put(1, 500, b), Copy(1), Set(1), Set(0)];
    assert ArmedFor(1000, 0) == Armed(0, 1000) by {
      Expiry();
    }
  }

  lemma Expiry()
    ensures ArmedFor(1000, 0) == Armed(0, 1000)
  {
  }

  lemma PutNoticed<E>(a: E, b: E)
    ensures var none: map<nat, Call<E>> := map[];
      Noticed(none, Entry(1000, a)) == none
    ensures Noticed(map[0 := Copied(1000, [])], Entry(500, b)) == map[0 := Copied(1000, [Entry(500, b)])]
  {
    assert [] + [Entry(500, b)] == [Entry(500, b)];
  }

  /** The overtaking call copies and sets, then the overtaken one. */
  lemma BothSet<E>(put: State<E>, overtaken: Call<E>)
    requires put.calls == map[0 := overtaken, 1 := Resetting] && overtaken.Copied?
    requires put.pending != []
    ensures var ss, last := [Copy(1), Set(1), Set(0)], put.(fd := ArmedFor(overtaken.first, put.now), calls := map[]);
      Possible(put, ss) && TakeAll(put, ss) == last
  {
    hide Possible, TakeAll, ArmedFor;
    var first := put.pending[0].key;
    var both := put.(calls := map[0 := overtaken, 1 := Copied(first, [])]);
    var armed := put.(fd := ArmedFor(first, put.now), calls := map[0 := overtaken]);
    var last := put.(fd := ArmedFor(overtaken.first, put.now), calls := map[]);
    NoMore(last);
    Before(armed, [Set(0)], [], last);
    Before(both, [Set(1), Set(0)], [Set(0)], armed);
    Before(put, [Copy(1), Set(1), Set(0)], [Set(1), Set(0)], both);
  }

  lemma TwoInserts<E>(a: E, b: E)
    ensures Insert([], 1000, a) == [Entry(1000, a)]
    ensures Insert([Entry(1000, a)], 500, b) == [Entry(500, b), Entry(1000, a)]
  {
  }

  lemma NoMore<E>(a: State<E>)
    ensures Possible(a, []) && TakeAll(a, []) == a
  {
  }

  lemma Before<E>(a: State<E>, ss: seq<Step<E>>, rest: seq<Step<E>>, b: State<E>)
    requires ss != [] && ss[1..] == rest && Enabled(a, ss[0]) && Take(a, ss[0]) == b && Possible(b, rest)
    ensures Possible(a, ss) && TakeAll(a, ss) == TakeAll(b, rest)
  {
  }
}
