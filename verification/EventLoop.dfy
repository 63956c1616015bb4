/** The event loop: rounds of its task queue, and the set of registered descriptors
    against what the kernel watches. */
module EventLoops {
  import opened Options
  import opened Sequences

  // ---------------------------------------------------------------------
  // Task rounds as a step system
  // ---------------------------------------------------------------------

  /** A task stamped with the number of epoll_wait calls made before it was added. */
  datatype Stamped<T> = Stamped(task: T, stamp: nat)

  /** Top: about to test the stop flag. Draining: running the swapped-out batch. Polled: epoll_wait has
      returned and its events are being turned into tasks. */
  datatype Phase = Top | Draining | Polled | Left

  datatype Rounds<T> = Rounds(
    pending: seq<Stamped<T>>, batch: seq<Stamped<T>>, executed: seq<(Stamped<T>, nat)>, added: seq<T>,
    waits: nat, phase: Phase, stop: bool)

  /** Add may happen at any time, from any thread; the other steps are the loop's. */
  datatype Step<T> = Add(task: T) | Swap | RunFront | Wait | Again | Stop

  predicate Enabled<T>(r: Rounds<T>, s: Step<T>) {
    match s
    case Add(_) => true
    case Stop => true
    case Swap => r.phase == Top
    case RunFront => r.phase == Draining && r.batch != []
    case Wait => r.phase == Draining && r.batch == []
    case Again => r.phase == Polled
  }

  function Take<T>(r: Rounds<T>, s: Step<T>): Rounds<T>
    requires Enabled(r, s)
  {
    match s
    case Add(task) => r.(pending := r.pending + [Stamped(task, r.waits)], added := r.added + [task])
    case Stop => r.(stop := true)
    case Swap => if r.stop then r.(phase := Left) else r.(phase := Draining, batch := r.pending, pending := [])
    case RunFront => r.(batch := r.batch[1..], executed := r.executed + [(r.batch[0], r.waits)])
    case Wait => r.(phase := Polled, waits := r.waits + 1)
    case Again => r.(phase := Top)
  }

  function Initial<T>(): Rounds<T> {
    Rounds([], [], [], [], 0, Top, false)
  }

  function Tasks<T>(ss: seq<Stamped<T>>): (ts: seq<T>)
    ensures |ts| == |ss| && forall k :: 0 <= k < |ss| ==> ts[k] == ss[k].task
  {
    if ss == [] then [] else [ss[0].task] + Tasks(ss[1..])
  }

  function Executed<T>(es: seq<(Stamped<T>, nat)>): (ts: seq<T>)
    ensures |ts| == |es| && forall k :: 0 <= k < |es| ==> ts[k] == es[k].0.task
  {
    if es == [] then [] else [es[0].0.task] + Executed(es[1..])
  }

  lemma TasksSnoc<T>(ss: seq<Stamped<T>>, s: Stamped<T>)
    ensures Tasks(ss + [s]) == Tasks(ss) + [s.task]
  {
  }

  lemma ExecutedSnoc<T>(es: seq<(Stamped<T>, nat)>, e: (Stamped<T>, nat))
    ensures Executed(es + [e]) == Executed(es) + [e.0.task]
  {
  }

  lemma MoveFirst<T>(a: seq<T>, b: seq<T>, c: seq<T>)
    requires b != []
    ensures a + [b[0]] + b[1..] + c == a + b + c
  {
    assert b == [b[0]] + b[1..];
  }

  ghost predicate InOrder<T>(r: Rounds<T>) {
    Executed(r.executed) + Tasks(r.batch) + Tasks(r.pending) == r.added
  }

  /** At most one epoll_wait lies behind every waiting task; none behind those added while a batch runs. */
  ghost predicate Prompt<T>(r: Rounds<T>) {
    && (forall k :: 0 <= k < |r.executed| ==> r.executed[k].1 <= r.executed[k].0.stamp + 1)
    && (r.phase == Top || r.phase == Polled ==> r.batch == [])
    && (r.phase != Left ==>
          && (forall k :: 0 <= k < |r.batch| ==> r.waits <= r.batch[k].stamp + 1)
          && (forall k :: 0 <= k < |r.pending| ==>
                r.waits <= r.pending[k].stamp + (if r.phase == Draining then 0 else 1)))
  }

  lemma StepInOrder<T>(r: Rounds<T>, s: Step<T>)
    requires InOrder(r) && Enabled(r, s) && (s.Swap? ==> r.batch == [])
    ensures InOrder(Take(r, s))
  {
    hide Tasks, Executed;
    match s
    case Add(task) =>
      TasksSnoc(r.pending, Stamped(task, r.waits));
      assert r.added + [task] == Executed(r.executed) + Tasks(r.batch) + (Tasks(r.pending) + [task]);
    case RunFront =>
      TasksDrop(r.batch);
      ExecutedSnoc(r.executed, (r.batch[0], r.waits));
      MoveFirst(Executed(r.executed), Tasks(r.batch), Tasks(r.pending));
    case Swap =>
      NoTasks<T>();
      assert Executed(r.executed) + [] + Tasks(r.pending) == Executed(r.executed) + Tasks(r.pending) + [];
    case _ =>
  }

  lemma NoTasks<T>()
    ensures Tasks<T>([]) == []
  {
  }

  lemma TasksDrop<T>(ss: seq<Stamped<T>>)
    requires ss != []
    ensures Tasks(ss) != [] && Tasks(ss)[0] == ss[0].task && Tasks(ss[1..]) == Tasks(ss)[1..]
  {
  }

  lemma StepPrompt<T>(r: Rounds<T>, s: Step<T>)
    requires Prompt(r) && Enabled(r, s)
    ensures Prompt(Take(r, s))
  {
  }

  ghost predicate Possible<T>(r: Rounds<T>, ss: seq<Step<T>>)
    decreases |ss|
  {
    ss == [] || (Enabled(r, ss[0]) && Possible(Take(r, ss[0]), ss[1..]))
  }

  ghost function TakeAll<T>(r: Rounds<T>, ss: seq<Step<T>>): Rounds<T>
    requires Possible(r, ss)
    decreases |ss|
  {
    if ss == [] then r else TakeAll(Take(r, ss[0]), ss[1..])
  }

  /** For every interleaving of adders and the loop: executed, current batch and pending tasks are together the tasks
      added, in order; and at most one epoll_wait separates the adding of a task from its execution. */
  lemma {:induction false} RoundsKeepOrder<T>(r: Rounds<T>, ss: seq<Step<T>>)
    requires InOrder(r) && Prompt(r) && Possible(r, ss)
    ensures InOrder(TakeAll(r, ss)) && Prompt(TakeAll(r, ss))
    decreases |ss|
  {
    if ss != [] {
      StepInOrder(r, ss[0]);
      StepPrompt(r, ss[0]);
      RoundsKeepOrder(Take(r, ss[0]), ss[1..]);
    }
  }

  lemma RunsStartInOrder<T>(ss: seq<Step<T>>)
    requires Possible(Initial<T>(), ss)
    ensures var r := TakeAll(Initial<T>(), ss);
      && Executed(r.executed) + Tasks(r.batch) + Tasks(r.pending) == r.added
      && (forall k :: 0 <= k < |r.executed| ==> r.executed[k].1 - r.executed[k].0.stamp <= 1)
      && (r.phase != Left ==>
            && (forall k :: 0 <= k < |r.batch| ==> r.waits - r.batch[k].stamp <= 1)
            && (forall k :: 0 <= k < |r.pending| ==> r.waits - r.pending[k].stamp <= 1))
  {
    RoundsKeepOrder(Initial<T>(), ss);
  }

  // The stamps by the steps of the run: how many epoll_wait calls came before each adding and each execution.

  ghost function Waits<T>(ss: seq<Step<T>>): nat {
    if ss == [] then 0 else Waits(ss[..|ss| - 1]) + if ss[|ss| - 1].Wait? then 1 else 0
  }

  ghost function Additions<T>(ss: seq<Step<T>>): seq<Stamped<T>> {
    if ss == [] then []
    else
      var s, before := ss[|ss| - 1], ss[..|ss| - 1];
      Additions(before) + if s.Add? then [Stamped(s.task, Waits(before))] else []
  }

  ghost function Executions<T>(ss: seq<Step<T>>): seq<nat> {
    if ss == [] then []
    else
      var s, before := ss[|ss| - 1], ss[..|ss| - 1];
      Executions(before) + if s.RunFront? then [Waits(before)] else []
  }

  ghost predicate StampedBy<T>(r: Rounds<T>, ss: seq<Step<T>>) {
    && r.waits == Waits(ss) && |r.executed| == |Executions(ss)|
    && |r.executed| + |r.batch| + |r.pending| == |Additions(ss)|
    && (forall k :: 0 <= k < |r.executed| ==> r.executed[k] == (Additions(ss)[k], Executions(ss)[k]))
    && r.batch + r.pending == Additions(ss)[|r.executed|..]
  }

  lemma StepStamped<T>(r: Rounds<T>, ss: seq<Step<T>>, s: Step<T>)
    requires StampedBy(r, ss) && Enabled(r, s) && (s.Swap? ==> r.batch == [])
    ensures StampedBy(Take(r, s), ss + [s])
  {
    var more := ss + [s];
    assert more[..|more| - 1] == ss;
    var adds, n := Additions(ss), |r.executed|;
    match s
    case Add(task) =>
      assert r.batch + (r.pending + [Stamped(task, r.waits)]) == adds[n..] + [Stamped(task, r.waits)];
    case RunFront =>
      assert adds[n] == (r.batch + r.pending)[0];
      assert r.batch[1..] + r.pending == (r.batch + r.pending)[1..];
    case Swap =>
      assert [] + r.pending == r.pending && r.pending + [] == r.pending;
    case _ =>
  }

  lemma {:induction false} RunStamped<T>(r: Rounds<T>, past: seq<Step<T>>, ss: seq<Step<T>>)
    requires StampedBy(r, past) && Prompt(r) && Possible(r, ss)
    ensures StampedBy(TakeAll(r, ss), past + ss)
    decreases |ss|
  {
    hide StampedBy, Take, Prompt, Enabled;
    if ss == [] {
      assert past + ss == past;
    } else {
      assert past + ss == (past + [ss[0]]) + ss[1..];
      EmptyAtTop(r);
      StepEnabled(r, ss[0]);
      StepStamped(r, past, ss[0]);
      StepPrompt(r, ss[0]);
      RunStamped(Take(r, ss[0]), past + [ss[0]], ss[1..]);
    }
  }

  lemma EmptyAtTop<T>(r: Rounds<T>)
    requires Prompt(r)
    ensures r.phase == Top ==> r.batch == []
  {
  }

  lemma StepEnabled<T>(r: Rounds<T>, s: Step<T>)
    requires Enabled(r, s)
    ensures s.Swap? ==> r.phase == Top
  {
  }

  /** The same by the steps of the run alone: the k-th task added is the k-th executed, and at most one epoll_wait comes
      between the two. */
  lemma RunsStartPromptly<T>(ss: seq<Step<T>>)
    requires Possible(Initial<T>(), ss)
    ensures |TakeAll(Initial<T>(), ss).executed| == |Executions(ss)| <= |Additions(ss)|
    ensures forall k :: 0 <= k < |Executions(ss)| ==>
      && TakeAll(Initial<T>(), ss).executed[k].0 == Additions(ss)[k]
      && Additions(ss)[k].stamp <= Executions(ss)[k] <= Additions(ss)[k].stamp + 1
  {
    var start := Initial<T>();
    assert StampedBy(start, []);
    RunStamped(start, [], ss);
    assert [] + ss == ss;
    RunsStartInOrder(ss);
    NoEarlierWaits(ss);
  }

  /** No execution precedes its adding. */
  lemma {:induction false} NoEarlierWaits<T>(ss: seq<Step<T>>)
    requires Possible(Initial<T>(), ss)
    ensures var r := TakeAll(Initial<T>(), ss);
      forall k :: 0 <= k < |r.executed| ==> r.executed[k].0.stamp <= r.executed[k].1
  {
    PastOnly(Initial<T>(), ss);
  }

  ghost predicate Past<T>(r: Rounds<T>) {
    && (forall k :: 0 <= k < |r.executed| ==> r.executed[k].0.stamp <= r.executed[k].1)
    && (forall k :: 0 <= k < |r.batch| ==> r.batch[k].stamp <= r.waits)
    && (forall k :: 0 <= k < |r.pending| ==> r.pending[k].stamp <= r.waits)
  }

  lemma {:induction false} PastOnly<T>(r: Rounds<T>, ss: seq<Step<T>>)
    requires Past(r) && Possible(r, ss)
    ensures Past(TakeAll(r, ss))
    decreases |ss|
  {
    if ss != [] {
      PastOnly(Take(r, ss[0]), ss[1..]);
    }
  }

  // ---------------------------------------------------------------------
  // Descriptors
  // ---------------------------------------------------------------------

  type Callback = nat

  datatype Mask = Mask(input: bool, output: bool, error: bool)

  datatype TriggerEvent = InEvent | OutEvent

  /** The value of an FdEvent. */
  datatype FdValue = FdValue(events: Mask, readCallback: Option<Callback>, writeCallback: Option<Callback>,
                             errorCallback: Option<Callback>)

  /** A second registration drops the error callback. */
  function Listened(v: FdValue, kind: TriggerEvent, callback: Callback, onError: Option<Callback>): FdValue {
    var w := if kind == InEvent then v.(events := v.events.(input := true), readCallback := Some(callback))
             else v.(events := v.events.(output := true), writeCallback := Some(callback));
    if v.errorCallback == None then w.(events := w.events.(error := true), errorCallback := onError)
    else w.(errorCallback := None)
  }

  function Canceled(v: FdValue, kind: TriggerEvent): FdValue {
    v.(events := if kind == InEvent then v.events.(input := false) else v.events.(output := false))
  }

  class FdEvent {
    const fd: int
    var events: Mask
    var readCallback: Option<Callback>
    var writeCallback: Option<Callback>
    var errorCallback: Option<Callback>

    function Value(): FdValue
      reads this
    {
      FdValue(events, readCallback, writeCallback, errorCallback)
    }

    constructor (fd: int)
      ensures this.fd == fd && Value() == FdValue(Mask(false, false, false), None, None, None)
    {
      this.fd, events := fd, Mask(false, false, false);
      readCallback, writeCallback, errorCallback := None, None, None;
    }

    /** A second registration drops the error callback. */
    method Listen(kind: TriggerEvent, callback: Callback, onError: Option<Callback>)
      modifies this
      ensures events.input == (old(events.input) || kind == InEvent)
      ensures events.output == (old(events.output) || kind == OutEvent)
      ensures events.error == (old(events.error) || old(errorCallback) == None)
      ensures errorCallback == if old(errorCallback) == None then onError else None
      ensures readCallback == if kind == InEvent then Some(callback) else old(readCallback)
      ensures writeCallback == if kind == OutEvent then Some(callback) else old(writeCallback)
      ensures Value() == Listened(old(Value()), kind, callback, onError)
    {
      if kind == InEvent {
        events := events.(input := true);
        readCallback := Some(callback);
      } else {
        events := events.(output := true);
        writeCallback := Some(callback);
      }
      if errorCallback == None {
        events := events.(error := true);
        errorCallback := onError;
      } else {
        errorCallback := None;
      }
    }

    method Cancel(kind: TriggerEvent)
      modifies this`events
      ensures events == if kind == InEvent then old(events).(input := false) else old(events).(output := false)
      ensures Value() == Canceled(old(Value()), kind)
    {
      events := if kind == InEvent then events.(input := false) else events.(output := false);
    }
  }

  /** A queued function: a callback (possibly null), or a registration deferred from another thread. */
  datatype Task = Run(callback: Option<Callback>) | Register(event: FdEvent) | Unregister(event: FdEvent)

  /** One event returned by epoll_wait. */
  datatype Trigger = Trigger(event: FdEvent, input: bool, output: bool, error: bool)

  datatype CtlOp = CtlAdd | CtlMod | CtlDel

  /** The kernel refuses to add what it watches, and to modify or delete what it does not. */
  predicate Legal(kernel: map<int, Mask>, op: CtlOp, fd: int) {
    op == CtlAdd <==> fd !in kernel
  }

  // ---------------------------------------------------------------------
  // What happens while a task runs
  // ---------------------------------------------------------------------

  /** What a callback does while it runs, or another thread at the same time. A registration from another
      thread is the queueing of a task. */
  datatype Action =
    | Listen(event: FdEvent, kind: TriggerEvent, callback: Callback, onError: Option<Callback>)
    | Cancel(event: FdEvent, kind: TriggerEvent)
    | Watch(event: FdEvent)
    | Unwatch(event: FdEvent)
    | Queue(task: Task)
    | Halt

  /** What the loop's objects hold: the kernel's interest set, the FdEvents, the pending tasks and the stop flag. */
  datatype World = World(kernel: map<int, Mask>, fds: map<FdEvent, FdValue>, pending: seq<Task>, stop: bool)

  predicate Known(events: set<FdEvent>, a: Action) {
    !a.Queue? && !a.Halt? ==> a.event in events
  }

  ghost predicate AllKnown(events: set<FdEvent>, actions: seq<Action>) {
    forall k :: 0 <= k < |actions| ==> Known(events, actions[k])
  }

  /** The kernel gets the mask that the FdEvent has when it is registered. */
  function Happen(w: World, a: Action): (after: World)
    requires Known(w.fds.Keys, a)
    ensures after.fds.Keys == w.fds.Keys
  {
    match a
    case Listen(event, kind, callback, onError) =>
      w.(fds := w.fds[event := Listened(w.fds[event], kind, callback, onError)])
    case Cancel(event, kind) => w.(fds := w.fds[event := Canceled(w.fds[event], kind)])
    case Watch(event) => w.(kernel := w.kernel[event.fd := w.fds[event].events])
    case Unwatch(event) => w.(kernel := w.kernel - {event.fd})
    case Queue(task) => w.(pending := w.pending + [task])
    case Halt => w.(stop := true)
  }

  ghost function HappenAll(w: World, actions: seq<Action>): (after: World)
    requires AllKnown(w.fds.Keys, actions)
    ensures after.fds.Keys == w.fds.Keys
    decreases |actions|
  {
    if actions == [] then w else HappenAll(Happen(w, actions[0]), actions[1..])
  }

  lemma {:induction false} HappenAppend(w: World, a: seq<Action>, b: seq<Action>)
    requires AllKnown(w.fds.Keys, a) && AllKnown(w.fds.Keys, b)
    ensures AllKnown(w.fds.Keys, a + b) && HappenAll(w, a + b) == HappenAll(HappenAll(w, a), b)
    decreases |a|
  {
    hide Happen, Known;
    if a == [] {
      assert a + b == b;
    } else {
      assert (a + b)[0] == a[0] && (a + b)[1..] == a[1..] + b;
      HappenAppend(Happen(w, a[0]), a[1..], b);
    }
  }

  lemma HappenOne(w: World, a: Action)
    requires Known(w.fds.Keys, a)
    ensures AllKnown(w.fds.Keys, [a]) && HappenAll(w, [a]) == Happen(w, a)
  {
  }

  /** The action changes how a descriptor is watched. */
  predicate Concerns(a: Action, fd: int) {
    (a.Watch? || a.Unwatch?) && a.event.fd == fd
  }

  lemma {:induction false} UnconcernedStays(w: World, actions: seq<Action>, fd: int)
    requires AllKnown(w.fds.Keys, actions) && forall k :: 0 <= k < |actions| ==> !Concerns(actions[k], fd)
    ensures var after := HappenAll(w, actions);
      (fd in after.kernel <==> fd in w.kernel) && (fd in w.kernel ==> after.kernel[fd] == w.kernel[fd])
    decreases |actions|
  {
    if actions != [] {
      assert !Concerns(actions[0], fd);
      UnconcernedStays(Happen(w, actions[0]), actions[1..], fd);
    }
  }

  /** The last operation on a descriptor decides: it is watched with the mask that the FdEvent had when it was last
      registered, whatever happened to the mask since, unless it was deleted since. */
  lemma LastOperationWins(w: World, actions: seq<Action>, k: nat, fd: int)
    requires AllKnown(w.fds.Keys, actions) && k < |actions| && Concerns(actions[k], fd)
    requires forall j :: k < j < |actions| ==> !Concerns(actions[j], fd)
    ensures var before, after := HappenAll(w, actions[..k]), HappenAll(w, actions);
      if actions[k].Watch? then fd in after.kernel && after.kernel[fd] == before.fds[actions[k].event].events
      else fd !in after.kernel
  {
    KnownParts(w.fds.Keys, actions, k);
    hide AllKnown, HappenAll;
    var early, late := actions[..k], actions[k + 1..];
    var before := HappenAll(w, early);
    SplitAt(actions, k);
    KnownTogether(w.fds.Keys, [actions[k]], late);
    HappenAppend(w, early, [actions[k]] + late);
    HappenAppend(before, [actions[k]], late);
    HappenOne(before, actions[k]);
    UnconcernedStays(Happen(before, actions[k]), late, fd);
  }

  lemma SplitAt(actions: seq<Action>, k: nat)
    requires k < |actions|
    ensures actions == actions[..k] + ([actions[k]] + actions[k + 1..])
  {
  }

  lemma KnownParts(events: set<FdEvent>, actions: seq<Action>, k: nat)
    requires AllKnown(events, actions) && k < |actions|
    ensures AllKnown(events, actions[..k]) && Known(events, actions[k]) && AllKnown(events, [actions[k]])
    ensures AllKnown(events, actions[k + 1..])
  {
  }

  lemma KnownTogether(events: set<FdEvent>, a: seq<Action>, b: seq<Action>)
    requires AllKnown(events, a) && AllKnown(events, b)
    ensures AllKnown(events, a + b)
  {
  }

  /** What a task does by itself. */
  function Own(task: Task): seq<Action> {
    match task
    case Run(_) => []
    case Register(event) => [Watch(event)]
    case Unregister(event) => [Unwatch(event)]
  }

  lemma OwnHappens(w: World, task: Task)
    requires AllKnown(w.fds.Keys, Own(task))
    ensures !task.Run? ==> task.event in w.fds && Known(w.fds.Keys, Own(task)[0])
    ensures HappenAll(w, Own(task)) == if task.Run? then w else Happen(w, Own(task)[0])
  {
    assert !task.Run? ==> Known(w.fds.Keys, Own(task)[0]);
  }

  /** The tasks queued, in order. */
  ghost function Queued(actions: seq<Action>): seq<Task>
    decreases |actions|
  {
    if actions == [] then [] else (if actions[0].Queue? then [actions[0].task] else []) + Queued(actions[1..])
  }

  /** Whatever else happens, the tasks queued wait behind the others. */
  lemma {:induction false} QueuedWait(w: World, actions: seq<Action>)
    requires AllKnown(w.fds.Keys, actions)
    ensures HappenAll(w, actions).pending == w.pending + Queued(actions)
    decreases |actions|
  {
    hide Listened, Canceled;
    if actions != [] {
      QueuedWait(Happen(w, actions[0]), actions[1..]);
    }
  }

  lemma {:induction false} HaltStops(w: World, actions: seq<Action>)
    requires AllKnown(w.fds.Keys, actions)
    ensures HappenAll(w, actions).stop <==> w.stop || Halt in actions
    decreases |actions|
  {
    hide Listened, Canceled;
    if actions != [] {
      HaltStops(Happen(w, actions[0]), actions[1..]);
      assert actions == [actions[0]] + actions[1..];
    }
  }

  /** Each task of a round, with what happens while it runs. */
  ghost function RoundActions(tasks: seq<Task>, during: seq<seq<Action>>): (lists: seq<seq<Action>>)
    requires |tasks| == |during|
    ensures |lists| == |tasks| && forall k :: 0 <= k < |tasks| ==> lists[k] == Own(tasks[k]) + during[k]
  {
    seq(|tasks|, k requires 0 <= k < |tasks| => Own(tasks[k]) + during[k])
  }

  ghost predicate RoundKnown(events: set<FdEvent>, tasks: seq<Task>, during: seq<seq<Action>>) {
    && |tasks| == |during|
    && forall k :: 0 <= k < |tasks| ==> AllKnown(events, Own(tasks[k])) && AllKnown(events, during[k])
  }

  lemma {:induction false} FlattenKnown(events: set<FdEvent>, lists: seq<seq<Action>>)
    requires forall k :: 0 <= k < |lists| ==> AllKnown(events, lists[k])
    ensures AllKnown(events, Flatten(lists))
  {
    hide AllKnown;
    if lists == [] {
      assert AllKnown(events, []) by {
        NothingKnown(events);
      }
    } else {
      FlattenKnown(events, lists[1..]);
      KnownTogether(events, lists[0], Flatten(lists[1..]));
    }
  }

  lemma NothingKnown(events: set<FdEvent>)
    ensures AllKnown(events, [])
  {
  }

  /** The world after the first k tasks of a round. */
  ghost function AfterTasks(w: World, tasks: seq<Task>, during: seq<seq<Action>>, k: nat): (after: World)
    requires RoundKnown(w.fds.Keys, tasks, during) && k <= |tasks|
    ensures after.fds.Keys == w.fds.Keys
  {
    var lists := RoundActions(tasks, during)[..k];
    ListsKnown(w.fds.Keys, tasks, during, k);
    HappenAll(w, Flatten(lists))
  }

  lemma ListsKnown(events: set<FdEvent>, tasks: seq<Task>, during: seq<seq<Action>>, k: nat)
    requires RoundKnown(events, tasks, during) && k <= |tasks|
    ensures AllKnown(events, Flatten(RoundActions(tasks, during)[..k]))
  {
    hide AllKnown, Flatten;
    var lists := RoundActions(tasks, during)[..k];
    forall j | 0 <= j < k
      ensures AllKnown(events, lists[j])
    {
      KnownTogether(events, Own(tasks[j]), during[j]);
    }
    FlattenKnown(events, lists);
  }

  lemma NextTask(w: World, tasks: seq<Task>, during: seq<seq<Action>>, k: nat)
    requires RoundKnown(w.fds.Keys, tasks, during) && k < |tasks|
    ensures AllKnown(w.fds.Keys, Own(tasks[k])) && AllKnown(w.fds.Keys, during[k])
    ensures AfterTasks(w, tasks, during, k + 1)
         == HappenAll(HappenAll(AfterTasks(w, tasks, during, k), Own(tasks[k])), during[k])
  {
    hide AllKnown, Flatten, HappenAll;
    var lists := RoundActions(tasks, during);
    ListsKnown(w.fds.Keys, tasks, during, k);
    KnownTogether(w.fds.Keys, Own(tasks[k]), during[k]);
    FlattenNext(lists, k);
    HappenAppend(w, Flatten(lists[..k]), lists[k]);
    HappenAppend(AfterTasks(w, tasks, during, k), Own(tasks[k]), during[k]);
  }

  /** The task changes how a descriptor is watched. */
  predicate Handles(task: Task, fd: int) {
    !task.Run? && task.event.fd == fd
  }

  /** Nothing that happens in a round from the k-th task on, but for that task itself, concerns the descriptor. */
  ghost predicate LeftAlone(tasks: seq<Task>, during: seq<seq<Action>>, k: nat, fd: int)
    requires |tasks| == |during|
  {
    && (forall j :: k < j < |tasks| ==> !Handles(tasks[j], fd))
    && (forall j, i :: k <= j < |tasks| && 0 <= i < |during[j]| ==> !Concerns(during[j][i], fd))
  }

  lemma {:induction false} LeftAloneStays(w: World, tasks: seq<Task>, during: seq<seq<Action>>, k: nat, n: nat, fd: int)
    requires RoundKnown(w.fds.Keys, tasks, during) && k < n <= |tasks| && LeftAlone(tasks, during, k, fd)
    ensures var before, after := AfterTasks(w, tasks, during, k + 1), AfterTasks(w, tasks, during, n);
      (fd in after.kernel <==> fd in before.kernel) && (fd in before.kernel ==> after.kernel[fd] == before.kernel[fd])
    decreases n
  {
    hide AfterTasks, HappenAll, Own;
    if n > k + 1 {
      LeftAloneStays(w, tasks, during, k, n - 1, fd);
      NextTask(w, tasks, during, n - 1);
      OwnConcerns(tasks[n - 1], fd);
      var before := AfterTasks(w, tasks, during, n - 1);
      UnconcernedStays(before, Own(tasks[n - 1]), fd);
      UnconcernedStays(HappenAll(before, Own(tasks[n - 1])), during[n - 1], fd);
    }
  }

  lemma OwnConcerns(task: Task, fd: int)
    requires !Handles(task, fd)
    ensures forall i :: 0 <= i < |Own(task)| ==> !Concerns(Own(task)[i], fd)
  {
  }

  /** A queued registration or deletion that nothing later in the round concerns the descriptor of: afterwards
      the descriptor is watched with the mask it had when the task ran, or not watched. */
  lemma LastTaskWins(w: World, tasks: seq<Task>, during: seq<seq<Action>>, k: nat)
    requires RoundKnown(w.fds.Keys, tasks, during) && k < |tasks| && !tasks[k].Run?
    requires LeftAlone(tasks, during, k, tasks[k].event.fd)
    ensures tasks[k].event in w.fds
    ensures var before, after := AfterTasks(w, tasks, during, k), AfterTasks(w, tasks, during, |tasks|);
      var event := tasks[k].event;
      if tasks[k].Register? then event.fd in after.kernel && after.kernel[event.fd] == before.fds[event].events
      else event.fd !in after.kernel
  {
    hide AfterTasks;
    var fd, before := tasks[k].event.fd, AfterTasks(w, tasks, during, k);
    NextTask(w, tasks, during, k);
    OwnHappens(before, tasks[k]);
    UnconcernedStays(HappenAll(before, Own(tasks[k])), during[k], fd);
    LeftAloneStays(w, tasks, during, k, |tasks|, fd);
  }

  lemma NoTask(w: World, tasks: seq<Task>, during: seq<seq<Action>>)
    requires RoundKnown(w.fds.Keys, tasks, during)
    ensures AfterTasks(w, tasks, during, 0) == w
  {
  }

  class EventLoop {
    var listenFds: set<int>
    var pendingTasks: seq<Task>
    var batch: seq<Task>               // the local queue the pending tasks were swapped into
    var stopFlag: bool
    ghost var kernel: map<int, Mask>   // what the kernel watches
    ghost var rounds: Rounds<Task>     // the step system this loop refines

    /** The loop's set is exactly the kernel's. */
    ghost predicate Agrees()
      reads this
    {
      listenFds == kernel.Keys
    }

    /** The queues are those of a reachable state of the step system. */
    ghost predicate Refines()
      reads this
    {
      && Tasks(rounds.pending) == pendingTasks && Tasks(rounds.batch) == batch && rounds.stop == stopFlag
      && InOrder(rounds) && Prompt(rounds)
    }

    ghost predicate Valid()
      reads this
    {
      Agrees() && Refines()
    }

    ghost predicate Shows(w: World)
      reads this`kernel, this`pendingTasks, this`stopFlag, w.fds.Keys
    {
      && kernel == w.kernel && pendingTasks == w.pending && stopFlag == w.stop
      && forall event <- w.fds :: event.Value() == w.fds[event]
    }

    /** The part of the step system that only the loop itself moves. */
    ghost function OwnState(): (Phase, seq<Stamped<Task>>, seq<(Stamped<Task>, nat)>, seq<Task>)
      reads this`rounds, this`batch
    {
      (rounds.phase, rounds.batch, rounds.executed, batch)
    }

    ghost function Ran(): seq<Task>
      reads this
    {
      Executed(rounds.executed)
    }

    constructor ()
      ensures Valid() && kernel == map[] && rounds == Initial<Task>()
    {
      listenFds, pendingTasks, batch, stopFlag, kernel, rounds := {}, [], [], false, map[], Initial<Task>();
    }

    /** A successful epoll_ctl; that it is legal is the caller's obligation. */
    method EpollCtl(op: CtlOp, event: FdEvent)
      requires Legal(kernel, op, event.fd)
      modifies this`kernel
      ensures kernel == if op == CtlDel then old(kernel) - {event.fd} else old(kernel)[event.fd := event.events]
    {
      kernel := if op == CtlDel then kernel - {event.fd} else kernel[event.fd := event.events];
    }

    method AddToEpoll(event: FdEvent)
      requires Agrees()
      modifies this`listenFds, this`kernel
      ensures Agrees() && kernel == old(kernel)[event.fd := event.events]
    {
      var op := CtlAdd;
      if event.fd in listenFds {
        op := CtlMod;
      }
      EpollCtl(op, event);
      listenFds := listenFds + {event.fd};
    }

    method DeleteFromEpoll(event: FdEvent)
      requires Agrees()
      modifies this`listenFds, this`kernel
      ensures Agrees() && kernel == old(kernel) - {event.fd}
    {
      if event.fd !in listenFds {
        return;
      }
      EpollCtl(CtlDel, event);
      listenFds := listenFds - {event.fd};
    }

    method AddTask(task: Task)
      requires Refines()
      modifies this`pendingTasks, this`rounds
      ensures Refines() && rounds == Take(old(rounds), Add(task))
      ensures pendingTasks == old(pendingTasks) + [task]
    {
      hide Tasks, Executed, InOrder, Prompt;
      StepInOrder(rounds, Add(task));
      StepPrompt(rounds, Add(task));
      TasksSnoc(rounds.pending, Stamped(task, rounds.waits));
      pendingTasks := pendingTasks + [task];
      rounds := Take(rounds, Add(task));
    }

    /** The loop notices when it comes back to its head. */
    method Stop()
      requires Refines()
      modifies this`stopFlag, this`rounds
      ensures Refines() && rounds == Take(old(rounds), Step.Stop) && stopFlag
    {
      hide Tasks, Executed, InOrder, Prompt;
      StepInOrder(rounds, Step.Stop);
      StepPrompt(rounds, Step.Stop);
      stopFlag := true;
      rounds := Take(rounds, Step.Stop);
    }

    /** From another thread the registration is queued, and reads the mask when it runs. */
    method AddEpollEvent(event: FdEvent, inLoopThread: bool)
      requires Valid()
      modifies this`listenFds, this`kernel, this`pendingTasks, this`rounds
      ensures Valid()
      ensures if inLoopThread
              then kernel == old(kernel)[event.fd := event.events] && rounds == old(rounds)
              else kernel == old(kernel) && rounds == Take(old(rounds), Add(Register(event)))
    {
      if inLoopThread {
        AddToEpoll(event);
      } else {
        AddTask(Register(event));
      }
    }

    method DeleteEpollEvent(event: FdEvent, inLoopThread: bool)
      requires Valid()
      modifies this`listenFds, this`kernel, this`pendingTasks, this`rounds
      ensures Valid()
      ensures if inLoopThread
              then kernel == old(kernel) - {event.fd} && rounds == old(rounds)
              else kernel == old(kernel) && rounds == Take(old(rounds), Add(Unregister(event)))
    {
      if inLoopThread {
        DeleteFromEpoll(event);
      } else {
        AddTask(Unregister(event));
      }
    }

    /** Tests the stop flag and swaps the pending tasks into the batch. */
    method BeginRound() returns (goOn: bool)
      requires Valid() && Enabled(rounds, Swap)
      modifies this`batch, this`pendingTasks, this`rounds
      ensures Valid() && rounds == Take(old(rounds), Swap) && goOn == !stopFlag
      ensures !goOn ==> batch == old(batch) && pendingTasks == old(pendingTasks) && rounds.phase == Left
      ensures goOn ==> batch == old(pendingTasks) && pendingTasks == [] && rounds.phase == Draining
      ensures Ran() == old(Ran())
    {
      hide Tasks, Executed, InOrder, Prompt;
      assert rounds.batch == [] by {
        BatchEmptyOutside();
      }
      StepInOrder(rounds, Swap);
      StepPrompt(rounds, Swap);
      NoTasks<Task>();
      goOn := !stopFlag;
      if goOn {
        batch, pendingTasks := pendingTasks, [];
      }
      rounds := Take(rounds, Swap);
    }

    lemma BatchEmptyOutside()
      requires Refines() && (rounds.phase == Top || rounds.phase == Polled)
      ensures rounds.batch == []
    {
    }

    /** Takes the first task out of the batch and runs it. What its callback does are the actions that follow. */
    method RunFirst(ghost w: World)
      requires Valid() && Enabled(rounds, RunFront) && Shows(w) && batch != [] && AllKnown(w.fds.Keys, Own(batch[0]))
      modifies this`batch, this`listenFds, this`kernel, this`rounds
      ensures Valid() && rounds == Take(old(rounds), RunFront)
      ensures batch == old(batch)[1..] && Ran() == old(Ran()) + [old(batch)[0]]
      ensures Shows(HappenAll(w, Own(old(batch)[0])))
      ensures kernel == match old(batch)[0]
        case Run(_) => old(kernel)
        case Register(event) => old(kernel)[event.fd := event.events]
        case Unregister(event) => old(kernel) - {event.fd}
    {
      hide Tasks, Executed, InOrder, Prompt, HappenAll;
      StepInOrder(rounds, RunFront);
      StepPrompt(rounds, RunFront);
      TasksDrop(rounds.batch);
      ExecutedSnoc(rounds.executed, (rounds.batch[0], rounds.waits));
      var task := batch[0];
      batch := batch[1..];
      rounds := Take(rounds, RunFront);
      OwnHappens(w, task);
      match task {
        case Run(callback) =>
        case Register(event) => AddToEpoll(event);
        case Unregister(event) => DeleteFromEpoll(event);
      }
    }

    /** One action while a task runs. */
    method Perform(a: Action, ghost w: World)
      requires Valid() && Shows(w) && Known(w.fds.Keys, a)
      modifies this`listenFds, this`kernel, this`pendingTasks, this`rounds, this`stopFlag, w.fds.Keys
      ensures Valid() && Shows(Happen(w, a)) && OwnState() == old(OwnState())
      ensures kernel == (if a.Watch? then old(kernel)[a.event.fd := old(a.event.events)]
                         else if a.Unwatch? then old(kernel) - {a.event.fd} else old(kernel))
      ensures pendingTasks == old(pendingTasks) + (if a.Queue? then [a.task] else [])
      ensures stopFlag == (old(stopFlag) || a.Halt?)
      ensures a.Listen? ==> a.event.Value() == Listened(old(a.event.Value()), a.kind, a.callback, a.onError)
      ensures a.Cancel? ==> a.event.Value() == Canceled(old(a.event.Value()), a.kind)
    {
      hide Tasks, Executed, InOrder, Prompt, Listened, Canceled;
      match a {
        case Listen(_, _, _, _) => Touch(a, w);
        case Cancel(_, _) => Touch(a, w);
        case Watch(event) => AddEpollEvent(event, true);
        case Unwatch(event) => DeleteEpollEvent(event, true);
        case Queue(task) => AddTask(task);
        case Halt => Stop();
      }
    }

    /** An action on an FdEvent, which the loop does not notice. */
    method Touch(a: Action, ghost w: World)
      requires Shows(w) && Known(w.fds.Keys, a) && (a.Listen? || a.Cancel?)
      modifies a.event
      ensures Shows(Happen(w, a))
      ensures a.event.Value() == (if a.Listen? then Listened(old(a.event.Value()), a.kind, a.callback, a.onError)
                                  else Canceled(old(a.event.Value()), a.kind))
    {
      hide Listened, Canceled;
      if a.Listen? {
        a.event.Listen(a.kind, a.callback, a.onError);
      } else {
        a.event.Cancel(a.kind);
      }
    }

    method PerformAll(actions: seq<Action>, ghost w: World)
      requires Valid() && Shows(w) && AllKnown(w.fds.Keys, actions)
      modifies this`listenFds, this`kernel, this`pendingTasks, this`rounds, this`stopFlag, w.fds.Keys
      ensures Valid() && Shows(HappenAll(w, actions)) && OwnState() == old(OwnState())
    {
      hide Valid, Shows, Happen;
      ghost var now := w;
      for i := 0 to |actions|
        invariant Valid() && Shows(now) && OwnState() == old(OwnState())
        invariant now.fds.Keys == w.fds.Keys && HappenAll(now, actions[i..]) == HappenAll(w, actions)
      {
        assert actions[i..][0] == actions[i] && actions[i..][1..] == actions[i + 1..];
        Perform(actions[i], now);
        now := Happen(now, actions[i]);
      }
    }

    /** The first task of the batch, and what happens while it runs. */
    method RunOne(during: seq<Action>, ghost w: World)
      requires Valid() && rounds.phase == Draining && Shows(w) && batch != []
      requires AllKnown(w.fds.Keys, Own(batch[0])) && AllKnown(w.fds.Keys, during)
      modifies this`batch, this`pendingTasks, this`listenFds, this`kernel, this`rounds, this`stopFlag, w.fds.Keys
      ensures Valid() && rounds.phase == Draining
      ensures batch == old(batch)[1..] && Ran() == old(Ran()) + [old(batch)[0]]
      ensures Shows(HappenAll(HappenAll(w, Own(old(batch)[0])), during))
    {
      hide Tasks, Executed, InOrder, Prompt, AllKnown, HappenAll, Shows, Own;
      BatchEmpty();
      ghost var task := batch[0];
      RunFirst(w);
      PerformAll(during, HappenAll(w, Own(task)));
    }

    /** One round up to epoll_wait, or the end of the loop when it has been stopped. Exactly the tasks pending at
        the swap run, in order. What happens while they run (during[k] while the k-th does), tasks added, descriptors
        registered and masks changed included, takes effect in order; tasks added wait for the next round. */
    method RunRound(during: seq<seq<Action>>, ghost w: World) returns (goOn: bool)
      requires Valid() && rounds.phase == Top && Shows(w) && RoundKnown(w.fds.Keys, pendingTasks, during)
      modifies this`batch, this`pendingTasks, this`listenFds, this`kernel, this`rounds, this`stopFlag, w.fds.Keys
      ensures Valid() && goOn == !old(stopFlag)
      ensures !goOn ==> rounds.phase == Left && Shows(w) && Ran() == old(Ran())
      ensures goOn ==> batch == [] && Enabled(rounds, Wait) && Ran() == old(Ran()) + old(pendingTasks)
      ensures goOn ==> Shows(AfterTasks(w.(pending := []), old(pendingTasks), during, |during|))
    {
      hide Tasks, Executed, InOrder, Prompt, AllKnown, AfterTasks, RoundKnown, Agrees;
      ghost var start := w.(pending := []);
      goOn := BeginRound();
      if goOn {
        assert Shows(start);
        RunBatch(during, start);
      }
    }

    /** The tasks swapped out, one after the other. */
    method RunBatch(during: seq<seq<Action>>, ghost w: World)
      requires Valid() && rounds.phase == Draining && Shows(w) && RoundKnown(w.fds.Keys, batch, during)
      modifies this`batch, this`pendingTasks, this`listenFds, this`kernel, this`rounds, this`stopFlag, w.fds.Keys
      ensures Valid() && batch == [] && Enabled(rounds, Wait) && Ran() == old(Ran()) + old(batch)
      ensures Shows(AfterTasks(w, old(batch), during, |during|))
    {
      hide Valid, Tasks, Executed, Ran, Shows, AfterTasks, RoundKnown, InBatch;
      ghost var tasks := batch;
      NoTaskRun(w, during);
      var k := 0;
      while batch != []
        invariant InBatch(w, tasks, during, old(Ran()), k)
        decreases |batch|
      {
        RunNext(w, tasks, during, old(Ran()), k);
        k := k + 1;
      }
      AllTasksRun(w, tasks, during, old(Ran()), k);
    }

    /** The first k tasks of the batch have run. */
    ghost predicate InBatch(w: World, tasks: seq<Task>, during: seq<seq<Action>>, ran: seq<Task>, k: nat)
      reads this, w.fds.Keys
    {
      && Valid() && rounds.phase == Draining && RoundKnown(w.fds.Keys, tasks, during) && |tasks| == |during|
      && k <= |tasks| && batch == tasks[k..] && Ran() == ran + tasks[..k]
      && Shows(AfterTasks(w, tasks, during, k))
    }

    lemma NoTaskRun(w: World, during: seq<seq<Action>>)
      requires Valid() && rounds.phase == Draining && Shows(w) && RoundKnown(w.fds.Keys, batch, during)
      ensures InBatch(w, batch, during, Ran(), 0)
    {
      hide Valid, Shows, AfterTasks;
      NoTask(w, batch, during);
      assert Ran() + [] == Ran();
    }

    lemma AllTasksRun(w: World, tasks: seq<Task>, during: seq<seq<Action>>, ran: seq<Task>, k: nat)
      requires InBatch(w, tasks, during, ran, k) && batch == []
      ensures RoundKnown(w.fds.Keys, tasks, during)
      ensures Valid() && Enabled(rounds, Wait) && Ran() == ran + tasks && Shows(AfterTasks(w, tasks, during, |during|))
    {
      hide Shows, AfterTasks, AllKnown, Agrees, InOrder, Prompt, Executed;
      assert tasks[..k] == tasks;
      BatchEmpty();
    }

    method RunNext(ghost w: World, ghost tasks: seq<Task>, during: seq<seq<Action>>, ghost ran: seq<Task>, k: nat)
      requires InBatch(w, tasks, during, ran, k) && batch != []
      modifies this`batch, this`pendingTasks, this`listenFds, this`kernel, this`rounds, this`stopFlag, w.fds.Keys
      ensures InBatch(w, tasks, during, ran, k + 1) && batch == old(batch)[1..]
    {
      hide Valid, Shows, Ran, AfterTasks, AllKnown, HappenAll, RoundKnown;
      NextTask(w, tasks, during, k);
      RunOne(during[k], AfterTasks(w, tasks, during, k));
    }

    lemma BatchEmpty()
      requires Refines()
      ensures batch == [] <==> rounds.batch == []
    {
    }

    /** Turns the events of one epoll_wait into tasks; a descriptor in error is no longer watched. */
    method Dispatch(triggers: seq<Trigger>)
      requires Valid() && Enabled(rounds, Wait)
      modifies this`pendingTasks, this`listenFds, this`kernel, this`rounds
      ensures Valid() && rounds.phase == Top
      ensures pendingTasks == old(pendingTasks) + Flatten(old(TaskLists(triggers)))
      ensures kernel == old(kernel) - InError(triggers)
      ensures forall fd :: fd in kernel <==> fd in old(kernel) && forall t <- triggers :: t.error ==> t.event.fd != fd
    {
      hide Tasks, Executed, InOrder, Prompt, Refines, Agrees, Flatten, InError, Dispatched;
      ghost var lists := TaskLists(triggers);
      Advance(Wait);
      NothingDispatched(lists, triggers);
      for i := 0 to |triggers|
        invariant Valid() && rounds.phase == Polled
        invariant Dispatched(old(pendingTasks), old(kernel), lists, triggers, i)
      {
        DispatchNext(triggers, i, old(pendingTasks), old(kernel), lists);
      }
      EverythingDispatched(old(pendingTasks), old(kernel), lists, triggers);
      InErrorExactly(triggers);
      Advance(Again);
    }

    /** The first i events have become tasks. */
    ghost predicate Dispatched(pending: seq<Task>, watched: map<int, Mask>, lists: seq<seq<Task>>,
                               triggers: seq<Trigger>, i: nat)
      reads this`pendingTasks, this`kernel
      requires |lists| == |triggers|
    {
      && i <= |triggers|
      && pendingTasks == pending + Flatten(lists[..i]) && kernel == watched - InError(triggers[..i])
    }

    lemma NothingDispatched(lists: seq<seq<Task>>, triggers: seq<Trigger>)
      requires |lists| == |triggers|
      ensures Dispatched(pendingTasks, kernel, lists, triggers, 0)
    {
      assert pendingTasks + [] == pendingTasks && kernel - {} == kernel;
    }

    lemma EverythingDispatched(pending: seq<Task>, watched: map<int, Mask>, lists: seq<seq<Task>>,
                               triggers: seq<Trigger>)
      requires |lists| == |triggers| && Dispatched(pending, watched, lists, triggers, |triggers|)
      ensures pendingTasks == pending + Flatten(lists) && kernel == watched - InError(triggers)
    {
      assert lists[..|triggers|] == lists && triggers[..|triggers|] == triggers;
    }

    method DispatchNext(triggers: seq<Trigger>, i: nat, ghost pending: seq<Task>, ghost watched: map<int, Mask>,
                        ghost lists: seq<seq<Task>>)
      requires Valid() && rounds.phase == Polled && i < |triggers| == |lists|
      requires lists[i] == TasksOf(triggers[i]) && Dispatched(pending, watched, lists, triggers, i)
      modifies this`pendingTasks, this`listenFds, this`kernel, this`rounds
      ensures Valid() && rounds.phase == Polled && Dispatched(pending, watched, lists, triggers, i + 1)
    {
      hide Valid, Flatten, TasksOf;
      FlattenNext(lists, i);
      Assoc(pending, Flatten(lists[..i]), lists[i]);
      NextInError(triggers, i);
      DispatchOne(triggers[i]);
    }

    /** The loop returns from epoll_wait, or goes back to its head. */
    ghost method Advance(step: Step<Task>)
      requires Valid() && Enabled(rounds, step) && (step == Wait || step == Again)
      modifies this`rounds
      ensures Valid() && rounds == Take(old(rounds), step)
    {
      StepInOrder(rounds, step);
      StepPrompt(rounds, step);
      rounds := Take(rounds, step);
    }

    method DispatchOne(t: Trigger)
      requires Valid()
      modifies this`pendingTasks, this`listenFds, this`kernel, this`rounds
      ensures Valid() && rounds.phase == old(rounds.phase)
      ensures pendingTasks == old(pendingTasks) + TasksOf(t)
      ensures kernel == if t.error then old(kernel) - {t.event.fd} else old(kernel)
    {
      hide Tasks, Executed, InOrder, Prompt;
      if t.input {
        AddTask(Run(t.event.readCallback));
      }
      if t.output {
        AddTask(Run(t.event.writeCallback));
      }
      if t.error {
        DeleteEpollEvent(t.event, true);
        if t.event.errorCallback != None {
          AddTask(Run(t.event.errorCallback));
        }
      }
    }
  }

  function TasksOf(t: Trigger): seq<Task>
    reads t.event
  {
    (if t.input then [Run(t.event.readCallback)] else [])
    + (if t.output then [Run(t.event.writeCallback)] else [])
    + (if t.error && t.event.errorCallback != None then [Run(t.event.errorCallback)] else [])
  }

  /** Which callbacks an event queues, and in which order. */
  lemma TasksOfTrigger(t: Trigger)
    ensures var tasks := TasksOf(t);
      && |tasks| == (if t.input then 1 else 0) + (if t.output then 1 else 0)
                  + (if t.error && t.event.errorCallback != None then 1 else 0)
      && (t.input ==> tasks[0] == Run(t.event.readCallback))
      && (t.output ==> tasks[if t.input then 1 else 0] == Run(t.event.writeCallback))
      && (t.error && t.event.errorCallback != None ==> tasks[|tasks| - 1] == Run(t.event.errorCallback))
  {
  }

  ghost function TaskLists(triggers: seq<Trigger>): (lists: seq<seq<Task>>)
    reads set k | 0 <= k < |triggers| :: triggers[k].event
    ensures |lists| == |triggers| && forall k :: 0 <= k < |triggers| ==> lists[k] == TasksOf(triggers[k])
  {
    if triggers == [] then [] else TaskLists(triggers[..|triggers| - 1]) + [TasksOf(triggers[|triggers| - 1])]
  }

  ghost function InError(triggers: seq<Trigger>): set<int> {
    set t | t in triggers && t.error :: t.event.fd
  }

  lemma InErrorExactly(triggers: seq<Trigger>)
    ensures forall fd :: fd in InError(triggers) <==> exists t :: t in triggers && t.error && t.event.fd == fd
  {
  }

  lemma NextInError(triggers: seq<Trigger>, k: nat)
    requires k < |triggers|
    ensures InError(triggers[..k + 1])
         == InError(triggers[..k]) + (if triggers[k].error then {triggers[k].event.fd} else {})
  {
    assert triggers[..k + 1] == triggers[..k] + [triggers[k]];
  }
}
