/** The asynchronous log: a front buffer swapped into a queue of batches, and a writer that rotates files. */
module AsyncLogs {

  import opened Options
  import opened Sequences

  // ---------------------------------------------------------------------
  // The writer
  // ---------------------------------------------------------------------

  /** <name>_<date>_log.<no>; dates are numbers such as 20250131. */
  datatype FileName = FileName(date: int, no: nat)

  predicate Before(a: FileName, b: FileName) {
    a.date < b.date || (a.date == b.date && a.no < b.no)
  }

  /** The writer's fields, the files, and the order in which the files were created. No date yet: -1. */
  datatype Writer = Writer(date: int, no: nat, open: Option<FileName>, reopen: bool, disk: map<FileName, string>,
                           created: seq<FileName>)

  const FRESH_WRITER := Writer(-1, 0, None, false, map[], [])

  /** fopen in append mode. */
  function Open(w: Writer, name: FileName): Writer {
    w.(open := Some(name), reopen := false,
       disk := if name in w.disk then w.disk else w.disk[name := ""],
       created := if name in w.disk then w.created else w.created + [name])
  }

  function AtDate(w: Writer, date: nat): Writer {
    var v := if date != w.date then w.(reopen := true, no := 0, date := date) else w;
    if v.open == None then v.(reopen := true) else v
  }

  function Reopened(w: Writer, date: nat): (v: Writer)
    ensures Usable(w) ==> HasFile(v) && v.date == date
  {
    var v := AtDate(w, date);
    if v.reopen then Open(v, FileName(date, v.no)) else v
  }

  predicate HasFile(w: Writer) {
    w.open.Some? && w.open.value in w.disk
  }

  function Rotated(w: Writer, maxSize: int): (v: Writer)
    requires HasFile(w) && w.date >= 0
    ensures HasFile(v) && v.date == w.date
  {
    if |w.disk[w.open.value]| > maxSize then Open(w.(no := w.no + 1), FileName(w.date, w.no + 1)) else w
  }

  function Appended(w: Writer, text: string): Writer
    requires HasFile(w)
  {
    w.(disk := w.disk[w.open.value := w.disk[w.open.value] + text])
  }

  /** An open handle is always of a file that exists. */
  predicate Usable(w: Writer) {
    w.open.Some? ==> HasFile(w)
  }

  /** One round of the writer's loop for a batch of messages. */
  function WriteBatch(w: Writer, date: nat, maxSize: int, batch: seq<string>): (after: Writer)
    requires Usable(w)
    ensures Usable(after) && after.date == date
  {
    Appended(Rotated(Reopened(w, date), maxSize), Flatten(batch))
  }

  // ---------------------------------------------------------------------
  // Rotation: the files in order of their names hold the stream written
  // ---------------------------------------------------------------------

  /** The files created hold the text, in order of creation, which is the order of their names; the open file is the
      last one and carries the writer's date and number. */
  ghost predicate HoldsText(w: Writer, text: string) {
    && (forall i, j :: 0 <= i < j < |w.created| ==> Before(w.created[i], w.created[j]))
    && (forall name :: name in w.disk <==> name in w.created)
    && Flatten(Contents(w.disk, w.created)) == text
    && (if w.created == [] then w.open == None && w.date == -1
        else w.open == Some(w.created[|w.created| - 1]) && w.open.value == FileName(w.date, w.no) && !w.reopen)
  }

  ghost function Contents(disk: map<FileName, string>, names: seq<FileName>): (cs: seq<string>)
    ensures |cs| == |names| && forall k :: 0 <= k < |names| && names[k] in disk ==> cs[k] == disk[names[k]]
  {
    if names == [] then []
    else
      var n := |names| - 1;
      Contents(disk, names[..n]) + [if names[n] in disk then disk[names[n]] else ""]
  }

  lemma {:induction false} ContentsFrame(disk: map<FileName, string>, disk': map<FileName, string>,
                                         names: seq<FileName>)
    requires forall name <- names :: name in disk && name in disk' && disk[name] == disk'[name]
    ensures Contents(disk, names) == Contents(disk', names)
  {
    if names != [] {
      ContentsFrame(disk, disk', names[..|names| - 1]);
    }
  }

  lemma OpenNewHoldsText(w: Writer, v: Writer, name: FileName, text: string)
    requires HoldsText(w, text) && v.disk == w.disk && v.created == w.created
    requires w.created == [] || Before(w.created[|w.created| - 1], name)
    requires name == FileName(v.date, v.no)
    ensures name !in w.disk && HoldsText(Open(v, name), text)
  {
    hide Contents;
    assert forall k :: 0 <= k < |w.created| ==> Before(w.created[k], name);
    assert name !in w.created;
    var after := Open(v, name);
    assert after.created == w.created + [name];
    OpenAddsNoText(w, after.disk, name);
  }

  lemma OpenAddsNoText(w: Writer, disk: map<FileName, string>, name: FileName)
    requires name !in w.disk && disk == w.disk[name := ""] && forall n <- w.created :: n in w.disk
    ensures Flatten(Contents(disk, w.created + [name])) == Flatten(Contents(w.disk, w.created))
  {
    var names := w.created + [name];
    assert names[..|names| - 1] == w.created;
    ContentsFrame(w.disk, disk, w.created);
    var cs := Contents(w.disk, w.created);
    FlattenSnoc(cs, "");
    assert Flatten(cs) + "" == Flatten(cs);
  }

  lemma ReopenHoldsText(w: Writer, date: nat, text: string)
    requires HoldsText(w, text) && w.date <= date
    ensures HoldsText(Reopened(w, date), text) && HasFile(Reopened(w, date)) && Reopened(w, date).date == date
  {
    var v := AtDate(w, date);
    if v.reopen {
      OpenNewHoldsText(w, v, FileName(date, v.no), text);
    }
  }

  lemma RotateHoldsText(w: Writer, maxSize: int, text: string)
    requires HoldsText(w, text) && HasFile(w) && w.date >= 0
    ensures HoldsText(Rotated(w, maxSize), text) && HasFile(Rotated(w, maxSize))
    ensures var after := Rotated(w, maxSize);
      |after.disk[after.open.value]| <= Limit(maxSize)
    ensures Rotated(w, maxSize).date == w.date
  {
    hide Contents, Flatten;
    if |w.disk[w.open.value]| > maxSize {
      OpenNewHoldsText(w, w.(no := w.no + 1), FileName(w.date, w.no + 1), text);
    }
  }

  lemma AppendHoldsText(w: Writer, text: string, more: string)
    requires HoldsText(w, text) && HasFile(w)
    ensures HoldsText(Appended(w, more), text + more)
  {
    LastCreated(w, text);
    hide Before, Contents, Flatten;
    AppendToLast(w.disk, w.created, more);
  }

  lemma LastCreated(w: Writer, text: string)
    requires HoldsText(w, text) && HasFile(w)
    ensures var n := |w.created| - 1;
      n >= 0 && w.created[n] == w.open.value && forall k :: 0 <= k < n ==> w.created[k] != w.created[n]
  {
    hide Contents, Flatten;
    var n := |w.created| - 1;
    assert forall k :: 0 <= k < n ==> Before(w.created[k], w.created[n]);
  }

  lemma AppendToLast(disk: map<FileName, string>, names: seq<FileName>, more: string)
    requires names != [] && forall name <- names :: name in disk
    requires var n := |names| - 1; forall k :: 0 <= k < n ==> names[k] != names[n]
    ensures var last := names[|names| - 1];
      Flatten(Contents(disk[last := disk[last] + more], names)) == Flatten(Contents(disk, names)) + more
  {
    var n := |names| - 1;
    var disk' := disk[names[n] := disk[names[n]] + more];
    ContentsFrame(disk, disk', names[..n]);
    var init := Contents(disk, names[..n]);
    FlattenSnoc(init, disk[names[n]]);
    FlattenSnoc(init, disk'[names[n]]);
    assert Flatten(init) + (disk[names[n]] + more) == (Flatten(init) + disk[names[n]]) + more;
  }

  /** Every file is at most the size limit plus one batch. */
  ghost predicate SizesBounded(w: Writer, maxSize: int, batchSize: nat) {
    forall name <- w.disk :: |w.disk[name]| <= Limit(maxSize) + batchSize
  }

  function Limit(maxSize: int): nat {
    if maxSize < 0 then 0 else maxSize
  }

  lemma WriteBounded(w: Writer, date: nat, maxSize: int, batch: seq<string>, batchSize: nat)
    requires Usable(w) && SizesBounded(w, maxSize, batchSize) && |Flatten(batch)| <= batchSize
    requires var r := Rotated(Reopened(w, date), maxSize); |r.disk[r.open.value]| <= Limit(maxSize)
    ensures SizesBounded(WriteBatch(w, date, maxSize, batch), maxSize, batchSize)
  {
    hide Flatten;
    var r := Rotated(Reopened(w, date), maxSize);
    assert forall name <- r.disk :: (name in w.disk && r.disk[name] == w.disk[name]) || r.disk[name] == "";
  }

  lemma WriteHoldsText(w: Writer, date: nat, maxSize: int, batch: seq<string>, batchSize: nat, text: string)
    requires HoldsText(w, text) && Usable(w) && w.date <= date
    requires SizesBounded(w, maxSize, batchSize) && |Flatten(batch)| <= batchSize
    ensures HoldsText(WriteBatch(w, date, maxSize, batch), text + Flatten(batch))
    ensures SizesBounded(WriteBatch(w, date, maxSize, batch), maxSize, batchSize)
  {
    hide HoldsText, Flatten, SizesBounded, Rotated, Reopened, Appended;
    ReopenHoldsText(w, date, text);
    RotateHoldsText(Reopened(w, date), maxSize, text);
    AppendHoldsText(Rotated(Reopened(w, date), maxSize), text, Flatten(batch));
    WriteBounded(w, date, maxSize, batch, batchSize);
  }

  /** The size of a file that is there, or 0. */
  function SizeOf(disk: map<FileName, string>, name: FileName): nat {
    if name in disk then |disk[name]| else 0
  }

  /** Where a batch goes: a new day starts again with number 0, and the next number is taken exactly when the file is
      larger than the limit. No other file changes. */
  lemma WritesTo(w: Writer, date: nat, maxSize: int, batch: seq<string>, text: string)
    requires HoldsText(w, text) && w.date <= date
    ensures var first := FileName(date, if date == w.date then w.no else 0);
      var target := if SizeOf(w.disk, first) > maxSize then FileName(date, first.no + 1) else first;
      var after := WriteBatch(w, date, maxSize, batch);
      && after.date == date && after.no == target.no && after.open == Some(target) && target in after.disk
      && (target != first ==> target !in w.disk)
      && after.disk[target] == (if target in w.disk then w.disk[target] else "") + Flatten(batch)
      && (forall name <- w.disk :: name in after.disk && (name != target ==> after.disk[name] == w.disk[name]))
      && (forall name <- after.disk :: name in w.disk || name == target || (name == first && after.disk[name] == ""))
  {
    hide Contents, Flatten;
    var r := Reopened(w, date);
    ReopenHoldsText(w, date, text);
    if w.created != [] {
      assert w.created[|w.created| - 1] in w.disk;
    }
    var first := FileName(date, if date == w.date then w.no else 0);
    assert r.open == Some(first) && r.no == first.no;
    NextIsNew(w, date, text);
  }

  /** Neither the first file of a later day nor the next number is there yet. */
  lemma NextIsNew(w: Writer, date: nat, text: string)
    requires HoldsText(w, text) && w.date <= date
    ensures FileName(date, if date == w.date then w.no + 1 else 1) !in w.disk
    ensures date != w.date ==> FileName(date, 0) !in w.disk
  {
    hide Contents, Flatten;
    forall name | name in w.disk
      ensures name.date < date || (name.date == date == w.date && name.no <= w.no)
    {
      var k :| 0 <= k < |w.created| && w.created[k] == name;
      assert k < |w.created| - 1 ==> Before(name, w.created[|w.created| - 1]);
    }
  }

  // ---------------------------------------------------------------------
  // The pipeline
  // ---------------------------------------------------------------------

  /** Front buffer, batches that calls of syncLoop have taken out of it and not yet queued, queue of batches, writer;
      with the history of messages pushed and batches written. */
  datatype Pipeline = Pipeline(front: seq<string>, hands: seq<seq<string>>, queue: seq<seq<string>>, writer: Writer,
                               stopFlag: bool, exited: bool, pushed: seq<string>, written: seq<seq<string>>)

  const FRESH_PIPELINE := Pipeline([], [], [], FRESH_WRITER, false, false, [], [])

  /** Swap and Deliver are the two critical sections of syncLoop, which the timer and flush may call at the same time;
      Write is one round of the writer. */
  datatype Step = Push(message: string) | Swap | Deliver(index: nat) | Write(date: nat) | Stop

  /** The writer waits while the queue is empty and is gone once it has seen the stop flag; the clock does
      not go back. */
  predicate Enabled(p: Pipeline, s: Step) {
    match s
    case Deliver(index) => index < |p.hands|
    case Write(date) => p.queue != [] && !p.exited && p.writer.date <= date
    case _ => true
  }

  function Take(p: Pipeline, s: Step, maxSize: int): Pipeline
    requires Usable(p.writer) && Enabled(p, s)
  {
    match s
    case Push(message) => p.(front := p.front + [message], pushed := p.pushed + [message])
    case Swap => if p.front == [] then p else p.(front := [], hands := p.hands + [p.front])
    case Deliver(k) => p.(hands := p.hands[..k] + p.hands[k + 1..], queue := p.queue + [p.hands[k]])
    case Write(date) =>
      p.(queue := p.queue[1..], writer := WriteBatch(p.writer, date, maxSize, p.queue[0]),
         written := p.written + [p.queue[0]], exited := p.stopFlag)
    case Stop => p.(stopFlag := true)
  }

  /** Everything pushed, where it is now. */
  ghost function Everything(p: Pipeline): seq<string> {
    Flatten(p.written) + Flatten(p.queue) + Flatten(p.hands) + p.front
  }

  ghost predicate BatchesFull(p: Pipeline) {
    (forall batch <- p.queue :: batch != []) && (forall batch <- p.hands :: batch != [])
  }

  ghost predicate Filed(p: Pipeline, maxSize: int, batchSize: nat) {
    && Usable(p.writer)
    && HoldsText(p.writer, Flatten(Flatten(p.written)))
    && SizesBounded(p.writer, maxSize, batchSize)
  }

  lemma StepFiled(p: Pipeline, s: Step, maxSize: int, batchSize: nat)
    requires Filed(p, maxSize, batchSize) && Enabled(p, s)
    requires s.Write? ==> |Flatten(p.queue[0])| <= batchSize
    ensures Filed(Take(p, s, maxSize), maxSize, batchSize)
  {
    hide HoldsText, SizesBounded, WriteBatch;
    if s.Write? {
      WriteHoldsText(p.writer, s.date, maxSize, p.queue[0], batchSize, Flatten(Flatten(p.written)));
      FlattenSnoc(p.written, p.queue[0]);
      FlattenAppend(Flatten(p.written), p.queue[0]);
    }
  }

  lemma StepBatchesFull(p: Pipeline, s: Step, maxSize: int)
    requires BatchesFull(p) && Usable(p.writer) && Enabled(p, s)
    ensures BatchesFull(Take(p, s, maxSize))
  {
    hide WriteBatch;
    var q := Take(p, s, maxSize);
    forall batch | batch in q.queue || batch in q.hands
      ensures batch in p.queue || batch in p.hands || batch == p.front != []
    {
    }
  }

  ghost function Arriving(s: Step): seq<string> {
    if s.Push? then [s.message] else []
  }

  /** A step moves messages on, and only a call of syncLoop that overtakes another one changes their order. */
  lemma StepKeepsOrder(p: Pipeline, s: Step, maxSize: int)
    requires Usable(p.writer) && Enabled(p, s) && (s.Deliver? ==> s.index == 0)
    ensures Everything(Take(p, s, maxSize)) == Everything(p) + Arriving(s)
  {
    hide WriteBatch, Flatten;
    var q := Take(p, s, maxSize);
    assert Everything(p) + [] == Everything(p);
    match s
    case Push(message) => Assoc(Flatten(p.written) + Flatten(p.queue) + Flatten(p.hands), p.front, [message]);
    case Swap => SwapMoves(p);
    case Deliver(k) =>
      DeliverMoves(p.queue, p.hands, 0);
      Assoc(Flatten(p.written), Flatten(p.queue), Flatten(p.hands));
      Assoc(Flatten(p.written), Flatten(q.queue), Flatten(q.hands));
    case Write(_) => WriteMoves(p.written, p.queue);
    case Stop =>
  }

  lemma SwapMoves(p: Pipeline)
    requires Usable(p.writer)
    ensures Everything(Take(p, Swap, 0)) == Everything(p)
  {
    hide Flatten;
    FlattenSnoc(p.hands, p.front);
    Assoc(Flatten(p.written) + Flatten(p.queue), Flatten(p.hands), p.front);
    assert Flatten(p.written) + Flatten(p.queue) + Flatten(p.hands + [p.front]) + []
        == Flatten(p.written) + Flatten(p.queue) + Flatten(p.hands + [p.front]);
  }

  lemma EverythingBag(p: Pipeline)
    ensures multiset(Everything(p))
      == multiset(Flatten(p.written)) + multiset(Flatten(p.queue)) + multiset(Flatten(p.hands)) + multiset(p.front)
  {
    hide Flatten;
  }

  lemma StepConserves(p: Pipeline, s: Step, maxSize: int)
    requires Usable(p.writer) && Enabled(p, s)
    ensures multiset(Everything(Take(p, s, maxSize))) == multiset(Everything(p)) + multiset(Arriving(s))
  {
    hide WriteBatch, Flatten;
    if s.Deliver? {
      DeliverMoves(p.queue, p.hands, s.index);
      var q := Take(p, s, maxSize);
      EverythingBag(p);
      EverythingBag(q);
      var same, front := multiset(Flatten(p.written)), multiset(p.front);
      var queue, hands := multiset(Flatten(p.queue)), multiset(Flatten(p.hands));
      var queue', hands' := multiset(Flatten(q.queue)), multiset(Flatten(q.hands));
      assert same + queue + hands + front == same + (queue + hands) + front;
      assert same + queue' + hands' + front == same + (queue' + hands') + front;
      assert multiset(Arriving(s)) == multiset{};
    } else {
      StepKeepsOrder(p, s, maxSize);
    }
  }

  lemma DeliverMoves(queue: seq<seq<string>>, hands: seq<seq<string>>, k: nat)
    requires k < |hands|
    ensures var rest := hands[..k] + hands[k + 1..];
      && multiset(Flatten(queue + [hands[k]])) + multiset(Flatten(rest))
        == multiset(Flatten(queue)) + multiset(Flatten(hands))
      && (k == 0 ==> Flatten(queue + [hands[k]]) + Flatten(rest) == Flatten(queue) + Flatten(hands))
  {
    hide Flatten;
    var early, batch, late := hands[..k], hands[k], hands[k + 1..];
    FlattenSnoc(queue, batch);
    FlattenAppend(early, late);
    FlattenNext(hands, k);
    assert hands == hands[..k + 1] + late;
    FlattenAppend(hands[..k + 1], late);
    Regroup(Flatten(queue), batch, Flatten(early), Flatten(late));
    if k == 0 {
      assert early == [];
      NothingFlat();
    }
  }

  lemma Regroup(queue: seq<string>, batch: seq<string>, early: seq<string>, late: seq<string>)
    ensures multiset(queue + batch) + multiset(early + late) == multiset(queue) + multiset(early + batch + late)
    ensures (queue + batch) + ([] + late) == queue + ([] + batch + late)
  {
  }

  lemma NothingFlat()
    ensures Flatten<string>([]) == [] && Flatten<char>([]) == "" && Flatten<seq<string>>([]) == []
  {
  }

  lemma WriteMoves(written: seq<seq<string>>, queue: seq<seq<string>>)
    requires queue != []
    ensures Flatten(written + [queue[0]]) + Flatten(queue[1..]) == Flatten(written) + Flatten(queue)
  {
    FlattenSnoc(written, queue[0]);
    assert Flatten(queue) == queue[0] + Flatten(queue[1..]);
  }

  /** A run in which every step is possible and no batch written is larger than batchSize. */
  ghost predicate Possible(p: Pipeline, ss: seq<Step>, maxSize: int, batchSize: nat)
    decreases |ss|
  {
    ss == []
    || (Usable(p.writer) && Enabled(p, ss[0]) && (ss[0].Write? ==> |Flatten(p.queue[0])| <= batchSize)
        && Possible(Take(p, ss[0], maxSize), ss[1..], maxSize, batchSize))
  }

  ghost function TakeAll(p: Pipeline, ss: seq<Step>, maxSize: int, batchSize: nat): Pipeline
    requires Possible(p, ss, maxSize, batchSize)
    decreases |ss|
  {
    if ss == [] then p else TakeAll(Take(p, ss[0], maxSize), ss[1..], maxSize, batchSize)
  }

  /** No call of syncLoop overtakes an earlier one. */
  predicate OldestFirst(ss: seq<Step>) {
    forall k :: 0 <= k < |ss| && ss[k].Deliver? ==> ss[k].index == 0
  }

  lemma {:induction false} RunFiled(p: Pipeline, ss: seq<Step>, maxSize: int, batchSize: nat)
    requires Filed(p, maxSize, batchSize) && BatchesFull(p) && Possible(p, ss, maxSize, batchSize)
    ensures Filed(TakeAll(p, ss, maxSize, batchSize), maxSize, batchSize)
    ensures BatchesFull(TakeAll(p, ss, maxSize, batchSize))
    decreases |ss|
  {
    hide Filed, Take, BatchesFull;
    if ss != [] {
      StepFiled(p, ss[0], maxSize, batchSize);
      StepBatchesFull(p, ss[0], maxSize);
      RunFiled(Take(p, ss[0], maxSize), ss[1..], maxSize, batchSize);
    }
  }

  lemma {:induction false} RunMoves(p: Pipeline, ss: seq<Step>, maxSize: int, batchSize: nat)
    requires multiset(Everything(p)) == multiset(p.pushed) && Possible(p, ss, maxSize, batchSize)
    ensures var q := TakeAll(p, ss, maxSize, batchSize);
      && multiset(Everything(q)) == multiset(q.pushed)
      && (OldestFirst(ss) && Everything(p) == p.pushed ==> Everything(q) == q.pushed)
    decreases |ss|
  {
    hide Everything, WriteBatch;
    if ss != [] {
      var q := Take(p, ss[0], maxSize);
      StepConserves(p, ss[0], maxSize);
      if OldestFirst(ss) && Everything(p) == p.pushed {
        StepKeepsOrder(p, ss[0], maxSize);
      }
      assert q.pushed == p.pushed + Arriving(ss[0]);
      RunMoves(q, ss[1..], maxSize, batchSize);
    }
  }

  /** Over every interleaving, starting without files and with a clock that does not go back: the messages written,
      those queued, those on the way to the queue and those in the front buffer are together the messages pushed, and
      in the same order unless calls of syncLoop overtake each other. The files, concatenated in the order of their
      names, hold exactly the text written, and each is at most the size limit plus one batch. */
  lemma LogPipeline(ss: seq<Step>, maxSize: int, batchSize: nat)
    requires Possible(FRESH_PIPELINE, ss, maxSize, batchSize)
    ensures var p := TakeAll(FRESH_PIPELINE, ss, maxSize, batchSize);
      && multiset(Everything(p)) == multiset(p.pushed)
      && (OldestFirst(ss) ==> Everything(p) == p.pushed && Flatten(p.written) <= p.pushed)
      && (forall i, j :: 0 <= i < j < |p.writer.created| ==> Before(p.writer.created[i], p.writer.created[j]))
      && (forall name :: name in p.writer.disk <==> name in p.writer.created)
      && Flatten(Contents(p.writer.disk, p.writer.created)) == Flatten(Flatten(p.written))
      && (forall name <- p.writer.disk :: |p.writer.disk[name]| <= Limit(maxSize) + batchSize)
  {
    hide TakeAll, Possible;
    NothingFlat();
    assert Everything(FRESH_PIPELINE) == [];
    assert Filed(FRESH_PIPELINE, maxSize, batchSize) && BatchesFull(FRESH_PIPELINE);
    RunFiled(FRESH_PIPELINE, ss, maxSize, batchSize);
    RunMoves(FRESH_PIPELINE, ss, maxSize, batchSize);
  }

  /** They can overtake each other: two calls swap one after the other and queue in the opposite order. */
  lemma SyncsOvertake(a: string, b: string, maxSize: int, batchSize: nat)
    ensures var ss := [Push(a), Swap, Push(b), Swap, Deliver(1), Deliver(0)];
      && Possible(FRESH_PIPELINE, ss, maxSize, batchSize)
      && TakeAll(FRESH_PIPELINE, ss, maxSize, batchSize).queue == [[b], [a]]
      && TakeAll(FRESH_PIPELINE, ss, maxSize, batchSize).pushed == [a, b]
  {
    hide Possible, TakeAll, WriteBatch;
    var start := FRESH_PIPELINE;
    var last := start.(queue := [[b], [a]], pushed := [a, b]);
    NoMore(last, maxSize, batchSize);
    First(start.(hands := [[a]], queue := [[b]], pushed := [a, b]), [Deliver(0)], [], last, maxSize, batchSize);
    var ss := [Deliver(1), Deliver(0)];
    First(start.(hands := [[a], [b]], pushed := [a, b]), ss, ss[1..],
          start.(hands := [[a]], queue := [[b]], pushed := [a, b]), maxSize, batchSize);
    ss := [Swap] + ss;
    First(start.(front := [b], hands := [[a]], pushed := [a, b]), ss, ss[1..],
          start.(hands := [[a], [b]], pushed := [a, b]), maxSize, batchSize);
    ss := [Push(b)] + ss;
    First(start.(hands := [[a]], pushed := [a]), ss, ss[1..],
          start.(front := [b], hands := [[a]], pushed := [a, b]), maxSize, batchSize);
    ss := [Swap] + ss;
    First(start.(front := [a], pushed := [a]), ss, ss[1..], start.(hands := [[a]], pushed := [a]), maxSize, batchSize);
    ss := [Push(a)] + ss;
    First(start, ss, ss[1..], start.(front := [a], pushed := [a]), maxSize, batchSize);
    assert ss == [Push(a), Swap, Push(b), Swap, Deliver(1), Deliver(0)];
  }

  lemma NoMore(p: Pipeline, maxSize: int, batchSize: nat)
    ensures Possible(p, [], maxSize, batchSize) && TakeAll(p, [], maxSize, batchSize) == p
  {
  }

  lemma First(p: Pipeline, ss: seq<Step>, rest: seq<Step>, q: Pipeline, maxSize: int, batchSize: nat)
    requires ss != [] && ss[1..] == rest && !ss[0].Write? && Usable(p.writer) && Enabled(p, ss[0])
    requires Take(p, ss[0], maxSize) == q && Possible(q, rest, maxSize, batchSize)
    ensures Possible(p, ss, maxSize, batchSize)
    ensures TakeAll(p, ss, maxSize, batchSize) == TakeAll(q, rest, maxSize, batchSize)
  {
  }

  /** The writer leaves only when it has been stopped, and from then on only after a batch. */
  lemma {:induction false} LeavesWhenStopped(p: Pipeline, ss: seq<Step>, maxSize: int, batchSize: nat)
    requires Possible(p, ss, maxSize, batchSize) && (p.exited ==> p.stopFlag)
    ensures var q := TakeAll(p, ss, maxSize, batchSize);
      && (q.stopFlag <==> p.stopFlag || Stop in ss) && (q.exited ==> q.stopFlag) && (p.exited ==> q.exited)
      && (p.stopFlag && !p.exited ==> (q.exited <==> |q.written| > |p.written|))
    decreases |ss|
  {
    hide WriteBatch;
    if ss != [] {
      LeavesWhenStopped(Take(p, ss[0], maxSize), ss[1..], maxSize, batchSize);
      assert ss == [ss[0]] + ss[1..];
      if p.stopFlag {
        StopWritesOne(Take(p, ss[0], maxSize), ss[1..], maxSize, batchSize);
      }
    }
  }

  /** After a stop at most one batch is written, the first one of the queue if there is one. */
  lemma {:induction false} StopWritesOne(p: Pipeline, ss: seq<Step>, maxSize: int, batchSize: nat)
    requires p.stopFlag && Possible(p, ss, maxSize, batchSize)
    ensures var written := TakeAll(p, ss, maxSize, batchSize).written;
      || written == p.written
      || (!p.exited && |written| == |p.written| + 1 && p.written <= written
          && (p.queue != [] ==> written == p.written + [p.queue[0]]))
    decreases |ss|
  {
    hide WriteBatch;
    if ss != [] {
      StopWritesOne(Take(p, ss[0], maxSize), ss[1..], maxSize, batchSize);
    }
  }

  /** What a stop loses: once syncLoop has queued everything, all of it is written if and only if there is at most one
      batch in the queue and the writer, if there is one, gets to it. */
  lemma StopLosesIff(p: Pipeline, ss: seq<Step>, maxSize: int, batchSize: nat)
    requires p.stopFlag && p.front == [] && p.hands == [] && Everything(p) == p.pushed && BatchesFull(p)
    requires Possible(p, ss, maxSize, batchSize)
    ensures var written := TakeAll(p, ss, maxSize, batchSize).written;
      && |written| <= |p.written| + 1
      && (p.pushed <= Flatten(written) <==> |p.queue| <= 1 && |written| >= |p.written| + |p.queue|)
  {
    hide TakeAll, Possible;
    StopWritesOne(p, ss, maxSize, batchSize);
    NothingFlat();
    var written := TakeAll(p, ss, maxSize, batchSize).written;
    assert p.pushed == Flatten(p.written) + Flatten(p.queue);
    if p.queue == [] {
      if written != p.written {
        assert written == p.written + [written[|p.written|]];
        FlattenSnoc(p.written, written[|p.written|]);
      }
    } else {
      FlattenSnoc(p.written, p.queue[0]);
      FullQueue(p.queue);
    }
  }

  lemma FullQueue(queue: seq<seq<string>>)
    requires queue != [] && forall batch <- queue :: batch != []
    ensures Flatten(queue) != [] && (|queue| == 1 ==> Flatten(queue) == queue[0])
    ensures |queue| > 1 ==> |Flatten(queue)| > |queue[0]|
  {
    assert queue[0] in queue;
    if |queue| == 1 {
      FlattenOne(queue[0]);
      assert queue == [queue[0]];
    } else {
      assert queue[1..][0] == queue[1] && queue[1] in queue;
      assert |Flatten(queue[1..])| >= |queue[1]|;
    }
  }

  // ---------------------------------------------------------------------
  // The classes
  // ---------------------------------------------------------------------

  class AsyncLogger {
    const maxFileSize: int
    var buffers: seq<seq<string>>
    var date: int
    var no: nat
    var fileHandler: Option<FileName>
    var reopenFlag: bool
    var stopFlag: bool
    var disk: map<FileName, string>     // the files behind the handles
    ghost var created: seq<FileName>

    ghost function State(): Writer
      reads this
    {
      Writer(date, no, fileHandler, reopenFlag, disk, created)
    }

    constructor (maxSize: int)
      ensures maxFileSize == maxSize && buffers == [] && !stopFlag && State() == FRESH_WRITER
    {
      maxFileSize, buffers, stopFlag := maxSize, [], false;
      date, no, fileHandler, reopenFlag, disk, created := -1, 0, None, false, map[], [];
    }

    method PushLogBuffer(batch: seq<string>)
      modifies this`buffers
      ensures buffers == old(buffers) + [batch]
    {
      buffers := buffers + [batch];
    }

    method StopLogger()
      modifies this`stopFlag
      ensures stopFlag
    {
      stopFlag := true;
    }

    method FileOpen(name: FileName)
      modifies this`fileHandler, this`disk, this`created, this`reopenFlag
      ensures State() == Open(old(State()), name)
    {
      if name !in disk {
        disk := disk[name := ""];
        created := created + [name];
      }
      fileHandler := Some(name);
      reopenFlag := false;
    }

    /** One round of the writer thread, which has been woken because the queue is not empty. */
    method LoopOnce(today: nat) returns (exit: bool)
      requires buffers != [] && Usable(State())
      modifies this
      ensures buffers == old(buffers)[1..] && exit == stopFlag == old(stopFlag)
      ensures State() == WriteBatch(old(State()), today, maxFileSize, old(buffers)[0])
    {
      hide Reopened, Rotated, Flatten;
      var tmp := buffers[0];
      buffers := buffers[1..];
      Reopen(today);
      Rotate(today);
      WriteAll(tmp);
      return stopFlag;
    }

    /** A new day starts a new series of files. */
    method Reopen(today: nat)
      requires Usable(State())
      modifies this`fileHandler, this`disk, this`created, this`reopenFlag, this`date, this`no
      ensures State() == Reopened(old(State()), today)
      ensures date == today && no == (if today != old(date) then 0 else old(no))
      ensures today != old(date) || old(fileHandler) == None ==> fileHandler == Some(FileName(today, no))
    {
      if today != date {
        reopenFlag := true;
        no := 0;
        date := today;
      }
      if fileHandler == None {
        reopenFlag := true;
      }
      if reopenFlag {
        FileOpen(FileName(today, no));
      }
    }

    method Rotate(today: nat)
      requires HasFile(State()) && date == today
      modifies this`fileHandler, this`disk, this`created, this`reopenFlag, this`no
      ensures State() == Rotated(old(State()), maxFileSize)
      ensures if old(|disk[fileHandler.value]|) > maxFileSize
              then no == old(no) + 1 && fileHandler == Some(FileName(today, no)) else State() == old(State())
    {
      if |disk[fileHandler.value]| > maxFileSize {
        no := no + 1;
        FileOpen(FileName(today, no));
      }
    }

    method WriteAll(tmp: seq<string>)
      requires HasFile(State())
      modifies this`disk
      ensures State() == Appended(old(State()), Flatten(tmp))
    {
      ghost var was := disk[fileHandler.value];
      assert was + Flatten(tmp[..0]) == was && disk == disk[fileHandler.value := was];
      for i := 0 to |tmp|
        invariant HasFile(State()) && disk == old(disk)[fileHandler.value := was + Flatten(tmp[..i])]
      {
        FlattenNext(tmp, i);
        assert (was + Flatten(tmp[..i])) + tmp[i] == was + Flatten(tmp[..i + 1]);
        assert tmp[i] == "" ==> was + Flatten(tmp[..i]) == was + Flatten(tmp[..i + 1]);
        if tmp[i] != "" {
          disk := disk[fileHandler.value := disk[fileHandler.value] + tmp[i]];
        }
      }
      assert tmp[..|tmp|] == tmp;
    }
  }

  class Logger {
    var buffers: seq<string>
    const asyncLogger: AsyncLogger

    constructor (asyncLogger: AsyncLogger)
      ensures buffers == [] && this.asyncLogger == asyncLogger
    {
      this.buffers, this.asyncLogger := [], asyncLogger;
    }

    method PushLog(message: string)
      modifies this`buffers
      ensures buffers == old(buffers) + [message]
    {
      buffers := buffers + [message];
    }

    /** An empty front buffer leaves the queue alone. */
    method SyncLoop()
      modifies this`buffers, asyncLogger`buffers
      ensures buffers == []
      ensures asyncLogger.buffers == old(asyncLogger.buffers) + (if old(buffers) == [] then [] else [old(buffers)])
    {
      var tmpVec := buffers;
      buffers := [];
      if tmpVec != [] {
        asyncLogger.PushLogBuffer(tmpVec);
      }
    }
  }
}
