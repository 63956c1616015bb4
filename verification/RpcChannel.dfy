/** The client side of one RPC call: connect, write, response and timeout, in any order. */
module RpcChannels {
  import opened ErrorCodes

  // ---------------------------------------------------------------------
  // The protocol as a step system
  // ---------------------------------------------------------------------

  type Id = string

  /** How far the call has come. Over: no more callbacks are registered. Broken: a null controller has
      been dereferenced, and nothing is known any more. */
  datatype Phase = Idle | Connecting | Sending | Awaiting | Over | Broken

  /** The channel knows its controller, the controller's flags, the history of closure runs, what can still happen,
      and the message ids of controller and request. */
  datatype Call = Call(initialised: bool, errorCode: int, failed: bool, canceled: bool, finished: bool, runs: nat,
                       phase: Phase, timerSet: bool, controllerId: Id, requestId: Id)

  function FreshCall(controllerId: Id): Call {
    Call(false, 0, false, false, false, 0, Idle, false, controllerId, "")
  }

  /** What CallMethod finds: whether controller and the other arguments are given, whether there is an address, the id
      of the running call if any, what the generator would return, and whether the request can be serialised. */
  datatype Arguments = Arguments(controllerGiven: bool, othersGiven: bool, addressOk: bool, runtimeId: Id,
                                 generatedId: Id, serialized: bool)

  datatype Event =
    | Initialise                   // Init
    | Start(arguments: Arguments)  // CallMethod
    | ConnectResult(code: int)
    | WriteDone
    | Response(parses: bool, errCode: int)
    | Timeout

  /** The order the source imposes: each callback registers the next one, and each runs once. */
  predicate Enabled(c: Call, e: Event) {
    match e
    case Initialise => c.phase == Idle
    case Start(_) => c.phase == Idle
    case ConnectResult(_) => c.phase == Connecting
    case WriteDone => c.phase == Sending
    case Response(_, _) => c.phase == Awaiting
    case Timeout => c.timerSet
  }

  function WithError(c: Call, code: int): Call {
    c.(errorCode := code, failed := true, finished := true)
  }

  function WithCancel(c: Call): Call {
    c.(canceled := true, finished := true)
  }

  /** Runs the closure unless the controller is already finished. */
  function AfterCallBack(c: Call): Call {
    if !c.initialised then c.(phase := Broken)
    else if c.finished then c
    else c.(runs := c.runs + 1, finished := true)
  }

  /** The call ends here. */
  function Ending(c: Call): Call {
    var after := AfterCallBack(c);
    if after.phase == Broken then after else after.(phase := Over)
  }

  /** An id set by the caller comes first, then the one of the running call, which is passed on. */
  function ChooseId(controllerId: Id, runtimeId: Id, generatedId: Id): Id {
    if controllerId != "" then controllerId else if runtimeId != "" then runtimeId else generatedId
  }

  function Started(c: Call, a: Arguments): Call {
    if !a.controllerGiven then c.(phase := Broken)
    else if !a.othersGiven || !a.addressOk then Ending(WithError(c, ERROR_RPC_CHANNEL_INIT_FAILED))
    else
      var id := ChooseId(c.controllerId, a.runtimeId, a.generatedId);
      var d := c.(controllerId := id, requestId := id);
      if !c.initialised then Ending(WithError(d, ERROR_RPC_CHANNEL_NOT_INIT))
      else if !a.serialized then Ending(WithError(d, ERROR_FAILED_SERIALIZE))
      else d.(phase := Connecting, timerSet := true)
  }

  function Step(c: Call, e: Event): Call {
    match e
    case Initialise => c.(initialised := true)
    case Start(arguments) => Started(c, arguments)
    case ConnectResult(code) => if code != 0 then Ending(WithError(c, code)) else c.(phase := Sending)
    case WriteDone => c.(phase := Awaiting)
    case Response(parses, errCode) =>
      if !parses then Ending(WithError(c, ERROR_FAILED_DESERIALIZE))
      else if errCode != 0 then Ending(WithError(c, errCode))
      else Ending(c)
    case Timeout =>
      if c.finished then c.(timerSet := false)
      else AfterCallBack(WithError(WithCancel(c), ERROR_RPC_CALL_TIMEOUT)).(timerSet := false)
  }

  ghost predicate Possible(c: Call, es: seq<Event>)
    decreases |es|
  {
    es == [] || (Enabled(c, es[0]) && Possible(Step(c, es[0]), es[1..]))
  }

  function Run(c: Call, es: seq<Event>): Call
    decreases |es|
  {
    if es == [] then c else Run(Step(c, es[0]), es[1..])
  }

  predicate Succeeds(e: Event) {
    e.Response? && e.parses && e.errCode == 0
  }

  /** Events after which the outcome of the call is decided. */
  predicate Terminal(initialised: bool, e: Event) {
    match e
    case Initialise => false
    case Start(a) => a.controllerGiven && !(a.othersGiven && a.addressOk && a.serialized && initialised)
    case ConnectResult(code) => code != 0
    case WriteDone => false
    case Response(_, _) => true
    case Timeout => true
  }

  /** The first terminal event is a successful response. */
  predicate FirstTerminalSucceeds(initialised: bool, es: seq<Event>)
    decreases |es|
  {
    es != []
    && (if Terminal(initialised, es[0]) then Succeeds(es[0])
        else FirstTerminalSucceeds(initialised || es[0].Initialise?, es[1..]))
  }

  predicate Decided(initialised: bool, es: seq<Event>)
    decreases |es|
  {
    es != [] && (Terminal(initialised, es[0]) || Decided(initialised || es[0].Initialise?, es[1..]))
  }

  /** CallMethod is called without a controller, or before Init. */
  predicate Misused(initialised: bool, es: seq<Event>)
    decreases |es|
  {
    es != []
    && (if es[0].Start? then !es[0].arguments.controllerGiven || !initialised
        else Misused(initialised || es[0].Initialise?, es[1..]))
  }

  /** Before the outcome is decided nothing has been reported. */
  predicate Undecided(c: Call) {
    && !c.finished && c.errorCode == 0 && c.runs == 0 && !c.failed && !c.canceled
    && (c.phase != Idle && c.phase != Broken ==> c.initialised) && (c.timerSet ==> c.phase != Idle && c.phase != Broken)
  }

  /** Afterwards the call is finished for exactly one reason; once the closure has run only the timer is left. */
  predicate Settled(c: Call, succeeded: bool) {
    && c.finished && c.phase != Idle && (c.initialised <==> c.phase != Broken) && (c.phase == Broken ==> !c.timerSet)
    && (if succeeded then c.runs == 1 && c.errorCode == 0 && !c.failed && c.phase == Over
        else c.runs == 0 && c.errorCode != 0 && c.failed)
  }

  lemma {:induction false} SettledStays(c: Call, es: seq<Event>, succeeded: bool)
    requires Settled(c, succeeded) && Possible(c, es)
    ensures Settled(Run(c, es), succeeded)
    decreases |es|
  {
    if es != [] {
      SettledStays(Step(c, es[0]), es[1..], succeeded);
    }
  }

  lemma {:induction false} RunFromUndecided(c: Call, es: seq<Event>)
    requires Undecided(c) && Possible(c, es)
    ensures if Decided(c.initialised, es) then Settled(Run(c, es), FirstTerminalSucceeds(c.initialised, es))
            else Undecided(Run(c, es))
    decreases |es|
  {
    if es != [] {
      var next := Step(c, es[0]);
      if Terminal(c.initialised, es[0]) {
        SettledStays(next, es[1..], Succeeds(es[0]));
      } else {
        RunFromUndecided(next, es[1..]);
      }
    }
  }

  /** Over every interleaving of Init, start, connect result, write, response and timeout: the closure runs at most
      once, and exactly when a successful response is the first terminal event; the controller is finished exactly
      when either the closure ran or the error code is not zero, and never both. The null controller of the channel is
      dereferenced exactly when CallMethod comes without a controller or before Init: the error code for the latter is
      set, but the report of it breaks. */
  lemma CompletionProtocol(controllerId: Id, es: seq<Event>)
    requires Possible(FreshCall(controllerId), es)
    ensures var c := Run(FreshCall(controllerId), es);
      && c.runs <= 1
      && (c.runs == 1 <==> FirstTerminalSucceeds(false, es))
      && (c.finished <==> Decided(false, es))
      && (c.finished <==> (c.runs == 1) != (c.errorCode != 0))
      && (c.failed <==> c.errorCode != 0) && !(c.runs == 1 && c.errorCode != 0)
      && (c.phase == Broken <==> Misused(false, es))
  {
    RunFromUndecided(FreshCall(controllerId), es);
    if !Decided(false, es) {
      UndecidedNeverSucceeds(false, es);
    }
    BrokenIffMisused(FreshCall(controllerId), es);
  }

  lemma {:induction false} UndecidedNeverSucceeds(initialised: bool, es: seq<Event>)
    requires !Decided(initialised, es)
    ensures !FirstTerminalSucceeds(initialised, es)
    decreases |es|
  {
    if es != [] {
      UndecidedNeverSucceeds(initialised || es[0].Initialise?, es[1..]);
    }
  }

  // ---------------------------------------------------------------------
  // The outcome by events
  // ---------------------------------------------------------------------

  /** The error code that an event reports, 0 for none. */
  function Reported(initialised: bool, finished: bool, e: Event): int {
    match e
    case Initialise => 0
    case Start(a) =>
      if !a.controllerGiven then 0
      else if !a.othersGiven || !a.addressOk then ERROR_RPC_CHANNEL_INIT_FAILED
      else if !initialised then ERROR_RPC_CHANNEL_NOT_INIT
      else if !a.serialized then ERROR_FAILED_SERIALIZE
      else 0
    case ConnectResult(code) => code
    case WriteDone => 0
    case Response(parses, errCode) => if parses then errCode else ERROR_FAILED_DESERIALIZE
    case Timeout => if finished then 0 else ERROR_RPC_CALL_TIMEOUT
  }

  /** The last error code reported. */
  function LastReported(code: int, initialised: bool, finished: bool, es: seq<Event>): int
    decreases |es|
  {
    if es == [] then code
    else
      var reported := Reported(initialised, finished, es[0]);
      LastReported(if reported != 0 then reported else code, initialised || es[0].Initialise?,
                   finished || Terminal(initialised, es[0]), es[1..])
  }

  /** A timeout finds the call unfinished. */
  predicate TimesOut(initialised: bool, finished: bool, es: seq<Event>)
    decreases |es|
  {
    es != []
    && ((es[0].Timeout? && !finished)
        || TimesOut(initialised || es[0].Initialise?, finished || Terminal(initialised, es[0]), es[1..]))
  }

  /** The timer runs from a successful start to its timeout. */
  predicate TimerRuns(running: bool, initialised: bool, es: seq<Event>)
    decreases |es|
  {
    if es == [] then running
    else TimerRuns(RunsAfter(running, initialised, es[0]), initialised || es[0].Initialise?, es[1..])
  }

  predicate RunsAfter(running: bool, initialised: bool, e: Event) {
    if e.Start? then e.arguments.controllerGiven && !Terminal(initialised, e) else running && !e.Timeout?
  }

  /** What the call waits for, given by the last event other than Init and timeouts. */
  function WaitsFor(phase: Phase, initialised: bool, es: seq<Event>): Phase
    decreases |es|
  {
    if es == [] then phase
    else WaitsFor(NextPhase(phase, initialised, es[0]), initialised || es[0].Initialise?, es[1..])
  }

  function NextPhase(phase: Phase, initialised: bool, e: Event): Phase {
    match e
    case Initialise => phase
    case Start(a) =>
      if !a.controllerGiven || !initialised then Broken
      else if a.othersGiven && a.addressOk && a.serialized then Connecting else Over
    case ConnectResult(code) => if code == 0 then Sending else Over
    case WriteDone => Awaiting
    case Response(_, _) => Over
    case Timeout => phase
  }

  predicate Consistent(c: Call) {
    && (c.phase == Idle || c.phase == Broken ==> !c.timerSet)
    && (c.phase != Idle && c.phase != Broken ==> c.initialised)
  }

  lemma ErrorStep(c: Call, e: Event)
    requires Consistent(c) && Enabled(c, e)
    ensures var d, reported := Step(c, e), Reported(c.initialised, c.finished, e);
      && d.finished == (c.finished || Terminal(c.initialised, e))
      && d.errorCode == (if reported != 0 then reported else c.errorCode)
      && d.canceled == (c.canceled || (e.Timeout? && !c.finished))
  {
    hide Started;
    if e.Start? {
      StartErrors(c, e.arguments);
    }
  }

  lemma StartErrors(c: Call, a: Arguments)
    requires c.phase == Idle && !c.timerSet
    ensures var d, reported := Started(c, a), Reported(c.initialised, c.finished, Start(a));
      && d.finished == (c.finished || Terminal(c.initialised, Start(a)))
      && d.errorCode == (if reported != 0 then reported else c.errorCode) && d.canceled == c.canceled
  {
  }

  lemma PhaseStep(c: Call, e: Event)
    requires Consistent(c) && Enabled(c, e)
    ensures var d := Step(c, e);
      && Consistent(d) && d.initialised == (c.initialised || e.Initialise?)
      && d.timerSet == RunsAfter(c.timerSet, c.initialised, e) && d.phase == NextPhase(c.phase, c.initialised, e)
  {
  }

  lemma {:induction false} RunOutcome(c: Call, es: seq<Event>)
    requires Consistent(c) && Possible(c, es)
    ensures var d := Run(c, es);
      && d.errorCode == LastReported(c.errorCode, c.initialised, c.finished, es)
      && d.canceled == (c.canceled || TimesOut(c.initialised, c.finished, es))
      && d.timerSet == TimerRuns(c.timerSet, c.initialised, es) && d.phase == WaitsFor(c.phase, c.initialised, es)
    decreases |es|
  {
    hide Step, Enabled, Consistent, Reported, Terminal, RunsAfter, NextPhase;
    if es != [] {
      ErrorStep(c, es[0]);
      PhaseStep(c, es[0]);
      RunOutcome(Step(c, es[0]), es[1..]);
    }
  }

  /** Over every interleaving, by event: the error code is the one last reported, 0 when there is none; the call is
      canceled exactly when a timeout finds it unfinished; the timer runs from a successful start to its timeout; and
      what the call waits for is given by the last event. */
  lemma OutcomeByEvents(controllerId: Id, es: seq<Event>)
    requires Possible(FreshCall(controllerId), es)
    ensures var c := Run(FreshCall(controllerId), es);
      && c.errorCode == LastReported(0, false, false, es)
      && (c.canceled <==> TimesOut(false, false, es))
      && (c.timerSet <==> TimerRuns(false, false, es))
      && c.phase == WaitsFor(Idle, false, es)
  {
    RunOutcome(FreshCall(controllerId), es);
  }

  /** CallMethod has been called, and the channel knows its controller unless a null one has been dereferenced. */
  predicate Underway(c: Call) {
    c.phase != Idle && (if c.phase == Broken then !c.timerSet else c.initialised)
  }

  lemma UnderwayStep(c: Call, e: Event)
    requires Underway(c) && Enabled(c, e)
    ensures var d := Step(c, e);
      && Underway(d) && !e.Start? && (d.phase == Broken <==> c.phase == Broken) && (c.phase == Over ==> d.phase == Over)
      && d.controllerId == c.controllerId && d.requestId == c.requestId
  {
  }

  lemma IdleStep(c: Call, e: Event)
    requires c.phase == Idle && !c.timerSet && Enabled(c, e)
    ensures Step(c, e).initialised == (c.initialised || e.Initialise?)
    ensures !e.Start? ==> Step(c, e) == c.(initialised := true)
    ensures e.Start? ==>
      var a, d := e.arguments, Step(c, e);
      && Underway(d) && (d.phase == Broken <==> !a.controllerGiven || !c.initialised)
      && (d.phase != Broken && d.phase != Over ==>
            && d.requestId == d.controllerId
            && d.requestId == (if c.controllerId != "" then c.controllerId
                               else if a.runtimeId != "" then a.runtimeId else a.generatedId))
  {
  }

  lemma {:induction false} BrokenIffMisused(c: Call, es: seq<Event>)
    requires c.phase == Idle && !c.timerSet && Possible(c, es)
    ensures Run(c, es).phase == Broken <==> Misused(c.initialised, es)
    decreases |es|
  {
    hide Step, Enabled;
    if es != [] {
      var next := Step(c, es[0]);
      IdleStep(c, es[0]);
      if es[0].Start? {
        StartedStays(next, es[1..]);
      } else {
        BrokenIffMisused(next, es[1..]);
      }
    }
  }

  /** Once CallMethod has been called it is not called again, and ids and breakage stay as they are. */
  lemma {:induction false} StartedStays(c: Call, es: seq<Event>)
    requires Underway(c) && Possible(c, es)
    ensures var after := Run(c, es);
      && Underway(after) && (after.phase == Broken <==> c.phase == Broken) && (c.phase == Over ==> after.phase == Over)
      && after.controllerId == c.controllerId && after.requestId == c.requestId
    ensures forall k :: 0 <= k < |es| ==> !es[k].Start?
    decreases |es|
  {
    hide Step, Enabled, Underway;
    if es != [] {
      UnderwayStep(c, es[0]);
      StartedStays(Step(c, es[0]), es[1..]);
      assert forall k :: 0 < k < |es| ==> es[k] == es[1..][k - 1];
    }
  }

  /** A request that goes out carries the id of its controller: the one set by the caller, else the one of the
      running call, else a generated one. */
  lemma {:induction false} RequestCarriesId(c: Call, es: seq<Event>, k: nat)
    requires c.phase == Idle && !c.timerSet && Possible(c, es) && k < |es| && es[k].Start?
    ensures var after, a := Run(c, es), es[k].arguments;
      after.phase == Connecting || after.phase == Sending || after.phase == Awaiting ==>
        && after.requestId == after.controllerId
        && after.requestId == (if c.controllerId != "" then c.controllerId
                               else if a.runtimeId != "" then a.runtimeId else a.generatedId)
    decreases |es|
  {
    hide Step, Enabled, Underway;
    var next := Step(c, es[0]);
    IdleStep(c, es[0]);
    assert k > 0 ==> es[1..][k - 1] == es[k];
    if es[0].Start? {
      StartedStays(next, es[1..]);
    } else {
      RequestCarriesId(next, es[1..], k - 1);
    }
  }

  // ---------------------------------------------------------------------
  // The classes
  // ---------------------------------------------------------------------

  class RpcController {
    var errorCode: int
    var errorInfo: string
    var msgId: Id
    var isFailed: bool
    var isCanceled: bool
    var isFinished: bool

    constructor ()
      ensures errorCode == 0 && errorInfo == "" && msgId == "" && !isFailed && !isCanceled && !isFinished
    {
      errorCode, errorInfo, msgId, isFailed, isCanceled, isFinished := 0, "", "", false, false, false;
    }

    method SetError(code: int, info: string)
      modifies this`errorCode, this`errorInfo, this`isFailed, this`isFinished
      ensures errorCode == code && errorInfo == info && isFailed && isFinished
    {
      errorCode, errorInfo := code, info;
      isFailed, isFinished := true, true;
    }

    method StartCancel()
      modifies this`isCanceled, this`isFinished
      ensures isCanceled && isFinished
    {
      isCanceled, isFinished := true, true;
    }

    method SetMsgId(id: Id)
      modifies this`msgId
      ensures msgId == id
    {
      msgId := id;
    }

    method SetFinished(finished: bool)
      modifies this`isFinished
      ensures isFinished == finished
    {
      isFinished := finished;
    }
  }

  class RpcChannel {
    const controller: RpcController   // the controller of the call, which the channel knows once it is initialised
    var isInit: bool
    var phase: Phase
    var timerSet: bool
    var requestId: Id                 // the message id of the request object
    ghost var runs: nat               // how often the closure has run

    ghost function State(): Call
      reads this, controller
    {
      Call(isInit, controller.errorCode, controller.isFailed, controller.isCanceled, controller.isFinished, runs, phase,
           timerSet, controller.msgId, requestId)
    }

    constructor (controller: RpcController)
      requires controller.errorCode == 0 && !controller.isFailed && !controller.isCanceled && !controller.isFinished
      ensures this.controller == controller && State() == FreshCall(controller.msgId)
    {
      this.controller, isInit, phase, timerSet, requestId, runs := controller, false, Idle, false, "", 0;
    }

    /** A second initialisation is ignored. */
    method Init()
      requires Enabled(State(), Initialise)
      modifies this`isInit
      ensures State() == Step(old(State()), Initialise)
    {
      if !isInit {
        isInit := true;
      }
    }

    method CallBack()
      modifies this`runs, this`phase, controller`isFinished
      ensures State() == AfterCallBack(old(State()))
    {
      if !isInit {
        phase := Broken;
        return;
      }
      if controller.isFinished {
        return;
      }
      runs := runs + 1;
      controller.SetFinished(true);
    }

    /** Reports an error and ends the call. */
    method Fail(code: int, info: string)
      modifies this`runs, this`phase, controller
      ensures State() == Ending(WithError(old(State()), code)) && controller.errorInfo == info
    {
      controller.SetError(code, info);
      CallBack();
      if phase != Broken {
        phase := Over;
      }
    }

    method CallMethod(a: Arguments)
      requires Enabled(State(), Start(a))
      modifies this, controller
      ensures State() == Step(old(State()), Start(a))
      ensures controller.errorInfo ==
        if !a.controllerGiven then old(controller.errorInfo)
        else if !a.othersGiven then "controller or request or response NULL"
        else if !a.addressOk then "failed get peer addr"
        else if !isInit then "RpcChannel not inited"
        else if !a.serialized then "failed to serialize request"
        else old(controller.errorInfo)
    {
      if !a.controllerGiven {
        phase := Broken;
        return;
      }
      if !a.othersGiven {
        Fail(ERROR_RPC_CHANNEL_INIT_FAILED, "controller or request or response NULL");
        return;
      }
      if !a.addressOk {
        Fail(ERROR_RPC_CHANNEL_INIT_FAILED, "failed get peer addr");
        return;
      }
      if controller.msgId == "" {
        if a.runtimeId != "" {
          requestId := a.runtimeId;
          controller.SetMsgId(a.runtimeId);
        } else {
          requestId := a.generatedId;
          controller.SetMsgId(requestId);
        }
      } else {
        requestId := controller.msgId;
      }
      if !isInit {
        Fail(ERROR_RPC_CHANNEL_NOT_INIT, "RpcChannel not inited");
        return;
      }
      if !a.serialized {
        Fail(ERROR_FAILED_SERIALIZE, "failed to serialize request");
        return;
      }
      timerSet := true;
      phase := Connecting;
    }

    /** The argument is the timeout in ms, in decimal. */
    method OnTimeout(timeout: string)
      requires Enabled(State(), Timeout)
      modifies this, controller
      ensures State() == Step(old(State()), Timeout)
      ensures controller.errorInfo ==
        if old(controller.isFinished) then old(controller.errorInfo) else "rpc call timeout " + timeout + "ms"
    {
      timerSet := false;
      if controller.isFinished {
        return;
      }
      controller.StartCancel();
      controller.SetError(ERROR_RPC_CALL_TIMEOUT, "rpc call timeout " + timeout + "ms");
      CallBack();
    }

    method OnConnect(code: int, message: string)
      requires Enabled(State(), ConnectResult(code))
      modifies this, controller
      ensures State() == Step(old(State()), ConnectResult(code))
      ensures controller.errorInfo == if code != 0 then message else old(controller.errorInfo)
    {
      if code != 0 {
        Fail(code, message);
        return;
      }
      phase := Sending;
    }

    method OnWritten()
      requires Enabled(State(), WriteDone)
      modifies this`phase
      ensures State() == Step(old(State()), WriteDone)
    {
      phase := Awaiting;
    }

    method OnResponse(parses: bool, errCode: int, errInfo: string)
      requires Enabled(State(), Response(parses, errCode))
      modifies this, controller
      ensures State() == Step(old(State()), Response(parses, errCode))
      ensures controller.errorInfo ==
        if !parses then "failed deserialize response" else if errCode != 0 then errInfo else old(controller.errorInfo)
    {
      if !parses {
        Fail(ERROR_FAILED_DESERIALIZE, "failed deserialize response");
        return;
      }
      if errCode != 0 {
        Fail(errCode, errInfo);
        return;
      }
      CallBack();
      if phase != Broken {
        phase := Over;
      }
    }
  }
}
