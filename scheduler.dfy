/** The browser's event scheduler: a queue of synchronous DOM events
    (focus, blur, click), a queue of asynchronous tasks, and a lock count,
    drained by one loop that always takes a synchronous event first. A unit
    that reports "exit" stops the drain and keeps the lock. The dispatcher
    turns `beitem` elements into tasks and runs handler attributes, setting
    the document's current event while a handler runs.

    The interpreter is an oracle: given the function name and the number of
    handlers it has run so far, it says whether the handler returned true,
    false or threw, whether it reset the queue (a page transition does), and
    which events it queued. Units run one after another to completion. */
module Events {
  import opened Common
  import HandlerSyntax

  /** A DOM element as the scheduler sees it: an identity and its attributes. */
  datatype Node = Node(id: nat, attributes: map<string, string>)

  /** `getAttribute`: the value, or nothing when the attribute is absent. */
  function GetAttribute(n: Node, name: string): (v: Option<string>)
    ensures v.Some? <==> name in n.attributes
    ensures v.Some? ==> v.value == n.attributes[name]
  {
    if name in n.attributes then Some(n.attributes[name]) else None
  }

  datatype SyncKind = Focus | Blur | Click

  datatype SyncEvent = SyncEvent(kind: SyncKind, target: Node)

  /** A queued callback: one made by the dispatcher for a `beitem`, or one
      queued by script code, known by an identifier. */
  datatype AsyncTask =
    | BeventTask(eventType: string, beitem: Node, status: int, moduleRef: string, onoccur: string)
    | Callback(id: nat)

  /** One entry taken off a queue. */
  datatype Unit = SyncUnit(event: SyncEvent) | AsyncUnit(task: AsyncTask)

  /** `document.currentEvent` while a handler runs. */
  datatype BmlEvent =
    | BmlEvent(eventType: string, target: nat)
    | BeventEvent(eventType: string, target: nat, status: int, moduleRef: string)

  /** How a handler or unit ended: it returned a boolean, or it threw. */
  datatype Completion = Returned(value: bool) | Raised

  /** What running one handler did. */
  datatype Reaction = Reaction(
    result: Completion,
    resetQueue: bool,
    queuedSync: seq<SyncEvent>,
    queuedAsync: seq<AsyncTask>)

  /** `runEventHandler(funcName)` and the script callbacks, answered from
      the name (or callback id) and the number of handlers run so far. */
  datatype Interpreter = Interpreter(
    runEventHandler: (string, nat) -> Reaction,
    runCallback: (nat, nat) -> Reaction)

  /** The fields of the queue, and the interpreter's run count. */
  datatype QueueFields = QueueFields(
    sync: seq<SyncEvent>,
    async: seq<AsyncTask>,
    lock: int,
    timers: set<int>,
    runs: nat)

  /** The queue together with the document's current event. */
  datatype Scheduler = Scheduler(q: QueueFields, currentEvent: Option<BmlEvent>)

  /** `resetEventQueue` on the fields. */
  function ResetQueue(q: QueueFields): (r: QueueFields)
    ensures r.sync == [] && r.async == [] && r.lock == 0 && r.timers == {} && r.runs == q.runs
  {
    QueueFields([], [], 0, {}, q.runs)
  }

  /** The effect of one handler on the queue: a reset if it made one, then
      the events it queued, at the tails. */
  function Apply(q: QueueFields, r: Reaction): (q': QueueFields)
    ensures q'.runs == q.runs + 1
    ensures !r.resetQueue ==>
              && q'.sync == q.sync + r.queuedSync && q'.async == q.async + r.queuedAsync
              && q'.lock == q.lock && q'.timers == q.timers
    ensures r.resetQueue ==>
              && q'.sync == r.queuedSync && q'.async == r.queuedAsync
              && q'.lock == 0 && q'.timers == {}
  {
    var q1 := if r.resetQueue then ResetQueue(q) else q;
    q1.(sync := q1.sync + r.queuedSync, async := q1.async + r.queuedAsync, runs := q.runs + 1)
  }

  /** `executeEventHandler`: a handler that is not `name()` with optional
      white space and `;` throws before anything runs; otherwise the named
      function runs. The blank-handler pattern checked first matches
      nothing (`HandlerSyntax.BlankPatternNeverMatches`), so it adds no case. */
  function Execute(q: QueueFields, handler: string, interp: Interpreter): (QueueFields, Completion) {
    match HandlerSyntax.FunctionName(handler)
    case None => (q, Raised)
    case Some(name) =>
      var reaction := interp.runEventHandler(name, q.runs);
      (Apply(q, reaction), reaction.result)
  }

  /** An attribute outside the handler grammar throws before anything runs;
      one inside it runs the function its `funcName` group names. */
  lemma ExecuteFollowsGrammar(q: QueueFields, handler: string, interp: Interpreter)
    ensures HandlerSyntax.Parse(handler).None? ==> Execute(q, handler, interp) == (q, Raised)
    ensures HandlerSyntax.Parse(handler).Some? ==>
              var reaction := interp.runEventHandler(HandlerSyntax.Parse(handler).value.funcName, q.runs);
              Execute(q, handler, interp) == (Apply(q, reaction), reaction.result)
  {
    HandlerSyntax.FunctionNameIsGroup(handler);
  }

  function KindName(k: SyncKind): string {
    match k
    case Focus => "focus"
    case Blur => "blur"
    case Click => "click"
  }

  function HandlerAttribute(k: SyncKind): string {
    match k
    case Focus => "onfocus"
    case Blur => "onblur"
    case Click => "onclick"
  }

  /** `dispatchFocus`, `dispatchBlur` and `dispatchClick`: the event becomes
      current; a non-empty handler attribute runs; the event is cleared
      unless the handler returned true or threw. */
  function Dispatch(s: Scheduler, e: SyncEvent, interp: Interpreter): (r: (Scheduler, Completion))
    ensures r.1 == Returned(false) <==> r.0.currentEvent == None
    ensures r.1 != Returned(false) ==> r.0.currentEvent == Some(BmlEvent(KindName(e.kind), e.target.id))
    ensures GetAttribute(e.target, HandlerAttribute(e.kind)) in {None, Some("")} ==> r == (s.(currentEvent := None), Returned(false))
  {
    var current := Some(BmlEvent(KindName(e.kind), e.target.id));
    var handler := GetAttribute(e.target, HandlerAttribute(e.kind));
    if handler.Some? && handler.value != "" then
      var (q', c) := Execute(s.q, handler.value, interp);
      if c == Returned(false) then (Scheduler(q', None), c) else (Scheduler(q', current), c)
    else
      (s.(currentEvent := None), Returned(false))
  }

  /** A queued task: a `beitem` task makes its bevent current, runs
      `onoccur`, and clears the current event only when the handler returned
      false; a script callback runs as the interpreter says. */
  function TaskOutcome(s: Scheduler, t: AsyncTask, interp: Interpreter): (r: (Scheduler, Completion))
    ensures t.BeventTask? ==> (r.1 == Returned(false) <==> r.0.currentEvent == None)
    ensures t.BeventTask? && r.1 != Returned(false) ==>
              r.0.currentEvent == Some(BeventEvent(t.eventType, t.beitem.id, t.status, t.moduleRef))
    ensures t.Callback? ==> r.0.currentEvent == s.currentEvent
  {
    match t
    case BeventTask(eventType, beitem, status, moduleRef, onoccur) =>
      var current := Some(BeventEvent(eventType, beitem.id, status, moduleRef));
      var (q', c) := Execute(s.q, onoccur, interp);
      if c == Returned(false) then (Scheduler(q', None), c) else (Scheduler(q', current), c)
    case Callback(id) =>
      var reaction := interp.runCallback(id, s.q.runs);
      (s.(q := Apply(s.q, reaction)), reaction.result)
  }

  function RunUnit(s: Scheduler, u: Unit, interp: Interpreter): (Scheduler, Completion) {
    match u
    case SyncUnit(e) => Dispatch(s, e, interp)
    case AsyncUnit(t) => TaskOutcome(s, t, interp)
  }

  predicate Pending(q: QueueFields) {
    q.sync != [] || q.async != []
  }

  /** The unit the loop takes next: the head of the sync queue if there is
      one, and only otherwise the head of the async queue. */
  function Head(q: QueueFields): (u: Unit)
    requires Pending(q)
    ensures q.sync != [] ==> u == SyncUnit(q.sync[0])
    ensures q.sync == [] ==> u == AsyncUnit(q.async[0])
  {
    if q.sync != [] then SyncUnit(q.sync[0]) else AsyncUnit(q.async[0])
  }

  /** The queue once the loop has locked it and shifted the head off. */
  function Take(q: QueueFields): (q': QueueFields)
    requires Pending(q)
    ensures q'.lock == q.lock + 1 && q'.timers == q.timers && q'.runs == q.runs
    ensures q.sync != [] ==> q'.sync == q.sync[1..] && q'.async == q.async
    ensures q.sync == [] ==> q'.sync == [] && q'.async == q.async[1..]
  {
    if q.sync != [] then q.(sync := q.sync[1..], lock := q.lock + 1)
    else q.(async := q.async[1..], lock := q.lock + 1)
  }

  /** One turn of the loop: lock, shift the head off, run it. */
  function Step(s: Scheduler, interp: Interpreter): (Scheduler, Completion)
    requires Pending(s.q)
  {
    RunUnit(s.(q := Take(s.q)), Head(s.q), interp)
  }

  /** The `finally` after a unit that did not exit. */
  function Unlocked(s: Scheduler): (r: Scheduler)
    ensures r.q == s.q.(lock := s.q.lock - 1) && r.currentEvent == s.currentEvent
  {
    s.(q := s.q.(lock := s.q.lock - 1))
  }

  /** How `processEventQueue` ends: it returned false or true, it threw,
      or the model's bound on the number of units ran out. */
  datatype DrainEnd = Finished(exit: bool) | Threw | OutOfFuel

  /** The state after a drain, the units it ran, in order, and its end. */
  datatype DrainRun = DrainRun(s: Scheduler, ran: seq<Unit>, end: DrainEnd)

  /** `processEventQueue`, running at most `fuel` units. A unit that does
      not exit is followed by `unlockSyncEventQueue`, which throws when the
      count goes below zero. */
  function Drain(s: Scheduler, interp: Interpreter, fuel: nat): (r: DrainRun)
    ensures |r.ran| <= fuel
    decreases fuel
  {
    if !Pending(s.q) || s.q.lock != 0 then DrainRun(s, [], Finished(false))
    else if fuel == 0 then DrainRun(s, [], OutOfFuel)
    else
      var u := Head(s.q);
      var (after, c) := Step(s, interp);
      if c == Returned(true) then DrainRun(after, [u], Finished(true))
      else
        var unlocked := Unlocked(after);
        if c == Raised || unlocked.q.lock < 0 then DrainRun(unlocked, [u], Threw)
        else
          var rest := Drain(unlocked, interp, fuel - 1);
          DrainRun(rest.s, [u] + rest.ran, rest.end)
  }

  /** A drain that finds nothing to do or the lock taken ends at once. */
  lemma DrainStops(s: Scheduler, interp: Interpreter, fuel: nat)
    requires !Pending(s.q) || s.q.lock != 0
    ensures Drain(s, interp, fuel) == DrainRun(s, [], Finished(false))
  {
  }

  /** A drain with work to do and no fuel left ends for want of fuel. */
  lemma FuelLeft(s: Scheduler, interp: Interpreter, fuel: nat)
    requires Pending(s.q) && s.q.lock == 0
    requires Drain(s, interp, fuel).end != OutOfFuel
    ensures fuel > 0
  {
  }

  /** A drain run preceded by the units `ran` already ran. */
  function After(ran: seq<Unit>, r: DrainRun): DrainRun {
    DrainRun(r.s, ran + r.ran, r.end)
  }

  lemma AfterAppend(ran: seq<Unit>, u: Unit, r: DrainRun)
    ensures After(ran, DrainRun(r.s, [u] + r.ran, r.end)) == After(ran + [u], r)
  {
    assert ran + ([u] + r.ran) == (ran + [u]) + r.ran;
  }

  /** One turn of `Drain`, stated over what the turn gave. */
  lemma DrainTurn(s: Scheduler, interp: Interpreter, fuel: nat, after: Scheduler, c: Completion)
    requires Pending(s.q) && s.q.lock == 0 && fuel > 0
    requires (after, c) == Step(s, interp)
    ensures c == Returned(true) ==> Drain(s, interp, fuel) == DrainRun(after, [Head(s.q)], Finished(true))
    ensures c != Returned(true) && (c == Raised || after.q.lock < 1) ==>
              Drain(s, interp, fuel) == DrainRun(Unlocked(after), [Head(s.q)], Threw)
    ensures c != Returned(true) && c != Raised && after.q.lock >= 1 ==>
              var rest := Drain(Unlocked(after), interp, fuel - 1);
              Drain(s, interp, fuel) == DrainRun(rest.s, [Head(s.q)] + rest.ran, rest.end)
  {
  }

  /** A turn that returns false leaves the lock one higher than before or
      at 0, and leaves no event current unless one already was. */
  lemma StepReturningFalse(s: Scheduler, interp: Interpreter)
    requires Pending(s.q)
    requires Step(s, interp).1 == Returned(false)
    ensures Step(s, interp).0.q.lock in {s.q.lock + 1, 0}
    ensures s.currentEvent == None ==> Step(s, interp).0.currentEvent == None
  {
    RunUnitLockBound(s.(q := Take(s.q)), Head(s.q), interp);
  }

  /** No handler the interpreter runs resets the queue. */
  ghost predicate NeverResets(interp: Interpreter) {
    && (forall name, n :: !interp.runEventHandler(name, n).resetQueue)
    && (forall id, n :: !interp.runCallback(id, n).resetQueue)
  }

  /** Without a reset, a handler leaves the lock and the timers as they
      were and only appends to the queues. */
  lemma ExecuteWithoutReset(q: QueueFields, handler: string, interp: Interpreter)
    requires NeverResets(interp)
    ensures var q' := Execute(q, handler, interp).0;
            q'.lock == q.lock && q'.timers == q.timers && q.sync <= q'.sync && q.async <= q'.async
  {
    var name := HandlerSyntax.FunctionName(handler);
    if name.Some? {
      assert !interp.runEventHandler(name.value, q.runs).resetQueue;
    }
  }

  lemma DispatchWithoutReset(s: Scheduler, e: SyncEvent, interp: Interpreter)
    requires NeverResets(interp)
    ensures var q' := Dispatch(s, e, interp).0.q;
            && q'.lock == s.q.lock && q'.timers == s.q.timers
            && s.q.sync <= q'.sync && s.q.async <= q'.async
  {
    var handler := GetAttribute(e.target, HandlerAttribute(e.kind));
    if handler.Some? && handler.value != "" {
      ExecuteWithoutReset(s.q, handler.value, interp);
    }
  }

  lemma TaskWithoutReset(s: Scheduler, t: AsyncTask, interp: Interpreter)
    requires NeverResets(interp)
    ensures var q' := TaskOutcome(s, t, interp).0.q;
            && q'.lock == s.q.lock && q'.timers == s.q.timers
            && s.q.sync <= q'.sync && s.q.async <= q'.async
  {
    match t
    case BeventTask(_, _, _, _, onoccur) =>
      ExecuteWithoutReset(s.q, onoccur, interp);
    case Callback(id) =>
      assert !interp.runCallback(id, s.q.runs).resetQueue;
  }

  /** The same for a whole unit. */
  lemma RunUnitWithoutReset(s: Scheduler, u: Unit, interp: Interpreter)
    requires NeverResets(interp)
    ensures var q' := RunUnit(s, u, interp).0.q;
            && q'.lock == s.q.lock && q'.timers == s.q.timers
            && s.q.sync <= q'.sync && s.q.async <= q'.async
  {
    match u
    case SyncUnit(e) => DispatchWithoutReset(s, e, interp);
    case AsyncUnit(t) => TaskWithoutReset(s, t, interp);
  }

  /** A unit either leaves the lock as it found it or resets it to zero. */
  lemma RunUnitLockBound(s: Scheduler, u: Unit, interp: Interpreter)
    ensures RunUnit(s, u, interp).0.q.lock in {s.q.lock, 0}
  {
  }

  /** A drain that returns false from an unlocked queue leaves both queues
      empty and the lock released; every unit that returned false cleared
      the current event it had set, so no event is left current. */
  lemma {:induction false} NormalDrainEmpties(s: Scheduler, interp: Interpreter, fuel: nat)
    requires s.q.lock == 0
    requires Drain(s, interp, fuel).end == Finished(false)
    ensures var r := Drain(s, interp, fuel);
            && !Pending(r.s.q) && r.s.q.lock == 0
            && (s.currentEvent == None ==> r.s.currentEvent == None)
    decreases fuel
  {
    if !Pending(s.q) {
      DrainStops(s, interp, fuel);
    } else {
      FuelLeft(s, interp, fuel);
      var next := NormalTurn(s, interp, fuel);
      NormalDrainEmpties(next, interp, fuel - 1);
    }
  }

  /** The first turn of a drain that returns false: it returned false and
      the drain goes on from the unlocked state `next`. */
  lemma NormalTurn(s: Scheduler, interp: Interpreter, fuel: nat) returns (next: Scheduler)
    requires s.q.lock == 0 && Pending(s.q) && fuel > 0
    requires Drain(s, interp, fuel).end == Finished(false)
    ensures next.q.lock == 0
    ensures s.currentEvent == None ==> next.currentEvent == None
    ensures var rest := Drain(next, interp, fuel - 1);
            Drain(s, interp, fuel) == DrainRun(rest.s, [Head(s.q)] + rest.ran, rest.end)
  {
    var (after, c) := Step(s, interp);
    DrainTurn(s, interp, fuel, after, c);
    assert c == Returned(false) && after.q.lock >= 1;
    StepReturningFalse(s, interp);
    next := Unlocked(after);
  }

  /** The first turn of a drain whose handlers never reset the queue: it
      ends the drain holding the lock once or releasing it, or the drain
      goes on from the unlocked state `next`. */
  lemma NoResetTurn(s: Scheduler, interp: Interpreter, fuel: nat) returns (next: Scheduler)
    requires s.q.lock == 0 && Pending(s.q) && fuel > 0 && NeverResets(interp)
    ensures next.q.lock == 0
    ensures var r := Drain(s, interp, fuel);
            var rest := Drain(next, interp, fuel - 1);
            || (r.end == Finished(true) && r.s.q.lock == 1 && r.ran != [])
            || (r.end == Threw && r.s.q.lock == 0)
            || r == DrainRun(rest.s, [Head(s.q)] + rest.ran, rest.end)
  {
    RunUnitWithoutReset(s.(q := Take(s.q)), Head(s.q), interp);
    var (after, c) := Step(s, interp);
    assert after.q.lock == 1;
    DrainTurn(s, interp, fuel, after, c);
    next := Unlocked(after);
  }

  /** With an interpreter that never resets the queue: an exit leaves the
      lock one higher than before, and a throw leaves it released. */
  lemma {:induction false} ExitKeepsLock(s: Scheduler, interp: Interpreter, fuel: nat)
    requires s.q.lock == 0 && NeverResets(interp)
    ensures var r := Drain(s, interp, fuel);
            && (r.end == Finished(true) ==> r.s.q.lock == 1 && r.ran != [])
            && (r.end == Threw ==> r.s.q.lock == 0)
    decreases fuel
  {
    if Pending(s.q) && fuel > 0 {
      var next := NoResetTurn(s, interp, fuel);
      ExitKeepsLock(next, interp, fuel - 1);
    }
  }

  /** An exit returns at once: the lock stays taken and the entries behind
      the exiting unit stay queued, with what the handler queued after them. */
  lemma ExitLeavesRestQueued(s: Scheduler, interp: Interpreter, fuel: nat)
    requires s.q.lock == 0 && Pending(s.q) && fuel > 0 && NeverResets(interp)
    requires Step(s, interp).1 == Returned(true)
    ensures var r := Drain(s, interp, fuel);
            && r.end == Finished(true) && r.ran == [Head(s.q)] && r.s.q.lock == 1
            && Take(s.q).sync <= r.s.q.sync && Take(s.q).async <= r.s.q.async
  {
    RunUnitWithoutReset(s.(q := Take(s.q)), Head(s.q), interp);
    var (after, c) := Step(s, interp);
    DrainTurn(s, interp, fuel, after, c);
  }

  /** A sync event that a running async task queues is taken before the
      next async task: it is the next unit the drain runs. */
  lemma SyncQueuedByTaskRunsNext(s: Scheduler, interp: Interpreter, fuel: nat)
    requires s.q.lock == 0 && s.q.sync == [] && s.q.async != [] && fuel >= 2
    requires NeverResets(interp)
    requires Step(s, interp).1 == Returned(false) && Step(s, interp).0.q.sync != []
    ensures var r := Drain(s, interp, fuel);
            && |r.ran| >= 2 && r.ran[0] == AsyncUnit(s.q.async[0])
            && r.ran[1] == SyncUnit(Step(s, interp).0.q.sync[0])
  {
    RunUnitWithoutReset(s.(q := Take(s.q)), Head(s.q), interp);
    var (after, c) := Step(s, interp);
    DrainTurn(s, interp, fuel, after, c);
    var next := Unlocked(after);
    assert next.q.lock == 0 && Pending(next.q);
    var (after2, c2) := Step(next, interp);
    DrainTurn(next, interp, fuel - 1, after2, c2);
    var rest := Drain(next, interp, fuel - 1);
    assert rest.ran[0] == SyncUnit(after.q.sync[0]);
  }

  /** A drain that finds the lock taken dequeues nothing and changes nothing. */
  lemma LockedDrainIsNoOp(s: Scheduler, interp: Interpreter, fuel: nat)
    requires s.q.lock != 0
    ensures Drain(s, interp, fuel) == DrainRun(s, [], Finished(false))
  {
  }

  /** A unit that resets the queue (a page transition) and then returns
      false, run from an unlocked queue, makes the unlock after it throw and
      leaves the count at -1; every later drain, whatever has been queued
      meanwhile, then returns false without running anything until the next
      reset. */
  lemma ResetThenFalseStallsQueue(s: Scheduler, interp: Interpreter, fuel: nat, after: Scheduler,
                                  later: Scheduler, laterFuel: nat)
    requires Pending(s.q) && s.q.lock == 0 && fuel > 0
    requires Step(s, interp) == (after, Returned(false)) && after.q.lock == 0
    requires later.q.lock == Unlocked(after).q.lock
    ensures Drain(s, interp, fuel) == DrainRun(Unlocked(after), [Head(s.q)], Threw)
    ensures Unlocked(after).q.lock == -1
    ensures Drain(later, interp, laterFuel) == DrainRun(later, [], Finished(false))
  {
    DrainTurn(s, interp, fuel, after, Returned(false));
    LockedDrainIsNoOp(later, interp, laterFuel);
  }

  /** Such a unit exists: an async callback whose reaction resets the
      queue and returns false. */
  lemma ResetThenFalseExample(fuel: nat)
    requires fuel > 0
    ensures var interp := Interpreter((name, n) => Reaction(Returned(false), true, [], []),
                                      (id, n) => Reaction(Returned(false), true, [], []));
            var s := Scheduler(QueueFields([], [Callback(0)], 0, {}, 0), None);
            var r := Drain(s, interp, fuel);
            && Step(s, interp).1 == Returned(false) && Step(s, interp).0.q.lock == 0
            && r.end == Threw && r.s.q.lock == -1 && r.ran == [AsyncUnit(Callback(0))]
  {
  }


  /** `subscribe="subscribe"`. */
  predicate Subscribed(b: Node) {
    GetAttribute(b, "subscribe") == Some("subscribe")
  }

  /** `module_ref?.toLowerCase() === module.toLowerCase()`; a missing
      `module_ref` never matches. */
  predicate RefersTo(b: Node, moduleName: string) {
    var ref := GetAttribute(b, "module_ref");
    ref.Some? && Lower(ref.value) == Lower(moduleName)
  }

  /** The `onoccur` attribute when present and non-empty. */
  function Onoccur(b: Node): (h: Option<string>)
    ensures h.Some? <==> "onoccur" in b.attributes && b.attributes["onoccur"] != ""
  {
    var h := GetAttribute(b, "onoccur");
    if h.Some? && h.value != "" then h else None
  }

  /** The task queued for `b`, if any: `module` is the module name for
      ModuleLocked/ModuleUpdated (checked against `module_ref`), and absent
      for DataButtonPressed, whose bevent has status 0 and an empty module. */
  function TaskFor(eventType: string, moduleName: Option<string>, status: int, b: Node): (t: Option<AsyncTask>)
    ensures t.Some? <==>
              Subscribed(b) && (moduleName.Some? ==> RefersTo(b, moduleName.value)) && Onoccur(b).Some?
    ensures t.Some? ==> t.value == BeventTask(eventType, b, status, if moduleName.Some? then moduleName.value else "", Onoccur(b).value)
  {
    if !Subscribed(b) then None
    else if moduleName.Some? && !RefersTo(b, moduleName.value) then None
    else
      match Onoccur(b)
      case None => None
      case Some(h) => Some(BeventTask(eventType, b, status, if moduleName.Some? then moduleName.value else "", h))
  }

  /** The tasks for a list of beitems, in document order. */
  function Tasks(eventType: string, moduleName: Option<string>, status: int, items: seq<Node>): seq<AsyncTask> {
    if items == [] then []
    else
      var t := TaskFor(eventType, moduleName, status, items[|items| - 1]);
      Tasks(eventType, moduleName, status, items[..|items| - 1]) + (if t.Some? then [t.value] else [])
  }

  /** The dispatcher's walk over the beitems of one type: each matching
      beitem gets its task queued and then a drain. The drain's promise is
      not awaited, so a drain that throws does not stop the walk. */
  function AfterBeitems(s: Scheduler, eventType: string, moduleName: Option<string>, status: int,
                         items: seq<Node>, interp: Interpreter, fuel: nat): Scheduler
  {
    if items == [] then s
    else
      var s1 := AfterBeitems(s, eventType, moduleName, status, items[..|items| - 1], interp, fuel);
      match TaskFor(eventType, moduleName, status, items[|items| - 1])
      case None => s1
      case Some(t) => Drain(s1.(q := s1.q.(async := s1.q.async + [t])), interp, fuel).s
  }

  /** While the queue is locked (a handler is running), the walk queues
      exactly one task per matching beitem, in document order, and runs
      none of them. */
  lemma {:induction false} LockedNotifyQueuesTasks(s: Scheduler, eventType: string, moduleName: Option<string>,
                                                   status: int, items: seq<Node>, interp: Interpreter, fuel: nat)
    requires s.q.lock != 0
    ensures AfterBeitems(s, eventType, moduleName, status, items, interp, fuel)
            == s.(q := s.q.(async := s.q.async + Tasks(eventType, moduleName, status, items)))
    decreases |items|
  {
    if items != [] {
      var init := items[..|items| - 1];
      LockedNotifyQueuesTasks(s, eventType, moduleName, status, init, interp, fuel);
      var s1 := AfterBeitems(s, eventType, moduleName, status, init, interp, fuel);
      match TaskFor(eventType, moduleName, status, items[|items| - 1])
      case None =>
        assert Tasks(eventType, moduleName, status, items) == Tasks(eventType, moduleName, status, init) + [];
      case Some(t) =>
        var s2 := s1.(q := s1.q.(async := s1.q.async + [t]));
        LockedDrainIsNoOp(s2, interp, fuel);
        assert s.q.async + Tasks(eventType, moduleName, status, init) + [t]
            == s.q.async + Tasks(eventType, moduleName, status, items);
    }
  }

  lemma HasMember(s: set<int>)
    requires s != {}
    ensures exists x :: x in s
  {
    assert (forall x :: x !in s) ==> s == {};
  }

  /** The event queue; `runs` stands for the interpreter's own state. */
  class EventQueue {
    var syncEventQueue: seq<SyncEvent>
    var asyncEventQueue: seq<AsyncTask>
    var syncEventQueueLockCount: int
    var timerHandles: set<int>
    var runs: nat
    const interpreter: Interpreter

    ghost function Fields(): QueueFields
      reads this
    {
      QueueFields(syncEventQueue, asyncEventQueue, syncEventQueueLockCount, timerHandles, runs)
    }

    constructor(interpreter: Interpreter)
      ensures Fields() == QueueFields([], [], 0, {}, 0)
      ensures this.interpreter == interpreter
    {
      syncEventQueue := [];
      asyncEventQueue := [];
      syncEventQueueLockCount := 0;
      timerHandles := {};
      runs := 0;
      this.interpreter := interpreter;
    }

    method QueueSyncEvent(e: SyncEvent)
      modifies this
      ensures Fields() == old(Fields()).(sync := old(syncEventQueue) + [e])
    {
      syncEventQueue := syncEventQueue + [e];
    }

    method QueueAsyncEvent(t: AsyncTask)
      modifies this
      ensures Fields() == old(Fields()).(async := old(asyncEventQueue) + [t])
    {
      asyncEventQueue := asyncEventQueue + [t];
    }

    method LockSyncEventQueue()
      modifies this
      ensures Fields() == old(Fields()).(lock := old(syncEventQueueLockCount) + 1)
    {
      syncEventQueueLockCount := syncEventQueueLockCount + 1;
    }

    /** Decrements the count; throws when it goes below zero, leaving it there. */
    method UnlockSyncEventQueue() returns (threw: bool)
      modifies this
      ensures Fields() == old(Fields()).(lock := old(syncEventQueueLockCount) - 1)
      ensures threw <==> syncEventQueueLockCount < 0
    {
      syncEventQueueLockCount := syncEventQueueLockCount - 1;
      threw := syncEventQueueLockCount < 0;
    }

    /** Empties both queues, clears every registered timer and the set, and
      releases the lock. Returns the handles passed to `clearInterval`. */
    method ResetEventQueue() returns (cleared: set<int>)
      modifies this
      ensures Fields() == ResetQueue(old(Fields()))
      ensures cleared == old(timerHandles)
    {
      asyncEventQueue := [];
      syncEventQueue := [];
      cleared := {};
      var rest := timerHandles;
      while rest != {}
        invariant cleared + rest == old(timerHandles) && cleared !! rest
        invariant Fields() == old(Fields()).(sync := [], async := [])
        decreases rest
      {
        HasMember(rest);
        var h :| h in rest;
        cleared := cleared + {h};
        rest := rest - {h};
      }
      timerHandles := {};
      syncEventQueueLockCount := 0;
    }

    /** `handle` is what `window.setTimeout` returned. */
    method BmlSetTimeout(handle: int) returns (h: int)
      modifies this
      ensures h == handle
      ensures Fields() == old(Fields()).(timers := old(timerHandles) + {handle})
    {
      timerHandles := timerHandles + {handle};
      h := handle;
    }

    /** `handle` is what `window.setInterval` returned. */
    method BmlSetInterval(handle: int) returns (h: int)
      modifies this
      ensures h == handle
      ensures Fields() == old(Fields()).(timers := old(timerHandles) + {handle})
    {
      timerHandles := timerHandles + {handle};
      h := handle;
    }

    method BmlClearInterval(handle: int)
      modifies this
      ensures Fields() == old(Fields()).(timers := old(timerHandles) - {handle})
    {
      timerHandles := timerHandles - {handle};
    }

    /** Applies what one handler did to the queue. */
    method React(r: Reaction)
      modifies this
      ensures Fields() == Apply(old(Fields()), r)
    {
      if r.resetQueue {
        var _ := ResetEventQueue();
      }
      syncEventQueue := syncEventQueue + r.queuedSync;
      asyncEventQueue := asyncEventQueue + r.queuedAsync;
      runs := runs + 1;
    }

    method ExecuteEventHandler(handler: string) returns (c: Completion)
      modifies this
      ensures (Fields(), c) == Execute(old(Fields()), handler, interpreter)
    {
      var name := HandlerSyntax.FunctionName(handler);
      if name.None? {
        return Raised;
      }
      var reaction := interpreter.runEventHandler(name.value, runs);
      React(reaction);
      c := reaction.result;
    }

    method RunCallback(id: nat) returns (c: Completion)
      modifies this
      ensures Fields() == Apply(old(Fields()), interpreter.runCallback(id, old(runs)))
      ensures c == interpreter.runCallback(id, old(runs)).result
    {
      var reaction := interpreter.runCallback(id, runs);
      React(reaction);
      c := reaction.result;
    }

    /** One turn of the loop up to the `finally`: lock, shift the head of
      the sync queue if there is one, else of the async queue, and run it. */
    method RunNextUnit(dispatcher: EventDispatcher) returns (c: Completion)
      requires dispatcher.eventQueue == this
      requires syncEventQueue != [] || asyncEventQueue != []
      modifies this, dispatcher
      ensures Pending(old(dispatcher.State()).q)
      ensures (dispatcher.State(), c) == Step(old(dispatcher.State()), interpreter)
    {
      ghost var before := dispatcher.State();
      LockSyncEventQueue();
      if syncEventQueue != [] {
        var e := syncEventQueue[0];
        syncEventQueue := syncEventQueue[1..];
        assert dispatcher.State() == before.(q := Take(before.q));
        c := dispatcher.DispatchSyncEvent(e);
      } else {
        var t := asyncEventQueue[0];
        asyncEventQueue := asyncEventQueue[1..];
        assert dispatcher.State() == before.(q := Take(before.q));
        c := dispatcher.RunTask(t);
      }
    }

    /** `processEventQueue`, with the dispatch functions bound to the queue
      given as `dispatcher` and at most `fuel` units run. */
    method ProcessEventQueue(dispatcher: EventDispatcher, fuel: nat) returns (end: DrainEnd, ghost ran: seq<Unit>)
      requires dispatcher.eventQueue == this
      modifies this, dispatcher
      ensures DrainRun(dispatcher.State(), ran, end) == Drain(old(dispatcher.State()), interpreter, fuel)
    {
      ghost var s0 := dispatcher.State();
      var left: nat := fuel;
      ran := [];
      while syncEventQueue != [] || asyncEventQueue != []
        invariant left <= fuel
        invariant Drain(s0, interpreter, fuel) == After(ran, Drain(dispatcher.State(), interpreter, left))
        decreases left
      {
        ghost var before := dispatcher.State();
        if syncEventQueueLockCount != 0 {
          DrainStops(before, interpreter, left);
          return Finished(false), ran;
        }
        if left == 0 {
          return OutOfFuel, ran;
        }
        var c := RunNextUnit(dispatcher);
        ghost var after := dispatcher.State();
        DrainTurn(before, interpreter, left, after, c);
        ghost var u := Head(before.q);
        if c == Returned(true) {
          ran := ran + [u];
          return Finished(true), ran;
        }
        var threw := UnlockSyncEventQueue();
        assert dispatcher.State() == Unlocked(after);
        if c == Raised || threw {
          ran := ran + [u];
          return Threw, ran;
        }
        assert after.q.lock >= 1;
        ghost var rest := Drain(Unlocked(after), interpreter, left - 1);
        assert Drain(before, interpreter, left) == DrainRun(rest.s, [u] + rest.ran, rest.end);
        AfterAppend(ran, u, rest);
        ran := ran + [u];
        left := left - 1;
      }
      DrainStops(dispatcher.State(), interpreter, left);
      end := Finished(false);
    }
  }

  /** The dispatcher; `currentEvent` is the document's current event. */
  class EventDispatcher {
    const eventQueue: EventQueue
    var currentEvent: Option<BmlEvent>

    ghost function State(): Scheduler
      reads this, eventQueue
    {
      Scheduler(eventQueue.Fields(), currentEvent)
    }

    constructor(eventQueue: EventQueue)
      ensures this.eventQueue == eventQueue && currentEvent == None
    {
      this.eventQueue := eventQueue;
      currentEvent := None;
    }

    /** `dispatchFocus`, `dispatchBlur` and `dispatchClick`. */
    method DispatchSyncEvent(e: SyncEvent) returns (c: Completion)
      modifies this, eventQueue
      ensures (State(), c) == Dispatch(old(State()), e, eventQueue.interpreter)
    {
      currentEvent := Some(BmlEvent(KindName(e.kind), e.target.id));
      var handler := GetAttribute(e.target, HandlerAttribute(e.kind));
      if handler.Some? && handler.value != "" {
        c := eventQueue.ExecuteEventHandler(handler.value);
        if c != Returned(false) {
          return;
        }
      }
      currentEvent := None;
      c := Returned(false);
    }

    /** Runs one queued task. */
    method RunTask(t: AsyncTask) returns (c: Completion)
      modifies this, eventQueue
      ensures (State(), c) == TaskOutcome(old(State()), t, eventQueue.interpreter)
    {
      match t
      case BeventTask(eventType, beitem, status, moduleRef, onoccur) =>
        currentEvent := Some(BeventEvent(eventType, beitem.id, status, moduleRef));
        c := eventQueue.ExecuteEventHandler(onoccur);
        if c == Returned(false) {
          currentEvent := None;
        }
      case Callback(id) =>
        c := eventQueue.RunCallback(id);
    }

    /** The walk shared by the three beitem entry points. */
    method NotifyBeitems(eventType: string, moduleName: Option<string>, status: int, items: seq<Node>, fuel: nat)
      modifies this, eventQueue
      ensures State() == AfterBeitems(old(State()), eventType, moduleName, status, items, eventQueue.interpreter, fuel)
    {
      var i := 0;
      while i < |items|
        invariant 0 <= i <= |items|
        invariant State() == AfterBeitems(old(State()), eventType, moduleName, status, items[..i], eventQueue.interpreter, fuel)
      {
        assert items[..i + 1][..i] == items[..i];
        var t := TaskFor(eventType, moduleName, status, items[i]);
        if t.Some? {
          eventQueue.QueueAsyncEvent(t.value);
          var _, _ := eventQueue.ProcessEventQueue(this, fuel);
        }
        i := i + 1;
      }
      assert items[..i] == items;
    }

    /** `eventQueueOnModuleLocked`; `items` are the ModuleLocked beitems in
      document order. */
    method EventQueueOnModuleLocked(moduleName: string, status: int, items: seq<Node>, fuel: nat)
      modifies this, eventQueue
      ensures State() == AfterBeitems(old(State()), "ModuleLocked", Some(moduleName), status, items, eventQueue.interpreter, fuel)
    {
      NotifyBeitems("ModuleLocked", Some(moduleName), status, items, fuel);
    }

    method EventQueueOnModuleUpdated(moduleName: string, status: int, items: seq<Node>, fuel: nat)
      modifies this, eventQueue
      ensures State() == AfterBeitems(old(State()), "ModuleUpdated", Some(moduleName), status, items, eventQueue.interpreter, fuel)
    {
      NotifyBeitems("ModuleUpdated", Some(moduleName), status, items, fuel);
    }

    method DispatchDataButtonPressed(items: seq<Node>, fuel: nat)
      modifies this, eventQueue
      ensures State() == AfterBeitems(old(State()), "DataButtonPressed", None, 0, items, eventQueue.interpreter, fuel)
    {
      NotifyBeitems("DataButtonPressed", None, 0, items, fuel);
    }
  }
}
