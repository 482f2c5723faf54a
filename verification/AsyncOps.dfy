/**
 The asynchronous data-plane operations behind the C interface, as an interleaving transition system.
 Every step is atomic: a table access, a lock of one operation's state, or a move of the usage lock.
 Removing an operation from the table and changing its state are separate steps.
 */
module AsyncOps {
  import opened Prelude

  type Thread = nat
  type Instance = nat

  datatype Kind = TcpConnect | TcpBind | TcpAccept | TcpRead | TcpWrite | UdpBind | UdpSendTo | UdpRecvFrom

  /** The kinds whose finish call takes the usage lock and turns the result into a data-plane handle. */
  predicate Opens(kind: Kind) {
    kind == TcpConnect || kind == TcpBind || kind == TcpAccept || kind == UdpBind
  }

  datatype Outcome = Outcome(kind: Kind, instance: Instance)

  datatype OpState = Pending | Ready(outcome: Outcome) | Failed | Consumed

  predicate Completed(state: OpState) {
    state.Ready? || state.Failed?
  }

  /**
   An operation, kept alive by the tasks that refer to it. `task` is what the spawned task will yield if it
   succeeds, fixed by the start call that spawns it. `registered` says that it is still in the operation table.
   `claimedBy` and `delivered` record who removed it and what a caller received.
   */
  datatype Op = Op(
    kind: Kind,
    instance: Instance,
    task: Option<Outcome>,
    cancelled: bool,
    state: OpState,
    registered: bool,
    claimedBy: Option<Thread>,
    delivered: Option<Outcome>)

  /** A data-plane handle and the operation it came from, if any. */
  datatype Entry = Entry(instance: Instance, origin: Option<nat>)

  /** Everything the threads share: the operations, the handle table and the usage lock. */
  datatype World = World(
    ops: map<nat, Op>,
    handles: map<nat, Entry>,
    readers: set<Thread>,
    writer: Option<Thread>)

  /** Where a thread stands between two atomic steps of a call. */
  datatype Pc =
    | Idle
    | Starting(kind: Kind, instance: Instance)
    | Spawning(op: nat, kind: Kind, instance: Instance)
    | Finishing(op: nat, kind: Kind)
    | Claimed(op: nat, kind: Kind)
    | Delivering(op: nat, kind: Kind, outcome: Outcome)
    | FellThrough
    | Opening(instance: Instance)
    | Releasing
    | Looking(op: nat)
    | Told(handle: nat, code: int)
    | Freed(op: nat)
    | HasWrite(ids: set<Instance>)
    | Removing(ids: set<Instance>, todo: set<nat>)
    | RemovedOp(ids: set<Instance>, todo: set<nat>, op: nat)

  datatype Action =
    | BeginStart(kind: Kind, instance: Instance)
    | NewOp(h: nat)
    | Spawn
    | BeginFinish(h: nat, kind: Kind)
    | RemoveIf
    | TakeState
    | Deliver(written: bool, id: nat)
    | BeginOpen(instance: Instance)
    | InsertHandle(id: nat)
    | Release
    | LookUp(h: nat)
    | ReadState
    | RemoveForFree(h: nat)
    | ConsumeFreed
    | AcquireWrite(ids: set<Instance>)
    | DropHandles
    | RemoveNext(h: nat)
    | ConsumeRemoved
    | ReleaseWrite

  /** What happens from outside: a task completes, a pending operation is cancelled, a handle is closed. */
  datatype Event =
    | Complete(h: nat, ok: bool)
    | CancelPending(h: nat)
    | CloseHandle(id: nat)

  // ----- Status codes -----

  const OP_PENDING := 0
  const OP_READY := 1
  const OP_FAILED := -1
  const OP_INVALID := -2

  function StateStatus(state: OpState): int {
    match state
    case Pending => OP_PENDING
    case Ready(_) => OP_READY
    case Failed => OP_FAILED
    case Consumed => OP_INVALID
  }

  // ----- Atomic steps -----

  predicate InTable(w: World, h: nat) {
    h in w.ops && w.ops[h].registered
  }

  function Unregister(w: World, h: nat, t: Thread): World
    requires h in w.ops
  {
    w.(ops := w.ops[h := w.ops[h].(registered := false, claimedBy := Some(t))])
  }

  function Consume(w: World, h: nat): World
    requires h in w.ops
  {
    w.(ops := w.ops[h := w.ops[h].(state := Consumed)])
  }

  function CancelAndConsume(w: World, h: nat): World
    requires h in w.ops
  {
    w.(ops := w.ops[h := w.ops[h].(cancelled := true, state := Consumed)])
  }

  function Belonging(w: World, ids: set<Instance>): set<nat> {
    set h | h in w.ops && w.ops[h].registered && w.ops[h].instance in ids
  }

  /** One step of thread `t` at `pc`: the new world and where the thread stands then. */
  function Act(w: World, t: Thread, pc: Pc, a: Action): Option<(World, Pc)> {
    match (pc, a)
    // start calls: under the usage lock, register a new operation
    case (Idle, BeginStart(kind, instance)) =>
      if w.writer.Some? then None else Some((w.(readers := w.readers + {t}), Starting(kind, instance)))
    case (Starting(kind, instance), NewOp(h)) =>
      if h in w.ops then None
      else Some((w.(ops := w.ops[h := Op(kind, instance, None, false, Pending, true, None, None)]), Spawning(h, kind, instance)))
    case (Spawning(h, kind, instance), Spawn) =>
      if h !in w.ops then None
      else Some((w.(ops := w.ops[h := w.ops[h].(task := Some(Outcome(kind, instance)))]), Releasing))
    // finish calls
    case (Idle, BeginFinish(h, kind)) =>
      if !Opens(kind) then Some((w, Finishing(h, kind)))
      else if w.writer.Some? then None
      else Some((w.(readers := w.readers + {t}), Finishing(h, kind)))
    case (Finishing(h, kind), RemoveIf) =>
      if InTable(w, h) && w.ops[h].kind == kind && Completed(w.ops[h].state) then Some((Unregister(w, h, t), Claimed(h, kind)))
      else Some((w, Releasing))
    case (Claimed(h, kind), TakeState) =>
      if h !in w.ops then None
      else
        (match w.ops[h].state
         case Ready(outcome) => Some((Consume(w, h), Delivering(h, kind, outcome)))
         case Failed => Some((Consume(w, h), Releasing))
         case _ => Some((Consume(w, h), FellThrough)))
    case (Delivering(h, kind, outcome), Deliver(written, id)) =>
      if h !in w.ops || id in w.handles then None
      else
        var w1 := w.(ops := w.ops[h := w.ops[h].(delivered := Some(outcome))]);
        Some((if Opens(kind) && outcome.kind == kind && written then w1.(handles := w1.handles[id := Entry(outcome.instance, Some(h))]) else w1,
              Releasing))
    // blocking calls that open a handle without an operation
    case (Idle, BeginOpen(instance)) =>
      if w.writer.Some? then None else Some((w.(readers := w.readers + {t}), Opening(instance)))
    case (Opening(instance), InsertHandle(id)) =>
      if id in w.handles then None else Some((w.(handles := w.handles[id := Entry(instance, None)]), Releasing))
    case (Opening(_), Release) => Some((w.(readers := w.readers - {t}), Idle))
    case (Releasing, Release) => Some((w.(readers := w.readers - {t}), Idle))
    // status and wait: one access to the table, then one lock of the state
    case (Idle, LookUp(h)) =>
      Some((w, if InTable(w, h) then Looking(h) else Told(h, OP_INVALID)))
    case (Looking(h), ReadState) =>
      if h in w.ops then Some((w, Told(h, StateStatus(w.ops[h].state)))) else None
    case (Told(_, _), Release) => Some((w, Idle))
    case (FellThrough, Release) => Some((w.(readers := w.readers - {t}), Idle))
    // free
    case (Idle, RemoveForFree(h)) =>
      if InTable(w, h) then Some((Unregister(w, h, t), Freed(h))) else Some((w, Idle))
    case (Freed(h), ConsumeFreed) =>
      if h in w.ops then Some((CancelAndConsume(w, h), Idle)) else None
    // teardown of instances
    case (Idle, AcquireWrite(ids)) =>
      if w.readers == {} && w.writer.None? && ids != {} then Some((w.(writer := Some(t)), HasWrite(ids))) else None
    case (HasWrite(ids), DropHandles) =>
      Some((w.(handles := map id | id in w.handles && w.handles[id].instance !in ids :: w.handles[id]), Removing(ids, Belonging(w, ids))))
    case (Removing(ids, todo), RemoveNext(h)) =>
      if h !in todo then None
      else if InTable(w, h) then Some((Unregister(w, h, t), RemovedOp(ids, todo - {h}, h)))
      else Some((w, Removing(ids, todo - {h})))
    case (RemovedOp(ids, todo, h), ConsumeRemoved) =>
      if h in w.ops then Some((CancelAndConsume(w, h), Removing(ids, todo))) else None
    case (Removing(ids, todo), ReleaseWrite) =>
      if todo == {} then Some((w.(writer := None), Idle)) else None
    case _ => None
  }

  /** The operation that a step writes to, if any. */
  function Touched(pc: Pc, a: Action): Option<nat> {
    match (pc, a)
    case (Starting(_, _), NewOp(h)) => Some(h)
    case (Spawning(h, _, _), Spawn) => Some(h)
    case (Finishing(h, _), RemoveIf) => Some(h)
    case (Claimed(h, _), TakeState) => Some(h)
    case (Delivering(h, _, _), Deliver(_, _)) => Some(h)
    case (Idle, RemoveForFree(h)) => Some(h)
    case (Freed(h), ConsumeFreed) => Some(h)
    case (Removing(_, _), RemoveNext(h)) => Some(h)
    case (RemovedOp(_, _, h), ConsumeRemoved) => Some(h)
    case _ => None
  }

  lemma UntouchedStays(w: World, t: Thread, pc: Pc, a: Action, w': World, pc': Pc, h: nat)
    requires Act(w, t, pc, a) == Some((w', pc')) && Touched(pc, a) != Some(h)
    ensures h in w.ops <==> h in w'.ops
    ensures h in w.ops ==> w'.ops[h] == w.ops[h]
  {}

  function Happen(w: World, e: Event): Option<World> {
    match e
    case Complete(h, ok) =>
      if h !in w.ops || w.ops[h].task.None? then None
      else if !w.ops[h].state.Pending? then Some(w)
      else
        var state := if ok then Ready(w.ops[h].task.value) else Failed;
        Some(w.(ops := w.ops[h := w.ops[h].(state := state)]))
    case CancelPending(h) =>
      if h !in w.ops then None
      else
        var op := w.ops[h].(cancelled := true);
        Some(w.(ops := w.ops[h := if op.state.Pending? then op.(state := Failed) else op]))
    case CloseHandle(id) =>
      Some(w.(handles := w.handles - {id}))
  }

  // ----- Invariants of the world -----

  /** Registered operations are unclaimed and not consumed; only the consumed can have been delivered. */
  predicate OpOk(op: Op) {
    && (op.registered ==> op.claimedBy.None? && !op.state.Consumed?)
    && (!op.registered ==> op.claimedBy.Some?)
    && (op.task.Some? ==> op.task.value == Outcome(op.kind, op.instance))
    && (op.state.Ready? ==> op.state.outcome == Outcome(op.kind, op.instance))
    && (op.delivered.Some? ==> op.state.Consumed? && op.delivered == Some(Outcome(op.kind, op.instance)))
  }

  /** A handle that came from an operation belongs to that operation's instance. */
  ghost predicate WorldOk(w: World) {
    && (forall h :: h in w.ops ==> OpOk(w.ops[h]))
    && (forall id :: id in w.handles && w.handles[id].origin.Some? ==>
          w.handles[id].origin.value in w.ops && w.handles[id].instance == w.ops[w.handles[id].origin.value].instance)
    && (w.writer.Some? ==> w.readers == {})
  }

  // ----- What a thread may rely on -----

  /** `h` was removed from the table by `t`, and nobody has received its result. */
  predicate Owns(w: World, t: Thread, h: nat) {
    h in w.ops && w.ops[h].claimedBy == Some(t) && w.ops[h].delivered.None?
  }

  ghost predicate NothingLeft(w: World, ids: set<Instance>, todo: set<nat>) {
    && (forall id :: id in w.handles ==> w.handles[id].instance !in ids)
    && (forall h :: InTable(w, h) && w.ops[h].instance in ids ==> h in todo)
  }

  ghost predicate ThreadOk(w: World, t: Thread, pc: Pc) {
    match pc
    case Starting(_, _) => t in w.readers
    case Spawning(h, kind, instance) => t in w.readers && h in w.ops && w.ops[h].kind == kind && w.ops[h].instance == instance
    case Finishing(_, kind) => Opens(kind) ==> t in w.readers
    case Claimed(h, kind) =>
      && (Opens(kind) ==> t in w.readers)
      && Owns(w, t, h) && w.ops[h].kind == kind && Completed(w.ops[h].state)
    case Delivering(h, kind, outcome) =>
      && (Opens(kind) ==> t in w.readers)
      && Owns(w, t, h) && w.ops[h].state.Consumed? && w.ops[h].kind == kind && outcome == Outcome(kind, w.ops[h].instance)
    case FellThrough => false
    case Looking(h) => h in w.ops
    case Opening(_) => t in w.readers
    case Freed(h) => Owns(w, t, h)
    case HasWrite(_) => w.writer == Some(t)
    case Removing(ids, todo) => w.writer == Some(t) && NothingLeft(w, ids, todo)
    case RemovedOp(ids, todo, h) => w.writer == Some(t) && NothingLeft(w, ids, todo) && Owns(w, t, h)
    case _ => true
  }

  /** A thread's own step leads to a good world and to what the thread may rely on next. */
  lemma ActIsSafe(w: World, t: Thread, pc: Pc, a: Action, w': World, pc': Pc)
    requires WorldOk(w) && ThreadOk(w, t, pc) && Act(w, t, pc, a) == Some((w', pc'))
    ensures WorldOk(w') && ThreadOk(w', t, pc')
  {
    ActKeepsWorld(w, t, pc, a, w', pc');
    ActKeepsThread(w, t, pc, a, w', pc');
  }

  lemma ActKeepsWorld(w: World, t: Thread, pc: Pc, a: Action, w': World, pc': Pc)
    requires WorldOk(w) && ThreadOk(w, t, pc) && Act(w, t, pc, a) == Some((w', pc'))
    ensures WorldOk(w')
  {
    forall h | h in w'.ops
      ensures OpOk(w'.ops[h])
    {
      ActKeepsOp(w, t, pc, a, w', pc', h);
    }
    ActKeepsOrigins(w, t, pc, a, w', pc');
    ActKeepsExclusion(w, t, pc, a, w', pc');
  }

  lemma ActKeepsOp(w: World, t: Thread, pc: Pc, a: Action, w': World, pc': Pc, h: nat)
    requires WorldOk(w) && ThreadOk(w, t, pc) && Act(w, t, pc, a) == Some((w', pc')) && h in w'.ops
    ensures OpOk(w'.ops[h])
  {
    if Touched(pc, a) != Some(h) {
      UntouchedStays(w, t, pc, a, w', pc', h);
    }
  }

  lemma ActKeepsOrigins(w: World, t: Thread, pc: Pc, a: Action, w': World, pc': Pc)
    requires WorldOk(w) && ThreadOk(w, t, pc) && Act(w, t, pc, a) == Some((w', pc'))
    ensures forall id :: id in w'.handles && w'.handles[id].origin.Some? ==>
      w'.handles[id].origin.value in w'.ops && w'.handles[id].instance == w'.ops[w'.handles[id].origin.value].instance
  {
    forall id | id in w.handles && w.handles[id].origin.Some?
      ensures w.handles[id].origin.value in w'.ops
      ensures w'.ops[w.handles[id].origin.value].instance == w.ops[w.handles[id].origin.value].instance
    {
      ActKeepsKinds(w, t, pc, a, w', pc', w.handles[id].origin.value);
    }
  }

  lemma ActKeepsExclusion(w: World, t: Thread, pc: Pc, a: Action, w': World, pc': Pc)
    requires WorldOk(w) && ThreadOk(w, t, pc) && Act(w, t, pc, a) == Some((w', pc'))
    ensures w'.writer.Some? ==> w'.readers == {}
  {}

  lemma ActKeepsThread(w: World, t: Thread, pc: Pc, a: Action, w': World, pc': Pc)
    requires WorldOk(w) && ThreadOk(w, t, pc) && Act(w, t, pc, a) == Some((w', pc'))
    ensures ThreadOk(w', t, pc')
  {}

  /** Another thread keeps its hold of the usage lock. */
  lemma ActKeepsLocks(w: World, t: Thread, pc: Pc, a: Action, w': World, pc': Pc, u: Thread)
    requires WorldOk(w) && ThreadOk(w, t, pc) && Act(w, t, pc, a) == Some((w', pc')) && u != t
    ensures u in w.readers ==> u in w'.readers
    ensures w.writer == Some(u) ==> w'.writer == Some(u)
  {}

  /** An operation that another thread removed stays as it is, but for the task its start call may still attach. */
  lemma ActKeepsOwned(w: World, t: Thread, pc: Pc, a: Action, w': World, pc': Pc, u: Thread, h: nat)
    requires WorldOk(w) && ThreadOk(w, t, pc) && Act(w, t, pc, a) == Some((w', pc'))
    requires u != t && Owns(w, u, h)
    ensures h in w'.ops && w'.ops[h].(task := w.ops[h].task) == w.ops[h]
  {
    if Touched(pc, a) != Some(h) {
      UntouchedStays(w, t, pc, a, w', pc', h);
    }
  }

  /** An operation that exists keeps its kind and instance. */
  lemma ActKeepsKinds(w: World, t: Thread, pc: Pc, a: Action, w': World, pc': Pc, h: nat)
    requires Act(w, t, pc, a) == Some((w', pc')) && h in w.ops
    ensures h in w'.ops && w'.ops[h].kind == w.ops[h].kind && w'.ops[h].instance == w.ops[h].instance
  {
    if Touched(pc, a) != Some(h) {
      UntouchedStays(w, t, pc, a, w', pc', h);
    }
  }

  /** While another thread holds the lock for teardown, nothing of the removed instances comes back. */
  lemma ActKeepsCleared(w: World, t: Thread, pc: Pc, a: Action, w': World, pc': Pc, u: Thread, ids: set<Instance>, todo: set<nat>)
    requires WorldOk(w) && ThreadOk(w, t, pc) && Act(w, t, pc, a) == Some((w', pc'))
    requires u != t && w.writer == Some(u) && NothingLeft(w, ids, todo)
    ensures NothingLeft(w', ids, todo)
  {}

  /** It never disturbs what another thread relies on. */
  lemma ActDoesNotInterfere(w: World, t: Thread, pc: Pc, a: Action, w': World, pc': Pc, u: Thread, other: Pc)
    requires WorldOk(w) && ThreadOk(w, t, pc) && Act(w, t, pc, a) == Some((w', pc'))
    requires u != t && ThreadOk(w, u, other)
    ensures ThreadOk(w', u, other)
  {
    ActKeepsLocks(w, t, pc, a, w', pc', u);
    if other.Claimed? || other.Delivering? || other.Freed? || other.RemovedOp? {
      ActKeepsOwned(w, t, pc, a, w', pc', u, other.op);
    }
    if other.Spawning? || other.Looking? {
      ActKeepsKinds(w, t, pc, a, w', pc', other.op);
    }
    if other.Removing? || other.RemovedOp? {
      ActKeepsCleared(w, t, pc, a, w', pc', u, other.ids, other.todo);
    }
  }

  lemma EventIsSafe(w: World, e: Event, w': World, u: Thread, other: Pc)
    requires WorldOk(w) && Happen(w, e) == Some(w') && ThreadOk(w, u, other)
    ensures WorldOk(w') && ThreadOk(w', u, other)
  {}

  // ----- Runs -----

  datatype System = System(w: World, pcs: map<Thread, Pc>) {
    function Pc(t: Thread): Pc {
      if t in pcs then pcs[t] else Idle
    }
  }

  datatype Step = By(t: Thread, action: Action) | Outside(event: Event)

  function Next(s: System, step: Step): Option<System> {
    match step
    case By(t, action) =>
      var r := Act(s.w, t, s.Pc(t), action);
      if r.None? then None else Some(System(r.value.0, s.pcs[t := r.value.1]))
    case Outside(event) =>
      var r := Happen(s.w, event);
      if r.None? then None else Some(s.(w := r.value))
  }

  function Run(s: System, steps: seq<Step>): Option<System>
    decreases |steps|
  {
    if steps == [] then Some(s)
    else
      var next := Next(s, steps[0]);
      if next.None? then None else Run(next.value, steps[1..])
  }

  const INITIAL: System := System(World(map[], map[], {}, None), map[])

  ghost predicate Inv(s: System) {
    WorldOk(s.w) && forall t: Thread :: ThreadOk(s.w, t, s.Pc(t))
  }

  lemma StepKeepsInv(s: System, step: Step, s': System)
    requires Inv(s) && Next(s, step) == Some(s')
    ensures Inv(s')
  {
    match step
    case By(t, action) =>
      ActIsSafe(s.w, t, s.Pc(t), action, s'.w, s'.Pc(t));
      forall u: Thread
        ensures ThreadOk(s'.w, u, s'.Pc(u))
      {
        if u != t {
          ActDoesNotInterfere(s.w, t, s.Pc(t), action, s'.w, s'.Pc(t), u, s.Pc(u));
        }
      }
    case Outside(event) =>
      forall u: Thread
        ensures WorldOk(s'.w) && ThreadOk(s'.w, u, s'.Pc(u))
      {
        EventIsSafe(s.w, event, s'.w, u, s.Pc(u));
      }
      EventIsSafe(s.w, event, s'.w, 0, s.Pc(0));
  }

  lemma {:induction false} RunKeepsInv(s: System, steps: seq<Step>, s': System)
    requires Inv(s) && Run(s, steps) == Some(s')
    ensures Inv(s')
    decreases |steps|
  {
    if steps != [] {
      StepKeepsInv(s, steps[0], Next(s, steps[0]).value);
      RunKeepsInv(Next(s, steps[0]).value, steps[1..], s');
    }
  }

  /**
   In every reachable state: a registered operation is never consumed, a removed one is claimed, a
   delivered outcome has the kind and instance of its operation, and no finish call falls through.
   */
  lemma ReachableIsSafe(steps: seq<Step>, s: System)
    requires Run(INITIAL, steps) == Some(s)
    ensures forall h :: h in s.w.ops ==> OpOk(s.w.ops[h])
    ensures forall t: Thread :: !s.Pc(t).FellThrough?
    ensures forall t: Thread :: s.Pc(t).Claimed? ==> s.Pc(t).op in s.w.ops && Completed(s.w.ops[s.Pc(t).op].state)
  {
    RunKeepsInv(INITIAL, steps, s);
    assert forall t: Thread :: ThreadOk(s.w, t, s.Pc(t));
  }

  // ----- Claimed once, delivered once -----

  /** Nothing about an operation that has been settled is ever taken back. */
  predicate Evolves(op: Op, op': Op) {
    && op'.kind == op.kind && op'.instance == op.instance
    && (op.task.Some? ==> op'.task == op.task)
    && (!op.registered ==> !op'.registered)
    && (op.claimedBy.Some? ==> op'.claimedBy == op.claimedBy)
    && (op.delivered.Some? ==> op'.delivered == op.delivered)
    && (op.state.Consumed? ==> op'.state.Consumed?)
    && (op.cancelled ==> op'.cancelled)
  }

  ghost predicate WorldEvolves(w: World, w': World) {
    forall h :: h in w.ops ==> h in w'.ops && Evolves(w.ops[h], w'.ops[h])
  }

  lemma ActEvolves(w: World, t: Thread, pc: Pc, a: Action, w': World, pc': Pc)
    requires WorldOk(w) && ThreadOk(w, t, pc) && Act(w, t, pc, a) == Some((w', pc'))
    ensures WorldEvolves(w, w')
  {
    forall h | h in w.ops
      ensures h in w'.ops && Evolves(w.ops[h], w'.ops[h])
    {
      ActEvolvesAt(w, t, pc, a, w', pc', h);
    }
  }

  lemma ActEvolvesAt(w: World, t: Thread, pc: Pc, a: Action, w': World, pc': Pc, h: nat)
    requires WorldOk(w) && ThreadOk(w, t, pc) && Act(w, t, pc, a) == Some((w', pc')) && h in w.ops
    ensures h in w'.ops && Evolves(w.ops[h], w'.ops[h])
  {
    if Touched(pc, a) != Some(h) {
      UntouchedStays(w, t, pc, a, w', pc', h);
    }
  }

  lemma StepEvolves(s: System, step: Step, s': System)
    requires Inv(s) && Next(s, step) == Some(s')
    ensures WorldEvolves(s.w, s'.w)
  {
    match step
    case By(t, action) =>
      ActEvolves(s.w, t, s.Pc(t), action, s'.w, s'.Pc(t));
    case Outside(event) =>
  }

  /** Over any run, an operation keeps its one claimer and its one delivered outcome. */
  lemma {:induction false} RunEvolves(s: System, steps: seq<Step>, s': System)
    requires Inv(s) && Run(s, steps) == Some(s')
    ensures WorldEvolves(s.w, s'.w)
    decreases |steps|
  {
    if steps != [] {
      var s1 := Next(s, steps[0]).value;
      StepKeepsInv(s, steps[0], s1);
      StepEvolves(s, steps[0], s1);
      RunEvolves(s1, steps[1..], s');
    }
  }

  /** A step that removes an operation finds it unclaimed, and one that delivers finds it undelivered. */
  lemma ClaimsAndDeliveriesAreFirst(w: World, t: Thread, pc: Pc, a: Action, w': World, pc': Pc, h: nat)
    requires WorldOk(w) && ThreadOk(w, t, pc) && Act(w, t, pc, a) == Some((w', pc')) && h in w.ops && h in w'.ops
    ensures w'.ops[h].claimedBy != w.ops[h].claimedBy ==> InTable(w, h) && w.ops[h].claimedBy.None? && w'.ops[h].claimedBy == Some(t)
    ensures w'.ops[h].delivered != w.ops[h].delivered ==> w.ops[h].delivered.None? && w.ops[h].claimedBy == Some(t)
    ensures pc.Delivering? && pc.op == h && a.Deliver? ==>
      w.ops[h].delivered.None? && w.ops[h].claimedBy == Some(t) && w'.ops[h].delivered.Some? && !pc'.Delivering?
  {
    if Touched(pc, a) != Some(h) {
      UntouchedStays(w, t, pc, a, w', pc', h);
    }
  }

  // ----- Once over every run -----

  /** The state before step `i` of a run from the start. */
  function StateAt(steps: seq<Step>, i: nat): System
    requires i <= |steps|
  {
    var s := Run(INITIAL, steps[..i]);
    if s.Some? then s.value else INITIAL
  }

  lemma {:induction false} RunSplits(s: System, steps: seq<Step>, i: nat)
    requires i <= |steps| && Run(s, steps).Some?
    ensures Run(s, steps[..i]).Some? && Run(Run(s, steps[..i]).value, steps[i..]) == Run(s, steps)
    decreases |steps|
  {
    if i == 0 {
      assert steps[..0] == [] && steps[0..] == steps;
    } else {
      RunSplits(Next(s, steps[0]).value, steps[1..], i - 1);
      assert steps[..i][1..] == steps[1..][..i - 1] && steps[i..] == steps[1..][i - 1..];
    }
  }

  lemma {:induction false} RunSnoc(s: System, steps: seq<Step>, step: Step)
    requires Run(s, steps).Some?
    ensures Run(s, steps + [step]) == Next(Run(s, steps).value, step)
    decreases |steps|
  {
    var all := steps + [step];
    if steps == [] {
      assert all[0] == step && all[1..] == [];
    } else {
      assert all[0] == steps[0] && all[1..] == steps[1..] + [step];
      RunSnoc(Next(s, steps[0]).value, steps[1..], step);
    }
  }

  lemma StateIsReached(steps: seq<Step>, i: nat)
    requires i <= |steps| && Run(INITIAL, steps).Some?
    ensures Run(INITIAL, steps[..i]) == Some(StateAt(steps, i))
  {
    RunSplits(INITIAL, steps, i);
  }

  lemma StateIsGood(steps: seq<Step>, i: nat, s: System)
    requires i <= |steps| && Run(INITIAL, steps).Some? && s == StateAt(steps, i)
    ensures Inv(s)
  {
    StateIsReached(steps, i);
    RunKeepsInv(INITIAL, steps[..i], s);
  }

  lemma StateSteps(steps: seq<Step>, i: nat)
    requires i < |steps| && Run(INITIAL, steps).Some?
    ensures Next(StateAt(steps, i), steps[i]) == Some(StateAt(steps, i + 1))
  {
    StateIsReached(steps, i);
    StateIsReached(steps, i + 1);
    RunSnoc(INITIAL, steps[..i], steps[i]);
    assert steps[..i + 1] == steps[..i] + [steps[i]];
  }

  lemma StatesAreLinked(steps: seq<Step>, i: nat, j: nat)
    requires i <= j <= |steps| && Run(INITIAL, steps).Some?
    ensures Run(StateAt(steps, i), steps[i..j]) == Some(StateAt(steps, j))
  {
    StateIsReached(steps, i);
    StateIsReached(steps, j);
    RunSplits(INITIAL, steps[..j], i);
    assert steps[..j][..i] == steps[..i] && steps[..j][i..] == steps[i..j];
  }

  /** The step takes operation `h` out of the table. */
  predicate TakesOut(s: System, step: Step, h: nat) {
    InTable(s.w, h) && Next(s, step).Some? && !InTable(Next(s, step).value.w, h)
  }

  /** The step hands the result of operation `h` to a caller. */
  predicate Delivers(s: System, step: Step, h: nat) {
    step.By? && step.action.Deliver? && s.Pc(step.t).Delivering? && s.Pc(step.t).op == h
  }

  /** At most one step of any run takes an operation out of the table. */
  lemma TakenOnce(steps: seq<Step>, i: nat, j: nat, h: nat)
    requires Run(INITIAL, steps).Some? && i < j < |steps| && TakesOut(StateAt(steps, i), steps[i], h)
    ensures !TakesOut(StateAt(steps, j), steps[j], h)
  {
    var s, s1 := StateAt(steps, i), StateAt(steps, i + 1);
    StateIsGood(steps, i, s);
    StateIsGood(steps, i + 1, s1);
    StateSteps(steps, i);
    StatesAreLinked(steps, i + 1, j);
    StepEvolves(s, steps[i], s1);
    RunEvolves(s1, steps[i + 1..j], StateAt(steps, j));
  }

  lemma DeliveryIsRecorded(s: System, step: Step, s': System, h: nat)
    requires Inv(s) && Delivers(s, step, h) && Next(s, step) == Some(s')
    ensures h in s.w.ops && s.w.ops[h].delivered.None? && s.w.ops[h].claimedBy == Some(step.t)
    ensures h in s'.w.ops && s'.w.ops[h].delivered.Some?
  {
    assert ThreadOk(s.w, step.t, s.Pc(step.t));
  }

  /** At most one step of any run delivers the result of an operation. */
  lemma DeliveredOnce(steps: seq<Step>, i: nat, j: nat, h: nat)
    requires Run(INITIAL, steps).Some? && i < j < |steps| && Delivers(StateAt(steps, i), steps[i], h)
    ensures !Delivers(StateAt(steps, j), steps[j], h)
  {
    var s, s1, s2 := StateAt(steps, i), StateAt(steps, i + 1), StateAt(steps, j);
    StateIsGood(steps, i, s);
    StateIsGood(steps, i + 1, s1);
    StateIsGood(steps, j, s2);
    StateSteps(steps, i);
    StateSteps(steps, j);
    StatesAreLinked(steps, i + 1, j);
    DeliveryIsRecorded(s, steps[i], s1, h);
    RunEvolves(s1, steps[i + 1..j], s2);
    if Delivers(s2, steps[j], h) {
      DeliveryIsRecorded(s2, steps[j], StateAt(steps, j + 1), h);
    }
  }

  /** A claim appears only in the step in which its thread takes the operation out of the table. */
  lemma ClaimIsTaking(s: System, step: Step, s': System, h: nat, t: Thread)
    requires Inv(s) && Inv(s') && Next(s, step) == Some(s')
    requires h in s'.w.ops && s'.w.ops[h].claimedBy == Some(t) && !(h in s.w.ops && s.w.ops[h].claimedBy == Some(t))
    ensures step.By? && step.t == t && TakesOut(s, step, h)
  {
    if step.By? {
      var u := step.t;
      assert ThreadOk(s.w, u, s.Pc(u));
      ActClaims(s.w, u, s.Pc(u), step.action, s'.w, s'.Pc(u), h, t);
    } else {
      EventClaimsNothing(s.w, step.event, s'.w, h);
    }
  }

  lemma ActClaims(w: World, t: Thread, pc: Pc, a: Action, w': World, pc': Pc, h: nat, u: Thread)
    requires WorldOk(w) && ThreadOk(w, t, pc) && Act(w, t, pc, a) == Some((w', pc'))
    requires h in w'.ops && w'.ops[h].claimedBy == Some(u) && !(h in w.ops && w.ops[h].claimedBy == Some(u))
    ensures u == t && InTable(w, h) && !InTable(w', h)
  {}

  lemma EventClaimsNothing(w: World, e: Event, w': World, h: nat)
    requires Happen(w, e) == Some(w') && h in w'.ops
    ensures h in w.ops && w'.ops[h].claimedBy == w.ops[h].claimedBy && w'.ops[h].registered == w.ops[h].registered
  {}

  lemma {:induction false} ClaimedWasTaken(steps: seq<Step>, n: nat, h: nat, t: Thread)
    requires Run(INITIAL, steps).Some? && n <= |steps|
    requires h in StateAt(steps, n).w.ops && StateAt(steps, n).w.ops[h].claimedBy == Some(t)
    ensures exists i :: 0 <= i < n && steps[i].By? && steps[i].t == t && TakesOut(StateAt(steps, i), steps[i], h)
  {
    assert steps[..0] == [];
    if n > 0 {
      var s, s' := StateAt(steps, n - 1), StateAt(steps, n);
      if h in s.w.ops && s.w.ops[h].claimedBy == Some(t) {
        ClaimedWasTaken(steps, n - 1, h, t);
      } else {
        StateIsGood(steps, n - 1, s);
        StateIsGood(steps, n, s');
        StateSteps(steps, n - 1);
        ClaimIsTaking(s, steps[n - 1], s', h, t);
      }
    }
  }

  /** A delivery comes after the delivering thread itself has taken the operation out of the table. */
  lemma DeliveryFollowsClaim(steps: seq<Step>, j: nat, h: nat)
    requires Run(INITIAL, steps).Some? && j < |steps| && Delivers(StateAt(steps, j), steps[j], h)
    ensures exists i :: 0 <= i < j && steps[i].By? && steps[i].t == steps[j].t && TakesOut(StateAt(steps, i), steps[i], h)
  {
    StateIsGood(steps, j, StateAt(steps, j));
    StateSteps(steps, j);
    DeliveryIsRecorded(StateAt(steps, j), steps[j], StateAt(steps, j + 1), h);
    ClaimedWasTaken(steps, j, h, steps[j].t);
  }

  /** A handle that came from an operation is the only one, and its operation has been delivered. */
  ghost predicate OneHandleEach(w: World) {
    && (forall id :: id in w.handles && w.handles[id].origin.Some? ==>
          w.handles[id].origin.value in w.ops && w.ops[w.handles[id].origin.value].delivered.Some?)
    && (forall id, id' :: id in w.handles && id' in w.handles ==>
          w.handles[id].origin.None? || w.handles[id].origin != w.handles[id'].origin || id == id')
  }

  lemma ActKeepsOneHandleEach(w: World, t: Thread, pc: Pc, a: Action, w': World, pc': Pc)
    requires WorldOk(w) && ThreadOk(w, t, pc) && Act(w, t, pc, a) == Some((w', pc')) && OneHandleEach(w)
    ensures OneHandleEach(w')
  {
    ActKeepsKnownOrigins(w, t, pc, a, w', pc');
    if pc.Delivering? && a.Deliver? {
      assert forall id :: id in w.handles ==> w.handles[id].origin != Some(pc.op);
    } else {
      NewHandleHasNoOrigin(w, t, pc, a, w', pc');
    }
  }

  /** Every other step keeps handles, drops some, or adds one without an origin. */
  lemma NewHandleHasNoOrigin(w: World, t: Thread, pc: Pc, a: Action, w': World, pc': Pc)
    requires Act(w, t, pc, a) == Some((w', pc')) && !(pc.Delivering? && a.Deliver?)
    ensures forall id :: id in w'.handles && w'.handles[id].origin.Some? ==> id in w.handles && w.handles[id] == w'.handles[id]
  {}

  lemma ActKeepsKnownOrigins(w: World, t: Thread, pc: Pc, a: Action, w': World, pc': Pc)
    requires WorldOk(w) && ThreadOk(w, t, pc) && Act(w, t, pc, a) == Some((w', pc')) && OneHandleEach(w)
    ensures forall id :: id in w'.handles && w'.handles[id].origin.Some? ==>
      w'.handles[id].origin.value in w'.ops && w'.ops[w'.handles[id].origin.value].delivered.Some?
  {
    forall id | id in w.handles && w.handles[id].origin.Some?
      ensures w.handles[id].origin.value in w'.ops && w'.ops[w.handles[id].origin.value].delivered.Some?
    {
      ActEvolvesAt(w, t, pc, a, w', pc', w.handles[id].origin.value);
    }
    if !(pc.Delivering? && a.Deliver?) {
      NewHandleHasNoOrigin(w, t, pc, a, w', pc');
    }
  }

  lemma {:induction false} RunKeepsOneHandleEach(s: System, steps: seq<Step>, s': System)
    requires Inv(s) && OneHandleEach(s.w) && Run(s, steps) == Some(s')
    ensures OneHandleEach(s'.w)
    decreases |steps|
  {
    if steps != [] {
      var s1 := Next(s, steps[0]).value;
      StepKeepsInv(s, steps[0], s1);
      StepKeepsOneHandleEach(s, steps[0], s1);
      RunKeepsOneHandleEach(s1, steps[1..], s');
    }
  }

  lemma StepKeepsOneHandleEach(s: System, step: Step, s': System)
    requires Inv(s) && OneHandleEach(s.w) && Next(s, step) == Some(s')
    ensures OneHandleEach(s'.w)
  {
    match step
    case By(t, action) => ActKeepsOneHandleEach(s.w, t, s.Pc(t), action, s'.w, s'.Pc(t));
    case Outside(event) => EventKeepsOneHandleEach(s.w, event, s'.w);
  }

  lemma EventKeepsOneHandleEach(w: World, e: Event, w': World)
    requires OneHandleEach(w) && Happen(w, e) == Some(w')
    ensures OneHandleEach(w')
  {}

  /** In every reachable state two handles with the same origin are the same handle. */
  lemma HandlesHaveDistinctOrigins(steps: seq<Step>, s: System, id: nat, id': nat)
    requires Run(INITIAL, steps) == Some(s) && id in s.w.handles && id' in s.w.handles
    requires s.w.handles[id].origin.Some? && s.w.handles[id].origin == s.w.handles[id'].origin
    ensures id == id'
  {
    RunKeepsOneHandleEach(INITIAL, steps, s);
  }

  // ----- What a status call may answer -----

  /**
   A status call that answers invalid is right about the table at that moment, and one that reads the state
   while the operation is still in the table never answers invalid.
   */
  lemma InvalidMeansUnregistered(steps: seq<Step>, s: System, t: Thread, a: Action, s': System, h: nat, code: int)
    requires Run(INITIAL, steps) == Some(s) && Next(s, By(t, a)) == Some(s')
    requires !s.Pc(t).Told? && s'.Pc(t) == Told(h, code)
    ensures code == OP_INVALID ==> !InTable(s.w, h) && !InTable(s'.w, h)
    ensures InTable(s.w, h) ==> code != OP_INVALID
    ensures code != OP_INVALID ==> h in s.w.ops && s.Pc(t) == Looking(h) && code == StateStatus(s.w.ops[h].state)
  {
    RunKeepsInv(INITIAL, steps, s);
    ActTells(s.w, t, s.Pc(t), a, s'.w, s'.Pc(t), h, code);
    if h in s.w.ops {
      assert OpOk(s.w.ops[h]);
    }
  }

  /** An answer comes from a look into the table that finds nothing, or from a read of the state. */
  lemma ActTells(w: World, t: Thread, pc: Pc, a: Action, w': World, pc': Pc, h: nat, code: int)
    requires Act(w, t, pc, a) == Some((w', pc')) && pc' == Told(h, code)
    ensures w' == w
    ensures (!InTable(w, h) && code == OP_INVALID) || (pc == Looking(h) && h in w.ops && code == StateStatus(w.ops[h].state))
  {}

  /**
   The converse fails: the table and the state are read apart. From any state with a ready operation, one thread
   can be told that it is ready after another has taken it out of the table.
   */
  lemma StatusCanBeStale(s: System, t: Thread, u: Thread, h: nat) returns (steps: seq<Step>, s': System)
    requires InTable(s.w, h) && s.w.ops[h].state.Ready? && !Opens(s.w.ops[h].kind)
    requires t != u && s.Pc(t) == Idle && s.Pc(u) == Idle
    ensures Run(s, steps) == Some(s') && s'.Pc(t) == Told(h, OP_READY) && !InTable(s'.w, h)
  {
    var kind := s.w.ops[h].kind;
    var s1 := System(s.w, s.pcs[t := Looking(h)]);
    var s2 := System(s.w, s1.pcs[u := Finishing(h, kind)]);
    var s3 := System(Unregister(s.w, h, u), s2.pcs[u := Claimed(h, kind)]);
    s' := System(s3.w, s3.pcs[t := Told(h, OP_READY)]);
    assert Next(s, By(t, LookUp(h))) == Some(s1);
    assert Next(s1, By(u, BeginFinish(h, kind))) == Some(s2);
    assert Next(s2, By(u, RemoveIf)) == Some(s3);
    assert Next(s3, By(t, ReadState)) == Some(s');
    steps := FourSteps(s, By(t, LookUp(h)), s1, By(u, BeginFinish(h, kind)), s2, By(u, RemoveIf), s3, By(t, ReadState), s');
  }

  lemma FourSteps(s: System, a: Step, s1: System, b: Step, s2: System, c: Step, s3: System, d: Step, s4: System)
    returns (steps: seq<Step>)
    requires Next(s, a) == Some(s1) && Next(s1, b) == Some(s2) && Next(s2, c) == Some(s3) && Next(s3, d) == Some(s4)
    ensures steps == [a, b, c, d] && Run(s, steps) == Some(s4)
  {
    steps := [] + [a] + [b] + [c] + [d];
    RunSnoc(s, [], a);
    RunSnoc(s, [] + [a], b);
    RunSnoc(s, [] + [a] + [b], c);
    RunSnoc(s, [] + [a] + [b] + [c], d);
  }

  // ----- Teardown -----

  /** The operations of the given instances that exist in `w`. */
  ghost function OpsOf(w: World, ids: set<Instance>): set<nat> {
    set h | h in w.ops && w.ops[h].instance in ids
  }

  predicate NotOpening(pc: Pc, dead: set<nat>) {
    match pc
    case Claimed(h, kind) => Opens(kind) ==> h !in dead
    case Delivering(h, kind, _) => Opens(kind) ==> h !in dead
    case _ => true
  }

  ghost predicate BuriedWorld(w: World, dead: set<nat>) {
    && (forall h :: h in dead ==> h in w.ops && !w.ops[h].registered)
    && (forall id :: id in w.handles && w.handles[id].origin.Some? ==> w.handles[id].origin.value !in dead)
  }

  /** No operation in `dead` is registered, has a handle, or is on its way to one. */
  ghost predicate Buried(s: System, dead: set<nat>) {
    BuriedWorld(s.w, dead) && forall t: Thread :: NotOpening(s.Pc(t), dead)
  }

  lemma ActKeepsBuried(w: World, t: Thread, pc: Pc, a: Action, w': World, pc': Pc, dead: set<nat>)
    requires WorldOk(w) && ThreadOk(w, t, pc) && Act(w, t, pc, a) == Some((w', pc'))
    requires BuriedWorld(w, dead) && NotOpening(pc, dead)
    ensures BuriedWorld(w', dead) && NotOpening(pc', dead)
  {
    ActBuriesOps(w, t, pc, a, w', pc', dead);
    ActOpensNoDead(w, t, pc, a, w', pc', dead);
    ActBuriesHandles(w, t, pc, a, w', pc', dead);
  }

  lemma ActBuriesOps(w: World, t: Thread, pc: Pc, a: Action, w': World, pc': Pc, dead: set<nat>)
    requires WorldOk(w) && ThreadOk(w, t, pc) && Act(w, t, pc, a) == Some((w', pc'))
    requires BuriedWorld(w, dead) && NotOpening(pc, dead)
    ensures forall h :: h in dead ==> h in w'.ops && !w'.ops[h].registered
  {
    forall h | h in dead
      ensures h in w'.ops && !w'.ops[h].registered
    {
      ActEvolvesAt(w, t, pc, a, w', pc', h);
    }
  }

  lemma ActOpensNoDead(w: World, t: Thread, pc: Pc, a: Action, w': World, pc': Pc, dead: set<nat>)
    requires WorldOk(w) && ThreadOk(w, t, pc) && Act(w, t, pc, a) == Some((w', pc'))
    requires BuriedWorld(w, dead) && NotOpening(pc, dead)
    ensures NotOpening(pc', dead)
  {}

  lemma ActBuriesHandles(w: World, t: Thread, pc: Pc, a: Action, w': World, pc': Pc, dead: set<nat>)
    requires WorldOk(w) && ThreadOk(w, t, pc) && Act(w, t, pc, a) == Some((w', pc'))
    requires BuriedWorld(w, dead) && NotOpening(pc, dead)
    ensures forall id :: id in w'.handles && w'.handles[id].origin.Some? ==> w'.handles[id].origin.value !in dead
  {}

  lemma TeardownBuries(s: System, t: Thread, ids: set<Instance>, s': System)
    requires Inv(s) && s.Pc(t) == Removing(ids, {}) && Next(s, By(t, ReleaseWrite)) == Some(s')
    ensures Buried(s', OpsOf(s'.w, ids))
    ensures forall id :: id in s'.w.handles ==> s'.w.handles[id].instance !in ids
    ensures forall h :: InTable(s'.w, h) ==> s'.w.ops[h].instance !in ids
  {
    assert ThreadOk(s.w, t, s.Pc(t));
    var dead := OpsOf(s'.w, ids);
    forall u: Thread
      ensures NotOpening(s'.Pc(u), dead)
    {
      assert ThreadOk(s.w, u, s.Pc(u));
    }
    forall h | h in dead
      ensures !s'.w.ops[h].registered
    {
      assert InTable(s.w, h) ==> h in {};
    }
  }

  lemma StepKeepsBuried(s: System, step: Step, s': System, dead: set<nat>)
    requires Inv(s) && Buried(s, dead) && Next(s, step) == Some(s')
    ensures Buried(s', dead)
  {
    match step
    case By(t, action) =>
      ActKeepsBuried(s.w, t, s.Pc(t), action, s'.w, s'.Pc(t), dead);
      assert forall u: Thread :: u != t ==> s'.Pc(u) == s.Pc(u);
    case Outside(event) =>
      assert forall u: Thread :: s'.Pc(u) == s.Pc(u);
  }

  lemma {:induction false} RunKeepsBuried(s: System, steps: seq<Step>, s': System, dead: set<nat>)
    requires Inv(s) && Buried(s, dead) && Run(s, steps) == Some(s')
    ensures Buried(s', dead)
    decreases |steps|
  {
    if steps != [] {
      var s1 := Next(s, steps[0]).value;
      StepKeepsInv(s, steps[0], s1);
      StepKeepsBuried(s, steps[0], s1, dead);
      RunKeepsBuried(s1, steps[1..], s', dead);
    }
  }

  /**
   When a teardown gives up the usage lock, nothing of its instances is left, and in no later state is
   an operation that existed then registered again or the origin of a handle.
   */
  lemma TeardownIsFinal(before: seq<Step>, s: System, t: Thread, ids: set<Instance>, s': System, after: seq<Step>, s'': System)
    requires Run(INITIAL, before) == Some(s) && s.Pc(t) == Removing(ids, {})
    requires Next(s, By(t, ReleaseWrite)) == Some(s') && Run(s', after) == Some(s'')
    ensures forall id :: id in s'.w.handles ==> s'.w.handles[id].instance !in ids
    ensures forall h :: InTable(s'.w, h) ==> s'.w.ops[h].instance !in ids
    ensures forall h :: h in OpsOf(s'.w, ids) ==> !InTable(s''.w, h)
    ensures forall id, h :: id in s''.w.handles && h in OpsOf(s'.w, ids) ==> s''.w.handles[id].origin != Some(h)
  {
    RunKeepsInv(INITIAL, before, s);
    TeardownBuries(s, t, ids, s');
    StepKeepsInv(s, By(t, ReleaseWrite), s');
    RunKeepsBuried(s', after, s'', OpsOf(s'.w, ids));
  }
}
