/**
 What a caller of the asynchronous operations learns, against how the spawned task ended. Everything is
 stated over the steps of a run from the start: the first end of an operation decides what a status call
 answers and whether a finish call has anything to deliver.
 */
module AsyncEndings {
  import opened Prelude
  import opened AsyncOps

  /** The step ends operation `h`: its task completes, or the pending operation is cancelled. */
  predicate Ends(step: Step, h: nat) {
    step == Outside(Complete(h, true)) || step == Outside(Complete(h, false)) || step == Outside(CancelPending(h))
  }

  /** The step marks operation `h` consumed: a finish call, a free or a teardown that has removed it. */
  predicate Consumes(s: System, step: Step, h: nat) {
    && step.By?
    && match s.Pc(step.t)
       case Claimed(op, _) => op == h && step.action.TakeState?
       case Freed(op) => op == h && step.action.ConsumeFreed?
       case RemovedOp(_, _, op) => op == h && step.action.ConsumeRemoved?
       case _ => false
  }

  /** The first of the first `n` steps that ends `h`. */
  function FirstEnd(steps: seq<Step>, n: nat, h: nat): (e: Option<nat>)
    requires n <= |steps|
    ensures e.None? ==> forall i :: 0 <= i < n ==> !Ends(steps[i], h)
    ensures e.Some? ==> e.value < n && Ends(steps[e.value], h) && forall i :: 0 <= i < e.value ==> !Ends(steps[i], h)
  {
    if n == 0 then None
    else
      var earlier := FirstEnd(steps, n - 1, h);
      if earlier.Some? then earlier else if Ends(steps[n - 1], h) then Some(n - 1) else None
  }

  /** Step `i` finds the operation pending. */
  ghost predicate MeetsPending(steps: seq<Step>, i: nat, h: nat)
    requires i <= |steps|
  {
    h in StateAt(steps, i).w.ops && StateAt(steps, i).w.ops[h].state.Pending?
  }

  ghost predicate ConsumedBefore(steps: seq<Step>, n: nat, h: nat)
    requires n <= |steps|
  {
    exists i :: 0 <= i < n && Consumes(StateAt(steps, i), steps[i], h)
  }

  // ----- One step -----

  lemma ActSetsState(w: World, t: Thread, pc: Pc, a: Action, w': World, pc': Pc, h: nat)
    requires WorldOk(w) && ThreadOk(w, t, pc) && Act(w, t, pc, a) == Some((w', pc')) && h in w'.ops
    ensures h !in w.ops ==> w'.ops[h].state.Pending?
    ensures var consumes := (pc.Claimed? && a.TakeState?) || (pc.Freed? && a.ConsumeFreed?) || (pc.RemovedOp? && a.ConsumeRemoved?);
      h in w.ops ==> w'.ops[h].state == if consumes && pc.op == h then Consumed else w.ops[h].state
  {
    if Touched(pc, a) != Some(h) {
      UntouchedStays(w, t, pc, a, w', pc', h);
    }
  }

  lemma StepSetsState(s: System, step: Step, s': System, h: nat)
    requires Inv(s) && Next(s, step) == Some(s') && h in s'.w.ops
    ensures h !in s.w.ops ==> s'.w.ops[h].state.Pending? && !Ends(step, h) && !Consumes(s, step, h)
    ensures h in s.w.ops && Consumes(s, step, h) ==> s'.w.ops[h].state.Consumed?
    ensures h in s.w.ops && !Consumes(s, step, h) && !(Ends(step, h) && s.w.ops[h].state.Pending?) ==>
      s'.w.ops[h].state == s.w.ops[h].state
    ensures h in s.w.ops && Ends(step, h) && s.w.ops[h].state.Pending? ==>
      if step == Outside(Complete(h, true)) then s'.w.ops[h].state.Ready? else s'.w.ops[h].state.Failed?
  {
    if step.By? {
      var t := step.t;
      assert ThreadOk(s.w, t, s.Pc(t));
      ActSetsState(s.w, t, s.Pc(t), step.action, s'.w, s'.Pc(t), h);
    }
  }

  /** A step neither ends nor consumes an operation that does not exist. */
  lemma NothingWithoutOperation(s: System, step: Step, h: nat)
    requires Inv(s) && Next(s, step).Some? && h !in s.w.ops
    ensures !Ends(step, h) && !Consumes(s, step, h)
  {
    if step.By? {
      assert ThreadOk(s.w, step.t, s.Pc(step.t));
    }
  }

  // ----- Every state of a run -----

  /** The state of an operation is what the steps so far say about it. */
  ghost predicate Explained(steps: seq<Step>, n: nat, h: nat)
    requires n <= |steps| && h in StateAt(steps, n).w.ops
  {
    var state, end := StateAt(steps, n).w.ops[h].state, FirstEnd(steps, n, h);
    && (state.Consumed? <==> ConsumedBefore(steps, n, h))
    && (!state.Consumed? ==>
          if end.None? then state.Pending?
          else MeetsPending(steps, end.value, h) &&
               if steps[end.value] == Outside(Complete(h, true)) then state.Ready? else state.Failed?)
  }

  /** Nothing is said about an operation before it exists. */
  lemma {:induction false} NothingBeforeCreation(steps: seq<Step>, n: nat, h: nat)
    requires Run(INITIAL, steps).Some? && n <= |steps| && h !in StateAt(steps, n).w.ops
    ensures FirstEnd(steps, n, h).None? && !ConsumedBefore(steps, n, h)
  {
    if n > 0 {
      var s, s' := StateAt(steps, n - 1), StateAt(steps, n);
      StateIsGood(steps, n - 1, s);
      StateSteps(steps, n - 1);
      StepEvolves(s, steps[n - 1], s');
      NothingBeforeCreation(steps, n - 1, h);
      NothingWithoutOperation(s, steps[n - 1], h);
    }
  }

  lemma ExplainedStep(steps: seq<Step>, n: nat, h: nat, s: System, s': System)
    requires Run(INITIAL, steps).Some? && n < |steps| && s == StateAt(steps, n) && s' == StateAt(steps, n + 1)
    requires h in s.w.ops && h in s'.w.ops && Explained(steps, n, h)
    ensures Explained(steps, n + 1, h)
  {
    StateIsGood(steps, n, s);
    StateSteps(steps, n);
    StepEvolves(s, steps[n], s');
    StepSetsState(s, steps[n], s', h);
    ConsumedOneMore(steps, n, h);
  }

  lemma ConsumedOneMore(steps: seq<Step>, n: nat, h: nat)
    requires n < |steps|
    ensures ConsumedBefore(steps, n + 1, h) <==> ConsumedBefore(steps, n, h) || Consumes(StateAt(steps, n), steps[n], h)
  {
  }

  lemma ExplainedAtBirth(steps: seq<Step>, n: nat, h: nat, s: System, s': System)
    requires Run(INITIAL, steps).Some? && n < |steps| && s == StateAt(steps, n) && s' == StateAt(steps, n + 1)
    requires h !in s.w.ops && h in s'.w.ops
    ensures Explained(steps, n + 1, h)
  {
    NothingBeforeCreation(steps, n, h);
    StateIsGood(steps, n, s);
    StateSteps(steps, n);
    StepSetsState(s, steps[n], s', h);
    ConsumedOneMore(steps, n, h);
  }

  lemma {:induction false} StateIsExplained(steps: seq<Step>, n: nat, h: nat)
    requires Run(INITIAL, steps).Some? && n <= |steps| && h in StateAt(steps, n).w.ops
    ensures Explained(steps, n, h)
  {
    assert steps[..0] == [];
    if n > 0 {
      var s, s' := StateAt(steps, n - 1), StateAt(steps, n);
      if h in s.w.ops {
        StateIsExplained(steps, n - 1, h);
        ExplainedStep(steps, n - 1, h, s, s');
      } else {
        ExplainedAtBirth(steps, n - 1, h, s, s');
      }
    }
  }

  // ----- What a finish call delivers -----

  /** A thread comes to hold a result only by taking it from a ready operation. */
  lemma ActTakesReady(w: World, t: Thread, pc: Pc, a: Action, w': World, pc': Pc, h: nat)
    requires Act(w, t, pc, a) == Some((w', pc')) && pc'.Delivering? && pc'.op == h
    ensures h in w.ops && w.ops[h].state.Ready?
  {}

  lemma {:induction false} HeldWasReady(steps: seq<Step>, n: nat, t: Thread, h: nat)
    requires Run(INITIAL, steps).Some? && n <= |steps|
    requires StateAt(steps, n).Pc(t).Delivering? && StateAt(steps, n).Pc(t).op == h
    ensures var end := FirstEnd(steps, n, h);
      end.Some? && steps[end.value] == Outside(Complete(h, true)) && MeetsPending(steps, end.value, h)
  {
    assert steps[..0] == [];
    if n > 0 {
      var s, s' := StateAt(steps, n - 1), StateAt(steps, n);
      StateSteps(steps, n - 1);
      if s.Pc(t) == s'.Pc(t) {
        HeldWasReady(steps, n - 1, t, h);
      } else {
        var step := steps[n - 1];
        assert step.By? && step.t == t;
        ActTakesReady(s.w, t, s.Pc(t), step.action, s'.w, s'.Pc(t), h);
        StateIsExplained(steps, n - 1, h);
      }
    }
  }

  /**
   A result is delivered only for a task that completed with success while the operation was pending, and
   that completion is the first end of the operation: no failure and no cancellation came before it.
   */
  lemma DeliveryFollowsSuccess(steps: seq<Step>, j: nat, h: nat) returns (i: nat)
    requires Run(INITIAL, steps).Some? && j < |steps| && Delivers(StateAt(steps, j), steps[j], h)
    ensures i < j && steps[i] == Outside(Complete(h, true)) && MeetsPending(steps, i, h)
    ensures forall k :: 0 <= k < i ==>
      steps[k] != Outside(Complete(h, true)) && steps[k] != Outside(Complete(h, false)) && steps[k] != Outside(CancelPending(h))
  {
    HeldWasReady(steps, j, steps[j].t, h);
    i := FirstEnd(steps, j, h).value;
    assert forall k :: 0 <= k < i ==> !Ends(steps[k], h);
  }

  // ----- What a status call answers -----

  /**
   A read of the state answers -2 if a call has consumed the operation, 0 if nothing has ended it, 1 if its
   task completed with success before any other end, and -1 if the first end was a failure or a cancellation.
   */
  lemma StatusTellsTheEnd(steps: seq<Step>, n: nat, t: Thread, h: nat, s': System) returns (code: int)
    requires Run(INITIAL, steps).Some? && n <= |steps| && StateAt(steps, n).Pc(t) == Looking(h)
    requires Next(StateAt(steps, n), By(t, ReadState)) == Some(s')
    ensures s'.Pc(t) == Told(h, code)
    ensures code == -2 <==> ConsumedBefore(steps, n, h)
    ensures code == 0 <==> !ConsumedBefore(steps, n, h) && forall i :: 0 <= i < n ==> !Ends(steps[i], h)
    ensures code == 1 <==>
            && !ConsumedBefore(steps, n, h)
            && exists i :: 0 <= i < n && steps[i] == Outside(Complete(h, true)) && forall k :: 0 <= k < i ==> !Ends(steps[k], h)
    ensures code == -1 <==>
            && !ConsumedBefore(steps, n, h)
            && exists i :: 0 <= i < n && (steps[i] == Outside(Complete(h, false)) || steps[i] == Outside(CancelPending(h))) &&
                           forall k :: 0 <= k < i ==> !Ends(steps[k], h)
  {
    StateIsExplained(steps, n, h);
    code := s'.Pc(t).code;
    var end := FirstEnd(steps, n, h);
    forall i | 0 <= i < n && Ends(steps[i], h) && forall k :: 0 <= k < i ==> !Ends(steps[k], h)
      ensures end == Some(i)
    {
    }
  }

  /** Whatever meets the operation pending is its first end, so the later ones change no answer. */
  lemma PendingMeansFirst(steps: seq<Step>, i: nat, h: nat)
    requires Run(INITIAL, steps).Some? && i < |steps| && MeetsPending(steps, i, h)
    ensures !ConsumedBefore(steps, i, h) && forall k :: 0 <= k < i ==> !Ends(steps[k], h)
  {
    StateIsExplained(steps, i, h);
  }

  // ----- A ready operation can be finished -----

  lemma CanBegin(s: System, t: Thread, h: nat, kind: Kind) returns (s': System)
    requires s.Pc(t) == Idle && s.w.writer.None?
    ensures Next(s, By(t, BeginFinish(h, kind))) == Some(s') && s'.Pc(t) == Finishing(h, kind)
    ensures s'.w.ops == s.w.ops && s'.w.handles == s.w.handles
  {
    s' := Next(s, By(t, BeginFinish(h, kind))).value;
  }

  lemma CanRemove(s: System, t: Thread, h: nat, kind: Kind) returns (s': System)
    requires s.Pc(t) == Finishing(h, kind) && InTable(s.w, h) && s.w.ops[h].kind == kind && s.w.ops[h].state.Ready?
    ensures Next(s, By(t, RemoveIf)) == Some(s') && s'.Pc(t) == Claimed(h, kind)
    ensures h in s'.w.ops && !InTable(s'.w, h) && s'.w.ops[h].state == s.w.ops[h].state && s'.w.handles == s.w.handles
  {
    s' := Next(s, By(t, RemoveIf)).value;
  }

  lemma CanTake(s: System, t: Thread, h: nat, kind: Kind) returns (s': System)
    requires s.Pc(t) == Claimed(h, kind) && h in s.w.ops && !InTable(s.w, h) && s.w.ops[h].state.Ready?
    ensures Next(s, By(t, TakeState)) == Some(s') && s'.Pc(t) == Delivering(h, kind, s.w.ops[h].state.outcome)
    ensures h in s'.w.ops && !InTable(s'.w, h) && s'.w.handles == s.w.handles
  {
    s' := Next(s, By(t, TakeState)).value;
  }

  lemma CanDeliver(s: System, t: Thread, h: nat, kind: Kind, outcome: Outcome, written: bool, id: nat) returns (s': System)
    requires s.Pc(t) == Delivering(h, kind, outcome) && h in s.w.ops && !InTable(s.w, h) && id !in s.w.handles
    requires outcome.kind == kind
    ensures Next(s, By(t, Deliver(written, id))) == Some(s')
    ensures h in s'.w.ops && s'.w.ops[h].delivered == Some(outcome) && !InTable(s'.w, h)
    ensures s'.w.handles == if Opens(kind) && written then s.w.handles[id := Entry(outcome.instance, Some(h))] else s.w.handles
  {
    s' := Next(s, By(t, Deliver(written, id))).value;
  }

  /** The kinds whose result becomes a handle. */
  predicate MakesHandle(kind: Kind) {
    kind in {TcpConnect, TcpBind, TcpAccept, UdpBind}
  }

  /**
   From any reachable state with a ready operation in the table, an idle thread and no writer, four steps deliver
   it. A connect, bind or accept then has a handle of its instance, unless it could not be written to the caller.
   */
  lemma ReadyCanBeDelivered(past: seq<Step>, s: System, t: Thread, h: nat, written: bool, id: nat) returns (steps: seq<Step>, s': System)
    requires Run(INITIAL, past) == Some(s) && s.Pc(t) == Idle && s.w.writer.None?
    requires InTable(s.w, h) && s.w.ops[h].state.Ready? && id !in s.w.handles
    ensures steps == [By(t, BeginFinish(h, s.w.ops[h].kind)), By(t, RemoveIf), By(t, TakeState), By(t, Deliver(written, id))]
    ensures Run(s, steps) == Some(s')
    ensures h in s'.w.ops && s'.w.ops[h].delivered == Some(Outcome(s.w.ops[h].kind, s.w.ops[h].instance)) && !InTable(s'.w, h)
    ensures s'.w.handles == if MakesHandle(s.w.ops[h].kind) && written
                            then s.w.handles[id := Entry(s.w.ops[h].instance, Some(h))] else s.w.handles
  {
    RunKeepsInv(INITIAL, past, s);
    var kind, outcome := s.w.ops[h].kind, s.w.ops[h].state.outcome;
    assert outcome == Outcome(kind, s.w.ops[h].instance) by { assert OpOk(s.w.ops[h]); }
    var s1 := CanBegin(s, t, h, kind);
    var s2 := CanRemove(s1, t, h, kind);
    var s3 := CanTake(s2, t, h, kind);
    s' := CanDeliver(s3, t, h, kind, outcome, written, id);
    steps := FourSteps(s, By(t, BeginFinish(h, kind)), s1, By(t, RemoveIf), s2, By(t, TakeState), s3, By(t, Deliver(written, id)), s');
  }

  // ----- Cancellation -----

  /** A cancelled operation is marked at once and for ever, and is never pending again. */
  lemma CancellationIsFinal(s: System, h: nat, after: seq<Step>) returns (s1: System)
    requires Inv(s) && h in s.w.ops
    ensures Next(s, Outside(CancelPending(h))) == Some(s1)
    ensures forall s' :: Run(s1, after) == Some(s') ==> h in s'.w.ops && s'.w.ops[h].cancelled && !s'.w.ops[h].state.Pending?
  {
    s1 := Next(s, Outside(CancelPending(h))).value;
    StepKeepsInv(s, Outside(CancelPending(h)), s1);
    if Run(s1, after).Some? {
      CancelledStays(s1, after, Run(s1, after).value, h);
    }
  }

  lemma {:induction false} CancelledStays(s: System, steps: seq<Step>, s': System, h: nat)
    requires Inv(s) && Run(s, steps) == Some(s') && h in s.w.ops && s.w.ops[h].cancelled && !s.w.ops[h].state.Pending?
    ensures h in s'.w.ops && s'.w.ops[h].cancelled && !s'.w.ops[h].state.Pending?
    decreases |steps|
  {
    if steps != [] {
      var s1 := Next(s, steps[0]).value;
      StepKeepsInv(s, steps[0], s1);
      StepEvolves(s, steps[0], s1);
      StepSetsState(s, steps[0], s1, h);
      CancelledStays(s1, steps[1..], s', h);
    }
  }

  // ----- Freed and torn down operations -----

  /** Gone from the table, cancelled and consumed: no status call and no finish call can get anything from it. */
  predicate IsDead(w: World, h: nat) {
    h in w.ops && !w.ops[h].registered && w.ops[h].cancelled && w.ops[h].state.Consumed?
  }

  /** An idle thread frees an operation in two steps, whatever state it is in. */
  lemma FreeingKills(s: System, t: Thread, h: nat) returns (s1: System, s2: System)
    requires s.Pc(t) == Idle && InTable(s.w, h)
    ensures Next(s, By(t, RemoveForFree(h))) == Some(s1) && Next(s1, By(t, ConsumeFreed)) == Some(s2)
    ensures IsDead(s2.w, h) && s2.Pc(t) == Idle
  {
    s1 := Next(s, By(t, RemoveForFree(h))).value;
    s2 := Next(s1, By(t, ConsumeFreed)).value;
  }

  /** A teardown does the same to each operation of its instances that is still in the table. */
  lemma TeardownKills(s: System, t: Thread, ids: set<Instance>, todo: set<nat>, h: nat) returns (s1: System, s2: System)
    requires s.Pc(t) == Removing(ids, todo) && h in todo && InTable(s.w, h)
    ensures Next(s, By(t, RemoveNext(h))) == Some(s1) && Next(s1, By(t, ConsumeRemoved)) == Some(s2)
    ensures IsDead(s2.w, h) && s2.Pc(t) == Removing(ids, todo - {h})
  {
    s1 := Next(s, By(t, RemoveNext(h))).value;
    s2 := Next(s1, By(t, ConsumeRemoved)).value;
  }

  lemma StepKeepsDead(s: System, step: Step, s': System, h: nat)
    requires Inv(s) && Next(s, step) == Some(s') && IsDead(s.w, h)
    ensures IsDead(s'.w, h)
  {
    StepEvolves(s, step, s');
  }

  /** A dead operation stays dead: a completion that comes later changes nothing. */
  lemma {:induction false} DeadStaysDead(s: System, steps: seq<Step>, s': System, h: nat)
    requires Inv(s) && IsDead(s.w, h) && Run(s, steps) == Some(s')
    ensures IsDead(s'.w, h)
    decreases |steps|
  {
    if steps != [] {
      var s1 := Next(s, steps[0]).value;
      StepKeepsInv(s, steps[0], s1);
      StepKeepsDead(s, steps[0], s1, h);
      DeadStaysDead(s1, steps[1..], s', h);
    }
  }
}
