/** The leaf and constant nodes of the current interface:
    src/std_nodes/constants.rs, condition.rs and action.rs. */
module LeafNodes {
  import opened Base
  import opened Statuses
  import opened Testing
  import opened DecoratorLogic
  import opened Tree
  import opened NodeProps

  // ---------------------------------------------------------------------
  // AlwaysFail, AlwaysSucceed, AlwaysRunning

  /** `AlwaysFail` and `AlwaysSucceed`: without a child the fixed status on
      every tick; with one, the child is ticked once and the node runs while
      the child's result is unfinished, then reports its fixed status. So
      `AlwaysFail` never succeeds and `AlwaysSucceed` never fails. */
  lemma ConstantTick<W>(n: Node<W>, w: W, env: Env)
    requires n.status == Initialized || n.status == Running
    requires n.internals.AlwaysFail? || n.internals.AlwaysSucceed?
    requires TickBody(n, w, env).Ok?
    ensures var fixed := if n.internals.AlwaysFail? then Failed else Succeeded;
            var r := TickBody(n, w, env).value;
            (r.status == fixed || r.status == Running) &&
            (n.internals.optChild.None? ==> r.status == fixed && r.internals == n.internals && r.world == w) &&
            (n.internals.optChild.Some? ==>
               var t := NodeTick(n.internals.optChild.value, w, env).value;
               r.internals == n.internals.(optChild := Some(t.node)) && r.world == t.world &&
               (r.status == Running <==> !t.status.IsDone()))
  {
  }

  /** `AlwaysRunning` runs forever and changes nothing. */
  lemma AlwaysRunningTick<W>(n: Node<W>, w: W, env: Env)
    requires n.status == Initialized || n.status == Running
    requires n.internals.AlwaysRunning?
    ensures TickBody(n, w, env) == Ok(Stepped(AlwaysRunning, Running, w))
    ensures ResetBody(n.internals, env) == Ok(AlwaysRunning)
  {
  }

  /** The constants reset their child, if any, and nothing else, and expose
      exactly that child. */
  lemma ConstantReset<W>(n: Node<W>, env: Env)
    requires n.internals.AlwaysFail? || n.internals.AlwaysSucceed?
    ensures n.internals.optChild.None? ==> ResetBody(n.internals, env) == Ok(n.internals) && Children(n) == []
    ensures n.internals.optChild.Some? ==>
              Children(n) == [n.internals.optChild.value] &&
              (ResetBody(n.internals, env).Ok? <==> NodeReset(n.internals.optChild.value, env).Ok?) &&
              (ResetBody(n.internals, env).Ok? ==>
                 ResetBody(n.internals, env).value ==
                   n.internals.(optChild := Some(NodeReset(n.internals.optChild.value, env).value)))
  {
  }

  /** The constants' tests: around a fresh `YesTick` child, `AlwaysFail`
      reports `Failed` unless the child runs, `AlwaysSucceed` reports
      `Succeeded` unless the child runs; the child has been ticked. */
  lemma ConstantsOverStub<W>(fail: bool, s: Status, w: W, env: Env)
    requires s != Initialized
    ensures var c := NewNode<W>(Stub(NewYesTick(s)));
            var n := NewNode(if fail then AlwaysFail(Some(c)) else AlwaysSucceed(Some(c)));
            var r := NodeTick(n, w, env);
            r.Ok? &&
            r.value.status == (if s == Running then Running else if fail then Failed else Succeeded) &&
            (r.value.node.internals.AlwaysFail? || r.value.node.internals.AlwaysSucceed?) &&
            r.value.node.internals.optChild.Some? &&
            r.value.node.internals.optChild.value.internals.Stub? &&
            StubDrop(r.value.node.internals.optChild.value.internals.stub).Ok?
  {
    var c := NewNode<W>(Stub(NewYesTick(s)));
    var n := NewNode(if fail then AlwaysFail(Some(c)) else AlwaysSucceed(Some(c)));
    TickNotDone(c, w, env);
    TickNotDone(n, w, env);
  }

  // ---------------------------------------------------------------------
  // Condition and InlineAction

  /** `Condition` succeeds exactly when its predicate holds of the world and
      fails otherwise; it neither runs nor changes the world, and its reset
      does nothing. */
  lemma ConditionTick<W>(n: Node<W>, w: W, env: Env)
    requires n.status == Initialized || n.status == Running
    requires n.internals.Condition?
    ensures TickBody(n, w, env).Ok?
    ensures TickBody(n, w, env).value.status == Succeeded <==> n.internals.pred(w)
    ensures TickBody(n, w, env).value.status == Failed <==> !n.internals.pred(w)
    ensures TickBody(n, w, env).value.world == w && TickBody(n, w, env).value.internals == n.internals
    ensures ResetBody(n.internals, env) == Ok(n.internals)
  {
  }

  /** `InlineAction` runs its task on the world in the ticking thread: the
      task's status is the node's and the task's world is passed on; its
      reset does nothing. */
  lemma InlineActionTick<W>(n: Node<W>, w: W, env: Env)
    requires n.status == Initialized || n.status == Running
    requires n.internals.InlineAction?
    ensures TickBody(n, w, env) == Ok(Stepped(n.internals, n.internals.task(w).0, n.internals.task(w).1))
    ensures ResetBody(n.internals, env) == Ok(n.internals)
  {
  }

  // ---------------------------------------------------------------------
  // Action

  /** The first tick after creation or reset starts the worker on a copy of
      the world and reports `Running` without waiting; the world is not
      changed by an `Action`. */
  lemma ActionStarts<W>(n: Node<W>, w: W, env: Env)
    requires n.status == Initialized || n.status == Running
    requires n.internals.Action? && n.internals.rx.None?
    ensures TickBody(n, w, env) ==
              Ok(Stepped(n.internals.(rx := Some(Channel(n.internals.work(w), false))), Running, w))
  {
  }

  /** A later tick polls the worker without blocking: nothing yet means
      `Running`; a `Running` result drops the receiver so the next tick starts
      the task again; any other result is reported; a worker that died is
      fatal. The world is never changed. */
  lemma ActionPolls<W>(n: Node<W>, w: W, env: Env)
    requires n.status == Initialized || n.status == Running
    requires n.internals.Action? && n.internals.rx.Some?
    ensures var ch, a := n.internals.rx.value, env(n.internals.id);
            var r := TickBody(n, w, env);
            (r.Fatal? <==> ch.delivered || a == WorkerDied) &&
            (r.Fatal? ==> r.panic == WorkerDisconnected) &&
            (r.Ok? ==> r.value.world == w && r.value.internals.Action?) &&
            (!ch.delivered && a == NotYet ==> r == Ok(Stepped(n.internals, Running, w))) &&
            (!ch.delivered && a == Arrived && ch.result == Running ==>
               r == Ok(Stepped(n.internals.(rx := None), Running, w))) &&
            (!ch.delivered && a == Arrived && ch.result != Running ==>
               r == Ok(Stepped(n.internals.(rx := Some(ch.(delivered := true))), ch.result, w)))
  {
  }

  /** While the worker has not finished, every tick of the action's node
      reports `Running`. */
  lemma {:induction false} ActionWaits<W>(id: nat, work: W -> Status, rx: Option<Channel>, st: Status,
                                          w: W, env: Env, k: nat)
    requires st == Initialized || st == Running
    requires env(id) == NotYet
    requires rx.None? || !rx.value.delivered
    ensures Ticks(Node(st, None, Action(id, work, rx)), w, env, k) == Ok(Repeated(Running, k))
    decreases k
  {
    if k > 0 {
      var n := Node(st, None, Action(id, work, rx));
      var rx' := if rx.None? then Some(Channel(work(w), false)) else rx;
      TickNotDone(n, w, env);
      assert NodeTick(n, w, env) == Ok(Ticked(Node(Running, None, Action(id, work, rx')), Running, w));
      ActionWaits(id, work, rx', Running, w, env, k - 1);
    }
  }

  /** The action tests: a fresh action reports `Running` while its worker
      works, and then its worker's finished result. */
  lemma ActionDelivers<W>(id: nat, work: W -> Status, w: W, env1: Env, env2: Env)
    requires env2(id) == Arrived && work(w).IsDone()
    ensures var first := NodeTick(NewNode(Action(id, work, None)), w, env1);
            first.Ok? && first.value.status == Running &&
            NodeTick(first.value.node, w, env2).Ok? &&
            NodeTick(first.value.node, w, env2).value.status == work(w)
  {
    var n := NewNode(Action(id, work, None));
    TickNotDone(n, w, env1);
    var m := Node(Running, None, Action(id, work, Some(Channel(work(w), false))));
    assert NodeTick(n, w, env1) == Ok(Ticked(m, Running, w));
    TickNotDone(m, w, env2);
  }

  /** The reset as the source writes it cannot follow a delivered result:
      once a finished result has been read, the worker and its sending end
      are gone, and waiting on the receiver aborts whatever happens next. So
      ticking an action again after it finished, which resets it first,
      always aborts. */
  lemma ResetAfterResultAsWritten(ch: Channel, a1: Arrival, a2: Arrival)
    requires !ch.delivered && a1 == Arrived && ch.result.IsDone()
    ensures ActionPoll(ch, a1).Ok? && ActionPoll(ch, a1).value.1 == ch.result
    ensures ActionResetAsWritten(ActionPoll(ch, a1).value.0, a2) == Fatal(ResetRecvFailed)
  {
  }

  /** With the documented reset, an action that finished can run again: the
      next tick resets it, dropping the spent receiver, and starts a new
      worker on the current world. */
  lemma ActionRestarts<W>(n: Node<W>, w: W, env: Env)
    requires n.status.IsDone() && n.internals.Action?
    requires n.internals.rx.None? || n.internals.rx.value.delivered
    ensures NodeTick(n, w, env) ==
              Ok(Ticked(Node(Running, n.name, n.internals.(rx := Some(Channel(n.internals.work(w), false)))), Running, w))
  {
    var m := Node(Initialized, n.name, n.internals.(rx := None));
    assert NodeReset(n, env) == Ok(m);
    StaleTickResets(n, w, env);
    ActionStarts(m, w, env);
  }

  /** Reset waits for a worker still at work and aborts only when the worker
      died; every successful reset leaves the action ready to start again. */
  lemma ActionResetOutcome<W>(i: Internals<W>, env: Env)
    requires i.Action?
    ensures ResetBody(i, env).Fatal? <==> i.rx.Some? && !i.rx.value.delivered && env(i.id) == WorkerDied
    ensures ResetBody(i, env).Ok? ==> ResetBody(i, env).value == i.(rx := None)
  {
  }
}
