/** A tree invariant about the attempt counters of `Repeat`, `UntilFail` and
    `UntilSuccess` (src/std_nodes/decorator/repeat.rs and until.rs): the
    source keeps the count in a `u32` and compares it with the limit after
    every counted run. The invariant shows the count never passes the limit
    (or 1 for a zero limit), so it cannot wrap when the limit fits in a
    `u32`, and that ticks and resets preserve it everywhere in a tree. */
module CounterBounds {
  import opened Base
  import opened Statuses
  import opened DecoratorLogic
  import opened Tree

  const U32_MAX: nat := 0xFFFF_FFFF

  /** The largest count a limited counter can reach: one run always counts,
      even against a zero limit. */
  function Ceiling(l: nat): (c: nat)
    ensures c >= 1 && c >= l
  {
    if l == 0 then 1 else l
  }

  /** The invariant for one node: an unlimited counter never counts; a
      limited one never passes its ceiling, and while the node is not
      finished it has either counted nothing or is below its limit. */
  predicate CounterOk<W>(n: Node<W>)
  {
    n.internals.Counting? ==>
      match n.internals.limit
      case None => n.internals.attempts == 0
      case Some(l) =>
        n.internals.attempts <= Ceiling(l) &&
        (!n.status.IsDone() ==> n.internals.attempts == 0 || n.internals.attempts < l)
  }

  /** The invariant for every node of a tree. */
  predicate Wf<W>(n: Node<W>)
    decreases n, 1
  {
    CounterOk(n) && WfInternals(n.internals)
  }

  predicate WfInternals<W>(i: Internals<W>)
    decreases i, 0
  {
    match i
    case Parallel(cs, _) => forall k :: 0 <= k < |cs| ==> Wf(cs[k])
    case Decorator(c, _) => Wf(c)
    case Invert(c) => Wf(c)
    case Counting(_, c, _, _) => Wf(c)
    case AlwaysFail(oc) => oc.Some? ==> Wf(oc.value)
    case AlwaysSucceed(oc) => oc.Some? ==> Wf(oc.value)
    case _ => true
  }

  /** The constructors (`Repeat::new`, `with_limit`, ...) start every count
      at zero, so a tree built from them satisfies the invariant. */
  lemma FreshCounterWf<W>(kind: Counter, c: Node<W>, limit: Option<nat>)
    requires Wf(c)
    ensures Wf(NewNode(Counting(kind, c, limit, 0)))
  {
  }

  /** A count in a well-formed tree fits in a `u32` whenever its limit does. */
  lemma CountFitsU32<W>(n: Node<W>)
    requires Wf(n) && n.internals.Counting? && n.internals.limit.Some?
    requires n.internals.limit.value <= U32_MAX
    ensures n.internals.attempts <= U32_MAX
  {
  }

  /** One counted step keeps the per-node invariant. */
  lemma StepKeepsBound(kind: Counter, limit: Option<nat>, attempts: nat, child: Status)
    requires limit.None? ==> attempts == 0
    requires limit.Some? ==> attempts == 0 || attempts < limit.value
    ensures var st := CounterStep(kind, limit, attempts, child);
            (limit.None? ==> st.attempts == 0) &&
            (limit.Some? ==> st.attempts <= Ceiling(limit.value) &&
                             (!st.status.IsDone() ==> st.attempts == 0 || st.attempts < limit.value))
  {
  }

  lemma {:induction false} TickKeepsWf<W>(n: Node<W>, w: W, env: Env)
    requires Wf(n)
    ensures NodeTick(n, w, env).Ok? ==> Wf(NodeTick(n, w, env).value.node)
    decreases NodeSize(n), 3
  {
    if NodeTick(n, w, env).Ok? {
      var m := if n.status.IsDone() then NodeReset(n, env).value else n;
      if n.status.IsDone() {
        ResetKeepsWf(n, env);
      }
      BodyKeepsWf(m, w, env);
    }
  }

  lemma {:induction false} BodyKeepsWf<W>(n: Node<W>, w: W, env: Env)
    requires Wf(n)
    requires n.status == Initialized || n.status == Running
    ensures TickBody(n, w, env).Ok? ==>
              var r := TickBody(n, w, env).value;
              Wf(Node(r.status, n.name, r.internals))
    decreases NodeSize(n), 2
  {
    assert NodeSize(n) == 1 + InternalsSize(n.internals);
    if TickBody(n, w, env).Ok? {
      match n.internals
      case Parallel(cs, k) =>
        ChildrenKeepWf(cs, w, env);
      case Decorator(c, _) =>
        TickKeepsWf(c, w, env);
      case Invert(c) =>
        TickKeepsWf(c, w, env);
      case Counting(kind, c, limit, attempts) =>
        TickKeepsWf(c, w, env);
        StepKeepsBound(kind, limit, attempts, NodeTick(c, w, env).value.status);
      case AlwaysFail(oc) =>
        if oc.Some? {
          TickKeepsWf(oc.value, w, env);
        }
      case AlwaysSucceed(oc) =>
        if oc.Some? {
          TickKeepsWf(oc.value, w, env);
        }
      case _ =>
    }
  }

  lemma {:induction false} ChildrenKeepWf<W>(cs: seq<Node<W>>, w: W, env: Env)
    requires forall k :: 0 <= k < |cs| ==> Wf(cs[k])
    ensures TickChildren(cs, w, env).Ok? ==>
              forall k :: 0 <= k < |cs| ==> Wf(TickChildren(cs, w, env).value.children[k])
    decreases SizeAll(cs), 4
  {
    if cs != [] && TickChildren(cs, w, env).Ok? {
      var init := cs[..|cs| - 1];
      var last := cs[|cs| - 1];
      ChildrenKeepWf(init, w, env);
      var sw := TickChildren(init, w, env).value;
      if !last.status.IsDone() {
        TickKeepsWf(last, sw.world, env);
      }
    }
  }

  lemma {:induction false} ResetKeepsWf<W>(n: Node<W>, env: Env)
    requires Wf(n)
    ensures NodeReset(n, env).Ok? ==> Wf(NodeReset(n, env).value)
    decreases NodeSize(n), 1
  {
    if n.status != Initialized {
      ResetBodyKeepsWf(n.internals, env);
    }
  }

  lemma {:induction false} ResetBodyKeepsWf<W>(i: Internals<W>, env: Env)
    requires WfInternals(i)
    ensures ResetBody(i, env).Ok? ==> WfInternals(ResetBody(i, env).value)
    ensures ResetBody(i, env).Ok? && i.Counting? ==>
              ResetBody(i, env).value.Counting? && ResetBody(i, env).value.attempts == 0
    decreases InternalsSize(i), 1
  {
    if ResetBody(i, env).Ok? {
      match i
      case Parallel(cs, _) =>
        ResetChildrenKeepWf(cs, env);
      case Decorator(c, _) =>
        ResetKeepsWf(c, env);
      case Invert(c) =>
        ResetKeepsWf(c, env);
      case Counting(_, c, _, _) =>
        ResetKeepsWf(c, env);
      case AlwaysFail(oc) =>
        if oc.Some? {
          ResetKeepsWf(oc.value, env);
        }
      case AlwaysSucceed(oc) =>
        if oc.Some? {
          ResetKeepsWf(oc.value, env);
        }
      case _ =>
    }
  }

  lemma {:induction false} ResetChildrenKeepWf<W>(cs: seq<Node<W>>, env: Env)
    requires forall k :: 0 <= k < |cs| ==> Wf(cs[k])
    ensures ResetChildren(cs, env).Ok? ==> forall k :: 0 <= k < |cs| ==> Wf(ResetChildren(cs, env).value[k])
    decreases SizeAll(cs), 2
  {
    if cs != [] && ResetChildren(cs, env).Ok? {
      ResetChildrenKeepWf(cs[..|cs| - 1], env);
      ResetKeepsWf(cs[|cs| - 1], env);
    }
  }
}
