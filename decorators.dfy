/** The decorator nodes of the current interface
    (src/std_nodes/decorator/decorator.rs, repeat.rs and until.rs) inside a
    tree: what one tick does with the child, what a reset does, and the
    behaviour over repeated ticks that the source's tests exercise. */
module DecoratorNodes {
  import opened Base
  import opened Statuses
  import opened Testing
  import opened DecoratorLogic
  import opened Tree
  import opened NodeProps

  /** A childless `AlwaysFail` or `AlwaysSucceed`: the same status on every
      tick, whatever its stored status was. */
  predicate ConstantLeaf<W>(c: Node<W>, s: Status)
  {
    (c.internals == AlwaysFail(None) && s == Failed) ||
    (c.internals == AlwaysSucceed(None) && s == Succeeded)
  }

  lemma ConstantLeafTick<W>(c: Node<W>, s: Status, w: W, env: Env)
    requires ConstantLeaf(c, s)
    ensures NodeTick(c, w, env) == Ok(Ticked(Node(s, c.name, c.internals), s, w))
  {
    var m := Node(Initialized, c.name, c.internals);
    if c.status.IsDone() {
      assert NodeReset(c, env) == Ok(m);
      assert TickBody(m, w, env) == Ok(Stepped(c.internals, s, w));
    } else {
      assert TickBody(c, w, env) == Ok(Stepped(c.internals, s, w));
    }
  }

  /** `Decorator` ticks its child once and reports the user function applied
      to the child's status and the world the child's tick left behind; that
      world is handed on unchanged. */
  lemma DecoratorTick<W>(n: Node<W>, w: W, env: Env)
    requires n.status == Initialized || n.status == Running
    requires n.internals.Decorator?
    ensures TickBody(n, w, env).Ok? <==> NodeTick(n.internals.child, w, env).Ok?
    ensures TickBody(n, w, env).Ok? ==>
              var t := NodeTick(n.internals.child, w, env).value;
              var r := TickBody(n, w, env).value;
              r.internals == Decorator(t.node, n.internals.func) &&
              r.status == n.internals.func(t.status, t.world) && r.world == t.world
    ensures NodeTick(n.internals.child, w, env).Fatal? ==>
              TickBody(n, w, env) == Fatal(NodeTick(n.internals.child, w, env).panic)
  {
  }

  /** `Invert` swaps `Succeeded` and `Failed`, passes every other status
      through, and hands the child's world on unchanged. */
  lemma InvertTick<W>(n: Node<W>, w: W, env: Env)
    requires n.status == Initialized || n.status == Running
    requires n.internals.Invert?
    ensures TickBody(n, w, env).Ok? <==> NodeTick(n.internals.child, w, env).Ok?
    ensures TickBody(n, w, env).Ok? ==>
              var t := NodeTick(n.internals.child, w, env).value;
              var r := TickBody(n, w, env).value;
              r.internals == Invert(t.node) && r.world == t.world &&
              (t.status == Succeeded <==> r.status == Failed) &&
              (t.status == Failed <==> r.status == Succeeded) &&
              (!t.status.IsDone() ==> r.status == t.status)
  {
    if TickBody(n, w, env).Ok? {
      InvertInvolution(NodeTick(n.internals.child, w, env).value.status);
    }
  }

  /** Two inversions cancel: an `Invert` of an `Invert` reports what its
      grandchild reports, with the same world. */
  lemma DoubleInvert<W>(c: Node<W>, s1: Status, s2: Status, nm1: Option<string>, nm2: Option<string>, w: W, env: Env)
    requires s1 == Initialized || s1 == Running
    requires s2 == Initialized || s2 == Running
    ensures var r := NodeTick(Node(s1, nm1, Invert(Node(s2, nm2, Invert(c)))), w, env);
            r.Ok? <==> NodeTick(c, w, env).Ok?
    ensures var r := NodeTick(Node(s1, nm1, Invert(Node(s2, nm2, Invert(c)))), w, env);
            r.Ok? ==> r.value.status == NodeTick(c, w, env).value.status &&
                      r.value.world == NodeTick(c, w, env).value.world
  {
    var inner := Node(s2, nm2, Invert(c));
    var outer := Node(s1, nm1, Invert(inner));
    TickNotDone(outer, w, env);
    TickNotDone(inner, w, env);
    if NodeTick(c, w, env).Ok? {
      InvertInvolution(NodeTick(c, w, env).value.status);
    }
  }

  /** The three decorators reset only their child; the counting ones also
      clear their count. */
  lemma DecoratorReset<W>(i: Internals<W>, env: Env)
    requires i.Decorator? || i.Invert? || i.Counting?
    ensures ResetBody(i, env).Ok? <==> NodeReset(i.child, env).Ok?
    ensures ResetBody(i, env).Ok? && i.Decorator? ==>
              ResetBody(i, env).value == Decorator(NodeReset(i.child, env).value, i.func)
    ensures ResetBody(i, env).Ok? && i.Invert? ==>
              ResetBody(i, env).value == Invert(NodeReset(i.child, env).value)
    ensures ResetBody(i, env).Ok? && i.Counting? ==>
              ResetBody(i, env).value == Counting(i.kind, NodeReset(i.child, env).value, i.limit, 0)
  {
  }

  /** `Repeat` never reports `Failed`, and neither does `UntilFail` or
      `UntilSuccess` without a limit. */
  lemma CountingNeverFails<W>(n: Node<W>, w: W, env: Env)
    requires n.status == Initialized || n.status == Running
    requires n.internals.Counting?
    requires n.internals.kind == RepeatCounter || n.internals.limit.None?
    requires TickBody(n, w, env).Ok?
    ensures TickBody(n, w, env).value.status != Failed
  {
    NeverFailsUnlimited(n.internals.attempts, NodeTick(n.internals.child, w, env).value.status);
  }

  /** Over a child that keeps counting attempts, a counting decorator with
      limit `l` that has already counted `a` attempts runs `l - a - 1` more
      ticks and then reports its exhausted status: `Succeeded` for `Repeat`,
      `Failed` for `UntilFail` and `UntilSuccess`. */
  lemma {:induction false} CountingCountdown<W>(kind: Counter, c: Node<W>, s: Status, l: nat, a: nat, j: nat,
                                                st: Status, name: Option<string>, w: W, env: Env)
    requires st == Initialized || st == Running
    requires ConstantLeaf(c, s) && CountsAttempt(kind, s)
    requires j >= 1 && a + j == l
    ensures Ticks(Node(st, name, Counting(kind, c, Some(l), a)), w, env, j) ==
              Ok(Repeated(Running, j - 1) + [Exhausted(kind)])
    decreases j
  {
    var m := Node(st, name, Counting(kind, c, Some(l), a));
    var c' := Node(s, c.name, c.internals);
    ConstantLeafTick(c, s, w, env);
    CountedStep(kind, l, a, s);
    var status := if a + 1 < l then Running else Exhausted(kind);
    var m' := Node(status, name, Counting(kind, c', Some(l), a + 1));
    TickNotDone(m, w, env);
    assert NodeTick(m, w, env) == Ok(Ticked(m', status, w));
    if j > 1 {
      CountingCountdown(kind, c', s, l, a + 1, j - 1, Running, name, w, env);
      assert [Running] + (Repeated(Running, j - 2) + [Exhausted(kind)]) == Repeated(Running, j - 1) + [Exhausted(kind)];
    } else {
      assert status == Exhausted(kind);
      assert Ticks(m', w, env, 0) == Ok([]);
      assert [status] + [] == [status];
      assert Ticks(m, w, env, 1) == Ok([status] + []);
      assert Repeated(Running, 0) + [Exhausted(kind)] == [status];
    }
  }

  /** The finite tests: a fresh counting decorator with limit 5 over a child
      that keeps counting runs four ticks and then reports its exhausted
      status. */
  lemma FiniteLimitFive<W>(kind: Counter, c: Node<W>, s: Status, w: W, env: Env)
    requires ConstantLeaf(c, s) && CountsAttempt(kind, s)
    ensures Ticks(NewNode(Counting(kind, c, Some(5), 0)), w, env, 5) ==
              Ok([Running, Running, Running, Running, Exhausted(kind)])
  {
    CountingCountdown(kind, c, s, 5, 0, 5, Initialized, None, w, env);
    assert NewNode(Counting(kind, c, Some(5), 0)) == Node(Initialized, None, Counting(kind, c, Some(5), 0));
    var r4 := Repeated(Running, 4);
    assert r4 == [Running, Running, Running, Running];
    assert r4 + [Exhausted(kind)] == [Running, Running, Running, Running, Exhausted(kind)];
  }

  /** The unlimited tests: `UntilFail` over a failing child and
      `UntilSuccess` over a succeeding one both succeed on the first tick,
      without counting an attempt. */
  lemma UntilShortCircuit<W>(kind: Counter, c: Node<W>, s: Status, limit: Option<nat>, w: W, env: Env)
    requires kind != RepeatCounter
    requires ConstantLeaf(c, s) && s == (if kind == UntilFailCounter then Failed else Succeeded)
    ensures var r := NodeTick(NewNode(Counting(kind, c, limit, 0)), w, env);
            r.Ok? && r.value.status == Succeeded &&
            r.value.node.internals.Counting? && r.value.node.internals.attempts == 0
  {
    ConstantLeafTick(c, s, w, env);
  }

  /** The rotation of the decorator test: the three statuses it names move
      round a cycle, and `Initialized` is left as it is. */
  function Rotate3<W>(s: Status, w: W): (r: Status)
    ensures s != Initialized ==> r != s && r != Initialized
    ensures s == Initialized ==> r == s
  {
    match s
    case Running => Succeeded
    case Succeeded => Failed
    case Failed => Running
    case Initialized => Initialized
  }

  lemma Rotate3Cycle<W>(s: Status, w: W)
    ensures Rotate3(Rotate3(Rotate3(s, w), w), w) == s
  {
  }

  /** The decorator test: a `Decorator` around a fresh `YesTick` reports the
      function of the stub's status, and the stub has been ticked. */
  lemma DecoratorRotates<W>(s: Status, w: W, env: Env)
    requires s != Initialized
    ensures var r := NodeTick(NewNode(Decorator(NewNode(Stub(NewYesTick(s))), Rotate3)), w, env);
            r.Ok? && r.value.status == Rotate3(s, w) &&
            r.value.node.internals.Decorator? && r.value.node.internals.child.internals.Stub? &&
            StubDrop(r.value.node.internals.child.internals.stub).Ok?
  {
    var c := NewNode<W>(Stub(NewYesTick(s)));
    var n := NewNode(Decorator(c, Rotate3));
    TickNotDone(c, w, env);
    TickNotDone(n, w, env);
    var t := Ticked(Node(s, None, Stub(YesTick(s, true))), s, w);
    assert NodeTick(c, w, env) == Ok(t);
    assert TickBody(n, w, env) == Ok(Stepped(Decorator(t.node, Rotate3), Rotate3(s, w), w));
  }

  /** The invert tests: `Failed` becomes `Succeeded`, `Succeeded` becomes
      `Failed` and `Running` stays `Running`. */
  lemma InvertStubs<W>(s: Status, w: W, env: Env)
    requires s != Initialized
    ensures var r := NodeTick(NewNode(Invert(NewNode(Stub(NewYesTick(s))))), w, env);
            r.Ok? &&
            r.value.status == (match s case Failed => Succeeded case Succeeded => Failed case _ => Running) &&
            r.value.node.internals.Invert? && r.value.node.internals.child.internals.Stub? &&
            StubDrop(r.value.node.internals.child.internals.stub).Ok?
  {
  }
}
