/** `Parallel` (src/std_nodes/parallel.rs): the counting loop, the threshold
    vote and the reset loop, with the properties the source documents. */
module ParallelNode {
  import opened Base
  import opened Statuses
  import opened Testing
  import opened Tree
  import opened NodeProps

  /** The tallies of one tick never exceed the number of children. */
  lemma {:induction false} TalliesBounded<W>(cs: seq<Node<W>>)
    ensures CountStatus(cs, Succeeded) + CountStatus(cs, Failed) <= |cs|
  {
    if cs != [] {
      TalliesBounded(cs[..|cs| - 1]);
    }
  }

  /** Given `successes + failures <= n`, the success test and the failure
      test never both hold. */
  lemma VerdictsExclusive(successes: nat, failures: nat, required: nat, n: nat)
    requires successes + failures <= n
    ensures !(successes >= required && failures + required > n)
  {
  }

  /** The status of a `Parallel` tick, in terms of the children it leaves
      behind: `Succeeded` exactly when at least `required` of them succeeded,
      otherwise `Failed` exactly when `failures + required` exceeds the number
      of children, otherwise `Running`. */
  lemma ParallelOutcome<W>(n: Node<W>, w: W, env: Env)
    requires n.status == Initialized || n.status == Running
    requires n.internals.Parallel?
    requires TickBody(n, w, env).Ok?
    ensures var r := TickBody(n, w, env).value;
            var cs := r.internals.children;
            var s, f, k := CountStatus(cs, Succeeded), CountStatus(cs, Failed), n.internals.required;
            r.internals.Parallel? && r.internals.required == k && |cs| == |n.internals.children| &&
            (r.status == Succeeded <==> s >= k) &&
            (r.status == Failed <==> s < k && f + k > |cs|) &&
            (r.status == Running <==> s < k && f + k <= |cs|)
  {
  }

  /** A threshold of zero succeeds on the first tick; a threshold above the
      number of children fails on it (and on every later tick). */
  lemma ThresholdEdges<W>(n: Node<W>, w: W, env: Env)
    requires n.status == Initialized || n.status == Running
    requires n.internals.Parallel?
    requires TickBody(n, w, env).Ok?
    ensures n.internals.required == 0 ==> TickBody(n, w, env).value.status == Succeeded
    ensures n.internals.required > |n.internals.children| ==> TickBody(n, w, env).value.status == Failed
  {
    TalliesBounded(TickBody(n, w, env).value.internals.children);
  }

  /** A child whose stored status is finished is not ticked again: it is
      carried over unchanged and its stored status is what is counted. */
  lemma DoneChildrenKept<W>(cs: seq<Node<W>>, w: W, env: Env, k: nat)
    requires k < |cs| && cs[k].status.IsDone()
    requires TickChildren(cs, w, env).Ok?
    ensures TickChildren(cs, w, env).value.children[k] == cs[k]
  {
  }

  /** The children are visited in vector order: the loop over the first
      `i + 1` children extends the loop over the first `i` by keeping child
      `i` when it is finished, and otherwise by exactly one tick of it,
      started from the world the earlier ticks left behind. */
  lemma {:induction false} TickedInOrder<W>(cs: seq<Node<W>>, w: W, env: Env, i: nat)
    requires i < |cs|
    requires TickChildren(cs[..i], w, env).Ok?
    ensures var sw := TickChildren(cs[..i], w, env).value;
            TickChildren(cs[..i + 1], w, env) ==
              if cs[i].status.IsDone() then Ok(Swept(sw.children + [cs[i]], sw.world))
              else
                match NodeTick(cs[i], sw.world, env)
                case Fatal(p) => Fatal(p)
                case Ok(t) => Ok(Swept(sw.children + [t.node], t.world))
  {
    assert cs[..i + 1][..i] == cs[..i];
  }

  /** Once a child's tick aborts, the whole loop aborts. */
  lemma {:induction false} FatalPrefix<W>(cs: seq<Node<W>>, w: W, env: Env, i: nat)
    requires i <= |cs|
    requires TickChildren(cs[..i], w, env).Fatal?
    ensures TickChildren(cs, w, env) == TickChildren(cs[..i], w, env)
    decreases |cs| - i
  {
    if i < |cs| {
      assert cs[..i + 1][..i] == cs[..i];
      FatalPrefix(cs, w, env, i + 1);
    } else {
      assert cs[..i] == cs;
    }
  }

  /** Reset resets every child, in order, and changes nothing else. */
  lemma {:induction false} ResetEveryChild<W>(cs: seq<Node<W>>, env: Env)
    requires ResetChildren(cs, env).Ok?
    ensures forall k :: 0 <= k < |cs| ==> NodeReset(cs[k], env) == Ok(ResetChildren(cs, env).value[k])
    decreases |cs|
  {
    if cs != [] {
      var init := cs[..|cs| - 1];
      ResetEveryChild(init, env);
      forall k | 0 <= k < |cs|
        ensures NodeReset(cs[k], env) == Ok(ResetChildren(cs, env).value[k])
      {
        if k < |cs| - 1 {
          assert cs[k] == init[k];
        }
      }
    }
  }

  lemma ParallelResetOnlyChildren<W>(cs: seq<Node<W>>, required: nat, env: Env)
    ensures ResetBody(Parallel(cs, required), env).Ok? <==> ResetChildren(cs, env).Ok?
    ensures ResetBody(Parallel(cs, required), env).Ok? ==>
              ResetBody(Parallel(cs, required), env).value == Parallel(ResetChildren(cs, env).value, required)
  {
  }

  // ---------------------------------------------------------------------
  // The loops as the source writes them

  /** `Parallel::tick`: one pass over the children with two running tallies,
      then the threshold vote. */
  method TickParallel<W>(children: seq<Node<W>>, required: nat, w: W, env: Env)
    returns (r: Result<Stepped<W>>)
    ensures r.Fatal? <==> TickChildren(children, w, env).Fatal?
    ensures r.Ok? ==>
              var sw := TickChildren(children, w, env).value;
              r.value == Stepped(Parallel(sw.children, required),
                                 ParallelVerdict(CountStatus(sw.children, Succeeded),
                                                 CountStatus(sw.children, Failed), required, |children|),
                                 sw.world)
  {
    var successes, failures := 0, 0;
    var visited: seq<Node<W>> := [];
    var world := w;
    var i := 0;
    while i < |children|
      invariant 0 <= i <= |children|
      invariant TickChildren(children[..i], w, env) == Ok(Swept(visited, world))
      invariant successes == CountStatus(visited, Succeeded)
      invariant failures == CountStatus(visited, Failed)
    {
      ghost var before := visited;
      TickedInOrder(children, w, env, i);
      var child := children[i];
      var childStatus: Status;
      if child.status.IsDone() {
        childStatus := child.status;
      } else {
        var t := NodeTick(child, world, env);
        if t.Fatal? {
          FatalPrefix(children, w, env, i + 1);
          return Fatal(t.panic);
        }
        child, childStatus, world := t.value.node, t.value.status, t.value.world;
      }
      if childStatus == Succeeded {
        successes := successes + 1;
      } else if childStatus == Failed {
        failures := failures + 1;
      }
      visited := visited + [child];
      CountAppend(before, child, Succeeded);
      CountAppend(before, child, Failed);
      i := i + 1;
    }
    assert children[..i] == children;
    r := Ok(Stepped(Parallel(visited, required), ParallelVerdict(successes, failures, required, |children|), world));
  }

  /** `Parallel::reset`: a loop resetting every child in turn. */
  method ResetParallel<W>(children: seq<Node<W>>, env: Env) returns (r: Result<seq<Node<W>>>)
    ensures r == ResetChildren(children, env)
  {
    var reset: seq<Node<W>> := [];
    var i := 0;
    while i < |children|
      invariant 0 <= i <= |children|
      invariant ResetChildren(children[..i], env) == Ok(reset)
    {
      assert children[..i + 1][..i] == children[..i];
      var c := NodeReset(children[i], env);
      if c.Fatal? {
        ResetFatalPrefix(children, env, i + 1);
        return Fatal(c.panic);
      }
      reset := reset + [c.value];
      i := i + 1;
    }
    assert children[..i] == children;
    r := Ok(reset);
  }

  lemma {:induction false} ResetFatalPrefix<W>(cs: seq<Node<W>>, env: Env, i: nat)
    requires i <= |cs|
    requires ResetChildren(cs[..i], env).Fatal?
    ensures ResetChildren(cs, env) == ResetChildren(cs[..i], env)
    decreases |cs| - i
  {
    if i < |cs| {
      assert cs[..i + 1][..i] == cs[..i];
      ResetFatalPrefix(cs, env, i + 1);
    } else {
      assert cs[..i] == cs;
    }
  }

  // ---------------------------------------------------------------------
  // The tests: six stub children {S, S, R, R, F, F}

  function YesNode<W>(s: Status): Node<W>
  {
    NewNode(Stub(NewYesTick(s)))
  }

  function SixChildren<W>(): seq<Node<W>>
  {
    [YesNode(Succeeded), YesNode(Succeeded), YesNode(Running),
     YesNode(Running), YesNode(Failed), YesNode(Failed)]
  }

  /** What ticking a fresh `YesTick` child leaves behind. */
  function TickedStub<W>(c: Node<W>): Node<W>
    requires c.internals.Stub? && c.internals.stub.YesTick?
  {
    Node(c.internals.stub.fixed, c.name, Stub(c.internals.stub.(ticked := true)))
  }

  function SixTicked<W>(): seq<Node<W>>
  {
    seq(6, k requires 0 <= k < 6 => TickedStub(SixChildren<W>()[k]))
  }

  /** Threshold 2 succeeds, 5 fails and 3 keeps running. */
  lemma SixChildrenVotes<W>(cs: seq<Node<W>>, w: W, env: Env, required: nat)
    requires cs == SixChildren<W>()
    requires required == 2 || required == 3 || required == 5
    ensures var r := NodeTick(NewNode(Parallel(cs, required)), w, env);
            r.Ok? && r.value.status == (if required == 2 then Succeeded else if required == 5 then Failed else Running)
  {
    SixFresh(cs);
    StubsVote(cs, required, w, env);
    SixCounts<W>();
  }

  /** Every stub child was ticked, so dropping the node after one tick passes
      the stubs' drop check. */
  lemma SixChildrenAllTicked<W>(cs: seq<Node<W>>, w: W, env: Env, required: nat)
    requires cs == SixChildren<W>()
    ensures var r := NodeTick(NewNode(Parallel(cs, required)), w, env);
            r.Ok? && r.value.node.internals.Parallel? && |r.value.node.internals.children| == 6 &&
            forall k :: 0 <= k < 6 ==>
              r.value.node.internals.children[k].internals.Stub? &&
              StubDrop(r.value.node.internals.children[k].internals.stub).Ok?
  {
    SixFresh(cs);
    StubsVote(cs, required, w, env);
    SixAllTicked<W>();
  }

  lemma SixFresh<W>(cs: seq<Node<W>>)
    requires cs == SixChildren<W>()
    ensures forall k :: 0 <= k < |cs| ==>
              (cs[k].status == Initialized && cs[k].internals.Stub? && cs[k].internals.stub.YesTick?)
    ensures SweptStubs(cs) == SixTicked<W>()
  {
    SweptStubsAt(cs);
  }

  lemma SixAllTicked<W>()
    ensures forall k :: 0 <= k < 6 ==>
              SixTicked<W>()[k].internals.Stub? && StubDrop(SixTicked<W>()[k].internals.stub).Ok?
  {
  }

  /** A `Parallel` node over fresh `YesTick` stubs ticks every stub once and
      votes on the stubs' fixed statuses. */
  lemma StubsVote<W>(cs: seq<Node<W>>, required: nat, w: W, env: Env)
    requires forall k :: 0 <= k < |cs| ==> cs[k].status == Initialized &&
                                           cs[k].internals.Stub? && cs[k].internals.stub.YesTick?
    ensures var t := SweptStubs(cs);
            var v := ParallelVerdict(CountStatus(t, Succeeded), CountStatus(t, Failed), required, |cs|);
            NodeTick(NewNode(Parallel(cs, required)), w, env) == Ok(Ticked(Node(v, None, Parallel(t, required)), v, w))
  {
    SweepStubs(cs, w, env);
    var n := NewNode(Parallel(cs, required));
    ParallelBody(n, w, env);
    TickNotDone(n, w, env);
  }

  /** The `Parallel` arm of the internals' tick, unfolded. */
  lemma ParallelBody<W>(n: Node<W>, w: W, env: Env)
    requires n.status == Initialized || n.status == Running
    requires n.internals.Parallel?
    ensures var cs, k := n.internals.children, n.internals.required;
            TickBody(n, w, env) ==
              match TickChildren(cs, w, env)
              case Fatal(p) => Fatal(p)
              case Ok(sw) => Ok(Stepped(Parallel(sw.children, k),
                                        ParallelVerdict(CountStatus(sw.children, Succeeded),
                                                        CountStatus(sw.children, Failed), k, |cs|),
                                        sw.world))
  {
  }

  lemma SixCounts<W>()
    ensures CountStatus(SixTicked<W>(), Succeeded) == 2 && CountStatus(SixTicked<W>(), Failed) == 2
  {
    var t := SixTicked<W>();
    var a, r, f := TickedStub(YesNode<W>(Succeeded)), TickedStub(YesNode<W>(Running)), TickedStub(YesNode<W>(Failed));
    assert t == [a, a, r, r, f, f];
    forall s | s == Succeeded || s == Failed
      ensures CountStatus(t, s) == 2
    {
      assert [] + [a] == [a] && [a] + [a] == [a, a] && [a, a] + [r] == [a, a, r];
      assert [a, a, r] + [r] == [a, a, r, r] && [a, a, r, r] + [f] == [a, a, r, r, f];
      assert [a, a, r, r, f] + [f] == t;
      CountAppend([], a, s);
      CountAppend([a], a, s);
      CountAppend([a, a], r, s);
      CountAppend([a, a, r], r, s);
      CountAppend([a, a, r, r], f, s);
      CountAppend([a, a, r, r, f], f, s);
    }
  }

  lemma CountAppend<W>(cs: seq<Node<W>>, c: Node<W>, s: Status)
    ensures CountStatus(cs + [c], s) == CountStatus(cs, s) + (if c.status == s then 1 else 0)
  {
    assert (cs + [c])[..|cs|] == cs;
  }

  lemma FreshStubTick<W>(c: Node<W>, w: W, env: Env)
    requires c.status == Initialized && c.internals.Stub? && c.internals.stub.YesTick?
    ensures NodeTick(c, w, env) == Ok(Ticked(TickedStub(c), c.internals.stub.fixed, w))
  {
  }

  /** The children after one sweep over fresh stubs. */
  function SweptStubs<W>(cs: seq<Node<W>>): (r: seq<Node<W>>)
    requires forall k :: 0 <= k < |cs| ==> cs[k].internals.Stub? && cs[k].internals.stub.YesTick?
    ensures |r| == |cs|
  {
    if cs == [] then [] else SweptStubs(cs[..|cs| - 1]) + [TickedStub(cs[|cs| - 1])]
  }

  lemma {:induction false} SweptStubsAt<W>(cs: seq<Node<W>>)
    requires forall k :: 0 <= k < |cs| ==> cs[k].internals.Stub? && cs[k].internals.stub.YesTick?
    ensures forall k :: 0 <= k < |cs| ==> SweptStubs(cs)[k] == TickedStub(cs[k])
  {
    if cs != [] {
      SweptStubsAt(cs[..|cs| - 1]);
    }
  }

  /** Sweeping fresh stub children ticks each of them once. */
  lemma {:induction false} SweepStubs<W>(cs: seq<Node<W>>, w: W, env: Env)
    requires forall k :: 0 <= k < |cs| ==> cs[k].status == Initialized &&
                                           cs[k].internals.Stub? && cs[k].internals.stub.YesTick?
    ensures TickChildren(cs, w, env) == Ok(Swept(SweptStubs(cs), w))
  {
    if cs != [] {
      SweepStubs(cs[..|cs| - 1], w, env);
      FreshStubTick(cs[|cs| - 1], w, env);
      SweepLast(cs, w, env);
    }
  }

  /** The loop's last step, unfolded. */
  lemma SweepLast<W>(cs: seq<Node<W>>, w: W, env: Env)
    requires cs != [] && !cs[|cs| - 1].status.IsDone()
    requires TickChildren(cs[..|cs| - 1], w, env).Ok?
    ensures var sw := TickChildren(cs[..|cs| - 1], w, env).value;
            TickChildren(cs, w, env) ==
              match NodeTick(cs[|cs| - 1], sw.world, env)
              case Fatal(p) => Fatal(p)
              case Ok(t) => Ok(Swept(sw.children + [t.node], t.world))
  {
  }
}
