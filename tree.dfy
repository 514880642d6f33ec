/** The current node API (src/node.rs and the nodes under src/std_nodes/ that
    implement `Tickable<W>`): a `Node` wrapper owning exactly one set of
    internals, and the internals of every standard node kind.

    The tree is an exclusively owned hierarchy: every node is owned by its
    parent and nothing is shared, so a tick that updates the tree in place is
    modelled as a function from the old tree to the new one. The world is a
    value of the type parameter `W` that ticks thread through in order. */
module Tree {
  import opened Base
  import opened Statuses
  import opened Testing
  import opened DecoratorLogic

  // ---------------------------------------------------------------------
  // The worker channel of an `Action`

  /** What the worker of an `Action` has done by the time its channel is
      read: not yet finished, finished (its result waits in the channel), or
      died without sending (its task panicked). Thread timing is outside the
      model, so each tick gets this as an input, per action id. */
  datatype Arrival = NotYet | Arrived | WorkerDied

  type Env = nat -> Arrival

  /** An open rendezvous channel: the result the worker computes, and whether
      that result has already been handed over (after which the worker, and
      with it the sending end, is gone). */
  datatype Channel = Channel(result: Status, delivered: bool)

  /** The outcome of reading the channel. */
  datatype Recv = Empty | Got(status: Status) | Disconnected

  /** A non-blocking read (`try_recv`). */
  function TryRecv(ch: Channel, a: Arrival): (r: Recv)
    ensures ch.delivered ==> r == Disconnected
    ensures !ch.delivered ==> (r == Empty <==> a == NotYet)
    ensures !ch.delivered ==> (r == Got(ch.result) <==> a == Arrived)
    ensures !ch.delivered ==> (r == Disconnected <==> a == WorkerDied)
  {
    if ch.delivered then Disconnected
    else match a
      case NotYet => Empty
      case Arrived => Got(ch.result)
      case WorkerDied => Disconnected
  }

  /** A blocking read (`recv`): it waits for the worker, so it can only
      deliver the result or find the sender gone. */
  function BlockingRecv(ch: Channel, a: Arrival): (r: Recv)
    ensures r != Empty
    ensures r.Got? <==> !ch.delivered && a != WorkerDied
    ensures r.Got? ==> r.status == ch.result
  {
    if ch.delivered || a == WorkerDied then Disconnected else Got(ch.result)
  }

  // ---------------------------------------------------------------------
  // Nodes and internals

  /** The wrapper: the status returned by the last tick (`Initialized` after
      creation or reset), an optional display name, and the internals. */
  datatype Node<!W> = Node(status: Status, name: Option<string>, internals: Internals<W>)

  /** The internals of each standard node kind. User closures are fields of
      function type: a condition's predicate, an inline action's task (which
      may change the world), an action's task (run by its worker on a copy of
      the world) and a decorator's status map. */
  datatype Internals<!W> =
    | Parallel(children: seq<Node<W>>, required: nat)
    | Decorator(child: Node<W>, func: (Status, W) -> Status)
    | Invert(child: Node<W>)
    | Counting(kind: Counter, child: Node<W>, limit: Option<nat>, attempts: nat)
    | AlwaysFail(optChild: Option<Node<W>>)
    | AlwaysSucceed(optChild: Option<Node<W>>)
    | AlwaysRunning
    | Condition(pred: W -> bool)
    | InlineAction(task: W -> (Status, W))
    | Action(id: nat, work: W -> Status, rx: Option<Channel>)
    | Stub(stub: Stub)

  /** The result of ticking a node, of ticking internals, and of ticking the
      children of a `Parallel` node. */
  datatype Ticked<!W> = Ticked(node: Node<W>, status: Status, world: W)
  datatype Stepped<!W> = Stepped(internals: Internals<W>, status: Status, world: W)
  datatype Swept<!W> = Swept(children: seq<Node<W>>, world: W)

  /** Number of nodes in a tree; ticks and resets never change it. */
  function NodeSize<W>(n: Node<W>): (s: nat)
    ensures s >= 1
    decreases n
  {
    1 + InternalsSize(n.internals)
  }

  function InternalsSize<W>(i: Internals<W>): nat
    decreases i
  {
    match i
    case Parallel(cs, _) => 1 + SizeAll(cs)
    case Decorator(c, _) => 1 + NodeSize(c)
    case Invert(c) => 1 + NodeSize(c)
    case Counting(_, c, _, _) => 1 + NodeSize(c)
    case AlwaysFail(oc) => 1 + (if oc.Some? then NodeSize(oc.value) else 0)
    case AlwaysSucceed(oc) => 1 + (if oc.Some? then NodeSize(oc.value) else 0)
    case _ => 1
  }

  function SizeAll<W>(cs: seq<Node<W>>): nat
    decreases cs
  {
    if cs == [] then 0 else SizeAll(cs[..|cs| - 1]) + NodeSize(cs[|cs| - 1])
  }

  // ---------------------------------------------------------------------
  // Pure pieces of the individual node kinds

  /** The threshold vote of `Parallel` over the tallies of one tick. */
  function ParallelVerdict(successes: nat, failures: nat, required: nat, n: nat): (r: Status)
    ensures r == Succeeded <==> successes >= required
    ensures r == Failed <==> successes < required && failures + required > n
    ensures r == Running <==> successes < required && failures + required <= n
  {
    if successes >= required then Succeeded
    else if failures + required > n then Failed
    else Running
  }

  /** Number of nodes in `cs` whose stored status is `s`. */
  function CountStatus<W>(cs: seq<Node<W>>, s: Status): (k: nat)
    ensures k <= |cs|
  {
    if cs == [] then 0
    else CountStatus(cs[..|cs| - 1], s) + (if cs[|cs| - 1].status == s then 1 else 0)
  }

  /** `AlwaysFail`/`AlwaysSucceed`: without a child the fixed status; with one,
      `Running` while the child's result is not finished, and the fixed status
      once it is, whatever that result was. */
  function ConstantStatus(fixed: Status, childResult: Option<Status>): (r: Status)
    ensures childResult.None? ==> r == fixed
    ensures childResult.Some? && !childResult.value.IsDone() ==> r == Running
    ensures childResult.Some? && childResult.value.IsDone() ==> r == fixed
  {
    if childResult.Some? && !childResult.value.IsDone() then Running else fixed
  }

  /** `Condition`: the predicate's answer as a finished status. */
  function ConditionStatus(holds: bool): (r: Status)
    ensures r.IsDone()
    ensures r == Succeeded <==> holds
  {
    if holds then Succeeded else Failed
  }

  /** The new receiver and status after one `Action` tick that polls an open
      channel: an empty channel keeps waiting; a `Running` result drops the
      receiver so that the next tick starts the task again; any other result
      is returned and the receiver is kept; a closed channel is fatal. */
  function ActionPoll(ch: Channel, a: Arrival): (r: Result<(Option<Channel>, Status)>)
    ensures r.Fatal? <==> TryRecv(ch, a) == Disconnected
    ensures r.Fatal? ==> r.panic == WorkerDisconnected
    ensures TryRecv(ch, a) == Empty ==> r == Ok((Some(ch), Running))
    ensures TryRecv(ch, a) == Got(Running) ==> r == Ok((None, Running))
    ensures TryRecv(ch, a).Got? && TryRecv(ch, a).status != Running ==>
              r == Ok((Some(ch.(delivered := true)), ch.result))
  {
    match TryRecv(ch, a)
    case Empty => Ok((Some(ch), Running))
    case Got(s) => if s == Running then Ok((None, Running)) else Ok((Some(ch.(delivered := true)), s))
    case Disconnected => Fatal(WorkerDisconnected)
  }

  /** `Action` reset as the source writes it: with a receiver, wait for the
      worker and abort unless a result arrives, even when the result was
      already handed over; afterwards there is no receiver. */
  function ActionResetAsWritten(rx: Option<Channel>, a: Arrival): (r: Result<Option<Channel>>)
    ensures r.Ok? ==> r.value.None?
    ensures rx.None? ==> r.Ok?
    ensures rx.Some? ==> (r.Fatal? <==> BlockingRecv(rx.value, a) == Disconnected)
    ensures r.Fatal? ==> r.panic == ResetRecvFailed
  {
    match rx
    case None => Ok(None)
    case Some(ch) => if BlockingRecv(ch, a).Got? then Ok(None) else Fatal(ResetRecvFailed)
  }

  /** `Action` reset as documented: wait only for a task that is still
      running (abort if its worker died), and drop a receiver whose result
      was already handed over; afterwards there is no receiver. */
  function ActionReset(rx: Option<Channel>, a: Arrival): (r: Result<Option<Channel>>)
    ensures r.Ok? ==> r.value.None?
    ensures rx.None? || rx.value.delivered ==> r == Ok(None)
    ensures rx.Some? && !rx.value.delivered ==> (r.Fatal? <==> a == WorkerDied)
    ensures r.Fatal? ==> r.panic == ResetRecvFailed
  {
    match rx
    case None => Ok(None)
    case Some(ch) =>
      if ch.delivered then Ok(None)
      else ActionResetAsWritten(rx, a)
  }

  // ---------------------------------------------------------------------
  // Tick and reset

  /** The wrapper's tick: a node whose last status is finished is reset
      first, then the internals are ticked, and their result becomes the
      node's status. */
  function NodeTick<W>(n: Node<W>, w: W, env: Env): (r: Result<Ticked<W>>)
    ensures r.Ok? ==> r.value.node.status == r.value.status
    ensures r.Ok? ==> r.value.node.name == n.name
    ensures r.Ok? ==> NodeSize(r.value.node) == NodeSize(n)
    decreases NodeSize(n), 3
  {
    var prepared := if n.status.IsDone() then NodeReset(n, env) else Ok(n);
    match prepared
    case Fatal(p) => Fatal(p)
    case Ok(m) =>
      match TickBody(m, w, env)
      case Fatal(p) => Fatal(p)
      case Ok(st) => Ok(Ticked(Node(st.status, m.name, st.internals), st.status, st.world))
  }

  /** The internals' tick (`Tickable::tick`). Its precondition is the
      contract the wrapper promises: internals are only ever ticked while the
      node's status is `Initialized` or `Running`. */
  function TickBody<W>(n: Node<W>, w: W, env: Env): (r: Result<Stepped<W>>)
    requires n.status == Initialized || n.status == Running
    ensures r.Ok? ==> InternalsSize(r.value.internals) == InternalsSize(n.internals)
    decreases NodeSize(n), 2
  {
    assert NodeSize(n) == 1 + InternalsSize(n.internals);
    match n.internals
    case Parallel(cs, k) =>
      (match TickChildren(cs, w, env)
      case Fatal(p) => Fatal(p)
      case Ok(sw) =>
        var verdict := ParallelVerdict(CountStatus(sw.children, Succeeded),
                                       CountStatus(sw.children, Failed), k, |cs|);
        Ok(Stepped(Parallel(sw.children, k), verdict, sw.world)))
    case Decorator(c, f) =>
      (match NodeTick(c, w, env)
      case Fatal(p) => Fatal(p)
      case Ok(t) => Ok(Stepped(Decorator(t.node, f), f(t.status, t.world), t.world)))
    case Invert(c) =>
      (match NodeTick(c, w, env)
      case Fatal(p) => Fatal(p)
      case Ok(t) => Ok(Stepped(Invert(t.node), InvertStatus(t.status), t.world)))
    case Counting(kind, c, limit, attempts) =>
      (match NodeTick(c, w, env)
      case Fatal(p) => Fatal(p)
      case Ok(t) =>
        var st := CounterStep(kind, limit, attempts, t.status);
        Ok(Stepped(Counting(kind, t.node, limit, st.attempts), st.status, t.world)))
    case AlwaysFail(oc) =>
      if oc.None? then Ok(Stepped(n.internals, Failed, w))
      else (match NodeTick(oc.value, w, env)
        case Fatal(p) => Fatal(p)
        case Ok(t) => Ok(Stepped(AlwaysFail(Some(t.node)), ConstantStatus(Failed, Some(t.status)), t.world)))
    case AlwaysSucceed(oc) =>
      if oc.None? then Ok(Stepped(n.internals, Succeeded, w))
      else (match NodeTick(oc.value, w, env)
        case Fatal(p) => Fatal(p)
        case Ok(t) => Ok(Stepped(AlwaysSucceed(Some(t.node)), ConstantStatus(Succeeded, Some(t.status)), t.world)))
    case AlwaysRunning => Ok(Stepped(AlwaysRunning, Running, w))
    case Condition(p) => Ok(Stepped(n.internals, ConditionStatus(p(w)), w))
    case InlineAction(task) => Ok(Stepped(n.internals, task(w).0, task(w).1))
    case Action(id, work, rx) =>
      if rx.None? then
        // start the worker on a copy of the world; the tick itself does not wait
        Ok(Stepped(Action(id, work, Some(Channel(work(w), false))), Running, w))
      else
        (match ActionPoll(rx.value, env(id))
         case Fatal(p) => Fatal(p)
         case Ok(polled) => Ok(Stepped(Action(id, work, polled.0), polled.1, w)))
    case Stub(t) =>
      (match StubTick(t)
      case Fatal(p) => Fatal(p)
      case Ok(res) => Ok(Stepped(Stub(res.0), res.1, w)))
  }

  /** The `Parallel` loop: children in vector order, skipping (and keeping)
      every child whose stored status is finished, ticking every other one
      once with the world left by the previous tick. */
  function TickChildren<W>(cs: seq<Node<W>>, w: W, env: Env): (r: Result<Swept<W>>)
    ensures r.Ok? ==> |r.value.children| == |cs| && SizeAll(r.value.children) == SizeAll(cs)
    ensures r.Ok? ==> forall k :: 0 <= k < |cs| && cs[k].status.IsDone() ==> r.value.children[k] == cs[k]
    decreases SizeAll(cs), 4
  {
    if cs == [] then Ok(Swept([], w))
    else
      match TickChildren(cs[..|cs| - 1], w, env)
      case Fatal(p) => Fatal(p)
      case Ok(sw) =>
        var c := cs[|cs| - 1];
        if c.status.IsDone() then
          Ok(Swept(sw.children + [c], sw.world))
        else
          match NodeTick(c, sw.world, env)
          case Fatal(p) => Fatal(p)
          case Ok(t) => Ok(Swept(sw.children + [t.node], t.world))
  }

  /** The wrapper's reset: nothing happens on an `Initialized` node;
      otherwise the internals are reset and the status becomes
      `Initialized`. */
  function NodeReset<W>(n: Node<W>, env: Env): (r: Result<Node<W>>)
    ensures n.status == Initialized ==> r == Ok(n)
    ensures r.Ok? ==> r.value.status == Initialized && r.value.name == n.name
    ensures r.Ok? ==> NodeSize(r.value) == NodeSize(n)
    decreases NodeSize(n), 1
  {
    if n.status == Initialized then Ok(n)
    else
      match ResetBody(n.internals, env)
      case Fatal(p) => Fatal(p)
      case Ok(i) => Ok(Node(Initialized, n.name, i))
  }

  /** The internals' reset (`Tickable::reset`). */
  function ResetBody<W>(i: Internals<W>, env: Env): (r: Result<Internals<W>>)
    ensures r.Ok? ==> InternalsSize(r.value) == InternalsSize(i)
    decreases InternalsSize(i), 1
  {
    match i
    case Parallel(cs, k) =>
      (match ResetChildren(cs, env)
      case Fatal(p) => Fatal(p)
      case Ok(cs') => Ok(Parallel(cs', k)))
    case Decorator(c, f) =>
      (match NodeReset(c, env)
      case Fatal(p) => Fatal(p)
      case Ok(c') => Ok(Decorator(c', f)))
    case Invert(c) =>
      (match NodeReset(c, env)
      case Fatal(p) => Fatal(p)
      case Ok(c') => Ok(Invert(c')))
    case Counting(kind, c, limit, _) =>
      (match NodeReset(c, env)
      case Fatal(p) => Fatal(p)
      case Ok(c') => Ok(Counting(kind, c', limit, 0)))
    case AlwaysFail(oc) =>
      if oc.None? then Ok(i)
      else (match NodeReset(oc.value, env)
        case Fatal(p) => Fatal(p)
        case Ok(c') => Ok(AlwaysFail(Some(c'))))
    case AlwaysSucceed(oc) =>
      if oc.None? then Ok(i)
      else (match NodeReset(oc.value, env)
        case Fatal(p) => Fatal(p)
        case Ok(c') => Ok(AlwaysSucceed(Some(c'))))
    case AlwaysRunning => Ok(i)
    case Condition(_) => Ok(i)
    case InlineAction(_) => Ok(i)
    case Action(id, work, rx) =>
      (match ActionReset(rx, env(id))
      case Fatal(p) => Fatal(p)
      case Ok(rx') => Ok(Action(id, work, rx')))
    case Stub(t) => Ok(Stub(StubReset(t)))
  }

  /** The `Parallel` reset loop: every child is reset, in order. */
  function ResetChildren<W>(cs: seq<Node<W>>, env: Env): (r: Result<seq<Node<W>>>)
    ensures r.Ok? ==> |r.value| == |cs| && SizeAll(r.value) == SizeAll(cs)
    ensures r.Ok? ==> forall k :: 0 <= k < |cs| ==> r.value[k].status == Initialized && r.value[k].name == cs[k].name
    decreases SizeAll(cs), 2
  {
    if cs == [] then Ok([])
    else
      match ResetChildren(cs[..|cs| - 1], env)
      case Fatal(p) => Fatal(p)
      case Ok(done) =>
        match NodeReset(cs[|cs| - 1], env)
        case Fatal(p) => Fatal(p)
        case Ok(c) => Ok(done + [c])
  }

  // ---------------------------------------------------------------------
  // Construction and read accessors

  /** A new node wraps its internals with status `Initialized` and no name. */
  function NewNode<W>(i: Internals<W>): (n: Node<W>)
    ensures n.status == Initialized && n.name.None? && n.internals == i
  {
    Node(Initialized, None, i)
  }

  /** Each node kind reports its own type name, and no two kinds share one.
      The `NoTick` and `YesTick` stubs have no type name of their own; the
      model names them after their types. */
  function TypeName<W>(i: Internals<W>): (s: string)
    ensures s == "Parallel" <==> i.Parallel?
    ensures s == "Decorator" <==> i.Decorator?
    ensures s == "Invert" <==> i.Invert?
    ensures s == "Repeat" <==> i.Counting? && i.kind == RepeatCounter
    ensures s == "UntilFail" <==> i.Counting? && i.kind == UntilFailCounter
    ensures s == "UntilSuccess" <==> i.Counting? && i.kind == UntilSuccessCounter
    ensures s == "AlwaysFail" <==> i.AlwaysFail?
    ensures s == "AlwaysSucceed" <==> i.AlwaysSucceed?
    ensures s == "AlwaysRunning" <==> i.AlwaysRunning?
    ensures s == "Condition" <==> i.Condition?
    ensures s == "InlineAction" <==> i.InlineAction?
    ensures s == "Action" <==> i.Action?
    ensures s == "NoTick" <==> i.Stub? && i.stub.NoTick?
    ensures s == "YesTick" <==> i.Stub? && i.stub.YesTick?
  {
    match i
    case Parallel(_, _) => "Parallel"
    case Decorator(_, _) => "Decorator"
    case Invert(_) => "Invert"
    case Counting(k, _, _, _) =>
      (match k
       case RepeatCounter => "Repeat"
       case UntilFailCounter => "UntilFail"
       case UntilSuccessCounter => "UntilSuccess")
    case AlwaysFail(_) => "AlwaysFail"
    case AlwaysSucceed(_) => "AlwaysSucceed"
    case AlwaysRunning => "AlwaysRunning"
    case Condition(_) => "Condition"
    case InlineAction(_) => "InlineAction"
    case Action(_, _, _) => "Action"
    case Stub(t) => if t.NoTick? then "NoTick" else "YesTick"
  }

  /** The display name: the assigned name if there is one, else the type name. */
  function Name<W>(n: Node<W>): (s: string)
    ensures n.name.Some? ==> s == n.name.value
    ensures n.name.None? ==> s == TypeName(n.internals)
  {
    if n.name.Some? then n.name.value else TypeName(n.internals)
  }

  /** Renaming replaces the name (`None` clears it) and nothing else. */
  function Named<W>(n: Node<W>, name: Option<string>): (m: Node<W>)
    ensures m.name == name && m.status == n.status && m.internals == n.internals
  {
    n.(name := name)
  }

  /** The children a node exposes for introspection. */
  function Children<W>(n: Node<W>): (cs: seq<Node<W>>)
    ensures n.internals.Parallel? ==> cs == n.internals.children
    ensures n.internals.Decorator? || n.internals.Invert? || n.internals.Counting? ==> cs == [n.internals.child]
    ensures n.internals.AlwaysFail? || n.internals.AlwaysSucceed? ==>
              cs == (if n.internals.optChild.Some? then [n.internals.optChild.value] else [])
    ensures (n.internals.AlwaysRunning? || n.internals.Condition? || n.internals.InlineAction? ||
             n.internals.Action? || n.internals.Stub?) ==> cs == []
  {
    match n.internals
    case Parallel(cs, _) => cs
    case Decorator(c, _) => [c]
    case Invert(c) => [c]
    case Counting(_, c, _, _) => [c]
    case AlwaysFail(oc) => if oc.Some? then [oc.value] else []
    case AlwaysSucceed(oc) => if oc.Some? then [oc.value] else []
    case _ => []
  }
}
