/** Properties of the node wrapper (src/node.rs) that hold for every kind of
    internals. */
module NodeProps {
  import opened Base
  import opened Statuses
  import opened Tree

  /** The wrapper's tick of a node that is not finished: no reset, one tick
      of the internals, and the returned status stored. */
  lemma TickNotDone<W>(n: Node<W>, w: W, env: Env)
    requires n.status == Initialized || n.status == Running
    ensures NodeTick(n, w, env) ==
              match TickBody(n, w, env)
              case Fatal(p) => Fatal(p)
              case Ok(st) => Ok(Ticked(Node(st.status, n.name, st.internals), st.status, st.world))
  {
  }

  /** Ticking a finished node is exactly resetting it and then ticking the
      reset node, and the reset node is not reset a second time. */
  lemma StaleTickResets<W>(n: Node<W>, w: W, env: Env)
    requires n.status.IsDone()
    ensures NodeReset(n, env).Fatal? ==> NodeTick(n, w, env) == Fatal(NodeReset(n, env).panic)
    ensures NodeReset(n, env).Ok? ==>
              var m := NodeReset(n, env).value;
              m.status == Initialized &&
              NodeTick(n, w, env) == NodeTick(m, w, env) &&
              NodeTick(m, w, env) ==
                match TickBody(m, w, env)
                case Fatal(p) => Fatal(p)
                case Ok(st) => Ok(Ticked(Node(st.status, n.name, st.internals), st.status, st.world))
  {
    if NodeReset(n, env).Ok? {
      TickNotDone(NodeReset(n, env).value, w, env);
    }
  }

  /** Resetting twice is resetting once; resetting a node that is already
      `Initialized` changes nothing. */
  lemma ResetIdempotent<W>(n: Node<W>, env: Env)
    ensures NodeReset(n, env).Ok? ==> NodeReset(NodeReset(n, env).value, env) == NodeReset(n, env)
    ensures n.status == Initialized ==> NodeReset(n, env) == Ok(n)
  {
  }

  /** A name given with `named` is the display name and `Some` survives a
      tick and a reset; clearing it brings back the type name. Renaming
      touches neither the status nor the children. */
  lemma NameLifecycle<W>(n: Node<W>, s: string, w: W, env: Env)
    ensures Name(Named(n, Some(s))) == s
    ensures Name(Named(n, None)) == TypeName(n.internals)
    ensures Children(Named(n, Some(s))) == Children(n)
    ensures NodeTick(Named(n, Some(s)), w, env).Ok? ==> Name(NodeTick(Named(n, Some(s)), w, env).value.node) == s
    ensures NodeReset(Named(n, Some(s)), env).Ok? ==> Name(NodeReset(Named(n, Some(s)), env).value) == s
  {
  }

  /** A fresh node reports `Initialized` and its type name. */
  lemma FreshNode<W>(i: Internals<W>)
    ensures NewNode(i).status == Initialized
    ensures Name(NewNode(i)) == TypeName(i)
    ensures forall env :: NodeReset(NewNode(i), env) == Ok(NewNode(i))
  {
  }

  /** Ticking a root `k` times in a row, each tick starting from the node and
      world the previous one left, with the statuses returned. */
  function Ticks<W>(n: Node<W>, w: W, env: Env, k: nat): (r: Result<seq<Status>>)
    ensures r.Ok? ==> |r.value| == k
    decreases k
  {
    if k == 0 then Ok([])
    else
      match NodeTick(n, w, env)
      case Fatal(p) => Fatal(p)
      case Ok(t) =>
        (match Ticks(t.node, t.world, env, k - 1)
         case Fatal(p) => Fatal(p)
         case Ok(rest) => Ok([t.status] + rest))
  }
}
