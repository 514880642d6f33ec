/** The test stubs of src/std_nodes/testing.rs. `NoTick` aborts when ticked;
    `YesTick` returns a fixed status and remembers whether it was ticked, so
    that dropping it unticked aborts. Both the old-API composites and the
    current node tree use them as children. */
module Testing {
  import opened Base
  import opened Statuses

  datatype Stub = NoTick | YesTick(fixed: Status, ticked: bool)

  function NewYesTick(s: Status): (r: Stub)
    ensures r.YesTick? && r.fixed == s && !r.ticked
  {
    YesTick(s, false)
  }

  /** Ticking: `NoTick` panics; `YesTick` sets `ticked` and returns its status. */
  function StubTick(t: Stub): (r: Result<(Stub, Status)>)
    ensures t.NoTick? <==> r == Fatal(NoTickTicked)
    ensures t.YesTick? ==> r == Ok((t.(ticked := true), t.fixed))
  {
    match t
    case NoTick => Fatal(NoTickTicked)
    case YesTick(s, _) => Ok((YesTick(s, true), s))
  }

  /** Reset: a no-op for `NoTick`; clears `ticked` for `YesTick`. */
  function StubReset(t: Stub): (r: Stub)
    ensures t.NoTick? ==> r == t
    ensures t.YesTick? ==> r == t.(ticked := false)
  {
    match t
    case NoTick => NoTick
    case YesTick(s, _) => YesTick(s, false)
  }

  /** The status the stub reports: always `Running` for `NoTick`, the
      constructed status for `YesTick`, whatever has happened since. */
  function StubStatus(t: Stub): (s: Status)
    ensures t.NoTick? ==> s == Running
    ensures t.YesTick? ==> s == t.fixed
  {
    match t
    case NoTick => Running
    case YesTick(s, _) => s
  }

  /** Dropping a stub: a `YesTick` that was never ticked panics. */
  function StubDrop(t: Stub): (r: Result<()>)
    ensures r.Fatal? <==> t.YesTick? && !t.ticked
    ensures r.Fatal? ==> r.panic == DroppedUnticked
  {
    if t.YesTick? && !t.ticked then Fatal(DroppedUnticked) else Ok(())
  }

  /** Ticking then dropping a `YesTick` never panics; resetting it again
      makes the drop check fail, and its status never changes. */
  lemma YesTickLifecycle(s: Status)
    ensures StubTick(NewYesTick(s)).Ok?
    ensures StubDrop(StubTick(NewYesTick(s)).value.0).Ok?
    ensures StubDrop(StubReset(StubTick(NewYesTick(s)).value.0)).Fatal?
    ensures StubStatus(StubReset(StubTick(NewYesTick(s)).value.0)) == s
  {
  }
}
