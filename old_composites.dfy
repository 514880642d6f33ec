/** The composites of the older node interface (src/std_nodes/selector.rs and
    src/std_nodes/sequence.rs): objects that keep their own status field and
    scan their children in order, stopping at the first child whose result
    is not the one that lets the scan go on. Children are the `NoTick` and
    `YesTick` stubs of the same interface. */
module OldComposites {
  import opened Base
  import opened Statuses
  import opened Testing

  /** The children after ticking those with index in `[lo, hi)`. */
  function TickedRange(cs: seq<Stub>, lo: nat, hi: nat): (r: seq<Stub>)
    ensures |r| == |cs|
  {
    seq(|cs|, k requires 0 <= k < |cs| => if lo <= k < hi && cs[k].YesTick? then cs[k].(ticked := true) else cs[k])
  }

  /** The index of the first child at or after `i` that stops a scan going
      on through `cont`: a `NoTick`, or a `YesTick` with another status;
      `|cs|` if there is none. */
  function FirstStop(cs: seq<Stub>, i: nat, cont: Status): (j: nat)
    requires i <= |cs|
    ensures i <= j <= |cs|
    ensures forall k :: i <= k < j ==> cs[k].YesTick? && cs[k].fixed == cont
    ensures j < |cs| ==> cs[j].NoTick? || cs[j].fixed != cont
    decreases |cs| - i
  {
    if i == |cs| || cs[i].NoTick? || cs[i].fixed != cont then i else FirstStop(cs, i + 1, cont)
  }

  /** The loop shared by both composites, from index `i`: each child is
      ticked and its result stored as `last`; the scan returns the first
      result other than `cont` and otherwise ends with the sanity check that
      `last` is `cont`. The result holds the children and the returned
      status. */
  function Scan(cs: seq<Stub>, i: nat, last: Status, cont: Status): (r: Result<(seq<Stub>, Status)>)
    requires i <= |cs|
    ensures r.Fatal? ==> r.panic == NoTickTicked || (r.panic == AssertionFailed && last != cont)
    ensures r.Ok? ==> |r.value.0| == |cs| && forall k :: 0 <= k < i ==> r.value.0[k] == cs[k]
    ensures r.Ok? ==> forall k :: 0 <= k < |cs| ==> StubStatus(r.value.0[k]) == StubStatus(cs[k])
    decreases |cs| - i
  {
    if i == |cs| then
      if last == cont then Ok((cs, cont)) else Fatal(AssertionFailed)
    else
      match StubTick(cs[i])
      case Fatal(p) => Fatal(p)
      case Ok(res) =>
        if res.1 != cont then Ok((cs[i := res.0], res.1))
        else Scan(cs[i := res.0], i + 1, res.1, cont)
  }

  /** What a scan does, independently of the loop: it ticks every child up
      to and including the first one that stops it, leaves the rest alone,
      returns that child's status, and aborts on a `NoTick` or, when no child
      was ticked and `last` is not `cont`, on the sanity check. */
  function ScanSpec(cs: seq<Stub>, i: nat, last: Status, cont: Status): Result<(seq<Stub>, Status)>
    requires i <= |cs|
  {
    var j := FirstStop(cs, i, cont);
    if j < |cs| then
      (if cs[j].NoTick? then Fatal(NoTickTicked) else Ok((TickedRange(cs, i, j + 1), cs[j].fixed)))
    else if i < j || last == cont then Ok((TickedRange(cs, i, j), cont))
    else Fatal(AssertionFailed)
  }

  lemma {:induction false} ScanOutcome(cs: seq<Stub>, i: nat, last: Status, cont: Status)
    requires i <= |cs|
    ensures Scan(cs, i, last, cont) == ScanSpec(cs, i, last, cont)
    decreases |cs| - i
  {
    if i == |cs| {
      TickedRangeEmpty(cs, i);
    } else if cs[i].NoTick? {
    } else if cs[i].fixed != cont {
      TickedRangeStep(cs, i, i + 1);
      TickedRangeEmpty(cs[i := cs[i].(ticked := true)], i + 1);
    } else {
      var cs' := cs[i := cs[i].(ticked := true)];
      ScanOutcome(cs', i + 1, cont, cont);
      ScanGoesOn(cs, i, last, cont);
      SpecGoesOn(cs, i, last, cont);
    }
  }

  /** A child with the status `cont` is ticked and the scan goes on. */
  lemma ScanGoesOn(cs: seq<Stub>, i: nat, last: Status, cont: Status)
    requires i < |cs| && cs[i].YesTick? && cs[i].fixed == cont
    ensures Scan(cs, i, last, cont) == Scan(cs[i := cs[i].(ticked := true)], i + 1, cont, cont)
  {
  }

  lemma SpecGoesOn(cs: seq<Stub>, i: nat, last: Status, cont: Status)
    requires i < |cs| && cs[i].YesTick? && cs[i].fixed == cont
    ensures ScanSpec(cs, i, last, cont) == ScanSpec(cs[i := cs[i].(ticked := true)], i + 1, cont, cont)
  {
    var cs' := cs[i := cs[i].(ticked := true)];
    var j := FirstStop(cs, i, cont);
    FirstStopUnchanged(cs, cs', i + 1, cont);
    TickedRangeStep(cs, i, if j < |cs| then j + 1 else j);
  }

  lemma TickedRangeEmpty(cs: seq<Stub>, i: nat)
    ensures TickedRange(cs, i, i) == cs
  {
  }

  /** Ticking child `i` and then the range from `i + 1` is ticking the range
      from `i`. */
  lemma TickedRangeStep(cs: seq<Stub>, i: nat, hi: nat)
    requires i < hi && i < |cs| && cs[i].YesTick?
    ensures TickedRange(cs[i := cs[i].(ticked := true)], i + 1, hi) == TickedRange(cs, i, hi)
  {
  }

  /** `FirstStop` only looks at the children from `i` on. */
  lemma {:induction false} FirstStopUnchanged(cs: seq<Stub>, cs': seq<Stub>, i: nat, cont: Status)
    requires 1 <= i <= |cs| == |cs'|
    requires forall k :: i <= k < |cs| ==> cs'[k] == cs[k]
    requires cs[i - 1].YesTick? && cs[i - 1].fixed == cont
    ensures FirstStop(cs', i, cont) == FirstStop(cs, i - 1, cont)
    decreases |cs| - i
  {
    if i < |cs| && !(cs[i].NoTick? || cs[i].fixed != cont) {
      FirstStopUnchanged(cs, cs', i + 1, cont);
    }
  }

  /** `Selector` (selector.rs): ticks its children in order until one does
      not fail and returns that child's status; fails if every child fails.
      Its status field is the last ticked child's result. */
  class Selector {
    var children: seq<Stub>
    var status: Status

    constructor(children: seq<Stub>)
      ensures this.children == children && status == Running
    {
      this.children := children;
      status := Running;
    }

    function CurrentStatus(): (s: Status)
      reads this
      ensures s == status
    {
      status
    }

    method Tick() returns (r: Result<Status>)
      modifies this
      ensures var spec := Scan(old(children), 0, old(status), Failed);
              (r.Fatal? <==> spec.Fatal?) &&
              (r.Fatal? ==> r.panic == spec.panic) &&
              (r.Ok? ==> children == spec.value.0 && r.value == spec.value.1 && status == r.value)
    {
      var i := 0;
      while i < |children|
        invariant 0 <= i <= |children| == |old(children)|
        invariant Scan(children, i, status, Failed) == Scan(old(children), 0, old(status), Failed)
      {
        var t := StubTick(children[i]);
        if t.Fatal? {
          return Fatal(t.panic);
        }
        children := children[i := t.value.0];
        status := t.value.1;
        if status != Failed {
          return Ok(status);
        }
        i := i + 1;
      }
      if status != Failed {
        return Fatal(AssertionFailed);
      }
      r := Ok(Failed);
    }

    method Reset()
      modifies this
      ensures status == Running
      ensures children == seq(|old(children)|, k requires 0 <= k < |old(children)| => StubReset(old(children)[k]))
    {
      status := Running;
      var i := 0;
      while i < |children|
        invariant 0 <= i <= |children| == |old(children)|
        invariant status == Running
        invariant forall k :: 0 <= k < i ==> children[k] == StubReset(old(children)[k])
        invariant forall k :: i <= k < |children| ==> children[k] == old(children)[k]
      {
        children := children[i := StubReset(children[i])];
        i := i + 1;
      }
    }
  }

  /** `SequencePersistent` (sequence.rs): ticks its children from
      `nextTickIndex` in order until one does not succeed and returns that
      child's status; when every child succeeds it resets itself and
      succeeds. The index is only ever set to 0. */
  class SequencePersistent {
    var children: seq<Stub>
    var nextTickIndex: nat
    var status: Status

    ghost predicate Valid()
      reads this
    {
      nextTickIndex == 0
    }

    constructor(children: seq<Stub>)
      ensures Valid()
      ensures this.children == children && status == Running
    {
      this.children := children;
      nextTickIndex := 0;
      status := Running;
    }

    function CurrentStatus(): (s: Status)
      reads this
      ensures s == status
    {
      status
    }

    method Tick() returns (r: Result<Status>)
      requires Valid()
      modifies this
      ensures Valid()
      ensures var spec := Scan(old(children), 0, old(status), Succeeded);
              (r.Fatal? <==> spec.Fatal?) &&
              (r.Fatal? ==> r.panic == spec.panic) &&
              (r.Ok? ==> children == spec.value.0 && r.value == spec.value.1 &&
                         status == (if r.value == Succeeded then Running else r.value))
    {
      var i := nextTickIndex;
      while i < |children|
        invariant 0 <= i <= |children| == |old(children)|
        invariant Valid()
        invariant Scan(children, i, status, Succeeded) == Scan(old(children), 0, old(status), Succeeded)
      {
        var t := StubTick(children[i]);
        if t.Fatal? {
          return Fatal(t.panic);
        }
        children := children[i := t.value.0];
        status := t.value.1;
        if status != Succeeded {
          return Ok(status);
        }
        i := i + 1;
      }
      if status != Succeeded {
        return Fatal(AssertionFailed);
      }
      Reset();
      r := Ok(Succeeded);
    }

    /** Reset puts the status back to `Running` and the index to 0; the
        children are not touched. */
    method Reset()
      modifies this
      ensures Valid()
      ensures status == Running && children == old(children)
    {
      status := Running;
      nextTickIndex := 0;
    }
  }

  /** A composite with no children aborts on its first tick, since its
      status is still the `Running` it was built with. */
  lemma EmptyScanAborts(cont: Status)
    requires cont != Running
    ensures Scan([], 0, Running, cont) == Fatal(AssertionFailed)
  {
  }

  /** A selector over `[Failed, Succeeded, NoTick]` stubs succeeds without
      reaching the `NoTick`; a sequence over `[Succeeded, Failed, NoTick]`
      fails without reaching it. */
  lemma ShortCircuit()
    ensures Scan([NewYesTick(Failed), NewYesTick(Succeeded), NoTick], 0, Running, Failed) ==
              Ok(([YesTick(Failed, true), YesTick(Succeeded, true), NoTick], Succeeded))
    ensures Scan([NewYesTick(Succeeded), NewYesTick(Failed), NoTick], 0, Running, Succeeded) ==
              Ok(([YesTick(Succeeded, true), YesTick(Failed, true), NoTick], Failed))
  {
    var a := [NewYesTick(Failed), NewYesTick(Succeeded), NoTick];
    ScanOutcome(a, 0, Running, Failed);
    assert FirstStop(a, 1, Failed) == 1;
    assert FirstStop(a, 0, Failed) == 1;
    assert TickedRange(a, 0, 2) == [YesTick(Failed, true), YesTick(Succeeded, true), NoTick];
    var b := [NewYesTick(Succeeded), NewYesTick(Failed), NoTick];
    ScanOutcome(b, 0, Running, Succeeded);
    assert FirstStop(b, 1, Succeeded) == 1;
    assert FirstStop(b, 0, Succeeded) == 1;
    assert TickedRange(b, 0, 2) == [YesTick(Succeeded, true), YesTick(Failed, true), NoTick];
  }
}
