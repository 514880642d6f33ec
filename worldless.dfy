/** The older, world-less decorators (src/std_nodes/decorator.rs): objects
    that own one child and, for the counting ones, an attempt counter that
    their methods update in place. Children are the stubs of the same
    interface; the counting logic is the one shared with the current
    decorators. */
module WorldlessDecorators {
  import opened Base
  import opened Statuses
  import opened Testing
  import opened DecoratorLogic

  /** `Decorator`: ticks the child and maps its status through `func`. */
  class MapDecorator {
    const func: Status -> Status
    var child: Stub

    constructor(child: Stub, func: Status -> Status)
      ensures this.child == child && this.func == func
    {
      this.child := child;
      this.func := func;
    }

    method Tick() returns (r: Result<Status>)
      modifies this
      ensures r.Fatal? <==> old(child).NoTick?
      ensures r.Ok? ==> child == old(child).(ticked := true) && r.value == func(old(child).fixed)
    {
      var t := StubTick(child);
      if t.Fatal? {
        return Fatal(t.panic);
      }
      child := t.value.0;
      r := Ok(func(t.value.1));
    }

    method Reset()
      modifies this
      ensures child == StubReset(old(child))
    {
      child := StubReset(child);
    }
  }

  /** `Repeat`, `UntilFail` and `UntilSuccess`: tick the child, then count
      and decide as the shared step function says. */
  class CountingDecorator {
    const kind: Counter
    const limit: Option<nat>
    var attempts: nat
    var child: Stub

    constructor(kind: Counter, child: Stub, limit: Option<nat>)
      ensures this.kind == kind && this.child == child && this.limit == limit && attempts == 0
    {
      this.kind := kind;
      this.child := child;
      this.limit := limit;
      attempts := 0;
    }

    method Tick() returns (r: Result<Status>)
      modifies this
      ensures r.Fatal? <==> old(child).NoTick?
      ensures r.Ok? ==>
                var st := CounterStep(kind, limit, old(attempts), old(child).fixed);
                child == old(child).(ticked := true) && attempts == st.attempts && r.value == st.status
    {
      var t := StubTick(child);
      if t.Fatal? {
        return Fatal(t.panic);
      }
      child := t.value.0;
      var st := CounterStep(kind, limit, attempts, t.value.1);
      attempts := st.attempts;
      r := Ok(st.status);
    }

    method Reset()
      modifies this
      ensures attempts == 0 && child == StubReset(old(child))
    {
      attempts := 0;
      child := StubReset(child);
    }
  }

  /** The decorator test: with the four-way rotation, each of the three stub
      statuses it tries comes back rotated, and the stub was ticked. */
  method RotateTest(s: Status) returns (r: Result<Status>, dropped: Result<()>)
    requires s != Initialized
    ensures r == Ok(Rotate(s)) && dropped.Ok?
  {
    var d := new MapDecorator(NewYesTick(s), Rotate);
    r := d.Tick();
    dropped := StubDrop(d.child);
  }

  /** The finite tests: limit 5 over a child that counts every run gives four
      `Running` ticks and then the exhausted status. */
  method LimitFiveTest(kind: Counter, s: Status) returns (statuses: seq<Status>)
    requires CountsAttempt(kind, s)
    ensures statuses == [Running, Running, Running, Running, Exhausted(kind)]
  {
    var d := new CountingDecorator(kind, NewYesTick(s), Some(5));
    statuses := [];
    var i := 0;
    while i < 5
      invariant 0 <= i <= 5
      invariant d.attempts == i && d.child.YesTick? && d.child.fixed == s
      invariant statuses == Run(kind, Some(5), 0, s, 5)[..i]
    {
      RunStep(kind, Some(5), 0, s, 5, i);
      var r := d.Tick();
      statuses := statuses + [r.value];
      CountedStep(kind, 5, i, s);
      i := i + 1;
    }
    Countdown(kind, 5, 0, s, 5);
    assert Repeated(Running, 4) + [Exhausted(kind)] == [Running, Running, Running, Running, Exhausted(kind)];
  }

  /** The unlimited tests: `UntilFail` over a failing child and `UntilSuccess`
      over a succeeding one succeed at once. */
  method UnlimitedTest(kind: Counter) returns (r: Result<Status>)
    requires kind != RepeatCounter
    ensures r == Ok(Succeeded)
  {
    var d := new CountingDecorator(kind, NewYesTick(if kind == UntilFailCounter then Failed else Succeeded), None);
    r := d.Tick();
  }
}
