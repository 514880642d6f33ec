/** The status logic shared by both revisions of the decorators
    (the files under src/std_nodes/decorator/ and the older src/std_nodes/decorator.rs):
    how the child's status of one tick becomes the decorator's status, and how
    the `attempts` counter moves. The child itself is ticked and reset by the
    callers of these functions. */
module DecoratorLogic {
  import opened Base
  import opened Statuses

  /** `Invert`: swaps the two finished statuses and passes `Running` through.
      The source matches only three variants; `Initialized` is passed through
      unchanged here. */
  function InvertStatus(s: Status): (r: Status)
    ensures s == Succeeded ==> r == Failed
    ensures s == Failed ==> r == Succeeded
    ensures !s.IsDone() ==> r == s
  {
    match s
    case Succeeded => Failed
    case Failed => Succeeded
    case Running => Running
    case Initialized => Initialized
  }

  /** Inverting twice gives the original status back, and inverting keeps
      whether the status is finished. */
  lemma InvertInvolution(s: Status)
    ensures InvertStatus(InvertStatus(s)) == s
    ensures InvertStatus(s).IsDone() <==> s.IsDone()
  {
  }

  /** The counter and the status after one tick of a counting decorator. */
  datatype Step = Step(attempts: nat, status: Status)

  /** `Repeat`: without a limit it always runs; with one, every finished child
      run counts, and the node succeeds once the count reaches the limit. */
  function RepeatStep(limit: Option<nat>, attempts: nat, child: Status): (r: Step)
    ensures r.status == Running || r.status == Succeeded
    ensures limit.None? ==> r == Step(attempts, Running)
    ensures limit.Some? && child.IsDone() ==> r.attempts == attempts + 1
    ensures !child.IsDone() ==> r == Step(attempts, Running)
    ensures r.status == Succeeded <==> limit.Some? && child.IsDone() && attempts + 1 >= limit.value
  {
    match limit
    case None => Step(attempts, Running)
    case Some(l) =>
      if child.IsDone() then
        var a := attempts + 1;
        if a < l then Step(a, Running) else Step(a, Succeeded)
      else Step(attempts, Running)
  }

  /** `UntilFail`: a failing child makes the node succeed at once, limited or
      not; with a limit, every successful child run counts, and the node fails
      once the count reaches the limit. */
  function UntilFailStep(limit: Option<nat>, attempts: nat, child: Status): (r: Step)
    ensures child == Failed ==> r == Step(attempts, Succeeded)
    ensures limit.None? ==> r == Step(attempts, if child == Failed then Succeeded else Running)
    ensures limit.Some? && child == Succeeded ==>
              r == Step(attempts + 1, if attempts + 1 < limit.value then Running else Failed)
    ensures !child.IsDone() ==> r == Step(attempts, Running)
  {
    match limit
    case None => Step(attempts, if child == Failed then Succeeded else Running)
    case Some(l) =>
      if child == Failed then Step(attempts, Succeeded)
      else if child.IsDone() then
        var a := attempts + 1;
        if a < l then Step(a, Running) else Step(a, Failed)
      else Step(attempts, Running)
  }

  /** `UntilSuccess`: the mirror image of `UntilFail`. */
  function UntilSuccessStep(limit: Option<nat>, attempts: nat, child: Status): (r: Step)
    ensures child == Succeeded ==> r == Step(attempts, Succeeded)
    ensures limit.None? ==> r == Step(attempts, if child == Succeeded then Succeeded else Running)
    ensures limit.Some? && child == Failed ==>
              r == Step(attempts + 1, if attempts + 1 < limit.value then Running else Failed)
    ensures !child.IsDone() ==> r == Step(attempts, Running)
  {
    match limit
    case None => Step(attempts, if child == Succeeded then Succeeded else Running)
    case Some(l) =>
      if child == Succeeded then Step(attempts, Succeeded)
      else if child.IsDone() then
        var a := attempts + 1;
        if a < l then Step(a, Running) else Step(a, Failed)
      else Step(attempts, Running)
  }

  /** Without a limit, neither `UntilFail` nor `UntilSuccess` ever fails, and
      `Repeat` never fails at all. */
  lemma NeverFailsUnlimited(attempts: nat, child: Status)
    ensures UntilFailStep(None, attempts, child).status != Failed
    ensures UntilSuccessStep(None, attempts, child).status != Failed
    ensures forall l: Option<nat> :: RepeatStep(l, attempts, child).status != Failed
  {
  }

  /** The three counting decorators. */
  datatype Counter = RepeatCounter | UntilFailCounter | UntilSuccessCounter

  /** One tick of a counting decorator, whichever of the three it is: an
      unfinished child keeps it running; a child run that counts raises the
      count by one, and the limit decides between running on and the
      exhausted status; a finished run that does not count is the one the
      decorator waits for, and it succeeds. Only a limited decorator counts. */
  function CounterStep(k: Counter, limit: Option<nat>, attempts: nat, child: Status): (r: Step)
    ensures r.status != Initialized
    ensures !child.IsDone() ==> r == Step(attempts, Running)
    ensures r.attempts == (if limit.Some? && CountsAttempt(k, child) then attempts + 1 else attempts)
    ensures limit.Some? && CountsAttempt(k, child) ==>
              (r.status == Exhausted(k) <==> attempts + 1 >= limit.value) &&
              (r.status == Running <==> attempts + 1 < limit.value)
    ensures limit.None? && CountsAttempt(k, child) ==> r.status == Running
    ensures child.IsDone() && !CountsAttempt(k, child) ==> r.status == Succeeded
  {
    match k
    case RepeatCounter => RepeatStep(limit, attempts, child)
    case UntilFailCounter => UntilFailStep(limit, attempts, child)
    case UntilSuccessCounter => UntilSuccessStep(limit, attempts, child)
  }

  /** A child status that counts an attempt without ending the node early. */
  predicate CountsAttempt(k: Counter, child: Status)
  {
    match k
    case RepeatCounter => child.IsDone()
    case UntilFailCounter => child == Succeeded
    case UntilSuccessCounter => child == Failed
  }

  /** The status a limited counter reaches when its limit is used up. */
  function Exhausted(k: Counter): Status
  {
    if k == RepeatCounter then Succeeded else Failed
  }

  /** The statuses of `n` consecutive ticks, starting from `attempts`, over a
      child that returns `child` every time. */
  function Run(k: Counter, limit: Option<nat>, attempts: nat, child: Status, n: nat): (r: seq<Status>)
    ensures |r| == n
    decreases n
  {
    if n == 0 then []
    else
      var st := CounterStep(k, limit, attempts, child);
      [st.status] + Run(k, limit, st.attempts, child, n - 1)
  }

  function Repeated(s: Status, n: nat): (r: seq<Status>)
    ensures |r| == n && forall i :: 0 <= i < n ==> r[i] == s
  {
    if n == 0 then [] else [s] + Repeated(s, n - 1)
  }

  /** With a limit and a child that keeps counting, the node runs until the
      count reaches the limit and then reports the exhausted status: with
      limit 5 from a fresh counter, four `Running` ticks and then the final
      status. */
  lemma {:induction false} Countdown(k: Counter, l: nat, attempts: nat, child: Status, n: nat)
    requires CountsAttempt(k, child)
    requires n >= 1 && attempts + n == l
    ensures Run(k, Some(l), attempts, child, n) == Repeated(Running, n - 1) + [Exhausted(k)]
    decreases n
  {
    var st := CounterStep(k, Some(l), attempts, child);
    assert st.attempts == attempts + 1;
    if n == 1 {
      assert st.status == Exhausted(k);
    } else {
      assert st.status == Running;
      Countdown(k, l, attempts + 1, child, n - 1);
    }
  }

  /** Element `i` of a run is the step from the count reached after the
      first `i` ticks, when every tick counts. */
  lemma {:induction false} RunStep(k: Counter, limit: Option<nat>, attempts: nat, child: Status, n: nat, i: nat)
    requires CountsAttempt(k, child) && limit.Some?
    requires i < n
    ensures Run(k, limit, attempts, child, n)[..i + 1] ==
              Run(k, limit, attempts, child, n)[..i] + [CounterStep(k, limit, attempts + i, child).status]
    decreases n
  {
    var st := CounterStep(k, limit, attempts, child);
    assert st.attempts == attempts + 1;
    if i > 0 {
      RunStep(k, limit, attempts + 1, child, n - 1, i - 1);
      var rest := Run(k, limit, attempts + 1, child, n - 1);
      assert Run(k, limit, attempts, child, n) == [st.status] + rest;
      assert ([st.status] + rest)[..i + 1] == [st.status] + rest[..i];
      assert ([st.status] + rest)[..i] == [st.status] + rest[..i - 1];
    }
  }

  /** One counted run with a limit: the count goes up by one, and the node
      keeps running exactly while the count is below the limit. */
  lemma CountedStep(k: Counter, l: nat, attempts: nat, child: Status)
    requires CountsAttempt(k, child)
    ensures CounterStep(k, Some(l), attempts, child) ==
              Step(attempts + 1, if attempts + 1 < l then Running else Exhausted(k))
  {
  }

  /** A limit of zero does not end the node before the child is ticked: the
      first counted run already exhausts it. */
  lemma ZeroLimit(k: Counter, child: Status)
    requires CountsAttempt(k, child)
    ensures CounterStep(k, Some(0), 0, child) == Step(1, Exhausted(k))
  {
  }

  /** The four-way rotation of the older decorator tests. */
  function Rotate(s: Status): (r: Status)
    ensures r != s
  {
    match s
    case Initialized => Running
    case Running => Succeeded
    case Succeeded => Failed
    case Failed => Initialized
  }

  /** Rotating four times is the identity. */
  lemma RotateCycle(s: Status)
    ensures Rotate(Rotate(Rotate(Rotate(s)))) == s
  {
  }
}
