/** The four-valued status every node reports (src/status.rs). */
module Statuses {
  import opened Base

  /** Declaration order matters: it fixes the numeric code. */
  datatype Status = Initialized | Running | Succeeded | Failed
  {
    /** Execution is finished: the node either succeeded or failed. */
    predicate IsDone()
    {
      this == Succeeded || this == Failed
    }
  }

  newtype Int8 = x: int | -128 <= x < 128

  /** The `i8` conversion used when the `lcm` feature is off: `s as i8`, the
      position of the variant in the declaration. */
  function Code(s: Status): (c: Int8)
    ensures 0 <= c < 4
    ensures c == 0 <==> s == Initialized
    ensures c == 1 <==> s == Running
    ensures c == 2 <==> s == Succeeded
    ensures c == 3 <==> s == Failed
  {
    match s
    case Initialized => 0
    case Running => 1
    case Succeeded => 2
    case Failed => 3
  }

  /** Reading a code back; the partner of `Code`. */
  function FromCode(c: Int8): (r: Option<Status>)
    ensures r.Some? <==> 0 <= c < 4
  {
    if c == 0 then Some(Initialized)
    else if c == 1 then Some(Running)
    else if c == 2 then Some(Succeeded)
    else if c == 3 then Some(Failed)
    else None
  }

  lemma CodeRoundTrip(s: Status)
    ensures FromCode(Code(s)) == Some(s)
  {
  }

  /** Distinct statuses get distinct codes. */
  lemma CodeInjective(s: Status, t: Status)
    ensures Code(s) == Code(t) ==> s == t
  {
    CodeRoundTrip(s);
    CodeRoundTrip(t);
  }

  /** `IsDone` holds for exactly the two finished variants; in particular
      `Initialized` and `Running` are never done. */
  lemma DoneExactly(s: Status)
    ensures s.IsDone() <==> (s == Succeeded || s == Failed)
    ensures !Initialized.IsDone() && !Running.IsDone()
  {
  }
}
