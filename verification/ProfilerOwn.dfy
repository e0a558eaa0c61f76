/** The own times that js/jsd/idl/jsdIDebuggerService.idl documents, time in a function
    excluding time in other called code, against what the hook of js/jsd/jsd_step.cpp
    bills: they agree exactly while no script is called again through another one. */
module ProfilerOwn {
  import opened ProfilerModel
  import opened Wrappers

  /** The time for which p's code was running: that for which its activation was on top. */
  function OwnTime<P(==)>(t: Trace<P>, p: P): int {
    match t
    case Start => 0
    case Then(past, e) => OwnTime(past, p) + if Top(Active(past)) == Some(p) then e.now - Clock(past) else 0
  }

  /** p's own time before the call that last made it active. */
  function OwnBefore<P(==)>(t: Trace<P>, p: P): int {
    match t
    case Start => 0
    case Then(past, e) =>
      if e.before && e.pdata == p && Count(Active(past), p) == 0 then OwnTime(past, p) else OwnBefore(past, p)
  }

  /** The own times of p's finished activations, recursive ones apart, oldest first. */
  function OwnDurations<P(==)>(t: Trace<P>, p: P): seq<int> {
    match t
    case Start => []
    case Then(past, e) =>
      if Completes(past, e, p) then OwnDurations(past, p) + [OwnTime(t, p) - OwnBefore(past, p)]
      else OwnDurations(past, p)
  }

  // ---------- when the hook bills the running script ----------

  /** A script that is active is called again only by its own code: in every call that
      finds lastCallStart set, the script called is the one running. */
  predicate Direct<P(==)>(t: Trace<P>) {
    match t
    case Start => true
    case Then(past, e) => Direct(past) && DirectCall(past, e)
  }

  predicate DirectCall<P(==)>(past: Trace<P>, e: Event<P>) {
    e.before && Count(Active(past), e.pdata) > 0 ==> Top(Active(past)) == Some(e.pdata)
  }

  /** callingFunctionPData has been the running script all along. */
  predicate RightlyBilled<P(==)>(t: Trace<P>) {
    Current(t) == Top(Active(t)) && (t.Then? ==> RightlyBilled(t.past))
  }

  /** Recursive activations of a script lie directly on one another. */
  predicate Grouped<P(==)>(s: Stack<P>) {
    match s
    case Bottom => true
    case Push(p, r) => Grouped(r) && (Count(r, p) > 0 ==> Top(r) == Some(p))
  }

  lemma {:induction false} GroupedTop<P>(s: Stack<P>)
    requires Grouped(s)
    ensures Top(Firsts(s)) == Top(s)
  {
    if s.Push? {
      GroupedTop(s.rest);
    }
  }

  lemma {:induction false} DirectIsGrouped<P>(t: Trace<P>)
    requires Direct(t) && WellNested(t)
    ensures Grouped(Active(t))
  {
    if t.Then? {
      DirectIsGrouped(t.past);
    }
  }

  /** The first call of an active script through another one makes the hook bill the
      wrong script, and nothing else does. */
  lemma {:induction false} DirectExactly<P>(t: Trace<P>)
    requires WellNested(t)
    ensures Direct(t) <==> RightlyBilled(t)
  {
    if t.Then? {
      DirectExactly(t.past);
      if Direct(t) {
        DirectIsGrouped(t);
        GroupedTop(Active(t));
      }
    }
  }

  // ---------- when the times agree ----------

  /** What each script is billed has been its own time all along. */
  ghost predicate TimesExact<P>(t: Trace<P>, scripts: set<P>) {
    && (forall p | p in scripts :: BilledTime(t, p) == OwnTime(t, p))
    && (t.Then? ==> TimesExact(t.past, scripts))
  }

  /** Whenever time passed, the current script was the running one. */
  predicate RightWhenever<P(==)>(t: Trace<P>) {
    t.Then? ==> RightWhenever(t.past) && (t.e.now > Clock(t.past) ==> Current(t.past) == Top(Active(t.past)))
  }

  lemma IntervalBilled<P>(t: Trace<P>, e: Event<P>, scripts: set<P>)
    requires WellNested(Then(t, e)) && Uses(t, scripts) && forall p | p in scripts :: BilledTime(t, p) == OwnTime(t, p)
    ensures (forall p | p in scripts :: BilledTime(Then(t, e), p) == OwnTime(Then(t, e), p))
            <==> (e.now > Clock(t) ==> Current(t) == Top(Active(t)))
  {
    if Current(t).Some? {
      CurrentIn(t, scripts, Current(t).value);
    } else if Active(t).Push? {
      OutermostCounts(Active(t));
    }
  }

  /** Interval by interval: the times agree exactly if the current script was the running
      one whenever time passed. */
  lemma {:induction false} TimesExactly<P>(t: Trace<P>, scripts: set<P>)
    requires WellNested(t) && Uses(t, scripts)
    ensures TimesExact(t, scripts) <==> RightWhenever(t)
  {
    if t.Then? {
      TimesExactly(t.past, scripts);
      if TimesExact(t.past, scripts) {
        IntervalBilled(t.past, t.e, scripts);
      }
    }
  }

  /** Every event is later than the one before. */
  predicate Ticking<P>(t: Trace<P>) {
    t.Then? ==> Ticking(t.past) && Clock(t.past) < t.e.now
  }

  lemma {:induction false} RightlyBilledWhenever<P>(t: Trace<P>)
    requires WellNested(t) && t.Then?
    ensures RightlyBilled(t.past) ==> RightWhenever(t)
    ensures Ticking(t) && RightWhenever(t) ==> RightlyBilled(t.past)
  {
    if t.past.Then? {
      RightlyBilledWhenever(t.past);
    }
  }

  /** Without a call of an active script through another one, every script is billed its
      documented own time; on a clock that ticks between events, only then. The last
      event takes no time yet. */
  lemma OwnTimesExactly<P>(t: Trace<P>, scripts: set<P>)
    requires WellNested(t) && Uses(t, scripts) && t.Then?
    ensures Direct(t.past) ==> TimesExact(t, scripts)
    ensures Ticking(t) ==> (TimesExact(t, scripts) <==> Direct(t.past))
  {
    DirectExactly(t.past);
    RightlyBilledWhenever(t);
    TimesExactly(t, scripts);
  }

  /** The own times of single activations agree then too. */
  lemma {:induction false} OwnDurationsExact<P>(t: Trace<P>, scripts: set<P>, p: P)
    requires WellNested(t) && Uses(t, scripts) && Direct(t) && p in scripts
    ensures BilledTime(t, p) == OwnTime(t, p) && BilledBefore(t, p) == OwnBefore(t, p)
    ensures BilledDurations(t, p) == OwnDurations(t, p)
  {
    if t.Then? {
      OwnDurationsExact(t.past, scripts, p);
      OwnTimesExactly(t, scripts);
    }
  }

  // ---------- two traces ----------

  ghost predicate AllWellNested<P>(t: Trace<P>) {
    WellNested(t) && (t.Then? ==> AllWellNested(t.past))
  }

  lemma {:induction false} PrefixesWellNested<P>(t: Trace<P>)
    requires WellNested(t)
    ensures AllWellNested(t)
  {
    if t.Then? {
      PrefixesWellNested(t.past);
    }
  }

  /** a calls b, which calls a again for ten units of time. */
  function MutualCall<P>(a: P, b: P): Trace<P> {
    var t3 := Then(Then(Then(Start, Event(true, a, 1)), Event(true, b, 2)), Event(true, a, 3));
    Then(Then(Then(t3, Event(false, a, 13)), Event(false, b, 14)), Event(false, a, 15))
  }

  /** a's code ran for 12 units and b's for 2; the hook bills a 2 and b 12. */
  lemma MutualCallSays<P>(a: P, b: P)
    requires a != b
    ensures var t := MutualCall(a, b); WellNested(t) && Active(t) == Bottom && !Direct(t)
    ensures var t := MutualCall(a, b); OwnTime(t, a) == 12 && OwnTime(t, b) == 2
    ensures var t := MutualCall(a, b); BilledTime(t, a) == 2 && BilledTime(t, b) == 12
  {
    var t0: Trace<P> := Start;
    assert Times(t0, a, b, 0, 0, 0, 0) && Active(t0) == Bottom;
    var t1 := Then(t0, Event(true, a, 1));
    assert Active(t1) == Push(a, Active(t0)) && Count(Active(t0), b) == Count(Active(t0), a) == 0;
    assert Count(Active(t1), b) == 0 && Times(t1, a, b, 0, 0, 0, 0);
    var t2 := Then(t1, Event(true, b, 2));
    assert Firsts(Active(t1)) == Push(a, Bottom);
    assert Active(t2) == Push(b, Active(t1)) && Times(t2, a, b, 1, 0, 1, 0);
    var t3 := Then(t2, Event(true, a, 3));
    assert Count(Active(t1), a) == 1 && Count(Active(t2), a) == 1;
    assert Firsts(Active(t2)) == Push(b, Firsts(Active(t1)));
    assert Active(t3) == Push(a, Active(t2)) && Times(t3, a, b, 1, 1, 1, 1);
    var t4 := Then(t3, Event(false, a, 13));
    assert Firsts(Active(t3)) == Firsts(Active(t2));
    assert Active(t4) == Active(t2) && Times(t4, a, b, 11, 1, 1, 11);
    var t5 := Then(t4, Event(false, b, 14));
    assert Count(Active(t2), b) == 1;
    assert Active(t5) == Active(t1) && Times(t5, a, b, 11, 2, 1, 12);
    var t6 := Then(t5, Event(false, a, 15));
    assert Active(t6) == Bottom && Times(t6, a, b, 12, 2, 2, 12);
    assert !DirectCall(t2, t3.e) && !Direct(t3) && !Direct(t4) && !Direct(t5) && !Direct(t6);
    assert t6 == MutualCall(a, b);
  }

  /** The own and billed times of a and b after a well-nested trace. */
  predicate Times<P(==)>(t: Trace<P>, a: P, b: P, ownA: int, ownB: int, billedA: int, billedB: int) {
    && WellNested(t) && OwnTime(t, a) == ownA && OwnTime(t, b) == ownB
    && BilledTime(t, a) == billedA && BilledTime(t, b) == billedB
  }

  /** A script that calls itself once and returns twice. */
  function SelfCall<P>(p: P): Trace<P> {
    Then(Then(Then(Then(Start, Event(true, p, 1)), Event(true, p, 2)), Event(false, p, 3)), Event(false, p, 4))
  }

  /** Its one activation took 3 units, all its own, after a recursive return. */
  lemma SelfCallSays<P>(p: P)
    ensures var t := SelfCall(p); WellNested(t) && Active(t) == Bottom && RecursedFirst(t, p)
    ensures var t := SelfCall(p); Durations(t, p) == BilledDurations(t, p) == [3]
  {
    var t0: Trace<P> := Start;
    assert Active(t0) == Bottom && Spans(t0, p, 0, []);
    var t1 := Then(t0, Event(true, p, 1));
    assert Active(t1) == Push(p, Bottom) && Spans(t1, p, 0, []);
    assert Entered(t1, p) == 1 && BilledBefore(t1, p) == 0 && Returns(t1, p) == 0;
    var t2 := Then(t1, Event(true, p, 2));
    assert Count(Active(t1), p) == 1 && Firsts(Active(t1)) == Push(p, Bottom);
    assert Active(t2) == Push(p, Active(t1)) && Firsts(Active(t2)) == Firsts(Active(t1)) && Spans(t2, p, 1, []);
    assert Entered(t2, p) == 1 && BilledBefore(t2, p) == 0 && Returns(t2, p) == 0;
    var t3 := Then(t2, Event(false, p, 3));
    assert Count(Active(t2), p) == 2 && !Completes(t2, t3.e, p);
    assert Active(t3) == Active(t1) && Spans(t3, p, 2, []);
    assert Entered(t3, p) == 1 && BilledBefore(t3, p) == 0 && Returns(t3, p) == 1 && RecursedFirst(t3, p);
    var t4 := Then(t3, Event(false, p, 4));
    assert Completes(t3, t4.e, p);
    assert BilledTime(t4, p) == 3;
    assert Active(t4) == Bottom && RecursedFirst(t4, p);
    assert Spans(t4, p, 3, [3]);
    assert t4 == SelfCall(p);
  }

  /** What p was billed, and for which activations, after a well-nested trace. */
  predicate Spans<P(==)>(t: Trace<P>, p: P, billed: int, ds: seq<int>) {
    WellNested(t) && BilledTime(t, p) == billed && Durations(t, p) == BilledDurations(t, p) == ds
  }
}
