/** js/jsd/jsd_step.cpp: the accounting that _callHook does on every call and return of a
    profiled script. The record kept for each script is specified by the trace of calls
    and returns alone. Own times here are what the hook bills; ProfilerOwn compares them
    with the documented own times. */
module ProfilerModel {
  import opened Wrappers

  /** A call (before) or a return of the script whose profile data is pdata. */
  datatype Event<P> = Event(before: bool, pdata: P, now: int)

  datatype Trace<P> = Start | Then(past: Trace<P>, e: Event<P>)

  datatype Stack<P> = Bottom | Push(top: P, rest: Stack<P>)

  function Count<P(==)>(s: Stack<P>, p: P): nat {
    match s
    case Bottom => 0
    case Push(q, r) => (if q == p then 1 else 0) + Count(r, p)
  }

  function Top<P>(s: Stack<P>): Option<P> {
    if s.Push? then Some(s.top) else None
  }

  /** The stack without the recursive activations: each script at its first. */
  function Firsts<P(==)>(s: Stack<P>): Stack<P> {
    match s
    case Bottom => Bottom
    case Push(p, r) => if Count(r, p) > 0 then Firsts(r) else Push(p, Firsts(r))
  }

  /** What is under p on a stack. */
  function Under<P(==)>(s: Stack<P>, p: P): Option<P> {
    match s
    case Bottom => None
    case Push(q, r) => if q == p then Top(r) else Under(r, p)
  }

  // ---------- what a trace says ----------

  /** The time of the last event. */
  function Clock<P>(t: Trace<P>): int {
    if t.Start? then 0 else t.e.now
  }

  /** The activations that have not returned, the latest on top. A return of a script
      with no activation, called before profiling began, is ignored. */
  function Active<P(==)>(t: Trace<P>): Stack<P> {
    match t
    case Start => Bottom
    case Then(past, e) =>
      var s := Active(past);
      if e.before then Push(e.pdata, s)
      else if Count(s, e.pdata) == 0 then s
      else s.rest
  }

  /** Positive readings of a clock that never runs backwards, and returns that match the
      latest call that has not returned or no call at all. */
  predicate WellNested<P(==)>(t: Trace<P>) {
    match t
    case Start => true
    case Then(past, e) =>
      && WellNested(past) && 0 < e.now && Clock(past) <= e.now
      && (e.before || Count(Active(past), e.pdata) == 0 || Top(Active(past)) == Some(e.pdata))
  }

  /** The script that callingFunctionPData names: the one that became active last. Its
      code need not be the code that is running, as a script that is active already can
      be called again. */
  function Current<P(==)>(t: Trace<P>): Option<P> {
    Top(Firsts(Active(t)))
  }

  /** The time the hook bills p for: that for which p was the current script. */
  function BilledTime<P(==)>(t: Trace<P>, p: P): int {
    match t
    case Start => 0
    case Then(past, e) => BilledTime(past, p) + if Current(past) == Some(p) then e.now - Clock(past) else 0
  }

  /** The time for which p was active at all. */
  function ActiveTime<P(==)>(t: Trace<P>, p: P): int {
    match t
    case Start => 0
    case Then(past, e) => ActiveTime(past, p) + if Count(Active(past), p) > 0 then e.now - Clock(past) else 0
  }

  /** When the last call that made p active was made. */
  function Entered<P(==)>(t: Trace<P>, p: P): int {
    match t
    case Start => 0
    case Then(past, e) =>
      if e.before && e.pdata == p && Count(Active(past), p) == 0 then e.now else Entered(past, p)
  }

  /** The summed durations of the outermost calls that have returned. */
  function OutermostTime<P(==)>(t: Trace<P>): int {
    match t
    case Start => 0
    case Then(past, e) =>
      OutermostTime(past) +
      if Completes(past, e, e.pdata) && Active(t).Bottom? then e.now - Entered(past, e.pdata) else 0
  }

  function Returns<P(==)>(t: Trace<P>, p: P): nat {
    match t
    case Start => 0
    case Then(past, e) => Returns(past, p) + if !e.before && e.pdata == p && Count(Active(past), p) > 0 then 1 else 0
  }

  function Deepest<P(==)>(t: Trace<P>, p: P): nat {
    match t
    case Start => 0
    case Then(past, e) =>
      var extra := if Count(Active(t), p) > 0 then Count(Active(t), p) - 1 else 0;
      if extra > Deepest(past, p) then extra else Deepest(past, p)
  }

  /** The durations of p's finished activations, recursive ones apart, oldest first. */
  function Durations<P(==)>(t: Trace<P>, p: P): seq<int> {
    match t
    case Start => []
    case Then(past, e) =>
      if Completes(past, e, p) then Durations(past, p) + [e.now - Entered(past, p)] else Durations(past, p)
  }

  /** e is the return that ends p's last activation. */
  predicate Completes<P(==)>(past: Trace<P>, e: Event<P>, p: P) {
    !e.before && e.pdata == p && Count(Active(past), p) == 1
  }

  /** What p had been billed before the call that last made it active. */
  function BilledBefore<P(==)>(t: Trace<P>, p: P): int {
    match t
    case Start => 0
    case Then(past, e) =>
      if e.before && e.pdata == p && Count(Active(past), p) == 0 then BilledTime(past, p) else BilledBefore(past, p)
  }

  /** What was billed for each of p's finished activations. */
  function BilledDurations<P(==)>(t: Trace<P>, p: P): seq<int> {
    match t
    case Start => []
    case Then(past, e) =>
      if Completes(past, e, p) then BilledDurations(past, p) + [BilledTime(t, p) - BilledBefore(past, p)]
      else BilledDurations(past, p)
  }

  function Largest(s: seq<int>): int {
    if s == [] then 0 else var m, x := Largest(s[..|s| - 1]), s[|s| - 1]; if x > m then x else m
  }

  function Smallest(s: seq<int>): int
    requires s != []
  {
    var x := s[|s| - 1];
    if |s| == 1 then x else var m := Smallest(s[..|s| - 1]); if x < m then x else m
  }

  /** p's first return was that of a recursive activation. */
  predicate RecursedFirst<P(==)>(t: Trace<P>, p: P) {
    match t
    case Start => false
    case Then(past, e) =>
      if Returns(past, p) > 0 then RecursedFirst(past, p)
      else !e.before && e.pdata == p && Count(Active(past), p) > 1
  }

  ghost predicate Uses<P>(t: Trace<P>, scripts: set<P>) {
    t.Then? ==> t.e.pdata in scripts && Uses(t.past, scripts)
  }

  // ---------- what the record of a script says ----------

  /** JSDProfileData */
  datatype Data<P> = Data(
    caller: Option<P>, lastCallStart: int, runningTime: int,
    callCount: nat, recurseDepth: nat, maxRecurseDepth: nat,
    minExecutionTime: int, maxExecutionTime: int, totalExecutionTime: int,
    minOwnExecutionTime: int, maxOwnExecutionTime: int, totalOwnExecutionTime: int)

  /** The calls, depths, extremes and totals of p's finished activations. */
  ghost predicate Tallied<P>(t: Trace<P>, p: P, d: Data<P>) {
    && d.callCount == Returns(t, p) && d.maxRecurseDepth == Deepest(t, p)
    && d.maxExecutionTime == Largest(Durations(t, p))
    && d.maxOwnExecutionTime == Largest(BilledDurations(t, p))
    && |Durations(t, p)| == |BilledDurations(t, p)|
    && d.minExecutionTime == RecordedMinimum(t, p, Durations(t, p))
    && d.minOwnExecutionTime == RecordedMinimum(t, p, BilledDurations(t, p))
    && (Durations(t, p) == [] && Returns(t, p) > 0 ==> RecursedFirst(t, p))
    && (Durations(t, p) != [] ==> Returns(t, p) > 0)
  }

  /** The minimum of finished activations, except that a recursive return that comes
      first pins it to zero. */
  function RecordedMinimum<P(==)>(t: Trace<P>, p: P, ds: seq<int>): int {
    if ds == [] || RecursedFirst(t, p) then 0 else Smallest(ds)
  }

  /** The running clocks of p; lastReturn is the context's lastReturnTime. */
  ghost predicate Timed<P>(t: Trace<P>, p: P, d: Data<P>, lastReturn: int) {
    if Count(Active(t), p) == 0 then
      && d.lastCallStart == 0 && d.recurseDepth == 0 && d.caller == None
      && d.totalExecutionTime == ActiveTime(t, p) && d.totalOwnExecutionTime == BilledTime(t, p)
    else
      && 0 < d.lastCallStart == Entered(t, p) <= Clock(t)
      && d.recurseDepth == Count(Active(t), p) - 1
      && d.caller == Under(Firsts(Active(t)), p)
      && d.totalExecutionTime + Clock(t) - d.lastCallStart == ActiveTime(t, p)
      && d.totalOwnExecutionTime == BilledBefore(t, p) && 0 <= d.runningTime
      && d.totalOwnExecutionTime + d.runningTime + Segment(t, p, d, lastReturn) == BilledTime(t, p)
      && (Current(t) == Some(p) && lastReturn == 0 ==> d.runningTime == 0)
  }

  /** How long p has run since its timer was last stopped. */
  function Segment<P(==)>(t: Trace<P>, p: P, d: Data<P>, lastReturn: int): int {
    if Current(t) != Some(p) then 0
    else Clock(t) - if lastReturn != 0 then lastReturn else d.lastCallStart
  }

  ghost predicate Accounts<P>(t: Trace<P>, p: P, d: Data<P>, lastReturn: int) {
    Tallied(t, p, d) && Timed(t, p, d, lastReturn)
  }

  function Blank<P>(): Data<P> {
    Data(None, 0, 0, 0, 0, 0, 0, 0, 0, 0, 0, 0)
  }

  lemma BlankAccounts<P>(t: Trace<P>, scripts: set<P>, p: P, lastReturn: int)
    requires WellNested(t) && Uses(t, scripts) && p !in scripts
    ensures Accounts(t, p, Blank(), lastReturn)
    ensures Uses(t, scripts + {p})
  {
    if t.Then? {
      BlankAccounts(t.past, scripts, p, lastReturn);
      if Current(t.past) == Some(p) {
        CurrentIsActive(t.past, p);
      }
    }
  }

  /** What the branches of _callHook test. */
  lemma Standing<P>(t: Trace<P>, p: P, d: Data<P>, lastReturn: int)
    requires Accounts(t, p, d, lastReturn)
    ensures d.lastCallStart == 0 <==> Count(Active(t), p) == 0
    ensures d.recurseDepth == if Count(Active(t), p) == 0 then 0 else Count(Active(t), p) - 1
    ensures d.lastCallStart == 0 ==> d.caller == None
  {
  }

  lemma ClockAdvances<P>(t: Trace<P>, e: Event<P>)
    requires WellNested(Then(t, e))
    ensures 0 <= Clock(t) <= Clock(Then(t, e)) == e.now && 0 < e.now
  {
  }

  lemma CurrentIn<P>(t: Trace<P>, scripts: set<P>, p: P)
    requires Uses(t, scripts) && Current(t) == Some(p)
    ensures p in scripts
  {
    CurrentIsActive(t, p);
    UsesActive(t, scripts, p);
  }

  // ---------- steps ----------

  lemma {:induction false} FirstsCount<P>(s: Stack<P>, p: P)
    ensures Count(Firsts(s), p) == if Count(s, p) > 0 then 1 else 0
  {
    if s.Push? {
      FirstsCount(s.rest, p);
      if Count(s.rest, s.top) > 0 {
        FirstsCount(s.rest, s.top);
      }
    }
  }

  /** The top of the first activations is active, and when its only activation returns it
      is the one that returned. */
  lemma CurrentIsActive<P>(t: Trace<P>, p: P)
    requires Current(t) == Some(p)
    ensures Count(Active(t), p) > 0
  {
    FirstsCount(Active(t), p);
  }

  lemma UsesActive<P>(t: Trace<P>, scripts: set<P>, p: P)
    requires Uses(t, scripts) && Count(Active(t), p) > 0
    ensures p in scripts
  {
    if t.Then? && t.e.pdata != p {
      UsesActive(t.past, scripts, p);
    }
  }

  /** An event of another script leaves p's tallies as they were. */
  lemma OtherTallied<P>(t: Trace<P>, e: Event<P>, p: P, d: Data<P>)
    requires Tallied(t, p, d) && e.pdata != p && WellNested(Then(t, e))
    ensures Tallied(Then(t, e), p, d)
  {
    assert Count(Active(Then(t, e)), p) == Count(Active(t), p);
  }

  /** It leaves p's clocks as they were too, unless it starts or stops p's timer. */
  lemma OtherTimed<P>(t: Trace<P>, e: Event<P>, p: P, d: Data<P>, lastReturn: int, lastReturn': int)
    requires Timed(t, p, d, lastReturn) && e.pdata != p && WellNested(Then(t, e))
    requires if Current(t) == Some(p) then Current(Then(t, e)) == Some(p) && lastReturn' == lastReturn
             else Current(Then(t, e)) == Some(p) ==> lastReturn' == e.now
    ensures Timed(Then(t, e), p, d, lastReturn')
  {
    assert Count(Active(Then(t, e)), p) == Count(Active(t), p);
    if Count(Active(t), p) > 0 {
      UnderStep(t, e, p);
    } else if Current(t) == Some(p) {
      CurrentIsActive(t, p);
    }
  }

  lemma OtherAccounts<P>(t: Trace<P>, e: Event<P>, p: P, d: Data<P>, lastReturn: int, lastReturn': int)
    requires Accounts(t, p, d, lastReturn) && e.pdata != p && WellNested(Then(t, e))
    requires if Current(t) == Some(p) then Current(Then(t, e)) == Some(p) && lastReturn' == lastReturn
             else Current(Then(t, e)) == Some(p) ==> lastReturn' == e.now
    ensures Accounts(Then(t, e), p, d, lastReturn')
  {
    OtherTallied(t, e, p, d);
    OtherTimed(t, e, p, d, lastReturn, lastReturn');
  }

  /** The caller recorded for an active script does not change. */
  lemma UnderStep<P>(t: Trace<P>, e: Event<P>, p: P)
    requires WellNested(Then(t, e)) && Count(Active(t), p) > 0 && Count(Active(Then(t, e)), p) > 0
    ensures Under(Firsts(Active(Then(t, e))), p) == Under(Firsts(Active(t)), p)
  {
  }

  /** The first call of a script that is not active starts its timer. */
  lemma FirstCall<P>(t: Trace<P>, e: Event<P>, d: Data<P>, lastReturn: int)
    requires Accounts(t, e.pdata, d, lastReturn) && e.before && WellNested(Then(t, e)) && Count(Active(t), e.pdata) == 0
    ensures Accounts(Then(t, e), e.pdata, d.(caller := Current(t), lastCallStart := e.now, runningTime := 0), 0)
    ensures Current(Then(t, e)) == Some(e.pdata) && Current(t) != Some(e.pdata)
  {
    if Current(t) == Some(e.pdata) {
      CurrentIsActive(t, e.pdata);
    }
  }

  /** It stops the timer of the script that was current. */
  lemma StopCaller<P>(t: Trace<P>, e: Event<P>, p: P, d: Data<P>, lastReturn: int)
    requires Accounts(t, p, d, lastReturn) && e.before && WellNested(Then(t, e)) && Count(Active(t), e.pdata) == 0
    requires Current(t) == Some(p) && 0 <= lastReturn <= Clock(t)
    ensures Accounts(Then(t, e), p, d.(runningTime := d.runningTime +
                       (if lastReturn != 0 then e.now - lastReturn else e.now - d.lastCallStart)), 0)
  {
    CurrentIsActive(t, p);
    OtherTallied(t, e, p, d);
    UnderStep(t, e, p);
  }

  lemma RecursiveCall<P>(t: Trace<P>, e: Event<P>, d: Data<P>, lastReturn: int)
    requires Accounts(t, e.pdata, d, lastReturn) && e.before && WellNested(Then(t, e)) && Count(Active(t), e.pdata) > 0
    ensures var depth := d.recurseDepth + 1;
            Accounts(Then(t, e), e.pdata, d.(recurseDepth := depth,
              maxRecurseDepth := if depth > d.maxRecurseDepth then depth else d.maxRecurseDepth), lastReturn)
    ensures Current(Then(t, e)) == Current(t)
  {
    UnderStep(t, e, e.pdata);
  }

  lemma RecursiveReturn<P>(t: Trace<P>, e: Event<P>, d: Data<P>, lastReturn: int)
    requires Accounts(t, e.pdata, d, lastReturn) && !e.before && WellNested(Then(t, e)) && Count(Active(t), e.pdata) > 1
    ensures Accounts(Then(t, e), e.pdata, d.(recurseDepth := d.recurseDepth - 1, callCount := d.callCount + 1),
                     lastReturn)
    ensures Current(Then(t, e)) == Current(t)
  {
    UnderStep(t, e, e.pdata);
  }

  /** A script's last activation returns to its recorded caller. */
  lemma ReturnsToCaller<P>(t: Trace<P>, e: Event<P>)
    requires !e.before && WellNested(Then(t, e)) && Count(Active(t), e.pdata) == 1
    ensures Current(t) == Some(e.pdata)
    ensures Current(Then(t, e)) == Under(Firsts(Active(t)), e.pdata) != Some(e.pdata)
  {
    if Current(Then(t, e)) == Some(e.pdata) {
      CurrentIsActive(Then(t, e), e.pdata);
    }
  }

  /** What an activation that returns at now is billed. */
  function BilledDelta<P>(d: Data<P>, now: int, lastReturn: int): int {
    if lastReturn != 0 then d.runningTime + now - lastReturn else now - d.lastCallStart
  }

  function Lower(callCount: nat, least: int, delta: int): int {
    if callCount == 0 || delta < least then delta else least
  }

  function Higher(most: int, delta: int): int {
    if delta > most then delta else most
  }

  /** The record after the last activation's return at now. */
  function Finished<P>(d: Data<P>, now: int, lastReturn: int): Data<P> {
    var delta, own := now - d.lastCallStart, BilledDelta(d, now, lastReturn);
    d.(caller := None, lastCallStart := 0, callCount := d.callCount + 1,
       runningTime := if lastReturn != 0 then own else d.runningTime,
       totalExecutionTime := d.totalExecutionTime + delta,
       minExecutionTime := Lower(d.callCount, d.minExecutionTime, delta),
       maxExecutionTime := Higher(d.maxExecutionTime, delta),
       totalOwnExecutionTime := d.totalOwnExecutionTime + own,
       minOwnExecutionTime := Lower(d.callCount, d.minOwnExecutionTime, own),
       maxOwnExecutionTime := Higher(d.maxOwnExecutionTime, own))
  }

  lemma LastReturnTimed<P>(t: Trace<P>, e: Event<P>, d: Data<P>, lastReturn: int)
    requires Timed(t, e.pdata, d, lastReturn) && !e.before && WellNested(Then(t, e)) && Count(Active(t), e.pdata) == 1
    requires 0 <= lastReturn <= Clock(t)
    ensures Timed(Then(t, e), e.pdata, Finished(d, e.now, lastReturn), e.now)
    ensures BilledDelta(d, e.now, lastReturn) == BilledTime(Then(t, e), e.pdata) - BilledBefore(t, e.pdata) >= 0
    ensures e.now - d.lastCallStart == e.now - Entered(t, e.pdata) >= 0
  {
    ReturnsToCaller(t, e);
  }

  /** One more sample among the recorded extremes. */
  lemma SampleTallied(count: nat, least: int, most: int, ds: seq<int>, pinned: bool, x: int)
    requires x >= 0 && most == Largest(ds)
    requires (ds == [] && count > 0 ==> pinned) && (ds != [] ==> count > 0) && (pinned ==> count > 0)
    requires least == if ds == [] || pinned then 0 else Smallest(ds)
    ensures Higher(most, x) == Largest(ds + [x])
    ensures Lower(count, least, x) == if pinned then 0 else Smallest(ds + [x])
  {
    assert (ds + [x])[..|ds|] == ds;
  }

  lemma OneFewer<P>(t: Trace<P>, e: Event<P>)
    requires !e.before && WellNested(Then(t, e)) && Count(Active(t), e.pdata) > 0
    ensures Count(Active(Then(t, e)), e.pdata) == Count(Active(t), e.pdata) - 1
  {
  }

  /** What the return of a last activation adds to the trace's tallies. */
  lemma LastReturnSamples<P>(t: Trace<P>, e: Event<P>)
    requires !e.before && WellNested(Then(t, e)) && Count(Active(t), e.pdata) == 1
    ensures Durations(Then(t, e), e.pdata) == Durations(t, e.pdata) + [e.now - Entered(t, e.pdata)]
    ensures BilledDurations(Then(t, e), e.pdata) ==
            BilledDurations(t, e.pdata) + [BilledTime(Then(t, e), e.pdata) - BilledBefore(t, e.pdata)]
    ensures Returns(Then(t, e), e.pdata) == Returns(t, e.pdata) + 1
    ensures Deepest(Then(t, e), e.pdata) == Deepest(t, e.pdata)
    ensures RecursedFirst(Then(t, e), e.pdata) == RecursedFirst(t, e.pdata)
    ensures RecursedFirst(t, e.pdata) ==> Returns(t, e.pdata) > 0
  {
    OneFewer(t, e);
  }

  lemma LastReturnTallied<P>(t: Trace<P>, e: Event<P>, d: Data<P>, lastReturn: int)
    requires Accounts(t, e.pdata, d, lastReturn) && !e.before && WellNested(Then(t, e))
    requires Count(Active(t), e.pdata) == 1
    requires 0 <= lastReturn <= Clock(t)
    ensures Tallied(Then(t, e), e.pdata, Finished(d, e.now, lastReturn))
  {
    hide Timed, WellNested, Active, Entered, BilledTime, BilledBefore, Largest, Smallest, Returns, Durations,
      BilledDurations, Deepest, RecursedFirst, Count, BilledDelta, Lower, Higher;
    var p := e.pdata;
    LastReturnTimed(t, e, d, lastReturn);
    LastReturnSamples(t, e);
    SampleTallied(d.callCount, d.minExecutionTime, d.maxExecutionTime, Durations(t, p), RecursedFirst(t, p),
                  e.now - d.lastCallStart);
    SampleTallied(d.callCount, d.minOwnExecutionTime, d.maxOwnExecutionTime, BilledDurations(t, p), RecursedFirst(t, p),
                  BilledDelta(d, e.now, lastReturn));
  }

  lemma LastReturn<P>(t: Trace<P>, e: Event<P>, d: Data<P>, lastReturn: int)
    requires Accounts(t, e.pdata, d, lastReturn) && !e.before && WellNested(Then(t, e))
    requires Count(Active(t), e.pdata) == 1
    requires 0 <= lastReturn <= Clock(t)
    ensures Accounts(Then(t, e), e.pdata, Finished(d, e.now, lastReturn), e.now)
    ensures Current(t) == Some(e.pdata) && Current(Then(t, e)) == d.caller != Some(e.pdata)
  {
    ReturnsToCaller(t, e);
    LastReturnTimed(t, e, d, lastReturn);
    LastReturnTallied(t, e, d, lastReturn);
  }

  /** A return of a script that is not active changes nothing. */
  lemma StrayReturn<P>(t: Trace<P>, e: Event<P>, d: Data<P>, lastReturn: int)
    requires Accounts(t, e.pdata, d, lastReturn) && !e.before && WellNested(Then(t, e))
    requires Count(Active(t), e.pdata) == 0
    ensures Accounts(Then(t, e), e.pdata, d, lastReturn) && Current(Then(t, e)) == Current(t)
  {
    if Current(t) == Some(e.pdata) {
      CurrentIsActive(t, e.pdata);
    }
  }

  // ---------- what the tallies of a trace mean ----------

  /** The larger of 0 and every sample, and 0 or one of them. */
  lemma {:induction false} LargestBounds(s: seq<int>)
    ensures Largest(s) >= 0 && forall x | x in s :: x <= Largest(s)
    ensures Largest(s) == 0 || Largest(s) in s
  {
    if s != [] {
      LargestBounds(s[..|s| - 1]);
      assert s == s[..|s| - 1] + [s[|s| - 1]];
    }
  }

  /** The least sample: a bound that is attained. */
  lemma {:induction false} SmallestBounds(s: seq<int>)
    requires s != []
    ensures Smallest(s) in s && forall x | x in s :: Smallest(s) <= x
  {
    if |s| > 1 {
      SmallestBounds(s[..|s| - 1]);
      assert s == s[..|s| - 1] + [s[|s| - 1]];
    }
  }

  lemma {:induction false} EnteredBy<P>(t: Trace<P>, p: P)
    requires WellNested(t)
    ensures 0 <= Entered(t, p) <= Clock(t) && BilledBefore(t, p) <= BilledTime(t, p)
    ensures Clock(t) >= 0
  {
    if t.Then? {
      EnteredBy(t.past, p);
    }
  }

  /** So the largest duration is attained too: none is negative. */
  lemma {:induction false} DurationsNotNegative<P>(t: Trace<P>, p: P)
    requires WellNested(t)
    ensures forall x | x in Durations(t, p) :: x >= 0
    ensures forall x | x in BilledDurations(t, p) :: x >= 0
  {
    if t.Then? {
      DurationsNotNegative(t.past, p);
      EnteredBy(t.past, p);
      EnteredBy(t, p);
      if Completes(t.past, t.e, p) {
        assert Entered(t, p) == Entered(t.past, p) && BilledBefore(t, p) == BilledBefore(t.past, p);
      }
    }
  }

  /** The largest of any durations is one of them. */
  lemma LargestAttained<P>(t: Trace<P>, p: P)
    requires WellNested(t) && Durations(t, p) != []
    ensures Largest(Durations(t, p)) in Durations(t, p)
    ensures |BilledDurations(t, p)| == |Durations(t, p)| && Largest(BilledDurations(t, p)) in BilledDurations(t, p)
  {
    DurationsNotNegative(t, p);
    AsManyBilled(t, p);
    LargestOfNaturals(Durations(t, p));
    LargestOfNaturals(BilledDurations(t, p));
  }

  lemma LargestOfNaturals(s: seq<int>)
    requires s != [] && forall x | x in s :: x >= 0
    ensures Largest(s) in s
  {
    LargestBounds(s);
    if Largest(s) == 0 {
      assert s[0] in s && s[0] == Largest(s);
    }
  }

  lemma {:induction false} AsManyBilled<P>(t: Trace<P>, p: P)
    ensures |BilledDurations(t, p)| == |Durations(t, p)|
  {
    if t.Then? {
      AsManyBilled(t.past, p);
    }
  }

  /** q is t or what t was earlier. */
  ghost predicate Begins<P>(q: Trace<P>, t: Trace<P>) {
    q == t || (t.Then? && Begins(q, t.past))
  }

  /** Deepest is how often p was active again at most, at any time, and was so often. */
  lemma {:induction false} DeepestBounds<P>(t: Trace<P>, p: P)
    ensures forall q | Begins(q, t) :: Count(Active(q), p) <= Deepest(t, p) + 1
    ensures Deepest(t, p) > 0 ==> exists q :: Begins(q, t) && Count(Active(q), p) == Deepest(t, p) + 1
  {
    if t.Then? {
      DeepestBounds(t.past, p);
      assert forall q | Begins(q, t) :: q == t || Begins(q, t.past);
      if Count(Active(t), p) == Deepest(t, p) + 1 {
        assert Begins(t, t);
      } else if Deepest(t, p) > 0 {
        var q :| Begins(q, t.past) && Count(Active(q), p) == Deepest(t, p) + 1;
        assert Begins(q, t);
      }
    }
  }

  function Sum(s: seq<int>): int {
    if s == [] then 0 else Sum(s[..|s| - 1]) + s[|s| - 1]
  }

  lemma SumOneMore(s: seq<int>, x: int)
    ensures Sum(s + [x]) == Sum(s) + x
  {
    assert (s + [x])[..|s|] == s;
  }

  /** The totals are the sums of the single activations, and of what the last one has
      taken so far. */
  lemma {:induction false} TotalsAreSums<P>(t: Trace<P>, p: P)
    requires WellNested(t)
    ensures ActiveTime(t, p) == Sum(Durations(t, p)) + if Count(Active(t), p) > 0 then Clock(t) - Entered(t, p) else 0
    ensures BilledTime(t, p) == Sum(BilledDurations(t, p)) +
                                if Count(Active(t), p) > 0 then BilledTime(t, p) - BilledBefore(t, p) else 0
  {
    if t.Then? {
      TotalsAreSums(t.past, p);
      if Completes(t.past, t.e, p) {
        SumOneMore(Durations(t.past, p), t.e.now - Entered(t.past, p));
        SumOneMore(BilledDurations(t.past, p), BilledTime(t, p) - BilledBefore(t.past, p));
        OneFewer(t.past, t.e);
      } else if Current(t.past) == Some(p) {
        CurrentIsActive(t.past, p);
      }
    }
  }

  // ---------- what the records add up to ----------

  function BilledSum<P(==)>(t: Trace<P>, ps: seq<P>): int {
    if ps == [] then 0 else BilledTime(t, ps[0]) + BilledSum(t, ps[1..])
  }

  ghost predicate Distinct<P>(ps: seq<P>) {
    forall i, j | 0 <= i < j < |ps| :: ps[i] != ps[j]
  }

  /** Every interval between events is billed to one current script. */
  lemma {:induction false} BilledSumStep<P>(t: Trace<P>, e: Event<P>, ps: seq<P>)
    requires Distinct(ps)
    ensures BilledSum(Then(t, e), ps) ==
      BilledSum(t, ps) + if Current(t).Some? && Current(t).value in ps then e.now - Clock(t) else 0
  {
    if ps != [] {
      BilledSumStep(t, e, ps[1..]);
      assert forall p :: p in ps <==> p == ps[0] || p in ps[1..];
    }
  }

  lemma {:induction false} BilledSumStarts<P>(ps: seq<P>)
    ensures BilledSum(Start, ps) == 0
  {
    if ps != [] {
      BilledSumStarts(ps[1..]);
    }
  }

  /** The outermost activation. */
  function Outermost<P>(s: Stack<P>): P
    requires s.Push?
  {
    if s.rest.Bottom? then s.top else Outermost(s.rest)
  }

  /** How long the outermost call that has not returned has taken so far. */
  function Ongoing<P(==)>(t: Trace<P>): int {
    if Active(t).Bottom? then 0 else Clock(t) - Entered(t, Outermost(Active(t)))
  }

  lemma {:induction false} OutermostCounts<P>(s: Stack<P>)
    requires s.Push?
    ensures Count(s, Outermost(s)) > 0 && Firsts(s).Push?
  {
    if s.rest.Push? {
      OutermostCounts(s.rest);
    }
  }

  lemma OngoingStep<P>(t: Trace<P>, e: Event<P>)
    requires WellNested(Then(t, e))
    ensures OutermostTime(Then(t, e)) + Ongoing(Then(t, e)) ==
      OutermostTime(t) + Ongoing(t) + if Current(t).Some? then e.now - Clock(t) else 0
  {
    if Active(t).Push? {
      OutermostCounts(Active(t));
    }
  }

  /** What the scripts are billed adds up to the durations of the outermost calls. */
  lemma {:induction false} BilledTimesAddUp<P>(t: Trace<P>, ps: seq<P>)
    requires WellNested(t) && Distinct(ps) && Uses(t, set p | p in ps)
    ensures BilledSum(t, ps) == OutermostTime(t) + Ongoing(t)
  {
    match t
    case Start => BilledSumStarts(ps);
    case Then(past, e) =>
      BilledTimesAddUp(past, ps);
      BilledSumStep(past, e, ps);
      OngoingStep(past, e);
      if Current(past).Some? {
        CurrentIsActive(past, Current(past).value);
        UsesActive(past, (set p | p in ps), Current(past).value);
      }
  }
}
