/** The profiler's context and per-script records of js/jsd/jsd_step.cpp, updated in place. */
module Profiler {
  import opened ProfilerModel
  import opened ProfilerOwn
  import opened Wrappers

  class JSDProfileData {
    var caller: JSDProfileData?
    var lastCallStart: int
    var runningTime: int
    var callCount: nat
    var recurseDepth: nat
    var maxRecurseDepth: nat
    var minExecutionTime: int
    var maxExecutionTime: int
    var totalExecutionTime: int
    var minOwnExecutionTime: int
    var maxOwnExecutionTime: int
    var totalOwnExecutionTime: int

    constructor ()
      ensures Record() == Blank()
    {
      caller, lastCallStart, runningTime, callCount, recurseDepth, maxRecurseDepth := null, 0, 0, 0, 0, 0;
      minExecutionTime, maxExecutionTime, totalExecutionTime := 0, 0, 0;
      minOwnExecutionTime, maxOwnExecutionTime, totalOwnExecutionTime := 0, 0, 0;
    }

    ghost function Record(): Data<JSDProfileData>
      reads this
    {
      Data(Pointer(caller), lastCallStart, runningTime, callCount, recurseDepth, maxRecurseDepth,
           minExecutionTime, maxExecutionTime, totalExecutionTime,
           minOwnExecutionTime, maxOwnExecutionTime, totalOwnExecutionTime)
    }

    /** The last activation's return at now: settles the times and clears what runs. */
    method Finish(now: int, lastReturnTime: int)
      modifies this
      ensures Record() == Finished(old(Record()), now, lastReturnTime)
    {
      var delta := now - lastCallStart;
      AddExecutionTime(delta);
      if lastReturnTime != 0 {
        runningTime := runningTime + (now - lastReturnTime);
        delta := runningTime;
      }
      AddOwnExecutionTime(delta);
      caller := null;
      lastCallStart := 0;
      callCount := callCount + 1;
    }

    method AddExecutionTime(delta: int)
      modifies this`totalExecutionTime, this`minExecutionTime, this`maxExecutionTime
      ensures totalExecutionTime == old(totalExecutionTime) + delta
      ensures minExecutionTime == Lower(callCount, old(minExecutionTime), delta)
      ensures maxExecutionTime == Higher(old(maxExecutionTime), delta)
    {
      totalExecutionTime := totalExecutionTime + delta;
      if callCount == 0 || delta < minExecutionTime {
        minExecutionTime := delta;
      }
      if delta > maxExecutionTime {
        maxExecutionTime := delta;
      }
    }

    method AddOwnExecutionTime(delta: int)
      modifies this`totalOwnExecutionTime, this`minOwnExecutionTime, this`maxOwnExecutionTime
      ensures totalOwnExecutionTime == old(totalOwnExecutionTime) + delta
      ensures minOwnExecutionTime == Lower(callCount, old(minOwnExecutionTime), delta)
      ensures maxOwnExecutionTime == Higher(old(maxOwnExecutionTime), delta)
    {
      totalOwnExecutionTime := totalOwnExecutionTime + delta;
      if callCount == 0 || delta < minOwnExecutionTime {
        minOwnExecutionTime := delta;
      }
      if delta > maxOwnExecutionTime {
        maxOwnExecutionTime := delta;
      }
    }
  }

  ghost function Pointer(p: JSDProfileData?): Option<JSDProfileData> {
    if p == null then None else Some(p)
  }

  class JSDContext {
    var callingFunctionPData: JSDProfileData?
    var lastReturnTime: int

    ghost var trace: Trace<JSDProfileData>
    ghost var scripts: set<JSDProfileData>

    ghost predicate Valid()
      reads this, scripts
    {
      && WellNested(trace) && Uses(trace, scripts) && 0 <= lastReturnTime <= Clock(trace)
      && Pointer(callingFunctionPData) == Current(trace)
      && forall p | p in scripts :: Accounts(trace, p, p.Record(), lastReturnTime)
    }

    constructor ()
      ensures Valid() && trace == Start && scripts == {}
    {
      callingFunctionPData, lastReturnTime, trace, scripts := null, 0, Start, {};
    }

    /** A script's record starts out blank. */
    method NewProfileData() returns (p: JSDProfileData)
      requires Valid()
      modifies this`scripts
      ensures Valid() && fresh(p) && scripts == old(scripts) + {p} && trace == old(trace)
    {
      p := new JSDProfileData();
      BlankAccounts(trace, scripts, p, lastReturnTime);
      scripts := scripts + {p};
    }

    /** The first call of a script that is not active. */
    method EnterFirst(pdata: JSDProfileData, now: int)
      requires Valid() && pdata in scripts && pdata.lastCallStart == 0
      requires WellNested(Then(trace, Event(true, pdata, now)))
      modifies this, pdata, if callingFunctionPData == null then {} else {callingFunctionPData}
      ensures Valid() && trace == Then(old(trace), Event(true, pdata, now)) && scripts == old(scripts)
    {
      hide WellNested, Current, Accounts, Active, Count;
      ghost var t, e, last, c := trace, Event(true, pdata, now), lastReturnTime, callingFunctionPData;
      ClockAdvances(t, e);
      Standing(t, pdata, pdata.Record(), last);
      FirstCall(t, e, pdata.Record(), last);
      var callerpdata := callingFunctionPData;
      if callerpdata != null {
        CurrentIn(t, scripts, callerpdata);
        StopCaller(t, e, callerpdata, callerpdata.Record(), last);
        pdata.caller := callerpdata;
        var delta := if lastReturnTime != 0 then now - lastReturnTime else now - callerpdata.lastCallStart;
        callerpdata.runningTime := callerpdata.runningTime + delta;
      }
      callingFunctionPData := pdata;
      lastReturnTime := 0;
      pdata.runningTime := 0;
      pdata.lastCallStart := now;
      trace := Then(t, e);
      forall q | q in scripts ensures Accounts(trace, q, q.Record(), lastReturnTime) {
        if q != pdata && q != c {
          OtherAccounts(t, e, q, old(q.Record()), last, 0);
        }
      }
    }

    method EnterAgain(pdata: JSDProfileData, ghost now: int)
      requires Valid() && pdata in scripts && pdata.lastCallStart != 0
      requires WellNested(Then(trace, Event(true, pdata, now)))
      modifies this`trace, pdata
      ensures Valid() && trace == Then(old(trace), Event(true, pdata, now)) && scripts == old(scripts)
    {
      hide WellNested, Current, Accounts, Active, Count;
      ghost var t, e, last := trace, Event(true, pdata, now), lastReturnTime;
      ClockAdvances(t, e);
      Standing(t, pdata, pdata.Record(), last);
      RecursiveCall(t, e, pdata.Record(), last);
      pdata.recurseDepth := pdata.recurseDepth + 1;
      if pdata.recurseDepth > pdata.maxRecurseDepth {
        pdata.maxRecurseDepth := pdata.recurseDepth;
      }
      trace := Then(t, e);
      forall q | q in scripts ensures Accounts(trace, q, q.Record(), lastReturnTime) {
        if q != pdata {
          OtherAccounts(t, e, q, old(q.Record()), last, last);
        }
      }
    }

    /** The return of the script's last activation: its totals are settled and its caller
        becomes the current script. */
    method LeaveLast(pdata: JSDProfileData, now: int)
      requires Valid() && pdata in scripts && pdata.lastCallStart != 0 && pdata.recurseDepth == 0
      requires WellNested(Then(trace, Event(false, pdata, now)))
      modifies this, pdata
      ensures Valid() && trace == Then(old(trace), Event(false, pdata, now)) && scripts == old(scripts)
    {
      hide WellNested, Current, Accounts, Active, Count, Finished;
      ghost var t, e, last := trace, Event(false, pdata, now), lastReturnTime;
      ClockAdvances(t, e);
      Standing(t, pdata, pdata.Record(), last);
      LastReturn(t, e, pdata.Record(), last);
      callingFunctionPData := pdata.caller;
      pdata.Finish(now, lastReturnTime);
      lastReturnTime := now;
      trace := Then(t, e);
      forall q | q in scripts ensures Accounts(trace, q, q.Record(), lastReturnTime) {
        if q != pdata {
          OtherAccounts(t, e, q, old(q.Record()), last, now);
        }
      }
    }

    method LeaveAgain(pdata: JSDProfileData, ghost now: int)
      requires Valid() && pdata in scripts && pdata.recurseDepth != 0
      requires WellNested(Then(trace, Event(false, pdata, now)))
      modifies this`trace, pdata
      ensures Valid() && trace == Then(old(trace), Event(false, pdata, now)) && scripts == old(scripts)
    {
      hide WellNested, Current, Accounts, Active, Count;
      ghost var t, e, last := trace, Event(false, pdata, now), lastReturnTime;
      ClockAdvances(t, e);
      Standing(t, pdata, pdata.Record(), last);
      RecursiveReturn(t, e, pdata.Record(), last);
      pdata.recurseDepth := pdata.recurseDepth - 1;
      pdata.callCount := pdata.callCount + 1;
      trace := Then(t, e);
      forall q | q in scripts ensures Accounts(trace, q, q.Record(), lastReturnTime) {
        if q != pdata {
          OtherAccounts(t, e, q, old(q.Record()), last, last);
        }
      }
    }

    /** The return of a script called before profiling began. */
    ghost method LeaveStray(pdata: JSDProfileData, now: int)
      requires Valid() && pdata in scripts && pdata.lastCallStart == 0
      requires WellNested(Then(trace, Event(false, pdata, now)))
      modifies this`trace
      ensures Valid() && trace == Then(old(trace), Event(false, pdata, now))
    {
      hide WellNested, Current, Accounts, Active, Count;
      var t, e := trace, Event(false, pdata, now);
      ClockAdvances(t, e);
      Standing(t, pdata, pdata.Record(), lastReturnTime);
      StrayReturn(t, e, pdata.Record(), lastReturnTime);
      trace := Then(t, e);
      forall q | q in scripts ensures Accounts(trace, q, q.Record(), lastReturnTime) {
        if q != pdata {
          OtherAccounts(t, e, q, q.Record(), lastReturnTime, lastReturnTime);
        }
      }
    }

    /** _callHook for a profiled script: every record says what the trace so far says of
        its script. */
    method CallHook(pdata: JSDProfileData, before: bool, now: int)
      requires Valid() && pdata in scripts && WellNested(Then(trace, Event(before, pdata, now)))
      modifies this, pdata, if callingFunctionPData == null then {} else {callingFunctionPData}
      ensures Valid() && trace == Then(old(trace), Event(before, pdata, now)) && scripts == old(scripts)
    {
      hide WellNested, Uses, Current, Accounts, Clock;
      if before {
        if pdata.lastCallStart == 0 {
          EnterFirst(pdata, now);
        } else {
          EnterAgain(pdata, now);
        }
      } else if pdata.recurseDepth == 0 && pdata.lastCallStart != 0 {
        LeaveLast(pdata, now);
      } else if pdata.recurseDepth != 0 {
        LeaveAgain(pdata, now);
      } else {
        LeaveStray(pdata, now);
      }
    }

    /** From callingFunctionPData the caller links run through the active scripts, the
        latest first, each once, and end with null. */
    lemma CallerLinksAreActiveStack()
      requires Valid()
      ensures Links(callingFunctionPData, Firsts(Active(trace)), scripts)
    {
      var s := Firsts(Active(trace));
      forall q ensures Count(s, q) <= 1
        ensures Count(s, q) > 0 ==> q in scripts && Pointer(q.caller) == Under(s, q)
      {
        FirstsCount(Active(trace), q);
        if Count(s, q) > 0 {
          UsesActive(trace, scripts, q);
        }
      }
      LinksFrom(callingFunctionPData, s, scripts);
    }

    /** What p's record holds as its billed time: settled, stopped and still running. */
    ghost function Balance(p: JSDProfileData): int
      reads this, p
    {
      p.totalOwnExecutionTime +
      if p.lastCallStart == 0 then 0
      else p.runningTime + if callingFunctionPData != p then 0
                           else Clock(trace) - if lastReturnTime != 0 then lastReturnTime else p.lastCallStart
    }

    ghost function Balances(ps: seq<JSDProfileData>): int
      reads this, ps
    {
      if ps == [] then 0 else Balance(ps[0]) + Balances(ps[1..])
    }

    lemma BalanceIsBilled(p: JSDProfileData)
      requires Valid() && p in scripts
      ensures Balance(p) == BilledTime(trace, p)
    {
      hide WellNested, Uses, Tallied;
      assert Accounts(trace, p, p.Record(), lastReturnTime);
      if Current(trace) == Some(p) {
        CurrentIsActive(trace, p);
      }
    }

    lemma {:induction false} BalancesAreBilledTimes(ps: seq<JSDProfileData>)
      requires Valid() && forall p | p in ps :: p in scripts
      ensures Balances(ps) == BilledSum(trace, ps)
    {
      hide Valid;
      if ps != [] {
        BalancesAreBilledTimes(ps[1..]);
        BalanceIsBilled(ps[0]);
      }
    }

    /** Conservation: what the scripts are billed adds up to the durations of the
        outermost calls, the one in progress included. */
    lemma BilledTimesConserved(ps: seq<JSDProfileData>)
      requires Valid() && Distinct(ps) && scripts == set p | p in ps
      ensures Balances(ps) == OutermostTime(trace) + Ongoing(trace)
      ensures Active(trace) == Bottom ==>
        Ongoing(trace) == 0 && forall p | p in ps :: Balance(p) == p.totalOwnExecutionTime == BilledTime(trace, p)
    {
      BalancesAreBilledTimes(ps);
      BilledTimesAddUp(trace, ps);
    }

    /** A script that is not active has its billed time settled. */
    lemma Settled(p: JSDProfileData)
      requires Valid() && p in scripts && Count(Active(trace), p) == 0
      ensures p.totalOwnExecutionTime == BilledTime(trace, p)
    {
      assert Accounts(trace, p, p.Record(), lastReturnTime);
    }

    /** The recorded minima are the least duration, and the least time billed, exactly
        when the script's first return was not a recursive one or that least is zero. */
    lemma MinimumIsLeast(p: JSDProfileData)
      requires Valid() && p in scripts && Durations(trace, p) != []
      ensures BilledDurations(trace, p) != []
      ensures p.minExecutionTime == Smallest(Durations(trace, p))
              <==> !RecursedFirst(trace, p) || Smallest(Durations(trace, p)) == 0
      ensures p.minOwnExecutionTime == Smallest(BilledDurations(trace, p))
              <==> !RecursedFirst(trace, p) || Smallest(BilledDurations(trace, p)) == 0
      ensures RecursedFirst(trace, p) ==> p.minExecutionTime == p.minOwnExecutionTime == 0
    {
      hide Smallest, WellNested, Durations, BilledDurations;
      assert Accounts(trace, p, p.Record(), lastReturnTime);
    }

    /** While no active script has been called through another one, the record holds the
        documented own times: in total, running part included, and at the extremes. */
    lemma OwnTimesAsDocumented(p: JSDProfileData)
      requires Valid() && p in scripts && Direct(trace)
      ensures Balance(p) == OwnTime(trace, p)
      ensures p.maxOwnExecutionTime == Largest(OwnDurations(trace, p))
      ensures p.minOwnExecutionTime == RecordedMinimum(trace, p, OwnDurations(trace, p))
      ensures p.lastCallStart == 0 ==> p.totalOwnExecutionTime == OwnTime(trace, p)
    {
      hide WellNested, Uses, Largest, RecordedMinimum;
      BalanceIsBilled(p);
      OwnDurationsExact(trace, scripts, p);
      assert Accounts(trace, p, p.Record(), lastReturnTime);
    }

    /** On a clock that ticks between events the records have been right all along exactly
        if no call but the last was one of an active script through another one. */
    lemma OwnTimesRightExactly()
      requires Valid() && Ticking(trace) && trace.Then?
      ensures TimesExact(trace, scripts) <==> Direct(trace.past)
      ensures TimesExact(trace, scripts) ==> forall p | p in scripts :: Balance(p) == OwnTime(trace, p)
    {
      OwnTimesExactly(trace, scripts);
      forall p | p in scripts ensures Balance(p) == BilledTime(trace, p) {
        BalanceIsBilled(p);
      }
    }
  }

  /** A script called again through another one: its record shows 2 units of own time
      though its code ran for 12, and the other one's shows 12 for 2. */
  method MutualCallMisbills() returns (c: JSDContext, a: JSDProfileData, b: JSDProfileData)
    ensures c.Valid() && a in c.scripts && b in c.scripts && c.trace == MutualCall(a, b)
    ensures a.totalOwnExecutionTime == 2 && OwnTime(c.trace, a) == 12
    ensures b.totalOwnExecutionTime == 12 && OwnTime(c.trace, b) == 2
  {
    hide WellNested, Accounts, Uses, BilledTime, OwnTime;
    c := new JSDContext();
    a := c.NewProfileData();
    b := c.NewProfileData();
    MutualCallSays(a, b);
    ghost var t6 := MutualCall(a, b);
    ghost var t5 := t6.past;
    ghost var t4 := t5.past;
    ghost var t3 := t4.past;
    ghost var t2 := t3.past;
    PrefixesWellNested(t6);
    assert AllWellNested(t5) && AllWellNested(t4) && AllWellNested(t3) && AllWellNested(t2) && AllWellNested(t2.past);
    c.CallHook(a, true, 1);
    c.CallHook(b, true, 2);
    c.CallHook(a, true, 3);
    c.CallHook(a, false, 13);
    c.CallHook(b, false, 14);
    c.CallHook(a, false, 15);
    c.Settled(a);
    c.Settled(b);
  }

  /** A script that calls itself once: its one activation took 3 units, all its own, and
      the recorded minima are 0. */
  method RecursionPinsMinimum() returns (c: JSDContext, p: JSDProfileData)
    ensures c.Valid() && p in c.scripts && c.trace == SelfCall(p)
    ensures Durations(c.trace, p) == BilledDurations(c.trace, p) == [3]
    ensures p.minExecutionTime == p.minOwnExecutionTime == 0
  {
    hide WellNested, Accounts, Uses, BilledTime, RecursedFirst, Durations, BilledDurations;
    c := new JSDContext();
    p := c.NewProfileData();
    SelfCallSays(p);
    ghost var t4 := SelfCall(p);
    ghost var t3 := t4.past;
    ghost var t2 := t3.past;
    PrefixesWellNested(t4);
    assert AllWellNested(t3) && AllWellNested(t2) && AllWellNested(t2.past);
    c.CallHook(p, true, 1);
    c.CallHook(p, true, 2);
    c.CallHook(p, false, 3);
    c.CallHook(p, false, 4);
    c.MinimumIsLeast(p);
  }

  ghost predicate Links(p: JSDProfileData?, s: Stack<JSDProfileData>, scripts: set<JSDProfileData>)
    reads scripts
  {
    match s
    case Bottom => p == null
    case Push(q, r) => p == q && q in scripts && Links(q.caller, r, scripts)
  }

  lemma {:induction false} LinksFrom(p: JSDProfileData?, s: Stack<JSDProfileData>, scripts: set<JSDProfileData>)
    requires Pointer(p) == Top(s) && forall q :: Count(s, q) <= 1
    requires forall q :: Count(s, q) > 0 ==> q in scripts && Pointer(q.caller) == Under(s, q)
    ensures Links(p, s, scripts)
  {
    if s.Push? {
      assert Count(s, s.top) == 1;
      forall q | Count(s.rest, q) > 0 ensures q in scripts && Pointer(q.caller) == Under(s.rest, q) {
        assert Count(s, q) > 0;
      }
      forall q ensures Count(s.rest, q) <= 1 {
        assert Count(s, q) <= 1;
      }
      LinksFrom(s.top.caller, s.rest, scripts);
    }
  }
}
