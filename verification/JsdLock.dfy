/** The reentrant lock of js/jsd/jsd_lock.cpp (the NSPR variant) as a state machine: one
    step is one read or write of a shared word, or one PR_Lock or PR_Unlock, and the
    steps of any number of threads interleave freely. */
module JsdLock {
  import opened Wrappers

  type Thread = nat

  /** Where a thread is: outside, or before the named step of jsd_Lock, jsd_Unlock or
      jsd_IsLocked. */
  datatype PC =
    | Idle
    | LockTest | CountRead | CountWrite(seen: int) | CountAssert
    | Acquire | OwnerAssert | ZeroAssert | SetCount | SetOwner
    | UnlockTest | DropRead | DropWrite(seen: int) | ClearOwner | Release
    | AskTest | AskAssert

  /** depth is the number of calls of jsd_Lock that have returned less those undone by
      jsd_Unlock; the program does not store it. answer is what jsd_IsLocked returned
      last. */
  datatype Local = Local(pc: PC, depth: int, answer: bool)

  /** The fields owner and count, the thread inside the PRLock, and the threads. */
  datatype State = State(owner: Option<Thread>, count: int, holder: Option<Thread>, threads: map<Thread, Local>)

  /** What a thread does next: begin a call when outside, otherwise go on. */
  datatype Action = CallLock | CallUnlock | CallIsLocked | Go

  predicate Enabled(s: State, t: Thread, a: Action) {
    && t in s.threads
    && (s.threads[t].pc.Idle? <==> !a.Go?)
    && (s.threads[t].pc.Acquire? ==> s.holder.None?)
  }

  function At(s: State, t: Thread, pc: PC): State
    requires t in s.threads
  {
    s.(threads := s.threads[t := s.threads[t].(pc := pc)])
  }

  /** Returns from a call that changed t's nesting by delta. */
  function Return(s: State, t: Thread, delta: int): State
    requires t in s.threads
  {
    s.(threads := s.threads[t := s.threads[t].(pc := Idle, depth := s.threads[t].depth + delta)])
  }

  function Answer(s: State, t: Thread, answer: bool): State
    requires t in s.threads
  {
    s.(threads := s.threads[t := s.threads[t].(pc := Idle, answer := answer)])
  }

  function Step(s: State, t: Thread, a: Action): State
    requires Enabled(s, t, a)
  {
    match a
    case CallLock => At(s, t, LockTest)
    case CallUnlock => At(s, t, UnlockTest)
    case CallIsLocked => At(s, t, AskTest)
    case Go =>
      match s.threads[t].pc
      case LockTest => At(s, t, if s.owner == Some(t) then CountRead else Acquire)
      case CountRead => At(s, t, CountWrite(s.count))
      case CountWrite(seen) => At(s, t, CountAssert).(count := seen + 1)
      case CountAssert => Return(s, t, 1)
      case Acquire => At(s, t, OwnerAssert).(holder := Some(t))
      case OwnerAssert => At(s, t, ZeroAssert)
      case ZeroAssert => At(s, t, SetCount)
      case SetCount => At(s, t, SetOwner).(count := 1)
      case SetOwner => Return(s, t, 1).(owner := Some(t))
      case UnlockTest => At(s, t, if s.owner == Some(t) then DropRead else Idle)
      case DropRead => At(s, t, DropWrite(s.count))
      case DropWrite(seen) =>
        var s' := Return(s, t, -1).(count := seen - 1);
        if seen - 1 == 0 then At(s', t, ClearOwner) else s'
      case ClearOwner => At(s, t, Release).(owner := None)
      case Release => At(s, t, Idle).(holder := None)
      case AskTest => if s.owner == Some(t) then At(s, t, AskAssert) else Answer(s, t, false)
      case AskAssert => Answer(s, t, true)
      case Idle => s
  }

  // ---------- what every step keeps ----------

  /** What the shared words say to a thread, by where it is. */
  ghost predicate Consistent(s: State, t: Thread)
    requires t in s.threads
  {
    var depth, mine, inside := s.threads[t].depth, s.owner == Some(t), s.holder == Some(t);
    match s.threads[t].pc
    case Idle => Resting(s, depth, mine, inside)
    case LockTest => Resting(s, depth, mine, inside)
    case UnlockTest => Resting(s, depth, mine, inside)
    case AskTest => Resting(s, depth, mine, inside)
    case Acquire => Resting(s, depth, mine, inside) && !mine
    case CountRead => Resting(s, depth, mine, inside) && mine
    case DropRead => Resting(s, depth, mine, inside) && mine
    case AskAssert => Resting(s, depth, mine, inside) && mine
    case CountWrite(seen) => Resting(s, depth, mine, inside) && mine && seen == s.count
    case DropWrite(seen) => Resting(s, depth, mine, inside) && mine && seen == s.count
    case CountAssert => mine && inside && depth > 0 && s.count == depth + 1
    case OwnerAssert => s.owner == None && inside && s.count == depth == 0
    case ZeroAssert => s.owner == None && inside && s.count == depth == 0
    case SetCount => s.owner == None && inside && s.count == depth == 0
    case SetOwner => s.owner == None && inside && s.count == 1 && depth == 0
    case ClearOwner => mine && inside && s.count == depth == 0
    case Release => s.owner == None && inside && s.count == depth == 0
  }

  /** A thread that is not changing the lock owns it, holds the PRLock and has counted its
      nesting, or has nothing. */
  ghost predicate Resting(s: State, depth: int, mine: bool, inside: bool) {
    mine == inside && if mine then s.count == depth > 0 else depth == 0
  }

  ghost predicate Inv(s: State) {
    && (forall t | t in s.threads :: Consistent(s, t))
    && (s.holder.Some? ==> s.holder.value in s.threads)
    && (s.owner.Some? ==> s.owner == s.holder)
    && (s.holder == None ==> s.count == 0)
  }

  ghost predicate Initial(s: State) {
    && s.owner == None && s.count == 0 && s.holder == None
    && forall t | t in s.threads :: s.threads[t] == Local(Idle, 0, false)
  }

  lemma StepKeepsOwn(s: State, t: Thread, a: Action)
    requires Inv(s) && Enabled(s, t, a)
    ensures Consistent(Step(s, t, a), t)
  {
    assert Consistent(s, t);
  }

  /** The unsynchronised read of owner is reliable: no step of another thread makes t the
      owner or stops it from being the owner, or disturbs t otherwise. */
  lemma StepKeepsOther(s: State, t: Thread, a: Action, u: Thread)
    requires Inv(s) && Enabled(s, t, a) && u in s.threads && u != t
    ensures Consistent(Step(s, t, a), u)
    ensures Step(s, t, a).threads[u] == s.threads[u]
    ensures Step(s, t, a).owner == Some(u) <==> s.owner == Some(u)
    ensures s.owner == Some(u) ==> Step(s, t, a).count == s.count
  {
    assert Consistent(s, t) && Consistent(s, u);
  }

  lemma StepKeeps(s: State, t: Thread, a: Action)
    requires Inv(s) && Enabled(s, t, a)
    ensures Inv(Step(s, t, a))
  {
    var s' := Step(s, t, a);
    forall u | u in s'.threads ensures Consistent(s', u) {
      if u == t {
        StepKeepsOwn(s, t, a);
      } else {
        StepKeepsOther(s, t, a, u);
      }
    }
    StepKeepsWords(s, t, a);
  }

  lemma StepKeepsWords(s: State, t: Thread, a: Action)
    requires Inv(s) && Enabled(s, t, a)
    ensures var s' := Step(s, t, a);
            && (s'.holder.Some? ==> s'.holder.value in s'.threads)
            && (s'.owner.Some? ==> s'.owner == s'.holder)
            && (s'.holder == None ==> s'.count == 0)
  {
    assert Consistent(s, t);
  }

  // ---------- runs ----------

  ghost predicate Reaches(s: State, steps: seq<(Thread, Action)>, end: State)
    decreases |steps|
  {
    if steps == [] then end == s
    else Enabled(s, steps[0].0, steps[0].1) && Reaches(Step(s, steps[0].0, steps[0].1), steps[1..], end)
  }

  lemma InitialInv(s: State)
    requires Initial(s)
    ensures Inv(s)
  {
  }

  lemma {:induction false} RunKeeps(s: State, steps: seq<(Thread, Action)>, end: State)
    requires Inv(s) && Reaches(s, steps, end)
    ensures Inv(end)
    decreases |steps|
  {
    if steps != [] {
      StepKeeps(s, steps[0].0, steps[0].1);
      RunKeeps(Step(s, steps[0].0, steps[0].1), steps[1..], end);
    }
  }

  /** Safety over every interleaving: one thread inside; the owner holds the PRLock and
      count is its nesting; every JS_ASSERT but the one against unlocking a lock one does
      not own holds; and PR_Unlock is called by the thread inside. */
  lemma Safety(start: State, steps: seq<(Thread, Action)>, s: State, t: Thread, u: Thread)
    requires Initial(start) && Reaches(start, steps, s) && t in s.threads && u in s.threads
    ensures s.threads[t].depth > 0 && s.threads[u].depth > 0 ==> t == u
    ensures s.threads[t].depth > 0 ==> s.owner == s.holder == Some(t)
    ensures s.threads[t].depth > 0 && s.threads[t].pc.Idle? ==> s.count == s.threads[t].depth
    ensures s.owner == Some(t) && s.threads[t].pc.Idle? ==> s.threads[t].depth > 0
    ensures s.count >= 0
    ensures s.threads[t].pc.OwnerAssert? ==> s.owner == None
    ensures s.threads[t].pc.ZeroAssert? ==> s.count == 0
    ensures s.threads[t].pc.CountAssert? ==> s.count > 1
    ensures s.threads[t].pc.AskAssert? ==> s.count > 0
    ensures s.threads[t].pc.Release? ==> s.holder == Some(t)
    ensures s.threads[t].pc.Acquire? ==> s.holder != Some(t)
  {
    InitialInv(start);
    RunKeeps(start, steps, s);
    assert Consistent(s, t) && Consistent(s, u);
    if s.holder.Some? {
      assert Consistent(s, s.holder.value);
    }
  }

  /** jsd_IsLocked answers whether the caller is inside. */
  lemma IsLockedAnswers(s: State, t: Thread)
    requires Inv(s) && t in s.threads && s.threads[t].pc.AskTest?
    ensures Step(s, t, Go).threads[t].pc.AskAssert? <==> s.threads[t].depth > 0
  {
    assert Consistent(s, t);
  }

  /** jsd_Unlock by a thread that is not inside changes nothing; by the thread inside, it
      goes on to undo one call of jsd_Lock. */
  lemma UnlockNeedsOwner(s: State, t: Thread)
    requires Inv(s) && t in s.threads && s.threads[t].pc.UnlockTest?
    ensures s.threads[t].depth == 0 ==> Step(s, t, Go) == At(s, t, Idle)
    ensures s.threads[t].depth > 0 ==> Step(s, t, Go) == At(s, t, DropRead)
  {
    assert Consistent(s, t);
  }

  /** A thread waits for the PRLock only while some other thread is inside or on its way
      out or in, so some thread that is not waiting can take a step. */
  lemma NoDeadlock(s: State, t: Thread)
    requires Inv(s) && t in s.threads && s.threads[t].pc.Acquire?
    ensures Enabled(s, t, Go) || (s.holder.Some? && s.holder.value in s.threads && s.holder.value != t)
    ensures !Enabled(s, t, Go) ==> var h := s.holder.value;
            Enabled(s, h, Go) || (s.threads[h].pc.Idle? && s.threads[h].depth > 0)
  {
    if s.holder.Some? {
      assert Consistent(s, t) && Consistent(s, s.holder.value);
    }
  }

  // ---------- the lock it implements ----------

  datatype Spec = Free | Held(who: Thread, nesting: nat)

  datatype SpecOp = SpecLock(t: Thread) | SpecUnlock(t: Thread)

  /** The atomic reentrant lock: locking waits until the lock is free or one's own. */
  function SpecStep(x: Spec, op: SpecOp): Option<Spec> {
    match op
    case SpecLock(t) =>
      if x.Free? then Some(Held(t, 1)) else if x.who == t then Some(Held(t, x.nesting + 1)) else None
    case SpecUnlock(t) =>
      if x.Free? || x.who != t then None else if x.nesting <= 1 then Some(Free) else Some(Held(t, x.nesting - 1))
  }

  function SpecRun(x: Spec, ops: seq<SpecOp>): Option<Spec>
    decreases |ops|
  {
    if ops == [] then Some(x)
    else match SpecStep(x, ops[0])
      case None => None
      case Some(y) => SpecRun(y, ops[1..])
  }

  /** The atomic lock a state stands for. */
  function Abstract(s: State): Spec {
    if s.owner.Some? && s.owner.value in s.threads && s.threads[s.owner.value].depth > 0
    then Held(s.owner.value, s.threads[s.owner.value].depth) else Free
  }

  /** jsd_Lock takes effect as it returns, jsd_Unlock as it writes the lower count. */
  function Effect(s: State, t: Thread, a: Action): seq<SpecOp>
    requires t in s.threads
  {
    if !a.Go? then []
    else match s.threads[t].pc
      case CountAssert => [SpecLock(t)]
      case SetOwner => [SpecLock(t)]
      case DropWrite(_) => [SpecUnlock(t)]
      case _ => []
  }

  /** Every step is a step of the atomic lock or leaves it as it is. */
  lemma StepRefines(s: State, t: Thread, a: Action)
    requires Inv(s) && Enabled(s, t, a)
    ensures SpecRun(Abstract(s), Effect(s, t, a)) == Some(Abstract(Step(s, t, a)))
  {
    assert Consistent(s, t);
    if s.owner.Some? {
      assert Consistent(s, s.owner.value);
    }
  }

  function Effects(s: State, steps: seq<(Thread, Action)>): seq<SpecOp>
    decreases |steps|
  {
    if steps == [] || !Enabled(s, steps[0].0, steps[0].1) then []
    else Effect(s, steps[0].0, steps[0].1) + Effects(Step(s, steps[0].0, steps[0].1), steps[1..])
  }

  lemma {:induction false} SpecRunConcat(x: Spec, y: Spec, a: seq<SpecOp>, b: seq<SpecOp>)
    requires SpecRun(x, a) == Some(y)
    ensures SpecRun(x, a + b) == SpecRun(y, b)
    decreases |a|
  {
    if a == [] {
      assert a + b == b;
    } else {
      assert (a + b)[1..] == a[1..] + b;
      SpecRunConcat(SpecStep(x, a[0]).value, y, a[1..], b);
    }
  }

  /** Every interleaving has the effect of calls of the atomic lock made one at a time. */
  lemma {:induction false} RunRefines(s: State, steps: seq<(Thread, Action)>, end: State)
    requires Inv(s) && Reaches(s, steps, end)
    ensures SpecRun(Abstract(s), Effects(s, steps)) == Some(Abstract(end))
    decreases |steps|
  {
    if steps != [] {
      var t, a := steps[0].0, steps[0].1;
      StepKeeps(s, t, a);
      StepRefines(s, t, a);
      RunRefines(Step(s, t, a), steps[1..], end);
      SpecRunConcat(Abstract(s), Abstract(Step(s, t, a)), Effect(s, t, a), Effects(Step(s, t, a), steps[1..]));
    }
  }

  // ---------- whole calls ----------

  /** The operations of t among ops. */
  function OpsOf(ops: seq<SpecOp>, t: Thread): seq<SpecOp>
    decreases |ops|
  {
    if ops == [] then [] else if ops[0].t == t then [ops[0]] + OpsOf(ops[1..], t) else OpsOf(ops[1..], t)
  }

  lemma {:induction false} OpsOfConcat(a: seq<SpecOp>, b: seq<SpecOp>, t: Thread)
    ensures OpsOf(a + b, t) == OpsOf(a, t) + OpsOf(b, t)
    decreases |a|
  {
    if a == [] {
      assert a + b == b;
    } else {
      assert (a + b)[1..] == a[1..] + b && (a + b)[0] == a[0];
      OpsOfConcat(a[1..], b, t);
      assert [a[0]] + (OpsOf(a[1..], t) + OpsOf(b, t)) == ([a[0]] + OpsOf(a[1..], t)) + OpsOf(b, t);
    }
  }

  /** t is in a call all along, and back outside at the end. */
  ghost predicate InCall(s: State, steps: seq<(Thread, Action)>, t: Thread)
    decreases |steps|
  {
    && t in s.threads
    && if steps == [] then s.threads[t].pc.Idle?
       else !s.threads[t].pc.Idle? && Enabled(s, steps[0].0, steps[0].1)
            && InCall(Step(s, steps[0].0, steps[0].1), steps[1..], t)
  }

  /** One call by t, from its first step to its return; the steps of the other threads
      in between are arbitrary. */
  ghost predicate OneCall(s: State, steps: seq<(Thread, Action)>, t: Thread, a: Action) {
    steps != [] && steps[0] == (t, a) && !a.Go? && Enabled(s, t, a) && InCall(Step(s, t, a), steps[1..], t)
  }

  /** What t's call has still to do. */
  function Owed(t: Thread, l: Local): Option<SpecOp> {
    match l.pc
    case UnlockTest => if l.depth > 0 then Some(SpecUnlock(t)) else None
    case DropRead => Some(SpecUnlock(t))
    case DropWrite(_) => Some(SpecUnlock(t))
    case ClearOwner => None
    case Release => None
    case AskTest => None
    case AskAssert => None
    case Idle => None
    case _ => Some(SpecLock(t))
  }

  /** The nesting of t after what it owes. */
  function DepthAfter(t: Thread, l: Local): int {
    match Owed(t, l)
    case None => l.depth
    case Some(SpecLock(_)) => l.depth + 1
    case Some(SpecUnlock(_)) => l.depth - 1
  }

  function AsSeq(op: Option<SpecOp>): seq<SpecOp> {
    match op
    case None => []
    case Some(x) => [x]
  }

  lemma OpsOfOne(op: SpecOp, t: Thread)
    ensures OpsOf([op], t) == (if op.t == t then [op] else []) && OpsOf([], t) == []
  {
  }

  /** A step of a call settles just what it takes effect for. */
  lemma OwnStepOwes(s: State, t: Thread)
    requires Inv(s) && Enabled(s, t, Go)
    ensures var l, l' := s.threads[t], Step(s, t, Go).threads[t];
            && DepthAfter(t, l') == DepthAfter(t, l)
            && if Effect(s, t, Go) == [] then Owed(t, l') == Owed(t, l)
               else Owed(t, l).Some? && Effect(s, t, Go) == [Owed(t, l).value] && Owed(t, l') == None
  {
    assert Consistent(s, t);
  }

  lemma OwnStepSettles(s: State, t: Thread)
    requires Inv(s) && Enabled(s, t, Go)
    ensures var l, l' := s.threads[t], Step(s, t, Go).threads[t];
            && DepthAfter(t, l') == DepthAfter(t, l)
            && AsSeq(Owed(t, l)) == OpsOf(Effect(s, t, Go), t) + AsSeq(Owed(t, l'))
  {
    hide Inv, Step, Effect, DepthAfter, OpsOf;
    OwnStepOwes(s, t);
    OpsOfOne(SpecLock(t), t);
    OpsOfOne(SpecUnlock(t), t);
  }

  lemma OtherStepOwes(s: State, u: Thread, a: Action, t: Thread)
    requires Inv(s) && Enabled(s, u, a) && t in s.threads && u != t
    ensures Step(s, u, a).threads[t] == s.threads[t] && OpsOf(Effect(s, u, a), t) == []
  {
    hide Step, OpsOf;
    StepKeepsOther(s, u, a, t);
    OpsOfOne(SpecLock(u), t);
    OpsOfOne(SpecUnlock(u), t);
  }

  lemma {:induction false} CallSettles(s: State, steps: seq<(Thread, Action)>, end: State, t: Thread)
    requires Inv(s) && InCall(s, steps, t) && Reaches(s, steps, end)
    ensures OpsOf(Effects(s, steps), t) == AsSeq(Owed(t, s.threads[t]))
    ensures t in end.threads && end.threads[t].pc.Idle? && end.threads[t].depth == DepthAfter(t, s.threads[t])
    decreases |steps|
  {
    if steps != [] {
      var (u, a) := steps[0];
      StepKeeps(s, u, a);
      if u == t {
        OwnStepSettles(s, t);
      } else {
        OtherStepOwes(s, u, a, t);
      }
      CallSettles(Step(s, u, a), steps[1..], end, t);
      OpsOfConcat(Effect(s, u, a), Effects(Step(s, u, a), steps[1..]), t);
    }
  }

  lemma CallStarts(s: State, t: Thread, a: Action)
    requires Inv(s) && Enabled(s, t, a) && !a.Go?
    ensures var depth, l := s.threads[t].depth, Step(s, t, a).threads[t];
            && Effect(s, t, a) == [] && depth >= 0 && DepthAfter(t, l) >= 0
            && AsSeq(Owed(t, l)) == (if a.CallLock? then [SpecLock(t)]
                                     else if a.CallUnlock? && depth > 0 then [SpecUnlock(t)] else [])
            && DepthAfter(t, l) == (if a.CallLock? then depth + 1
                                    else if a.CallUnlock? && depth > 0 then depth - 1 else depth)
  {
    assert Consistent(s, t);
  }

  lemma OutsideAtRest(s: State, t: Thread)
    requires Inv(s) && t in s.threads && s.threads[t].pc.Idle?
    ensures s.threads[t].depth > 0 ==> s.owner == s.holder == Some(t) && s.count == s.threads[t].depth
    ensures s.threads[t].depth == 0 ==> s.owner != Some(t) && s.holder != Some(t)
  {
    assert Consistent(s, t);
  }

  /** Between the start of a call and its return, whatever the other threads do meanwhile:
      jsd_Lock has locked exactly once and returns with the caller inside, one deeper;
      jsd_Unlock has unlocked exactly once if the caller was inside, and else has done
      nothing; jsd_IsLocked has done nothing. */
  lemma CallTakesEffectOnce(start: State, before: seq<(Thread, Action)>, s: State,
                            steps: seq<(Thread, Action)>, end: State, t: Thread, a: Action)
    requires Initial(start) && Reaches(start, before, s)
    requires OneCall(s, steps, t, a) && Reaches(s, steps, end)
    ensures t in end.threads && end.threads[t].pc.Idle?
    ensures var depth := s.threads[t].depth;
            && OpsOf(Effects(s, steps), t) == (if a.CallLock? then [SpecLock(t)]
                                               else if a.CallUnlock? && depth > 0 then [SpecUnlock(t)] else [])
            && end.threads[t].depth == (if a.CallLock? then depth + 1
                                        else if a.CallUnlock? && depth > 0 then depth - 1 else depth)
    ensures end.threads[t].depth > 0 ==> end.owner == end.holder == Some(t) && end.count == end.threads[t].depth
    ensures end.threads[t].depth == 0 ==> end.owner != Some(t) && end.holder != Some(t)
  {
    hide Step, Inv, InCall, OpsOf, Effect, Owed, DepthAfter, AsSeq;
    InitialInv(start);
    RunKeeps(start, before, s);
    CallStarts(s, t, a);
    StepKeeps(s, t, a);
    CallSettles(Step(s, t, a), steps[1..], end, t);
    assert [] + Effects(Step(s, t, a), steps[1..]) == Effects(Step(s, t, a), steps[1..]);
    RunKeeps(s, steps, end);
    OutsideAtRest(end, t);
  }

  /** How many steps of its own a call takes at most. */
  function StepsLeft(pc: PC): nat {
    match pc
    case Idle => 0
    case LockTest => 6
    case Acquire => 5
    case OwnerAssert => 4
    case ZeroAssert => 3
    case SetCount => 2
    case SetOwner => 1
    case CountRead => 3
    case CountWrite(_) => 2
    case CountAssert => 1
    case UnlockTest => 5
    case DropRead => 4
    case DropWrite(_) => 3
    case ClearOwner => 2
    case Release => 1
    case AskTest => 2
    case AskAssert => 1
  }

  /** Calls return: each step of its own brings a call nearer to its end, and only the
      PRLock can keep it from taking one. */
  lemma CallsFinish(s: State, t: Thread)
    requires t in s.threads && !s.threads[t].pc.Idle?
    ensures Enabled(s, t, Go) ==> StepsLeft(Step(s, t, Go).threads[t].pc) < StepsLeft(s.threads[t].pc)
    ensures !Enabled(s, t, Go) ==> s.threads[t].pc.Acquire? && s.holder.Some?
    ensures StepsLeft(s.threads[t].pc) > 0
  {
  }

  /** So a call is over after at most six steps of its own. */
  lemma {:induction false} OwnStepsBounded(s: State, steps: seq<(Thread, Action)>, t: Thread)
    requires InCall(s, steps, t)
    ensures OwnSteps(steps, t) <= StepsLeft(s.threads[t].pc) <= 6
    decreases |steps|
  {
    if steps != [] {
      var (u, a) := steps[0];
      if u == t {
        CallsFinish(s, t);
      } else {
        LeavesLocal(s, u, a, t);
      }
      OwnStepsBounded(Step(s, u, a), steps[1..], t);
    }
  }

  function OwnSteps(steps: seq<(Thread, Action)>, t: Thread): nat
    decreases |steps|
  {
    if steps == [] then 0 else (if steps[0].0 == t then 1 else 0) + OwnSteps(steps[1..], t)
  }

  lemma LeavesLocal(s: State, u: Thread, a: Action, t: Thread)
    requires Enabled(s, u, a) && t in s.threads && u != t
    ensures t in Step(s, u, a).threads && Step(s, u, a).threads[t] == s.threads[t]
  {
  }

  lemma {:induction false} AskingKeeps(s: State, steps: seq<(Thread, Action)>, end: State, t: Thread)
    requires Inv(s) && InCall(s, steps, t) && Reaches(s, steps, end)
    requires s.threads[t].pc.AskTest? || s.threads[t].pc.AskAssert?
             || (s.threads[t].pc.Idle? && (s.threads[t].answer <==> s.threads[t].depth > 0))
    ensures t in end.threads && (end.threads[t].answer <==> end.threads[t].depth > 0)
    decreases |steps|
  {
    if steps != [] {
      var (u, a) := steps[0];
      StepKeeps(s, u, a);
      assert Consistent(s, t);
      if u != t {
        StepKeepsOther(s, u, a, t);
      }
      AskingKeeps(Step(s, u, a), steps[1..], end, t);
    }
  }

  /** And what jsd_IsLocked returns is whether the caller is inside. */
  lemma CallAnswers(start: State, before: seq<(Thread, Action)>, s: State,
                    steps: seq<(Thread, Action)>, end: State, t: Thread)
    requires Initial(start) && Reaches(start, before, s)
    requires OneCall(s, steps, t, CallIsLocked) && Reaches(s, steps, end)
    ensures t in end.threads && (end.threads[t].answer <==> s.threads[t].depth > 0)
  {
    CallTakesEffectOnce(start, before, s, steps, end, t, CallIsLocked);
    InitialInv(start);
    RunKeeps(start, before, s);
    StepKeeps(s, t, CallIsLocked);
    AskingKeeps(Step(s, t, CallIsLocked), steps[1..], end, t);
  }
}
