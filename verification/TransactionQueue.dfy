/** The transaction queue as a protocol: any number of threads push and pop
    through one mutex, one counting semaphore and one heap. */
module TransactionQueue {
  import opened HeapOrder
  import opened Options

  type Tid = nat
  type Trans = Entry<int, nat>

  // Where a thread stands inside push_queue or pop_queue.
  datatype Pc =
    | Idle
    | PushStarted(t: Trans)
    | PushLocked(t: Trans)
    | PushInserted
    | PushPosted
    | PopStarted
    | PopEntered(forced: bool)
    | PopLocked(forced: bool)
    | PopTaken(result: Option<Trans>)

  // `inserted` and `delivered` record every transaction put into and taken from
  // the heap; `stolen` counts the entries taken by forced pops, less the pops
  // that waited on the semaphore and still got nothing.
  datatype State = State(
    threads: map<Tid, Pc>,
    owner: Option<Tid>,
    semaphore: nat,
    heap: seq<Trans>,
    inserted: multiset<Trans>,
    delivered: multiset<Trans>,
    stolen: int)

  datatype Action =
    | StartPush(t: Trans) | LockPush | DoInsert | Post | UnlockPush
    | StartPop(force: bool) | SemWait | LockPop | Take | UnlockPop

  ghost predicate Init(s: State) {
    && (forall tid :: tid in s.threads ==> s.threads[tid] == Idle)
    && s.owner == None && s.semaphore == 0 && s.heap == []
    && s.inserted == multiset{} && s.delivered == multiset{} && s.stolen == 0
  }

  function Move(s: State, tid: Tid, pc: Pc): State {
    s.(threads := s.threads[tid := pc])
  }

  predicate Enabled(s: State, tid: Tid, a: Action) {
    tid in s.threads &&
    match a
    case StartPush(_) => s.threads[tid].Idle?
    case LockPush => s.threads[tid].PushStarted? && s.owner.None?
    case DoInsert => s.threads[tid].PushLocked?
    case Post => s.threads[tid].PushInserted?
    case UnlockPush => s.threads[tid].PushPosted?
    case StartPop(_) => s.threads[tid].Idle?
    case SemWait => s.threads[tid].PopStarted? && s.semaphore > 0
    case LockPop => s.threads[tid].PopEntered? && s.owner.None?
    case Take => s.threads[tid].PopLocked?
    case UnlockPop => s.threads[tid].PopTaken?
  }

  function Next(s: State, tid: Tid, a: Action): State
    requires Enabled(s, tid, a)
  {
    var pc := s.threads[tid];
    match a
    case StartPush(t) => Move(s, tid, PushStarted(t))
    case LockPush => Move(s, tid, PushLocked(pc.t)).(owner := Some(tid))
    case DoInsert =>
      Move(s, tid, PushInserted)
        .(heap := Inserted(CompareInts, s.heap, pc.t), inserted := s.inserted + multiset{pc.t})
    case Post => Move(s, tid, PushPosted).(semaphore := s.semaphore + 1)
    case UnlockPush => Move(s, tid, Idle).(owner := None)
    case StartPop(force) => Move(s, tid, if force then PopEntered(true) else PopStarted)
    case SemWait => Move(s, tid, PopEntered(false)).(semaphore := s.semaphore - 1)
    case LockPop => Move(s, tid, PopLocked(pc.forced)).(owner := Some(tid))
    case Take =>
      if s.heap == [] then
        Move(s, tid, PopTaken(None)).(stolen := if pc.forced then s.stolen else s.stolen - 1)
      else
        Move(s, tid, PopTaken(Some(s.heap[0])))
          .(heap := MinRemoved(CompareInts, s.heap),
            delivered := s.delivered + multiset{s.heap[0]},
            stolen := if pc.forced then s.stolen + 1 else s.stolen)
    case UnlockPop => Move(s, tid, Idle).(owner := None)
  }

  // ----- what every step keeps -----

  predicate HoldsLock(pc: Pc) {
    pc.PushLocked? || pc.PushInserted? || pc.PushPosted? || pc.PopLocked? || pc.PopTaken?
  }

  // A thread that has taken a unit of the semaphore it has not used up, or put
  // an entry into the heap whose unit it has not posted yet.
  predicate Outstanding(pc: Pc) {
    pc.PushInserted? || (pc.PopEntered? && !pc.forced) || (pc.PopLocked? && !pc.forced)
  }

  function OutstandingThreads(s: State): set<Tid> {
    set tid | tid in s.threads && Outstanding(s.threads[tid])
  }

  ghost predicate MutualExclusion(s: State) {
    forall tid :: tid in s.threads ==> (HoldsLock(s.threads[tid]) <==> s.owner == Some(tid))
  }

  ghost predicate Balanced(s: State) {
    |s.heap| + s.stolen == s.semaphore + |OutstandingThreads(s)|
  }

  ghost predicate Conserved(s: State) {
    multiset(s.heap) + s.delivered == s.inserted
  }

  ghost predicate Inv(s: State) {
    MutualExclusion(s) && Balanced(s) && Conserved(s) && Ordered(CompareInts, s.heap)
  }

  lemma InitInv(s: State)
    requires Init(s)
    ensures Inv(s)
  {
    assert OutstandingThreads(s) == {};
  }

  lemma OutstandingAfter(s: State, tid: Tid, pc: Pc)
    requires tid in s.threads
    ensures |OutstandingThreads(Move(s, tid, pc))|
         == |OutstandingThreads(s)| + (if Outstanding(pc) then 1 else 0)
          - (if Outstanding(s.threads[tid]) then 1 else 0)
  {
    var before, after := OutstandingThreads(s), OutstandingThreads(Move(s, tid, pc));
    SameWithout(s, tid, pc);
    CountWithout(after, tid);
    CountWithout(before, tid);
  }

  lemma SameWithout(s: State, tid: Tid, pc: Pc)
    requires tid in s.threads
    ensures OutstandingThreads(Move(s, tid, pc)) - {tid} == OutstandingThreads(s) - {tid}
    ensures tid in OutstandingThreads(Move(s, tid, pc)) <==> Outstanding(pc)
    ensures tid in OutstandingThreads(s) <==> Outstanding(s.threads[tid])
  {
    var t := Move(s, tid, pc);
    forall u | u != tid ensures u in OutstandingThreads(t) <==> u in OutstandingThreads(s) {
      assert u in t.threads <==> u in s.threads;
    }
  }

  lemma CountWithout<T>(ts: set<T>, x: T)
    ensures |ts| == |ts - {x}| + (if x in ts then 1 else 0)
  {
    if x in ts {
      assert ts == (ts - {x}) + {x};
    } else {
      assert ts - {x} == ts;
    }
  }

  lemma StepKeepsBalance(s: State, tid: Tid, a: Action)
    requires Enabled(s, tid, a) && Balanced(s)
    requires a == Take ==> Ordered(CompareInts, s.heap)
    ensures Balanced(Next(s, tid, a))
  {
    var t := Next(s, tid, a);
    OutstandingAfter(s, tid, t.threads[tid]);
    assert OutstandingThreads(t) == OutstandingThreads(Move(s, tid, t.threads[tid]));
  }

  lemma StepKeepsHeap(s: State, tid: Tid, a: Action)
    requires Enabled(s, tid, a) && Conserved(s) && Ordered(CompareInts, s.heap)
    ensures Conserved(Next(s, tid, a)) && Ordered(CompareInts, Next(s, tid, a).heap)
  {
    CompareIntsIsPreorder();
    if a == DoInsert {
      InsertedIsHeap(CompareInts, s.heap, s.threads[tid].t);
    } else if a == Take && s.heap != [] {
      MinRemovedIsHeap(CompareInts, s.heap);
      var r := MinRemoved(CompareInts, s.heap);
      assert multiset(r) + (s.delivered + multiset{s.heap[0]}) == multiset(s.heap) + s.delivered;
    }
  }

  lemma StepInv(s: State, tid: Tid, a: Action)
    requires Enabled(s, tid, a) && Inv(s)
    ensures Inv(Next(s, tid, a))
  {
    StepKeepsBalance(s, tid, a);
    StepKeepsHeap(s, tid, a);
  }

  // ----- whole runs -----

  ghost predicate Run(states: seq<State>, steps: seq<(Tid, Action)>) {
    && |states| == |steps| + 1
    && Init(states[0])
    && forall i :: 0 <= i < |steps| ==>
         Enabled(states[i], steps[i].0, steps[i].1)
         && states[i + 1] == Next(states[i], steps[i].0, steps[i].1)
  }

  lemma {:induction false} RunInv(states: seq<State>, steps: seq<(Tid, Action)>, i: nat)
    requires Run(states, steps) && i < |states|
    ensures Inv(states[i])
  {
    if i == 0 {
      InitInv(states[0]);
    } else {
      RunInv(states, steps, i - 1);
      StepInv(states[i - 1], steps[i - 1].0, steps[i - 1].1);
    }
  }

  ghost predicate NeverForced(steps: seq<(Tid, Action)>) {
    forall i :: 0 <= i < |steps| ==> steps[i].1 != StartPop(true)
  }

  predicate Forced(pc: Pc) {
    (pc.PopEntered? || pc.PopLocked?) && pc.forced
  }

  ghost predicate Unforced(s: State) {
    s.stolen == 0 && forall tid :: tid in s.threads ==> !Forced(s.threads[tid])
  }

  // A thread about to take an entry without force finds one, unless forced
  // pops have taken all the entries its unit and the others stand for.
  lemma EmptyTakeIff(s: State, tid: Tid)
    requires Inv(s) && Enabled(s, tid, Take) && !s.threads[tid].forced
    ensures Next(s, tid, Take).threads[tid] == PopTaken(None)
      <==> s.stolen == s.semaphore + |OutstandingThreads(s)|
    ensures s.stolen <= 0 ==> Next(s, tid, Take).threads[tid] != PopTaken(None)
  {
    assert tid in OutstandingThreads(s);
    CountWithout(OutstandingThreads(s), tid);
  }

  lemma StepUnforced(s: State, tid: Tid, a: Action)
    requires Enabled(s, tid, a) && Inv(s) && Unforced(s) && a != StartPop(true)
    ensures Unforced(Next(s, tid, a))
  {
    if a == Take {
      EmptyTakeIff(s, tid);
    }
  }

  lemma {:induction false} RunUnforced(states: seq<State>, steps: seq<(Tid, Action)>, i: nat)
    requires Run(states, steps) && NeverForced(steps) && i < |states|
    ensures Unforced(states[i])
  {
    if i > 0 {
      RunUnforced(states, steps, i - 1);
      RunInv(states, steps, i - 1);
      StepUnforced(states[i - 1], steps[i - 1].0, steps[i - 1].1);
    }
  }

  // Without forced pops, every pop delivers a transaction, and none that is
  // still queued has a smaller number.
  lemma PopAlwaysDelivers(states: seq<State>, steps: seq<(Tid, Action)>, i: nat)
    requires Run(states, steps) && NeverForced(steps) && i < |steps| && steps[i].1 == Take
    ensures var pc := states[i + 1].threads[steps[i].0];
      pc.PopTaken? && pc.result.Some?
      && forall e :: e in states[i + 1].heap ==> pc.result.value.key <= e.key
  {
    RunInv(states, steps, i);
    RunUnforced(states, steps, i);
    var s := states[i];
    EmptyTakeIff(s, steps[i].0);
    CompareIntsIsPreorder();
    MinRemovedIsHeap(CompareInts, s.heap);
    forall e | e in states[i + 1].heap ensures e in s.heap && s.heap[0].key <= e.key {
      InLarger(states[i + 1].heap, s.heap, multiset{s.heap[0]}, e);
      CompareIntsIs(s.heap[0].key, e.key);
    }
  }

  // No wake-up is lost: with every thread outside the queue or waiting on the
  // semaphore, a waiting thread can go on exactly when something is queued.
  lemma NoLostWakeup(states: seq<State>, steps: seq<(Tid, Action)>, i: nat, tid: Tid)
    requires Run(states, steps) && NeverForced(steps) && i < |states|
    requires forall t :: t in states[i].threads ==> states[i].threads[t].Idle? || states[i].threads[t].PopStarted?
    requires tid in states[i].threads && states[i].threads[tid].PopStarted?
    ensures Enabled(states[i], tid, SemWait) <==> states[i].heap != []
  {
    RunInv(states, steps, i);
    RunUnforced(states, steps, i);
    assert OutstandingThreads(states[i]) == {};
  }

  // ----- exactly-once delivery -----

  // Transactions returned by the pops among the first n steps.
  ghost function Returned(states: seq<State>, steps: seq<(Tid, Action)>, n: nat): multiset<Trans>
    requires Run(states, steps) && n <= |steps|
  {
    if n == 0 then multiset{} else
    Returned(states, steps, n - 1) +
      if steps[n - 1].1 == Take && states[n - 1].heap != []
      then multiset{states[n].threads[steps[n - 1].0].result.value} else multiset{}
  }

  // The transaction of a thread's last call of push_queue among the first n steps.
  function LastPush(steps: seq<(Tid, Action)>, n: nat, tid: Tid): Option<Trans>
    requires n <= |steps|
  {
    if n == 0 then None
    else if steps[n - 1].0 == tid && steps[n - 1].1.StartPush? then Some(steps[n - 1].1.t)
    else LastPush(steps, n - 1, tid)
  }

  // A thread inserts what it was called with.
  lemma {:induction false} PushCarries(states: seq<State>, steps: seq<(Tid, Action)>, n: nat, tid: Tid)
    requires Run(states, steps) && n <= |steps| && tid in states[n].threads
    ensures states[n].threads[tid].PushStarted? || states[n].threads[tid].PushLocked? ==>
      LastPush(steps, n, tid) == Some(states[n].threads[tid].t)
  {
    if n > 0 {
      var s, t := states[n - 1], states[n];
      assert t == Next(s, steps[n - 1].0, steps[n - 1].1);
      assert tid in s.threads;
      PushCarries(states, steps, n - 1, tid);
    }
  }

  // Transactions handed in by the pushes among the first n steps.
  ghost function HandedIn(states: seq<State>, steps: seq<(Tid, Action)>, n: nat): multiset<Trans>
    requires Run(states, steps) && n <= |steps|
  {
    if n == 0 then multiset{} else
    HandedIn(states, steps, n - 1) +
      if steps[n - 1].1 == DoInsert && LastPush(steps, n - 1, steps[n - 1].0).Some?
      then multiset{LastPush(steps, n - 1, steps[n - 1].0).value} else multiset{}
  }

  // Whatever the interleaving and whether or not pops are forced, what was
  // handed in is what was returned plus what is queued: nothing is lost and
  // nothing is delivered twice.
  lemma {:induction false} ExactlyOnce(states: seq<State>, steps: seq<(Tid, Action)>, n: nat)
    requires Run(states, steps) && n <= |steps|
    ensures Returned(states, steps, n) + multiset(states[n].heap) == HandedIn(states, steps, n)
  {
    BookKept(states, steps, n);
    RunInv(states, steps, n);
  }

  lemma {:induction false} BookKept(states: seq<State>, steps: seq<(Tid, Action)>, n: nat)
    requires Run(states, steps) && n <= |steps|
    ensures Returned(states, steps, n) == states[n].delivered
    ensures HandedIn(states, steps, n) == states[n].inserted
  {
    hide Next, LastPush;
    if n > 0 {
      BookKept(states, steps, n - 1);
      PushCarries(states, steps, n - 1, steps[n - 1].0);
      StepBooks(states[n - 1], steps[n - 1].0, steps[n - 1].1);
    }
  }

  lemma StepBooks(s: State, tid: Tid, a: Action)
    requires Enabled(s, tid, a)
    ensures Next(s, tid, a).inserted
         == s.inserted + if a == DoInsert then multiset{s.threads[tid].t} else multiset{}
    ensures a == Take && s.heap != [] ==>
      Next(s, tid, a).threads[tid] == PopTaken(Some(s.heap[0]))
      && Next(s, tid, a).delivered == s.delivered + multiset{s.heap[0]}
    ensures !(a == Take && s.heap != []) ==> Next(s, tid, a).delivered == s.delivered
  {
  }

  // At most one thread is ever between locking and unlocking.
  lemma MutexHeldOnce(states: seq<State>, steps: seq<(Tid, Action)>, i: nat, t: Tid, u: Tid)
    requires Run(states, steps) && i < |states|
    requires t in states[i].threads && u in states[i].threads
    requires HoldsLock(states[i].threads[t]) && HoldsLock(states[i].threads[u])
    ensures t == u
  {
    RunInv(states, steps, i);
  }

  // ----- a forced pop breaks the promise of the waiting ones -----

  // States reached from `before` by thread 0 alone.
  ghost predicate Reaches(before: State, actions: seq<Action>, after: State)
    decreases |actions|
  {
    if actions == [] then before == after
    else Enabled(before, 0, actions[0]) && Reaches(Next(before, 0, actions[0]), actions[1..], after)
  }

  // The only thread is outside the queue and the lock is free.
  ghost predicate Quiet(s: State) {
    s.threads == map[0 := Idle] && s.owner == None
  }

  const PUSH: seq<Action> := [LockPush, DoInsert, Post, UnlockPush]

  lemma OnePush(s: State, x: Trans) returns (t: State)
    requires Quiet(s) && s.heap == []
    ensures Reaches(s, [StartPush(x)] + PUSH, t)
    ensures Quiet(t) && t.heap == [x] && t.semaphore == s.semaphore + 1 && t.stolen == s.stolen
  {
    var s1 := Next(s, 0, StartPush(x));
    var s2 := Next(s1, 0, LockPush);
    var s3 := Next(s2, 0, DoInsert);
    assert s3.heap == [x];
    var s4 := Next(s3, 0, Post);
    t := Next(s4, 0, UnlockPush);
    assert t.threads == map[0 := Idle];
    assert Reaches(s4, [UnlockPush], t);
    assert Reaches(s3, [Post, UnlockPush], t);
    assert Reaches(s2, [DoInsert, Post, UnlockPush], t);
    assert Reaches(s1, PUSH, t);
    assert ([StartPush(x)] + PUSH)[1..] == PUSH;
  }

  lemma OneForcedPop(s: State, x: Trans) returns (t: State)
    requires Quiet(s) && s.heap == [x]
    ensures Reaches(s, [StartPop(true), LockPop, Take, UnlockPop], t)
    ensures Quiet(t) && t.heap == [] && t.semaphore == s.semaphore
  {
    var s1 := Next(s, 0, StartPop(true));
    var s2 := Next(s1, 0, LockPop);
    var s3 := Next(s2, 0, Take);
    assert s3.heap == [];
    t := Next(s3, 0, UnlockPop);
    assert t.threads == map[0 := Idle];
    assert Reaches(s3, [UnlockPop], t);
    assert Reaches(s2, [Take, UnlockPop], t);
    assert Reaches(s1, [LockPop, Take, UnlockPop], t);
  }

  // A waiting pop gets past a semaphore that counts nothing.
  lemma OneStarvedPop(s: State) returns (t: State)
    requires Quiet(s) && s.heap == [] && s.semaphore > 0
    ensures Reaches(s, [StartPop(false), SemWait, LockPop, Take], t)
    ensures t.threads == map[0 := PopTaken(None)]
  {
    var s1 := Next(s, 0, StartPop(false));
    var s2 := Next(s1, 0, SemWait);
    var s3 := Next(s2, 0, LockPop);
    t := Next(s3, 0, Take);
    assert t.threads == map[0 := PopTaken(None)];
    assert Reaches(s3, [Take], t);
    assert Reaches(s2, [LockPop, Take], t);
    assert Reaches(s1, [SemWait, LockPop, Take], t);
  }

  // After a push and a forced pop, a waiting pop gets past the semaphore on the
  // unit left over and returns nothing.
  lemma ForcedPopStarvesWaitingPop(s: State, x: Trans) returns (t: State, u: State, v: State)
    requires Init(s) && s.threads == map[0 := Idle]
    ensures Reaches(s, [StartPush(x)] + PUSH, t)
    ensures Reaches(t, [StartPop(true), LockPop, Take, UnlockPop], u)
    ensures Reaches(u, [StartPop(false), SemWait, LockPop, Take], v)
    ensures v.threads == map[0 := PopTaken(None)]
  {
    hide Reaches;
    t := OnePush(s, x);
    u := OneForcedPop(t, x);
    v := OneStarvedPop(u);
  }
}
