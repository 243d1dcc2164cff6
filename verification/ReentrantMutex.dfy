/** The re-entrant mutex (src/util/locks.rs:459-530) as a step model over the parking mutex of module
    `Mutex`. Each access to `owner` and to `count` is a step of its own, so the owner check of `lock`
    is as unsynchronised here as it is in the source; every step inside `mtx.lock` and `mtx.unlock` is
    a step of the parking mutex. */
module ReentrantMutex {
  import Mutex
  import MutexCalls
  import opened Constants

  type Thread = Mutex.Thread

  /** Where a thread is. `depth` is a history value: how many of its `lock` calls it has not yet
      matched with `unlock`; no step depends on it. */
  datatype Place =
    | Between(depth: nat)           // not in an operation
    | Checking(depth: nat)          // `lock`: about to load the owner
    | Counting(depth: nat)          // `lock`: the owner was this thread; about to read the count
    | Adding(depth: nat, read: nat) // `lock`: about to write the count
    | Acquiring                     // `lock`: inside `mtx.lock`
    | Claiming                      // `lock`: about to store the owner
    | Setting                       // `lock`: about to set the count to one
    | Asserting(depth: nat)         // `unlock`: about to load the owner and assert
    | Reading(depth: nat)           // `unlock`: about to read the count
    | Writing(depth: nat, read: nat) // `unlock`: about to write the count
    | Testing(depth: nat)           // `unlock`: about to compare the count with zero
    | Disowning                     // `unlock`: about to clear the owner
    | Releasing                     // `unlock`: inside `mtx.unlock`
    | Panicked                      // the assertion of `unlock` failed

  datatype State = State(inner: Mutex.State, owner: Option<Thread>, count: nat, places: map<Thread, Place>) {
    function At(t: Thread): Place { if t in places then places[t] else Between(0) }

    function Move(t: Thread, p: Place): State { this.(places := places[t := p]) }
  }

  const START := State(Mutex.START, None, 0, map[])

  datatype Action = Lock | Unlock | Advance | Inner(action: Mutex.Action)

  datatype Outcome = Next(state: State) | Stuck

  /** One step of the parking mutex; `t` goes on at `next` once it is `at` its goal there. */
  function InnerStep(s: State, t: Thread, action: Mutex.Action, at: Mutex.Place, next: Place): Outcome {
    match Mutex.Perform(s.inner, t, action)
    case Stuck => Stuck
    case Next(inner) => Next((if inner.At(t) == at then s.Move(t, next) else s).(inner := inner))
  }

  /** Calls of the parking mutex that `lock` and `unlock` make: never `try_lock`, `bump` or a timeout. */
  predicate Acquires(action: Mutex.Action) {
    !action.TryLock? && !action.TimeOut? && !action.Unlock? && !action.UnparkOne? && !action.Bump?
  }

  predicate Releases(action: Mutex.Action) { action == Mutex.Unlock(false) || action.UnparkOne? }

  function Perform(s: State, t: Thread, action: Action): Outcome {
    match (s.At(t), action)
    case (Between(d), Lock) => Next(s.Move(t, Checking(d)))
    case (Between(d), Unlock) => Next(s.Move(t, Asserting(d)))
    case (Checking(d), Advance) => Next(s.Move(t, if s.owner == Some(t) then Counting(d) else Acquiring))
    case (Counting(d), Advance) => Next(s.Move(t, Adding(d, s.count)))
    case (Adding(d, read), Advance) => Next(s.Move(t, Between(d + 1)).(count := read + 1))
    case (Acquiring, Inner(a)) => if Acquires(a) then InnerStep(s, t, a, Mutex.Holding, Claiming) else Stuck
    case (Claiming, Advance) => Next(s.Move(t, Setting).(owner := Some(t)))
    case (Setting, Advance) => Next(s.Move(t, Between(1)).(count := 1))
    case (Asserting(d), Advance) => Next(s.Move(t, if s.owner == Some(t) then Reading(d) else Panicked))
    case (Reading(d), Advance) => Next(s.Move(t, Writing(d, s.count)))
    case (Writing(d, read), Advance) =>
      if read == 0 then Next(s.Move(t, Panicked))
      else Next(s.Move(t, Testing(if d > 0 then d - 1 else 0)).(count := read - 1))
    case (Testing(d), Advance) => Next(s.Move(t, if s.count == 0 then Disowning else Between(d)))
    case (Disowning, Advance) => Next(s.Move(t, Releasing).(owner := None))
    case (Releasing, Inner(a)) => if Releases(a) then InnerStep(s, t, a, Mutex.Outside, Between(0)) else Stuck
    case _ => Stuck
  }

  // The invariant.

  /** The owner field names a thread that is here. */
  predicate Claimed(p: Place) {
    match p
    case Between(d) => d > 0
    case Checking(d) => d > 0
    case Asserting(d) => d > 0
    case Counting(_) => true
    case Adding(_, _) => true
    case Setting => true
    case Reading(_) => true
    case Writing(_, _) => true
    case Testing(_) => true
    case Disowning => true
    case _ => false
  }

  /** What the count is while a thread that owns the lock is here. */
  predicate Counted(p: Place, count: nat) {
    match p
    case Between(d) => count == d
    case Checking(d) => count == d
    case Asserting(d) => count == d
    case Counting(d) => count == d
    case Adding(d, read) => count == d == read
    case Setting => true
    case Reading(d) => count == d && d > 0
    case Writing(d, read) => count == d == read && d > 0
    case Testing(d) => count == d
    case Disowning => count == 0
    case _ => true
  }

  /** Where a thread is in the parking mutex. */
  predicate Tied(p: Place, inner: Mutex.Place) {
    if Claimed(p) || p == Claiming then inner == Mutex.Holding
    else if p == Releasing then inner == Mutex.Holding || inner == Mutex.Unlocking(false)
    else if p == Acquiring then
      Mutex.Contending(inner) || inner in {Mutex.Outside, Mutex.Entering, Mutex.Parked, Mutex.Handed}
    else inner == Mutex.Outside
  }

  ghost predicate Inv(s: State) {
    && Mutex.Inv(s.inner)
    && (forall t :: Tied(s.At(t), s.inner.At(t)))
    && (forall t: Thread :: s.owner == Some(t) <==> Claimed(s.At(t)))
    && (forall t :: Claimed(s.At(t)) ==> Counted(s.At(t), s.count))
  }

  lemma StartInv()
    ensures Inv(START)
  {
    Mutex.StartInv();
  }

  /** Only one thread can be past `mtx.lock`. */
  lemma OneInside(s: State, t: Thread, u: Thread)
    requires Inv(s) && s.inner.At(t) == Mutex.Holding && s.inner.At(u) == Mutex.Holding
    ensures t == u
  {
    Mutex.OwnersAgree(s.inner, t, u);
  }

  /** A thread moves to `p` and stores `owner` and `count`, which it may change only past `mtx.lock`. */
  lemma LocalMove(s: State, t: Thread, p: Place, owner: Option<Thread>, count: nat)
    requires Inv(s) && Tied(p, s.inner.At(t))
    requires Claimed(p) == (owner == Some(t)) && (Claimed(p) ==> Counted(p, count))
    requires s.inner.At(t) == Mutex.Holding || (owner == s.owner && count == s.count)
    requires owner == s.owner || owner == Some(t) || owner == None
    ensures Inv(s.Move(t, p).(owner := owner, count := count))
  {
    hide Mutex.Inv, Counted;
    var s' := s.Move(t, p).(owner := owner, count := count);
    forall u: Thread | u != t
      ensures s'.At(u) == s.At(u) && (Claimed(s.At(u)) ==> owner == s.owner && count == s.count)
    {
      assert Tied(s.At(u), s.inner.At(u));
      if Claimed(s.At(u)) && s.inner.At(t) == Mutex.Holding { OneInside(s, t, u); }
    }
    forall u: Thread ensures owner == Some(u) <==> Claimed(s'.At(u)) {
      assert s.owner == Some(u) <==> Claimed(s.At(u));
    }
  }

  /** A step that leaves the parking mutex alone. */
  lemma OuterStep(s: State, t: Thread, action: Action)
    requires Inv(s) && !action.Inner? && Perform(s, t, action).Next?
    ensures Inv(Perform(s, t, action).state)
  {
    hide Mutex.Inv, Mutex.Perform;
    var s' := Perform(s, t, action).state;
    var p := s.At(t);
    assert Tied(p, s.inner.At(t)) && (s.owner == Some(t) <==> Claimed(p));
    assert s' == s.Move(t, s'.At(t)).(owner := s'.owner, count := s'.count);
    hide Inv;
    LocalMove(s, t, s'.At(t), s'.owner, s'.count);
  }

  /** Where the parking mutex takes a thread that acquires or releases. */
  lemma InnerPlaces(inner: Mutex.State, t: Thread, action: Mutex.Action)
    requires Mutex.Inv(inner) && Mutex.Perform(inner, t, action).Next?
    ensures var after := Mutex.Perform(inner, t, action).state.At(t);
            && (Acquires(action) && Tied(Acquiring, inner.At(t)) ==> after == Mutex.Holding || Tied(Acquiring, after))
            && (Releases(action) && Tied(Releasing, inner.At(t)) ==> after == Mutex.Outside || Tied(Releasing, after))
  {
    if inner.queue != [] { assert inner.queue[0] in inner.queue; }
  }

  lemma InnerStepKeepsInv(s: State, t: Thread, action: Mutex.Action)
    requires Inv(s) && Perform(s, t, Inner(action)).Next?
    ensures Inv(Perform(s, t, Inner(action)).state)
  {
    hide Mutex.Inv, Mutex.Perform;
    var s' := Perform(s, t, Inner(action)).state;
    Mutex.PerformKeepsInv(s.inner, t, action);
    InnerPlaces(s.inner, t, action);
    forall u ensures Tied(s'.At(u), s'.inner.At(u)) && Claimed(s'.At(u)) == Claimed(s.At(u)) {
      assert Tied(s.At(u), s.inner.At(u));
      if u != t { Mutex.OthersStay(s.inner, t, action, u); }
    }
  }

  /** Every step of every thread keeps the invariant. */
  lemma PerformKeepsInv(s: State, t: Thread, action: Action)
    requires Inv(s) && Perform(s, t, action).Next?
    ensures Inv(Perform(s, t, action).state)
  {
    hide Inv, Perform;
    match action
    case Inner(a) => InnerStepKeepsInv(s, t, a);
    case _ => OuterStep(s, t, action);
  }

  // Runs.

  datatype Turn = Turn(thread: Thread, action: Action)

  ghost predicate IsRun(states: seq<State>, turns: seq<Turn>) {
    && |states| == |turns| + 1 && states[0] == START
    && forall k :: 0 <= k < |turns| ==> Perform(states[k], turns[k].thread, turns[k].action) == Next(states[k + 1])
  }

  lemma {:induction false} RunsKeepInv(states: seq<State>, turns: seq<Turn>, k: nat)
    requires IsRun(states, turns) && k < |states|
    ensures Inv(states[k])
    decreases k
  {
    hide Inv, Perform;
    if k == 0 {
      StartInv();
    } else {
      RunsKeepInv(states, turns, k - 1);
      assert Perform(states[k - 1], turns[k - 1].thread, turns[k - 1].action) == Next(states[k - 1 + 1]);
      PerformKeepsInv(states[k - 1], turns[k - 1].thread, turns[k - 1].action);
    }
  }

  // The depth is the number of calls.

  /** The calls of `lock` that `t` has made, less its calls of `unlock`. */
  function Calls(turns: seq<Turn>, t: Thread): int {
    if turns == [] then 0 else
    var last := turns[|turns| - 1];
    Calls(turns[..|turns| - 1], t) + if last.thread != t then 0 else
                                     match last.action case Lock => 1 case Unlock => -1 case _ => 0
  }

  /** The depth that a thread will have once its operation returns. */
  function Coming(p: Place): int {
    match p
    case Between(d) => d
    case Checking(d) => d + 1
    case Counting(d) => d + 1
    case Adding(d, _) => d + 1
    case Acquiring => 1
    case Claiming => 1
    case Setting => 1
    case Asserting(d) => d - 1
    case Reading(d) => d - 1
    case Writing(d, _) => d - 1
    case Testing(d) => d
    case _ => 0
  }

  /** Only a call changes it, by one. */
  lemma ComingStep(s: State, t: Thread, action: Action)
    requires Inv(s) && Perform(s, t, action).Next?
    ensures var s' := Perform(s, t, action).state;
            s'.At(t) == Panicked ||
            (s.At(t) != Panicked &&
             Coming(s'.At(t)) == Coming(s.At(t)) + match action case Lock => 1 case Unlock => -1 case _ => 0)
  {
    hide Mutex.Inv, Mutex.Perform;
    assert s.owner == Some(t) <==> Claimed(s.At(t));
    assert Claimed(s.At(t)) ==> Counted(s.At(t), s.count);
  }

  lemma OthersKeepPlace(s: State, t: Thread, action: Action, u: Thread)
    requires Perform(s, t, action).Next? && u != t
    ensures Perform(s, t, action).state.At(u) == s.At(u)
  {
    hide Mutex.Perform;
  }

  /** In every run the calls of a thread that has not panicked account for its depth. */
  lemma {:induction false} DepthIsCalls(states: seq<State>, turns: seq<Turn>, k: nat, t: Thread)
    requires IsRun(states, turns) && k < |states| && states[k].At(t) != Panicked
    ensures Coming(states[k].At(t)) == Calls(turns[..k], t)
    decreases k
  {
    hide Inv, Perform, Coming;
    if k == 0 {
      StartIsBetween(t);
    } else {
      var before, turn := states[k - 1], turns[k - 1];
      assert Perform(before, turn.thread, turn.action) == Next(states[k - 1 + 1]);
      RunsKeepInv(states, turns, k - 1);
      if turn.thread == t { ComingStep(before, t, turn.action); }
      else { OthersKeepPlace(before, turn.thread, turn.action, t); }
      DepthIsCalls(states, turns, k - 1, t);
      assert turns[..k][..|turns[..k]| - 1] == turns[..k - 1];
    }
  }

  lemma StartIsBetween(t: Thread)
    ensures Coming(START.At(t)) == 0
  {}

  /** At every point of every run at most one thread has the lock, however deeply: a thread between
      operations has it exactly if it has called `lock` more often than `unlock`, and the count is
      then the difference. */
  lemma ReentrantExclusion(states: seq<State>, turns: seq<Turn>, k: nat, t: Thread, u: Thread)
    requires IsRun(states, turns) && k < |states| && states[k].At(t).Between?
    ensures states[k].At(t).depth == Calls(turns[..k], t)
    ensures Calls(turns[..k], t) > 0 && Claimed(states[k].At(u)) ==>
              t == u && states[k].owner == Some(t) && states[k].count == Calls(turns[..k], t)
    ensures Calls(turns[..k], t) == 0 ==> states[k].owner != Some(t) && states[k].inner.At(t) == Mutex.Outside
  {
    DepthIsCalls(states, turns, k, t);
    RunsKeepInv(states, turns, k);
    hide IsRun, Perform, Mutex.Inv, Calls;
    assert Tied(states[k].At(t), states[k].inner.At(t));
    assert states[k].owner == Some(t) <==> Claimed(states[k].At(t));
  }

  /** A thread in an operation that has not panicked can always go on, unless it is asleep in the queue
      of the parking mutex. */
  lemma OnlyParkedThreadsWait(s: State, t: Thread) returns (action: Action)
    requires Inv(s) && !s.At(t).Between? && s.At(t) != Panicked && s.inner.At(t) != Mutex.Parked
    ensures Perform(s, t, action).Next?
  {
    assert Tied(s.At(t), s.inner.At(t));
    hide Inv, Mutex.Perform;
    action := Advance;
    if s.At(t) == Acquiring {
      var inner := CanAcquire(s.inner, t);
      action := Inner(inner);
    } else if s.At(t) == Releasing {
      var inner := CanRelease(s.inner, t);
      action := Inner(inner);
    }
  }

  lemma CanAcquire(inner: Mutex.State, t: Thread) returns (action: Mutex.Action)
    requires Tied(Acquiring, inner.At(t)) && inner.At(t) != Mutex.Parked
    ensures Acquires(action) && Mutex.Perform(inner, t, action).Next?
  {
    action := match inner.At(t)
      case Outside => Mutex.Lock
      case Entering => Mutex.FastLock(false)
      case Handed => Mutex.Resume
      case _ => MutexCalls.NextToPark(inner.At(t));
  }

  lemma CanRelease(inner: Mutex.State, t: Thread) returns (action: Mutex.Action)
    requires Tied(Releasing, inner.At(t))
    ensures Releases(action) && Mutex.Perform(inner, t, action).Next?
  {
    action := if inner.At(t) == Mutex.Holding then Mutex.Unlock(false) else Mutex.UnparkOne(false);
  }

  /** The unsynchronised owner check lets a thread in without waiting exactly when the thread already
      has the lock. */
  lemma OwnerCheckIsExact(states: seq<State>, turns: seq<Turn>, k: nat, t: Thread)
    requires IsRun(states, turns) && k < |states| && states[k].At(t).Checking?
    ensures var d := states[k].At(t).depth;
            Perform(states[k], t, Advance).state.At(t) == if d > 0 then Counting(d) else Acquiring
  {
    hide IsRun, Mutex.Inv, Mutex.Perform;
    RunsKeepInv(states, turns, k);
  }

  /** `unlock` panics exactly when the calling thread does not have the lock; the count never
      underflows. */
  lemma UnlockPanicsExactlyWhenNotHeld(states: seq<State>, turns: seq<Turn>, k: nat, t: Thread)
    requires IsRun(states, turns) && k < |states|
    requires states[k].At(t).Asserting? || states[k].At(t).Writing?
    ensures Perform(states[k], t, Advance).state.At(t) == Panicked <==> states[k].At(t) == Asserting(0)
  {
    hide IsRun, Mutex.Inv, Mutex.Perform;
    RunsKeepInv(states, turns, k);
  }

  /** The parking mutex is released exactly at the outermost `unlock`. */
  lemma OutermostUnlockReleases(states: seq<State>, turns: seq<Turn>, k: nat, t: Thread)
    requires IsRun(states, turns) && k < |states| && states[k].At(t).Testing?
    ensures var d := states[k].At(t).depth;
            Perform(states[k], t, Advance).state.At(t) == if d == 0 then Disowning else Between(d)
  {
    hide IsRun, Mutex.Inv, Mutex.Perform;
    RunsKeepInv(states, turns, k);
  }
}
