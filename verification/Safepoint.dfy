/** The start, wait and end protocol of a collection in the threaded build, together with the
    registration of threads (src/safepoint.rs:128-198, src/lib.rs:157-168 and 333-335,
    src/threading.rs:153-182), as a step model for any number of threads. `SAFEPOINT_LOCK` and the
    lock of the thread list are plain locks; the weak compare-exchange may fail for no reason. */
module Safepoint {
  import opened Constants

  type Thread = nat

  /** Where a thread is. `was` is the `gc_state` that a collecting thread saved, as a flag: not zero. */
  datatype Place =
    | Outside
    | Starting(was: bool)          // about to take the safepoint lock
    | Exchanging(was: bool)        // about to compare and exchange the running flag
    | Losing(was: bool)            // the exchange failed; about to drop the safepoint lock
    | Spinning(was: bool)          // waits until the flag is down
    | Enabling(was: bool)          // the exchange succeeded; about to take the list lock
    | Enabled(was: bool)           // about to drop the list lock
    | Started(was: bool)           // about to drop the safepoint lock
    | Gathering(was: bool)         // `safepoint_wait_for_the_world`: about to take the list lock
    | Waiting(was: bool, next: nat) // waits for the listed thread number `next`
    | Collecting(was: bool)
    | Ending(was: bool)            // `safepoint_end_gc`: about to take the safepoint lock
    | Clearing(was: bool)          // about to put the flag down
    | Cleared(was: bool)           // about to drop the safepoint lock
    | Dropping(was: bool)          // about to drop the list lock
    | Restoring(was: bool)         // about to restore `gc_state`
    | Listing(add: bool)           // register or unregister: about to take the list lock
    | Editing(add: bool)           // about to change the list
    | Leaving                      // about to drop the list lock

  datatype State = State(
    safepointLock: Option<Thread>, listLock: Option<Thread>, running: bool,
    list: seq<Thread>, prepared: set<Thread>, safe: set<Thread>, places: map<Thread, Place>)
  {
    function At(t: Thread): Place { if t in places then places[t] else Outside }

    function Move(t: Thread, p: Place): State { this.(places := places[t := p]) }

    function SetSafe(t: Thread, nonzero: bool): State {
      this.(safe := if nonzero then safe + {t} else safe - {t})
    }
  }

  const START := State(None, None, false, [], {}, {}, map[])

  datatype Action =
    | Collect | Register | Unregister
    | EnterSafe | LeaveSafe // a mutator changes its own `gc_state`, at a yieldpoint or explicitly
    | Advance               // the one next step of the operation the thread is in
    | Fail                  // the same, with the compare-exchange failing for no reason

  datatype Outcome = Next(state: State) | Stuck

  function Without(list: seq<Thread>, t: Thread): seq<Thread> {
    if list == [] then [] else (if list[0] == t then [] else [list[0]]) + Without(list[1..], t)
  }

  function Begin(s: State, t: Thread, action: Action): Outcome {
    match action
    case Collect => Next(s.Move(t, Starting(t in s.safe)).SetSafe(t, true))
    case Register => Next(s.Move(t, Listing(true)))
    case Unregister => Next(s.Move(t, Listing(false)))
    case EnterSafe => Next(s.SetSafe(t, true))
    case LeaveSafe => Next(s.SetSafe(t, false))
    case _ => Stuck
  }

  /** Take a lock if it is free. */
  function TakeSafepoint(s: State, t: Thread, p: Place): Outcome {
    if s.safepointLock == None then Next(s.Move(t, p).(safepointLock := Some(t))) else Stuck
  }

  function TakeList(s: State, t: Thread, p: Place): Outcome {
    if s.listLock == None then Next(s.Move(t, p).(listLock := Some(t))) else Stuck
  }

  /** `immix_register_thread` adds a thread only the first time; `immix_unregister_thread` removes it. */
  function Edit(s: State, t: Thread, add: bool): State {
    if !add then s.(list := Without(s.list, t))
    else if t in s.prepared then s
    else s.(list := s.list + [t], prepared := s.prepared + {t})
  }

  function Step(s: State, t: Thread, fails: bool): Outcome {
    match s.At(t)
    case Outside => Stuck
    case Starting(was) => TakeSafepoint(s, t, Exchanging(was))
    case Exchanging(was) =>
      if s.running || fails then Next(s.Move(t, Losing(was))) else Next(s.Move(t, Enabling(was)).(running := true))
    case Losing(was) => Next(s.Move(t, Spinning(was)).(safepointLock := None))
    case Spinning(was) => if s.running then Stuck else Next(s.Move(t, Restoring(was)))
    case Enabling(was) => TakeList(s, t, Enabled(was))
    case Enabled(was) => Next(s.Move(t, Started(was)).(listLock := None))
    case Started(was) => Next(s.Move(t, Gathering(was)).(safepointLock := None))
    case Gathering(was) => TakeList(s, t, Waiting(was, 0))
    case Waiting(was, i) =>
      if i >= |s.list| then Next(s.Move(t, Collecting(was)))
      else if s.list[i] == t || s.list[i] in s.safe then Next(s.Move(t, Waiting(was, i + 1)))
      else Stuck
    case Collecting(was) => Next(s.Move(t, Ending(was)))
    case Ending(was) => TakeSafepoint(s, t, Clearing(was))
    case Clearing(was) => Next(s.Move(t, Cleared(was)).(running := false))
    case Cleared(was) => Next(s.Move(t, Dropping(was)).(safepointLock := None))
    case Dropping(was) => Next(s.Move(t, Restoring(was)).(listLock := None))
    case Restoring(was) => Next(s.Move(t, Outside).SetSafe(t, was))
    case Listing(add) => TakeList(s, t, Editing(add))
    case Editing(add) => Next(Edit(s, t, add).Move(t, Leaving))
    case Leaving => Next(s.Move(t, Outside).(listLock := None))
  }

  function Perform(s: State, t: Thread, action: Action): Outcome {
    if s.At(t) == Outside then Begin(s, t, action)
    else if action == Advance then Step(s, t, false)
    else if action == Fail then Step(s, t, true)
    else Stuck
  }

  // The invariant.

  predicate HoldsSafepoint(p: Place) {
    p.Exchanging? || p.Losing? || p.Enabling? || p.Enabled? || p.Started? || p.Clearing? || p.Cleared?
  }

  predicate HoldsList(p: Place) {
    || p.Enabled? || p.Waiting? || p.Collecting? || p.Ending? || p.Clearing? || p.Cleared? || p.Dropping?
    || p.Editing? || p.Leaving?
  }

  /** Between a true `safepoint_start_gc` and the clearing of the flag. */
  predicate Runs(p: Place) {
    || p.Enabling? || p.Enabled? || p.Started? || p.Gathering? || p.Waiting? || p.Collecting?
    || p.Ending? || p.Clearing?
  }

  predicate InCollection(p: Place) { !p.Outside? && !p.Listing? && !p.Editing? && !p.Leaving? }

  ghost predicate LocksOk(s: State) {
    && (forall t: Thread :: s.safepointLock == Some(t) <==> HoldsSafepoint(s.At(t)))
    && (forall t: Thread :: s.listLock == Some(t) <==> HoldsList(s.At(t)))
  }

  ghost predicate RunnerOk(s: State) {
    && (s.running <==> exists t :: Runs(s.At(t)))
    && (forall t, u :: Runs(s.At(t)) && Runs(s.At(u)) ==> t == u)
  }

  ghost predicate ListOk(s: State) {
    && (forall i, j :: 0 <= i < j < |s.list| ==> s.list[i] != s.list[j])
    && (forall t :: t in s.list ==> t in s.prepared)
    && (forall t :: InCollection(s.At(t)) ==> t in s.safe)
  }

  ghost predicate Inv(s: State) { LocksOk(s) && RunnerOk(s) && ListOk(s) }

  lemma StartInv()
    ensures Inv(START)
  {}

  // Every step keeps it.

  /** A call only moves its own thread, to its first place, and sets only that thread's `gc_state`. */
  lemma BeginMoves(s: State, t: Thread, action: Action)
    requires s.At(t) == Outside && Begin(s, t, action).Next?
    ensures var s' := Begin(s, t, action).state;
            && s' == s.(places := s'.places, safe := s'.safe)
            && (forall u :: u != t ==> s'.At(u) == s.At(u))
            && (s'.At(t).Starting? || s'.At(t).Listing? || s'.At(t) == Outside)
            && (forall u :: u != t ==> (u in s'.safe <==> u in s.safe))
            && (s'.At(t).Starting? ==> t in s'.safe)
  {}

  lemma BeginKeepsInv(s: State, t: Thread, action: Action)
    requires Inv(s) && s.At(t) == Outside && Begin(s, t, action).Next?
    ensures Inv(Begin(s, t, action).state)
  {
    hide Begin;
    BeginMoves(s, t, action);
    var s' := Begin(s, t, action).state;
    assert LocksOk(s') by { hide RunnerOk, ListOk; }
    assert RunnerOk(s') by {
      hide LocksOk, ListOk;
      assert forall u :: Runs(s'.At(u)) == Runs(s.At(u));
    }
    assert ListOk(s') by { hide LocksOk, RunnerOk; }
  }

  lemma StepKeepsLocks(s: State, t: Thread, fails: bool)
    requires LocksOk(s) && Step(s, t, fails).Next?
    ensures LocksOk(Step(s, t, fails).state)
  {
    hide Step, HoldsSafepoint, HoldsList;
    var s' := Step(s, t, fails).state;
    LockMoves(s, t, fails);
    forall u: Thread
      ensures s'.safepointLock == Some(u) <==> HoldsSafepoint(s'.At(u))
      ensures s'.listLock == Some(u) <==> HoldsList(s'.At(u))
    {
      if u != t { OthersStay(s, t, fails, u); }
      assert s.safepointLock == Some(u) <==> HoldsSafepoint(s.At(u));
      assert s.listLock == Some(u) <==> HoldsList(s.At(u));
    }
  }

  /** A step takes a lock only if it is free and drops a lock only if the thread has it. */
  lemma LockMoves(s: State, t: Thread, fails: bool)
    requires LocksOk(s) && Step(s, t, fails).Next?
    ensures var s' := Step(s, t, fails).state;
            && (s'.safepointLock == s.safepointLock || (s.safepointLock == None && s'.safepointLock == Some(t))
                || (s.safepointLock == Some(t) && s'.safepointLock == None))
            && (s'.listLock == s.listLock || (s.listLock == None && s'.listLock == Some(t))
                || (s.listLock == Some(t) && s'.listLock == None))
            && (s'.safepointLock == Some(t) <==> HoldsSafepoint(s'.At(t)))
            && (s'.listLock == Some(t) <==> HoldsList(s'.At(t)))
  {
    hide Without;
    assert s.safepointLock == Some(t) <==> HoldsSafepoint(s.At(t));
    assert s.listLock == Some(t) <==> HoldsList(s.At(t));
    hide LocksOk;
  }

  /** A step moves its own thread only. */
  lemma OthersStay(s: State, t: Thread, fails: bool, u: Thread)
    requires Step(s, t, fails).Next? && u != t
    ensures Step(s, t, fails).state.At(u) == s.At(u)
  {
    if s.At(t).Editing? { EditKeepsPlaces(s, t, s.At(t).add); }
    hide Edit;
  }

  lemma EditKeepsPlaces(s: State, t: Thread, add: bool)
    ensures Edit(s, t, add).places == s.places
  {}

  /** Only the exchange and `safepoint_end_gc` change the running flag. */
  lemma FlagMoves(s: State, t: Thread, fails: bool)
    requires Step(s, t, fails).Next?
    ensures var s' := Step(s, t, fails).state;
            s'.running == if s.At(t).Exchanging? then s.running || !fails else s.running && !s.At(t).Clearing?
  {
    hide Without;
  }

  /** Only they move a thread into or out of the section that the flag stands for. */
  lemma RunnerMoves(s: State, t: Thread, fails: bool)
    requires Step(s, t, fails).Next?
    ensures var s' := Step(s, t, fails).state;
            Runs(s'.At(t)) == if s.At(t).Exchanging? then !s.running && !fails else Runs(s.At(t)) && !s.At(t).Clearing?
  {
    hide Without;
  }

  lemma StepKeepsRunner(s: State, t: Thread, fails: bool)
    requires RunnerOk(s) && Step(s, t, fails).Next?
    ensures RunnerOk(Step(s, t, fails).state)
  {
    hide Step;
    var s' := Step(s, t, fails).state;
    forall u | u != t ensures s'.At(u) == s.At(u) { OthersStay(s, t, fails, u); }
    FlagMoves(s, t, fails);
    RunnerMoves(s, t, fails);
    assert forall u :: Runs(s'.At(u)) == if u == t then Runs(s'.At(t)) else Runs(s.At(u));
    if u :| Runs(s.At(u)) { assert Runs(s'.At(u)) || u == t; }
    if Runs(s'.At(t)) { assert s'.running; }
  }

  lemma {:induction false} WithoutOk(list: seq<Thread>, t: Thread)
    requires forall i, j :: 0 <= i < j < |list| ==> list[i] != list[j]
    ensures forall u :: u in Without(list, t) <==> u in list && u != t
    ensures forall i, j :: 0 <= i < j < |Without(list, t)| ==> Without(list, t)[i] != Without(list, t)[j]
  {
    if list != [] {
      var rest := Without(list[1..], t);
      WithoutOk(list[1..], t);
      assert list == [list[0]] + list[1..];
      assert forall k :: 0 <= k < |rest| ==> rest[k] in rest;
    }
  }

  lemma EditKeepsList(s: State, t: Thread, add: bool)
    requires ListOk(s)
    ensures ListOk(Edit(s, t, add))
  {
    hide Without;
    WithoutOk(s.list, t);
  }

  /** What a step does to the list and to `gc_state`. */
  lemma ListMoves(s: State, t: Thread, fails: bool)
    requires Step(s, t, fails).Next?
    ensures var s' := Step(s, t, fails).state;
            && (if s.At(t).Editing? then s' == Edit(s, t, s.At(t).add).Move(t, Leaving)
                else s'.list == s.list && s'.prepared == s.prepared)
            && (InCollection(s'.At(t)) ==> InCollection(s.At(t)))
            && (s'.safe == s.safe || (!InCollection(s'.At(t)) && s'.safe - {t} == s.safe - {t}))
  {
    hide Without;
  }

  lemma StepKeepsList(s: State, t: Thread, fails: bool)
    requires ListOk(s) && Step(s, t, fails).Next?
    ensures ListOk(Step(s, t, fails).state)
  {
    hide Step, Without, InCollection;
    var s' := Step(s, t, fails).state;
    forall u | u != t ensures s'.At(u) == s.At(u) { OthersStay(s, t, fails, u); }
    ListMoves(s, t, fails);
    if s.At(t).Editing? { EditKeepsList(s, t, s.At(t).add); }
    forall u | InCollection(s'.At(u)) ensures u in s'.safe {
      assert InCollection(s.At(u));
      assert u != t ==> (u in s.safe - {t} <==> u in s'.safe - {t});
    }
  }

  /** Every step of every thread keeps the invariant. */
  lemma PerformKeepsInv(s: State, t: Thread, action: Action)
    requires Inv(s) && Perform(s, t, action).Next?
    ensures Inv(Perform(s, t, action).state)
  {
    hide LocksOk, RunnerOk, ListOk, Step, Begin;
    if s.At(t) == Outside {
      BeginKeepsInv(s, t, action);
    } else {
      StepKeepsLocks(s, t, action == Fail);
      StepKeepsRunner(s, t, action == Fail);
      StepKeepsList(s, t, action == Fail);
    }
  }

  // Runs.

  datatype Turn = Turn(thread: Thread, action: Action)

  /** The state after some turns, if all of them can be taken. */
  function Play(s: State, turns: seq<Turn>): Outcome {
    if turns == [] then Next(s) else
    match Play(s, turns[..|turns| - 1])
    case Stuck => Stuck
    case Next(before) => Perform(before, turns[|turns| - 1].thread, turns[|turns| - 1].action)
  }

  lemma {:induction false} PlayKeepsInv(s: State, turns: seq<Turn>)
    requires Inv(s) && Play(s, turns).Next?
    ensures Inv(Play(s, turns).state)
  {
    hide Inv, Perform;
    if turns != [] {
      var last := turns[|turns| - 1];
      PlayKeepsInv(s, turns[..|turns| - 1]);
      PerformKeepsInv(Play(s, turns[..|turns| - 1]).state, last.thread, last.action);
    }
  }

  /** In every run, at most one thread is between a true `safepoint_start_gc` and the clearing of the
      running flag, and the flag says whether there is one. */
  lemma OneCollector(turns: seq<Turn>, t: Thread, u: Thread)
    requires Play(START, turns).Next?
    ensures var s := Play(START, turns).state;
            && (s.running <==> exists v :: Runs(s.At(v)))
            && (Runs(s.At(t)) && Runs(s.At(u)) ==> t == u)
  {
    hide Play;
    StartInv();
    PlayKeepsInv(START, turns);
  }

  /** In every run, the sections that hold the guard of the thread list never overlap: no thread is
      registered or unregistered from the start of the wait for the world to the end of the
      collection. */
  lemma GuardSectionsDoNotOverlap(turns: seq<Turn>, t: Thread, u: Thread)
    requires Play(START, turns).Next?
    ensures var s := Play(START, turns).state;
            HoldsList(s.At(t)) && HoldsList(s.At(u)) ==> t == u
  {
    hide Play;
    StartInv();
    PlayKeepsInv(START, turns);
    var s := Play(START, turns).state;
    assert s.listLock == Some(t) <==> HoldsList(s.At(t));
    assert s.listLock == Some(u) <==> HoldsList(s.At(u));
  }

  // The two locks are taken in opposite orders, and still nothing deadlocks on them.

  predicate CanAdvance(s: State, t: Thread) { s.At(t) != Outside && Step(s, t, false).Next? }

  /** `t` cannot go on before `u` has done something. */
  predicate WaitsFor(s: State, t: Thread, u: Thread) {
    match s.At(t)
    case Starting(_) => s.safepointLock == Some(u)
    case Ending(_) => s.safepointLock == Some(u)
    case Enabling(_) => s.listLock == Some(u)
    case Gathering(_) => s.listLock == Some(u)
    case Listing(_) => s.listLock == Some(u)
    case Spinning(_) => s.running && Runs(s.At(u))
    case Waiting(_, i) => i < |s.list| && s.list[i] == u && u != t && u !in s.safe
    case _ => false
  }

  /** A chain of at most two waits. */
  ghost predicate Chain(s: State, t: Thread, u: Thread) {
    t == u || WaitsFor(s, t, u) || exists m :: WaitsFor(s, t, m) && WaitsFor(s, m, u)
  }

  /** A thread in an operation can go on exactly when it waits for nobody. */
  lemma WaitsOrAdvances(s: State, t: Thread)
    requires Inv(s) && s.At(t) != Outside
    ensures CanAdvance(s, t) <==> forall u :: !WaitsFor(s, t, u)
  {
    match s.At(t)
    case Starting(_) => if s.safepointLock.Some? { assert WaitsFor(s, t, s.safepointLock.value); }
    case Ending(_) => if s.safepointLock.Some? { assert WaitsFor(s, t, s.safepointLock.value); }
    case Enabling(_) => if s.listLock.Some? { assert WaitsFor(s, t, s.listLock.value); }
    case Gathering(_) => if s.listLock.Some? { assert WaitsFor(s, t, s.listLock.value); }
    case Listing(_) => if s.listLock.Some? { assert WaitsFor(s, t, s.listLock.value); }
    case Waiting(_, i) => if i < |s.list| && !CanAdvance(s, t) { assert WaitsFor(s, t, s.list[i]); }
    case Spinning(_) => if u :| Runs(s.At(u)) { assert WaitsFor(s, t, u); }
    case _ =>
  }

  predicate WaitsForWorld(s: State, t: Thread) { s.At(t).Waiting? && !CanAdvance(s, t) }

  /** The collector, when it waits for a lock, waits for a thread that can go on. */
  lemma CollectorIsNotBlockedLong(s: State, c: Thread, u: Thread)
    requires Inv(s) && Runs(s.At(c)) && !s.At(c).Waiting? && WaitsFor(s, c, u)
    ensures CanAdvance(s, u)
  {
    assert s.safepointLock == Some(u) <==> HoldsSafepoint(s.At(u));
    assert s.listLock == Some(u) <==> HoldsList(s.At(u));
    assert Runs(s.At(u)) ==> u == c;
  }

  /** Whatever thread is in an operation, the chain of those it waits for ends after at most two
      steps: at a thread that can go on, or at the collector waiting for a mutator. */
  lemma NoLockDeadlock(turns: seq<Turn>, t: Thread) returns (u: Thread)
    requires Play(START, turns).Next? && Play(START, turns).state.At(t) != Outside
    ensures var s := Play(START, turns).state; Chain(s, t, u) && (CanAdvance(s, u) || WaitsForWorld(s, u))
  {
    hide Play;
    var s := Play(START, turns).state;
    StartInv();
    PlayKeepsInv(START, turns);
    u := ChainEnds(s, t);
  }

  lemma ChainEnds(s: State, t: Thread) returns (u: Thread)
    requires Inv(s) && s.At(t) != Outside
    ensures Chain(s, t, u) && (CanAdvance(s, u) || WaitsForWorld(s, u))
  {
    hide Inv, CanAdvance, WaitsFor;
    WaitsOrAdvances(s, t);
    if CanAdvance(s, t) || WaitsForWorld(s, t) {
      u := t;
    } else {
      var m :| WaitsFor(s, t, m);
      BlockersAreInside(s, t, m);
      WaitsOrAdvances(s, m);
      if CanAdvance(s, m) || WaitsForWorld(s, m) {
        u := m;
      } else {
        var v :| WaitsFor(s, m, v);
        CollectorIsNotBlockedLong(s, m, v);
        u := v;
      }
    }
  }

  /** Whoever is waited for, except by the collector waiting for the world, is in an operation, and
      is the collector unless it can go on. */
  lemma BlockersAreInside(s: State, t: Thread, u: Thread)
    requires Inv(s) && WaitsFor(s, t, u) && !s.At(t).Waiting?
    ensures s.At(u) != Outside && (Runs(s.At(u)) || CanAdvance(s, u))
  {
    assert s.safepointLock == Some(u) <==> HoldsSafepoint(s.At(u));
    assert s.listLock == Some(u) <==> HoldsList(s.At(u));
  }

  // The wait for the world itself can be for ever.

  lemma Extended(s: State, turns: seq<Turn>, t: Thread, action: Action)
    requires Play(s, turns).Next?
    ensures Play(s, turns + [Turn(t, action)]) == Perform(Play(s, turns).state, t, action)
  {
    hide Perform;
    var more := turns + [Turn(t, action)];
    assert more[..|more| - 1] == turns;
  }

  /** The collector `c` waits for the listed thread `v`, which waits for the list lock. */
  ghost predicate Wedged(s: State, c: Thread, v: Thread) {
    s.At(c).Waiting? && WaitsFor(s, c, v) && s.At(v).Listing?
  }

  lemma StuckWhileWedged(s: State, fails: bool, c: Thread, v: Thread)
    requires Inv(s) && Wedged(s, c, v)
    ensures Step(s, c, fails) == Stuck && Step(s, v, fails) == Stuck
  {
    hide Without, RunnerOk;
    assert s.listLock == Some(c) <==> HoldsList(s.At(c));
  }

  /** While `c` holds the list lock nobody edits the list, and only a thread itself sets its `gc_state`. */
  lemma WedgedStays(s: State, t: Thread, action: Action, c: Thread, v: Thread)
    requires Inv(s) && Wedged(s, c, v) && Perform(s, t, action).Next?
    ensures Wedged(Perform(s, t, action).state, c, v) && Perform(s, t, action).state.At(c) == s.At(c)
  {
    hide Without, RunnerOk;
    assert s.listLock == Some(c) <==> HoldsList(s.At(c));
    assert s.listLock == Some(t) <==> HoldsList(s.At(t));
    if s.At(t) != Outside {
      hide Step, Begin, Inv;
      var fails := action == Fail;
      var s' := Step(s, t, fails).state;
      StuckWhileWedged(s, fails, c, v);
      ListMoves(s, t, fails);
      OthersStay(s, t, fails, c);
      OthersStay(s, t, fails, v);
      assert v in s.safe - {t} <==> v in s'.safe - {t};
    }
  }

  lemma {:induction false} WedgedForEver(s: State, turns: seq<Turn>, c: Thread, v: Thread)
    requires Inv(s) && Wedged(s, c, v) && Play(s, turns).Next?
    ensures Wedged(Play(s, turns).state, c, v) && Play(s, turns).state.At(c) == s.At(c)
  {
    hide Inv, Perform, Wedged;
    if turns != [] {
      var most, last := turns[..|turns| - 1], turns[|turns| - 1];
      WedgedForEver(s, most, c, v);
      PlayKeepsInv(s, most);
      WedgedStays(Play(s, most).state, last.thread, last.action, c, v);
    }
  }

  ghost predicate CanMove(s: State, c: Thread, turns: seq<Turn>) {
    Play(s, turns).Next? && Play(s, turns).state.At(c) != s.At(c)
  }

  /** The collector's wait for a thread can end exactly when that thread is not itself inside
      `immix_register_thread` or `immix_unregister_thread`; otherwise it never ends. */
  lemma WaitCanEndExactlyWhen(s: State, c: Thread, v: Thread)
    requires Inv(s) && s.At(c).Waiting? && WaitsFor(s, c, v)
    ensures (exists turns :: CanMove(s, c, turns)) <==> s.At(v) == Outside
  {
    assert s.listLock == Some(c) <==> HoldsList(s.At(c));
    assert s.listLock == Some(v) <==> HoldsList(s.At(v));
    if s.At(v) == Outside {
      hide Inv;
      var one := [Turn(v, EnterSafe)];
      assert Play(s, []) == Next(s);
      Extended(s, [], v, EnterSafe);
      assert [] + one == one;
      Extended(s, one, c, Advance);
      assert CanMove(s, c, one + [Turn(c, Advance)]);
    } else {
      assert !InCollection(s.At(v));
      assert Wedged(s, c, v);
      forall turns ensures !CanMove(s, c, turns) {
        if Play(s, turns).Next? { WedgedForEver(s, turns, c, v); }
      }
    }
  }

  /** A call followed by a number of steps of the same thread. */
  function Steps(s: State, t: Thread, n: nat): Outcome
    decreases n
  {
    if n == 0 then Next(s) else
    match Perform(s, t, Advance)
    case Stuck => Stuck
    case Next(s') => Steps(s', t, n - 1)
  }

  lemma {:induction false} Continue(turns: seq<Turn>, t: Thread, n: nat) returns (more: seq<Turn>)
    requires Play(START, turns).Next? && Steps(Play(START, turns).state, t, n).Next?
    ensures Play(START, more) == Steps(Play(START, turns).state, t, n)
    decreases n
  {
    hide Perform, Play;
    more := turns;
    if n > 0 {
      Extended(START, turns, t, Advance);
      more := Continue(turns + [Turn(t, Advance)], t, n - 1);
    }
  }

  lemma Call(turns: seq<Turn>, t: Thread, action: Action, n: nat, s: State) returns (more: seq<Turn>)
    requires Play(START, turns) == Next(s) && Perform(s, t, action).Next?
    requires Steps(Perform(s, t, action).state, t, n).Next?
    ensures Play(START, more) == Steps(Perform(s, t, action).state, t, n)
  {
    hide Perform, Play, Steps;
    Extended(START, turns, t, action);
    more := Continue(turns + [Turn(t, action)], t, n);
  }

  lemma MoveTwice(s: State, t: Thread, p: Place, q: Place)
    ensures s.Move(t, p).Move(t, q) == s.Move(t, q)
  {}

  lemma ThreeSteps(s0: State, s1: State, s2: State, s3: State, t: Thread)
    requires Perform(s0, t, Advance) == Next(s1) && Perform(s1, t, Advance) == Next(s2)
    requires Perform(s2, t, Advance) == Next(s3)
    ensures Steps(s0, t, 3) == Next(s3)
  {
    hide Perform;
    assert Steps(s2, t, 1) == Next(s3);
    assert Steps(s1, t, 2) == Next(s3);
  }

  /** With both locks free and no collection running, a thread that collects gets to wait for the
      first listed thread. */
  lemma LoneStart(s: State, c: Thread)
    requires s.safepointLock == None && s.listLock == None && !s.running && s.At(c) == Outside
    ensures Perform(s, c, Collect).Next?
    ensures var was := c in s.safe;
            var moved := s.SetSafe(c, true).Move(c, Enabled(was));
            Steps(Perform(s, c, Collect).state, c, 3) ==
              Next(moved.(safepointLock := Some(c), running := true, listLock := Some(c)))
  {
    var was, s0 := c in s.safe, s.SetSafe(c, true);
    var s1 := s0.Move(c, Starting(was));
    var s2 := s0.Move(c, Exchanging(was)).(safepointLock := Some(c));
    var s3 := s0.Move(c, Enabling(was)).(safepointLock := Some(c), running := true);
    var s4 := s0.Move(c, Enabled(was)).(safepointLock := Some(c), running := true, listLock := Some(c));
    hide Steps;
    MoveTwice(s0, c, Starting(was), Exchanging(was));
    MoveTwice(s0, c, Exchanging(was), Enabling(was));
    MoveTwice(s0, c, Enabling(was), Enabled(was));
    ThreeSteps(s1, s2, s3, s4, c);
  }

  lemma LoneGather(s: State, c: Thread)
    requires s.At(c).Enabled? && s.safepointLock == Some(c) && s.listLock == Some(c)
    ensures Steps(s, c, 3) == Next(s.Move(c, Waiting(s.At(c).was, 0)).(safepointLock := None))
  {
    var was := s.At(c).was;
    var s1 := s.Move(c, Started(was)).(listLock := None);
    var s2 := s.Move(c, Gathering(was)).(listLock := None, safepointLock := None);
    var s3 := s.Move(c, Waiting(was, 0)).(safepointLock := None);
    hide Steps;
    MoveTwice(s, c, Started(was), Gathering(was));
    MoveTwice(s, c, Gathering(was), Waiting(was, 0));
    ThreeSteps(s, s1, s2, s3, c);
  }

  lemma EditSteps(s: State, t: Thread, add: bool)
    requires s.listLock == None
    ensures Steps(s.Move(t, Listing(add)), t, 3) == Next(Edit(s, t, add).Move(t, Outside))
  {
    hide Steps, Edit, Step;
    var s1 := s.Move(t, Listing(add));
    var s2 := s.Move(t, Editing(add)).(listLock := Some(t));
    var edited := Edit(s, t, add);
    var s3 := edited.Move(t, Leaving).(listLock := Some(t));
    MoveTwice(s, t, Listing(add), Editing(add));
    ListingStep(s1, t, add);
    EditingStep(s2, t, add);
    EditsCommute(s, t, add);
    MoveTwice(edited, t, Editing(add), Leaving);
    LeavingStep(s3, t);
    MoveTwice(edited, t, Leaving, Outside);
    ThreeSteps(s1, s2, s3, edited.Move(t, Outside), t);
  }

  /** Registering or unregistering with the list lock free. */
  lemma LoneEdit(s: State, t: Thread, add: bool)
    requires s.At(t) == Outside && s.listLock == None
    ensures Perform(s, t, if add then Register else Unregister) == Next(s.Move(t, Listing(add)))
    ensures Steps(s.Move(t, Listing(add)), t, 3) == Next(Edit(s, t, add).Move(t, Outside))
  {
    hide Steps, Edit, Step;
    EditSteps(s, t, add);
  }

  lemma ListingStep(s: State, t: Thread, add: bool)
    requires s.At(t) == Listing(add) && s.listLock == None
    ensures Step(s, t, false) == Next(s.Move(t, Editing(add)).(listLock := Some(t)))
  {}

  lemma EditingStep(s: State, t: Thread, add: bool)
    requires s.At(t) == Editing(add)
    ensures Step(s, t, false) == Next(Edit(s, t, add).Move(t, Leaving))
  {}

  lemma LeavingStep(s: State, t: Thread)
    requires s.At(t) == Leaving
    ensures Step(s, t, false) == Next(s.Move(t, Outside).(listLock := None))
  {}

  lemma EditsCommute(s: State, t: Thread, add: bool)
    ensures Edit(s.Move(t, Editing(add)).(listLock := Some(t)), t, add)
         == Edit(s, t, add).Move(t, Editing(add)).(listLock := Some(t))
    ensures Edit(s, t, add).listLock == s.listLock
  {
    hide Without;
  }

  lemma WaitingIsWedged(called: State, enabled: State, c: Thread, v: Thread)
    requires called.At(v).Listing? && called.list != [] && called.list[0] == v != c && v !in called.safe
    requires enabled == called.SetSafe(c, true).Move(c, enabled.At(c)).(
                          safepointLock := Some(c), running := true, listLock := Some(c))
    requires enabled.At(c).Enabled?
    ensures Wedged(enabled.Move(c, Waiting(enabled.At(c).was, 0)).(safepointLock := None), c, v)
  {}

  /** Whenever no collection runs and nobody holds a lock, another thread can collect and get stuck
      on the first listed thread, if that thread calls `immix_unregister_thread` while it runs managed
      code. */
  lemma WedgeFrom(turns: seq<Turn>, s: State, c: Thread, v: Thread) returns (more: seq<Turn>)
    requires Play(START, turns) == Next(s) && s.safepointLock == None && s.listLock == None && !s.running
    requires s.At(c) == Outside && s.At(v) == Outside && c != v
    requires s.list != [] && s.list[0] == v && v !in s.safe
    ensures Play(START, more).Next? && Wedged(Play(START, more).state, c, v)
  {
    var called := s.Move(v, Listing(false));
    assert Perform(s, v, Unregister) == Next(called) && Steps(called, v, 0) == Next(called);
    hide Perform;
    more := Call(turns, v, Unregister, 0, s);
    hide Steps, Play, Wedged, WaitsFor;
    LoneStart(called, c);
    more := Call(more, c, Collect, 3, called);
    var enabled := Play(START, more).state;
    LoneGather(enabled, c);
    more := Continue(more, c, 3);
    WaitingIsWedged(called, enabled, c, v);
  }

  const ONE_LISTED := State(None, None, false, [1], {1}, {}, map[1 := Outside])

  /** A run in which thread 1 registers. */
  lemma RegisterOne() returns (turns: seq<Turn>)
    ensures Play(START, turns) == Next(ONE_LISTED)
  {
    hide Steps, Perform;
    LoneEdit(START, 1, true);
    assert Edit(START, 1, true).Move(1, Outside) == ONE_LISTED;
    assert Play(START, []) == Next(START);
    hide Play;
    turns := Call([], 1, Register, 3, START);
  }

  /** Such a state is reached: thread 1 registers, and then the two calls race. */
  lemma WedgedIsReached() returns (turns: seq<Turn>)
    ensures Play(START, turns).Next? && Wedged(Play(START, turns).state, 0, 1)
  {
    turns := RegisterOne();
    hide Steps, Play, Perform;
    turns := WedgeFrom(turns, ONE_LISTED, 0, 1);
  }

  /** When the weak compare-exchange fails for no reason, a collection that was asked for does not
      happen: the call returns with nobody running, as if there had been another collector. */
  lemma CollectionSkipped(s: State, t: Thread)
    requires s.At(t).Exchanging? && !s.running
    ensures Perform(s, t, Fail).Next?
    ensures Steps(Perform(s, t, Fail).state, t, 3) ==
              Next(s.Move(t, Outside).SetSafe(t, s.At(t).was).(safepointLock := None))
  {
    var was := s.At(t).was;
    var s1 := s.Move(t, Losing(was));
    var s2 := s.Move(t, Spinning(was)).(safepointLock := None);
    var s3 := s.Move(t, Restoring(was)).(safepointLock := None);
    var s4 := s.Move(t, Outside).SetSafe(t, was).(safepointLock := None);
    hide Steps;
    MoveTwice(s, t, Losing(was), Spinning(was));
    MoveTwice(s, t, Spinning(was), Restoring(was));
    MoveTwice(s, t, Restoring(was), Outside);
    ThreeSteps(s1, s2, s3, s4, t);
  }

  // Registration.

  /** A thread that has been registered before is not on the list. */
  predicate Gone(s: State, t: Thread) { t in s.prepared && t !in s.list }

  lemma GoneStays(s: State, u: Thread, action: Action, t: Thread)
    requires Inv(s) && Gone(s, t) && Perform(s, u, action).Next?
    ensures Gone(Perform(s, u, action).state, t)
  {
    hide Without, RunnerOk, LocksOk, Step;
    WithoutOk(s.list, u);
    if s.At(u) != Outside { ListMoves(s, u, action == Fail); }
  }

  /** A thread can be registered only once: after `immix_unregister_thread` no run puts it back on the
      list, because its safepoint pointer stays set. */
  lemma {:induction false} UnregisteredForEver(s: State, turns: seq<Turn>, t: Thread)
    requires Inv(s) && Gone(s, t) && Play(s, turns).Next?
    ensures Gone(Play(s, turns).state, t)
  {
    hide Inv, Perform, Gone;
    if turns != [] {
      var most, last := turns[..|turns| - 1], turns[|turns| - 1];
      UnregisteredForEver(s, most, t);
      PlayKeepsInv(s, most);
      GoneStays(Play(s, most).state, last.thread, last.action, t);
    }
  }

  /** A call of `immix_register_thread` by an unlisted thread lists it exactly if the thread has never
      been registered before. */
  lemma RegisterListsExactlyWhen(s: State, t: Thread)
    requires s.At(t) == Outside && s.listLock == None && t !in s.list
    ensures Perform(s, t, Register).Next? && Steps(Perform(s, t, Register).state, t, 3).Next?
    ensures t in Steps(Perform(s, t, Register).state, t, 3).state.list <==> t !in s.prepared
  {
    hide Steps;
    LoneEdit(s, t, true);
  }

  /** Turn `k` of a run is the one in which `t` edits the list to register itself. */
  predicate Registers(turns: seq<Turn>, k: nat, t: Thread) {
    && k < |turns| && turns[k].thread == t
    && Play(START, turns[..k]).Next? && Play(START, turns[..k]).state.At(t) == Editing(true)
  }

  /** Having been registered before means just that. */
  lemma {:induction false} PreparedExactlyWhen(turns: seq<Turn>, t: Thread)
    requires Play(START, turns).Next?
    ensures t in Play(START, turns).state.prepared <==> exists k: nat :: Registers(turns, k, t)
  {
    hide Perform;
    if turns != [] {
      var most, last := turns[..|turns| - 1], turns[|turns| - 1];
      assert Play(START, most).Next?;
      assert Play(START, turns) == Perform(Play(START, most).state, last.thread, last.action);
      hide Play;
      PreparedExactlyWhen(most, t);
      OneTurnPrepares(Play(START, most).state, last, t);
      RegistersBefore(turns, t);
    }
  }

  lemma RegistersBefore(turns: seq<Turn>, t: Thread)
    requires turns != [] && Play(START, turns[..|turns| - 1]).Next?
    ensures var most, last := turns[..|turns| - 1], turns[|turns| - 1];
            (exists k: nat :: Registers(turns, k, t)) <==>
              || (exists k: nat :: Registers(most, k, t))
              || (last.thread == t && Play(START, most).state.At(t) == Editing(true))
  {
    hide Play;
    var most, last := turns[..|turns| - 1], turns[|turns| - 1];
    forall k: nat | k < |most| ensures Registers(turns, k, t) == Registers(most, k, t) {
      assert turns[..k] == most[..k];
    }
    assert Registers(turns, |most|, t) <==> last.thread == t && Play(START, most).state.At(t) == Editing(true);
    if k: nat :| Registers(most, k, t) { assert Registers(turns, k, t); }
  }

  lemma OneTurnPrepares(s: State, turn: Turn, t: Thread)
    requires Perform(s, turn.thread, turn.action).Next?
    ensures t in Perform(s, turn.thread, turn.action).state.prepared
            <==> t in s.prepared || (turn.thread == t && s.At(t) == Editing(true))
  {
    hide Step, Begin, Without;
    if s.At(turn.thread) != Outside { ListMoves(s, turn.thread, turn.action == Fail); }
    else { BeginPrepares(s, turn.thread, turn.action); }
  }

  lemma BeginPrepares(s: State, t: Thread, action: Action)
    requires Begin(s, t, action).Next?
    ensures Begin(s, t, action).state.prepared == s.prepared
  {}

  /** A run in which thread 1 registers and unregisters: it is gone for ever. */
  lemma GoneIsReached() returns (turns: seq<Turn>)
    ensures Play(START, turns).Next? && Gone(Play(START, turns).state, 1)
  {
    hide Steps, Play, Perform;
    turns := RegisterOne();
    LoneEdit(ONE_LISTED, 1, false);
    turns := Call(turns, 1, Unregister, 3, ONE_LISTED);
  }
}
