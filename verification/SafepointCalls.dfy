/** What the calls of the safepoint protocol do: the wait for the world over whole runs, and whole
    collections and registrations (src/safepoint.rs:128-198, src/lib.rs:157-168 and 333-335,
    src/threading.rs:153-182). */
module SafepointCalls {
  import opened Constants
  import opened Safepoint

  // What the collector has waited for.

  /** After the first `m` turns `c` is waiting for the world. */
  ghost predicate WaitsAfter(turns: seq<Turn>, m: nat, c: Thread) {
    m <= |turns| && Play(START, turns[..m]).Next? && Play(START, turns[..m]).state.At(c).Waiting?
  }

  /** After the first `k` turns `v` is safe, and `c` has been waiting for the world ever since. */
  ghost predicate SeenSafe(turns: seq<Turn>, k: nat, c: Thread, v: Thread) {
    && WaitsAfter(turns, k, c) && (forall m: nat :: k <= m <= |turns| ==> WaitsAfter(turns, m, c))
    && v in Play(START, turns[..k]).state.safe
  }

  lemma SeenSafeLonger(turns: seq<Turn>, k: nat, c: Thread, v: Thread)
    requires turns != [] && SeenSafe(turns[..|turns| - 1], k, c, v)
    requires Play(START, turns).Next? && Play(START, turns).state.At(c).Waiting?
    ensures SeenSafe(turns, k, c, v)
  {
    hide Play;
    var most := turns[..|turns| - 1];
    assert WaitsAfter(most, k, c) && most[..k] == turns[..k];
    forall m: nat | k <= m <= |turns| ensures WaitsAfter(turns, m, c) {
      if m <= |most| {
        assert WaitsAfter(most, m, c) && most[..m] == turns[..m];
      } else {
        assert turns[..m] == turns;
      }
    }
  }

  /** How a thread comes to wait for number `i`, and what keeps the list as it is meanwhile. */
  lemma WaitingStep(s: State, t: Thread, action: Action, c: Thread)
    requires Inv(s) && Perform(s, t, action).Next? && Perform(s, t, action).state.At(c).Waiting?
    ensures var s' := Perform(s, t, action).state;
            || (s'.At(c).next == 0 && !s.At(c).Waiting?)
            || (s.At(c) == s'.At(c) && s'.list == s.list)
            || (&& s.At(c) == Waiting(s'.At(c).was, s'.At(c).next - 1) && s'.list == s.list
                && s.At(c).next < |s.list| && (s.list[s.At(c).next] == c || s.list[s.At(c).next] in s.safe))
  {
    hide Without, RunnerOk, ListOk;
    assert s.listLock == Some(c) <==> HoldsList(s.At(c));
    assert s.listLock == Some(t) <==> HoldsList(s.At(t));
    if s.At(t) != Outside && t != c {
      hide Step, Begin, Inv;
      OthersStay(s, t, action == Fail, c);
      ListMoves(s, t, action == Fail);
    }
  }

  /** The threads that the collector is past were safe when it passed them. */
  lemma {:induction false} PassedWereSafe(turns: seq<Turn>, c: Thread, j: nat) returns (k: nat)
    requires Play(START, turns).Next? && Play(START, turns).state.At(c).Waiting?
    requires var s := Play(START, turns).state; j < s.At(c).next && j < |s.list| && s.list[j] != c
    ensures SeenSafe(turns, k, c, Play(START, turns).state.list[j])
    decreases |turns|
  {
    hide Perform, SeenSafe;
    assert turns != [];
    var most, last := turns[..|turns| - 1], turns[|turns| - 1];
    var before, s := Play(START, most).state, Play(START, turns).state;
    StartInv();
    PlayKeepsInv(START, most);
    WaitingStep(before, last.thread, last.action, c);
    assert before.At(c).Waiting? && before.list == s.list;
    if j < before.At(c).next {
      k := PassedWereSafe(most, c, j);
    } else {
      k := |most|;
      NowSafe(most, c, s.list[j]);
    }
    SeenSafeLonger(turns, k, c, s.list[j]);
  }

  lemma NowSafe(turns: seq<Turn>, c: Thread, v: Thread)
    requires Play(START, turns).Next? && Play(START, turns).state.At(c).Waiting? && v in Play(START, turns).state.safe
    ensures SeenSafe(turns, |turns|, c, v)
  {
    hide Play;
    assert turns[..|turns|] == turns;
    assert WaitsAfter(turns, |turns|, c);
  }

  /** In every run, when a thread goes on from waiting for the world to collecting, every other listed
      thread has been safe at some point since that wait began. */
  lemma WorldHasStopped(turns: seq<Turn>, c: Thread, action: Action, v: Thread) returns (k: nat)
    requires Play(START, turns).Next? && Play(START, turns).state.At(c).Waiting?
    requires Perform(Play(START, turns).state, c, action).Next?
    requires Perform(Play(START, turns).state, c, action).state.At(c).Collecting?
    requires v in Play(START, turns).state.list && v != c
    ensures SeenSafe(turns, k, c, v)
  {
    hide Play, SeenSafe;
    var s := Play(START, turns).state;
    var j :| 0 <= j < |s.list| && s.list[j] == v;
    k := PassedWereSafe(turns, c, j);
  }

  /** Collecting is entered from that wait only. */
  lemma CollectsAfterWaiting(s: State, t: Thread, action: Action, c: Thread)
    requires Perform(s, t, action).Next? && Perform(s, t, action).state.At(c).Collecting? && !s.At(c).Collecting?
    ensures t == c && s.At(c).Waiting?
  {
    hide Edit;
    if s.At(t) != Outside && t != c { OthersStay(s, t, action == Fail, c); }
    if s.At(t).Editing? { EditKeepsPlaces(s, t, s.At(t).add); }
  }

  // Whole calls.

  /** A thread that lost the race returns only once no collection is running. */
  lemma LoserWaitsForTheEnd(s: State, t: Thread, action: Action)
    requires Inv(s) && s.At(t).Spinning?
    ensures Perform(s, t, action).Next? ==> forall u :: !Runs(s.At(u))
    ensures (forall u :: !Runs(s.At(u))) ==> Perform(s, t, Advance) == Next(s.Move(t, Restoring(s.At(t).was)))
  {}

  lemma {:induction false} StepsMore(s: State, t: Thread, m: nat, n: nat)
    requires Steps(s, t, m).Next?
    ensures Steps(s, t, m + n) == Steps(Steps(s, t, m).state, t, n)
    decreases m
  {
    hide Perform;
    if m > 0 { StepsMore(Perform(s, t, Advance).state, t, m - 1, n); }
  }

  /** The wait for the world passes every thread that is safe. */
  lemma {:induction false} LoneWait(s: State, c: Thread)
    requires s.At(c).Waiting? && s.At(c).next <= |s.list|
    requires forall j :: s.At(c).next <= j < |s.list| ==> s.list[j] == c || s.list[j] in s.safe
    ensures Steps(s, c, |s.list| - s.At(c).next + 1) == Next(s.Move(c, Collecting(s.At(c).was)))
    decreases |s.list| - s.At(c).next
  {
    var was, i := s.At(c).was, s.At(c).next;
    var s' := Step(s, c, false).state;
    if i < |s.list| {
      LoneWait(s', c);
      MoveTwice(s, c, Waiting(was, i + 1), Collecting(was));
    } else {
      assert Steps(s', c, 0) == Next(s');
    }
  }

  /** The end of a collection: the flag goes down, and then the list lock. */
  lemma LoneEnding(s: State, c: Thread)
    requires s.At(c).Collecting? && s.safepointLock == None
    ensures Steps(s, c, 3) == Next(s.Move(c, Cleared(s.At(c).was)).(safepointLock := Some(c), running := false))
  {
    var was := s.At(c).was;
    var s1 := s.Move(c, Ending(was));
    var s2 := s.Move(c, Clearing(was)).(safepointLock := Some(c));
    var s3 := s.Move(c, Cleared(was)).(safepointLock := Some(c), running := false);
    hide Steps;
    MoveTwice(s, c, Ending(was), Clearing(was));
    MoveTwice(s, c, Clearing(was), Cleared(was));
    ThreeSteps(s, s1, s2, s3, c);
  }

  lemma LoneLeaving(s: State, c: Thread)
    requires s.At(c).Cleared?
    ensures Steps(s, c, 3) ==
            Next(s.Move(c, Outside).SetSafe(c, s.At(c).was).(safepointLock := None, listLock := None))
  {
    var was := s.At(c).was;
    var s1 := s.Move(c, Dropping(was)).(safepointLock := None);
    var s2 := s.Move(c, Restoring(was)).(safepointLock := None, listLock := None);
    var s3 := s.Move(c, Outside).SetSafe(c, was).(safepointLock := None, listLock := None);
    hide Steps;
    MoveTwice(s, c, Dropping(was), Restoring(was));
    MoveTwice(s, c, Restoring(was), Outside);
    ThreeSteps(s, s1, s2, s3, c);
  }

  /** The state in the middle of a collection by `c`. */
  function Amidst(s: State, c: Thread, p: Place): State {
    s.(safe := s.safe + {c}, running := true, listLock := Some(c)).Move(c, p)
  }

  /** From the call to the wait for the world. */
  lemma LoneBeginning(s: State, c: Thread)
    requires s.safepointLock == None && s.listLock == None && !s.running && s.At(c) == Outside
    ensures Perform(s, c, Collect).Next?
    ensures Steps(Perform(s, c, Collect).state, c, 6) == Next(Amidst(s, c, Waiting(c in s.safe, 0)))
  {
    hide Steps, Step;
    var was, begun := c in s.safe, Perform(s, c, Collect).state;
    LoneStart(s, c);
    var enabled := Steps(begun, c, 3).state;
    LoneGather(enabled, c);
    StepsMore(begun, c, 3, 3);
    MoveTwice(s, c, Enabled(was), Waiting(was, 0));
  }

  /** From the end of the wait to the return. */
  lemma LoneFinish(s: State, c: Thread)
    requires s.safepointLock == None && s.listLock == None && !s.running
    ensures Steps(Amidst(s, c, Collecting(c in s.safe)), c, 6) == Next(s.Move(c, Outside))
  {
    hide Steps, Step;
    var was, s0 := c in s.safe, Amidst(s, c, Collecting(c in s.safe));
    LoneEnding(s0, c);
    MoveTwice(s, c, Collecting(was), Cleared(was));
    var s3 := Steps(s0, c, 3).state;
    LoneLeaving(s3, c);
    MoveTwice(s, c, Cleared(was), Outside);
    StepsMore(s0, c, 3, 3);
    assert (if was then s.safe + {c} + {c} else s.safe + {c} - {c}) == s.safe;
  }

  /** A whole collection, with nobody in the way and every other listed thread safe, runs to its end
      and leaves everything as it was: both locks, the flag, the list, and everybody's `gc_state`. */
  lemma LoneCollection(s: State, c: Thread)
    requires s.safepointLock == None && s.listLock == None && !s.running && s.At(c) == Outside
    requires forall v :: v in s.list ==> v == c || v in s.safe
    ensures Perform(s, c, Collect).Next?
    ensures Steps(Perform(s, c, Collect).state, c, |s.list| + 13) == Next(s.Move(c, Outside))
  {
    hide Steps, Perform;
    LoneBeginning(s, c);
    var was, begun := c in s.safe, Perform(s, c, Collect).state;
    var waiting := Amidst(s, c, Waiting(was, 0));
    forall j | 0 <= j < |s.list| ensures s.list[j] == c || s.list[j] in waiting.safe { assert s.list[j] in s.list; }
    LoneWait(waiting, c);
    StepsMore(begun, c, 6, |s.list| + 1);
    MoveTwice(s, c, Waiting(was, 0), Collecting(was));
    LoneFinish(s, c);
    StepsMore(begun, c, |s.list| + 7, 6);
  }

  // `gc_state`.

  /** The `gc_state` that a collecting thread saved. */
  function Saved(p: Place): bool
    requires InCollection(p)
  {
    p.was
  }

  /** A thread's `gc_state` changes only by its own steps. */
  lemma OwnStateOnly(s: State, t: Thread, action: Action, u: Thread)
    requires Perform(s, t, action).Next? && u != t
    ensures u in Perform(s, t, action).state.safe <==> u in s.safe
  {
    hide Step, Begin, Without;
    if s.At(t) == Outside {
      BeginMoves(s, t, action);
    } else {
      ListMoves(s, t, action == Fail);
      var s' := Step(s, t, action == Fail).state;
      assert u in s.safe - {t} <==> u in s'.safe - {t};
      if s.At(t).Editing? { EditKeepsSafe(s, t, s.At(t).add); }
    }
  }

  lemma EditKeepsSafe(s: State, t: Thread, add: bool)
    ensures Edit(s, t, add).safe == s.safe
  {}

  /** A mutator that enters or leaves the safe state does just that, as many times as it likes. */
  lemma MutatorSetsState(s: State, t: Thread, entering: bool)
    requires s.At(t) == Outside
    ensures var r := Perform(s, t, if entering then EnterSafe else LeaveSafe);
            r.Next? && r.state == s.(safe := r.state.safe) && (t in r.state.safe <==> entering)
            && forall u :: u != t ==> (u in r.state.safe <==> u in s.safe)
  {}

  /** What a collecting thread saved stays what it was. */
  lemma SavedStep(s: State, t: Thread, action: Action, c: Thread)
    requires Perform(s, t, action).Next? && InCollection(Perform(s, t, action).state.At(c))
    ensures var p := Perform(s, t, action).state.At(c);
            if s.At(c) == Outside then t == c && action == Collect && Saved(p) == (c in s.safe)
            else InCollection(s.At(c)) && Saved(p) == Saved(s.At(c))
  {
    hide Without;
    if s.At(t) != Outside && t != c { OthersStay(s, t, action == Fail, c); }
    if s.At(t).Editing? { EditKeepsPlaces(s, t, s.At(t).add); }
    hide Edit;
  }

  /** After the first `m` turns `c` is in a collection. */
  ghost predicate CollectsAfter(turns: seq<Turn>, m: nat, c: Thread) {
    m <= |turns| && Play(START, turns[..m]).Next? && InCollection(Play(START, turns[..m]).state.At(c))
  }

  /** Turn `k` is the call of the collection that `c` is in, and `c` was `safe` then or not. */
  ghost predicate CalledAt(turns: seq<Turn>, k: nat, c: Thread, safe: bool) {
    && k < |turns| && turns[k] == Turn(c, Collect) && Play(START, turns[..k]).Next?
    && (c in Play(START, turns[..k]).state.safe <==> safe)
    && forall m: nat :: k < m <= |turns| ==> CollectsAfter(turns, m, c)
  }

  /** In every run, what a collecting thread will restore is the `gc_state` it had when it called. */
  lemma {:induction false} SavedAtCall(turns: seq<Turn>, c: Thread) returns (k: nat)
    requires Play(START, turns).Next? && InCollection(Play(START, turns).state.At(c))
    ensures CalledAt(turns, k, c, Saved(Play(START, turns).state.At(c)))
  {
    hide Perform, CalledAt, InCollection;
    assert turns != [] by { OutsideAtStart(c); }
    var most, last := turns[..|turns| - 1], turns[|turns| - 1];
    var before, s := Play(START, most).state, Play(START, turns).state;
    SavedStep(before, last.thread, last.action, c);
    if before.At(c) == Outside {
      k := |most|;
      CalledNow(turns, c);
    } else {
      k := SavedAtCall(most, c);
      CalledBefore(turns, k, c, Saved(s.At(c)));
    }
  }

  lemma OutsideAtStart(c: Thread)
    ensures !InCollection(START.At(c))
  {}

  lemma CalledNow(turns: seq<Turn>, c: Thread)
    requires turns != [] && turns[|turns| - 1] == Turn(c, Collect) && Play(START, turns[..|turns| - 1]).Next?
    requires Play(START, turns).Next? && InCollection(Play(START, turns).state.At(c))
    ensures CalledAt(turns, |turns| - 1, c, c in Play(START, turns[..|turns| - 1]).state.safe)
  {
    hide Play, InCollection;
    assert turns[..|turns|] == turns;
    assert CollectsAfter(turns, |turns|, c);
  }

  lemma CalledBefore(turns: seq<Turn>, k: nat, c: Thread, safe: bool)
    requires turns != [] && CalledAt(turns[..|turns| - 1], k, c, safe)
    requires Play(START, turns).Next? && InCollection(Play(START, turns).state.At(c))
    ensures CalledAt(turns, k, c, safe)
  {
    hide Play, InCollection;
    var most := turns[..|turns| - 1];
    assert most[..k] == turns[..k];
    forall m: nat | k < m <= |turns| ensures CollectsAfter(turns, m, c) {
      if m <= |most| {
        assert CollectsAfter(most, m, c) && most[..m] == turns[..m];
      } else {
        assert turns[..m] == turns;
      }
    }
  }

  /** A collection returns with the caller's `gc_state` as it was at the call, whether the thread ran it
      or lost the race. */
  lemma CollectRestoresState(turns: seq<Turn>, c: Thread) returns (k: nat)
    requires Play(START, turns).Next? && Play(START, turns).state.At(c).Restoring?
    ensures k < |turns| && turns[k] == Turn(c, Collect) && Play(START, turns[..k]).Next?
    ensures var s := Play(START, turns).state;
            && Perform(s, c, Advance).Next? && Perform(s, c, Advance).state.At(c) == Outside
            && (c in Perform(s, c, Advance).state.safe <==> c in Play(START, turns[..k]).state.safe)
  {
    hide Play;
    k := SavedAtCall(turns, c);
  }

  // Registration.

  /** With the list lock free, `immix_register_thread` appends the thread if it has never been
      registered, and `immix_unregister_thread` removes it wherever it stands; nothing else changes. */
  lemma LoneRegistration(s: State, t: Thread, add: bool)
    requires Inv(s) && s.At(t) == Outside && s.listLock == None
    ensures var call := Perform(s, t, if add then Register else Unregister);
            call.Next? && Steps(call.state, t, 3).Next?
            && var s' := Steps(call.state, t, 3).state;
            && s' == s.(list := s'.list, prepared := s'.prepared).Move(t, Outside)
            && (add ==> s'.list == s.list + (if t in s.prepared then [] else [t]) && s'.prepared == s.prepared + {t})
            && (!add ==> s'.prepared == s.prepared && (t !in s.list ==> s'.list == s.list))
            && (!add ==> forall i :: 0 <= i < |s.list| && s.list[i] == t ==> s'.list == s.list[..i] + s.list[i + 1..])
  {
    LoneEdit(s, t, add);
    hide Steps, Perform, LocksOk, RunnerOk, Without;
    if add {
      if t in s.prepared { assert s.list + [] == s.list && s.prepared + {t} == s.prepared; }
    } else {
      WithoutAbsent(s.list, t);
      forall i | 0 <= i < |s.list| && s.list[i] == t ensures Without(s.list, t) == s.list[..i] + s.list[i + 1..] {
        WithoutPresent(s.list, t, i);
      }
    }
  }

  lemma {:induction false} WithoutAbsent(list: seq<Thread>, t: Thread)
    ensures t !in list ==> Without(list, t) == list
  {
    if list != [] {
      WithoutAbsent(list[1..], t);
      assert list == [list[0]] + list[1..];
    }
  }

  lemma {:induction false} WithoutPresent(list: seq<Thread>, t: Thread, i: nat)
    requires i < |list| && list[i] == t && forall j, k :: 0 <= j < k < |list| ==> list[j] != list[k]
    ensures Without(list, t) == list[..i] + list[i + 1..]
  {
    if i == 0 {
      WithoutAbsent(list[1..], t);
    } else {
      WithoutPresent(list[1..], t, i - 1);
      assert list[..i] == [list[0]] + list[1..][..i - 1];
    }
  }
}
