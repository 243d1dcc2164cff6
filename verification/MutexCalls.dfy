/** What the calls of the parking mutex do: `lock`, `try_lock`, `unlock`, `unlock_fair`, `bump` and a
    timeout (src/util/locks.rs:149-449). */
module MutexCalls {
  import opened Mutex

  // Unlocking.

  /** A whole `unlock` or `unlock_fair`: the fast path, or the slow one with its callback. */
  function AfterUnlock(s: State, t: Thread, fair: bool, beFair: bool): Wrapped {
    match Perform(s, t, Unlock(fair))
    case Stuck => Stuck
    case Next(s') => if s'.At(t).Unlocking? then Perform(s', t, UnparkOne(beFair)) else Next(s')
  }

  /** What an owner knows. */
  lemma OwnersView(s: State, t: Thread)
    requires Inv(s) && Owns(s, t)
    ensures s.bits.locked && (s.queue != [] ==> s.bits.parked && s.At(s.queue[0]) == Parked)
  {
    if s.queue != [] { assert s.queue[0] in s.queue; }
  }

  /** `t` has given up the lock: to nobody if nobody was parked, and otherwise to the first parked
      thread, with the lock in hand if the unlock is fair and free to compete for it if not. */
  ghost predicate Released(s: State, s': State, t: Thread, fair: bool) {
    && s'.At(t) == Outside
    && (s.queue == [] ==> s'.bits == FREE && s'.queue == [])
    && (s.queue != [] ==>
          && s'.queue == s.queue[1..] && s'.bits.locked == fair
          && if fair then Owns(s', s.queue[0]) else Contends(s', s.queue[0]))
    && (forall u :: u != t && (s.queue == [] || u != s.queue[0]) ==> s'.At(u) == s.At(u))
  }

  lemma CallbackReleases(s: State, t: Thread, beFair: bool)
    requires Inv(s) && s.At(t).Unlocking?
    ensures Perform(s, t, UnparkOne(beFair)).Next?
    ensures Released(s, Perform(s, t, UnparkOne(beFair)).state, t, s.At(t).fair || beFair)
  {
    OwnersView(s, t);
    hide Inv;
  }

  /** A whole `unlock` or `unlock_fair` does that, from the fast path or the slow one. */
  lemma UnlockReleases(s: State, t: Thread, fair: bool, beFair: bool)
    requires Inv(s) && s.At(t) == Holding
    ensures AfterUnlock(s, t, fair, beFair).Next? && Inv(AfterUnlock(s, t, fair, beFair).state)
    ensures Released(s, AfterUnlock(s, t, fair, beFair).state, t, fair || beFair)
  {
    OwnersView(s, t);
    hide Inv, Unpark;
    PerformKeepsInv(s, t, Unlock(fair));
    var s1 := Perform(s, t, Unlock(fair)).state;
    if s1.At(t).Unlocking? {
      PerformKeepsInv(s1, t, UnparkOne(beFair));
      CallbackReleases(s1, t, beFair);
    }
  }

  /** `bump` does nothing while the parked bit is down; otherwise the first parked thread has the lock
      and the caller stands in line again. */
  lemma BumpLetsTheFirstIn(s: State, t: Thread, beFair: bool)
    requires Inv(s) && s.At(t) == Holding
    ensures Perform(s, t, Bump).Next?
    ensures !s.bits.parked ==> Perform(s, t, Bump).state == s
    ensures s.queue != [] ==>
              && Perform(Perform(s, t, Bump).state, t, UnparkOne(beFair)).Next?
              && var s' := Perform(Perform(s, t, Bump).state, t, UnparkOne(beFair)).state;
              s'.At(t) == Entering && Owns(s', s.queue[0]) && s'.queue == s.queue[1..]
  {
    OwnersView(s, t);
    hide Inv;
  }

  /** A thread whose time is up leaves its place in the queue to those behind it, and nothing else
      changes hands. */
  lemma TimeOutLeaves(s: State, t: Thread) returns (i: nat)
    requires Inv(s) && s.At(t) == Parked
    ensures Perform(s, t, TimeOut).Next?
    ensures var s' := Perform(s, t, TimeOut).state;
            && i < |s.queue| && s.queue[i] == t && s'.queue == s.queue[..i] + s.queue[i + 1..]
            && s'.At(t) == Outside && s'.bits.locked == s.bits.locked
            && forall u :: u != t ==> s'.At(u) == s.At(u)
  {
    i := RemovedAt(s.queue, t);
  }

  lemma {:induction false} RemovedAt(q: seq<Thread>, t: Thread) returns (i: nat)
    requires t in q
    ensures i < |q| && q[i] == t && Remove(q, t) == q[..i] + q[i + 1..]
  {
    if q[0] == t {
      i := 0;
    } else {
      var j := RemovedAt(q[1..], t);
      i := j + 1;
    }
  }

  // Locking.

  /** A call of `lock` on a free lock gets it if it is left alone, at once if nobody is parked. */
  lemma CallerAcquires(s: State, t: Thread) returns (turns: seq<Turn>, s': State)
    requires Inv(s) && !s.bits.locked && s.At(t) == Outside
    ensures Leads(s, turns, s') && s'.queue == s.queue && Owns(s', t)
    ensures s.bits == FREE ==> turns == [Turn(t, Lock), Turn(t, FastLock(false))]
  {
    var s1 := Perform(s, t, Lock).state;
    var s2 := Perform(s1, t, FastLock(false)).state;
    PerformKeepsInv(s, t, Lock);
    PerformKeepsInv(s1, t, FastLock(false));
    hide Inv;
    var more;
    if Owns(s2, t) { more, s' := [], s2; } else { more, s' := ContenderAcquires(s2, t); }
    assert Leads(s2, more, s');
    hide Perform;
    LeadOn(s1, t, FastLock(false), more, s');
    LeadOn(s, t, Lock, [Turn(t, FastLock(false))] + more, s');
    turns := [Turn(t, Lock)] + ([Turn(t, FastLock(false))] + more);
  }

  function ToPark(p: Place, bits: Bits): nat {
    match p
    case Parking => if bits.parked then 1 else 4
    case Looking(seen) => if seen == bits then 2 else if seen == HELD_PARKED then 5 else 3
    case Loading => 3
    case _ => 0
  }

  function NextToPark(p: Place): Action {
    match p
    case Parking => Park
    case Looking(seen) => if !seen.locked then Grab(false) else if seen.parked then GoPark else MarkParked(false)
    case _ => Load
  }

  /** One step of a thread that waits while somebody else has the lock. */
  lemma TowardsPark(s: State, t: Thread)
    requires Inv(s) && s.bits.locked && Contends(s, t)
    ensures var r := Perform(s, t, NextToPark(s.At(t)));
            && r.Next? && r.state.bits.locked && (forall u :: u != t ==> r.state.At(u) == s.At(u))
            && if r.state.At(t) == Parked then r.state.queue == s.queue + [t]
               else
                 && r.state.queue == s.queue && Contends(r.state, t)
                 && ToPark(r.state.At(t), r.state.bits) < ToPark(s.At(t), s.bits)
  {
    hide Inv;
    assert s.bits == HELD || s.bits == HELD_PARKED;
  }

  /** While somebody else has the lock, a waiting thread that is left alone goes to sleep at the end of
      the queue, and moves nobody else. */
  lemma {:induction false} WaiterParks(s: State, t: Thread) returns (turns: seq<Turn>, s': State)
    requires Inv(s) && s.bits.locked && Contends(s, t)
    ensures Leads(s, turns, s') && s'.At(t) == Parked && s'.queue == s.queue + [t]
    ensures forall u :: u != t ==> s'.At(u) == s.At(u)
    decreases ToPark(s.At(t), s.bits)
  {
    hide Perform;
    var action := NextToPark(s.At(t));
    TowardsPark(s, t);
    PerformKeepsInv(s, t, action);
    var next := Perform(s, t, action).state;
    if next.At(t) == Parked {
      turns, s' := [Turn(t, action)], next;
      PlayOne(s, t, action);
    } else {
      var more;
      more, s' := WaiterParks(next, t);
      turns := [Turn(t, action)] + more;
      LeadOn(s, t, action, more, s');
    }
  }

  /** Only a parked thread ever has to wait for another one to act. */
  lemma OnlyParkedThreadsWait(s: State, t: Thread) returns (action: Action)
    requires s.At(t) != Parked
    ensures Perform(s, t, action).Next?
  {
    action := match s.At(t)
      case Outside => Lock
      case Entering => FastLock(false)
      case Loading => Load
      case Looking(seen) => NextToPark(s.At(t))
      case Parking => Park
      case Handed => Resume
      case Trying(seen) => if seen.locked then GiveUp else TryGrab(false)
      case Holding => Unlock(false)
      case Unlocking(_) => UnparkOne(false)
      case _ => UnparkOne(true);
  }

  // Trying.

  /** `try_lock` that is left alone gets a free lock, and otherwise changes nothing. */
  lemma TryLockAlone(s: State, t: Thread)
    requires s.At(t) == Outside
    ensures Perform(s, t, TryLock).Next?
    ensures var s1 := Perform(s, t, TryLock).state;
            if s.bits.locked then
              && Perform(s1, t, GiveUp) == Next(s.Move(t, Outside))
              && Perform(s1, t, TryGrab(false)) == Stuck
            else
              && Perform(s1, t, GiveUp) == Stuck
              && Perform(s1, t, TryGrab(false)) == Next(s.Move(t, Holding).(bits := s.bits.(locked := true)))
  {
    assert s.Move(t, Trying(s.bits)).Move(t, Outside) == s.Move(t, Outside);
    assert s.Move(t, Trying(s.bits)).Move(t, Holding) == s.Move(t, Holding);
  }

  /** What a thread in `try_lock` has seen was so at some point of this call. */
  lemma {:induction false} TryingSaw(states: seq<State>, turns: seq<Turn>, k: nat, t: Thread) returns (j: nat)
    requires IsRun(states, turns) && k < |states| && states[k].At(t).Trying?
    ensures j < k && states[j].bits == states[k].At(t).seen && forall m :: j < m <= k ==> states[m].At(t).Trying?
    decreases k
  {
    hide Inv;
    assert k > 0;
    var before, turn := states[k - 1], turns[k - 1];
    assert Perform(before, turn.thread, turn.action) == Next(states[k - 1 + 1]);
    RunsKeepInv(states, turns, k - 1);
    if turn.thread == t {
      j := k - 1;
    } else {
      OthersStay(before, turn.thread, turn.action, t);
      hide Perform;
      j := TryingSaw(states, turns, k - 1, t);
    }
  }

  /** In every run, `try_lock` gives up only if at some point of the call another thread had the lock. */
  lemma TryLockFailsOnlyIfHeld(states: seq<State>, turns: seq<Turn>, k: nat, t: Thread) returns (j: nat, u: Thread)
    requires IsRun(states, turns) && k < |turns| && turns[k] == Turn(t, GiveUp)
    ensures j < k && (forall m :: j < m <= k ==> states[m].At(t).Trying?) && Owns(states[j], u)
  {
    assert Perform(states[k], turns[k].thread, turns[k].action) == Next(states[k + 1]);
    hide IsRun;
    j := TryingSaw(states, turns, k, t);
    RunsKeepInv(states, turns, j);
    u :| Owns(states[j], u);
  }
}
