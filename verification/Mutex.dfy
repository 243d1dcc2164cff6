/** The parking mutex of the threaded build (src/util/locks.rs:84-457) as a step model for any
    number of threads. Each atomic access is one step; weak compare-exchanges may fail for no
    reason; parking (validate and enqueue), unparking (dequeue and callback) and timing out
    (dequeue and callback) are atomic, as the parking lot's bucket lock makes them. */
module Mutex {

  type Thread = nat

  /** The two bits of the state word. */
  datatype Bits = Bits(locked: bool, parked: bool)

  const FREE := Bits(false, false)
  const HELD := Bits(true, false)
  const HELD_PARKED := Bits(true, true)

  /** Where a thread is. */
  datatype Place =
    | Outside
    | Entering              // about to try the fast path of `lock`
    | Loading               // in `lock_slow`, about to load the state
    | Looking(seen: Bits)   // in `lock_slow`, having seen a state
    | Parking               // about to call `park`
    | Parked                // asleep in the queue
    | Handed                // woken with the lock handed over
    | Trying(seen: Bits)    // in `try_lock`, having seen a state
    | Holding               // inside the critical section
    | Unlocking(fair: bool) // in `unlock_slow`
    | Bumping               // in `bump_slow`, about to unlock fairly and lock again

  datatype State = State(bits: Bits, queue: seq<Thread>, places: map<Thread, Place>) {
    function At(t: Thread): Place { if t in places then places[t] else Outside }

    function Move(t: Thread, p: Place): State { this.(places := places[t := p]) }
  }

  const START := State(FREE, [], map[])

  datatype Action =
    | Lock | TryLock
    | FastLock(spurious: bool)
    | Load
    | Grab(spurious: bool)       // compare-exchange that sets the locked bit
    | Spin                       // wait a little and load again
    | MarkParked(spurious: bool) // compare-exchange that sets the parked bit
    | GoPark                     // the parked bit is set already
    | Park                       // validate and enqueue
    | TimeOut                    // leave the queue and give up
    | Resume                     // return from `park` with the lock handed over
    | TryGrab(spurious: bool) | GiveUp
    | Unlock(fair: bool)         // fast path of `unlock` and `unlock_fair`
    | UnparkOne(beFair: bool)
    | Bump

  function Remove(q: seq<Thread>, t: Thread): seq<Thread> {
    if q == [] then [] else if q[0] == t then q[1..] else [q[0]] + Remove(q[1..], t)
  }

  /** `unpark_one` with the callback of `unlock_slow`; thread `t` goes on at `next`. */
  function Unpark(s: State, t: Thread, fair: bool, next: Place): State {
    var moved := s.Move(t, next);
    if s.queue == [] then moved.(bits := FREE) else
    var w, rest := s.queue[0], s.queue[1..];
    if fair then
      moved.Move(w, Handed).(queue := rest, bits := if rest == [] then HELD else s.bits)
    else
      moved.Move(w, Loading).(queue := rest, bits := Bits(false, rest != []))
  }

  /** What `action` makes of the state when thread `t` takes it, if `t` can. */
  function Perform(s: State, t: Thread, action: Action): (r: Wrapped) {
    match (s.At(t), action)
    case (Outside, Lock) => Next(s.Move(t, Entering))
    case (Outside, TryLock) => Next(s.Move(t, Trying(s.bits)))
    case (Entering, FastLock(spurious)) =>
      if s.bits == FREE && !spurious then Next(s.Move(t, Holding).(bits := HELD)) else Next(s.Move(t, Loading))
    case (Loading, Load) => Next(s.Move(t, Looking(s.bits)))
    case (Looking(seen), Grab(spurious)) =>
      if seen.locked then Stuck
      else if s.bits == seen && !spurious then Next(s.Move(t, Holding).(bits := seen.(locked := true)))
      else Next(s.Move(t, Looking(s.bits)))
    case (Looking(seen), Spin) => if seen == HELD then Next(s.Move(t, Loading)) else Stuck
    case (Looking(seen), MarkParked(spurious)) =>
      if seen != HELD then Stuck
      else if s.bits == seen && !spurious then Next(s.Move(t, Parking).(bits := HELD_PARKED))
      else Next(s.Move(t, Looking(s.bits)))
    case (Looking(seen), GoPark) => if seen == HELD_PARKED then Next(s.Move(t, Parking)) else Stuck
    case (Parking, Park) =>
      if s.bits == HELD_PARKED then Next(s.Move(t, Parked).(queue := s.queue + [t])) else Next(s.Move(t, Loading))
    case (Parked, TimeOut) =>
      var rest := Remove(s.queue, t);
      Next(s.Move(t, Outside).(queue := rest, bits := if rest == [] then s.bits.(parked := false) else s.bits))
    case (Handed, Resume) => Next(s.Move(t, Holding))
    case (Trying(seen), TryGrab(spurious)) =>
      if seen.locked then Stuck
      else if s.bits == seen && !spurious then Next(s.Move(t, Holding).(bits := seen.(locked := true)))
      else Next(s.Move(t, Trying(s.bits)))
    case (Trying(seen), GiveUp) => if seen.locked then Next(s.Move(t, Outside)) else Stuck
    case (Holding, Unlock(fair)) =>
      if s.bits == HELD then Next(s.Move(t, Outside).(bits := FREE)) else Next(s.Move(t, Unlocking(fair)))
    case (Unlocking(fair), UnparkOne(beFair)) => Next(Unpark(s, t, fair || beFair, Outside))
    case (Holding, Bump) => if s.bits.parked then Next(s.Move(t, Bumping)) else Next(s)
    case (Bumping, UnparkOne(beFair)) => Next(Unpark(s, t, true, Entering))
    case _ => Stuck
  }

  datatype Wrapped = Next(state: State) | Stuck

  // The invariant.

  /** Inside the critical section, on the way out, or handed the lock and not yet woken up. */
  predicate Owning(p: Place) { p.Holding? || p.Handed? || p.Unlocking? || p.Bumping? }

  /** Awake in `lock_slow`: the thread will see the current state and act on it. */
  predicate Contending(p: Place) { p.Loading? || p.Looking? || p.Parking? }

  predicate Owns(s: State, t: Thread) { Owning(s.At(t)) }

  predicate Contends(s: State, t: Thread) { Contending(s.At(t)) }

  ghost predicate Inv(s: State) {
    && (forall t, u :: Owns(s, t) && Owns(s, u) ==> t == u)
    && (s.bits.locked <==> exists t :: Owns(s, t))
    && (forall i, j :: 0 <= i < j < |s.queue| ==> s.queue[i] != s.queue[j])
    && (forall t :: t in s.queue <==> s.At(t) == Parked)
    && (s.queue != [] ==> s.bits.parked)
    && (s.bits == Bits(false, true) ==> s.queue != [])
    && (s.bits == HELD_PARKED ==> s.queue != [] || exists t :: s.At(t) == Parking)
    && (s.queue != [] && !s.bits.locked ==> exists t :: Contends(s, t))
  }

  lemma StartInv()
    ensures Inv(START)
  {}

  lemma OwnersAgree(s: State, t: Thread, u: Thread)
    requires Inv(s) && Owns(s, t) && Owns(s, u)
    ensures t == u
  {}

  // Every step keeps it.

  lemma Moved(s: State, t: Thread, p: Place)
    ensures forall u :: s.Move(t, p).At(u) == if u == t then p else s.At(u)
  {}

  /** A thread moves on without touching the state word or the queue. */
  lemma QuietMove(s: State, t: Thread, p: Place)
    requires Inv(s) && Owning(p) == Owns(s, t) && p != Parked && s.At(t) != Parked
    requires Contends(s, t) ==> Contending(p)
    requires s.At(t) == Parking ==> p == Parking || s.bits != HELD_PARKED
    ensures Inv(s.Move(t, p))
  {
    var s' := s.Move(t, p);
    Moved(s, t, p);
    assert forall u :: Owns(s', u) == Owns(s, u);
    if u :| Owns(s, u) { assert Owns(s', u); }
    if s.queue != [] && !s.bits.locked {
      var u :| Contends(s, u);
      assert Contends(s', u);
    }
    if s.bits == HELD_PARKED && s.queue == [] {
      var u :| s.At(u) == Parking;
      assert s'.At(u) == Parking;
    }
  }

  /** The locked bit goes up together with a new owner. */
  lemma Acquire(s: State, t: Thread)
    requires Inv(s) && !s.bits.locked && s.At(t) != Parked
    ensures Inv(s.Move(t, Holding).(bits := s.bits.(locked := true)))
  {
    var s' := s.Move(t, Holding).(bits := s.bits.(locked := true));
    Moved(s, t, Holding);
    assert forall u :: !Owns(s, u);
    assert forall u :: Owns(s', u) == (Owns(s, u) || u == t);
    assert Owns(s', t);
  }

  lemma SetParkedBit(s: State, t: Thread)
    requires Inv(s) && s.bits == HELD && s.At(t).Looking?
    ensures Inv(s.Move(t, Parking).(bits := HELD_PARKED))
  {
    var s' := s.Move(t, Parking).(bits := HELD_PARKED);
    Moved(s, t, Parking);
    assert forall u :: Owns(s', u) == Owns(s, u);
    assert s'.At(t) == Parking;
    var u :| Owns(s, u);
    assert Owns(s', u);
  }

  lemma Enqueue(s: State, t: Thread)
    requires Inv(s) && s.bits == HELD_PARKED && s.At(t) == Parking
    ensures Inv(s.Move(t, Parked).(queue := s.queue + [t]))
  {
    var s' := s.Move(t, Parked).(queue := s.queue + [t]);
    Moved(s, t, Parked);
    assert t !in s.queue;
    assert forall u :: Owns(s', u) == Owns(s, u);
    var u :| Owns(s, u);
    assert Owns(s', u);
  }

  lemma {:induction false} Removed(q: seq<Thread>, t: Thread)
    requires t in q && forall i, j :: 0 <= i < j < |q| ==> q[i] != q[j]
    ensures forall u :: u in Remove(q, t) <==> u in q && u != t
    ensures forall i, j :: 0 <= i < j < |Remove(q, t)| ==> Remove(q, t)[i] != Remove(q, t)[j]
  {
    assert q == [q[0]] + q[1..];
    if q[0] != t {
      Removed(q[1..], t);
      assert forall k :: 0 <= k < |Remove(q[1..], t)| ==> Remove(q[1..], t)[k] in Remove(q[1..], t);
    }
  }

  /** A thread that gives up leaves no parked bit behind without a parked thread. */
  lemma LeaveQueue(s: State, t: Thread)
    requires Inv(s) && s.At(t) == Parked
    ensures var rest := Remove(s.queue, t);
            Inv(s.Move(t, Outside).(queue := rest, bits := if rest == [] then s.bits.(parked := false) else s.bits))
  {
    Removed(s.queue, t);
    var rest := Remove(s.queue, t);
    var s' := s.Move(t, Outside).(queue := rest, bits := if rest == [] then s.bits.(parked := false) else s.bits);
    Moved(s, t, Outside);
    assert forall u :: Owns(s', u) == Owns(s, u);
    if u :| Owns(s, u) { assert Owns(s', u); }
    if !s.bits.locked {
      var u :| Contends(s, u);
      assert Contends(s', u);
    }
  }

  lemma FastUnlock(s: State, t: Thread)
    requires Inv(s) && s.bits == HELD && Owns(s, t)
    ensures Inv(s.Move(t, Outside).(bits := FREE))
  {
    var s' := s.Move(t, Outside).(bits := FREE);
    Moved(s, t, Outside);
    assert forall u :: Owns(s', u) == (Owns(s, u) && u != t);
  }

  /** Releasing without a successor. */
  lemma UnparkNobody(s: State, t: Thread, next: Place)
    requires Inv(s) && Owns(s, t) && s.queue == [] && (next == Outside || next == Entering)
    ensures Inv(s.Move(t, next).(bits := FREE))
  {
    var s' := s.Move(t, next).(bits := FREE);
    Moved(s, t, next);
    assert forall u :: Owns(s', u) == (Owns(s, u) && u != t);
  }

  lemma FirstOut(q: seq<Thread>)
    requires q != [] && forall i, j :: 0 <= i < j < |q| ==> q[i] != q[j]
    ensures forall u :: u in q[1..] <==> u in q && u != q[0]
  {
    assert q == [q[0]] + q[1..];
  }

  lemma TwoMoves(s: State, t: Thread, p: Place, w: Thread, r: Place)
    requires t != w
    ensures forall u :: s.Move(t, p).Move(w, r).At(u) == if u == w then r else if u == t then p else s.At(u)
  {}

  /** The lock passes straight to the first parked thread, which owns it from then on. */
  lemma HandOver(s: State, t: Thread, next: Place)
    requires Inv(s) && Owns(s, t) && s.queue != [] && (next == Outside || next == Entering)
    ensures Inv(Unpark(s, t, true, next)) && Owns(Unpark(s, t, true, next), s.queue[0])
  {
    var w := s.queue[0];
    var s' := Unpark(s, t, true, next);
    assert s.At(w) == Parked;
    FirstOut(s.queue);
    TwoMoves(s, t, next, w, Handed);
    assert forall u :: Owns(s', u) == ((Owns(s, u) && u != t) || u == w);
    assert Owns(s', w);
  }

  /** The first parked thread is woken to compete for the lock. */
  lemma WakeFirst(s: State, t: Thread, next: Place)
    requires Inv(s) && Owns(s, t) && s.queue != [] && (next == Outside || next == Entering)
    ensures Inv(Unpark(s, t, false, next)) && Contends(Unpark(s, t, false, next), s.queue[0])
  {
    var w := s.queue[0];
    var s' := Unpark(s, t, false, next);
    assert s.At(w) == Parked;
    FirstOut(s.queue);
    TwoMoves(s, t, next, w, Loading);
    assert forall u :: Owns(s', u) == (Owns(s, u) && u != t);
    assert Contends(s', w);
  }

  lemma UnparkKeepsInv(s: State, t: Thread, fair: bool, next: Place)
    requires Inv(s) && Owns(s, t) && (next == Outside || next == Entering)
    ensures Inv(Unpark(s, t, fair, next))
  {
    hide Inv;
    if s.queue == [] { UnparkNobody(s, t, next); }
    else if fair { HandOver(s, t, next); }
    else { WakeFirst(s, t, next); }
  }

  /** Every step of every thread keeps the invariant. */
  lemma PerformKeepsInv(s: State, t: Thread, action: Action)
    requires Inv(s) && Perform(s, t, action).Next?
    ensures Inv(Perform(s, t, action).state)
  {
    hide Inv, Unpark, Remove;
    match (s.At(t), action)
    case (Outside, Lock) => QuietMove(s, t, Entering);
    case (Outside, TryLock) => QuietMove(s, t, Trying(s.bits));
    case (Entering, FastLock(spurious)) =>
      if s.bits == FREE && !spurious { Acquire(s, t); } else { QuietMove(s, t, Loading); }
    case (Loading, Load) => QuietMove(s, t, Looking(s.bits));
    case (Looking(seen), Grab(spurious)) =>
      if s.bits == seen && !spurious { Acquire(s, t); } else { QuietMove(s, t, Looking(s.bits)); }
    case (Looking(seen), Spin) => QuietMove(s, t, Loading);
    case (Looking(seen), MarkParked(spurious)) =>
      if s.bits == seen && !spurious { SetParkedBit(s, t); } else { QuietMove(s, t, Looking(s.bits)); }
    case (Looking(seen), GoPark) => QuietMove(s, t, Parking);
    case (Parking, Park) =>
      if s.bits == HELD_PARKED { Enqueue(s, t); } else { QuietMove(s, t, Loading); }
    case (Parked, TimeOut) => LeaveQueue(s, t);
    case (Handed, Resume) => QuietMove(s, t, Holding);
    case (Trying(seen), TryGrab(spurious)) =>
      if s.bits == seen && !spurious { Acquire(s, t); } else { QuietMove(s, t, Trying(s.bits)); }
    case (Trying(seen), GiveUp) => QuietMove(s, t, Outside);
    case (Holding, Unlock(fair)) =>
      if s.bits == HELD { FastUnlock(s, t); } else { QuietMove(s, t, Unlocking(fair)); }
    case (Unlocking(fair), UnparkOne(beFair)) => UnparkKeepsInv(s, t, fair || beFair, Outside);
    case (Holding, Bump) => if s.bits.parked { QuietMove(s, t, Bumping); }
    case (Bumping, UnparkOne(beFair)) => UnparkKeepsInv(s, t, true, Entering);
    case _ =>
  }

  // Runs.

  datatype Turn = Turn(thread: Thread, action: Action)

  ghost predicate IsRun(states: seq<State>, turns: seq<Turn>) {
    && |states| == |turns| + 1 && states[0] == START
    && forall k :: 0 <= k < |turns| ==> Perform(states[k], turns[k].thread, turns[k].action) == Next(states[k + 1])
  }

  /** The invariant holds throughout every interleaving of any number of threads. */
  lemma {:induction false} RunsKeepInv(states: seq<State>, turns: seq<Turn>, k: nat)
    requires IsRun(states, turns) && k < |states|
    ensures Inv(states[k])
    decreases k
  {
    hide Inv, Perform;
    if k == 0 {
      StartInv();
    } else {
      RunsKeepInv(states, turns, k - 1);
      assert Perform(states[k - 1], turns[k - 1].thread, turns[k - 1].action) == Next(states[k - 1 + 1]);
      PerformKeepsInv(states[k - 1], turns[k - 1].thread, turns[k - 1].action);
    }
  }

  // What it means.

  /** Mutual exclusion at every point of every run: two threads are never inside together, counting
      one that has been handed the lock and not yet returned. */
  lemma MutualExclusion(states: seq<State>, turns: seq<Turn>, k: nat, t: Thread, u: Thread)
    requires IsRun(states, turns) && k < |states| && Owns(states[k], t) && Owns(states[k], u)
    ensures t == u && states[k].bits.locked
  {
    hide IsRun;
    RunsKeepInv(states, turns, k);
  }

  ghost predicate ExactlyOneOwner(s: State) { exists t :: Owns(s, t) && forall u :: Owns(s, u) ==> u == t }

  /** The four rows of the state table hold at every point of every run. */
  lemma StateTable(states: seq<State>, turns: seq<Turn>, k: nat)
    requires IsRun(states, turns) && k < |states|
    ensures var s := states[k];
            match s.bits
            case Bits(false, false) => (forall t :: !Owns(s, t)) && s.queue == []
            case Bits(true, false) => ExactlyOneOwner(s) && s.queue == []
            case Bits(false, true) => (forall t :: !Owns(s, t)) && s.queue != [] && exists t :: Contends(s, t)
            case Bits(true, true) => ExactlyOneOwner(s) && (s.queue != [] || exists t :: s.At(t) == Parking)
  {
    hide IsRun;
    RunsKeepInv(states, turns, k);
    if s :| Owns(states[k], s) { assert ExactlyOneOwner(states[k]); }
  }

  /** Parked threads are served in the order in which they parked: the slow unlock path wakes the
      first one, with the lock in hand or free to compete for it. */
  lemma SlowUnlockServesTheFirst(s: State, t: Thread, beFair: bool)
    requires Inv(s) && s.At(t).Unlocking? && s.queue != []
    ensures var s' := Perform(s, t, UnparkOne(beFair)).state;
            && s'.queue == s.queue[1..]
            && if s.At(t).fair || beFair then Owns(s', s.queue[0]) else Contends(s', s.queue[0])
  {
    hide Inv;
    if s.At(t).fair || beFair { HandOver(s, t, Outside); } else { WakeFirst(s, t, Outside); }
  }

  /** The lock as its users see it: free, or with one holder. */
  datatype Holder = Nobody | By(thread: Thread)

  ghost predicate HeldBy(s: State, h: Holder) {
    match h
    case Nobody => forall t :: !Owns(s, t)
    case By(t) => Owns(s, t)
  }

  /** Nothing changes hands, or `t` takes a free lock, or `t` gives up the lock, possibly straight to
      a thread that was parked. */
  ghost predicate LockStep(s: State, t: Thread, h: Holder, h': Holder) {
    || h' == h
    || (h == Nobody && h' == By(t))
    || (h == By(t) && h' == Nobody)
    || (h == By(t) && h'.By? && s.At(h'.thread) == Parked)
  }

  /** A step of `t` moves another thread only by waking it, and only the owner wakes anybody. */
  lemma OthersStay(s: State, t: Thread, action: Action, u: Thread)
    requires Inv(s) && Perform(s, t, action).Next? && u != t
    ensures var after := Perform(s, t, action).state.At(u);
            after == s.At(u) || (s.At(u) == Parked && Owns(s, t) && (after == Handed || after == Loading))
  {
    if s.queue != [] { assert s.queue[0] in s.queue; }
  }

  /** Where its own step takes an owner or a future one. */
  lemma OwnStep(s: State, t: Thread, action: Action)
    requires Inv(s) && Perform(s, t, action).Next?
    ensures var s' := Perform(s, t, action).state;
            && (!Owns(s, t) && Owns(s', t) ==> s'.At(t) == Holding)
            && (action.Unlock? ==> Owns(s, t) && (Owns(s', t) ==> s'.At(t).Unlocking?))
            && (action.UnparkOne? ==> Owns(s, t) && !Owns(s', t))
  {
    if s.queue != [] { assert s.queue[0] in s.queue; }
  }

  /** Every step of the parking mutex is a step of a plain lock. Taking it means being inside; an unlock
      releases it at once or goes on to the callback, which releases it. */
  lemma MutexIsALock(s: State, t: Thread, action: Action, h: Holder) returns (h': Holder)
    requires Inv(s) && HeldBy(s, h) && Perform(s, t, action).Next?
    ensures HeldBy(Perform(s, t, action).state, h') && LockStep(s, t, h, h')
    ensures h == Nobody && h' == By(t) ==> Perform(s, t, action).state.At(t) == Holding
    ensures action.Unlock? && h' == h ==> Perform(s, t, action).state.At(t).Unlocking?
    ensures action.UnparkOne? ==> h == By(t) && h' != h
  {
    OwnStep(s, t, action);
    hide Perform;
    PerformKeepsInv(s, t, action);
    var s' := Perform(s, t, action).state;
    if h.By? && h.thread != t {
      OthersStay(s, t, action, h.thread);
      assert Owns(s', h.thread);
      h' := h;
    } else if u :| Owns(s', u) {
      h' := By(u);
      if u != t {
        OthersStay(s, t, action, u);
        assert Owns(s, u) || Owns(s, t);
      }
    } else {
      h' := Nobody;
    }
  }

  // No wake-up is lost: whoever is parked can still get the lock.

  /** The state after some turns, if all of them can be taken. */
  function Play(s: State, turns: seq<Turn>): Wrapped
    decreases |turns|
  {
    if turns == [] then Next(s) else
    match Perform(s, turns[0].thread, turns[0].action)
    case Stuck => Stuck
    case Next(s') => Play(s', turns[1..])
  }

  lemma {:induction false} PlayMore(s: State, first: seq<Turn>, second: seq<Turn>)
    requires Play(s, first).Next?
    ensures Play(s, first + second) == Play(Play(s, first).state, second)
    decreases |first|
  {
    hide Perform;
    if first == [] {
      assert first + second == second;
    } else {
      assert (first + second)[0] == first[0] && (first + second)[1..] == first[1..] + second;
      PlayMore(Perform(s, first[0].thread, first[0].action).state, first[1..], second);
    }
  }

  lemma PlayOne(s: State, t: Thread, action: Action)
    ensures Play(s, [Turn(t, action)]) == Perform(s, t, action)
  {
    hide Perform;
    var turns := [Turn(t, action)];
    if Perform(s, t, action).Next? { assert Play(Perform(s, t, action).state, turns[1..]).Next?; }
  }

  /** Turns that lead from one state to another. */
  ghost predicate Leads(s: State, turns: seq<Turn>, s': State) {
    Play(s, turns) == Next(s') && Inv(s')
  }

  lemma LeadOn(s: State, t: Thread, action: Action, more: seq<Turn>, s': State)
    requires Inv(s) && Perform(s, t, action).Next? && Leads(Perform(s, t, action).state, more, s')
    ensures Leads(s, [Turn(t, action)] + more, s')
  {
    hide Inv, Perform, Play;
    PlayOne(s, t, action);
    PlayMore(s, [Turn(t, action)], more);
  }

  function Distance(p: Place, bits: Bits): nat {
    match p
    case Looking(seen) => if !seen.locked then (if seen == bits then 0 else 1) else 4
    case Loading => 1
    case Parking => 2
    case _ => 0
  }

  /** With the lock free, a thread in `lock_slow` that is left alone gets it. */
  lemma {:induction false} ContenderAcquires(s: State, t: Thread) returns (turns: seq<Turn>, s': State)
    requires Inv(s) && !s.bits.locked && Contends(s, t)
    ensures Leads(s, turns, s') && s'.queue == s.queue && Owns(s', t)
    decreases Distance(s.At(t), s.bits)
  {
    hide Inv;
    var action := match s.At(t)
      case Loading => Load
      case Parking => Park
      case Looking(seen) => if !seen.locked then Grab(false) else if seen.parked then GoPark else Spin;
    var next := Perform(s, t, action).state;
    PerformKeepsInv(s, t, action);
    if Owns(next, t) {
      turns, s' := [Turn(t, action)], next;
      PlayOne(s, t, action);
    } else {
      var more;
      more, s' := ContenderAcquires(next, t);
      turns := [Turn(t, action)] + more;
      LeadOn(s, t, action, more, s');
    }
  }

  function ToRelease(p: Place): nat { match p case Handed => 2 case Holding => 1 case _ => 0 }

  /** While a thread is parked the fast unlock path is closed. */
  lemma TowardsRelease(s: State, t: Thread, action: Action)
    requires Inv(s) && s.queue != []
    requires (s.At(t) == Handed && action == Resume) || (s.At(t) == Holding && action == Unlock(true))
    ensures Perform(s, t, action).Next? && Perform(s, t, action).state.queue == s.queue
    ensures Owns(Perform(s, t, action).state, t)
    ensures ToRelease(Perform(s, t, action).state.At(t)) < ToRelease(s.At(t))
  {}

  /** An owner that releases fairly hands the lock to the first parked thread. */
  lemma {:induction false} OwnerHandsOver(s: State, t: Thread) returns (turns: seq<Turn>, s': State)
    requires Inv(s) && Owns(s, t) && s.queue != []
    ensures Leads(s, turns, s') && s'.queue == s.queue[1..] && Owns(s', s.queue[0])
    decreases ToRelease(s.At(t))
  {
    var action := match s.At(t)
      case Handed => Resume
      case Holding => Unlock(true)
      case Unlocking(_) => UnparkOne(true)
      case Bumping => UnparkOne(true);
    var next := Perform(s, t, action).state;
    PerformKeepsInv(s, t, action);
    if s.At(t).Unlocking? || s.At(t).Bumping? {
      turns, s' := [Turn(t, action)], next;
      HandOver(s, t, if s.At(t).Bumping? then Entering else Outside);
      PlayOne(s, t, action);
    } else {
      TowardsRelease(s, t, action);
      var more;
      more, s' := OwnerHandsOver(next, t);
      turns := [Turn(t, action)] + more;
      LeadOn(s, t, action, more, s');
    }
  }

  /** From every state a run can reach, and whoever is parked at position `i`, some continuation
      gives that thread the lock. */
  lemma {:induction false} ParkedThreadsCanBeServed(s: State, i: nat) returns (turns: seq<Turn>, s': State)
    requires Inv(s) && i < |s.queue|
    ensures Leads(s, turns, s') && Owns(s', s.queue[i])
    decreases i, !s.bits.locked
  {
    hide Perform, Play, Owns, Contends;
    if !s.bits.locked {
      var t :| Contends(s, t);
      var first, middle := ContenderAcquires(s, t);
      var second;
      assert middle.bits.locked;
      second, s' := ParkedThreadsCanBeServed(middle, i);
      turns := first + second;
      PlayMore(s, first, second);
    } else {
      var t :| Owns(s, t);
      var first, middle := OwnerHandsOver(s, t);
      if i == 0 {
        turns, s' := first, middle;
      } else {
        var second;
        second, s' := ParkedThreadsCanBeServed(middle, i - 1);
        turns := first + second;
        PlayMore(s, first, second);
      }
    }
  }
}
