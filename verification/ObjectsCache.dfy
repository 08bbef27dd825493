/** The cache of objects as threads use it: each call that gets or returns an object is a
    series of steps, and the steps of all threads interleave in any order under a spin
    lock. Objects are numbered in the order of their allocation. */
module ObjectsCache {
  import SpinLock

  /** A pointer that a thread has in hand: null if the allocation failed. */
  datatype Pointer = NullPointer | To(number: nat)

  /** Where a thread is in its call. */
  datatype Thread =
    | Idle
    | GetWaiting                           // before the lock
    | GetInside                            // has the lock, looks at the cache
    | GetPopping(front: nat)               // has the lock, has read the first object
    | GetLeaving(ptr: Pointer)         // has the lock, gives it back
    | GetReturning(ptr: Pointer)       // without the lock, about to return the object
    | SetWaiting(id: nat)                  // before the lock
    | SetInside(id: nat)                   // has the lock, compares the sizes
    | SetStoring(id: nat, room: bool)      // has the lock, stores or frees the object
    | SetLeaving                           // has the lock, gives it back

  /** Where an object is. */
  datatype Place = Cached | Lent | Freed | Arriving(thread: nat) | Departing(thread: nat)

  /** The lock, the cache and the threads; the number of objects allocated so far; the ones
      that clients hold; and, of the history, the ones freed in order and where each is. */
  datatype State = State(
    locked: bool,
    cache: seq<nat>,
    threads: seq<Thread>,
    made: nat,
    lent: set<nat>,
    freed: seq<nat>,
    place: map<nat, Place>)

  // ---------- Steps

  predicate Initial(s: State) {
    && !s.locked && s.cache == [] && s.made == 0 && s.lent == {} && s.freed == [] && s.place == map[]
    && forall t :: 0 <= t < |s.threads| ==> s.threads[t] == Idle
  }

  /** A client begins to get an object, or to return one that it holds. A null pointer is
      returned without any effect. */
  datatype Op = Get | Set(id: nat)

  predicate CanBegin(s: State, t: nat, op: Op) {
    t < |s.threads| && s.threads[t].Idle? && (op.Set? ==> op.id in s.lent)
  }

  /** No thread but `t` moves. */
  predicate OnlyMoves(s: State, s': State, t: nat) {
    && t < |s.threads| == |s'.threads|
    && forall u :: 0 <= u < |s.threads| && u != t ==> s'.threads[u] == s.threads[u]
  }

  function Move(s: State, t: nat, th: Thread): State
    requires t < |s.threads|
  {
    s.(threads := s.threads[t := th])
  }

  function Begin(s: State, t: nat, op: Op): (s': State)
    requires CanBegin(s, t, op)
    ensures OnlyMoves(s, s', t)
  {
    match op
    case Get => Move(s, t, GetWaiting)
    case Set(id) => Move(s, t, SetWaiting(id)).(lent := s.lent - {id}, place := s.place[id := Departing(t)])
  }

  /** `test_and_set` once: the thread has the lock, or spins. */
  function Acquire(s: State, t: nat): (s': State)
    requires t < |s.threads| && (s.threads[t].GetWaiting? || s.threads[t].SetWaiting?)
    ensures OnlyMoves(s, s', t)
  {
    if s.locked then s
    else Move(s, t, if s.threads[t].GetWaiting? then GetInside else SetInside(s.threads[t].id)).(locked := true)
  }

  /** The first object is read, or a new one is allocated, which may fail. */
  function Look(s: State, t: nat, granted: bool): (s': State)
    requires t < |s.threads| && s.threads[t].GetInside?
    ensures OnlyMoves(s, s', t)
  {
    if s.cache != [] then Move(s, t, GetPopping(s.cache[0]))
    else if !granted then Move(s, t, GetLeaving(NullPointer))
    else
      var id := s.made;
      Move(s, t, GetLeaving(To(id))).(made := id + 1, place := s.place[id := Arriving(t)])
  }

  /** `pop_front`; nothing if the cache were empty. */
  function Pop(s: State, t: nat): (s': State)
    requires t < |s.threads| && s.threads[t].GetPopping?
    ensures OnlyMoves(s, s', t)
  {
    var id := s.threads[t].front;
    var s' := Move(s, t, GetLeaving(To(id)));
    if s.cache == [] then s' else s'.(cache := s.cache[1..], place := s.place[id := Arriving(t)])
  }

  function Compare(s: State, t: nat, max: nat): (s': State)
    requires t < |s.threads| && s.threads[t].SetInside?
    ensures OnlyMoves(s, s', t)
  {
    Move(s, t, SetStoring(s.threads[t].id, |s.cache| < max))
  }

  function Store(s: State, t: nat): (s': State)
    requires t < |s.threads| && s.threads[t].SetStoring?
    ensures OnlyMoves(s, s', t)
  {
    var id := s.threads[t].id;
    var s' := Move(s, t, SetLeaving);
    if s.threads[t].room then s'.(cache := [id] + s.cache, place := s.place[id := Cached])
    else s'.(freed := s.freed + [id], place := s.place[id := Freed])
  }

  function Release(s: State, t: nat): (s': State)
    requires t < |s.threads| && (s.threads[t].GetLeaving? || s.threads[t].SetLeaving?)
    ensures OnlyMoves(s, s', t)
  {
    Move(s, t, if s.threads[t].GetLeaving? then GetReturning(s.threads[t].ptr) else Idle).(locked := false)
  }

  function Return(s: State, t: nat): (s': State)
    requires t < |s.threads| && s.threads[t].GetReturning?
    ensures OnlyMoves(s, s', t)
  {
    var ptr := s.threads[t].ptr;
    var s' := Move(s, t, Idle);
    if ptr.To? then s'.(lent := s.lent + {ptr.number}, place := s.place[ptr.number := Lent]) else s'
  }

  datatype Action = Start(thread: nat, op: Op) | Continue(thread: nat, granted: bool)

  function Advance(s: State, t: nat, granted: bool, max: nat): (s': State)
    requires t < |s.threads| && !s.threads[t].Idle?
    ensures OnlyMoves(s, s', t)
  {
    match s.threads[t]
    case GetWaiting => Acquire(s, t)
    case SetWaiting(_) => Acquire(s, t)
    case GetInside => Look(s, t, granted)
    case GetPopping(_) => Pop(s, t)
    case SetInside(_) => Compare(s, t, max)
    case SetStoring(_, _) => Store(s, t)
    case GetLeaving(_) => Release(s, t)
    case SetLeaving => Release(s, t)
    case GetReturning(_) => Return(s, t)
  }

  predicate Next(s: State, a: Action, s': State, max: nat) {
    match a
    case Start(t, op) => CanBegin(s, t, op) && s' == Begin(s, t, op)
    case Continue(t, granted) => t < |s.threads| && !s.threads[t].Idle? && s' == Advance(s, t, granted, max)
  }

  // ---------- The invariant

  predicate HasLock(th: Thread) {
    th.GetInside? || th.GetPopping? || th.GetLeaving? || th.SetInside? || th.SetStoring? || th.SetLeaving?
  }

  /** Which threads are inside the lock. */
  function Holders(threads: seq<Thread>): (r: seq<bool>)
    ensures |r| == |threads| && forall t :: 0 <= t < |threads| ==> r[t] == HasLock(threads[t])
  {
    seq(|threads|, t requires 0 <= t < |threads| => HasLock(threads[t]))
  }

  predicate Exclusive(s: State) {
    SpinLock.Exclusive(s.locked, Holders(s.threads))
  }

  predicate Brings(th: Thread, id: nat) {
    (th.GetLeaving? || th.GetReturning?) && th.ptr == To(id)
  }

  predicate Gives(th: Thread, id: nat) {
    (th.SetWaiting? || th.SetInside? || th.SetStoring?) && th.id == id
  }

  /** The object is at that place. */
  predicate Has(s: State, p: Place, id: nat) {
    match p
    case Cached => id in s.cache
    case Lent => id in s.lent
    case Freed => id in s.freed
    case Arriving(t) => t < |s.threads| && Brings(s.threads[t], id)
    case Departing(t) => t < |s.threads| && Gives(s.threads[t], id)
  }

  /** Every object ever allocated is at exactly one place, and no others are anywhere. */
  ghost predicate Placed(s: State) {
    && (forall id: nat :: id in s.place <==> id < s.made)
    && forall p, id :: Has(s, p, id) <==> id in s.place && s.place[id] == p
  }

  predicate Distinct(ids: seq<nat>) {
    forall i, j :: 0 <= i < j < |ids| ==> ids[i] != ids[j]
  }

  /** What a thread with the lock has seen of the cache is still so. */
  predicate StillSo(s: State, max: nat) {
    forall t :: 0 <= t < |s.threads| ==>
                  var th := s.threads[t];
                  && (th.GetPopping? ==> s.cache != [] && s.cache[0] == th.front)
                  && (th.SetStoring? && th.room ==> |s.cache| < max)
  }

  ghost predicate Inv(s: State, max: nat) {
    Exclusive(s) && Placed(s) && Distinct(s.cache) && Distinct(s.freed) && |s.cache| <= max && StillSo(s, max)
  }

  // ---------- The lock

  lemma LockKept(s: State, s': State, t: nat)
    requires Exclusive(s) && OnlyMoves(s, s', t) && s'.locked == s.locked
    requires HasLock(s'.threads[t]) == HasLock(s.threads[t])
    ensures Exclusive(s')
  {
    assert Holders(s'.threads) == Holders(s.threads);
  }

  lemma LockTaken(s: State, s': State, t: nat)
    requires Exclusive(s) && OnlyMoves(s, s', t) && !s.locked && s'.locked && HasLock(s'.threads[t])
    ensures Exclusive(s')
  {
    SpinLock.Taken(Holders(s.threads), t);
    assert Holders(s'.threads) == Holders(s.threads)[t := true];
  }

  lemma LockGiven(s: State, s': State, t: nat)
    requires Exclusive(s) && OnlyMoves(s, s', t) && HasLock(s.threads[t]) && !s'.locked && !HasLock(s'.threads[t])
    ensures Exclusive(s')
  {
    SpinLock.Given(s.locked, Holders(s.threads), t);
    assert Holders(s'.threads) == Holders(s.threads)[t := false];
  }

  lemma AloneInside(s: State, t: nat)
    requires Exclusive(s) && t < |s.threads| && HasLock(s.threads[t])
    ensures forall u :: 0 <= u < |s.threads| && u != t ==> !HasLock(s.threads[u])
  {
    SpinLock.Alone(s.locked, Holders(s.threads), t);
    assert forall u :: 0 <= u < |s.threads| ==> Holders(s.threads)[u] == HasLock(s.threads[u]);
  }

  // ---------- Places

  /** The object `id` is now at `p`, and all others are where they were. */
  ghost predicate Shifted(s: State, s': State, id: nat, p: Place) {
    forall q, i :: Has(s', q, i) <==> if i == id then q == p else Has(s, q, i)
  }

  ghost predicate SamePlaces(s: State, s': State) {
    forall q, i :: Has(s', q, i) <==> Has(s, q, i)
  }

  lemma PlacedShifted(s: State, s': State, id: nat, p: Place)
    requires Placed(s) && Shifted(s, s', id, p) && s'.place == s.place[id := p]
    requires s'.made == (if id == s.made then id + 1 else s.made) && id <= s.made
    ensures Placed(s')
  {
    hide Has;
  }

  lemma PlacedSame(s: State, s': State)
    requires Placed(s) && SamePlaces(s, s') && s'.place == s.place && s'.made == s.made
    ensures Placed(s')
  {
    hide Has;
  }

  lemma OnlyThere(s: State, p: Place, id: nat)
    requires Placed(s) && Has(s, p, id)
    ensures forall q :: Has(s, q, id) ==> q == p
    ensures id in s.place && id < s.made
  {
    hide Has;
  }

  lemma BeginPlaces(s: State, t: nat, op: Op)
    requires Placed(s) && CanBegin(s, t, op)
    ensures Placed(Begin(s, t, op))
  {
    hide Placed;
    var s' := Begin(s, t, op);
    if op.Set? {
      var id := op.id;
      assert Has(s, Lent, id);
      OnlyThere(s, Lent, id);
      forall q, i
        ensures Has(s', q, i) <==> if i == id then q == Departing(t) else Has(s, q, i)
      {
        assert Has(s, q, id) ==> q == Lent;
      }
      PlacedShifted(s, s', id, Departing(t));
    } else {
      PlacedSame(s, s');
    }
  }

  lemma LookPlaces(s: State, t: nat, granted: bool)
    requires Placed(s) && t < |s.threads| && s.threads[t].GetInside?
    ensures Placed(Look(s, t, granted))
  {
    var s' := Look(s, t, granted);
    if s.cache == [] && granted {
      var id := s.made;
      assert forall q :: !Has(s, q, id);
      forall q, i
        ensures Has(s', q, i) <==> if i == id then q == Arriving(t) else Has(s, q, i)
      {
        assert !Has(s, q, id);
      }
      PlacedShifted(s, s', id, Arriving(t));
    } else {
      PlacedSame(s, s');
    }
  }

  lemma PopPlaces(s: State, t: nat)
    requires Placed(s) && Distinct(s.cache) && t < |s.threads| && s.threads[t].GetPopping?
    requires s.cache != [] && s.cache[0] == s.threads[t].front
    ensures Placed(Pop(s, t))
  {
    hide Placed;
    var s', id := Pop(s, t), s.cache[0];
    assert Has(s, Cached, id);
    OnlyThere(s, Cached, id);
    FirstGone(s.cache);
    forall q, i
      ensures Has(s', q, i) <==> if i == id then q == Arriving(t) else Has(s, q, i)
    {
      assert Has(s, q, id) ==> q == Cached;
    }
    PlacedShifted(s, s', id, Arriving(t));
  }

  lemma FirstGone(ids: seq<nat>)
    requires ids != [] && Distinct(ids)
    ensures Distinct(ids[1..]) && forall i :: i in ids[1..] <==> i in ids && i != ids[0]
  {
    forall i | i in ids && i != ids[0]
      ensures i in ids[1..]
    {
      var k :| 0 <= k < |ids| && ids[k] == i;
      assert ids[1..][k - 1] == i;
    }
  }

  lemma StorePlaces(s: State, t: nat)
    requires Placed(s) && t < |s.threads| && s.threads[t].SetStoring?
    ensures Placed(Store(s, t))
    ensures s.threads[t].id !in s.cache && s.threads[t].id !in s.freed
  {
    hide Placed;
    var s', id := Store(s, t), s.threads[t].id;
    var p := if s.threads[t].room then Cached else Freed;
    assert Has(s, Departing(t), id);
    OnlyThere(s, Departing(t), id);
    assert !Has(s, Cached, id) && !Has(s, Freed, id);
    forall q, i
      ensures Has(s', q, i) <==> if i == id then q == p else Has(s, q, i)
    {
      assert Has(s, q, id) ==> q == Departing(t);
    }
    PlacedShifted(s, s', id, p);
  }

  lemma ReturnPlaces(s: State, t: nat)
    requires Placed(s) && t < |s.threads| && s.threads[t].GetReturning?
    ensures Placed(Return(s, t))
    ensures s.threads[t].ptr.To? ==> s.threads[t].ptr.number !in s.lent
  {
    hide Placed;
    var s', ptr := Return(s, t), s.threads[t].ptr;
    if ptr.To? {
      var id := ptr.number;
      assert Has(s, Arriving(t), id);
      OnlyThere(s, Arriving(t), id);
      assert !Has(s, Lent, id);
      forall q, i
        ensures Has(s', q, i) <==> if i == id then q == Lent else Has(s, q, i)
      {
        assert Has(s, q, id) ==> q == Arriving(t);
      }
      PlacedShifted(s, s', id, Lent);
    } else {
      PlacedSame(s, s');
    }
  }

  // ---------- Every step keeps the invariant

  lemma BeginKeeps(s: State, t: nat, op: Op, max: nat)
    requires Inv(s, max) && CanBegin(s, t, op)
    ensures Inv(Begin(s, t, op), max)
  {
    hide Placed, Exclusive;
    BeginPlaces(s, t, op);
    LockKept(s, Begin(s, t, op), t);
  }

  lemma AcquireKeeps(s: State, t: nat, max: nat)
    requires Inv(s, max) && t < |s.threads| && (s.threads[t].GetWaiting? || s.threads[t].SetWaiting?)
    ensures Inv(Acquire(s, t), max)
  {
    hide Placed, Exclusive;
    var s' := Acquire(s, t);
    PlacedSame(s, s');
    if !s.locked {
      LockTaken(s, s', t);
    }
  }

  lemma LookKeeps(s: State, t: nat, granted: bool, max: nat)
    requires Inv(s, max) && t < |s.threads| && s.threads[t].GetInside?
    ensures Inv(Look(s, t, granted), max)
  {
    hide Placed, Exclusive;
    LookPlaces(s, t, granted);
    LockKept(s, Look(s, t, granted), t);
  }

  lemma PopKeeps(s: State, t: nat, max: nat)
    requires Inv(s, max) && t < |s.threads| && s.threads[t].GetPopping?
    ensures Inv(Pop(s, t), max)
  {
    hide Placed, Exclusive, Distinct;
    PopPlaces(s, t);
    FirstGone(s.cache);
    LockKept(s, Pop(s, t), t);
    AloneInside(s, t);
  }

  lemma CompareKeeps(s: State, t: nat, max: nat)
    requires Inv(s, max) && t < |s.threads| && s.threads[t].SetInside?
    ensures Inv(Compare(s, t, max), max)
  {
    hide Placed, Exclusive;
    PlacedSame(s, Compare(s, t, max));
    LockKept(s, Compare(s, t, max), t);
  }

  lemma StoreKeeps(s: State, t: nat, max: nat)
    requires Inv(s, max) && t < |s.threads| && s.threads[t].SetStoring?
    ensures Inv(Store(s, t), max)
  {
    hide Placed, Exclusive;
    StorePlaces(s, t);
    LockKept(s, Store(s, t), t);
    AloneInside(s, t);
  }

  lemma ReleaseKeeps(s: State, t: nat, max: nat)
    requires Inv(s, max) && t < |s.threads| && (s.threads[t].GetLeaving? || s.threads[t].SetLeaving?)
    ensures Inv(Release(s, t), max)
  {
    hide Placed, Exclusive;
    PlacedSame(s, Release(s, t));
    LockGiven(s, Release(s, t), t);
  }

  lemma ReturnKeeps(s: State, t: nat, max: nat)
    requires Inv(s, max) && t < |s.threads| && s.threads[t].GetReturning?
    ensures Inv(Return(s, t), max)
  {
    hide Placed, Exclusive;
    ReturnPlaces(s, t);
    LockKept(s, Return(s, t), t);
  }

  lemma NextKeeps(s: State, a: Action, s': State, max: nat)
    requires Inv(s, max) && Next(s, a, s', max)
    ensures Inv(s', max)
  {
    hide Inv, Begin, Acquire, Look, Pop, Compare, Store, Release, Return;
    match a
    case Start(t, op) => BeginKeeps(s, t, op, max);
    case Continue(t, granted) =>
      match s.threads[t]
      case GetWaiting => AcquireKeeps(s, t, max);
      case SetWaiting(_) => AcquireKeeps(s, t, max);
      case GetInside => LookKeeps(s, t, granted, max);
      case GetPopping(_) => PopKeeps(s, t, max);
      case SetInside(_) => CompareKeeps(s, t, max);
      case SetStoring(_, _) => StoreKeeps(s, t, max);
      case GetLeaving(_) => ReleaseKeeps(s, t, max);
      case SetLeaving => ReleaseKeeps(s, t, max);
      case GetReturning(_) => ReturnKeeps(s, t, max);
  }

  lemma InitialKeeps(s: State, max: nat)
    requires Initial(s)
    ensures Inv(s, max)
  {
    SpinLock.Nobody(Holders(s.threads));
  }

  // ---------- Runs

  /** A run: the states between the actions of any threads in any order. */
  predicate Run(states: seq<State>, actions: seq<Action>, max: nat) {
    && |states| == |actions| + 1 && Initial(states[0])
    && forall i, j :: 0 <= i < |actions| && j == i + 1 ==> Next(states[i], actions[i], states[j], max)
  }

  /** In every interleaving, at every moment: at most one thread is inside the lock; every
      object allocated is cached, lent, freed or passing through one thread, and only one
      of these; the cache holds no more than `max` objects. */
  lemma {:induction false} RunsKeep(states: seq<State>, actions: seq<Action>, max: nat)
    requires Run(states, actions, max)
    ensures Inv(states[|actions|], max)
    decreases |actions|
  {
    hide Inv, Next;
    if actions == [] {
      InitialKeeps(states[0], max);
    } else {
      var n := |actions| - 1;
      RunsKeep(states[..n + 1], actions[..n], max);
      assert states[..n + 1][n] == states[n];
      NextKeeps(states[n], actions[n], states[n + 1], max);
    }
  }

  /** What a thread is about to return to its client is held by nobody. */
  lemma {:induction false} NeverLentTwice(states: seq<State>, actions: seq<Action>, max: nat, t: nat)
    requires Run(states, actions, max)
    requires var s := states[|actions|]; t < |s.threads| && s.threads[t].GetReturning? && s.threads[t].ptr.To?
    ensures var s := states[|actions|];
            var id := s.threads[t].ptr.number;
            && id !in s.lent && id !in s.cache && id !in s.freed && id < s.made
            && forall u :: 0 <= u < |s.threads| && u != t ==> !Brings(s.threads[u], id) && !Gives(s.threads[u], id)
  {
    hide Next, Exclusive;
    RunsKeep(states, actions, max);
    var s := states[|actions|];
    var id := s.threads[t].ptr.number;
    assert Has(s, Arriving(t), id);
    OnlyThere(s, Arriving(t), id);
    assert !Has(s, Lent, id) && !Has(s, Cached, id) && !Has(s, Freed, id);
    forall u | 0 <= u < |s.threads| && u != t
      ensures !Brings(s.threads[u], id) && !Gives(s.threads[u], id)
    {
      assert !Has(s, Arriving(u), id) && !Has(s, Departing(u), id);
    }
  }

  // ---------- What the cache is for

  /** A thread on its way to hand this object out. */
  predicate InHand(th: Thread, id: nat) {
    th == GetPopping(id) || th == GetLeaving(To(id)) || th == GetReturning(To(id))
  }

  /** From one moment of a run to a later one, thread `t` has kept the object in hand, unless it
      was lent in between. */
  lemma {:induction false} HandedOut(states: seq<State>, actions: seq<Action>, max: nat, i: nat, j: nat, t: nat,
                                     id: nat)
    requires Run(states, actions, max) && i <= j <= |actions|
    requires t < |states[i].threads| && InHand(states[i].threads[t], id)
    ensures t < |states[j].threads|
    ensures InHand(states[j].threads[t], id)
            || exists k :: i < k <= j && t < |states[k].threads| && states[k].threads[t] == Idle && id in states[k].lent
    decreases j - i
  {
    hide Next;
    if i < j {
      HandedOut(states, actions, max, i, j - 1, t, id);
      assert Next(states[j - 1], actions[j - 1], states[j], max);
      StaysInHand(states[j - 1], actions[j - 1], states[j], max, t, id);
    }
  }

  lemma StaysInHand(s: State, a: Action, s': State, max: nat, t: nat, id: nat)
    requires Next(s, a, s', max) && t < |s.threads|
    ensures |s'.threads| == |s.threads|
    ensures InHand(s.threads[t], id) ==>
              InHand(s'.threads[t], id) || (s'.threads[t] == Idle && id in s'.lent)
  {
    if a.thread != t {
      OthersStay(s, a, s', max, t);
    } else if InHand(s.threads[t], id) {
      hide Acquire, Look, Compare, Store, Begin;
    }
  }

  /** A thread that looks at a cache that is not empty hands out the first object of it, the one
      returned last, whether or not an allocation would be granted. */
  lemma {:induction false} CachedIsReused(states: seq<State>, actions: seq<Action>, max: nat, i: nat, j: nat, t: nat,
                                          granted: bool)
    requires Run(states, actions, max) && i < j <= |actions| && actions[i] == Continue(t, granted)
    requires t < |states[i].threads| && states[i].threads[t] == GetInside && states[i].cache != []
    ensures var id := states[i].cache[0];
            && t < |states[j].threads|
            && (InHand(states[j].threads[t], id)
                || exists k :: i < k <= j && t < |states[k].threads| && states[k].threads[t] == Idle
                               && id in states[k].lent)
  {
    assert Next(states[i], actions[i], states[i + 1], max);
    HandedOut(states, actions, max, i + 1, j, t, states[i].cache[0]);
  }

  /** Objects are only allocated while none is cached, one at a time. */
  lemma AllocatedOnlyIfEmpty(s: State, a: Action, s': State, max: nat)
    requires Next(s, a, s', max)
    ensures s'.made == s.made || (s'.made == s.made + 1 && s.cache == [] && a == Continue(a.thread, true))
  {
  }

  /** A thread that is not the one that steps stays where it is. */
  lemma {:induction false} ThreadWaits(states: seq<State>, actions: seq<Action>, max: nat, i: nat, j: nat, t: nat)
    requires Run(states, actions, max) && i <= j <= |actions| && t < |states[i].threads|
    requires forall k :: i <= k < j ==> actions[k].thread != t
    ensures t < |states[j].threads| && states[j].threads[t] == states[i].threads[t]
    decreases j - i
  {
    hide Next;
    if i < j {
      ThreadWaits(states, actions, max, i, j - 1, t);
      assert Next(states[j - 1], actions[j - 1], states[j], max);
      OthersStay(states[j - 1], actions[j - 1], states[j], max, t);
    }
  }

  lemma OthersStay(s: State, a: Action, s': State, max: nat, t: nat)
    requires Next(s, a, s', max) && a.thread != t && t < |s.threads|
    ensures t < |s'.threads| && s'.threads[t] == s.threads[t]
  {
    hide Begin, Advance;
  }

  /** An object that a thread brings back while there is room becomes the first of the cache by
      the thread's second step from there; and where there is none it is freed. */
  lemma {:induction false} RoomIsUsed(states: seq<State>, actions: seq<Action>, max: nat, i: nat, j: nat, t: nat,
                                      id: nat)
    requires Run(states, actions, max) && i < j < |actions| && t < |states[i].threads|
    requires states[i].threads[t] == SetInside(id) && actions[i].Continue? && actions[i].thread == t
    requires actions[j].Continue? && actions[j].thread == t && forall k :: i < k < j ==> actions[k].thread != t
    ensures if |states[i].cache| < max then states[j + 1].cache == [id] + states[j].cache
            else states[j + 1].freed == states[j].freed + [id] && states[j + 1].cache == states[j].cache
  {
    assert Next(states[i], actions[i], states[i + 1], max);
    ThreadWaits(states, actions, max, i + 1, j, t);
    assert Next(states[j], actions[j], states[j + 1], max);
  }

  predicate Quiet(s: State) {
    forall t :: 0 <= t < |s.threads| ==> s.threads[t].Idle?
  }

  /** After destruction, when no thread is inside a call: no object has been freed twice,
      and every object allocated has been freed or is still with a client, not both. */
  lemma {:induction false} DestroyedFreesAll(states: seq<State>, actions: seq<Action>, max: nat)
    requires Run(states, actions, max) && Quiet(states[|actions|])
    ensures var s := states[|actions|];
            var freed := s.freed + s.cache;
            && Distinct(freed)
            && forall id: nat :: (id < s.made <==> id in freed || id in s.lent) && !(id in freed && id in s.lent)
  {
    hide Next, Exclusive;
    RunsKeep(states, actions, max);
    var s := states[|actions|];
    forall id: nat
      ensures id < s.made <==> id in s.freed || id in s.cache || id in s.lent
      ensures !(id in s.freed && id in s.cache) && !(id in s.lent && (id in s.freed || id in s.cache))
    {
      QuietPlace(s, id, max);
    }
    DistinctJoin(s.freed, s.cache);
  }

  lemma DistinctJoin(a: seq<nat>, b: seq<nat>)
    requires Distinct(a) && Distinct(b) && forall id: nat :: !(id in a && id in b)
    ensures Distinct(a + b)
  {
    forall i, j | 0 <= i < |a| && 0 <= j < |b|
      ensures a[i] != b[j]
    {
      assert a[i] in a && b[j] in b;
    }
  }

  lemma QuietPlace(s: State, id: nat, max: nat)
    requires Inv(s, max) && Quiet(s)
    ensures id < s.made <==> id in s.freed || id in s.cache || id in s.lent
    ensures !(id in s.freed && id in s.cache) && !(id in s.lent && (id in s.freed || id in s.cache))
  {
    assert Has(s, Freed, id) <==> id in s.freed;
    assert Has(s, Cached, id) <==> id in s.cache;
    assert Has(s, Lent, id) <==> id in s.lent;
    if id < s.made {
      assert Has(s, s.place[id], id);
    }
  }
}
