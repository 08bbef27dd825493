/** The table of callbacks as threads use it: each call of `bind` and `process` is a
    series of steps, and the steps of all threads interleave in any order. A spin lock
    guards the table; callbacks are called outside it. */
module CallbackKeeper {
  import SpinLock

  /** A function object: empty, or one of its own identity. */
  datatype Callback = Empty | Fn(id: nat)

  datatype Op = Bind(key: nat, f: Callback) | Process(session: nat, key: nat, data: nat)

  /** Where a thread is in its call. */
  datatype Thread =
    | Idle
    | Waiting(op: Op)                                 // before the lock
    | Inside(op: Op)                                  // has the lock, looks the key up
    | Swapped(op: Op, found: bool, taken: Callback)   // has the lock, changes the table
    | Leaving(op: Op, taken: Callback)                // has the lock, gives it back
    | Calling(op: Op, taken: Callback)                // without the lock, calls what it took

  /** What a callback was called with. */
  datatype Args = Nulls | Data(session: nat, key: nat, data: nat)

  datatype Call = Call(id: nat, args: Args)

  /** Where a callback is. */
  datatype Place = Pending(thread: nat) | Table(key: nat) | Taken(thread: nat) | Called

  /** The lock, the table and the threads; and, of the history, the keys under which
      callbacks were bound, the calls begun, the callbacks called, and where each one is. */
  datatype State = State(
    locked: bool,
    table: map<nat, Callback>,
    threads: seq<Thread>,
    bound: map<nat, nat>,
    begun: set<Op>,
    calls: seq<Call>,
    place: map<nat, Place>)

  // ---------- Steps

  predicate Initial(s: State) {
    && !s.locked && s.table == map[] && s.bound == map[] && s.begun == {} && s.calls == [] && s.place == map[]
    && forall t :: 0 <= t < |s.threads| ==> s.threads[t] == Idle
  }

  /** No thread but `t` moves. */
  predicate OnlyMoves(s: State, s': State, t: nat) {
    && t < |s.threads| == |s'.threads|
    && forall u :: 0 <= u < |s.threads| && u != t ==> s'.threads[u] == s.threads[u]
  }

  function Move(s: State, t: nat, th: Thread): State
    requires t < |s.threads|
  {
    s.(threads := s.threads[t := th])
  }

  /** An idle thread begins a call; a callback object is handed over at most once. */
  predicate CanBegin(s: State, t: nat, op: Op) {
    t < |s.threads| && s.threads[t].Idle? && (op.Bind? && op.f.Fn? ==> op.f.id !in s.bound)
  }

  function Begin(s: State, t: nat, op: Op): (s': State)
    requires CanBegin(s, t, op)
    ensures OnlyMoves(s, s', t)
  {
    var s' := Move(s, t, Waiting(op)).(begun := s.begun + {op});
    if op.Bind? && op.f.Fn? then s'.(bound := s.bound[op.f.id := op.key], place := s.place[op.f.id := Pending(t)])
    else s'
  }

  /** `test_and_set` once: the thread has the lock, or spins. */
  function Acquire(s: State, t: nat): (s': State)
    requires t < |s.threads| && s.threads[t].Waiting?
    ensures OnlyMoves(s, s', t)
  {
    if s.locked then s else Move(s, t, Inside(s.threads[t].op)).(locked := true)
  }

  /** The key is looked up, and the callback found is swapped with an empty one. */
  function LookUp(s: State, t: nat): (s': State)
    requires t < |s.threads| && s.threads[t].Inside?
    ensures OnlyMoves(s, s', t)
  {
    var op := s.threads[t].op;
    if op.key in s.table then
      var taken := s.table[op.key];
      var s' := Move(s, t, Swapped(op, true, taken)).(table := s.table[op.key := Empty]);
      if taken.Fn? then s'.(place := s.place[taken.id := Taken(t)]) else s'
    else Move(s, t, Swapped(op, false, Empty))
  }

  /** The new callback is stored, or the entry is erased. */
  function Change(s: State, t: nat): (s': State)
    requires t < |s.threads| && s.threads[t].Swapped?
    ensures OnlyMoves(s, s', t)
  {
    var th := s.threads[t];
    var s' := Move(s, t, Leaving(th.op, th.taken));
    match th.op
    case Bind(key, f) =>
      var s'' := s'.(table := s.table[key := f]);
      if f.Fn? then s''.(place := s.place[f.id := Table(key)]) else s''
    case Process(_, key, _) => if th.found then s'.(table := s.table - {key}) else s'
  }

  function Release(s: State, t: nat): (s': State)
    requires t < |s.threads| && s.threads[t].Leaving?
    ensures OnlyMoves(s, s', t)
  {
    Move(s, t, Calling(s.threads[t].op, s.threads[t].taken)).(locked := false)
  }

  function ArgsOf(op: Op): Args {
    if op.Bind? then Nulls else Data(op.session, op.key, op.data)
  }

  /** What was taken is called, unless it is empty. */
  function Invoke(s: State, t: nat): (s': State)
    requires t < |s.threads| && s.threads[t].Calling?
    ensures OnlyMoves(s, s', t)
  {
    var th := s.threads[t];
    var s' := Move(s, t, Idle);
    if th.taken.Fn? then
      s'.(calls := s.calls + [Call(th.taken.id, ArgsOf(th.op))], place := s.place[th.taken.id := Called])
    else s'
  }

  /** The next step of a thread inside a call. */
  function Advance(s: State, t: nat): (s': State)
    requires t < |s.threads| && !s.threads[t].Idle?
    ensures OnlyMoves(s, s', t)
  {
    match s.threads[t]
    case Waiting(_) => Acquire(s, t)
    case Inside(_) => LookUp(s, t)
    case Swapped(_, _, _) => Change(s, t)
    case Leaving(_, _) => Release(s, t)
    case Calling(_, _) => Invoke(s, t)
  }

  datatype Action = Start(thread: nat, op: Op) | Continue(thread: nat)

  predicate Next(s: State, a: Action, s': State) {
    match a
    case Start(t, op) => CanBegin(s, t, op) && s' == Begin(s, t, op)
    case Continue(t) => t < |s.threads| && !s.threads[t].Idle? && s' == Advance(s, t)
  }

  // ---------- The invariant

  predicate HasLock(th: Thread) {
    th.Inside? || th.Swapped? || th.Leaving?
  }

  /** Which threads are inside the lock. */
  function Holders(threads: seq<Thread>): (r: seq<bool>)
    ensures |r| == |threads| && forall t :: 0 <= t < |threads| ==> r[t] == HasLock(threads[t])
  {
    seq(|threads|, t requires 0 <= t < |threads| => HasLock(threads[t]))
  }

  predicate Exclusive(s: State) {
    SpinLock.Exclusive(s.locked, Holders(s.threads))
  }

  predicate Offers(th: Thread, id: nat) {
    (th.Waiting? || th.Inside? || th.Swapped?) && th.op.Bind? && th.op.f == Fn(id)
  }

  predicate Holds(th: Thread, id: nat) {
    (th.Swapped? || th.Leaving? || th.Calling?) && th.taken == Fn(id)
  }

  predicate WasCalled(calls: seq<Call>, id: nat) {
    exists i :: 0 <= i < |calls| && calls[i].id == id
  }

  /** The callback is at that place. */
  predicate Has(s: State, p: Place, id: nat) {
    match p
    case Pending(t) => t < |s.threads| && Offers(s.threads[t], id)
    case Table(key) => key in s.table && s.table[key] == Fn(id)
    case Taken(t) => t < |s.threads| && Holds(s.threads[t], id)
    case Called => WasCalled(s.calls, id)
  }

  /** Every callback ever bound is at exactly one place, and no others are anywhere. */
  ghost predicate Placed(s: State) {
    && s.place.Keys == s.bound.Keys
    && forall p, id :: Has(s, p, id) <==> id in s.place && s.place[id] == p
  }

  predicate CalledOnce(s: State) {
    forall i, j :: 0 <= i < j < |s.calls| ==> s.calls[i].id != s.calls[j].id
  }

  /** The entry that a thread is about to overwrite or erase holds no callback. */
  predicate Emptied(s: State) {
    forall t :: 0 <= t < |s.threads| && s.threads[t].Swapped? ==>
                  var th := s.threads[t];
                  && (th.found <==> th.op.key in s.table)
                  && (th.found ==> s.table[th.op.key] == Empty)
  }

  /** A thread has and takes callbacks under the key that they were bound to. */
  ghost predicate ThreadKeyed(bound: map<nat, nat>, begun: set<Op>, th: Thread) {
    && (forall id :: Offers(th, id) || Holds(th, id) ==> id in bound && bound[id] == th.op.key)
    && (!th.Idle? ==> th.op in begun)
  }

  /** So does the table. */
  ghost predicate Keyed(s: State) {
    && (forall t :: 0 <= t < |s.threads| ==> ThreadKeyed(s.bound, s.begun, s.threads[t]))
    && (forall key :: key in s.table && s.table[key].Fn? ==>
          s.table[key].id in s.bound && s.bound[s.table[key].id] == key)
  }

  /** Data reach a callback only from a `process` of the key that it was bound to. */
  predicate Faithful(s: State) {
    forall i :: 0 <= i < |s.calls| && s.calls[i].args.Data? ==>
                  var c := s.calls[i];
                  && Process(c.args.session, c.args.key, c.args.data) in s.begun
                  && c.id in s.bound && s.bound[c.id] == c.args.key
  }

  ghost predicate Inv(s: State) {
    Exclusive(s) && Placed(s) && CalledOnce(s) && Emptied(s) && Keyed(s) && Faithful(s)
  }

  // ---------- The lock

  lemma LockKept(s: State, s': State, t: nat)
    requires Exclusive(s) && OnlyMoves(s, s', t) && s'.locked == s.locked
    requires HasLock(s'.threads[t]) == HasLock(s.threads[t])
    ensures Exclusive(s')
  {
    assert Holders(s'.threads) == Holders(s.threads);
  }

  lemma LockTaken(s: State, s': State, t: nat)
    requires Exclusive(s) && OnlyMoves(s, s', t) && !s.locked && s'.locked && HasLock(s'.threads[t])
    ensures Exclusive(s')
  {
    SpinLock.Taken(Holders(s.threads), t);
    assert Holders(s'.threads) == Holders(s.threads)[t := true];
  }

  lemma LockGiven(s: State, s': State, t: nat)
    requires Exclusive(s) && OnlyMoves(s, s', t) && HasLock(s.threads[t]) && !s'.locked && !HasLock(s'.threads[t])
    ensures Exclusive(s')
  {
    SpinLock.Given(s.locked, Holders(s.threads), t);
    assert Holders(s'.threads) == Holders(s.threads)[t := false];
  }

  lemma AloneInside(s: State, t: nat)
    requires Exclusive(s) && t < |s.threads| && HasLock(s.threads[t])
    ensures forall u :: 0 <= u < |s.threads| && u != t ==> !HasLock(s.threads[u])
  {
    SpinLock.Alone(s.locked, Holders(s.threads), t);
    assert forall u :: 0 <= u < |s.threads| ==> Holders(s.threads)[u] == HasLock(s.threads[u]);
  }

  // ---------- Places

  /** The callback `id` is now at `p`, and all others are where they were. */
  ghost predicate Shifted(s: State, s': State, id: nat, p: Place) {
    forall q, i :: Has(s', q, i) <==> if i == id then q == p else Has(s, q, i)
  }

  ghost predicate SamePlaces(s: State, s': State) {
    forall q, i :: Has(s', q, i) <==> Has(s, q, i)
  }

  lemma PlacedShifted(s: State, s': State, id: nat, p: Place)
    requires Placed(s) && Shifted(s, s', id, p) && s'.place == s.place[id := p] && s'.bound.Keys == s.bound.Keys + {id}
    ensures Placed(s')
  {
    hide Has;
  }

  lemma PlacedSame(s: State, s': State)
    requires Placed(s) && SamePlaces(s, s') && s'.place == s.place && s'.bound == s.bound
    ensures Placed(s')
  {
    hide Has;
  }

  lemma CalledMore(calls: seq<Call>, c: Call, id: nat)
    ensures WasCalled(calls + [c], id) <==> WasCalled(calls, id) || c.id == id
  {
    var all := calls + [c];
    if WasCalled(calls, id) {
      var i :| 0 <= i < |calls| && calls[i].id == id;
      assert all[i].id == id;
    }
    if c.id == id {
      assert all[|calls|].id == id;
    }
  }

  lemma BeginPlaces(s: State, t: nat, op: Op)
    requires Placed(s) && CanBegin(s, t, op)
    ensures Placed(Begin(s, t, op))
  {
    hide WasCalled;
    var s' := Begin(s, t, op);
    if op.Bind? && op.f.Fn? {
      var id := op.f.id;
      assert forall q :: !Has(s, q, id);
      forall q, i
        ensures Has(s', q, i) <==> if i == id then q == Pending(t) else Has(s, q, i)
      {
        assert Has(s, q, id) ==> false;
      }
      PlacedShifted(s, s', id, Pending(t));
    } else {
      PlacedSame(s, s');
    }
  }

  lemma AcquirePlaces(s: State, t: nat)
    requires Placed(s) && t < |s.threads| && s.threads[t].Waiting?
    ensures Placed(Acquire(s, t))
  {
    hide WasCalled;
    PlacedSame(s, Acquire(s, t));
  }

  lemma LookUpPlaces(s: State, t: nat)
    requires Placed(s) && t < |s.threads| && s.threads[t].Inside?
    ensures Placed(LookUp(s, t))
  {
    hide WasCalled, Placed;
    var s', key := LookUp(s, t), s.threads[t].op.key;
    if key in s.table && s.table[key].Fn? {
      var id := s.table[key].id;
      assert Has(s, Table(key), id);
      OnlyThere(s, Table(key), id);
      forall q, i
        ensures Has(s', q, i) <==> if i == id then q == Taken(t) else Has(s, q, i)
      {
        assert Has(s, q, id) ==> q == Table(key);
      }
      PlacedShifted(s, s', id, Taken(t));
    } else {
      PlacedSame(s, s');
    }
  }

  lemma OnlyThere(s: State, p: Place, id: nat)
    requires Placed(s) && Has(s, p, id)
    ensures forall q :: Has(s, q, id) ==> q == p
    ensures id in s.place && id in s.bound
  {
    hide Has;
  }

  lemma ChangePlaces(s: State, t: nat)
    requires Placed(s) && Emptied(s) && t < |s.threads| && s.threads[t].Swapped?
    ensures Placed(Change(s, t))
  {
    hide WasCalled, Placed;
    var s', op := Change(s, t), s.threads[t].op;
    if op.Bind? && op.f.Fn? {
      var id := op.f.id;
      assert Has(s, Pending(t), id);
      OnlyThere(s, Pending(t), id);
      forall q, i
        ensures Has(s', q, i) <==> if i == id then q == Table(op.key) else Has(s, q, i)
      {
        assert Has(s, q, id) ==> q == Pending(t);
      }
      PlacedShifted(s, s', id, Table(op.key));
    } else {
      PlacedSame(s, s');
    }
  }

  lemma ReleasePlaces(s: State, t: nat)
    requires Placed(s) && t < |s.threads| && s.threads[t].Leaving?
    ensures Placed(Release(s, t))
  {
    hide WasCalled;
    PlacedSame(s, Release(s, t));
  }

  lemma InvokePlaces(s: State, t: nat)
    requires Placed(s) && t < |s.threads| && s.threads[t].Calling?
    ensures Placed(Invoke(s, t))
  {
    hide WasCalled, Placed;
    var s', th := Invoke(s, t), s.threads[t];
    if th.taken.Fn? {
      var id := th.taken.id;
      assert Has(s, Taken(t), id);
      OnlyThere(s, Taken(t), id);
      forall q, i
        ensures Has(s', q, i) <==> if i == id then q == Called else Has(s, q, i)
      {
        assert Has(s, q, id) ==> q == Taken(t);
        CalledMore(s.calls, Call(id, ArgsOf(th.op)), i);
      }
      PlacedShifted(s, s', id, Called);
    } else {
      PlacedSame(s, s');
    }
  }

  // ---------- Every step keeps the invariant

  lemma BeginKeyed(s: State, t: nat, op: Op)
    requires Keyed(s) && CanBegin(s, t, op)
    ensures Keyed(Begin(s, t, op))
  {
    hide ThreadKeyed;
    var s' := Begin(s, t, op);
    forall u | 0 <= u < |s.threads|
      ensures ThreadKeyed(s'.bound, s'.begun, s'.threads[u])
    {
      if u == t {
        WaitingKeyed(s'.bound, s'.begun, op);
      } else {
        KeyedStill(s.bound, s.begun, s'.bound, s'.begun, s.threads[u]);
      }
    }
  }

  lemma WaitingKeyed(bound: map<nat, nat>, begun: set<Op>, op: Op)
    requires op in begun && (op.Bind? && op.f.Fn? ==> op.f.id in bound && bound[op.f.id] == op.key)
    ensures ThreadKeyed(bound, begun, Waiting(op))
  {
  }

  lemma KeyedStill(bound: map<nat, nat>, begun: set<Op>, bound': map<nat, nat>, begun': set<Op>, th: Thread)
    requires ThreadKeyed(bound, begun, th) && begun <= begun'
    requires forall id :: id in bound ==> id in bound' && bound'[id] == bound[id]
    ensures ThreadKeyed(bound', begun', th)
  {
  }

  lemma BeginKeeps(s: State, t: nat, op: Op)
    requires Inv(s) && CanBegin(s, t, op)
    ensures Inv(Begin(s, t, op))
  {
    hide Placed, Exclusive, Keyed;
    BeginPlaces(s, t, op);
    LockKept(s, Begin(s, t, op), t);
    BeginKeyed(s, t, op);
  }

  lemma AcquireKeeps(s: State, t: nat)
    requires Inv(s) && t < |s.threads| && s.threads[t].Waiting?
    ensures Inv(Acquire(s, t))
  {
    hide Placed, Exclusive;
    AcquirePlaces(s, t);
    if !s.locked {
      LockTaken(s, Acquire(s, t), t);
    }
  }

  lemma LookUpKeyed(s: State, t: nat)
    requires Keyed(s) && t < |s.threads| && s.threads[t].Inside?
    ensures Keyed(LookUp(s, t))
  {
  }

  lemma LookUpKeeps(s: State, t: nat)
    requires Inv(s) && t < |s.threads| && s.threads[t].Inside?
    ensures Inv(LookUp(s, t))
  {
    hide Placed, Exclusive, Keyed;
    LookUpPlaces(s, t);
    LockKept(s, LookUp(s, t), t);
    AloneInside(s, t);
    LookUpKeyed(s, t);
  }

  lemma ChangeKeyed(s: State, t: nat)
    requires Keyed(s) && t < |s.threads| && s.threads[t].Swapped?
    ensures Keyed(Change(s, t))
  {
    LeavingKeyed(s.bound, s.begun, s.threads[t]);
    hide ThreadKeyed;
  }

  lemma LeavingKeyed(bound: map<nat, nat>, begun: set<Op>, th: Thread)
    requires ThreadKeyed(bound, begun, th) && th.Swapped?
    ensures ThreadKeyed(bound, begun, Leaving(th.op, th.taken))
    ensures th.op.Bind? && th.op.f.Fn? ==> th.op.f.id in bound && bound[th.op.f.id] == th.op.key
  {
    assert th.op.Bind? && th.op.f.Fn? ==> Offers(th, th.op.f.id);
  }

  lemma ChangeKeeps(s: State, t: nat)
    requires Inv(s) && t < |s.threads| && s.threads[t].Swapped?
    ensures Inv(Change(s, t))
  {
    hide Placed, Exclusive, Keyed;
    ChangePlaces(s, t);
    LockKept(s, Change(s, t), t);
    AloneInside(s, t);
    ChangeKeyed(s, t);
  }

  lemma ReleaseKeeps(s: State, t: nat)
    requires Inv(s) && t < |s.threads| && s.threads[t].Leaving?
    ensures Inv(Release(s, t))
  {
    hide Placed, Exclusive;
    ReleasePlaces(s, t);
    LockGiven(s, Release(s, t), t);
  }

  lemma InvokeKeyed(s: State, t: nat)
    requires Keyed(s) && t < |s.threads| && s.threads[t].Calling?
    ensures Keyed(Invoke(s, t))
  {
  }

  lemma InvokeCalls(s: State, t: nat)
    requires Placed(s) && CalledOnce(s) && Faithful(s) && Keyed(s) && t < |s.threads| && s.threads[t].Calling?
    ensures CalledOnce(Invoke(s, t)) && Faithful(Invoke(s, t))
  {
    hide Placed;
    NotYetCalled(s, t);
  }

  lemma InvokeKeeps(s: State, t: nat)
    requires Inv(s) && t < |s.threads| && s.threads[t].Calling?
    ensures Inv(Invoke(s, t))
  {
    hide Placed, Exclusive, Keyed, CalledOnce, Faithful;
    InvokePlaces(s, t);
    LockKept(s, Invoke(s, t), t);
    InvokeCalls(s, t);
    InvokeKeyed(s, t);
  }

  lemma NotYetCalled(s: State, t: nat)
    requires Placed(s) && t < |s.threads| && s.threads[t].Calling?
    ensures s.threads[t].taken.Fn? ==> forall i :: 0 <= i < |s.calls| ==> s.calls[i].id != s.threads[t].taken.id
  {
    if s.threads[t].taken.Fn? {
      var id := s.threads[t].taken.id;
      assert Has(s, Taken(t), id);
      assert !Has(s, Called, id);
    }
  }

  lemma NextKeeps(s: State, a: Action, s': State)
    requires Inv(s) && Next(s, a, s')
    ensures Inv(s')
  {
    hide Inv, Begin, Acquire, LookUp, Change, Release, Invoke;
    match a
    case Start(t, op) => BeginKeeps(s, t, op);
    case Continue(t) =>
      match s.threads[t]
      case Waiting(_) => AcquireKeeps(s, t);
      case Inside(_) => LookUpKeeps(s, t);
      case Swapped(_, _, _) => ChangeKeeps(s, t);
      case Leaving(_, _) => ReleaseKeeps(s, t);
      case Calling(_, _) => InvokeKeeps(s, t);
  }

  lemma InitialKeeps(s: State)
    requires Initial(s)
    ensures Inv(s)
  {
    SpinLock.Nobody(Holders(s.threads));
  }

  // ---------- Runs

  /** A run: the states between the actions of any threads in any order. */
  predicate Run(states: seq<State>, actions: seq<Action>) {
    && |states| == |actions| + 1 && Initial(states[0])
    && forall i, j :: 0 <= i < |actions| && j == i + 1 ==> Next(states[i], actions[i], states[j])
  }

  /** In every interleaving, at every moment, at most one thread is inside the lock and
      every callback bound so far is at exactly one place. */
  lemma {:induction false} RunsKeep(states: seq<State>, actions: seq<Action>)
    requires Run(states, actions)
    ensures Inv(states[|actions|])
    decreases |actions|
  {
    hide Inv, Next;
    if actions == [] {
      InitialKeeps(states[0]);
    } else {
      var n := |actions| - 1;
      RunsKeep(states[..n + 1], actions[..n]);
      assert states[..n + 1][n] == states[n];
      NextKeeps(states[n], actions[n], states[n + 1]);
    }
  }

  // ---------- Empty callbacks

  /** Somebody has bound an empty callback under the key, or a thread that has swapped one in is
      about to overwrite or erase it. */
  predicate Explained(s: State, key: nat) {
    || Bind(key, Empty) in s.begun
    || exists t :: 0 <= t < |s.threads| && s.threads[t].Swapped? && s.threads[t].op.key == key
  }

  predicate Accounted(s: State) {
    forall key :: key in s.table && s.table[key] == Empty ==> Explained(s, key)
  }

  lemma ExplainedStill(s: State, s': State, t: nat, key: nat)
    requires Explained(s, key) && OnlyMoves(s, s', t) && s.begun <= s'.begun
    requires s.threads[t].Swapped? ==> s.threads[t].op.key != key
    ensures Explained(s', key)
  {
    if Bind(key, Empty) !in s.begun {
      var u :| 0 <= u < |s.threads| && s.threads[u].Swapped? && s.threads[u].op.key == key;
      assert s'.threads[u] == s.threads[u];
    }
  }

  lemma ChangeAccounted(s: State, t: nat)
    requires Inv(s) && Accounted(s) && t < |s.threads| && s.threads[t].Swapped?
    ensures Accounted(Change(s, t))
  {
    hide Explained, Exclusive, Placed, CalledOnce, Faithful;
    var s', op := Change(s, t), s.threads[t].op;
    assert ThreadKeyed(s.bound, s.begun, s.threads[t]);
    forall key | key in s'.table && s'.table[key] == Empty
      ensures Explained(s', key)
    {
      if key == op.key {
        BoundExplains(s', key);
      } else {
        ExplainedStill(s, s', t, key);
      }
    }
  }

  lemma BoundExplains(s: State, key: nat)
    requires Bind(key, Empty) in s.begun
    ensures Explained(s, key)
  {
  }

  lemma LookUpAccounted(s: State, t: nat)
    requires Accounted(s) && t < |s.threads| && s.threads[t].Inside?
    ensures Accounted(LookUp(s, t))
  {
    var s', op := LookUp(s, t), s.threads[t].op;
    forall key | key in s'.table && s'.table[key] == Empty
      ensures Explained(s', key)
    {
      if key == op.key {
        assert s'.threads[t].Swapped? && s'.threads[t].op.key == key;
      } else {
        ExplainedStill(s, s', t, key);
      }
    }
  }

  lemma NextAccounted(s: State, a: Action, s': State)
    requires Inv(s) && Accounted(s) && Next(s, a, s')
    ensures Accounted(s')
  {
    hide Inv, Accounted;
    var t := a.thread;
    hide Begin, Acquire, LookUp, Change, Release, Invoke;
    if a.Continue? && s.threads[t].Swapped? {
      ChangeAccounted(s, t);
    } else if a.Continue? && s.threads[t].Inside? {
      LookUpAccounted(s, t);
    } else {
      TableStays(s, a, s');
      OthersAccounted(s, s', t);
    }
  }

  lemma TableStays(s: State, a: Action, s': State)
    requires Next(s, a, s') && (a.Continue? ==> !s.threads[a.thread].Swapped? && !s.threads[a.thread].Inside?)
    ensures OnlyMoves(s, s', a.thread) && s.begun <= s'.begun && s'.table == s.table
    ensures !s.threads[a.thread].Swapped?
  {
    hide LookUp, Change;
  }

  lemma OthersAccounted(s: State, s': State, t: nat)
    requires Accounted(s) && OnlyMoves(s, s', t) && s.begun <= s'.begun && s'.table == s.table && !s.threads[t].Swapped?
    ensures Accounted(s')
  {
    hide Explained;
    forall key | key in s'.table && s'.table[key] == Empty
      ensures Explained(s', key)
    {
      ExplainedStill(s, s', t, key);
    }
  }

  lemma {:induction false} RunsAccounted(states: seq<State>, actions: seq<Action>)
    requires Run(states, actions)
    ensures Accounted(states[|actions|])
    decreases |actions|
  {
    hide Inv, Next, Explained;
    if actions != [] {
      var n := |actions| - 1;
      RunsKeep(states[..n + 1], actions[..n]);
      RunsAccounted(states[..n + 1], actions[..n]);
      assert states[..n + 1][n] == states[n];
      NextAccounted(states[n], actions[n], states[n + 1]);
    }
  }

  // ---------- What is handed over

  /** A thread that is in its call has taken a callback. */
  predicate HasTaken(s: State, t: nat, op: Op, id: nat) {
    t < |s.threads| && Holds(s.threads[t], id) && s.threads[t].op == op
  }

  lemma TakenStays(s: State, a: Action, s': State, t: nat, op: Op, id: nat)
    requires Next(s, a, s') && (HasTaken(s, t, op, id) || Call(id, ArgsOf(op)) in s.calls)
    ensures HasTaken(s', t, op, id) || Call(id, ArgsOf(op)) in s'.calls
  {
    CallsGrow(s, a, s');
    if HasTaken(s, t, op, id) {
      if a.thread != t || a.Start? {
        hide Begin, Advance;
      } else {
        hide Begin, Acquire, LookUp;
        assert s.threads[t].Calling? ==> s'.calls[|s.calls|] == Call(id, ArgsOf(op));
      }
    }
  }

  lemma CallsGrow(s: State, a: Action, s': State)
    requires Next(s, a, s')
    ensures s.calls <= s'.calls
  {
  }

  lemma {:induction false} TakenIsCalled(states: seq<State>, actions: seq<Action>, i: nat, j: nat, t: nat, op: Op,
                                         id: nat)
    requires Run(states, actions) && i <= j <= |actions| && HasTaken(states[i], t, op, id)
    ensures HasTaken(states[j], t, op, id) || Call(id, ArgsOf(op)) in states[j].calls
    decreases j - i
  {
    hide Next, HasTaken;
    if i < j {
      TakenIsCalled(states, actions, i, j - 1, t, op, id);
      assert Next(states[j - 1], actions[j - 1], states[j]);
      TakenStays(states[j - 1], actions[j - 1], states[j], t, op, id);
    }
  }

  /** A `process` that finds a callback under its key, at any moment of any run, has called it
      with its own session, key and data once no thread is inside a call. */
  lemma {:induction false} ProcessHandsOver(states: seq<State>, actions: seq<Action>, i: nat, t: nat, session: nat,
                                            key: nat, data: nat, id: nat)
    requires Run(states, actions) && Quiet(states[|actions|]) && i < |actions| && actions[i] == Continue(t)
    requires t < |states[i].threads| && states[i].threads[t] == Inside(Process(session, key, data))
    requires key in states[i].table && states[i].table[key] == Fn(id)
    ensures Call(id, Data(session, key, data)) in states[|actions|].calls
  {
    var op := Process(session, key, data);
    assert Next(states[i], actions[i], states[i + 1]);
    assert HasTaken(states[i + 1], t, op, id);
    TakenIsCalled(states, actions, i + 1, |actions|, t, op, id);
  }

  /** No thread has taken the callback that it brought itself. */
  ghost predicate TakenFromOthers(s: State) {
    forall t :: 0 <= t < |s.threads| ==> NotOwn(s.threads[t])
  }

  ghost predicate NotOwn(th: Thread) {
    forall id :: Holds(th, id) ==> !(th.op.Bind? && th.op.f == Fn(id))
  }

  /** Who was called with nulls before destruction was replaced: something else was bound under
      its key. */
  ghost predicate Replaced(s: State) {
    forall i :: 0 <= i < |s.calls| && s.calls[i].args.Nulls? ==> ReplacedOne(s, s.calls[i].id)
  }

  ghost predicate ReplacedOne(s: State, id: nat) {
    id in s.bound && exists f :: Bind(s.bound[id], f) in s.begun && f != Fn(id)
  }

  lemma LookUpTakesFromOthers(s: State, t: nat)
    requires Inv(s) && TakenFromOthers(s) && t < |s.threads| && s.threads[t].Inside?
    ensures TakenFromOthers(LookUp(s, t))
  {
    hide NotOwn, Exclusive, CalledOnce, Emptied, Faithful, Keyed;
    var op := s.threads[t].op;
    if op.key in s.table && s.table[op.key].Fn? {
      var id := s.table[op.key].id;
      assert Has(s, Table(op.key), id);
      assert op.Bind? && op.f == Fn(id) ==> Has(s, Pending(t), id);
    }
    OwnOrNot(LookUp(s, t).threads[t]);
  }

  lemma OwnOrNot(th: Thread)
    ensures NotOwn(th) <==> forall id :: Holds(th, id) ==> !(th.op.Bind? && th.op.f == Fn(id))
  {
  }

  lemma NextTakesFromOthers(s: State, a: Action, s': State)
    requires Inv(s) && TakenFromOthers(s) && Next(s, a, s')
    ensures TakenFromOthers(s')
  {
    hide Inv, Begin, Advance;
    if a.Continue? && s.threads[a.thread].Inside? {
      InsideLooksUp(s, a, s');
      LookUpTakesFromOthers(s, a.thread);
    } else {
      hide NotOwn, Inv;
      OwnStays(s, a, s');
    }
  }

  lemma OwnStays(s: State, a: Action, s': State)
    requires Next(s, a, s') && (a.Continue? ==> !s.threads[a.thread].Inside?)
    ensures OnlyMoves(s, s', a.thread) && (NotOwn(s.threads[a.thread]) ==> NotOwn(s'.threads[a.thread]))
  {
    hide NotOwn, Begin, Acquire, LookUp, Change, Release, Invoke;
    var th, th' := s.threads[a.thread], s'.threads[a.thread];
    HoldsNoMore(s, a, s');
    OwnOrNot(th);
    OwnOrNot(th');
  }

  lemma HoldsNoMore(s: State, a: Action, s': State)
    requires Next(s, a, s') && (a.Continue? ==> !s.threads[a.thread].Inside?)
    ensures var th, th' := s.threads[a.thread], s'.threads[a.thread];
            forall id :: Holds(th', id) ==> Holds(th, id) && th'.op == th.op
  {
    hide Begin, Acquire, LookUp, Change, Release, Invoke, Holds;
    match a
    case Start(t, op) =>
      BeginThread(s, t, op);
      HoldsNothing(Waiting(op));
    case Continue(t) =>
      var th := s.threads[t];
      match th {
        case Waiting(op) =>
          AcquireThread(s, t);
          HoldsNothing(Waiting(op));
          HoldsNothing(Inside(op));
        case Swapped(op, found, taken) =>
          ChangeThread(s, t);
          HoldsSame(th, Leaving(op, taken));
        case Leaving(op, taken) =>
          ReleaseThread(s, t);
          HoldsSame(th, Calling(op, taken));
        case Calling(op, taken) =>
          InvokeThread(s, t);
          HoldsNothing(Idle);
        case _ =>
      }
  }

  lemma HoldsNothing(th: Thread)
    requires th.Idle? || th.Waiting? || th.Inside?
    ensures forall id :: !Holds(th, id)
  {
  }

  lemma HoldsSame(th: Thread, th': Thread)
    requires th.Swapped? || th.Leaving?
    requires (th'.Leaving? || th'.Calling?) && th'.op == th.op && th'.taken == th.taken
    ensures forall id :: Holds(th', id) ==> Holds(th, id)
  {
  }

  lemma BeginThread(s: State, t: nat, op: Op)
    requires CanBegin(s, t, op)
    ensures Begin(s, t, op).threads[t] == Waiting(op)
  {
  }

  lemma AcquireThread(s: State, t: nat)
    requires t < |s.threads| && s.threads[t].Waiting?
    ensures Acquire(s, t).threads[t] in {s.threads[t], Inside(s.threads[t].op)}
  {
  }

  lemma ChangeThread(s: State, t: nat)
    requires t < |s.threads| && s.threads[t].Swapped?
    ensures Change(s, t).threads[t] == Leaving(s.threads[t].op, s.threads[t].taken)
  {
  }

  lemma ReleaseThread(s: State, t: nat)
    requires t < |s.threads| && s.threads[t].Leaving?
    ensures Release(s, t).threads[t] == Calling(s.threads[t].op, s.threads[t].taken)
  {
  }

  lemma InvokeThread(s: State, t: nat)
    requires t < |s.threads| && s.threads[t].Calling?
    ensures Invoke(s, t).threads[t] == Idle
  {
  }

  lemma InsideLooksUp(s: State, a: Action, s': State)
    requires Next(s, a, s') && a.Continue? && s.threads[a.thread].Inside?
    ensures s' == LookUp(s, a.thread)
  {
    hide Begin, Acquire, LookUp, Change, Release, Invoke;
  }

  lemma ReplacedStill(s: State, s': State, id: nat)
    requires ReplacedOne(s, id) && s.begun <= s'.begun
    requires forall i :: i in s.bound ==> i in s'.bound && s'.bound[i] == s.bound[i]
    ensures ReplacedOne(s', id)
  {
    var f :| Bind(s.bound[id], f) in s.begun && f != Fn(id);
    assert Bind(s'.bound[id], f) in s'.begun;
  }

  lemma BoundGrows(s: State, a: Action, s': State)
    requires Next(s, a, s')
    ensures s.begun <= s'.begun && forall i :: i in s.bound ==> i in s'.bound && s'.bound[i] == s.bound[i]
  {
  }

  lemma NextReplaced(s: State, a: Action, s': State)
    requires Inv(s) && TakenFromOthers(s) && Replaced(s) && Next(s, a, s')
    ensures Replaced(s')
  {
    hide Inv, ReplacedOne, NotOwn;
    CallsGrow(s, a, s');
    BoundGrows(s, a, s');
    forall i | 0 <= i < |s'.calls| && s'.calls[i].args.Nulls?
      ensures ReplacedOne(s', s'.calls[i].id)
    {
      if i < |s.calls| {
        ReplacedStill(s, s', s.calls[i].id);
      } else {
        assert a.Continue? && s.threads[a.thread].Calling?;
        InvokeReplaced(s, a.thread);
      }
    }
  }

  lemma InvokeReplaced(s: State, t: nat)
    requires Inv(s) && TakenFromOthers(s) && t < |s.threads| && s.threads[t].Calling? && s.threads[t].taken.Fn?
    requires ArgsOf(s.threads[t].op).Nulls?
    ensures ReplacedOne(Invoke(s, t), s.threads[t].taken.id)
  {
    hide Exclusive, Placed, CalledOnce, Emptied, Faithful;
    var th := s.threads[t];
    assert ThreadKeyed(s.bound, s.begun, th) && NotOwn(th) && Holds(th, th.taken.id);
    assert Bind(s.bound[th.taken.id], th.op.f) in Invoke(s, t).begun;
  }

  lemma {:induction false} RunsReplace(states: seq<State>, actions: seq<Action>)
    requires Run(states, actions)
    ensures TakenFromOthers(states[|actions|]) && Replaced(states[|actions|])
    decreases |actions|
  {
    hide Inv, Next, ReplacedOne;
    if actions != [] {
      var n := |actions| - 1;
      RunsKeep(states[..n + 1], actions[..n]);
      RunsReplace(states[..n + 1], actions[..n]);
      assert states[..n + 1][n] == states[n];
      NextTakesFromOthers(states[n], actions[n], states[n + 1]);
      NextReplaced(states[n], actions[n], states[n + 1]);
    }
  }

  /** A callback that is the only one ever bound under its key, and has been called, was called
      by a `process` of that key, with its session, key and data. */
  lemma {:induction false} OnlyProcessCalls(states: seq<State>, actions: seq<Action>, i: nat)
    requires Run(states, actions) && i < |states[|actions|].calls|
    requires var s := states[|actions|]; var id := s.calls[i].id;
             id in s.bound ==> forall f :: Bind(s.bound[id], f) in s.begun ==> f == Fn(id)
    ensures var s := states[|actions|]; var c := s.calls[i];
            && c.id in s.bound && c.args.Data? && c.args.key == s.bound[c.id]
            && Process(c.args.session, c.args.key, c.args.data) in s.begun
  {
    hide Next;
    RunsKeep(states, actions);
    RunsReplace(states, actions);
    OnlyBound(states[|actions|]);
  }

  // ---------- Destruction

  datatype Ending = Destroyed(calls: seq<Call>) | Terminated(calls: seq<Call>)

  /** The destructor calls all that is left in the table, in the order of its iterator. An
      empty function object throws, which ends the program. */
  function Destroy(table: map<nat, Callback>, keys: seq<nat>, calls: seq<Call>): Ending
    requires forall k :: 0 <= k < |keys| ==> keys[k] in table
    decreases |keys|
  {
    if keys == [] then Destroyed(calls)
    else
      match table[keys[0]]
      case Empty => Terminated(calls)
      case Fn(id) => Destroy(table, keys[1..], calls + [Call(id, Nulls)])
  }

  /** An order in which the entries of the table are visited. */
  predicate Order(table: map<nat, Callback>, keys: seq<nat>) {
    && (forall i :: 0 <= i < |keys| ==> keys[i] in table)
    && (forall key :: key in table ==> key in keys)
    && (forall i, j :: 0 <= i < j < |keys| ==> keys[i] != keys[j])
  }

  predicate NoneEmpty(table: map<nat, Callback>) {
    forall key :: key in table ==> table[key].Fn?
  }

  function DestroyCalls(table: map<nat, Callback>, keys: seq<nat>): (r: seq<Call>)
    requires forall k :: 0 <= k < |keys| ==> keys[k] in table && table[keys[k]].Fn?
    ensures |r| == |keys| && forall k :: 0 <= k < |keys| ==> r[k] == Call(table[keys[k]].id, Nulls)
  {
    seq(|keys|, k requires 0 <= k < |keys| => Call(table[keys[k]].id, Nulls))
  }

  /** The destructor ends well exactly if none of the callbacks it visits is empty. */
  lemma {:induction false} DestroyLaw(table: map<nat, Callback>, keys: seq<nat>, calls: seq<Call>)
    requires forall k :: 0 <= k < |keys| ==> keys[k] in table
    ensures Destroy(table, keys, calls).Destroyed? <==> forall k :: 0 <= k < |keys| ==> table[keys[k]].Fn?
    ensures Destroy(table, keys, calls).Destroyed? ==>
              Destroy(table, keys, calls).calls == calls + DestroyCalls(table, keys)
    decreases |keys|
  {
    if keys != [] {
      var first := table[keys[0]];
      if first.Fn? {
        var more := calls + [Call(first.id, Nulls)];
        DestroyLaw(table, keys[1..], more);
        if Destroy(table, keys, calls).Destroyed? {
          assert more + DestroyCalls(table, keys[1..]) == calls + DestroyCalls(table, keys);
        }
      }
    }
  }

  lemma {:induction false} DestroyGrows(table: map<nat, Callback>, keys: seq<nat>, calls: seq<Call>)
    requires forall k :: 0 <= k < |keys| ==> keys[k] in table
    ensures calls <= Destroy(table, keys, calls).calls
    decreases |keys|
  {
    if keys != [] && table[keys[0]].Fn? {
      DestroyGrows(table, keys[1..], calls + [Call(table[keys[0]].id, Nulls)]);
    }
  }

  predicate Quiet(s: State) {
    forall t :: 0 <= t < |s.threads| ==> s.threads[t].Idle?
  }

  predicate CalledExactlyOnce(calls: seq<Call>, id: nat) {
    exists i :: 0 <= i < |calls| && calls[i].id == id && forall j :: 0 <= j < |calls| && calls[j].id == id ==> j == i
  }

  /** Once no thread is inside a call, each callback is in the table or has been called. */
  lemma QuietPlaces(s: State, id: nat)
    requires Inv(s) && Quiet(s) && id in s.bound
    ensures id in s.place && (s.place[id].Called? || s.place[id].Table?)
    ensures s.place[id].Table? ==>
              s.place[id].key in s.table && s.table[s.place[id].key] == Fn(id) && !WasCalled(s.calls, id)
    ensures s.place[id].Called? ==> WasCalled(s.calls, id) && forall key :: key in s.table ==> s.table[key] != Fn(id)
  {
    var p := s.place[id];
    assert Has(s, p, id);
    if p.Called? {
      forall key | key in s.table
        ensures s.table[key] != Fn(id)
      {
        assert !Has(s, Table(key), id);
      }
    } else {
      assert Has(s, Called, id) ==> false;
    }
  }

  /** Of a list whose ids differ, with one more list whose ids differ from those and from
      each other, every id occurs once. */
  lemma OnceInBoth(s: State, keys: seq<nat>, id: nat)
    requires Inv(s) && Quiet(s) && Order(s.table, keys) && NoneEmpty(s.table) && id in s.bound
    ensures CalledExactlyOnce(s.calls + DestroyCalls(s.table, keys), id)
  {
    hide Inv;
    var rest := DestroyCalls(s.table, keys);
    var all := s.calls + rest;
    QuietPlaces(s, id);
    if s.place[id].Called? {
      OnceBefore(s, keys, id);
    } else {
      hide Order;
      InOrder(s.table, keys);
      var key := s.place[id].key;
      var k :| 0 <= k < |keys| && keys[k] == key;
      var i := |s.calls| + k;
      assert all[i] == rest[k];
      forall j | 0 <= j < |all| && all[j].id == id
        ensures j == i
      {
        if j >= |s.calls| {
          assert all[j] == rest[j - |s.calls|];
          SameId(s, keys[j - |s.calls|], key, id);
        }
      }
    }
  }

  lemma InOrder(table: map<nat, Callback>, keys: seq<nat>)
    requires Order(table, keys)
    ensures (forall i :: 0 <= i < |keys| ==> keys[i] in table) && (forall key :: key in table ==> key in keys)
    ensures forall i, j :: 0 <= i < j < |keys| ==> keys[i] != keys[j]
  {
  }

  lemma OnceBefore(s: State, keys: seq<nat>, id: nat)
    requires Inv(s) && Order(s.table, keys) && NoneEmpty(s.table) && WasCalled(s.calls, id)
    requires forall key :: key in s.table ==> s.table[key] != Fn(id)
    ensures CalledExactlyOnce(s.calls + DestroyCalls(s.table, keys), id)
  {
    hide Inv;
    var rest := DestroyCalls(s.table, keys);
    var i :| 0 <= i < |s.calls| && s.calls[i].id == id;
    assert (s.calls + rest)[i].id == id;
    CallsDiffer(s);
    assert forall j :: 0 <= j < |rest| ==> rest[j].id != id;
  }

  lemma CallsDiffer(s: State)
    requires Inv(s)
    ensures CalledOnce(s)
  {
  }

  lemma SameId(s: State, key: nat, key': nat, id: nat)
    requires Inv(s) && key in s.table && key' in s.table && s.table[key] == Fn(id) == s.table[key']
    ensures key == key'
  {
    assert Has(s, Table(key), id) && Has(s, Table(key'), id);
  }

  /** Every interleaving of calls, and then destruction: if no empty callback is left, and so if
      none was ever bound, each callback that was bound has been called exactly once, with data
      only by a `process` of its key, and with nulls only where something else was bound under
      its key or by the destructor; no others have been called. */
  lemma {:induction false} EachCalledOnce(states: seq<State>, actions: seq<Action>, keys: seq<nat>)
    requires Run(states, actions) && Quiet(states[|actions|]) && Order(states[|actions|].table, keys)
    ensures var s := states[|actions|];
            var e := Destroy(s.table, keys, s.calls);
            && (e.Destroyed? <==> NoneEmpty(s.table))
            && ((forall key :: Bind(key, Empty) !in s.begun) ==> e.Destroyed?)
            && s.calls <= e.calls && Replaced(s)
            && (e.Destroyed? ==>
                  && (forall id :: id in s.bound ==> CalledExactlyOnce(e.calls, id))
                  && (forall i :: 0 <= i < |e.calls| ==>
                        && e.calls[i].id in s.bound
                        && (var a := e.calls[i].args;
                            a.Data? ==>
                              Process(a.session, a.key, a.data) in s.begun && s.bound[e.calls[i].id] == a.key)))
  {
    hide Inv, Destroy, CalledExactlyOnce, Quiet, Next;
    var s := states[|actions|];
    assert Inv(s) && Quiet(s) by { RunsKeep(states, actions); }
    assert Replaced(s) by { RunsReplace(states, actions); }
    DestroyGrows(s.table, keys, s.calls);
    DestroyLaw(s.table, keys, s.calls);
    assert NoneEmpty(s.table) <==> forall k :: 0 <= k < |keys| ==> s.table[keys[k]].Fn?;
    if forall key :: Bind(key, Empty) !in s.begun {
      NoEmptyBound(states, actions);
    }
    if NoneEmpty(s.table) {
      forall id | id in s.bound
        ensures CalledExactlyOnce(s.calls + DestroyCalls(s.table, keys), id)
      {
        OnceInBoth(s, keys, id);
      }
      OnlyBound(s);
    }
  }

  /** Where no empty callback was ever bound, none is left once all calls are over. */
  lemma {:induction false} NoEmptyBound(states: seq<State>, actions: seq<Action>)
    requires Run(states, actions) && Quiet(states[|actions|])
    requires forall key :: Bind(key, Empty) !in states[|actions|].begun
    ensures NoneEmpty(states[|actions|].table)
  {
    hide Next;
    RunsAccounted(states, actions);
  }

  /** Only what was bound is in the table or has been called. */
  lemma OnlyBound(s: State)
    requires Inv(s)
    ensures forall key :: key in s.table && s.table[key].Fn? ==> s.table[key].id in s.bound
    ensures forall i :: 0 <= i < |s.calls| ==> s.calls[i].id in s.bound
    ensures Faithful(s)
  {
    forall i | 0 <= i < |s.calls|
      ensures s.calls[i].id in s.bound
    {
      assert Has(s, Called, s.calls[i].id);
    }
  }

  /** A run that leaves an empty callback behind, at which the destructor ends the program. */
  lemma EmptyCallbackTerminates() returns (states: seq<State>, actions: seq<Action>)
    ensures Run(states, actions) && Quiet(states[|actions|])
    ensures Order(states[|actions|].table, [1]) && Destroy(states[|actions|].table, [1], []) == Terminated([])
  {
    var op := Bind(1, Empty);
    var s0 := State(false, map[], [Idle], map[], {}, [], map[]);
    var s1 := Begin(s0, 0, op);
    var s2 := Acquire(s1, 0);
    var s3 := LookUp(s2, 0);
    var s4 := Change(s3, 0);
    var s5 := Release(s4, 0);
    var s6 := Invoke(s5, 0);
    states := [s0, s1, s2, s3, s4, s5, s6];
    actions := [Start(0, op), Continue(0), Continue(0), Continue(0), Continue(0), Continue(0)];
  }
}
