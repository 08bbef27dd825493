/** The spin lock that threads share. Of the threads only this is known here: which of them
    are inside the lock. */
module SpinLock {
  /** At most one thread is inside the lock, and the flag is set exactly then. */
  predicate Exclusive(flag: bool, inside: seq<bool>) {
    && (forall t, u :: 0 <= t < |inside| && 0 <= u < |inside| && inside[t] && inside[u] ==> t == u)
    && (flag <==> exists t :: 0 <= t < |inside| && inside[t])
  }

  /** `lock`, once its `test_and_set` finds the flag clear, and `tryLock` likewise. */
  lemma Taken(inside: seq<bool>, t: nat)
    requires Exclusive(false, inside) && t < |inside|
    ensures Exclusive(true, inside[t := true])
  {
    var inside' := inside[t := true];
    assert inside'[t];
  }

  /** `unlock` by the thread that is inside. */
  lemma Given(flag: bool, inside: seq<bool>, t: nat)
    requires Exclusive(flag, inside) && t < |inside| && inside[t]
    ensures Exclusive(false, inside[t := false])
  {
  }

  /** The flag stays set for a thread that spins, since another one is inside. */
  lemma Alone(flag: bool, inside: seq<bool>, t: nat)
    requires Exclusive(flag, inside) && t < |inside| && inside[t]
    ensures flag && forall u :: 0 <= u < |inside| && u != t ==> !inside[u]
  {
  }

  lemma Nobody(inside: seq<bool>)
    requires forall t :: 0 <= t < |inside| ==> !inside[t]
    ensures Exclusive(false, inside)
  {
  }
}
