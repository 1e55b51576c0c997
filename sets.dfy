/** Choosing extreme elements of finite sets, and the descending orderings the listing queries ask for. */
module Sets {

  /** A finite non-empty set has an element on which `f` is largest. */
  lemma {:induction false} ArgMaxExists<T>(s: set<T>, f: T -> int)
    requires s != {}
    ensures exists x | x in s :: forall y | y in s :: f(y) <= f(x)
    decreases |s|
  {
    var x :| x in s;
    if s != {x} {
      var rest := s - {x};
      ArgMaxExists(rest, f);
      var m :| m in rest && forall y | y in rest :: f(y) <= f(m);
      if f(x) <= f(m) {
        assert forall y | y in s :: f(y) <= f(m);
      } else {
        assert forall y | y in s :: f(y) <= f(x);
      }
    }
  }

  /**
   * `order_by("-f")` over a set of keys: every key once, with `f` non-increasing along
   * the sequence (keys with equal `f` come in an order the database chooses).
   */
  method OrderByDescending(keys: set<nat>, f: nat -> int) returns (ids: seq<nat>)
    ensures forall i | 0 <= i < |ids| :: ids[i] in keys
    ensures forall k | k in keys :: k in ids
    ensures forall i, j | 0 <= i < j < |ids| :: ids[i] != ids[j] && f(ids[i]) >= f(ids[j])
  {
    var remaining := keys;
    ids := [];
    while remaining != {}
      invariant remaining <= keys
      invariant forall i | 0 <= i < |ids| :: ids[i] in keys && ids[i] !in remaining
      invariant forall k | k in keys && k !in remaining :: k in ids
      invariant forall i, j | 0 <= i < j < |ids| :: ids[i] != ids[j] && f(ids[i]) >= f(ids[j])
      invariant forall i, k | 0 <= i < |ids| && k in remaining :: f(ids[i]) >= f(k)
      decreases |remaining|
    {
      ArgMaxExists(remaining, f);
      var next :| next in remaining && forall other | other in remaining :: f(other) <= f(next);
      ghost var left := remaining;
      assert forall i | 0 <= i < |ids| :: ids[i] != next && f(ids[i]) >= f(next);
      ids := ids + [next];
      remaining := remaining - {next};
      assert forall k | k in remaining :: k in left && f(k) <= f(next);
    }
  }
}
