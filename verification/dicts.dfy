/**
 * Python's dictionary update by successive `d[k] = v` statements, the way both
 * scripts build their maps: a loop over items, each of which may or may not
 * produce an assignment, where a later assignment to a key overwrites an earlier one.
 */
module Dicts {
  import opened Wrappers

  /** Item `i` of `xs` assigns key `k`. */
  ghost predicate AssignsAt<X, K, V>(xs: seq<X>, f: X -> Option<(K, V)>, i: int, k: K) {
    0 <= i < |xs| && f(xs[i]).Some? && f(xs[i]).value.0 == k
  }

  /** Some item of `xs` assigns key `k`. */
  ghost predicate Assigns<X, K, V>(xs: seq<X>, f: X -> Option<(K, V)>, k: K) {
    exists i :: AssignsAt(xs, f, i, k)
  }

  /** Item `i` of `xs` is the last one that assigns key `k`. */
  ghost predicate LastAssignsAt<X, K, V>(xs: seq<X>, f: X -> Option<(K, V)>, i: int, k: K) {
    AssignsAt(xs, f, i, k) && forall j :: i < j < |xs| ==> !AssignsAt(xs, f, j, k)
  }

  /** The map after running `for x in xs: if f(x) is (k, v): m[k] = v`. */
  function Assign<X, K(==,!new), V>(m: map<K, V>, xs: seq<X>, f: X -> Option<(K, V)>): (r: map<K, V>)
    ensures forall k :: k in r <==> k in m || Assigns(xs, f, k)
    ensures forall k :: k in m && !Assigns(xs, f, k) ==> r[k] == m[k]
    ensures forall i, k :: LastAssignsAt(xs, f, i, k) ==> k in r && r[k] == f(xs[i]).value.1
    decreases |xs|
  {
    if |xs| == 0 then m
    else
      var n := |xs| - 1;
      var prefix := xs[..n];
      var r := Assign(m, prefix, f);
      AssignsPrefix(xs, f);
      match f(xs[n])
      case None => r
      case Some(kv) => r[kv.0 := kv.1]
  }

  /** How the assignments of `xs` relate to those of `xs` without its last item. */
  lemma AssignsPrefix<X, K, V>(xs: seq<X>, f: X -> Option<(K, V)>)
    requires |xs| > 0
    ensures forall i, k :: 0 <= i < |xs| - 1 ==> (AssignsAt(xs[..|xs| - 1], f, i, k) <==> AssignsAt(xs, f, i, k))
    ensures forall k :: Assigns(xs, f, k) <==> Assigns(xs[..|xs| - 1], f, k) || AssignsAt(xs, f, |xs| - 1, k)
    ensures forall i, k :: LastAssignsAt(xs, f, i, k) && i < |xs| - 1 ==> LastAssignsAt(xs[..|xs| - 1], f, i, k)
    ensures forall i, k :: LastAssignsAt(xs, f, i, k) && i < |xs| - 1 ==> !AssignsAt(xs, f, |xs| - 1, k)
  {
    var p := xs[..|xs| - 1];
    forall k | Assigns(xs, f, k) ensures Assigns(p, f, k) || AssignsAt(xs, f, |xs| - 1, k) {
      var i :| AssignsAt(xs, f, i, k);
      if i < |xs| - 1 {
        assert AssignsAt(p, f, i, k);
      }
    }
    forall k | Assigns(p, f, k) ensures Assigns(xs, f, k) {
      var i :| AssignsAt(p, f, i, k);
      assert AssignsAt(xs, f, i, k);
    }
    forall i, k | LastAssignsAt(xs, f, i, k) && i < |xs| - 1 ensures LastAssignsAt(p, f, i, k) {
      forall j | i < j < |p| ensures !AssignsAt(p, f, j, k) {
        assert !AssignsAt(xs, f, j, k);
      }
    }
  }

  /** Two maps updated by the same items agree on every key the items assign. */
  lemma AssignAgrees<X, K(!new), V>(m1: map<K, V>, m2: map<K, V>, xs: seq<X>, f: X -> Option<(K, V)>, k: K)
    requires Assigns(xs, f, k)
    ensures k in Assign(m1, xs, f) && k in Assign(m2, xs, f)
    ensures Assign(m1, xs, f)[k] == Assign(m2, xs, f)[k]
  {
    var i :| AssignsAt(xs, f, i, k);
    var last := LastIndex(xs, f, i, k);
  }

  /** Whenever an item assigns `k`, some item (at or after it) is the last one to. */
  lemma {:induction false} LastIndex<X, K, V>(xs: seq<X>, f: X -> Option<(K, V)>, i: int, k: K) returns (last: int)
    requires AssignsAt(xs, f, i, k)
    ensures i <= last && LastAssignsAt(xs, f, last, k)
    decreases |xs| - i
  {
    if exists j :: i < j < |xs| && AssignsAt(xs, f, j, k) {
      var j :| i < j < |xs| && AssignsAt(xs, f, j, k);
      last := LastIndex(xs, f, j, k);
    } else {
      last := i;
    }
  }
}
