/**
 An inner join reduced to its keys: which position of the left key column
 is paired with which position of the right one. Two null keys are equal,
 as pandas merge matches null keys with each other.
 */
module Join {
  import opened Tables

  /** The positions below n at which k occurs in keys, increasing. */
  function PositionsBelow<K(==)>(keys: seq<K>, k: K, n: nat): (ps: seq<nat>)
    requires n <= |keys|
    ensures forall p: nat :: p in ps <==> p < n && keys[p] == k
    ensures Increasing(ps)
    decreases n
  {
    if n == 0 then []
    else
      var before := PositionsBelow(keys, k, n - 1);
      assert forall a :: 0 <= a < |before| ==> before[a] in before;
      if keys[n - 1] == k then before + [n - 1] else before
  }

  /** The positions at which k occurs in keys, increasing. */
  function Positions<K(==)>(keys: seq<K>, k: K): (ps: seq<nat>)
    ensures forall p: nat :: p in ps <==> p < |keys| && keys[p] == k
    ensures Increasing(ps)
  {
    PositionsBelow(keys, k, |keys|)
  }

  /** Among unique keys a key occurs below n once if at all. */
  lemma {:induction false} UniquePositionsBelow<K>(keys: seq<K>, k: K, n: nat)
    requires Unique(keys) && n <= |keys|
    ensures |PositionsBelow(keys, k, n)| == (if k in keys[..n] then 1 else 0)
    decreases n
  {
    if n > 0 {
      UniquePositionsBelow(keys, k, n - 1);
      assert keys[..n] == keys[..n - 1] + [keys[n - 1]];
      if keys[n - 1] == k {
        var init := keys[..n - 1];
        assert forall p :: 0 <= p < |init| ==> init[p] != keys[n - 1];
      }
    }
  }

  /** Among unique keys a key occurs once if at all. */
  lemma UniquePositions<K>(keys: seq<K>, k: K)
    requires Unique(keys)
    ensures |Positions(keys, k)| == (if k in keys then 1 else 0)
  {
    UniquePositionsBelow(keys, k, |keys|);
    assert keys[..|keys|] == keys;
  }

  /** A row of the join: a left position and a right position with equal keys. */
  datatype Pair = Pair(left: nat, right: nat)

  /** The pairs (l, j) for every l in ls, in order. */
  function PairsWith(ls: seq<nat>, j: nat): (ps: seq<Pair>)
    ensures |ps| == |ls|
    ensures forall a :: 0 <= a < |ls| ==> ps[a] == Pair(ls[a], j)
  {
    seq(|ls|, a requires 0 <= a < |ls| => Pair(ls[a], j))
  }

  /** p comes strictly before q, ordering by right position and then by left position. */
  predicate Before(p: Pair, q: Pair)
  {
    p.right < q.right || (p.right == q.right && p.left < q.left)
  }

  /** Strictly ordered pairs; in particular no pair occurs twice. */
  predicate Ordered(ps: seq<Pair>)
  {
    forall a, b :: 0 <= a < b < |ps| ==> Before(ps[a], ps[b])
  }

  /** The pairs with right position j, for the left positions ls. */
  lemma PairsWithMembers(ls: seq<nat>, j: nat)
    requires Increasing(ls)
    ensures forall p: Pair :: p in PairsWith(ls, j) <==> p.right == j && p.left in ls
    ensures Ordered(PairsWith(ls, j))
  {
    var here := PairsWith(ls, j);
    forall p: Pair | p in here ensures p.right == j && p.left in ls {
      var a :| 0 <= a < |here| && here[a] == p;
    }
    forall p: Pair | p.right == j && p.left in ls ensures p in here {
      var a :| 0 <= a < |ls| && ls[a] == p.left;
      assert here[a] == p;
    }
  }

  /** The join restricted to right positions below n. */
  function JoinBelow<K(==)>(left: seq<K>, right: seq<K>, n: nat): (ps: seq<Pair>)
    requires n <= |right|
    ensures forall p :: p in ps <==> p.left < |left| && p.right < n && left[p.left] == right[p.right]
    ensures Ordered(ps)
    ensures forall a :: 0 <= a < |ps| ==> ps[a].right < n
    decreases n
  {
    if n == 0 then []
    else
      var before := JoinBelow(left, right, n - 1);
      var here := PairsWith(Positions(left, right[n - 1]), n - 1);
      PairsWithMembers(Positions(left, right[n - 1]), n - 1);
      assert forall a :: 0 <= a < |here| ==> here[a] in here;
      before + here
  }

  /**
   The inner join of two key columns: exactly the pairs of positions whose
   keys are equal, each once, grouped by right position.
   */
  function InnerJoin<K(==)>(left: seq<K>, right: seq<K>): (ps: seq<Pair>)
    ensures forall p :: p in ps <==> p.left < |left| && p.right < |right| && left[p.left] == right[p.right]
    ensures Ordered(ps)
  {
    JoinBelow(left, right, |right|)
  }

  /** With unique left keys no two rows of the join share a right position. */
  lemma RightAtMostOnce<K>(left: seq<K>, right: seq<K>)
    requires Unique(left)
    ensures var ps := InnerJoin(left, right);
      forall a, b :: 0 <= a < b < |ps| ==> ps[a].right != ps[b].right
  {
    var ps := InnerJoin(left, right);
    forall a, b | 0 <= a < b < |ps| ensures ps[a].right != ps[b].right {
      assert ps[a] in ps && ps[b] in ps;
    }
  }

  /** How many of the right keys below n occur among the left keys. */
  function MatchedBelow<K(==)>(left: seq<K>, right: seq<K>, n: nat): (c: nat)
    requires n <= |right|
    ensures c <= n
    decreases n
  {
    if n == 0 then 0
    else MatchedBelow(left, right, n - 1) + (if right[n - 1] in left then 1 else 0)
  }

  /** How many right keys occur among the left keys. */
  function MatchedCount<K(==)>(left: seq<K>, right: seq<K>): (c: nat)
    ensures c <= |right|
  {
    MatchedBelow(left, right, |right|)
  }

  /** The count reaches n exactly when every right key below n is matched. */
  lemma {:induction false} MatchedBelowFull<K>(left: seq<K>, right: seq<K>, n: nat)
    requires n <= |right|
    ensures MatchedBelow(left, right, n) == n <==> forall j :: 0 <= j < n ==> right[j] in left
    decreases n
  {
    if n > 0 {
      MatchedBelowFull(left, right, n - 1);
    }
  }

  /** Every right key is matched exactly when the count reaches the number of right keys. */
  lemma MatchedCountFull<K>(left: seq<K>, right: seq<K>)
    ensures MatchedCount(left, right) == |right| <==> forall j :: 0 <= j < |right| ==> right[j] in left
  {
    MatchedBelowFull(left, right, |right|);
  }

  /** With unique left keys the join below n has one row per matched right key below n. */
  lemma {:induction false} JoinBelowSize<K>(left: seq<K>, right: seq<K>, n: nat)
    requires Unique(left) && n <= |right|
    ensures |JoinBelow(left, right, n)| == MatchedBelow(left, right, n)
    decreases n
  {
    if n > 0 {
      JoinBelowSize(left, right, n - 1);
      UniquePositions(left, right[n - 1]);
    }
  }

  /** With unique left keys the join has one row per matched right key. */
  lemma JoinSize<K>(left: seq<K>, right: seq<K>)
    requires Unique(left)
    ensures |InnerJoin(left, right)| == MatchedCount(left, right)
  {
    JoinBelowSize(left, right, |right|);
  }
}
