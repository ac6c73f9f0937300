/** Cluster chains over the allocation table as an array: what is reachable from a cluster, on any
    table, cyclic or not. */
module Fat32Chain {
  import opened Bits
  import opened Fat32Table

  predicate Live(fat: seq<nat>, c: nat) {
    2 <= c < |fat|
  }

  /** The cluster after k links; a number that is no cluster ends the walk and stays. */
  function Nth(fat: seq<nat>, c: nat, k: nat): nat {
    if k == 0 then c
    else
      var p := Nth(fat, c, k - 1);
      if Live(fat, p) then Link(fat[p]) else p
  }

  ghost predicate Reachable(fat: seq<nat>, c: nat, x: nat) {
    Live(fat, x) && exists k: nat :: Nth(fat, c, k) == x
  }

  /** The table with exactly the clusters reachable from c marked free. */
  ghost function Freed(fat: seq<nat>, c: nat): (r: seq<nat>)
    ensures |r| == |fat|
  {
    seq(|fat|, x requires 0 <= x < |fat| => if Reachable(fat, c, x) then WithLink(fat[x], CLUSTER_FREE) else fat[x])
  }

  /** `trail` lists the first clusters of the walk from c. */
  ghost predicate IsTrail(fat: seq<nat>, c: nat, trail: seq<nat>) {
    forall k :: 0 <= k < |trail| ==> trail[k] == Nth(fat, c, k) && Live(fat, trail[k])
  }

  /** A walk that has left the table stays where it is. */
  lemma {:induction false} Stays(fat: seq<nat>, c: nat, n: nat, m: nat)
    requires !Live(fat, Nth(fat, c, n)) && n <= m
    ensures Nth(fat, c, m) == Nth(fat, c, n)
  {
    if n < m {
      Stays(fat, c, n, m - 1);
    }
  }

  /** A walk that comes back to its trail never leaves it. */
  lemma {:induction false} Returns(fat: seq<nat>, c: nat, trail: seq<nat>, m: nat)
    requires IsTrail(fat, c, trail) && Nth(fat, c, |trail|) in trail
    ensures Nth(fat, c, m) in trail
  {
    if m >= |trail| && m > 0 {
      Returns(fat, c, trail, m - 1);
      var k :| 0 <= k < |trail| && trail[k] == Nth(fat, c, m - 1);
      assert Nth(fat, c, m) == Nth(fat, c, k + 1);
      if k + 1 < |trail| {
        assert trail[k + 1] == Nth(fat, c, k + 1);
      }
    } else if m < |trail| {
      assert trail[m] == Nth(fat, c, m);
    }
  }

  /** Once the walk has left the table or returned to its trail, the trail is all there is. */
  lemma TrailIsAll(fat: seq<nat>, c: nat, trail: seq<nat>, x: nat)
    requires IsTrail(fat, c, trail)
    requires !Live(fat, Nth(fat, c, |trail|)) || Nth(fat, c, |trail|) in trail
    ensures Reachable(fat, c, x) <==> x in trail
  {
    if Reachable(fat, c, x) {
      var k: nat :| Nth(fat, c, k) == x;
      if k < |trail| {
        assert trail[k] == x;
      } else if Nth(fat, c, |trail|) in trail {
        Returns(fat, c, trail, k);
      } else {
        Stays(fat, c, |trail|, k);
        assert false;
      }
    }
  }

  /** Freeing a cluster that was just allocated gives the table back. */
  lemma FreeUndoesAlloc(fat: seq<nat>, c: nat)
    requires Live(fat, c) && Link(fat[c]) == CLUSTER_FREE && |fat| <= CLUSTER_EOF_MIN
    ensures Freed(fat[c := WithLink(fat[c], CLUSTER_EOF_MIN)], c) == fat
  {
    var marked: seq<nat> := fat[c := WithLink(fat[c], CLUSTER_EOF_MIN)];
    DivUnique(marked[c], TWO28, fat[c] / TWO28, CLUSTER_EOF_MIN);
    assert Nth(marked, c, 0) == c;
    assert Nth(marked, c, 1) == CLUSTER_EOF_MIN;
    forall x | 0 <= x < |fat|
      ensures Freed(marked, c)[x] == fat[x]
    {
      TrailIsAll(marked, c, [c], x);
    }
  }
}
