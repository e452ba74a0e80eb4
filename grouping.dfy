/**
 * Helpers shared by both copies of the store: the bucketing invariant of
 * `groups`, the hand-out of its buckets, and the arena bookkeeping of two
 * consecutive inserts.
 */
module Grouping {
  import opened Partition
  import opened Forest

  /**
   * The buckets of `groups`, handed out one group per bucket
   * (`m.into_iter().map(|s| s.1)`), in the map's iteration order.
   */
  method BucketValues<T>(m: map<nat, seq<T>>, ghost c: map<T, nat>) returns (gs: seq<seq<T>>)
    requires Bucketed(m, c.Keys, c)
    ensures IsPartition(gs, c)
  {
    gs := [];
    var keys := m.Keys;
    ghost var order: seq<nat> := [];
    while keys != {}
      invariant keys <= m.Keys
      invariant Listed(gs, order, m, keys)
      decreases |keys|
    {
      var k :| k in keys;
      ListedStep(gs, order, m, keys, k);
      gs, order := gs + [m[k]], order + [k];
      keys := keys - {k};
    }
    PartitionOfBuckets(gs, order, m, c);
  }

  /**
   * The buckets `m` of `groups` after the elements `done` have been placed:
   * every bucket is non-empty and repeats no element, holds only elements of
   * `done` of its own class, and every element of `done` is in its bucket.
   */
  ghost predicate Bucketed<T>(m: map<nat, seq<T>>, done: set<T>, c: map<T, nat>) {
    && (forall k | k in m :: |m[k]| > 0 && NoDup(m[k]))
    && (forall k, x | k in m && x in m[k] :: x in done && x in c && c[x] == k)
    && (forall x | x in done :: x in c && c[x] in m && x in m[c[x]])
  }

  /**
   * The state of `groups`' loop: the elements `rest` are still to be placed,
   * and the others are bucketed.
   */
  ghost predicate Sweeping<T>(m: map<nat, seq<T>>, rest: set<T>, done: set<T>, c: map<T, nat>) {
    rest <= c.Keys && done == c.Keys - rest && Bucketed(m, done, c)
  }

  /** One iteration of `groups`' loop: `x` leaves `rest` for the bucket of its class. */
  lemma SweepStep<T>(m: map<nat, seq<T>>, rest: set<T>, done: set<T>, c: map<T, nat>, x: T)
    requires Sweeping(m, rest, done, c) && x in rest
    ensures Sweeping(m[c[x] := (if c[x] in m then m[c[x]] else []) + [x]], rest - {x}, done + {x}, c)
  {
    BucketInsert(m, done, c, x);
  }

  /** Placing one more element in the bucket of its class. */
  lemma BucketInsert<T>(m: map<nat, seq<T>>, done: set<T>, c: map<T, nat>, x: T)
    requires Bucketed(m, done, c) && x in c && x !in done
    ensures Bucketed(m[c[x] := (if c[x] in m then m[c[x]] else []) + [x]], done + {x}, c)
  {
    var b := if c[x] in m then m[c[x]] else [];
    var m' := m[c[x] := b + [x]];
    assert x !in b;
    assert NoDup(b + [x]) by {
      forall i, j | 0 <= i < j < |b + [x]| ensures (b + [x])[i] != (b + [x])[j] {
        if j == |b| { assert (b + [x])[i] == b[i]; }
      }
    }
    forall k, y | k in m' && y in m'[k] ensures y in done + {x} && y in c && c[y] == k {
      if k == c[x] && y != x {
        assert y in b;
      }
    }
  }

  /** The first `|gs|` buckets listed, in the order `order`; `keys` are those not yet listed. */
  ghost predicate Listed<T>(gs: seq<seq<T>>, order: seq<nat>, m: map<nat, seq<T>>, keys: set<nat>) {
    && |order| == |gs| && NoDup(order)
    && (forall i | 0 <= i < |order| :: order[i] in m && order[i] !in keys && gs[i] == m[order[i]])
    && (forall k | k in m && k !in keys :: k in order)
  }

  lemma ListedStep<T>(gs: seq<seq<T>>, order: seq<nat>, m: map<nat, seq<T>>, keys: set<nat>, k: nat)
    requires Listed(gs, order, m, keys) && keys <= m.Keys && k in keys
    ensures Listed(gs + [m[k]], order + [k], m, keys - {k})
  {
    var o' := order + [k];
    assert NoDup(o') by {
      forall i, j | 0 <= i < j < |o'| ensures o'[i] != o'[j] {
        if j == |order| { assert o'[i] == order[i]; }
      }
    }
  }

  /** The arena and the index after inserting `e1` and then `e2`. */
  lemma TwoInserts<T>(a0: Arena, i0: map<T, nat>, a1: Arena, i1: map<T, nat>, a2: Arena, i2: map<T, nat>, e1: T, e2: T)
    requires e1 != e2
    requires e1 in i0 ==> a1 == a0 && i1 == i0
    requires e1 !in i0 ==> a1 == a0 + [None] && i1 == i0[e1 := |a0|]
    requires e2 in i1 ==> a2 == a1 && i2 == i1
    requires e2 !in i1 ==> a2 == a1 + [None] && i2 == i1[e2 := |a1|]
    ensures i2.Keys == i0.Keys + {e1, e2}
    ensures forall x | x in i0 :: i2[x] == i0[x]
    ensures e1 !in i0 ==> i2[e1] == |a0|
    ensures e2 !in i0 ==> i2[e2] == |a0| + (if e1 in i0 then 0 else 1)
    ensures a2 == a0 + (if e1 in i0 then [] else [None]) + (if e2 in i0 then [] else [None])
  {
  }

  /** Buckets listed once each, every element in the bucket of its class, form the partition. */
  lemma PartitionOfBuckets<T>(gs: seq<seq<T>>, order: seq<nat>, m: map<nat, seq<T>>, c: map<T, nat>)
    requires Listed(gs, order, m, {}) && Bucketed(m, c.Keys, c)
    ensures IsPartition(gs, c)
  {
    assert Covers(gs, c) by {
      forall x | x in c
        ensures exists i :: 0 <= i < |gs| && x in gs[i]
      {
        var i :| 0 <= i < |order| && order[i] == c[x];
        assert x in gs[i];
      }
    }
    assert GroupedByLabel(gs, c) by {
      forall i, j, x, y | 0 <= i < |gs| && 0 <= j < |gs| && x in gs[i] && y in gs[j] && x in c && y in c
        ensures (i == j) <==> (c[x] == c[y])
      {
        assert c[x] == order[i] && c[y] == order[j];
      }
    }
  }
}
