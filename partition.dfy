/**
 * A reference model of a partition that does not mention slots or parent
 * pointers: every element carries a label, the element that currently stands
 * for its class.  The union-find store is proved to track this model exactly,
 * and the clients of the store are specified with it.
 */
module Partition {

  /** No element occurs twice in `s`. */
  ghost predicate NoDup<T>(s: seq<T>) {
    forall i, j | 0 <= i < j < |s| :: s[i] != s[j]
  }

  /** `e` joins the partition as a class of its own unless it is already there. */
  function AddElem<T>(lab: map<T, T>, e: T): (r: map<T, T>)
    ensures r.Keys == lab.Keys + {e}
    ensures forall x | x in lab :: r[x] == lab[x]
    ensures e !in lab ==> r[e] == e
  {
    if e in lab then lab else lab[e := e]
  }

  /** Every element labelled `from` is relabelled `to`; no other label changes. */
  function Merge<T>(lab: map<T, T>, from: T, to: T): map<T, T> {
    map x | x in lab :: if lab[x] == from then to else lab[x]
  }

  /** The class of `b` is merged into the class of `a`, which keeps its label. */
  function Join<T>(lab: map<T, T>, a: T, b: T): map<T, T>
    requires a in lab && b in lab
  {
    Merge(lab, lab[b], lab[a])
  }

  /**
   * Joining two elements merges exactly their two classes: afterwards two
   * elements share a label iff they did before, or each was in one of the two
   * merged classes.
   */
  lemma JoinMergesExactly<T>(lab: map<T, T>, a: T, b: T)
    requires a in lab && b in lab
    ensures Join(lab, a, b).Keys == lab.Keys
    ensures Join(lab, a, b)[a] == Join(lab, a, b)[b] == lab[a]
    ensures forall x, y | x in lab && y in lab ::
      (Join(lab, a, b)[x] == Join(lab, a, b)[y]) <==>
      (lab[x] == lab[y] || (lab[x] in {lab[a], lab[b]} && lab[y] in {lab[a], lab[b]}))
  {
  }

  /**
   * Joining preserves every equality of labels, so classes only ever grow:
   * after `Join(a, b)` and then `Join(b, c)`, `a` and `c` share a label.
   */
  lemma JoinTransitive<T>(lab: map<T, T>, a: T, b: T, c: T)
    requires a in lab && b in lab && c in lab
    ensures var l := Join(Join(lab, a, b), b, c); l[a] == l[c]
  {
    JoinMergesExactly(lab, a, b);
    JoinMergesExactly(Join(lab, a, b), b, c);
  }

  /** Every key of `lab` is in some group. */
  ghost predicate Covers<T, K>(gs: seq<seq<T>>, lab: map<T, K>) {
    forall x | x in lab :: exists i :: 0 <= i < |gs| && x in gs[i]
  }

  /** Two elements of the groups are in the same group exactly when they share a label. */
  ghost predicate GroupedByLabel<T, K>(gs: seq<seq<T>>, lab: map<T, K>) {
    forall i, j, x, y | 0 <= i < |gs| && 0 <= j < |gs| && x in gs[i] && y in gs[j] && x in lab && y in lab ::
      (i == j) <==> (lab[x] == lab[y])
  }

  /**
   * `gs` is the partition of the keys of `lab` by label: no group is empty or
   * repeats an element, every group element is a key and every key is in some
   * group, and two elements are in the same group exactly when they carry the
   * same label.  In particular no element is in two groups.
   */
  ghost predicate IsPartition<T, K>(gs: seq<seq<T>>, lab: map<T, K>) {
    && (forall i | 0 <= i < |gs| :: |gs[i]| > 0 && NoDup(gs[i]))
    && (forall i, x | 0 <= i < |gs| && x in gs[i] :: x in lab)
    && Covers(gs, lab)
    && GroupedByLabel(gs, lab)
  }

  /** Two labellings with the same keys and the same classes have the same partitions. */
  lemma PartitionTransfer<T, K1, K2>(gs: seq<seq<T>>, l1: map<T, K1>, l2: map<T, K2>)
    requires IsPartition(gs, l1)
    requires l1.Keys == l2.Keys
    requires forall x, y | x in l1 && y in l1 :: (l1[x] == l1[y]) <==> (l2[x] == l2[y])
    ensures IsPartition(gs, l2)
  {
    assert Covers(gs, l2) by {
      forall x | x in l2
        ensures exists i :: 0 <= i < |gs| && x in gs[i]
      {
        assert x in l1;
      }
    }
    assert GroupedByLabel(gs, l2) by {
      forall i, j, x, y | 0 <= i < |gs| && 0 <= j < |gs| && x in gs[i] && y in gs[j]
        ensures (i == j) <==> (l2[x] == l2[y])
      {
        assert x in l1 && y in l1;
      }
    }
  }

  /** Two elements of a partition share a group exactly when they share a label. */
  lemma SameGroupSameLabel<T, K>(gs: seq<seq<T>>, lab: map<T, K>, i: nat, j: nat, x: T, y: T)
    requires IsPartition(gs, lab) && i < |gs| && j < |gs| && x in gs[i] && y in gs[j]
    ensures x in lab && y in lab
    ensures (i == j) <==> (lab[x] == lab[y])
  {
  }

  /** In a partition, a group holds exactly the elements labelled like its first one. */
  lemma GroupIsClass<T, K>(gs: seq<seq<T>>, lab: map<T, K>, i: nat)
    requires IsPartition(gs, lab) && i < |gs|
    ensures gs[i][0] in lab
    ensures forall x :: x in gs[i] <==> x in lab && lab[x] == lab[gs[i][0]]
  {
    forall x | x in lab && lab[x] == lab[gs[i][0]]
      ensures x in gs[i]
    {
      var j :| 0 <= j < |gs| && x in gs[j];
    }
  }

  /** A sequence without repetitions has the multiset of the set it enumerates. */
  lemma {:induction false} NoDupMultiset<T>(g: seq<T>, s: set<T>)
    requires NoDup(g)
    requires forall x :: x in g <==> x in s
    ensures multiset(g) == multiset(s)
  {
    if g == [] {
      assert forall x :: x !in s;
    } else {
      var t, h := g[1..], g[0];
      var s' := s - {h};
      assert NoDup(t) by {
        forall i, j | 0 <= i < j < |t| ensures t[i] != t[j] { assert t[i] == g[i + 1] && t[j] == g[j + 1]; }
      }
      assert forall x :: x in t <==> x in s' by {
        forall x ensures x in t <==> x in s' {
          if x in t {
            var k :| 0 <= k < |t| && t[k] == x;
            assert g[k + 1] == x;
          }
          if x in s' {
            assert x in g && x != h;
          }
        }
      }
      NoDupMultiset(t, s');
      assert multiset(g) == multiset{h} + multiset(t) by { assert g == [h] + t; }
      assert h in s;
      assert s == s' + {h};
    }
  }
}
