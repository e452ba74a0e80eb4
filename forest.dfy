/**
 * The parent-pointer arena shared by both copies of the disjoint-set store.
 *
 * `alloc[i] == None` says that slot `i` is a root; `alloc[i] == Some(p)` says
 * that its parent is slot `p`.  The arena carries no depth or rank of its own;
 * the proofs use a ghost `rank` that strictly decreases from child to parent,
 * which makes the parent walk terminate.  The store also maps each element to
 * its slot (`index`, the field the Rust code calls `map`), and a ghost `owner`
 * records which element each slot was allocated for.
 */
module Forest {
  import opened Partition

  datatype Option<T> = None | Some(value: T)

  /** A representative: the slot that was a root when it was computed. */
  datatype RootRep = RootRep(addr: nat)

  type Arena = seq<Option<nat>>

  /** Every parent pointer is in bounds and has a smaller rank than its child. */
  ghost predicate Ranked(alloc: Arena, rank: seq<nat>) {
    && |rank| == |alloc|
    && forall i | 0 <= i < |alloc| && alloc[i].Some? ::
         alloc[i].value < |alloc| && rank[alloc[i].value] < rank[i]
  }

  predicate IsRoot(alloc: Arena, i: nat) {
    i < |alloc| && alloc[i].None?
  }

  /** The slot at which the parent walk from `i` stops; it is always a root. */
  ghost function Root(alloc: Arena, rank: seq<nat>, i: nat): (r: nat)
    requires Ranked(alloc, rank) && i < |alloc|
    ensures IsRoot(alloc, r)
    decreases rank[i]
  {
    match alloc[i]
    case None => i
    case Some(p) => Root(alloc, rank, p)
  }

  /** Appending a root slot keeps the ranking. */
  lemma AppendRanked(alloc: Arena, rank: seq<nat>)
    requires Ranked(alloc, rank)
    ensures Ranked(alloc + [None], rank + [0])
  {
    var a', r' := alloc + [None], rank + [0];
    assert forall i | 0 <= i < |alloc| :: a'[i] == alloc[i] && r'[i] == rank[i];
  }

  /** Appending a root slot moves no existing walk. */
  lemma {:induction false} AppendRoot(alloc: Arena, rank: seq<nat>, i: nat)
    requires Ranked(alloc, rank) && i < |alloc|
    ensures Ranked(alloc + [None], rank + [0])
    ensures Root(alloc + [None], rank + [0], i) == Root(alloc, rank, i)
    decreases rank[i]
  {
    AppendRanked(alloc, rank);
    var a', r' := alloc + [None], rank + [0];
    assert a'[i] == alloc[i];
    match alloc[i]
    case None =>
    case Some(p) => AppendRoot(alloc, rank, p);
  }

  /**
   * The ranking after slot `r2` is linked below `r1`: the whole tree of `r2`
   * is lifted above `r1`.
   */
  ghost function Relinked(alloc: Arena, rank: seq<nat>, r1: nat, r2: nat): (rank': seq<nat>)
    requires Ranked(alloc, rank) && IsRoot(alloc, r1) && IsRoot(alloc, r2)
    ensures |rank'| == |rank|
  {
    seq(|alloc|, j requires 0 <= j < |alloc| =>
      if Root(alloc, rank, j) == r2 then rank[j] + rank[r1] + 1 else rank[j])
  }

  /** A child lies in the same tree as its parent. */
  lemma RootOfChild(alloc: Arena, rank: seq<nat>, i: nat)
    requires Ranked(alloc, rank) && i < |alloc| && alloc[i].Some?
    ensures Root(alloc, rank, i) == Root(alloc, rank, alloc[i].value)
  {
  }

  /** Linking one root below another, distinct root keeps the arena acyclic. */
  lemma LinkRanked(alloc: Arena, rank: seq<nat>, r1: nat, r2: nat)
    requires Ranked(alloc, rank) && IsRoot(alloc, r1) && IsRoot(alloc, r2) && r1 != r2
    ensures Ranked(alloc[r2 := Some(r1)], Relinked(alloc, rank, r1, r2))
  {
    var a', rank' := alloc[r2 := Some(r1)], Relinked(alloc, rank, r1, r2);
    forall i | 0 <= i < |a'| && a'[i].Some?
      ensures a'[i].value < |a'| && rank'[a'[i].value] < rank'[i]
    {
      if i != r2 {
        RootOfChild(alloc, rank, i);
      }
    }
  }

  /**
   * After linking `r2` below `r1`, every walk that ended at `r2` ends at `r1`
   * and every other walk ends where it did.
   */
  lemma {:induction false} LinkRoot(alloc: Arena, rank: seq<nat>, r1: nat, r2: nat, j: nat)
    requires Ranked(alloc, rank) && IsRoot(alloc, r1) && IsRoot(alloc, r2) && r1 != r2
    requires j < |alloc|
    ensures Ranked(alloc[r2 := Some(r1)], Relinked(alloc, rank, r1, r2))
    ensures Root(alloc[r2 := Some(r1)], Relinked(alloc, rank, r1, r2), j)
         == if Root(alloc, rank, j) == r2 then r1 else Root(alloc, rank, j)
    decreases rank[j]
  {
    LinkRanked(alloc, rank, r1, r2);
    var a', rank' := alloc[r2 := Some(r1)], Relinked(alloc, rank, r1, r2);
    if j == r2 {
      assert a'[j] == Some(r1) && a'[r1] == None;
    } else {
      assert a'[j] == alloc[j];
      match alloc[j]
      case None =>
      case Some(p) => LinkRoot(alloc, rank, r1, r2, p);
    }
  }

  /** The linked arena is exactly one slot different: `r2` points at `r1`. */
  lemma LinkAllRoots(alloc: Arena, rank: seq<nat>, r1: nat, r2: nat)
    requires Ranked(alloc, rank) && IsRoot(alloc, r1) && IsRoot(alloc, r2) && r1 != r2
    ensures Ranked(alloc[r2 := Some(r1)], Relinked(alloc, rank, r1, r2))
    ensures forall j | 0 <= j < |alloc| ::
      Root(alloc[r2 := Some(r1)], Relinked(alloc, rank, r1, r2), j)
        == if Root(alloc, rank, j) == r2 then r1 else Root(alloc, rank, j)
  {
    LinkRanked(alloc, rank, r1, r2);
    forall j | 0 <= j < |alloc|
      ensures Root(alloc[r2 := Some(r1)], Relinked(alloc, rank, r1, r2), j)
        == if Root(alloc, rank, j) == r2 then r1 else Root(alloc, rank, j)
    {
      LinkRoot(alloc, rank, r1, r2, j);
    }
  }

  /**
   * The store's invariant: the arena is ranked, every element maps to a slot
   * in bounds, and `owner` inverts `index`, so distinct elements have distinct
   * slots and every slot belongs to exactly one element.
   */
  ghost predicate WellFormed<T>(alloc: Arena, index: map<T, nat>, rank: seq<nat>, owner: seq<T>) {
    && Ranked(alloc, rank)
    && |owner| == |alloc|
    && (forall x | x in index :: index[x] < |alloc| && owner[index[x]] == x)
    && (forall i | 0 <= i < |alloc| :: owner[i] in index && index[owner[i]] == i)
  }

  /** Each element's class, named by the root its parent walk reaches. */
  ghost function ClassesOf<T>(alloc: Arena, index: map<T, nat>, rank: seq<nat>, owner: seq<T>): (c: map<T, nat>)
    requires WellFormed(alloc, index, rank, owner)
    ensures c.Keys == index.Keys
  {
    map x | x in index :: Root(alloc, rank, index[x])
  }

  /** Each element's class, named by the element that owns its root slot. */
  ghost function LabelsOf<T>(alloc: Arena, index: map<T, nat>, rank: seq<nat>, owner: seq<T>): (l: map<T, T>)
    requires WellFormed(alloc, index, rank, owner)
    ensures l.Keys == index.Keys
  {
    map x | x in index :: owner[Root(alloc, rank, index[x])]
  }

  /**
   * Labels and roots name the same classes, the label of a root's owner is
   * that owner itself, and a label of an element is the owner of its root.
   */
  lemma LabelsMatchClasses<T>(alloc: Arena, index: map<T, nat>, rank: seq<nat>, owner: seq<T>)
    requires WellFormed(alloc, index, rank, owner)
    ensures forall x, y | x in index && y in index ::
      (LabelsOf(alloc, index, rank, owner)[x] == LabelsOf(alloc, index, rank, owner)[y])
        <==> (ClassesOf(alloc, index, rank, owner)[x] == ClassesOf(alloc, index, rank, owner)[y])
    ensures forall i: nat | IsRoot(alloc, i) :: owner[i] in index && LabelsOf(alloc, index, rank, owner)[owner[i]] == owner[i]
  {
    forall i: nat | IsRoot(alloc, i)
      ensures owner[i] in index && LabelsOf(alloc, index, rank, owner)[owner[i]] == owner[i]
    {
      assert index[owner[i]] == i && Root(alloc, rank, i) == i;
    }
  }

  /**
   * Two elements' labels are the owners of the roots their walks reach, and
   * they are equal exactly when those roots are the same slot.
   */
  lemma LabelsOfRoots<T>(alloc: Arena, index: map<T, nat>, rank: seq<nat>, owner: seq<T>, x: T, y: T)
    requires WellFormed(alloc, index, rank, owner) && x in index && y in index
    ensures LabelsOf(alloc, index, rank, owner)[x] == owner[Root(alloc, rank, index[x])]
    ensures LabelsOf(alloc, index, rank, owner)[y] == owner[Root(alloc, rank, index[y])]
    ensures (Root(alloc, rank, index[x]) == Root(alloc, rank, index[y]))
        <==> (LabelsOf(alloc, index, rank, owner)[x] == LabelsOf(alloc, index, rank, owner)[y])
  {
    var rx, ry := Root(alloc, rank, index[x]), Root(alloc, rank, index[y]);
    assert index[owner[rx]] == rx && index[owner[ry]] == ry;
  }

  /** A fresh element gets a new root slot at the end of the arena. */
  lemma InsertFresh<T>(alloc: Arena, index: map<T, nat>, rank: seq<nat>, owner: seq<T>, e: T)
    requires WellFormed(alloc, index, rank, owner) && e !in index
    ensures WellFormed(alloc + [None], index[e := |alloc|], rank + [0], owner + [e])
    ensures forall x | x in index :: Root(alloc + [None], rank + [0], index[x]) == Root(alloc, rank, index[x])
    ensures LabelsOf(alloc + [None], index[e := |alloc|], rank + [0], owner + [e])
         == AddElem(LabelsOf(alloc, index, rank, owner), e)
  {
    var a', i', r', o' := alloc + [None], index[e := |alloc|], rank + [0], owner + [e];
    AppendRanked(alloc, rank);
    assert WellFormed(a', i', r', o') by {
      assert forall x | x in i' :: i'[x] < |a'| && o'[i'[x]] == x;
      assert forall i | 0 <= i < |a'| :: o'[i] in i' && i'[o'[i]] == i;
    }
    forall x | x in index
      ensures Root(a', r', index[x]) == Root(alloc, rank, index[x])
    {
      AppendRoot(alloc, rank, index[x]);
    }
    assert Root(a', r', |alloc|) == |alloc|;
  }

  /**
   * Linking root `r2` below root `r1` keeps the store well formed under a new
   * ranking `rank'`, sends every walk that ended at `r2` to `r1`, and
   * relabels the class of `r2`'s owner with `r1`'s owner.
   */
  lemma LinkStore<T>(alloc: Arena, index: map<T, nat>, rank: seq<nat>, owner: seq<T>, r1: nat, r2: nat)
    returns (rank': seq<nat>)
    requires WellFormed(alloc, index, rank, owner)
    requires IsRoot(alloc, r1) && IsRoot(alloc, r2) && r1 != r2
    ensures WellFormed(alloc[r2 := Some(r1)], index, rank', owner)
    ensures forall x | x in index ::
      Root(alloc[r2 := Some(r1)], rank', index[x])
        == if Root(alloc, rank, index[x]) == r2 then r1 else Root(alloc, rank, index[x])
    ensures LabelsOf(alloc[r2 := Some(r1)], index, rank', owner)
         == Merge(LabelsOf(alloc, index, rank, owner), owner[r2], owner[r1])
  {
    LinkAllRoots(alloc, rank, r1, r2);
    rank' := Relinked(alloc, rank, r1, r2);
  }
}
