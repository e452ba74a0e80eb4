/**
 * The second copy of the store, in `src/lib.rs`: the same arena and index,
 * with every operation an inherent method.  It differs from the trait
 * implementation in one respect: `insert_union` and `insert2_union` write the
 * parent pointer themselves instead of calling `union`, and `find` accepts a
 * borrowed form of the element (here the element itself).
 */
module Lib {
  import opened Partition
  import opened Forest
  import opened Grouping

  class DisjointSets<T(==)> {
    var alloc: Arena
    var index: map<T, nat>
    ghost var rank: seq<nat>
    ghost var owner: seq<T>

    ghost predicate Valid()
      reads this
    {
      WellFormed(alloc, index, rank, owner)
    }

    /** Each element's class, named by the root its parent walk reaches. */
    ghost function Classes(): (c: map<T, nat>)
      reads this
      requires Valid()
      ensures c.Keys == index.Keys
    {
      ClassesOf(alloc, index, rank, owner)
    }

    /** Each element's class, named by the element that owns its root slot. */
    ghost function Labels(): (l: map<T, T>)
      reads this
      requires Valid()
      ensures l.Keys == index.Keys
    {
      LabelsOf(alloc, index, rank, owner)
    }

    /** `new`: the callback is handed an empty store. */
    constructor New()
      ensures Valid()
      ensures alloc == [] && index == map[]
    {
      alloc, index := [], map[];
      rank, owner := [], [];
    }

    /**
     * `find`: `None` exactly when `e` was never inserted, otherwise the root
     * at which the parent walk from `e`'s slot stops.  Reads only.
     */
    method Find(e: T) returns (r: Option<RootRep>)
      requires Valid()
      ensures r.None? <==> e !in index
      ensures r.Some? ==> IsRoot(alloc, r.value.addr) && r.value.addr == Root(alloc, rank, index[e])
    {
      if e !in index {
        return None;
      }
      var root: nat := index[e];
      while alloc[root].Some?
        invariant root < |alloc| && Root(alloc, rank, root) == Root(alloc, rank, index[e])
        decreases rank[root]
      {
        root := alloc[root].value;
      }
      return Some(RootRep(root));
    }

    /**
     * `union`: slot `rep2` is made a child of `rep1`, which is returned.
     * Nothing else changes.  Both handles must be distinct current roots;
     * `union(r, r)` would make `r` its own parent and every later walk
     * through it would never stop.
     */
    method Union(rep1: RootRep, rep2: RootRep) returns (r: RootRep)
      requires Valid()
      requires IsRoot(alloc, rep1.addr) && IsRoot(alloc, rep2.addr) && rep1 != rep2
      modifies this
      ensures Valid()
      ensures r == rep1
      ensures alloc == old(alloc)[rep2.addr := Some(rep1.addr)]
      ensures index == old(index) && owner == old(owner)
      ensures forall x | x in index ::
        Root(alloc, rank, index[x])
          == if old(Root(alloc, rank, index[x])) == rep2.addr then rep1.addr else old(Root(alloc, rank, index[x]))
      ensures Labels() == Merge(old(Labels()), owner[rep2.addr], owner[rep1.addr])
    {
      rank := LinkStore(alloc, index, rank, owner, rep1.addr, rep2.addr);
      alloc := alloc[rep2.addr := Some(rep1.addr)];
      r := rep1;
    }

    /**
     * `insert`: an element already present is left alone and its current root
     * returned; a fresh element gets a new root slot at the end of the arena.
     * No existing element changes class.
     */
    method Insert(e: T) returns (r: RootRep)
      requires Valid()
      modifies this
      ensures Valid()
      ensures e in old(index) ==> alloc == old(alloc) && index == old(index) && owner == old(owner)
      ensures e !in old(index) ==>
        alloc == old(alloc) + [None] && index == old(index)[e := old(|alloc|)] && owner == old(owner) + [e]
      ensures index.Keys == old(index).Keys + {e}
      ensures forall x | x in old(index) :: index[x] == old(index[x])
      ensures e in index && IsRoot(alloc, r.addr) && r.addr == Root(alloc, rank, index[e])
      ensures forall x | x in old(index) :: Root(alloc, rank, index[x]) == old(Root(alloc, rank, index[x]))
      ensures Labels() == AddElem(old(Labels()), e)
    {
      var found := Find(e);
      if found.Some? {
        return found.value;
      }
      var slot := |alloc|;
      InsertFresh(alloc, index, rank, owner, e);
      alloc, index := alloc + [None], index[e := slot];
      rank, owner := rank + [0], owner + [e];
      r := RootRep(slot);
    }

    /**
     * `insert_union`: `insert(e)`, then the slot returned is pointed at `rep`
     * directly.  Afterwards `e`'s walk ends at `rep`.
     */
    method InsertUnion(rep: RootRep, e: T) returns (r: RootRep)
      requires Valid() && IsRoot(alloc, rep.addr)
      requires e in index ==> Root(alloc, rank, index[e]) != rep.addr
      modifies this
      ensures Valid()
      ensures r == rep && IsRoot(alloc, rep.addr)
      ensures e in old(index) ==>
        (index == old(index) && owner == old(owner)
         && alloc == old(alloc)[old(Root(alloc, rank, index[e])) := Some(rep.addr)])
      ensures e !in old(index) ==>
        (index == old(index)[e := old(|alloc|)] && owner == old(owner) + [e]
         && alloc == (old(alloc) + [None])[old(|alloc|) := Some(rep.addr)])
      ensures Root(alloc, rank, index[e]) == rep.addr
      ensures var lab := AddElem(old(Labels()), e); Labels() == Merge(lab, lab[e], old(owner[rep.addr]))
    {
      var rep2 := Insert(e);
      ghost var before := alloc;
      alloc := alloc[rep2.addr := Some(rep.addr)];
      Rerank(before, rep.addr, rep2.addr);
      r := rep;
    }

    /**
     * `insert2_union`: `insert(e1)`, then `insert(e2)`, then the second slot
     * is pointed at the first directly, and the first is returned.
     * Afterwards `e1` and `e2` share `e1`'s root.
     */
    method Insert2Union(e1: T, e2: T) returns (r: RootRep)
      requires Valid()
      requires e1 != e2
      requires e1 in index && e2 in index ==> Root(alloc, rank, index[e1]) != Root(alloc, rank, index[e2])
      modifies this
      ensures Valid()
      ensures index.Keys == old(index).Keys + {e1, e2}
      ensures forall x | x in old(index) :: index[x] == old(index[x])
      ensures e1 !in old(index) ==> index[e1] == old(|alloc|)
      ensures e2 !in old(index) ==> index[e2] == old(|alloc|) + (if e1 in old(index) then 0 else 1)
      ensures r.addr == (if e1 in old(index) then old(Root(alloc, rank, index[e1])) else index[e1])
      ensures var s2 := if e2 in old(index) then old(Root(alloc, rank, index[e2])) else index[e2];
        alloc == (old(alloc) + (if e1 in old(index) then [] else [None])
                             + (if e2 in old(index) then [] else [None]))[s2 := Some(r.addr)]
      ensures IsRoot(alloc, r.addr) && r.addr == Root(alloc, rank, index[e1]) == Root(alloc, rank, index[e2])
      ensures Labels() == Join(AddElem(AddElem(old(Labels()), e1), e2), e1, e2)
    {
      var rep1, rep2 := InsertBoth(e1, e2);
      ghost var before := alloc;
      alloc := alloc[rep2.addr := Some(rep1.addr)];
      Rerank(before, rep1.addr, rep2.addr);
      r := rep1;
    }

    /**
     * The two `insert` calls that open `insert2_union`: both elements are
     * present afterwards, each at the root its walk reaches, and the two
     * roots differ.
     */
    method InsertBoth(e1: T, e2: T) returns (rep1: RootRep, rep2: RootRep)
      requires Valid()
      requires e1 != e2
      requires e1 in index && e2 in index ==> Root(alloc, rank, index[e1]) != Root(alloc, rank, index[e2])
      modifies this
      ensures Valid()
      ensures index.Keys == old(index).Keys + {e1, e2}
      ensures forall x | x in old(index) :: index[x] == old(index[x])
      ensures e1 !in old(index) ==> index[e1] == old(|alloc|)
      ensures e2 !in old(index) ==> index[e2] == old(|alloc|) + (if e1 in old(index) then 0 else 1)
      ensures alloc == old(alloc) + (if e1 in old(index) then [] else [None]) + (if e2 in old(index) then [] else [None])
      ensures rep1.addr == (if e1 in old(index) then old(Root(alloc, rank, index[e1])) else index[e1])
      ensures rep2.addr == (if e2 in old(index) then old(Root(alloc, rank, index[e2])) else index[e2])
      ensures IsRoot(alloc, rep1.addr) && IsRoot(alloc, rep2.addr) && rep1 != rep2
      ensures rep1.addr == Root(alloc, rank, index[e1]) && rep2.addr == Root(alloc, rank, index[e2])
      ensures Labels() == AddElem(AddElem(old(Labels()), e1), e2)
      ensures Labels()[e1] == owner[rep1.addr] && Labels()[e2] == owner[rep2.addr]
    {
      ghost var a0, i0 := alloc, index;
      rep1 := Insert(e1);
      ghost var a1, i1 := alloc, index;
      rep2 := Insert(e2);
      TwoInserts(a0, i0, a1, i1, alloc, index, e1, e2);
      LabelsOfRoots(alloc, index, rank, owner, e1, e2);
    }

    /**
     * Proof bookkeeping after the parent write `alloc := before[r2 := Some(r1)]`
     * of `insert_union` and `insert2_union`: the ghost ranking is rebuilt for
     * the linked arena.  Only `rank` changes; the resulting store is the one
     * `union(r1, r2)` produces.
     */
    ghost method Rerank(before: Arena, r1: nat, r2: nat)
      requires WellFormed(before, index, rank, owner)
      requires IsRoot(before, r1) && IsRoot(before, r2) && r1 != r2
      requires alloc == before[r2 := Some(r1)]
      modifies this
      ensures Valid()
      ensures alloc == old(alloc) && index == old(index) && owner == old(owner)
      ensures forall x | x in index ::
        Root(alloc, rank, index[x])
          == if Root(before, old(rank), index[x]) == r2 then r1 else Root(before, old(rank), index[x])
      ensures Labels() == Merge(LabelsOf(before, index, old(rank), owner), owner[r2], owner[r1])
    {
      rank := LinkStore(before, index, rank, owner, r1, r2);
    }

    /**
     * `groups`: the elements bucketed by the root their walk reaches, one
     * group per root.  Group order and order within a group are those of the
     * map's iteration, which is left open here.
     */
    method Groups() returns (gs: seq<seq<T>>)
      requires Valid()
      ensures IsPartition(gs, Classes())
    {
      ghost var c := Classes();
      var m: map<nat, seq<T>> := map[];
      var rest := index.Keys;
      ghost var done: set<T> := {};
      while rest != {}
        invariant Sweeping(m, rest, done, c)
        decreases |rest|
      {
        var elem :| elem in rest;
        var root: nat := index[elem];
        ghost var target := c[elem];
        while alloc[root].Some?
          invariant root < |alloc| && Root(alloc, rank, root) == target
          decreases rank[root]
        {
          root := alloc[root].value;
        }
        SweepStep(m, rest, done, c, elem);
        var bucket := if root in m then m[root] else [];
        m := m[root := bucket + [elem]];
        rest, done := rest - {elem}, done + {elem};
      }
      assert done == c.Keys;
      gs := BucketValues(m, c);
    }
  }

  /**
   * `insert` is idempotent: inserting the same element twice returns equal
   * representatives, and only the first call can grow the arena.
   */
  method InsertTwice<T(==)>(uf: DisjointSets<T>, e: T) returns (r1: RootRep, r2: RootRep)
    requires uf.Valid()
    modifies uf
    ensures uf.Valid()
    ensures r1 == r2
    ensures uf.alloc == old(uf.alloc) + (if e in old(uf.index) then [] else [None])
    ensures uf.index == if e in old(uf.index) then old(uf.index) else old(uf.index)[e := old(|uf.alloc|)]
  {
    r1 := uf.Insert(e);
    r2 := uf.Insert(e);
  }
}
