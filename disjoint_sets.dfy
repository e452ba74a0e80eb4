/**
 * The disjoint-set store of `src/disjoint_sets.rs`, which implements the
 * `UnionFind` trait of `src/traits.rs`: `find`, `union` and `insert` are the
 * trait's required methods, and `insert_union` / `insert2_union` are the
 * trait's default methods, which only sequence `insert` and `union`.
 *
 * `alloc` is the parent-pointer arena and `index` the element-to-slot map.
 * The ghost fields `rank` and `owner` are proof devices (see module Forest).
 */
module DisjointSets {
  import opened Partition
  import opened Forest
  import opened Grouping

  class DisjointSets<T(==)> {
    var alloc: Arena
    var index: map<T, nat>
    ghost var rank: seq<nat>
    ghost var owner: seq<T>

    ghost predicate Valid()
      reads this
    {
      WellFormed(alloc, index, rank, owner)
    }

    /** Each element's class, named by the root its parent walk reaches. */
    ghost function Classes(): (c: map<T, nat>)
      reads this
      requires Valid()
      ensures c.Keys == index.Keys
    {
      ClassesOf(alloc, index, rank, owner)
    }

    /** Each element's class, named by the element that owns its root slot. */
    ghost function Labels(): (l: map<T, T>)
      reads this
      requires Valid()
      ensures l.Keys == index.Keys
    {
      LabelsOf(alloc, index, rank, owner)
    }

    /** `scoped`: the callback is handed an empty store. */
    constructor Scoped()
      ensures Valid()
      ensures alloc == [] && index == map[]
    {
      alloc, index := [], map[];
      rank, owner := [], [];
    }

    /**
     * `find`: `None` exactly when `e` was never inserted, otherwise the root
     * at which the parent walk from `e`'s slot stops.  Reads only.
     */
    method Find(e: T) returns (r: Option<RootRep>)
      requires Valid()
      ensures r.None? <==> e !in index
      ensures r.Some? ==> IsRoot(alloc, r.value.addr) && r.value.addr == Root(alloc, rank, index[e])
    {
      if e !in index {
        return None;
      }
      var root: nat := index[e];
      while alloc[root].Some?
        invariant root < |alloc| && Root(alloc, rank, root) == Root(alloc, rank, index[e])
        decreases rank[root]
      {
        root := alloc[root].value;
      }
      return Some(RootRep(root));
    }

    /**
     * `union`: slot `rep2` is made a child of `rep1`, which is returned.
     * Nothing else changes.  Both handles must be distinct current roots;
     * `union(r, r)` would make `r` its own parent and every later walk
     * through it would never stop.
     */
    method Union(rep1: RootRep, rep2: RootRep) returns (r: RootRep)
      requires Valid()
      requires IsRoot(alloc, rep1.addr) && IsRoot(alloc, rep2.addr) && rep1 != rep2
      modifies this
      ensures Valid()
      ensures r == rep1
      ensures alloc == old(alloc)[rep2.addr := Some(rep1.addr)]
      ensures index == old(index) && owner == old(owner)
      ensures forall x | x in index ::
        Root(alloc, rank, index[x])
          == if old(Root(alloc, rank, index[x])) == rep2.addr then rep1.addr else old(Root(alloc, rank, index[x]))
      ensures Labels() == Merge(old(Labels()), owner[rep2.addr], owner[rep1.addr])
    {
      rank := LinkStore(alloc, index, rank, owner, rep1.addr, rep2.addr);
      alloc := alloc[rep2.addr := Some(rep1.addr)];
      r := rep1;
    }

    /**
     * `insert`: an element already present is left alone and its current root
     * returned; a fresh element gets a new root slot at the end of the arena.
     * No existing element changes class.
     */
    method Insert(e: T) returns (r: RootRep)
      requires Valid()
      modifies this
      ensures Valid()
      ensures e in old(index) ==> alloc == old(alloc) && index == old(index) && owner == old(owner)
      ensures e !in old(index) ==>
        alloc == old(alloc) + [None] && index == old(index)[e := old(|alloc|)] && owner == old(owner) + [e]
      ensures index.Keys == old(index).Keys + {e}
      ensures forall x | x in old(index) :: index[x] == old(index[x])
      ensures e in index && IsRoot(alloc, r.addr) && r.addr == Root(alloc, rank, index[e])
      ensures forall x | x in old(index) :: Root(alloc, rank, index[x]) == old(Root(alloc, rank, index[x]))
      ensures Labels() == AddElem(old(Labels()), e)
    {
      var found := Find(e);
      if found.Some? {
        return found.value;
      }
      var slot := |alloc|;
      InsertFresh(alloc, index, rank, owner, e);
      alloc, index := alloc + [None], index[e := slot];
      rank, owner := rank + [0], owner + [e];
      r := RootRep(slot);
    }

    /**
     * `insert_union` (a default method of the trait): `insert(e)`, then
     * `union(rep, <that result>)`.  Afterwards `e`'s walk ends at `rep`.
     */
    method InsertUnion(rep: RootRep, e: T) returns (r: RootRep)
      requires Valid() && IsRoot(alloc, rep.addr)
      requires e in index ==> Root(alloc, rank, index[e]) != rep.addr
      modifies this
      ensures Valid()
      ensures r == rep && IsRoot(alloc, rep.addr)
      ensures e in old(index) ==>
        (index == old(index) && owner == old(owner)
         && alloc == old(alloc)[old(Root(alloc, rank, index[e])) := Some(rep.addr)])
      ensures e !in old(index) ==>
        (index == old(index)[e := old(|alloc|)] && owner == old(owner) + [e]
         && alloc == (old(alloc) + [None])[old(|alloc|) := Some(rep.addr)])
      ensures Root(alloc, rank, index[e]) == rep.addr
      ensures var lab := AddElem(old(Labels()), e); Labels() == Merge(lab, lab[e], old(owner[rep.addr]))
    {
      var rep2 := Insert(e);
      r := Union(rep, rep2);
    }

    /**
     * `insert2_union` (a default method of the trait): `insert(e1)`, then
     * `insert(e2)`, then `union` of the two results, whose first is returned.
     * Afterwards `e1` and `e2` share `e1`'s root.
     */
    method Insert2Union(e1: T, e2: T) returns (r: RootRep)
      requires Valid()
      requires e1 != e2
      requires e1 in index && e2 in index ==> Root(alloc, rank, index[e1]) != Root(alloc, rank, index[e2])
      modifies this
      ensures Valid()
      ensures index.Keys == old(index).Keys + {e1, e2}
      ensures forall x | x in old(index) :: index[x] == old(index[x])
      ensures e1 !in old(index) ==> index[e1] == old(|alloc|)
      ensures e2 !in old(index) ==> index[e2] == old(|alloc|) + (if e1 in old(index) then 0 else 1)
      ensures r.addr == (if e1 in old(index) then old(Root(alloc, rank, index[e1])) else index[e1])
      ensures var s2 := if e2 in old(index) then old(Root(alloc, rank, index[e2])) else index[e2];
        alloc == (old(alloc) + (if e1 in old(index) then [] else [None])
                             + (if e2 in old(index) then [] else [None]))[s2 := Some(r.addr)]
      ensures IsRoot(alloc, r.addr) && r.addr == Root(alloc, rank, index[e1]) == Root(alloc, rank, index[e2])
      ensures Labels() == Join(AddElem(AddElem(old(Labels()), e1), e2), e1, e2)
    {
      ghost var a0, i0 := alloc, index;
      var rep1 := Insert(e1);
      ghost var a1, i1 := alloc, index;
      var rep2 := Insert(e2);
      TwoInserts(a0, i0, a1, i1, alloc, index, e1, e2);
      LabelsMatchClasses(alloc, index, rank, owner);
      r := Union(rep1, rep2);
    }

    /**
     * `groups`: the elements bucketed by the root their walk reaches, one
     * group per root.  Group order and order within a group are those of the
     * map's iteration, which is left open here.
     */
    method Groups() returns (gs: seq<seq<T>>)
      requires Valid()
      ensures IsPartition(gs, Classes())
    {
      ghost var c := Classes();
      var m: map<nat, seq<T>> := map[];
      var rest := index.Keys;
      ghost var done: set<T> := {};
      while rest != {}
        invariant Sweeping(m, rest, done, c)
        decreases |rest|
      {
        var elem :| elem in rest;
        var root: nat := index[elem];
        ghost var target := c[elem];
        while alloc[root].Some?
          invariant root < |alloc| && Root(alloc, rank, root) == target
          decreases rank[root]
        {
          root := alloc[root].value;
        }
        SweepStep(m, rest, done, c, elem);
        var bucket := if root in m then m[root] else [];
        m := m[root := bucket + [elem]];
        rest, done := rest - {elem}, done + {elem};
      }
      assert done == c.Keys;
      gs := BucketValues(m, c);
    }
  }
}
