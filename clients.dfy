/**
 * The two client algorithms of `src/tests.rs` that use the trait
 * implementation of `src/disjoint_sets.rs`: `unions`, which merges a list of
 * sets, and Kruskal's `mst` with its helper `edges_by_weight`.  Each is a
 * method over the store, proved against a reference written over label maps
 * (module Partition), and the references carry the properties the tests rely
 * on.
 */
module Clients {
  import opened Partition
  import opened Forest
  import opened DisjointSets

  // ---------------------------------------------------------------------
  // unions
  // ---------------------------------------------------------------------

  /** The labels after `insert_union(rep, e)` for every `e` of `es` in turn, `rep` being `r`'s root. */
  function LinkAll<T>(lab: map<T, T>, r: T, es: seq<T>): (l: map<T, T>)
    requires r in lab
    ensures l.Keys == lab.Keys + (set e | e in es)
    decreases |es|
  {
    if es == [] then lab
    else
      var front := es[..|es| - 1];
      assert (set e | e in es) == (set e | e in front) + {es[|es| - 1]} by {
        assert es == front + [es[|es| - 1]];
      }
      Join(AddElem(LinkAll(lab, r, front), es[|es| - 1]), r, es[|es| - 1])
  }

  /** One set of `unions`: its last element is popped and inserted, then every other element is linked to it. */
  function AddSet<T>(lab: map<T, T>, s: seq<T>): (l: map<T, T>)
    ensures l.Keys == lab.Keys + (set e | e in s)
  {
    if s == [] then lab
    else
      var r, front := s[|s| - 1], s[..|s| - 1];
      assert (set e | e in s) == (set e | e in front) + {r} by {
        assert s == front + [r];
      }
      LinkAll(AddElem(lab, r), r, front)
  }

  /** Every element of every set of `sets`. */
  function Members<T>(sets: seq<seq<T>>): (m: set<T>)
    ensures forall x | x in m :: exists k :: 0 <= k < |sets| && x in sets[k]
    ensures forall k, x | 0 <= k < |sets| && x in sets[k] :: x in m
  {
    if sets == [] then {}
    else
      var front, last := sets[..|sets| - 1], sets[|sets| - 1];
      assert forall k | 0 <= k < |front| :: front[k] == sets[k];
      Members(front) + (set x | x in last)
  }

  /** The labels after `unions` has processed all of `sets`, in order. */
  function RefUnions<T>(sets: seq<seq<T>>): map<T, T> {
    if sets == [] then map[]
    else AddSet(RefUnions(sets[..|sets| - 1]), sets[|sets| - 1])
  }

  /** `unions` ends with exactly the elements of the sets. */
  lemma {:induction false} RefUnionsKeys<T>(sets: seq<seq<T>>)
    ensures RefUnions(sets).Keys == Members(sets)
    decreases |sets|
  {
    if sets != [] {
      RefUnionsKeys(sets[..|sets| - 1]);
    }
  }

  /**
   * No `insert_union(rep, e)` of the elements `es` meets an `e` that is
   * already in `r`'s class: `unions` would link that root to itself.
   */
  ghost predicate LinksApart<T>(lab: map<T, T>, r: T, es: seq<T>)
    requires r in lab
    decreases |es|
  {
    es == [] ||
    (var front := es[..|es| - 1];
     var prev := LinkAll(lab, r, front);
     var e := es[|es| - 1];
     LinksApart(lab, r, front) && (e !in prev || prev[e] != prev[r]))
  }

  /** Processing the set `s` links no root to itself. */
  ghost predicate SetApart<T>(lab: map<T, T>, s: seq<T>) {
    s == [] || LinksApart(AddElem(lab, s[|s| - 1]), s[|s| - 1], s[..|s| - 1])
  }

  /**
   * `unions(sets)` links no root to itself.  Exactly the inputs for which the
   * Rust code terminates: a repeated element in one set, or a set whose elements
   * an earlier set already joined, would loop.
   */
  ghost predicate UnionsApart<T>(sets: seq<seq<T>>) {
    forall k | 0 <= k < |sets| :: SetApart(RefUnions(sets[..k]), sets[k])
  }

  lemma {:induction false} LinksApartAt<T>(lab: map<T, T>, r: T, es: seq<T>, j: nat)
    requires r in lab && LinksApart(lab, r, es) && j < |es|
    ensures var prev := LinkAll(lab, r, es[..j]); es[j] !in prev || prev[es[j]] != prev[r]
    decreases |es|
  {
    var front := es[..|es| - 1];
    if j < |front| {
      LinksApartAt(lab, r, front, j);
      assert front[..j] == es[..j];
    } else {
      assert es[..j] == front;
    }
  }

  /** The labels after linking one more element `es[j]`. */
  lemma LinkAllStep<T>(lab: map<T, T>, r: T, es: seq<T>, j: nat)
    requires r in lab && j < |es|
    ensures LinkAll(lab, r, es[..j + 1]) == Join(AddElem(LinkAll(lab, r, es[..j]), es[j]), r, es[j])
  {
    assert es[..j + 1][..j] == es[..j];
  }

  /**
   * What `insert_union(rep, e)` does to the labels, when `rep` is the root of
   * `r` and the owner of that root is `o`, is the reference step: a join of `e`
   * into `r`'s class, which keeps `r`'s label.
   */
  lemma InsertUnionStep<T>(lab: map<T, T>, r: T, e: T, o: T)
    requires r in lab && lab[r] == o
    ensures var l := AddElem(lab, e); Merge(l, l[e], o) == Join(l, r, e) && Join(l, r, e)[r] == o
  {
  }

  /** The labels after one more set. */
  lemma RefUnionsStep<T>(sets: seq<seq<T>>, i: nat)
    requires i < |sets|
    ensures RefUnions(sets[..i + 1]) == AddSet(RefUnions(sets[..i]), sets[i])
  {
    assert sets[..i + 1][..i] == sets[..i];
  }

  /**
   * One `insert_union(rep, e)` of `unions`, where `rep` is `r`'s root and `e`
   * is not yet in `r`'s class: `e` joins that class, which keeps its label.
   */
  method Link<T(==)>(uf: DisjointSets<T>, rep: RootRep, r: T, e: T)
    requires uf.Valid() && IsRoot(uf.alloc, rep.addr)
    requires r in uf.index && uf.Labels()[r] == uf.owner[rep.addr]
    requires e !in uf.Labels() || uf.Labels()[e] != uf.Labels()[r]
    modifies uf
    ensures uf.Valid() && IsRoot(uf.alloc, rep.addr)
    ensures r in uf.index && uf.Labels()[r] == uf.owner[rep.addr]
    ensures uf.Labels() == Join(AddElem(old(uf.Labels()), e), r, e)
  {
    ghost var lab, o := uf.Labels(), uf.owner[rep.addr];
    assert e in uf.index ==> Root(uf.alloc, uf.rank, uf.index[e]) != rep.addr by {
      if e in uf.index {
        LabelsOfRoots(uf.alloc, uf.index, uf.rank, uf.owner, e, r);
      }
    }
    var _ := uf.InsertUnion(rep, e);
    InsertUnionStep(lab, r, e, o);
  }

  /**
   * The state of `unions`' inner loop after `j` of the elements `es` are
   * linked: `rep` is still `r`'s root, and the labels are the reference
   * `LinkAll` of the first `j`.
   */
  ghost predicate Linking<T>(uf: DisjointSets<T>, rep: RootRep, r: T, base: map<T, T>, es: seq<T>, j: nat)
    reads uf
  {
    && uf.Valid() && IsRoot(uf.alloc, rep.addr)
    && r in uf.index && uf.Labels()[r] == uf.owner[rep.addr]
    && r in base && LinksApart(base, r, es) && j <= |es|
    && uf.Labels() == LinkAll(base, r, es[..j])
  }

  /** The inner loop of `unions`: `insert_union(rep, e)` for each `e` of `es`, where `rep` is `r`'s root. */
  method LinkAllTo<T(==)>(uf: DisjointSets<T>, rep: RootRep, r: T, es: seq<T>)
    requires uf.Valid() && IsRoot(uf.alloc, rep.addr)
    requires r in uf.index && uf.Labels()[r] == uf.owner[rep.addr]
    requires LinksApart(uf.Labels(), r, es)
    modifies uf
    ensures uf.Valid()
    ensures uf.Labels() == LinkAll(old(uf.Labels()), r, es)
  {
    ghost var base := uf.Labels();
    assert es[..0] == [];
    var j := 0;
    while j < |es|
      invariant Linking(uf, rep, r, base, es, j)
    {
      LinkNext(uf, rep, r, base, es, j);
      j := j + 1;
    }
    assert es[..j] == es;
  }

  /** Iteration `j` of `LinkAllTo`'s loop: one more element of `es` linked. */
  method LinkNext<T(==)>(uf: DisjointSets<T>, rep: RootRep, r: T, ghost base: map<T, T>, es: seq<T>, j: nat)
    requires Linking(uf, rep, r, base, es, j) && j < |es|
    modifies uf
    ensures Linking(uf, rep, r, base, es, j + 1)
  {
    LinksApartAt(base, r, es, j);
    LinkAllStep(base, r, es, j);
    Link(uf, rep, r, es[j]);
  }

  /**
   * The body of `unions`' loop for one set `s`: pop its last element `r`,
   * insert it, and `insert_union` each remaining element with `r`'s root.
   */
  method AddSetTo<T(==)>(uf: DisjointSets<T>, s: seq<T>)
    requires uf.Valid() && SetApart(uf.Labels(), s)
    modifies uf
    ensures uf.Valid()
    ensures uf.Labels() == AddSet(old(uf.Labels()), s)
  {
    if s != [] {
      ghost var before := uf.Labels();
      var r := s[|s| - 1];
      var rest := s[..|s| - 1];
      var rep := uf.Insert(r);
      assert uf.Labels() == AddElem(before, r) && LinksApart(uf.Labels(), r, rest);
      assert uf.Labels()[r] == uf.owner[rep.addr] by {
        LabelsOfRoots(uf.alloc, uf.index, uf.rank, uf.owner, r, r);
      }
      LinkAllTo(uf, rep, r, rest);
    }
  }

  /**
   * `unions`: every set in turn is added to a fresh store; then the groups
   * are handed out.  The groups partition every element of every set, two
   * elements sharing a group exactly when the reference labels them alike.
   */
  method Unions<T(==)>(sets: seq<seq<T>>) returns (gs: seq<seq<T>>)
    requires UnionsApart(sets)
    ensures IsPartition(gs, RefUnions(sets))
  {
    var uf := new DisjointSets<T>.Scoped();
    var i := 0;
    while i < |sets|
      invariant 0 <= i <= |sets|
      invariant fresh(uf) && uf.Valid()
      invariant uf.Labels() == RefUnions(sets[..i])
    {
      RefUnionsStep(sets, i);
      assert SetApart(RefUnions(sets[..i]), sets[i]);
      AddSetTo(uf, sets[i]);
      i := i + 1;
    }
    assert sets[..i] == sets;
    gs := uf.Groups();
    LabelsMatchClasses(uf.alloc, uf.index, uf.rank, uf.owner);
    PartitionTransfer(gs, uf.Classes(), uf.Labels());
  }

  /** `l2` is `l1` with classes merged and keys added: no two elements labelled alike in `l1` are separated. */
  ghost predicate Coarser<T>(l1: map<T, T>, l2: map<T, T>) {
    && l1.Keys <= l2.Keys
    && forall x, y | x in l1 && y in l1 && l1[x] == l1[y] :: l2[x] == l2[y]
  }

  lemma CoarserTransitive<T>(l1: map<T, T>, l2: map<T, T>, l3: map<T, T>)
    requires Coarser(l1, l2) && Coarser(l2, l3)
    ensures Coarser(l1, l3)
  {
    forall x, y | x in l1 && y in l1 && l1[x] == l1[y]
      ensures l3[x] == l3[y]
    {
      assert l2[x] == l2[y];
    }
  }

  /** Linking the elements `es` to `r` puts each of them in `r`'s class and separates nothing. */
  lemma {:induction false} LinkAllJoins<T>(lab: map<T, T>, r: T, es: seq<T>)
    requires r in lab
    ensures Coarser(lab, LinkAll(lab, r, es))
    ensures forall e | e in es :: LinkAll(lab, r, es)[e] == LinkAll(lab, r, es)[r]
    decreases |es|
  {
    if es != [] {
      var front, e := es[..|es| - 1], es[|es| - 1];
      var prev := LinkAll(lab, r, front);
      LinkAllJoins(lab, r, front);
      var added := AddElem(prev, e);
      JoinMergesExactly(added, r, e);
      assert Coarser(prev, LinkAll(lab, r, es));
      CoarserTransitive(lab, prev, LinkAll(lab, r, es));
      forall x | x in es
        ensures LinkAll(lab, r, es)[x] == LinkAll(lab, r, es)[r]
      {
        if x != e {
          assert x in front by {
            var k :| 0 <= k < |es| && es[k] == x;
            assert front[k] == x;
          }
          assert prev[x] == prev[r];
        }
      }
    }
  }

  /** Processing one non-empty set puts all of it in the class of its last element, and separates nothing. */
  lemma AddSetJoins<T>(lab: map<T, T>, s: seq<T>)
    ensures Coarser(lab, AddSet(lab, s))
    ensures s != [] ==> forall e | e in s :: AddSet(lab, s)[e] == AddSet(lab, s)[s[|s| - 1]]
  {
    if s != [] {
      var r, front := s[|s| - 1], s[..|s| - 1];
      LinkAllJoins(AddElem(lab, r), r, front);
      assert Coarser(lab, AddElem(lab, r));
      CoarserTransitive(lab, AddElem(lab, r), AddSet(lab, s));
      forall e | e in s
        ensures AddSet(lab, s)[e] == AddSet(lab, s)[r]
      {
        if e != r {
          var k :| 0 <= k < |s| && s[k] == e;
          assert front[k] == e;
        }
      }
    }
  }

  /** Later sets only merge classes: the labels after a prefix of `sets` are refined by the final ones. */
  lemma {:induction false} RefUnionsPrefix<T>(sets: seq<seq<T>>, n: nat)
    requires n <= |sets|
    ensures Coarser(RefUnions(sets[..n]), RefUnions(sets))
    decreases |sets|
  {
    if n < |sets| {
      var front := sets[..|sets| - 1];
      assert front[..n] == sets[..n];
      RefUnionsPrefix(front, n);
      AddSetJoins(RefUnions(front), sets[|sets| - 1]);
      CoarserTransitive(RefUnions(sets[..n]), RefUnions(front), RefUnions(sets));
    } else {
      assert sets[..n] == sets;
    }
  }

  /**
   * `unions` places every element of a non-empty input set in the same
   * class as that set's popped last element.
   */
  lemma UnionsJoinsEachSet<T>(sets: seq<seq<T>>, k: nat, x: T)
    requires k < |sets| && x in sets[k]
    ensures x in RefUnions(sets) && sets[k][|sets[k]| - 1] in RefUnions(sets)
    ensures RefUnions(sets)[x] == RefUnions(sets)[sets[k][|sets[k]| - 1]]
  {
    RefUnionsStep(sets, k);
    AddSetJoins(RefUnions(sets[..k]), sets[k]);
    RefUnionsPrefix(sets, k + 1);
  }

  /** No set of `sets` has elements both inside and outside `s`. */
  ghost predicate Closed<T>(sets: seq<seq<T>>, s: set<T>) {
    forall k, x, y | 0 <= k < |sets| && x in sets[k] && y in sets[k] :: (x in s <==> y in s)
  }

  /** Every class of `lab` lies wholly inside `s` or wholly outside it. */
  ghost predicate Respects<T>(lab: map<T, T>, s: set<T>) {
    forall z | z in lab :: (lab[z] in s <==> z in s)
  }

  /** Joining two elements on the same side of `s` keeps the classes on their sides. */
  lemma JoinRespects<T>(lab: map<T, T>, s: set<T>, a: T, b: T)
    requires a in lab && b in lab && Respects(lab, s) && (a in s <==> b in s)
    ensures Respects(Join(lab, a, b), s)
  {
    var l := Join(lab, a, b);
    forall z | z in l ensures l[z] in s <==> z in s {
      assert lab[z] in s <==> z in s;
      assert lab[b] in s <==> b in s;
    }
  }

  lemma {:induction false} LinkAllRespects<T>(lab: map<T, T>, r: T, es: seq<T>, s: set<T>)
    requires r in lab && Respects(lab, s)
    requires forall e | e in es :: (e in s <==> r in s)
    ensures Respects(LinkAll(lab, r, es), s)
    decreases |es|
  {
    if es != [] {
      var front, e := es[..|es| - 1], es[|es| - 1];
      assert forall x | x in front :: x in es;
      LinkAllRespects(lab, r, front, s);
      var l := AddElem(LinkAll(lab, r, front), e);
      JoinRespects(l, s, r, e);
    }
  }

  lemma AddSetRespects<T>(lab: map<T, T>, set0: seq<T>, s: set<T>)
    requires Respects(lab, s)
    requires forall x, y | x in set0 && y in set0 :: (x in s <==> y in s)
    ensures Respects(AddSet(lab, set0), s)
  {
    if set0 != [] {
      var r, front := set0[|set0| - 1], set0[..|set0| - 1];
      assert forall x | x in front :: x in set0;
      LinkAllRespects(AddElem(lab, r), r, front, s);
    }
  }

  /** If no set straddles `s`, no class of the result straddles it either. */
  lemma {:induction false} RefUnionsRespects<T>(sets: seq<seq<T>>, s: set<T>)
    requires Closed(sets, s)
    ensures Respects(RefUnions(sets), s)
    decreases |sets|
  {
    if sets != [] {
      var front, last := sets[..|sets| - 1], sets[|sets| - 1];
      assert forall k | 0 <= k < |front| :: front[k] == sets[k];
      RefUnionsRespects(front, s);
      AddSetRespects(RefUnions(front), last, s);
    }
  }

  /**
   * The converse of `UnionsJoinsEachSet`: `unions` joins nothing more than
   * the sets force.  If no set has elements on both sides of `s`, an element
   * inside `s` and one outside it end in different classes.
   */
  lemma UnionsSeparates<T>(sets: seq<seq<T>>, s: set<T>, x: T, y: T)
    requires Closed(sets, s)
    requires x in RefUnions(sets) && y in RefUnions(sets) && x in s && y !in s
    ensures RefUnions(sets)[x] != RefUnions(sets)[y]
  {
    RefUnionsRespects(sets, s);
  }

  /** The non-empty sets of `sets`, in order. */
  function NonEmpty<T>(sets: seq<seq<T>>): (r: seq<seq<T>>)
    ensures forall k | 0 <= k < |r| :: r[k] != []
    ensures forall s | s in sets :: s in r <==> s != []
    ensures forall s | s in r :: s in sets
    ensures |r| <= |sets|
  {
    if sets == [] then []
    else if sets[|sets| - 1] == [] then NonEmpty(sets[..|sets| - 1])
    else NonEmpty(sets[..|sets| - 1]) + [sets[|sets| - 1]]
  }

  /** `NonEmpty` keeps the input order: a non-empty set appended is kept last, an empty one is dropped. */
  lemma NonEmptySnoc<T>(sets: seq<seq<T>>, s: seq<T>)
    ensures NonEmpty(sets + [s]) == if s == [] then NonEmpty(sets) else NonEmpty(sets) + [s]
  {
    assert (sets + [s])[..|sets|] == sets;
  }

  /** `unions` ignores empty input sets: dropping them all changes nothing. */
  lemma {:induction false} UnionsIgnoresEmptySets<T>(sets: seq<seq<T>>)
    ensures RefUnions(NonEmpty(sets)) == RefUnions(sets)
    decreases |sets|
  {
    if sets != [] {
      var front := sets[..|sets| - 1];
      UnionsIgnoresEmptySets(front);
      if sets[|sets| - 1] != [] {
        var ne := NonEmpty(front) + [sets[|sets| - 1]];
        assert ne[..|ne| - 1] == NonEmpty(front);
      }
    }
  }

  // ---------------------------------------------------------------------
  // edges_by_weight
  // ---------------------------------------------------------------------

  /** An adjacency-list entry: an edge to `dst` of weight `weight`. */
  datatype Edge = Edge(dst: nat, weight: nat)

  /** `graph[src]` lists the edges leaving node `src`. */
  type Graph = seq<seq<Edge>>

  /** An edge as `edges_by_weight` lists it: `(src, dst, weight)`. */
  type Triple = (nat, nat, nat)

  /** The edges of one adjacency list, in order. */
  function RowEdges(src: nat, row: seq<Edge>): (es: seq<Triple>)
    ensures |es| == |row|
    ensures forall k | 0 <= k < |row| :: es[k] == (src, row[k].dst, row[k].weight)
  {
    if row == [] then []
    else RowEdges(src, row[..|row| - 1]) + [(src, row[|row| - 1].dst, row[|row| - 1].weight)]
  }

  /** Every edge of the graph, node by node and in list order. */
  function AllEdges(graph: Graph): seq<Triple> {
    if graph == [] then []
    else AllEdges(graph[..|graph| - 1]) + RowEdges(|graph| - 1, graph[|graph| - 1])
  }

  /** `AllEdges` lists exactly the adjacency-list entries, each with its source node. */
  lemma {:induction false} AllEdgesMembers(graph: Graph, t: Triple)
    ensures t in AllEdges(graph) <==>
      exists src, k :: 0 <= src < |graph| && 0 <= k < |graph[src]| && t == (src, graph[src][k].dst, graph[src][k].weight)
    decreases |graph|
  {
    if graph != [] {
      var front, src := graph[..|graph| - 1], |graph| - 1;
      var row := RowEdges(src, graph[src]);
      AllEdgesMembers(front, t);
      if t in row {
        var k :| 0 <= k < |row| && row[k] == t;
        assert t == (src, graph[src][k].dst, graph[src][k].weight);
      }
      if s, k :| 0 <= s < |graph| && 0 <= k < |graph[s]| && t == (s, graph[s][k].dst, graph[s][k].weight) {
        if s < |front| {
          assert front[s] == graph[s];
        } else {
          assert row[k] == t;
        }
      }
    }
  }

  /** Weights never decrease along `es`. */
  ghost predicate SortedByWeight(es: seq<Triple>) {
    forall i, j | 0 <= i < j < |es| :: es[i].2 <= es[j].2
  }

  /** `t` placed into the sorted `es` after every edge of weight at most its own. */
  function InsertByWeight(t: Triple, es: seq<Triple>): seq<Triple> {
    if es == [] || es[|es| - 1].2 <= t.2 then es + [t]
    else InsertByWeight(t, es[..|es| - 1]) + [es[|es| - 1]]
  }

  /** A stable sort by weight (insertion sort): what `sort_by_key` on the weight yields. */
  function SortByWeight(es: seq<Triple>): seq<Triple> {
    if es == [] then []
    else InsertByWeight(es[|es| - 1], SortByWeight(es[..|es| - 1]))
  }

  /** The edges of weight `w`, in order. */
  function OfWeight(es: seq<Triple>, w: nat): seq<Triple> {
    if es == [] then []
    else OfWeight(es[..|es| - 1], w) + (if es[|es| - 1].2 == w then [es[|es| - 1]] else [])
  }

  /** Inserting adds exactly `t`. */
  lemma {:induction false} InsertByWeightPerm(t: Triple, es: seq<Triple>)
    ensures multiset(InsertByWeight(t, es)) == multiset(es) + multiset{t}
    decreases |es|
  {
    if !(es == [] || es[|es| - 1].2 <= t.2) {
      var front, last := es[..|es| - 1], es[|es| - 1];
      InsertByWeightPerm(t, front);
      assert es == front + [last];
    }
  }

  /** Selecting by weight distributes over appending one edge. */
  lemma OfWeightSnoc(es: seq<Triple>, x: Triple, w: nat)
    ensures OfWeight(es + [x], w) == OfWeight(es, w) + (if x.2 == w then [x] else [])
  {
    assert (es + [x])[..|es|] == es;
  }

  /** Inserting appends `t` to the edges of its own weight and leaves the others' order alone. */
  lemma {:induction false} InsertByWeightStable(t: Triple, es: seq<Triple>, w: nat)
    ensures OfWeight(InsertByWeight(t, es), w) == OfWeight(es, w) + (if t.2 == w then [t] else [])
    decreases |es|
  {
    if es == [] || es[|es| - 1].2 <= t.2 {
      OfWeightSnoc(es, t, w);
    } else {
      var front, last := es[..|es| - 1], es[|es| - 1];
      InsertByWeightStable(t, front, w);
      OfWeightSnoc(InsertByWeight(t, front), last, w);
      assert es == front + [last];
      OfWeightSnoc(front, last, w);
      assert t.2 == w ==> last.2 != w;
    }
  }

  /** Inserting into a sorted sequence keeps it sorted. */
  lemma {:induction false} InsertByWeightSorted(t: Triple, es: seq<Triple>)
    requires SortedByWeight(es)
    ensures SortedByWeight(InsertByWeight(t, es))
    decreases |es|
  {
    if !(es == [] || es[|es| - 1].2 <= t.2) {
      var front, last := es[..|es| - 1], es[|es| - 1];
      InsertByWeightSorted(t, front);
      InsertByWeightPerm(t, front);
      var ins := InsertByWeight(t, front);
      forall i | 0 <= i < |ins|
        ensures ins[i].2 <= last.2
      {
        assert ins[i] in multiset(ins);
        if ins[i] != t {
          assert ins[i] in multiset(front);
          var j :| 0 <= j < |front| && front[j] == ins[i];
          assert es[j] == ins[i];
        }
      }
    }
  }

  /**
   * Where inserting puts `t`: at the index `k` with every edge after it
   * heavier than `t` and the edge just before it (if any) no heavier.
   */
  lemma {:induction false} InsertByWeightAt(t: Triple, es: seq<Triple>, k: nat)
    requires k <= |es|
    requires k == 0 || es[k - 1].2 <= t.2
    requires forall i | k <= i < |es| :: es[i].2 > t.2
    ensures InsertByWeight(t, es) == es[..k] + [t] + es[k..]
    decreases |es|
  {
    if k < |es| {
      var front, last := es[..|es| - 1], es[|es| - 1];
      InsertByWeightAt(t, front, k);
      assert front[..k] == es[..k];
      assert front[k..] + [last] == es[k..];
    } else {
      assert es[..k] == es;
    }
  }

  /**
   * `SortByWeight` is a sorted permutation, and the edges of each weight keep
   * their relative order (stability).
   */
  lemma {:induction false} SortByWeightCorrect(es: seq<Triple>)
    ensures SortedByWeight(SortByWeight(es))
    ensures multiset(SortByWeight(es)) == multiset(es)
    ensures forall w :: OfWeight(SortByWeight(es), w) == OfWeight(es, w)
    decreases |es|
  {
    if es != [] {
      var front, last := es[..|es| - 1], es[|es| - 1];
      SortByWeightCorrect(front);
      InsertByWeightSorted(last, SortByWeight(front));
      InsertByWeightPerm(last, SortByWeight(front));
      forall w ensures OfWeight(SortByWeight(es), w) == OfWeight(es, w) {
        InsertByWeightStable(last, SortByWeight(front), w);
      }
      assert es == front + [last];
    }
  }

  /**
   * `edges_by_weight`: collect `(src, dst, weight)` for every adjacency-list
   * entry, node by node, then sort stably by weight.
   */
  method EdgesByWeight(graph: Graph) returns (edges: seq<Triple>)
    ensures edges == SortByWeight(AllEdges(graph))
  {
    edges := [];
    var src := 0;
    while src < |graph|
      invariant 0 <= src <= |graph|
      invariant edges == AllEdges(graph[..src])
    {
      var dsts := graph[src];
      var k := 0;
      while k < |dsts|
        invariant 0 <= k <= |dsts|
        invariant edges == AllEdges(graph[..src]) + RowEdges(src, dsts[..k])
      {
        assert dsts[..k + 1][..k] == dsts[..k];
        edges := edges + [(src, dsts[k].dst, dsts[k].weight)];
        k := k + 1;
      }
      assert dsts[..k] == dsts;
      assert graph[..src + 1][..src] == graph[..src];
      src := src + 1;
    }
    assert graph[..src] == graph;
    edges := SortByWeight(edges);
  }

  // ---------------------------------------------------------------------
  // mst (Kruskal's algorithm)
  // ---------------------------------------------------------------------

  /** The labelled classes built so far and the edges kept, in order. */
  datatype KruskalState = KruskalState(lab: map<nat, nat>, kept: seq<(nat, nat)>)

  /**
   * One edge of Kruskal's loop: both endpoints are added, and the edge is
   * kept and its endpoints' classes joined exactly when they differed.
   */
  function KruskalStep(k: KruskalState, t: Triple): KruskalState {
    var l := AddElem(AddElem(k.lab, t.0), t.1);
    if l[t.0] != l[t.1] then KruskalState(Join(l, t.0, t.1), k.kept + [(t.0, t.1)])
    else KruskalState(l, k.kept)
  }

  /** A step adds both endpoints, puts them in one class, and separates no class. */
  lemma KruskalStepJoins(k: KruskalState, t: Triple)
    ensures KruskalStep(k, t).lab.Keys == k.lab.Keys + {t.0, t.1}
    ensures KruskalStep(k, t).lab[t.0] == KruskalStep(k, t).lab[t.1]
    ensures Coarser(k.lab, KruskalStep(k, t).lab)
  {
    var l := AddElem(AddElem(k.lab, t.0), t.1);
    JoinMergesExactly(l, t.0, t.1);
  }

  /** Kruskal's loop over `edges` in the given order, from an empty partition. */
  function KruskalRef(edges: seq<Triple>): KruskalState {
    if edges == [] then KruskalState(map[], [])
    else KruskalStep(KruskalRef(edges[..|edges| - 1]), edges[|edges| - 1])
  }

  lemma KruskalRefStep(edges: seq<Triple>, i: nat)
    requires i < |edges|
    ensures KruskalRef(edges[..i + 1]) == KruskalStep(KruskalRef(edges[..i]), edges[i])
  {
    assert edges[..i + 1][..i] == edges[..i];
  }

  /** The nodes seen are exactly the endpoints of the edges. */
  lemma {:induction false} KruskalNodes(edges: seq<Triple>, x: nat)
    ensures x in KruskalRef(edges).lab <==> exists i :: 0 <= i < |edges| && (edges[i].0 == x || edges[i].1 == x)
  {
    if edges != [] {
      var front, t := edges[..|edges| - 1], edges[|edges| - 1];
      KruskalNodes(front, x);
      KruskalStepJoins(KruskalRef(front), t);
      if x in KruskalRef(front).lab {
        var i :| 0 <= i < |front| && (front[i].0 == x || front[i].1 == x);
        assert edges[i] == front[i];
      }
      if i :| 0 <= i < |edges| && (edges[i].0 == x || edges[i].1 == x) {
        if i < |front| {
          assert edges[i] == front[i];
        }
      }
    }
  }

  /** After the loop, the two endpoints of every edge are in one class. */
  lemma {:induction false} KruskalConnects(edges: seq<Triple>)
    ensures forall i | 0 <= i < |edges| ::
      edges[i].0 in KruskalRef(edges).lab && edges[i].1 in KruskalRef(edges).lab
      && KruskalRef(edges).lab[edges[i].0] == KruskalRef(edges).lab[edges[i].1]
  {
    if edges != [] {
      var front, t := edges[..|edges| - 1], edges[|edges| - 1];
      KruskalConnects(front);
      var k, lab := KruskalRef(front), KruskalRef(edges).lab;
      KruskalStepJoins(k, t);
      forall i | 0 <= i < |edges|
        ensures edges[i].0 in lab && edges[i].1 in lab && lab[edges[i].0] == lab[edges[i].1]
      {
        if i < |front| {
          assert front[i] == edges[i];
          assert k.lab[edges[i].0] == k.lab[edges[i].1];
        }
      }
    }
  }

  /** Every kept pair is the endpoints of one of the edges. */
  lemma {:induction false} KruskalKeepsEdges(edges: seq<Triple>)
    ensures forall j | 0 <= j < |KruskalRef(edges).kept| ::
      exists i :: 0 <= i < |edges| && KruskalRef(edges).kept[j] == (edges[i].0, edges[i].1)
  {
    if edges != [] {
      var front := edges[..|edges| - 1];
      KruskalKeepsEdges(front);
      var t, prev, kept := edges[|edges| - 1], KruskalRef(front).kept, KruskalRef(edges).kept;
      assert kept == prev || kept == prev + [(t.0, t.1)];
      forall j | 0 <= j < |kept|
        ensures exists i :: 0 <= i < |edges| && kept[j] == (edges[i].0, edges[i].1)
      {
        if j < |prev| {
          assert kept[j] == prev[j];
          var i :| 0 <= i < |front| && prev[j] == (front[i].0, front[i].1);
          assert front[i] == edges[i];
        } else {
          assert kept[j] == (t.0, t.1);
        }
      }
    } else {
      assert KruskalRef(edges).kept == [];
    }
  }

  /** Every label is a member of its own class, labelled by itself. */
  ghost predicate Canonical(lab: map<nat, nat>) {
    forall x | x in lab :: lab[x] in lab && lab[lab[x]] == lab[x]
  }

  lemma AddElemCanonical(lab: map<nat, nat>, e: nat)
    requires Canonical(lab)
    ensures Canonical(AddElem(lab, e))
  {
    if e !in lab {
      var l := AddElem(lab, e);
      assert l == lab[e := e];
      forall x | x in l ensures l[x] in l && l[l[x]] == l[x] {
        if x != e {
          assert l[x] == lab[x] && lab[x] in lab;
        }
      }
    }
  }

  /** The labels in use after a fresh element is labelled by itself. */
  lemma AddFreshLabels(lab: map<nat, nat>, e: nat)
    requires e !in lab
    ensures lab[e := e].Values == lab.Values + {e}
  {
    var l := lab[e := e];
    forall v | v in l.Values ensures v in lab.Values + {e} {
      var x :| x in l && l[x] == v;
    }
    forall v | v in lab.Values ensures v in l.Values {
      var x :| x in lab && lab[x] == v;
      assert l[x] == v;
    }
    assert l[e] == e;
  }

  /** A fresh element labelled by itself, with a fresh label, adds one key and one label. */
  lemma AddFreshValues(lab: map<nat, nat>, e: nat)
    requires e !in lab && e !in lab.Values
    ensures |lab[e := e].Keys| == |lab.Keys| + 1 && |lab[e := e].Values| == |lab.Values| + 1
  {
    AddFreshLabels(lab, e);
    assert lab[e := e].Keys == lab.Keys + {e};
  }

  lemma AddElemCount(lab: map<nat, nat>, e: nat)
    requires Canonical(lab)
    ensures Canonical(AddElem(lab, e))
    ensures |lab.Keys| - |lab.Values| == |AddElem(lab, e).Keys| - |AddElem(lab, e).Values|
  {
    AddElemCanonical(lab, e);
    if e !in lab {
      assert e !in lab.Values by {
        forall x | x in lab ensures lab[x] != e {
          assert lab[x] in lab;
        }
      }
      AddFreshValues(lab, e);
    }
  }

  lemma JoinCount(lab: map<nat, nat>, a: nat, b: nat)
    requires Canonical(lab) && a in lab && b in lab && lab[a] != lab[b]
    ensures Canonical(Join(lab, a, b))
    ensures |Join(lab, a, b).Values| == |lab.Values| - 1
    ensures Join(lab, a, b).Keys == lab.Keys
  {
    var l := Join(lab, a, b);
    assert l.Values == lab.Values - {lab[b]} by {
      forall v | v in l.Values ensures v in lab.Values - {lab[b]} {
        var x :| x in l && l[x] == v;
        assert lab[a] in lab.Values;
      }
      forall v | v in lab.Values - {lab[b]} ensures v in l.Values {
        var x :| x in lab && lab[x] == v;
        assert l[x] == v;
      }
    }
    assert lab[b] in lab.Values;
  }

  /**
   * Each kept edge merged two classes, so the number of kept edges plus the
   * number of classes is the number of nodes seen.
   */
  lemma {:induction false} KruskalForest(edges: seq<Triple>)
    ensures Canonical(KruskalRef(edges).lab)
    ensures |KruskalRef(edges).kept| + |KruskalRef(edges).lab.Values| == |KruskalRef(edges).lab.Keys|
  {
    if edges != [] {
      var front, t := edges[..|edges| - 1], edges[|edges| - 1];
      KruskalForest(front);
      var k := KruskalRef(front);
      AddElemCount(k.lab, t.0);
      var l0 := AddElem(k.lab, t.0);
      AddElemCount(l0, t.1);
      var l := AddElem(l0, t.1);
      if l[t.0] != l[t.1] {
        JoinCount(l, t.0, t.1);
      }
    }
  }

  /**
   * One pass of `mst`'s loop: insert both endpoints, and when their
   * representatives differ, union them and report that the edge is kept.
   * The edge is kept exactly when the endpoints were in different classes,
   * and then the two classes are joined.
   */
  method MstEdge<T(==)>(uf: DisjointSets<T>, src: T, dst: T) returns (keep: bool)
    requires uf.Valid()
    modifies uf
    ensures uf.Valid()
    ensures var l := AddElem(AddElem(old(uf.Labels()), src), dst);
      keep == (l[src] != l[dst]) && uf.Labels() == if keep then Join(l, src, dst) else l
  {
    ghost var lab0 := uf.Labels();
    var srcRep := uf.Insert(src);
    var dstRep := uf.Insert(dst);
    ghost var l := uf.Labels();
    assert l == AddElem(AddElem(lab0, src), dst);
    assert srcRep.addr == Root(uf.alloc, uf.rank, uf.index[src]);
    ghost var ls, ld := l[src], l[dst];
    assert uf.owner[srcRep.addr] == ls && uf.owner[dstRep.addr] == ld && ((srcRep == dstRep) <==> ls == ld) by {
      LabelsOfRoots(uf.alloc, uf.index, uf.rank, uf.owner, src, dst);
    }
    keep := srcRep != dstRep;
    if keep {
      var _ := uf.Union(srcRep, dstRep);
    }
  }

  /**
   * `mst`: Kruskal's algorithm on the edges in `edges_by_weight` order. Each
   * edge inserts both endpoints; when their representatives differ, the
   * classes are joined and the edge `(src, dst)` is kept.
   */
  method Mst(graph: Graph) returns (result: seq<(nat, nat)>)
    ensures result == KruskalRef(SortByWeight(AllEdges(graph))).kept
  {
    var edges := EdgesByWeight(graph);
    var uf := new DisjointSets<nat>.Scoped();
    result := [];
    var i := 0;
    while i < |edges|
      invariant 0 <= i <= |edges|
      invariant fresh(uf) && uf.Valid()
      invariant uf.Labels() == KruskalRef(edges[..i]).lab
      invariant result == KruskalRef(edges[..i]).kept
    {
      var (src, dst, _) := edges[i];
      KruskalRefStep(edges, i);
      var keep := MstEdge(uf, src, dst);
      if keep {
        result := result + [(src, dst)];
      }
      i := i + 1;
    }
    assert edges[..i] == edges;
  }
}
