/**
 * The `unions_works` scenario of `src/tests.rs`, stated about the model for
 * any eleven distinct elements in place of the test's letters `A` to `K`.
 * The reference labels are followed set by set through the two inputs, and
 * the partition `unions` returns is then pinned down group by group.
 */
module UnionsWorks {
  import opened Partition
  import opened Clients

  // ---------------------------------------------------------------------
  // Reference steps over fresh elements
  // ---------------------------------------------------------------------

  /** Every label is itself an element. */
  ghost predicate LabelsAreKeys<T>(lab: map<T, T>) {
    forall x | x in lab :: lab[x] in lab
  }

  lemma InFrontOrLast<T>(s: seq<T>)
    requires s != []
    ensures forall x :: x in s <==> x in s[..|s| - 1] || x == s[|s| - 1]
  {
    assert s == s[..|s| - 1] + [s[|s| - 1]];
  }

  /** Joining a fresh element to `r` just gives it `r`'s label. */
  lemma JoinFresh<T>(l: map<T, T>, r: T, e: T)
    requires r in l && e !in l && LabelsAreKeys(l)
    ensures Join(AddElem(l, e), r, e) == l[e := l[r]]
  {
    var l' := AddElem(l, e);
    forall x | x in l ensures l'[x] != e {
      assert l[x] in l;
    }
  }

  /**
   * `insert_union(rep, e)` for distinct fresh elements `es` gives each of them
   * `r`'s label and leaves every other label alone.
   */
  lemma {:induction false} LinkAllFresh<T>(lab: map<T, T>, r: T, es: seq<T>)
    requires r in lab && LabelsAreKeys(lab)
    requires NoDup(es) && forall i | 0 <= i < |es| :: es[i] !in lab
    ensures forall x | x in LinkAll(lab, r, es) :: LinkAll(lab, r, es)[x] == if x in es then lab[r] else lab[x]
    decreases |es|
  {
    if es != [] {
      var front, e := es[..|es| - 1], es[|es| - 1];
      assert NoDup(front) && e !in front && r !in front by {
        assert forall i | 0 <= i < |front| :: front[i] == es[i];
      }
      LinkAllFresh(lab, r, front);
      var l := LinkAll(lab, r, front);
      assert LabelsAreKeys(l) by {
        forall x | x in l ensures l[x] in l {
          if x !in front {
            assert lab[x] in lab;
          }
        }
      }
      JoinFresh(l, r, e);
      InFrontOrLast(es);
    }
  }

  /** ... and never links a root to itself. */
  lemma {:induction false} LinkAllFreshApart<T>(lab: map<T, T>, r: T, es: seq<T>)
    requires r in lab
    requires NoDup(es) && forall i | 0 <= i < |es| :: es[i] !in lab
    ensures LinksApart(lab, r, es)
    decreases |es|
  {
    if es != [] {
      var front, e := es[..|es| - 1], es[|es| - 1];
      assert NoDup(front);
      LinkAllFreshApart(lab, r, front);
      assert e !in LinkAll(lab, r, front) by {
        forall i | 0 <= i < |front| ensures front[i] != e { assert es[i] == front[i]; }
      }
    }
  }

  /** A set of distinct fresh elements becomes one class labelled by its last element. */
  lemma AddSetFresh<T>(lab: map<T, T>, s: seq<T>)
    requires LabelsAreKeys(lab) && s != []
    requires NoDup(s) && forall i | 0 <= i < |s| :: s[i] !in lab
    ensures forall x | x in AddSet(lab, s) :: x in lab || x in s
    ensures forall x | x in lab || x in s :: x in AddSet(lab, s)
    ensures forall x | x in AddSet(lab, s) :: AddSet(lab, s)[x] == if x in s then s[|s| - 1] else lab[x]
    ensures SetApart(lab, s)
    ensures LabelsAreKeys(AddSet(lab, s))
  {
    var r, front := s[|s| - 1], s[..|s| - 1];
    var l := AddElem(lab, r);
    assert NoDup(front);
    assert r !in front by {
      forall i | 0 <= i < |front| ensures front[i] != r { assert s[i] == front[i]; }
    }
    assert LabelsAreKeys(l) by {
      forall x | x in l ensures l[x] in l {
        if x != r {
          assert lab[x] in lab;
        }
      }
    }
    LinkAllFresh(l, r, front);
    LinkAllFreshApart(l, r, front);
    InFrontOrLast(s);
  }

  // ---------------------------------------------------------------------
  // Partitions with one or two classes
  // ---------------------------------------------------------------------

  /** The group that holds a given element of a partition. */
  lemma GroupOf<T>(gs: seq<seq<T>>, lab: map<T, T>, x: T) returns (i: nat)
    requires IsPartition(gs, lab) && x in lab
    ensures i < |gs| && x in gs[i]
  {
    assert Covers(gs, lab);
    i :| 0 <= i < |gs| && x in gs[i];
  }

  /** A group whose first element carries label `c` holds exactly the elements `s` labelled `c`. */
  lemma GroupOfClass<T>(gs: seq<seq<T>>, lab: map<T, T>, i: nat, s: set<T>, c: T)
    requires IsPartition(gs, lab) && i < |gs|
    requires forall x | x in lab :: lab[x] == c <==> x in s
    requires s <= lab.Keys
    requires gs[i][0] in lab && lab[gs[i][0]] == c
    ensures multiset(gs[i]) == multiset(s)
  {
    GroupIsClass(gs, lab, i);
    NoDupMultiset(gs[i], s);
  }

  /** A partition of a single class is one group holding exactly that class. */
  lemma OneClass<T>(gs: seq<seq<T>>, lab: map<T, T>, s: set<T>, a: T)
    requires IsPartition(gs, lab)
    requires lab.Keys == s && s != {}
    requires forall x | x in lab :: lab[x] == a
    ensures |gs| == 1 && multiset(gs[0]) == multiset(s)
  {
    var x :| x in s;
    var i := GroupOf(gs, lab, x);
    if |gs| != 1 {
      var j := if i == 0 then 1 else 0;
      SameGroupSameLabel(gs, lab, i, j, x, gs[j][0]);
      assert false;
    }
    SameGroupSameLabel(gs, lab, 0, 0, x, gs[0][0]);
    GroupOfClass(gs, lab, 0, s, a);
  }

  /** With only two labels in use, a partition has at most two groups. */
  lemma AtMostTwoGroups<T>(gs: seq<seq<T>>, lab: map<T, T>, a: T, b: T)
    requires IsPartition(gs, lab)
    requires forall x | x in lab :: lab[x] == a || lab[x] == b
    ensures |gs| <= 2
  {
    if |gs| > 2 {
      SameGroupSameLabel(gs, lab, 0, 1, gs[0][0], gs[1][0]);
      SameGroupSameLabel(gs, lab, 0, 2, gs[0][0], gs[2][0]);
      SameGroupSameLabel(gs, lab, 1, 2, gs[1][0], gs[2][0]);
      assert false;
    }
  }

  lemma GroupsOfTwoClasses<T>(gs: seq<seq<T>>, lab: map<T, T>, sa: set<T>, sb: set<T>, a: T, b: T)
    requires IsPartition(gs, lab) && |gs| == 2
    requires sa + sb <= lab.Keys && sa !! sb
    requires forall x | x in lab :: lab[x] == a <==> x in sa
    requires forall x | x in lab :: lab[x] == b <==> x in sb
    requires gs[0][0] in lab && gs[1][0] in lab && lab[gs[0][0]] == a && lab[gs[1][0]] == b
    ensures multiset(gs[0]) == multiset(sa) && multiset(gs[1]) == multiset(sb)
  {
    GroupOfClass(gs, lab, 0, sa, a);
    GroupOfClass(gs, lab, 1, sb, b);
  }

  /** A partition of two classes is two groups, one per class, in either order. */
  lemma TwoClasses<T>(gs: seq<seq<T>>, lab: map<T, T>, sa: set<T>, sb: set<T>, a: T, b: T)
    requires IsPartition(gs, lab)
    requires lab.Keys == sa + sb && sa !! sb && sa != {} && sb != {} && a != b
    requires forall x | x in lab :: lab[x] == if x in sa then a else b
    ensures |gs| == 2
    ensures || (multiset(gs[0]) == multiset(sa) && multiset(gs[1]) == multiset(sb))
            || (multiset(gs[0]) == multiset(sb) && multiset(gs[1]) == multiset(sa))
  {
    assert |gs| >= 2 by {
      var xa :| xa in sa;
      var xb :| xb in sb;
      var i := GroupOf(gs, lab, xa);
      var j := GroupOf(gs, lab, xb);
      SameGroupSameLabel(gs, lab, i, j, xa, xb);
    }
    AtMostTwoGroups(gs, lab, a, b);
    var y0, y1 := gs[0][0], gs[1][0];
    assert y0 in lab && y1 in lab && lab[y0] != lab[y1] by {
      SameGroupSameLabel(gs, lab, 0, 1, y0, y1);
    }
    if lab[y0] == a {
      GroupsOfTwoClasses(gs, lab, sa, sb, a, b);
    } else {
      GroupsOfTwoClasses(gs, lab, sb, sa, b, a);
    }
  }

  // ---------------------------------------------------------------------
  // unions_works
  // ---------------------------------------------------------------------

  /**
   * The inputs of `unions_works` over eleven distinct elements `ns`, which
   * the test names `A` to `K`:
   * `[[A, B, C, D], [E, F, G], [B, F], [H, I, J, K]]`, and the same followed
   * by `[G, H]`.
   */
  function InputA<T>(ns: seq<T>): seq<seq<T>>
    requires |ns| == 11
  {
    [Abcd(ns), Efg(ns), [ns[1], ns[5]], Hijk(ns)]
  }

  function InputB<T>(ns: seq<T>): seq<seq<T>>
    requires |ns| == 11
  {
    InputA(ns) + [[ns[6], ns[7]]]
  }

  function Abcd<T>(ns: seq<T>): seq<T> requires |ns| == 11 { [ns[0], ns[1], ns[2], ns[3]] }
  function Efg<T>(ns: seq<T>): seq<T> requires |ns| == 11 { [ns[4], ns[5], ns[6]] }
  function AtoG<T>(ns: seq<T>): seq<T> requires |ns| == 11 { [ns[0], ns[1], ns[2], ns[3], ns[4], ns[5], ns[6]] }
  function Every<T>(ns: seq<T>): seq<T> requires |ns| == 11 { AtoG(ns) + Hijk(ns) }
  function Hijk<T>(ns: seq<T>): seq<T> requires |ns| == 11 { [ns[7], ns[8], ns[9], ns[10]] }

  /** After `[A, B, C, D]`: one class labelled `D`. */
  ghost predicate After1<T>(ns: seq<T>, l: map<T, T>)
    requires |ns| == 11
  {
    && (forall x | x in l :: x in Abcd(ns)) && (forall x | x in Abcd(ns) :: x in l)
    && (forall x | x in l :: l[x] == ns[3])
    && LabelsAreKeys(l)
  }

  /** After `[E, F, G]`: a second class labelled `G`. */
  ghost predicate After2<T>(ns: seq<T>, l: map<T, T>)
    requires |ns| == 11
  {
    && (forall x | x in l :: x in AtoG(ns)) && (forall x | x in AtoG(ns) :: x in l)
    && (forall x | x in l :: l[x] == if x in Efg(ns) then ns[6] else ns[3])
    && LabelsAreKeys(l)
  }

  /** After `[B, F]`: the two classes are one, labelled `G`. */
  ghost predicate After3<T>(ns: seq<T>, l: map<T, T>)
    requires |ns| == 11
  {
    && (forall x | x in l :: x in AtoG(ns)) && (forall x | x in AtoG(ns) :: x in l)
    && (forall x | x in l :: l[x] == ns[6])
    && LabelsAreKeys(l)
  }

  /** After `[H, I, J, K]`: a second class labelled `K`. */
  ghost predicate After4<T>(ns: seq<T>, l: map<T, T>)
    requires |ns| == 11
  {
    && (forall x | x in l :: x in Every(ns)) && (forall x | x in Every(ns) :: x in l)
    && (forall x | x in l :: l[x] == if x in Hijk(ns) then ns[10] else ns[6])
  }

  /** After `[G, H]`: a single class labelled `K`. */
  ghost predicate After5<T>(ns: seq<T>, l: map<T, T>)
    requires |ns| == 11
  {
    && (forall x | x in l :: x in Every(ns)) && (forall x | x in Every(ns) :: x in l)
    && (forall x | x in l :: l[x] == ns[10])
  }

  lemma Step1<T>(ns: seq<T>)
    requires |ns| == 11 && NoDup(ns)
    ensures After1(ns, AddSet(map[], Abcd(ns))) && SetApart(map[], Abcd(ns))
  {
    var s := Abcd(ns);
    assert NoDup(s) by {
      forall p, q | 0 <= p < q < 4 ensures s[p] != s[q] { assert s[p] == ns[p] && s[q] == ns[q]; }
    }
    AddSetFresh(map[], s);
  }

  lemma Step2<T>(ns: seq<T>, l1: map<T, T>)
    requires |ns| == 11 && NoDup(ns) && After1(ns, l1)
    ensures After2(ns, AddSet(l1, Efg(ns))) && SetApart(l1, Efg(ns))
  {
    var s := Efg(ns);
    assert NoDup(s) by {
      forall p, q | 0 <= p < q < 3 ensures s[p] != s[q] { assert s[p] == ns[4 + p] && s[q] == ns[4 + q]; }
    }
    assert forall p, q | 0 <= p < 4 <= q < 7 :: ns[p] != ns[q];
    AddSetFresh(l1, s);
  }

  /**
   * A two-element set of elements already present joins the first one's class
   * into the second's, and links no root to itself exactly when the two were
   * apart.
   */
  lemma AddSetPair<T>(l: map<T, T>, a: T, b: T)
    requires a in l && b in l
    ensures AddSet(l, [a, b]) == Join(l, b, a)
    ensures SetApart(l, [a, b]) <==> l[a] != l[b]
  {
    assert [a, b][..1] == [a] && [a][..0] == [];
    assert AddElem(l, b) == l && AddElem(l, a) == l;
    assert LinkAll(l, b, [a]) == Join(l, b, a);
    assert LinkAll(l, b, []) == l && LinksApart(l, b, []);
    assert SetApart(l, [a, b]) == LinksApart(l, b, [a]);
  }

  /** `[B, F]` joins the first two classes under `F`'s label `G`. */
  lemma Step3<T>(ns: seq<T>, l2: map<T, T>)
    requires |ns| == 11 && NoDup(ns) && After2(ns, l2)
    ensures After3(ns, AddSet(l2, [ns[1], ns[5]])) && SetApart(l2, [ns[1], ns[5]])
  {
    var b, f := ns[1], ns[5];
    assert l2[b] == ns[3] && l2[f] == ns[6] && ns[3] != ns[6] by {
      assert forall p, q | 0 <= p < 4 <= q < 7 :: ns[p] != ns[q];
      assert b in AtoG(ns) && f in Efg(ns) && b !in Efg(ns);
    }
    AddSetPair(l2, b, f);
    var l := Join(l2, f, b);
    forall x | x in l ensures l[x] == ns[6] && l[x] in l {
      assert ns[6] in Efg(ns);
    }
  }

  lemma Step4<T>(ns: seq<T>, l3: map<T, T>)
    requires |ns| == 11 && NoDup(ns) && After3(ns, l3)
    ensures After4(ns, AddSet(l3, Hijk(ns))) && SetApart(l3, Hijk(ns))
  {
    var s := Hijk(ns);
    assert NoDup(s) by {
      forall p, q | 0 <= p < q < 4 ensures s[p] != s[q] { assert s[p] == ns[7 + p] && s[q] == ns[7 + q]; }
    }
    assert forall p, q | 0 <= p < 7 <= q < 11 :: ns[p] != ns[q];
    AddSetFresh(l3, s);
  }

  /** `[G, H]` joins the two remaining classes under `H`'s label `K`. */
  lemma Step5<T>(ns: seq<T>, l4: map<T, T>)
    requires |ns| == 11 && NoDup(ns) && After4(ns, l4)
    ensures After5(ns, AddSet(l4, [ns[6], ns[7]])) && SetApart(l4, [ns[6], ns[7]])
  {
    var g, h := ns[6], ns[7];
    assert g in l4 && h in l4 && l4[g] == ns[6] && l4[h] == ns[10] && ns[6] != ns[10] by {
      assert forall p, q | 0 <= p < 7 <= q < 11 :: ns[p] != ns[q];
      assert g in Every(ns) && h in Every(ns) && h in Hijk(ns) && g !in Hijk(ns);
    }
    AddSetPair(l4, g, h);
  }

  /** `unions` with one more set at the end. */
  lemma RefUnionsSnoc<T>(pre: seq<seq<T>>, s: seq<T>)
    ensures RefUnions(pre + [s]) == AddSet(RefUnions(pre), s)
  {
    assert (pre + [s])[..|pre|] == pre;
  }

  /** `unions` of four sets, set by set. */
  lemma RefUnionsFour<T>(s0: seq<T>, s1: seq<T>, s2: seq<T>, s3: seq<T>)
    ensures RefUnions([s0]) == AddSet(map[], s0)
    ensures RefUnions([s0, s1]) == AddSet(RefUnions([s0]), s1)
    ensures RefUnions([s0, s1, s2]) == AddSet(RefUnions([s0, s1]), s2)
    ensures RefUnions([s0, s1, s2, s3]) == AddSet(RefUnions([s0, s1, s2]), s3)
  {
    assert RefUnions([s0]) == AddSet(map[], s0) by { RefUnionsSnoc([], s0); assert [] + [s0] == [s0]; }
    assert RefUnions([s0, s1]) == AddSet(RefUnions([s0]), s1) by { RefUnionsSnoc([s0], s1); assert [s0] + [s1] == [s0, s1]; }
    assert RefUnions([s0, s1, s2]) == AddSet(RefUnions([s0, s1]), s2) by {
      RefUnionsSnoc([s0, s1], s2); assert [s0, s1] + [s2] == [s0, s1, s2];
    }
    RefUnionsSnoc([s0, s1, s2], s3); assert [s0, s1, s2] + [s3] == [s0, s1, s2, s3];
  }

  /** The labels after each prefix of the inputs of `unions_works`. */
  function A1<T>(ns: seq<T>): map<T, T> requires |ns| == 11 { AddSet(map[], Abcd(ns)) }
  function A2<T>(ns: seq<T>): map<T, T> requires |ns| == 11 { AddSet(A1(ns), Efg(ns)) }
  function A3<T>(ns: seq<T>): map<T, T> requires |ns| == 11 { AddSet(A2(ns), [ns[1], ns[5]]) }
  function A4<T>(ns: seq<T>): map<T, T> requires |ns| == 11 { AddSet(A3(ns), Hijk(ns)) }

  lemma Upto2<T>(ns: seq<T>)
    requires |ns| == 11 && NoDup(ns)
    ensures After2(ns, A2(ns)) && SetApart(A1(ns), Efg(ns))
  {
    assert After1(ns, A1(ns)) by { Step1(ns); }
    Step2(ns, A1(ns));
  }

  lemma Upto3<T>(ns: seq<T>)
    requires |ns| == 11 && NoDup(ns)
    ensures After3(ns, A3(ns)) && SetApart(A2(ns), [ns[1], ns[5]])
  {
    assert After2(ns, A2(ns)) by { Upto2(ns); }
    Step3(ns, A2(ns));
  }

  lemma Upto4<T>(ns: seq<T>)
    requires |ns| == 11 && NoDup(ns)
    ensures After4(ns, A4(ns)) && SetApart(A3(ns), Hijk(ns))
  {
    assert After3(ns, A3(ns)) by { Upto3(ns); }
    Step4(ns, A3(ns));
  }

  /** The prefixes of a four-element sequence. */
  lemma PrefixesOfFour<U>(a: U, b: U, c: U, d: U)
    ensures [a, b, c, d][..0] == [] && [a, b, c, d][..1] == [a]
    ensures [a, b, c, d][..2] == [a, b] && [a, b, c, d][..3] == [a, b, c] && [a, b, c, d][..4] == [a, b, c, d]
  {
  }

  /** The label maps of the prefixes of the first input are those of `A1` to `A4`. */
  lemma InputAPrefixes<T>(ns: seq<T>)
    requires |ns| == 11
    ensures RefUnions(InputA(ns)[..1]) == A1(ns) && RefUnions(InputA(ns)[..2]) == A2(ns)
    ensures RefUnions(InputA(ns)[..3]) == A3(ns) && RefUnions(InputA(ns)) == A4(ns)
  {
    var s0, s1, s2, s3 := Abcd(ns), Efg(ns), [ns[1], ns[5]], Hijk(ns);
    RefUnionsFour(s0, s1, s2, s3);
    PrefixesOfFour(s0, s1, s2, s3);
  }

  /** The first input links no root to itself. */
  lemma InputAApart<T>(ns: seq<T>)
    requires |ns| == 11 && NoDup(ns)
    ensures UnionsApart(InputA(ns))
  {
    var sets := InputA(ns);
    InputAPrefixes(ns);
    assert SetApart(map[], sets[0]) by { Step1(ns); }
    assert SetApart(RefUnions(sets[..1]), sets[1]) by { Upto2(ns); }
    assert SetApart(RefUnions(sets[..2]), sets[2]) by { Upto3(ns); }
    assert SetApart(RefUnions(sets[..3]), sets[3]) by { Upto4(ns); }
    assert RefUnions(sets[..0]) == map[] by { assert sets[..0] == []; }
    forall k | 0 <= k < 4 ensures SetApart(RefUnions(sets[..k]), sets[k]) {
      assert k == 0 || k == 1 || k == 2 || k == 3;
    }
  }

  /** The first input leaves two classes: `A` to `G` labelled `G`, and `H` to `K` labelled `K`. */
  lemma InputALabels<T>(ns: seq<T>)
    requires |ns| == 11 && NoDup(ns)
    ensures After4(ns, RefUnions(InputA(ns)))
  {
    InputAPrefixes(ns);
    Upto4(ns);
  }

  /** The prefixes of a sequence with one more element at the end. */
  lemma PrefixesOfSnoc<U>(p: seq<U>, x: U)
    ensures (p + [x])[..|p|] == p && (p + [x])[|p|] == x
    ensures forall k | 0 <= k < |p| :: (p + [x])[..k] == p[..k] && (p + [x])[k] == p[k]
  {
  }

  /** Adding a set that links no root to itself keeps `UnionsApart`. */
  lemma UnionsApartSnoc<T>(sets: seq<seq<T>>, s: seq<T>)
    requires UnionsApart(sets) && SetApart(RefUnions(sets), s)
    ensures UnionsApart(sets + [s])
  {
    var b := sets + [s];
    PrefixesOfSnoc(sets, s);
    forall k | 0 <= k < |b| ensures SetApart(RefUnions(b[..k]), b[k]) {
      if k < |sets| {
        assert SetApart(RefUnions(sets[..k]), sets[k]);
      }
    }
  }

  /** The second input links no root to itself. */
  lemma InputBApart<T>(ns: seq<T>)
    requires |ns| == 11 && NoDup(ns)
    ensures UnionsApart(InputB(ns))
  {
    var a, gh := InputA(ns), [ns[6], ns[7]];
    assert UnionsApart(a) by { InputAApart(ns); }
    assert SetApart(RefUnions(a), gh) by { InputALabels(ns); Step5(ns, RefUnions(a)); }
    UnionsApartSnoc(a, gh);
  }

  /** The second input leaves a single class labelled `K`. */
  lemma InputBLabels<T>(ns: seq<T>)
    requires |ns| == 11 && NoDup(ns)
    ensures After5(ns, RefUnions(InputB(ns)))
  {
    var a, gh := InputA(ns), [ns[6], ns[7]];
    assert After4(ns, RefUnions(a)) by { InputALabels(ns); }
    RefUnionsSnoc(a, gh);
    Step5(ns, RefUnions(a));
  }

  /** The two halves `A` to `G` and `H` to `K` repeat no element and share none. */
  lemma Halves<T>(ns: seq<T>)
    requires |ns| == 11 && NoDup(ns)
    ensures NoDup(AtoG(ns)) && NoDup(Hijk(ns)) && NoDup(Every(ns))
    ensures forall x | x in AtoG(ns) :: x !in Hijk(ns)
  {
    var e := Every(ns);
    assert forall k | 0 <= k < 11 :: e[k] == ns[k];
    assert NoDup(e);
    forall p, q | 0 <= p < q < 7 ensures AtoG(ns)[p] != AtoG(ns)[q] { assert AtoG(ns)[p] == e[p] && AtoG(ns)[q] == e[q]; }
    forall p, q | 0 <= p < q < 4 ensures Hijk(ns)[p] != Hijk(ns)[q] { assert Hijk(ns)[p] == e[7 + p] && Hijk(ns)[q] == e[7 + q]; }
    forall x | x in AtoG(ns) ensures x !in Hijk(ns) {
      var p :| 0 <= p < 7 && AtoG(ns)[p] == x;
      forall q | 0 <= q < 4 ensures Hijk(ns)[q] != x { assert AtoG(ns)[p] == e[p] && Hijk(ns)[q] == e[7 + q]; }
    }
  }

  /** The partition of the labels `After4` describes: the two halves, in either order. */
  lemma GroupsAfter4<T>(ns: seq<T>, gs: seq<seq<T>>, lab: map<T, T>)
    requires |ns| == 11 && NoDup(ns) && After4(ns, lab) && IsPartition(gs, lab)
    ensures |gs| == 2
    ensures || (multiset(gs[0]) == multiset(Hijk(ns)) && multiset(gs[1]) == multiset(AtoG(ns)))
            || (multiset(gs[0]) == multiset(AtoG(ns)) && multiset(gs[1]) == multiset(Hijk(ns)))
  {
    var sa, sb := set x | x in AtoG(ns), set x | x in Hijk(ns);
    Halves(ns);
    assert ns[6] in sa && ns[10] in sb && ns[6] != ns[10];
    assert sa !! sb;
    assert lab.Keys == sa + sb;
    TwoClasses(gs, lab, sa, sb, ns[6], ns[10]);
    NoDupMultiset(AtoG(ns), sa);
    NoDupMultiset(Hijk(ns), sb);
  }

  /** The partition of the labels `After5` describes: one group of all eleven elements. */
  lemma GroupsAfter5<T>(ns: seq<T>, gs: seq<seq<T>>, lab: map<T, T>)
    requires |ns| == 11 && NoDup(ns) && After5(ns, lab) && IsPartition(gs, lab)
    ensures |gs| == 1 && multiset(gs[0]) == multiset(Every(ns))
  {
    var s := set x | x in Every(ns);
    Halves(ns);
    assert ns[0] in s;
    assert lab.Keys == s;
    OneClass(gs, lab, s, ns[10]);
    NoDupMultiset(Every(ns), s);
  }

  /**
   * `unions_works`, first input: two groups, `A` to `G` and `H` to `K`, in
   * either order, each with exactly its elements.
   */
  method UnionsWorksA<T(==)>(ns: seq<T>) returns (gs: seq<seq<T>>)
    requires |ns| == 11 && NoDup(ns)
    ensures |gs| == 2
    ensures || (multiset(gs[0]) == multiset(Hijk(ns)) && multiset(gs[1]) == multiset(AtoG(ns)))
            || (multiset(gs[0]) == multiset(AtoG(ns)) && multiset(gs[1]) == multiset(Hijk(ns)))
  {
    InputAApart(ns);
    gs := Unions(InputA(ns));
    InputALabels(ns);
    GroupsAfter4(ns, gs, RefUnions(InputA(ns)));
  }

  /** `unions_works`, second input: a single group with exactly `A` to `K`. */
  method UnionsWorksB<T(==)>(ns: seq<T>) returns (gs: seq<seq<T>>)
    requires |ns| == 11 && NoDup(ns)
    ensures |gs| == 1 && multiset(gs[0]) == multiset(Every(ns))
  {
    InputBApart(ns);
    gs := Unions(InputB(ns));
    InputBLabels(ns);
    GroupsAfter5(ns, gs, RefUnions(InputB(ns)));
  }
}
