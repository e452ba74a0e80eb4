/**
 * The `mst_works` scenario of `src/tests.rs`: `mst` on the nine-node grid
 *
 *   0 --6-- 1 --5-- 2
 *   |       |       |
 *   8       1       4
 *   |       |       |
 *   3 --7-- 4 --2-- 5
 *   |       |       |
 *   3       12      11
 *   |       |       |
 *   6 --9-- 7 --10- 8
 *
 * keeps the edges (1,4), (4,5), (3,6), (2,5), (0,1), (3,4), (6,7), (7,8),
 * in that order.  The proof follows the three stages one value at a time:
 * the edge list, each insertion of the stable sort, and each Kruskal step.
 */
module MstWorks {
  import opened Clients

  /** The test graph, as adjacency lists of `(dst, weight)` per node. */
  function TestGraph(): Graph {
    [ [Edge(1, 6), Edge(3, 8)],
      [Edge(2, 5), Edge(4, 1)],
      [Edge(5, 4)],
      [Edge(4, 7), Edge(6, 3)],
      [Edge(5, 2), Edge(7, 12)],
      [Edge(8, 11)],
      [Edge(7, 9)],
      [Edge(8, 10)],
      [] ]
  }

  /** Its edges in adjacency-list order. */
  function ListedEdges(): seq<Triple> {
    [(0, 1, 6), (0, 3, 8), (1, 2, 5), (1, 4, 1), (2, 5, 4), (3, 4, 7),
     (3, 6, 3), (4, 5, 2), (4, 7, 12), (5, 8, 11), (6, 7, 9), (7, 8, 10)]
  }

  /** Its edges sorted by weight. */
  function SortedEdges(): seq<Triple> {
    [(1, 4, 1), (4, 5, 2), (3, 6, 3), (2, 5, 4), (1, 2, 5), (0, 1, 6),
     (3, 4, 7), (0, 3, 8), (6, 7, 9), (7, 8, 10), (5, 8, 11), (4, 7, 12)]
  }

  /** The edges the test expects `mst` to keep. */
  function ExpectedTree(): seq<(nat, nat)> {
    [(1, 4), (4, 5), (3, 6), (2, 5), (0, 1), (3, 4), (6, 7), (7, 8)]
  }

  // ---------------------------------------------------------------------
  // Stage 1: the edge list
  // ---------------------------------------------------------------------

  lemma AllEdgesStep(graph: Graph, i: nat)
    requires i < |graph|
    ensures AllEdges(graph[..i + 1]) == AllEdges(graph[..i]) + RowEdges(i, graph[i])
  {
    assert graph[..i + 1][..i] == graph[..i];
  }

  /** How many edges the first `k` nodes list. */
  function EdgesBefore(k: nat): nat
    requires k <= 9
  {
    [0, 2, 4, 5, 7, 9, 10, 11, 12, 12][k]
  }

  /** The edges of node `k` follow those of the nodes before it. */
  lemma ListedStep(k: nat)
    requires k < 9
    ensures ListedEdges()[..EdgesBefore(k + 1)] == ListedEdges()[..EdgesBefore(k)] + RowEdges(k, TestGraph()[k])
  {
    var e, row := ListedEdges(), RowEdges(k, TestGraph()[k]);
    if k == 0 {
      assert e[..2] == row;
    } else if k == 1 {
      assert e[..4] == e[..2] + row;
    } else if k == 2 {
      assert e[..5] == e[..4] + row;
    } else if k == 3 {
      assert e[..7] == e[..5] + row;
    } else if k == 4 {
      assert e[..9] == e[..7] + row;
    } else if k == 5 {
      assert e[..10] == e[..9] + row;
    } else if k == 6 {
      assert e[..11] == e[..10] + row;
    } else if k == 7 {
      assert e[..12] == e[..11] + row;
    } else {
      assert row == [];
    }
  }

  lemma {:induction false} ListedPrefix(k: nat)
    requires k <= 9
    ensures AllEdges(TestGraph()[..k]) == ListedEdges()[..EdgesBefore(k)]
  {
    if k == 0 {
      assert TestGraph()[..0] == [];
    } else {
      ListedPrefix(k - 1);
      AllEdgesStep(TestGraph(), k - 1);
      ListedStep(k - 1);
    }
  }

  lemma Listed()
    ensures AllEdges(TestGraph()) == ListedEdges()
  {
    ListedPrefix(9);
    assert TestGraph()[..9] == TestGraph();
    assert ListedEdges()[..12] == ListedEdges();
  }

  // ---------------------------------------------------------------------
  // Stage 2: the stable sort, one insertion at a time
  // ---------------------------------------------------------------------

  lemma SortByWeightStep(es: seq<Triple>, i: nat)
    requires i < |es|
    ensures SortByWeight(es[..i + 1]) == InsertByWeight(es[i], SortByWeight(es[..i]))
  {
    assert es[..i + 1][..i] == es[..i];
  }

  /** The sort's result after each number of listed edges, from none to all twelve. */
  function SortStages(): seq<seq<Triple>> {
    [ [],
      [(0, 1, 6)],
      [(0, 1, 6), (0, 3, 8)],
      [(1, 2, 5), (0, 1, 6), (0, 3, 8)],
      [(1, 4, 1), (1, 2, 5), (0, 1, 6), (0, 3, 8)],
      [(1, 4, 1), (2, 5, 4), (1, 2, 5), (0, 1, 6), (0, 3, 8)],
      [(1, 4, 1), (2, 5, 4), (1, 2, 5), (0, 1, 6), (3, 4, 7), (0, 3, 8)],
      [(1, 4, 1), (3, 6, 3), (2, 5, 4), (1, 2, 5), (0, 1, 6), (3, 4, 7), (0, 3, 8)],
      [(1, 4, 1), (4, 5, 2), (3, 6, 3), (2, 5, 4), (1, 2, 5), (0, 1, 6), (3, 4, 7), (0, 3, 8)],
      [(1, 4, 1), (4, 5, 2), (3, 6, 3), (2, 5, 4), (1, 2, 5), (0, 1, 6), (3, 4, 7), (0, 3, 8), (4, 7, 12)],
      [(1, 4, 1), (4, 5, 2), (3, 6, 3), (2, 5, 4), (1, 2, 5), (0, 1, 6), (3, 4, 7), (0, 3, 8), (5, 8, 11), (4, 7, 12)],
      [(1, 4, 1), (4, 5, 2), (3, 6, 3), (2, 5, 4), (1, 2, 5), (0, 1, 6), (3, 4, 7), (0, 3, 8), (6, 7, 9), (5, 8, 11), (4, 7, 12)],
      [(1, 4, 1), (4, 5, 2), (3, 6, 3), (2, 5, 4), (1, 2, 5), (0, 1, 6), (3, 4, 7), (0, 3, 8), (6, 7, 9), (7, 8, 10), (5, 8, 11), (4, 7, 12)] ]
  }

  /** Listed edges `0` to `2` are inserted where `InsertByWeightAt` places them. */
  lemma SortedSteps0(k: nat)
    requires 0 <= k < 3
    ensures SortStages()[k + 1] == InsertByWeight(ListedEdges()[k], SortStages()[k])
  {
    var t, p := ListedEdges()[k], SortStages()[k];
    if k == 0 {
      InsertByWeightAt(t, p, 0);
      assert SortStages()[1] == p[..0] + [t] + p[0..];
    } else if k == 1 {
      InsertByWeightAt(t, p, 1);
      assert SortStages()[2] == p[..1] + [t] + p[1..];
    } else {
      InsertByWeightAt(t, p, 0);
      assert SortStages()[3] == p[..0] + [t] + p[0..];
    }
  }

  /** Listed edges `3` to `5` are inserted where `InsertByWeightAt` places them. */
  lemma SortedSteps3(k: nat)
    requires 3 <= k < 6
    ensures SortStages()[k + 1] == InsertByWeight(ListedEdges()[k], SortStages()[k])
  {
    var t, p := ListedEdges()[k], SortStages()[k];
    if k == 3 {
      InsertByWeightAt(t, p, 0);
      assert SortStages()[4] == p[..0] + [t] + p[0..];
    } else if k == 4 {
      InsertByWeightAt(t, p, 1);
      assert SortStages()[5] == p[..1] + [t] + p[1..];
    } else {
      InsertByWeightAt(t, p, 4);
      assert SortStages()[6] == p[..4] + [t] + p[4..];
    }
  }

  /** Listed edges `6` to `8` are inserted where `InsertByWeightAt` places them. */
  lemma SortedSteps6(k: nat)
    requires 6 <= k < 9
    ensures SortStages()[k + 1] == InsertByWeight(ListedEdges()[k], SortStages()[k])
  {
    var t, p := ListedEdges()[k], SortStages()[k];
    if k == 6 {
      InsertByWeightAt(t, p, 1);
      assert SortStages()[7] == p[..1] + [t] + p[1..];
    } else if k == 7 {
      InsertByWeightAt(t, p, 1);
      assert SortStages()[8] == p[..1] + [t] + p[1..];
    } else {
      InsertByWeightAt(t, p, 8);
      assert SortStages()[9] == p[..8] + [t] + p[8..];
    }
  }

  /** Listed edges `9` to `11` are inserted where `InsertByWeightAt` places them. */
  lemma SortedSteps9(k: nat)
    requires 9 <= k < 12
    ensures SortStages()[k + 1] == InsertByWeight(ListedEdges()[k], SortStages()[k])
  {
    var t, p := ListedEdges()[k], SortStages()[k];
    if k == 9 {
      InsertByWeightAt(t, p, 8);
      assert SortStages()[10] == p[..8] + [t] + p[8..];
    } else if k == 10 {
      InsertByWeightAt(t, p, 8);
      assert SortStages()[11] == p[..8] + [t] + p[8..];
    } else {
      InsertByWeightAt(t, p, 9);
      assert SortStages()[12] == p[..9] + [t] + p[9..];
    }
  }

  lemma {:induction false} SortedPrefix(k: nat)
    requires k <= 12
    ensures SortByWeight(ListedEdges()[..k]) == SortStages()[k]
  {
    if k == 0 {
      assert ListedEdges()[..0] == [];
    } else {
      SortedPrefix(k - 1);
      SortByWeightStep(ListedEdges(), k - 1);
      if k - 1 < 3 {
        SortedSteps0(k - 1);
      } else if k - 1 < 6 {
        SortedSteps3(k - 1);
      } else if k - 1 < 9 {
        SortedSteps6(k - 1);
      } else {
        SortedSteps9(k - 1);
      }
    }
  }

  lemma Sorted()
    ensures SortByWeight(ListedEdges()) == SortedEdges()
  {
    SortedPrefix(12);
    assert ListedEdges()[..12] == ListedEdges();
    assert SortStages()[12] == SortedEdges();
  }

  // ---------------------------------------------------------------------
  // Stage 3: Kruskal, one edge at a time
  // ---------------------------------------------------------------------

  /** The labels and the kept edges after each number of sorted edges, from none to all twelve. */
  function KruskalStages(): seq<KruskalState> {
    [ KruskalState(map[], []),
      KruskalState(map[1 := 1, 4 := 1], [(1, 4)]),
      KruskalState(map[1 := 1, 4 := 1, 5 := 1], [(1, 4), (4, 5)]),
      KruskalState(map[1 := 1, 4 := 1, 5 := 1, 3 := 3, 6 := 3], [(1, 4), (4, 5), (3, 6)]),
      KruskalState(map[1 := 2, 4 := 2, 5 := 2, 2 := 2, 3 := 3, 6 := 3], [(1, 4), (4, 5), (3, 6), (2, 5)]),
      KruskalState(map[1 := 2, 4 := 2, 5 := 2, 2 := 2, 3 := 3, 6 := 3], [(1, 4), (4, 5), (3, 6), (2, 5)]),
      KruskalState(map[0 := 0, 1 := 0, 2 := 0, 4 := 0, 5 := 0, 3 := 3, 6 := 3], [(1, 4), (4, 5), (3, 6), (2, 5), (0, 1)]),
      KruskalState(map[0 := 3, 1 := 3, 2 := 3, 3 := 3, 4 := 3, 5 := 3, 6 := 3], [(1, 4), (4, 5), (3, 6), (2, 5), (0, 1), (3, 4)]),
      KruskalState(map[0 := 3, 1 := 3, 2 := 3, 3 := 3, 4 := 3, 5 := 3, 6 := 3], [(1, 4), (4, 5), (3, 6), (2, 5), (0, 1), (3, 4)]),
      KruskalState(map[0 := 3, 1 := 3, 2 := 3, 3 := 3, 4 := 3, 5 := 3, 6 := 3, 7 := 3], [(1, 4), (4, 5), (3, 6), (2, 5), (0, 1), (3, 4), (6, 7)]),
      KruskalState(map[0 := 3, 1 := 3, 2 := 3, 3 := 3, 4 := 3, 5 := 3, 6 := 3, 7 := 3, 8 := 3], [(1, 4), (4, 5), (3, 6), (2, 5), (0, 1), (3, 4), (6, 7), (7, 8)]),
      KruskalState(map[0 := 3, 1 := 3, 2 := 3, 3 := 3, 4 := 3, 5 := 3, 6 := 3, 7 := 3, 8 := 3], [(1, 4), (4, 5), (3, 6), (2, 5), (0, 1), (3, 4), (6, 7), (7, 8)]),
      KruskalState(map[0 := 3, 1 := 3, 2 := 3, 3 := 3, 4 := 3, 5 := 3, 6 := 3, 7 := 3, 8 := 3], [(1, 4), (4, 5), (3, 6), (2, 5), (0, 1), (3, 4), (6, 7), (7, 8)]) ]
  }

  /** Kruskal steps `0` and `1` on the sorted edges. */
  lemma KruskalSteps0(k: nat)
    requires 0 <= k < 2
    ensures KruskalStages()[k + 1] == KruskalStep(KruskalStages()[k], SortedEdges()[k])
  {
    var st, t := KruskalStages()[k], SortedEdges()[k];
    if k == 0 {
      assert KruskalStages()[1] == KruskalStep(st, t);
    } else {
      assert KruskalStages()[2] == KruskalStep(st, t);
    }
  }

  /** Kruskal steps `2` and `3` on the sorted edges. */
  lemma KruskalSteps2(k: nat)
    requires 2 <= k < 4
    ensures KruskalStages()[k + 1] == KruskalStep(KruskalStages()[k], SortedEdges()[k])
  {
    var st, t := KruskalStages()[k], SortedEdges()[k];
    if k == 2 {
      assert KruskalStages()[3] == KruskalStep(st, t);
    } else {
      assert KruskalStages()[4] == KruskalStep(st, t);
    }
  }

  /** Kruskal steps `4` and `5` on the sorted edges. */
  lemma KruskalSteps4(k: nat)
    requires 4 <= k < 6
    ensures KruskalStages()[k + 1] == KruskalStep(KruskalStages()[k], SortedEdges()[k])
  {
    var st, t := KruskalStages()[k], SortedEdges()[k];
    if k == 4 {
      assert KruskalStages()[5] == KruskalStep(st, t);
    } else {
      assert KruskalStages()[6] == KruskalStep(st, t);
    }
  }

  /** Kruskal steps `6` and `7` on the sorted edges. */
  lemma KruskalSteps6(k: nat)
    requires 6 <= k < 8
    ensures KruskalStages()[k + 1] == KruskalStep(KruskalStages()[k], SortedEdges()[k])
  {
    var st, t := KruskalStages()[k], SortedEdges()[k];
    if k == 6 {
      assert KruskalStages()[7] == KruskalStep(st, t);
    } else {
      assert KruskalStages()[8] == KruskalStep(st, t);
    }
  }

  /** Kruskal steps `8` and `9` on the sorted edges. */
  lemma KruskalSteps8(k: nat)
    requires 8 <= k < 10
    ensures KruskalStages()[k + 1] == KruskalStep(KruskalStages()[k], SortedEdges()[k])
  {
    var st, t := KruskalStages()[k], SortedEdges()[k];
    if k == 8 {
      assert KruskalStages()[9] == KruskalStep(st, t);
    } else {
      assert KruskalStages()[10] == KruskalStep(st, t);
    }
  }

  /** Kruskal steps `10` and `11` on the sorted edges. */
  lemma KruskalSteps10(k: nat)
    requires 10 <= k < 12
    ensures KruskalStages()[k + 1] == KruskalStep(KruskalStages()[k], SortedEdges()[k])
  {
    var st, t := KruskalStages()[k], SortedEdges()[k];
    if k == 10 {
      assert KruskalStages()[11] == KruskalStep(st, t);
    } else {
      assert KruskalStages()[12] == KruskalStep(st, t);
    }
  }

  lemma {:induction false} KruskalPrefix(k: nat)
    requires k <= 12
    ensures KruskalRef(SortedEdges()[..k]) == KruskalStages()[k]
  {
    if k == 0 {
      assert SortedEdges()[..0] == [];
    } else {
      KruskalPrefix(k - 1);
      KruskalRefStep(SortedEdges(), k - 1);
      var i := k - 1;
      if i < 2 {
        KruskalSteps0(i);
      } else if i < 4 {
        KruskalSteps2(i);
      } else if i < 6 {
        KruskalSteps4(i);
      } else if i < 8 {
        KruskalSteps6(i);
      } else if i < 10 {
        KruskalSteps8(i);
      } else {
        KruskalSteps10(i);
      }
    }
  }

  /** The reference Kruskal run on the test graph keeps exactly the expected tree. */
  lemma MstWorksKept()
    ensures KruskalRef(SortByWeight(AllEdges(TestGraph()))).kept == ExpectedTree()
  {
    assert AllEdges(TestGraph()) == ListedEdges() by { Listed(); }
    assert SortByWeight(ListedEdges()) == SortedEdges() by { Sorted(); }
    assert KruskalRef(SortedEdges()).kept == ExpectedTree() by {
      KruskalPrefix(12);
      assert SortedEdges()[..12] == SortedEdges();
      assert KruskalStages()[12].kept == ExpectedTree();
    }
  }

  /** `mst_works`: the kept edges are exactly the expected tree, in order. */
  method MstWorksResult() returns (result: seq<(nat, nat)>)
    ensures result == ExpectedTree()
  {
    result := Mst(TestGraph());
    MstWorksKept();
  }
}
