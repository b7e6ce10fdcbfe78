/** A shared dependency reached along two paths of the same length is
    recorded, and run, twice: `insert_node_depth` (src/main.rs:347-365)
    removes an earlier entry only when it is strictly shallower, and appends
    the new entry in every case. */
module Diamond {
  import opened Wrappers
  import opened BuildFile
  import opened BuildTree
  import opened Stages
  import opened Plan
  import SortFinding

  /** `r: a b`, `a: c`, `b: c`, `c:`, each with the instruction `x`. */
  const R := Target("r", ["x"], ["a", "b"])
  const A := Target("a", ["x"], ["c"])
  const B := Target("b", ["x"], ["c"])
  const C := Target("c", ["x"], [])
  const Targets := [R, A, B, C]

  /** The tree rooted at `r`: `c` sits there twice, both times at depth 2. */
  const DiamondNodes := [Node(C, 2), Node(A, 1), Node(C, 2), Node(B, 1), Node(R, 0)]

  lemma Lookups()
    ensures FindTarget(Targets, "a") == Some(1)
    ensures FindTarget(Targets, "b") == Some(2)
    ensures FindTarget(Targets, "c") == Some(3)
  {
    SortFinding.NamesDiffer();
    assert Targets[0].name == "r" && Targets[1].name == "a" && Targets[2].name == "b" && Targets[3].name == "c";
  }

  lemma LeafC(tree: seq<Node>)
    ensures AddDependencies(Targets, ["c"], 2, tree) == Success(InsertNodeDepth(tree, C, 2))
  {
    Lookups();
    assert Targets[3] == C && |C.dependencies| == 0;
    assert AddBranch(Targets, 3, 2, tree) == Success(InsertNodeDepth(tree, C, 2));
    assert ["c"][1..] == [];
  }

  /** The second visit of `c` finds the first entry at the same depth and
      keeps it, then appends another. */
  lemma SecondVisit()
    ensures InsertNodeDepth([Node(C, 2), Node(A, 1)], C, 2) == [Node(C, 2), Node(A, 1), Node(C, 2)]
  {
    assert FindNode([Node(C, 2), Node(A, 1)], "c") == Some(0);
  }

  lemma BranchA()
    ensures AddBranch(Targets, 1, 1, []) == Success([Node(C, 2), Node(A, 1)])
  {
    LeafC([]);
    SortFinding.InsertFresh([], C, 2);
    assert [] + [Node(C, 2)] == [Node(C, 2)];
    SortFinding.NamesDiffer();
    SortFinding.InsertFresh([Node(C, 2)], A, 1);
    assert Targets[1] == A && A.dependencies == ["c"];
    assert InsertNodeDepth([Node(C, 2)], A, 1) == [Node(C, 2), Node(A, 1)];
    assert AddDependencies(Targets, ["c"], 2, []) == Success([Node(C, 2)]);
    assert AddBranch(Targets, 1, 1, [])
        == Success(InsertNodeDepth(AddDependencies(Targets, ["c"], 2, []).value, Targets[1], 1));
  }

  lemma BranchB()
    ensures AddDependencies(Targets, ["b"], 1, [Node(C, 2), Node(A, 1)])
         == Success([Node(C, 2), Node(A, 1), Node(C, 2), Node(B, 1)])
  {
    Lookups();
    LeafC([Node(C, 2), Node(A, 1)]);
    SecondVisit();
    SortFinding.NamesDiffer();
    SortFinding.InsertFresh([Node(C, 2), Node(A, 1), Node(C, 2)], B, 1);
    assert Targets[2] == B && B.dependencies == ["c"];
    assert InsertNodeDepth([Node(C, 2), Node(A, 1), Node(C, 2)], B, 1) == [Node(C, 2), Node(A, 1), Node(C, 2), Node(B, 1)];
    assert AddDependencies(Targets, ["c"], 2, [Node(C, 2), Node(A, 1)]) == Success([Node(C, 2), Node(A, 1), Node(C, 2)]);
    assert AddBranch(Targets, 2, 1, [Node(C, 2), Node(A, 1)])
        == Success(InsertNodeDepth(AddDependencies(Targets, ["c"], 2, [Node(C, 2), Node(A, 1)]).value, Targets[2], 1));
    assert AddBranch(Targets, 2, 1, [Node(C, 2), Node(A, 1)])
        == Success([Node(C, 2), Node(A, 1), Node(C, 2), Node(B, 1)]);
    assert ["b"][1..] == [];
  }

  lemma DiamondTree()
    ensures New(Targets, 0) == Success(DiamondNodes)
  {
    Lookups();
    BranchA();
    BranchB();
    assert ["a", "b"][1..] == ["b"];
    var four := [Node(C, 2), Node(A, 1), Node(C, 2), Node(B, 1)];
    assert AddDependencies(Targets, ["a", "b"], 1, []) == Success(four);
    SortFinding.NamesDiffer();
    SortFinding.InsertFresh(four, R, 0);
    assert Targets[0] == R && R.dependencies == ["a", "b"];
    assert four + [Node(R, 0)] == DiamondNodes;
  }

  /** The first three entries: `c` twice at depth 2, then `a` at depth 1. */
  lemma FirstGroups()
    ensures Group(DiamondNodes[..3]) == [Stage(2, [C, C]), Stage(1, [A])]
  {
    var t := DiamondNodes;
    assert t[..1] == [Node(C, 2)] && [Node(C, 2)][..0] == [];
    SortFinding.GroupNew(t[..1], []);
    assert t[..2][..1] == t[..1];
    SortFinding.GroupNew(t[..2], [Stage(2, [C])]);
    var g2 := [Stage(2, [C]), Stage(1, [A])];
    assert t[..3][..2] == t[..2] && StageOf(g2, 2) == Some(0);
    SortFinding.GroupStep(t[..3], g2, 0, Stage(2, [C, C]));
    assert g2[0 := Stage(2, [C, C])] == [Stage(2, [C, C]), Stage(1, [A])];
  }

  lemma DiamondGroups()
    ensures Group(DiamondNodes) == [Stage(2, [C, C]), Stage(1, [A, B]), Stage(0, [R])]
  {
    var t := DiamondNodes;
    FirstGroups();
    var g3 := [Stage(2, [C, C]), Stage(1, [A])];
    assert g3[0].depth != 1 && g3[1].depth == 1;
    assert t[..4][..3] == t[..3] && StageOf(g3, 1) == Some(1);
    SortFinding.GroupStep(t[..4], g3, 1, Stage(1, [A, B]));
    var g4 := [Stage(2, [C, C]), Stage(1, [A, B])];
    assert g3[1 := Stage(1, [A, B])] == g4;
    assert t[..4] == t[..|t| - 1];
    SortFinding.GroupNew(t, g4);
  }

  lemma DiamondSorted()
    ensures SortStages([Stage(2, [C, C]), Stage(1, [A, B]), Stage(0, [R])])
         == [Stage(0, [R]), Stage(1, [A, B]), Stage(2, [C, C])]
  {
  }

  lemma DiamondPlan()
    ensures StagePlan(DiamondNodes) == [Stage(2, [C, C]), Stage(1, [A, B]), Stage(0, [R])]
  {
    DiamondGroups();
    DiamondSorted();
    assert Reverse([Stage(0, [R]), Stage(1, [A, B]), Stage(2, [C, C])])
        == [Stage(2, [C, C]), Stage(1, [A, B]), Stage(0, [R])];
  }

  lemma DiamondRunOrder()
    ensures RunOrder([Stage(2, [C, C]), Stage(1, [A, B]), Stage(0, [R])]) == [C, C, A, B, R]
  {
    var g := [Stage(2, [C, C]), Stage(1, [A, B]), Stage(0, [R])];
    assert RunOrder(g[2..]) == [R] + RunOrder([]);
    assert RunOrder(g[1..]) == [A, B] + RunOrder(g[2..]);
  }

  /** The run order builds `c` twice before `a`, `b` and `r`. */
  lemma SharedDependencyRunsTwice()
    ensures New(Targets, 0) == Success(DiamondNodes)
    ensures RunOrder(StagePlan(DiamondNodes)) == [C, C, A, B, R]
  {
    DiamondTree();
    DiamondPlan();
    DiamondRunOrder();
  }
}
