/** The stage sort of `BuildTree::build` as written never ends on a small,
    well-formed build file. */
module SortFinding {
  import opened Wrappers
  import opened BuildFile
  import opened BuildTree
  import opened Stages
  import Dependents
  import Parser
  import TargetNames
  import Instructions

  const R := Target("r", ["x"], ["a", "b"])
  const A := Target("a", ["x"], [])
  const B := Target("b", ["x"], ["c"])
  const C := Target("c", ["x"], ["d"])
  const D := Target("d", ["x"], [])

  /** The build file `\nr: a b\n\tx\n\na:\n\tx\n\nb: c\n\tx\n\nc: d\n\tx\n\nd:\n\tx\n\n`:
      a blank line, then five blocks, each with the one instruction `x` and a
      closing blank line. */
  const BlockR := Parser.OneBlockText('r', " a b")
  const BlockA := Parser.OneBlockText('a', "")
  const BlockB := Parser.OneBlockText('b', " c")
  const BlockC := Parser.OneBlockText('c', " d")
  const BlockD := Parser.OneBlockText('d', "")
  const ChainFile := "\n" + BlockR + BlockA + BlockB + BlockC + BlockD

  /** The targets of `ChainFile`, in file order. */
  const Chain := [R, A, B, C, D]

  // ---------------------------------------------------------------------------
  // The build file is read as `Chain`
  // ---------------------------------------------------------------------------

  lemma NoWords()
    ensures Dependents.Words([]) == []
  {
  }

  lemma OneWord(x: char)
    requires !Dependents.IsBlank(x)
    ensures Dependents.Words([' ', x]) == [[x]]
  {
    assert [' ', x][1..] == [x];
    Dependents.WordsOfWord([x], []);
    assert [x] + [] == [x];
  }

  lemma TwoWords(x: char, y: char)
    requires !Dependents.IsBlank(x) && !Dependents.IsBlank(y)
    ensures Dependents.Words([' ', x, ' ', y]) == [[x], [y]]
  {
    assert [' ', x, ' ', y][1..] == [x] + [' ', y];
    Dependents.WordsOfWord([x], [' ', y]);
    OneWord(y);
  }

  lemma ChainLength()
    ensures |BlockR| == 11 && |BlockA| == 7 && |BlockB| == 9 && |BlockC| == 9 && |BlockD| == 7
    ensures |ChainFile| == 44
  {
  }

  /** The blank line before the first block is skipped. */
  lemma ReadLead(exec: Executor)
    ensures Parser.ParseStep(ChainFile, exec, 0, map[]) == Success(Parser.Blank(1))
  {
    assert ChainFile[0] == '\n';
  }

  lemma LayoutR()
    ensures Parser.LaidOut(ChainFile, 1, 'r', " a b")
    ensures Parser.BodyAt(ChainFile, 8)
  {
    ChainLength();
    assert ChainFile == ("\n") + BlockR + (BlockA + BlockB + BlockC + BlockD);
    Parser.LayoutInFile("\n", 'r', " a b", BlockA + BlockB + BlockC + BlockD);
  }

  lemma NameR()
    ensures 1 < |ChainFile| && ChainFile[1] != '\n' && !Parser.StartsExport(ChainFile, 1)
    ensures TargetNames.ParseTargetName(ChainFile, 1) == Success(Some(TargetNames.NameToken("r", 2)))
  {
    LayoutR();
    Parser.HeaderNamePart(ChainFile, 1, 'r');
  }

  lemma DepsR()
    ensures Dependents.ParseTargetDependents(ChainFile, 3) == Success(Dependents.DepList(["a", "b"], 8))
  {
    LayoutR();
    TwoWords('a', 'b');
    Parser.LaidOutLine(ChainFile, 1, 'r', " a b");
    Parser.DependencyLine(ChainFile, 3, 7, " a b", 8);
  }

  lemma BodyR()
    ensures Instructions.ParseBuildInstructions(ChainFile, 8, map[]) == Success(Instructions.InstrList(["x"], 12))
  {
    LayoutR();
    Parser.OneInstructionBody(ChainFile, 8, map[]);
  }

  lemma ReadR(exec: Executor)
    ensures Parser.ParseStep(ChainFile, exec, 1, map[]) == Success(Parser.Block(R, 12))
  {
    NameR();
    DepsR();
    BodyR();
    Parser.BlockStepFrom(ChainFile, exec, 1, map[], "r", ["a", "b"], 8, ["x"], 12);
  }

  lemma LayoutA()
    ensures Parser.LaidOut(ChainFile, 12, 'a', "")
    ensures Parser.BodyAt(ChainFile, 15)
  {
    ChainLength();
    assert ChainFile == ("\n" + BlockR) + BlockA + (BlockB + BlockC + BlockD);
    Parser.LayoutInFile("\n" + BlockR, 'a', "", BlockB + BlockC + BlockD);
  }

  lemma NameA()
    ensures 12 < |ChainFile| && ChainFile[12] != '\n' && !Parser.StartsExport(ChainFile, 12)
    ensures TargetNames.ParseTargetName(ChainFile, 12) == Success(Some(TargetNames.NameToken("a", 13)))
  {
    LayoutA();
    Parser.HeaderNamePart(ChainFile, 12, 'a');
  }

  lemma DepsA()
    ensures Dependents.ParseTargetDependents(ChainFile, 14) == Success(Dependents.DepList([], 15))
  {
    LayoutA();
    NoWords();
    Parser.LaidOutLine(ChainFile, 12, 'a', "");
    Parser.DependencyLine(ChainFile, 14, 14, "", 15);
  }

  lemma BodyA()
    ensures Instructions.ParseBuildInstructions(ChainFile, 15, map[]) == Success(Instructions.InstrList(["x"], 19))
  {
    LayoutA();
    Parser.OneInstructionBody(ChainFile, 15, map[]);
  }

  lemma ReadA(exec: Executor)
    ensures Parser.ParseStep(ChainFile, exec, 12, map[]) == Success(Parser.Block(A, 19))
  {
    NameA();
    DepsA();
    BodyA();
    Parser.BlockStepFrom(ChainFile, exec, 12, map[], "a", [], 15, ["x"], 19);
  }

  lemma LayoutB()
    ensures Parser.LaidOut(ChainFile, 19, 'b', " c")
    ensures Parser.BodyAt(ChainFile, 24)
  {
    ChainLength();
    assert ChainFile == ("\n" + BlockR + BlockA) + BlockB + (BlockC + BlockD);
    Parser.LayoutInFile("\n" + BlockR + BlockA, 'b', " c", BlockC + BlockD);
  }

  lemma NameB()
    ensures 19 < |ChainFile| && ChainFile[19] != '\n' && !Parser.StartsExport(ChainFile, 19)
    ensures TargetNames.ParseTargetName(ChainFile, 19) == Success(Some(TargetNames.NameToken("b", 20)))
  {
    LayoutB();
    Parser.HeaderNamePart(ChainFile, 19, 'b');
  }

  lemma DepsB()
    ensures Dependents.ParseTargetDependents(ChainFile, 21) == Success(Dependents.DepList(["c"], 24))
  {
    LayoutB();
    OneWord('c');
    Parser.LaidOutLine(ChainFile, 19, 'b', " c");
    Parser.DependencyLine(ChainFile, 21, 23, " c", 24);
  }

  lemma BodyB()
    ensures Instructions.ParseBuildInstructions(ChainFile, 24, map[]) == Success(Instructions.InstrList(["x"], 28))
  {
    LayoutB();
    Parser.OneInstructionBody(ChainFile, 24, map[]);
  }

  lemma ReadB(exec: Executor)
    ensures Parser.ParseStep(ChainFile, exec, 19, map[]) == Success(Parser.Block(B, 28))
  {
    NameB();
    DepsB();
    BodyB();
    Parser.BlockStepFrom(ChainFile, exec, 19, map[], "b", ["c"], 24, ["x"], 28);
  }

  lemma LayoutC()
    ensures Parser.LaidOut(ChainFile, 28, 'c', " d")
    ensures Parser.BodyAt(ChainFile, 33)
  {
    ChainLength();
    assert ChainFile == ("\n" + BlockR + BlockA + BlockB) + BlockC + (BlockD);
    Parser.LayoutInFile("\n" + BlockR + BlockA + BlockB, 'c', " d", BlockD);
  }

  lemma NameC()
    ensures 28 < |ChainFile| && ChainFile[28] != '\n' && !Parser.StartsExport(ChainFile, 28)
    ensures TargetNames.ParseTargetName(ChainFile, 28) == Success(Some(TargetNames.NameToken("c", 29)))
  {
    LayoutC();
    Parser.HeaderNamePart(ChainFile, 28, 'c');
  }

  lemma DepsC()
    ensures Dependents.ParseTargetDependents(ChainFile, 30) == Success(Dependents.DepList(["d"], 33))
  {
    LayoutC();
    OneWord('d');
    Parser.LaidOutLine(ChainFile, 28, 'c', " d");
    Parser.DependencyLine(ChainFile, 30, 32, " d", 33);
  }

  lemma BodyC()
    ensures Instructions.ParseBuildInstructions(ChainFile, 33, map[]) == Success(Instructions.InstrList(["x"], 37))
  {
    LayoutC();
    Parser.OneInstructionBody(ChainFile, 33, map[]);
  }

  lemma ReadC(exec: Executor)
    ensures Parser.ParseStep(ChainFile, exec, 28, map[]) == Success(Parser.Block(C, 37))
  {
    NameC();
    DepsC();
    BodyC();
    Parser.BlockStepFrom(ChainFile, exec, 28, map[], "c", ["d"], 33, ["x"], 37);
  }

  lemma LayoutD()
    ensures Parser.LaidOut(ChainFile, 37, 'd', "")
    ensures Parser.BodyAt(ChainFile, 40)
  {
    ChainLength();
    assert ChainFile == ("\n" + BlockR + BlockA + BlockB + BlockC) + BlockD + ([]);
    Parser.LayoutInFile("\n" + BlockR + BlockA + BlockB + BlockC, 'd', "", []);
  }

  lemma NameD()
    ensures 37 < |ChainFile| && ChainFile[37] != '\n' && !Parser.StartsExport(ChainFile, 37)
    ensures TargetNames.ParseTargetName(ChainFile, 37) == Success(Some(TargetNames.NameToken("d", 38)))
  {
    LayoutD();
    Parser.HeaderNamePart(ChainFile, 37, 'd');
  }

  lemma DepsD()
    ensures Dependents.ParseTargetDependents(ChainFile, 39) == Success(Dependents.DepList([], 40))
  {
    LayoutD();
    NoWords();
    Parser.LaidOutLine(ChainFile, 37, 'd', "");
    Parser.DependencyLine(ChainFile, 39, 39, "", 40);
  }

  lemma BodyD()
    ensures Instructions.ParseBuildInstructions(ChainFile, 40, map[]) == Success(Instructions.InstrList(["x"], 44))
  {
    LayoutD();
    Parser.OneInstructionBody(ChainFile, 40, map[]);
  }

  lemma ReadD(exec: Executor)
    ensures Parser.ParseStep(ChainFile, exec, 37, map[]) == Success(Parser.Block(D, 44))
  {
    NameD();
    DepsD();
    BodyD();
    Parser.BlockStepFrom(ChainFile, exec, 37, map[], "d", [], 40, ["x"], 44);
  }

  /** The build file is read block by block into exactly `Chain`, with no
      globals, whatever the executor does. */
  lemma ChainFileParses(exec: Executor)
    ensures Parser.Parse(ChainFile, exec) == Success(Parser.Parsed(Chain, map[]))
  {
    ReadLead(exec);
    Parser.ParseFromStep(ChainFile, exec, 0, map[], []);
    ReadR(exec);
    ReadA(exec);
    ReadB(exec);
    ReadC(exec);
    ReadD(exec);
    ChainLength();
    Parser.ParseFromBlock(ChainFile, exec, 1, map[], [], R, 12);
    Parser.ParseFromBlock(ChainFile, exec, 12, map[], [R], A, 19);
    Parser.ParseFromBlock(ChainFile, exec, 19, map[], [R, A], B, 28);
    Parser.ParseFromBlock(ChainFile, exec, 28, map[], [R, A, B], C, 37);
    Parser.ParseFromBlock(ChainFile, exec, 37, map[], [R, A, B, C], D, 44);
    Parser.ParseFromEnd(ChainFile, exec, 44, map[], [R, A, B, C, D]);
    assert [] + [R] == [R] && [R] + [A] == [R, A] && [R, A] + [B] == [R, A, B];
    assert [R, A, B] + [C] == [R, A, B, C] && [R, A, B, C] + [D] == Chain;
  }

  /** The stage orders the source's passes alternate between. */
  const Forth := [Stage(1, [A, B]), Stage(3, [D]), Stage(0, [R]), Stage(2, [C])]
  const Back := [Stage(2, [C]), Stage(3, [D]), Stage(0, [R]), Stage(1, [A, B])]

  /** The tree of `Chain` rooted at `r`, and its stages in grouping order. */
  const ChainNodes := [Node(A, 1), Node(D, 3), Node(C, 2), Node(B, 1), Node(R, 0)]
  const Grouped := [Stage(1, [A, B]), Stage(3, [D]), Stage(2, [C]), Stage(0, [R])]

  lemma NamesDiffer()
    ensures "r" != "a" && "r" != "b" && "r" != "c" && "r" != "d"
    ensures "a" != "b" && "a" != "c" && "a" != "d"
    ensures "b" != "c" && "b" != "d" && "c" != "d"
  {
    assert "r"[0] != "a"[0] && "r"[0] != "b"[0] && "r"[0] != "c"[0] && "r"[0] != "d"[0];
    assert "a"[0] != "b"[0] && "a"[0] != "c"[0] && "a"[0] != "d"[0];
    assert "b"[0] != "c"[0] && "b"[0] != "d"[0] && "c"[0] != "d"[0];
  }

  lemma Lookups()
    ensures FindTarget(Chain, "a") == Some(1)
    ensures FindTarget(Chain, "b") == Some(2)
    ensures FindTarget(Chain, "c") == Some(3)
    ensures FindTarget(Chain, "d") == Some(4)
  {
    NamesDiffer();
    assert Chain[0].name == "r" && Chain[1].name == "a" && Chain[2].name == "b";
    assert Chain[3].name == "c" && Chain[4].name == "d";
  }

  /** Appending a name the tree does not hold yet. */
  lemma InsertFresh(tree: seq<Node>, t: Target, depth: nat)
    requires forall k :: 0 <= k < |tree| ==> tree[k].target.name != t.name
    ensures InsertNodeDepth(tree, t, depth) == tree + [Node(t, depth)]
  {
    assert FindNode(tree, t.name).None?;
    assert Kept(tree, t.name, depth) == tree;
  }

  lemma BranchD()
    ensures AddDependencies(Chain, ["d"], 3, [Node(A, 1)]) == Success([Node(A, 1), Node(D, 3)])
  {
    Lookups();
    NamesDiffer();
    InsertFresh([Node(A, 1)], D, 3);
    assert Chain[4] == D && |D.dependencies| == 0;
    assert InsertNodeDepth([Node(A, 1)], D, 3) == [Node(A, 1), Node(D, 3)];
    assert AddBranch(Chain, 4, 3, [Node(A, 1)]) == Success(InsertNodeDepth([Node(A, 1)], Chain[4], 3));
    assert AddBranch(Chain, 4, 3, [Node(A, 1)]) == Success([Node(A, 1), Node(D, 3)]);
  }

  lemma BranchC()
    ensures AddDependencies(Chain, ["c"], 2, [Node(A, 1)]) == Success([Node(A, 1), Node(D, 3), Node(C, 2)])
  {
    Lookups();
    NamesDiffer();
    BranchD();
    InsertFresh([Node(A, 1), Node(D, 3)], C, 2);
    assert Chain[3] == C && C.dependencies == ["d"];
    assert InsertNodeDepth([Node(A, 1), Node(D, 3)], C, 2) == [Node(A, 1), Node(D, 3), Node(C, 2)];
    assert AddBranch(Chain, 3, 2, [Node(A, 1)])
        == Success(InsertNodeDepth(AddDependencies(Chain, ["d"], 3, [Node(A, 1)]).value, Chain[3], 2));
    assert AddBranch(Chain, 3, 2, [Node(A, 1)]) == Success([Node(A, 1), Node(D, 3), Node(C, 2)]);
  }

  lemma BranchB()
    ensures AddDependencies(Chain, ["b"], 1, [Node(A, 1)]) == Success(ChainNodes[..4])
  {
    Lookups();
    NamesDiffer();
    BranchC();
    InsertFresh([Node(A, 1), Node(D, 3), Node(C, 2)], B, 1);
    assert Chain[2] == B && B.dependencies == ["c"];
    assert ChainNodes[..4] == [Node(A, 1), Node(D, 3), Node(C, 2), Node(B, 1)];
    assert InsertNodeDepth([Node(A, 1), Node(D, 3), Node(C, 2)], B, 1) == ChainNodes[..4];
    assert AddBranch(Chain, 2, 1, [Node(A, 1)])
        == Success(InsertNodeDepth(AddDependencies(Chain, ["c"], 2, [Node(A, 1)]).value, Chain[2], 1));
    assert AddBranch(Chain, 2, 1, [Node(A, 1)]) == Success(ChainNodes[..4]);
  }

  lemma BranchA()
    ensures AddBranch(Chain, 1, 1, []) == Success([Node(A, 1)])
  {
    InsertFresh([], A, 1);
    assert Chain[1] == A && [] + [Node(A, 1)] == [Node(A, 1)];
  }

  lemma DependenciesAB()
    ensures AddDependencies(Chain, ["a", "b"], 1, []) == Success(ChainNodes[..4])
  {
    Lookups();
    BranchA();
    BranchB();
    assert ["a", "b"][1..] == ["b"];
    assert AddDependencies(Chain, ["a", "b"], 1, []) == AddDependencies(Chain, ["b"], 1, [Node(A, 1)]);
  }

  lemma ChainTree()
    ensures New(Chain, 0) == Success(ChainNodes)
  {
    NamesDiffer();
    DependenciesAB();
    assert ChainNodes[..4] == [Node(A, 1), Node(D, 3), Node(C, 2), Node(B, 1)];
    InsertFresh(ChainNodes[..4], R, 0);
    assert ChainNodes[..4] + [Node(R, 0)] == ChainNodes;
    assert Chain[0] == R && R.dependencies == ["a", "b"];
    assert AddBranch(Chain, 0, 0, []) == Success(InsertNodeDepth(ChainNodes[..4], Chain[0], 0));
  }

  lemma GroupStep(tree: seq<Node>, prev: seq<Stage>, i: nat, stage: Stage)
    requires |tree| > 0 && Group(tree[..|tree| - 1]) == prev
    requires StageOf(prev, tree[|tree| - 1].depth) == Some(i)
    requires stage == Stage(tree[|tree| - 1].depth, prev[i].targets + [tree[|tree| - 1].target])
    ensures Group(tree) == prev[i := stage]
  {
  }

  lemma GroupNew(tree: seq<Node>, prev: seq<Stage>)
    requires |tree| > 0 && Group(tree[..|tree| - 1]) == prev
    requires forall i :: 0 <= i < |prev| ==> prev[i].depth != tree[|tree| - 1].depth
    ensures Group(tree) == prev + [Stage(tree[|tree| - 1].depth, [tree[|tree| - 1].target])]
  {
    assert StageOf(prev, tree[|tree| - 1].depth).None?;
  }

  lemma OneStage()
    ensures Group([Node(A, 1)]) == [Stage(1, [A])]
  {
    assert [Node(A, 1)][..0] == [];
    GroupNew([Node(A, 1)], []);
  }

  lemma TwoStages()
    ensures Group([Node(A, 1), Node(D, 3)]) == [Stage(1, [A]), Stage(3, [D])]
  {
    var t := [Node(A, 1), Node(D, 3)];
    assert t[..1] == [Node(A, 1)];
    OneStage();
    GroupNew(t, [Stage(1, [A])]);
  }

  lemma FirstThreeStages()
    ensures Group(ChainNodes[..3]) == [Stage(1, [A]), Stage(3, [D]), Stage(2, [C])]
  {
    var t := [Node(A, 1), Node(D, 3), Node(C, 2)];
    assert ChainNodes[..3] == t;
    assert t[..2] == [Node(A, 1), Node(D, 3)];
    TwoStages();
    GroupNew(t, [Stage(1, [A]), Stage(3, [D])]);
  }

  lemma FourStages()
    ensures Group(ChainNodes[..4]) == [Stage(1, [A, B]), Stage(3, [D]), Stage(2, [C])]
  {
    var t := [Node(A, 1), Node(D, 3), Node(C, 2), Node(B, 1)];
    assert ChainNodes[..4] == t;
    assert t[..3] == ChainNodes[..3];
    FirstThreeStages();
    var g3 := [Stage(1, [A]), Stage(3, [D]), Stage(2, [C])];
    assert StageOf(g3, 1) == Some(0);
    assert g3[0].targets + [B] == [A, B];
    GroupStep(t, g3, 0, Stage(1, [A, B]));
    assert g3[0 := Stage(1, [A, B])] == [Stage(1, [A, B]), Stage(3, [D]), Stage(2, [C])];
  }

  lemma ChainStages()
    ensures Group(ChainNodes) == Grouped
  {
    var t := ChainNodes;
    assert t[..|t| - 1] == ChainNodes[..4] && t[|t| - 1] == Node(R, 0);
    FourStages();
    var g4 := [Stage(1, [A, B]), Stage(3, [D]), Stage(2, [C])];
    GroupNew(t, g4);
    assert g4 + [Stage(0, [R])] == Grouped;
  }

  lemma {:induction false} Alternates(fuel: nat)
    ensures AsWrittenSort(Forth, fuel) == Unsettled
    ensures AsWrittenSort(Back, fuel) == Unsettled
    decreases fuel
  {
    assert Swap(Forth, 0, 3) == Back;
    assert AsWrittenPass(Back, 3, Some(0), true) == Some((Back, true));
    assert AsWrittenPass(Forth, 2, Some(3), false) == Some((Back, true));
    assert AsWrittenPass(Forth, 0, None, false) == Some((Back, true));
    assert Swap(Back, 0, 3) == Forth;
    assert AsWrittenPass(Forth, 3, Some(0), true) == Some((Forth, true));
    assert AsWrittenPass(Back, 2, Some(3), false) == Some((Forth, true));
    assert AsWrittenPass(Back, 0, None, false) == Some((Forth, true));
    if fuel > 0 {
      Alternates(fuel - 1);
    }
  }

  /** However many passes are allowed, the source's loop is still running:
      the first pass turns depths 1 3 2 0 into 1 3 0 2, and from there every
      pass swaps positions 0 and 3, moving between 1 3 0 2 and 2 3 0 1. */
  lemma ChainNeverSettles(fuel: nat)
    ensures AsWrittenSort(Grouped, fuel) == Unsettled
  {
    assert Swap(Grouped, 2, 3) == Forth;
    assert AsWrittenPass(Forth, 3, Some(0), true) == Some((Forth, true));
    assert AsWrittenPass(Grouped, 2, Some(3), false) == Some((Forth, true));
    assert AsWrittenPass(Grouped, 0, None, false) == Some((Forth, true));
    if fuel > 0 {
      Alternates(fuel - 1);
    }
  }

  /** The corrected sort orders the same stages deepest-last. */
  lemma ChainCorrected()
    ensures SortStages(Grouped) == [Stage(0, [R]), Stage(1, [A, B]), Stage(2, [C]), Stage(3, [D])]
  {
  }

  /** End to end: the build file parses into `Chain`, the tree rooted at `r`
      is built, and the sort as written never settles on its stages. */
  lemma ChainFileHangs(exec: Executor, fuel: nat)
    ensures Parser.Parse(ChainFile, exec) == Success(Parser.Parsed(Chain, map[]))
    ensures FindTarget(Chain, "r") == Some(0)
    ensures New(Chain, 0) == Success(ChainNodes)
    ensures AsWrittenSort(Group(ChainNodes), fuel) == Unsettled
  {
    ChainFileParses(exec);
    assert Chain[0].name == "r";
    ChainTree();
    ChainStages();
    ChainNeverSettles(fuel);
  }
}
