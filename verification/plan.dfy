/** The order in which `BuildTree::build` runs the targets of a tree
    (src/main.rs:269-312), with the sort corrected. */
module Plan {
  import opened Wrappers
  import opened BuildFile
  import opened BuildTree
  import opened TreeInvariants
  import opened Stages

  function Reverse(s: seq<Stage>): (r: seq<Stage>)
    ensures |r| == |s| && forall i :: 0 <= i < |s| ==> r[i] == s[|s| - 1 - i]
  {
    if |s| == 0 then [] else [s[|s| - 1]] + Reverse(s[..|s| - 1])
  }

  /** The stages in the order `build` runs them: sorted by depth, then
      reversed, so the deepest stage runs first. */
  function StagePlan(tree: seq<Node>): seq<Stage> {
    Reverse(SortStages(Group(tree)))
  }

  /** The plan is the one the source's own sort gives whenever that sort
      ends: grouping yields distinct depths, and the loop as written then
      stops at the same order as the corrected sort. */
  lemma AsWrittenPlanAgrees(tree: seq<Node>, fuel: nat)
    requires AsWrittenSort(Group(tree), fuel).Settled?
    ensures Reverse(AsWrittenSort(Group(tree), fuel).stages) == StagePlan(tree)
  {
    GroupIsGrouping(tree);
    AsWrittenAgreesWhenSettled(Group(tree), fuel);
  }

  /** The targets in the order they run: stage by stage, each stage in
      entry order. */
  function RunOrder(plan: seq<Stage>): seq<Target> {
    if |plan| == 0 then [] else plan[0].targets + RunOrder(plan[1..])
  }

  lemma InGroup(tree: seq<Node>, i: nat) returns (g: nat)
    requires i < |StagePlan(tree)|
    ensures g < |Group(tree)| && Group(tree)[g] == StagePlan(tree)[i]
  {
    var group := Group(tree);
    var sorted := SortStages(group);
    var x := sorted[|sorted| - 1 - i];
    assert StagePlan(tree)[i] == x;
    g := MembersOf(sorted, group, x);
  }

  /** Each stage of the plan holds exactly the targets of the entries at its depth. */
  lemma PlanStage(tree: seq<Node>, i: nat)
    requires i < |StagePlan(tree)|
    ensures StagePlan(tree)[i].targets == TargetsAt(tree, StagePlan(tree)[i].depth)
  {
    var g := InGroup(tree, i);
    GroupIsGrouping(tree);
  }

  /** Sorting and reversing keeps every stage. */
  lemma InPlan(stages: seq<Stage>, g: nat) returns (i: nat)
    requires g < |stages|
    ensures var plan := Reverse(SortStages(stages));
      i < |plan| && plan[i] == stages[g]
  {
    var sorted := SortStages(stages);
    var a := MembersOf(stages, sorted, stages[g]);
    i := |sorted| - 1 - a;
  }

  /** The depth of every entry has a stage in the plan. */
  lemma StageAtDepth(tree: seq<Node>, k: nat) returns (i: nat)
    requires k < |tree|
    ensures i < |StagePlan(tree)| && StagePlan(tree)[i].depth == tree[k].depth
  {
    GroupIsGrouping(tree);
    var g := StageOf(Group(tree), tree[k].depth).value;
    i := InPlan(Group(tree), g);
  }

  lemma ReversedOrder(sorted: seq<Stage>, i: nat, j: nat)
    requires SortedByDepth(sorted) && i < |sorted| && j < |sorted|
    requires Reverse(sorted)[j].depth > Reverse(sorted)[i].depth
    ensures j < i
  {
  }

  /** Deeper stages run earlier. */
  lemma DeeperRunsEarlier(tree: seq<Node>, i: nat, j: nat)
    requires i < |StagePlan(tree)| && j < |StagePlan(tree)|
    requires StagePlan(tree)[j].depth > StagePlan(tree)[i].depth
    ensures j < i
  {
    ReversedOrder(SortStages(Group(tree)), i, j);
  }

  /** Every dependency of a target in a stage of the plan is built by a target
      in an earlier stage, so it runs before it. */
  lemma DependencyRunsEarlier(targets: seq<Target>, tree: seq<Node>, i: nat, t: Target, name: string)
    returns (j: nat, u: Target)
    requires Layered(targets, tree)
    requires i < |StagePlan(tree)| && t in StagePlan(tree)[i].targets && name in t.dependencies
    ensures j < i && u in StagePlan(tree)[j].targets && u.name == name
  {
    var plan := StagePlan(tree);
    var e := plan[i].depth;
    PlanStage(tree, i);
    TargetsAtMembers(tree, e, t);
    var k :| 0 <= k < |tree| && tree[k].depth == e && tree[k].target == t;
    assert DepsDeeper(targets, tree, tree[k]);
    var x :| 0 <= x < |t.dependencies| && t.dependencies[x] == name;
    var d := MaxDepth(tree, name);
    assert d > e;
    var m :| 0 <= m < |tree| && tree[m].target.name == name && tree[m].depth == d;
    j := StageAtDepth(tree, m);
    DeeperRunsEarlier(tree, i, j);
    u := tree[m].target;
    PlanStage(tree, j);
    TargetsAtMembers(tree, d, u);
  }

  lemma {:induction false} TargetsAtEndsWith(tree: seq<Node>)
    requires |tree| > 0
    ensures var last := tree[|tree| - 1];
      var ts := TargetsAt(tree, last.depth);
      |ts| > 0 && ts[|ts| - 1] == last.target
  {
  }

  /** The target a tree is rooted at runs last. */
  lemma RootRunsLast(tree: seq<Node>, root: Target)
    requires |tree| > 0 && tree[|tree| - 1] == Node(root, 0)
    ensures var order := RunOrder(StagePlan(tree));
      |order| > 0 && order[|order| - 1] == root
  {
    var plan := StagePlan(tree);
    var sorted := SortStages(Group(tree));
    var i := StageAtDepth(tree, |tree| - 1);
    assert plan[i].depth == 0;
    var n := |plan|;
    assert plan[n - 1] == sorted[0];
    assert plan[n - 1].depth == 0 by {
      assert plan[i] == sorted[n - 1 - i];
    }
    PlanStage(tree, n - 1);
    TargetsAtEndsWith(tree);
    RunOrderEndsWith(plan);
  }

  lemma {:induction false} RunOrderEndsWith(plan: seq<Stage>)
    requires |plan| > 0 && |plan[|plan| - 1].targets| > 0
    ensures var order := RunOrder(plan);
      var last := plan[|plan| - 1].targets;
      |order| > 0 && order[|order| - 1] == last[|last| - 1]
    decreases |plan|
  {
    if |plan| > 1 {
      RunOrderEndsWith(plan[1..]);
    }
  }
}
