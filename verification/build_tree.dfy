/** `BuildTree::new`, `add_branch` and `insert_node_depth` (src/main.rs:251-366):
    the list of (target, depth) entries reached from a root target. */
module BuildTree {
  import opened Wrappers
  import opened BuildFile

  /** One entry of `target_map`. */
  datatype Node = Node(target: Target, depth: nat)

  function Max(a: int, b: int): int {
    if a < b then b else a
  }

  /** The largest depth recorded for `name`, or -1 when it has no entry. */
  function MaxDepth(tree: seq<Node>, name: string): (d: int)
    ensures d >= -1
    ensures d == -1 <==> forall k :: 0 <= k < |tree| ==> tree[k].target.name != name
    ensures forall k :: 0 <= k < |tree| && tree[k].target.name == name ==> tree[k].depth <= d
    ensures d >= 0 ==> exists k :: 0 <= k < |tree| && tree[k].target.name == name && tree[k].depth == d
  {
    if |tree| == 0 then -1
    else
      var rest := MaxDepth(tree[..|tree| - 1], name);
      var last := tree[|tree| - 1];
      if last.target.name == name then Max(rest, last.depth) else rest
  }

  /** The first entry with the given target name. */
  function FindNode(tree: seq<Node>, name: string): Option<nat> {
    FindFirst(tree, (n: Node) => n.target.name == name)
  }

  lemma {:induction false} MaxDepthConcat(a: seq<Node>, b: seq<Node>, name: string)
    ensures MaxDepth(a + b, name) == Max(MaxDepth(a, name), MaxDepth(b, name))
    decreases |b|
  {
    if |b| == 0 {
      assert a + b == a;
    } else {
      var b' := b[..|b| - 1];
      assert (a + b)[..|a + b| - 1] == a + b';
      assert (a + b)[|a + b| - 1] == b[|b| - 1];
      MaxDepthConcat(a, b', name);
    }
  }

  /** The entries `insert_node_depth` keeps before appending: all of them,
      unless the first of the same name has a strictly smaller depth. */
  function Kept(tree: seq<Node>, name: string, depth: nat): seq<Node> {
    match FindNode(tree, name)
    case Some(k) => if tree[k].depth < depth then tree[..k] + tree[k + 1..] else tree
    case None => tree
  }

  function Without(tree: seq<Node>, k: nat): seq<Node>
    requires k < |tree|
  {
    tree[..k] + tree[k + 1..]
  }

  lemma RemoveAt(tree: seq<Node>, k: nat, name: string)
    requires k < |tree|
    ensures MaxDepth(tree, name) == Max(MaxDepth(Without(tree, k), name), MaxDepth([tree[k]], name))
    ensures forall j :: 0 <= j < |Without(tree, k)| ==> Without(tree, k)[j] in tree
  {
    assert tree == tree[..k] + [tree[k]] + tree[k + 1..];
    MaxDepthConcat(tree[..k] + [tree[k]], tree[k + 1..], name);
    MaxDepthConcat(tree[..k], [tree[k]], name);
    MaxDepthConcat(tree[..k], tree[k + 1..], name);
    var kept := tree[..k] + tree[k + 1..];
    forall j | 0 <= j < |kept| ensures kept[j] in tree {
      if j < k { assert kept[j] == tree[j]; } else { assert kept[j] == tree[j + 1]; }
    }
  }

  lemma KeptFacts(tree: seq<Node>, name: string, depth: nat)
    ensures forall other :: other != name ==> MaxDepth(Kept(tree, name, depth), other) == MaxDepth(tree, other)
    ensures Max(MaxDepth(Kept(tree, name, depth), name), depth) == Max(MaxDepth(tree, name), depth)
    ensures forall j :: 0 <= j < |Kept(tree, name, depth)| ==> Kept(tree, name, depth)[j] in tree
  {
    var kept := Kept(tree, name, depth);
    if kept != tree {
      var k := FindNode(tree, name).value;
      RemoveAt(tree, k, name);
      forall other | other != name
        ensures MaxDepth(kept, other) == MaxDepth(tree, other)
      {
        RemoveAt(tree, k, other);
      }
    }
  }

  /** `insert_node_depth`: drops the first entry of the same name if its depth
      is strictly smaller, then appends the new entry. */
  function InsertNodeDepth(tree: seq<Node>, target: Target, depth: nat): (r: seq<Node>)
    ensures |r| > 0 && r[|r| - 1] == Node(target, depth)
  {
    Kept(tree, target.name, depth) + [Node(target, depth)]
  }

  /** What an insertion does to the tree: the largest depth of the inserted
      name becomes the larger of its old largest and `depth`, every other
      name keeps its largest depth, and at most the first entry of the same
      name is removed, exactly when it is shallower than the new entry. */
  lemma InsertFacts(tree: seq<Node>, target: Target, depth: nat)
    ensures var r := InsertNodeDepth(tree, target, depth);
      MaxDepth(r, target.name) == Max(MaxDepth(tree, target.name), depth) &&
      (forall name :: name != target.name ==> MaxDepth(r, name) == MaxDepth(tree, name)) &&
      (forall k :: 0 <= k < |r| - 1 ==> r[k] in tree)
    ensures var r := InsertNodeDepth(tree, target, depth);
      |r| == |tree| + 1 <==>
        (FindNode(tree, target.name).None? || tree[FindNode(tree, target.name).value].depth >= depth)
    ensures var r := InsertNodeDepth(tree, target, depth);
      |r| == |tree| + 1 ==> r[..|tree|] == tree
    ensures var r := InsertNodeDepth(tree, target, depth);
      |r| == |tree| ==>
        var k := FindNode(tree, target.name).value;
        tree[k].depth < depth && r[..|tree| - 1] == tree[..k] + tree[k + 1..]
  {
    var kept := Kept(tree, target.name, depth);
    var r := kept + [Node(target, depth)];
    assert r[..|kept|] == kept;
    KeptFacts(tree, target.name, depth);
    forall name ensures MaxDepth(r, name) == Max(MaxDepth(kept, name), MaxDepth([Node(target, depth)], name)) {
      MaxDepthConcat(kept, [Node(target, depth)], name);
    }
  }

  /** `add_branch`: the dependencies, in listed order and each resolved to the
      first target of that name, are added one level deeper before the target
      itself is recorded at `depth`. The source has no cycle guard and recurses
      without end on a cycle; here a non-leaf reached at a depth no acyclic
      graph reaches reports a cycle instead. */
  function AddBranch(targets: seq<Target>, index: nat, depth: nat, tree: seq<Node>): (r: Result<seq<Node>, Error>)
    requires index < |targets|
    ensures r.Success? ==> |r.value| > 0 && r.value[|r.value| - 1] == Node(targets[index], depth)
    decreases |targets| - depth, 1
  {
    var target := targets[index];
    if |target.dependencies| == 0 then
      Success(InsertNodeDepth(tree, target, depth))
    else if depth >= |targets| then
      Failure(DependencyCycle(target.name))
    else
      match AddDependencies(targets, target.dependencies, depth + 1, tree)
      case Failure(e) => Failure(e)
      case Success(tree') => Success(InsertNodeDepth(tree', target, depth))
  }

  /** The loop of `add_branch` over the remaining dependency names; an unknown
      name is the source's `expect` failure. */
  function AddDependencies(targets: seq<Target>, names: seq<string>, depth: nat, tree: seq<Node>)
    : (r: Result<seq<Node>, Error>)
    requires 0 < depth <= |targets|
    ensures r.Failure? && r.error.MissingDependency? ==> FindTarget(targets, r.error.name).None?
    decreases |targets| - depth + 1, 0, |names|
  {
    if |names| == 0 then Success(tree)
    else match FindTarget(targets, names[0])
      case None => Failure(MissingDependency(names[0]))
      case Some(j) =>
        match AddBranch(targets, j, depth, tree)
        case Failure(e) => Failure(e)
        case Success(tree') => AddDependencies(targets, names[1..], depth, tree')
  }

  /** `BuildTree::new`: the tree rooted at `root`, starting at depth 0. */
  function New(targets: seq<Target>, root: nat): (r: Result<seq<Node>, Error>)
    requires root < |targets|
    ensures r.Success? ==> |r.value| > 0 && r.value[|r.value| - 1] == Node(targets[root], 0)
  {
    AddBranch(targets, root, 0, [])
  }

  // One-step views of the construction, for the proofs that follow it.

  lemma BranchSucceeds(targets: seq<Target>, index: nat, depth: nat, tree: seq<Node>)
    requires index < |targets| && |targets[index].dependencies| > 0
    requires AddBranch(targets, index, depth, tree).Success?
    ensures depth < |targets|
    ensures AddDependencies(targets, targets[index].dependencies, depth + 1, tree).Success?
    ensures AddBranch(targets, index, depth, tree).value
         == InsertNodeDepth(AddDependencies(targets, targets[index].dependencies, depth + 1, tree).value,
                            targets[index], depth)
  {
  }

  lemma BranchFails(targets: seq<Target>, index: nat, depth: nat, tree: seq<Node>)
    requires index < |targets| && AddBranch(targets, index, depth, tree).Failure?
    ensures |targets[index].dependencies| > 0
    ensures depth < |targets| ==>
      AddDependencies(targets, targets[index].dependencies, depth + 1, tree)
        == Failure(AddBranch(targets, index, depth, tree).error)
  {
  }

  lemma DependenciesSucceed(targets: seq<Target>, names: seq<string>, depth: nat, tree: seq<Node>)
    requires 0 < depth <= |targets| && |names| > 0
    requires AddDependencies(targets, names, depth, tree).Success?
    ensures FindTarget(targets, names[0]).Some?
    ensures AddBranch(targets, FindTarget(targets, names[0]).value, depth, tree).Success?
    ensures AddDependencies(targets, names, depth, tree)
         == AddDependencies(targets, names[1..], depth, AddBranch(targets, FindTarget(targets, names[0]).value, depth, tree).value)
  {
  }

  lemma DependenciesFail(targets: seq<Target>, names: seq<string>, depth: nat, tree: seq<Node>)
    requires 0 < depth <= |targets|
    requires AddDependencies(targets, names, depth, tree).Failure?
    requires !AddDependencies(targets, names, depth, tree).error.MissingDependency?
    ensures |names| > 0 && FindTarget(targets, names[0]).Some?
    ensures var b := AddBranch(targets, FindTarget(targets, names[0]).value, depth, tree);
      if b.Failure? then b.error == AddDependencies(targets, names, depth, tree).error
      else AddDependencies(targets, names, depth, tree) == AddDependencies(targets, names[1..], depth, b.value)
  {
  }
}

/** What a finished tree guarantees the stage planner. */
module TreeInvariants {
  import opened Wrappers
  import opened BuildFile
  import opened BuildTree

  /** Every name keeps at least its largest depth. */
  ghost predicate Grows(a: seq<Node>, b: seq<Node>) {
    forall name :: MaxDepth(a, name) <= MaxDepth(b, name)
  }

  /** Each dependency of `node` names a target and has an entry deeper than `node`. */
  predicate DepsDeeper(targets: seq<Target>, tree: seq<Node>, node: Node) {
    forall i :: 0 <= i < |node.target.dependencies| ==>
      FindTarget(targets, node.target.dependencies[i]).Some? &&
      MaxDepth(tree, node.target.dependencies[i]) > node.depth
  }

  /** Every entry's dependencies have deeper entries, so they belong to stages
      that run before it. */
  predicate Layered(targets: seq<Target>, tree: seq<Node>) {
    forall k :: 0 <= k < |tree| ==> DepsDeeper(targets, tree, tree[k])
  }

  /** `t` is the first target of its name, the one a name lookup finds. */
  predicate IsFirstDefinition(targets: seq<Target>, t: Target) {
    var j := FindTarget(targets, t.name);
    j.Some? && targets[j.value] == t
  }

  /** Every entry holds the first definition of its name. */
  predicate FirstDefinitions(targets: seq<Target>, tree: seq<Node>) {
    forall k :: 0 <= k < |tree| ==> IsFirstDefinition(targets, tree[k].target)
  }

  lemma GrowsTransitive(a: seq<Node>, b: seq<Node>, c: seq<Node>)
    requires Grows(a, b) && Grows(b, c)
    ensures Grows(a, c)
  {
    forall name ensures MaxDepth(a, name) <= MaxDepth(c, name) {
      assert MaxDepth(a, name) <= MaxDepth(b, name);
    }
  }

  lemma DepsDeeperGrows(targets: seq<Target>, a: seq<Node>, b: seq<Node>, node: Node)
    requires Grows(a, b) && DepsDeeper(targets, a, node)
    ensures DepsDeeper(targets, b, node)
  {
    forall i | 0 <= i < |node.target.dependencies|
      ensures MaxDepth(b, node.target.dependencies[i]) > node.depth
    {
      assert MaxDepth(a, node.target.dependencies[i]) <= MaxDepth(b, node.target.dependencies[i]);
    }
  }

  lemma InsertGrows(tree: seq<Node>, target: Target, depth: nat)
    ensures Grows(tree, InsertNodeDepth(tree, target, depth))
  {
    var r := InsertNodeDepth(tree, target, depth);
    InsertFacts(tree, target, depth);
    forall name ensures MaxDepth(tree, name) <= MaxDepth(r, name) {
      if name == target.name {
        assert MaxDepth(r, target.name) == Max(MaxDepth(tree, target.name), depth);
      } else {
        assert MaxDepth(r, name) == MaxDepth(tree, name);
      }
    }
  }

  /** `insert_node_depth` keeps both invariants. */
  lemma InsertKeeps(targets: seq<Target>, tree: seq<Node>, target: Target, depth: nat)
    requires Layered(targets, tree) && FirstDefinitions(targets, tree)
    requires DepsDeeper(targets, tree, Node(target, depth)) && IsFirstDefinition(targets, target)
    ensures Layered(targets, InsertNodeDepth(tree, target, depth))
    ensures FirstDefinitions(targets, InsertNodeDepth(tree, target, depth))
  {
    var r := InsertNodeDepth(tree, target, depth);
    InsertFacts(tree, target, depth);
    InsertGrows(tree, target, depth);
    forall k | 0 <= k < |r|
      ensures DepsDeeper(targets, r, r[k]) && IsFirstDefinition(targets, r[k].target)
    {
      if k < |r| - 1 {
        assert r[k] in tree;
        var m :| 0 <= m < |tree| && tree[m] == r[k];
        DepsDeeperGrows(targets, tree, r, tree[m]);
      } else {
        DepsDeeperGrows(targets, tree, r, Node(target, depth));
      }
    }
  }

  /** No step of the construction lowers the largest depth of any name. */
  lemma {:induction false} BranchGrows(targets: seq<Target>, index: nat, depth: nat, tree: seq<Node>)
    requires index < |targets|
    ensures AddBranch(targets, index, depth, tree).Success? ==>
      Grows(tree, AddBranch(targets, index, depth, tree).value)
    decreases |targets| - depth, 1
  {
    var target := targets[index];
    if |target.dependencies| == 0 {
      InsertGrows(tree, target, depth);
    } else if depth < |targets| {
      DependenciesGrow(targets, target.dependencies, depth + 1, tree);
      var deps := AddDependencies(targets, target.dependencies, depth + 1, tree);
      if deps.Success? {
        InsertGrows(deps.value, target, depth);
        GrowsTransitive(tree, deps.value, InsertNodeDepth(deps.value, target, depth));
      }
    }
  }

  lemma {:induction false} DependenciesGrow(targets: seq<Target>, names: seq<string>, depth: nat, tree: seq<Node>)
    requires 0 < depth <= |targets|
    ensures AddDependencies(targets, names, depth, tree).Success? ==>
      Grows(tree, AddDependencies(targets, names, depth, tree).value)
    decreases |targets| - depth + 1, 0, |names|
  {
    if |names| > 0 {
      var found := FindTarget(targets, names[0]);
      if found.Some? {
        BranchGrows(targets, found.value, depth, tree);
        var b := AddBranch(targets, found.value, depth, tree);
        if b.Success? {
          DependenciesGrow(targets, names[1..], depth, b.value);
          var r := AddDependencies(targets, names[1..], depth, b.value);
          if r.Success? {
            GrowsTransitive(tree, b.value, r.value);
          }
        }
      }
    } else {
      assert AddDependencies(targets, names, depth, tree) == Success(tree);
    }
  }

  lemma {:induction false} BranchKeeps(targets: seq<Target>, index: nat, depth: nat, tree: seq<Node>)
    requires index < |targets| && IsFirstDefinition(targets, targets[index])
    requires Layered(targets, tree) && FirstDefinitions(targets, tree)
    ensures AddBranch(targets, index, depth, tree).Success? ==>
      var r := AddBranch(targets, index, depth, tree).value;
      Layered(targets, r) && FirstDefinitions(targets, r)
    decreases |targets| - depth, 1
  {
    var target := targets[index];
    if |target.dependencies| == 0 {
      InsertKeeps(targets, tree, target, depth);
    } else if depth < |targets| {
      DependenciesKeep(targets, target.dependencies, depth + 1, tree);
      var deps := AddDependencies(targets, target.dependencies, depth + 1, tree);
      if deps.Success? {
        InsertKeeps(targets, deps.value, target, depth);
      }
    }
  }

  /** One step of the dependency loop: the first name, recorded last by its
      branch, joins the names the rest of the loop recorded. */
  lemma NamesRecorded(targets: seq<Target>, names: seq<string>, depth: nat, b: seq<Node>, r: seq<Node>)
    requires |names| > 0 && FindTarget(targets, names[0]).Some?
    requires |b| > 0 && b[|b| - 1].target.name == names[0] && b[|b| - 1].depth == depth
    requires Grows(b, r)
    requires forall k :: 0 <= k < |names[1..]| ==>
      FindTarget(targets, names[1..][k]).Some? && MaxDepth(r, names[1..][k]) >= depth
    ensures forall k :: 0 <= k < |names| ==> FindTarget(targets, names[k]).Some? && MaxDepth(r, names[k]) >= depth
  {
    assert MaxDepth(b, names[0]) >= depth;
    assert MaxDepth(b, names[0]) <= MaxDepth(r, names[0]);
    forall k | 0 < k < |names|
      ensures FindTarget(targets, names[k]).Some? && MaxDepth(r, names[k]) >= depth
    {
      assert names[k] == names[1..][k - 1];
    }
  }

  lemma {:induction false} DependenciesKeep(targets: seq<Target>, names: seq<string>, depth: nat, tree: seq<Node>)
    requires 0 < depth <= |targets|
    requires Layered(targets, tree) && FirstDefinitions(targets, tree)
    ensures AddDependencies(targets, names, depth, tree).Success? ==>
      var r := AddDependencies(targets, names, depth, tree).value;
      Layered(targets, r) && FirstDefinitions(targets, r) &&
      forall k :: 0 <= k < |names| ==> FindTarget(targets, names[k]).Some? && MaxDepth(r, names[k]) >= depth
    decreases |targets| - depth + 1, 0, |names|
  {
    if |names| > 0 {
      var found := FindTarget(targets, names[0]);
      if found.Some? {
        var j := found.value;
        BranchKeeps(targets, j, depth, tree);
        var b := AddBranch(targets, j, depth, tree);
        if b.Success? {
          DependenciesKeep(targets, names[1..], depth, b.value);
          var r := AddDependencies(targets, names[1..], depth, b.value);
          if r.Success? {
            assert AddDependencies(targets, names, depth, tree) == r;
            DependenciesGrow(targets, names[1..], depth, b.value);
            NamesRecorded(targets, names, depth, b.value, r.value);
          }
        }
      }
    } else {
      assert AddDependencies(targets, names, depth, tree) == Success(tree);
    }
  }

  /** A finished tree: the root is recorded last at depth 0, every entry holds
      the first definition of its name, and every dependency of every entry
      has an entry deeper than it. */
  lemma NewIsLayered(targets: seq<Target>, root: nat)
    requires root < |targets| && FindTarget(targets, targets[root].name) == Some(root)
    ensures New(targets, root).Success? ==>
      var tree := New(targets, root).value;
      tree[|tree| - 1] == Node(targets[root], 0) &&
      Layered(targets, tree) && FirstDefinitions(targets, tree)
  {
    BranchKeeps(targets, root, 0, []);
  }
}
