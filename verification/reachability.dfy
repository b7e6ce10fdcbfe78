/** How the tree relates to the dependency graph: which targets it reaches,
    and when the construction stops with a cycle. */
module Reachability {
  import opened Wrappers
  import opened BuildFile
  import opened BuildTree
  import opened TreeInvariants

  /** `b` is the target a lookup of one of `a`'s dependency names finds. */
  ghost predicate Edge(targets: seq<Target>, a: nat, b: nat) {
    a < |targets| &&
    exists i :: 0 <= i < |targets[a].dependencies| && FindTarget(targets, targets[a].dependencies[i]) == Some(b)
  }

  /** A walk along dependency edges, as target indices. */
  ghost predicate Walk(targets: seq<Target>, w: seq<nat>) {
    |w| > 0 &&
    (forall k :: 0 <= k < |w| ==> w[k] < |targets|) &&
    (forall k :: 0 <= k < |w| - 1 ==> Edge(targets, w[k], w[k + 1]))
  }

  lemma WalkSlice(targets: seq<Target>, w: seq<nat>, a: nat, b: nat)
    requires Walk(targets, w) && a < b <= |w|
    ensures Walk(targets, w[a..b])
  {
    forall k | 0 <= k < b - a - 1 ensures Edge(targets, w[a..b][k], w[a..b][k + 1]) {
      assert w[a..b][k] == w[a + k] && w[a..b][k + 1] == w[a + k + 1];
    }
  }

  lemma WalkJoin(targets: seq<Target>, a: seq<nat>, b: seq<nat>)
    requires Walk(targets, a) && Walk(targets, b) && a[|a| - 1] == b[0]
    ensures Walk(targets, a + b[1..])
  {
    var w := a + b[1..];
    forall k | 0 <= k < |w| - 1 ensures Edge(targets, w[k], w[k + 1]) {
      if k < |a| - 1 {
        assert w[k] == a[k] && w[k + 1] == a[k + 1];
      } else {
        assert w[k] == b[k - |a| + 1] && w[k + 1] == b[k - |a| + 2];
      }
    }
  }

  /** A walk of more than one target leaves its first target through one of
      its dependency names, and the rest is again a walk. */
  lemma FirstEdge(targets: seq<Target>, w: seq<nat>) returns (i: nat)
    requires Walk(targets, w) && |w| > 1
    ensures i < |targets[w[0]].dependencies| && FindTarget(targets, targets[w[0]].dependencies[i]) == Some(w[1])
    ensures Walk(targets, w[1..]) && w[1..][0] == w[1] && w[1..][|w| - 2] == w[|w| - 1]
  {
    assert Edge(targets, w[0], w[1]);
    i :| 0 <= i < |targets[w[0]].dependencies| && FindTarget(targets, targets[w[0]].dependencies[i]) == Some(w[1]);
    WalkSlice(targets, w, 1, |w|);
  }

  /** Among more values than there are possible values below `n`, two coincide. */
  lemma {:induction false} Pigeonhole(s: seq<nat>, n: nat) returns (i: nat, j: nat)
    requires forall k :: 0 <= k < |s| ==> s[k] < n
    requires |s| > n
    ensures i < j < |s| && s[i] == s[j]
    decreases n
  {
    var v := s[|s| - 1];
    var earlier := FindFirst(s[..|s| - 1], (x: nat) => x == v);
    if earlier.Some? {
      i, j := earlier.value, |s| - 1;
    } else {
      assert forall k :: 0 <= k < |s| - 1 ==> s[k] != v by {
        forall k | 0 <= k < |s| - 1 ensures s[k] != v {
          assert s[..|s| - 1][k] == s[k];
        }
      }
      var t := seq(|s| - 1, k requires 0 <= k < |s| - 1 => if s[k] > v then s[k] - 1 else s[k]);
      i, j := Pigeonhole(t, n - 1);
    }
  }

  /** The branch that reports a cycle sits at the end of a walk with more
      edges than there are targets. */
  lemma {:induction false} BranchCycleWalk(targets: seq<Target>, index: nat, depth: nat, tree: seq<Node>)
    returns (w: seq<nat>)
    requires index < |targets|
    requires AddBranch(targets, index, depth, tree).Failure?
    requires AddBranch(targets, index, depth, tree).error.DependencyCycle?
    ensures Walk(targets, w) && w[0] == index && |w| + depth > |targets|
    decreases |targets| - depth, 1
  {
    var target := targets[index];
    BranchFails(targets, index, depth, tree);
    if depth >= |targets| {
      w := [index];
    } else {
      var i, j, rest := DependenciesCycleWalk(targets, target.dependencies, depth + 1, tree);
      assert Edge(targets, index, j);
      w := [index] + rest;
      WalkJoin(targets, [index, j], rest);
      assert [index, j] + rest[1..] == w;
    }
  }

  lemma {:induction false} DependenciesCycleWalk(targets: seq<Target>, names: seq<string>, depth: nat, tree: seq<Node>)
    returns (i: nat, j: nat, w: seq<nat>)
    requires 0 < depth <= |targets|
    requires AddDependencies(targets, names, depth, tree).Failure?
    requires AddDependencies(targets, names, depth, tree).error.DependencyCycle?
    ensures i < |names|
    ensures FindTarget(targets, names[i]) == Some(j)
    ensures Walk(targets, w)
    ensures w[0] == j
    ensures |w| + depth > |targets|
    decreases |targets| - depth + 1, 0, |names|
  {
    DependenciesFail(targets, names, depth, tree);
    var found := FindTarget(targets, names[0]);
    var b := AddBranch(targets, found.value, depth, tree);
    if b.Failure? {
      i, j := 0, found.value;
      w := BranchCycleWalk(targets, j, depth, tree);
      assert FindTarget(targets, names[i]) == Some(j);
    } else {
      var i', j', w' := DependenciesCycleWalk(targets, names[1..], depth, b.value);
      assert names[1..][i'] == names[i' + 1];
      i, j, w := i' + 1, j', w';
      assert FindTarget(targets, names[i]) == Some(j);
    }
  }

  /** A reported cycle is real: a walk from the root reaches a target from
      which another walk leads back to it. */
  lemma CycleReported(targets: seq<Target>, root: nat) returns (path: seq<nat>, loop: seq<nat>)
    requires root < |targets|
    requires New(targets, root).Failure? && New(targets, root).error.DependencyCycle?
    ensures Walk(targets, path) && path[0] == root
    ensures Walk(targets, loop) && |loop| > 1
    ensures loop[0] == path[|path| - 1] && loop[|loop| - 1] == loop[0]
  {
    var w := BranchCycleWalk(targets, root, 0, []);
    var i, j := Pigeonhole(w, |targets|);
    WalkSlice(targets, w, 0, i + 1);
    WalkSlice(targets, w, i, j + 1);
    path, loop := w[..i + 1], w[i..j + 1];
  }

  /** A successful branch bounds every walk from it: no walk has more edges
      than there are targets left below `depth`. */
  lemma {:induction false} BranchBoundsWalks(targets: seq<Target>, index: nat, depth: nat, tree: seq<Node>, w: seq<nat>)
    requires index < |targets| && depth <= |targets|
    requires AddBranch(targets, index, depth, tree).Success?
    requires Walk(targets, w) && w[0] == index
    ensures |w| + depth <= |targets| + 1
    decreases |targets| - depth, 1
  {
    if |w| > 1 {
      var deps := targets[index].dependencies;
      var i := FirstEdge(targets, w);
      BranchSucceeds(targets, index, depth, tree);
      DependenciesBoundWalks(targets, deps, depth + 1, tree, i, w[1..]);
    }
  }

  lemma {:induction false} DependenciesBoundWalks(targets: seq<Target>, names: seq<string>, depth: nat, tree: seq<Node>,
                                                  i: nat, w: seq<nat>)
    requires 0 < depth <= |targets|
    requires AddDependencies(targets, names, depth, tree).Success?
    requires i < |names| && Walk(targets, w) && FindTarget(targets, names[i]) == Some(w[0])
    ensures |w| + depth <= |targets| + 1
    decreases |targets| - depth + 1, 0, |names|
  {
    DependenciesSucceed(targets, names, depth, tree);
    var j := FindTarget(targets, names[0]).value;
    var b := AddBranch(targets, j, depth, tree);
    if i == 0 {
      BranchBoundsWalks(targets, j, depth, tree, w);
    } else {
      assert names[i] == names[1..][i - 1];
      DependenciesBoundWalks(targets, names[1..], depth, b.value, i - 1, w);
    }
  }

  /** Going round a loop `n` times after reaching it. */
  lemma {:induction false} AroundLoop(targets: seq<Target>, path: seq<nat>, loop: seq<nat>, n: nat) returns (w: seq<nat>)
    requires Walk(targets, path) && Walk(targets, loop) && |loop| > 1
    requires loop[0] == path[|path| - 1] && loop[|loop| - 1] == loop[0]
    ensures Walk(targets, w) && w[0] == path[0] && w[|w| - 1] == loop[0] && |w| >= |path| + n
    decreases n
  {
    if n == 0 {
      w := path;
    } else {
      var w' := AroundLoop(targets, path, loop, n - 1);
      WalkJoin(targets, w', loop);
      w := w' + loop[1..];
    }
  }

  /** Where the source would recurse without end, the model stops with an
      error: a cycle reachable from the root never yields a tree. */
  lemma CycleFails(targets: seq<Target>, root: nat, path: seq<nat>, loop: seq<nat>)
    requires root < |targets|
    requires Walk(targets, path) && path[0] == root
    requires Walk(targets, loop) && |loop| > 1
    requires loop[0] == path[|path| - 1] && loop[|loop| - 1] == loop[0]
    ensures New(targets, root).Failure?
  {
    if New(targets, root).Success? {
      var w := AroundLoop(targets, path, loop, |targets| + 1);
      BranchBoundsWalks(targets, root, 0, [], w);
    }
  }

  lemma LastRecorded(tree: seq<Node>)
    requires |tree| > 0
    ensures MaxDepth(tree, tree[|tree| - 1].target.name) >= tree[|tree| - 1].depth
  {
  }

  lemma GrowsAt(a: seq<Node>, b: seq<Node>, name: string)
    requires Grows(a, b)
    ensures MaxDepth(a, name) <= MaxDepth(b, name)
  {
  }

  /** Every target a walk from a successful branch reaches is recorded, at
      least as deep as the walk is long. */
  lemma {:induction false} BranchCoversWalks(targets: seq<Target>, index: nat, depth: nat, tree: seq<Node>, w: seq<nat>)
    requires index < |targets|
    requires AddBranch(targets, index, depth, tree).Success?
    requires Walk(targets, w) && w[0] == index
    ensures MaxDepth(AddBranch(targets, index, depth, tree).value, targets[w[|w| - 1]].name) >= depth + |w| - 1
    decreases |targets| - depth, 2
  {
    if |w| == 1 {
      LastRecorded(AddBranch(targets, index, depth, tree).value);
    } else {
      CoverThroughDependencies(targets, index, depth, tree, w);
    }
  }

  lemma {:induction false} CoverThroughDependencies(targets: seq<Target>, index: nat, depth: nat, tree: seq<Node>,
                                                    w: seq<nat>)
    requires index < |targets|
    requires AddBranch(targets, index, depth, tree).Success?
    requires Walk(targets, w) && w[0] == index && |w| > 1
    ensures MaxDepth(AddBranch(targets, index, depth, tree).value, targets[w[|w| - 1]].name) >= depth + |w| - 1
    decreases |targets| - depth, 1
  {
    var deps := targets[index].dependencies;
    var i := FirstEdge(targets, w);
    BranchSucceeds(targets, index, depth, tree);
    DependenciesCoverWalks(targets, deps, depth + 1, tree, i, w[1..]);
    var d := AddDependencies(targets, deps, depth + 1, tree).value;
    InsertGrows(d, targets[index], depth);
    GrowsAt(d, AddBranch(targets, index, depth, tree).value, targets[w[|w| - 1]].name);
  }

  lemma {:induction false} DependenciesCoverWalks(targets: seq<Target>, names: seq<string>, depth: nat, tree: seq<Node>,
                                                  i: nat, w: seq<nat>)
    requires 0 < depth <= |targets|
    requires AddDependencies(targets, names, depth, tree).Success?
    requires i < |names| && Walk(targets, w) && FindTarget(targets, names[i]) == Some(w[0])
    ensures MaxDepth(AddDependencies(targets, names, depth, tree).value, targets[w[|w| - 1]].name) >= depth + |w| - 1
    decreases |targets| - depth + 1, 0, |names|
  {
    DependenciesSucceed(targets, names, depth, tree);
    var j := FindTarget(targets, names[0]).value;
    var b := AddBranch(targets, j, depth, tree);
    var r := AddDependencies(targets, names[1..], depth, b.value);
    var name := targets[w[|w| - 1]].name;
    if i == 0 {
      BranchCoversWalks(targets, j, depth, tree, w);
      DependenciesGrow(targets, names[1..], depth, b.value);
      assert MaxDepth(b.value, name) <= MaxDepth(r.value, name);
    } else {
      assert names[i] == names[1..][i - 1];
      DependenciesCoverWalks(targets, names[1..], depth, b.value, i - 1, w);
    }
  }

  /** Every target reachable from the root has an entry, at least as deep as
      any walk that reaches it. */
  lemma NewCoversReachable(targets: seq<Target>, root: nat, w: seq<nat>)
    requires root < |targets| && New(targets, root).Success?
    requires Walk(targets, w) && w[0] == root
    ensures MaxDepth(New(targets, root).value, targets[w[|w| - 1]].name) >= |w| - 1
  {
    BranchCoversWalks(targets, root, 0, [], w);
  }

  /** `node` ends a walk from `from` whose edge count takes `depth` to `node.depth`. */
  ghost predicate ReachedAt(targets: seq<Target>, from: nat, depth: nat, node: Node) {
    exists w :: Walk(targets, w) && w[0] == from && targets[w[|w| - 1]] == node.target && depth + |w| - 1 == node.depth
  }

  lemma ReachedThrough(targets: seq<Target>, index: nat, j: nat, depth: nat, node: Node)
    requires Edge(targets, index, j) && ReachedAt(targets, j, depth + 1, node)
    ensures ReachedAt(targets, index, depth, node)
  {
    var w :| Walk(targets, w) && w[0] == j && targets[w[|w| - 1]] == node.target && depth + 1 + |w| - 1 == node.depth;
    assert Walk(targets, [index, j]);
    WalkJoin(targets, [index, j], w);
    var w' := [index, j] + w[1..];
    assert w'[|w'| - 1] == w[|w| - 1];
  }

  /** `node` is reached, with `depth` at the start, from a target one of `names` finds. */
  ghost predicate ReachedVia(targets: seq<Target>, names: seq<string>, depth: nat, node: Node) {
    exists i :: 0 <= i < |names| && FindTarget(targets, names[i]).Some? &&
      ReachedAt(targets, FindTarget(targets, names[i]).value, depth, node)
  }

  /** Every entry of `r` not already in `tree` is reached from `index`. */
  ghost predicate BranchReaches(targets: seq<Target>, index: nat, depth: nat, tree: seq<Node>, r: seq<Node>) {
    forall k :: 0 <= k < |r| ==> r[k] in tree || ReachedAt(targets, index, depth, r[k])
  }

  /** Every entry of `r` not already in `tree` is reached from one of `names`. */
  ghost predicate NamesReach(targets: seq<Target>, names: seq<string>, depth: nat, tree: seq<Node>, r: seq<Node>) {
    forall k :: 0 <= k < |r| ==> r[k] in tree || ReachedVia(targets, names, depth, r[k])
  }

  lemma InsertReaches(targets: seq<Target>, index: nat, depth: nat, tree: seq<Node>, d: seq<Node>)
    requires index < |targets|
    requires NamesReach(targets, targets[index].dependencies, depth + 1, tree, d)
    ensures BranchReaches(targets, index, depth, tree, InsertNodeDepth(d, targets[index], depth))
  {
    var deps := targets[index].dependencies;
    var r := InsertNodeDepth(d, targets[index], depth);
    InsertFacts(d, targets[index], depth);
    assert Walk(targets, [index]);
    forall k | 0 <= k < |r| ensures r[k] in tree || ReachedAt(targets, index, depth, r[k]) {
      if k < |r| - 1 {
        assert r[k] in d;
        var m :| 0 <= m < |d| && d[m] == r[k];
        if d[m] !in tree {
          assert ReachedVia(targets, deps, depth + 1, d[m]);
          var i :| 0 <= i < |deps| && FindTarget(targets, deps[i]).Some? &&
            ReachedAt(targets, FindTarget(targets, deps[i]).value, depth + 1, d[m]);
          ReachedThrough(targets, index, FindTarget(targets, deps[i]).value, depth, d[m]);
        }
      } else {
        assert [index][0] == index;
      }
    }
  }

  lemma LeafReaches(targets: seq<Target>, index: nat, depth: nat, tree: seq<Node>)
    requires index < |targets|
    ensures BranchReaches(targets, index, depth, tree, InsertNodeDepth(tree, targets[index], depth))
  {
    var r := InsertNodeDepth(tree, targets[index], depth);
    InsertFacts(tree, targets[index], depth);
    assert Walk(targets, [index]);
    assert [index][0] == index;
    forall k | 0 <= k < |r| ensures r[k] in tree || ReachedAt(targets, index, depth, r[k]) {
      if k < |r| - 1 {
        assert r[k] in tree;
      }
    }
  }

  /** Every entry a successful branch adds is reached from it. */
  lemma {:induction false} BranchSound(targets: seq<Target>, index: nat, depth: nat, tree: seq<Node>)
    requires index < |targets|
    ensures AddBranch(targets, index, depth, tree).Success? ==>
      BranchReaches(targets, index, depth, tree, AddBranch(targets, index, depth, tree).value)
    decreases |targets| - depth, 1
  {
    var deps := targets[index].dependencies;
    if |deps| == 0 {
      LeafReaches(targets, index, depth, tree);
    } else if depth < |targets| {
      DependenciesSound(targets, deps, depth + 1, tree);
      var d := AddDependencies(targets, deps, depth + 1, tree);
      if d.Success? {
        InsertReaches(targets, index, depth, tree, d.value);
      }
    }
  }

  lemma NamesStep(targets: seq<Target>, names: seq<string>, depth: nat, tree: seq<Node>, b: seq<Node>, r: seq<Node>)
    requires |names| > 0 && FindTarget(targets, names[0]).Some?
    requires BranchReaches(targets, FindTarget(targets, names[0]).value, depth, tree, b)
    requires NamesReach(targets, names[1..], depth, b, r)
    ensures NamesReach(targets, names, depth, tree, r)
  {
    forall k | 0 <= k < |r| && r[k] !in tree ensures ReachedVia(targets, names, depth, r[k]) {
      if r[k] in b {
        var m :| 0 <= m < |b| && b[m] == r[k];
        assert ReachedAt(targets, FindTarget(targets, names[0]).value, depth, b[m]);
      } else {
        assert ReachedVia(targets, names[1..], depth, r[k]);
        var i :| 0 <= i < |names[1..]| && FindTarget(targets, names[1..][i]).Some? &&
          ReachedAt(targets, FindTarget(targets, names[1..][i]).value, depth, r[k]);
        assert names[1..][i] == names[i + 1];
      }
    }
  }

  lemma {:induction false} DependenciesSound(targets: seq<Target>, names: seq<string>, depth: nat, tree: seq<Node>)
    requires 0 < depth <= |targets|
    ensures AddDependencies(targets, names, depth, tree).Success? ==>
      NamesReach(targets, names, depth, tree, AddDependencies(targets, names, depth, tree).value)
    decreases |targets| - depth + 1, 0, |names|
  {
    if |names| == 0 {
      assert AddDependencies(targets, names, depth, tree) == Success(tree);
    } else if AddDependencies(targets, names, depth, tree).Success? {
      var j := FindTarget(targets, names[0]).value;
      BranchSound(targets, j, depth, tree);
      var b := AddBranch(targets, j, depth, tree).value;
      DependenciesSound(targets, names[1..], depth, b);
      var r := AddDependencies(targets, names[1..], depth, b).value;
      assert AddDependencies(targets, names, depth, tree).value == r;
      NamesStep(targets, names, depth, tree, b, r);
    }
  }

  /** Only targets reachable from the root are built, and each entry's depth
      is the edge count of a walk that reaches it; with `NewCoversReachable`,
      each name's largest depth is the length of its longest walk. */
  lemma NewSound(targets: seq<Target>, root: nat)
    requires root < |targets|
    ensures New(targets, root).Success? ==>
      var tree := New(targets, root).value;
      forall k :: 0 <= k < |tree| ==> ReachedAt(targets, root, 0, tree[k])
  {
    BranchSound(targets, root, 0, []);
  }
}
