/** The stage planner of `BuildTree::build` (src/main.rs:269-312): entries are
    grouped by depth, the groups are sorted by depth, and the sorted groups run
    from the deepest to the shallowest. The source keeps two parallel vectors,
    `build_stages` and `stage_depths`, and always swaps both at the same
    positions; here each pair is one `Stage`. */
module Stages {
  import opened Wrappers
  import opened BuildFile
  import opened BuildTree

  datatype Stage = Stage(depth: nat, targets: seq<Target>)

  ghost predicate SortedByDepth(s: seq<Stage>) {
    forall i, j :: 0 <= i < j < |s| ==> s[i].depth <= s[j].depth
  }

  /** `s[k..]` is sorted and holds no depth smaller than any before position `k`. */
  ghost predicate SortedFrom(s: seq<Stage>, k: nat) {
    (forall i, j :: k <= i < j < |s| ==> s[i].depth <= s[j].depth) &&
    (forall i, j :: 0 <= i < k <= j < |s| ==> s[i].depth <= s[j].depth)
  }

  // ---------------------------------------------------------------------------
  // The bubble pass with adjacent swaps
  // ---------------------------------------------------------------------------

  /** One pass from the position after `carry`: `carry` is the element at the
      previous position, which after a swap is the larger of the two. */
  function Pass(carry: Stage, rest: seq<Stage>): (r: seq<Stage>)
    ensures |r| == |rest| + 1
    decreases |rest|
  {
    if |rest| == 0 then [carry]
    else if carry.depth > rest[0].depth then [rest[0]] + Pass(carry, rest[1..])
    else [carry] + Pass(rest[0], rest[1..])
  }

  /** A pass only reorders. */
  lemma {:induction false} PassPermutes(carry: Stage, rest: seq<Stage>)
    ensures multiset(Pass(carry, rest)) == multiset([carry] + rest)
    decreases |rest|
  {
    if |rest| > 0 {
      assert rest == [rest[0]] + rest[1..];
      if carry.depth > rest[0].depth {
        PassPermutes(carry, rest[1..]);
      } else {
        PassPermutes(rest[0], rest[1..]);
      }
    }
  }

  /** A pass carries the deepest stage to the end. */
  lemma {:induction false} PassEndsWithMax(carry: Stage, rest: seq<Stage>)
    ensures var r := Pass(carry, rest);
      carry.depth <= r[|r| - 1].depth && forall k :: 0 <= k < |r| ==> r[k].depth <= r[|r| - 1].depth
    decreases |rest|
  {
    if |rest| > 0 {
      var r := Pass(carry, rest);
      if carry.depth > rest[0].depth {
        PassEndsWithMax(carry, rest[1..]);
        assert forall k :: 1 <= k < |r| ==> r[k] == Pass(carry, rest[1..])[k - 1];
      } else {
        PassEndsWithMax(rest[0], rest[1..]);
        assert forall k :: 1 <= k < |r| ==> r[k] == Pass(rest[0], rest[1..])[k - 1];
      }
    }
  }

  /** Whether the pass swapped anything: `has_finished` stays true exactly when not. */
  function Swaps(carry: Stage, rest: seq<Stage>): bool
    decreases |rest|
  {
    if |rest| == 0 then false
    else if carry.depth > rest[0].depth then true
    else Swaps(rest[0], rest[1..])
  }

  lemma {:induction false} SortedNoSwap(carry: Stage, rest: seq<Stage>)
    requires SortedByDepth([carry] + rest)
    ensures !Swaps(carry, rest) && Pass(carry, rest) == [carry] + rest
    decreases |rest|
  {
    if |rest| > 0 {
      var s := [carry] + rest;
      assert s[0] == carry && s[1] == rest[0];
      assert [rest[0]] + rest[1..] == rest;
      assert SortedByDepth(rest) by {
        forall i, j | 0 <= i < j < |rest| ensures rest[i].depth <= rest[j].depth {
          assert rest[i] == s[i + 1] && rest[j] == s[j + 1];
        }
      }
      SortedNoSwap(rest[0], rest[1..]);
    }
  }

  lemma {:induction false} NoSwapSorted(carry: Stage, rest: seq<Stage>)
    requires !Swaps(carry, rest)
    ensures SortedByDepth([carry] + rest)
    decreases |rest|
  {
    if |rest| > 0 {
      NoSwapSorted(rest[0], rest[1..]);
      assert [rest[0]] + rest[1..] == rest;
      var s := [carry] + rest;
      forall i, j | 0 <= i < j < |s| ensures s[i].depth <= s[j].depth {
        assert s[j] == rest[j - 1];
        if i > 0 {
          assert s[i] == rest[i - 1];
        } else {
          assert rest[0].depth <= rest[j - 1].depth;
        }
      }
    }
  }

  /** A pass makes no swap exactly when its input is already sorted, and then
      leaves it as it is. */
  lemma NoSwapIffSorted(carry: Stage, rest: seq<Stage>)
    ensures !Swaps(carry, rest) <==> SortedByDepth([carry] + rest)
    ensures !Swaps(carry, rest) ==> Pass(carry, rest) == [carry] + rest
  {
    if Swaps(carry, rest) {
      if SortedByDepth([carry] + rest) {
        SortedNoSwap(carry, rest);
      }
    } else {
      NoSwapSorted(carry, rest);
      SortedNoSwap(carry, rest);
    }
  }

  lemma PassOverSorted(carry: Stage, b: seq<Stage>)
    requires SortedByDepth(b)
    requires |b| > 0 ==> carry.depth <= b[0].depth
    ensures Pass(carry, b) == [carry] + b
  {
    var s := [carry] + b;
    forall i, j | 0 <= i < j < |s| ensures s[i].depth <= s[j].depth {
      assert s[j] == b[j - 1];
      if i > 0 { assert s[i] == b[i - 1]; } else { assert b[0].depth <= b[j - 1].depth; }
    }
    SortedNoSwap(carry, b);
  }

  /** A pass leaves alone a sorted tail whose depths are no smaller than
      anything before it. */
  lemma {:induction false} PassKeepsTail(carry: Stage, a: seq<Stage>, b: seq<Stage>)
    requires SortedByDepth(b)
    requires |b| > 0 ==> carry.depth <= b[0].depth && forall i :: 0 <= i < |a| ==> a[i].depth <= b[0].depth
    ensures Pass(carry, a + b) == Pass(carry, a) + b
    decreases |a|
  {
    if |a| == 0 {
      assert a + b == b;
      PassOverSorted(carry, b);
    } else {
      var rest := a + b;
      assert rest[0] == a[0] && rest[1..] == a[1..] + b;
      if carry.depth > a[0].depth {
        PassKeepsTail(carry, a[1..], b);
        assert Pass(carry, rest) == [a[0]] + Pass(carry, a[1..] + b);
        assert Pass(carry, a) == [a[0]] + Pass(carry, a[1..]);
      } else {
        PassKeepsTail(a[0], a[1..], b);
        assert Pass(carry, rest) == [carry] + Pass(a[0], a[1..] + b);
        assert Pass(carry, a) == [carry] + Pass(a[0], a[1..]);
      }
    }
  }

  /** A whole pass over the stages. */
  function WholePass(s: seq<Stage>): (r: seq<Stage>)
    ensures multiset(r) == multiset(s) && |r| == |s|
  {
    if |s| == 0 then []
    else
      PassPermutes(s[0], s[1..]);
      assert s == [s[0]] + s[1..];
      Pass(s[0], s[1..])
  }

  function WholeSwaps(s: seq<Stage>): bool {
    |s| > 0 && Swaps(s[0], s[1..])
  }

  /** A stage of `a` sits at some position of any reordering `b` of `a`. */
  lemma MembersOf(a: seq<Stage>, b: seq<Stage>, x: Stage) returns (k: nat)
    requires multiset(a) == multiset(b) && x in a
    ensures k < |b| && b[k] == x
  {
    assert x in multiset(a);
    k :| 0 <= k < |b| && b[k] == x;
  }

  /** A run ending in its maximum, followed by a sorted run no shallower than
      that maximum, is sorted from the maximum on. */
  lemma SortedFromJoin(p: seq<Stage>, b: seq<Stage>)
    requires |p| > 0 && SortedByDepth(b)
    requires forall i :: 0 <= i < |p| ==> p[i].depth <= p[|p| - 1].depth
    requires |b| > 0 ==> p[|p| - 1].depth <= b[0].depth
    ensures SortedFrom(p + b, |p| - 1)
  {
    var r := p + b;
    var m := |p| - 1;
    forall j | m < j < |r| ensures p[m].depth <= r[j].depth && r[j] == b[j - |p|] {
      assert b[0].depth <= b[j - |p|].depth;
    }
    forall i, j | m <= i < j < |r| ensures r[i].depth <= r[j].depth {
      if i > m { assert r[i] == b[i - |p|]; }
    }
    forall i, j | 0 <= i < m <= j < |r| ensures r[i].depth <= r[j].depth {
      assert r[i] == p[i];
    }
  }

  lemma TailOf(s: seq<Stage>, k: nat)
    requires 0 < k <= |s| && SortedFrom(s, k)
    ensures SortedByDepth(s[k..])
    ensures k < |s| ==> s[0].depth <= s[k].depth && forall i :: 0 <= i < |s[1..k]| ==> s[1..k][i].depth <= s[k].depth
  {
    var b := s[k..];
    forall i, j | 0 <= i < j < |b| ensures b[i].depth <= b[j].depth {
      assert b[i] == s[k + i] && b[j] == s[k + j];
    }
    if k < |s| {
      forall i | 0 <= i < |s[1..k]| ensures s[1..k][i].depth <= s[k].depth {
        assert s[1..k][i] == s[i + 1];
      }
    }
  }

  lemma MaxOfHead(s: seq<Stage>, k: nat, p: seq<Stage>)
    requires 0 < k < |s| && SortedFrom(s, k)
    requires |p| == k && multiset(p) == multiset(s[..k])
    ensures p[k - 1].depth <= s[k].depth
  {
    var m := MembersOf(p, s[..k], p[k - 1]);
    assert s[m] == p[k - 1];
  }

  /** Each pass places the largest remaining depth in front of the sorted tail. */
  lemma PassGrowsTail(s: seq<Stage>, k: nat)
    requires 0 < k <= |s| && SortedFrom(s, k)
    ensures SortedFrom(WholePass(s), k - 1)
  {
    var a, b := s[1..k], s[k..];
    assert s[1..] == a + b;
    TailOf(s, k);
    PassKeepsTail(s[0], a, b);
    var p := Pass(s[0], a);
    assert WholePass(s) == p + b;
    PassPermutes(s[0], a);
    PassEndsWithMax(s[0], a);
    assert s[..k] == [s[0]] + a;
    if |b| > 0 {
      MaxOfHead(s, k, p);
    }
    SortedFromJoin(p, b);
  }

  // ---------------------------------------------------------------------------
  // The corrected sort
  // ---------------------------------------------------------------------------

  /** The `loop` around the passes, with adjacent swaps: it stops after the
      first pass without a swap. `passes` counts completed passes; after that
      many passes the last `passes` positions hold their final stages. */
  function SortFrom(s: seq<Stage>, passes: nat): (r: seq<Stage>)
    requires passes <= |s| && SortedFrom(s, |s| - passes)
    ensures SortedByDepth(r) && multiset(r) == multiset(s)
    decreases |s| - passes
  {
    if |s| == 0 then s
    else
      NoSwapIffSorted(s[0], s[1..]);
      assert s == [s[0]] + s[1..];
      if !WholeSwaps(s) then WholePass(s)
      else if passes == |s| then
        assert false; s
      else
        PassGrowsTail(s, |s| - passes);
        SortFrom(WholePass(s), passes + 1)
  }

  /** The stage sort as evidently intended: adjacent swaps, so it always
      terminates with the depths in ascending order and the same stages. */
  function SortStages(s: seq<Stage>): (r: seq<Stage>)
    ensures SortedByDepth(r) && multiset(r) == multiset(s)
  {
    SortFrom(s, 0)
  }

  // ---------------------------------------------------------------------------
  // Grouping by depth
  // ---------------------------------------------------------------------------

  /** The targets of the entries at depth `d`, in entry order. */
  function TargetsAt(tree: seq<Node>, d: nat): seq<Target> {
    if |tree| == 0 then []
    else TargetsAt(tree[..|tree| - 1], d) + (if tree[|tree| - 1].depth == d then [tree[|tree| - 1].target] else [])
  }

  lemma {:induction false} TargetsAtMembers(tree: seq<Node>, d: nat, t: Target)
    ensures t in TargetsAt(tree, d) <==> exists k :: 0 <= k < |tree| && tree[k].depth == d && tree[k].target == t
    decreases |tree|
  {
    if |tree| > 0 {
      var init := tree[..|tree| - 1];
      TargetsAtMembers(init, d, t);
      if t in TargetsAt(init, d) {
        var k :| 0 <= k < |init| && init[k].depth == d && init[k].target == t;
        assert tree[k] == init[k];
      }
      if exists k :: 0 <= k < |tree| && tree[k].depth == d && tree[k].target == t {
        var k :| 0 <= k < |tree| && tree[k].depth == d && tree[k].target == t;
        if k < |init| { assert init[k] == tree[k]; }
      }
    }
  }

  lemma {:induction false} NoEntryNoTargets(tree: seq<Node>, d: nat)
    requires forall k :: 0 <= k < |tree| ==> tree[k].depth != d
    ensures TargetsAt(tree, d) == []
    decreases |tree|
  {
    if |tree| > 0 {
      NoEntryNoTargets(tree[..|tree| - 1], d);
    }
  }

  /** The position of the stage with depth `d`. */
  function StageOf(stages: seq<Stage>, d: nat): Option<nat> {
    FindFirst(stages, (st: Stage) => st.depth == d)
  }

  /** Stages have pairwise different depths. */
  ghost predicate DistinctDepths(stages: seq<Stage>) {
    forall i, j :: 0 <= i < j < |stages| ==> stages[i].depth != stages[j].depth
  }

  /** Each stage holds exactly the targets of the entries at its depth, and
      every entry's depth has a stage. */
  ghost predicate GroupsOf(stages: seq<Stage>, tree: seq<Node>) {
    DistinctDepths(stages) &&
    (forall i :: 0 <= i < |stages| ==> stages[i].targets == TargetsAt(tree, stages[i].depth)) &&
    (forall k :: 0 <= k < |tree| ==> StageOf(stages, tree[k].depth).Some?)
  }

  /** The grouping loop of `build`: the first stage with the entry's depth
      receives the entry's target, otherwise a new stage is appended. */
  function Group(tree: seq<Node>): seq<Stage> {
    if |tree| == 0 then []
    else
      var init := tree[..|tree| - 1];
      var last := tree[|tree| - 1];
      var prev := Group(init);
      match StageOf(prev, last.depth)
      case Some(i) => prev[i := Stage(last.depth, prev[i].targets + [last.target])]
      case None => prev + [Stage(last.depth, [last.target])]
  }

  /** The grouping gives every depth of the tree one stage, holding exactly
      the targets at that depth, and no stage is empty. */
  lemma {:induction false} GroupIsGrouping(tree: seq<Node>)
    ensures GroupsOf(Group(tree), tree)
    ensures forall i :: 0 <= i < |Group(tree)| ==> |Group(tree)[i].targets| > 0
    decreases |tree|
  {
    if |tree| > 0 {
      var init := tree[..|tree| - 1];
      var last := tree[|tree| - 1];
      var prev := Group(init);
      GroupIsGrouping(init);
      match StageOf(prev, last.depth)
      case Some(i) =>
        GroupExtends(tree, prev, i, prev[i := Stage(last.depth, prev[i].targets + [last.target])]);
      case None =>
        GroupAppends(tree, prev, prev + [Stage(last.depth, [last.target])]);
    }
  }

  lemma GroupExtends(tree: seq<Node>, prev: seq<Stage>, i: nat, stages: seq<Stage>)
    requires |tree| > 0 && GroupsOf(prev, tree[..|tree| - 1])
    requires StageOf(prev, tree[|tree| - 1].depth) == Some(i)
    requires stages == prev[i := Stage(tree[|tree| - 1].depth, prev[i].targets + [tree[|tree| - 1].target])]
    ensures GroupsOf(stages, tree)
  {
    var init := tree[..|tree| - 1];
    forall k | 0 <= k < |tree| ensures StageOf(stages, tree[k].depth).Some? {
      var d := tree[k].depth;
      var found := if k < |init| then (assert init[k] == tree[k]; StageOf(prev, d)) else Some(i);
      assert stages[found.value].depth == d;
    }
  }

  lemma GroupAppends(tree: seq<Node>, prev: seq<Stage>, stages: seq<Stage>)
    requires |tree| > 0 && GroupsOf(prev, tree[..|tree| - 1])
    requires StageOf(prev, tree[|tree| - 1].depth).None?
    requires stages == prev + [Stage(tree[|tree| - 1].depth, [tree[|tree| - 1].target])]
    ensures GroupsOf(stages, tree)
  {
    var init := tree[..|tree| - 1];
    var d := tree[|tree| - 1].depth;
    forall k | 0 <= k < |init| ensures init[k].depth != d {
      var j := StageOf(prev, init[k].depth).value;
    }
    NoEntryNoTargets(init, d);
    forall k | 0 <= k < |tree| ensures StageOf(stages, tree[k].depth).Some? {
      var found := if k < |init| then (assert init[k] == tree[k]; StageOf(prev, tree[k].depth)) else Some(|prev|);
      assert stages[found.value].depth == tree[k].depth;
    }
  }

  // ---------------------------------------------------------------------------
  // The sort as written
  // ---------------------------------------------------------------------------

  /** `Vec::swap` of positions `i` and `j`. */
  function Swap(s: seq<Stage>, i: nat, j: nat): seq<Stage>
    requires i < |s| && j < |s|
  {
    s[i := s[j]][j := s[i]]
  }

  lemma SwapPermutes(s: seq<Stage>, i: nat, j: nat)
    requires i < |s| && j < |s|
    ensures multiset(Swap(s, i, j)) == multiset(s)
  {
  }

  /** The inner loop of the source's bubble sort. It swaps the positions named
      by the two depth values, not the two adjacent positions; `None` is the
      out-of-bounds panic of `swap` when a depth is not a valid position. */
  function AsWrittenPass(s: seq<Stage>, index: nat, prev: Option<nat>, swapped: bool): (r: Option<(seq<Stage>, bool)>)
    ensures r.Some? && swapped ==> r.value.1
    decreases |s| - index
  {
    if index >= |s| then Some((s, swapped))
    else
      var current := s[index].depth;
      if prev.Some? && prev.value > current then
        if current < |s| && prev.value < |s| then
          var s' := Swap(s, current, prev.value);
          AsWrittenPass(s', index + 1, Some(s'[index].depth), true)
        else None
      else AsWrittenPass(s, index + 1, Some(current), swapped)
  }

  datatype Outcome = Settled(stages: seq<Stage>) | Panicked | Unsettled

  /** The outer `loop` of the source's sort, cut off after `fuel` further
      passes: `Unsettled` means the loop had not ended yet. */
  function AsWrittenSort(s: seq<Stage>, fuel: nat): Outcome
    decreases fuel
  {
    match AsWrittenPass(s, 0, None, false)
    case None => Panicked
    case Some((t, swapped)) =>
      if !swapped then Settled(t)
      else if fuel == 0 then Unsettled
      else AsWrittenSort(t, fuel - 1)
  }

  /** Every swap of a pass exchanges two stages, so a pass that does not
      panic keeps the same stages. */
  lemma {:induction false} AsWrittenPassPermutes(s: seq<Stage>, index: nat, prev: Option<nat>, swapped: bool)
    ensures var r := AsWrittenPass(s, index, prev, swapped);
      r.Some? ==> multiset(r.value.0) == multiset(s)
    decreases |s| - index
  {
    if index < |s| {
      var current := s[index].depth;
      if prev.Some? && prev.value > current {
        if current < |s| && prev.value < |s| {
          var s' := Swap(s, current, prev.value);
          SwapPermutes(s, current, prev.value);
          AsWrittenPassPermutes(s', index + 1, Some(s'[index].depth), true);
        }
      } else {
        AsWrittenPassPermutes(s, index + 1, Some(current), swapped);
      }
    }
  }

  /** A pass without a swap saw every adjacent pair in order. */
  lemma {:induction false} QuietPassSorted(s: seq<Stage>, index: nat, prev: Option<nat>, t: seq<Stage>)
    requires index <= |s|
    requires prev == (if index == 0 then None else Some(s[index - 1].depth))
    requires AsWrittenPass(s, index, prev, false) == Some((t, false))
    ensures t == s
    ensures forall i :: (if index == 0 then 0 else index - 1) <= i < |s| - 1 ==> s[i].depth <= s[i + 1].depth
    decreases |s| - index
  {
    if index < |s| {
      QuietPassSorted(s, index + 1, Some(s[index].depth), t);
    }
  }

  lemma {:induction false} AdjacentSorted(s: seq<Stage>)
    requires forall i :: 0 <= i < |s| - 1 ==> s[i].depth <= s[i + 1].depth
    ensures SortedByDepth(s)
    decreases |s|
  {
    if |s| > 1 {
      var init := s[..|s| - 1];
      AdjacentSorted(init);
      forall i, j | 0 <= i < j < |s| ensures s[i].depth <= s[j].depth {
        if j < |s| - 1 {
          assert s[i] == init[i] && s[j] == init[j];
        } else if i < j - 1 {
          assert s[i] == init[i] && s[j - 1] == init[j - 1];
        }
      }
    }
  }

  /** When the source's loop does end, its result is right: sorted, and the
      same stages. */
  lemma {:induction false} AsWrittenSettledIsSorted(s: seq<Stage>, fuel: nat)
    requires AsWrittenSort(s, fuel).Settled?
    ensures SortedByDepth(AsWrittenSort(s, fuel).stages)
    ensures multiset(AsWrittenSort(s, fuel).stages) == multiset(s)
    decreases fuel
  {
    var pass := AsWrittenPass(s, 0, None, false);
    var t := pass.value.0;
    AsWrittenPassPermutes(s, 0, None, false);
    if !pass.value.1 {
      QuietPassSorted(s, 0, None, t);
      AdjacentSorted(s);
    } else {
      AsWrittenSettledIsSorted(t, fuel - 1);
    }
  }

  // ---------------------------------------------------------------------------
  // Agreement of the two sorts
  // ---------------------------------------------------------------------------

  /** A stage's depth identifies it among the stages of `s`. */
  ghost predicate DepthDetermines(s: seq<Stage>) {
    forall i, j :: 0 <= i < |s| && 0 <= j < |s| && s[i].depth == s[j].depth ==> s[i] == s[j]
  }

  /** Any reordering of stages with pairwise different depths still has each
      stage identified by its depth. */
  lemma PermutationKeepsDepths(s: seq<Stage>, t: seq<Stage>)
    requires multiset(s) == multiset(t) && DistinctDepths(s)
    ensures DepthDetermines(t)
  {
    forall i, j | 0 <= i < |t| && 0 <= j < |t| && t[i].depth == t[j].depth
      ensures t[i] == t[j]
    {
      var k := MembersOf(t, s, t[i]);
      var l := MembersOf(t, s, t[j]);
      assert k == l;
    }
  }

  /** Removing the same first stage from two orderings of the same stages
      leaves orderings of the same stages. */
  lemma TailsPermute(a: seq<Stage>, b: seq<Stage>)
    requires multiset(a) == multiset(b) && |a| > 0 && |b| > 0 && a[0] == b[0]
    ensures multiset(a[1..]) == multiset(b[1..])
  {
    assert a == [a[0]] + a[1..] && b == [b[0]] + b[1..];
    assert multiset(a) == multiset([a[0]]) + multiset(a[1..]);
    assert multiset(b) == multiset([a[0]]) + multiset(b[1..]);
    forall x ensures multiset(a[1..])[x] == multiset(b[1..])[x] {
      assert multiset(a)[x] == multiset([a[0]])[x] + multiset(a[1..])[x];
      assert multiset(b)[x] == multiset([a[0]])[x] + multiset(b[1..])[x];
    }
  }

  /** Two sorted orderings of the same stages start with the same stage once
      depth identifies a stage: each starts with a shallowest one. */
  lemma SameHead(a: seq<Stage>, b: seq<Stage>)
    requires SortedByDepth(a) && SortedByDepth(b)
    requires multiset(a) == multiset(b) && DepthDetermines(a) && |a| > 0
    ensures |b| > 0 && a[0] == b[0]
  {
    var j := MembersOf(a, b, a[0]);
    var i := MembersOf(b, a, b[0]);
    assert a[0].depth <= a[i].depth && b[0].depth <= b[j].depth;
  }

  /** Two orderings of the same stages that are both sorted are the same
      sequence once depth identifies a stage. */
  lemma {:induction false} SortedPermutationUnique(a: seq<Stage>, b: seq<Stage>)
    requires SortedByDepth(a) && SortedByDepth(b)
    requires multiset(a) == multiset(b) && DepthDetermines(a)
    ensures a == b
    decreases |a|
  {
    assert |multiset(a)| == |a| && |multiset(b)| == |b|;
    if |a| > 0 {
      SameHead(a, b);
      TailsPermute(a, b);
      SortedPermutationUnique(a[1..], b[1..]);
      assert a == [a[0]] + a[1..] && b == [b[0]] + b[1..];
    }
  }

  /** Whenever the source's loop does end on stages with distinct depths, as
      grouping produces, it ends with exactly what the corrected sort returns. */
  lemma AsWrittenAgreesWhenSettled(s: seq<Stage>, fuel: nat)
    requires DistinctDepths(s) && AsWrittenSort(s, fuel).Settled?
    ensures AsWrittenSort(s, fuel).stages == SortStages(s)
  {
    var t := AsWrittenSort(s, fuel).stages;
    AsWrittenSettledIsSorted(s, fuel);
    PermutationKeepsDepths(s, t);
    SortedPermutationUnique(t, SortStages(s));
  }
}
