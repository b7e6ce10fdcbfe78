/** Running the planned instructions: `BuildTarget::build` and
    `BuildInstruction::execute` (src/main.rs:21-30, src/runner.rs:83-88). */
module Execution {
  import opened Wrappers
  import opened BuildFile
  import opened Runner

  /** What a build did: the instructions that ran, in order, and the
      instruction whose execution failed, which ends the program. */
  datatype Run = Run(executed: seq<string>, failed: Option<string>)

  /** The instructions of the targets, target by target, each in file order. */
  function Commands(order: seq<Target>): seq<string> {
    if |order| == 0 then [] else order[0].commands + Commands(order[1..])
  }

  lemma {:induction false} CommandsConcat(a: seq<Target>, b: seq<Target>)
    ensures Commands(a + b) == Commands(a) + Commands(b)
    decreases |a|
  {
    if |a| == 0 {
      assert a + b == b;
    } else {
      assert (a + b)[1..] == a[1..] + b;
      CommandsConcat(a[1..], b);
    }
  }

  /** Runs the instructions in order and stops at the first one the executor
      cannot run; what an instruction prints and its exit status are dropped. */
  function RunCommands(exec: Executor, commands: seq<string>): Run {
    if |commands| == 0 then Run([], None)
    else match RunCommand(exec, commands[0])
      case Failure(_) => Run([], Some(commands[0]))
      case Success(_) =>
        var rest := RunCommands(exec, commands[1..]);
        Run([commands[0]] + rest.executed, rest.failed)
  }

  /** The run is the longest prefix of instructions the executor can run;
      it fails exactly when that prefix is not everything, naming the
      instruction after it. */
  lemma {:induction false} RunStopsAtFirstFailure(exec: Executor, commands: seq<string>)
    ensures var r := RunCommands(exec, commands);
      |r.executed| <= |commands| && r.executed == commands[..|r.executed|] &&
      (forall k :: 0 <= k < |r.executed| ==> exec(r.executed[k]).Some?) &&
      (r.failed.None? <==> |r.executed| == |commands|) &&
      (r.failed.Some? ==> r.failed.value == commands[|r.executed|] && exec(commands[|r.executed|]).None?)
    decreases |commands|
  {
    if |commands| > 0 && exec(commands[0]).Some? {
      RunStopsAtFirstFailure(exec, commands[1..]);
      var rest := RunCommands(exec, commands[1..]);
      assert forall k :: 1 <= k < |rest.executed| + 1 ==> ([commands[0]] + rest.executed)[k] == rest.executed[k - 1];
      assert commands == [commands[0]] + commands[1..];
    }
  }

  /** One step of the run, in terms of the executor alone. */
  lemma RunHead(exec: Executor, c: string, rest: seq<string>)
    ensures RunCommands(exec, [c] + rest) ==
      if exec(c).None? then Run([], Some(c))
      else Run([c] + RunCommands(exec, rest).executed, RunCommands(exec, rest).failed)
  {
    assert ([c] + rest)[0] == c && ([c] + rest)[1..] == rest;
  }

  /** Later instructions start only once every earlier one ran. */
  lemma {:induction false} RunInSequence(exec: Executor, a: seq<string>, b: seq<string>)
    ensures var ra, rb := RunCommands(exec, a), RunCommands(exec, b);
      (ra.failed.Some? ==> RunCommands(exec, a + b) == ra) &&
      (ra.failed.None? ==> RunCommands(exec, a + b) == Run(a + rb.executed, rb.failed))
    decreases |a|
  {
    var rb := RunCommands(exec, b);
    if |a| == 0 {
      assert a + b == b && a + rb.executed == rb.executed;
    } else {
      var c, a' := a[0], a[1..];
      assert a == [c] + a';
      assert a + b == [c] + (a' + b);
      assert a + rb.executed == [c] + (a' + rb.executed);
      RunHead(exec, c, a');
      RunHead(exec, c, a' + b);
      RunInSequence(exec, a', b);
    }
  }
}

/** The program as a whole (`main`, src/main.rs:370-434): parse the build file,
    look up the requested target, build its tree and run the plan. */
module Remake {
  import opened Wrappers
  import opened BuildFile
  import opened Parser
  import opened BuildTree
  import opened TreeInvariants
  import opened Reachability
  import opened Plan
  import opened Execution

  function Remake(src: string, exec: Executor, name: string): (r: Result<Run, Error>)
    ensures r.Success? ==> Parse(src, exec).Success? && FindTarget(Parse(src, exec).value.targets, name).Some?
  {
    var parsed :- Parse(src, exec);
    match FindTarget(parsed.targets, name)
    case None => Failure(UnknownTarget(name))
    case Some(root) =>
      var tree :- New(parsed.targets, root);
      Success(RunCommands(exec, Commands(RunOrder(StagePlan(tree)))))
  }

  /** A name no target has is reported once the file parses. */
  lemma UnknownTargetReported(src: string, exec: Executor, name: string)
    requires Parse(src, exec).Success?
    requires forall k :: 0 <= k < |Parse(src, exec).value.targets| ==> Parse(src, exec).value.targets[k].name != name
    ensures Remake(src, exec, name) == Failure(UnknownTarget(name))
  {
  }

  /** A dependency cycle reachable from the requested target stops the
      program before any instruction runs. */
  lemma CycleStopsBuild(src: string, exec: Executor, name: string, path: seq<nat>, loop: seq<nat>)
    requires Parse(src, exec).Success?
    requires var targets := Parse(src, exec).value.targets;
      FindTarget(targets, name).Some? &&
      Walk(targets, path) && path[0] == FindTarget(targets, name).value &&
      Walk(targets, loop) && |loop| > 1 && loop[0] == path[|path| - 1] && loop[|loop| - 1] == loop[0]
    ensures Remake(src, exec, name).Failure?
  {
    var targets := Parse(src, exec).value.targets;
    CycleFails(targets, FindTarget(targets, name).value, path, loop);
  }

  /** The requested target's instructions come last in the planned instructions. */
  lemma PlanEndsWithRoot(tree: seq<Node>, root: Target)
    requires |tree| > 0 && tree[|tree| - 1] == Node(root, 0)
    ensures var planned := Commands(RunOrder(StagePlan(tree)));
      |root.commands| <= |planned| && planned[|planned| - |root.commands|..] == root.commands
  {
    var order := RunOrder(StagePlan(tree));
    RootRunsLast(tree, root);
    CommandsConcat(order[..|order| - 1], [root]);
    assert order[..|order| - 1] + [root] == order;
    assert Commands([root]) == root.commands + Commands([]);
  }

  /** When every instruction runs, the requested target's instructions are the
      last ones run. */
  lemma RequestedTargetRunsLast(src: string, exec: Executor, name: string)
    requires Remake(src, exec, name).Success? && Remake(src, exec, name).value.failed.None?
    ensures var targets := Parse(src, exec).value.targets;
      var root := targets[FindTarget(targets, name).value];
      var executed := Remake(src, exec, name).value.executed;
      |root.commands| <= |executed| && executed[|executed| - |root.commands|..] == root.commands
  {
    var targets := Parse(src, exec).value.targets;
    var index := FindTarget(targets, name).value;
    var tree := New(targets, index).value;
    var planned := Commands(RunOrder(StagePlan(tree)));
    assert Remake(src, exec, name).value == RunCommands(exec, planned);
    RunStopsAtFirstFailure(exec, planned);
    PlanEndsWithRoot(tree, targets[index]);
  }

  /** In the plan of a successful run, every dependency of a planned target is
      built by a target of an earlier stage. */
  lemma DependenciesPlannedFirst(src: string, exec: Executor, name: string, i: nat, t: Target, dep: string)
    returns (j: nat, u: Target)
    requires Remake(src, exec, name).Success?
    requires var targets := Parse(src, exec).value.targets;
      var plan := StagePlan(New(targets, FindTarget(targets, name).value).value);
      i < |plan| && t in plan[i].targets && dep in t.dependencies
    ensures var targets := Parse(src, exec).value.targets;
      var plan := StagePlan(New(targets, FindTarget(targets, name).value).value);
      j < i && u in plan[j].targets && u.name == dep
  {
    var targets := Parse(src, exec).value.targets;
    var root := FindTarget(targets, name).value;
    NewIsLayered(targets, root);
    j, u := DependencyRunsEarlier(targets, New(targets, root).value, i, t, dep);
  }
}
