/** `parse` (src/main.rs:205-249): the outer loop over the build-file. */
module Parser {
  import opened Wrappers
  import opened BuildFile
  import TargetNames
  import Dependents
  import Instructions
  import Exports
  import Runner

  /** What one iteration of the loop found at the current index. */
  datatype Step =
    | Finished                                  // end of input, or only separators left
    | Blank(next: nat)                          // a '\n' is skipped
    | Export(next: nat, globals: Globals)       // an export line was evaluated
    | Block(target: Target, next: nat)          // a target block was read

  datatype Parsed = Parsed(targets: seq<Target>, globals: Globals)

  predicate StartsExport(src: string, pos: nat) {
    pos + 7 <= |src| && src[pos..pos + 7] == "export "
  }

  /** One iteration of `'parse_loop`. A target block reads its name, its
      dependency line and its instructions; the instructions are expanded
      with the table as it is at this point of the file. */
  function ParseStep(src: string, exec: Executor, pos: nat, globals: Globals): (r: Result<Step, Error>)
    ensures r.Success? && !r.value.Finished? ==> pos < r.value.next <= |src|
    ensures r.Success? && r.value.Export? ==> globals.Keys <= r.value.globals.Keys
    ensures r == Success(Finished) <==>
      pos >= |src| || (src[pos] != '\n' && forall j :: pos <= j < |src| ==> TargetNames.IsSeparator(src[j]))
  {
    if pos >= |src| then Success(Finished)
    else if src[pos] == '\n' then Success(Blank(pos + 1))
    else if StartsExport(src, pos) then
      assert src[pos] == src[pos..pos + 7][0];
      Exports.ExportCorrectedAdvances(src, pos, globals, exec);
      match Exports.ParseGlobalCorrected(src, pos, globals, exec)
      case Failure(e) => Failure(e)
      case Success(done) => Success(Export(done.next, done.globals))
    else
      match TargetNames.ParseTargetName(src, pos)
      case Failure(e) => Failure(e)
      case Success(None) => Success(Finished)
      case Success(Some(token)) =>
        match Dependents.ParseTargetDependents(src, token.colon + 1)
        case Failure(e) => Failure(e)
        case Success(deps) =>
          var body := Instructions.ParseBuildInstructions(src, deps.next, globals).value;
          Success(Block(Target(token.name, body.commands, deps.names), body.next))
  }

  /** The loop from `pos`, with the table and the targets read so far. */
  function ParseFrom(src: string, exec: Executor, pos: nat, globals: Globals, targets: seq<Target>)
    : Result<Parsed, Error>
    decreases |src| - pos
  {
    match ParseStep(src, exec, pos, globals)
    case Failure(e) => Failure(e)
    case Success(Finished) => Success(Parsed(targets, globals))
    case Success(Blank(next)) => ParseFrom(src, exec, next, globals, targets)
    case Success(Export(next, globals')) => ParseFrom(src, exec, next, globals', targets)
    case Success(Block(target, next)) => ParseFrom(src, exec, next, globals, targets + [target])
  }

  /** `parse` with an empty table, as `main` calls it. */
  function Parse(src: string, exec: Executor): Result<Parsed, Error> {
    ParseFrom(src, exec, 0, map[], [])
  }

  /** One iteration of the loop, as the rest of the loop sees it. */
  lemma ParseFromStep(src: string, exec: Executor, pos: nat, globals: Globals, targets: seq<Target>)
    ensures var step := ParseStep(src, exec, pos, globals);
      step.Success? && !step.value.Finished? ==>
        ParseFrom(src, exec, pos, globals, targets)
          == ParseFrom(src, exec, step.value.next,
                       if step.value.Export? then step.value.globals else globals,
                       if step.value.Block? then targets + [step.value.target] else targets)
  {
  }

  /** The loop only appends: targets read earlier come out unchanged and in
      file order, so a later export never alters them, and exported names are
      never removed. */
  lemma {:induction false} ParseKeepsEarlier(src: string, exec: Executor, pos: nat, globals: Globals, targets: seq<Target>)
    ensures var r := ParseFrom(src, exec, pos, globals, targets);
      r.Success? ==> |targets| <= |r.value.targets| && r.value.targets[..|targets|] == targets &&
                     globals.Keys <= r.value.globals.Keys
    decreases |src| - pos
  {
    var step := ParseStep(src, exec, pos, globals);
    if step.Success? && !step.value.Finished? {
      ParseFromStep(src, exec, pos, globals, targets);
      var globals' := if step.value.Export? then step.value.globals else globals;
      var targets' := if step.value.Block? then targets + [step.value.target] else targets;
      ParseKeepsEarlier(src, exec, step.value.next, globals', targets');
      var r := ParseFrom(src, exec, step.value.next, globals', targets');
      if r.Success? {
        assert targets'[..|targets|] == targets;
        assert r.value.targets[..|targets|] == (r.value.targets[..|targets'|])[..|targets|];
      }
    }
  }

  /** A block read at `pos` is appended, and the loop goes on after it. */
  lemma ParseFromBlock(src: string, exec: Executor, pos: nat, globals: Globals, targets: seq<Target>,
                       target: Target, next: nat)
    requires ParseStep(src, exec, pos, globals) == Success(Block(target, next))
    ensures ParseFrom(src, exec, pos, globals, targets) == ParseFrom(src, exec, next, globals, targets + [target])
  {
  }

  /** At the end of the input the loop returns what it has read. */
  lemma ParseFromEnd(src: string, exec: Executor, pos: nat, globals: Globals, targets: seq<Target>)
    requires pos >= |src|
    ensures ParseFrom(src, exec, pos, globals, targets) == Success(Parsed(targets, globals))
  {
  }

  /** The first step that fails ends the whole parse with its error. */
  lemma ParseStopsAtError(src: string, exec: Executor, pos: nat, globals: Globals, targets: seq<Target>)
    requires ParseStep(src, exec, pos, globals).Failure?
    ensures ParseFrom(src, exec, pos, globals, targets) == Failure(ParseStep(src, exec, pos, globals).error)
  {
  }

  /** A build file whose only block is not followed by a blank line. */
  const Unterminated := "a:\n\tx\n"

  lemma UnterminatedName()
    ensures TargetNames.ParseTargetName(Unterminated, 0) == Success(Some(TargetNames.NameToken("a", 1)))
  {
    TargetNames.OneLetterName(Unterminated, 0);
    assert [Unterminated[0]] == "a";
  }

  lemma UnterminatedDependents()
    ensures Dependents.ParseTargetDependents(Unterminated, 2) == Success(Dependents.DepList([], 3))
  {
    assert Unterminated[2] == '\n';
  }

  lemma UnterminatedBody()
    ensures Instructions.ParseBuildInstructions(Unterminated, 3, map[]) == Success(Instructions.InstrList([], 3))
  {
    assert Unterminated[3] == '\t' && Unterminated[4] == 'x' && Unterminated[5] == '\n' && |Unterminated| == 6;
  }

  /** An iteration at a target header reads the header, the dependency line
      and the instructions, in that order. */
  lemma BlockStep(src: string, exec: Executor, pos: nat, globals: Globals,
                  token: TargetNames.NameToken, deps: Dependents.DepList)
    requires pos < |src| && src[pos] != '\n' && !StartsExport(src, pos)
    requires TargetNames.ParseTargetName(src, pos) == Success(Some(token))
    requires Dependents.ParseTargetDependents(src, token.colon + 1) == Success(deps)
    ensures var body := Instructions.ParseBuildInstructions(src, deps.next, globals).value;
      ParseStep(src, exec, pos, globals) == Success(Block(Target(token.name, body.commands, deps.names), body.next))
  {
  }

  lemma UnterminatedBlock(exec: Executor)
    ensures ParseStep(Unterminated, exec, 0, map[]) == Success(Block(Target("a", [], []), 3))
  {
    UnterminatedName();
    UnterminatedDependents();
    UnterminatedBody();
    assert Unterminated[0] == 'a' && !StartsExport(Unterminated, 0);
    BlockStep(Unterminated, exec, 0, map[], TargetNames.NameToken("a", 1), Dependents.DepList([], 3));
  }

  lemma UnterminatedRescan(exec: Executor)
    ensures ParseStep(Unterminated, exec, 3, map[]) == Failure(SeparatorInName)
  {
    assert Unterminated[3] == '\t' && Unterminated[4] == 'x' && Unterminated[5] == '\n' && |Unterminated| == 6;
    assert !StartsExport(Unterminated, 3);
  }

  /** A block must be followed by a blank line. When the input ends right
      after a block's last instruction, the instruction scanner returns no
      instructions and the index where the block's instructions began, so the
      loop reads that instruction line again as a target header, and the
      tab before its first word is no part of a name. */
  lemma FinalBlockNeedsBlankLine(exec: Executor)
    ensures Parse(Unterminated, exec) == Failure(SeparatorInName)
  {
    UnterminatedBlock(exec);
    ParseFromStep(Unterminated, exec, 0, map[], []);
    UnterminatedRescan(exec);
    ParseStopsAtError(Unterminated, exec, 3, map[], [Target("a", [], [])]);
  }

  // ---------------------------------------------------------------------------
  // A block with one instruction and a closing blank line
  // ---------------------------------------------------------------------------

  lemma {:induction false} NameRunEnds(src: string, k: nat, e: nat)
    requires k <= e < |src| && !TargetNames.IsNameChar(src[e])
    requires forall j :: k <= j < e ==> TargetNames.IsNameChar(src[j])
    ensures TargetNames.NameEnd(src, k) == e
    decreases e - k
  {
    if k < e {
      NameRunEnds(src, k + 1, e);
    }
  }

  /** A line that opens with a name and ':' is no export line. */
  lemma HeaderIsNoExport(src: string, pos: nat, n: nat)
    requires 0 < n && pos + n < |src| && src[pos + n] == ':'
    requires forall j :: pos <= j < pos + n ==> TargetNames.IsNameChar(src[j])
    ensures !StartsExport(src, pos)
  {
    var m := if n < 6 then n else 6;
    if pos + 7 <= |src| {
      assert src[pos..pos + 7][m] == src[pos + m];
      assert src[pos + m] != "export "[m];
    }
  }

  lemma HeaderName(src: string, pos: nat, n: nat)
    requires 0 < n && pos + n < |src| && src[pos + n] == ':'
    requires forall j :: pos <= j < pos + n ==> TargetNames.IsNameChar(src[j])
    ensures TargetNames.ParseTargetName(src, pos) == Success(Some(TargetNames.NameToken(src[pos..pos + n], pos + n)))
  {
    TargetNames.TargetNameMatchesSpec(src, pos);
    NameRunEnds(src, pos, pos + n);
  }

  lemma DependencyLine(src: string, start: nat, e: nat, deps: string, next: nat)
    requires start <= e < |src| && src[e] == '\n' && src[start..e] == deps && next == e + 1
    requires '\n' !in deps
    ensures Dependents.ParseTargetDependents(src, start) == Success(Dependents.DepList(Dependents.Words(deps), next))
  {
    forall j | start <= j < e ensures src[j] != '\n' {
      assert src[j] == deps[j - start];
    }
    Dependents.DependentsMatchSpec(src, start);
    Instructions.NewlineOfLine(src, start, e);
  }

  /** The body `\tx` followed by a blank line holds the one instruction "x". */
  lemma OneInstructionBody(src: string, start: nat, globals: Globals)
    requires BodyAt(src, start)
    ensures Instructions.ParseBuildInstructions(src, start, globals) == Success(Instructions.InstrList(["x"], start + 4))
  {
    Instructions.InstructionsMatchSpec(src, start, globals);
    Instructions.NewlineOfLine(src, start, start + 2);
    var line := src[start..start + 2];
    assert line == ['\t', 'x'];
    Instructions.DropLeadingTabs(line, 1);
    assert line[1..] == "x";
    Runner.NoPercentUnchanged("x", globals);
    assert [] + [Runner.Substitute(Instructions.DropTabs(line), globals)] == ["x"];
    assert Instructions.LinesFrom(src, start, globals, start, true, [])
        == Instructions.LinesFrom(src, start, globals, start + 3, false, ["x"]);
    Instructions.NewlineOfLine(src, start + 3, start + 3);
    assert Instructions.AllTabs(src[start + 3..start + 3]);
    assert Instructions.LinesFrom(src, start, globals, start + 3, false, ["x"])
        == Success(Instructions.InstrList(["x"], start + 4));
  }

  /** The text of a block whose name is one character: `NAME:DEPS`, then
      `\tx` and a blank line. */
  function OneBlockText(name: char, deps: string): string {
    [name, ':'] + deps + ['\n', '\t', 'x', '\n', '\n']
  }

  lemma BlockTextParts(name: char, deps: string)
    ensures var blk := OneBlockText(name, deps);
      && |blk| == |deps| + 7 && blk[0] == name && blk[1] == ':'
      && (forall k :: 0 <= k < |deps| ==> blk[k + 2] == deps[k])
      && blk[|deps| + 2] == '\n' && blk[|deps| + 3] == '\t' && blk[|deps| + 4] == 'x'
      && blk[|deps| + 5] == '\n' && blk[|deps| + 6] == '\n'
  {
  }

  /** Where the header of a block text found at `pos` sits in the file: the
      name, the ':', the dependency text and the '\n' that ends it. */
  predicate LaidOut(src: string, pos: nat, name: char, deps: string) {
    && pos + 2 + |deps| < |src|
    && src[pos] == name && src[pos + 1] == ':' && src[pos + 2 + |deps|] == '\n'
    && '\n' !in deps
    && src[pos + 2..pos + 2 + |deps|] == deps
  }

  /** The body `\tx` and a blank line at `start`. */
  predicate BodyAt(src: string, start: nat) {
    start + 4 <= |src| && src[start] == '\t' && src[start + 1] == 'x' && src[start + 2] == '\n' && src[start + 3] == '\n'
  }

  lemma BlockLayout(src: string, pos: nat, name: char, deps: string)
    requires '\n' !in deps
    requires pos + |deps| + 7 <= |src| && src[pos..pos + |deps| + 7] == OneBlockText(name, deps)
    ensures LaidOut(src, pos, name, deps) && BodyAt(src, pos + |deps| + 3)
  {
    var blk := src[pos..pos + |deps| + 7];
    var e := pos + 2 + |deps|;
    BlockTextParts(name, deps);
    assert src[pos] == blk[0] && src[pos + 1] == blk[1];
    assert src[e] == blk[|deps| + 2] && src[e + 1] == blk[|deps| + 3] && src[e + 2] == blk[|deps| + 4];
    assert src[e + 3] == blk[|deps| + 5] && src[e + 4] == blk[|deps| + 6];
    assert src[pos + 2..e] == deps by {
      forall k | 0 <= k < |deps| ensures src[pos + 2..e][k] == deps[k] {
        assert src[pos + 2..e][k] == blk[k + 2];
      }
    }
  }

  lemma LaidOutLine(src: string, pos: nat, name: char, deps: string)
    requires LaidOut(src, pos, name, deps)
    ensures pos + 2 + |deps| < |src| && src[pos + 2 + |deps|] == '\n'
    ensures src[pos + 2..pos + 2 + |deps|] == deps
    ensures '\n' !in deps
  {
  }

  /** The header of a block laid out at `pos`, with the one-character name
      NAME, is no export and is read as the name NAME. */
  lemma HeaderNamePart(src: string, pos: nat, name: char)
    requires TargetNames.IsNameChar(name)
    requires pos + 1 < |src| && src[pos] == name && src[pos + 1] == ':'
    ensures pos < |src| && src[pos] != '\n' && !StartsExport(src, pos)
    ensures TargetNames.ParseTargetName(src, pos) == Success(Some(TargetNames.NameToken([name], pos + 1)))
  {
    HeaderName(src, pos, 1);
    assert src[pos..pos + 1] == [name];
    HeaderIsNoExport(src, pos, 1);
  }

  /** One block step from the results of the three readers. */
  lemma BlockStepFrom(src: string, exec: Executor, pos: nat, globals: Globals, tname: string,
                      names: seq<string>, bodyStart: nat, commands: seq<string>, next: nat)
    requires pos < |src| && src[pos] != '\n' && !StartsExport(src, pos)
    requires TargetNames.ParseTargetName(src, pos) == Success(Some(TargetNames.NameToken(tname, pos + 1)))
    requires Dependents.ParseTargetDependents(src, pos + 2) == Success(Dependents.DepList(names, bodyStart))
    requires Instructions.ParseBuildInstructions(src, bodyStart, globals) == Success(Instructions.InstrList(commands, next))
    ensures ParseStep(src, exec, pos, globals) == Success(Block(Target(tname, commands, names), next))
  {
  }

  lemma SliceOfJoin(pre: string, mid: string, post: string)
    ensures (pre + mid + post)[|pre|..|pre| + |mid|] == mid
  {
  }

  /** Such a block is laid out wherever it sits in a file. */
  lemma LayoutInFile(pre: string, name: char, deps: string, post: string)
    requires '\n' !in deps
    ensures LaidOut(pre + OneBlockText(name, deps) + post, |pre|, name, deps)
    ensures BodyAt(pre + OneBlockText(name, deps) + post, |pre| + |deps| + 3)
  {
    BlockTextParts(name, deps);
    SliceOfJoin(pre, OneBlockText(name, deps), post);
    BlockLayout(pre + OneBlockText(name, deps) + post, |pre|, name, deps);
  }
}
