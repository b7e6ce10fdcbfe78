# remake, modelled in Dafny

remake is a small build tool. It reads a build file. The file holds `export`
lines, which bind global variables to the output of a shell command, and
target blocks. A block gives a target name, then `:`, then its dependencies,
then one shell instruction per line. remake builds the target named on its
command line in four steps:

- It parses the file. Each instruction is expanded at parse time: `%NAME` is
  replaced by the value of the global `NAME` as it is at that point of the file.
- It builds a dependency tree with the requested target at depth 0. Each
  dependency sits one level deeper than its dependent. Every visit of a
  target appends an entry, and an earlier entry of the same name is removed
  only when it is strictly shallower. A target reached along two paths of
  the same length is therefore recorded, and run, twice
  (`Diamond.SharedDependencyRunsTwice`).
- It groups the tree's entries into stages by depth and sorts the stages.
- It runs the stages from the deepest to the shallowest, and within a stage
  runs each target's instructions in order.

The model is functional. Shell execution is a parameter,
`Executor = string -> Option<string>`: it returns the raw standard output of
`bash -c <command>`, or `None` when spawning, waiting or reading fails. Each
character scanner is modelled as the source writes it, as a recursive
function over the scanner state: `ScanName`, `ScanDeps`, `ScanInstructions`
and `ScanExport` in the parser, and `Step`/`Scan` for `%NAME` substitution.
Their partners differ:

- The name, dependency and instruction scanners are each paired with an
  independent phase-by-phase or line-by-line reference definition. An
  all-inputs lemma proves each pair agrees.
- The export scanner as written is characterised only on well-formed lines
  (`Exports.ExportDefines`) and by its error and progress lemmas. Its
  corrected form `ScanExportCorrected` (see Findings) has the reference
  definition `Exports.ExportReference` and an all-inputs agreement lemma.
  `Exports.ExportScansAgree` proves that the scan as written gives the same
  result as the corrected one, and so as the reference, on every line where
  no `=` after the name's own separator is directly followed by a space.
- Substitution is written twice: as the source's index loop
  (`Runner.NewInstruction`) and as a fold of a one-character step
  (`Runner.Substitute`). The two are proved equal, but they are the same
  algorithm. What substitution means is stated by separate lemmas about the
  fold: `TokenExpands`, `TrailingTokenDropped`, `EscapedPercentLiteral`,
  `BreakSplits` and `NoPercentUnchanged`.

Modules:

- `Wrappers` holds `Option`, `Result` and the first-match search.
- `BuildFile` holds targets, errors and the executor type.
- `Runner`: output post-processing and substitution.
- `TargetNames`, `Dependents`, `Instructions` and `Exports` model the four
  scanners.
- `Parser`: the outer parse loop.
- `BuildTree`: `BuildTree::new`, `add_branch` and `insert_node_depth`.
- `TreeInvariants`: layering.
- `Reachability`: the tree against the dependency graph, and cycles.
- `Stages`: grouping, the corrected sort and the sort as written.
- `SortFinding`: a concrete build file on which the sort as written never ends.
- `Diamond`: a shared dependency at equal depth is run twice.
- `Plan`: the run order.
- `Execution`: running instructions.
- `Remake`: the whole pipeline.

Where the code and the program's intended behaviour differ, the model
follows the code. The two exceptions are the defects under "## Findings":
there the as-written definition is kept and proved to misbehave, and the rest
of the model uses the corrected one. Elsewhere:

- `\%` keeps its backslash, so `\%NAME` becomes `\%NAME`, not `%NAME`
  (`Runner.EscapedPercentLiteral`).
- In `export NAME=...` the stored name keeps its `=` (`GREETING=`), so
  `%GREETING` does not find it (`Exports.ExportDefines`).
- Instruction lines are not required to start with a tab, and a block ends
  only at a later line that is empty or holds only tabs. A header line that
  directly follows an instruction is therefore read as one more instruction.
- A `%NAME` token still open at the end of an instruction is dropped
  (`Runner.TrailingTokenDropped`). The instruction text excludes its `\n`, so
  a trailing `%NAME` expands to nothing.
- When the input ends right after a block's instructions, the instruction
  scanner returns no instructions and the block's start index. The parse
  loop then reads the instruction line again as a header
  (`Parser.FinalBlockNeedsBlankLine`).
- `add_branch` has no cycle guard and recurses without end on a cycle. The
  model stops with `DependencyCycle` instead. A non-leaf target reached at a
  depth of at least the number of targets reports a cycle. That depth is
  never reached on an acyclic graph (`Reachability.CycleReported`), and a
  cycle reachable from the root never yields a tree (`Reachability.CycleFails`).

## Model

| member | source | states |
|---|---|---|
| Runner.PostProcess | src/runner.rs:29-35 | The captured output keeps its length and every character before the last. A final `\n` is replaced in place by one space, and any other output is returned unchanged. The result never ends in `\n`. |
| Runner.RunCommand | src/runner.rs:18-36 | A command succeeds exactly when the executor yields output. Its value is that output post-processed, and a failure names the command. The exit status plays no part. |
| Runner.NewInstruction | src/runner.rs:46-81 | The source's index loop, which slices token names out by position, yields exactly the left-to-right substitution `Substitute`. |
| Runner.NoPercentUnchanged | src/runner.rs:55-78 | A template with no `%` is returned unchanged. |
| Runner.BreakSplits | src/runner.rs:60-72 | Each space or newline closes any open token. The text after it is substituted on its own, so no token spans a break. |
| Runner.TokenExpands | src/runner.rs:55-68 | A `%` anywhere in a word, unless right after `\`, opens a name that runs to the next break. The token and its break are replaced by the global's value, or by nothing when the name is unbound. The value is emitted verbatim and never rescanned, and the text before the `%` is substituted on its own. |
| Runner.TrailingTokenDropped | src/runner.rs:55-80 | A token opened anywhere in a word (not right after `\`) and still open when the template ends is dropped with no output. |
| Runner.EscapedPercentLiteral | src/runner.rs:55-59 | Wherever no token is open, `\%` is emitted as both characters, opens no token, and leaves the scanner fresh, so the text after it is substituted on its own. |
| TargetNames.ScanName | src/main.rs:32-65 | A found name is the non-empty slice ending right before the `:` it reports. The scan yields "no target" exactly when only separators remain. |
| TargetNames.TargetNameMatchesSpec | src/main.rs:32-65 | For every input the scanner agrees with the phase-by-phase reference. Leading separators are skipped, and the name is the longest run of other characters. `:` with no name, a separator after the name, and the end of input after the name are each errors. |
| Dependents.ScanDeps | src/main.rs:67-97 | On success the scan resumes just past the first `\n` from the start. It fails, with an unterminated-dependencies error, exactly when no `\n` follows. |
| Dependents.DependentsMatchSpec | src/main.rs:67-97 | For every input the scanner yields the space- or tab-separated words before the first `\n`, in order, and the index after that `\n`. An empty list is allowed. |
| Instructions.ScanInstructions | src/main.rs:99-137 | The scan never fails. It resumes either at its start or just past a `\n`. |
| Instructions.InstructionsMatchSpec | src/main.rs:99-137 | For every input the scanner agrees with the line-by-line reference. Each line gives one instruction: the text after its leading tabs, substituted with the globals of that point. The block ends past the first later line that is empty or all tabs. A missing final `\n` discards the block and resumes at the start. |
| Exports.ExportDefines | src/main.rs:139-203 | The scan as written, on an export line whose value does not start with a space and holds no `= `: the name ends at the first space or `=` and keeps the `=`. The value is the post-processed output of `echo <expression>`, and the parse resumes past the line's `\n`. An executor failure fails the line. |
| Exports.ExportMatchesReference | src/main.rs:144-202 | For every input, the corrected export scan agrees with the reference reading. The name is the longest run after the leading spaces of characters other than space, `=` and `\n`, and must not be empty. A name ended by `\n` is its own expression. After a space or `=` (kept in the name) and optional spaces, the expression is the rest of the line, whatever it holds. A line cut off by the end of input stores nothing. |
| Exports.ExportCorrectedAdvances | src/main.rs:152-202 | The corrected export scan resumes after the `export ` keyword and no later than the end of input, and never removes a global. |
| Exports.DroppedText | src/main.rs:155-166 | As written, `export A=x= y` followed by `\n` runs `echo = y` and stores its output as `A=`. The `x` is lost. |
| Exports.KeptText | src/main.rs:155-166 | With the corrected scan, the same line runs `echo x= y`. |
| Exports.ExportScansAgree | src/main.rs:152-202 | On an export line where no `=` after the name's own separator is directly followed by a space, the scan as written and the corrected scan give the same result: the same stored name and value, the same resume index, or the same error. |
| Exports.NameEqualsSpaceAgrees | src/main.rs:184-197 | On `export A= x` followed by `\n`, where the `=` that ends the name is followed by a space, both scans give the same result. |
| Exports.ExportNeedsName | src/main.rs:168-195 | An export line with no name before its `\n` or its first `=` fails with the missing-name error. |
| Exports.ScanExportAdvances | src/main.rs:152-202 | The export scan moves forward and never removes a global. |
| Exports.UnterminatedExportIgnored | src/main.rs:152-202 | An export line with no `\n` before the end of input stores nothing: it either fails or leaves the globals as they were. |
| Parser.ParseStep | src/main.rs:212-245 | Each loop iteration that continues moves strictly forward, and an export never removes a global. The loop stops without error exactly at the end of input, or when only separators remain. Export lines are read with the corrected export scan, which agrees with the source's scan on every line where no `=` after the name's own separator is directly followed by a space. |
| Parser.ParseKeepsEarlier | src/main.rs:209-248 | The loop only appends. Targets read earlier come out unchanged and in file order, and global names are never removed. |
| Parser.ParseStopsAtError | src/main.rs:222-237 | The first step that fails ends the whole parse with that step's error. |
| Parser.FinalBlockNeedsBlankLine | src/main.rs:112-137 | The file `a:`, tab `x`, with no blank line after it, fails with a separator-in-name error. The instruction line is read again as a header. |
| Wrappers.FindFirst | src/main.rs:334-337 | The lookup yields the first element that matches, and yields none exactly when nothing matches. |
| BuildFile.FindTargetIsFirst | src/main.rs:419-420 | A name resolves to the first target of that name, and to nothing exactly when no target has it. |
| BuildTree.InsertFacts | src/main.rs:348-365 | After an insertion, the inserted name's largest depth is the larger of its old largest depth and the new depth. Every other name keeps its largest depth. The first entry of the same name is removed exactly when it is shallower than the new entry, and nothing else changes. |
| BuildTree.AddBranch | src/main.rs:316-345 | A successful branch ends with the branch's own target recorded at the branch's depth. |
| BuildTree.AddDependencies | src/main.rs:333-341 | A missing-dependency error names a dependency that no target defines. |
| TreeInvariants.NewIsLayered | src/main.rs:257-267 | A finished tree ends with the root at depth 0. Each entry holds the first definition of its name, and each dependency of each entry has an entry deeper than it. |
| Reachability.CycleReported | src/main.rs:316-345 | A reported cycle is real. A walk from the root reaches a target from which a walk of at least one edge leads back to it. |
| Reachability.CycleFails | src/main.rs:316-345 | Where the source recurses without end, the model stops: a cycle reachable from the root never yields a tree. |
| Reachability.NewCoversReachable | src/main.rs:316-345 | Every target reachable from the root is in the tree, with a largest depth at least as long as any walk that reaches it. |
| Reachability.NewSound | src/main.rs:316-365 | Only reachable targets are in the tree, and each entry's depth is the length of a walk that reaches it. With the previous row, each name's largest depth is the length of its longest walk from the root. |
| Stages.GroupIsGrouping | src/main.rs:276-285 | The grouping gives each depth of the tree exactly one stage. A stage holds the targets at its depth in entry order, and no stage is empty. |
| Stages.NoSwapIffSorted | src/main.rs:289-305 | An adjacent-swap pass makes no swap exactly when the stages are already sorted by depth, and then changes nothing. |
| Stages.PassPermutes | src/main.rs:292-303 | An adjacent-swap pass only reorders the stages. |
| Stages.SortStages | src/main.rs:289-305 | The corrected sort always ends, with the same stages in ascending depth order. |
| Stages.AsWrittenPassPermutes | src/main.rs:292-303 | A pass of the sort as written that does not panic only reorders the stages. |
| Stages.AsWrittenSettledIsSorted | src/main.rs:289-305 | When the sort as written does end, its result is sorted by depth and holds the same stages. |
| SortFinding.ChainFileParses | src/main.rs:205-249 | The chain build file parses into exactly the targets `r`, `a`, `b`, `c`, `d`, each with the one instruction `x`, and no globals, whatever the executor does. The file is a blank line, then `r: a b`, `a:`, `b: c`, `c: d`, `d:`, each followed by tab `x` and a blank line. |
| SortFinding.ChainTree | src/main.rs:316-365 | For those targets, the tree built for `r` is `a`:1, `d`:3, `c`:2, `b`:1, `r`:0, in that order. |
| SortFinding.ChainStages | src/main.rs:276-285 | The stages of that tree, in grouping order, have depths 1, 3, 2, 0. |
| SortFinding.ChainNeverSettles | src/main.rs:289-305 | The sort as written is still running after any number of passes on those stages. |
| SortFinding.ChainCorrected | src/main.rs:289-305 | The corrected sort orders the same stages as depths 0, 1, 2, 3. |
| SortFinding.ChainFileHangs | src/main.rs:403-428 | End to end: the chain build file parses, `r` resolves to its first target, the tree is built, and the sort as written on its stages has not ended after any number of passes. |
| Stages.SortedPermutationUnique | src/main.rs:289-305 | Two depth-sorted orderings of the same stages, where a depth determines its stage, are equal. |
| Stages.AsWrittenAgreesWhenSettled | src/main.rs:289-305 | Whenever the sort as written ends on stages with distinct depths, it ends with exactly what the corrected sort returns. |
| Plan.AsWrittenPlanAgrees | src/main.rs:269-312 | Whenever the sort as written ends on the grouped stages of a tree, reversing its result gives the plan. The plan therefore changes only the inputs on which the source never ends. |
| Diamond.SharedDependencyRunsTwice | src/main.rs:307-365 | For `r: a b`, `a: c`, `b: c`, `c:`, the tree records `c` twice at depth 2, and the run order is `c`, `c`, `a`, `b`, `r`. |
| Plan.PlanStage | src/main.rs:276-285 | Every stage of the plan holds exactly the targets at its depth. |
| Plan.DeeperRunsEarlier | src/main.rs:307-312 | A deeper stage runs before a shallower one. |
| Plan.DependencyRunsEarlier | src/main.rs:269-312 | In a layered tree, every dependency of a planned target is built by a target of an earlier stage. |
| Plan.RootRunsLast | src/main.rs:307-312 | The root target is the last target to run. |
| Execution.RunStopsAtFirstFailure | src/main.rs:21-30 | The instructions that ran are the longest prefix the executor can run. The run fails exactly when that prefix is not everything, and it names the instruction after the prefix. |
| Execution.RunInSequence | src/main.rs:307-312 | Later instructions start only once all earlier ones ran. A failure stops everything after it. |
| Remake.Remake | src/main.rs:403-432 | A build succeeds only if the file parses and the requested name resolves. |
| Remake.UnknownTargetReported | src/main.rs:419-432 | A name that no parsed target has is reported as an unknown target. |
| Remake.CycleStopsBuild | src/main.rs:419-428 | A dependency cycle reachable from the requested target stops the program before any instruction runs. |
| Remake.RequestedTargetRunsLast | src/main.rs:419-428 | When every instruction runs, the requested target's instructions are the last ones run. |
| Remake.DependenciesPlannedFirst | src/main.rs:419-428 | In the plan of a successful build, every dependency of a planned target is built in an earlier stage. |

## Left out

- Command-line handling, reading the build file, and the `--debug` dumps
  (src/main.rs:370-417): these are I/O. The model starts from the file's
  text and the requested name.
- Process spawning and output capture (src/runner.rs:8-28) are the
  `Executor` parameter. The exit status is ignored, as in the source, so a
  command that exits non-zero still counts as run.
- The informational messages printed before each instruction
  (src/main.rs:24): output only.
- Panics (`expect` on a failed instruction, src/main.rs:25-26) are modelled
  as the run stopping with the failed instruction named.
- `as_ascii().unwrap()` (src/main.rs:408-409): the model works on
  characters and assumes the byte and character positions of the source
  coincide, as they do for ASCII input.
- The unbounded recursion of `add_branch` on a cycle, and the stack overflow
  that ends it, are replaced by the `DependencyCycle` error.
- Stages.AsWrittenSort: the outer loop of the sort as written is cut off
  after `fuel` passes, and `Unsettled` stands for a loop that had not ended
  yet. Non-termination is stated for every fuel bound.
- BuildFile.FindTarget: its contract only says that the target found has
  the name. First-match is stated separately by `BuildFile.FindTargetIsFirst`.
- BuildTree.InsertNodeDepth: its contract only says that the new entry is
  appended last. Everything else it does is stated by `BuildTree.InsertFacts`.
- Running the targets of one stage concurrently is not modelled. The source
  runs them one after another.
- Exports.ExportDefines: states the scan as written only for values that do
  not start with a space and hold no `= `, and only for lines with a space or
  `=` after the name. On the excluded values the source drops text (see
  Findings, and `Exports.DroppedText`). The parser uses
  `Exports.ParseGlobalCorrected`, whose behaviour on every input
  `Exports.ExportMatchesReference` states.
- Plan.StagePlan / Remake.Remake: plan with the corrected sort, not the sort
  as written. Where the sort as written ends, the two plans are equal
  (`Plan.AsWrittenPlanAgrees`, `Stages.AsWrittenAgreesWhenSettled`). Where it
  never ends, the source hangs and the model builds in depth order. Its third
  outcome, `Panicked`, is a swap at a position past the last stage, which
  needs a depth at least the number of stages. The model proves no bound on
  the depths of a built tree that would rule this out.
- Parser.ParseStep / Parser.Parse: read export lines with the corrected
  export scan, not the one written at src/main.rs:152-202. The two can differ
  only on a line where a `=` that comes after the name's own separator is
  directly followed by a space: there the source can drop text from the
  expression (see Findings). On every other line, including the usual
  `NAME= value` spelling, they store the same value under the same name
  (`Exports.ExportScansAgree`, `Exports.NameEqualsSpaceAgrees`).
- Executor output is assumed ASCII. src/runner.rs:30 indexes characters by
  the byte length of the output, which panics on output holding a multi-byte
  character. `Runner.PostProcess` never fails.
- Error message texts are left out. Errors are the constructors of
  `BuildFile.Error`.

## Findings

| source | as written | input that shows it | evidently intended | confidence | as-written member | corrected member |
|---|---|---|---|---|---|---|
| src/main.rs:296-297 | The bubble sort swaps the stages at the positions named by the two depth VALUES, `swap(current, prev)`, instead of the adjacent positions `index - 1` and `index`. | The build file `SortFinding.ChainFile`: a blank line, then `r: a b`, `a:`, `b: c`, `c: d`, `d:`, each followed by one tab-indented instruction `x` and a blank line, built for `r`. The stages have depths 1 3 2 0. The first pass leaves 1 3 0 2, and every later pass swaps positions 0 and 3, moving between 1 3 0 2 and 2 3 0 1 for ever. | Swap adjacent positions, so the loop ends with the stages in ascending depth order. | not executed | Stages.AsWrittenSort, SortFinding.ChainNeverSettles, SortFinding.ChainFileHangs | Stages.SortStages, SortFinding.ChainCorrected |
| src/main.rs:164-165 | Outside a token, a space advances `token_start`. After the name, `=` always clears `inside_token`, so a space that follows a `=` inside the value moves the start of the expression. | `export A=x= y` followed by `\n`: the command run is `echo = y`, not `echo x= y`. | The expression is the rest of the line after the name, its separator and the spaces that follow it. | not executed | Exports.ParseGlobal, Exports.DroppedText | Exports.ParseGlobalCorrected, Exports.ExportMatchesReference, Exports.KeptText |
