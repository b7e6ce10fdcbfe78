/** `parse_build_instructions` (src/main.rs:99-137): the instruction lines of a
    target block, each expanded through `%NAME` substitution. */
module Instructions {
  import opened Wrappers
  import opened BuildFile
  import Runner
  import Dependents

  /** The expanded instructions and the index where the outer parse resumes. */
  datatype InstrList = InstrList(commands: seq<string>, next: nat)

  /** The source's character loop. Leading tabs advance `tokenStart`; the first
      other character of a line starts the instruction (`insideToken`) and
      marks the line as non-blank (`insideLine`); a '\n' either ends the block,
      when the line held only tabs, or stores the line's instruction. The flag
      `insideLine` starts true, so the first line is always stored. */
  function ScanInstructions(src: string, start: nat, globals: Globals, i: nat, tokenStart: nat,
                            insideToken: bool, insideLine: bool, commands: seq<string>): (r: Result<InstrList, Error>)
    requires start <= i && tokenStart <= i
    ensures r.Success?
    ensures start <= r.value.next <= |src| || r.value.next == start
    ensures r.value.next > start ==> src[r.value.next - 1] == '\n'
    decreases |src| - i
  {
    if i >= |src| then Success(InstrList([], start))
    else if src[i] == '\t' then
      ScanInstructions(src, start, globals, i + 1, if insideToken then tokenStart else tokenStart + 1,
                       insideToken, insideLine, commands)
    else if src[i] == '\n' then
      if !insideLine then Success(InstrList(commands, i + 1))
      else ScanInstructions(src, start, globals, i + 1, tokenStart, false, false,
                            commands + [Runner.Substitute(src[tokenStart..i], globals)])
    else if !insideToken then
      ScanInstructions(src, start, globals, i + 1, i, true, true, commands)
    else
      ScanInstructions(src, start, globals, i + 1, tokenStart, true, insideLine, commands)
  }

  function ParseBuildInstructions(src: string, start: nat, globals: Globals): Result<InstrList, Error> {
    ScanInstructions(src, start, globals, start, start, false, true, [])
  }

  // ---------------------------------------------------------------------------
  // Reference definition: line by line.
  // ---------------------------------------------------------------------------

  predicate AllTabs(line: string) {
    forall j :: 0 <= j < |line| ==> line[j] == '\t'
  }

  /** The line without its leading tabs. */
  function DropTabs(line: string): string {
    if |line| > 0 && line[0] == '\t' then DropTabs(line[1..]) else line
  }

  /** Line by line from `p`: every line up to its '\n' yields its text without
      leading tabs, except that a later (not first) line that is empty or holds
      only tabs ends the block just past its '\n'. A missing '\n' discards the
      whole block and resumes at `start`. */
  function LinesFrom(src: string, start: nat, globals: Globals, p: nat, first: bool, commands: seq<string>)
    : Result<InstrList, Error>
    decreases |src| - p
  {
    match Dependents.NextNewline(src, p)
    case None => Success(InstrList([], start))
    case Some(e) =>
      var line := src[p..e];
      if !first && AllTabs(line) then Success(InstrList(commands, e + 1))
      else LinesFrom(src, start, globals, e + 1, false, commands + [Runner.Substitute(DropTabs(line), globals)])
  }

  function InstructionsSpec(src: string, start: nat, globals: Globals): Result<InstrList, Error> {
    LinesFrom(src, start, globals, start, true, [])
  }

  lemma DropLeadingTabs(line: string, q: nat)
    requires q < |line| && AllTabs(line[..q]) && line[q] != '\t'
    ensures DropTabs(line) == line[q..]
    decreases q
  {
    if q > 0 {
      assert line[0] == line[..q][0];
      assert line[1..][..q - 1] == line[..q][1..];
      DropLeadingTabs(line[1..], q - 1);
      assert line[1..][q - 1..] == line[q..];
    }
  }

  /** How the scanner's state at index `i` relates to the line that began at
      `p`: before the first non-tab of the line nothing is open and only tabs
      were seen (on the first line `tokenStart` has followed them); after it,
      the instruction started at `tokenStart`. */
  predicate InLine(src: string, p: nat, first: bool, i: nat, tokenStart: nat, insideToken: bool, insideLine: bool) {
    && p <= i <= |src|
    && tokenStart <= i
    && (forall j :: p <= j < i ==> src[j] != '\n')
    && (!insideToken ==> AllTabs(src[p..i]) && insideLine == first && (first ==> tokenStart == i))
    && (insideToken ==> insideLine && p <= tokenStart < i && AllTabs(src[p..tokenStart]) && src[tokenStart] != '\t')
  }

  lemma NewlineOfLine(src: string, p: nat, i: nat)
    requires p <= i < |src| && src[i] == '\n'
    requires forall j :: p <= j < i ==> src[j] != '\n'
    ensures Dependents.NextNewline(src, p) == Some(i)
    decreases i - p
  {
    if p < i {
      NewlineOfLine(src, p + 1, i);
    }
  }

  lemma NoNewlineLeft(src: string, p: nat)
    requires p <= |src|
    requires forall j :: p <= j < |src| ==> src[j] != '\n'
    ensures Dependents.NextNewline(src, p) == None
    decreases |src| - p
  {
    if p < |src| {
      NoNewlineLeft(src, p + 1);
    }
  }

  lemma TabsDropToEmpty(line: string)
    requires AllTabs(line)
    ensures DropTabs(line) == []
  {
    if |line| > 0 {
      TabsDropToEmpty(line[1..]);
    }
  }

  /** At a '\n' that the scanner stores as an instruction, the stored text is
      the line without its leading tabs and the reference does not stop. */
  lemma StoredLine(src: string, p: nat, first: bool, i: nat, tokenStart: nat, insideToken: bool)
    requires InLine(src, p, first, i, tokenStart, insideToken, true) && i < |src| && src[i] == '\n'
    ensures src[tokenStart..i] == DropTabs(src[p..i])
    ensures first || !AllTabs(src[p..i])
  {
    var line := src[p..i];
    if insideToken {
      assert line[..tokenStart - p] == src[p..tokenStart];
      assert line[tokenStart - p] == src[tokenStart];
      DropLeadingTabs(line, tokenStart - p);
      assert line[tokenStart - p..] == src[tokenStart..i];
    } else {
      assert AllTabs(line);
      TabsDropToEmpty(line);
    }
  }

  lemma TabKeepsLine(src: string, p: nat, first: bool, i: nat, tokenStart: nat, insideToken: bool, insideLine: bool)
    requires InLine(src, p, first, i, tokenStart, insideToken, insideLine) && i < |src| && src[i] == '\t'
    ensures InLine(src, p, first, i + 1, if insideToken then tokenStart else tokenStart + 1, insideToken, insideLine)
  {
    assert src[p..i + 1] == src[p..i] + ['\t'];
  }

  lemma TextKeepsLine(src: string, p: nat, first: bool, i: nat, tokenStart: nat, insideToken: bool, insideLine: bool)
    requires InLine(src, p, first, i, tokenStart, insideToken, insideLine)
    requires i < |src| && src[i] != '\t' && src[i] != '\n'
    ensures !insideToken ==> InLine(src, p, first, i + 1, i, true, true)
    ensures insideToken ==> InLine(src, p, first, i + 1, tokenStart, true, insideLine)
  {
  }

  lemma StoreStep(src: string, start: nat, globals: Globals, p: nat, first: bool,
                  i: nat, tokenStart: nat, insideToken: bool, commands: seq<string>)
    requires start <= p
    requires InLine(src, p, first, i, tokenStart, insideToken, true) && i < |src| && src[i] == '\n'
    ensures InLine(src, i + 1, false, i + 1, tokenStart, false, false)
    ensures LinesFrom(src, start, globals, p, first, commands)
         == LinesFrom(src, start, globals, i + 1, false, commands + [Runner.Substitute(src[tokenStart..i], globals)])
  {
    NewlineOfLine(src, p, i);
    StoredLine(src, p, first, i, tokenStart, insideToken);
    LinesStep(src, start, globals, p, first, commands, i);
    FreshLine(src, i + 1, tokenStart);
  }

  /** A line the reference stores: it continues after the line's '\n'. */
  lemma LinesStep(src: string, start: nat, globals: Globals, p: nat, first: bool, commands: seq<string>, e: nat)
    requires Dependents.NextNewline(src, p) == Some(e)
    requires first || !AllTabs(src[p..e])
    ensures LinesFrom(src, start, globals, p, first, commands)
         == LinesFrom(src, start, globals, e + 1, false, commands + [Runner.Substitute(DropTabs(src[p..e]), globals)])
  {
  }

  /** Just past a '\n' a new, not-first line begins with nothing open. */
  lemma FreshLine(src: string, p: nat, tokenStart: nat)
    requires tokenStart <= p <= |src|
    ensures InLine(src, p, false, p, tokenStart, false, false)
  {
    assert src[p..p] == [];
  }

  lemma EndStep(src: string, start: nat, globals: Globals, p: nat, first: bool,
                i: nat, tokenStart: nat, insideToken: bool, commands: seq<string>)
    requires start <= p
    requires InLine(src, p, first, i, tokenStart, insideToken, false) && i < |src| && src[i] == '\n'
    ensures LinesFrom(src, start, globals, p, first, commands) == Success(InstrList(commands, i + 1))
  {
    NewlineOfLine(src, p, i);
  }

  // One character of the scanner, for the proof below.

  lemma ScanTab(src: string, start: nat, globals: Globals, i: nat, tokenStart: nat,
                insideToken: bool, insideLine: bool, commands: seq<string>)
    requires start <= i < |src| && tokenStart <= i && src[i] == '\t'
    ensures ScanInstructions(src, start, globals, i, tokenStart, insideToken, insideLine, commands)
         == ScanInstructions(src, start, globals, i + 1, if insideToken then tokenStart else tokenStart + 1,
                             insideToken, insideLine, commands)
  {
  }

  lemma ScanStore(src: string, start: nat, globals: Globals, i: nat, tokenStart: nat,
                  insideToken: bool, commands: seq<string>)
    requires start <= i < |src| && tokenStart <= i && src[i] == '\n'
    ensures ScanInstructions(src, start, globals, i, tokenStart, insideToken, true, commands)
         == ScanInstructions(src, start, globals, i + 1, tokenStart, false, false,
                             commands + [Runner.Substitute(src[tokenStart..i], globals)])
  {
  }

  lemma ScanText(src: string, start: nat, globals: Globals, i: nat, tokenStart: nat,
                 insideToken: bool, insideLine: bool, commands: seq<string>)
    requires start <= i < |src| && tokenStart <= i && src[i] != '\t' && src[i] != '\n'
    ensures ScanInstructions(src, start, globals, i, tokenStart, insideToken, insideLine, commands)
         == ScanInstructions(src, start, globals, i + 1, if insideToken then tokenStart else i, true,
                             if insideToken then insideLine else true, commands)
  {
  }

  lemma {:induction false} ScanMatchesLines(src: string, start: nat, globals: Globals, p: nat, first: bool,
                                            i: nat, tokenStart: nat, insideToken: bool, insideLine: bool,
                                            commands: seq<string>)
    requires start <= p
    requires InLine(src, p, first, i, tokenStart, insideToken, insideLine)
    ensures ScanInstructions(src, start, globals, i, tokenStart, insideToken, insideLine, commands)
         == LinesFrom(src, start, globals, p, first, commands)
    decreases |src| - i, 1
  {
    if i == |src| {
      NoNewlineLeft(src, p);
    } else if src[i] == '\t' {
      TabMatches(src, start, globals, p, first, i, tokenStart, insideToken, insideLine, commands);
    } else if src[i] == '\n' {
      if insideLine {
        StoreMatches(src, start, globals, p, first, i, tokenStart, insideToken, commands);
      } else {
        EndStep(src, start, globals, p, first, i, tokenStart, insideToken, commands);
      }
    } else {
      TextMatches(src, start, globals, p, first, i, tokenStart, insideToken, insideLine, commands);
    }
  }

  lemma {:induction false} TabMatches(src: string, start: nat, globals: Globals, p: nat, first: bool,
                                      i: nat, tokenStart: nat, insideToken: bool, insideLine: bool,
                                      commands: seq<string>)
    requires start <= p
    requires InLine(src, p, first, i, tokenStart, insideToken, insideLine) && i < |src| && src[i] == '\t'
    ensures ScanInstructions(src, start, globals, i, tokenStart, insideToken, insideLine, commands)
         == LinesFrom(src, start, globals, p, first, commands)
    decreases |src| - i, 0
  {
    var t := if insideToken then tokenStart else tokenStart + 1;
    TabKeepsLine(src, p, first, i, tokenStart, insideToken, insideLine);
    ScanTab(src, start, globals, i, tokenStart, insideToken, insideLine, commands);
    ScanMatchesLines(src, start, globals, p, first, i + 1, t, insideToken, insideLine, commands);
  }

  lemma {:induction false} StoreMatches(src: string, start: nat, globals: Globals, p: nat, first: bool,
                                        i: nat, tokenStart: nat, insideToken: bool, commands: seq<string>)
    requires start <= p
    requires InLine(src, p, first, i, tokenStart, insideToken, true) && i < |src| && src[i] == '\n'
    ensures ScanInstructions(src, start, globals, i, tokenStart, insideToken, true, commands)
         == LinesFrom(src, start, globals, p, first, commands)
    decreases |src| - i, 0
  {
    var stored := commands + [Runner.Substitute(src[tokenStart..i], globals)];
    StoreStep(src, start, globals, p, first, i, tokenStart, insideToken, commands);
    ScanStore(src, start, globals, i, tokenStart, insideToken, commands);
    ScanMatchesLines(src, start, globals, i + 1, false, i + 1, tokenStart, false, false, stored);
  }

  lemma {:induction false} TextMatches(src: string, start: nat, globals: Globals, p: nat, first: bool,
                                       i: nat, tokenStart: nat, insideToken: bool, insideLine: bool,
                                       commands: seq<string>)
    requires start <= p
    requires InLine(src, p, first, i, tokenStart, insideToken, insideLine)
    requires i < |src| && src[i] != '\t' && src[i] != '\n'
    ensures ScanInstructions(src, start, globals, i, tokenStart, insideToken, insideLine, commands)
         == LinesFrom(src, start, globals, p, first, commands)
    decreases |src| - i, 0
  {
    var t := if insideToken then tokenStart else i;
    var l := if insideToken then insideLine else true;
    TextKeepsLine(src, p, first, i, tokenStart, insideToken, insideLine);
    ScanText(src, start, globals, i, tokenStart, insideToken, insideLine, commands);
    ScanMatchesLines(src, start, globals, p, first, i + 1, t, true, l, commands);
  }

  /** The character scanner agrees with the line-by-line reference on every
      input: one instruction per line, the text after its leading tabs up to
      and excluding the '\n', substituted with the current globals; the block
      ends just past the first later line that is empty or all tabs; a blank
      first line yields one empty instruction; the end of input yields no
      instructions and resumes at `start`. */
  lemma InstructionsMatchSpec(src: string, start: nat, globals: Globals)
    ensures ParseBuildInstructions(src, start, globals) == InstructionsSpec(src, start, globals)
  {
    if start <= |src| {
      assert src[start..start] == [];
      ScanMatchesLines(src, start, globals, start, true, start, start, false, true, []);
    } else {
      assert Dependents.NextNewline(src, start) == None;
    }
  }
}
