/** `parse_global` (src/main.rs:139-203): an `export NAME=EXPR` line, evaluated
    at once through the executor and stored in the global table. */
module Exports {
  import opened Wrappers
  import opened BuildFile
  import Runner
  import Dependents

  /** The index where the outer parse resumes and the table after the line. */
  datatype ExportDone = ExportDone(next: nat, globals: Globals)

  /** The source's character loop, started just past "export ". A ' ' or '='
      after name characters ends the name (the '=' is kept in it); later ' '
      and '=' belong to the expression, except that a ' ' seen while no token
      is open advances `tokenStart`. At '\n' the text from `tokenStart` is run
      as `echo <text>` and its output is stored under the name. */
  function ScanExport(src: string, exec: Executor, globals: Globals, i: nat, tokenStart: nat,
                      inside: bool, name: Option<string>): Result<ExportDone, Error>
    requires tokenStart <= i
    decreases |src| - i
  {
    if i >= |src| then Success(ExportDone(i, globals))
    else if src[i] == ' ' then
      if inside then
        if name.None? then ScanExport(src, exec, globals, i + 1, i + 1, false, Some(src[tokenStart..i]))
        else ScanExport(src, exec, globals, i + 1, tokenStart, true, name)
      else ScanExport(src, exec, globals, i + 1, tokenStart + 1, false, name)
    else if src[i] == '\n' then
      if name.None? && !inside then Failure(ExportWithoutName)
      else
        var key := if name.Some? then name.value else src[tokenStart..i];
        match Runner.RunCommand(exec, "echo " + src[tokenStart..i])
        case Failure(e) => Failure(e)
        case Success(value) => Success(ExportDone(i + 1, globals[key := value]))
    else if src[i] == '=' then
      var cut := inside && name.None?;
      var name' := if cut then Some(src[tokenStart..i + 1]) else name;
      if name'.None? then Failure(ExportWithoutName)
      else ScanExport(src, exec, globals, i + 1, if cut then i + 1 else tokenStart, false, name')
    else ScanExport(src, exec, globals, i + 1, tokenStart, true, name)
  }

  /** `parse_global` at `start`, where the line begins with "export ". */
  function ParseGlobal(src: string, start: nat, globals: Globals, exec: Executor): Result<ExportDone, Error> {
    ScanExport(src, exec, globals, start + 7, start + 7, false, None)
  }

  // ---------------------------------------------------------------------------
  // Phases of an export line
  // ---------------------------------------------------------------------------

  predicate AllSpaces(s: string) {
    forall j :: 0 <= j < |s| ==> s[j] == ' '
  }

  /** Characters that neither end a name nor the line. */
  predicate IsPlain(c: char) {
    c != ' ' && c != '=' && c != '\n'
  }

  /** Spaces while no token is open are skipped, whether or not the name is known. */
  lemma {:induction false} SkipSpaces(src: string, exec: Executor, globals: Globals, i: nat, k: nat, name: Option<string>)
    requires i + k <= |src| && forall j :: i <= j < i + k ==> src[j] == ' '
    ensures ScanExport(src, exec, globals, i, i, false, name) == ScanExport(src, exec, globals, i + k, i + k, false, name)
    decreases k
  {
    if k > 0 {
      SkipSpaces(src, exec, globals, i + 1, k - 1, name);
    }
  }

  /** Plain characters only open or extend the current token. */
  lemma {:induction false} ReadPlain(src: string, exec: Executor, globals: Globals, i: nat, k: nat,
                                     tokenStart: nat, inside: bool, name: Option<string>)
    requires tokenStart <= i && i + k <= |src| && forall j :: i <= j < i + k ==> IsPlain(src[j])
    ensures ScanExport(src, exec, globals, i, tokenStart, inside, name)
         == ScanExport(src, exec, globals, i + k, tokenStart, inside || k > 0, name)
    decreases k
  {
    if k > 0 {
      ReadPlain(src, exec, globals, i + 1, k - 1, tokenStart, true, name);
    }
  }

  /** No "= " inside an expression: the one pattern that moves `tokenStart`
      once the expression has started. */
  predicate NoEqualsSpace(value: string) {
    forall j :: 0 <= j < |value| - 1 ==> !(value[j] == '=' && value[j + 1] == ' ')
  }

  /** Reading the expression once the name is known: `tokenStart` stays at
      the expression's first character `v` up to the '\n' at `i`. */
  lemma {:induction false} ReadValueFrom(src: string, exec: Executor, globals: Globals, v: nat, i: nat, key: string, j: nat)
    requires v <= j <= i < |src| && src[i] == '\n'
    requires forall k :: v <= k < i ==> src[k] != '\n'
    requires v < i ==> src[v] != ' '
    requires NoEqualsSpace(src[v..i])
    ensures ScanExport(src, exec, globals, j, v, j > v && src[j - 1] != '=', Some(key))
      == match exec("echo " + src[v..i])
         case None => Failure(ExecFailed("echo " + src[v..i]))
         case Some(out) => Success(ExportDone(i + 1, globals[key := Runner.PostProcess(out)]))
    decreases i - j
  {
    if j < i {
      if src[j] == ' ' {
        assert j > v;
        assert src[v..i][j - 1 - v] == src[j - 1] && src[v..i][j - v] == src[j];
      }
      ReadValueFrom(src, exec, globals, v, i, key, j + 1);
    }
  }

  /** Where each part of an export line sits in the text. */
  lemma ExportLayout(head: string, lead: string, name: string, sep: char, gap: string, value: string, rest: string)
    ensures var src := head + "export " + lead + name + [sep] + gap + value + "\n" + rest;
      var a := |head| + 7;
      var b := a + |lead|;
      var c := b + |name|;
      var v := c + 1 + |gap|;
      var e := v + |value|;
      && |src| == e + 1 + |rest|
      && src[a..b] == lead && src[b..c] == name && src[c] == sep
      && src[c + 1..v] == gap && src[v..e] == value && src[e] == '\n'
      && src[b..c + 1] == name + [sep]
  {
  }

  /** A ' ' or '=' right after the name's characters ends the name; '=' stays in it. */
  lemma NameCut(src: string, exec: Executor, globals: Globals, b: nat, c: nat)
    requires b < c < |src| && (src[c] == ' ' || src[c] == '=')
    ensures ScanExport(src, exec, globals, c, b, true, None)
         == ScanExport(src, exec, globals, c + 1, c + 1, false, Some(if src[c] == '=' then src[b..c + 1] else src[b..c]))
  {
  }

  /** The value stored for an export evaluated by `command`. */
  function Evaluated(exec: Executor, command: string, key: string, next: nat, globals: Globals): Result<ExportDone, Error> {
    match exec(command)
    case None => Failure(ExecFailed(command))
    case Some(out) => Success(ExportDone(next, globals[key := Runner.PostProcess(out)]))
  }

  /** The export line read from index positions: spaces on [a, b), the name on
      [b, c), the cut at c, spaces on (c, v), the expression on [v, e), '\n' at e. */
  lemma ExportAt(src: string, exec: Executor, globals: Globals, a: nat, b: nat, c: nat, v: nat, e: nat)
    requires a <= b < c < v <= e < |src| && src[e] == '\n'
    requires forall j :: a <= j < b ==> src[j] == ' '
    requires forall j :: b <= j < c ==> IsPlain(src[j])
    requires src[c] == ' ' || src[c] == '='
    requires forall j :: c < j < v ==> src[j] == ' '
    requires forall j :: v <= j < e ==> src[j] != '\n'
    requires v < e ==> src[v] != ' '
    requires NoEqualsSpace(src[v..e])
    ensures ScanExport(src, exec, globals, a, a, false, None)
         == Evaluated(exec, "echo " + src[v..e], if src[c] == '=' then src[b..c + 1] else src[b..c], e + 1, globals)
  {
    var key := if src[c] == '=' then src[b..c + 1] else src[b..c];
    SkipSpaces(src, exec, globals, a, b - a, None);
    ReadPlain(src, exec, globals, b, c - b, b, false, None);
    NameCut(src, exec, globals, b, c);
    SkipSpaces(src, exec, globals, c + 1, v - c - 1, Some(key));
    ReadValueFrom(src, exec, globals, v, e, key, v);
  }

  /** The layout of an export line starting at `start`: spaces up to `b`, the
      plain name on [b, c), the separator at c, spaces up to `v`, the value on
      [v, e) and the '\n' at e. */
  predicate ExportLineAt(src: string, start: nat, b: nat, c: nat, v: nat, e: nat,
                         name: string, sep: char, value: string) {
    && start + 7 <= b < c < v <= e < |src| && src[e] == '\n' && src[c] == sep
    && src[v..e] == value && src[b..c + 1] == name + [sep] && src[b..c] == name
    && (forall j :: start + 7 <= j < b ==> src[j] == ' ')
    && (forall j :: b <= j < c ==> IsPlain(src[j]))
    && (forall j :: c < j < v ==> src[j] == ' ')
    && (forall j :: v <= j < e ==> src[j] != '\n')
    && (v < e ==> src[v] != ' ')
  }

  /** The facts about the text of an export line that the scan needs. */
  lemma ExportPositions(head: string, lead: string, name: string, sep: char, gap: string, value: string, rest: string)
    requires AllSpaces(lead) && AllSpaces(gap)
    requires |name| > 0 && forall j :: 0 <= j < |name| ==> IsPlain(name[j])
    requires '\n' !in value && (|value| == 0 || value[0] != ' ')
    ensures var src := head + "export " + lead + name + [sep] + gap + value + "\n" + rest;
      var c := |head| + 7 + |lead| + |name|;
      |src| == c + 1 + |gap| + |value| + 1 + |rest| &&
      ExportLineAt(src, |head|, |head| + 7 + |lead|, c, c + 1 + |gap|, c + 1 + |gap| + |value|, name, sep, value)
  {
    var src := head + "export " + lead + name + [sep] + gap + value + "\n" + rest;
    var a := |head| + 7;
    var b := a + |lead|;
    var c := b + |name|;
    var v := c + 1 + |gap|;
    var e := v + |value|;
    ExportLayout(head, lead, name, sep, gap, value, rest);
    forall j | a <= j < b ensures src[j] == ' ' {
      assert src[j] == src[a..b][j - a];
    }
    forall j | b <= j < c ensures IsPlain(src[j]) {
      assert src[j] == src[b..c][j - b];
    }
    forall j | c < j < v ensures src[j] == ' ' {
      assert src[j] == src[c + 1..v][j - c - 1];
    }
    forall j | v <= j < e ensures src[j] != '\n' {
      assert src[j] == src[v..e][j - v];
    }
    if v < e {
      assert src[v] == value[0];
    }
  }

  /** An export line `export <spaces><name><sep><spaces><expr>\n` with a plain
      name, `sep` a ' ' or '=', and an expression that does not start with a
      space and holds no "= ": the name is stored with the '=' kept when `sep`
      is '=', its value is the post-processed output of `echo <expr>`, and the
      parse resumes just past the '\n'. A failing executor fails the line. */
  lemma ExportDefines(head: string, lead: string, name: string, sep: char, gap: string, value: string,
                      rest: string, globals: Globals, exec: Executor)
    requires AllSpaces(lead) && AllSpaces(gap)
    requires |name| > 0 && forall j :: 0 <= j < |name| ==> IsPlain(name[j])
    requires sep == ' ' || sep == '='
    requires '\n' !in value && (|value| == 0 || value[0] != ' ') && NoEqualsSpace(value)
    ensures var src := head + "export " + lead + name + [sep] + gap + value + "\n" + rest;
      ParseGlobal(src, |head|, globals, exec)
      == Evaluated(exec, "echo " + value, if sep == '=' then name + "=" else name, |src| - |rest|, globals)
  {
    var src := head + "export " + lead + name + [sep] + gap + value + "\n" + rest;
    var a := |head| + 7;
    var c := a + |lead| + |name|;
    var e := c + 1 + |gap| + |value|;
    ExportPositions(head, lead, name, sep, gap, value, rest);
    assert |src| - |rest| == e + 1;
    ExportFromPositions(src, exec, globals, |head|, a + |lead|, c, c + 1 + |gap|, e, name, sep, value);
  }

  lemma ExportFromPositions(src: string, exec: Executor, globals: Globals, start: nat, b: nat, c: nat, v: nat, e: nat,
                            name: string, sep: char, value: string)
    requires ExportLineAt(src, start, b, c, v, e, name, sep, value)
    requires sep == ' ' || sep == '='
    requires NoEqualsSpace(value)
    ensures ParseGlobal(src, start, globals, exec)
         == Evaluated(exec, "echo " + value, if sep == '=' then name + "=" else name, e + 1, globals)
  {
    assert (if src[c] == '=' then src[b..c + 1] else src[b..c]) == (if sep == '=' then name + "=" else name);
    ExportAt(src, exec, globals, start + 7, b, c, v, e);
  }

  /** The scan moves forward, to just past the line's '\n' or to the end of
      the input, and never removes a name from the table. */
  lemma {:induction false} ScanExportAdvances(src: string, exec: Executor, globals: Globals, i: nat,
                                              tokenStart: nat, inside: bool, name: Option<string>)
    requires tokenStart <= i
    ensures var r := ScanExport(src, exec, globals, i, tokenStart, inside, name);
      r.Success? ==> globals.Keys <= r.value.globals.Keys && (i < |src| ==> i < r.value.next <= |src|)
    decreases |src| - i
  {
    if i < |src| && src[i] != '\n' {
      if src[i] == ' ' {
        if inside && name.None? {
          ScanExportAdvances(src, exec, globals, i + 1, i + 1, false, Some(src[tokenStart..i]));
        } else if inside {
          ScanExportAdvances(src, exec, globals, i + 1, tokenStart, true, name);
        } else {
          ScanExportAdvances(src, exec, globals, i + 1, tokenStart + 1, false, name);
        }
      } else if src[i] == '=' {
        var cut := inside && name.None?;
        var name' := if cut then Some(src[tokenStart..i + 1]) else name;
        if name'.Some? {
          ScanExportAdvances(src, exec, globals, i + 1, if cut then i + 1 else tokenStart, false, name');
        }
      } else {
        ScanExportAdvances(src, exec, globals, i + 1, tokenStart, true, name);
      }
    }
  }

  /** A line that reaches the end of the input without a '\n' stores nothing:
      the table comes back unchanged, or the line fails for want of a name. */
  lemma {:induction false} UnterminatedExportIgnored(src: string, exec: Executor, globals: Globals, i: nat,
                                                     tokenStart: nat, inside: bool, name: Option<string>)
    requires tokenStart <= i
    requires forall j :: i <= j < |src| ==> src[j] != '\n'
    ensures var r := ScanExport(src, exec, globals, i, tokenStart, inside, name);
      r.Failure? || r.value.globals == globals
    decreases |src| - i
  {
    if i < |src| {
      if src[i] == ' ' {
        if inside && name.None? {
          UnterminatedExportIgnored(src, exec, globals, i + 1, i + 1, false, Some(src[tokenStart..i]));
        } else if inside {
          UnterminatedExportIgnored(src, exec, globals, i + 1, tokenStart, true, name);
        } else {
          UnterminatedExportIgnored(src, exec, globals, i + 1, tokenStart + 1, false, name);
        }
      } else if src[i] == '=' {
        var cut := inside && name.None?;
        var name' := if cut then Some(src[tokenStart..i + 1]) else name;
        if name'.Some? {
          UnterminatedExportIgnored(src, exec, globals, i + 1, if cut then i + 1 else tokenStart, false, name');
        }
      } else {
        UnterminatedExportIgnored(src, exec, globals, i + 1, tokenStart, true, name);
      }
    }
  }

  /** An export whose line holds only spaces before its '\n', or starts with
      '=', has no name and fails. */
  lemma ExportNeedsName(head: string, lead: string, c: char, rest: string, globals: Globals, exec: Executor)
    requires AllSpaces(lead)
    requires c == '\n' || c == '='
    ensures ParseGlobal(head + "export " + lead + [c] + rest, |head|, globals, exec) == Failure(ExportWithoutName)
  {
    var src := head + "export " + lead + [c] + rest;
    var a := |head| + 7;
    assert src[a..a + |lead|] == lead;
    assert src[a + |lead|] == c;
    SkipSpaces(src, exec, globals, a, |lead|, None);
  }

  // ---------------------------------------------------------------------------
  // The corrected scan and its reference
  // ---------------------------------------------------------------------------

  /** The scan with the one change that keeps the whole expression: an '='
      read once the name is known is expression text, so it opens (or
      continues) the expression instead of closing it. As written, the ' '
      after such an '=' moves `tokenStart` past the text before it. */
  function ScanExportCorrected(src: string, exec: Executor, globals: Globals, i: nat, tokenStart: nat,
                               inside: bool, name: Option<string>): Result<ExportDone, Error>
    requires tokenStart <= i
    decreases |src| - i
  {
    if i >= |src| then Success(ExportDone(i, globals))
    else if src[i] == ' ' then
      if inside then
        if name.None? then ScanExportCorrected(src, exec, globals, i + 1, i + 1, false, Some(src[tokenStart..i]))
        else ScanExportCorrected(src, exec, globals, i + 1, tokenStart, true, name)
      else ScanExportCorrected(src, exec, globals, i + 1, tokenStart + 1, false, name)
    else if src[i] == '\n' then
      if name.None? && !inside then Failure(ExportWithoutName)
      else
        var key := if name.Some? then name.value else src[tokenStart..i];
        match Runner.RunCommand(exec, "echo " + src[tokenStart..i])
        case Failure(e) => Failure(e)
        case Success(value) => Success(ExportDone(i + 1, globals[key := value]))
    else if src[i] == '=' then
      var cut := inside && name.None?;
      var name' := if cut then Some(src[tokenStart..i + 1]) else name;
      if name'.None? then Failure(ExportWithoutName)
      else ScanExportCorrected(src, exec, globals, i + 1, if cut then i + 1 else tokenStart, !cut, name')
    else ScanExportCorrected(src, exec, globals, i + 1, tokenStart, true, name)
  }

  /** `parse_global` at `start` with the corrected scan; the parser uses this one. */
  function ParseGlobalCorrected(src: string, start: nat, globals: Globals, exec: Executor): Result<ExportDone, Error> {
    ScanExportCorrected(src, exec, globals, start + 7, start + 7, false, None)
  }

  /** The first index at or after `i` that does not hold a space. */
  function SpacesEnd(src: string, i: nat): (r: nat)
    ensures i <= r && (i <= |src| ==> r <= |src|)
    ensures r < |src| ==> src[r] != ' '
    ensures forall j :: i <= j < r ==> j < |src| && src[j] == ' '
    decreases |src| - i
  {
    if i < |src| && src[i] == ' ' then SpacesEnd(src, i + 1) else i
  }

  /** The first index at or after `i` that does not hold a name character. */
  function PlainEnd(src: string, i: nat): (r: nat)
    ensures i <= r && (i <= |src| ==> r <= |src|)
    ensures r < |src| ==> !IsPlain(src[r])
    ensures forall j :: i <= j < r ==> j < |src| && IsPlain(src[j])
    decreases |src| - i
  {
    if i < |src| && IsPlain(src[i]) then PlainEnd(src, i + 1) else i
  }

  /** What an export line means, read off by position: after "export " and
      any spaces, the name is the longest run of characters other than ' ',
      '=' and '\n', and must not be empty. A name ended by '\n' is its own
      expression. A name ended by ' ' or '=' (the '=' kept in the stored
      name) is followed by optional spaces and then the expression, which
      is the rest of the line. The line is evaluated as `echo <expression>`;
      a line cut off by the end of the input stores nothing. */
  function ExportReference(src: string, start: nat, globals: Globals, exec: Executor): Result<ExportDone, Error> {
    var k := SpacesEnd(src, start + 7);
    if k >= |src| then Success(ExportDone(k, globals))
    else NamedReference(src, k, globals, exec)
  }

  /** The line from its first character `k` after the spaces onwards. */
  function NamedReference(src: string, k: nat, globals: Globals, exec: Executor): Result<ExportDone, Error> {
    var e := PlainEnd(src, k);
    if e == k then Failure(ExportWithoutName)
    else if e >= |src| then Success(ExportDone(e, globals))
    else if src[e] == '\n' then Evaluated(exec, "echo " + src[k..e], src[k..e], e + 1, globals)
    else
      var key := if src[e] == '=' then src[k..e + 1] else src[k..e];
      var v := SpacesEnd(src, e + 1);
      match Dependents.NextNewline(src, v)
      case None => Success(ExportDone(|src|, globals))
      case Some(f) => Evaluated(exec, "echo " + src[v..f], key, f + 1, globals)
  }

  lemma {:induction false} SkipSpacesCorrected(src: string, exec: Executor, globals: Globals, i: nat, k: nat,
                                               name: Option<string>)
    requires i + k <= |src| && forall j :: i <= j < i + k ==> src[j] == ' '
    ensures ScanExportCorrected(src, exec, globals, i, i, false, name)
         == ScanExportCorrected(src, exec, globals, i + k, i + k, false, name)
    decreases k
  {
    if k > 0 {
      SkipSpacesCorrected(src, exec, globals, i + 1, k - 1, name);
    }
  }

  lemma {:induction false} ReadPlainCorrected(src: string, exec: Executor, globals: Globals, i: nat, k: nat,
                                              tokenStart: nat, inside: bool, name: Option<string>)
    requires tokenStart <= i && i + k <= |src| && forall j :: i <= j < i + k ==> IsPlain(src[j])
    ensures ScanExportCorrected(src, exec, globals, i, tokenStart, inside, name)
         == ScanExportCorrected(src, exec, globals, i + k, tokenStart, inside || k > 0, name)
    decreases k
  {
    if k > 0 {
      ReadPlainCorrected(src, exec, globals, i + 1, k - 1, tokenStart, true, name);
    }
  }

  /** Once the name is known and the expression has begun at `v`, the
      corrected scan keeps `tokenStart` at `v` up to the end of the line. */
  lemma {:induction false} ReadRestCorrected(src: string, exec: Executor, globals: Globals, v: nat, j: nat, key: string)
    requires v <= j <= |src|
    requires forall m :: v <= m < j ==> src[m] != '\n'
    requires v < |src| ==> src[v] != ' '
    ensures ScanExportCorrected(src, exec, globals, j, v, j > v, Some(key))
      == match Dependents.NextNewline(src, j)
         case None => Success(ExportDone(|src|, globals))
         case Some(f) => Evaluated(exec, "echo " + src[v..f], key, f + 1, globals)
    decreases |src| - j
  {
    if j < |src| && src[j] != '\n' {
      ReadRestCorrected(src, exec, globals, v, j + 1, key);
    }
  }

  /** The corrected scan agrees with the reference on every input. */
  /** After the name, ending at the separator at `e`: the spaces after the
      separator are skipped and the rest of the line is the expression. */
  lemma ReadValueCorrected(src: string, exec: Executor, globals: Globals, k: nat, e: nat)
    requires k < e < |src| && src[e] != '\n' && src[e] in {' ', '='}
    ensures var key := if src[e] == '=' then src[k..e + 1] else src[k..e];
      var v := SpacesEnd(src, e + 1);
      ScanExportCorrected(src, exec, globals, e, k, true, None)
        == match Dependents.NextNewline(src, v)
           case None => Success(ExportDone(|src|, globals))
           case Some(f) => Evaluated(exec, "echo " + src[v..f], key, f + 1, globals)
  {
    var key := if src[e] == '=' then src[k..e + 1] else src[k..e];
    assert ScanExportCorrected(src, exec, globals, e, k, true, None)
        == ScanExportCorrected(src, exec, globals, e + 1, e + 1, false, Some(key));
    var v := SpacesEnd(src, e + 1);
    SkipSpacesCorrected(src, exec, globals, e + 1, v - e - 1, Some(key));
    ReadRestCorrected(src, exec, globals, v, v, key);
  }

  /** From the first character after the spaces, the corrected scan reads
      the line as the reference does. */
  lemma NamedMatchesReference(src: string, k: nat, globals: Globals, exec: Executor)
    requires k < |src| && src[k] != ' '
    ensures ScanExportCorrected(src, exec, globals, k, k, false, None) == NamedReference(src, k, globals, exec)
  {
    var e := PlainEnd(src, k);
    if e > k {
      ReadPlainCorrected(src, exec, globals, k, e - k, k, false, None);
      if e < |src| && src[e] != '\n' {
        ReadValueCorrected(src, exec, globals, k, e);
      }
    }
  }

  lemma ExportMatchesReference(src: string, start: nat, globals: Globals, exec: Executor)
    ensures ParseGlobalCorrected(src, start, globals, exec) == ExportReference(src, start, globals, exec)
  {
    var a := start + 7;
    if a < |src| {
      var k := SpacesEnd(src, a);
      SkipSpacesCorrected(src, exec, globals, a, k - a, None);
      if k < |src| {
        NamedMatchesReference(src, k, globals, exec);
      }
    }
  }

  /** The corrected scan moves forward, to just past the line's '\n' or to
      the end of the input, and never removes a name from the table. */
  lemma ExportCorrectedAdvances(src: string, start: nat, globals: Globals, exec: Executor)
    requires start + 7 <= |src|
    ensures var r := ParseGlobalCorrected(src, start, globals, exec);
      r.Success? ==> globals.Keys <= r.value.globals.Keys && start + 7 <= r.value.next <= |src|
  {
    ExportMatchesReference(src, start, globals, exec);
  }

  /** The text "export A=x= y\n" as written: the ' ' after the second '='
      moves the start of the expression past "x=", so `echo = y` runs. */
  lemma DroppedText(globals: Globals, exec: Executor)
    ensures ParseGlobal("export A=x= y\n", 0, globals, exec) == Evaluated(exec, "echo = y", "A=", 14, globals)
  {
    var src := "export A=x= y\n";
    var name := Some(src[7..9]);
    assert src[7..9] == "A=" && src[10..13] == "= y";
    assert |src| == 14 && src[13] == '\n';
    assert ScanExport(src, exec, globals, 13, 10, true, name)
        == match Runner.RunCommand(exec, "echo " + src[10..13])
           case Failure(e) => Failure(e)
           case Success(value) => Success(ExportDone(14, globals["A=" := value]));
    assert "echo " + src[10..13] == "echo = y";
    assert ScanExport(src, exec, globals, 12, 10, false, name) == ScanExport(src, exec, globals, 13, 10, true, name);
    assert ScanExport(src, exec, globals, 11, 9, false, name) == ScanExport(src, exec, globals, 12, 10, false, name);
    assert ScanExport(src, exec, globals, 10, 9, true, name) == ScanExport(src, exec, globals, 11, 9, false, name);
    assert ScanExport(src, exec, globals, 9, 9, false, name) == ScanExport(src, exec, globals, 10, 9, true, name);
    assert ScanExport(src, exec, globals, 7, 7, false, None) == ScanExport(src, exec, globals, 9, 9, false, name);
  }

  /** The same text read by the corrected scan: `echo x= y` runs, under "A=". */
  lemma KeptText(globals: Globals, exec: Executor)
    ensures ParseGlobalCorrected("export A=x= y\n", 0, globals, exec) == Evaluated(exec, "echo x= y", "A=", 14, globals)
  {
    var src := "export A=x= y\n";
    ExportMatchesReference(src, 0, globals, exec);
    assert SpacesEnd(src, 7) == 7;
    assert PlainEnd(src, 7) == 8;
    assert SpacesEnd(src, 9) == 9;
    assert Dependents.NextNewline(src, 9) == Some(13);
    assert |src| == 14 && src[8] == '=' && src[13] == '\n';
    assert src[7..9] == "A=" && src[9..13] == "x= y";
    assert "echo " + src[9..13] == "echo x= y";
  }

  // ---------------------------------------------------------------------------
  // Where the two scans agree
  // ---------------------------------------------------------------------------

  /** From `i` to the end of its line, no '=' is directly followed by ' '. */
  predicate NoEqualsSpaceOnLine(src: string, i: nat)
    decreases |src| - i
  {
    i + 1 >= |src| || src[i] == '\n' ||
    ((src[i] != '=' || src[i + 1] != ' ') && NoEqualsSpaceOnLine(src, i + 1))
  }

  /** The two scans differ only in the flag set after a '=' that does not
      end the name: the source clears it, the corrected scan keeps the token
      open. Unless a ' ' follows right away, the next character sets both
      flags alike, so they reach the same result. */
  lemma {:induction false} ScansAgree(src: string, exec: Executor, globals: Globals, i: nat, tokenStart: nat,
                                      inside: bool, inside': bool, name: Option<string>)
    requires tokenStart <= i && NoEqualsSpaceOnLine(src, i)
    requires inside == inside' || (name.Some? && !inside && inside' && (i < |src| ==> src[i] != ' '))
    ensures ScanExport(src, exec, globals, i, tokenStart, inside, name)
         == ScanExportCorrected(src, exec, globals, i, tokenStart, inside', name)
    decreases |src| - i
  {
    if i < |src| && src[i] != '\n' {
      if src[i] == ' ' {
        if inside && name.None? {
          ScansAgree(src, exec, globals, i + 1, i + 1, false, false, Some(src[tokenStart..i]));
        } else if inside {
          ScansAgree(src, exec, globals, i + 1, tokenStart, true, true, name);
        } else {
          ScansAgree(src, exec, globals, i + 1, tokenStart + 1, false, false, name);
        }
      } else if src[i] == '=' {
        var cut := inside && name.None?;
        var name' := if cut then Some(src[tokenStart..i + 1]) else name;
        if name'.Some? {
          ScansAgree(src, exec, globals, i + 1, if cut then i + 1 else tokenStart, false, !cut, name');
        }
      } else {
        ScansAgree(src, exec, globals, i + 1, tokenStart, true, true, name);
      }
    }
  }

  /** From `i`, while the name is still being read (`inside` once a name
      character was seen): after the ' ' or '=' that ends the name, no '='
      on the rest of the line is directly followed by ' '. The '=' that ends
      the name may be. */
  predicate ValueHasNoEqualsSpace(src: string, i: nat, inside: bool)
    decreases |src| - i
  {
    i >= |src| || src[i] == '\n' ||
    if src[i] == ' ' then
      if inside then NoEqualsSpaceOnLine(src, i + 1) else ValueHasNoEqualsSpace(src, i + 1, false)
    else if src[i] == '=' then
      inside ==> NoEqualsSpaceOnLine(src, i + 1)
    else ValueHasNoEqualsSpace(src, i + 1, true)
  }

  /** While the name is read, both scans take the same steps; once it is
      cut off, `ScansAgree` takes over. */
  lemma {:induction false} NameScansAgree(src: string, exec: Executor, globals: Globals, i: nat, tokenStart: nat,
                                          inside: bool)
    requires tokenStart <= i && ValueHasNoEqualsSpace(src, i, inside)
    ensures ScanExport(src, exec, globals, i, tokenStart, inside, None)
         == ScanExportCorrected(src, exec, globals, i, tokenStart, inside, None)
    decreases |src| - i
  {
    if i < |src| && src[i] != '\n' {
      if src[i] == ' ' {
        if inside {
          ScansAgree(src, exec, globals, i + 1, i + 1, false, false, Some(src[tokenStart..i]));
        } else {
          NameScansAgree(src, exec, globals, i + 1, tokenStart + 1, false);
        }
      } else if src[i] == '=' {
        if inside {
          ScansAgree(src, exec, globals, i + 1, i + 1, false, false, Some(src[tokenStart..i + 1]));
        }
      } else {
        NameScansAgree(src, exec, globals, i + 1, tokenStart, true);
      }
    }
  }

  /** On an export line where no '=' after the name's own separator is
      directly followed by ' ', the source's scan and the corrected scan
      store the same value under the same name. */
  lemma ExportScansAgree(src: string, start: nat, globals: Globals, exec: Executor)
    requires ValueHasNoEqualsSpace(src, start + 7, false)
    ensures ParseGlobal(src, start, globals, exec) == ParseGlobalCorrected(src, start, globals, exec)
  {
    NameScansAgree(src, exec, globals, start + 7, start + 7, false);
  }

  /** The usual spelling `NAME= value`: the '=' that ends the name is
      followed by ' ', and the two scans still agree. */
  lemma NameEqualsSpaceAgrees(globals: Globals, exec: Executor)
    ensures ParseGlobal("export A= x\n", 0, globals, exec) == ParseGlobalCorrected("export A= x\n", 0, globals, exec)
  {
    var src := "export A= x\n";
    assert src[7] == 'A' && src[8] == '=' && src[9] == ' ' && src[10] == 'x' && src[11] == '\n';
    assert NoEqualsSpaceOnLine(src, 11);
    assert NoEqualsSpaceOnLine(src, 9);
    assert ValueHasNoEqualsSpace(src, 8, true);
    ExportScansAgree(src, 0, globals, exec);
  }
}
