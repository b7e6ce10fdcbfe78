/** The command runner: output capture and `%NAME` substitution (src/runner.rs). */
module Runner {
  import opened Wrappers
  import opened BuildFile

  predicate EndsWithNewline(s: string) {
    |s| > 0 && s[|s| - 1] == '\n'
  }

  /** The post-processing `await_command_output` applies to captured output:
      a final '\n' is overwritten by one ' ' in place. */
  function PostProcess(output: string): (r: string)
    ensures |r| == |output|
    ensures !EndsWithNewline(r)
    ensures r == output <==> !EndsWithNewline(output)
    ensures |output| > 0 ==> r[..|r| - 1] == output[..|output| - 1]
    ensures EndsWithNewline(output) ==> r[|r| - 1] == ' '
  {
    if EndsWithNewline(output) then output[..|output| - 1] + [' '] else output
  }

  /** Runs one command through the executor and post-processes what it printed. */
  function RunCommand(exec: Executor, command: string): (r: Result<string, Error>)
    ensures r.Success? <==> exec(command).Some?
    ensures r.Failure? ==> r.error == ExecFailed(command)
    ensures r.Success? ==> |r.value| == |exec(command).value| && !EndsWithNewline(r.value)
    ensures r.Success? ==> r.value == PostProcess(exec(command).value)
  {
    match exec(command)
    case None => Failure(ExecFailed(command))
    case Some(output) => Success(PostProcess(output))
  }

  // ---------------------------------------------------------------------------
  // `%NAME` substitution (BuildInstruction::new)
  // ---------------------------------------------------------------------------

  /** The value of a global, or "" when the table has no such name. */
  function Lookup(globals: Globals, name: string): string {
    if name in globals then globals[name] else ""
  }

  /** ' ' and '\n' close a `%NAME` token. */
  predicate IsBreak(c: char) {
    c == ' ' || c == '\n'
  }

  /** The scanner's state after some prefix of the template: the previous
      character, the name gathered since the last unescaped '%' (None when no
      token is open) and the text emitted so far. The gathered name equals the
      slice `source[token_start..index]` the source takes. */
  datatype SubstState = SubstState(prev: char, open: Option<string>, out: string)

  /** `prev_char` starts as ' ', so a '%' at index 0 opens a token. */
  const Initial := SubstState(' ', None, [])

  /** One iteration of the character loop. */
  function Step(globals: Globals, st: SubstState, c: char): SubstState {
    var next :=
      if c == '%' then
        if st.prev != '\\' then st.(open := Some([]))
        else st.(out := st.out + ['%'], open := if st.open.Some? then Some(st.open.value + [c]) else None)
      else if IsBreak(c) then
        if st.open.Some? then st.(out := st.out + Lookup(globals, st.open.value), open := None)
        else st.(out := st.out + [c])
      else if st.open.None? then st.(out := st.out + [c])
      else st.(open := Some(st.open.value + [c]));
    next.(prev := c)
  }

  /** The state after scanning `t` from `st`, left to right. */
  function Scan(globals: Globals, st: SubstState, t: string): SubstState
    decreases |t|
  {
    if |t| == 0 then st else Scan(globals, Step(globals, st, t[0]), t[1..])
  }

  /** The command string `BuildInstruction::new` builds from a template. A token
      still open at the end of the template is dropped. */
  function Substitute(template: string, globals: Globals): string {
    Scan(globals, Initial, template).out
  }

  /** `BuildInstruction::new` as the source writes it: an index loop that
      remembers where the open token started and slices the name out. */
  method NewInstruction(source: string, globals: Globals) returns (command: string)
    ensures command == Substitute(source, globals)
  {
    var prevChar := ' ';
    var formatted: string := [];
    var tokenStart: Option<nat> := None;
    var index := 0;
    while index < |source|
      invariant index <= |source|
      invariant tokenStart.Some? ==> tokenStart.value <= index
      invariant Scan(globals, Initial, source[..index])
        == SubstState(prevChar, if tokenStart.Some? then Some(source[tokenStart.value..index]) else None, formatted)
    {
      var chr := source[index];
      ScanSnoc(globals, Initial, source[..index], chr);
      assert source[..index + 1] == source[..index] + [chr];
      if tokenStart.Some? {
        assert source[tokenStart.value..index + 1] == source[tokenStart.value..index] + [chr];
      }
      if chr == '%' {
        if prevChar != '\\' {
          tokenStart := Some(index + 1);
          assert source[index + 1..index + 1] == [];
        } else {
          formatted := formatted + [chr];
        }
      } else if chr == ' ' || chr == '\n' {
        if tokenStart.Some? {
          var varName := source[tokenStart.value..index];
          formatted := formatted + Lookup(globals, varName);
          tokenStart := None;
        } else {
          formatted := formatted + [chr];
        }
      } else if tokenStart.None? {
        formatted := formatted + [chr];
      }
      prevChar := chr;
      index := index + 1;
    }
    assert source[..index] == source;
    command := formatted;
  }

  // ---------------------------------------------------------------------------
  // Scanner algebra
  // ---------------------------------------------------------------------------

  lemma {:induction false} ScanSnoc(globals: Globals, st: SubstState, t: string, c: char)
    ensures Scan(globals, st, t + [c]) == Step(globals, Scan(globals, st, t), c)
    decreases |t|
  {
    if |t| == 0 {
      assert t + [c] == [c];
      assert [c][1..] == [];
    } else {
      assert (t + [c])[1..] == t[1..] + [c];
      ScanSnoc(globals, Step(globals, st, t[0]), t[1..], c);
    }
  }

  lemma {:induction false} ScanConcat(globals: Globals, st: SubstState, a: string, b: string)
    ensures Scan(globals, st, a + b) == Scan(globals, Scan(globals, st, a), b)
    decreases |a|
  {
    if |a| == 0 {
      assert a + b == b;
    } else {
      assert (a + b)[0] == a[0];
      assert (a + b)[1..] == a[1..] + b;
      ScanConcat(globals, Step(globals, st, a[0]), a[1..], b);
    }
  }

  /** The part of a state that decides what the rest of the scan emits: the
      open token, and whether the previous character escapes a '%'. */
  function Normal(st: SubstState): SubstState {
    SubstState(if st.prev == '\\' then '\\' else ' ', st.open, [])
  }

  /** The scan only appends to its output, and what it appends depends on the
      starting state only through `Normal`. */
  lemma {:induction false} ScanAppends(globals: Globals, st: SubstState, t: string)
    ensures Scan(globals, st, t).out == st.out + Scan(globals, Normal(st), t).out
    decreases |t|
  {
    if |t| > 0 {
      var c := t[0];
      var s1 := Step(globals, st, c);
      var n1 := Step(globals, Normal(st), c);
      assert s1.out == st.out + n1.out;
      assert Normal(s1) == Normal(n1);
      ScanAppends(globals, s1, t[1..]);
      ScanAppends(globals, n1, t[1..]);
    }
  }

  /** A state with no open token after a character that is not '\', for
      example after a break or at the start: scanning resumes as if fresh. */
  predicate Settled(st: SubstState) {
    st.open.None? && st.prev != '\\'
  }

  lemma ResumeFresh(globals: Globals, st: SubstState, t: string)
    requires Settled(st)
    ensures Scan(globals, st, t).out == st.out + Substitute(t, globals)
  {
    ScanAppends(globals, st, t);
    ScanAppends(globals, Initial, t);
    assert Normal(st) == Normal(Initial);
  }

  /** A prefix that is empty or ends with a break leaves the scanner settled,
      having emitted exactly its substitution. */
  lemma BoundaryIsSettled(globals: Globals, pre: string)
    requires pre == [] || IsBreak(pre[|pre| - 1])
    ensures Settled(Scan(globals, Initial, pre))
    ensures Scan(globals, Initial, pre).out == Substitute(pre, globals)
  {
    if pre != [] {
      var last := pre[|pre| - 1];
      assert pre == pre[..|pre| - 1] + [last];
      ScanSnoc(globals, Initial, pre[..|pre| - 1], last);
    }
  }

  /** After a non-empty prefix the scanner remembers that prefix's last
      character; the empty prefix leaves the initial state. */
  lemma PrevIsLast(globals: Globals, pre: string)
    ensures pre == [] ==> Scan(globals, Initial, pre) == Initial
    ensures pre != [] ==> Scan(globals, Initial, pre).prev == pre[|pre| - 1]
  {
    if pre != [] {
      var last := pre[|pre| - 1];
      assert pre == pre[..|pre| - 1] + [last];
      ScanSnoc(globals, Initial, pre[..|pre| - 1], last);
    }
  }

  /** A '%' after anything but '\' opens a fresh token, whatever the prefix
      left open; a token it interrupts is dropped. */
  lemma OpensFresh(globals: Globals, pre: string)
    requires pre == [] || pre[|pre| - 1] != '\\'
    ensures Scan(globals, Initial, pre + ['%']).open == Some([])
    ensures Scan(globals, Initial, pre + ['%']).out == Substitute(pre, globals)
  {
    PrevIsLast(globals, pre);
    ScanSnoc(globals, Initial, pre, '%');
  }

  /** Characters other than '%' and the breaks, read while a token is open,
      only extend the gathered name. */
  lemma {:induction false} GatherName(globals: Globals, st: SubstState, name: string)
    requires st.open.Some?
    requires forall k :: 0 <= k < |name| ==> name[k] != '%' && !IsBreak(name[k])
    ensures Scan(globals, st, name).open == Some(st.open.value + name)
    ensures Scan(globals, st, name).out == st.out
    ensures |name| > 0 ==> Scan(globals, st, name).prev == name[|name| - 1]
    ensures |name| == 0 ==> Scan(globals, st, name).prev == st.prev
    decreases |name|
  {
    if |name| > 0 {
      var s1 := Step(globals, st, name[0]);
      assert s1.open == Some(st.open.value + [name[0]]);
      GatherName(globals, s1, name[1..]);
      assert name == [name[0]] + name[1..];
      assert st.open.value + name == st.open.value + [name[0]] + name[1..];
    } else {
      assert st.open.value + name == st.open.value;
    }
  }

  /** Text with no '%' passes through a settled scanner unchanged. */
  lemma {:induction false} PlainText(globals: Globals, st: SubstState, t: string)
    requires st.open.None?
    requires '%' !in t
    ensures Scan(globals, st, t).out == st.out + t
    ensures Scan(globals, st, t).open.None?
    decreases |t|
  {
    if |t| > 0 {
      assert t[0] in t;
      assert forall c :: c in t[1..] ==> c in t;
      PlainText(globals, Step(globals, st, t[0]), t[1..]);
      assert st.out + [t[0]] + t[1..] == st.out + t;
    }
  }

  // ---------------------------------------------------------------------------
  // Properties of substitution
  // ---------------------------------------------------------------------------

  /** A template without '%' is returned unchanged. */
  lemma NoPercentUnchanged(template: string, globals: Globals)
    requires '%' !in template
    ensures Substitute(template, globals) == template
  {
    PlainText(globals, Initial, template);
  }

  /** Every ' ' or '\n' resets the scanner: what follows it is substituted on
      its own, so no token spans a break. */
  lemma BreakSplits(a: string, b: char, c: string, globals: Globals)
    requires IsBreak(b)
    ensures Substitute(a + [b] + c, globals) == Substitute(a + [b], globals) + Substitute(c, globals)
  {
    ScanConcat(globals, Initial, a + [b], c);
    BoundaryIsSettled(globals, a + [b]);
    ResumeFresh(globals, Scan(globals, Initial, a + [b]), c);
  }

  /** An unescaped '%' (one not preceded by a backslash, anywhere in a word)
      opens a name that runs to the next break; the name's value, or "" when
      absent, is emitted verbatim in place of the token and its break, and is
      never scanned again. A token the prefix left open is dropped. */
  lemma TokenExpands(pre: string, name: string, b: char, post: string, globals: Globals)
    requires pre == [] || pre[|pre| - 1] != '\\'
    requires forall k :: 0 <= k < |name| ==> name[k] != '%' && !IsBreak(name[k])
    requires IsBreak(b)
    ensures Substitute(pre + ['%'] + name + [b] + post, globals)
         == Substitute(pre, globals) + Lookup(globals, name) + Substitute(post, globals)
  {
    OpensFresh(globals, pre);
    var s1 := Scan(globals, Initial, pre + ['%']);
    GatherName(globals, s1, name);
    var s2 := Scan(globals, s1, name);
    assert [] + name == name;
    assert s2.open == Some(name);
    var s3 := Step(globals, s2, b);
    assert s3.out == Substitute(pre, globals) + Lookup(globals, name);
    assert Settled(s3);
    ResumeFresh(globals, s3, post);
    calc {
      Scan(globals, Initial, pre + ['%'] + name + [b] + post);
      { ScanConcat(globals, Initial, pre + ['%'] + name + [b], post); }
      Scan(globals, Scan(globals, Initial, pre + ['%'] + name + [b]), post);
      { ScanSnoc(globals, Initial, pre + ['%'] + name, b); }
      Scan(globals, Step(globals, Scan(globals, Initial, pre + ['%'] + name), b), post);
      { ScanConcat(globals, Initial, pre + ['%'], name); }
      Scan(globals, s3, post);
    }
  }

  /** A token still open when the template ends is dropped: neither its text
      nor any value is emitted. */
  lemma TrailingTokenDropped(pre: string, name: string, globals: Globals)
    requires pre == [] || pre[|pre| - 1] != '\\'
    requires forall k :: 0 <= k < |name| ==> name[k] != '%' && !IsBreak(name[k])
    ensures Substitute(pre + ['%'] + name, globals) == Substitute(pre, globals)
  {
    OpensFresh(globals, pre);
    GatherName(globals, Scan(globals, Initial, pre + ['%']), name);
    ScanConcat(globals, Initial, pre + ['%'], name);
  }

  /** Outside an open token, `\%` is emitted as both characters and opens no
      token; scanning resumes fresh after it, so a name following it is plain
      text. */
  lemma EscapedPercentLiteral(pre: string, post: string, globals: Globals)
    requires Scan(globals, Initial, pre).open.None?
    ensures Substitute(pre + ['\\', '%'] + post, globals)
         == Substitute(pre, globals) + ['\\', '%'] + Substitute(post, globals)
  {
    var s0 := Scan(globals, Initial, pre);
    var s1 := Step(globals, s0, '\\');
    var s2 := Step(globals, s1, '%');
    assert s2.out == s0.out + ['\\', '%'];
    assert Settled(s2);
    ResumeFresh(globals, s2, post);
    assert pre + ['\\', '%'] + post == pre + ['\\'] + ['%'] + post;
    ScanConcat(globals, Initial, pre + ['\\'] + ['%'], post);
    ScanSnoc(globals, Initial, pre + ['\\'], '%');
    ScanSnoc(globals, Initial, pre, '\\');
  }
}
