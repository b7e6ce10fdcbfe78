/** `parse_target_dependents` (src/main.rs:67-97): the dependency list that
    follows a target's ':'. */
module Dependents {
  import opened Wrappers
  import opened BuildFile

  /** The characters that separate dependency names. */
  predicate IsBlank(c: char) {
    c == ' ' || c == '\t'
  }

  /** The names read and the index just past the line's '\n'. */
  datatype DepList = DepList(names: seq<string>, next: nat)

  /** The source's character loop. `tokenStart` is where the current name began;
      while no name is open it tracks the current index. */
  function ScanDeps(src: string, i: nat, tokenStart: nat, inside: bool, names: seq<string>): (r: Result<DepList, Error>)
    requires tokenStart <= i
    requires !inside ==> tokenStart == i
    ensures r.Success? ==> i < r.value.next <= |src| && src[r.value.next - 1] == '\n'
    ensures r.Success? ==> forall j :: i <= j < r.value.next - 1 ==> src[j] != '\n'
    ensures r.Failure? ==> r.error == UnterminatedDependents && forall j :: i <= j < |src| ==> src[j] != '\n'
    decreases |src| - i
  {
    if i >= |src| then Failure(UnterminatedDependents)
    else if IsBlank(src[i]) then
      if inside then ScanDeps(src, i + 1, i + 1, false, names + [src[tokenStart..i]])
      else ScanDeps(src, i + 1, tokenStart + 1, false, names)
    else if src[i] == '\n' then
      Success(DepList(if inside then names + [src[tokenStart..i]] else names, i + 1))
    else ScanDeps(src, i + 1, tokenStart, true, names)
  }

  function ParseTargetDependents(src: string, start: nat): Result<DepList, Error> {
    ScanDeps(src, start, start, false, [])
  }

  // ---------------------------------------------------------------------------
  // Reference definition: split the rest of the line into words.
  // ---------------------------------------------------------------------------

  /** The first '\n' at or after `i`. */
  function NextNewline(src: string, i: nat): (r: Option<nat>)
    ensures r.Some? ==> i <= r.value < |src| && src[r.value] == '\n'
    ensures r.Some? ==> forall j :: i <= j < r.value ==> src[j] != '\n'
    ensures r.None? ==> forall j :: i <= j < |src| ==> src[j] != '\n'
    decreases |src| - i
  {
    if i >= |src| then None
    else if src[i] == '\n' then Some(i)
    else NextNewline(src, i + 1)
  }

  /** Length of the longest prefix of `s` without a blank. */
  function WordLength(s: string): (k: nat)
    ensures k <= |s|
    ensures forall j :: 0 <= j < k ==> !IsBlank(s[j])
    ensures k < |s| ==> IsBlank(s[k])
  {
    if |s| == 0 || IsBlank(s[0]) then 0 else 1 + WordLength(s[1..])
  }

  /** The maximal blank-free runs of `s`, in order. */
  function Words(s: string): seq<string>
    decreases |s|
  {
    if |s| == 0 then []
    else if IsBlank(s[0]) then Words(s[1..])
    else var k := WordLength(s); [s[..k]] + Words(s[k..])
  }

  /** What the dependency scanner promises: the words before the first '\n'
      and the index just past it, or an error when no '\n' follows. */
  function DependentsSpec(src: string, start: nat): Result<DepList, Error> {
    match NextNewline(src, start)
    case None => Failure(UnterminatedDependents)
    case Some(e) => Success(DepList(Words(src[start..e]), e + 1))
  }

  lemma WordLengthOfWord(w: string, rest: string)
    requires forall j :: 0 <= j < |w| ==> !IsBlank(w[j])
    requires |rest| == 0 || IsBlank(rest[0])
    ensures WordLength(w + rest) == |w|
    decreases |w|
  {
    if |w| > 0 {
      assert (w + rest)[1..] == w[1..] + rest;
      WordLengthOfWord(w[1..], rest);
    } else {
      assert w + rest == rest;
    }
  }

  /** A blank-free non-empty word followed by a blank or the end is one word. */
  lemma WordsOfWord(w: string, rest: string)
    requires |w| > 0 && forall j :: 0 <= j < |w| ==> !IsBlank(w[j])
    requires |rest| == 0 || IsBlank(rest[0])
    ensures Words(w + rest) == [w] + Words(rest)
  {
    WordLengthOfWord(w, rest);
    assert (w + rest)[..|w|] == w;
    assert (w + rest)[|w|..] == rest;
  }

  lemma {:induction false} NewlineSearchSkips(src: string, a: nat, b: nat)
    requires a <= b <= |src|
    requires forall j :: a <= j < b ==> src[j] != '\n'
    ensures NextNewline(src, a) == NextNewline(src, b)
    decreases b - a
  {
    if a < b {
      NewlineSearchSkips(src, a + 1, b);
    }
  }

  /** The result the scanner owes from index `i`, given the name open since
      `tokenStart` and the names already read. */
  function Owed(src: string, i: nat, tokenStart: nat, names: seq<string>): Result<DepList, Error>
    requires tokenStart <= i
  {
    match NextNewline(src, i)
    case None => Failure(UnterminatedDependents)
    case Some(e) => Success(DepList(names + Words(src[tokenStart..e]), e + 1))
  }

  predicate OpenWord(src: string, i: nat, tokenStart: nat, inside: bool) {
    && tokenStart <= i <= |src|
    && (!inside ==> tokenStart == i)
    && (inside ==> tokenStart < i && forall j :: tokenStart <= j < i ==> !IsBlank(src[j]) && src[j] != '\n')
  }

  lemma BlankStep(src: string, i: nat, tokenStart: nat, inside: bool, names: seq<string>)
    requires OpenWord(src, i, tokenStart, inside) && i < |src| && IsBlank(src[i])
    ensures var names' := if inside then names + [src[tokenStart..i]] else names;
      Owed(src, i + 1, i + 1, names') == Owed(src, i, tokenStart, names)
  {
    var names' := if inside then names + [src[tokenStart..i]] else names;
    NewlineSearchSkips(src, i, i + 1);
    var e := NextNewline(src, i);
    if e.Some? {
      assert src[i..e.value][1..] == src[i + 1..e.value];
      assert Words(src[i..e.value]) == Words(src[i + 1..e.value]);
      if inside {
        assert src[tokenStart..e.value] == src[tokenStart..i] + src[i..e.value];
        WordsOfWord(src[tokenStart..i], src[i..e.value]);
        assert names' + Words(src[i + 1..e.value]) == names + Words(src[tokenStart..e.value]);
      }
    }
  }

  lemma NewlineStep(src: string, i: nat, tokenStart: nat, inside: bool, names: seq<string>)
    requires OpenWord(src, i, tokenStart, inside) && i < |src| && src[i] == '\n'
    ensures ScanDeps(src, i, tokenStart, inside, names) == Owed(src, i, tokenStart, names)
  {
    if inside {
      var w := src[tokenStart..i];
      WordsOfWord(w, []);
      assert w + [] == w;
      assert Words(w) == [w];
      assert NextNewline(src, i) == Some(i);
    } else {
      assert names + [] == names;
    }
  }

  lemma WordStep(src: string, i: nat, tokenStart: nat, inside: bool, names: seq<string>)
    requires OpenWord(src, i, tokenStart, inside) && i < |src| && !IsBlank(src[i]) && src[i] != '\n'
    ensures OpenWord(src, i + 1, tokenStart, true)
    ensures Owed(src, i + 1, tokenStart, names) == Owed(src, i, tokenStart, names)
  {
    NewlineSearchSkips(src, i, i + 1);
  }

  lemma {:induction false} ScanDepsWords(src: string, i: nat, tokenStart: nat, inside: bool, names: seq<string>)
    requires OpenWord(src, i, tokenStart, inside)
    ensures ScanDeps(src, i, tokenStart, inside, names) == Owed(src, i, tokenStart, names)
    decreases |src| - i
  {
    if i == |src| {
    } else if IsBlank(src[i]) {
      BlankStep(src, i, tokenStart, inside, names);
      ScanDepsWords(src, i + 1, i + 1, false, if inside then names + [src[tokenStart..i]] else names);
    } else if src[i] == '\n' {
      NewlineStep(src, i, tokenStart, inside, names);
    } else {
      WordStep(src, i, tokenStart, inside, names);
      ScanDepsWords(src, i + 1, tokenStart, true, names);
    }
  }

  /** The character scanner agrees with the word-splitting reference on every
      input: the ' '/'\t'-separated names before the first '\n', in order,
      with the index just past that '\n'; an empty list is allowed; no '\n'
      before the end of input is an error. */
  lemma DependentsMatchSpec(src: string, start: nat)
    ensures ParseTargetDependents(src, start) == DependentsSpec(src, start)
  {
    if start <= |src| {
      ScanDepsWords(src, start, start, false, []);
      var e := NextNewline(src, start);
      if e.Some? {
        assert [] + Words(src[start..e.value]) == Words(src[start..e.value]);
      }
    }
  }
}
