/** `parse_target_name` (src/main.rs:32-65): the name that opens a target block. */
module TargetNames {
  import opened Wrappers
  import opened BuildFile

  /** The characters that may surround, but not occur in, a target name. */
  predicate IsSeparator(c: char) {
    c == ' ' || c == '\n' || c == '\t'
  }

  /** A name found before its ':'; `colon` is the index of that ':'. */
  datatype NameToken = NameToken(name: string, colon: nat)

  /** The source's character loop: `tokenStart` advances over leading
      separators; once a name character is seen (`inside`), a separator is an
      error and ':' ends the name. */
  function ScanName(src: string, i: nat, tokenStart: nat, inside: bool): (r: Result<Option<NameToken>, Error>)
    requires tokenStart <= i
    requires !inside ==> tokenStart == i
    requires inside ==> tokenStart < i
    ensures r.Success? && r.value.Some? ==>
      i <= r.value.value.colon < |src| && src[r.value.value.colon] == ':'
      && |r.value.value.name| > 0 && r.value.value.colon - |r.value.value.name| >= tokenStart
      && r.value.value.name == src[r.value.value.colon - |r.value.value.name|..r.value.value.colon]
    ensures r == Success(None) <==> !inside && forall j :: i <= j < |src| ==> IsSeparator(src[j])
    decreases |src| - i
  {
    if i >= |src| then
      if inside then Failure(UnterminatedName) else Success(None)
    else if src[i] == ':' then
      if !inside then Failure(MissingName) else Success(Some(NameToken(src[tokenStart..i], i)))
    else if IsSeparator(src[i]) then
      if inside then Failure(SeparatorInName) else ScanName(src, i + 1, tokenStart + 1, false)
    else
      ScanName(src, i + 1, tokenStart, true)
  }

  function ParseTargetName(src: string, start: nat): Result<Option<NameToken>, Error> {
    ScanName(src, start, start, false)
  }

  // ---------------------------------------------------------------------------
  // Reference definition: skip separators, then read the longest name.
  // ---------------------------------------------------------------------------

  /** First index at or after `i` that is not a separator (or the end). */
  function SkipSeparators(src: string, i: nat): (k: nat)
    ensures i <= k
    ensures forall j :: i <= j < k && j < |src| ==> IsSeparator(src[j])
    ensures k < |src| ==> !IsSeparator(src[k])
    ensures k > i ==> k <= |src|
    decreases |src| - i
  {
    if i < |src| && IsSeparator(src[i]) then SkipSeparators(src, i + 1) else i
  }

  predicate IsNameChar(c: char) {
    !IsSeparator(c) && c != ':'
  }

  /** First index at or after `k` holding a separator or ':' (or the end). */
  function NameEnd(src: string, k: nat): (e: nat)
    ensures k <= e
    ensures forall j :: k <= j < e ==> j < |src| && IsNameChar(src[j])
    ensures e < |src| ==> !IsNameChar(src[e])
    ensures e > k ==> e <= |src|
    decreases |src| - k
  {
    if k < |src| && IsNameChar(src[k]) then NameEnd(src, k + 1) else k
  }

  /** What the name scanner promises, stated phase by phase. */
  function TargetNameSpec(src: string, start: nat): Result<Option<NameToken>, Error> {
    var k := SkipSeparators(src, start);
    var e := NameEnd(src, k);
    if e >= |src| then
      if e > k then Failure(UnterminatedName) else Success(None)
    else if src[e] == ':' then
      if e > k then Success(Some(NameToken(src[k..e], e))) else Failure(MissingName)
    else Failure(SeparatorInName)
  }

  lemma {:induction false} ReadName(src: string, i: nat, k: nat)
    requires k <= i <= NameEnd(src, k)
    ensures (if i > k then ScanName(src, i, k, true) else ScanName(src, i, i, false)) ==
      var e := NameEnd(src, k);
      if e >= |src| then
        if e > k then Failure(UnterminatedName) else Success(None)
      else if src[e] == ':' then
        if e > k then Success(Some(NameToken(src[k..e], e))) else Failure(MissingName)
      else if e > k then Failure(SeparatorInName) else ScanName(src, e, e, false)
    decreases |src| - i
  {
    var e := NameEnd(src, k);
    if i < e {
      ReadName(src, i + 1, k);
    }
  }

  lemma {:induction false} SkipThenRead(src: string, i: nat, start: nat)
    requires start <= i <= SkipSeparators(src, start)
    ensures ScanName(src, i, i, false) == TargetNameSpec(src, start)
    decreases |src| - i
  {
    var k := SkipSeparators(src, start);
    if i < k {
      SkipThenRead(src, i + 1, start);
    } else {
      ReadName(src, k, k);
    }
  }

  /** The character scanner and the phase-by-phase reference agree on every
      input: separators before the name are skipped; the name is the longest
      run of other characters and must end at ':'; ':' with no name, a
      separator after a name, or the end of input after a name are errors;
      the end of input with no name gives None. */
  lemma TargetNameMatchesSpec(src: string, start: nat)
    ensures ParseTargetName(src, start) == TargetNameSpec(src, start)
  {
    SkipThenRead(src, start, start);
  }

  /** A single name character right before ':' is a whole name. */
  lemma OneLetterName(src: string, start: nat)
    requires start + 1 < |src| && IsNameChar(src[start]) && src[start + 1] == ':'
    ensures ParseTargetName(src, start) == Success(Some(NameToken([src[start]], start + 1)))
  {
    assert ScanName(src, start + 1, start, true) == Success(Some(NameToken(src[start..start + 1], start + 1)));
    assert src[start..start + 1] == [src[start]];
  }
}
