/** Argument checks at the start of `run_analysis`: the sort-code string, the
    presence of an input file, and the ` (provided)` label on file names. */
module Arguments {
  import opened Results
  import opened Substrings

  /** `str.lower()` on one character. Only ASCII letters are mapped: no other
      character lowercases to `s`, `l`, `a` or `i`, so the checks below are exact. */
  function Lower(c: char): char
  {
    if 'A' <= c <= 'Z' then (c as int + 32) as char else c
  }

  function LowerString(s: string): string
  {
    seq(|s|, i requires 0 <= i < |s| => Lower(s[i]))
  }

  /** The sort letters: Score, Location count, Alphabetic, Initial order. */
  const SortLetters: string := "slai"

  /** A file name containing this label has ` (provided)` and everything after it cut off. */
  const ProvidedLabel: string := "(provided)"
  const ProvidedSuffix: string := " (provided)"

  datatype ArgError =
    | UnrecognizedSortCharacters(code: string)
    | InitialOrderNotAlone
    | MissingInfile
    | LabelWithoutSpace(name: string)

  /** The file names and lowercased sort code handed on to the analysis. */
  datatype Analysis = Analysis(infile: string, curatedFile: string, configFile: string, sortSpecies: string)

  /** The two sort-code checks, in source order; on success the code lowercased. */
  function ValidateSortCode(s: string): (r: Result<string, ArgError>)
    ensures r == Failure(UnrecognizedSortCharacters(s))
        <==> exists i :: 0 <= i < |s| && Lower(s[i]) !in SortLetters
    ensures r == Failure(InitialOrderNotAlone)
        <==> (&& (forall i :: 0 <= i < |s| ==> Lower(s[i]) in SortLetters)
              && |s| > 1
              && exists i :: 0 <= i < |s| && s[i] in "iI")
    ensures r.Success? ==> |r.value| == |s| && forall i :: 0 <= i < |s| ==> r.value[i] == Lower(s[i]) && r.value[i] in SortLetters
  {
    if !(forall c :: c in s ==> Lower(c) in SortLetters) then
      Failure(UnrecognizedSortCharacters(s))
    else if (InitialLetter(s); 'i' in LowerString(s) && |s| > 1) then
      Failure(InitialOrderNotAlone)
    else
      Success(LowerString(s))
  }

  /** The lowercased code contains `i` exactly when the code has `i` or `I`. */
  lemma InitialLetter(s: string)
    ensures 'i' in LowerString(s) <==> exists i :: 0 <= i < |s| && s[i] in "iI"
  {
    forall c: char
      ensures Lower(c) == 'i' <==> c in "iI"
    {
      if 'A' <= c <= 'Z' {
        assert Lower(c) == 'i' <==> c as int == 'I' as int;
      }
    }
    if 'i' in LowerString(s) {
      var k :| 0 <= k < |s| && LowerString(s)[k] == 'i';
      assert s[k] in "iI";
    }
    if exists i :: 0 <= i < |s| && s[i] in "iI" {
      var k :| 0 <= k < |s| && s[k] in "iI";
      assert LowerString(s)[k] == 'i';
    }
  }

  /** Drops a ` (provided)` label: the name up to the label's first occurrence.
      A name with `(provided)` but not ` (provided)` makes `index` raise. */
  function StripProvided(name: string): (r: Result<string, ArgError>)
    ensures !Contains(name, ProvidedLabel) ==> r == Success(name)
    ensures Contains(name, ProvidedSuffix) ==>
              && r.Success?
              && OccursAt(name, ProvidedSuffix, |r.value|)
              && r.value == name[..|r.value|]
              && !Contains(r.value, ProvidedSuffix)
    ensures Contains(name, ProvidedLabel) && !Contains(name, ProvidedSuffix) ==> r == Failure(LabelWithoutSpace(name))
  {
    if Contains(name, ProvidedLabel) then
      match IndexOf(name, ProvidedSuffix)
      case None => Failure(LabelWithoutSpace(name))
      case Some(i) =>
        PrefixAvoidsSuffix(name, i);
        Success(name[..i])
    else
      SuffixHasLabel(name);
      Success(name)
  }

  /** Every occurrence of ` (provided)` carries an occurrence of `(provided)`. */
  lemma SuffixHasLabel(name: string)
    ensures Contains(name, ProvidedSuffix) ==> Contains(name, ProvidedLabel)
  {
    if Contains(name, ProvidedSuffix) {
      var i :| 0 <= i <= |name| - |ProvidedSuffix| && OccursAt(name, ProvidedSuffix, i);
      assert name[i + 1..i + 1 + |ProvidedLabel|] == name[i..i + |ProvidedSuffix|][1..];
      assert OccursAt(name, ProvidedLabel, i + 1);
    }
  }

  /** The text before the first occurrence does not contain it. */
  lemma PrefixAvoidsSuffix(name: string, i: nat)
    requires i <= |name| && forall j :: 0 <= j < i ==> !OccursAt(name, ProvidedSuffix, j)
    ensures !Contains(name[..i], ProvidedSuffix)
  {
    forall j | 0 <= j <= i - |ProvidedSuffix|
      ensures !OccursAt(name[..i], ProvidedSuffix, j)
    {
      assert name[..i][j..j + |ProvidedSuffix|] == name[j..j + |ProvidedSuffix|];
      assert !OccursAt(name, ProvidedSuffix, j);
    }
  }

  /** `run_analysis` up to the call into the analysis: sort-code checks first,
      then the input file, then the two file-name labels. */
  function RunAnalysis(infile: Option<string>, datfile: string, config: string, s: string): (r: Result<Analysis, ArgError>)
    ensures ValidateSortCode(s).Failure? ==> r == Failure(ValidateSortCode(s).error)
    ensures r == Failure(MissingInfile) <==> ValidateSortCode(s).Success? && infile.None?
    ensures ValidateSortCode(s).Success? && infile.Some? && StripProvided(datfile).Failure? ==>
              r == Failure(StripProvided(datfile).error)
    ensures ValidateSortCode(s).Success? && infile.Some? && StripProvided(datfile).Success?
              && StripProvided(config).Failure? ==>
              r == Failure(StripProvided(config).error)
    ensures r.Success? <==>
              && ValidateSortCode(s).Success?
              && infile.Some?
              && StripProvided(datfile).Success?
              && StripProvided(config).Success?
    ensures r.Success? ==>
              && infile == Some(r.value.infile)
              && r.value.sortSpecies == LowerString(s)
              && StripProvided(datfile) == Success(r.value.curatedFile)
              && StripProvided(config) == Success(r.value.configFile)
  {
    var sortSpecies :- ValidateSortCode(s);
    if infile.None? then
      Failure(MissingInfile)
    else
      var curatedFile :- StripProvided(datfile);
      var configFile :- StripProvided(config);
      Success(Analysis(infile.value, curatedFile, configFile, sortSpecies))
  }
}

/** Consequences of the argument checks. */
module ArgumentProperties {
  import opened Results
  import opened Substrings
  import opened Arguments

  /** The accepted sort codes, listed: the empty code, `I` or `i` alone, and
      any code over S, L and A in either case. */
  lemma AcceptedSortCodes(s: string)
    ensures ValidateSortCode(s).Success?
        <==> s == "" || s == "I" || s == "i" || forall i :: 0 <= i < |s| ==> s[i] in "SLAsla"
  {
  }

  /** Appending the label to a name without it puts its first occurrence at the join. */
  lemma NoEarlierLabel(base: string, j: int)
    requires !Contains(base, ProvidedSuffix) && 0 <= j < |base|
    ensures !OccursAt(base + ProvidedSuffix, ProvidedSuffix, j)
  {
    var name := base + ProvidedSuffix;
    if j + |ProvidedSuffix| <= |base| {
      assert name[j..j + |ProvidedSuffix|] == base[j..j + |ProvidedSuffix|];
      assert !OccursAt(base, ProvidedSuffix, j);
    } else if j + |ProvidedSuffix| <= |name| {
      // an occurrence here would put the label's opening space at an inner position of the label
      var k := |base| - j;
      assert name[j..j + |ProvidedSuffix|][k] == ' ' != ProvidedSuffix[k];
    }
  }

  /** Appending ` (provided)` to a name that lacks it and stripping gives the name back. */
  lemma StripLabelRoundTrip(base: string)
    requires !Contains(base, ProvidedSuffix)
    ensures StripProvided(base + ProvidedSuffix) == Success(base)
  {
    var name := base + ProvidedSuffix;
    assert OccursAt(name, ProvidedSuffix, |base|) by {
      assert name[|base|..|base| + |ProvidedSuffix|] == ProvidedSuffix;
    }
    forall j | 0 <= j < |base|
      ensures !OccursAt(name, ProvidedSuffix, j)
    {
      NoEarlierLabel(base, j);
    }
    SuffixHasLabel(name);
    assert IndexOf(name, ProvidedSuffix) == Some(|base|);
    assert name[..|base|] == base;
  }
}
