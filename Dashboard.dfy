/**
 * The dashboard header: the profile's full name with white space normalised,
 * the avatar initials, and the first name in the greeting.
 */
module Dashboard {
  import opened Wrappers
  import opened Text
  import opened StableSort

  /** What the header shows: the normalised name and the initials (both empty until loaded). */
  datatype Header = Header(fullName: string, initials: string)

  /** Every white-space character is a plain space with no white space right after it. */
  predicate SingleSpaced(s: string) {
    forall i :: 0 <= i < |s| && IsSpace(s[i]) ==> s[i] == ' ' && (i + 1 == |s| || !IsSpace(s[i + 1]))
  }

  /** A name as the dashboard keeps it: no outer white space, single spaces inside. */
  predicate Normalized(s: string) {
    Trimmed(s) && SingleSpaced(s)
  }

  function NotSpace(c: char): bool {
    !IsSpace(c)
  }

  /** `s.replace(/\s+/g, ' ')`: every run of white space becomes one space. */
  function Collapse(s: string): (r: string)
    decreases |s|
  {
    if s == [] then []
    else if IsSpace(s[0]) then
      var k := LeadingSpaces(s);
      [' '] + Collapse(s[k..])
    else [s[0]] + Collapse(s[1..])
  }

  /**
   * What the collapse leaves: single plain spaces, nothing longer than the
   * input, and white space at either end exactly where the input had it.
   */
  lemma {:induction false} CollapseSpacing(s: string)
    ensures |Collapse(s)| <= |s|
    ensures Collapse(s) == [] <==> s == []
    ensures Collapse(s) != [] ==> (IsSpace(Collapse(s)[0]) <==> IsSpace(s[0]))
    ensures Collapse(s) != [] ==> (IsSpace(Collapse(s)[|Collapse(s)| - 1]) <==> IsSpace(s[|s| - 1]))
    ensures SingleSpaced(Collapse(s))
    decreases |s|
  {
    if s != [] {
      if IsSpace(s[0]) {
        var k := LeadingSpaces(s);
        CollapseSpacing(s[k..]);
      } else {
        CollapseSpacing(s[1..]);
      }
    }
  }

  /** `full_name.trim().replace(/\s+/g, ' ')`. */
  function NormalizeName(s: string): (r: string)
    ensures Normalized(r)
    ensures |r| <= |s|
  {
    CollapseSpacing(Trim(s));
    Collapse(Trim(s))
  }

  /** A suffix of a single-spaced string is single-spaced. */
  lemma SingleSpacedSuffix(s: string, k: nat)
    requires k <= |s| && SingleSpaced(s)
    ensures SingleSpaced(s[k..])
  {
    forall i | 0 <= i < |s[k..]| && IsSpace(s[k..][i])
      ensures s[k..][i] == ' ' && (i + 1 == |s[k..]| || !IsSpace(s[k..][i + 1]))
    {
      assert s[k..][i] == s[k + i];
    }
  }

  /** A single-spaced string has no run to collapse. */
  lemma {:induction false} CollapseOfSingleSpaced(s: string)
    requires SingleSpaced(s)
    ensures Collapse(s) == s
    decreases |s|
  {
    if s != [] {
      SingleSpacedSuffix(s, 1);
      CollapseOfSingleSpaced(s[1..]);
      if IsSpace(s[0]) {
        assert s[0] == ' ' && (1 == |s| || !IsSpace(s[1]));
        assert LeadingSpaces(s[1..]) == 0;
        assert LeadingSpaces(s) == 1;
      }
      assert s == [s[0]] + s[1..];
    }
  }

  /** A normalised name is its own normalisation. */
  lemma NormalizedIsFixed(s: string)
    requires Normalized(s)
    ensures NormalizeName(s) == s
  {
    TrimOfTrimmed(s);
    CollapseOfSingleSpaced(s);
  }

  /** Normalising twice is normalising once. */
  lemma NormalizeIdempotent(s: string)
    ensures NormalizeName(NormalizeName(s)) == NormalizeName(s)
  {
    NormalizedIsFixed(NormalizeName(s));
  }

  /** Leading white space does not count among the visible characters. */
  lemma DropLeadingSpaces(s: string, k: nat)
    requires k <= |s| && forall i :: 0 <= i < k ==> IsSpace(s[i])
    ensures Filter(s[k..], NotSpace) == Filter(s, NotSpace)
  {
    assert s == s[..k] + s[k..];
    FilterAppend(s[..k], s[k..], NotSpace);
    FilterNone(s[..k], NotSpace);
  }

  /** Trailing white space does not count among the visible characters. */
  lemma DropTrailingSpaces(s: string, k: nat)
    requires k <= |s| && forall i :: k <= i < |s| ==> IsSpace(s[i])
    ensures Filter(s[..k], NotSpace) == Filter(s, NotSpace)
  {
    assert s == s[..k] + s[k..];
    FilterAppend(s[..k], s[k..], NotSpace);
    FilterNone(s[k..], NotSpace);
  }

  /** Collapsing touches only white space: the other characters stay, in order. */
  lemma {:induction false} CollapseKeepsText(s: string)
    ensures Filter(Collapse(s), NotSpace) == Filter(s, NotSpace)
    decreases |s|
  {
    if s != [] {
      if IsSpace(s[0]) {
        var k := LeadingSpaces(s);
        CollapseKeepsText(s[k..]);
        FilterCons(' ', Collapse(s[k..]), NotSpace);
        DropLeadingSpaces(s, k);
      } else {
        CollapseKeepsText(s[1..]);
        FilterCons(s[0], Collapse(s[1..]), NotSpace);
        assert s == [s[0]] + s[1..];
        FilterCons(s[0], s[1..], NotSpace);
      }
    }
  }

  /** Trimming removes only white space. */
  lemma TrimKeepsText(s: string)
    ensures Filter(Trim(s), NotSpace) == Filter(s, NotSpace)
  {
    var t := TrimStart(s);
    DropLeadingSpaces(s, LeadingSpaces(s));
    DropTrailingSpaces(t, |t| - TrailingSpaces(t));
  }

  /** Normalisation changes white space only: the visible characters of the name stay, in order. */
  lemma NormalizeKeepsText(s: string)
    ensures Filter(NormalizeName(s), NotSpace) == Filter(s, NotSpace)
  {
    CollapseKeepsText(Trim(s));
    TrimKeepsText(s);
  }

  // ------------------------------------------------------------- visible runs

  /** The number of characters other than white space at the start of `s`. */
  function LeadingText(s: string): (k: nat)
    ensures k <= |s|
    ensures forall i :: 0 <= i < k ==> !IsSpace(s[i])
    ensures k == |s| || IsSpace(s[k])
  {
    if s == [] || IsSpace(s[0]) then 0 else 1 + LeadingText(s[1..])
  }

  /**
   * The maximal runs of characters other than white space, in order: the words
   * a reader sees in `s`, however they are spaced. An independent account of
   * what `trim().replace(/\s+/g, ' ')` keeps.
   */
  function Runs(s: string): seq<string>
    decreases |s|
  {
    var t := TrimStart(s);
    if t == [] then []
    else
      var k := LeadingText(t);
      assert k != 0 by { assert t[0] == s[LeadingSpaces(s)]; }
      [t[..k]] + Runs(t[k..])
  }

  /** Every run is non-empty and holds no white space. */
  lemma {:induction false} RunsAreWords(s: string)
    ensures forall j :: 0 <= j < |Runs(s)| ==> Runs(s)[j] != [] && ' ' !in Runs(s)[j]
    decreases |s|
  {
    var t := TrimStart(s);
    if t != [] {
      var k := LeadingText(t);
      var rest := Runs(t[k..]);
      assert Runs(s) == [t[..k]] + rest;
      RunsAreWords(t[k..]);
      FirstRunIsWord(t);
      forall j | 0 <= j < |Runs(s)| ensures Runs(s)[j] != [] && ' ' !in Runs(s)[j] {
        if j > 0 {
          assert Runs(s)[j] == rest[j - 1];
        }
      }
    }
  }

  /** The first run of a string starting with a visible character is a non-empty word. */
  lemma FirstRunIsWord(t: string)
    requires t != [] && !IsSpace(t[0])
    ensures t[..LeadingText(t)] != [] && ' ' !in t[..LeadingText(t)]
  {
    var k := LeadingText(t);
    forall i | 0 <= i < k ensures t[..k][i] != ' ' {
      assert !IsSpace(t[i]);
    }
  }

  /** A string starting with a visible character: its first run, then the runs of the rest. */
  lemma RunsOfText(s: string)
    requires s != [] && !IsSpace(s[0])
    ensures LeadingText(s) >= 1
    ensures Runs(s) == [s[..LeadingText(s)]] + Runs(s[LeadingText(s)..])
  {
    assert LeadingSpaces(s) == 0;
    assert s[0..] == s;
  }

  /** Leading white space does not change the runs. */
  lemma RunsSkipSpaces(s: string)
    ensures Runs(s[LeadingSpaces(s)..]) == Runs(s)
  {
    var t := s[LeadingSpaces(s)..];
    if t != [] {
      assert LeadingSpaces(t) == 0;
      assert t[0..] == t;
    }
  }

  /** When every character of `b` is white space, `a + b` starts with as much white space as `a`, or more. */
  lemma LeadingSpacesAppend(a: string, b: string)
    requires forall i :: 0 <= i < |b| ==> IsSpace(b[i])
    ensures LeadingSpaces(a) < |a| ==> LeadingSpaces(a + b) == LeadingSpaces(a)
    ensures LeadingSpaces(a) == |a| ==> LeadingSpaces(a + b) == |a + b|
  {
    var k := LeadingSpaces(a);
    var c := a + b;
    if k < |a| {
      assert c[k] == a[k];
      forall i | 0 <= i < k ensures IsSpace(c[i]) {
        assert c[i] == a[i];
      }
    } else {
      forall i | 0 <= i < |c| ensures IsSpace(c[i]) {
        if i < |a| {
          assert c[i] == a[i];
        } else {
          assert c[i] == b[i - |a|];
        }
      }
    }
  }

  /** When `b` starts with white space or is empty, appending it does not lengthen the first run. */
  lemma LeadingTextAppend(t: string, b: string)
    requires b == [] || IsSpace(b[0])
    ensures LeadingText(t + b) == LeadingText(t)
  {
    var k := LeadingText(t);
    var c := t + b;
    if k < |t| {
      assert c[k] == t[k];
    } else if b != [] {
      assert c[k] == b[0];
    }
    forall i | 0 <= i < k ensures !IsSpace(c[i]) {
      assert c[i] == t[i];
    }
  }

  /** A string of white space only has no runs. */
  lemma RunsOfSpaces(s: string)
    requires LeadingSpaces(s) == |s|
    ensures Runs(s) == []
  {
  }

  /** White space after a string that starts with a visible character ends up after its last run. */
  lemma RunsOfTextAppend(t: string, b: string)
    requires t != [] && !IsSpace(t[0])
    requires forall i :: 0 <= i < |b| ==> IsSpace(b[i])
    ensures LeadingText(t) >= 1
    ensures Runs(t + b) == [t[..LeadingText(t)]] + Runs(t[LeadingText(t)..] + b)
  {
    var c := t + b;
    var k := LeadingText(t);
    LeadingTextAppend(t, b);
    assert c[0] == t[0];
    RunsOfText(c);
    SplitAppend(t, b, k);
  }

  /** Cutting `t + b` inside `t`. */
  lemma SplitAppend(t: string, b: string, k: nat)
    requires k <= |t|
    ensures (t + b)[..k] == t[..k] && (t + b)[k..] == t[k..] + b
  {
  }

  /** Trailing white space does not change the runs. */
  lemma {:induction false} RunsAppendSpaces(a: string, b: string)
    requires forall i :: 0 <= i < |b| ==> IsSpace(b[i])
    ensures Runs(a + b) == Runs(a)
    decreases |a|
  {
    LeadingSpacesAppend(a, b);
    var m := LeadingSpaces(a);
    if m < |a| {
      var t := a[m..];
      assert (a + b)[m..] == t + b;
      RunsSkipSpaces(a);
      RunsSkipSpaces(a + b);
      RunsOfTextAppend(t, b);
      RunsOfText(t);
      RunsAppendSpaces(t[LeadingText(t)..], b);
    } else {
      RunsOfSpaces(a);
      RunsOfSpaces(a + b);
    }
  }

  /** Trimming does not change the runs. */
  lemma RunsOfTrim(s: string)
    ensures Runs(Trim(s)) == Runs(s)
  {
    var t := TrimStart(s);
    RunsSkipSpaces(s);
    var j := TrimEndSplit(t);
    RunsAppendSpaces(TrimEnd(t), t[j..]);
  }

  /** `t` is its `trimEnd` followed by white space only; returns where that white space starts. */
  lemma TrimEndSplit(t: string) returns (j: nat)
    ensures j <= |t| && TrimEnd(t) == t[..j] && t == TrimEnd(t) + t[j..]
    ensures forall i :: 0 <= i < |t[j..]| ==> IsSpace(t[j..][i])
  {
    j := |t| - TrailingSpaces(t);
    assert t == t[..j] + t[j..];
    forall i | 0 <= i < |t[j..]| ensures IsSpace(t[j..][i]) {
      assert t[j..][i] == t[j + i];
    }
  }

  /** Slicing facts for one step along `s`. */
  lemma SliceStep(s: string, k: nat)
    requires 1 <= k <= |s|
    ensures s[1..][..k - 1] == s[1..k] && s[1..][k - 1..] == s[k..] && [s[0]] + s[1..k] == s[..k]
  {
  }

  /** The first run of `s` is kept as it is by the collapse. */
  lemma {:induction false} CollapseFirstRun(s: string)
    ensures Collapse(s) == s[..LeadingText(s)] + Collapse(s[LeadingText(s)..])
    decreases |s|
  {
    var k := LeadingText(s);
    if k == 0 {
      assert s[..0] == [] && s[0..] == s;
    } else {
      CollapseTextStep(s);
      CollapseFirstRun(s[1..]);
      SliceStep(s, k);
      ConsConcat(s[0], s[1..k], Collapse(s[k..]));
    }
  }

  /** One visible character in front: the collapse copies it and the first run is one shorter after it. */
  lemma CollapseTextStep(s: string)
    requires s != [] && !IsSpace(s[0])
    ensures Collapse(s) == [s[0]] + Collapse(s[1..])
    ensures LeadingText(s) == 1 + LeadingText(s[1..])
  {
  }

  lemma ConsConcat(c: char, a: string, b: string)
    ensures [c] + (a + b) == ([c] + a) + b
  {
  }

  /** Facts about the white space after the first run of a trimmed string. */
  lemma AfterFirstRun(s: string, k: nat)
    requires Trimmed(s) && s != [] && k < |s| && IsSpace(s[k])
    ensures s[k..] != [] && IsSpace(s[k..][0])
    ensures LeadingSpaces(s[k..]) < |s[k..]|
    ensures Trimmed(s[k..][LeadingSpaces(s[k..])..]) && s[k..][LeadingSpaces(s[k..])..] != []
  {
    var v := s[k..];
    var m := LeadingSpaces(v);
    assert v[0] == s[k];
    assert v[|v| - 1] == s[|s| - 1];
    var u := v[m..];
    assert u[|u| - 1] == v[|v| - 1];
  }

  /** A first run, one space, then the joined remaining runs, is the join of all of them. */
  lemma JoinAfterFirstRun(w: string, rest: string, xs: seq<string>)
    requires xs != [] && rest == Join(xs, ' ')
    ensures w + ([' '] + rest) == Join([w] + xs, ' ')
  {
    JoinCons(w, xs, ' ');
  }

  /** On a trimmed string the collapse is the runs joined by single spaces. */
  lemma {:induction false} CollapseTrimmedIsJoin(s: string)
    requires Trimmed(s)
    ensures Collapse(s) == Join(Runs(s), ' ')
    decreases |s|
  {
    if s != [] {
      var k := LeadingText(s);
      RunsOfText(s);
      CollapseFirstRun(s);
      var w := s[..k];
      if k == |s| {
        assert s[k..] == [];
      } else {
        var v := s[k..];
        AfterFirstRun(s, k);
        var u := v[LeadingSpaces(v)..];
        assert Collapse(v) == [' '] + Collapse(u);
        CollapseTrimmedIsJoin(u);
        RunsSkipSpaces(v);
        RunsOfText(u);
        JoinAfterFirstRun(w, Collapse(u), Runs(u));
      }
    }
  }

  /**
   * The normalised name is the visible runs of the profile's name joined by
   * single spaces: each white-space run inside becomes exactly one space and the
   * outer ones go.
   */
  lemma NormalizeIsJoinedRuns(s: string)
    ensures NormalizeName(s) == Join(Runs(s), ' ')
  {
    RunsOfTrim(s);
    CollapseTrimmedIsJoin(Trim(s));
  }

  /** `split(' ')` of the normalised name gives back exactly the visible runs; a blank name has none. */
  lemma WordsOfNormalized(s: string)
    ensures IsBlank(s) <==> Runs(s) == []
    ensures !IsBlank(s) ==> Words(NormalizeName(s)) == Runs(s)
  {
    var r := Runs(s);
    NormalizeIsJoinedRuns(s);
    if r != [] {
      assert Join(r, ' ') != [] by {
        if |r| > 1 {
          assert Join(r, ' ') == r[0] + [' '] + Join(r[1..], ' ');
        }
      }
      RunsAreWords(s);
      SplitJoin(r, ' ');
    }
  }

  // ------------------------------------------------------------- words

  /** `name.split(' ')`. */
  function Words(name: string): seq<string> {
    Split(name, ' ')
  }

  /** Without a leading, trailing or doubled separator, every piece after the first is non-empty. */
  lemma {:induction false} SplitTailPiecesNonEmpty(s: string, sep: char)
    requires s == [] || s[|s| - 1] != sep
    requires forall i :: 0 <= i < |s| - 1 && s[i] == sep ==> s[i + 1] != sep
    ensures forall j :: 1 <= j < |Split(s, sep)| ==> Split(s, sep)[j] != []
    decreases |s|
  {
    if s != [] {
      var rest := Split(s[1..], sep);
      SplitTailPiecesNonEmpty(s[1..], sep);
      if s[0] == sep {
        assert s[1..][0] == s[1] != sep;
        assert rest[0] != [];
        assert Split(s, sep) == [[]] + rest;
      } else {
        assert Split(s, sep) == [[s[0]] + rest[0]] + rest[1..];
      }
    }
  }

  /** The words of a non-empty normalised name are all non-empty. */
  lemma WordsNonEmpty(name: string)
    requires Normalized(name) && name != []
    ensures forall j :: 0 <= j < |Words(name)| ==> Words(name)[j] != []
  {
    SplitTailPiecesNonEmpty(name, ' ');
    assert name[0] != ' ';
  }

  /** `n[0]` joined with '': the first character, or nothing for an empty word. */
  function FirstChar(w: string): (r: string)
    ensures |r| <= 1
    ensures r == [] <==> w == []
  {
    if w == [] then [] else [w[0]]
  }

  /** `xs.join('')`. */
  function Concat(xs: seq<string>): string {
    if xs == [] then [] else xs[0] + Concat(xs[1..])
  }

  /** `nameParts.map(n => n[0]).slice(0, 2).join('').toUpperCase()`. */
  function Initials(name: string): (r: string)
    ensures |r| <= 2
  {
    var parts := Words(name);
    var firsts := Map(parts, FirstChar);
    var taken := if |firsts| < 2 then firsts else firsts[..2];
    ConcatOfShortPieces(taken);
    Upper(Concat(taken))
  }

  lemma {:induction false} ConcatOfShortPieces(xs: seq<string>)
    requires forall i :: 0 <= i < |xs| ==> |xs[i]| <= 1
    ensures |Concat(xs)| <= |xs|
  {
    if xs != [] {
      ConcatOfShortPieces(xs[1..]);
    }
  }

  lemma {:induction false} ConcatOfSingletons(xs: seq<string>)
    requires forall i :: 0 <= i < |xs| ==> |xs[i]| == 1
    ensures |Concat(xs)| == |xs|
    ensures forall i :: 0 <= i < |xs| ==> Concat(xs)[i] == xs[i][0]
  {
    if xs != [] {
      ConcatOfSingletons(xs[1..]);
    }
  }

  /**
   * For a non-empty normalised name the initials are the upper-cased first
   * letters of the first two words (of the only word when there is one).
   */
  lemma InitialsOfWords(name: string)
    requires Normalized(name) && name != []
    ensures var w := Words(name);
      (forall j :: 0 <= j < |w| ==> w[j] != [])
      && |Initials(name)| == (if |w| < 2 then |w| else 2)
      && forall i :: 0 <= i < |Initials(name)| ==> Initials(name)[i] == UpperChar(w[i][0])
  {
    var parts := Words(name);
    WordsNonEmpty(name);
    var firsts := Map(parts, FirstChar);
    var taken := if |firsts| < 2 then firsts else firsts[..2];
    ConcatOfSingletons(taken);
  }

  /** `fullName.split(' ')[0]`, the name used in the greeting. */
  function FirstName(name: string): (r: string)
    ensures ' ' !in r
  {
    Words(name)[0]
  }

  /** The greeting's first name is the whole name or the part before its first space, and is non-empty. */
  lemma FirstNameIsFirstWord(name: string)
    requires Normalized(name) && name != []
    ensures FirstName(name) != [] && !IsSpace(FirstName(name)[0])
    ensures IsPrefix(FirstName(name), name)
    ensures |FirstName(name)| == |name| || name[|FirstName(name)|] == ' '
  {
    var w := Words(name);
    WordsNonEmpty(name);
    JoinSplit(name, ' ');
    if |w| > 1 {
      assert name == w[0] + [' '] + Join(w[1..], ' ');
      assert name[..|w[0]|] == w[0];
    }
    assert name[0] == w[0][0];
  }

  /** The greeting line: the first name after "Welcome Back" once a name is loaded. */
  function Greeting(fullName: string): string {
    "Welcome Back" + (if fullName != [] then ", " + FirstName(fullName) else [])
  }

  /**
   * `fetchUserProfile`: with no signed-in user, no profile or an empty
   * `full_name`, the header keeps its state; otherwise it takes the normalised
   * name and its initials.
   */
  function LoadProfile(signedIn: bool, fullName: Option<string>, h: Header): (r: Header)
    ensures !signedIn || fullName.None? || fullName.value == [] ==> r == h
    ensures signedIn && fullName.Some? && fullName.value != [] ==>
      Normalized(r.fullName) && |r.initials| <= 2
      && Filter(r.fullName, NotSpace) == Filter(fullName.value, NotSpace)
      && r.fullName == NormalizeName(fullName.value) == Join(Runs(fullName.value), ' ')
      && r.initials == Initials(r.fullName)
  {
    if !signedIn || fullName.None? || fullName.value == [] then h
    else
      var name := NormalizeName(fullName.value);
      NormalizeKeepsText(fullName.value);
      NormalizeIsJoinedRuns(fullName.value);
      Header(name, Initials(name))
  }

  /**
   * For a name that is not blank, the header is read off its visible runs: the
   * initials are the upper-cased first letters of the first two runs and the
   * greeting uses the first run.
   */
  lemma HeaderOfRuns(s: string)
    requires !IsBlank(s)
    ensures var w := Runs(s);
      var initials := Initials(NormalizeName(s));
      w != [] && (forall j :: 0 <= j < |w| ==> w[j] != [])
      && |initials| == (if |w| < 2 then |w| else 2)
      && (forall i :: 0 <= i < |initials| ==> initials[i] == UpperChar(w[i][0]))
      && FirstName(NormalizeName(s)) == w[0]
  {
    var name := NormalizeName(s);
    WordsOfNormalized(s);
    RunsAreWords(s);
    assert name != [];
    InitialsOfWords(name);
  }

  /**
   * A loaded name that is not all white space is greeted by its first word;
   * one that is all white space leaves both the greeting name and the initials empty.
   */
  lemma LoadedGreeting(fullName: string, h: Header)
    requires fullName != []
    ensures var r := LoadProfile(true, Some(fullName), h);
      if IsBlank(fullName) then r == Header([], [])
      else FirstName(r.fullName) != [] && IsPrefix(Greeting(r.fullName), "Welcome Back, " + r.fullName)
  {
    var name := NormalizeName(fullName);
    if IsBlank(fullName) {
      assert name == [];
      assert Words([]) == [[]];
      assert Map(Words(name), FirstChar) == [[]];
      assert Concat([[]]) == [];
    } else {
      assert name != [];
      FirstNameIsFirstWord(name);
      var g := "Welcome Back, ";
      assert Greeting(name) == g + FirstName(name);
      assert (g + name)[..|g + FirstName(name)|] == g + name[..|FirstName(name)|];
    }
  }
}
