/**
 * The encyclopedia search screen: the blank-query guard, the page offset moved
 * in steps of ten, the has-next / has-previous tests, and the removal of
 * markup from result snippets.
 */
module Search {
  import opened Wrappers
  import opened Text
  import opened StableSort

  /** One hit of the search service. */
  datatype SearchResult = SearchResult(title: string, snippet: string)

  /** A successful response: this page's hits and the total number of hits. */
  datatype SearchPage = SearchPage(hits: seq<SearchResult>, totalHits: int)

  /** Hits per page, as the service returns them and as the offset moves. */
  const PageSize: int := 10

  /** The single entry shown when a request fails. */
  const ErrorResults: seq<SearchResult> := [SearchResult("Error", "Something went wrong. Please try again.")]

  // ------------------------------------------------------------- snippet markup

  /** Index of the first '>' in `s`, or `|s|` when there is none. */
  function FirstClose(s: string): (k: nat)
    ensures k <= |s|
    ensures k < |s| ==> s[k] == '>'
    ensures forall i :: 0 <= i < k ==> s[i] != '>'
  {
    if s == [] then 0
    else if s[0] == '>' then 0
    else 1 + FirstClose(s[1..])
  }

  /**
   * `/<[^>]+>/` matches at the start of `s`: a '<', at least one character other
   * than '>', then the first '>' after it.
   */
  predicate TagAt(s: string) {
    s != [] && s[0] == '<' && 1 <= FirstClose(s[1..]) < |s| - 1
  }

  /** `snippet.replace(/<[^>]+>/g, '')`: matches are removed left to right, without overlap. */
  function StripTags(s: string): (r: string)
    ensures |r| <= |s|
    decreases |s|
  {
    if s == [] then []
    else if TagAt(s) then StripTags(s[FirstClose(s[1..]) + 2..])
    else [s[0]] + StripTags(s[1..])
  }

  /** A character that does not open a match is kept, and the scan moves on past it. */
  lemma StripKeepsChar(c: char, s: string)
    requires !TagAt([c] + s)
    ensures StripTags([c] + s) == [c] + StripTags(s)
  {
    assert ([c] + s)[1..] == s;
  }

  /** Text without '<' in front of the snippet is kept as it is. */
  lemma {:induction false} StripKeepsText(a: string, s: string)
    requires '<' !in a
    ensures StripTags(a + s) == a + StripTags(s)
    decreases |a|
  {
    if a == [] {
      assert a + s == s;
    } else {
      assert a + s == [a[0]] + (a[1..] + s);
      StripKeepsChar(a[0], a[1..] + s);
      StripKeepsText(a[1..], s);
      assert a == [a[0]] + a[1..];
    }
  }

  /** The first '>' of `w + ['>'] + s` is the one after `w` when `w` has none. */
  lemma FirstCloseAfter(w: string, s: string)
    requires '>' !in w
    ensures FirstClose(w + ['>'] + s) == |w|
  {
    var t := w + ['>'] + s;
    var k := FirstClose(t);
    assert t[|w|] == '>';
    assert forall i :: 0 <= i < |w| ==> t[i] == w[i];
  }

  /** A match `<w>` at the front is removed whole and the scan resumes after its '>'. */
  lemma StripTagRemoved(w: string, s: string)
    requires w != [] && '>' !in w
    ensures StripTags(['<'] + w + ['>'] + s) == StripTags(s)
  {
    var t := ['<'] + w + ['>'] + s;
    assert t[1..] == w + ['>'] + s;
    FirstCloseAfter(w, s);
    assert TagAt(t);
    assert t[|w| + 2..] == s;
  }

  /** Markup between two stretches of text goes and the text on both sides stays: "a<b>c" shows "ac". */
  lemma StripOneTag(a: string, w: string, b: string)
    requires '<' !in a && '<' !in b && w != [] && '>' !in w
    ensures StripTags(a + (['<'] + w + ['>'] + b)) == a + b
  {
    StripKeepsText(a, ['<'] + w + ['>'] + b);
    StripTagRemoved(w, b);
    StripWithoutOpen(b);
  }

  /** No match of the markup pattern starts anywhere in `s`. */
  predicate NoTags(s: string) {
    forall i :: 0 <= i < |s| ==> !TagAt(s[i..])
  }

  lemma {:induction false} SubsequenceOfSuffix<T>(r: seq<T>, s: seq<T>, j: nat)
    requires j <= |s| && IsSubsequence(r, s[j..])
    ensures IsSubsequence(r, s)
    decreases j
  {
    if j > 0 {
      assert s[j - 1..][1..] == s[j..];
      SubsequenceOfSuffix(r, s, j - 1);
    }
  }

  lemma {:induction false} SubsequenceMembership<T>(r: seq<T>, s: seq<T>, x: T)
    requires IsSubsequence(r, s) && x in r
    ensures x in s
    decreases |s|
  {
    if r[0] == s[0] && IsSubsequence(r[1..], s[1..]) {
      if x != r[0] {
        assert x in r[1..];
        SubsequenceMembership(r[1..], s[1..], x);
      }
    } else {
      SubsequenceMembership(r, s[1..], x);
    }
  }

  /** Stripping only deletes characters: the output is a subsequence of the snippet. */
  lemma {:induction false} StripIsSubsequence(s: string)
    ensures IsSubsequence(StripTags(s), s)
    decreases |s|
  {
    if s != [] {
      if TagAt(s) {
        var j := FirstClose(s[1..]) + 2;
        StripIsSubsequence(s[j..]);
        SubsequenceOfSuffix(StripTags(s), s, j);
      } else {
        StripIsSubsequence(s[1..]);
        var r := StripTags(s);
        assert r[0] == s[0] && r[1..] == StripTags(s[1..]);
      }
    }
  }

  /** A snippet without '<' is shown unchanged. */
  lemma {:induction false} StripWithoutOpen(s: string)
    requires '<' !in s
    ensures StripTags(s) == s
    decreases |s|
  {
    if s != [] {
      assert '<' !in s[1..];
      StripWithoutOpen(s[1..]);
      assert s == [s[0]] + s[1..];
    }
  }

  /** Nothing that still looks like markup survives. */
  lemma {:induction false} StripLeavesNoTags(s: string)
    ensures NoTags(StripTags(s))
    decreases |s|
  {
    if s != [] {
      if TagAt(s) {
        StripLeavesNoTags(s[FirstClose(s[1..]) + 2..]);
      } else {
        var t := StripTags(s[1..]);
        var r := StripTags(s);
        StripLeavesNoTags(s[1..]);
        assert r == [s[0]] + t;
        forall i | 1 <= i < |r|
          ensures !TagAt(r[i..])
        {
          assert r[i..] == t[i - 1..];
        }
        if s[0] == '<' {
          if FirstClose(s[1..]) == 0 && |s| > 1 {
            assert s[1] == '>' && !TagAt(s[1..]);
            assert t[0] == '>';
            assert r[1..][0] == '>';
          } else {
            assert '>' !in s[1..];
            StripIsSubsequence(s[1..]);
            if '>' in t {
              SubsequenceMembership(t, s[1..], '>');
            }
            assert r[1..] == t;
            assert FirstClose(r[1..]) == |r| - 1;
          }
        }
        assert r[0..] == r;
      }
    }
  }

  /** A snippet already free of markup is left alone. */
  lemma {:induction false} StripOfClean(s: string)
    requires NoTags(s)
    ensures StripTags(s) == s
    decreases |s|
  {
    if s != [] {
      assert s[0..] == s;
      forall i | 0 <= i < |s[1..]|
        ensures !TagAt(s[1..][i..])
      {
        assert s[1..][i..] == s[i + 1..];
      }
      StripOfClean(s[1..]);
      assert s == [s[0]] + s[1..];
    }
  }

  /** Stripping twice is stripping once. */
  lemma StripIdempotent(s: string)
    ensures StripTags(StripTags(s)) == StripTags(s)
  {
    StripLeavesNoTags(s);
    StripOfClean(StripTags(s));
  }

  // ------------------------------------------------------------- the screen

  class SearchScreen {
    var query: string
    var results: seq<SearchResult>
    var loading: bool
    var offset: int
    var totalHits: int

    /** The offset is always the start of a page. */
    predicate Valid()
      reads this
    {
      offset >= 0 && offset % PageSize == 0
    }

    /** `hasNext`: more hits lie beyond this page. */
    function HasNext(): bool
      reads this
    {
      offset + PageSize < totalHits
    }

    /** `hasPrev`: this is not the first page. */
    function HasPrev(): bool
      reads this
    {
      offset > 0
    }

    constructor ()
      ensures Valid() && !HasPrev() && !HasNext()
      ensures query == [] && results == [] && !loading && offset == 0 && totalHits == 0
    {
      query := [];
      results := [];
      loading := false;
      offset := 0;
      totalHits := 0;
    }

    method SetQuery(q: string)
      modifies this
      ensures query == q
      ensures results == old(results) && loading == old(loading)
      ensures offset == old(offset) && totalHits == old(totalHits)
    {
      query := q;
    }

    /**
     * The synchronous part of `fetchResults(newOffset)`: a blank query changes
     * nothing and sends nothing; otherwise the results are cleared, the spinner
     * shows and the offset moves before the request for that offset is sent.
     */
    method FetchResults(newOffset: int) returns (request: Option<int>)
      modifies this
      ensures query == old(query) && totalHits == old(totalHits)
      ensures IsBlank(query) ==>
        request == None && results == old(results) && loading == old(loading) && offset == old(offset)
      ensures !IsBlank(query) ==>
        request == Some(newOffset) && results == [] && loading && offset == newOffset
    {
      if IsBlank(query) {
        return None;
      }
      loading := true;
      results := [];
      offset := newOffset;
      request := Some(newOffset);
    }

    /** The end of `fetchResults`: the page or the single error entry, and the spinner goes. */
    method CompleteFetch(response: Result<SearchPage>)
      modifies this
      ensures !loading && query == old(query) && offset == old(offset)
      ensures response.Ok? ==> results == response.value.hits && totalHits == response.value.totalHits
      ensures response.Err? ==> results == ErrorResults && totalHits == old(totalHits)
    {
      match response {
        case Ok(page) =>
          results := page.hits;
          totalHits := page.totalHits;
        case Err(_) =>
          results := ErrorResults;
      }
      loading := false;
    }

    /** The Search button: a new search starts on the first page. */
    method Search() returns (request: Option<int>)
      requires Valid()
      modifies this
      ensures Valid() && query == old(query)
      ensures request.Some? ==> request.value == 0 && offset == 0 && !HasPrev()
      ensures request.Some? ==> results == [] && loading
      ensures request.None? ==> offset == old(offset) && results == old(results) && loading == old(loading)
      ensures totalHits == old(totalHits)
    {
      request := FetchResults(0);
    }

    /** The Previous button, offered only when there is a previous page. */
    method Previous() returns (request: Option<int>)
      requires Valid() && HasPrev()
      modifies this
      ensures Valid() && query == old(query)
      ensures request.Some? ==> request.value == old(offset) - PageSize && offset == old(offset) - PageSize
      ensures request.Some? ==> results == [] && loading
      ensures request.None? ==> offset == old(offset) && results == old(results) && loading == old(loading)
      ensures totalHits == old(totalHits)
    {
      request := FetchResults(offset - PageSize);
    }

    /** The Next button, offered only when there are more hits. */
    method Next() returns (request: Option<int>)
      requires Valid() && HasNext()
      modifies this
      ensures Valid() && query == old(query)
      ensures request.Some? ==> request.value == old(offset) + PageSize && offset == old(offset) + PageSize
      ensures request.Some? ==> HasPrev() && offset < totalHits
      ensures request.Some? ==> results == [] && loading
      ensures request.None? ==> offset == old(offset) && results == old(results) && loading == old(loading)
      ensures totalHits == old(totalHits)
    {
      request := FetchResults(offset + PageSize);
    }
  }
}
