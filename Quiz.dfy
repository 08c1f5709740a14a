/**
 * The quiz screen: HTML-entity decoding, the answer list built for each
 * fetched question, and the select / next / results walk with its score.
 */
module Quiz {
  import opened Wrappers
  import opened Text
  import opened StableSort

  /** One item of the trivia service's `results` array. */
  datatype RawQuestion = RawQuestion(question: string, correctAnswer: string, incorrectAnswers: seq<string>)

  /** One formatted question as the screen stores it. */
  datatype Question = Question(question: string, correct: string, answers: seq<string>)

  /** Which of the four screens is rendered. */
  datatype View = Loading | Setup | Asking | Results

  // ------------------------------------------------------------- decoding

  /** `s.replace(/pat/g, rep)` for a literal pattern: left to right, non-overlapping. */
  function ReplaceAll(s: string, pat: string, rep: string): (r: string)
    requires pat != []
    ensures |rep| <= |pat| ==> |r| <= |s|
    decreases |s|
  {
    if s == [] then []
    else if IsPrefix(pat, s) then rep + ReplaceAll(s[|pat|..], pat, rep)
    else [s[0]] + ReplaceAll(s[1..], pat, rep)
  }

  /** A pattern whose first character does not occur is never replaced. */
  lemma {:induction false} ReplaceAbsent(s: string, pat: string, rep: string)
    requires pat != [] && pat[0] !in s
    ensures ReplaceAll(s, pat, rep) == s
    decreases |s|
  {
    if s != [] {
      assert !IsPrefix(pat, s);
      ReplaceAbsent(s[1..], pat, rep);
    }
  }

  /** `xs.join(sep)` for a separator string. */
  function JoinOn(xs: seq<string>, sep: string): string {
    if |xs| == 0 then []
    else if |xs| == 1 then xs[0]
    else xs[0] + sep + JoinOn(xs[1..], sep)
  }

  /** Text without the pattern's first character is copied through unchanged. */
  lemma {:induction false} ReplaceSkip(w: string, t: string, pat: string, rep: string)
    requires pat != [] && pat[0] !in w
    ensures ReplaceAll(w + t, pat, rep) == w + ReplaceAll(t, pat, rep)
    decreases |w|
  {
    if w == [] {
      assert w + t == t;
    } else {
      var c := w + t;
      assert c[0] == w[0] && c[1..] == w[1..] + t;
      Mismatch(pat, c, 0);
      ReplaceSkip(w[1..], t, pat, rep);
      assert w == [w[0]] + w[1..];
    }
  }

  /** An occurrence at the front is replaced and the scan resumes after it. */
  lemma ReplaceAtMatch(t: string, pat: string, rep: string)
    requires pat != []
    ensures ReplaceAll(pat + t, pat, rep) == rep + ReplaceAll(t, pat, rep)
  {
    var c := pat + t;
    assert c[..|pat|] == pat && c[|pat|..] == t;
  }

  /**
   * The `g` flag: every occurrence is replaced, not only the first. Text made
   * of pieces free of the pattern's first character, separated by the pattern,
   * comes out as the same pieces separated by the replacement.
   */
  lemma {:induction false} ReplaceEveryOccurrence(xs: seq<string>, pat: string, rep: string)
    requires pat != []
    requires forall i :: 0 <= i < |xs| ==> pat[0] !in xs[i]
    ensures ReplaceAll(JoinOn(xs, pat), pat, rep) == JoinOn(xs, rep)
  {
    if |xs| == 1 {
      ReplaceAbsent(xs[0], pat, rep);
    } else if |xs| > 1 {
      var rest := JoinOn(xs[1..], pat);
      assert JoinOn(xs, pat) == xs[0] + (pat + rest);
      ReplaceSkip(xs[0], pat + rest, pat, rep);
      ReplaceAtMatch(rest, pat, rep);
      ReplaceEveryOccurrence(xs[1..], pat, rep);
    }
  }

  /** `decodeHTMLEntities`: the four replacements, in this order. */
  function Decode(s: string): (r: string)
    ensures |r| <= |s|
  {
    var a := ReplaceAll(s, "&quot;", "\"");
    var b := ReplaceAll(a, "&#039;", "'");
    var c := ReplaceAll(b, "&amp;", "&");
    ReplaceAll(c, "&rsquo;", "\U{2019}")
  }

  /** A string without '&' is left unchanged. */
  lemma DecodeWithoutAmpersand(s: string)
    requires '&' !in s
    ensures Decode(s) == s
  {
    ReplaceAbsent(s, "&quot;", "\"");
    ReplaceAbsent(s, "&#039;", "'");
    ReplaceAbsent(s, "&amp;", "&");
    ReplaceAbsent(s, "&rsquo;", "\U{2019}");
  }

  /** One scan step with no match at the front and no other candidate position. */
  lemma ReplaceNoMatch(s: string, pat: string, rep: string)
    requires pat != [] && s != [] && !IsPrefix(pat, s) && pat[0] !in s[1..]
    ensures ReplaceAll(s, pat, rep) == s
  {
    ReplaceAbsent(s[1..], pat, rep);
    assert s == [s[0]] + s[1..];
  }

  /** One scan step with a match at the front and no other candidate position. */
  lemma ReplaceSingleMatch(s: string, pat: string, rep: string)
    requires pat != [] && IsPrefix(pat, s) && pat[0] !in s[|pat|..]
    ensures ReplaceAll(s, pat, rep) == rep + s[|pat|..]
  {
    ReplaceAbsent(s[|pat|..], pat, rep);
  }

  /** A character mismatch inside the pattern rules the prefix out. */
  lemma Mismatch(pat: string, s: string, i: nat)
    requires i < |pat| && i < |s| && pat[i] != s[i]
    ensures !IsPrefix(pat, s)
  {
  }

  /** A string that is exactly the pattern becomes the replacement. */
  lemma ReplaceWhole(pat: string, rep: string)
    requires pat != []
    ensures ReplaceAll(pat, pat, rep) == rep
  {
    assert IsPrefix(pat, pat) && pat[|pat|..] == [];
  }

  /** The first two stages leave an `&amp;` entity followed by `tail` alone. */
  lemma AmpSurvivesFirstStages(s: string, tail: string)
    requires s == "&amp;" + tail && '&' !in tail
    ensures ReplaceAll(s, "&quot;", "\"") == s
    ensures ReplaceAll(s, "&#039;", "'") == s
  {
    assert s == ['&'] + ("amp;" + tail);
    assert '&' !in "amp;" + tail;
    Mismatch("&quot;", s, 1);
    ReplaceNoMatch(s, "&quot;", "\"");
    Mismatch("&#039;", s, 1);
    ReplaceNoMatch(s, "&#039;", "'");
  }

  /** The third stage turns a leading `&amp;` into `&`. */
  lemma AmpStage(s: string, tail: string)
    requires s == "&amp;" + tail && '&' !in tail
    ensures ReplaceAll(s, "&amp;", "&") == "&" + tail
  {
    assert IsPrefix("&amp;", s) && s[5..] == tail;
    ReplaceSingleMatch(s, "&amp;", "&");
  }

  /** Decoding, stage by stage. */
  lemma DecodeStages(s: string, a: string, b: string, c: string, d: string)
    requires a == ReplaceAll(s, "&quot;", "\"") && b == ReplaceAll(a, "&#039;", "'")
    requires c == ReplaceAll(b, "&amp;", "&") && d == ReplaceAll(c, "&rsquo;", "\U{2019}")
    ensures Decode(s) == d
  {
  }

  /**
   * A doubly escaped entity `&amp;` + `tail` comes out of the third stage as
   * `&` + `tail`, so only the last stage can still change it.
   */
  lemma DecodeDoubleEscaped(s: string, tail: string)
    requires s == "&amp;" + tail && '&' !in tail
    ensures Decode(s) == ReplaceAll("&" + tail, "&rsquo;", "\U{2019}")
  {
    AmpSurvivesFirstStages(s, tail);
    AmpStage(s, tail);
    DecodeStages(s, s, s, "&" + tail, ReplaceAll("&" + tail, "&rsquo;", "\U{2019}"));
  }

  /** `&amp;` is decoded after `&quot;`, so `&amp;quot;` stops at `&quot;`. */
  lemma DecodeAmpQuot(s: string)
    requires s == "&amp;quot;"
    ensures Decode(s) == "&quot;"
  {
    var tail: string := "quot;";
    DecodeDoubleEscaped(s, tail);
    var t := "&" + tail;
    assert t == ['&'] + tail;
    Mismatch("&rsquo;", t, 1);
    ReplaceNoMatch(t, "&rsquo;", "\U{2019}");
  }

  /** `&rsquo;` is decoded after `&amp;`, so `&amp;rsquo;` goes all the way to the quote mark. */
  lemma DecodeAmpRsquo(s: string)
    requires s == "&amp;rsquo;"
    ensures Decode(s) == "\U{2019}"
  {
    var tail: string := "rsquo;";
    DecodeDoubleEscaped(s, tail);
    ReplaceWhole("&" + tail, "\U{2019}");
  }

  /** Pieces and separator free of `c` join to a string free of `c`. */
  lemma {:induction false} JoinOnAvoids(xs: seq<string>, sep: string, c: char)
    requires c !in sep && forall i :: 0 <= i < |xs| ==> c !in xs[i]
    ensures c !in JoinOn(xs, sep)
  {
    if |xs| > 1 {
      JoinOnAvoids(xs[1..], sep, c);
    }
  }

  /**
   * A separator that starts like the pattern but differs from it in its second
   * character is not an occurrence: text made of pieces free of the pattern's
   * first character, separated by it, is copied through unchanged.
   */
  lemma {:induction false} ReplaceOtherEntity(xs: seq<string>, sep: string, pat: string, rep: string)
    requires |pat| > 1 && |sep| > 1 && sep[0] == pat[0] && sep[1] != pat[1] && pat[0] !in sep[1..]
    requires forall i :: 0 <= i < |xs| ==> pat[0] !in xs[i]
    ensures ReplaceAll(JoinOn(xs, sep), pat, rep) == JoinOn(xs, sep)
  {
    if |xs| == 1 {
      ReplaceAbsent(xs[0], pat, rep);
    } else if |xs| > 1 {
      var rest := JoinOn(xs[1..], sep);
      var u := sep + rest;
      assert JoinOn(xs, sep) == xs[0] + u;
      ReplaceSkip(xs[0], u, pat, rep);
      Mismatch(pat, u, 1);
      assert u[1..] == sep[1..] + rest;
      ReplaceSkip(sep[1..], rest, pat, rep);
      ReplaceOtherEntity(xs[1..], sep, pat, rep);
      assert u == [u[0]] + u[1..];
    }
  }

  /** The stages after the first leave a string without '&' alone. */
  lemma LaterStagesKeep(t: string)
    requires '&' !in t
    ensures ReplaceAll(t, "&#039;", "'") == t
    ensures ReplaceAll(t, "&amp;", "&") == t
    ensures ReplaceAll(t, "&rsquo;", "\U{2019}") == t
  {
    ReplaceAbsent(t, "&#039;", "'");
    ReplaceAbsent(t, "&amp;", "&");
    ReplaceAbsent(t, "&rsquo;", "\U{2019}");
  }

  /** `&quot;` between pieces without '&' becomes `"`. */
  lemma DecodeQuot(xs: seq<string>)
    requires forall i :: 0 <= i < |xs| ==> '&' !in xs[i]
    ensures Decode(JoinOn(xs, "&quot;")) == JoinOn(xs, "\"")
  {
    var a := JoinOn(xs, "\"");
    ReplaceEveryOccurrence(xs, "&quot;", "\"");
    JoinOnAvoids(xs, "\"", '&');
    LaterStagesKeep(a);
    DecodeStages(JoinOn(xs, "&quot;"), a, a, a, a);
  }

  /** The first stage leaves `&#039;` entities alone. */
  lemma QuotStageKeepsApos(xs: seq<string>)
    requires forall i :: 0 <= i < |xs| ==> '&' !in xs[i]
    ensures ReplaceAll(JoinOn(xs, "&#039;"), "&quot;", "\"") == JoinOn(xs, "&#039;")
  {
    ReplaceOtherEntity(xs, "&#039;", "&quot;", "\"");
  }

  /** `&#039;` between pieces without '&' becomes `'`. */
  lemma DecodeApos(xs: seq<string>)
    requires forall i :: 0 <= i < |xs| ==> '&' !in xs[i]
    ensures Decode(JoinOn(xs, "&#039;")) == JoinOn(xs, "'")
  {
    var s := JoinOn(xs, "&#039;");
    var b := JoinOn(xs, "'");
    QuotStageKeepsApos(xs);
    ReplaceEveryOccurrence(xs, "&#039;", "'");
    JoinOnAvoids(xs, "'", '&');
    LaterStagesKeep(b);
    DecodeStages(s, s, b, b, b);
  }

  /** The first three stages leave `&rsquo;` entities alone. */
  lemma EarlyStagesKeepRsquo(xs: seq<string>)
    requires forall i :: 0 <= i < |xs| ==> '&' !in xs[i]
    ensures ReplaceAll(JoinOn(xs, "&rsquo;"), "&quot;", "\"") == JoinOn(xs, "&rsquo;")
    ensures ReplaceAll(JoinOn(xs, "&rsquo;"), "&#039;", "'") == JoinOn(xs, "&rsquo;")
    ensures ReplaceAll(JoinOn(xs, "&rsquo;"), "&amp;", "&") == JoinOn(xs, "&rsquo;")
  {
    RsquoSurvivesStage(xs, "&quot;", "\"");
    RsquoSurvivesStage(xs, "&#039;", "'");
    RsquoSurvivesStage(xs, "&amp;", "&");
  }

  /** A stage whose entity is not `&rsquo;` leaves `&rsquo;` entities alone. */
  lemma RsquoSurvivesStage(xs: seq<string>, pat: string, rep: string)
    requires forall i :: 0 <= i < |xs| ==> '&' !in xs[i]
    requires |pat| > 1 && pat[0] == '&' && pat[1] != 'r'
    ensures ReplaceAll(JoinOn(xs, "&rsquo;"), pat, rep) == JoinOn(xs, "&rsquo;")
  {
    ReplaceOtherEntity(xs, "&rsquo;", pat, rep);
  }

  /** `&rsquo;` between pieces without '&' becomes the right single quotation mark. */
  lemma DecodeRsquo(xs: seq<string>)
    requires forall i :: 0 <= i < |xs| ==> '&' !in xs[i]
    ensures Decode(JoinOn(xs, "&rsquo;")) == JoinOn(xs, "\U{2019}")
  {
    var s := JoinOn(xs, "&rsquo;");
    EarlyStagesKeepRsquo(xs);
    ReplaceEveryOccurrence(xs, "&rsquo;", "\U{2019}");
    DecodeStages(s, s, s, s, JoinOn(xs, "\U{2019}"));
  }

  /** A pattern holding a character that the text lacks never matches. */
  lemma {:induction false} ReplaceWithoutPart(t: string, pat: string, rep: string, c: char)
    requires pat != [] && c in pat && c !in t
    ensures ReplaceAll(t, pat, rep) == t
    decreases |t|
  {
    if t != [] {
      var i :| 0 <= i < |pat| && pat[i] == c;
      if i < |t| {
        Mismatch(pat, t, i);
      }
      ReplaceWithoutPart(t[1..], pat, rep, c);
      assert t == [t[0]] + t[1..];
    }
  }

  /** A stage whose entity is not `&amp;` leaves `&amp;` entities alone. */
  lemma AmpSurvivesStage(xs: seq<string>, pat: string, rep: string)
    requires forall i :: 0 <= i < |xs| ==> '&' !in xs[i]
    requires |pat| > 1 && pat[0] == '&' && pat[1] != 'a'
    ensures ReplaceAll(JoinOn(xs, "&amp;"), pat, rep) == JoinOn(xs, "&amp;")
  {
    ReplaceOtherEntity(xs, "&amp;", pat, rep);
  }

  /** The last stage needs a ';', so it leaves text without one alone. */
  lemma RsquoStageNeedsSemicolon(t: string)
    requires ';' !in t
    ensures ReplaceAll(t, "&rsquo;", "\U{2019}") == t
  {
    ReplaceWithoutPart(t, "&rsquo;", "\U{2019}", ';');
  }

  /**
   * `&amp;` between pieces without '&' or ';' becomes `&` at every occurrence,
   * as "Tom &amp; Jerry" shows "Tom & Jerry". (With a ';' in a piece, the `&`
   * produced here could start an `&rsquo;` for the last stage, as `DecodeAmpRsquo` shows.)
   */
  lemma DecodeAmp(xs: seq<string>)
    requires forall i :: 0 <= i < |xs| ==> '&' !in xs[i] && ';' !in xs[i]
    ensures Decode(JoinOn(xs, "&amp;")) == JoinOn(xs, "&")
  {
    var s := JoinOn(xs, "&amp;");
    var c := JoinOn(xs, "&");
    AmpSurvivesStage(xs, "&quot;", "\"");
    AmpSurvivesStage(xs, "&#039;", "'");
    ReplaceEveryOccurrence(xs, "&amp;", "&");
    JoinOnAvoids(xs, "&", ';');
    RsquoStageNeedsSemicolon(c);
    DecodeStages(s, s, s, c, c);
  }

  // ------------------------------------------------------------- formatting

  /** Every answer of the list, decoded. */
  function DecodeAll(xs: seq<string>): (r: seq<string>)
    ensures |r| == |xs| && forall i :: 0 <= i < |xs| ==> r[i] == Decode(xs[i])
  {
    Map(xs, Decode)
  }

  /** The candidate answers of a raw question: the correct one first, then the others. */
  function Candidates(raw: RawQuestion): seq<string> {
    [raw.correctAnswer] + raw.incorrectAnswers
  }

  /**
   * The shuffle: the source sorts with a comparator that answers at random, which
   * leaves the answers in some order the model cannot predict. Here that order is
   * the parameter `swaps`, a list of index pairs applied one after the other
   * (each index is taken modulo the length).
   */
  method Shuffle(a: array<string>, swaps: seq<(nat, nat)>)
    modifies a
    ensures multiset(a[..]) == multiset(old(a[..]))
  {
    if a.Length == 0 {
      return;
    }
    var k := 0;
    while k < |swaps|
      invariant 0 <= k <= |swaps|
      invariant multiset(a[..]) == multiset(old(a[..]))
    {
      var i := swaps[k].0 % a.Length;
      var j := swaps[k].1 % a.Length;
      a[i], a[j] := a[j], a[i];
      k := k + 1;
    }
  }

  /**
   * What a formatted question must be: its text decoded, its correct answer decoded,
   * and its answers some order of the decoded candidates.
   */
  predicate FormattedFrom(raw: RawQuestion, q: Question) {
    && q.question == Decode(raw.question)
    && q.correct == Decode(raw.correctAnswer)
    && multiset(q.answers) == multiset(DecodeAll(Candidates(raw)))
  }

  /** The formatting step of `fetchQuestions` exactly as written: `correct` is not decoded. */
  predicate FormattedAsWritten(raw: RawQuestion, q: Question) {
    && q.question == Decode(raw.question)
    && q.correct == raw.correctAnswer
    && multiset(q.answers) == multiset(DecodeAll(Candidates(raw)))
  }

  /** Builds the decoded candidate list in a fresh array and shuffles it. */
  method ShuffledAnswers(raw: RawQuestion, swaps: seq<(nat, nat)>) returns (answers: seq<string>)
    ensures multiset(answers) == multiset(DecodeAll(Candidates(raw)))
  {
    var decoded := DecodeAll(Candidates(raw));
    var a := new string[|decoded|](i requires 0 <= i < |decoded| => decoded[i]);
    assert a[..] == decoded;
    Shuffle(a, swaps);
    answers := a[..];
  }

  /** One element of the `map` in `fetchQuestions`, as written. */
  method FormatQuestionAsWritten(raw: RawQuestion, swaps: seq<(nat, nat)>) returns (q: Question)
    ensures FormattedAsWritten(raw, q)
  {
    var answers := ShuffledAnswers(raw, swaps);
    q := Question(Decode(raw.question), raw.correctAnswer, answers);
  }

  /** One element of the `map` in `fetchQuestions`, with the correct answer decoded like the answers. */
  method FormatQuestion(raw: RawQuestion, swaps: seq<(nat, nat)>) returns (q: Question)
    ensures FormattedFrom(raw, q)
    ensures |q.answers| == |raw.incorrectAnswers| + 1
    ensures q.correct in q.answers
  {
    var answers := ShuffledAnswers(raw, swaps);
    q := Question(Decode(raw.question), Decode(raw.correctAnswer), answers);
    CorrectIsOffered(raw, q);
  }

  /** A properly formatted question always offers its correct answer, among one more answer than the wrong ones. */
  lemma CorrectIsOffered(raw: RawQuestion, q: Question)
    requires FormattedFrom(raw, q)
    ensures q.correct in q.answers
    ensures |q.answers| == |raw.incorrectAnswers| + 1
  {
    var d := DecodeAll(Candidates(raw));
    assert d[0] == q.correct;
    assert q.correct in multiset(d);
    assert |q.answers| == |multiset(q.answers)| == |multiset(d)| == |d|;
  }

  /** As written, the correct answer is still offered whenever decoding leaves it unchanged. */
  lemma AsWrittenOffersPlainCorrect(raw: RawQuestion, q: Question)
    requires FormattedAsWritten(raw, q) && Decode(raw.correctAnswer) == raw.correctAnswer
    ensures q.correct in q.answers
  {
    CorrectIsOffered(raw, q);
  }

  /**
   * As written, the stored correct answer is among the offered ones exactly when
   * decoding leaves it unchanged or it equals one of the decoded wrong answers.
   */
  lemma AsWrittenOffersCorrectIff(raw: RawQuestion, q: Question)
    requires FormattedAsWritten(raw, q)
    ensures q.correct in q.answers <==>
      Decode(raw.correctAnswer) == raw.correctAnswer || raw.correctAnswer in DecodeAll(raw.incorrectAnswers)
  {
    var d := DecodeAll(Candidates(raw));
    assert d == [Decode(raw.correctAnswer)] + DecodeAll(raw.incorrectAnswers);
    assert q.correct in q.answers <==> q.correct in multiset(q.answers);
    assert q.correct in d <==> q.correct in multiset(d);
  }

  /**
   * A correct answer holding a doubly escaped entity, next to wrong answers with no
   * entity at all (the usual three, or any number): the correct answer is offered
   * only in decoded form, so no offered answer equals `correct` and selecting it
   * never scores.
   */
  lemma AsWrittenLosesCorrectAnswer(raw: RawQuestion, q: Question)
    requires raw.correctAnswer == "&amp;quot;"
    requires forall i :: 0 <= i < |raw.incorrectAnswers| ==> '&' !in raw.incorrectAnswers[i]
    requires FormattedAsWritten(raw, q)
    ensures q.correct !in q.answers
  {
    var c := raw.correctAnswer;
    DecodeAmpQuot(c);
    assert c[0] == '&';
    var w := raw.incorrectAnswers;
    forall i | 0 <= i < |w| ensures DecodeAll(w)[i] == w[i] {
      DecodeWithoutAmpersand(w[i]);
    }
    assert c !in DecodeAll(w);
    AsWrittenOffersCorrectIff(raw, q);
  }

  /** The whole `map` of `fetchQuestions`; `shuffles[k]` stands for the random order of question k. */
  method FormatAll(raws: seq<RawQuestion>, shuffles: seq<seq<(nat, nat)>>) returns (formatted: seq<Question>)
    ensures |formatted| == |raws|
    ensures forall k :: 0 <= k < |raws| ==>
      FormattedFrom(raws[k], formatted[k]) && formatted[k].correct in formatted[k].answers
  {
    formatted := [];
    var k := 0;
    while k < |raws|
      invariant 0 <= k <= |raws| && |formatted| == k
      invariant forall m :: 0 <= m < k ==>
        FormattedFrom(raws[m], formatted[m]) && formatted[m].correct in formatted[m].answers
    {
      var q := FormatQuestion(raws[k], if k < |shuffles| then shuffles[k] else []);
      formatted := formatted + [q];
      k := k + 1;
    }
  }

  // ------------------------------------------------------------- the screen

  /** How many of the picks match the correct answer of the question they were made on. */
  function CorrectPicks(questions: seq<Question>, picks: seq<string>): (n: nat)
    requires |picks| <= |questions|
    ensures n <= |picks|
    ensures n == |picks| <==> forall i :: 0 <= i < |picks| ==> picks[i] == questions[i].correct
    decreases |picks|
  {
    if picks == [] then 0
    else
      var last := |picks| - 1;
      CorrectPicks(questions, picks[..last]) + (if picks[last] == questions[last].correct then 1 else 0)
  }

  class QuizScreen {
    var questions: seq<Question>
    var current: nat
    var selected: Option<string>
    var loading: bool
    var showAnswer: bool
    var score: nat
    /** The answer chosen on each question so far (not part of the screen state). */
    ghost var picks: seq<string>

    /** Questions answered so far, counting the one whose answer is being shown. */
    function Answered(): nat
      reads this
    {
      current + (if showAnswer then 1 else 0)
    }

    /**
     * The state the handlers keep: a fetch in progress has cleared everything,
     * the answer is shown exactly when one is selected, the position stays
     * within the questions, and the score counts the correct picks.
     */
    ghost predicate Valid()
      reads this
    {
      && (loading ==> questions == [] && current == 0 && !showAnswer && score == 0)
      && (showAnswer <==> selected.Some?)
      && (showAnswer ==> current < |questions|)
      && current <= |questions|
      && |picks| == Answered()
      && score == CorrectPicks(questions, picks)
      && (showAnswer ==> selected.value == picks[current])
    }

    /** The screen rendered for the current state, in the order the source tests it. */
    function Screen(): (v: View)
      reads this
      ensures v == Results <==> !loading && questions != [] && current >= |questions|
      ensures v == Asking ==> current < |questions|
    {
      if loading then Loading
      else if |questions| == 0 then Setup
      else if current >= |questions| then Results
      else Asking
    }

    /** The score line of the results screen: never more than the number of questions, and full
        exactly when every question was answered with its correct answer. */
    function ScoreLine(): (r: (nat, nat))
      reads this
      requires Valid()
      ensures r.0 <= r.1 && r.1 == |questions|
      ensures Screen() == Results ==>
        (r.0 == r.1 <==> forall i :: 0 <= i < |questions| ==> picks[i] == questions[i].correct)
    {
      (score, |questions|)
    }

    constructor ()
      ensures Valid() && Screen() == Setup
      ensures score == 0 && current == 0 && questions == []
    {
      questions := [];
      current := 0;
      selected := None;
      loading := false;
      showAnswer := false;
      score := 0;
      picks := [];
    }

    /** The synchronous start of `fetchQuestions`: everything is reset and the spinner shows. */
    method BeginFetch()
      modifies this
      ensures Valid() && Screen() == Loading
      ensures questions == [] && current == 0 && score == 0 && selected == None && !showAnswer
    {
      loading := true;
      questions := [];
      score := 0;
      current := 0;
      selected := None;
      showAnswer := false;
      picks := [];
    }

    /**
     * The end of `fetchQuestions`: on a response every raw question is formatted
     * (see `FormatAll`); on a failure the
     * list stays empty. Either way the spinner goes.
     */
    method CompleteFetch(response: Result<seq<RawQuestion>>, shuffles: seq<seq<(nat, nat)>>)
      requires Valid() && loading
      modifies this
      ensures Valid() && !loading
      ensures current == 0 && score == 0 && !showAnswer
      ensures response.Err? ==> questions == [] && Screen() == Setup
      ensures response.Ok? ==> |questions| == |response.value|
      ensures response.Ok? ==> forall k :: 0 <= k < |questions| ==>
        FormattedFrom(response.value[k], questions[k]) && questions[k].correct in questions[k].answers
    {
      if response.Ok? {
        questions := FormatAll(response.value, shuffles);
      }
      loading := false;
    }

    /** `handleSelect`: the pick is shown and scores exactly when it is the correct answer. */
    method HandleSelect(answer: string)
      requires Valid() && Screen() == Asking && !showAnswer
      modifies this
      ensures Valid() && Screen() == Asking && showAnswer
      ensures selected == Some(answer)
      ensures score == old(score) + (if answer == questions[current].correct then 1 else 0)
      ensures questions == old(questions) && current == old(current) && loading == old(loading)
    {
      selected := Some(answer);
      showAnswer := true;
      picks := picks + [answer];
      assert picks[..|picks| - 1] == old(picks);
      if answer == questions[current].correct {
        score := score + 1;
      }
    }

    /** `handleNext`: on to the next question, which may be the results. */
    method HandleNext()
      requires Valid() && showAnswer
      modifies this
      ensures Valid() && !showAnswer && selected == None
      ensures current == old(current) + 1
      ensures score == old(score) && questions == old(questions) && loading == old(loading)
      ensures Screen() == Results <==> current == |questions|
    {
      current := current + 1;
      selected := None;
      showAnswer := false;
    }
  }
}
