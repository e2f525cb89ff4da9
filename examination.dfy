/**
 * The evaluation verdict parser of the examination page: a language-model
 * evaluation marks its verdict between two asterisks, and the page shows the
 * starred text apart from the rest of the evaluation.
 */
module Examination {
  import opened Wrappers

  /** What the page shows for one evaluation. */
  datatype Verdict = Verdict(result: string, fullEvaluation: string)

  /**
   * The characters `String.prototype.trim` removes: ECMAScript WhiteSpace
   * (tab, vertical tab, form feed, space, no-break space, zero-width no-break
   * space and the space separators) and LineTerminator (LF, CR, LS, PS).
   */
  predicate IsWhitespace(c: char)
  {
    || c == '\t' || c == '\n' || c == '\U{000B}' || c == '\U{000C}' || c == '\r'
    || c == ' ' || c == '\U{00A0}' || c == '\U{1680}'
    || ('\U{2000}' <= c <= '\U{200A}')
    || c == '\U{2028}' || c == '\U{2029}' || c == '\U{202F}' || c == '\U{205F}'
    || c == '\U{3000}' || c == '\U{FEFF}'
  }

  /** Every character of `s` in positions `lo` up to (excluding) `hi` is whitespace. */
  predicate WhitespaceBetween(s: string, lo: int, hi: int)
  {
    forall k :: lo <= k < hi && 0 <= k < |s| ==> IsWhitespace(s[k])
  }

  /** Drops leading whitespace: the result is the suffix that starts at the first non-whitespace character. */
  function TrimStart(s: string): string
  {
    if s != [] && IsWhitespace(s[0]) then TrimStart(s[1..]) else s
  }

  /** Leading trim keeps a suffix, removes only whitespace, and stops at a non-whitespace character. */
  lemma {:induction false} TrimStartIsSuffix(s: string)
    ensures var r := TrimStart(s);
      && |r| <= |s| && r == s[|s| - |r|..]
      && WhitespaceBetween(s, 0, |s| - |r|)
      && (r == [] || !IsWhitespace(r[0]))
  {
    if s != [] && IsWhitespace(s[0]) {
      TrimStartIsSuffix(s[1..]);
    }
  }

  /** Drops trailing whitespace: the result is the prefix that ends at the last non-whitespace character. */
  function TrimEnd(s: string): string
  {
    if s != [] && IsWhitespace(s[|s| - 1]) then TrimEnd(s[..|s| - 1]) else s
  }

  /** Trailing trim keeps a prefix, removes only whitespace, and stops at a non-whitespace character. */
  lemma {:induction false} TrimEndIsPrefix(s: string)
    ensures var r := TrimEnd(s);
      && |r| <= |s| && r == s[..|r|]
      && WhitespaceBetween(s, |r|, |s|)
      && (r == [] || !IsWhitespace(r[|r| - 1]))
  {
    if s != [] && IsWhitespace(s[|s| - 1]) {
      TrimEndIsPrefix(s[..|s| - 1]);
    }
  }

  /** `String.prototype.trim`. */
  function Trim(s: string): (r: string)
  {
    TrimEnd(TrimStart(s))
  }

  /**
   * `s[i..j]` is the core of `s`: everything outside it is whitespace, and it
   * neither starts nor ends with whitespace.
   */
  predicate IsCore(s: string, i: int, j: int)
  {
    && 0 <= i <= j <= |s|
    && WhitespaceBetween(s, 0, i) && WhitespaceBetween(s, j, |s|)
    && (i < j ==> !IsWhitespace(s[i]) && !IsWhitespace(s[j - 1]))
  }

  /** Trim returns the core of its input, as a slice of it. */
  lemma TrimIsCore(s: string) returns (i: nat, j: nat)
    ensures IsCore(s, i, j) && Trim(s) == s[i..j]
  {
    var u := TrimStart(s);
    var t := TrimEnd(u);
    TrimStartIsSuffix(s);
    TrimEndIsPrefix(u);
    i := |s| - |u|;
    j := i + |t|;
    assert s[i..j] == t;
    forall k | j <= k < |s| ensures IsWhitespace(s[k]) {
      assert s[k] == u[k - i];
    }
  }

  /** A string has only one core (an empty core counts once, whatever its position). */
  lemma CoreUnique(s: string, i: int, j: int, i': int, j': int)
    requires IsCore(s, i, j) && IsCore(s, i', j')
    ensures s[i..j] == s[i'..j']
  {
    if i < j && i' < j' {
      assert s[i] == s[i'] by {
        if i < i' || i' < i { assert false; }
      }
    }
  }

  /** Trim is determined by the core: any whitespace/core/whitespace split gives its result. */
  lemma TrimUnique(s: string, i: int, j: int)
    requires IsCore(s, i, j)
    ensures Trim(s) == s[i..j]
  {
    var i', j' := TrimIsCore(s);
    CoreUnique(s, i, j, i', j');
  }

  /** Number of asterisks in `s`. */
  function Stars(s: string): nat
  {
    multiset(s)['*']
  }

  /** The position of the first `*` at or after `from`, if there is one. */
  function FindStar(s: string, from: nat): (r: Option<nat>)
    requires from <= |s|
    ensures r.Some? ==> from <= r.value < |s| && s[r.value] == '*'
    ensures forall k :: from <= k < |s| && (r.None? || k < r.value) ==> s[k] != '*'
    decreases |s| - from
  {
    if from == |s| then None
    else if s[from] == '*' then Some(from)
    else FindStar(s, from + 1)
  }

  /**
   * `e[open]` is the first `*` of `e` and `e[close]` the next `*` after it:
   * the lazy starred pattern of the source matches here.
   */
  predicate IsFirstSegment(e: string, open: int, close: int)
  {
    && 0 <= open < close < |e|
    && e[open] == '*' && e[close] == '*'
    && forall k :: 0 <= k < close && k != open ==> e[k] != '*'
  }

  /**
   * `extractEvaluationResult`: the trimmed text inside the first starred
   * segment, and the evaluation with that segment (stars included) cut out and
   * trimmed; without such a segment, an empty result and the evaluation as it is.
   */
  function ExtractEvaluationResult(evaluation: string): (v: Verdict)
  {
    match FindStar(evaluation, 0)
    case None => Verdict("", evaluation)
    case Some(open) =>
      match FindStar(evaluation, open + 1)
      case None => Verdict("", evaluation)
      case Some(close) => SegmentVerdict(evaluation, open, close)
  }

  /** The verdict for the starred segment `e[open..close + 1]`. */
  function SegmentVerdict(e: string, open: nat, close: nat): Verdict
    requires open < close < |e|
  {
    Verdict(Trim(e[open + 1..close]), Trim(e[..open] + e[close + 1..]))
  }

  /** On the first starred segment, the result is its trimmed inside and the rest is what surrounds it, trimmed. */
  lemma ExtractFirstSegment(e: string, open: int, close: int)
    requires IsFirstSegment(e, open, close)
    ensures ExtractEvaluationResult(e) == Verdict(Trim(e[open + 1..close]), Trim(e[..open] + e[close + 1..]))
  {
    FirstSegmentSearches(e, open, close);
    ExtractAt(e, open, close);
  }

  /** Both searches of the extraction stop at the first starred segment. */
  lemma FirstSegmentSearches(e: string, open: int, close: int)
    requires IsFirstSegment(e, open, close)
    ensures FindStar(e, 0) == Some(open) && FindStar(e, open + 1) == Some(close)
  {
    FindStarAt(e, 0, open);
    FindStarAt(e, open + 1, close);
  }

  /** Once both searches are known, the verdict is read off the two positions. */
  lemma ExtractAt(e: string, open: nat, close: nat)
    requires open < close < |e|
    requires FindStar(e, 0) == Some(open) && FindStar(e, open + 1) == Some(close)
    ensures ExtractEvaluationResult(e) == SegmentVerdict(e, open, close)
  {
  }

  /** The search from `from` stops at the first star at or after it. */
  lemma FindStarAt(s: string, from: nat, at: nat)
    requires from <= at < |s| && s[at] == '*'
    requires forall k :: from <= k < at ==> s[k] != '*'
    ensures FindStar(s, from) == Some(at)
  {
  }

  /** With fewer than two stars nothing matches: the result is empty and the evaluation comes back untrimmed. */
  lemma ExtractFewerThanTwoStars(e: string)
    requires Stars(e) < 2
    ensures ExtractEvaluationResult(e) == Verdict("", e)
  {
    assert e == e[..|e|];
    match FindStar(e, 0)
    case None =>
    case Some(open) =>
      match FindStar(e, open + 1)
      case None =>
      case Some(close) =>
        FirstSegmentNeedsTwoStars(e, open, close);
  }

  /** With two or more stars the first starred segment exists (FirstSegmentNeedsTwoStars is the converse). */
  lemma FirstSegmentExists(e: string) returns (open: nat, close: nat)
    requires Stars(e) >= 2
    ensures IsFirstSegment(e, open, close)
  {
    assert e == e[..|e|];
    var first := FindStar(e, 0);
    if first.None? {
      assert false;
    }
    open := first.value;
    var next := FindStar(e, open + 1);
    if next.None? {
      OnlyStar(e, open);
      assert false;
    }
    close := next.value;
  }

  /** A single star and no other leaves a star count of one. */
  lemma OnlyStar(e: string, at: int)
    requires 0 <= at < |e| && e[at] == '*'
    requires forall k :: 0 <= k < |e| && k != at ==> e[k] != '*'
    ensures Stars(e) == 1
  {
    assert e == e[..at] + [e[at]] + e[at + 1..];
    assert '*' !in e[..at];
    var rest := e[at + 1..];
    assert '*' !in rest by {
      forall k | 0 <= k < |rest| ensures rest[k] != '*' {
        assert rest[k] == e[at + 1 + k];
      }
    }
  }

  /** A starred segment exists only when the evaluation has at least two stars. */
  lemma FirstSegmentNeedsTwoStars(e: string, open: int, close: int)
    requires IsFirstSegment(e, open, close)
    ensures Stars(e) >= 2
  {
    var segment := e[open..close + 1];
    assert segment == [e[open]] + e[open + 1..close] + [e[close]];
    assert e == e[..open] + segment + e[close + 1..];
  }

  /**
   * The reference semantics of `String.prototype.match` with the non-global
   * regular expression "a star, any characters taken lazily, a star": a match
   * spans `e[start..end]`, which begins and ends with a star.
   */
  predicate RegexMatchAt(e: string, start: int, end: int)
  {
    0 <= start && start + 2 <= end <= |e| && e[start] == '*' && e[end - 1] == '*'
  }

  /** The match JavaScript reports: the leftmost start, then the shortest (lazy) end there. */
  ghost predicate IsReportedMatch(e: string, start: int, end: int)
  {
    && RegexMatchAt(e, start, end)
    && (forall s', e' :: s' < start && RegexMatchAt(e, s', e') ==> false)
    && (forall e' :: e' < end && RegexMatchAt(e, start, e') ==> false)
  }

  /** The leftmost lazy match is exactly the first star followed by the next star. */
  lemma ReportedMatchIsFirstSegment(e: string, start: int, end: int)
    ensures IsReportedMatch(e, start, end) <==> IsFirstSegment(e, start, end - 1)
  {
    if IsReportedMatch(e, start, end) {
      forall k | 0 <= k < end - 1 && k != start ensures e[k] != '*' {
        if e[k] == '*' {
          if k < start {
            assert RegexMatchAt(e, k, end);
          } else {
            assert RegexMatchAt(e, start, k + 1);
          }
        }
      }
    }
    if IsFirstSegment(e, start, end - 1) {
    }
  }

  /** The regular expression matches exactly when the evaluation holds two or more stars. */
  lemma {:induction false} MatchIffTwoStars(e: string)
    ensures (exists start, end :: IsReportedMatch(e, start, end)) <==> Stars(e) >= 2
  {
    if Stars(e) >= 2 {
      var open, close := FirstSegmentExists(e);
      ReportedMatchIsFirstSegment(e, open, close + 1);
      assert IsReportedMatch(e, open, close + 1);
    }
    if exists start, end :: IsReportedMatch(e, start, end) {
      var start, end :| IsReportedMatch(e, start, end);
      ReportedMatchIsFirstSegment(e, start, end);
      FirstSegmentNeedsTwoStars(e, start, end - 1);
    }
  }

  /** Without a match, the result is empty and the evaluation is returned untrimmed. */
  lemma NoMatchKeepsEvaluation(e: string)
    requires forall start, end :: !IsReportedMatch(e, start, end)
    ensures ExtractEvaluationResult(e) == Verdict("", e)
  {
    MatchIffTwoStars(e);
    ExtractFewerThanTwoStars(e);
  }

  /** The result is the trimmed text between the reported match's two stars. */
  lemma ResultIsStarredText(e: string, start: int, end: int)
    requires IsReportedMatch(e, start, end)
    ensures ExtractEvaluationResult(e).result == Trim(e[start + 1..end - 1])
    ensures ExtractEvaluationResult(e).fullEvaluation == Trim(e[..start] + e[end..])
  {
    ReportedMatchIsFirstSegment(e, start, end);
    ExtractFirstSegment(e, start, end - 1);
  }

  /** Dropping leading whitespace keeps the count of every other character. */
  lemma {:induction false} TrimStartKeepsCount(s: string, c: char)
    requires !IsWhitespace(c)
    ensures multiset(TrimStart(s))[c] == multiset(s)[c]
  {
    if s != [] && IsWhitespace(s[0]) {
      assert s == [s[0]] + s[1..];
      TrimStartKeepsCount(s[1..], c);
    }
  }

  /** Dropping trailing whitespace keeps the count of every other character. */
  lemma {:induction false} TrimEndKeepsCount(s: string, c: char)
    requires !IsWhitespace(c)
    ensures multiset(TrimEnd(s))[c] == multiset(s)[c]
  {
    if s != [] && IsWhitespace(s[|s| - 1]) {
      assert s == s[..|s| - 1] + [s[|s| - 1]];
      TrimEndKeepsCount(s[..|s| - 1], c);
    }
  }

  /** Trimming removes whitespace only: every other character keeps its count. */
  lemma TrimKeepsCount(s: string, c: char)
    requires !IsWhitespace(c)
    ensures multiset(Trim(s))[c] == multiset(s)[c]
  {
    TrimStartKeepsCount(s, c);
    TrimEndKeepsCount(TrimStart(s), c);
  }

  /** The text strictly between the first star and the next one holds no star. */
  lemma NoStarInside(e: string, open: int, close: int)
    requires IsFirstSegment(e, open, close)
    ensures Stars(e[open + 1..close]) == 0
  {
    var inside := e[open + 1..close];
    forall k | 0 <= k < |inside| ensures inside[k] != '*' {
      assert inside[k] == e[open + 1 + k];
    }
    assert '*' !in inside;
  }

  /** A star is not whitespace, so trimming keeps every star. */
  lemma TrimKeepsStars(s: string)
    ensures Stars(Trim(s)) == Stars(s)
  {
    TrimKeepsCount(s, '*');
  }

  /** On the matched path the result is the trimmed, star-free inside of the segment. */
  lemma SegmentResultHasNoStar(e: string, open: int, close: int)
    requires IsFirstSegment(e, open, close)
    ensures Stars(ExtractEvaluationResult(e).result) == 0
  {
    ExtractFirstSegment(e, open, close);
    NoStarInside(e, open, close);
    TrimKeepsStars(e[open + 1..close]);
  }

  /** The result never contains a star: the lazy match stops at the first closing star. */
  lemma ResultHasNoStar(e: string)
    ensures Stars(ExtractEvaluationResult(e).result) == 0
  {
    if Stars(e) < 2 {
      ExtractFewerThanTwoStars(e);
    } else {
      var open, close := FirstSegmentExists(e);
      SegmentResultHasNoStar(e, open, close);
    }
  }

  /** Cutting out the first starred segment removes exactly its two stars. */
  lemma CutSegmentStars(e: string, open: int, close: int)
    requires IsFirstSegment(e, open, close)
    ensures Stars(e[..open] + e[close + 1..]) == Stars(e) - 2
  {
    NoStarInside(e, open, close);
    var before, inside, after := e[..open], e[open + 1..close], e[close + 1..];
    var segment := e[open..close + 1];
    assert segment == [e[open]] + inside + [e[close]];
    assert Stars(segment) == 2;
    assert e == before + segment + after;
  }

  /** On the matched path exactly the two delimiting stars disappear; every later star survives. */
  lemma SegmentFullKeepsOtherStars(e: string, open: int, close: int)
    requires IsFirstSegment(e, open, close)
    ensures Stars(ExtractEvaluationResult(e).fullEvaluation) == Stars(e) - 2
  {
    var cut := e[..open] + e[close + 1..];
    ExtractFirstSegment(e, open, close);
    CutSegmentStars(e, open, close);
    TrimKeepsStars(cut);
  }

  /** Whenever the evaluation has two or more stars, the shown evaluation has exactly two fewer. */
  lemma FullEvaluationKeepsOtherStars(e: string)
    requires Stars(e) >= 2
    ensures Stars(ExtractEvaluationResult(e).fullEvaluation) == Stars(e) - 2
  {
    var open, close := FirstSegmentExists(e);
    SegmentFullKeepsOtherStars(e, open, close);
  }

  /** On the matched path the two parts together are at least two characters shorter than the evaluation. */
  lemma MatchedLengthBound(e: string)
    requires Stars(e) >= 2
    ensures var v := ExtractEvaluationResult(e); |v.result| + |v.fullEvaluation| + 2 <= |e|
  {
    var open, close := FirstSegmentExists(e);
    ExtractFirstSegment(e, open, close);
    var _, _ := TrimIsCore(e[open + 1..close]);
    var _, _ := TrimIsCore(e[..open] + e[close + 1..]);
  }

  /** An empty starred segment gives an empty result and still removes both stars. */
  lemma EmptySegment(e: string, open: int)
    requires IsFirstSegment(e, open, open + 1)
    ensures ExtractEvaluationResult(e) == Verdict("", Trim(e[..open] + e[open + 2..]))
  {
    ExtractFirstSegment(e, open, open + 1);
  }

  /**
   * The page's call site: a conversation with no evaluation, or an empty one
   * (both falsy in JavaScript), shows two empty strings without parsing.
   */
  function ShownVerdict(evaluation: Option<string>): (v: Verdict)
    ensures evaluation.None? || evaluation == Some("") ==> v == Verdict("", "")
    ensures evaluation.Some? && evaluation.value != "" ==> v == ExtractEvaluationResult(evaluation.value)
  {
    match evaluation
    case Some(e) => if e == "" then Verdict("", "") else ExtractEvaluationResult(e)
    case None => Verdict("", "")
  }
}
