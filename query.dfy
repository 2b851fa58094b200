/** The keyword-to-query translation of search_resumes: the query text has
    its commas replaced by spaces, is split on whitespace, and every token
    is stripped and given a trailing '*' wildcard; the keywords are then
    joined with " OR " into the string handed to the query parser. */
module SearchQuery {
  import opened Split

  /** A character that separates keywords: a comma or Python whitespace. */
  predicate IsSeparator(c: char) {
    c == ',' || IsSpace(c)
  }

  /** query.replace(',', ' ') */
  function ReplaceCommas(s: string): (r: string)
    ensures |r| == |s|
    ensures forall i :: 0 <= i < |s| ==> r[i] == (if s[i] == ',' then ' ' else s[i])
  {
    if s == [] then [] else [if s[0] == ',' then ' ' else s[0]] + ReplaceCommas(s[1..])
  }

  /** The tokens that str.split() yields once the commas are replaced. */
  function Tokens(query: string): seq<string> {
    PySplit(ReplaceCommas(query))
  }

  /** The keyword list: every token stripped, with '*' appended. */
  function Keywords(query: string): seq<string> {
    var tokens := Tokens(query);
    seq(|tokens|, k requires 0 <= k < |tokens| => Strip(tokens[k]) + "*")
  }

  /** Each stem with the wildcard '*' appended. */
  function Starred(stems: seq<string>): seq<string> {
    seq(|stems|, k requires 0 <= k < |stems| => stems[k] + "*")
  }

  /** The separator the keywords are joined with. */
  const Or: string := " OR "

  /** Python's " OR ".join(parts). */
  function JoinOr(parts: seq<string>): string {
    if parts == [] then ""
    else if |parts| == 1 then parts[0]
    else parts[0] + Or + JoinOr(parts[1..])
  }

  /** The query string passed to the parser. */
  function QueryString(query: string): string {
    JoinOr(Keywords(query))
  }

  /** Python's s.split(" OR "): the pieces between the occurrences of the
      separator found left to right without overlap. */
  function SplitOr(s: string): (parts: seq<string>)
    ensures |parts| >= 1
    decreases |s|
  {
    if |s| < |Or| then [s]
    else if s[..|Or|] == Or then [""] + SplitOr(s[|Or|..])
    else
      var r := SplitOr(s[1..]);
      [[s[0]] + r[0]] + r[1..]
  }

  /** Python's s.count(" OR "). */
  function CountOr(s: string): nat
    decreases |s|
  {
    if |s| < |Or| then 0
    else if s[..|Or|] == Or then 1 + CountOr(s[|Or|..])
    else CountOr(s[1..])
  }

  // ---- the comma replacement ----

  lemma ReplaceCommasAppend(a: string, b: string)
    ensures ReplaceCommas(a + b) == ReplaceCommas(a) + ReplaceCommas(b)
  {
    var l, r := ReplaceCommas(a + b), ReplaceCommas(a) + ReplaceCommas(b);
    assert forall i :: 0 <= i < |l| ==> l[i] == r[i];
  }

  lemma {:induction false} ReplaceCommasInterleave(gaps: seq<string>, stems: seq<string>)
    requires |gaps| == |stems| + 1
    requires Words(IsSeparator, stems)
    ensures |ReplacedGaps(gaps)| == |stems| + 1
    ensures ReplaceCommas(Interleave(gaps, stems)) == Interleave(ReplacedGaps(gaps), stems)
  {
    if stems != [] {
      var rest := Interleave(gaps[1..], stems[1..]);
      ReplaceCommasAppend(gaps[0] + stems[0], rest);
      ReplaceCommasAppend(gaps[0], stems[0]);
      assert ReplaceCommas(stems[0]) == stems[0];
      assert Words(IsSeparator, stems[1..]) by {
        forall k | 0 <= k < |stems[1..]| ensures stems[1..][k] != [] && NoneOf(IsSeparator, stems[1..][k]) {
          assert stems[1..][k] == stems[k + 1];
        }
      }
      ReplaceCommasInterleave(gaps[1..], stems[1..]);
      assert ReplacedGaps(gaps)[1..] == ReplacedGaps(gaps[1..]);
    }
  }

  /** Every gap with its commas replaced. */
  function ReplacedGaps(gaps: seq<string>): seq<string> {
    seq(|gaps|, k requires 0 <= k < |gaps| => ReplaceCommas(gaps[k]))
  }

  /** Gaps made of commas and whitespace become whitespace-only gaps. */
  lemma ReplacedGapsAreSpace(gaps: seq<string>)
    requires Gaps(IsSeparator, gaps)
    ensures Gaps(IsSpace, ReplacedGaps(gaps))
  {
    var r := ReplacedGaps(gaps);
    forall k | 0 <= k < |r| ensures All(IsSpace, r[k]) {
      assert All(IsSeparator, gaps[k]);
    }
  }

  // ---- the keyword list ----

  /** The tokens are exactly the maximal runs of characters that are
      neither a comma nor whitespace: commas and whitespace separate
      keywords alike. */
  lemma StemsAreSeparatorRuns(query: string)
    ensures Tokens(query) == Runs(IsSeparator, query)
  {
    var gaps := SeparatorRuns(IsSeparator, query);
    var stems := Runs(IsSeparator, query);
    SeparatorRunsLayout(IsSeparator, query);
    SeparatorRunsGaps(IsSeparator, query);
    ReplaceCommasInterleave(gaps, stems);
    ReplacedGapsAreSpace(gaps);
    assert Words(IsSpace, stems) by {
      forall k | 0 <= k < |stems| ensures NoneOf(IsSpace, stems[k]) {
        assert NoneOf(IsSeparator, stems[k]);
      }
    }
    RunsOfInterleave(IsSpace, ReplacedGaps(gaps), stems);
  }

  /** The .strip() in the comprehension changes nothing: a token from
      str.split() has no whitespace at either end. */
  lemma StripIsNoOp(query: string)
    ensures forall k :: 0 <= k < |Tokens(query)| ==> Strip(Tokens(query)[k]) == Tokens(query)[k]
  {
    var tokens := Tokens(query);
    forall k | 0 <= k < |tokens| ensures Strip(tokens[k]) == tokens[k] {
      StripWord(tokens[k]);
    }
  }

  /** The keywords are the separator runs of the query, in order, each
      with '*' appended. */
  lemma KeywordsAreStarredStems(query: string)
    ensures Keywords(query) == Starred(Runs(IsSeparator, query))
  {
    StemsAreSeparatorRuns(query);
    StripIsNoOp(query);
  }

  /** Every keyword ends with '*' after a non-empty stem that holds no
      comma and no whitespace. */
  lemma KeywordShape(query: string)
    ensures forall k :: 0 <= k < |Keywords(query)| ==>
      var w := Keywords(query)[k];
      |w| >= 2 && w[|w| - 1] == '*' && NoneOf(IsSeparator, w[..|w| - 1])
  {
    KeywordsAreStarredStems(query);
    var stems := Runs(IsSeparator, query);
    forall k | 0 <= k < |stems|
      ensures var w := Keywords(query)[k];
              |w| >= 2 && w[|w| - 1] == '*' && NoneOf(IsSeparator, w[..|w| - 1])
    {
      assert Keywords(query)[k][..|stems[k]|] == stems[k];
    }
  }

  /** Any layout of stems between runs of commas and whitespace, of any
      length and at either end, yields the same keyword list. */
  lemma SeparatorsInterchangeable(gaps: seq<string>, stems: seq<string>)
    requires |gaps| == |stems| + 1
    requires Gaps(IsSeparator, gaps) && Words(IsSeparator, stems)
    ensures Keywords(Interleave(gaps, stems)) == Starred(stems)
  {
    KeywordsAreStarredStems(Interleave(gaps, stems));
    RunsOfInterleave(IsSeparator, gaps, stems);
  }

  /** A query laid out as stems between separator gaps has the starred
      stems as its keyword list. */
  lemma KeywordsOfLayout(query: string, gaps: seq<string>, stems: seq<string>, keywords: seq<string>)
    requires |gaps| == |stems| + 1 && Interleave(gaps, stems) == query
    requires Gaps(IsSeparator, gaps) && Words(IsSeparator, stems)
    requires |keywords| == |stems|
    requires forall k :: 0 <= k < |stems| ==> keywords[k] == stems[k] + "*"
    ensures Keywords(query) == keywords
  {
    SeparatorsInterchangeable(gaps, stems);
  }

  lemma CommaExample()
    ensures Keywords("a,b") == ["a*", "b*"]
  {
    KeywordsOfLayout("a,b", ["", ",", ""], ["a", "b"], ["a*", "b*"]);
  }

  /** Spaces around the comma and at both ends change nothing. */
  lemma PaddedExample()
    ensures Keywords(" a , b ") == ["a*", "b*"]
  {
    KeywordsOfLayout(" a , b ", [" ", " , ", " "], ["a", "b"], ["a*", "b*"]);
  }

  /** The keyword list is empty exactly when the query is made only of
      commas and whitespace (the empty query included). */
  lemma NoKeywords(query: string)
    ensures Keywords(query) == [] <==> All(IsSeparator, query)
  {
    KeywordsAreStarredStems(query);
    RunsEmpty(IsSeparator, query);
  }

  // ---- the joined query string ----

  lemma {:induction false} JoinOrLongerThanFirst(parts: seq<string>)
    requires parts != []
    ensures |JoinOr(parts)| >= |parts[0]|
  {
  }

  /** The query string is empty exactly when the keyword list is. */
  lemma EmptyQueryString(query: string)
    ensures QueryString(query) == "" <==> Keywords(query) == []
  {
    KeywordShape(query);
    if Keywords(query) != [] {
      JoinOrLongerThanFirst(Keywords(query));
    }
  }

  /** An occurrence of " OR " cannot start inside a word without spaces. */
  lemma {:induction false} SplitOrAfterWord(w: string, t: string)
    requires NoneOf(IsSpace, w)
    ensures SplitOr(w + t) == [w + SplitOr(t)[0]] + SplitOr(t)[1..]
    ensures CountOr(w + t) == CountOr(t)
    decreases |w|
  {
    if w == [] {
      var x := SplitOr(t);
      assert w + t == t && w + x[0] == x[0];
      assert x == [x[0]] + x[1..];
    } else {
      var s := w + t;
      assert s[1..] == w[1..] + t;
      assert NoneOf(IsSpace, w[1..]) by {
        forall i | 0 <= i < |w[1..]| ensures !IsSpace(w[1..][i]) {
          assert w[1..][i] == w[i + 1];
        }
      }
      SplitOrAfterWord(w[1..], t);
      if |s| >= |Or| {
        assert s[..|Or|][0] == w[0];
        assert s[..|Or|] != Or;
        var x := SplitOr(t);
        var r := SplitOr(s[1..]);
        assert r == [w[1..] + x[0]] + x[1..];
        assert SplitOr(s) == [[s[0]] + r[0]] + r[1..];
        assert [s[0]] + (w[1..] + x[0]) == w + x[0];
      } else {
        assert |t| < |Or|;
        assert w + t == [w[0]] + (w[1..] + t);
      }
    }
  }

  lemma SplitOrAfterOr(t: string)
    ensures SplitOr(Or + t) == [""] + SplitOr(t)
    ensures CountOr(Or + t) == 1 + CountOr(t)
  {
    var s := Or + t;
    assert s[..|Or|] == Or && s[|Or|..] == t;
  }

  /** Joining words without spaces with " OR " and splitting the result on
      " OR " gives the words back, and the joined string holds one
      separator fewer than there are words. */
  lemma {:induction false} SplitJoinOr(parts: seq<string>)
    requires parts != []
    requires forall k :: 0 <= k < |parts| ==> NoneOf(IsSpace, parts[k])
    ensures SplitOr(JoinOr(parts)) == parts
    ensures CountOr(JoinOr(parts)) == |parts| - 1
  {
    if |parts| == 1 {
      SplitOrAfterWord(parts[0], "");
      assert parts[0] + "" == parts[0];
    } else {
      var rest := JoinOr(parts[1..]);
      SplitJoinOr(parts[1..]);
      SplitOrAfterOr(rest);
      SplitOrAfterWord(parts[0], Or + rest);
      assert JoinOr(parts) == parts[0] + (Or + rest);
      assert parts[0] + "" == parts[0];
      assert ([""] + SplitOr(rest))[1..] == SplitOr(rest);
      assert parts == [parts[0]] + parts[1..];
    }
  }

  /** The query string splits back on " OR " into the keyword list and
      holds one " OR " fewer than there are keywords. */
  lemma QueryStringSplitsBack(query: string)
    requires Keywords(query) != []
    ensures SplitOr(QueryString(query)) == Keywords(query)
    ensures CountOr(QueryString(query)) == |Keywords(query)| - 1
  {
    var keywords := Keywords(query);
    KeywordShape(query);
    forall k | 0 <= k < |keywords| ensures NoneOf(IsSpace, keywords[k]) {
      var w := keywords[k];
      assert NoneOf(IsSeparator, w[..|w| - 1]);
      forall i | 0 <= i < |w| ensures !IsSpace(w[i]) {
        if i < |w| - 1 { assert w[..|w| - 1][i] == w[i]; }
      }
    }
    SplitJoinOr(keywords);
  }

  lemma JoinOrExample()
    ensures JoinOr(["python*", "rust*"]) == "python* OR rust*"
  {
  }

  lemma QueryStringExample()
    ensures QueryString("python, rust") == "python* OR rust*"
  {
    KeywordsOfLayout("python, rust", ["", ", ", ""], ["python", "rust"], ["python*", "rust*"]);
    assert Keywords("python, rust") == ["python*", "rust*"];
    JoinOrExample();
  }
}
