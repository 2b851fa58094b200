/** Python's argument-less str.split() and str.strip(), stated over a
    separator predicate so that the same run splitter also describes
    "runs of characters that are neither a comma nor whitespace". */
module Split {

  /** Python's str.isspace() for one character: the code points that
      str.split() and str.strip() treat as whitespace. */
  predicate IsSpace(c: char) {
    var n := c as int;
    (0x09 <= n <= 0x0D) || (0x1C <= n <= 0x20) || n == 0x85 || n == 0xA0 ||
    n == 0x1680 || (0x2000 <= n <= 0x200A) || n == 0x2028 || n == 0x2029 ||
    n == 0x202F || n == 0x205F || n == 0x3000
  }

  /** Every character of s is a separator. */
  predicate All(sep: char -> bool, s: string) {
    forall i :: 0 <= i < |s| ==> sep(s[i])
  }

  /** No character of s is a separator. */
  predicate NoneOf(sep: char -> bool, s: string) {
    forall i :: 0 <= i < |s| ==> !sep(s[i])
  }

  /** Length of the longest prefix of s made of separators. */
  function LeadingSeps(sep: char -> bool, s: string): (n: nat)
    ensures n <= |s|
    ensures All(sep, s[..n])
    ensures n < |s| ==> !sep(s[n])
  {
    if s != [] && sep(s[0]) then 1 + LeadingSeps(sep, s[1..]) else 0
  }

  /** Length of the longest prefix of s made of non-separators. */
  function LeadingWord(sep: char -> bool, s: string): (n: nat)
    ensures n <= |s|
    ensures NoneOf(sep, s[..n])
    ensures n < |s| ==> sep(s[n])
  {
    if s != [] && !sep(s[0]) then 1 + LeadingWord(sep, s[1..]) else 0
  }

  /** Length of the longest suffix of s made of separators. */
  function TrailingSeps(sep: char -> bool, s: string): (n: nat)
    ensures n <= |s|
    ensures All(sep, s[|s| - n..])
    ensures n < |s| ==> !sep(s[|s| - n - 1])
  {
    if s != [] && sep(s[|s| - 1]) then
      var r := TrailingSeps(sep, s[..|s| - 1]);
      var x := s[|s| - (r + 1)..];
      assert All(sep, x) by {
        forall i | 0 <= i < |x| ensures sep(x[i]) {
          if i < r { assert x[i] == s[..|s| - 1][|s| - 1 - r..][i]; }
        }
      }
      1 + r
    else 0
  }

  /** The words of s: its maximal runs of non-separators, left to right,
      with separator runs of any length (at the ends too) dropped. */
  function Runs(sep: char -> bool, s: string): (words: seq<string>)
    ensures Words(sep, words)
    decreases |s|
  {
    var m := LeadingSeps(sep, s);
    var t := s[m..];
    if t == [] then []
    else
      assert t[0] == s[m] && !sep(t[0]);
      var n := LeadingWord(sep, t);
      assert n > 0;
      var rest := Runs(sep, t[n..]);
      WordsCons(sep, t[..n], rest);
      [t[..n]] + rest
  }

  lemma WordsCons(sep: char -> bool, w: string, words: seq<string>)
    requires w != [] && NoneOf(sep, w) && Words(sep, words)
    ensures Words(sep, [w] + words)
  {
    var r := [w] + words;
    forall k | 0 <= k < |r| ensures r[k] != [] && NoneOf(sep, r[k]) {
      if k > 0 { assert r[k] == words[k - 1]; }
    }
  }

  /** Python's str.split() without arguments. */
  function PySplit(s: string): seq<string> {
    Runs(IsSpace, s)
  }

  /** Every word is non-empty and holds no separator. */
  predicate Words(sep: char -> bool, words: seq<string>) {
    forall k :: 0 <= k < |words| ==> words[k] != [] && NoneOf(sep, words[k])
  }

  /** Every gap is made of separators, and every gap between two words is
      non-empty (the first and the last gap may be empty). */
  predicate Gaps(sep: char -> bool, gaps: seq<string>) {
    (forall k :: 0 <= k < |gaps| ==> All(sep, gaps[k])) &&
    (forall k :: 0 < k < |gaps| - 1 ==> gaps[k] != [])
  }

  /** gaps[0] + words[0] + gaps[1] + ... + words[n-1] + gaps[n]. */
  function Interleave(gaps: seq<string>, words: seq<string>): string
    requires |gaps| == |words| + 1
  {
    if words == [] then gaps[0]
    else gaps[0] + words[0] + Interleave(gaps[1..], words[1..])
  }

  lemma {:induction false} LeadingSepsOf(sep: char -> bool, g: string, t: string)
    requires All(sep, g)
    requires t == [] || !sep(t[0])
    ensures LeadingSeps(sep, g + t) == |g|
  {
    if g != [] {
      assert (g + t)[1..] == g[1..] + t;
      LeadingSepsOf(sep, g[1..], t);
    }
  }

  lemma {:induction false} LeadingWordOf(sep: char -> bool, w: string, t: string)
    requires NoneOf(sep, w)
    requires t == [] || sep(t[0])
    ensures LeadingWord(sep, w + t) == |w|
  {
    if w != [] {
      assert (w + t)[1..] == w[1..] + t;
      LeadingWordOf(sep, w[1..], t);
    } else {
      assert w + t == t;
    }
  }

  /** A gap followed by a word peels that word off the front of the split. */
  lemma RunsCons(sep: char -> bool, g: string, w: string, rest: string)
    requires All(sep, g) && w != [] && NoneOf(sep, w)
    requires rest == [] || sep(rest[0])
    ensures Runs(sep, g + (w + rest)) == [w] + Runs(sep, rest)
  {
    var s := g + (w + rest);
    var t := w + rest;
    assert t[0] == w[0];
    LeadingSepsOf(sep, g, t);
    assert s[|g|..] == t;
    LeadingWordOf(sep, w, rest);
    RunsStep(sep, s, |g|, |w|);
    assert t[..|w|] == w && t[|w|..] == rest;
  }

  lemma InterleaveFirst(gaps: seq<string>, words: seq<string>)
    requires |gaps| == |words| + 1 && gaps[0] != []
    ensures Interleave(gaps, words) != [] && Interleave(gaps, words)[0] == gaps[0][0]
  {
    if words != [] {
      assert Interleave(gaps, words) == gaps[0] + (words[0] + Interleave(gaps[1..], words[1..]));
    }
  }

  lemma GapsTail(sep: char -> bool, gaps: seq<string>)
    requires Gaps(sep, gaps) && gaps != []
    ensures Gaps(sep, gaps[1..])
  {
    forall k | 0 < k < |gaps[1..]| - 1 ensures gaps[1..][k] != [] {
      assert gaps[1..][k] == gaps[k + 1];
    }
  }

  lemma WordsTail(sep: char -> bool, words: seq<string>)
    requires Words(sep, words) && words != []
    ensures Words(sep, words[1..])
    ensures words[0] != [] && NoneOf(sep, words[0])
  {
    forall k | 0 <= k < |words[1..]| ensures words[1..][k] != [] && NoneOf(sep, words[1..][k]) {
      assert words[1..][k] == words[k + 1];
    }
  }

  /** Any layout of words between separator gaps splits back into exactly
      those words: separator runs of any length act alike. */
  lemma {:induction false} RunsOfInterleave(sep: char -> bool, gaps: seq<string>, words: seq<string>)
    requires |gaps| == |words| + 1
    requires Gaps(sep, gaps) && Words(sep, words)
    ensures Runs(sep, Interleave(gaps, words)) == words
  {
    if words == [] {
      LeadingSepsOf(sep, gaps[0], []);
      assert gaps[0] + [] == gaps[0];
      assert gaps[0][|gaps[0]|..] == [];
    } else {
      var rest := Interleave(gaps[1..], words[1..]);
      if |words| > 1 {
        assert gaps[1] != [] && sep(gaps[1][0]);
        InterleaveFirst(gaps[1..], words[1..]);
      } else {
        assert rest == gaps[1];
      }
      WordsTail(sep, words);
      assert Interleave(gaps, words) == gaps[0] + (words[0] + rest);
      RunsCons(sep, gaps[0], words[0], rest);
      GapsTail(sep, gaps);
      RunsOfInterleave(sep, gaps[1..], words[1..]);
      assert words == [words[0]] + words[1..];
    }
  }

  /** The gaps of s around its words, left to right. */
  function SeparatorRuns(sep: char -> bool, s: string): (gaps: seq<string>)
    ensures |gaps| >= 1
    decreases |s|
  {
    var m := LeadingSeps(sep, s);
    var t := s[m..];
    if t == [] then [s]
    else [s[..m]] + SeparatorRuns(sep, t[LeadingWord(sep, t)..])
  }

  /** One step of Runs and SeparatorRuns on a string that has a word. */
  lemma RunsStep(sep: char -> bool, s: string, m: nat, n: nat)
    requires m == LeadingSeps(sep, s) && s[m..] != []
    requires n == LeadingWord(sep, s[m..])
    ensures Runs(sep, s) == [s[m..][..n]] + Runs(sep, s[m..][n..])
    ensures SeparatorRuns(sep, s) == [s[..m]] + SeparatorRuns(sep, s[m..][n..])
  {
  }

  /** The first separator run of a string is its leading separators. */
  lemma SeparatorRunsFirst(sep: char -> bool, s: string)
    ensures SeparatorRuns(sep, s)[0] == s[..LeadingSeps(sep, s)]
  {
    if s[LeadingSeps(sep, s)..] == [] {
      assert s[..LeadingSeps(sep, s)] == s;
    }
  }

  /** Every string is the layout of its own words between its separator
      runs, so the words are exactly its maximal runs of non-separators. */
  lemma {:induction false} SeparatorRunsLayout(sep: char -> bool, s: string)
    ensures |SeparatorRuns(sep, s)| == |Runs(sep, s)| + 1
    ensures Interleave(SeparatorRuns(sep, s), Runs(sep, s)) == s
    decreases |s|
  {
    var m := LeadingSeps(sep, s);
    var t := s[m..];
    if t != [] {
      var n := LeadingWord(sep, t);
      var u := t[n..];
      SeparatorRunsLayout(sep, u);
      RunsStep(sep, s, m, n);
      InterleaveCons(s[..m], SeparatorRuns(sep, u), t[..n], Runs(sep, u));
      SliceThree(s, m, n);
    } else {
      assert s[..m] == s;
    }
  }

  /** A string is its first m characters, the next n, and the rest. */
  lemma SliceThree(s: string, m: nat, n: nat)
    requires m + n <= |s|
    ensures s == s[..m] + s[m..][..n] + s[m..][n..]
  {
    assert s[m..] == s[m..][..n] + s[m..][n..];
    assert s == s[..m] + s[m..];
  }

  /** Unfolding Interleave once: the first gap and word come first. */
  lemma InterleaveCons(g: string, gaps: seq<string>, w: string, words: seq<string>)
    requires |gaps| == |words| + 1
    ensures Interleave([g] + gaps, [w] + words) == g + w + Interleave(gaps, words)
  {
    assert ([g] + gaps)[1..] == gaps && ([w] + words)[1..] == words;
  }

  /** The separator runs of a string are valid gaps: all separators, and
      non-empty between two words. */
  lemma {:induction false} SeparatorRunsGaps(sep: char -> bool, s: string)
    ensures Gaps(sep, SeparatorRuns(sep, s))
    decreases |s|
  {
    var m := LeadingSeps(sep, s);
    var t := s[m..];
    if t == [] {
      assert SeparatorRuns(sep, s) == [s];
      assert s[..m] == s;
    } else {
      var n := LeadingWord(sep, t);
      var u := t[n..];
      SeparatorRunsGaps(sep, u);
      SeparatorRunsFirst(sep, u);
      RunsStep(sep, s, m, n);
      var rest := SeparatorRuns(sep, u);
      var first := s[..m];
      assert All(sep, first);
      assert |rest| > 1 ==> rest[0] != [] by {
        if |rest| > 1 {
          assert u != [] && sep(u[0]);
        }
      }
      GapsCons(sep, first, rest);
    }
  }

  lemma GapsCons(sep: char -> bool, first: string, rest: seq<string>)
    requires All(sep, first) && Gaps(sep, rest) && rest != []
    requires |rest| > 1 ==> rest[0] != []
    ensures Gaps(sep, [first] + rest)
  {
    var r := [first] + rest;
    forall k | 0 < k < |r| - 1 ensures r[k] != [] {
      assert r[k] == rest[k - 1];
    }
    forall k | 0 <= k < |r| ensures All(sep, r[k]) {
      if k > 0 { assert r[k] == rest[k - 1]; }
    }
  }

  /** str.split() yields no words exactly when the string is made only of
      separators (the empty string included). */
  lemma RunsEmpty(sep: char -> bool, s: string)
    ensures Runs(sep, s) == [] <==> All(sep, s)
  {
    var m := LeadingSeps(sep, s);
    if Runs(sep, s) == [] {
      assert s[..m] == s;
    }
  }

  /** Python's str.strip() without arguments. */
  function Strip(s: string): (r: string)
    ensures r == [] || (!IsSpace(r[0]) && !IsSpace(r[|r| - 1]))
    ensures r == s <==> (s == [] || (!IsSpace(s[0]) && !IsSpace(s[|s| - 1])))
    ensures exists i, j :: 0 <= i <= j <= |s| && r == s[i..j] && All(IsSpace, s[..i]) && All(IsSpace, s[j..])
  {
    var i := LeadingSeps(IsSpace, s);
    var j := i + |s[i..]| - TrailingSeps(IsSpace, s[i..]);
    StripBounds(s, i, j);
    s[i..j]
  }

  /** The slice Strip keeps: whitespace before i and from j on, and none
      at either end of s[i..j]. */
  lemma StripBounds(s: string, i: nat, j: int)
    requires i == LeadingSeps(IsSpace, s)
    requires j == i + |s[i..]| - TrailingSeps(IsSpace, s[i..])
    ensures i <= j <= |s|
    ensures All(IsSpace, s[..i]) && All(IsSpace, s[j..])
    ensures i < j ==> !IsSpace(s[i]) && !IsSpace(s[j - 1])
    ensures i == j ==> All(IsSpace, s)
  {
    var t := s[i..];
    var k := TrailingSeps(IsSpace, t);
    assert j == |s| - k;
    forall x | j <= x < |s| ensures IsSpace(s[x]) {
      assert s[x] == t[|t| - k..][x - j];
    }
    if i < j {
      assert s[i] == t[0];
      assert s[j - 1] == t[|t| - k - 1];
    } else {
      forall x | 0 <= x < |s| ensures IsSpace(s[x]) {
        if x < i { assert s[x] == s[..i][x]; }
      }
    }
  }

  /** A word produced by str.split() is left unchanged by str.strip(). */
  lemma StripWord(w: string)
    requires w != [] && NoneOf(IsSpace, w)
    ensures Strip(w) == w
  {
    assert !IsSpace(w[0]) && !IsSpace(w[|w| - 1]);
  }
}
