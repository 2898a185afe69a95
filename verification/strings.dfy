/**
 * The string operations of Rust's standard library that the front end relies
 * on, over ASCII text: `split` on one character, `join`, `trim`, `find` of a
 * character and `replace` of every occurrence of a pattern.
 */
module Strings {
  import opened Wrappers

  /** ASCII white space in the sense of Rust's `char::is_whitespace`: ' ' and '\t' through '\r'. */
  predicate IsWhitespace(c: char) {
    c == ' ' || ('\t' <= c <= '\r')
  }

  /** Concatenates `words` with `d` between neighbours; no words join to "". */
  function Join(words: seq<string>, d: char): string
  {
    if |words| == 0 then ""
    else if |words| == 1 then words[0]
    else words[0] + [d] + Join(words[1..], d)
  }

  /**
   * Rust's `str::split` on a single character: the maximal delimiter-free
   * pieces, including empty ones, so that joining them back gives `s`.
   */
  function Split(s: string, d: char): (words: seq<string>)
    ensures |words| >= 1
    ensures forall i :: 0 <= i < |words| ==> d !in words[i]
    ensures Join(words, d) == s
  {
    if |s| == 0 then [""]
    else
      var rest := Split(s[1..], d);
      if s[0] == d then
        assert ([""] + rest)[1..] == rest;
        [""] + rest
      else
        var words := [[s[0]] + rest[0]] + rest[1..];
        assert words[1..] == rest[1..];
        assert forall i :: 1 <= i < |words| ==> words[i] == rest[i];
        words
  }

  /** Splitting a string that has no delimiter gives the string itself. */
  lemma {:induction false} SplitNoDelimiter(w: string, d: char)
    requires d !in w
    ensures Split(w, d) == [w]
  {
    if |w| > 0 {
      SplitNoDelimiter(w[1..], d);
      assert [w[0]] + w[1..] == w;
    }
  }

  /** A delimiter-free word followed by the delimiter is split off as the first piece. */
  lemma {:induction false} SplitAfterWord(w: string, d: char, t: string)
    requires d !in w
    ensures Split(w + [d] + t, d) == [w] + Split(t, d)
  {
    if |w| == 0 {
      assert w + [d] + t == [d] + t;
      assert ([d] + t)[1..] == t;
    } else {
      assert (w + [d] + t)[1..] == w[1..] + [d] + t;
      SplitAfterWord(w[1..], d, t);
      assert [w[0]] + w[1..] == w;
    }
  }

  /** Join and Split are inverse on non-empty lists of delimiter-free words. */
  lemma {:induction false} SplitJoin(words: seq<string>, d: char)
    requires |words| >= 1
    requires forall i :: 0 <= i < |words| ==> d !in words[i]
    ensures Split(Join(words, d), d) == words
  {
    if |words| == 1 {
      SplitNoDelimiter(words[0], d);
    } else {
      SplitJoin(words[1..], d);
      SplitAfterWord(words[0], d, Join(words[1..], d));
      assert [words[0]] + words[1..] == words;
    }
  }

  /**
   * The first piece of a split is the longest delimiter-free prefix: it is a
   * prefix of `s` followed by the delimiter or by the end of `s`.
   */
  lemma {:induction false} SplitHead(s: string, d: char)
    ensures var w := Split(s, d)[0];
      |w| <= |s| && w == s[..|w|] && (|w| == |s| || s[|w|] == d)
  {
    var words := Split(s, d);
    if |words| > 1 {
      assert s == words[0] + [d] + Join(words[1..], d);
    }
  }

  /** A delimiter-free prefix followed by the delimiter or the end is the first piece. */
  lemma {:induction false} FirstWordAt(s: string, d: char, w: string)
    requires d !in w && |w| <= |s| && s[..|w|] == w
    requires |w| == |s| || s[|w|] == d
    ensures Split(s, d)[0] == w
  {
    SplitHead(s, d);
  }

  /** Number of leading white-space characters. */
  function LeadingWhitespace(s: string): (n: nat)
    ensures n <= |s|
    ensures forall k :: 0 <= k < n ==> IsWhitespace(s[k])
    ensures n < |s| ==> !IsWhitespace(s[n])
  {
    if |s| == 0 || !IsWhitespace(s[0]) then 0
    else 1 + LeadingWhitespace(s[1..])
  }

  /** Number of trailing white-space characters. */
  function TrailingWhitespace(s: string): (n: nat)
    ensures n <= |s|
    ensures forall k :: |s| - n <= k < |s| ==> IsWhitespace(s[k])
    ensures n < |s| ==> !IsWhitespace(s[|s| - n - 1])
  {
    if |s| == 0 || !IsWhitespace(s[|s| - 1]) then 0
    else 1 + TrailingWhitespace(s[..|s| - 1])
  }

  /** `s` without its leading white space. */
  function TrimStart(s: string): string {
    if |s| > 0 && IsWhitespace(s[0]) then TrimStart(s[1..]) else s
  }

  /** `s` without its trailing white space. */
  function TrimEnd(s: string): string {
    if |s| > 0 && IsWhitespace(s[|s| - 1]) then TrimEnd(s[..|s| - 1]) else s
  }

  /** Rust's `str::trim`, on ASCII white space; `TrimSpec` states what it yields. */
  function Trim(s: string): string {
    TrimEnd(TrimStart(s))
  }

  lemma {:induction false} TrimStartSpec(s: string)
    ensures TrimStart(s) == s[LeadingWhitespace(s)..]
    decreases |s|
  {
    if |s| > 0 && IsWhitespace(s[0]) {
      TrimStartSpec(s[1..]);
    }
  }

  lemma {:induction false} TrimEndSpec(s: string)
    ensures TrimEnd(s) == s[..|s| - TrailingWhitespace(s)]
    decreases |s|
  {
    if |s| > 0 && IsWhitespace(s[|s| - 1]) {
      TrimEndSpec(s[..|s| - 1]);
      assert s[..|s| - 1][..|s| - 1 - TrailingWhitespace(s[..|s| - 1])] == s[..|s| - TrailingWhitespace(s)];
    }
  }

  /**
   * `Trim(s)` is the middle of `s` left after removing the white space at
   * both ends: it starts after the leading white space, only white space
   * follows it, it neither starts nor ends with white space, and it is
   * empty only when `s` is all white space.
   */
  lemma {:induction false} TrimSpec(s: string)
    ensures LeadingWhitespace(s) + |Trim(s)| <= |s|
    ensures Trim(s) == s[LeadingWhitespace(s) .. LeadingWhitespace(s) + |Trim(s)|]
    ensures forall k :: LeadingWhitespace(s) + |Trim(s)| <= k < |s| ==> IsWhitespace(s[k])
    ensures |Trim(s)| > 0 ==> !IsWhitespace(Trim(s)[0]) && !IsWhitespace(Trim(s)[|Trim(s)| - 1])
    ensures LeadingWhitespace(s) < |s| ==> |Trim(s)| > 0
  {
    var lead := LeadingWhitespace(s);
    var t := s[lead..];
    var trail := TrimAsSlice(s);
    var r := Trim(s);
    TrimTail(s, lead, t, trail, r);
    if lead < |s| {
      assert t[0] == s[lead];
      assert trail < |t|;
    }
  }

  lemma {:induction false} TrimAsSlice(s: string) returns (trail: nat)
    ensures trail == TrailingWhitespace(s[LeadingWhitespace(s)..])
    ensures Trim(s) == s[LeadingWhitespace(s)..][..|s| - LeadingWhitespace(s) - trail]
  {
    TrimStartSpec(s);
    TrimEndSpec(s[LeadingWhitespace(s)..]);
    trail := TrailingWhitespace(s[LeadingWhitespace(s)..]);
  }

  lemma {:induction false} TrimTail(s: string, lead: nat, t: string, trail: nat, r: string)
    requires lead <= |s| && t == s[lead..] && trail <= |t|
    requires forall k :: |t| - trail <= k < |t| ==> IsWhitespace(t[k])
    requires r == t[..|t| - trail]
    ensures r == s[lead .. lead + |r|]
    ensures forall k :: lead + |r| <= k < |s| ==> IsWhitespace(s[k])
  {
    forall k | lead + |r| <= k < |s|
      ensures IsWhitespace(s[k])
    {
      assert s[k] == t[k - lead];
    }
  }

  /**
   * Rust's `str::find` for a character: the index of the first occurrence
   * of `c` in `s`, or None when `c` does not occur.
   */
  function Find(s: string, c: char): (r: Option<nat>)
    ensures r.None? <==> c !in s
    ensures r.Some? ==> r.value < |s| && s[r.value] == c && c !in s[..r.value]
  {
    if |s| == 0 then None
    else if s[0] == c then Some(0)
    else match Find(s[1..], c)
      case None =>
        assert s == [s[0]] + s[1..];
        None
      case Some(k) =>
        assert s[..k + 1] == [s[0]] + s[1..][..k];
        Some(k + 1)
  }

  /** `pat` occurs in `s` starting at index `i`. */
  predicate OccursAt(s: string, pat: string, i: nat) {
    i + |pat| <= |s| && s[i .. i + |pat|] == pat
  }

  /** `pat` occurs in `s` at `b` and nowhere else. */
  ghost predicate OccursOnlyAt(s: string, pat: string, b: nat) {
    && OccursAt(s, pat, b)
    && forall i: nat :: i != b ==> !OccursAt(s, pat, i)
  }

  /**
   * Rust's `str::replace`: every occurrence of `pat`, scanned left to right
   * without overlaps, is replaced by `rep`. The empty pattern occurs before
   * every character and at the end.
   */
  function ReplaceAll(s: string, pat: string, rep: string): string
    decreases |s|
  {
    if |pat| == 0 then
      if |s| == 0 then rep else rep + [s[0]] + ReplaceAll(s[1..], pat, rep)
    else if OccursAt(s, pat, 0) then rep + ReplaceAll(s[|pat|..], pat, rep)
    else if |s| == 0 then ""
    else [s[0]] + ReplaceAll(s[1..], pat, rep)
  }

  /** Occurrences in a suffix are occurrences in the whole string, shifted. */
  lemma {:induction false} OccursInSuffix(s: string, pat: string, k: nat, j: nat)
    requires k <= |s|
    ensures OccursAt(s[k..], pat, j) <==> OccursAt(s, pat, j + k)
  {
    if j + k + |pat| <= |s| {
      assert s[k..][j .. j + |pat|] == s[j + k .. j + k + |pat|];
    }
  }

  /** Replacing a pattern that does not occur leaves the string unchanged. */
  lemma {:induction false} ReplaceAllAbsent(s: string, pat: string, rep: string)
    requires |pat| > 0
    requires forall i: nat :: !OccursAt(s, pat, i)
    ensures ReplaceAll(s, pat, rep) == s
    decreases |s|
  {
    assert !OccursAt(s, pat, 0);
    if |s| > 0 {
      forall j: nat
        ensures !OccursAt(s[1..], pat, j)
      {
        OccursInSuffix(s, pat, 1, j);
      }
      ReplaceAllAbsent(s[1..], pat, rep);
      assert [s[0]] + s[1..] == s;
    }
  }

  /** Unfolding of ReplaceAll at a position where `pat` does not start. */
  lemma {:induction false} ReplaceAllSkip(s: string, pat: string, rep: string)
    requires |pat| > 0 && |s| > 0 && !OccursAt(s, pat, 0)
    ensures ReplaceAll(s, pat, rep) == [s[0]] + ReplaceAll(s[1..], pat, rep)
  {
  }

  /**
   * When `pat` occurs exactly once, at `b`, replacing every occurrence is the
   * exact splice of `rep` over `s[b .. b + |pat|]`: the text before `b` is unchanged.
   */
  lemma {:induction false} ReplaceAllUnique(s: string, pat: string, rep: string, b: nat)
    requires |pat| > 0
    requires OccursAt(s, pat, b)
    requires forall i: nat :: i != b ==> !OccursAt(s, pat, i)
    ensures ReplaceAll(s, pat, rep) == s[..b] + rep + s[b + |pat|..]
    decreases b
  {
    if b == 0 {
      ReplaceAllUniqueAtStart(s, pat, rep);
    } else {
      var t := s[1..];
      UniqueInTail(s, pat, b);
      ReplaceAllUnique(t, pat, rep, b - 1);
      ReplaceAllUniqueStep(s, pat, rep, b);
    }
  }

  /** A splice in the tail, behind a first character where `pat` does not start, is a splice in the whole string. */
  lemma {:induction false} ReplaceAllUniqueStep(s: string, pat: string, rep: string, b: nat)
    requires |pat| > 0 && 0 < b && b + |pat| <= |s| && !OccursAt(s, pat, 0)
    requires ReplaceAll(s[1..], pat, rep) == s[1..][..b - 1] + rep + s[1..][b - 1 + |pat|..]
    ensures ReplaceAll(s, pat, rep) == s[..b] + rep + s[b + |pat|..]
  {
    ReplaceAllSkip(s, pat, rep);
    assert s[..b] == [s[0]] + s[1..][..b - 1];
    assert s[1..][b - 1 + |pat|..] == s[b + |pat|..];
  }

  lemma {:induction false} ReplaceAllUniqueAtStart(s: string, pat: string, rep: string)
    requires |pat| > 0
    requires OccursAt(s, pat, 0)
    requires forall i: nat :: i != 0 ==> !OccursAt(s, pat, i)
    ensures ReplaceAll(s, pat, rep) == rep + s[|pat|..]
  {
    var t := s[|pat|..];
    forall j: nat
      ensures !OccursAt(t, pat, j)
    {
      OccursInSuffix(s, pat, |pat|, j);
    }
    ReplaceAllAbsent(t, pat, rep);
  }

  lemma {:induction false} UniqueInTail(s: string, pat: string, b: nat)
    requires 0 < b && OccursAt(s, pat, b)
    requires forall i: nat :: i != b ==> !OccursAt(s, pat, i)
    ensures !OccursAt(s, pat, 0)
    ensures OccursAt(s[1..], pat, b - 1)
    ensures forall j: nat :: j != b - 1 ==> !OccursAt(s[1..], pat, j)
  {
    forall j: nat | j != b - 1
      ensures !OccursAt(s[1..], pat, j)
    {
      OccursInSuffix(s, pat, 1, j);
    }
    OccursInSuffix(s, pat, 1, b - 1);
  }

  /** Every `a` in `s` replaced by `b`, character for character. */
  function ReplaceChar(s: string, a: char, b: char): (r: string)
    ensures |r| == |s|
    ensures a != b ==> a !in r
    ensures forall i :: 0 <= i < |s| && s[i] != a ==> r[i] == s[i]
  {
    seq(|s|, i requires 0 <= i < |s| => if s[i] == a then b else s[i])
  }

  /** The words of `words` that are not empty, in order. */
  function FilterNonEmpty(words: seq<string>): (r: seq<string>)
    ensures forall i :: 0 <= i < |r| ==> |r[i]| > 0
    ensures |r| <= |words|
  {
    if |words| == 0 then []
    else if |words[0]| == 0 then FilterNonEmpty(words[1..])
    else [words[0]] + FilterNonEmpty(words[1..])
  }
}
