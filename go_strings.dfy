/** The parts of Go's `strings` package that the analysis relies on: `Index`,
    `Split`, `Join` and `Trim` with a one-byte cut set. Strings are sequences
    of characters, one character per byte. */
module GoStrings {

  /** `sep` occurs in `s` starting at position `i`. */
  predicate OccursAt(s: string, sep: string, i: nat)
  {
    i + |sep| <= |s| && s[i..i + |sep|] == sep
  }

  predicate Contains(s: string, sep: string)
  {
    exists i: nat | i <= |s| :: OccursAt(s, sep, i)
  }

  /** First occurrence of `sep` in `s` at or after `from`, or -1. */
  function IndexFrom(s: string, sep: string, from: nat): (r: int)
    ensures r == -1 || (from <= r && OccursAt(s, sep, r))
    ensures forall j: nat :: from <= j && (r == -1 || j < r) ==> !OccursAt(s, sep, j)
    decreases |s| - from
  {
    if from + |sep| > |s| then -1
    else if s[from..from + |sep|] == sep then from
    else IndexFrom(s, sep, from + 1)
  }

  /** strings.Index: the first occurrence of `sep` in `s`, or -1. */
  function Index(s: string, sep: string): (r: int)
    ensures r == -1 <==> !Contains(s, sep)
    ensures r >= 0 ==> OccursAt(s, sep, r) && forall j: nat :: j < r ==> !OccursAt(s, sep, j)
  {
    IndexFrom(s, sep, 0)
  }

  /** strings.Split with a non-empty separator: the pieces between the
      non-overlapping occurrences of `sep`, found left to right. */
  function Split(s: string, sep: string): (pieces: seq<string>)
    requires sep != ""
    ensures |pieces| >= 1
    decreases |s|
  {
    var i := Index(s, sep);
    if i < 0 then [s] else [s[..i]] + Split(s[i + |sep|..], sep)
  }

  /** strings.Join: the pieces in order, with `sep` between neighbours. */
  function Join(pieces: seq<string>, sep: string): (r: string)
    ensures |pieces| >= 1 ==> pieces[0] <= r
  {
    if |pieces| == 0 then ""
    else if |pieces| == 1 then pieces[0]
    else pieces[0] + sep + Join(pieces[1..], sep)
  }

  function Last<T>(s: seq<T>): T
    requires |s| > 0
  {
    s[|s| - 1]
  }

  /** Splitting yields more than one piece exactly when the separator occurs. */
  lemma SplitMoreThanOne(s: string, sep: string)
    requires sep != ""
    ensures |Split(s, sep)| > 1 <==> Contains(s, sep)
  {
  }

  /** Joining the pieces of a split with the same separator gives the string back. */
  lemma {:induction false} JoinSplit(s: string, sep: string)
    requires sep != ""
    ensures Join(Split(s, sep), sep) == s
    decreases |s|
  {
    var i := Index(s, sep);
    if i >= 0 {
      var rest := s[i + |sep|..];
      var pieces := Split(s, sep);
      assert pieces == [s[..i]] + Split(rest, sep);
      assert pieces[1..] == Split(rest, sep);
      calc {
        Join(pieces, sep);
        s[..i] + sep + Join(Split(rest, sep), sep);
        { JoinSplit(rest, sep); }
        s[..i] + sep + rest;
        { assert s[i..i + |sep|] == sep; }
        s;
      }
    }
  }

  /** The last piece of a split contains no occurrence of the separator. */
  lemma {:induction false} SplitLastIsFree(s: string, sep: string)
    requires sep != ""
    ensures !Contains(Last(Split(s, sep)), sep)
    decreases |s|
  {
    var i := Index(s, sep);
    if i >= 0 {
      SplitLastIsFree(s[i + |sep|..], sep);
    }
  }

  /** Join peels off its last piece. */
  lemma {:induction false} JoinSnoc(pieces: seq<string>, sep: string)
    requires |pieces| >= 2
    ensures Join(pieces, sep) == Join(pieces[..|pieces| - 1], sep) + sep + Last(pieces)
    decreases |pieces|
  {
    if |pieces| > 2 {
      var tail := pieces[1..];
      JoinSnoc(tail, sep);
      assert tail[..|tail| - 1] == pieces[..|pieces| - 1][1..];
    }
  }

  /** Splitting on a one-character separator that does not occur in `a`. */
  lemma SplitAtChar(a: string, c: char, b: string)
    requires c !in a
    ensures Split(a + [c] + b, [c]) == [a] + Split(b, [c])
  {
    var s := a + [c] + b;
    assert OccursAt(s, [c], |a|);
    forall j: nat | j < |a| ensures !OccursAt(s, [c], j) {
      assert s[j] == a[j];
    }
    assert Index(s, [c]) == |a|;
    assert s[..|a|] == a;
    assert s[|a| + 1..] == b;
  }

  /** A string without the one-character separator is a single piece. */
  lemma SplitWithoutChar(a: string, c: char)
    requires c !in a
    ensures Split(a, [c]) == [a]
  {
    assert !Contains(a, [c]) by {
      forall j: nat | j <= |a| ensures !OccursAt(a, [c], j) {
        if j < |a| { assert a[j..j + 1] == [a[j]]; }
      }
    }
  }

  /** Splitting three separator-free pieces joined by a one-character separator. */
  lemma SplitThree(a: string, b: string, c: string, ch: char)
    requires ch !in a && ch !in b && ch !in c
    ensures Split(a + [ch] + b + [ch] + c, [ch]) == [a, b, c]
  {
    var tail := b + [ch] + c;
    assert Split(tail, [ch]) == [b, c] by {
      SplitWithoutChar(c, ch);
      SplitAtChar(b, ch, c);
    }
    assert a + [ch] + b + [ch] + c == a + [ch] + tail;
    SplitAtChar(a, ch, tail);
  }

  /** Number of leading copies of `c` in `s`. */
  function LeadingRun(s: string, c: char): (n: nat)
    ensures n <= |s|
    ensures forall k :: 0 <= k < n ==> s[k] == c
    ensures n == |s| || s[n] != c
  {
    if |s| == 0 || s[0] != c then 0 else 1 + LeadingRun(s[1..], c)
  }

  /** Number of trailing copies of `c` in `s`. */
  function TrailingRun(s: string, c: char): (n: nat)
    ensures n <= |s|
    ensures forall k :: |s| - n <= k < |s| ==> s[k] == c
    ensures n == |s| || s[|s| - 1 - n] != c
  {
    if |s| == 0 || s[|s| - 1] != c then 0 else 1 + TrailingRun(s[..|s| - 1], c)
  }

  /** strings.Trim(s, cutset) for a one-character cut set: the longest middle
      part of `s` that neither starts nor ends with `c`. */
  function TrimChar(s: string, c: char): (r: string)
    ensures r == [] || (r[0] != c && r[|r| - 1] != c)
    ensures |r| <= |s|
    ensures var m := LeadingRun(s, c);
      m + |r| <= |s| && r == s[m..m + |r|] && forall k :: m + |r| <= k < |s| ==> s[k] == c
  {
    var rest := s[LeadingRun(s, c)..];
    rest[..|rest| - TrailingRun(rest, c)]
  }
}
