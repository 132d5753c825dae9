/** Key grouping: the inner delimiter loop of the analysis, which turns a key
    name into the name of its family (`user:1001:profile` -> `user:1001:*`). */
module KeyGrouping {
  import opened GoStrings

  /** Every configured delimiter is non-empty. */
  predicate ValidDelimiters(delimiters: seq<string>)
  {
    forall i :: 0 <= i < |delimiters| ==> delimiters[i] != ""
  }

  /** The group key built when `delimiter` splits `key`: all pieces but the
      last, joined again, then the delimiter and the wildcard `*`. */
  function WildcardGroup(key: string, delimiter: string): string
    requires delimiter != ""
  {
    var pieces := Split(key, delimiter);
    Join(pieces[..|pieces| - 1], delimiter) + delimiter + "*"
  }

  /** The value of `groupKey` after the delimiter loop has run over
      `delimiters` for `key`, starting from the value `prior` it held before:
      the first delimiter that splits the key wins and ends the loop; one that
      does not split it sets the key itself; no delimiter leaves `prior`. */
  function Grouped(key: string, delimiters: seq<string>, prior: string): string
    requires ValidDelimiters(delimiters)
  {
    if |delimiters| == 0 then prior
    else if |Split(key, delimiters[0])| > 1 then WildcardGroup(key, delimiters[0])
    else Grouped(key, delimiters[1..], key)
  }

  /** The delimiter loop for one key, with its early `break`. */
  method GroupKeyOf(key: string, delimiters: seq<string>, prior: string) returns (groupKey: string)
    requires ValidDelimiters(delimiters)
    ensures groupKey == Grouped(key, delimiters, prior)
  {
    groupKey := prior;
    for j := 0 to |delimiters|
      invariant Grouped(key, delimiters[j..], groupKey) == Grouped(key, delimiters, prior)
    {
      var delimiter := delimiters[j];
      assert delimiters[j..][0] == delimiter && delimiters[j..][1..] == delimiters[j + 1..];
      var pieces := Split(key, delimiter);
      if |pieces| > 1 {
        groupKey := Join(pieces[0..|pieces| - 1], delimiter) + delimiter + "*";
        break;
      } else {
        groupKey := key;
      }
    }
  }

  /** The wildcard group is the key cut right after an occurrence of the
      delimiter, after which the delimiter no longer occurs, followed by `*`. */
  lemma WildcardGroupCutsKey(key: string, delimiter: string)
    requires delimiter != "" && Contains(key, delimiter)
    ensures var g := WildcardGroup(key, delimiter);
      var cut := |g| - 1;
      |delimiter| <= cut <= |key| &&
      g == key[..cut] + "*" &&
      key[cut - |delimiter|..cut] == delimiter &&
      !Contains(key[cut..], delimiter)
  {
    var pieces := Split(key, delimiter);
    SplitMoreThanOne(key, delimiter);
    JoinSplit(key, delimiter);
    JoinSnoc(pieces, delimiter);
    SplitLastIsFree(key, delimiter);
    var head := Join(pieces[..|pieces| - 1], delimiter) + delimiter;
    assert key == head + Last(pieces);
    assert key[..|head|] == head;
    assert key[|head|..] == Last(pieces);
  }

  /** No proper suffix of `d` is also a prefix of it, so two occurrences of
      `d` never overlap (true of every one-character delimiter). */
  predicate NoSelfOverlap(d: string)
  {
    forall i :: 0 < i < |d| ==> d[i..] != d[..|d| - i]
  }

  /** For a delimiter that cannot overlap itself, the occurrence the key is cut
      after is the last occurrence of the delimiter in the key. */
  lemma WildcardGroupCutsAtLast(key: string, delimiter: string)
    requires delimiter != "" && Contains(key, delimiter) && NoSelfOverlap(delimiter)
    ensures var cut := |WildcardGroup(key, delimiter)| - 1;
      |delimiter| <= cut <= |key| && OccursAt(key, delimiter, cut - |delimiter|) &&
      forall j: nat :: cut - |delimiter| < j ==> !OccursAt(key, delimiter, j)
  {
    WildcardGroupCutsKey(key, delimiter);
    var cut := |WildcardGroup(key, delimiter)| - 1;
    var d := delimiter;
    var start := cut - |d|;
    forall j: nat | start < j ensures !OccursAt(key, d, j) {
      if OccursAt(key, d, j) {
        if j >= cut {
          OccursInTail(key, d, cut, j);
        } else {
          OverlapIsBorder(key, d, start, j);
        }
      }
    }
  }

  /** An occurrence at or after `cut` is an occurrence in `key[cut..]`. */
  lemma OccursInTail(key: string, d: string, cut: nat, j: nat)
    requires cut <= j && OccursAt(key, d, j)
    ensures Contains(key[cut..], d)
  {
    assert key[cut..][j - cut..j - cut + |d|] == key[j..j + |d|];
    assert OccursAt(key[cut..], d, j - cut);
  }

  /** Two occurrences less than `|d|` apart make a suffix of `d` a prefix of it. */
  lemma OverlapIsBorder(key: string, d: string, start: nat, j: nat)
    requires start < j < start + |d| && OccursAt(key, d, start) && OccursAt(key, d, j)
    ensures d[j - start..] == d[..|d| - (j - start)]
  {
    var i := j - start;
    assert d[i..] == key[j..start + |d|];
    assert d[..|d| - i] == key[j..start + |d|];
  }

  /** First match wins: the result is fixed by the first delimiter that occurs
      in the key, whatever the delimiters after it. */
  lemma {:induction false} GroupedFirstMatch(key: string, delimiters: seq<string>, prior: string, i: nat)
    requires ValidDelimiters(delimiters)
    requires i < |delimiters| && Contains(key, delimiters[i])
    requires forall j :: 0 <= j < i ==> !Contains(key, delimiters[j])
    ensures Grouped(key, delimiters, prior) == WildcardGroup(key, delimiters[i])
  {
    SplitMoreThanOne(key, delimiters[0]);
    if i > 0 {
      var rest := delimiters[1..];
      assert rest[i - 1] == delimiters[i];
      GroupedFirstMatch(key, rest, key, i - 1);
    }
  }

  /** When no delimiter occurs in the key, the key is its own group; with no
      delimiters at all the loop never assigns and the prior value stays. */
  lemma {:induction false} GroupedNoMatch(key: string, delimiters: seq<string>, prior: string)
    requires ValidDelimiters(delimiters)
    requires forall j :: 0 <= j < |delimiters| ==> !Contains(key, delimiters[j])
    ensures Grouped(key, delimiters, prior) == if |delimiters| == 0 then prior else key
  {
    if |delimiters| > 0 {
      SplitMoreThanOne(key, delimiters[0]);
      GroupedNoMatch(key, delimiters[1..], key);
    }
  }

  /** With at least one delimiter, the value left over from the previous key
      does not matter. */
  lemma GroupedIgnoresPrior(key: string, delimiters: seq<string>, prior: string)
    requires ValidDelimiters(delimiters) && |delimiters| > 0
    ensures Grouped(key, delimiters, prior) == Grouped(key, delimiters, "")
  {
  }

  /** A key of three parts free of a one-character delimiter, say
      `user:1001:profile` with `:`, falls in the group of its first two
      parts, `user:1001:*`. */
  lemma GroupedThreeParts(a: string, b: string, c: string, ch: char)
    requires ch !in a && ch !in b && ch !in c
    ensures Grouped(a + [ch] + b + [ch] + c, [[ch]], "") == a + [ch] + b + [ch] + "*"
  {
    var key := a + [ch] + b + [ch] + c;
    SplitThree(a, b, c, ch);
    var pieces := [a, b, c];
    assert pieces[..2] == [a, b];
    assert Join([a, b], [ch]) == a + [ch] + b;
  }

  /** `user:1001:profile` with delimiter `:` belongs to `user:1001:*`. */
  lemma GroupedExampleWildcard()
    ensures Grouped("user" + ":" + "1001" + ":" + "profile", [":"], "") == "user" + ":" + "1001" + ":" + "*"
  {
    GroupedThreeParts("user", "1001", "profile", ':');
  }

  /** A key without the delimiter is its own group. */
  lemma GroupedExampleSingleton()
    ensures Grouped("singleton", [":"], "") == "singleton"
  {
    SplitWithoutChar("singleton", ':');
  }
}
