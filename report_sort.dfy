/** The in-place sort of a database's report slice by size. The comparator of
    the report slice type is not part of this model; the order is taken to be
    largest size first. */
module ReportSort {
  import opened Aggregation

  /** Sizes never increase from left to right. */
  predicate SortedBySize(s: seq<Report>)
  {
    forall p, q :: 0 <= p < q < |s| ==> s[p].size >= s[q].size
  }

  /** Exchanging two adjacent elements keeps the multiset of the slice. */
  lemma SwapKeepsMultiset(s: seq<Report>, j: nat)
    requires 0 < j < |s|
    ensures multiset(s[j - 1 := s[j]][j := s[j - 1]]) == multiset(s)
  {
    var t := s[j - 1 := s[j]][j := s[j - 1]];
    assert s == s[..j - 1] + [s[j - 1], s[j]] + s[j + 1..];
    assert t == s[..j - 1] + [s[j], s[j - 1]] + s[j + 1..];
  }

  /** The state of an insertion that has moved the new element of
      `s[..i + 1]` to position `j`: apart from position `j` the prefix is
      sorted, the element at `j` is at least every size after it, and the one
      before it is at least every size after `j`. */
  predicate Inserting(s: seq<Report>, i: nat, j: nat)
  {
    j <= i < |s| &&
    (forall p, q :: 0 <= p < q <= i && p != j && q != j ==> s[p].size >= s[q].size) &&
    (forall q :: j < q <= i ==> s[j].size >= s[q].size) &&
    (0 < j ==> forall q :: j < q <= i ==> s[j - 1].size >= s[q].size)
  }

  lemma InsertingStart(s: seq<Report>, i: nat)
    requires i < |s| && SortedBySize(s[..i])
    ensures Inserting(s, i, i)
  {
    assert forall p :: 0 <= p < i ==> s[..i][p] == s[p];
  }

  lemma InsertingSwap(s: seq<Report>, i: nat, j: nat)
    requires Inserting(s, i, j) && 0 < j && s[j - 1].size < s[j].size
    ensures Inserting(s[j - 1 := s[j]][j := s[j - 1]], i, j - 1)
  {
  }

  lemma InsertingDone(s: seq<Report>, i: nat, j: nat)
    requires Inserting(s, i, j) && (j == 0 || s[j - 1].size >= s[j].size)
    ensures SortedBySize(s[..i + 1])
  {
    forall p, q | 0 <= p < q <= i ensures s[p].size >= s[q].size {
      if p < j && q == j && p < j - 1 {
        assert s[p].size >= s[j - 1].size;
      }
    }
  }

  /** One step of the insertion sort: the element at `i` is moved left past
      every smaller one, so that the first `i + 1` elements are sorted. */
  method InsertLast(a: array<Report>, i: nat)
    requires i < a.Length && SortedBySize(a[..i])
    modifies a
    ensures SortedBySize(a[..i + 1])
    ensures a[i + 1..] == old(a[i + 1..])
    ensures multiset(a[..]) == multiset(old(a[..]))
  {
    InsertingStart(a[..], i);
    var j: nat := i;
    while j > 0 && a[j - 1].size < a[j].size
      invariant Inserting(a[..], i, j)
      invariant a[i + 1..] == old(a[i + 1..])
      invariant multiset(a[..]) == multiset(old(a[..]))
    {
      SwapKeepsMultiset(a[..], j);
      InsertingSwap(a[..], i, j);
      a[j - 1], a[j] := a[j], a[j - 1];
      j := j - 1;
    }
    InsertingDone(a[..], i, j);
  }

  /** Sorts the slice in place, by insertion. */
  method SortBySize(a: array<Report>)
    modifies a
    ensures SortedBySize(a[..])
    ensures multiset(a[..]) == multiset(old(a[..]))
  {
    var i := 0;
    while i < a.Length
      invariant 0 <= i <= a.Length
      invariant SortedBySize(a[..i])
      invariant multiset(a[..]) == multiset(old(a[..]))
    {
      InsertLast(a, i);
      i := i + 1;
    }
    assert a[..a.Length] == a[..];
  }
}
