/**
 * The overlap test that page validation runs: sort the record ranges by start, then look only at
 * neighbours. It decides whether all ranges, in any order, are pairwise apart.
 */
module Ranges {

  datatype Range = Range(start: nat, end: nat)

  predicate Apart(p: Range, q: Range) {
    p.end <= q.start || q.end <= p.start
  }

  ghost predicate PairwiseApart(s: seq<Range>) {
    forall i, j | 0 <= i < j < |s| :: Apart(s[i], s[j])
  }

  predicate NonEmpty(s: seq<Range>) {
    forall i | 0 <= i < |s| :: s[i].start < s[i].end
  }

  predicate SortedByStart(s: seq<Range>) {
    forall i, j | 0 <= i < j < |s| :: s[i].start <= s[j].start
  }

  /** The neighbour test: no range runs into the next one. */
  predicate WindowsApart(s: seq<Range>) {
    forall i | 0 <= i < |s| - 1 :: s[i].end <= s[i + 1].start
  }

  /** Pairwise apart, said of an unordered collection. */
  ghost predicate BagApart(m: multiset<Range>) {
    && (forall r | r in m :: m[r] == 1)
    && (forall r, q | r in m && q in m && r != q :: Apart(r, q))
  }

  lemma CountAt<T>(s: seq<T>, i: nat)
    requires i < |s|
    ensures multiset(s) == multiset(s[..i]) + multiset{s[i]} + multiset(s[i + 1..])
  {
    assert s == s[..i] + [s[i]] + s[i + 1..];
  }

  lemma ApartElementsAreUnique(s: seq<Range>, r: Range)
    requires NonEmpty(s) && PairwiseApart(s) && r in s
    ensures multiset(s)[r] == 1
  {
    var i :| 0 <= i < |s| && s[i] == r;
    CountAt(s, i);
    assert r !in s[..i] && r !in s[i + 1..];
  }

  lemma UniqueElementsDiffer<T>(s: seq<T>, i: nat, j: nat)
    requires i < j < |s| && multiset(s)[s[i]] == 1
    ensures s[i] != s[j]
  {
    CountAt(s, i);
    assert s[j] == s[i + 1..][j - i - 1];
    assert s[j] in multiset(s[i + 1..]);
  }

  lemma BagForm(s: seq<Range>)
    requires NonEmpty(s)
    ensures PairwiseApart(s) <==> BagApart(multiset(s))
  {
    if PairwiseApart(s) {
      forall r | r in multiset(s) ensures multiset(s)[r] == 1 {
        ApartElementsAreUnique(s, r);
      }
    }
    if BagApart(multiset(s)) {
      forall i, j | 0 <= i < j < |s| ensures Apart(s[i], s[j]) {
        UniqueElementsDiffer(s, i, j);
      }
    }
  }

  lemma {:induction false} WindowsReach(s: seq<Range>, i: nat, j: nat)
    requires NonEmpty(s) && WindowsApart(s)
    requires i < j < |s|
    ensures s[i].end <= s[j].start
  {
    if i + 1 < j {
      WindowsReach(s, i, j - 1);
    }
  }

  /** Testing the neighbours of any sorted arrangement decides disjointness of the whole collection. */
  lemma WindowTestIsExact(ranges: seq<Range>, sorted: seq<Range>)
    requires NonEmpty(ranges) && multiset(sorted) == multiset(ranges) && SortedByStart(sorted)
    ensures WindowsApart(sorted) <==> PairwiseApart(ranges)
  {
    forall i | 0 <= i < |sorted| ensures sorted[i].start < sorted[i].end {
      assert sorted[i] in multiset(ranges);
    }
    BagForm(ranges);
    BagForm(sorted);
    if WindowsApart(sorted) {
      forall i, j | 0 <= i < j < |sorted| ensures Apart(sorted[i], sorted[j]) {
        WindowsReach(sorted, i, j);
      }
    }
  }

  /** Stands for the library sort; WindowTestIsExact holds of any sorted arrangement it may return. */
  function SortByStart(s: seq<Range>): (r: seq<Range>)
    ensures multiset(r) == multiset(s) && SortedByStart(r)
  {
    if s == [] then []
    else
      assert s == [s[0]] + s[1..];
      InsertByStart(s[0], SortByStart(s[1..]))
  }

  function InsertByStart(x: Range, s: seq<Range>): (r: seq<Range>)
    requires SortedByStart(s)
    ensures multiset(r) == multiset(s) + multiset{x} && SortedByStart(r)
  {
    if s == [] || x.start <= s[0].start then [x] + s
    else
      assert s == [s[0]] + s[1..];
      var rest := InsertByStart(x, s[1..]);
      SortedCons(s, x, rest);
      [s[0]] + rest
  }

  lemma SortedCons(s: seq<Range>, x: Range, rest: seq<Range>)
    requires SortedByStart(s) && s != [] && s[0].start < x.start
    requires SortedByStart(rest) && multiset(rest) == multiset(s[1..]) + multiset{x}
    ensures SortedByStart([s[0]] + rest)
  {
    forall i | 0 <= i < |rest| ensures s[0].start <= rest[i].start {
      assert rest[i] in multiset(rest);
      if rest[i] != x {
        assert rest[i] in s[1..];
      }
    }
  }
}
