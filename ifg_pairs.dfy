/** Interferogram pairing of `GAMMA/diff_by_number_nocoreg.py`: the SLC dates found in a
    directory listing are sorted, every date is paired with the next few later dates, and
    each pair is named `"{a}_{b}"` and split back into its two dates at fixed offsets. */
module IfgPairs {
  import opened Seqs
  import opened Text

  // ---------------------------------------------------------------- dates in a listing

  /** A directory name that is exactly eight ASCII digits: an SLC date. */
  predicate IsDate(name: string)
  {
    |name| == 8 && AllDigits(name)
  }

  /** What `re.match(r'^\d{8}$', name)` accepts: `$` also matches just before a final
      newline, so eight digits followed by `'\n'` pass as well. */
  predicate MatchesDatePattern(name: string)
  {
    IsDate(name) || (|name| == 9 && AllDigits(name[..8]) && name[8] == '\n')
  }

  /** The listing filter as written: the names the regular expression accepts, in order. */
  function SlcDatesAsWritten(names: seq<string>): seq<string>
  {
    Filter(MatchesDatePattern, names)
  }

  /** The listing filter: the names that are eight digits, in listing order. */
  function SlcDates(names: seq<string>): (dates: seq<string>)
    ensures forall d :: d in dates <==> d in names && IsDate(d)
    ensures forall d :: d in dates ==> |d| == 8 && '_' !in d
  {
    var dates := Filter(IsDate, names);
    forall d | d in dates
      ensures '_' !in d
    {
      assert forall k :: 0 <= k < |d| ==> IsDigit(d[k]);
    }
    dates
  }

  /** Two filters that agree on every element of `s` keep the same elements. */
  lemma {:induction false} FilterAgree<T>(p: T -> bool, q: T -> bool, s: seq<T>)
    requires forall x :: x in s ==> p(x) == q(x)
    ensures Filter(p, s) == Filter(q, s)
  {
    if s != [] {
      FilterAgree(p, q, s[1..]);
    }
  }

  /** On a listing in which no name holds a newline, the regular expression accepts exactly
      the eight-digit names. */
  lemma DateFiltersAgree(names: seq<string>)
    requires forall name :: name in names ==> '\n' !in name
    ensures SlcDatesAsWritten(names) == SlcDates(names)
  {
    forall name | name in names
      ensures MatchesDatePattern(name) == IsDate(name)
    {
      if |name| == 9 {
        assert name[8] in name;
      }
    }
    FilterAgree(MatchesDatePattern, IsDate, names);
  }

  // ---------------------------------------------------------------- pair names

  /** `f"{a}_{b}"`: the name of the interferogram of dates `a` and `b`. */
  function PairName(a: string, b: string): string
  {
    a + "_" + b
  }

  /** `i[0:8]` and `i[9:17]` recover both dates of a name built from eight-character dates. */
  lemma SplitPairName(a: string, b: string)
    requires |a| == 8 && |b| == 8
    ensures Slice(PairName(a, b), 0, 8) == a
    ensures Slice(PairName(a, b), 9, 17) == b
  {
    var p := PairName(a, b);
    assert p[..8] == a;
    assert p[9..17] == b;
  }

  /** A name without `'_'` is told apart from the other date of the pair. */
  lemma PairNameInjective(a: string, b: string, c: string, d: string)
    requires '_' !in a && '_' !in c
    requires PairName(a, b) == PairName(c, d)
    ensures a == c && b == d
  {
    JoinInjective(a, b, c, d, '_');
  }

  /** The name with the newline sorts before the next day's date: they first differ at
      position 7, where `'1' < '2'`. */
  lemma NewlineDateSortsFirst()
    ensures LexLess("20200101\n", "20200102")
  {
    var a, b := "20200101\n", "20200102";
    assert LexLess(a[7..], b[7..]);
    assert a[6..][1..] == a[7..] && b[6..][1..] == b[7..];
    assert LexLess(a[6..], b[6..]);
    assert a[5..][1..] == a[6..] && b[5..][1..] == b[6..];
    assert LexLess(a[5..], b[5..]);
    assert a[4..][1..] == a[5..] && b[4..][1..] == b[5..];
    assert LexLess(a[4..], b[4..]);
    assert a[3..][1..] == a[4..] && b[3..][1..] == b[4..];
    assert LexLess(a[3..], b[3..]);
    assert a[2..][1..] == a[3..] && b[2..][1..] == b[3..];
    assert LexLess(a[2..], b[2..]);
    assert a[1..][1..] == a[2..] && b[1..][1..] == b[2..];
    assert LexLess(a[1..], b[1..]);
  }

  /** Two dates with one connection give the one name of the pair. */
  lemma InterferogramsOfTwo(s: seq<string>)
    requires |s| == 2
    ensures Interferograms(s, 1) == [PairName(s[0], s[1])]
  {
    assert NamesUpTo(s, 1, 1) == GroupNames(s, 0, 1);
  }

  /** A filter that accepts both of two elements keeps both. */
  lemma FilterKeepsTwo<T>(p: T -> bool, a: T, b: T)
    requires p(a) && p(b)
    ensures Filter(p, [a, b]) == [a, b]
  {
    assert [a, b][1..] == [b] && [b][1..] == [];
  }

  /** `sorted()` leaves two strings already in ascending order as they are. */
  lemma SortTwo(a: string, b: string)
    requires LexLess(a, b)
    ensures Sort([a, b]) == [a, b]
  {
    assert Sorted([a, b]);
    SortedUnique(Sort([a, b]), [a, b]);
  }

  /** A listing holding `"20200101\n"`, which the regular expression accepts, and the date
      `"20200102"`: sorting the dates the filter as written keeps and pairing them with one
      connection gives a single name, and slicing it at `[9:17]` does not give the second
      date back. */
  lemma NewlineDateBreaksSplit()
    ensures MatchesDatePattern("20200101\n") && !IsDate("20200101\n")
    ensures var names := Interferograms(Sort(SlcDatesAsWritten(["20200101\n", "20200102"])), 1);
      |names| == 1 && Slice(names[0], 9, 17) != "20200102"
  {
    var a, b := "20200101\n", "20200102";
    var listing := [a, b];
    assert MatchesDatePattern(a) && MatchesDatePattern(b);
    FilterKeepsTwo(MatchesDatePattern, a, b);
    NewlineDateSortsFirst();
    SortTwo(a, b);
    InterferogramsOfTwo(listing);
    var p := PairName(a, b);
    assert p[9] == '_';
  }

  // ---------------------------------------------------------------- positions of the pairs

  function Min(a: int, b: int): int
  {
    if a < b then a else b
  }

  function Max(a: int, b: int): int
  {
    if a < b then b else a
  }

  /** How many later dates the date at sorted position `i` is paired with:
      `min(n, length - i - 1)`, and none when `n` is not positive. */
  function Partners(length: nat, i: nat, n: int): nat
    requires i < length
  {
    Min(Max(n, 0), length - i - 1)
  }

  /** The names of date `i` of the sorted list `s` with each of the next `m` dates. */
  function GroupNames(s: seq<string>, i: nat, m: nat): (r: seq<string>)
    requires i + m < |s|
    ensures |r| == m
    ensures forall k :: 0 <= k < m ==> r[k] == PairName(s[i], s[i + k + 1])
  {
    if m == 0 then [] else GroupNames(s, i, m - 1) + [PairName(s[i], s[i + m])]
  }

  /** The names produced for the first `count` dates of the sorted list `s`, group after group. */
  function NamesUpTo(s: seq<string>, n: int, count: nat): seq<string>
    requires count <= |s|
  {
    if count == 0 then []
    else NamesUpTo(s, n, count - 1) + GroupNames(s, count - 1, Partners(|s|, count - 1, n))
  }

  /** The interferogram names of the sorted date list `s` with `n` connections. */
  function Interferograms(s: seq<string>, n: int): seq<string>
  {
    NamesUpTo(s, n, |s|)
  }

  // ---------------------------------------------------------------- gen_ifg_pairs

  /** The inner loop `for j in range(m)`: append the names of date `i` with each of the next
      `m` dates (none when `m` is not positive). */
  method AppendPartners(s: seq<string>, i: nat, m: int, acc: seq<string>) returns (r: seq<string>)
    requires i < |s| && i + m < |s|
    ensures r == acc + GroupNames(s, i, Max(m, 0))
  {
    r := acc;
    var j := 0;
    while j < m
      invariant 0 <= j <= Max(m, 0)
      invariant r == acc + GroupNames(s, i, j)
    {
      r := r + [PairName(s[i], s[i + j + 1])];
      j := j + 1;
    }
  }

  /** gen_ifg_pairs: sort the dates; a date with more than `n` later dates is paired with the
      next `n` of them, any other date with all of its later dates. */
  method GenIfgPairs(slcDate: seq<string>, numConnections: int) returns (ifgPairs: seq<string>)
    ensures ifgPairs == Interferograms(Sort(slcDate), numConnections)
  {
    var s := Sort(slcDate);
    ifgPairs := [];
    var length := |s|;
    for i := 0 to length
      invariant ifgPairs == NamesUpTo(s, numConnections, i)
    {
      if i < length - numConnections {
        ifgPairs := AppendPartners(s, i, numConnections, ifgPairs);
      } else {
        ifgPairs := AppendPartners(s, i, length - i - 1, ifgPairs);
      }
    }
  }

  // ---------------------------------------------------------------- positions of the pairs

  /** The position pairs `(i, i + 1)`, ..., `(i, i + m)`, in that order. */
  function Group(i: nat, m: nat): (g: seq<(nat, nat)>)
    ensures |g| == m
    ensures forall k :: 0 <= k < m ==> g[k] == (i, i + k + 1)
  {
    if m == 0 then [] else Group(i, m - 1) + [(i, i + m)]
  }

  /** The sorted positions behind the names of the first `count` dates of a list of `length`:
      each pair is a date and a strictly later one, both inside the list and at most `n` apart,
      so every index the loops use is below `length`. */
  function IndexPairs(length: nat, n: int, count: nat): (ps: seq<(nat, nat)>)
    requires count <= length
    ensures forall k :: 0 <= k < |ps| ==>
      ps[k].0 < count && ps[k].0 < ps[k].1 < length && ps[k].1 - ps[k].0 <= n
  {
    if count == 0 then []
    else
      var front := IndexPairs(length, n, count - 1);
      var g := Group(count - 1, Partners(length, count - 1, n));
      assert forall k :: |front| <= k < |front| + |g| ==> (front + g)[k] == g[k - |front|];
      front + g
  }

  /** Every name is the pair of the dates at its two positions. */
  lemma {:induction false} NamesAt(s: seq<string>, n: int, count: nat)
    requires count <= |s|
    ensures |NamesUpTo(s, n, count)| == |IndexPairs(|s|, n, count)|
    ensures forall k :: 0 <= k < |IndexPairs(|s|, n, count)| ==>
      NamesUpTo(s, n, count)[k] == PairName(s[IndexPairs(|s|, n, count)[k].0], s[IndexPairs(|s|, n, count)[k].1])
  {
    if count > 0 {
      NamesAt(s, n, count - 1);
    }
  }

  /** The pair of positions `(i, j)` is produced exactly when `j` is one of the next `n`
      positions after `i`. */
  lemma {:induction false} IndexPairMember(length: nat, n: int, count: nat, i: nat, j: nat)
    requires count <= length
    ensures (i, j) in IndexPairs(length, n, count) <==> i < count && i < j < length && j - i <= n
  {
    if count > 0 {
      IndexPairMember(length, n, count - 1, i, j);
      var g := Group(count - 1, Partners(length, count - 1, n));
      if i == count - 1 && i < j < length && j - i <= n {
        assert g[j - i - 1] == (i, j);
      }
    }
  }

  /** `(i, j)` comes before `(i', j')`: a smaller first position, or the same one and a smaller
      second position. */
  predicate PairLess(p: (nat, nat), q: (nat, nat))
  {
    p.0 < q.0 || (p.0 == q.0 && p.1 < q.1)
  }

  /** The output is grouped by first date in ascending order, with the second dates ascending
      within each group. */
  lemma {:induction false} IndexPairsAscending(length: nat, n: int, count: nat)
    requires count <= length
    ensures forall k, l :: 0 <= k < l < |IndexPairs(length, n, count)| ==>
      PairLess(IndexPairs(length, n, count)[k], IndexPairs(length, n, count)[l])
  {
    if count > 0 {
      var front := IndexPairs(length, n, count - 1);
      var g := Group(count - 1, Partners(length, count - 1, n));
      var ps := front + g;
      IndexPairsAscending(length, n, count - 1);
      forall k, l | 0 <= k < l < |ps|
        ensures PairLess(ps[k], ps[l])
      {
        if l < |front| {
          assert ps[k] == front[k] && ps[l] == front[l];
        } else if k < |front| {
          assert ps[k] == front[k] && ps[l] == g[l - |front|];
        } else {
          assert ps[k] == g[k - |front|] && ps[l] == g[l - |front|];
        }
      }
    }
  }

  /** The pairs whose first position is `i`. */
  function From(i: nat): ((nat, nat)) -> bool
  {
    (p: (nat, nat)) => p.0 == i
  }

  /** The pairs of the last group added are exactly that group. */
  lemma GroupOfLastDate(length: nat, n: int, count: nat)
    requires 0 < count <= length
    ensures Filter(From(count - 1), IndexPairs(length, n, count)) == Group(count - 1, Partners(length, count - 1, n))
  {
    var i := count - 1;
    var front := IndexPairs(length, n, i);
    var g := Group(i, Partners(length, i, n));
    assert IndexPairs(length, n, count) == front + g;
    FilterAppend(From(i), front, g);
    forall p | p in front
      ensures !From(i)(p)
    {
      var k :| 0 <= k < |front| && front[k] == p;
    }
    FilterNone(From(i), front);
    FilterAll(From(i), g);
    assert [] + g == g;
  }

  /** Adding the group of a later date adds no pair of an earlier one. */
  lemma GroupOfEarlierDate(length: nat, n: int, count: nat, i: nat)
    requires i + 1 < count <= length
    ensures Filter(From(i), IndexPairs(length, n, count)) == Filter(From(i), IndexPairs(length, n, count - 1))
  {
    var front := IndexPairs(length, n, count - 1);
    var g := Group(count - 1, Partners(length, count - 1, n));
    assert IndexPairs(length, n, count) == front + g;
    FilterAppend(From(i), front, g);
    FilterNone(From(i), g);
    assert Filter(From(i), front) + [] == Filter(From(i), front);
  }

  /** Date `i` is paired with exactly the next `min(n, length - i - 1)` dates, in order. */
  lemma {:induction false} GroupOfDate(length: nat, n: int, count: nat, i: nat)
    requires i < count <= length
    ensures Filter(From(i), IndexPairs(length, n, count)) == Group(i, Partners(length, i, n))
  {
    var ps := IndexPairs(length, n, count);
    var g := Group(i, Partners(length, i, n));
    if i == count - 1 {
      GroupOfLastDate(length, n, count);
      assert Filter(From(i), ps) == g;
    } else {
      GroupOfEarlierDate(length, n, count, i);
      GroupOfDate(length, n, count - 1, i);
      assert Filter(From(i), ps) == Filter(From(i), IndexPairs(length, n, count - 1));
      assert Filter(From(i), ps) == g;
    }
  }

  // ---------------------------------------------------------------- counts

  /** A non-positive connection count yields no interferograms at all. */
  lemma {:induction false} NoPairsWhenNonPositive(s: seq<string>, n: int, count: nat)
    requires n <= 0 && count <= |s|
    ensures NamesUpTo(s, n, count) == []
  {
    if count > 0 {
      NoPairsWhenNonPositive(s, n, count - 1);
    }
  }

  /** With `n` at least `length - 1`, the first `count` dates give
      `count * (2 * length - count - 1) / 2` names. */
  lemma {:induction false} AllPairsUpTo(s: seq<string>, n: int, count: nat)
    requires n >= |s| - 1 && count <= |s|
    ensures 2 * |NamesUpTo(s, n, count)| == count * (2 * |s| - count - 1)
  {
    if count > 0 {
      var L := |s|;
      AllPairsUpTo(s, n, count - 1);
      assert Partners(L, count - 1, n) == L - count;
      assert |NamesUpTo(s, n, count)| == |NamesUpTo(s, n, count - 1)| + (L - count);
      assert (count - 1) * (2 * L - count) + 2 * (L - count) == count * (2 * L - count - 1);
    }
  }

  /** With `n` at least `length - 1` every two dates are paired: `length * (length - 1) / 2`
      names. */
  lemma AllPairsCount(s: seq<string>, n: int)
    requires n >= |s| - 1
    ensures |Interferograms(s, n)| == |s| * (|s| - 1) / 2
  {
    AllPairsUpTo(s, n, |s|);
  }

  // ---------------------------------------------------------------- properties of the names

  /** Dates without duplicates and without `'_'` give interferogram names without duplicates. */
  lemma InterferogramsDistinct(s: seq<string>, n: int)
    requires Distinct(s)
    requires forall d :: d in s ==> '_' !in d
    ensures Distinct(Interferograms(s, n))
  {
    var r := Interferograms(s, n);
    var ps := IndexPairs(|s|, n, |s|);
    NamesAt(s, n, |s|);
    IndexPairsAscending(|s|, n, |s|);
    forall k, l | 0 <= k < l < |r|
      ensures r[k] != r[l]
    {
      assert s[ps[k].0] in s && s[ps[l].0] in s;
      if ps[k].0 != ps[l].0 {
        assert s[ps[k].0] != s[ps[l].0];
      } else {
        assert s[ps[k].1] != s[ps[l].1];
      }
      if r[k] == r[l] {
        PairNameInjective(s[ps[k].0], s[ps[k].1], s[ps[l].0], s[ps[l].1]);
      }
    }
  }

  /** In every name over a strictly ascending list, the first date is the earlier one, and the
      names are ordered by first date, then by second date. */
  lemma InterferogramsOrdered(s: seq<string>, n: int, k: nat, l: nat)
    requires StrictlySorted(s)
    requires k < l < |IndexPairs(|s|, n, |s|)|
    ensures var ps := IndexPairs(|s|, n, |s|);
      LexLess(s[ps[k].0], s[ps[k].1]) &&
      (LexLess(s[ps[k].0], s[ps[l].0]) || (ps[k].0 == ps[l].0 && LexLess(s[ps[k].1], s[ps[l].1])))
  {
    NamesAt(s, n, |s|);
    IndexPairsAscending(|s|, n, |s|);
  }

  /** The interferograms of a directory listing: splitting each name at `[0:8]` and `[9:17]`
      gives back the two dates at its positions in the sorted list of eight-digit names. */
  lemma SplitBack(names: seq<string>, n: int, k: nat)
    requires k < |IndexPairs(|Sort(SlcDates(names))|, n, |Sort(SlcDates(names))|)|
    ensures var s := Sort(SlcDates(names));
      var ps := IndexPairs(|s|, n, |s|);
      k < |Interferograms(s, n)| &&
      Slice(Interferograms(s, n)[k], 0, 8) == s[ps[k].0] &&
      Slice(Interferograms(s, n)[k], 9, 17) == s[ps[k].1]
  {
    var s := Sort(SlcDates(names));
    var ps := IndexPairs(|s|, n, |s|);
    NamesAt(s, n, |s|);
    assert s[ps[k].0] in multiset(s) && s[ps[k].1] in multiset(s);
    SplitPairName(s[ps[k].0], s[ps[k].1]);
  }

  /** gen_ifg_pairs over the dates of a listing, which has no duplicate names, gives no name
      twice. */
  lemma GenIfgPairsDistinct(names: seq<string>, n: int)
    requires Distinct(names)
    ensures Distinct(Interferograms(Sort(SlcDates(names)), n))
  {
    var dates := SlcDates(names);
    FilterDistinct(IsDate, names);
    var s := Sort(dates);
    DistinctPermutation(dates, s);
    forall d | d in s
      ensures '_' !in d
    {
      assert d in multiset(s);
    }
    InterferogramsDistinct(s, n);
  }
}
