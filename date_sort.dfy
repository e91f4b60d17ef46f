/**
 The final step of `find_qualified_games`: game identifiers sorted by their
 stored date, most recent first, with a stable sort (`list.sort` with
 `reverse=True` keeps games of equal date in their original order).
 */
module DateSort {
  import opened Shooting

  /** Every game of `s` has a stored date. */
  predicate AllDated(s: seq<int>, dates: map<int, Date>) {
    forall k :: 0 <= k < |s| ==> s[k] in dates
  }

  /** No game is followed by a game with a later date. */
  predicate NewestFirst(s: seq<int>, dates: map<int, Date>)
    requires AllDated(s, dates)
  {
    forall i, j :: 0 <= i < j < |s| ==> !Before(dates[s[i]], dates[s[j]])
  }

  /** No game occurs twice. */
  predicate Distinct(s: seq<int>) {
    forall i, j :: 0 <= i < j < |s| ==> s[i] != s[j]
  }

  /** The games of `s` come in strictly increasing `rank`. */
  predicate Ranked(s: seq<int>, rank: int -> int) {
    forall i, j :: 0 <= i < j < |s| ==> rank(s[i]) < rank(s[j])
  }

  /** Games of `s` that share a date come in strictly increasing `rank`. */
  predicate TiesRanked(s: seq<int>, dates: map<int, Date>, rank: int -> int)
    requires AllDated(s, dates)
  {
    forall i, j :: 0 <= i < j < |s| && dates[s[i]] == dates[s[j]] ==> rank(s[i]) < rank(s[j])
  }

  /** `x` placed before the first game of `s` that is strictly older than it,
      hence after every game of the same date or newer. */
  function Insert(s: seq<int>, x: int, dates: map<int, Date>): (r: seq<int>)
    requires AllDated(s, dates) && x in dates
    ensures |r| == |s| + 1 && AllDated(r, dates)
  {
    if s == [] then [x]
    else if Before(dates[s[0]], dates[x]) then [x] + s
    else [s[0]] + Insert(s[1..], x, dates)
  }

  /** The stable newest-first sort of `s`: each game in turn is inserted into
      the sorted prefix before it. */
  function SortByDate(s: seq<int>, dates: map<int, Date>): (r: seq<int>)
    requires AllDated(s, dates)
    ensures |r| == |s| && AllDated(r, dates)
    decreases |s|
  {
    if s == [] then []
    else Insert(SortByDate(s[..|s| - 1], dates), s[|s| - 1], dates)
  }

  /** Inserting adds exactly `x`. */
  lemma {:induction false} InsertPermutes(s: seq<int>, x: int, dates: map<int, Date>)
    requires AllDated(s, dates) && x in dates
    ensures multiset(Insert(s, x, dates)) == multiset(s) + multiset{x}
  {
    if s != [] && !Before(dates[s[0]], dates[x]) {
      InsertPermutes(s[1..], x, dates);
      assert s == [s[0]] + s[1..];
    }
  }

  /** The sorted sequence is a permutation of its input. */
  lemma {:induction false} SortByDatePermutes(s: seq<int>, dates: map<int, Date>)
    requires AllDated(s, dates)
    ensures multiset(SortByDate(s, dates)) == multiset(s)
    decreases |s|
  {
    if s != [] {
      SortByDatePermutes(s[..|s| - 1], dates);
      InsertPermutes(SortByDate(s[..|s| - 1], dates), s[|s| - 1], dates);
      assert s == s[..|s| - 1] + [s[|s| - 1]];
    }
  }

  lemma InsertMembers(s: seq<int>, x: int, dates: map<int, Date>)
    requires AllDated(s, dates) && x in dates
    ensures forall y :: y in Insert(s, x, dates) <==> y in s || y == x
  {
    InsertPermutes(s, x, dates);
    forall y ensures y in Insert(s, x, dates) <==> y in s || y == x {
      assert y in Insert(s, x, dates) <==> y in multiset(Insert(s, x, dates));
    }
  }

  lemma SortByDateMembers(s: seq<int>, dates: map<int, Date>)
    requires AllDated(s, dates)
    ensures forall y :: y in SortByDate(s, dates) <==> y in s
  {
    SortByDatePermutes(s, dates);
    forall y ensures y in SortByDate(s, dates) <==> y in s {
      assert y in SortByDate(s, dates) <==> y in multiset(SortByDate(s, dates));
    }
  }

  lemma {:induction false} InsertNewestFirst(s: seq<int>, x: int, dates: map<int, Date>)
    requires AllDated(s, dates) && x in dates && NewestFirst(s, dates)
    ensures NewestFirst(Insert(s, x, dates), dates)
  {
    if s != [] && !Before(dates[s[0]], dates[x]) {
      var t := Insert(s[1..], x, dates);
      InsertNewestFirst(s[1..], x, dates);
      InsertMembers(s[1..], x, dates);
      forall k | 0 <= k < |t| ensures !Before(dates[s[0]], dates[t[k]]) {
        assert t[k] in s[1..] || t[k] == x;
      }
    }
  }

  /** The sorted sequence is newest first. */
  lemma {:induction false} SortByDateNewestFirst(s: seq<int>, dates: map<int, Date>)
    requires AllDated(s, dates)
    ensures NewestFirst(SortByDate(s, dates), dates)
    decreases |s|
  {
    if s != [] {
      SortByDateNewestFirst(s[..|s| - 1], dates);
      InsertNewestFirst(SortByDate(s[..|s| - 1], dates), s[|s| - 1], dates);
    }
  }

  lemma {:induction false} InsertTiesRanked(s: seq<int>, x: int, dates: map<int, Date>, rank: int -> int)
    requires AllDated(s, dates) && x in dates && NewestFirst(s, dates) && TiesRanked(s, dates, rank)
    requires forall k :: 0 <= k < |s| ==> rank(s[k]) < rank(x)
    ensures TiesRanked(Insert(s, x, dates), dates, rank)
  {
    if s == [] {
    } else if Before(dates[s[0]], dates[x]) {
      forall k | 0 < k < |s| ensures dates[s[k]] != dates[x] {
        assert !Before(dates[s[0]], dates[s[k]]);
      }
    } else {
      var t := Insert(s[1..], x, dates);
      InsertTiesRanked(s[1..], x, dates, rank);
      InsertMembers(s[1..], x, dates);
      forall k | 0 <= k < |t| ensures rank(s[0]) < rank(t[k]) || dates[s[0]] != dates[t[k]] {
        if t[k] != x {
          assert t[k] in s[1..];
          var m :| 0 <= m < |s[1..]| && s[1..][m] == t[k];
          assert s[m + 1] == t[k];
        }
      }
    }
  }

  /** Stability: when the input comes in increasing `rank`, games of equal
      date leave the sort in increasing `rank` (with rank = position in the
      input, they keep their original relative order). */
  lemma {:induction false} SortByDateStable(s: seq<int>, dates: map<int, Date>, rank: int -> int)
    requires AllDated(s, dates) && Ranked(s, rank)
    ensures TiesRanked(SortByDate(s, dates), dates, rank)
    decreases |s|
  {
    if s != [] {
      var init, x := s[..|s| - 1], s[|s| - 1];
      var t := SortByDate(init, dates);
      SortByDateStable(init, dates, rank);
      SortByDateNewestFirst(init, dates);
      SortByDateMembers(init, dates);
      forall k | 0 <= k < |t| ensures rank(t[k]) < rank(x) {
        assert t[k] in t;
        var m :| 0 <= m < |init| && init[m] == t[k];
        assert s[m] == t[k];
      }
      InsertTiesRanked(t, x, dates, rank);
    }
  }

  /** A sequence without repetitions stays without repetitions when sorted. */
  lemma {:induction false} SortByDateDistinct(s: seq<int>, dates: map<int, Date>)
    requires AllDated(s, dates) && Distinct(s)
    ensures Distinct(SortByDate(s, dates))
    decreases |s|
  {
    if s != [] {
      var init, x := s[..|s| - 1], s[|s| - 1];
      SortByDateDistinct(init, dates);
      SortByDateMembers(init, dates);
      InsertDistinct(SortByDate(init, dates), x, dates);
    }
  }

  lemma {:induction false} InsertDistinct(s: seq<int>, x: int, dates: map<int, Date>)
    requires AllDated(s, dates) && x in dates && Distinct(s) && x !in s
    ensures Distinct(Insert(s, x, dates))
  {
    if s != [] && !Before(dates[s[0]], dates[x]) {
      var t := Insert(s[1..], x, dates);
      InsertDistinct(s[1..], x, dates);
      InsertMembers(s[1..], x, dates);
      assert s[0] !in t by {
        assert s[0] != x && s[0] !in s[1..];
      }
      forall i, j | 0 <= i < j < |[s[0]] + t| ensures ([s[0]] + t)[i] != ([s[0]] + t)[j] {
        if i == 0 {
          assert ([s[0]] + t)[j] == t[j - 1];
        }
      }
    }
  }

  /** Where `Insert` places `x`: after the first `j` games of a newest-first
      `s`, when those are no older than `x` and the rest are strictly older. */
  lemma {:induction false} InsertAt(s: seq<int>, x: int, j: nat, dates: map<int, Date>)
    requires AllDated(s, dates) && x in dates && NewestFirst(s, dates)
    requires j <= |s|
    requires j > 0 ==> !Before(dates[s[j - 1]], dates[x])
    requires forall k :: j <= k < |s| ==> Before(dates[s[k]], dates[x])
    ensures Insert(s, x, dates) == s[..j] + [x] + s[j..]
  {
    if j > 0 {
      assert !Before(dates[s[0]], dates[s[j - 1]]);
      InsertAt(s[1..], x, j - 1, dates);
      assert s[..j] == [s[0]] + s[1..][..j - 1];
    }
  }

  /** Proof step for `SortInPlace`: unfolds `SortByDate` once at `s[..i + 1]`,
      so that sorting one more element is inserting it into the sorted prefix. */
  lemma SortByDateExtend(s: seq<int>, i: nat, dates: map<int, Date>)
    requires i < |s| && AllDated(s, dates)
    ensures AllDated(s[..i], dates)
    ensures SortByDate(s[..i + 1], dates) == Insert(SortByDate(s[..i], dates), s[i], dates)
  {
    assert s[..i + 1][..i] == s[..i];
  }

  /** Moves `a[i]` left into the newest-first prefix `a[..i]`, past every
      game strictly older than it. */
  method InsertInPlace(a: array<int>, i: nat, dates: map<int, Date>)
    requires i < a.Length && AllDated(a[..], dates) && NewestFirst(a[..i], dates)
    modifies a
    ensures AllDated(a[..], dates)
    ensures a[..i + 1] == Insert(old(a[..i]), old(a[i]), dates)
    ensures a[i + 1..] == old(a[i + 1..])
  {
    ghost var prefix := a[..i];
    var x := a[i];
    var j := i;
    while j > 0 && Before(dates[a[j - 1]], dates[x])
      invariant 0 <= j <= i
      invariant forall k :: 0 <= k < j ==> a[k] == prefix[k]
      invariant forall k :: j < k <= i ==> a[k] == prefix[k - 1]
      invariant forall k :: i < k < a.Length ==> a[k] == old(a[k])
      invariant forall k :: j <= k < i ==> Before(dates[prefix[k]], dates[x])
    {
      a[j] := a[j - 1];
      j := j - 1;
    }
    a[j] := x;
    assert a[..i + 1] == Insert(prefix, x, dates) by {
      InsertAt(prefix, x, j, dates);
      assert a[..i + 1] == prefix[..j] + [x] + prefix[j..];
    }
    assert a[i + 1..] == old(a[i + 1..]);
  }

  /** Sorts the array in place by date, most recent first, keeping games of
      equal date in their original order. */
  method SortInPlace(a: array<int>, dates: map<int, Date>)
    requires AllDated(a[..], dates)
    modifies a
    ensures a[..] == SortByDate(old(a[..]), dates)
  {
    ghost var original := a[..];
    var i := 0;
    while i < a.Length
      invariant 0 <= i <= a.Length
      invariant AllDated(a[..], dates)
      invariant a[..i] == SortByDate(original[..i], dates)
      invariant a[i..] == original[i..]
    {
      SortByDateNewestFirst(original[..i], dates);
      assert a[i] == original[i] && a[i + 1..] == original[i + 1..] by {
        assert a[i..][0] == a[i] && a[i..][1..] == a[i + 1..];
      }
      InsertInPlace(a, i, dates);
      SortByDateExtend(original, i, dates);
      i := i + 1;
    }
    assert a[..] == a[..a.Length];
    assert original == original[..a.Length];
  }
}
