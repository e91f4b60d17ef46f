/**
 `find_qualified_games` (game_finder.py): count, per game, the records whose
 True Shooting percentage reaches the cutoff; keep the games with at least
 `player_count` such records; list them most recent game first.

 The reference functions below say what the routine computes, read straight
 from the records; `FindQualifiedGames` is the routine's loop, proved to
 compute exactly `QualifiedGames`.
 */
module GameFinder {
  import opened Shooting
  import opened DateSort

  /** The games that have at least one record. */
  function GameIds(records: seq<Record>): set<int> {
    set k | 0 <= k < |records| :: records[k].gameID
  }

  /** The record is one of game `g` and reaches the cutoff. */
  predicate QualifiesFor(r: Record, cutoff: nat, g: int) {
    r.gameID == g && Qualifies(r, cutoff)
  }

  /** How many records of game `g` reach the cutoff. Every record counts on
      its own: the player identifier plays no part. */
  function QualCount(records: seq<Record>, cutoff: nat, g: int): (n: nat)
    ensures n <= |records|
  {
    if records == [] then 0
    else (if QualifiesFor(records[0], cutoff, g) then 1 else 0) + QualCount(records[1..], cutoff, g)
  }

  /** Position of the first record of game `g`; `|records|` when it has none. */
  function FirstRecord(records: seq<Record>, g: int): (k: nat)
    ensures k <= |records|
    ensures k < |records| ==> records[k].gameID == g
    ensures forall j :: 0 <= j < k ==> records[j].gameID != g
  {
    if records == [] then 0
    else if records[0].gameID == g then 0
    else 1 + FirstRecord(records[1..], g)
  }

  /** Position of the first record of game `g` that reaches the cutoff;
      `|records|` when it has none. */
  function FirstQualifying(records: seq<Record>, cutoff: nat, g: int): (k: nat)
    ensures k <= |records|
    ensures k < |records| ==> QualifiesFor(records[k], cutoff, g)
    ensures forall j :: 0 <= j < k ==> !QualifiesFor(records[j], cutoff, g)
  {
    if records == [] then 0
    else if QualifiesFor(records[0], cutoff, g) then 0
    else 1 + FirstQualifying(records[1..], cutoff, g)
  }

  /** The `game_dates` dictionary after the loop: every game with a record,
      mapped to the date of its first record. */
  function GameDates(records: seq<Record>): map<int, Date> {
    map g | g in GameIds(records) :: records[FirstRecord(records, g)].gameDate
  }

  /** The key order of the `game_player_count` dictionary: a game enters it
      with its first qualifying record. */
  function QualifyingOrder(records: seq<Record>, cutoff: nat): seq<int> {
    if records == [] then []
    else
      var order := QualifyingOrder(records[..|records| - 1], cutoff);
      var r := records[|records| - 1];
      if Qualifies(r, cutoff) && r.gameID !in order then order + [r.gameID] else order
  }

  /** The `game_player_count` dictionary after the loop. */
  function QualifyingCounts(records: seq<Record>, cutoff: nat): map<int, nat> {
    map g | g in QualifyingOrder(records, cutoff) :: QualCount(records, cutoff, g)
  }

  /** The comprehension over the count dictionary: the games of `order`, in
      that order, whose count is at least `playerCount`. */
  function Select(order: seq<int>, counts: map<int, nat>, playerCount: nat): (selected: seq<int>)
    requires forall k :: 0 <= k < |order| ==> order[k] in counts
    ensures forall g :: g in selected <==> g in order && counts[g] >= playerCount
  {
    if order == [] then []
    else (if counts[order[0]] >= playerCount then [order[0]] else []) + Select(order[1..], counts, playerCount)
  }

  /** What `find_qualified_games` returns. */
  function QualifiedGames(records: seq<Record>, cutoff: nat, playerCount: nat): seq<int> {
    var selected := Select(QualifyingOrder(records, cutoff), QualifyingCounts(records, cutoff), playerCount);
    QualifyingGamesHaveDates(records, cutoff);
    SortByDate(selected, GameDates(records))
  }

  // ---------------------------------------------------------------------------
  // One more record: how each reference function changes.

  lemma {:induction false} QualCountAppend(s: seq<Record>, r: Record, cutoff: nat, g: int)
    ensures QualCount(s + [r], cutoff, g) == QualCount(s, cutoff, g) + if QualifiesFor(r, cutoff, g) then 1 else 0
  {
    if s != [] {
      assert (s + [r])[1..] == s[1..] + [r];
      QualCountAppend(s[1..], r, cutoff, g);
    }
  }

  /** Records after the first record of a game do not move it. */
  lemma FirstRecordAppend(s: seq<Record>, t: seq<Record>, g: int)
    ensures FirstRecord(s, g) < |s| ==> FirstRecord(s + t, g) == FirstRecord(s, g)
    ensures FirstRecord(s, g) == |s| ==> FirstRecord(s + t, g) == |s| + FirstRecord(t, g)
  {
    var k, k' := FirstRecord(s, g), FirstRecord(s + t, g);
    if k < |s| {
      assert (s + t)[k] == s[k];
    } else {
      var m := FirstRecord(t, g);
      assert m < |t| ==> (s + t)[|s| + m] == t[m];
      assert |s| <= k' < |s| + |t| ==> (s + t)[k'] == t[k' - |s|];
    }
  }

  lemma FirstQualifyingAppend(s: seq<Record>, r: Record, cutoff: nat, g: int)
    ensures FirstQualifying(s, cutoff, g) < |s| ==> FirstQualifying(s + [r], cutoff, g) == FirstQualifying(s, cutoff, g)
    ensures FirstQualifying(s, cutoff, g) == |s| && QualifiesFor(r, cutoff, g) ==> FirstQualifying(s + [r], cutoff, g) == |s|
    ensures FirstQualifying(s, cutoff, g) == |s| && !QualifiesFor(r, cutoff, g) ==> FirstQualifying(s + [r], cutoff, g) == |s| + 1
  {
    var k, k' := FirstQualifying(s, cutoff, g), FirstQualifying(s + [r], cutoff, g);
    assert (s + [r])[|s|] == r;
    if k < |s| {
      assert (s + [r])[k] == s[k];
    }
    if k' < |s| {
      assert (s + [r])[k'] == s[k'];
    }
  }

  /** A game has a qualifying record exactly when its count is positive. */
  lemma {:induction false} QualCountPositive(s: seq<Record>, cutoff: nat, g: int)
    ensures QualCount(s, cutoff, g) > 0 <==> FirstQualifying(s, cutoff, g) < |s|
  {
    if s != [] {
      QualCountPositive(s[1..], cutoff, g);
    }
  }

  /** The count dictionary's keys are the games with a qualifying record. */
  lemma {:induction false} QualifyingOrderMembers(s: seq<Record>, cutoff: nat)
    ensures forall g :: g in QualifyingOrder(s, cutoff) <==> FirstQualifying(s, cutoff, g) < |s|
    decreases |s|
  {
    if s != [] {
      var init, r := s[..|s| - 1], s[|s| - 1];
      assert s == init + [r];
      QualifyingOrderMembers(init, cutoff);
      forall g ensures g in QualifyingOrder(s, cutoff) <==> FirstQualifying(s, cutoff, g) < |s| {
        FirstQualifyingAppend(init, r, cutoff, g);
      }
    }
  }

  /** Every game of the count dictionary has a record, hence a date. */
  lemma QualifyingGamesHaveDates(s: seq<Record>, cutoff: nat)
    ensures forall g :: g in QualifyingOrder(s, cutoff) ==> g in GameDates(s)
  {
    QualifyingOrderMembers(s, cutoff);
    forall g | g in QualifyingOrder(s, cutoff) ensures g in GameIds(s) {
      assert s[FirstQualifying(s, cutoff, g)].gameID == g;
    }
  }

  /** The count dictionary's keys come in the order of each game's first
      qualifying record. */
  lemma {:induction false} QualifyingOrderRanked(s: seq<Record>, cutoff: nat)
    ensures Ranked(QualifyingOrder(s, cutoff), g => FirstQualifying(s, cutoff, g))
    decreases |s|
  {
    if s != [] {
      var init, r := s[..|s| - 1], s[|s| - 1];
      assert s == init + [r];
      QualifyingOrderRanked(init, cutoff);
      QualifyingOrderMembers(init, cutoff);
      var order := QualifyingOrder(init, cutoff);
      forall k | 0 <= k < |order|
        ensures FirstQualifying(s, cutoff, order[k]) == FirstQualifying(init, cutoff, order[k]) < |init|
      {
        FirstQualifyingAppend(init, r, cutoff, order[k]);
      }
      if Qualifies(r, cutoff) && r.gameID !in order {
        FirstQualifyingAppend(init, r, cutoff, r.gameID);
      }
    }
  }

  /** Proof step for the loop of `FindQualifiedGames`: unfolds
      `QualifyingOrder` once at `s + [r]`. */
  lemma QualifyingOrderAppend(s: seq<Record>, r: Record, cutoff: nat)
    ensures QualifyingOrder(s + [r], cutoff)
      == if Qualifies(r, cutoff) && r.gameID !in QualifyingOrder(s, cutoff)
         then QualifyingOrder(s, cutoff) + [r.gameID] else QualifyingOrder(s, cutoff)
  {
    assert (s + [r])[..|s|] == s;
  }

  lemma QualifyingCountsAppend(s: seq<Record>, r: Record, cutoff: nat)
    ensures QualifyingCounts(s + [r], cutoff)
      == if !Qualifies(r, cutoff) then QualifyingCounts(s, cutoff)
         else if r.gameID in QualifyingCounts(s, cutoff)
         then QualifyingCounts(s, cutoff)[r.gameID := QualifyingCounts(s, cutoff)[r.gameID] + 1]
         else QualifyingCounts(s, cutoff)[r.gameID := 1]
  {
    var m, m' := QualifyingCounts(s, cutoff), QualifyingCounts(s + [r], cutoff);
    var expected := if !Qualifies(r, cutoff) then m
      else if r.gameID in m then m[r.gameID := m[r.gameID] + 1]
      else m[r.gameID := 1];
    assert m'.Keys == expected.Keys by {
      QualifyingOrderAppend(s, r, cutoff);
    }
    forall g | g in m' ensures m'[g] == expected[g] {
      QualCountAppend(s, r, cutoff, g);
      if g !in m {
        QualifyingOrderMembers(s, cutoff);
        QualCountPositive(s, cutoff, g);
      }
    }
  }

  lemma GameIdsAppend(s: seq<Record>, r: Record)
    ensures GameIds(s + [r]) == GameIds(s) + {r.gameID}
  {
    assert (s + [r])[|s|] == r;
    forall k | 0 <= k < |s| ensures (s + [r])[k] == s[k] { }
  }

  lemma GameDateAppend(s: seq<Record>, r: Record, g: int)
    requires g in GameIds(s + [r])
    ensures GameDates(s + [r])[g] == if g in GameIds(s) then GameDates(s)[g] else r.gameDate
  {
    FirstRecordAppend(s, [r], g);
    if g in GameIds(s) {
      var k :| 0 <= k < |s| && s[k].gameID == g;
      assert FirstRecord(s, g) <= k;
      assert (s + [r])[FirstRecord(s, g)] == s[FirstRecord(s, g)];
    } else {
      assert FirstRecord(s, g) == |s|;
      assert (s + [r])[|s|] == r;
    }
  }

  /** The first date stored for a game is never overwritten. */
  lemma GameDatesAppend(s: seq<Record>, r: Record)
    ensures GameDates(s + [r])
      == if r.gameID in GameDates(s) then GameDates(s) else GameDates(s)[r.gameID := r.gameDate]
  {
    var after := GameDates(s + [r]);
    var expected := if r.gameID in GameDates(s) then GameDates(s) else GameDates(s)[r.gameID := r.gameDate];
    assert after.Keys == expected.Keys by {
      GameIdsAppend(s, r);
    }
    forall g | g in after ensures after[g] == expected[g] {
      GameDateAppend(s, r, g);
    }
  }

  // ---------------------------------------------------------------------------
  // The routine.

  /** `find_qualified_games`: one pass over the records fills the count and
      date dictionaries, the comprehension keeps the games with enough
      qualifying records, and the list is sorted in place by date, most
      recent first. */
  method FindQualifiedGames(records: seq<Record>, cutoff: nat, playerCount: nat) returns (games: seq<int>)
    ensures games == QualifiedGames(records, cutoff, playerCount)
  {
    var counts: map<int, nat> := map[];
    var order: seq<int> := [];
    var dates: map<int, Date> := map[];
    for i := 0 to |records|
      invariant order == QualifyingOrder(records[..i], cutoff)
      invariant counts == QualifyingCounts(records[..i], cutoff)
      invariant dates == GameDates(records[..i])
    {
      var entry := records[i];
      var fga := entry.fieldGoal2Attempted + entry.fieldGoal3Attempted;
      var fgm := entry.fieldGoal2Made + entry.fieldGoal3Made;
      var fta := entry.freeThrowAttempted;
      var ftm := entry.freeThrowMade;
      var tsPercentage := TrueShootingPercentage(fga, fgm, fta, ftm);
      var qualifies := tsPercentage >= cutoff as real;
      assert qualifies == Qualifies(entry, cutoff);
      if qualifies {
        if entry.gameID in counts {
          counts := counts[entry.gameID := counts[entry.gameID] + 1];
        } else {
          counts := counts[entry.gameID := 1];
          order := order + [entry.gameID];
        }
      }
      if entry.gameID !in dates {
        dates := dates[entry.gameID := entry.gameDate];
      }
      assert records[..i + 1] == records[..i] + [entry];
      assert order == QualifyingOrder(records[..i + 1], cutoff) by {
        QualifyingOrderAppend(records[..i], entry, cutoff);
      }
      assert counts == QualifyingCounts(records[..i + 1], cutoff) by {
        QualifyingCountsAppend(records[..i], entry, cutoff);
      }
      assert dates == GameDates(records[..i + 1]) by {
        GameDatesAppend(records[..i], entry);
      }
    }
    assert records[..|records|] == records;
    var selected := Select(order, counts, playerCount);
    QualifyingGamesHaveDates(records, cutoff);
    var a := new int[|selected|](k requires 0 <= k < |selected| => selected[k]);
    assert a[..] == selected;
    SortInPlace(a, dates);
    games := a[..];
  }

  // ---------------------------------------------------------------------------
  // What the routine promises.

  lemma {:induction false} SelectRanked(order: seq<int>, counts: map<int, nat>, playerCount: nat, rank: int -> int)
    requires forall k :: 0 <= k < |order| ==> order[k] in counts
    requires Ranked(order, rank)
    ensures Ranked(Select(order, counts, playerCount), rank)
  {
    if order != [] {
      var rest := Select(order[1..], counts, playerCount);
      SelectRanked(order[1..], counts, playerCount, rank);
      forall k | 0 <= k < |rest| ensures rank(order[0]) < rank(rest[k]) {
        assert rest[k] in rest;
        var m :| 0 <= m < |order[1..]| && order[1..][m] == rest[k];
        assert order[m + 1] == rest[k];
      }
    }
  }

  /** A game is listed exactly when it has at least one qualifying record and
      at least `playerCount` of them. */
  lemma QualifiedGamesMembers(records: seq<Record>, cutoff: nat, playerCount: nat)
    ensures forall g :: (g in QualifiedGames(records, cutoff, playerCount)
      <==> 0 < QualCount(records, cutoff, g) && playerCount <= QualCount(records, cutoff, g))
  {
    var order := QualifyingOrder(records, cutoff);
    var selected := Select(order, QualifyingCounts(records, cutoff), playerCount);
    QualifyingGamesHaveDates(records, cutoff);
    QualifyingOrderMembers(records, cutoff);
    SortByDateMembers(selected, GameDates(records));
    forall g ensures g in order <==> 0 < QualCount(records, cutoff, g) {
      QualCountPositive(records, cutoff, g);
    }
  }

  /** Even with `playerCount == 0`, a game none of whose records qualifies is
      not listed. */
  lemma NoQualifierNotListed(records: seq<Record>, cutoff: nat, playerCount: nat, g: int)
    requires forall k :: 0 <= k < |records| && records[k].gameID == g ==> !Qualifies(records[k], cutoff)
    ensures g !in QualifiedGames(records, cutoff, playerCount)
  {
    QualifiedGamesMembers(records, cutoff, playerCount);
    QualCountPositive(records, cutoff, g);
  }

  /** Every listed game has a record in the input. */
  lemma QualifiedGamesFromInput(records: seq<Record>, cutoff: nat, playerCount: nat)
    ensures forall g :: (g in QualifiedGames(records, cutoff, playerCount)
      ==> exists k :: 0 <= k < |records| && records[k].gameID == g)
  {
    QualifiedGamesMembers(records, cutoff, playerCount);
    forall g | g in QualifiedGames(records, cutoff, playerCount)
      ensures exists k :: 0 <= k < |records| && records[k].gameID == g
    {
      QualCountPositive(records, cutoff, g);
      assert records[FirstQualifying(records, cutoff, g)].gameID == g;
    }
  }

  /** No game is listed twice. */
  lemma QualifiedGamesDistinct(records: seq<Record>, cutoff: nat, playerCount: nat)
    ensures Distinct(QualifiedGames(records, cutoff, playerCount))
  {
    var rank := g => FirstQualifying(records, cutoff, g);
    var order := QualifyingOrder(records, cutoff);
    var counts := QualifyingCounts(records, cutoff);
    QualifyingGamesHaveDates(records, cutoff);
    QualifyingOrderRanked(records, cutoff);
    SelectRanked(order, counts, playerCount, rank);
    SortByDateDistinct(Select(order, counts, playerCount), GameDates(records));
  }

  /** The list runs from the most recent game to the least recent one. */
  lemma QualifiedGamesNewestFirst(records: seq<Record>, cutoff: nat, playerCount: nat)
    ensures AllDated(QualifiedGames(records, cutoff, playerCount), GameDates(records))
    ensures NewestFirst(QualifiedGames(records, cutoff, playerCount), GameDates(records))
  {
    var selected := Select(QualifyingOrder(records, cutoff), QualifyingCounts(records, cutoff), playerCount);
    QualifyingGamesHaveDates(records, cutoff);
    assert AllDated(selected, GameDates(records)) by {
      forall k | 0 <= k < |selected| ensures selected[k] in GameDates(records) {
        assert selected[k] in selected;
      }
    }
    SortByDateNewestFirst(selected, GameDates(records));
  }

  /** Games of the same date are listed in the order in which each first got
      a qualifying record, since the sort is stable. */
  lemma QualifiedGamesTies(records: seq<Record>, cutoff: nat, playerCount: nat)
    ensures AllDated(QualifiedGames(records, cutoff, playerCount), GameDates(records))
    ensures var games, dates := QualifiedGames(records, cutoff, playerCount), GameDates(records);
      forall i, j :: 0 <= i < j < |games| && dates[games[i]] == dates[games[j]]
        ==> FirstQualifying(records, cutoff, games[i]) < FirstQualifying(records, cutoff, games[j])
  {
    var rank := g => FirstQualifying(records, cutoff, g);
    var order := QualifyingOrder(records, cutoff);
    var counts := QualifyingCounts(records, cutoff);
    QualifyingGamesHaveDates(records, cutoff);
    QualifyingOrderRanked(records, cutoff);
    SelectRanked(order, counts, playerCount, rank);
    SortByDateStable(Select(order, counts, playerCount), GameDates(records), rank);
  }

  /** The date a game is sorted by is the date of its first record; later
      records of the game do not change it. */
  lemma GameDatesFirstRecord(s: seq<Record>, t: seq<Record>, g: int)
    requires g in GameIds(s)
    ensures g in GameDates(s) && g in GameDates(s + t)
    ensures GameDates(s + t)[g] == GameDates(s)[g] == s[FirstRecord(s, g)].gameDate
  {
    var k :| 0 <= k < |s| && s[k].gameID == g;
    assert (s + t)[k] == s[k];
    FirstRecordAppend(s, t, g);
    assert (s + t)[FirstRecord(s, g)] == s[FirstRecord(s, g)];
  }

  /** No more games are listed than the input has. */
  lemma QualifiedGamesBound(records: seq<Record>, cutoff: nat, playerCount: nat)
    ensures |QualifiedGames(records, cutoff, playerCount)| <= |GameIds(records)|
  {
    var games := QualifiedGames(records, cutoff, playerCount);
    QualifiedGamesDistinct(records, cutoff, playerCount);
    QualifiedGamesFromInput(records, cutoff, playerCount);
    forall k | 0 <= k < |games| ensures games[k] in GameIds(records) {
      assert games[k] in games;
      var m :| 0 <= m < |records| && records[m].gameID == games[k];
    }
    DistinctBound(games, GameIds(records));
  }

  /** A sequence without repetitions drawn from `b` is no longer than `b`. */
  lemma {:induction false} DistinctBound(s: seq<int>, b: set<int>)
    requires Distinct(s)
    requires forall k :: 0 <= k < |s| ==> s[k] in b
    ensures |s| <= |b|
  {
    if s != [] {
      var init, x := s[..|s| - 1], s[|s| - 1];
      DistinctBound(init, b - {x});
      assert b == (b - {x}) + {x};
    }
  }

  /** No records, no games. */
  lemma EmptyInputNoGames(cutoff: nat, playerCount: nat)
    ensures QualifiedGames([], cutoff, playerCount) == []
  {
  }

  /** A game whose only record has no attempts, with cutoff 50 and
      `playerCount == 0`: the game is in the input but not in the list. */
  lemma PlayerCountZeroSkipsGame()
    ensures var records := [Record(7, 10, Date(2024, 1, 10), 0, 0, 0, 0, 0, 0)];
      7 in GameIds(records) && QualifiedGames(records, 50, 0) == []
  {
    var records := [Record(7, 10, Date(2024, 1, 10), 0, 0, 0, 0, 0, 0)];
    assert records[0].gameID == 7;
    NoQualifierNotListed(records, 50, 0, 7);
    QualifiedGamesMembers(records, 50, 0);
  }

  /** Three records of two games: the first game has one qualifying record
      out of two, the second one out of one. Both games are tallied once,
      the first game first. */
  lemma TwoGameTallies(r0: Record, r1: Record, r2: Record, cutoff: nat)
    requires r0.gameID == r1.gameID != r2.gameID
    requires Qualifies(r0, cutoff) && !Qualifies(r1, cutoff) && Qualifies(r2, cutoff)
    ensures QualifyingOrder([r0, r1, r2], cutoff) == [r0.gameID, r2.gameID]
    ensures QualCount([r0, r1, r2], cutoff, r0.gameID) == 1
    ensures QualCount([r0, r1, r2], cutoff, r2.gameID) == 1
  {
    var records := [r0, r1, r2];
    assert QualifyingOrder(records[..1], cutoff) == [r0.gameID] by {
      assert records[..1][..0] == [];
    }
    assert QualifyingOrder(records[..2], cutoff) == [r0.gameID] by {
      assert records[..2][..1] == records[..1];
    }
    assert records[..2] == records[..|records| - 1];
    assert records[1..][1..] == records[2..];
    assert records[2..][1..] == [];
    assert QualCount(records[2..], cutoff, r0.gameID) == 0;
    assert QualCount(records[1..], cutoff, r0.gameID) == 0;
    assert QualCount(records[2..], cutoff, r2.gameID) == 1;
    assert QualCount(records[1..], cutoff, r2.gameID) == 1;
  }

  /** In the same situation, when the second game is the more recent one: with
      one player required both games are listed, the more recent one first;
      with two players neither is. */
  lemma TwoGameQualifiedGames(r0: Record, r1: Record, r2: Record, cutoff: nat)
    requires r0.gameID == r1.gameID != r2.gameID
    requires Qualifies(r0, cutoff) && !Qualifies(r1, cutoff) && Qualifies(r2, cutoff)
    requires Before(r0.gameDate, r2.gameDate)
    ensures QualifiedGames([r0, r1, r2], cutoff, 1) == [r2.gameID, r0.gameID]
    ensures QualifiedGames([r0, r1, r2], cutoff, 2) == []
  {
    var records := [r0, r1, r2];
    var g1, g2 := r0.gameID, r2.gameID;
    TwoGameTallies(r0, r1, r2, cutoff);
    var counts := QualifyingCounts(records, cutoff);
    assert counts[g1] == 1 && counts[g2] == 1;
    assert Select([g1, g2], counts, 1) == [g1, g2] by {
      assert [g1, g2][1..] == [g2];
      assert Select([g2], counts, 1) == [g2] by {
        assert [g2][1..] == [];
      }
    }
    assert Select([g1, g2], counts, 2) == [] by {
      assert [g1, g2][1..] == [g2];
      assert Select([g2], counts, 2) == [] by {
        assert [g2][1..] == [];
      }
    }
    var dates := GameDates(records);
    assert dates[g1] == r0.gameDate && dates[g2] == r2.gameDate by {
      assert FirstRecord(records, g1) == 0;
      assert FirstRecord(records, g2) == 2 by {
        assert records[1..][1..] == [records[2]];
      }
    }
    assert SortByDate([g1, g2], dates) == [g2, g1] by {
      assert [g1, g2][..1] == [g1];
      assert [g1][..0] == [];
    }
  }

  /** Cutoff 50 over game 1 (10 January 2024: one player makes 5 of 5 shots,
      another 0 of 10) and game 2 (1 February 2024: 4 of 4). */
  lemma ExampleQualifiedGames()
    ensures QualifiedGames([ Record(1, 10, Date(2024, 1, 10), 5, 5, 0, 0, 0, 0),
                             Record(1, 11, Date(2024, 1, 10), 10, 0, 0, 0, 0, 0),
                             Record(2, 10, Date(2024, 2, 1), 4, 4, 0, 0, 0, 0) ], 50, 1) == [2, 1]
    ensures QualifiedGames([ Record(1, 10, Date(2024, 1, 10), 5, 5, 0, 0, 0, 0),
                             Record(1, 11, Date(2024, 1, 10), 10, 0, 0, 0, 0, 0),
                             Record(2, 10, Date(2024, 2, 1), 4, 4, 0, 0, 0, 0) ], 50, 2) == []
  {
    var r0 := Record(1, 10, Date(2024, 1, 10), 5, 5, 0, 0, 0, 0);
    var r1 := Record(1, 11, Date(2024, 1, 10), 10, 0, 0, 0, 0, 0);
    var r2 := Record(2, 10, Date(2024, 2, 1), 4, 4, 0, 0, 0, 0);
    AllMadeQualifies(r0, 50);
    NoneMadeMisses(r1, 50);
    AllMadeQualifies(r2, 50);
    TwoGameQualifiedGames(r0, r1, r2, 50);
  }
}
