/**
 Shot records, game dates and the True Shooting percentage used by
 `find_qualified_games` (game_finder.py).
 */
module Shooting {

  /** A calendar date as `datetime.strptime(..., '%m/%d/%Y')` yields it: the
      string is parsed before it reaches this model. Dates compare as
      `datetime` values do: year first, then month, then day. */
  datatype Date = Date(year: int, month: int, day: int)

  /** `a` is strictly earlier than `b`. */
  predicate Before(a: Date, b: Date) {
    || a.year < b.year
    || (a.year == b.year && a.month < b.month)
    || (a.year == b.year && a.month == b.month && a.day < b.day)
  }

  /** One player's shot attempts in one game. The model assumes that shot
      tallies cannot be negative, so the counts are `nat`. */
  datatype Record = Record(
    gameID: int,
    playerID: int,
    gameDate: Date,
    fieldGoal2Attempted: nat,
    fieldGoal2Made: nat,
    fieldGoal3Attempted: nat,
    fieldGoal3Made: nat,
    freeThrowAttempted: nat,
    freeThrowMade: nat)
  {
    /** Field goals attempted, two- and three-pointers together. */
    function FieldGoalsAttempted(): nat { fieldGoal2Attempted + fieldGoal3Attempted }

    /** Field goals made, two- and three-pointers together. */
    function FieldGoalsMade(): nat { fieldGoal2Made + fieldGoal3Made }
  }

  /** The True Shooting percentage of `fgm + ftm` made shots out of
      `fga + fta` attempts: zero when nothing was attempted, otherwise the
      percentage of made shots. Evaluated exactly, in real arithmetic. */
  function TrueShootingPercentage(fga: nat, fgm: nat, fta: nat, ftm: nat): (pct: real)
    ensures pct >= 0.0
    ensures fga + fta == 0 ==> pct == 0.0
  {
    if fga + fta == 0 then 0.0
    else (fgm + ftm) as real / (fga + fta) as real * 100.0
  }

  /** With attempts, the percentage times the attempts is a hundred times
      the made shots: the division is exact. */
  lemma PercentageScalesWithAttempts(fga: nat, fgm: nat, fta: nat, ftm: nat)
    requires fga + fta > 0
    ensures TrueShootingPercentage(fga, fgm, fta, ftm) * (fga + fta) as real == (fgm + ftm) as real * 100.0
  {
  }

  /** The record's percentage, from the sums the loop body forms. */
  function RecordPercentage(r: Record): real {
    TrueShootingPercentage(r.FieldGoalsAttempted(), r.FieldGoalsMade(), r.freeThrowAttempted, r.freeThrowMade)
  }

  /** The record reaches the cutoff: its percentage is at least `cutoff`. */
  predicate Qualifies(r: Record, cutoff: nat) {
    RecordPercentage(r) >= cutoff as real
  }

  /** A record with no attempts has percentage 0, so it qualifies exactly
      when the cutoff is 0. */
  lemma ZeroAttemptsQualifiesIffZeroCutoff(r: Record, cutoff: nat)
    requires r.FieldGoalsAttempted() + r.freeThrowAttempted == 0
    ensures Qualifies(r, cutoff) <==> cutoff == 0
  {
  }

  /** With attempts, the division-and-compare is the integer test
      `made * 100 >= cutoff * attempts`. */
  lemma QualifiesIffCrossMultiplied(r: Record, cutoff: nat)
    requires r.FieldGoalsAttempted() + r.freeThrowAttempted > 0
    ensures Qualifies(r, cutoff)
        <==> (r.FieldGoalsMade() + r.freeThrowMade) * 100 >= cutoff * (r.FieldGoalsAttempted() + r.freeThrowAttempted)
  {
    var attempts := (r.FieldGoalsAttempted() + r.freeThrowAttempted) as real;
    var made := (r.FieldGoalsMade() + r.freeThrowMade) as real;
    var pct := RecordPercentage(r);
    PercentageScalesWithAttempts(r.FieldGoalsAttempted(), r.FieldGoalsMade(), r.freeThrowAttempted, r.freeThrowMade);
    assert pct * attempts == made * 100.0;
    if pct >= cutoff as real {
      assert pct * attempts >= cutoff as real * attempts;
    } else {
      assert pct * attempts < cutoff as real * attempts;
    }
  }

  /** Making every attempt gives exactly 100, which reaches any cutoff up
      to 100. */
  lemma AllMadeQualifies(r: Record, cutoff: nat)
    requires r.FieldGoalsAttempted() + r.freeThrowAttempted > 0
    requires r.FieldGoalsMade() + r.freeThrowMade == r.FieldGoalsAttempted() + r.freeThrowAttempted
    requires cutoff <= 100
    ensures Qualifies(r, cutoff)
  {
    var attempts := (r.FieldGoalsAttempted() + r.freeThrowAttempted) as real;
    assert RecordPercentage(r) == 100.0 by {
      assert RecordPercentage(r) == attempts / attempts * 100.0;
      assert attempts / attempts == 1.0;
    }
  }

  /** Making nothing gives 0, which misses every positive cutoff. */
  lemma NoneMadeMisses(r: Record, cutoff: nat)
    requires r.FieldGoalsMade() + r.freeThrowMade == 0
    requires cutoff > 0
    ensures !Qualifies(r, cutoff)
  {
  }
}
