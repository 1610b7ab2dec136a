/**
 * The arithmetic of one bet: which rating column a playing surface selects,
 * the expected value of backing a player at a decimal odd, and the verdict
 * shown for that value.
 */
module Betting {
  import opened Wrappers
  import opened Text

  /** The surfaces offered to the user, in the order they are listed. */
  const SurfaceOptions: seq<string> := ["Hard", "Clay", "Grass", "Indoor"]

  /** The rating column of the ratings table that holds each surface's Elo. */
  const EloColumns: map<string, string> :=
    map["Hard" := "hElo", "Clay" := "cElo", "Grass" := "gElo", "Indoor" := "iElo"]

  /** `elo_chave`: the column for a surface; `None` where the dictionary subscript would fail. */
  function EloKey(surface: string): (column: Option<string>)
    ensures column.Some? <==> surface in SurfaceOptions
    ensures column.Some? ==> column.value in {"hElo", "cElo", "gElo", "iElo"}
    ensures column.Some? ==> |surface| > 0 && column.value == [LowerChar(surface[0])] + "Elo"
  {
    if surface in EloColumns then Some(EloColumns[surface]) else None
  }

  /** Different surfaces read different columns. */
  lemma EloKeyInjective(s: string, t: string)
    requires EloKey(s).Some? && EloKey(s) == EloKey(t)
    ensures s == t
  {
  }

  /** The four surfaces select four distinct columns, together all four Elo columns. */
  lemma EloKeysDistinct()
    ensures (set s | s in SurfaceOptions :: EloKey(s).value) == {"hElo", "cElo", "gElo", "iElo"}
    ensures forall i, j :: 0 <= i < j < |SurfaceOptions| ==> EloKey(SurfaceOptions[i]) != EloKey(SurfaceOptions[j])
  {
    var columns := set s | s in SurfaceOptions :: EloKey(s).value;
    assert EloKey("Hard").value == "hElo" && "hElo" in columns;
    assert EloKey("Clay").value == "cElo" && "cElo" in columns;
    assert EloKey("Grass").value == "gElo" && "gElo" in columns;
    assert EloKey("Indoor").value == "iElo" && "iElo" in columns;
  }

  /**
   * `value_bet`: the expected net return of a unit stake on a player with win
   * probability `p` at decimal odd `odd`.
   */
  function ValueBet(p: real, odd: real): real {
    p * odd - 1.0
  }

  /** The value is positive, zero or negative as `p * odd` is above, at or below one. */
  lemma ValueSign(p: real, odd: real)
    ensures ValueBet(p, odd) > 0.0 <==> p * odd > 1.0
    ensures ValueBet(p, odd) == 0.0 <==> p * odd == 1.0
    ensures ValueBet(p, odd) < 0.0 <==> p * odd < 1.0
  {
  }

  /** A fair coin at even money has no edge either way. */
  lemma EvenMoneyIsZero()
    ensures ValueBet(0.5, 2.0) == 0.0
  {
  }

  /**
   * For a positive probability the break-even odd is `1 / p`: the bet has
   * value exactly above it, none exactly below it, and is neutral at it.
   */
  lemma BreakEvenOdd(p: real, odd: real)
    requires p > 0.0
    ensures ValueBet(p, odd) > 0.0 <==> odd > 1.0 / p
    ensures ValueBet(p, odd) == 0.0 <==> odd == 1.0 / p
    ensures ValueBet(p, odd) < 0.0 <==> odd < 1.0 / p
  {
    var b := 1.0 / p;
    assert p * b == 1.0;
    assert p * odd - p * b == p * (odd - b);
    if odd > b {
      assert p * (odd - b) > 0.0;
    } else if odd < b {
      assert p * (b - odd) > 0.0;
    }
  }

  /** With a positive probability, a longer odd is always worth more. */
  lemma ValueGrowsWithOdd(p: real, odd1: real, odd2: real)
    requires p > 0.0 && odd1 < odd2
    ensures ValueBet(p, odd1) < ValueBet(p, odd2)
  {
    assert ValueBet(p, odd2) - ValueBet(p, odd1) == p * (odd2 - odd1);
  }

  /** With a positive odd, a likelier win is always worth more. */
  lemma ValueGrowsWithProbability(p1: real, p2: real, odd: real)
    requires odd > 0.0 && p1 < p2
    ensures ValueBet(p1, odd) < ValueBet(p2, odd)
  {
    assert ValueBet(p2, odd) - ValueBet(p1, odd) == (p2 - p1) * odd;
  }

  /** The three messages the app can show for a computed value. */
  datatype Verdict = Value | NoValue | Neutral

  /** The `if valor > 0 / elif valor < 0 / else` chain. */
  function Classify(v: real): (verdict: Verdict)
    ensures verdict == Value <==> v > 0.0
    ensures verdict == NoValue <==> v < 0.0
    ensures verdict == Neutral <==> v == 0.0
  {
    if v > 0.0 then Value
    else if v < 0.0 then NoValue
    else Neutral
  }

  /** The verdict on a bet, read directly off `p * odd` against one. */
  lemma VerdictOfBet(p: real, odd: real)
    ensures Classify(ValueBet(p, odd)) == Value <==> p * odd > 1.0
    ensures Classify(ValueBet(p, odd)) == NoValue <==> p * odd < 1.0
    ensures Classify(ValueBet(p, odd)) == Neutral <==> p * odd == 1.0
  {
    ValueSign(p, odd);
  }

  /** With a positive probability, lengthening the odd never lowers the verdict. */
  lemma VerdictMonotoneInOdd(p: real, odd1: real, odd2: real)
    requires p > 0.0 && odd1 <= odd2
    ensures Classify(ValueBet(p, odd1)) == Value ==> Classify(ValueBet(p, odd2)) == Value
    ensures Classify(ValueBet(p, odd2)) == NoValue ==> Classify(ValueBet(p, odd1)) == NoValue
  {
    if odd1 < odd2 {
      ValueGrowsWithOdd(p, odd1, odd2);
    }
  }
}
