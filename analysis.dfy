/**
 * What the page decides once both names are typed in: look both players up,
 * pick the surface's rating column, read both ratings, and judge the bet on
 * player A at the odd entered. The rating-to-probability curve is a
 * parameter, `eloProb`.
 */
module Analysis {
  import opened Wrappers
  import opened Text
  import opened PlayerLookup
  import opened Betting

  /** Which of the page's outcomes is shown. */
  datatype Outcome =
    | AwaitingNames                   // a name box is empty: nothing is shown
    | PlayerNotFound                  // a name matched no row
    | RatingMissing(column: string)   // a found row lacks the surface's column
    | Assessed(probability: real, value: real, verdict: Verdict)

  /** Both found rows carry the rating column. */
  predicate HasColumn(a: Row, b: Row, column: string) {
    column in a.ratings && column in b.ratings
  }

  /**
   * The `try` block: read both players' ratings in the surface's column and
   * judge the bet on player A at `oddA`; a missing column ends in the
   * `KeyError` message instead.
   */
  function Judge(a: Row, b: Row, column: string, oddA: real, eloProb: (real, real) -> real): (o: Outcome)
    ensures o.RatingMissing? <==> !HasColumn(a, b, column)
    ensures o.RatingMissing? ==> o.column == column
    ensures !o.RatingMissing? ==> o.Assessed?
    ensures o.Assessed? ==>
      && HasColumn(a, b, column)
      && o.probability == eloProb(a.ratings[column], b.ratings[column])
      && o.value == ValueBet(o.probability, oddA)
      && (o.verdict == Value <==> o.probability * oddA > 1.0)
      && (o.verdict == NoValue <==> o.probability * oddA < 1.0)
      && (o.verdict == Neutral <==> o.probability * oddA == 1.0)
  {
    if !HasColumn(a, b, column) then RatingMissing(column)
    else
      var p := eloProb(a.ratings[column], b.ratings[column]);
      var v := ValueBet(p, oddA);
      VerdictOfBet(p, oddA);
      Assessed(p, v, Classify(v))
  }

  /**
   * The page below the inputs: nothing until both names are typed, an error
   * when either name finds no row, and otherwise the judgement on the two
   * rows found in the column of the chosen surface.
   */
  function Analyse(table: seq<Row>, nameA: string, nameB: string, oddA: real, surface: string,
                   eloProb: (real, real) -> real): (o: Outcome)
    requires surface in SurfaceOptions
    ensures o == AwaitingNames <==> nameA == [] || nameB == []
    ensures o == PlayerNotFound <==>
      nameA != [] && nameB != [] && (FindPlayer(table, nameA).None? || FindPlayer(table, nameB).None?)
    ensures o.RatingMissing? || o.Assessed? ==>
      && FindPlayer(table, nameA).Some? && FindPlayer(table, nameB).Some?
      && o == Judge(FindPlayer(table, nameA).value, FindPlayer(table, nameB).value, EloKey(surface).value, oddA, eloProb)
  {
    if nameA == [] || nameB == [] then AwaitingNames
    else
      var foundA, foundB := FindPlayer(table, nameA), FindPlayer(table, nameB);
      if foundA.None? || foundB.None? then PlayerNotFound
      else Judge(foundA.value, foundB.value, EloKey(surface).value, oddA, eloProb)
  }

  /**
   * Names made only of spaces pass the page's "both names typed" guard, and
   * each is then matched against the first row of the table, so the page
   * judges that row against itself.
   */
  lemma BlankNamesAreAnalysed(table: seq<Row>, nameA: string, nameB: string, oddA: real, surface: string,
                              eloProb: (real, real) -> real)
    requires surface in SurfaceOptions
    requires table != []
    requires nameA != [] && nameB != [] && AllSpace(nameA) && AllSpace(nameB)
    ensures Analyse(table, nameA, nameB, oddA, surface, eloProb)
         == Judge(table[0], table[0], EloKey(surface).value, oddA, eloProb)
  {
    BlankQueryFindsFirstRow(table, nameA);
    BlankQueryFindsFirstRow(table, nameB);
  }
}
