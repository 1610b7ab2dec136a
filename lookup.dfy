/**
 * Looking a player up in the ratings table by part of their name: the
 * query is lower-cased and stripped, the table is filtered to the rows whose
 * lower-cased `Player` cell contains it, and the first surviving row in
 * table order is returned, or nothing when none survives.
 */
module PlayerLookup {
  import opened Wrappers
  import opened Text

  /** One row of the ratings table: its `Player` cell and its numeric columns by header. */
  datatype Row = Row(player: string, ratings: map<string, real>)

  /** The search key made of a query: `query.lower().strip()`. */
  function Normalize(query: string): (key: string)
    ensures |key| <= |query|
    ensures key == [] || (!IsSpace(key[0]) && !IsSpace(key[|key| - 1]))
  {
    Strip(Lower(query))
  }

  /** The search key holds no upper-case letter. */
  lemma NormalizeIsLower(query: string)
    ensures NoUpper(Normalize(query))
  {
    StripKeepsLower(Lower(query));
  }

  /** The row survives the filter for `key`: its lower-cased name contains the key. */
  predicate Matches(row: Row, key: string): (matched: bool)
    ensures matched ==> exists i :: OccursAt(Lower(row.player), key, i)
    ensures (exists i :: OccursAt(Lower(row.player), key, i)) ==> matched
  {
    Contains(Lower(row.player), key)
  }

  /** The boolean mask `df["Player"].str.lower().str.contains(key)`, one entry per row. */
  function Mask(table: seq<Row>, key: string): (mask: seq<bool>)
    ensures |mask| == |table|
    ensures forall i :: 0 <= i < |table| ==> mask[i] == Matches(table[i], key)
  {
    seq(|table|, i requires 0 <= i < |table| => Matches(table[i], key))
  }

  /** `xs[mask]`: the elements whose mask entry is true, keeping their order. */
  function Select<T>(xs: seq<T>, mask: seq<bool>): (selected: seq<T>)
    requires |mask| == |xs|
    ensures multiset(selected) <= multiset(xs)
    ensures selected == [] <==> forall i :: 0 <= i < |xs| ==> !mask[i]
  {
    if xs == [] then []
    else
      var rest := Select(xs[1..], mask[1..]);
      assert xs == [xs[0]] + xs[1..];
      assert multiset(xs) == multiset([xs[0]]) + multiset(xs[1..]);
      assert forall i :: 1 <= i < |xs| ==> mask[i] == mask[1..][i - 1];
      if mask[0] then
        assert multiset([xs[0]] + rest) == multiset([xs[0]]) + multiset(rest);
        [xs[0]] + rest
      else
        rest
  }

  /** `k` is the first position whose mask entry is true. */
  predicate IsFirstTrue(mask: seq<bool>, k: int) {
    0 <= k < |mask| && mask[k] && forall j :: 0 <= j < k ==> !mask[j]
  }

  /** The head of a selection (`iloc[0]`) is the element at the first true mask entry. */
  lemma {:induction false} SelectHead<T>(xs: seq<T>, mask: seq<bool>)
    requires |mask| == |xs|
    requires Select(xs, mask) != []
    ensures exists k :: IsFirstTrue(mask, k) && Select(xs, mask)[0] == xs[k]
  {
    if mask[0] {
      assert IsFirstTrue(mask, 0);
    } else {
      assert Select(xs, mask) == Select(xs[1..], mask[1..]);
      SelectHead(xs[1..], mask[1..]);
      var k :| IsFirstTrue(mask[1..], k) && Select(xs[1..], mask[1..])[0] == xs[1..][k];
      assert IsFirstTrue(mask, k + 1);
    }
  }

  /** Row `k` matches and no row before it does. */
  predicate IsFirstMatch(table: seq<Row>, key: string, k: int) {
    && 0 <= k < |table|
    && Matches(table[k], key)
    && forall j :: 0 <= j < k ==> !Matches(table[j], key)
  }

  /**
   * Lines 29-32 of `encontrar_jogador`, for a key already normalised: filter by
   * the mask, then take the first row left, if any.
   */
  function FirstContaining(table: seq<Row>, key: string): (found: Option<Row>)
    ensures found.None? <==> forall i :: 0 <= i < |table| ==> !Matches(table[i], key)
    ensures found.Some? ==> exists k :: IsFirstMatch(table, key, k) && found.value == table[k]
  {
    var mask := Mask(table, key);
    var results := Select(table, mask);
    if |results| == 0 then
      assert forall i :: 0 <= i < |table| ==> !Matches(table[i], key);
      None
    else
      SelectHead(table, mask);
      var k :| IsFirstTrue(mask, k) && results[0] == table[k];
      assert IsFirstMatch(table, key, k);
      Some(results[0])
  }

  /**
   * `encontrar_jogador`: the first row, in table order, whose lower-cased name
   * contains the normalised query; `None` when there is none.
   */
  function FindPlayer(table: seq<Row>, query: string): (found: Option<Row>)
    ensures found.None? <==> forall i :: 0 <= i < |table| ==> !Matches(table[i], Normalize(query))
    ensures found.Some? ==> Contains(Lower(found.value.player), Normalize(query))
    ensures found.Some? ==> exists k :: IsFirstMatch(table, Normalize(query), k) && found.value == table[k]
  {
    var key := Normalize(query);
    var found := FirstContaining(table, key);
    if found.None? then found
    else
      var k :| IsFirstMatch(table, key, k) && found.value == table[k];
      assert Matches(found.value, key);
      found
  }

  /** The first-match property fixes the row completely: any first match is the found row. */
  lemma FirstMatchIsFound(table: seq<Row>, query: string, k: int)
    requires IsFirstMatch(table, Normalize(query), k)
    ensures FindPlayer(table, query) == Some(table[k])
  {
    var key := Normalize(query);
    assert FindPlayer(table, query).Some?;
    var k' :| IsFirstMatch(table, key, k') && FindPlayer(table, query).value == table[k'];
  }

  /** `a` and `b` are the same string up to the case of their letters. */
  predicate SameUpToCase(a: string, b: string) {
    |a| == |b| && forall i :: 0 <= i < |a| ==> LowerChar(a[i]) == LowerChar(b[i])
  }

  /** Queries that differ only in letter case find the same row. */
  lemma CaseInsensitive(table: seq<Row>, a: string, b: string)
    requires SameUpToCase(a, b)
    ensures FindPlayer(table, a) == FindPlayer(table, b)
  {
    assert Lower(a) == Lower(b) by {
      assert forall i :: 0 <= i < |a| ==> Lower(a)[i] == Lower(b)[i];
    }
  }

  /** Whitespace before or after a query does not change the row found. */
  lemma PaddingIgnored(table: seq<Row>, pre: string, query: string, post: string)
    requires AllSpace(pre) && AllSpace(post)
    ensures FindPlayer(table, pre + query + post) == FindPlayer(table, query)
  {
    assert Normalize(pre + query + post) == Normalize(query) by {
      LowerConcat(pre + query, post);
      LowerConcat(pre, query);
      LowerKeepsSpace(pre);
      LowerKeepsSpace(post);
      assert Lower(pre + query + post) == pre + Lower(query) + post;
      StripIgnoresPadding(pre, Lower(query), post);
    }
  }

  /** Normalising a key that is already normal changes nothing. */
  lemma NormalizeIdempotent(query: string)
    ensures Normalize(Normalize(query)) == Normalize(query)
  {
    var key := Normalize(query);
    NormalizeIsLower(query);
    assert Lower(key) == key by {
      assert forall i :: 0 <= i < |key| ==> Lower(key)[i] == key[i];
    }
    StripOfStripped(key);
  }

  /** Searching with the normalised key itself finds the same row as the raw query. */
  lemma SearchByKey(table: seq<Row>, query: string)
    ensures FindPlayer(table, Normalize(query)) == FindPlayer(table, query)
  {
    NormalizeIdempotent(query);
  }

  /**
   * A query that strips to nothing is contained in every name, so it finds
   * the first row of any non-empty table. A whitespace-only name is not
   * empty, so it gets this far in the app.
   */
  lemma BlankQueryFindsFirstRow(table: seq<Row>, query: string)
    requires AllSpace(query)
    requires table != []
    ensures FindPlayer(table, query) == Some(table[0])
  {
    LowerKeepsSpace(query);
    StripAllSpace(query);
    ContainsEmpty(Lower(table[0].player));
    FirstMatchIsFound(table, query, 0);
  }
}
