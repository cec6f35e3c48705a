/**
 * The daily run `run_all_scrapers.py`: which theme names are handed to
 * the set scraper, and which item numbers of the saved sets table are
 * handed to the part-out-value check.
 *
 * The saved table is given as its rows; a cell is its text, or None for
 * an empty (NaN) cell. Table-wide filters are order-keeping selections.
 */
module Pipeline {
  import opened Wrappers
  import opened Text
  import opened Seqs
  import opened Themes
  import Overview

  /** The text the set scraper writes when a set has no piece count. */
  const NoPieceCount: string := Overview.NoPieceCount
  const MinPieceCount: int := 10

  /** A row of the saved sets table: the two columns the filters read, and all the others. */
  datatype Row = Row(itemNumber: Option<string>, pieceCount: Option<string>, others: seq<Option<string>>)

  // ------------------------------------------------------------ theme names

  /**
   * The theme names for the set scraper: the names of the themes just
   * found, in order; failing those, the names saved in `themes_list.csv`
   * (`saved`, None when the file does not exist); failing both, None, on
   * which the run returns 1 before any set is scraped.
   */
  function ThemeNames(themesData: seq<ThemeRecord>, saved: Option<seq<string>>): (names: Option<seq<string>>)
    ensures |themesData| > 0 ==>
      && names.Some? && |names.value| == |themesData|
      && forall i :: 0 <= i < |themesData| ==> names.value[i] == themesData[i].themeName
    ensures |themesData| == 0 ==> names == saved
    ensures names.None? <==> |themesData| == 0 && saved.None?
  {
    if |themesData| > 0 then Some(seq(|themesData|, i requires 0 <= i < |themesData| => themesData[i].themeName))
    else saved
  }

  // ------------------------------------------------------------ order-keeping filters

  /** The rows satisfying `keep`, in their order. */
  function Keep(rows: seq<Row>, keep: Row -> bool): (kept: seq<Row>)
    ensures |kept| <= |rows|
    ensures forall r :: r in kept ==> r in rows && keep(r)
  {
    if rows == [] then []
    else
      var n := |rows| - 1;
      Keep(rows[..n], keep) + (if keep(rows[n]) then [rows[n]] else [])
  }

  /** A filter keeps exactly the rows that satisfy it, in order. */
  lemma {:induction false} KeepSpec(rows: seq<Row>, keep: Row -> bool)
    ensures IsSubsequence(Keep(rows, keep), rows)
    ensures forall r :: r in rows && keep(r) ==> r in Keep(rows, keep)
  {
    if rows == [] {
      EmptySubsequence(rows);
    } else {
      var n := |rows| - 1;
      KeepSpec(rows[..n], keep);
      assert rows == rows[..n] + [rows[n]];
      SubsequenceSnoc(Keep(rows[..n], keep), rows[..n], rows[n]);
      if keep(rows[n]) {
        assert Keep(rows, keep) == Keep(rows[..n], keep) + [rows[n]];
      } else {
        assert Keep(rows, keep) == Keep(rows[..n], keep);
      }
      forall r | r in rows && keep(r) ensures r in Keep(rows, keep) {
        if r != rows[n] {
          assert r in rows[..n];
        }
      }
    }
  }

  /** `drop_duplicates(keep='first')`: the first row of every group of identical rows, in order. */
  function DropDuplicates(rows: seq<Row>): (unique: seq<Row>)
    ensures |unique| <= |rows|
  {
    if rows == [] then []
    else
      var n := |rows| - 1;
      DropDuplicates(rows[..n]) + (if rows[n] in rows[..n] then [] else [rows[n]])
  }

  predicate NoDuplicates<T(==)>(s: seq<T>) {
    forall i, j :: 0 <= i < j < |s| ==> s[i] != s[j]
  }

  /**
   * Dropping duplicates keeps the order of the rows, leaves no two equal
   * rows, and keeps one of every distinct row.
   */
  lemma {:induction false} DropDuplicatesSpec(rows: seq<Row>)
    ensures IsSubsequence(DropDuplicates(rows), rows)
    ensures NoDuplicates(DropDuplicates(rows))
    ensures forall r :: r in DropDuplicates(rows) <==> r in rows
  {
    if rows == [] {
      EmptySubsequence(rows);
    } else {
      var n := |rows| - 1;
      var before := DropDuplicates(rows[..n]);
      DropDuplicatesSpec(rows[..n]);
      assert rows == rows[..n] + [rows[n]];
      SubsequenceSnoc(before, rows[..n], rows[n]);
      if rows[n] !in rows[..n] {
        assert DropDuplicates(rows) == before + [rows[n]];
      } else {
        assert DropDuplicates(rows) == before;
      }
    }
  }

  /** The positions of the first row of every group of identical rows, in order. */
  ghost function FirstIndices(rows: seq<Row>): (idx: seq<nat>)
    ensures |idx| == |DropDuplicates(rows)|
    ensures forall k :: 0 <= k < |idx| ==> idx[k] < |rows|
  {
    if rows == [] then []
    else
      var n := |rows| - 1;
      FirstIndices(rows[..n]) + (if rows[n] in rows[..n] then [] else [n])
  }

  /**
   * `keep='first'`: every kept row is taken from the position where its
   * group first occurs, the positions increase, and every first occurrence
   * is kept.
   */
  lemma DropDuplicatesKeepsFirst(rows: seq<Row>)
    ensures var unique, idx := DropDuplicates(rows), FirstIndices(rows);
      && (forall k :: 0 <= k < |idx| ==> unique[k] == rows[idx[k]] && rows[idx[k]] !in rows[..idx[k]])
      && (forall j, k :: 0 <= j < k < |idx| ==> idx[j] < idx[k])
      && (forall i :: 0 <= i < |rows| && rows[i] !in rows[..i] ==> i in idx)
  {
    FirstIndicesPick(rows);
    FirstIndicesIncrease(rows);
    FirstIndicesComplete(rows);
  }

  /** Each `unique[k]` is the row at `idx[k]`, and no earlier row equals it. */
  ghost predicate PicksFirst(rows: seq<Row>, unique: seq<Row>, idx: seq<nat>) {
    && |idx| == |unique|
    && forall k :: 0 <= k < |idx| ==>
         idx[k] < |rows| && unique[k] == rows[idx[k]] && rows[idx[k]] !in rows[..idx[k]]
  }

  ghost predicate Increasing(idx: seq<nat>) {
    forall j, k :: 0 <= j < k < |idx| ==> idx[j] < idx[k]
  }

  lemma {:induction false} FirstIndicesPick(rows: seq<Row>)
    ensures PicksFirst(rows, DropDuplicates(rows), FirstIndices(rows))
  {
    if rows != [] {
      var n := |rows| - 1;
      var init := rows[..n];
      FirstIndicesPick(init);
      var u0, i0 := DropDuplicates(init), FirstIndices(init);
      var unique, idx := DropDuplicates(rows), FirstIndices(rows);
      assert unique == u0 + (if rows[n] in init then [] else [rows[n]]);
      assert idx == i0 + (if rows[n] in init then [] else [n]);
      forall k | 0 <= k < |idx|
        ensures unique[k] == rows[idx[k]] && rows[idx[k]] !in rows[..idx[k]]
      {
        if k < |i0| {
          assert unique[k] == u0[k] && idx[k] == i0[k];
          assert u0[k] == init[i0[k]] && init[i0[k]] !in init[..i0[k]];
          assert rows[..idx[k]] == init[..i0[k]];
        } else {
          assert idx[k] == n && unique[k] == rows[n] && rows[..n] == init;
        }
      }
    }
  }

  lemma {:induction false} FirstIndicesIncrease(rows: seq<Row>)
    ensures Increasing(FirstIndices(rows))
  {
    if rows != [] {
      var n := |rows| - 1;
      FirstIndicesIncrease(rows[..n]);
      var i0, idx := FirstIndices(rows[..n]), FirstIndices(rows);
      assert idx == i0 + (if rows[n] in rows[..n] then [] else [n]);
      forall j, k | 0 <= j < k < |idx|
        ensures idx[j] < idx[k]
      {
        if k < |i0| {
          assert idx[j] == i0[j] && idx[k] == i0[k];
          assert i0[j] < i0[k];
        } else {
          assert idx[j] == i0[j] < n == idx[k];
        }
      }
    }
  }

  lemma {:induction false} FirstIndicesComplete(rows: seq<Row>)
    ensures forall i :: 0 <= i < |rows| && rows[i] !in rows[..i] ==> i in FirstIndices(rows)
  {
    if rows != [] {
      var n := |rows| - 1;
      var init := rows[..n];
      FirstIndicesComplete(init);
      var i0, idx := FirstIndices(init), FirstIndices(rows);
      assert idx == i0 + (if rows[n] in init then [] else [n]);
      forall i | 0 <= i < |rows| && rows[i] !in rows[..i]
        ensures i in idx
      {
        if i < n {
          assert rows[..i] == init[..i] && rows[i] == init[i];
          assert i in i0;
        } else {
          assert rows[..i] == init;
        }
      }
    }
  }

  /** Dropping duplicates twice drops nothing more. */
  lemma DropDuplicatesIdempotent(rows: seq<Row>)
    ensures DropDuplicates(DropDuplicates(rows)) == DropDuplicates(rows)
  {
    DropDuplicatesSpec(rows);
    NoDuplicatesFixed(DropDuplicates(rows));
  }

  lemma {:induction false} NoDuplicatesFixed(rows: seq<Row>)
    requires NoDuplicates(rows)
    ensures DropDuplicates(rows) == rows
  {
    if rows != [] {
      var n := |rows| - 1;
      NoDuplicatesFixed(rows[..n]);
      assert rows[n] !in rows[..n];
      assert rows == rows[..n] + [rows[n]];
    }
  }

  // ------------------------------------------------------------ piece counts

  /**
   * `pd.to_numeric(errors='coerce')` on a piece-count cell: an integer
   * written with an optional sign and ASCII digits; anything else, and an
   * empty cell, becomes NaN (None).
   */
  function ToNumeric(cell: Option<string>): (n: Option<int>)
    ensures cell.Some? && IsDigits(cell.value) ==> n == Some(DigitsValue(cell.value))
    ensures cell.None? || cell.value == NoPieceCount ==> n.None?
  {
    if cell.None? then None
    else
      var s := cell.value;
      if IsDigits(s) then Some(DigitsValue(s))
      else if |s| > 1 && s[0] == '+' && IsDigits(s[1..]) then Some(DigitsValue(s[1..]))
      else if |s| > 1 && s[0] == '-' && IsDigits(s[1..]) then Some(0 - DigitsValue(s[1..]) as int)
      else None
  }

  /** `piece_count >= 10` after coercion: NaN fails the comparison. */
  predicate LargeEnough(cell: Option<string>) {
    var n := ToNumeric(cell);
    n.Some? && n.value >= MinPieceCount
  }

  /** A piece count written as a number is large enough exactly when it is at least 10. */
  lemma {:induction false} LargeEnoughCount(count: nat)
    ensures LargeEnough(Some(Decimal(count))) <==> count >= MinPieceCount
  {
    DecimalRoundTrip(count);
  }

  // ------------------------------------------------------------ the set-cleaning chain

  predicate HasItemNumber(r: Row) {
    r.itemNumber.Some?
  }

  predicate HasPieceCountText(r: Row) {
    r.pieceCount != Some(NoPieceCount)
  }

  predicate HasEnoughPieces(r: Row) {
    LargeEnough(r.pieceCount)
  }

  /** The rows that reach the part-out-value check, in table order. */
  function SetsForPov(rows: seq<Row>, hasPieceCountColumn: bool): seq<Row> {
    var unique := DropDuplicates(rows);
    var numbered := Keep(unique, HasItemNumber);
    if hasPieceCountColumn then
      Keep(Keep(numbered, HasPieceCountText), HasEnoughPieces)
    else numbered
  }

  /** Every row has an item number. */
  predicate AllNumbered(rows: seq<Row>) {
    forall i :: 0 <= i < |rows| ==> HasItemNumber(rows[i])
  }

  /** The item-number column as a list. */
  function ItemNumbers(rows: seq<Row>): (numbers: seq<string>)
    requires AllNumbered(rows)
    ensures |numbers| == |rows|
    ensures forall i :: 0 <= i < |rows| ==> numbers[i] == rows[i].itemNumber.value
  {
    if rows == [] then []
    else ItemNumbers(rows[..|rows| - 1]) + [rows[|rows| - 1].itemNumber.value]
  }

  /** `item_numbers` as handed to the part-out-value check. */
  function ItemNumbersForPov(rows: seq<Row>, hasPieceCountColumn: bool): seq<string> {
    var kept := SetsForPov(rows, hasPieceCountColumn);
    SetsForPovSpec(rows, hasPieceCountColumn);
    assert forall i :: 0 <= i < |kept| ==> kept[i] in kept;
    ItemNumbers(kept)
  }

  /**
   * Every row that reaches the check has an item number, appears in the
   * table, and appears once; with a piece-count column, its piece count
   * reads as a number of at least 10. The rows keep table order.
   */
  lemma SetsForPovSpec(rows: seq<Row>, hasPieceCountColumn: bool)
    ensures var kept := SetsForPov(rows, hasPieceCountColumn);
      && IsSubsequence(kept, rows)
      && NoDuplicates(kept)
      && (forall r :: r in kept ==> r in rows && HasItemNumber(r))
      && (hasPieceCountColumn ==> forall r :: r in kept ==>
            r.pieceCount != Some(NoPieceCount) && ToNumeric(r.pieceCount).value >= MinPieceCount)
  {
    var unique := DropDuplicates(rows);
    DropDuplicatesSpec(rows);
    var numbered := Keep(unique, HasItemNumber);
    KeepSpec(unique, HasItemNumber);
    SubsequenceTrans(numbered, unique, rows);
    SubsequenceNoDuplicates(numbered, unique);
    if hasPieceCountColumn {
      var texts := Keep(numbered, HasPieceCountText);
      KeepSpec(numbered, HasPieceCountText);
      KeepSpec(texts, HasEnoughPieces);
      SubsequenceTrans(texts, numbered, rows);
      SubsequenceTrans(Keep(texts, HasEnoughPieces), texts, rows);
      SubsequenceNoDuplicates(texts, numbered);
      SubsequenceNoDuplicates(Keep(texts, HasEnoughPieces), texts);
    }
  }

  /** A distinct row with an item number and, where the column exists, at least 10 pieces reaches the check. */
  lemma SetsForPovComplete(rows: seq<Row>, hasPieceCountColumn: bool, r: Row)
    requires r in rows && HasItemNumber(r)
    requires hasPieceCountColumn ==> HasEnoughPieces(r)
    ensures r in SetsForPov(rows, hasPieceCountColumn)
  {
    DropDuplicatesSpec(rows);
    var unique := DropDuplicates(rows);
    KeepSpec(unique, HasItemNumber);
    if hasPieceCountColumn {
      var numbered := Keep(unique, HasItemNumber);
      KeepSpec(numbered, HasPieceCountText);
      KeepSpec(Keep(numbered, HasPieceCountText), HasEnoughPieces);
    }
  }

  /** The item numbers keep the table's order: they are a subsequence of the rows' item numbers. */
  lemma ItemNumbersInOrder(rows: seq<Row>, hasPieceCountColumn: bool)
    ensures AllNumbered(Keep(rows, HasItemNumber))
    ensures IsSubsequence(ItemNumbersForPov(rows, hasPieceCountColumn), ItemNumbers(Keep(rows, HasItemNumber)))
  {
    var numbered := Keep(rows, HasItemNumber);
    assert forall i :: 0 <= i < |numbered| ==> numbered[i] in numbered;
    var kept := SetsForPov(rows, hasPieceCountColumn);
    SetsForPovSpec(rows, hasPieceCountColumn);
    KeepSpec(rows, HasItemNumber);
    KeepSubsequence(kept, rows, HasItemNumber);
    assert Keep(kept, HasItemNumber) == kept by {
      KeepAll(kept, HasItemNumber);
    }
    assert forall i :: 0 <= i < |kept| ==> kept[i] in kept;
    ItemNumbersSubsequence(kept, numbered);
  }

  // ------------------------------------------------------------ helpers on subsequences

  lemma {:induction false} SubsequenceTrans<T>(a: seq<T>, b: seq<T>, c: seq<T>)
    requires IsSubsequence(a, b) && IsSubsequence(b, c)
    ensures IsSubsequence(a, c)
    decreases |c|
  {
    if a != [] {
      if b[0] == c[0] && IsSubsequence(b[1..], c[1..]) {
        if a[0] == b[0] && IsSubsequence(a[1..], b[1..]) {
          SubsequenceTrans(a[1..], b[1..], c[1..]);
        } else {
          SubsequenceTrans(a, b[1..], c[1..]);
        }
      } else {
        SubsequenceTrans(a, b, c[1..]);
      }
    }
  }

  lemma {:induction false} SubsequenceNoDuplicates<T>(a: seq<T>, b: seq<T>)
    requires IsSubsequence(a, b) && NoDuplicates(b)
    ensures NoDuplicates(a)
    decreases |b|
  {
    if a != [] {
      assert NoDuplicates(b[1..]) by {
        forall i, j | 0 <= i < j < |b[1..]| ensures b[1..][i] != b[1..][j] {
          assert b[1..][i] == b[i + 1] && b[1..][j] == b[j + 1];
        }
      }
      if a[0] == b[0] && IsSubsequence(a[1..], b[1..]) {
        SubsequenceNoDuplicates(a[1..], b[1..]);
        forall j | 0 < j < |a| ensures a[0] != a[j] {
          assert a[j] == a[1..][j - 1];
          SubsequenceMembers(a[1..], b[1..], a[j]);
          var k :| 0 <= k < |b[1..]| && b[1..][k] == a[j];
          assert b[k + 1] == a[j];
        }
        forall i, j | 0 <= i < j < |a| ensures a[i] != a[j] {
          if i > 0 {
            assert a[i] == a[1..][i - 1] && a[j] == a[1..][j - 1];
          }
        }
      } else {
        SubsequenceNoDuplicates(a, b[1..]);
      }
    }
  }

  /** Filtering a subsequence gives a subsequence of the filtered whole. */
  lemma {:induction false} KeepSubsequence(a: seq<Row>, b: seq<Row>, keep: Row -> bool)
    requires IsSubsequence(a, b)
    ensures IsSubsequence(Keep(a, keep), Keep(b, keep))
    decreases |b|
  {
    if a == [] {
      EmptySubsequence(Keep(b, keep));
    } else {
      KeepFront(b, keep);
      if a[0] == b[0] && IsSubsequence(a[1..], b[1..]) {
        KeepFront(a, keep);
        KeepSubsequence(a[1..], b[1..], keep);
        if keep(a[0]) {
          var ka, kb := Keep(a, keep), Keep(b, keep);
          assert ka == [a[0]] + Keep(a[1..], keep) && kb == [b[0]] + Keep(b[1..], keep);
          assert ka[1..] == Keep(a[1..], keep) && kb[1..] == Keep(b[1..], keep);
          assert ka[0] == kb[0];
          assert IsSubsequence(ka, kb);
        } else {
          assert Keep(a, keep) == Keep(a[1..], keep);
          assert Keep(b, keep) == Keep(b[1..], keep);
        }
      } else {
        KeepSubsequence(a, b[1..], keep);
        if keep(b[0]) {
          SubsequenceCons(Keep(a, keep), Keep(b[1..], keep), b[0]);
          assert Keep(b, keep) == [b[0]] + Keep(b[1..], keep);
        } else {
          assert Keep(b, keep) == Keep(b[1..], keep);
        }
      }
    }
  }

  /** `Keep` read from the front. */
  lemma {:induction false} KeepFront(s: seq<Row>, keep: Row -> bool)
    requires s != []
    ensures Keep(s, keep) == (if keep(s[0]) then [s[0]] else []) + Keep(s[1..], keep)
    decreases |s|
  {
    var n := |s| - 1;
    if n > 0 {
      KeepFront(s[..n], keep);
      assert s[..n][1..] == s[1..][..n - 1];
      assert s[..n][0] == s[0];
    }
  }

  lemma SubsequenceCons<T>(a: seq<T>, b: seq<T>, x: T)
    requires IsSubsequence(a, b)
    ensures IsSubsequence(a, [x] + b)
  {
    assert ([x] + b)[1..] == b;
  }

  lemma {:induction false} KeepAll(s: seq<Row>, keep: Row -> bool)
    requires forall r :: r in s ==> keep(r)
    ensures Keep(s, keep) == s
  {
    if s != [] {
      var n := |s| - 1;
      KeepAll(s[..n], keep);
      assert s == s[..n] + [s[n]];
    }
  }

  /** Item numbers of a subsequence form a subsequence of the item numbers. */
  lemma {:induction false} ItemNumbersSubsequence(a: seq<Row>, b: seq<Row>)
    requires IsSubsequence(a, b)
    requires AllNumbered(a) && AllNumbered(b)
    ensures IsSubsequence(ItemNumbers(a), ItemNumbers(b))
    decreases |b|
  {
    if a == [] {
      EmptySubsequence(ItemNumbers(b));
    } else {
      ItemNumbersFront(b);
      if a[0] == b[0] && IsSubsequence(a[1..], b[1..]) {
        ItemNumbersFront(a);
        ItemNumbersSubsequence(a[1..], b[1..]);
      } else {
        ItemNumbersSubsequence(a, b[1..]);
        SubsequenceCons(ItemNumbers(a), ItemNumbers(b[1..]), b[0].itemNumber.value);
      }
    }
  }

  lemma ItemNumbersFront(s: seq<Row>)
    requires s != [] && AllNumbered(s)
    ensures ItemNumbers(s) == [s[0].itemNumber.value] + ItemNumbers(s[1..])
  {
    var numbers := [s[0].itemNumber.value] + ItemNumbers(s[1..]);
    assert |numbers| == |s|;
    forall i | 0 <= i < |s| ensures ItemNumbers(s)[i] == numbers[i] {
      if i > 0 {
        assert numbers[i] == ItemNumbers(s[1..])[i - 1] == s[1..][i - 1].itemNumber.value;
      }
    }
  }
}
