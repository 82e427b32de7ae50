/**
 * The table claim matcher of reorder_table.py. A two-column Word table holds a
 * header row, then content rows separated by blank rows: rows 0, 1, 3, 5, ... carry
 * entries. `reorder_claims` reorders the left column so that each of its claims
 * faces the right-column claim it resembles most. Opening and saving the .docx file
 * is not modelled; the table is an array of rows updated in place.
 */
module TableClaims {
  import opened Outcomes
  import opened Aligner

  /** One table row: the texts of its left and right cells. */
  datatype Row = Row(left: string, right: string)

  /** The row that holds entry `k` of a column: the header row 0, then rows 1, 3, 5, .... */
  function EntryRow(k: nat): nat {
    if k == 0 then 0 else 2 * k - 1
  }

  /** Whether row `j` holds one of the first `m` entries (`m >= 1`). */
  predicate HoldsEntry(j: nat, m: nat) {
    j == 0 || (j % 2 == 1 && (j + 1) / 2 < m)
  }

  /** How many entries a table of `n > 0` rows has: the header and one per odd row. */
  function EntryCount(n: nat): nat {
    1 + n / 2
  }

  /** The left column as table_to_lists reads it. */
  function Lefts(rows: seq<Row>): (r: seq<string>)
    requires rows != []
    ensures |r| == EntryCount(|rows|)
  {
    seq(EntryCount(|rows|), k requires 0 <= k < EntryCount(|rows|) => rows[EntryRow(k)].left)
  }

  /** The right column as table_to_lists reads it. */
  function Rights(rows: seq<Row>): (r: seq<string>)
    requires rows != []
    ensures |r| == EntryCount(|rows|)
  {
    seq(EntryCount(|rows|), k requires 0 <= k < EntryCount(|rows|) => rows[EntryRow(k)].right)
  }

  /** What `table_to_lists(table)` returns, or IndexError for a table without rows. */
  function Columns(rows: seq<Row>): Result<(seq<string>, seq<string>)> {
    if rows == [] then Err(IndexOutOfRange) else Ok((Lefts(rows), Rights(rows)))
  }

  /** Every row that holds an entry is read, and only those: the blank separator rows are never looked at. */
  lemma ColumnsReadEntryRows(rows: seq<Row>)
    requires rows != []
    ensures forall j :: 0 <= j < |rows| && HoldsEntry(j, EntryCount(|rows|)) ==>
      exists k :: 0 <= k < EntryCount(|rows|) && EntryRow(k) == j
    ensures forall k :: 0 <= k < EntryCount(|rows|) ==>
      EntryRow(k) < |rows| && HoldsEntry(EntryRow(k), EntryCount(|rows|)) &&
      Lefts(rows)[k] == rows[EntryRow(k)].left && Rights(rows)[k] == rows[EntryRow(k)].right
  {
    forall j | 0 <= j < |rows| && HoldsEntry(j, EntryCount(|rows|))
      ensures exists k :: 0 <= k < EntryCount(|rows|) && EntryRow(k) == j
    {
      if j == 0 {
        assert EntryRow(0) == j;
      } else {
        assert EntryRow((j + 1) / 2) == j;
      }
    }
  }

  /** Two tables that agree on their entry rows have the same columns, whatever their blank rows hold. */
  lemma ColumnsIgnoreBlankRows(rows: seq<Row>, other: seq<Row>)
    requires |rows| == |other|
    requires forall j :: 0 <= j < |rows| && HoldsEntry(j, EntryCount(|rows|)) ==> rows[j] == other[j]
    ensures Columns(rows) == Columns(other)
  {
    if rows != [] {
      ColumnsReadEntryRows(rows);
      assert Lefts(rows) == Lefts(other) && Rights(rows) == Rights(other);
    }
  }

  /**
   * overwrite_table's loop from entry `i` on: row `2i-1` gets its left cell, then
   * its right cell. It raises IndexError when the table has no row `2i-1` (before
   * writing it) or `right` has no entry `i` (after writing the left cell).
   */
  function OverwriteFrom(rows: seq<Row>, left: seq<string>, right: seq<string>, i: nat): (Result<()>, seq<Row>)
    requires 1 <= i
    decreases |left| - i
  {
    if i >= |left| then (Ok(()), rows)
    else
      var k := 2 * i - 1;
      if k >= |rows| then (Err(IndexOutOfRange), rows)
      else
        var withLeft := rows[k := rows[k].(left := left[i])];
        if i >= |right| then (Err(IndexOutOfRange), withLeft)
        else OverwriteFrom(withLeft[k := withLeft[k].(right := right[i])], left, right, i + 1)
  }

  /**
   * What `overwrite_table(left, right, table)` leaves in the table and whether it
   * raises: the header row gets `left[0]` and `right[0]` (IndexError, with nothing
   * written, when either list or the table is empty), then the loop.
   */
  function Overwrite(rows: seq<Row>, left: seq<string>, right: seq<string>): (Result<()>, seq<Row>) {
    if left == [] || right == [] || rows == [] then (Err(IndexOutOfRange), rows)
    else OverwriteFrom(rows[0 := Row(left[0], right[0])], left, right, 1)
  }

  function Min(a: nat, b: nat): nat {
    if a <= b then a else b
  }

  /** overwrite_table stops at entry `Written(...)`: the end of `left`, of `right`, or of the table. */
  function Written(n: nat, left: seq<string>, right: seq<string>): nat {
    Min(Min(|left|, |right|), EntryCount(n))
  }

  /** The loop stopped at `right`'s end with a row still there: the left cell of entry `m` was written alone. */
  predicate HalfWritten(n: nat, left: seq<string>, right: seq<string>) {
    var m := Written(n, left, right);
    m == |right| < |left| && m < EntryCount(n)
  }

  lemma {:induction false} OverwriteFromStatus(rows: seq<Row>, left: seq<string>, right: seq<string>, i: nat)
    requires rows != [] && 1 <= i <= Written(|rows|, left, right)
    ensures var (status, after) := OverwriteFrom(rows, left, right, i);
      && |after| == |rows|
      && (status.Ok? <==> Written(|rows|, left, right) == |left|)
      && (status.Err? ==> status.error == IndexOutOfRange)
    decreases |left| - i
  {
    if i < |left| && 2 * i - 1 < |rows| && i < |right| {
      var k := 2 * i - 1;
      var withLeft := rows[k := rows[k].(left := left[i])];
      OverwriteFromStatus(withLeft[k := withLeft[k].(right := right[i])], left, right, i + 1);
    }
  }

  lemma {:induction false} OverwriteFromEntries(rows: seq<Row>, left: seq<string>, right: seq<string>, i: nat)
    requires rows != [] && 1 <= i <= Written(|rows|, left, right)
    ensures var after := OverwriteFrom(rows, left, right, i).1;
      forall k :: i <= k < Written(|rows|, left, right) ==> EntryRow(k) < |after| && after[EntryRow(k)] == Row(left[k], right[k])
    decreases |left| - i
  {
    var m := Written(|rows|, left, right);
    if i < m {
      var k := 2 * i - 1;
      var next := rows[k := Row(left[i], right[i])];
      var withLeft := rows[k := rows[k].(left := left[i])];
      assert withLeft[k := withLeft[k].(right := right[i])] == next;
      assert OverwriteFrom(rows, left, right, i) == OverwriteFrom(next, left, right, i + 1);
      OverwriteFromEntries(next, left, right, i + 1);
      OverwriteFromOthers(next, left, right, i + 1);
      var after := OverwriteFrom(next, left, right, i + 1).1;
      assert EntryRow(i) == k;
      assert HalfWritten(|rows|, left, right) ==> EntryRow(m) != k;
      assert !Pending(k, i + 1, m);
    }
  }

  /** Row `j` is an entry row the loop reaches from entry `i` on, short of entry `m`. */
  predicate Pending(j: nat, i: nat, m: nat) {
    j % 2 == 1 && i <= (j + 1) / 2 < m
  }

  lemma {:induction false} OverwriteFromOthers(rows: seq<Row>, left: seq<string>, right: seq<string>, i: nat)
    requires rows != [] && 1 <= i <= Written(|rows|, left, right)
    ensures var after := OverwriteFrom(rows, left, right, i).1;
      var m := Written(|rows|, left, right);
      && |after| == |rows|
      && (HalfWritten(|rows|, left, right) ==> EntryRow(m) < |rows| && after[EntryRow(m)] == rows[EntryRow(m)].(left := left[m]))
      && (forall j :: 0 <= j < |rows| && !Pending(j, i, m) && !(HalfWritten(|rows|, left, right) && j == EntryRow(m)) ==>
            after[j] == rows[j])
    decreases |left| - i
  {
    var m := Written(|rows|, left, right);
    OverwriteFromStatus(rows, left, right, i);
    if i < m {
      var k := 2 * i - 1;
      var next := rows[k := Row(left[i], right[i])];
      var withLeft := rows[k := rows[k].(left := left[i])];
      assert withLeft[k := withLeft[k].(right := right[i])] == next;
      assert OverwriteFrom(rows, left, right, i) == OverwriteFrom(next, left, right, i + 1);
      OverwriteFromOthers(next, left, right, i + 1);
      assert EntryRow(i) == k;
      assert HalfWritten(|rows|, left, right) ==> EntryRow(m) != k;
      forall j | 0 <= j < |rows| && !Pending(j, i, m)
        ensures !Pending(j, i + 1, m) && j != k
      {
      }
    }
  }

  /**
   * overwrite_table writes entry `k` of both lists into row `EntryRow(k)` for every
   * entry up to the first missing one (the end of `left` or `right`, or of the
   * table), writes only the left cell of the entry where `right` runs out first, and
   * leaves every other row as it was, the blank rows between entries included. It
   * returns exactly when `1 <= |left| <= |right|` and the table has a row for every
   * entry of `left`, and raises IndexError otherwise.
   */
  lemma OverwriteMeaning(rows: seq<Row>, left: seq<string>, right: seq<string>)
    ensures left == [] || right == [] || rows == [] ==> Overwrite(rows, left, right) == (Err(IndexOutOfRange), rows)
    ensures left != [] && right != [] && rows != [] ==>
      var (status, after) := Overwrite(rows, left, right);
      var m := Written(|rows|, left, right);
      && |after| == |rows|
      && (status.Ok? <==> |left| <= |right| && |left| <= EntryCount(|rows|))
      && (status.Err? ==> status.error == IndexOutOfRange)
      && (forall k :: 0 <= k < m ==> after[EntryRow(k)] == Row(left[k], right[k]))
      && (HalfWritten(|rows|, left, right) ==> after[EntryRow(m)] == rows[EntryRow(m)].(left := left[m]))
      && (forall j :: 0 <= j < |rows| && !HoldsEntry(j, m) && !(HalfWritten(|rows|, left, right) && j == EntryRow(m)) ==>
            after[j] == rows[j])
      && (forall k :: 0 <= k < m ==> EntryRow(k) < |rows|)
  {
    if left != [] && right != [] && rows != [] {
      var first := rows[0 := Row(left[0], right[0])];
      var m := Written(|rows|, left, right);
      OverwriteFromStatus(first, left, right, 1);
      OverwriteFromEntries(first, left, right, 1);
      OverwriteFromOthers(first, left, right, 1);
      var after := Overwrite(rows, left, right).1;
      assert HalfWritten(|rows|, left, right) ==> EntryRow(m) != 0;
      forall j | 0 <= j < |rows| && !HoldsEntry(j, m)
        ensures j != 0 && !Pending(j, 1, m)
      {
      }
    }
  }

  /**
   * Reading the table back after a successful overwrite gives the written lists,
   * followed by the entries the overwrite did not reach; in particular lists as
   * long as the table's columns are read back unchanged.
   */
  lemma ReadAfterOverwrite(rows: seq<Row>, left: seq<string>, right: seq<string>)
    requires Overwrite(rows, left, right).0.Ok?
    ensures var after := Overwrite(rows, left, right).1;
      && rows != [] && |left| <= |right| && |left| <= EntryCount(|rows|)
      && Columns(after) == Ok((left + Lefts(rows)[|left|..], right[..|left|] + Rights(rows)[|left|..]))
    ensures |left| == |right| == EntryCount(|rows|) ==> Columns(Overwrite(rows, left, right).1) == Ok((left, right))
  {
    OverwriteMeaning(rows, left, right);
    var after := Overwrite(rows, left, right).1;
    var m := |left|;
    var l, r := left + Lefts(rows)[m..], right[..m] + Rights(rows)[m..];
    forall k | 0 <= k < EntryCount(|rows|)
      ensures Lefts(after)[k] == l[k] && Rights(after)[k] == r[k]
    {
      if k >= m {
        var j := EntryRow(k);
        assert !HoldsEntry(j, m);
        assert after[j] == rows[j];
      }
    }
    assert Lefts(after) == l;
    assert Rights(after) == r;
    if |left| == |right| == EntryCount(|rows|) {
      assert l == left && r == right;
    }
  }

  /** Writing back the columns just read leaves the table as it was. */
  lemma OverwriteWithColumns(rows: seq<Row>)
    requires rows != []
    ensures Overwrite(rows, Lefts(rows), Rights(rows)) == (Ok(()), rows)
  {
    var left, right := Lefts(rows), Rights(rows);
    OverwriteMeaning(rows, left, right);
    var (status, after) := Overwrite(rows, left, right);
    var m := Written(|rows|, left, right);
    assert m == EntryCount(|rows|) && !HalfWritten(|rows|, left, right);
    forall j | 0 <= j < |rows|
      ensures after[j] == rows[j]
    {
      if HoldsEntry(j, m) {
        var k := if j == 0 then 0 else (j + 1) / 2;
        assert EntryRow(k) == j;
        assert after[j] == Row(left[k], right[k]);
      }
    }
    assert after == rows;
    assert status.Ok?;
    assert status.value == ();
  }

  /** A Word table of two columns, its rows held in order. */
  class Table {
    const rows: array<Row>

    constructor (contents: seq<Row>)
      ensures fresh(rows)
      ensures rows[..] == contents
    {
      rows := new Row[|contents|](j requires 0 <= j < |contents| => contents[j]);
    }

    /** `table_to_lists(table)`: the header, then rows 1, 3, 5, ..., of each column. */
    method TableToLists() returns (r: Result<(seq<string>, seq<string>)>)
      ensures r == Columns(rows[..])
    {
      if rows.Length == 0 {
        return Err(IndexOutOfRange);
      }
      var left, right := [rows[0].left], [rows[0].right];
      var i := 1;
      while i < rows.Length
        invariant 1 <= i <= rows.Length + 1 && i % 2 == 1
        invariant |left| == |right| == (i + 1) / 2
        invariant forall k :: 0 <= k < |left| ==> left[k] == rows[EntryRow(k)].left && right[k] == rows[EntryRow(k)].right
      {
        assert EntryRow(|left|) == i;
        left, right := left + [rows[i].left], right + [rows[i].right];
        i := i + 2;
      }
      assert |left| == EntryCount(rows.Length);
      assert left == Lefts(rows[..]) && right == Rights(rows[..]);
      return Ok((left, right));
    }

    /** `overwrite_table(left, right, table)`. */
    method OverwriteTable(left: seq<string>, right: seq<string>) returns (r: Result<()>)
      modifies rows
      ensures (r, rows[..]) == Overwrite(old(rows[..]), left, right)
    {
      if left == [] || right == [] || rows.Length == 0 {
        return Err(IndexOutOfRange);
      }
      rows[0] := Row(left[0], right[0]);
      for i := 1 to |left|
        invariant OverwriteFrom(rows[..], left, right, i) == Overwrite(old(rows[..]), left, right)
      {
        var k := 2 * i - 1;
        if k >= rows.Length {
          return Err(IndexOutOfRange);
        }
        rows[k] := rows[k].(left := left[i]);
        if i >= |right| {
          return Err(IndexOutOfRange);
        }
        rows[k] := rows[k].(right := right[i]);
      }
      return Ok(());
    }

    /**
     * The table part of `reorder_claims(file)`: the right column is the key; every
     * left-column claim below the header is replaced by the left-column claim that
     * best matches the right-column claim beside it (`fast` off, so one claim may be
     * used twice). The header row, the right column and the blank rows keep their
     * text. It fails, leaving the table as it was, when the table has no row or a
     * claim below the header has no ".".
     */
    method ReorderClaims() returns (r: Result<()>)
      modifies rows
      ensures rows.Length == 0 ==> r == Err(IndexOutOfRange)
      ensures rows.Length > 0 ==>
        var key, other := Rights(old(rows[..]))[1..], Lefts(old(rows[..]))[1..];
        && (r.Ok? <==> AllNumbered(key) && AllNumbered(other))
        && (r.Err? ==> r.error == SeparatorNotFound)
      ensures r.Err? ==> rows[..] == old(rows[..])
      ensures r.Ok? ==> old(rows[..]) != [] && ReorderedFrom(old(rows[..]), rows[..])
    {
      ghost var before := rows[..];
      var columns := TableToLists();
      if columns.Err? {
        return Err(columns.error);
      }
      var other, key := columns.value.0, columns.value.1;
      var keyClaims, otherClaims := key[1..], other[1..];
      DiffsSucceeds(keyClaims, otherClaims, false);
      var diffs := ComputeDiffs(keyClaims, otherClaims, false);
      if diffs.Err? {
        return Err(diffs.error);
      }
      var picks := diffs.value;
      PicksAreEarliestBest(keyClaims, otherClaims, picks);
      var pair := ReorderLists(keyClaims, otherClaims, picks);
      assert pair.Ok?;
      var reordered := [other[0]] + pair.value.1;
      ReorderedTable(before, picks, pair.value.1);
      r := OverwriteTable(reordered, key);
    }
  }

  /**
   * `after` is `before` with its left column reordered against its right column:
   * the right column and the rows between entries keep their text, the header row
   * too, and the left cell of entry row `k` holds the left-column claim that is the
   * earliest best match for the right-column claim of entry `k`.
   */
  ghost predicate ReorderedFrom(before: seq<Row>, after: seq<Row>)
    requires before != []
  {
    var key, other := Rights(before)[1..], Lefts(before)[1..];
    && |after| == |before|
    && (forall j :: 0 <= j < |before| ==> after[j].right == before[j].right)
    && (forall j :: 0 <= j < |before| && j % 2 == 0 ==> after[j] == before[j])
    && (forall k :: 1 <= k < EntryCount(|before|) ==>
          exists c: nat :: EarliestBest(key[k - 1], other, c) && after[EntryRow(k)].left == other[c])
  }

  /** Writing the header's left cell, then the picked claims, with the table's own right column, reorders the table. */
  lemma ReorderedTable(before: seq<Row>, picks: seq<DiffRow>, tail: seq<string>)
    requires before != []
    requires var key, other := Rights(before)[1..], Lefts(before)[1..];
      && |picks| == |key| && |tail| == |other|
      && forall i :: 0 <= i < |key| ==>
           picks[i].closest < |other| && EarliestBest(key[i], other, picks[i].closest) && tail[i] == other[picks[i].closest]
    ensures Overwrite(before, [Lefts(before)[0]] + tail, Rights(before)).0 == Ok(())
    ensures ReorderedFrom(before, Overwrite(before, [Lefts(before)[0]] + tail, Rights(before)).1)
  {
    var key, other := Rights(before)[1..], Lefts(before)[1..];
    TailWritten(before, tail);
    var after := Overwrite(before, [Lefts(before)[0]] + tail, Rights(before)).1;
    forall k | 1 <= k < EntryCount(|before|)
      ensures exists c: nat :: EarliestBest(key[k - 1], other, c) && after[EntryRow(k)].left == other[c]
    {
      var c := picks[k - 1].closest;
      assert EarliestBest(key[k - 1], other, c) && after[EntryRow(k)].left == other[c];
    }
  }

  /** The header keeps its left cell and entry `k` below it gets `tail[k - 1]`. */
  lemma TailWritten(before: seq<Row>, tail: seq<string>)
    requires before != [] && |tail| + 1 == EntryCount(|before|)
    ensures var (status, after) := Overwrite(before, [Lefts(before)[0]] + tail, Rights(before));
      && status == Ok(())
      && |after| == |before|
      && (forall j :: 0 <= j < |before| ==> after[j].right == before[j].right)
      && (forall j :: 0 <= j < |before| && j % 2 == 0 ==> after[j] == before[j])
      && (forall k :: 1 <= k < EntryCount(|before|) ==> after[EntryRow(k)].left == tail[k - 1])
  {
    var reordered := [Lefts(before)[0]] + tail;
    OverwriteLeftColumn(before, reordered);
    var after := Overwrite(before, reordered, Rights(before)).1;
    assert after[0] == before[0];
    forall k | 1 <= k < EntryCount(|before|)
      ensures after[EntryRow(k)].left == tail[k - 1]
    {
      assert reordered[k] == tail[k - 1];
    }
  }

  /** Without `fast`, every row of a successful compute_diffs picks the earliest best candidate. */
  lemma PicksAreEarliestBest(key: seq<string>, other: seq<string>, picks: seq<DiffRow>)
    requires Diffs(key, other, false) == Ok(picks)
    ensures |picks| == |key|
    ensures forall i :: 0 <= i < |key| ==> picks[i].closest < |other| && EarliestBest(key[i], other, picks[i].closest)
  {
    DiffsComputed(key, other, false, picks);
    forall i | 0 <= i < |key|
      ensures picks[i].closest < |other| && EarliestBest(key[i], other, picks[i].closest)
    {
      DiffsRow(key, other, false, picks, i);
      RelaxedPicksEarliestBest(key, other, picks, i);
    }
  }

  /**
   * Overwriting a table with a new left column and its own right column succeeds
   * and changes only the left cells of its entry rows: the right column and the
   * blank rows keep their text.
   */
  lemma OverwriteLeftColumn(rows: seq<Row>, left: seq<string>)
    requires rows != [] && |left| == EntryCount(|rows|)
    ensures var (status, after) := Overwrite(rows, left, Rights(rows));
      && status == Ok(())
      && |after| == |rows|
      && (forall j :: 0 <= j < |rows| ==> after[j].right == rows[j].right)
      && (forall j :: 0 < j < |rows| && j % 2 == 0 ==> after[j] == rows[j])
      && (forall k :: 0 <= k < |left| ==> after[EntryRow(k)].left == left[k])
  {
    var right := Rights(rows);
    OverwriteMeaning(rows, left, right);
    var (status, after) := Overwrite(rows, left, right);
    var m := Written(|rows|, left, right);
    assert m == |left| && !HalfWritten(|rows|, left, right);
    assert status.Ok? && status.value == ();
    forall j | 0 <= j < |rows|
      ensures after[j].right == rows[j].right
    {
      if HoldsEntry(j, m) {
        var k := if j == 0 then 0 else (j + 1) / 2;
        assert EntryRow(k) == j;
        assert after[j] == Row(left[k], right[k]);
      }
    }
  }
}
