/**
 * The greedy aligner that reorder_docs.py and reorder_table.py each carry an
 * identical copy of: `compute_diffs` builds the score matrix row by row and picks a
 * candidate per key item; `reorder_lists` puts each pick at its key item's position.
 */
module Aligner {
  import opened Outcomes
  import opened Text
  import opened Scoring

  /** A score-matrix entry: a word-count difference, or the `float("inf")` given to a column already taken. */
  datatype Score = Finite(n: nat) | Inf

  /**
   * One row of compute_diffs' matrix: a score per candidate, then the index the row
   * picked, which Python appends as the row's last element (`diffs[i][-1]`).
   */
  datatype DiffRow = DiffRow(scores: seq<Score>, closest: nat)

  /** `compare_strings(slice(item, "."), slice(test, "."))`: the score of a candidate against a key item. */
  ghost function ClaimScore(item: string, candidate: string): nat
    requires '.' in item && '.' in candidate
  {
    Discrepancy(SliceClaim(item).value, SliceClaim(candidate).value)
  }

  /** Every claim of the list has a "." for `slice` to cut at. */
  predicate AllNumbered(claims: seq<string>) {
    forall k :: 0 <= k < |claims| ==> '.' in claims[k]
  }

  /**
   * The index a row settles on: compute_diffs scans left to right and moves
   * `closest` only to a finite score strictly below the best so far, so the
   * earliest minimum wins; `None` when every entry is `Inf`.
   */
  function Closest(scores: seq<Score>): (r: Option<nat>)
    ensures r.None? <==> forall j :: 0 <= j < |scores| ==> scores[j].Inf?
    ensures r.Some? ==> r.value < |scores| && scores[r.value].Finite?
    ensures r.Some? ==> forall j :: 0 <= j < |scores| && scores[j].Finite? ==> scores[r.value].n <= scores[j].n
    ensures r.Some? ==> forall j :: 0 <= j < r.value ==> scores[j].Inf? || scores[r.value].n < scores[j].n
  {
    if scores == [] then None
    else
      var last := |scores| - 1;
      var r := Closest(scores[..last]);
      assert forall j :: 0 <= j < last ==> scores[..last][j] == scores[j];
      if scores[last].Finite? && (r.None? || scores[last].n < scores[r.value].n) then Some(last) else r
  }

  /** Scoring one more column moves the pick only to a finite score below the best so far. */
  lemma ClosestStep(scores: seq<Score>, x: Score)
    ensures var c := Closest(scores);
      Closest(scores + [x]) == if x.Finite? && (c.None? || x.n < scores[c.value].n) then Some(|scores|) else c
  {
    assert (scores + [x])[..|scores|] == scores;
  }

  /** `not matched[j] or not fast`: whether column `j` is scored in the current row. */
  predicate Eligible(matched: seq<bool>, j: nat, fast: bool)
    requires j < |matched|
  {
    !matched[j] || !fast
  }

  /** Some column is still scored in this row (otherwise Python evaluates `matched[None]`). */
  predicate HasEligible(matched: seq<bool>, fast: bool) {
    exists j :: 0 <= j < |matched| && Eligible(matched, j, fast)
  }

  /** Every candidate scored in this row has a "." for `slice` to cut at. */
  predicate EligibleNumbered(other: seq<string>, matched: seq<bool>, fast: bool)
    requires |matched| == |other|
  {
    forall j :: 0 <= j < |other| && Eligible(matched, j, fast) ==> '.' in other[j]
  }

  /** The scores of one row: `ClaimScore` for each eligible column, `Inf` for the others. */
  ghost function RowScores(item: string, other: seq<string>, matched: seq<bool>, fast: bool): (r: seq<Score>)
    requires |matched| == |other| && '.' in item && EligibleNumbered(other, matched, fast)
    ensures |r| == |other|
    ensures forall j :: 0 <= j < |other| ==> EntryOk(item, other[j], Eligible(matched, j, fast), r[j])
  {
    seq(|other|, j requires 0 <= j < |other| =>
      if Eligible(matched, j, fast) then Finite(ClaimScore(item, other[j])) else Inf)
  }

  /**
   * One pass of compute_diffs' inner loop for key item `item` under the current
   * `matched` flags: the row's `RowScores`, then its pick `Closest`. It raises when
   * no column is eligible (`matched[None]`) or when a claim it slices has no ".".
   */
  ghost function ScoreRowSpec(item: string, other: seq<string>, matched: seq<bool>, fast: bool): (r: Result<DiffRow>)
    requires |matched| == |other|
    ensures r.Ok? ==> |r.value.scores| == |other| && r.value.closest < |other|
    ensures r.Ok? ==> Eligible(matched, r.value.closest, fast)
  {
    if !HasEligible(matched, fast) then Err(NoUnmatchedCandidate)
    else if '.' !in item || !EligibleNumbered(other, matched, fast) then Err(SeparatorNotFound)
    else
      var scores := RowScores(item, other, matched, fast);
      match Closest(scores)
      case None => Err(NoUnmatchedCandidate)
      case Some(c) => Ok(DiffRow(scores, c))
  }

  /** Scoring the next column extends what the inner loop has produced. */
  lemma {:induction false} ScoredExtend(item: string, other: seq<string>, matched: seq<bool>, fast: bool, scores: seq<Score>, x: Score)
    requires |matched| == |other| && |scores| < |other|
    requires ScoredUpTo(item, other, matched, fast, scores)
    requires EntryOk(item, other[|scores|], Eligible(matched, |scores|, fast), x)
    ensures ScoredUpTo(item, other, matched, fast, scores + [x])
  {
    var next := scores + [x];
    forall t | 0 <= t < |next|
      ensures EntryOk(item, other[t], Eligible(matched, t, fast), next[t])
    {
      if t < |scores| {
        assert next[t] == scores[t];
      }
    }
  }

  /** A row raises IndexError as soon as an eligible column meets an unnumbered claim. */
  lemma RowSpecUnnumbered(item: string, other: seq<string>, matched: seq<bool>, fast: bool, j: nat)
    requires |matched| == |other| && j < |other| && Eligible(matched, j, fast)
    requires '.' !in item || '.' !in other[j]
    ensures ScoreRowSpec(item, other, matched, fast) == Err(SeparatorNotFound)
  {
    assert HasEligible(matched, fast);
  }

  /** The scores the inner loop has produced for the first `j` columns. */
  ghost predicate ScoredUpTo(item: string, other: seq<string>, matched: seq<bool>, fast: bool, scores: seq<Score>)
    requires |matched| == |other| && |scores| <= |other|
  {
    forall t :: 0 <= t < |scores| ==> EntryOk(item, other[t], Eligible(matched, t, fast), scores[t])
  }

  /** A scored column holds `ClaimScore`, a skipped one `Inf`. */
  ghost predicate EntryOk(item: string, candidate: string, eligible: bool, x: Score) {
    if eligible then '.' in item && '.' in candidate && x == Finite(ClaimScore(item, candidate)) else x == Inf
  }

  /** Once every column is scored and none is finite, no column was eligible: the row raises. */
  lemma RowSpecNoColumn(item: string, other: seq<string>, matched: seq<bool>, fast: bool, scores: seq<Score>)
    requires |matched| == |other| == |scores|
    requires ScoredUpTo(item, other, matched, fast, scores)
    requires forall j :: 0 <= j < |scores| ==> scores[j].Inf?
    ensures ScoreRowSpec(item, other, matched, fast) == Err(NoUnmatchedCandidate)
  {
    forall j | 0 <= j < |other|
      ensures !Eligible(matched, j, fast)
    {
      assert scores[j].Inf?;
    }
  }

  /** Once every column is scored and column `c` is finite, the row is the specified one. */
  lemma RowSpecComplete(item: string, other: seq<string>, matched: seq<bool>, fast: bool, scores: seq<Score>, c: nat)
    requires |matched| == |other| == |scores|
    requires ScoredUpTo(item, other, matched, fast, scores)
    requires c < |scores| && scores[c].Finite?
    ensures ScoreRowSpec(item, other, matched, fast).Ok?
    ensures ScoreRowSpec(item, other, matched, fast).value.scores == scores
  {
    assert Eligible(matched, c, fast);
    assert '.' in item;
    assert EligibleNumbered(other, matched, fast);
    var spec := RowScores(item, other, matched, fast);
    assert forall t :: 0 <= t < |scores| ==> scores[t] == spec[t];
  }

  /** What a row the inner loop returns holds, column by column. */
  lemma RowSpecFacts(item: string, other: seq<string>, matched: seq<bool>, fast: bool, row: DiffRow)
    requires |matched| == |other| && ScoreRowSpec(item, other, matched, fast) == Ok(row)
    ensures '.' in item && |row.scores| == |other| && Closest(row.scores) == Some(row.closest)
    ensures forall j :: 0 <= j < |other| ==> (row.scores[j].Inf? <==> !Eligible(matched, j, fast))
    ensures forall j :: 0 <= j < |other| && Eligible(matched, j, fast) ==>
      '.' in other[j] && row.scores[j] == Finite(ClaimScore(item, other[j]))
  {
  }

  /** `compare_strings(slice(item, "."), slice(test, "."))`, raising when either claim has no ".". */
  method ScoreClaim(item: string, candidate: string) returns (r: Result<nat>)
    ensures r.Ok? <==> '.' in item && '.' in candidate
    ensures r.Err? ==> r.error == SeparatorNotFound
    ensures r.Ok? ==> r.value == ClaimScore(item, candidate)
  {
    var a := SliceClaim(item);
    if a.Err? {
      return Err(a.error);
    }
    var b := SliceClaim(candidate);
    if b.Err? {
      return Err(b.error);
    }
    var diff := CompareStrings(a.value, b.value);
    return Ok(diff);
  }

  /** compute_diffs' inner loop: scores one key item against every candidate. */
  method ScoreRow(item: string, other: seq<string>, matched: seq<bool>, fast: bool) returns (r: Result<DiffRow>)
    requires |matched| == |other|
    ensures r == ScoreRowSpec(item, other, matched, fast)
  {
    var scores: seq<Score> := [];
    var closest: Option<nat> := None;
    var best: Score := Inf;
    for j := 0 to |other|
      invariant |scores| == j
      invariant closest == Closest(scores)
      invariant best == if closest.Some? then scores[closest.value] else Inf
      invariant ScoredUpTo(item, other, matched, fast, scores)
    {
      if !matched[j] || !fast {
        var score := ScoreClaim(item, other[j]);
        if score.Err? {
          RowSpecUnnumbered(item, other, matched, fast, j);
          return Err(score.error);
        }
        var diff := score.value;
        assert EntryOk(item, other[j], true, Finite(diff));
        ScoredExtend(item, other, matched, fast, scores, Finite(diff));
        ClosestStep(scores, Finite(diff));
        scores := scores + [Finite(diff)];
        if best.Inf? || diff < best.n {
          closest, best := Some(j), Finite(diff);
        }
      } else {
        ScoredExtend(item, other, matched, fast, scores, Inf);
        ClosestStep(scores, Inf);
        scores := scores + [Inf];
      }
    }
    if closest.None? {
      RowSpecNoColumn(item, other, matched, fast, scores);
      return Err(NoUnmatchedCandidate);
    }
    RowSpecComplete(item, other, matched, fast, scores, closest.value);
    return Ok(DiffRow(scores, closest.value));
  }

  /**
   * compute_diffs' outer loop from key position `i` on, with the `matched` flags and
   * the rows built so far; after each row its pick is flagged as matched.
   */
  ghost function DiffsFrom(key: seq<string>, other: seq<string>, fast: bool, i: nat, matched: seq<bool>, acc: seq<DiffRow>): Result<seq<DiffRow>>
    requires i <= |key| && |matched| == |other|
    decreases |key| - i
  {
    if i == |key| then Ok(acc)
    else match ScoreRowSpec(key[i], other, matched, fast)
      case Err(e) => Err(e)
      case Ok(row) => DiffsFrom(key, other, fast, i + 1, matched[row.closest := true], acc + [row])
  }

  /** What `compute_diffs(key, other, slice, fast)` returns or raises. */
  ghost function Diffs(key: seq<string>, other: seq<string>, fast: bool): Result<seq<DiffRow>> {
    DiffsFrom(key, other, fast, 0, seq(|other|, _ => false), [])
  }

  /** `compute_diffs(key, other, slice, fast)`, with `matched` a Boolean array as in the source. */
  method ComputeDiffs(key: seq<string>, other: seq<string>, fast: bool) returns (r: Result<seq<DiffRow>>)
    ensures r == Diffs(key, other, fast)
  {
    var matched := new bool[|other|](_ => false);
    assert matched[..] == seq(|other|, _ => false);
    var diffs: seq<DiffRow> := [];
    for i := 0 to |key|
      invariant matched.Length == |other|
      invariant DiffsFrom(key, other, fast, i, matched[..], diffs) == Diffs(key, other, fast)
    {
      var row := ScoreRow(key[i], other, matched[..], fast);
      if row.Err? {
        return Err(row.error);
      }
      matched[row.value.closest] := true;
      diffs := diffs + [row.value];
    }
    return Ok(diffs);
  }

  /** The `matched` flags after the given rows: column `j` is set once some row picked it. */
  function Marks(rows: seq<DiffRow>, n: nat): (m: seq<bool>)
    ensures |m| == n
  {
    if rows == [] then seq(n, _ => false)
    else
      var m := Marks(rows[..|rows| - 1], n);
      var c := rows[|rows| - 1].closest;
      if c < n then m[c := true] else m
  }

  /** A column is flagged exactly when an earlier row picked it. */
  lemma {:induction false} MarksPicked(rows: seq<DiffRow>, n: nat, j: nat)
    requires j < n
    ensures Marks(rows, n)[j] <==> exists t :: 0 <= t < |rows| && rows[t].closest == j
  {
    if rows != [] {
      var init := rows[..|rows| - 1];
      MarksPicked(init, n, j);
      if exists t :: 0 <= t < |init| && init[t].closest == j {
        var t :| 0 <= t < |init| && init[t].closest == j;
        assert rows[t].closest == j;
      }
      if exists t :: 0 <= t < |rows| && rows[t].closest == j {
        var t :| 0 <= t < |rows| && rows[t].closest == j;
        if t < |init| {
          assert init[t].closest == j;
        }
      }
    }
  }

  /** Row `t` is the inner loop's result for key item `t` under the flags of the rows before it. */
  ghost predicate RowComputed(key: seq<string>, other: seq<string>, fast: bool, rows: seq<DiffRow>, t: nat)
    requires t < |key| && t < |rows|
  {
    ScoreRowSpec(key[t], other, Marks(rows[..t], |other|), fast) == Ok(rows[t])
  }

  /** Every row is computed that way. */
  ghost predicate Computed(key: seq<string>, other: seq<string>, fast: bool, rows: seq<DiffRow>) {
    |rows| == |key| && forall t :: 0 <= t < |rows| ==> RowComputed(key, other, fast, rows, t)
  }

  lemma {:induction false} DiffsFromComputed(key: seq<string>, other: seq<string>, fast: bool, i: nat, acc: seq<DiffRow>, rows: seq<DiffRow>)
    requires i <= |key| && |acc| == i
    requires forall t :: 0 <= t < i ==> RowComputed(key, other, fast, acc, t)
    requires DiffsFrom(key, other, fast, i, Marks(acc, |other|), acc) == Ok(rows)
    ensures Computed(key, other, fast, rows)
    decreases |key| - i
  {
    if i < |key| {
      var row := ScoreRowSpec(key[i], other, Marks(acc, |other|), fast).value;
      var next := acc + [row];
      assert next[..i] == acc;
      assert Marks(next, |other|) == Marks(acc, |other|)[row.closest := true];
      assert RowComputed(key, other, fast, next, i);
      forall t | 0 <= t < i
        ensures RowComputed(key, other, fast, next, t)
      {
        assert next[..t] == acc[..t];
        assert RowComputed(key, other, fast, acc, t);
      }
      DiffsFromComputed(key, other, fast, i + 1, next, rows);
    } else {
      assert rows == acc;
    }
  }

  /** The matrix compute_diffs returns is built row by row as the source does. */
  lemma DiffsComputed(key: seq<string>, other: seq<string>, fast: bool, rows: seq<DiffRow>)
    requires Diffs(key, other, fast) == Ok(rows)
    ensures Computed(key, other, fast, rows)
  {
    DiffsFromComputed(key, other, fast, 0, [], rows);
  }

  /**
   * Row `i` of compute_diffs' matrix: one score per candidate; column `j` holds `Inf`
   * exactly when `fast` is set and an earlier row picked `j`, and otherwise the
   * `ClaimScore` of key item `i` against candidate `j`; the pick is the earliest
   * column holding the row's least finite score.
   */
  lemma DiffsRow(key: seq<string>, other: seq<string>, fast: bool, rows: seq<DiffRow>, i: nat)
    requires Diffs(key, other, fast) == Ok(rows)
    requires i < |rows|
    ensures |rows| == |key| && |rows[i].scores| == |other| && rows[i].closest < |other|
    ensures '.' in key[i]
    ensures forall j :: 0 <= j < |other| ==>
      (rows[i].scores[j].Inf? <==> fast && exists t :: 0 <= t < i && rows[t].closest == j)
    ensures forall j :: 0 <= j < |other| && rows[i].scores[j].Finite? ==>
      '.' in other[j] && rows[i].scores[j].n == ClaimScore(key[i], other[j])
    ensures rows[i].scores[rows[i].closest].Finite?
    ensures forall j :: 0 <= j < |other| && rows[i].scores[j].Finite? ==>
      rows[i].scores[rows[i].closest].n <= rows[i].scores[j].n
    ensures forall j :: 0 <= j < rows[i].closest ==>
      rows[i].scores[j].Inf? || rows[i].scores[rows[i].closest].n < rows[i].scores[j].n
  {
    DiffsComputed(key, other, fast, rows);
    var marks := Marks(rows[..i], |other|);
    assert RowComputed(key, other, fast, rows, i);
    RowSpecFacts(key[i], other, marks, fast, rows[i]);
    forall j | 0 <= j < |other|
      ensures marks[j] <==> exists t :: 0 <= t < i && rows[t].closest == j
    {
      MarksPicked(rows[..i], |other|, j);
      if exists t :: 0 <= t < i && rows[t].closest == j {
        var t :| 0 <= t < i && rows[t].closest == j;
        assert rows[..i][t].closest == j;
      }
    }
  }

  /** With `fast` set, no two key rows pick the same candidate. */
  lemma FastPicksDistinct(key: seq<string>, other: seq<string>, rows: seq<DiffRow>)
    requires Diffs(key, other, true) == Ok(rows)
    ensures forall a, b :: 0 <= a < b < |rows| ==> rows[a].closest != rows[b].closest
  {
    forall a, b | 0 <= a < b < |rows|
      ensures rows[a].closest != rows[b].closest
    {
      DiffsRow(key, other, true, rows, b);
    }
  }

  /** `c` is the earliest candidate with the least `ClaimScore` against `item`. */
  ghost predicate EarliestBest(item: string, other: seq<string>, c: nat) {
    c < |other| && '.' in item && AllNumbered(other) &&
    (forall j :: 0 <= j < |other| ==> ClaimScore(item, other[c]) <= ClaimScore(item, other[j])) &&
    (forall j :: 0 <= j < c ==> ClaimScore(item, other[c]) < ClaimScore(item, other[j]))
  }

  /**
   * Without `fast` the `matched` flags never change a score: every row picks the
   * earliest best candidate of the whole list, whatever earlier rows picked.
   */
  lemma RelaxedPicksEarliestBest(key: seq<string>, other: seq<string>, rows: seq<DiffRow>, i: nat)
    requires Diffs(key, other, false) == Ok(rows)
    requires i < |rows|
    ensures i < |key| && EarliestBest(key[i], other, rows[i].closest)
  {
    DiffsRow(key, other, false, rows, i);
    var row := rows[i];
    assert forall j :: 0 <= j < |other| ==> row.scores[j].Finite?;
    assert AllNumbered(other);
    forall j | 0 <= j < |other|
      ensures ClaimScore(key[i], other[row.closest]) <= ClaimScore(key[i], other[j])
    {
      assert row.scores[j].n == ClaimScore(key[i], other[j]);
    }
    forall j | 0 <= j < row.closest
      ensures ClaimScore(key[i], other[row.closest]) < ClaimScore(key[i], other[j])
    {
      assert row.scores[j].n == ClaimScore(key[i], other[j]);
    }
  }

  /** Number of unset flags. */
  function CountFalse(m: seq<bool>): (r: nat)
    ensures r <= |m|
  {
    if m == [] then 0 else (if m[0] then 0 else 1) + CountFalse(m[1..])
  }

  lemma {:induction false} CountFalseSet(m: seq<bool>, c: nat)
    requires c < |m| && !m[c]
    ensures CountFalse(m[c := true]) + 1 == CountFalse(m)
  {
    if c > 0 {
      assert m[c := true][1..] == m[1..][c - 1 := true];
      CountFalseSet(m[1..], c - 1);
    } else {
      assert m[c := true][1..] == m[1..];
    }
  }

  lemma {:induction false} CountFalseSome(m: seq<bool>)
    ensures CountFalse(m) > 0 <==> exists j :: 0 <= j < |m| && !m[j]
    ensures CountFalse(m) == |m| ==> forall j :: 0 <= j < |m| ==> !m[j]
  {
    if m != [] {
      CountFalseSome(m[1..]);
      assert forall j :: 1 <= j < |m| ==> m[j] == m[1..][j - 1];
      if exists j :: 0 <= j < |m| && !m[j] {
        var j :| 0 <= j < |m| && !m[j];
        if j > 0 {
          assert !m[1..][j - 1];
        }
      }
    }
  }

  lemma {:induction false} CountFalseNone(n: nat)
    ensures CountFalse(seq(n, _ => false)) == n
  {
    if n > 0 {
      assert seq(n, _ => false)[1..] == seq(n - 1, _ => false);
      CountFalseNone(n - 1);
    }
  }

  lemma {:induction false} DiffsFromSucceeds(key: seq<string>, other: seq<string>, fast: bool, i: nat, matched: seq<bool>, acc: seq<DiffRow>)
    requires i <= |key| && |matched| == |other|
    requires fast ==> CountFalse(matched) + i == |other|
    requires 0 < i ==> other != [] && AllNumbered(other)
    ensures var r := DiffsFrom(key, other, fast, i, matched, acc);
      && (r.Ok? <==> i == |key| || (other != [] && (fast ==> |key| <= |other|) && AllNumbered(key[i..]) && AllNumbered(other)))
      && (r.Err? && AllNumbered(key[i..]) && AllNumbered(other) ==> r.error == NoUnmatchedCandidate)
      && (r.Err? && other != [] && (fast ==> |key| <= |other|) ==> r.error == SeparatorNotFound)
    decreases |key| - i
  {
    if i < |key| {
      NumberedFrom(key, i);
      RowSpecOutcome(key[i], other, matched, fast);
      var row := ScoreRowSpec(key[i], other, matched, fast);
      if row.Ok? {
        var c := row.value.closest;
        if fast {
          CountFalseSet(matched, c);
        }
        if i == 0 {
          NothingMatched(other, matched, fast);
        }
        DiffsFromSucceeds(key, other, fast, i + 1, matched[c := true], acc + [row.value]);
      } else if other != [] && (fast ==> |key| <= |other|) {
        ColumnLeft(matched, fast);
      }
    }
  }

  /**
   * How many key rows get a column to score: all of them, except under `fast`
   * with more key claims than candidates, where only the first `|other|` do.
   */
  function ScoredRows(key: seq<string>, other: seq<string>, fast: bool): (r: nat)
    ensures r <= |key| && (fast ==> r <= |other|)
    ensures r < |key| ==> fast && r == |other|
  {
    if fast && |key| > |other| then |other| else |key|
  }

  /**
   * Which exception the rows from `i` on raise when `other` is non-empty: IndexError
   * from `slice` exactly when a candidate, or a key claim of a row that still gets a
   * column, has no "."; `matched[None]` otherwise.
   */
  lemma {:induction false} DiffsFromErrorKind(key: seq<string>, other: seq<string>, fast: bool, i: nat, matched: seq<bool>, acc: seq<DiffRow>)
    requires i <= |key| && |matched| == |other| && other != []
    requires fast ==> CountFalse(matched) + i == |other|
    requires 0 < i ==> AllNumbered(other)
    ensures i <= ScoredRows(key, other, fast)
    ensures var r := DiffsFrom(key, other, fast, i, matched, acc);
      && (r.Err? ==> r.error == SeparatorNotFound || r.error == NoUnmatchedCandidate)
      && (r.Err? ==>
            (r.error == SeparatorNotFound <==> !AllNumbered(other) || !AllNumbered(key[i..ScoredRows(key, other, fast)])))
    decreases |key| - i
  {
    if i < |key| {
      var row := ScoreRowSpec(key[i], other, matched, fast);
      if row.Ok? {
        var c := row.value.closest;
        RowOkStep(key, other, fast, i, matched);
        DiffsFromErrorKind(key, other, fast, i + 1, matched[c := true], acc + [row.value]);
      } else {
        RowErrorKind(key, other, fast, i, matched);
      }
    }
  }

  /** After a row that returns, the rows from `i + 1` on meet `DiffsFromErrorKind`'s requirements and face the same question. */
  lemma RowOkStep(key: seq<string>, other: seq<string>, fast: bool, i: nat, matched: seq<bool>)
    requires i < |key| && |matched| == |other| && other != []
    requires fast ==> CountFalse(matched) + i == |other|
    requires 0 < i ==> AllNumbered(other)
    requires ScoreRowSpec(key[i], other, matched, fast).Ok?
    ensures var c := ScoreRowSpec(key[i], other, matched, fast).value.closest;
      && c < |matched|
      && (fast ==> CountFalse(matched[c := true]) + i + 1 == |other|)
      && AllNumbered(other)
      && i < ScoredRows(key, other, fast)
      && (AllNumbered(key[i..ScoredRows(key, other, fast)]) <==> AllNumbered(key[i + 1..ScoredRows(key, other, fast)]))
  {
    var m := ScoredRows(key, other, fast);
    RowSpecOutcome(key[i], other, matched, fast);
    var c := ScoreRowSpec(key[i], other, matched, fast).value.closest;
    if fast {
      CountFalseSome(matched);
      CountFalseSet(matched, c);
    }
    if i == 0 {
      NothingMatched(other, matched, fast);
    }
    NumberedFrom(key[..m], i);
    assert key[..m][i..] == key[i..m] && key[..m][i + 1..] == key[i + 1..m];
  }

  /** The exception of a row that raises, as `DiffsFromErrorKind` states it. */
  lemma RowErrorKind(key: seq<string>, other: seq<string>, fast: bool, i: nat, matched: seq<bool>)
    requires i < |key| && |matched| == |other| && other != []
    requires fast ==> CountFalse(matched) + i == |other|
    requires 0 < i ==> AllNumbered(other)
    requires ScoreRowSpec(key[i], other, matched, fast).Err?
    ensures var e := ScoreRowSpec(key[i], other, matched, fast).error;
      && (e == SeparatorNotFound || e == NoUnmatchedCandidate)
      && (e == SeparatorNotFound <==> !AllNumbered(other) || !AllNumbered(key[i..ScoredRows(key, other, fast)]))
  {
    var m := ScoredRows(key, other, fast);
    RowSpecOutcome(key[i], other, matched, fast);
    if HasEligible(matched, fast) {
      if fast {
        CountFalseSome(matched);
      }
      if '.' !in key[i] {
        assert key[i..m][0] == key[i];
      } else {
        var j :| 0 <= j < |other| && Eligible(matched, j, fast) && '.' !in other[j];
        assert !AllNumbered(other);
      }
    } else if fast {
      forall j | 0 <= j < |matched|
        ensures matched[j]
      {
        assert !Eligible(matched, j, fast);
      }
      CountFalseSome(matched);
    } else {
      ColumnLeft(matched, fast);
      assert false;
    }
  }

  /**
   * Which exception compute_diffs raises when `other` is non-empty: IndexError from
   * `slice` exactly when a candidate, or one of the first `ScoredRows` key claims,
   * has no "."; otherwise TypeError at `matched[None]`, because a `fast` row ran out
   * of columns.
   */
  lemma DiffsErrorKind(key: seq<string>, other: seq<string>, fast: bool)
    requires other != []
    ensures var r := Diffs(key, other, fast);
      && (r.Err? ==> r.error == SeparatorNotFound || r.error == NoUnmatchedCandidate)
      && (r.Err? ==>
            (r.error == SeparatorNotFound <==> !AllNumbered(other) || !AllNumbered(key[..ScoredRows(key, other, fast)])))
  {
    CountFalseNone(|other|);
    assert key[0..ScoredRows(key, other, fast)] == key[..ScoredRows(key, other, fast)];
    DiffsFromErrorKind(key, other, fast, 0, seq(|other|, _ => false), []);
  }

  /** Before the first row no flag is set, so a row that returns has sliced every candidate. */
  lemma NothingMatched(other: seq<string>, matched: seq<bool>, fast: bool)
    requires |matched| == |other| && (fast ==> CountFalse(matched) == |other|)
    requires EligibleNumbered(other, matched, fast)
    ensures AllNumbered(other)
  {
    CountFalseSome(matched);
  }

  /** A non-empty row with an unset flag (or without `fast`) still has a column to score. */
  lemma ColumnLeft(matched: seq<bool>, fast: bool)
    requires matched != [] && (fast ==> CountFalse(matched) > 0)
    ensures HasEligible(matched, fast)
  {
    CountFalseSome(matched);
    if !fast {
      assert Eligible(matched, 0, fast);
    } else {
      var j :| 0 <= j < |matched| && !matched[j];
      assert Eligible(matched, j, fast);
    }
  }

  /** When the inner loop returns and which exception it raises otherwise. */
  lemma RowSpecOutcome(item: string, other: seq<string>, matched: seq<bool>, fast: bool)
    requires |matched| == |other|
    ensures var r := ScoreRowSpec(item, other, matched, fast);
      && (r.Ok? <==> HasEligible(matched, fast) && '.' in item && EligibleNumbered(other, matched, fast))
      && (r.Err? ==> r.error == if HasEligible(matched, fast) then SeparatorNotFound else NoUnmatchedCandidate)
  {
  }

  /** A suffix of claims is numbered exactly when its first claim and the rest are. */
  lemma NumberedFrom(claims: seq<string>, i: nat)
    requires i < |claims|
    ensures AllNumbered(claims[i..]) <==> '.' in claims[i] && AllNumbered(claims[i + 1..])
  {
    assert claims[i..] == [claims[i]] + claims[i + 1..];
  }

  /**
   * compute_diffs returns exactly when `key` is empty, or `other` is non-empty, in
   * `fast` mode has at least as many items as `key`, and every claim of both lists
   * has a "."; otherwise it raises: `matched[None]` when it runs out of columns,
   * IndexError from `slice` when a claim has no ".".
   */
  lemma DiffsSucceeds(key: seq<string>, other: seq<string>, fast: bool)
    ensures var r := Diffs(key, other, fast);
      && (r.Ok? <==> key == [] || (other != [] && (fast ==> |key| <= |other|) && AllNumbered(key) && AllNumbered(other)))
      && (r.Err? && AllNumbered(key) && AllNumbered(other) ==> r.error == NoUnmatchedCandidate)
      && (r.Err? && other != [] && (fast ==> |key| <= |other|) ==> r.error == SeparatorNotFound)
      && (key != [] && other == [] ==> r == Err(NoUnmatchedCandidate))
  {
    CountFalseNone(|other|);
    if key != [] && other == [] {
      RowSpecOutcome(key[0], other, seq(|other|, _ => false), fast);
    }
    assert key[0..] == key;
    DiffsFromSucceeds(key, other, false, 0, seq(|other|, _ => false), []);
    DiffsFromSucceeds(key, other, true, 0, seq(|other|, _ => false), []);
  }

  /**
   * Without `fast`, two key rows may pick the same candidate (and leave another
   * unpicked); with `fast`, the same lists make compute_diffs raise.
   */
  lemma RelaxedMayRepeat()
    ensures var r := Diffs(["1. a", "2. a"], ["1. a"], false);
      r.Ok? && |r.value| == 2 && r.value[0].closest == 0 && r.value[1].closest == 0
    ensures Diffs(["1. a", "2. a"], ["1. a"], true) == Err(NoUnmatchedCandidate)
  {
    var key, other := ["1. a", "2. a"], ["1. a"];
    assert "1. a"[1] == '.' && "2. a"[1] == '.';
    assert AllNumbered(key) && AllNumbered(other);
    DiffsSucceeds(key, other, false);
    DiffsSucceeds(key, other, true);
    var rows := Diffs(key, other, false).value;
    DiffsRow(key, other, false, rows, 0);
    DiffsRow(key, other, false, rows, 1);
  }

  /** Both example lists are numbered claims. */
  lemma ExampleNumbered(key: seq<string>, other: seq<string>)
    requires key == ["1. A widget.", "2. A gadget."] && other == ["2. A gadget device.", "1. A small widget."]
    ensures |key| == 2 && |other| == 2 && AllNumbered(key) && AllNumbered(other)
  {
    forall k | 0 <= k < 2
      ensures '.' in key[k] && '.' in other[k]
    {
      assert key[k][1] == '.' && other[k][1] == '.';
    }
  }

  /** The first example key claim matches the second candidate better than the first. */
  lemma ExampleScores(key: seq<string>, other: seq<string>)
    requires key == ["1. A widget.", "2. A gadget."] && other == ["2. A gadget device.", "1. A small widget."]
    ensures '.' in key[0] && '.' in other[0] && '.' in other[1]
    ensures ClaimScore(key[0], other[1]) < ClaimScore(key[0], other[0])
  {
    ExampleNumbered(key, other);
    var a, b, c := key[0][2..], other[1][2..], other[0][2..];
    SliceAfterNumber(key[0], a);
    SliceAfterNumber(other[1], b);
    SliceAfterNumber(other[0], c);
    WidgetInSmallWidget(a, b);
    WidgetNotInGadgetDevice(a, c);
  }

  /**
   * With `fast` and two claims on each side, when the first key claim scores
   * strictly better against the second candidate, the rows pick the second
   * candidate and then, that one being taken, the first.
   */
  lemma FastTwoByTwo(key: seq<string>, other: seq<string>)
    requires |key| == 2 && |other| == 2 && AllNumbered(key) && AllNumbered(other)
    requires ClaimScore(key[0], other[1]) < ClaimScore(key[0], other[0])
    ensures var r := Diffs(key, other, true);
      r.Ok? && |r.value| == 2 && r.value[0].closest == 1 && r.value[1].closest == 0
  {
    DiffsSucceeds(key, other, true);
    var rows := Diffs(key, other, true).value;
    DiffsComputed(key, other, true, rows);
    DiffsRow(key, other, true, rows, 0);
    var first := rows[0];
    assert first.scores[0].Finite? && first.scores[1].Finite?;
    assert first.closest == 1;
    DiffsRow(key, other, true, rows, 1);
    assert rows[1].scores[1].Inf?;
  }

  /**
   * With `fast`, the key "1. A widget.", "2. A gadget." against the candidates
   * "2. A gadget device.", "1. A small widget." picks the second candidate for the
   * first key claim and then the first for the second, so that reordering yields
   * "1. A small widget.", "2. A gadget device.".
   */
  lemma ExclusiveExample(key: seq<string>, other: seq<string>)
    requires key == ["1. A widget.", "2. A gadget."] && other == ["2. A gadget device.", "1. A small widget."]
    ensures var r := Diffs(key, other, true);
      r.Ok? && |r.value| == 2 && r.value[0].closest == 1 && r.value[1].closest == 0
  {
    ExampleNumbered(key, other);
    ExampleScores(key, other);
    FastTwoByTwo(key, other);
  }

  /**
   * `reorder_lists(key, other, diffs)`: a list as long as `other`, initially all "",
   * whose position `i` receives `other[diffs[i][-1]]` for every key position `i`;
   * `key` is handed back unchanged. It raises IndexError when `key` is longer than
   * `diffs` or `other`, or a pick is past the end of `other`.
   */
  method ReorderLists(key: seq<string>, other: seq<string>, diffs: seq<DiffRow>) returns (r: Result<(seq<string>, seq<string>)>)
    ensures r.Ok? <==> |key| <= |diffs| && |key| <= |other| && forall i :: 0 <= i < |key| ==> diffs[i].closest < |other|
    ensures r.Err? ==> r.error == IndexOutOfRange
    ensures r.Ok? ==> r.value.0 == key && |r.value.1| == |other|
    ensures r.Ok? ==> forall i :: 0 <= i < |key| ==> r.value.1[i] == other[diffs[i].closest]
    ensures r.Ok? ==> forall i :: |key| <= i < |other| ==> r.value.1[i] == ""
  {
    var reordered := new string[|other|](_ => "");
    for i := 0 to |key|
      invariant i <= |diffs| && i <= |other|
      invariant forall t :: 0 <= t < i ==> diffs[t].closest < |other| && reordered[t] == other[diffs[t].closest]
      invariant forall t :: i <= t < |other| ==> reordered[t] == ""
    {
      if i >= |diffs| {
        return Err(IndexOutOfRange);
      }
      var c := diffs[i].closest;
      if c >= |other| {
        return Err(IndexOutOfRange);
      }
      if i >= reordered.Length {
        return Err(IndexOutOfRange);
      }
      reordered[i] := other[c];
    }
    return Ok((key, reordered[..]));
  }
}
