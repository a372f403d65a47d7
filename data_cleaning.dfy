/**
 * Data cleaning: `duplicate_rows` counts the rows of a table that repeat an
 * earlier row, drops them keeping each first occurrence, and counts again.
 * A table is a sequence of rows compared by equality of all their columns.
 */
module DataCleaning {
  import opened SeqDedup

  /** pandas `duplicated()` (keep='first'): row `i` equals some earlier row. */
  predicate IsDuplicated<Row(==)>(df: seq<Row>, i: nat)
    requires i < |df|
  {
    df[i] in df[..i]
  }

  /** `df.duplicated().sum()`: how many rows repeat an earlier row. */
  function DuplicateCount<Row(==)>(df: seq<Row>): (count: nat)
  {
    if df == [] then 0
    else DuplicateCount(df[..|df| - 1]) + (if IsDuplicated(df, |df| - 1) then 1 else 0)
  }

  /** `df.drop_duplicates()`: the rows that are not duplicated, in their order. */
  function DropDuplicates<Row(==)>(df: seq<Row>): (kept: seq<Row>)
  {
    if df == [] then []
    else DropDuplicates(df[..|df| - 1]) + (if IsDuplicated(df, |df| - 1) then [] else [df[|df| - 1]])
  }

  /** What `duplicate_rows` returns: the count before, the count after, the cleaned table. */
  datatype Report<Row> = Report(before: nat, after: nat, cleaned: seq<Row>)

  /**
   * `duplicate_rows`: the cleaned table has no repeated row and keeps the
   * first occurrence of each distinct row in its original order, so the
   * second count is zero and the first count is the number of rows removed.
   */
  function DuplicateRows<Row(==)>(df: seq<Row>): (r: Report<Row>)
    ensures r.after == 0
    ensures r.before == |df| - |r.cleaned|
    ensures r.cleaned == Dedup(df)
    ensures Distinct(r.cleaned)
    ensures forall i :: 0 <= i < |df| ==> df[i] in r.cleaned
    ensures forall i :: 0 <= i < |r.cleaned| ==> r.cleaned[i] in df
  {
    var before := DuplicateCount(df);
    var cleaned := DropDuplicates(df);
    var after := DuplicateCount(cleaned);
    DropDuplicatesIsDedup(df);
    DedupItems(df);
    CountPlusKept(df);
    DistinctHasNoDuplicates(cleaned);
    Report(before, after, cleaned)
  }

  /**
   * pandas' "keep the rows not equal to an earlier row" is the same as the
   * loop "append a row unless it is already in the output".
   */
  lemma {:induction false} DropDuplicatesIsDedup<Row>(df: seq<Row>)
    ensures DropDuplicates(df) == Dedup(df)
  {
    if df != [] {
      DropDuplicatesIsDedup(df[..|df| - 1]);
      DedupItems(df[..|df| - 1]);
    }
  }

  /** Every row is either counted as a duplicate or kept, never both. */
  lemma {:induction false} CountPlusKept<Row>(df: seq<Row>)
    ensures DuplicateCount(df) + |DropDuplicates(df)| == |df|
  {
    if df != [] {
      CountPlusKept(df[..|df| - 1]);
    }
  }

  /** The count is zero exactly when no row repeats another. */
  lemma {:induction false} DistinctHasNoDuplicates<Row>(df: seq<Row>)
    ensures DuplicateCount(df) == 0 <==> Distinct(df)
  {
    if df != [] {
      var f := df[..|df| - 1];
      var last := df[|df| - 1];
      DistinctHasNoDuplicates(f);
      assert df == f + [last];
      assert forall k :: 0 <= k < |f| ==> f[k] == df[k];
      if Distinct(df) {
        assert Distinct(f);
        assert forall k :: 0 <= k < |f| ==> f[k] != last;
      } else {
        assert !Distinct(f) || last in f;
      }
    }
  }

  /** Cleaning a cleaned table finds nothing to remove and returns it unchanged. */
  lemma DuplicateRowsIdempotent<Row>(df: seq<Row>)
    ensures DuplicateRows(DuplicateRows(df).cleaned) == Report(0, 0, DuplicateRows(df).cleaned)
  {
    var c := DuplicateRows(df).cleaned;
    DedupOfDistinct(c);
  }

  /** Rows [A, A, B]: one duplicate before, none after, [A, B] kept. */
  lemma ThreeRowScenario()
    ensures DuplicateRows(["A", "A", "B"]) == Report(1, 0, ["A", "B"])
  {
    var df := ["A", "A", "B"];
    assert df[..2] == ["A", "A"] && df[..2][..1] == ["A"] && df[..1][..0] == [];
    assert DuplicateCount(["A"]) == 0 && DropDuplicates(["A"]) == ["A"];
    assert IsDuplicated(df[..2], 1) && !IsDuplicated(df, 2);
    assert DuplicateCount(df) == 1 && DropDuplicates(df) == ["A", "B"];
  }
}
