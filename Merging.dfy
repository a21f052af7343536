/** `get_merged_df`: the tables of an inclusive range of years, each with a
    leading `Year` column, concatenated in ascending year order. */
module Merging {
  import opened Frames

  const YearColumn := "Year"

  /** The cell `df.insert(0, "Year", year)` broadcasts down a table. */
  function YearCell(year: int): Cell
  {
    Num(year as real)
  }

  /** The rows of one year's table, each led by that year. */
  function YearRows(f: Frame, year: int): (rows: seq<seq<Cell>>)
    ensures |rows| == |f.rows|
    ensures forall r :: 0 <= r < |f.rows| ==> rows[r] == [YearCell(year)] + f.rows[r]
  {
    seq(|f.rows|, r requires 0 <= r < |f.rows| => [YearCell(year)] + f.rows[r])
  }

  /** The rows of the merged table: the years `first..last` in ascending
      order, each year's rows in their own order. */
  function MergedRows(tables: int -> Frame, first: int, last: int): seq<seq<Cell>>
    decreases last - first
  {
    if last < first then [] else MergedRows(tables, first, last - 1) + YearRows(tables(last), last)
  }

  /** The number of rows of the years `first..last` together. */
  function TotalRows(tables: int -> Frame, first: int, last: int): nat
    decreases last - first
  {
    if last < first then 0 else TotalRows(tables, first, last - 1) + |tables(last).rows|
  }

  /** The rows of a list of tables, one after the other. */
  function ConcatRows(frames: seq<Frame>): seq<seq<Cell>>
  {
    if |frames| == 0 then [] else ConcatRows(frames[..|frames| - 1]) + frames[|frames| - 1].rows
  }

  /** `pd.concat(frames, ignore_index=True)` on tables with the same labels. */
  function Concat(frames: seq<Frame>): (g: Frame)
    requires |frames| > 0
    requires forall i :: 0 <= i < |frames| ==> frames[i].columns == frames[0].columns
    ensures g.columns == frames[0].columns
  {
    Frame(frames[0].columns, ConcatRows(frames))
  }

  /** The merged table has as many rows as the years' tables together. */
  lemma {:induction false} MergedLength(tables: int -> Frame, first: int, last: int)
    ensures |MergedRows(tables, first, last)| == TotalRows(tables, first, last)
    decreases last - first
  {
    if first <= last {
      MergedLength(tables, first, last - 1);
    }
  }

  /** Row `r` of year `y`'s table sits in the merged table after all rows of
      the earlier years, led by `y`. */
  lemma {:induction false} MergedSegment(tables: int -> Frame, first: int, last: int, y: int, r: nat)
    requires first <= y <= last && r < |tables(y).rows|
    ensures TotalRows(tables, first, y - 1) + r < |MergedRows(tables, first, last)|
    ensures MergedRows(tables, first, last)[TotalRows(tables, first, y - 1) + r] ==
      [YearCell(y)] + tables(y).rows[r]
    decreases last - first
  {
    MergedLength(tables, first, y - 1);
    MergedLength(tables, first, last);
    if y < last {
      MergedSegment(tables, first, last - 1, y, r);
    }
    assert MergedRows(tables, first, last) ==
      MergedRows(tables, first, last - 1) + YearRows(tables(last), last);
  }

  /** The year a merged row is led by. */
  function RowYear(row: seq<Cell>): int
  {
    if |row| > 0 && row[0].Num? then row[0].n.Floor else 0
  }

  /** Every row is led by a year of `first..last`. */
  predicate LedByYearIn(m: seq<seq<Cell>>, first: int, last: int)
  {
    forall i :: 0 <= i < |m| ==>
      |m[i]| > 0 && m[i][0] == YearCell(RowYear(m[i])) && first <= RowYear(m[i]) <= last
  }

  /** The leading years never decrease down the rows. */
  predicate YearsAscending(m: seq<seq<Cell>>)
  {
    forall i, j :: 0 <= i <= j < |m| ==> RowYear(m[i]) <= RowYear(m[j])
  }

  /** Of the rows of the years `first..last`, every row is led by a year of
      the range. */
  lemma {:induction false} MergedLedByYear(tables: int -> Frame, first: int, last: int)
    ensures LedByYearIn(MergedRows(tables, first, last), first, last)
    decreases last - first
  {
    if first <= last {
      MergedLedByYear(tables, first, last - 1);
      var prev, here := MergedRows(tables, first, last - 1), YearRows(tables(last), last);
      var m: seq<seq<Cell>> := prev + here;
      assert MergedRows(tables, first, last) == m;
      forall i | 0 <= i < |m|
        ensures |m[i]| > 0 && m[i][0] == YearCell(RowYear(m[i])) && first <= RowYear(m[i]) <= last
      {
        if i >= |prev| {
          assert m[i] == [YearCell(last)] + tables(last).rows[i - |prev|];
        } else {
          assert m[i] == prev[i];
        }
      }
    }
  }

  /** In the merged table the years never decrease down the rows: the years
      come in ascending order. */
  lemma {:induction false} MergedYearsAscending(tables: int -> Frame, first: int, last: int)
    ensures YearsAscending(MergedRows(tables, first, last))
    decreases last - first
  {
    if first <= last {
      MergedYearsAscending(tables, first, last - 1);
      MergedLedByYear(tables, first, last - 1);
      var prev, here := MergedRows(tables, first, last - 1), YearRows(tables(last), last);
      var m: seq<seq<Cell>> := prev + here;
      assert MergedRows(tables, first, last) == m;
      forall i, j | 0 <= i <= j < |m|
        ensures RowYear(m[i]) <= RowYear(m[j])
      {
        if j < |prev| {
          assert m[i] == prev[i] && m[j] == prev[j];
        } else {
          assert m[j] == [YearCell(last)] + tables(last).rows[j - |prev|];
          if i < |prev| {
            assert m[i] == prev[i];
          } else {
            assert m[i] == [YearCell(last)] + tables(last).rows[i - |prev|];
          }
        }
      }
    }
  }

  /** `get_merged_df(first, last)` over the tables `load_data` gives for each
      year. */
  method GetMergedFrame(first: int, last: int, tables: int -> Frame) returns (merged: Frame)
    requires first <= last
    requires forall y :: first <= y <= last ==>
      Rectangular(tables(y)) && tables(y).columns == tables(first).columns
    requires YearColumn !in tables(first).columns
    ensures merged.columns == [YearColumn] + tables(first).columns
    ensures merged.rows == MergedRows(tables, first, last)
    ensures |merged.rows| == TotalRows(tables, first, last)
  {
    var allData: seq<Frame> := [];
    for year := first to last + 1
      invariant |allData| == year - first
      invariant forall i :: 0 <= i < |allData| ==> allData[i].columns == [YearColumn] + tables(first).columns
      invariant ConcatRows(allData) == MergedRows(tables, first, year - 1)
    {
      var df := tables(year);
      df := InsertColumn(df, 0, YearColumn, seq(|df.rows|, _ => YearCell(year)));
      forall r | 0 <= r < |df.rows|
        ensures df.rows[r] == [YearCell(year)] + tables(year).rows[r]
      {
        assert tables(year).rows[r][..0] == [] && tables(year).rows[r][0..] == tables(year).rows[r];
      }
      assert df.rows == YearRows(tables(year), year);
      assert (allData + [df])[..|allData|] == allData;
      allData := allData + [df];
    }
    merged := Concat(allData);
    MergedLength(tables, first, last);
  }
}
