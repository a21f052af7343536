/** The body of `load_data` after the CSV file has been read: the columns are
    renamed to the canonical schema through a fixed alias map, the frame is
    cut down to them, a positional rank is added when no rank column survives,
    and the validator's verdict only raises a warning. */
module Loading {
  import opened Wrappers
  import opened Frames
  import opened Validation

  const CountryColumn := "Country"

  /** The alias map, in its key order: source label to canonical label. */
  const ColumnAliases: seq<(string, string)> := [
    ("Country", "Country"),
    ("Happiness Rank", "Happiness Rank"),
    ("Happiness Score", "Happiness Score"),
    ("Happiness.Rank", "Happiness Rank"),
    ("Happiness.Score", "Happiness Score"),
    ("Country or region", "Country"),
    ("Score", "Happiness Score")
  ]

  /** What the rename loop relies on in an alias map: its keys are distinct (it
      is a dictionary), and no key is the canonical name that an earlier entry
      renames to, so a rename never creates a label a later entry matches. */
  predicate AliasMap(a: seq<(string, string)>)
  {
    (forall j, k :: 0 <= j < k < |a| ==> a[j].0 != a[k].0) &&
    (forall j, k :: 0 <= j < k < |a| ==> a[k].0 != a[j].1)
  }

  lemma ColumnAliasesIsAliasMap()
    ensures AliasMap(ColumnAliases)
  {
    assert "Happiness.Rank"[9] != "Happiness Rank"[9];
    assert "Happiness.Score"[9] != "Happiness Score"[9];
  }

  /** The canonical label of `name`: its value in the map when it is a key,
      itself otherwise. */
  function CanonicalName(a: seq<(string, string)>, name: string): string
  {
    if |a| == 0 then name
    else if a[|a| - 1].0 == name then a[|a| - 1].1
    else CanonicalName(a[..|a| - 1], name)
  }

  /** Looking `name` up in the first `k` entries finds the entry with that key,
      or leaves the name alone when there is none. */
  lemma {:induction false} CanonicalNameInPrefix(a: seq<(string, string)>, k: nat, name: string)
    requires AliasMap(a) && k <= |a|
    ensures (forall j :: 0 <= j < k ==> a[j].0 != name) ==> CanonicalName(a[..k], name) == name
    ensures forall j :: 0 <= j < k && a[j].0 == name ==> CanonicalName(a[..k], name) == a[j].1
  {
    if k > 0 {
      assert a[..k][..k - 1] == a[..k - 1];
      CanonicalNameInPrefix(a, k - 1, name);
    }
  }

  /** The renames done before entry `k` neither remove nor create its key. */
  lemma KeyUntouchedBefore(a: seq<(string, string)>, k: nat, name: string)
    requires AliasMap(a) && k < |a|
    ensures (CanonicalName(a[..k], name) == a[k].0) == (name == a[k].0)
  {
    CanonicalNameInPrefix(a, k, name);
  }

  /** Every label looked up in the map. */
  function Labels(a: seq<(string, string)>, input: seq<string>): (labels: seq<string>)
    ensures |labels| == |input|
    ensures forall i :: 0 <= i < |input| ==> labels[i] == CanonicalName(a, input[i])
  {
    seq(|input|, i requires 0 <= i < |input| => CanonicalName(a, input[i]))
  }

  /** One turn of the rename loop: entry `k`'s key is a current label exactly
      when it is an input label, and renaming it turns the labels after the
      first `k` entries into the labels after the first `k + 1`. */
  lemma RenameStep(a: seq<(string, string)>, input: seq<string>, rows: seq<seq<Cell>>, k: nat)
    requires AliasMap(a) && k < |a|
    ensures (a[k].0 in Labels(a[..k], input)) == (a[k].0 in input)
    ensures RenameColumn(Frame(Labels(a[..k], input), rows), a[k].0, a[k].1) ==
      Frame(Labels(a[..k + 1], input), rows)
    ensures a[k].0 !in input || a[k].0 == a[k].1 ==>
      Labels(a[..k], input) == Labels(a[..k + 1], input)
  {
    var current := Labels(a[..k], input);
    forall i | 0 <= i < |input|
      ensures (current[i] == a[k].0) == (input[i] == a[k].0)
    {
      KeyUntouchedBefore(a, k, input[i]);
    }
    assert a[..k + 1][..k] == a[..k];
  }

  /** The renames of the whole map send each key to its value. */
  lemma CanonicalNameOfKey(a: seq<(string, string)>, j: nat)
    requires AliasMap(a) && j < |a|
    ensures CanonicalName(a, a[j].0) == a[j].1
  {
    CanonicalNameInPrefix(a, |a|, a[j].0);
    assert a[..|a|] == a;
  }

  /** The positions, in map order, of the first `k` entries whose key is a
      label of the input. */
  function Present(a: seq<(string, string)>, columns: seq<string>, k: nat): (p: seq<nat>)
    requires k <= |a|
    ensures forall c :: 0 <= c < |p| ==> p[c] < k && a[p[c]].0 in columns
    ensures forall c, d :: 0 <= c < d < |p| ==> p[c] < p[d]
    ensures forall j :: 0 <= j < k && a[j].0 in columns ==> j in p
  {
    if k == 0 then []
    else Present(a, columns, k - 1) + (if a[k - 1].0 in columns then [k - 1] else [])
  }

  /** `needed_columns` once the first `k` entries have been looked at: the
      canonical name of each present key, in map order. */
  function Needed(a: seq<(string, string)>, columns: seq<string>, k: nat): (names: seq<string>)
    requires k <= |a|
    ensures |names| == |Present(a, columns, k)|
    ensures forall c :: 0 <= c < |names| ==> names[c] == a[Present(a, columns, k)[c]].1
  {
    if k == 0 then []
    else Needed(a, columns, k - 1) + (if a[k - 1].0 in columns then [a[k - 1].1] else [])
  }

  function NeededColumns(columns: seq<string>): seq<string>
  {
    Needed(ColumnAliases, columns, |ColumnAliases|)
  }

  /** The frame once every present alias has been renamed. */
  function RenamedFrame(raw: Frame): (g: Frame)
    ensures g.rows == raw.rows && |g.columns| == |raw.columns|
    ensures forall i :: 0 <= i < |raw.columns| ==>
      g.columns[i] == CanonicalName(ColumnAliases, raw.columns[i])
  {
    Frame(Labels(ColumnAliases, raw.columns), raw.rows)
  }

  /** The label of needed column `c` in the renamed frame sits where the alias
      key it comes from sits in the input. */
  lemma NeededAt(raw: Frame, c: nat)
    requires c < |NeededColumns(raw.columns)|
    ensures var key := ColumnAliases[Present(ColumnAliases, raw.columns, |ColumnAliases|)[c]].0;
      key in raw.columns &&
      RenamedFrame(raw).columns[IndexOf(raw.columns, key)] == NeededColumns(raw.columns)[c]
  {
    ColumnAliasesIsAliasMap();
    var j := Present(ColumnAliases, raw.columns, |ColumnAliases|)[c];
    CanonicalNameOfKey(ColumnAliases, j);
  }

  lemma NeededInRenamed(raw: Frame)
    ensures forall c :: 0 <= c < |NeededColumns(raw.columns)| ==>
      NeededColumns(raw.columns)[c] in RenamedFrame(raw).columns
  {
    forall c | 0 <= c < |NeededColumns(raw.columns)| {
      NeededAt(raw, c);
    }
  }

  /** Without two aliases of one canonical name, the needed labels are
      distinct. */
  lemma NeededDistinct(raw: Frame)
    requires Distinct(raw.columns) && Distinct(RenamedFrame(raw).columns)
    ensures Distinct(NeededColumns(raw.columns))
  {
    ColumnAliasesIsAliasMap();
    var needed, p := NeededColumns(raw.columns), Present(ColumnAliases, raw.columns, |ColumnAliases|);
    forall c, d | 0 <= c < d < |needed|
      ensures needed[c] != needed[d]
    {
      NeededAt(raw, c);
      NeededAt(raw, d);
      var qc, qd := IndexOf(raw.columns, ColumnAliases[p[c]].0), IndexOf(raw.columns, ColumnAliases[p[d]].0);
      assert qc != qd;
    }
  }

  /** The input label that needed column `c` comes from. */
  function SourceKey(columns: seq<string>, c: nat): string
    requires c < |NeededColumns(columns)|
  {
    ColumnAliases[Present(ColumnAliases, columns, |ColumnAliases|)[c]].0
  }

  /** `df[needed_columns]` on the renamed frame: column `c` holds the cells of
      the input column labelled `SourceKey(raw.columns, c)`. */
  function Projected(raw: Frame): (g: Frame)
    requires WellFormed(raw) && Distinct(RenamedFrame(raw).columns)
    ensures WellFormed(g) && g.columns == NeededColumns(raw.columns) && |g.rows| == |raw.rows|
    ensures forall c :: 0 <= c < |g.columns| ==> SourceKey(raw.columns, c) in raw.columns
    ensures forall r, c :: 0 <= r < |raw.rows| && 0 <= c < |g.columns| ==>
      g.rows[r][c] == raw.rows[r][IndexOf(raw.columns, SourceKey(raw.columns, c))]
  {
    NeededInRenamed(raw);
    NeededDistinct(raw);
    NeededSources(raw);
    Select(RenamedFrame(raw), NeededColumns(raw.columns))
  }

  /** Needed label `c` is found in the renamed frame exactly where its source
      key is found in the input. */
  lemma NeededSources(raw: Frame)
    requires Distinct(RenamedFrame(raw).columns)
    ensures var renamed, needed := RenamedFrame(raw), NeededColumns(raw.columns);
      forall c :: 0 <= c < |needed| ==>
        SourceKey(raw.columns, c) in raw.columns && needed[c] in renamed.columns &&
        IndexOf(renamed.columns, needed[c]) == IndexOf(raw.columns, SourceKey(raw.columns, c))
  {
    var renamed, needed := RenamedFrame(raw), NeededColumns(raw.columns);
    forall c | 0 <= c < |needed|
      ensures SourceKey(raw.columns, c) in raw.columns && needed[c] in renamed.columns
      ensures IndexOf(renamed.columns, needed[c]) == IndexOf(raw.columns, SourceKey(raw.columns, c))
    {
      NeededAt(raw, c);
      IndexOfDistinct(renamed.columns, IndexOf(raw.columns, SourceKey(raw.columns, c)));
    }
  }

  /** `df.insert(1, "Happiness Rank", range(1, len(df) + 1))`: the ranks
      1, 2, ..., n at index 1, every other column kept in order. */
  function WithPositionalRank(f: Frame): (g: Frame)
    requires WellFormed(f) && RankColumn !in f.columns && 1 <= |f.columns|
    ensures WellFormed(g) && |g.rows| == |f.rows|
    ensures g.columns == f.columns[..1] + [RankColumn] + f.columns[1..]
    ensures forall r :: 0 <= r < |f.rows| ==> g.rows[r][1] == Num((r + 1) as real)
    ensures forall r, c :: 0 <= r < |f.rows| && 0 <= c < |f.columns| ==>
      g.rows[r][if c == 0 then 0 else c + 1] == f.rows[r][c]
  {
    var g := InsertColumn(f, 1, RankColumn, RankCells(|f.rows|));
    assert Distinct(g.columns) by {
      forall c, d | 0 <= c < d < |g.columns|
        ensures g.columns[c] != g.columns[d]
      {
        assert c != 1 ==> g.columns[c] in f.columns;
        assert d != 1 ==> g.columns[d] in f.columns;
      }
    }
    g
  }

  /** The whole transformation after the file read. `None` is the model's
      failure case. It covers the source's exceptions: no column survives the
      projection, so there is no column 0 to insert the rank after; two score
      aliases are both present; two rank aliases are both present while the
      score column is present and has no null. It also covers the other
      collisions of two aliases of one canonical name, which the model
      refuses although the source returns the table. */
  function Normalize(raw: Frame): (r: Option<Frame>)
    requires WellFormed(raw)
    ensures r.Some? ==> WellFormed(r.value) && RankColumn in r.value.columns
    ensures r.Some? ==> |r.value.rows| == |raw.rows|
    ensures r.Some? ==> forall c :: 0 <= c < |r.value.columns| ==>
      r.value.columns[c] in {CountryColumn, RankColumn, ScoreColumn}
  {
    if !Distinct(RenamedFrame(raw).columns) then None
    else
      var projected := Projected(raw);
      NeededAreCanonical(raw.columns);
      if RankColumn in projected.columns then Some(projected)
      else if |projected.columns| == 0 then None
      else Some(WithPositionalRank(projected))
  }

  lemma NeededAreCanonical(columns: seq<string>)
    ensures forall c :: 0 <= c < |NeededColumns(columns)| ==>
      NeededColumns(columns)[c] in {CountryColumn, RankColumn, ScoreColumn}
  {
    assert forall j :: 0 <= j < |ColumnAliases| ==>
      ColumnAliases[j].1 in {CountryColumn, RankColumn, ScoreColumn};
  }

  /** What `load_data` hands back: nothing, or the frame together with whether
      the invalid-data error message was shown. */
  datatype LoadResult = LoadFailed | Loaded(frame: Frame, invalidWarning: bool)

  /** `load_data` from the parsed file on: `read` is what `read_csv` produced,
      `None` when it raised. */
  method LoadData(read: Option<Frame>) returns (r: LoadResult)
    requires read.Some? ==> WellFormed(read.value)
    ensures read.None? ==> r == LoadFailed
    ensures read.Some? ==>
      match Normalize(read.value)
      case None => r == LoadFailed
      case Some(f) => r == Loaded(f, !RankAndScoreValid(f, ScoreColumn, RankColumn))
  {
    if read.None? {
      return LoadFailed;
    }
    var raw := read.value;
    ColumnAliasesIsAliasMap();
    var df, needed := RenameAliases(ColumnAliases, raw);
    assert df == RenamedFrame(raw) && needed == NeededColumns(raw.columns);
    if !Distinct(df.columns) {
      return LoadFailed;
    }
    NeededInRenamed(raw);
    df := Select(df, needed);
    assert df == Projected(raw);
    if RankColumn !in df.columns {
      if |df.columns| == 0 {
        return LoadFailed;
      }
      df := InsertColumn(df, 1, RankColumn, RankCells(|df.rows|));
      assert df == WithPositionalRank(Projected(raw));
    }
    var ok := ValidateRankAndScore(df, ScoreColumn, RankColumn);
    return Loaded(df, !ok);
  }

  /** The loop over an alias map in key order: every present key is renamed
      to its canonical name and that name is appended to `needed`.
      `load_data` runs it over ColumnAliases. */
  method RenameAliases(a: seq<(string, string)>, raw: Frame) returns (df: Frame, needed: seq<string>)
    requires AliasMap(a)
    ensures df.rows == raw.rows && |df.columns| == |raw.columns|
    ensures forall i :: 0 <= i < |raw.columns| ==> df.columns[i] == CanonicalName(a, raw.columns[i])
    ensures needed == Needed(a, raw.columns, |a|)
  {
    df, needed := raw, [];
    assert a[..0] == [] && raw.columns == Labels(a[..0], raw.columns);
    for k := 0 to |a|
      invariant df == Frame(Labels(a[..k], raw.columns), raw.rows)
      invariant needed == Needed(a, raw.columns, k)
    {
      var (key, canon) := a[k];
      RenameStep(a, raw.columns, raw.rows, k);
      if key in df.columns {
        if canon != key {
          df := RenameColumn(df, key, canon);
        }
        needed := needed + [canon];
      }
    }
    assert a[..|a|] == a;
  }

  /** The output labels are the needed labels, with the positional rank at
      index 1 when none of them is a rank. */
  lemma NormalizeColumns(raw: Frame)
    requires WellFormed(raw) && Normalize(raw).Some?
    ensures var f, needed := Normalize(raw).value, NeededColumns(raw.columns);
      (RankColumn in needed ==> f.columns == needed) &&
      (RankColumn !in needed ==> f.columns == needed[..1] + [RankColumn] + needed[1..])
  {
  }

  /** Where needed label `c` lands in the output: its own position, or one
      further right when the rank was inserted before it. */
  function OutputPosition(needed: seq<string>, c: nat): nat
  {
    if RankColumn in needed || c == 0 then c else c + 1
  }

  /** Every output column other than an inserted rank holds, row for row, the
      cells of the input column whose label is the alias key it came from. */
  lemma NormalizeKeepsCells(raw: Frame, r: nat, c: nat)
    requires WellFormed(raw) && Normalize(raw).Some?
    requires r < |raw.rows| && c < |NeededColumns(raw.columns)|
    ensures var needed, f := NeededColumns(raw.columns), Normalize(raw).value;
      SourceKey(raw.columns, c) in raw.columns &&
      OutputPosition(needed, c) < |f.columns| &&
      f.columns[OutputPosition(needed, c)] == needed[c] &&
      f.rows[r][OutputPosition(needed, c)] == raw.rows[r][IndexOf(raw.columns, SourceKey(raw.columns, c))]
  {
    var projected := Projected(raw);
    if RankColumn in NeededColumns(raw.columns) {
      assert Normalize(raw).value == projected;
    } else {
      assert Normalize(raw).value == WithPositionalRank(projected);
    }
  }

  /** When no rank label survives, the output has `Happiness Rank` at index 1
      holding 1, 2, ..., n in row order. */
  lemma PositionalRank(raw: Frame)
    requires WellFormed(raw) && Normalize(raw).Some?
    requires RankColumn !in NeededColumns(raw.columns)
    ensures var f := Normalize(raw).value;
      |f.columns| >= 2 && f.columns[1] == RankColumn && |f.rows| == |raw.rows| &&
      forall r :: 0 <= r < |f.rows| ==> f.rows[r][1] == Num((r + 1) as real)
  {
  }

  /** The model fails exactly when two aliases of one canonical name are
      present, or when nothing survives the projection and the rank cannot be
      inserted at index 1. */
  lemma NormalizeFails(raw: Frame)
    requires WellFormed(raw)
    ensures Normalize(raw).None? <==>
      !Distinct(RenamedFrame(raw).columns) || NeededColumns(raw.columns) == []
  {
  }

  /** The positional rank is consistent when the input is sorted by strictly
      decreasing score, the assumption the loader makes silently: a table
      whose rank was synthesised then passes the validator, so no warning is
      raised. */
  lemma PositionalRankValidatesSortedScores(raw: Frame)
    requires WellFormed(raw) && Normalize(raw).Some?
    requires RankColumn !in NeededColumns(raw.columns)
    requires var f := Normalize(raw).value;
      ScoreColumn in f.columns &&
      var scores := Column(f, IndexOf(f.columns, ScoreColumn));
      NoNulls(scores) && forall i, j :: 0 <= i < j < |scores| ==> Less(scores[j], scores[i])
    ensures RankAndScoreValid(Normalize(raw).value, ScoreColumn, RankColumn)
  {
    var f := Normalize(raw).value;
    var scores := Column(f, IndexOf(f.columns, ScoreColumn));
    IndexOfDistinct(f.columns, 1);
    assert Column(f, IndexOf(f.columns, RankColumn)) == RankCells(|f.rows|);
    DecreasingScoresWithPositionalRanksValidate(scores);
  }
}
