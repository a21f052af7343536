/** The tabular data the loader works on: a pandas DataFrame as parsed from a
    CSV file, reduced to its column labels and its rows of cells. */
module Frames {

  /** One parsed CSV cell: missing (pandas NaN, what `isnull` detects), a
      number (pandas parses integers and floats alike) or text. */
  datatype Cell = Null | Num(n: real) | Text(s: string)

  /** Python's `<` on two `str` values: lexicographic by code point, a proper
      prefix being smaller. */
  predicate StrLess(a: string, b: string)
  {
    if |a| == 0 then |b| > 0
    else if |b| == 0 then false
    else if a[0] != b[0] then a[0] < b[0]
    else StrLess(a[1..], b[1..])
  }

  /** Python's `<` on two non-missing cells of one column. A parsed column has a
      single dtype, so numbers are compared only with numbers and text only with
      text; other combinations never arise (see WellFormed). */
  predicate Less(a: Cell, b: Cell)
  {
    match (a, b)
    case (Num(x), Num(y)) => x < y
    case (Text(s), Text(t)) => StrLess(s, t)
    case _ => false
  }

  /** Two cells are comparable when both are numbers or both are text. */
  predicate SameKind(a: Cell, b: Cell)
  {
    (a.Num? && b.Num?) || (a.Text? && b.Text?)
  }

  lemma {:induction false} StrLessIrreflexive(a: string)
    ensures !StrLess(a, a)
  {
    if |a| > 0 {
      StrLessIrreflexive(a[1..]);
    }
  }

  lemma {:induction false} StrLessAsymmetric(a: string, b: string)
    ensures StrLess(a, b) ==> !StrLess(b, a)
  {
    if |a| > 0 && |b| > 0 && a[0] == b[0] {
      StrLessAsymmetric(a[1..], b[1..]);
    }
  }

  lemma {:induction false} StrLessTotal(a: string, b: string)
    ensures a != b ==> StrLess(a, b) || StrLess(b, a)
  {
    if |a| > 0 && |b| > 0 && a[0] == b[0] {
      StrLessTotal(a[1..], b[1..]);
      if a[1..] == b[1..] {
        assert a == [a[0]] + a[1..] && b == [b[0]] + b[1..];
      }
    }
  }

  /** No cell is smaller than itself. */
  lemma LessIrreflexive(a: Cell)
    ensures !Less(a, a)
  {
    if a.Text? {
      StrLessIrreflexive(a.s);
    }
  }

  /** Two cells are never each smaller than the other. */
  lemma LessAsymmetric(a: Cell, b: Cell)
    ensures Less(a, b) ==> !Less(b, a)
  {
    if a.Text? && b.Text? {
      StrLessAsymmetric(a.s, b.s);
    }
  }

  /** Two different comparable cells are ordered one way or the other. */
  lemma LessTotal(a: Cell, b: Cell)
    requires SameKind(a, b)
    ensures a != b ==> Less(a, b) || Less(b, a)
  {
    if a.Text? {
      StrLessTotal(a.s, b.s);
    }
  }

  /** A DataFrame: column labels and rows of cells. */
  datatype Frame = Frame(columns: seq<string>, rows: seq<seq<Cell>>)

  predicate Distinct<T(==)>(s: seq<T>)
  {
    forall i, j :: 0 <= i < j < |s| ==> s[i] != s[j]
  }

  /** Every row has one cell per column. */
  predicate Rectangular(f: Frame)
  {
    forall r :: 0 <= r < |f.rows| ==> |f.rows[r]| == |f.columns|
  }

  /** No column holds both a number and a text cell. */
  predicate Homogeneous(f: Frame)
    requires Rectangular(f)
  {
    forall c, r1, r2 :: 0 <= c < |f.columns| && 0 <= r1 < |f.rows| && 0 <= r2 < |f.rows| ==>
      !(f.rows[r1][c].Num? && f.rows[r2][c].Text?)
  }

  /** What `read_csv` guarantees of the frame it returns: rectangular (short
      lines are padded with NaN), distinct labels (repeated headers are
      mangled) and one dtype per column. */
  predicate WellFormed(f: Frame)
  {
    Rectangular(f) && Distinct(f.columns) && Homogeneous(f)
  }

  /** The position of label `x` in `s`: its first occurrence. */
  function IndexOf(s: seq<string>, x: string): (k: nat)
    requires x in s
    ensures k < |s| && s[k] == x
    ensures forall i :: 0 <= i < k ==> s[i] != x
  {
    if s[0] == x then 0 else 1 + IndexOf(s[1..], x)
  }

  lemma IndexOfDistinct(s: seq<string>, k: nat)
    requires Distinct(s) && k < |s|
    ensures IndexOf(s, s[k]) == k
  {
  }

  /** The cells of column `k`, top to bottom (`df[label]`). */
  function Column(f: Frame, k: nat): (cells: seq<Cell>)
    requires Rectangular(f) && k < |f.columns|
    ensures |cells| == |f.rows|
    ensures forall r :: 0 <= r < |f.rows| ==> cells[r] == f.rows[r][k]
  {
    seq(|f.rows|, r requires 0 <= r < |f.rows| => f.rows[r][k])
  }

  /** `df.rename(columns={from: to})`: every label equal to `from` becomes `to`;
      the cells are untouched. */
  function RenameColumn(f: Frame, from: string, to: string): (g: Frame)
    ensures g.rows == f.rows && |g.columns| == |f.columns|
    ensures forall i :: 0 <= i < |f.columns| ==>
      g.columns[i] == if f.columns[i] == from then to else f.columns[i]
  {
    Frame(seq(|f.columns|, i requires 0 <= i < |f.columns| =>
                if f.columns[i] == from then to else f.columns[i]),
          f.rows)
  }

  /** `df[names]`: the columns named by `names`, in that order. */
  function Select(f: Frame, names: seq<string>): (g: Frame)
    requires Rectangular(f)
    requires forall c :: 0 <= c < |names| ==> names[c] in f.columns
    ensures g.columns == names && |g.rows| == |f.rows| && Rectangular(g)
    ensures forall r, c :: 0 <= r < |f.rows| && 0 <= c < |names| ==>
      g.rows[r][c] == f.rows[r][IndexOf(f.columns, names[c])]
  {
    Frame(names,
          seq(|f.rows|, r requires 0 <= r < |f.rows| =>
                seq(|names|, c requires 0 <= c < |names| => f.rows[r][IndexOf(f.columns, names[c])])))
  }

  /** `df.insert(pos, name, cells)`: a new column at position `pos`, the
      columns from `pos` on moving one place right. */
  function InsertColumn(f: Frame, pos: nat, name: string, cells: seq<Cell>): (g: Frame)
    requires Rectangular(f) && pos <= |f.columns| && |cells| == |f.rows|
    ensures Rectangular(g) && |g.rows| == |f.rows|
    ensures g.columns == f.columns[..pos] + [name] + f.columns[pos..]
    ensures forall r :: 0 <= r < |f.rows| ==>
      g.rows[r] == f.rows[r][..pos] + [cells[r]] + f.rows[r][pos..]
    ensures forall c :: 0 <= c < |g.columns| ==>
      g.columns[c] == if c < pos then f.columns[c] else if c == pos then name else f.columns[c - 1]
    ensures forall r, c :: 0 <= r < |f.rows| && 0 <= c < |g.columns| ==>
      g.rows[r][c] == if c < pos then f.rows[r][c] else if c == pos then cells[r] else f.rows[r][c - 1]
  {
    Frame(f.columns[..pos] + [name] + f.columns[pos..],
          seq(|f.rows|, r requires 0 <= r < |f.rows| => f.rows[r][..pos] + [cells[r]] + f.rows[r][pos..]))
  }
}
