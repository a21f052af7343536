/** `validate_rank_and_score`: a higher happiness score must come with a
    strictly smaller (better) rank, and a lower score with a strictly larger
    rank; equal scores impose nothing. */
module Validation {
  import opened Frames

  const ScoreColumn := "Happiness Score"
  const RankColumn := "Happiness Rank"

  predicate NoNulls(cells: seq<Cell>)
  {
    forall r :: 0 <= r < |cells| ==> !cells[r].Null?
  }

  /** Rows `i` and `j` agree: `score_i > score_j` implies `rank_i < rank_j`,
      and `score_i < score_j` implies `rank_i > rank_j`. */
  predicate PairConsistent(scores: seq<Cell>, ranks: seq<Cell>, i: nat, j: nat)
    requires i < |scores| && j < |scores| && |ranks| == |scores|
  {
    (Less(scores[j], scores[i]) ==> Less(ranks[i], ranks[j])) &&
    (Less(scores[i], scores[j]) ==> Less(ranks[j], ranks[i]))
  }

  /** Every ordered pair of distinct rows agrees. */
  predicate Consistent(scores: seq<Cell>, ranks: seq<Cell>)
    requires |ranks| == |scores|
  {
    forall i, j :: 0 <= i < |scores| && 0 <= j < |scores| && i != j ==> PairConsistent(scores, ranks, i, j)
  }

  /** The intended meaning of the validator: both columns exist, neither has a
      missing value, and the scores and ranks are consistent. */
  predicate RankAndScoreValid(f: Frame, scoreName: string, rankName: string)
    requires Rectangular(f)
  {
    scoreName in f.columns && rankName in f.columns &&
    var scores := Column(f, IndexOf(f.columns, scoreName));
    var ranks := Column(f, IndexOf(f.columns, rankName));
    NoNulls(scores) && NoNulls(ranks) && Consistent(scores, ranks)
  }

  /** The validator with its nested index loops and early returns. A comparison
      `x > y` is `Less(y, x)`; `x >= y` is `!Less(x, y)`, exact for numbers
      without NaN and for text. */
  method ValidateRankAndScore(f: Frame, scoreName: string, rankName: string) returns (ok: bool)
    requires WellFormed(f)
    ensures ok == RankAndScoreValid(f, scoreName, rankName)
    ensures scoreName !in f.columns || rankName !in f.columns ==> !ok
    ensures scoreName in f.columns && rankName in f.columns &&
            (exists r :: 0 <= r < |f.rows| &&
               (f.rows[r][IndexOf(f.columns, scoreName)].Null? || f.rows[r][IndexOf(f.columns, rankName)].Null?))
            ==> !ok
  {
    if scoreName !in f.columns || rankName !in f.columns {
      return false;
    }
    var sc, rc := IndexOf(f.columns, scoreName), IndexOf(f.columns, rankName);
    var scores, ranks := Column(f, sc), Column(f, rc);
    if !NoNulls(scores) || !NoNulls(ranks) {
      return false;
    }
    var n := |f.rows|;
    for i := 0 to n
      invariant forall i', j :: 0 <= i' < i && 0 <= j < n && i' != j ==> PairConsistent(scores, ranks, i', j)
    {
      for j := 0 to n
        invariant forall i', j' :: 0 <= i' < i && 0 <= j' < n && i' != j' ==> PairConsistent(scores, ranks, i', j')
        invariant forall j' :: 0 <= j' < j && i != j' ==> PairConsistent(scores, ranks, i, j')
      {
        if i == j {
          continue;
        }
        var scoreI, scoreJ := f.rows[i][sc], f.rows[j][sc];
        var rankI, rankJ := f.rows[i][rc], f.rows[j][rc];
        if Less(scoreJ, scoreI) {
          if !Less(rankI, rankJ) {
            assert !PairConsistent(scores, ranks, i, j);
            return false;
          }
          LessAsymmetric(scoreJ, scoreI);
        } else if Less(scoreI, scoreJ) {
          if !Less(rankJ, rankI) {
            assert !PairConsistent(scores, ranks, i, j);
            return false;
          }
        }
      }
    }
    return true;
  }

  /** Checking the pairs with `i < j` suffices: the condition is symmetric. */
  lemma UpperPairsSuffice(scores: seq<Cell>, ranks: seq<Cell>)
    requires |ranks| == |scores|
    ensures Consistent(scores, ranks) <==>
      forall i, j :: 0 <= i < j < |scores| ==> PairConsistent(scores, ranks, i, j)
  {
    if forall i, j :: 0 <= i < j < |scores| ==> PairConsistent(scores, ranks, i, j) {
      forall i, j | 0 <= i < |scores| && 0 <= j < |scores| && j < i
        ensures PairConsistent(scores, ranks, i, j)
      {
        assert PairConsistent(scores, ranks, j, i);
      }
    }
  }

  /** Two rows with equal scores never fail, whatever their ranks. */
  lemma EqualScoresNeverFail(scores: seq<Cell>, ranks: seq<Cell>, i: nat, j: nat)
    requires i < |scores| && j < |scores| && |ranks| == |scores|
    requires scores[i] == scores[j]
    ensures PairConsistent(scores, ranks, i, j)
  {
    LessIrreflexive(scores[i]);
  }

  /** A table of at most one row, with both columns and no missing values,
      validates. */
  lemma SmallTablesValidate(f: Frame, scoreName: string, rankName: string)
    requires Rectangular(f) && |f.rows| <= 1
    requires scoreName in f.columns && rankName in f.columns
    requires NoNulls(Column(f, IndexOf(f.columns, scoreName)))
    requires NoNulls(Column(f, IndexOf(f.columns, rankName)))
    ensures RankAndScoreValid(f, scoreName, rankName)
  {
  }

  /** Two rows that share a rank but have different scores make the
      validation fail. */
  lemma SharedRankFails(f: Frame, scoreName: string, rankName: string, i: nat, j: nat)
    requires WellFormed(f) && scoreName in f.columns && rankName in f.columns
    requires i < |f.rows| && j < |f.rows|
    requires var sc, rc := IndexOf(f.columns, scoreName), IndexOf(f.columns, rankName);
      f.rows[i][rc] == f.rows[j][rc] && f.rows[i][sc] != f.rows[j][sc]
    ensures !RankAndScoreValid(f, scoreName, rankName)
  {
    var sc, rc := IndexOf(f.columns, scoreName), IndexOf(f.columns, rankName);
    var scores, ranks := Column(f, sc), Column(f, rc);
    if f.rows[i][sc].Null? || f.rows[j][sc].Null? {
      return;
    }
    assert !(f.rows[i][sc].Num? && f.rows[j][sc].Text?) && !(f.rows[j][sc].Num? && f.rows[i][sc].Text?);
    LessTotal(f.rows[i][sc], f.rows[j][sc]);
    LessIrreflexive(f.rows[i][rc]);
    assert !PairConsistent(scores, ranks, i, j);
  }

  /** The ranks 1, 2, ..., n of `range(1, n + 1)`. */
  function RankCells(n: nat): (cells: seq<Cell>)
    ensures |cells| == n
    ensures forall r :: 0 <= r < n ==> cells[r] == Num((r + 1) as real)
  {
    seq(n, r requires 0 <= r < n => Num((r + 1) as real))
  }

  /** Scores that strictly decrease down the table, ranked 1, 2, ..., n,
      validate. */
  lemma DecreasingScoresWithPositionalRanksValidate(scores: seq<Cell>)
    requires NoNulls(scores)
    requires forall i, j :: 0 <= i < j < |scores| ==> Less(scores[j], scores[i])
    ensures Consistent(scores, RankCells(|scores|))
  {
    var ranks := RankCells(|scores|);
    forall i, j | 0 <= i < |scores| && 0 <= j < |scores| && i != j
      ensures PairConsistent(scores, ranks, i, j)
    {
      if i < j {
        LessAsymmetric(scores[j], scores[i]);
      } else {
        LessAsymmetric(scores[i], scores[j]);
      }
    }
  }
}
