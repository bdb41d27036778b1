/** `Score`: the immutable running total of runs, wickets, completed overs
    and balls of the current over, rebuilt by `updateScore` for every ball. */
module CricketScore {
  import opened CricketTypes

  const BallsPerOver: int := 6

  datatype Score = Score(runs: int, wickets: int, overs: int, balls: int)

  const ZeroScore: Score := Score(0, 0, 0, 0)

  /** Deliveries a score accounts for: completed overs plus the current one. */
  function BallsBowled(s: Score): int
  {
    s.overs * BallsPerOver + s.balls
  }

  /** `updateScore`: a new Score with the ball's runs and wicket added and the
      ball counted; the sixth ball of an over closes it. */
  function UpdateScore(s: Score, b: Ball): (r: Score)
    ensures r.runs == s.runs + ResultRuns(b)
    ensures r.wickets == s.wickets + (if b.isWicket then 1 else 0)
    ensures BallsBowled(r) == BallsBowled(s) + 1
    ensures 0 <= s.balls < BallsPerOver ==> 0 <= r.balls < BallsPerOver
    ensures 0 <= s.balls < BallsPerOver ==> (r.balls == 0 <==> s.balls == BallsPerOver - 1)
  {
    var newBalls := s.balls + 1;
    if newBalls == BallsPerOver then
      Score(s.runs + ResultRuns(b), if b.isWicket then s.wickets + 1 else s.wickets, s.overs + 1, 0)
    else
      Score(s.runs + ResultRuns(b), if b.isWicket then s.wickets + 1 else s.wickets, s.overs, newBalls)
  }

  /** Folding a sequence of deliveries into a score, oldest first. */
  function ScoreAfter(s: Score, bs: seq<Ball>): Score
  {
    if |bs| == 0 then s else UpdateScore(ScoreAfter(s, bs[..|bs| - 1]), bs[|bs| - 1])
  }

  /** Total runs of a delivery sequence, computed directly. */
  function TotalRuns(bs: seq<Ball>): int
  {
    if |bs| == 0 then 0 else TotalRuns(bs[..|bs| - 1]) + ResultRuns(bs[|bs| - 1])
  }

  /** Number of wicket deliveries in a sequence, computed directly. */
  function WicketCount(bs: seq<Ball>): nat
  {
    if |bs| == 0 then 0 else WicketCount(bs[..|bs| - 1]) + (if bs[|bs| - 1].isWicket then 1 else 0)
  }

  /** Scoring two stretches of play one after the other is scoring them
      as one: the fold can be resumed from any intermediate score. */
  lemma {:induction false} ScoreAfterConcat(s: Score, a: seq<Ball>, b: seq<Ball>)
    ensures ScoreAfter(s, a + b) == ScoreAfter(ScoreAfter(s, a), b)
    decreases |b|
  {
    if |b| == 0 {
      assert a + b == a;
    } else {
      var ab := a + b;
      assert ab[..|ab| - 1] == a + b[..|b| - 1];
      assert ab[|ab| - 1] == b[|b| - 1];
      ScoreAfterConcat(s, a, b[..|b| - 1]);
    }
  }

  /** Folding deliveries one at a time from the zero score gives the same
      runs, wickets, overs and balls as computing them from the whole list:
      the balls of the current over never leave 0..5. */
  lemma {:induction false} ScoreFoldIsDirect(bs: seq<Ball>)
    ensures ScoreAfter(ZeroScore, bs)
      == Score(TotalRuns(bs), WicketCount(bs), |bs| / BallsPerOver, |bs| % BallsPerOver)
  {
    if |bs| > 0 {
      var init := bs[..|bs| - 1];
      ScoreFoldIsDirect(init);
      var n := |init|;
      assert n / 6 * 6 + n % 6 == n;
      if n % 6 == 5 {
        assert (n + 1) / 6 == n / 6 + 1 && (n + 1) % 6 == 0;
      } else {
        assert (n + 1) / 6 == n / 6 && (n + 1) % 6 == n % 6 + 1;
      }
    }
  }
}
