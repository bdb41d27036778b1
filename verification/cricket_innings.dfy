/** `Innings`: one side's turn at the crease. It accepts deliveries while in
    progress, rolls a full over into its archive and picks the next bowler,
    keeps the batting order and the pair at the crease, and closes itself
    (`InningsInProgressState` to `InningsCompletedState`) when a completion
    rule fires after a delivery. */
module CricketInnings {
  import opened Wrappers
  import opened JsNumbers
  import opened Seqs
  import opened CricketTypes
  import opened CricketScore
  import opened CricketOver
  import opened CricketTeam

  /** The two state objects of the source, `InningsInProgressState` (which
      accepts balls) and `InningsCompletedState` (which refuses them). */
  datatype InningsState = InningsInProgress | InningsCompleted

  datatype Innings = Innings(
    battingTeam: Team,
    bowlingTeam: Team,
    maxOvers: Option<int>,
    targetScore: Option<int>,
    overs: seq<Over>,
    currentOver: Over,
    score: Score,
    wickets: int,
    battingOrder: seq<PlayerId>,
    currentBatsmen: seq<PlayerId>,
    currentBowler: Option<PlayerId>,
    state: InningsState)

  /** The constructor: over 0 open, zero score, nobody at the crease or
      bowling. */
  function NewInnings(batting: Team, bowling: Team, maxOvers: Option<int>, target: Option<int>): (r: Innings)
    ensures Valid(r)
    ensures r.state == InningsInProgress && r.overs == [] && r.currentOver.balls == []
    ensures r.score == ZeroScore && r.battingOrder == [] && r.currentBatsmen == [] && r.currentBowler == None
  {
    Innings(batting, bowling, maxOvers, target, [], Over(0, []), ZeroScore, 0, [], [], None, InningsInProgress)
  }

  /** The filter of `rotateBowler`: a player other than the current bowler
      who has a bowling style (`player !== null` always holds when no bowler
      is set). */
  predicate CanBowl(p: Player, current: Option<PlayerId>)
  {
    current != Some(p.id) && p.bowlingStyle.Some?
  }

  /** Index of the first roster player who can take the next over. */
  function FirstBowler(ps: seq<Player>, current: Option<PlayerId>): (r: Option<nat>)
    ensures r.None? <==> forall i :: 0 <= i < |ps| ==> !CanBowl(ps[i], current)
    ensures r.Some? ==> (r.value < |ps| && CanBowl(ps[r.value], current)
                         && forall j :: 0 <= j < r.value ==> !CanBowl(ps[j], current))
  {
    if |ps| == 0 then None
    else if CanBowl(ps[0], current) then Some(0)
    else
      match FirstBowler(ps[1..], current)
      case None => None
      case Some(i) => Some(i + 1)
  }

  /** `rotateBowler`: the first eligible player of the bowling side takes
      over; with nobody eligible the bowler is unchanged. */
  function RotateBowler(inn: Innings): (r: Innings)
    ensures r == inn.(currentBowler := r.currentBowler)
    ensures FirstBowler(inn.bowlingTeam.players, inn.currentBowler).None? ==> r == inn
    ensures FirstBowler(inn.bowlingTeam.players, inn.currentBowler).Some? ==>
              r.currentBowler == Some(inn.bowlingTeam.players[FirstBowler(inn.bowlingTeam.players, inn.currentBowler).value].id)
              && r.currentBowler != inn.currentBowler
  {
    match FirstBowler(inn.bowlingTeam.players, inn.currentBowler)
    case None => inn
    case Some(i) => inn.(currentBowler := Some(inn.bowlingTeam.players[i].id))
  }

  /** The roster player `id` is the first one who has not batted yet. */
  predicate IsNextBatsman(ps: seq<Player>, order: seq<PlayerId>, id: PlayerId)
  {
    exists i :: 0 <= i < |ps| && ps[i].id == id && id !in order
             && forall j :: 0 <= j < i ==> ps[j].id in order
  }

  /** Index of the first roster player not yet in the batting order. */
  function FirstUnbatted(ps: seq<Player>, order: seq<PlayerId>): (r: Option<nat>)
    ensures r.None? <==> forall i :: 0 <= i < |ps| ==> ps[i].id in order
    ensures r.Some? ==> (r.value < |ps| && ps[r.value].id !in order
                         && forall j :: 0 <= j < r.value ==> ps[j].id in order)
  {
    if |ps| == 0 then None
    else if ps[0].id !in order then Some(0)
    else
      match FirstUnbatted(ps[1..], order)
      case None => None
      case Some(i) => Some(i + 1)
  }

  /** `currentBatsmen[currentBatsmen.indexOf(currentBatsmen[0])] = p`: on a
      non-empty list this overwrites slot 0; on an empty list `indexOf`
      answers -1 and the write lands on a property that is not an element,
      so the sequence is unchanged. */
  function ReplaceOutBatsman(cb: seq<PlayerId>, incoming: PlayerId): seq<PlayerId>
  {
    if |cb| == 0 then cb else cb[0 := incoming]
  }

  /** `rotateBatsmen`, run after the wicket has been counted. */
  function RotateBatsmen(inn: Innings): Innings
  {
    if inn.wickets < 10 then
      match FirstUnbatted(inn.battingTeam.players, inn.battingOrder)
      case None => inn
      case Some(i) => inn.(currentBatsmen := ReplaceOutBatsman(inn.currentBatsmen, inn.battingTeam.players[i].id))
    else inn
  }

  function Reverse<T>(s: seq<T>): (r: seq<T>)
    ensures |r| == |s|
    ensures forall i :: 0 <= i < |s| ==> r[i] == s[|s| - 1 - i]
  {
    seq(|s|, i requires 0 <= i < |s| => s[|s| - 1 - i])
  }

  /** The strike test of `updateBattingOrder`: JavaScript's
      `getBallResultRuns() % 2 === 1`, true only for positive odd totals. */
  predicate OddRuns(b: Ball)
  {
    JsRem(ResultRuns(b), 2) == 1
  }

  /** `updateBattingOrder`: record the striker once, then either replace the
      dismissed batsman or, on an odd total, swap strike. */
  function UpdateBattingOrder(inn: Innings, b: Ball): Innings
  {
    var inn' := if b.batsman in inn.battingOrder then inn
                else inn.(battingOrder := inn.battingOrder + [b.batsman]);
    if b.isWicket then RotateBatsmen(inn')
    else if OddRuns(b) then inn'.(currentBatsmen := Reverse(inn'.currentBatsmen))
    else inn'
  }

  /** The private `updateScore`: the Score fold and the wicket counter move
      together. */
  function RecordBall(inn: Innings, b: Ball): Innings
  {
    inn.(score := UpdateScore(inn.score, b),
         wickets := if b.isWicket then inn.wickets + 1 else inn.wickets)
  }

  /** `getOvers`: archived overs, plus the current one once it is full. */
  function OversBowled(inn: Innings): int
  {
    |inn.overs| + (if IsComplete(inn.currentOver) then 1 else 0)
  }

  /** The three tests of `checkInningsState`. `maxOvers` and `targetScore`
      are tested for JavaScript truthiness, so null, undefined and 0 switch
      their rule off. */
  predicate CompletionDue(inn: Innings)
  {
    || inn.wickets >= 10
    || (inn.maxOvers.Some? && inn.maxOvers.value != 0 && OversBowled(inn) >= inn.maxOvers.value)
    || (inn.targetScore.Some? && inn.targetScore.value != 0 && inn.score.runs > inn.targetScore.value)
  }

  function CheckInningsState(inn: Innings): Innings
  {
    if CompletionDue(inn) then inn.(state := InningsCompleted) else inn
  }

  /** Archive a full over, open the next one and change bowler. */
  function RollOver(inn: Innings): Innings
  {
    if IsComplete(inn.currentOver) then
      RotateBowler(inn.(overs := inn.overs + [inn.currentOver], currentOver := Over(|inn.overs| + 1, [])))
    else inn
  }

  /** `addBall`: refused without any change once the innings is completed;
      otherwise the delivery is taken and completion is checked afresh. */
  function AddBall(inn: Innings, b: Ball): (r: Step<Innings>)
    ensures inn.state == InningsCompleted ==> r == Step(false, inn)
    ensures inn.state == InningsInProgress ==> r.ok
    ensures r.state.state == InningsCompleted <==> inn.state == InningsCompleted || CompletionDue(r.state)
    ensures r.ok ==> r.state.score == UpdateScore(inn.score, b)
    ensures r.ok ==> r.state.wickets == inn.wickets + (if b.isWicket then 1 else 0)
    ensures r.state.battingTeam == inn.battingTeam && r.state.bowlingTeam == inn.bowlingTeam
    ensures r.state.maxOvers == inn.maxOvers && r.state.targetScore == inn.targetScore
  {
    if inn.state == InningsCompleted then Step(false, inn)
    else
      var rolled := RollOver(inn);
      var added := CricketOver.AddBall(rolled.currentOver, b);
      var next := rolled.(currentOver := added.state);
      if added.ok then
        Step(true, CheckInningsState(UpdateBattingOrder(RecordBall(next, b), b)))
      else
        Step(false, CheckInningsState(next))
  }

  /** A completed innings stays completed whatever is delivered next. */
  lemma {:induction false} CompletionIsFinal(inn: Innings, bs: seq<Ball>)
    requires inn.state == InningsCompleted
    ensures Feed(inn, bs) == inn
  {
    if |bs| > 0 {
      CompletionIsFinal(inn, bs[..|bs| - 1]);
    }
  }

  /** Delivering a sequence of balls, oldest first. */
  function Feed(inn: Innings, bs: seq<Ball>): Innings
  {
    if |bs| == 0 then inn else AddBall(Feed(inn, bs[..|bs| - 1]), bs[|bs| - 1]).state
  }

  /** Where an accepted delivery lands: in the current over, or, when that
      over is full, in a fresh over numbered after the archive, bowled by the
      first eligible bowler. */
  lemma AddBallPlacesDelivery(inn: Innings, b: Ball)
    requires inn.state == InningsInProgress
    ensures var r := AddBall(inn, b).state;
      if IsComplete(inn.currentOver) then
        && r.overs == inn.overs + [inn.currentOver]
        && r.currentOver == Over(|inn.overs| + 1, [b])
        && r.currentBowler == match FirstBowler(inn.bowlingTeam.players, inn.currentBowler)
                              case None => inn.currentBowler
                              case Some(i) => Some(inn.bowlingTeam.players[i].id)
      else
        && r.overs == inn.overs
        && r.currentOver == inn.currentOver.(balls := inn.currentOver.balls + [b])
        && r.currentBowler == inn.currentBowler
  {
  }

  /** The striker joins the batting order exactly when absent from it. */
  lemma AddBallRecordsStriker(inn: Innings, b: Ball)
    requires inn.state == InningsInProgress
    ensures var r := AddBall(inn, b).state;
      && b.batsman in r.battingOrder
      && (b.batsman in inn.battingOrder ==> r.battingOrder == inn.battingOrder)
      && (b.batsman !in inn.battingOrder ==> r.battingOrder == inn.battingOrder + [b.batsman])
      && (NoDuplicates(inn.battingOrder) ==> NoDuplicates(r.battingOrder))
  {
  }

  /** A wicket replaces the batsman in slot 0 with the first roster player
      who has not batted, and only while fewer than ten wickets are down;
      the other slot is never touched and there is no strike swap, whatever
      the runs. */
  lemma WicketTakesPrecedence(inn: Innings, b: Ball)
    requires inn.state == InningsInProgress && b.isWicket
    ensures var r := AddBall(inn, b).state;
      && |r.currentBatsmen| == |inn.currentBatsmen|
      && (forall i :: 1 <= i < |inn.currentBatsmen| ==> r.currentBatsmen[i] == inn.currentBatsmen[i])
      && (|inn.currentBatsmen| > 0 && r.currentBatsmen[0] != inn.currentBatsmen[0] ==>
            r.wickets < 10 && IsNextBatsman(inn.battingTeam.players, r.battingOrder, r.currentBatsmen[0]))
      && (|inn.currentBatsmen| > 0 && r.wickets < 10
          && FirstUnbatted(inn.battingTeam.players, r.battingOrder).Some? ==>
            IsNextBatsman(inn.battingTeam.players, r.battingOrder, r.currentBatsmen[0]))
  {
    var before := AddBallOnWicket(inn, b);
    RotateBatsmenFillsSlotZero(before);
  }

  /** An accepted wicket ball is the wicket step applied to the innings
      with the ball recorded and the striker entered in the order; the
      completion check then touches only the state. */
  lemma AddBallOnWicket(inn: Innings, b: Ball) returns (before: Innings)
    requires inn.state == InningsInProgress && b.isWicket
    ensures before.currentBatsmen == inn.currentBatsmen
    ensures before.battingTeam == inn.battingTeam
    ensures var r := AddBall(inn, b).state; var x := RotateBatsmen(before);
      && r.currentBatsmen == x.currentBatsmen && r.battingOrder == x.battingOrder && r.wickets == x.wickets
  {
    var rolled := RollOver(inn);
    var added := CricketOver.AddBall(rolled.currentOver, b);
    assert added.ok;
    var next := rolled.(currentOver := added.state);
    var recorded := RecordBall(next, b);
    before := if b.batsman in recorded.battingOrder then recorded
              else recorded.(battingOrder := recorded.battingOrder + [b.batsman]);
    assert UpdateBattingOrder(recorded, b) == RotateBatsmen(before);
  }

  /** The wicket step on its own: slot 0 is refilled with the next batsman
      while fewer than ten wickets are down, and nothing else moves. */
  lemma RotateBatsmenFillsSlotZero(x: Innings)
    ensures var r := RotateBatsmen(x);
      && r.battingOrder == x.battingOrder && r.wickets == x.wickets
      && r.battingTeam == x.battingTeam
      && |r.currentBatsmen| == |x.currentBatsmen|
      && (forall i :: 1 <= i < |x.currentBatsmen| ==> r.currentBatsmen[i] == x.currentBatsmen[i])
      && (|x.currentBatsmen| > 0 && r.currentBatsmen[0] != x.currentBatsmen[0] ==>
            x.wickets < 10 && IsNextBatsman(x.battingTeam.players, x.battingOrder, r.currentBatsmen[0]))
      && (|x.currentBatsmen| > 0 && x.wickets < 10
          && FirstUnbatted(x.battingTeam.players, x.battingOrder).Some? ==>
            IsNextBatsman(x.battingTeam.players, x.battingOrder, r.currentBatsmen[0]))
  {
    var r := RotateBatsmen(x);
    if |x.currentBatsmen| > 0 && x.wickets < 10 {
      match FirstUnbatted(x.battingTeam.players, x.battingOrder)
      case None =>
      case Some(i) =>
        assert r.currentBatsmen[0] == x.battingTeam.players[i].id;
    }
  }

  /** Without a wicket the pair swaps ends exactly on a positive odd total. */
  lemma StrikeSwapsOnOddTotal(inn: Innings, b: Ball)
    requires inn.state == InningsInProgress && !b.isWicket
    ensures var r := AddBall(inn, b).state;
      r.currentBatsmen == if ResultRuns(b) > 0 && ResultRuns(b) % 2 == 1
                          then Reverse(inn.currentBatsmen) else inn.currentBatsmen
  {
  }

  /** The invariant every innings built by `NewInnings` and `AddBall` keeps. */
  predicate Valid(inn: Innings)
  {
    && inn.wickets == inn.score.wickets
    && 0 <= inn.wickets <= 10
    && (inn.wickets == 10 ==> inn.state == InningsCompleted)
    && NoDuplicates(inn.battingOrder)
    && (forall i :: 0 <= i < |inn.overs| ==> IsComplete(inn.overs[i]) && inn.overs[i].overNumber == i)
    && inn.currentOver.overNumber == |inn.overs|
    && |inn.currentOver.balls| <= MaxBalls
    && (|inn.overs| > 0 ==> |inn.currentOver.balls| >= 1)
    && 0 <= inn.score.balls < BallsPerOver && inn.score.overs >= 0
    && BallsBowled(inn.score) == MaxBalls * |inn.overs| + |inn.currentOver.balls|
  }

  lemma AddBallPreservesValid(inn: Innings, b: Ball)
    requires Valid(inn)
    ensures Valid(AddBall(inn, b).state)
  {
    if inn.state == InningsInProgress {
      AddBallPlacesDelivery(inn, b);
      AddBallRecordsStriker(inn, b);
      var r := AddBall(inn, b).state;
      if IsComplete(inn.currentOver) {
        forall i | 0 <= i < |r.overs|
          ensures IsComplete(r.overs[i]) && r.overs[i].overNumber == i
        {
          if i < |inn.overs| { assert r.overs[i] == inn.overs[i]; }
        }
      }
    }
  }

  /** Overs archived after n accepted deliveries: (n - 1) / 6. */
  lemma ArchivedOvers(inn: Innings)
    requires Valid(inn) && BallsBowled(inn.score) >= 1
    ensures |inn.overs| == (BallsBowled(inn.score) - 1) / MaxBalls
  {
  }

  /** `getOvers` counts the deliveries taken, in whole overs. */
  lemma OversBowledCountsDeliveries(inn: Innings)
    requires Valid(inn)
    ensures OversBowled(inn) == BallsBowled(inn.score) / MaxBalls
  {
  }

  /** An in-progress innings with nine wickets down is closed by the next
      wicket, whatever over it falls in. */
  lemma TenthWicketCompletes(inn: Innings, b: Ball)
    requires Valid(inn) && inn.state == InningsInProgress && inn.wickets == 9 && b.isWicket
    ensures AddBall(inn, b).ok
    ensures AddBall(inn, b).state.state == InningsCompleted
    ensures AddBall(inn, b).state.wickets == 10
  {
  }

  /** In an over-limited chase-free innings with no wickets, every delivery
      is taken and the innings closes exactly when the over limit is
      reached: all 6 * maxOvers deliveries, and not one earlier. */
  lemma {:induction false} OverLimitCloses(batting: Team, bowling: Team, m: int, bs: seq<Ball>)
    requires m >= 1 && |bs| <= MaxBalls * m
    requires forall i :: 0 <= i < |bs| ==> !bs[i].isWicket
    ensures var f := Feed(NewInnings(batting, bowling, Some(m), None), bs);
      && Valid(f)
      && f.score == ScoreAfter(ZeroScore, bs)
      && f.wickets == 0
      && f.maxOvers == Some(m) && f.targetScore == None
      && (f.state == InningsCompleted <==> |bs| == MaxBalls * m)
  {
    var inn0 := NewInnings(batting, bowling, Some(m), None);
    if |bs| > 0 {
      var init := bs[..|bs| - 1];
      OverLimitCloses(batting, bowling, m, init);
      var f0 := Feed(inn0, init);
      var b := bs[|bs| - 1];
      AddBallPreservesValid(f0, b);
      var f := AddBall(f0, b).state;
      assert BallsBowled(f0.score) == |init| by {
        ScoreFoldIsDirect(init);
      }
      assert f0.state == InningsInProgress;
      assert BallsBowled(f.score) == |bs|;
      OversBowledCountsDeliveries(f);
      ScoreFoldIsDirect(bs);
      assert |bs| / MaxBalls >= m <==> |bs| == MaxBalls * m;
      assert CompletionDue(f) <==> OversBowled(f) >= m;
    }
  }

  /** The T20 scenario: 120 one-run deliveries without a wicket close a
      20-over innings at 120 for 0 after exactly 20 overs. */
  lemma T20InningsOfSingles(batting: Team, bowling: Team, bs: seq<Ball>)
    requires |bs| == 120
    requires forall i :: 0 <= i < |bs| ==> !bs[i].isWicket && ResultRuns(bs[i]) == 1
    ensures var f := Feed(NewInnings(batting, bowling, Some(20), None), bs);
      f.state == InningsCompleted && f.score == Score(120, 0, 20, 0)
  {
    OverLimitCloses(batting, bowling, 20, bs);
    ScoreFoldIsDirect(bs);
    RunsOfSingles(bs);
  }

  lemma {:induction false} RunsOfSingles(bs: seq<Ball>)
    requires forall i :: 0 <= i < |bs| ==> !bs[i].isWicket && ResultRuns(bs[i]) == 1
    ensures TotalRuns(bs) == |bs| && WicketCount(bs) == 0
  {
    if |bs| > 0 {
      RunsOfSingles(bs[..|bs| - 1]);
    }
  }
}
