/** `Match` and its three formats, the factory that builds them, team
    results and tournaments.

    A match moves NotStarted -> InProgress (`startMatch`) and to Completed
    from any state (`endMatch`); `Abandoned` is declared but never entered.
    Each accepted delivery is folded into the current innings, into the
    match's own `currentScore`, into the match's `StatsManager`, and is
    announced to every observer in registration order. Only `startMatch`
    opens an innings, so a match never has more than one. */
module CricketMatch {
  import opened Wrappers
  import opened CricketTypes
  import opened CricketScore
  import opened CricketTeam
  import opened CricketInnings
  import opened CricketStats
  import OM = OrderedMap

  /** The subclass of a match; a Test match carries its day counter. */
  datatype MatchKind = T20Match | ODIMatch | TestMatch(currentDay: int)

  const MaxDays: int := 5

  /** Observers are identified, not run: a notification records who is
      told about which delivery. */
  type ObserverId = nat
  type UmpireId = nat

  datatype Notification = Notification(observer: ObserverId, ball: Ball)

  datatype Match = Match(
    kind: MatchKind,
    team1: Team,
    team2: Team,
    umpires: seq<UmpireId>,
    stadium: StadiumRef,
    totalOvers: Option<int>,
    currentScore: Score,
    balls: seq<Ball>,
    observers: seq<ObserverId>,
    stats: StatsManager,
    state: MatchState,
    innings: seq<Innings>)

  /** The errors the source throws. */
  datatype MatchError =
    | NotInProgress        // "Match is not in progress"
    | NoInnings            // "No innings in progress"
    | BallRefused          // "Cannot add ball to current innings"
    | AlreadyStarted       // "Match can only be started from NOT_STARTED state"
    | InvalidMatchType     // "Invalid match type"

  /** The result of a successful `addBall`: the new match and the
      `update(ball)` calls made, in order. */
  datatype Delivered = Delivered(next: Match, notified: seq<Notification>)

  /** `currentInnings`: the innings most recently opened. */
  function CurrentInnings(m: Match): Option<Innings>
  {
    if |m.innings| == 0 then None else Some(m.innings[|m.innings| - 1])
  }

  /** The base constructor, shared by the three formats. */
  function NewMatch(kind: MatchKind, team1: Team, team2: Team, umpires: seq<UmpireId>,
                    stadium: StadiumRef, totalOvers: Option<int>): Match
  {
    Match(kind, team1, team2, umpires, stadium, totalOvers, ZeroScore, [], [], EmptyManager, NotStarted, [])
  }

  /** The over limit each format passes to the base constructor. */
  function FormatOvers(kind: MatchKind): Option<int>
  {
    match kind
    case T20Match => Some(20)
    case ODIMatch => Some(50)
    case TestMatch(_) => None
  }

  /** The numeric value of the `MatchType` enum. */
  function MatchTypeCode(t: MatchType): int
  {
    match t
    case ODI => 0
    case TEST => 1
    case T20 => 2
  }

  /** `MatchFactory.createMatch`, on the numeric enum value the switch
      inspects: T20 has 20 overs, ODI 50, a Test none and starts on day 1;
      any other value throws. */
  function CreateMatch(code: int, team1: Team, team2: Team, umpires: seq<UmpireId>, stadium: StadiumRef)
    : (r: Result<Match, MatchError>)
    ensures r.Err? <==> !(0 <= code <= 2)
    ensures r.Err? ==> r.error == InvalidMatchType
    ensures r.Ok? ==> r.value.state == NotStarted && r.value.innings == [] && r.value.balls == []
    ensures r.Ok? ==> r.value.team1 == team1 && r.value.team2 == team2
    ensures code == MatchTypeCode(T20) ==> r.Ok? && r.value.kind == T20Match && r.value.totalOvers == Some(20)
    ensures code == MatchTypeCode(ODI) ==> r.Ok? && r.value.kind == ODIMatch && r.value.totalOvers == Some(50)
    ensures code == MatchTypeCode(TEST) ==> r.Ok? && r.value.kind == TestMatch(1) && r.value.totalOvers == None
  {
    if code == MatchTypeCode(T20) then Ok(NewMatch(T20Match, team1, team2, umpires, stadium, FormatOvers(T20Match)))
    else if code == MatchTypeCode(ODI) then Ok(NewMatch(ODIMatch, team1, team2, umpires, stadium, FormatOvers(ODIMatch)))
    else if code == MatchTypeCode(TEST) then Ok(NewMatch(TestMatch(1), team1, team2, umpires, stadium, FormatOvers(TestMatch(1))))
    else Err(InvalidMatchType)
  }

  /** `validateMatchRules` of each format. */
  predicate ValidateMatchRules(m: Match)
  {
    match m.kind
    case T20Match => m.totalOvers == Some(20)
    case ODIMatch => m.totalOvers == Some(50)
    case TestMatch(day) => day <= MaxDays
  }

  /** `addObserver`: registration order is kept, repeats included. */
  function AddObserver(m: Match, o: ObserverId): (r: Match)
    ensures r.observers == m.observers + [o]
    ensures r == m.(observers := r.observers)
  {
    m.(observers := m.observers + [o])
  }

  /** `notifyObservers`: one `update(ball)` per registered observer, in
      registration order. */
  function Notify(observers: seq<ObserverId>, b: Ball): (ns: seq<Notification>)
    ensures |ns| == |observers|
    ensures forall i :: 0 <= i < |observers| ==> ns[i] == Notification(observers[i], b)
  {
    seq(|observers|, i requires 0 <= i < |observers| => Notification(observers[i], b))
  }

  /** `addBall`: the three guards, in the source's order; on success the
      innings, the ball list, the match score and the statistics move
      together. */
  function AddBall(m: Match, b: Ball): (r: Result<Delivered, MatchError>)
    ensures m.state != InProgress ==> r == Err(NotInProgress)
    ensures m.state == InProgress && |m.innings| == 0 ==> r == Err(NoInnings)
    ensures m.state == InProgress && |m.innings| > 0 ==>
              (r.Err? <==> m.innings[|m.innings| - 1].state == InningsCompleted)
    ensures r.Err? && m.state == InProgress && |m.innings| > 0 ==> r.error == BallRefused
    ensures r.Ok? ==> r.value.next.balls == m.balls + [b]
    ensures r.Ok? ==> r.value.next.currentScore == UpdateScore(m.currentScore, b)
    ensures r.Ok? ==> r.value.next.stats == UpdateStats(m.stats, b)
    ensures r.Ok? ==> |r.value.next.innings| == |m.innings|
                      && r.value.next.innings[..|m.innings| - 1] == m.innings[..|m.innings| - 1]
                      && CurrentInnings(r.value.next) == Some(CricketInnings.AddBall(m.innings[|m.innings| - 1], b).state)
    ensures r.Ok? ==> r.value.notified == Notify(m.observers, b)
    ensures r.Ok? ==> r.value.next.state == m.state && r.value.next.observers == m.observers
                      && r.value.next.kind == m.kind && r.value.next.totalOvers == m.totalOvers
  {
    if m.state != InProgress then Err(NotInProgress)
    else if |m.innings| == 0 then Err(NoInnings)
    else
      var last := |m.innings| - 1;
      var step := CricketInnings.AddBall(m.innings[last], b);
      if !step.ok then Err(BallRefused)
      else
        Ok(Delivered(
          m.(innings := m.innings[last := step.state],
             balls := m.balls + [b],
             currentScore := UpdateScore(m.currentScore, b),
             stats := UpdateStats(m.stats, b)),
          Notify(m.observers, b)))
  }

  /** `startMatch` with `startNewInnings(team1, team2)`: team1 bats, team2
      bowls, the innings gets the format's over limit, and a target only if
      an earlier innings exists. */
  function StartMatch(m: Match): (r: Result<Match, MatchError>)
    ensures r.Ok? <==> m.state == NotStarted
    ensures r.Err? ==> r.error == AlreadyStarted
    ensures r.Ok? ==> r.value.state == InProgress
    ensures r.Ok? ==> r.value.innings == m.innings + [NewInnings(m.team1, m.team2, m.totalOvers,
                        if |m.innings| > 0 then Some(m.innings[0].score.runs + 1) else None)]
    ensures r.Ok? ==> r.value == m.(state := InProgress, innings := r.value.innings)
  {
    if m.state != NotStarted then Err(AlreadyStarted)
    else
      var target := if |m.innings| > 0 then Some(m.innings[0].score.runs + 1) else None;
      Ok(m.(state := InProgress, innings := m.innings + [NewInnings(m.team1, m.team2, m.totalOvers, target)]))
  }

  /** `endMatch`: Completed from any state, nothing else touched. */
  function EndMatch(m: Match): (r: Match)
    ensures r.state == Completed
    ensures r == m.(state := Completed)
  {
    m.(state := Completed)
  }

  /** `TestMatch.nextDay`: another day while fewer than five have been
      played, otherwise the match ends. */
  function NextDay(m: Match): (r: Match)
    requires m.kind.TestMatch?
    ensures r.kind.TestMatch?
    ensures m.kind.currentDay < MaxDays ==> r == m.(kind := TestMatch(m.kind.currentDay + 1))
    ensures m.kind.currentDay >= MaxDays ==> r == EndMatch(m)
  {
    if m.kind.currentDay < MaxDays then m.(kind := TestMatch(m.kind.currentDay + 1))
    else EndMatch(m)
  }

  /** Calling `nextDay` k times on a fresh Test match. */
  function Days(m: Match, k: nat): (r: Match)
    requires m.kind.TestMatch?
    ensures r.kind.TestMatch?
  {
    if k == 0 then m else NextDay(Days(m, k - 1))
  }

  /** A Test match started on day 1 is on day min(1 + k, 5) after k calls of
      `nextDay`, is ended by the fifth call and never fails its rules. */
  lemma {:induction false} TestDayCounter(m: Match, k: nat)
    requires m.kind == TestMatch(1)
    ensures Days(m, k).kind.currentDay == if 1 + k < MaxDays then 1 + k else MaxDays
    ensures ValidateMatchRules(Days(m, k))
    ensures k >= MaxDays ==> Days(m, k).state == Completed
    ensures k < MaxDays ==> Days(m, k).state == m.state
  {
    if k > 0 {
      TestDayCounter(m, k - 1);
    }
  }

  /** Every match the factory builds passes its format's rule check. */
  lemma CreatedMatchesAreValid(code: int, team1: Team, team2: Team, umpires: seq<UmpireId>, stadium: StadiumRef)
    requires CreateMatch(code, team1, team2, umpires, stadium).Ok?
    ensures ValidateMatchRules(CreateMatch(code, team1, team2, umpires, stadium).value)
    ensures Valid(CreateMatch(code, team1, team2, umpires, stadium).value)
  {
  }

  /** What holds of every match built by the factory and driven by the
      operations above. */
  predicate Valid(m: Match)
  {
    && (m.state == NotStarted ==> m.innings == [])
    && |m.innings| <= 1
    && (|m.innings| == 0 ==> m.balls == [])
    && (forall i :: 0 <= i < |m.innings| ==>
          CricketInnings.Valid(m.innings[i]) && m.innings[i].targetScore == None
          && m.innings[i].battingTeam == m.team1 && m.innings[i].bowlingTeam == m.team2
          && m.innings[i].maxOvers == m.totalOvers
          && m.innings[i].score == m.currentScore)
    && m.currentScore == ScoreAfter(ZeroScore, m.balls)
    && m.stats == Replay(m.balls)
    && (m.kind.TestMatch? ==> m.kind.currentDay <= MaxDays)
  }

  lemma StartMatchPreservesValid(m: Match)
    requires Valid(m) && StartMatch(m).Ok?
    ensures Valid(StartMatch(m).value)
  {
  }

  lemma EndMatchPreservesValid(m: Match)
    requires Valid(m)
    ensures Valid(EndMatch(m))
  {
  }

  lemma NextDayPreservesValid(m: Match)
    requires Valid(m) && m.kind.TestMatch?
    ensures Valid(NextDay(m))
  {
  }

  lemma AddObserverPreservesValid(m: Match, o: ObserverId)
    requires Valid(m)
    ensures Valid(AddObserver(m, o))
  {
  }

  lemma AddBallPreservesValid(m: Match, b: Ball)
    requires Valid(m) && AddBall(m, b).Ok?
    ensures Valid(AddBall(m, b).value.next)
  {
    var inn := m.innings[0];
    var inn' := CricketInnings.AddBall(inn, b).state;
    var r := AddBall(m, b).value.next;
    CricketInnings.AddBallPreservesValid(inn, b);
    assert r.innings == [inn'];
    ScoreAfterConcat(ZeroScore, m.balls, [b]);
    assert [b][..0] == [];
    assert r.currentScore == ScoreAfter(ZeroScore, r.balls);
    assert inn'.score == r.currentScore;
    var bs := m.balls + [b];
    assert bs[..|bs| - 1] == m.balls;
    assert r.stats == Replay(r.balls);
  }

  /** In a valid match the one innings and the match agree on the score,
      and both equal the runs, wickets and balls read straight off the
      accepted deliveries; every player's record equals the totals read
      straight off them too. */
  lemma MatchTotals(m: Match, q: PlayerId)
    requires Valid(m)
    ensures m.currentScore == Score(TotalRuns(m.balls), WicketCount(m.balls),
                                    |m.balls| / BallsPerOver, |m.balls| % BallsPerOver)
    ensures CurrentInnings(m).Some? ==> CurrentInnings(m).value.score == m.currentScore
    ensures OM.Get(m.stats.playerStats, q) == if Involved(m.balls, q) then Some(DirectStats(m.balls, q)) else None
  {
    ScoreFoldIsDirect(m.balls);
    ReplayMatchesDirect(m.balls, q);
  }

  /** A refused delivery leaves the match as it was (the error result
      carries no new state), and a started match never gets a second
      innings: once InProgress, `startMatch` fails. */
  lemma NoSecondInnings(m: Match)
    requires Valid(m) && m.state != NotStarted
    ensures StartMatch(m) == Err(AlreadyStarted)
    ensures |m.innings| <= 1
    ensures CurrentInnings(m).Some? ==> CurrentInnings(m).value.targetScore == None
  {
  }

  // ---------------------------------------------------------------- TeamStats

  datatype TeamStats = TeamStats(
    matchesPlayed: int,
    matchesWon: int,
    matchesLost: int,
    matchesDrawn: int,
    totalRuns: int,
    totalWickets: int)

  const NewTeamStats: TeamStats := TeamStats(0, 0, 0, 0, 0, 0)

  predicate Balanced(ts: TeamStats)
  {
    ts.matchesWon + ts.matchesLost + ts.matchesDrawn == ts.matchesPlayed
    && ts.matchesWon >= 0 && ts.matchesLost >= 0 && ts.matchesDrawn >= 0
  }

  /** `TeamStats.updateStats`: a win, else a loss if the match is
      completed, else a draw. */
  function UpdateTeamStats(ts: TeamStats, matchState: MatchState, isWinner: bool): (r: TeamStats)
    ensures r.matchesPlayed == ts.matchesPlayed + 1
    ensures r.matchesWon - ts.matchesWon == (if isWinner then 1 else 0)
    ensures r.matchesLost - ts.matchesLost == (if !isWinner && matchState == Completed then 1 else 0)
    ensures r.matchesDrawn - ts.matchesDrawn == (if !isWinner && matchState != Completed then 1 else 0)
    ensures r.totalRuns == ts.totalRuns && r.totalWickets == ts.totalWickets
  {
    var played := ts.(matchesPlayed := ts.matchesPlayed + 1);
    if isWinner then played.(matchesWon := ts.matchesWon + 1)
    else if matchState == Completed then played.(matchesLost := ts.matchesLost + 1)
    else played.(matchesDrawn := ts.matchesDrawn + 1)
  }

  /** Won + lost + drawn always equals played. */
  lemma UpdateTeamStatsBalanced(ts: TeamStats, matchState: MatchState, isWinner: bool)
    requires Balanced(ts)
    ensures Balanced(UpdateTeamStats(ts, matchState, isWinner))
  {
  }

  // --------------------------------------------------------------- Tournament

  datatype Tournament = Tournament(
    name: string,
    startDate: int,
    endDate: int,
    matchType: MatchType,
    matches: seq<Match>,
    teams: seq<(TeamRef, seq<Player>)>,
    stats: StatsManager)

  const MinSquadSize: int := 15

  function NewTournament(name: string, startDate: int, endDate: int, matchType: MatchType): Tournament
  {
    Tournament(name, startDate, endDate, matchType, [], [], EmptyManager)
  }

  /** `addTeamSquad`: refused below fifteen players, otherwise the squad is
      set for the team, replacing any earlier one. Membership of the team is
      not checked. */
  function AddTeamSquad(t: Tournament, team: TeamRef, squad: seq<Player>): (r: Step<Tournament>)
    ensures r.ok <==> |squad| >= MinSquadSize
    ensures !r.ok ==> r.state == t
    ensures r.ok ==> OM.Get(r.state.teams, team) == Some(squad)
    ensures r.ok ==> forall other :: other != team ==> OM.Get(r.state.teams, other) == OM.Get(t.teams, other)
    ensures r.state == t.(teams := r.state.teams)
  {
    if |squad| < MinSquadSize then Step(false, t)
    else
      var teams' := OM.Put(t.teams, team, squad);
      forall other ensures OM.Get(teams', other) == if other == team then Some(squad) else OM.Get(t.teams, other) {
        OM.PutGet(t.teams, team, squad, other);
      }
      Step(true, t.(teams := teams'))
  }

  /** `addMatch`: appended. */
  function AddMatch(t: Tournament, m: Match): (r: Tournament)
    ensures r.matches == t.matches + [m]
    ensures r == t.(matches := r.matches)
  {
    t.(matches := t.matches + [m])
  }

  /** Every squad a tournament holds has at least fifteen players. */
  predicate SquadsFull(t: Tournament)
  {
    forall i :: 0 <= i < |t.teams| ==> |t.teams[i].1| >= MinSquadSize
  }

  lemma AddTeamSquadKeepsSquadsFull(t: Tournament, team: TeamRef, squad: seq<Player>)
    requires SquadsFull(t)
    ensures SquadsFull(AddTeamSquad(t, team, squad).state)
  {
  }
}
