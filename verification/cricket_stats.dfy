/** `StatsManager`: per-player career statistics, updated from every
    delivery. The source keys a JavaScript `Map` by player object; here the
    key is the player's id and the `Map`'s insertion order is kept by an
    association list (module OrderedMap), because the leader boards scan it
    in that order. */
module CricketStats {
  import opened Wrappers
  import opened CricketTypes
  import OM = OrderedMap

  datatype MatchTypeStats = MatchTypeStats(runs: int, wickets: int, matches: int, centuries: int, halfCenturies: int)

  datatype PlayerStats = PlayerStats(
    totalRuns: int,
    totalWickets: int,
    centuries: int,
    halfCenturies: int,
    matches: int,
    matchTypeStats: map<MatchType, MatchTypeStats>)

  const NewStats: PlayerStats := PlayerStats(0, 0, 0, 0, 0, map[])

  /** `updateBattingStats`: the runs are added; a score of 100 or more
      counts as a century, otherwise 50 or more as a half-century. */
  function UpdateBattingStats(s: PlayerStats, runs: int): (r: PlayerStats)
    ensures r.totalRuns - s.totalRuns == runs
    ensures r.centuries + r.halfCenturies - s.centuries - s.halfCenturies == (if runs >= 50 then 1 else 0)
    ensures r.centuries - s.centuries == (if runs >= 100 then 1 else 0)
    ensures r.totalWickets == s.totalWickets && r.matches == s.matches && r.matchTypeStats == s.matchTypeStats
  {
    var s' := s.(totalRuns := s.totalRuns + runs);
    if runs >= 100 then s'.(centuries := s.centuries + 1)
    else if runs >= 50 then s'.(halfCenturies := s.halfCenturies + 1)
    else s'
  }

  /** `addWicket`. */
  function AddWicket(s: PlayerStats): (r: PlayerStats)
    ensures r.totalWickets == s.totalWickets + 1
    ensures r.(totalWickets := s.totalWickets) == s
  {
    s.(totalWickets := s.totalWickets + 1)
  }

  datatype StatsManager = StatsManager(playerStats: seq<(PlayerId, PlayerStats)>)

  const EmptyManager: StatsManager := StatsManager([])

  /** The statistics held for `p`, or fresh ones if there are none. */
  function StatsOf(m: StatsManager, p: PlayerId): PlayerStats
  {
    OM.Get(m.playerStats, p).GetOr(NewStats)
  }

  /** The side effect of `getOrCreatePlayerStats`: fresh statistics are
      inserted, at the end, for an unknown player. */
  function Touch(m: StatsManager, p: PlayerId): (r: StatsManager)
    ensures OM.HasKey(m.playerStats, p) ==> r == m
    ensures !OM.HasKey(m.playerStats, p) ==> OM.Keys(r.playerStats) == OM.Keys(m.playerStats) + [p]
  {
    if OM.HasKey(m.playerStats, p) then m
    else StatsManager(OM.Put(m.playerStats, p, NewStats))
  }

  lemma TouchGet(m: StatsManager, p: PlayerId, q: PlayerId)
    ensures OM.Get(Touch(m, p).playerStats, q) == if q == p then Some(StatsOf(m, p)) else OM.Get(m.playerStats, q)
  {
    if !OM.HasKey(m.playerStats, p) {
      OM.PutGet(m.playerStats, p, NewStats, q);
    }
  }

  /** `getOrCreatePlayerStats` / `getPlayerStats`: the player's statistics,
      creating fresh ones if needed, together with the updated manager. */
  function GetPlayerStats(m: StatsManager, p: PlayerId): (r: (StatsManager, PlayerStats))
    ensures OM.Get(r.0.playerStats, p) == Some(r.1)
    ensures OM.HasKey(m.playerStats, p) ==> r.0 == m && OM.Get(m.playerStats, p) == Some(r.1)
    ensures !OM.HasKey(m.playerStats, p) ==> r.1 == NewStats && r.0.playerStats == m.playerStats + [(p, NewStats)]
    ensures forall q :: q != p ==> OM.Get(r.0.playerStats, q) == OM.Get(m.playerStats, q)
  {
    var m' := Touch(m, p);
    forall q ensures OM.Get(m'.playerStats, q) == if q == p then Some(StatsOf(m, p)) else OM.Get(m.playerStats, q) {
      TouchGet(m, p, q);
    }
    (m', StatsOf(m, p))
  }

  /** What one delivery does to the statistics of player `q`: the batsman is
      credited with the delivery's runs, and the bowler with the wicket. When
      one player is both, both apply to the same record. */
  function Credit(s: PlayerStats, q: PlayerId, b: Ball): PlayerStats
  {
    var s' := if q == b.batsman then UpdateBattingStats(s, ResultRuns(b)) else s;
    if q == b.bowler && b.isWicket then AddWicket(s') else s'
  }

  /** `updateStats`: both players are looked up (and created, batsman
      first), then the batsman's record is credited, then the bowler's. */
  function UpdateStats(m: StatsManager, b: Ball): StatsManager
  {
    var m2 := Touch(Touch(m, b.batsman), b.bowler);
    var m3 := StatsManager(OM.Put(m2.playerStats, b.batsman, UpdateBattingStats(StatsOf(m2, b.batsman), ResultRuns(b))));
    if b.isWicket then StatsManager(OM.Put(m3.playerStats, b.bowler, AddWicket(StatsOf(m3, b.bowler))))
    else m3
  }

  /** A delivery changes the records of its batsman and its bowler, and of
      nobody else; each gets exactly its credit. */
  lemma UpdateStatsGet(m: StatsManager, b: Ball, q: PlayerId)
    ensures OM.Get(UpdateStats(m, b).playerStats, q)
      == if q == b.batsman || q == b.bowler then Some(Credit(StatsOf(m, q), q, b)) else OM.Get(m.playerStats, q)
  {
    var m1 := Touch(m, b.batsman);
    var m2 := Touch(m1, b.bowler);
    var bat := UpdateBattingStats(StatsOf(m2, b.batsman), ResultRuns(b));
    var m3 := StatsManager(OM.Put(m2.playerStats, b.batsman, bat));
    TouchGet(m, b.batsman, q);
    TouchGet(m1, b.bowler, q);
    TouchGet(m, b.batsman, b.bowler);
    TouchGet(m1, b.bowler, b.batsman);
    OM.PutGet(m2.playerStats, b.batsman, bat, q);
    if b.isWicket {
      OM.PutGet(m2.playerStats, b.batsman, bat, b.bowler);
      OM.PutGet(m3.playerStats, b.bowler, AddWicket(StatsOf(m3, b.bowler)), q);
    }
  }

  /** A delivery registers its batsman and then its bowler, at the end and
      only if new; no key is ever dropped or repeated. */
  lemma UpdateStatsKeys(m: StatsManager, b: Ball)
    requires OM.DistinctKeys(m.playerStats)
    ensures OM.DistinctKeys(UpdateStats(m, b).playerStats)
    ensures OM.Keys(UpdateStats(m, b).playerStats) == OM.Keys(Touch(Touch(m, b.batsman), b.bowler).playerStats)
  {
    var m1 := Touch(m, b.batsman);
    var m2 := Touch(m1, b.bowler);
    OM.PutDistinct(m.playerStats, b.batsman, NewStats);
    OM.PutDistinct(m1.playerStats, b.bowler, NewStats);
    var bat := UpdateBattingStats(StatsOf(m2, b.batsman), ResultRuns(b));
    var m3 := StatsManager(OM.Put(m2.playerStats, b.batsman, bat));
    TouchGet(m, b.batsman, b.batsman);
    TouchGet(m1, b.bowler, b.batsman);
    OM.PutDistinct(m2.playerStats, b.batsman, bat);
    if b.isWicket {
      OM.PutGet(m2.playerStats, b.batsman, bat, b.bowler);
      TouchGet(m1, b.bowler, b.bowler);
      OM.PutDistinct(m3.playerStats, b.bowler, AddWicket(StatsOf(m3, b.bowler)));
    }
  }

  /** The manager after observing every delivery of `bs`, oldest first. */
  function Replay(bs: seq<Ball>): StatsManager
  {
    if |bs| == 0 then EmptyManager else UpdateStats(Replay(bs[..|bs| - 1]), bs[|bs| - 1])
  }

  /** Independent reference: the statistics of `q` read straight off the
      delivery list. */
  predicate Involved(bs: seq<Ball>, q: PlayerId)
  {
    exists i :: 0 <= i < |bs| && (bs[i].batsman == q || bs[i].bowler == q)
  }

  function RunsScored(bs: seq<Ball>, q: PlayerId): int
  {
    if |bs| == 0 then 0
    else RunsScored(bs[..|bs| - 1], q) + (if bs[|bs| - 1].batsman == q then ResultRuns(bs[|bs| - 1]) else 0)
  }

  function WicketsTaken(bs: seq<Ball>, q: PlayerId): int
  {
    if |bs| == 0 then 0
    else WicketsTaken(bs[..|bs| - 1], q) + (if bs[|bs| - 1].bowler == q && bs[|bs| - 1].isWicket then 1 else 0)
  }

  /** Deliveries faced by `q` worth at least `lo` and less than `hi` runs. */
  function DeliveriesWorth(bs: seq<Ball>, q: PlayerId, lo: int, hi: Option<int>): int
  {
    if |bs| == 0 then 0
    else
      var b := bs[|bs| - 1];
      DeliveriesWorth(bs[..|bs| - 1], q, lo, hi)
      + (if b.batsman == q && ResultRuns(b) >= lo && (hi.None? || ResultRuns(b) < hi.value) then 1 else 0)
  }

  function DirectStats(bs: seq<Ball>, q: PlayerId): PlayerStats
  {
    PlayerStats(RunsScored(bs, q), WicketsTaken(bs, q),
                DeliveriesWorth(bs, q, 100, None), DeliveriesWorth(bs, q, 50, Some(100)), 0, map[])
  }

  /** After any sequence of deliveries the manager holds a record for
      exactly the players involved, and each record equals the totals read
      straight off the deliveries: runs faced, wickets taken, and centuries
      and half-centuries counted per delivery. `matches` and the per-format
      table are never touched. */
  lemma {:induction false} ReplayMatchesDirect(bs: seq<Ball>, q: PlayerId)
    ensures OM.Get(Replay(bs).playerStats, q) == if Involved(bs, q) then Some(DirectStats(bs, q)) else None
  {
    if |bs| > 0 {
      var init := bs[..|bs| - 1];
      var b := bs[|bs| - 1];
      ReplayMatchesDirect(init, q);
      UpdateStatsGet(Replay(init), b, q);
      InvolvedSnoc(bs, q);
      DirectStep(bs, q);
      if !Involved(init, q) {
        NotInvolvedZero(init, q);
      }
    }
  }

  lemma InvolvedSnoc(bs: seq<Ball>, q: PlayerId)
    requires |bs| > 0
    ensures Involved(bs, q) <==> Involved(bs[..|bs| - 1], q) || bs[|bs| - 1].batsman == q || bs[|bs| - 1].bowler == q
  {
  }

  /** One more delivery changes the reference statistics by its credit. */
  lemma DirectStep(bs: seq<Ball>, q: PlayerId)
    requires |bs| > 0
    ensures DirectStats(bs, q) == Credit(DirectStats(bs[..|bs| - 1], q), q, bs[|bs| - 1])
  {
  }

  lemma {:induction false} NotInvolvedZero(bs: seq<Ball>, q: PlayerId)
    requires !Involved(bs, q)
    ensures DirectStats(bs, q) == NewStats
  {
    if |bs| > 0 {
      InvolvedSnoc(bs, q);
      NotInvolvedZero(bs[..|bs| - 1], q);
      DirectStep(bs, q);
    }
  }

  /** Replayed managers never repeat a player. */
  lemma {:induction false} ReplayDistinct(bs: seq<Ball>)
    ensures OM.DistinctKeys(Replay(bs).playerStats)
  {
    if |bs| > 0 {
      ReplayDistinct(bs[..|bs| - 1]);
      UpdateStatsKeys(Replay(bs[..|bs| - 1]), bs[|bs| - 1]);
    }
  }

  /** `getHighestWicketTaker`: scanning in insertion order, the first player
      whose wicket count strictly beats every earlier one, starting from 0.
      Fails ("No players found") when nobody has a positive count. */
  method HighestWicketTaker(m: StatsManager) returns (r: Result<PlayerId, string>)
    ensures r.Err? <==> forall j :: 0 <= j < |m.playerStats| ==> m.playerStats[j].1.totalWickets <= 0
    ensures r.Ok? ==> exists i :: (0 <= i < |m.playerStats| && m.playerStats[i].0 == r.value
      && m.playerStats[i].1.totalWickets > 0
      && (forall j :: 0 <= j < |m.playerStats| ==> m.playerStats[j].1.totalWickets <= m.playerStats[i].1.totalWickets)
      && (forall j :: 0 <= j < i ==> m.playerStats[j].1.totalWickets < m.playerStats[i].1.totalWickets))
  {
    var t := m.playerStats;
    var maxWickets := 0;
    var best: Option<nat> := None;
    var k := 0;
    while k < |t|
      invariant 0 <= k <= |t|
      invariant best.None? ==> maxWickets == 0 && forall j :: 0 <= j < k ==> t[j].1.totalWickets <= 0
      invariant best.Some? ==> best.value < k && t[best.value].1.totalWickets == maxWickets > 0
      invariant best.Some? ==> forall j :: 0 <= j < k ==> t[j].1.totalWickets <= maxWickets
      invariant best.Some? ==> forall j :: 0 <= j < best.value ==> t[j].1.totalWickets < maxWickets
    {
      if t[k].1.totalWickets > maxWickets {
        maxWickets := t[k].1.totalWickets;
        best := Some(k);
      }
      k := k + 1;
    }
    if best.None? {
      r := Err("No players found");
    } else {
      r := Ok(t[best.value].0);
    }
  }

  /** The centuries of a record in one format, when the format is present. */
  predicate HasFormatCenturies(s: PlayerStats, mt: MatchType)
  {
    mt in s.matchTypeStats && s.matchTypeStats[mt].centuries > 0
  }

  /** `getHighestCenturyScorer`: like the wicket board, but over the
      per-format century counts; records without the format are skipped. */
  method HighestCenturyScorer(m: StatsManager, mt: MatchType) returns (r: Result<PlayerId, string>)
    ensures r.Err? <==> forall j :: 0 <= j < |m.playerStats| ==> !HasFormatCenturies(m.playerStats[j].1, mt)
    ensures r.Ok? ==> exists i :: (0 <= i < |m.playerStats| && m.playerStats[i].0 == r.value
      && HasFormatCenturies(m.playerStats[i].1, mt)
      && (forall j :: 0 <= j < |m.playerStats| && mt in m.playerStats[j].1.matchTypeStats ==>
            m.playerStats[j].1.matchTypeStats[mt].centuries <= m.playerStats[i].1.matchTypeStats[mt].centuries)
      && (forall j :: 0 <= j < i && mt in m.playerStats[j].1.matchTypeStats ==>
            m.playerStats[j].1.matchTypeStats[mt].centuries < m.playerStats[i].1.matchTypeStats[mt].centuries))
  {
    var t := m.playerStats;
    var maxCenturies := 0;
    var best: Option<nat> := None;
    var k := 0;
    while k < |t|
      invariant 0 <= k <= |t|
      invariant best.None? ==> maxCenturies == 0 && forall j :: 0 <= j < k ==> !HasFormatCenturies(t[j].1, mt)
      invariant best.Some? ==> best.value < k && HasFormatCenturies(t[best.value].1, mt)
                               && t[best.value].1.matchTypeStats[mt].centuries == maxCenturies
      invariant forall j :: 0 <= j < k && mt in t[j].1.matchTypeStats ==> t[j].1.matchTypeStats[mt].centuries <= maxCenturies
      invariant best.Some? ==> forall j :: 0 <= j < best.value && mt in t[j].1.matchTypeStats ==>
                                 t[j].1.matchTypeStats[mt].centuries < maxCenturies
    {
      if mt in t[k].1.matchTypeStats && t[k].1.matchTypeStats[mt].centuries > maxCenturies {
        maxCenturies := t[k].1.matchTypeStats[mt].centuries;
        best := Some(k);
      }
      k := k + 1;
    }
    if best.None? {
      r := Err("No players found");
    } else {
      r := Ok(t[best.value].0);
    }
  }

  /** Nothing ever fills the per-format table, so on any manager built from
      deliveries the century board has nobody to report. */
  lemma ReplayHasNoFormatCenturies(bs: seq<Ball>, mt: MatchType)
    ensures forall j :: 0 <= j < |Replay(bs).playerStats| ==> !HasFormatCenturies(Replay(bs).playerStats[j].1, mt)
  {
    var t := Replay(bs).playerStats;
    ReplayDistinct(bs);
    forall j | 0 <= j < |t| ensures !HasFormatCenturies(t[j].1, mt) {
      ReplayMatchesDirect(bs, t[j].0);
    }
  }
}
