/** `Team`: a named roster with captain and vice-captain, and the roster
    guards that accept or refuse changes to it. */
module CricketTeam {
  import opened Wrappers
  import opened Seqs
  import opened CricketTypes

  /** Object identity of a team and of a stadium. */
  type TeamRef = nat
  type StadiumRef = nat

  datatype Team = Team(
    ref: TeamRef,
    name: string,
    players: seq<Player>,
    captain: Player,
    viceCaptain: Player,
    coach: string,
    homeGround: Option<StadiumRef>)

  /** `players.includes(p)`: the same player object is on the list. */
  predicate Includes(ps: seq<Player>, p: Player)
  {
    exists i :: 0 <= i < |ps| && ps[i].id == p.id
  }

  /** `players.indexOf(p)` for a player that is on the list. */
  function IndexOfPlayer(ps: seq<Player>, p: Player): (i: nat)
    requires Includes(ps, p)
    ensures i < |ps| && ps[i].id == p.id
    ensures forall j :: 0 <= j < i ==> ps[j].id != p.id
  {
    if ps[0].id == p.id then 0
    else
      assert Includes(ps[1..], p) by {
        var j :| 0 <= j < |ps| && ps[j].id == p.id;
        assert ps[1..][j - 1].id == p.id;
      }
      1 + IndexOfPlayer(ps[1..], p)
  }

  /** Ids of a roster, in order. */
  function PlayerIds(ps: seq<Player>): (ids: seq<PlayerId>)
    ensures |ids| == |ps|
    ensures forall i :: 0 <= i < |ps| ==> ids[i] == ps[i].id
  {
    seq(|ps|, i requires 0 <= i < |ps| => ps[i].id)
  }

  /** `addPlayer`: refused when the player is already on the roster,
      otherwise appended. */
  function AddPlayer(t: Team, p: Player): (r: Step<Team>)
    ensures r.ok <==> !Includes(t.players, p)
    ensures !r.ok ==> r.state == t
    ensures r.ok ==> r.state == t.(players := t.players + [p])
    ensures NoDuplicates(PlayerIds(t.players)) ==> NoDuplicates(PlayerIds(r.state.players))
  {
    if Includes(t.players, p) then Step(false, t)
    else
      var r := t.(players := t.players + [p]);
      assert forall i :: 0 <= i < |t.players| ==> r.players[i].id != p.id;
      Step(true, r)
  }

  /** `removePlayer`: refused when the player is absent, otherwise the first
      occurrence is spliced out. */
  function RemovePlayer(t: Team, p: Player): (r: Step<Team>)
    ensures r.ok <==> Includes(t.players, p)
    ensures !r.ok ==> r.state == t
    ensures r.ok ==> |r.state.players| == |t.players| - 1
    ensures r.ok ==> (exists i :: 0 <= i < |t.players| && t.players[i].id == p.id
                                 && (forall j :: 0 <= j < i ==> t.players[j].id != p.id)
                                 && r.state.players == t.players[..i] + t.players[i + 1..])
    ensures r.ok ==> r.state == t.(players := r.state.players)
  {
    if !Includes(t.players, p) then Step(false, t)
    else
      var i := IndexOfPlayer(t.players, p);
      Step(true, t.(players := t.players[..i] + t.players[i + 1..]))
  }

  /** Adding a player who was not on the roster and removing them again
      restores the team. */
  lemma AddThenRemovePlayer(t: Team, p: Player)
    requires !Includes(t.players, p)
    ensures AddPlayer(t, p).ok
    ensures RemovePlayer(AddPlayer(t, p).state, p) == Step(true, t)
  {
    var t' := AddPlayer(t, p).state;
    var n := |t.players|;
    assert t'.players[n].id == p.id;
    assert forall j :: 0 <= j < n ==> t'.players[j].id != p.id;
    var i := IndexOfPlayer(t'.players, p);
    assert i == n;
    assert t'.players[..n] + t'.players[n + 1..] == t.players;
  }

  /** `setCaptain`: only a member of the roster can be made captain. */
  function SetCaptain(t: Team, p: Player): (r: Step<Team>)
    ensures r.ok <==> Includes(t.players, p)
    ensures r.ok ==> r.state == t.(captain := p)
    ensures !r.ok ==> r.state == t
  {
    if !Includes(t.players, p) then Step(false, t) else Step(true, t.(captain := p))
  }

  /** `setViceCaptain`: only a member of the roster can be made vice-captain. */
  function SetViceCaptain(t: Team, p: Player): (r: Step<Team>)
    ensures r.ok <==> Includes(t.players, p)
    ensures r.ok ==> r.state == t.(viceCaptain := p)
    ensures !r.ok ==> r.state == t
  {
    if !Includes(t.players, p) then Step(false, t) else Step(true, t.(viceCaptain := p))
  }

  /** Every player of `ps` is on the roster. */
  predicate AllMembers(t: Team, ps: seq<Player>)
  {
    forall i :: 0 <= i < |ps| ==> Includes(t.players, ps[i])
  }

  /** `setPlayingEleven`: accepts exactly eleven roster members. The source
      stores nothing, so neither does this. */
  function SetPlayingEleven(t: Team, ps: seq<Player>): (ok: bool)
    ensures ok <==> |ps| == 11 && forall i :: 0 <= i < |ps| ==> Includes(t.players, ps[i])
  {
    if |ps| != 11 then false else AllMembers(t, ps)
  }

  /** `registerTournamentSquad`: accepts a squad drawn from the roster. */
  function RegisterTournamentSquad(t: Team, squad: seq<Player>): (ok: bool)
    ensures ok <==> forall i :: 0 <= i < |squad| ==> Includes(t.players, squad[i])
  {
    AllMembers(t, squad)
  }
}
