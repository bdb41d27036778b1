/** The value types of the cricket engine in CrickInfo.ts: the enumerations,
    one delivery (`Ball`) and a `Player`.

    JavaScript compares players by object identity; here every player carries
    an explicit `id` that stands for that identity, and every comparison the
    source makes with `===`, `includes` or `indexOf` compares ids. */
module CricketTypes {
  import opened Wrappers
  import opened Seqs

  type PlayerId = nat

  datatype BallType = Normal | Wide | NoBall | WicketBall
  datatype WicketType = Caught | Bowled | Lbw | RunOut | Stumped
  datatype Role = Wicketkeeper | Captain | ViceCaptain
  datatype PlayerType = Batsman | Bowler | Allrounder
  datatype MatchType = ODI | TEST | T20
  datatype MatchState = NotStarted | InProgress | Completed | Abandoned

  /** One delivery. `ballResultRuns` are the runs off the bat and
      `extraRuns` the extras; the commentary text is not modelled. The
      source does not tie `wicketType` to `isWicket`, and neither does this. */
  datatype Ball = Ball(
    overNumber: int,
    ballType: BallType,
    ballResultRuns: int,
    ballNumber: int,
    bowler: PlayerId,
    batsman: PlayerId,
    isWicket: bool,
    extraRuns: int,
    wicketType: Option<WicketType>)

  /** `getBallResultRuns`: the runs a delivery is worth, bat plus extras. */
  function ResultRuns(b: Ball): int
  {
    b.ballResultRuns + b.extraRuns
  }

  datatype Player = Player(
    id: PlayerId,
    name: string,
    age: int,
    roles: seq<Role>,
    battingStyle: Option<string>,
    bowlingStyle: Option<string>,
    country: string,
    playerType: PlayerType)

  /** `addRole`: appends the role unless the player already holds it. */
  function AddRole(p: Player, role: Role): (r: Player)
    ensures role in r.roles
    ensures forall x :: x in r.roles <==> x in p.roles || x == role
    ensures NoDuplicates(p.roles) ==> NoDuplicates(r.roles)
    ensures role in p.roles ==> r == p
    ensures r == p.(roles := r.roles)
  {
    if role in p.roles then p else p.(roles := p.roles + [role])
  }

  /** `removeRole`: drops every occurrence of the role, keeping the order of
      the others. */
  function RemoveRole(p: Player, role: Role): (r: Player)
    ensures role !in r.roles
    ensures forall x :: x in r.roles <==> x in p.roles && x != role
    ensures r == p.(roles := r.roles)
  {
    p.(roles := Without(p.roles, role))
  }

  /** Granting a role the player lacked and then removing it restores the
      player exactly. */
  lemma AddThenRemoveRole(p: Player, role: Role)
    requires role !in p.roles
    ensures RemoveRole(AddRole(p, role), role) == p
  {
    WithoutAppended(p.roles, role);
  }
}
