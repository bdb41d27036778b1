/** `Over`: a numbered container that accepts deliveries until it holds six.
    Every delivery takes a slot, wides and no-balls included. */
module CricketOver {
  import opened Wrappers
  import opened CricketTypes

  const MaxBalls: int := 6

  datatype Over = Over(overNumber: int, balls: seq<Ball>)

  /** `isComplete`: exactly six deliveries are held. */
  predicate IsComplete(o: Over)
  {
    |o.balls| == MaxBalls
  }

  /** `addBall`: refused once the over is complete, otherwise appended. */
  function AddBall(o: Over, b: Ball): (r: Step<Over>)
    ensures r.ok <==> !IsComplete(o)
    ensures !r.ok ==> r.state == o
    ensures r.ok ==> r.state.overNumber == o.overNumber && r.state.balls == o.balls + [b]
    ensures |o.balls| <= MaxBalls ==> |r.state.balls| <= MaxBalls
  {
    if IsComplete(o) then Step(false, o) else Step(true, o.(balls := o.balls + [b]))
  }

  /** `getRunsInOver`. */
  function RunsInOver(o: Over): int
  {
    SumRuns(o.balls)
  }

  function SumRuns(bs: seq<Ball>): int
  {
    if |bs| == 0 then 0 else SumRuns(bs[..|bs| - 1]) + ResultRuns(bs[|bs| - 1])
  }

  /** `getWicketsInOver`: the wicket deliveries held. */
  function WicketsInOver(o: Over): (n: nat)
    ensures n <= |o.balls|
  {
    |FilterWickets(o.balls)|
  }

  function FilterWickets(bs: seq<Ball>): (r: seq<Ball>)
    ensures forall b :: b in r ==> b in bs && b.isWicket
    ensures |r| <= |bs|
  {
    if |bs| == 0 then []
    else FilterWickets(bs[..|bs| - 1]) + (if bs[|bs| - 1].isWicket then [bs[|bs| - 1]] else [])
  }

  /** An accepted delivery adds exactly its own runs and wicket to the
      over's totals. */
  lemma AddBallTotals(o: Over, b: Ball)
    requires !IsComplete(o)
    ensures RunsInOver(AddBall(o, b).state) == RunsInOver(o) + ResultRuns(b)
    ensures WicketsInOver(AddBall(o, b).state) == WicketsInOver(o) + (if b.isWicket then 1 else 0)
  {
  }

  /** Offering deliveries one after another to an over. */
  function Offer(o: Over, bs: seq<Ball>): Over
    decreases |bs|
  {
    if |bs| == 0 then o else Offer(AddBall(o, bs[0]).state, bs[1..])
  }

  /** Offering K deliveries to an empty over leaves it holding min(K, 6),
      the first ones offered. */
  lemma {:induction false} OfferKeepsFirstSix(n: int, bs: seq<Ball>)
    ensures Offer(Over(n, []), bs).balls == bs[..if |bs| < MaxBalls then |bs| else MaxBalls]
  {
    OfferFrom(Over(n, []), bs);
  }

  lemma {:induction false} OfferFrom(o: Over, bs: seq<Ball>)
    requires |o.balls| <= MaxBalls
    ensures var k := if |bs| < MaxBalls - |o.balls| then |bs| else MaxBalls - |o.balls|;
            Offer(o, bs).balls == o.balls + bs[..k]
    decreases |bs|
  {
    if |bs| > 0 {
      var o' := AddBall(o, bs[0]).state;
      OfferFrom(o', bs[1..]);
      if IsComplete(o) {
        assert bs[..0] == [];
      } else {
        var k := if |bs| < MaxBalls - |o.balls| then |bs| else MaxBalls - |o.balls|;
        assert o.balls + bs[..k] == o'.balls + bs[1..][..k - 1];
      }
    }
  }
}
