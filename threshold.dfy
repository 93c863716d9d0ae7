/**
 * The vote threshold shared by vote-extend and rock-the-vote:
 * `Math.Max(1, (int)Math.Ceiling(connectedPlayers * Config.Percentage))`.
 * The configured percentage, a double in the source, is a rational num/den here.
 */
module Threshold {

  datatype Ratio = Ratio(num: int, den: int)

  /** Ceiling of a / b for a positive divisor (Dafny's `/` rounds down for b > 0). */
  function CeilDiv(a: int, b: int): (r: int)
    requires b > 0
    ensures r * b >= a && (r - 1) * b < a
  {
    var q := (-a) / b;
    assert (-a) == q * b + (-a) % b;
    -q
  }

  /** Number of opt-in votes needed with `connected` players online: the least count that is at
      least connected * percentage, and never less than one. */
  function VotesNeeded(connected: nat, p: Ratio): (r: int)
    requires p.den > 0
    ensures r >= 1
    ensures r * p.den >= connected * p.num
    ensures r == 1 || (r - 1) * p.den < connected * p.num
  {
    var c := CeilDiv(connected * p.num, p.den);
    if c > 1 then c else 1
  }

  /** A vote with `votes` participants passes exactly when votes * den >= connected * num, or when one vote is enough. */
  lemma {:induction false} PassesIff(votes: int, connected: nat, p: Ratio)
    requires p.den > 0
    ensures votes >= VotesNeeded(connected, p) <==> votes >= 1 && votes * p.den >= connected * p.num
  {
    var r := VotesNeeded(connected, p);
    if votes >= r {
      MulMonotone(r, votes, p.den);
    }
    if votes >= 1 && votes * p.den >= connected * p.num && r > 1 {
      assert (r - 1) * p.den < votes * p.den;
      MulCancel(r - 1, votes, p.den);
    }
  }

  /** Fewer connected players never need more votes (percentage not negative): the basis of the
      disconnect recount, which can only lower the bar. */
  lemma {:induction false} VotesNeededMonotone(c1: nat, c2: nat, p: Ratio)
    requires p.den > 0 && p.num >= 0 && c1 <= c2
    ensures VotesNeeded(c1, p) <= VotesNeeded(c2, p)
  {
    var r1, r2 := VotesNeeded(c1, p), VotesNeeded(c2, p);
    MulMonotone(c1, c2, p.num);
    PassesIff(r2, c1, p);
  }

  lemma MulMonotone(a: int, b: int, k: int)
    requires a <= b && k >= 0
    ensures a * k <= b * k
  {
    assert b * k - a * k == (b - a) * k;
  }

  lemma MulCancel(a: int, b: int, k: int)
    requires k > 0 && a * k < b * k
    ensures a < b
  {
    if a >= b {
      MulMonotone(b, a, k);
    }
  }

  /** With a percentage of 0.6 (3/5): five players need three votes, four need three, three need two. */
  lemma SixtyPercentExamples()
    ensures VotesNeeded(5, Ratio(3, 5)) == 3
    ensures VotesNeeded(4, Ratio(3, 5)) == 3
    ensures VotesNeeded(3, Ratio(3, 5)) == 2
    ensures VotesNeeded(0, Ratio(3, 5)) == 1
  {
  }

  /** At one half, one vote out of three players falls short, and is enough once a player who did
      not vote has left: a disconnect recount can pass a vote without a new cast. */
  lemma RecountExample()
    ensures VotesNeeded(3, Ratio(1, 2)) == 2
    ensures VotesNeeded(2, Ratio(1, 2)) == 1
  {
  }
}
