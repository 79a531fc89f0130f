/**
 The tie-corrected Mann-Whitney U test of crates/vmcell-bench/src/stats.rs.

 The program sorts the pooled sample once and walks its tie groups. The definitions it is proved
 against never sort: a midrank is counted, U is a count over pairs, and the variance is the
 finite-population variance of the midranks.
 */
module MannWhitney {
  import opened Basics
  import opened Sorting
  import opened Sums

  /** One pooled observation: its value, and whether it came from the second arm. */
  datatype Obs = Obs(value: real, fromB: bool)

  datatype RankTest = RankTest(u: real, pTwoSided: real, probBGreater: real)

  // ---------------------------------------------------------------------------------------------
  // Textbook definitions
  // ---------------------------------------------------------------------------------------------

  function Tag(xs: seq<real>, fromB: bool): (t: seq<Obs>)
    ensures |t| == |xs|
    ensures forall i :: 0 <= i < |xs| ==> t[i] == Obs(xs[i], fromB)
  {
    seq(|xs|, i requires 0 <= i < |xs| => Obs(xs[i], fromB))
  }

  function Pool(a: seq<real>, b: seq<real>): seq<Obs> {
    Tag(a, false) + Tag(b, true)
  }

  function IsLess(v: real): Obs -> real {
    (o: Obs) => if o.value < v then 1.0 else 0.0
  }

  function IsEqual(v: real): Obs -> real {
    (o: Obs) => if o.value == v then 1.0 else 0.0
  }

  /** How many pooled observations lie strictly below `v`. */
  function Less(pool: seq<Obs>, v: real): real {
    Sum(pool, IsLess(v))
  }

  /** How many pooled observations equal `v`. */
  function Equal(pool: seq<Obs>, v: real): real {
    Sum(pool, IsEqual(v))
  }

  /** The average of the ranks Less+1 .. Less+Equal that the observations equal to `v` occupy. */
  function MidRank(pool: seq<Obs>, v: real): real {
    Less(pool, v) + (Equal(pool, v) + 1.0) / 2.0
  }

  function RankIfB(pool: seq<Obs>): Obs -> real {
    (o: Obs) => if o.fromB then MidRank(pool, o.value) else 0.0
  }

  function Sq(x: real): real {
    x * x
  }

  /** An observation's share of its tie group's t^3 - t: the group's t members give t^2 - 1 each. */
  function TieShare(pool: seq<Obs>): Obs -> real {
    (o: Obs) => Sq(Equal(pool, o.value)) - 1.0
  }

  function SquaredDeviation(pool: seq<Obs>): Obs -> real {
    (o: Obs) => Sq(MidRank(pool, o.value) - (|pool| as real + 1.0) / 2.0)
  }

  /** The sum of squared deviations of the midranks from their mean (N + 1) / 2. */
  function Spread(pool: seq<Obs>): real {
    Sum(pool, SquaredDeviation(pool))
  }

  /** What a pair (x from a, y from b) contributes to U: 1 when y is larger, a half on a tie. */
  function Score(x: real, y: real): real {
    if x < y then 1.0 else if x == y then 0.5 else 0.0
  }

  function ScoreOver(y: real): real -> real {
    x => Score(x, y)
  }

  function Wins(a: seq<real>): real -> real {
    y => Sum(a, ScoreOver(y))
  }

  /** U for the second arm: the (x, y) pairs with y > x, a tie counting a half. */
  function PairCount(a: seq<real>, b: seq<real>): real {
    Sum(b, Wins(a))
  }

  /** The finite-population variance of a rank sum: n_a * n_b / (N * (N - 1)) times the spread. */
  function PopulationVariance(nA: real, nB: real, spread: real): real
    requires nA + nB > 1.0
  {
    nA * nB * (spread / (nA + nB) / (nA + nB - 1.0))
  }

  function Variance(a: seq<real>, b: seq<real>): real
    requires |a| >= 2 && |b| >= 2
  {
    PopulationVariance(|a| as real, |b| as real, Spread(Pool(a, b)))
  }

  function Abs(x: real): real {
    if x < 0.0 then -x else x
  }

  function Max(x: real, y: real): real {
    if x < y then y else x
  }

  function Mean(nA: real, nB: real): real {
    nA * nB / 2.0
  }

  /** The continuity-corrected distance of U from its mean, floored at zero. */
  function ZNumerator(u: real, mean: real): real {
    Max(Abs(u - mean) - 0.5, 0.0)
  }

  /** Zero for a U within one half of its mean; for any other, one half less than the distance. */
  ghost predicate IsCorrectedDistance(z: real, u: real, mean: real) {
    && (mean - 0.5 <= u <= mean + 0.5 ==> z == 0.0)
    && (u < mean - 0.5 ==> z == mean - u - 0.5)
    && (u > mean + 0.5 ==> z == u - mean - 0.5)
  }

  /** The common-language effect size: the share of the pairs the second arm wins. */
  function Effect(u: real, nA: real, nB: real): real
    requires nA > 0.0 && nB > 0.0
  {
    ProductPositive(nA, nB);
    u / (nA * nB)
  }

  /** The two-sided p-value; `tail` stands for the normal tail at numerator / sqrt(variance). */
  function PValue(a: seq<real>, b: seq<real>, tail: (real, real) -> real): real
    requires |a| >= 2 && |b| >= 2
  {
    if Variance(a, b) == 0.0 then 1.0
    else tail(ZNumerator(PairCount(a, b), Mean(|a| as real, |b| as real)), Variance(a, b))
  }

  ghost predicate AllTied(a: seq<real>, b: seq<real>) {
    forall x, y :: x in a + b && y in a + b ==> x == y
  }

  /**
   U counts the pairs the second arm wins, the effect size is its share of all pairs, and p is 1 on
   ties throughout and otherwise the tail at the corrected distance of U from half the pairs.
   */
  ghost predicate IsRankTest(a: seq<real>, b: seq<real>, tail: (real, real) -> real, r: RankTest)
    requires |a| >= 2 && |b| >= 2
  {
    var pairs := |a| as real * |b| as real;
    && r.u == PairCount(a, b)
    && r.probBGreater * pairs == PairCount(a, b)
    && (AllTied(a, b) ==> r.pTwoSided == 1.0)
    && (!AllTied(a, b) ==>
          exists z :: r.pTwoSided == tail(z, Variance(a, b)) && IsCorrectedDistance(z, PairCount(a, b), pairs / 2.0))
  }

  // ---------------------------------------------------------------------------------------------
  // The program
  // ---------------------------------------------------------------------------------------------

  function Value(): Obs -> real {
    (o: Obs) => o.value
  }

  /** `start` begins a tie group of the sorted pool (or is its end). */
  ghost predicate Boundary(s: seq<Obs>, start: nat) {
    start <= |s| && (0 < start < |s| ==> s[start - 1].value < s[start].value)
  }

  /** `start ..= end` is exactly one tie group. */
  ghost predicate Group(s: seq<Obs>, start: nat, end: nat) {
    && Sorted(s, Value()) && start <= end < |s|
    && Boundary(s, start) && Boundary(s, end + 1)
    && s[start].value == s[end].value
  }

  /** The walk over the tie groups of the sorted pool: the second arm's rank sum and the tie term. */
  method RankPass(pooled: seq<Obs>) returns (rankSumB: real, tieTerm: real)
    requires Sorted(pooled, Value())
    ensures rankSumB == Sum(pooled, RankIfB(pooled))
    ensures tieTerm == Sum(pooled, TieShare(pooled))
  {
    rankSumB, tieTerm := 0.0, 0.0;
    var start := 0;
    while start < |pooled|
      invariant Boundary(pooled, start)
      invariant rankSumB == Sum(pooled[..start], RankIfB(pooled))
      invariant tieTerm == Sum(pooled[..start], TieShare(pooled))
    {
      hide Sum, TieShare, Cube, Less, Equal;
      var value := pooled[start].value;
      var end := start;
      while end + 1 < |pooled| && pooled[end + 1].value == value
        invariant start <= end < |pooled| && pooled[end].value == value
      {
        end := end + 1;
      }
      assert Group(pooled, start, end);
      var midrank := ((start + 1) as real + (end + 1) as real) / 2.0;
      var group := end - start + 1;
      GroupCounts(pooled, start, end);
      assert midrank == MidRank(pooled, value);
      for offset := start to end + 1
        invariant rankSumB == Sum(pooled[..offset], RankIfB(pooled))
      {
        SumSnoc(pooled, offset, RankIfB(pooled));
        if pooled[offset].fromB {
          rankSumB := rankSumB + midrank;
        }
      }
      var t := group as real;
      GroupTieShare(pooled, start, end);
      tieTerm := tieTerm + (Cube(t) - t);
      start := end + 1;
    }
    assert pooled[..start] == pooled;
  }

  function UFromRankSum(rankSumB: real, nB: real): real {
    rankSumB - Triangle(nB)
  }

  function CorrectedVariance(nA: real, nB: real, tieTerm: real): real
    requires nA + nB > 1.0
  {
    var nTotal := nA + nB;
    ProductPositive(nTotal, nTotal - 1.0);
    (nA * nB / 12.0) * ((nTotal + 1.0) - tieTerm / (nTotal * (nTotal - 1.0)))
  }

  method Run(a: seq<real>, b: seq<real>, tail: (real, real) -> real) returns (r: Option<RankTest>)
    ensures r.None? <==> |a| < 2 || |b| < 2
    ensures r.Some? ==>
              && r.value.u == PairCount(a, b)
              && r.value.pTwoSided == PValue(a, b, tail)
              && r.value.probBGreater == Effect(PairCount(a, b), |a| as real, |b| as real)
    ensures r.Some? ==> IsRankTest(a, b, tail, r.value)
  {
    if |a| < 2 || |b| < 2 {
      return None;
    }
    var pooled := SortBy(Pool(a, b), Value());
    SortByCorrect(Pool(a, b), Value());
    var rankSumB, tieTerm := RankPass(pooled);
    var nA, nB := |a| as real, |b| as real;
    var uB := UFromRankSum(rankSumB, nB);
    var variance := CorrectedVariance(nA, nB, tieTerm);
    RankSumIsPairCount(a, b, pooled);
    TieCorrectedVariance(a, b, pooled);
    VarianceSign(a, b);
    TestOf(a, b, tail);
    hide IsRankTest, Effect, UFromRankSum, CorrectedVariance, Variance, Mean, PairCount, Sum, Pool, AllTied, SortBy;
    var p := 1.0;
    if variance > 0.0 {
      p := tail(ZNumerator(uB, Mean(nA, nB)), variance);
    }
    r := Some(RankTest(uB, p, Effect(uB, nA, nB)));
  }

  // ---------------------------------------------------------------------------------------------
  // Tie groups of the sorted pool
  // ---------------------------------------------------------------------------------------------

  lemma GroupMembers(s: seq<Obs>, start: nat, end: nat)
    requires Group(s, start, end)
    ensures forall i :: 0 <= i < start ==> s[i].value < s[start].value
    ensures forall i :: start <= i <= end ==> s[i].value == s[start].value
    ensures forall i :: end < i < |s| ==> s[start].value < s[i].value
  {
  }

  lemma SumThreeParts(s: seq<Obs>, start: nat, end: nat, f: Obs -> real)
    requires start <= end < |s|
    ensures Sum(s, f) == Sum(s[..start], f) + Sum(s[start..end + 1], f) + Sum(s[end + 1..], f)
  {
    assert s == s[..start] + s[start..];
    SumAppend(s[..start], s[start..], f);
    assert s[start..] == s[start..end + 1] + s[end + 1..];
    SumAppend(s[start..end + 1], s[end + 1..], f);
  }

  lemma SumGroupOnly(s: seq<Obs>, start: nat, end: nat, f: Obs -> real)
    requires start <= end < |s|
    requires forall i :: start <= i <= end ==> f(s[i]) == 1.0
    requires forall i :: 0 <= i < start || end < i < |s| ==> f(s[i]) == 0.0
    ensures Sum(s, f) == (end - start + 1) as real
  {
    hide Sum;
    SumThreeParts(s, start, end, f);
    SumConstant(s[..start], f, 0.0);
    SumConstant(s[start..end + 1], f, 1.0);
    SumConstant(s[end + 1..], f, 0.0);
  }

  lemma GroupCounts(s: seq<Obs>, start: nat, end: nat)
    requires Group(s, start, end)
    ensures Less(s, s[start].value) == start as real
    ensures Equal(s, s[start].value) == (end - start + 1) as real
    ensures forall i :: start <= i <= end ==> s[i].value == s[start].value
  {
    hide Sum;
    GroupMembers(s, start, end);
    SumGroupOnly(s, start, end, IsEqual(s[start].value));
    if start == 0 {
      SumConstant(s, IsLess(s[start].value), 0.0);
    } else {
      SumGroupOnly(s, 0, start - 1, IsLess(s[start].value));
    }
  }

  /** Extending a prefix sum by a whole group on which `f` is constant. */
  lemma SumGroup(s: seq<Obs>, start: nat, end: nat, f: Obs -> real, t: real, c: real)
    requires start <= end < |s| && t == (end - start + 1) as real
    requires forall i :: start <= i <= end ==> f(s[i]) == c
    ensures Sum(s[..end + 1], f) == Sum(s[..start], f) + t * c
  {
    assert s[..end + 1] == s[..start] + s[start..end + 1];
    SumAppend(s[..start], s[start..end + 1], f);
    SumConstant(s[start..end + 1], f, c);
    assert |s[start..end + 1]| as real == t;
  }

  lemma GroupTieShare(s: seq<Obs>, start: nat, end: nat)
    requires Group(s, start, end)
    ensures var t := (end - start + 1) as real;
            Sum(s[..end + 1], TieShare(s)) == Sum(s[..start], TieShare(s)) + (Cube(t) - t)
  {
    hide Cube, Sq, Sum;
    var t := (end - start + 1) as real;
    GroupCounts(s, start, end);
    SumGroup(s, start, end, TieShare(s), t, Sq(t) - 1.0);
    CubeFromShares(t, Sq(t) - 1.0);
  }

  lemma CubeFromShares(t: real, share: real)
    requires share == Sq(t) - 1.0
    ensures t * share == Cube(t) - t
  {
  }

  lemma GroupAt(s: seq<Obs>, start: nat) returns (end: nat)
    requires Sorted(s, Value()) && start < |s| && Boundary(s, start)
    ensures Group(s, start, end)
  {
    end := start;
    while end + 1 < |s| && s[end + 1].value == s[start].value
      invariant start <= end < |s| && s[end].value == s[start].value
    {
      end := end + 1;
    }
  }

  // ---------------------------------------------------------------------------------------------
  // The rank sum is a pair count
  // ---------------------------------------------------------------------------------------------

  lemma PermutedCounts(s: seq<Obs>, t: seq<Obs>)
    requires multiset(s) == multiset(t)
    ensures |s| == |t|
    ensures forall v :: Less(s, v) == Less(t, v) && Equal(s, v) == Equal(t, v)
  {
    assert |s| == |multiset(s)| == |multiset(t)| == |t|;
    forall v ensures Less(s, v) == Less(t, v) && Equal(s, v) == Equal(t, v) {
      SumPermutation(s, t, IsLess(v));
      SumPermutation(s, t, IsEqual(v));
    }
  }

  lemma {:induction false} SumTag(xs: seq<real>, fromB: bool, f: Obs -> real, g: real -> real)
    requires forall x :: f(Obs(x, fromB)) == g(x)
    ensures Sum(Tag(xs, fromB), f) == Sum(xs, g)
  {
    if xs == [] {
    } else {
      assert Tag(xs, fromB)[1..] == Tag(xs[1..], fromB);
      SumTag(xs[1..], fromB, f, g);
    }
  }

  lemma SumPool(a: seq<real>, b: seq<real>, f: Obs -> real, g: real -> real, h: real -> real)
    requires forall x :: f(Obs(x, false)) == g(x) && f(Obs(x, true)) == h(x)
    ensures Sum(Pool(a, b), f) == Sum(a, g) + Sum(b, h)
  {
    SumAppend(Tag(a, false), Tag(b, true), f);
    SumTag(a, false, f, g);
    SumTag(b, true, f, h);
  }

  lemma SumPoolB(a: seq<real>, b: seq<real>, f: Obs -> real, h: real -> real)
    requires forall x :: f(Obs(x, false)) == 0.0 && f(Obs(x, true)) == h(x)
    ensures Sum(Pool(a, b), f) == Sum(b, h)
  {
    var zero := (x: real) => 0.0;
    SumPool(a, b, f, zero, h);
    SumConstant(a, zero, 0.0);
  }

  function ScoreObs(y: real): Obs -> real {
    (o: Obs) => Score(o.value, y)
  }

  /** A midrank is the pairs won against both arms, plus a half for the observation's own tie. */
  lemma MidRankAsWins(a: seq<real>, b: seq<real>, y: real)
    ensures MidRank(Pool(a, b), y) == Wins(a)(y) + Wins(b)(y) + 0.5
  {
    hide Pool;
    SumLinear(Pool(a, b), IsEqual(y), IsLess(y), ScoreObs(y), 0.5);
    SumPool(a, b, ScoreObs(y), ScoreOver(y), ScoreOver(y));
  }

  lemma {:induction false} ScoresComplement(a: seq<real>, y: real)
    ensures Sum(a, ScoreOver(y)) + Sum(a, (x: real) => Score(y, x)) == |a| as real
  {
    var g := (x: real) => Score(y, x);
    var one := (x: real) => 1.0;
    SumLinear(a, ScoreOver(y), g, one, 1.0);
    SumConstant(a, one, 1.0);
  }

  /** U(a, b) + U(b, a) = n_a * n_b: every pair is won by one arm or split. */
  lemma {:induction false} PairCountComplement(a: seq<real>, b: seq<real>)
    ensures PairCount(a, b) + PairCount(b, a) == |a| as real * |b| as real
  {
    if b == [] {
      SumConstant(a, Wins(b), 0.0);
    } else {
      PairCountComplement(a, b[1..]);
      OneMoreOpponent(a, b);
      hide PairCount;
      OneMoreFactor(|a| as real, |b[1..]| as real, |b| as real);
    }
  }

  /** One more opponent plays every member of the other arm once. */
  lemma OneMoreOpponent(a: seq<real>, b: seq<real>)
    requires b != []
    ensures PairCount(a, b) + PairCount(b, a)
         == PairCount(a, b[1..]) + PairCount(b[1..], a) + |a| as real
  {
    var y, rest := b[0], b[1..];
    var g := (x: real) => Score(y, x);
    forall x ensures Wins(b)(x) == 1.0 * g(x) + Wins(rest)(x) {
    }
    SumLinear(a, g, Wins(rest), Wins(b), 1.0);
    ScoresComplement(a, y);
  }

  lemma OneMoreFactor(x: real, n: real, m: real)
    requires m == n + 1.0
    ensures x * m == x * n + x
  {
  }

  function OwnRank(b: seq<real>): real -> real {
    (y: real) => Wins(b)(y) + 0.5
  }

  function Triangle(n: real): real {
    n * (n + 1.0) / 2.0
  }

  lemma OwnRankSum(b: seq<real>)
    ensures Sum(b, OwnRank(b)) == Triangle(|b| as real)
  {
    var half := (y: real) => 0.5;
    SumLinear(b, Wins(b), half, OwnRank(b), 1.0);
    SumConstant(b, half, 0.5);
    PairCountComplement(b, b);
  }

  function RankOf(a: seq<real>, b: seq<real>): real -> real {
    (y: real) => Wins(a)(y) + OwnRank(b)(y)
  }

  lemma RankOfTagged(a: seq<real>, b: seq<real>, x: real)
    ensures RankIfB(Pool(a, b))(Obs(x, false)) == 0.0
    ensures RankIfB(Pool(a, b))(Obs(x, true)) == RankOf(a, b)(x)
  {
    MidRankAsWins(a, b, x);
  }

  lemma SumOfRanks(a: seq<real>, b: seq<real>)
    ensures Sum(b, RankOf(a, b)) == PairCount(a, b) + Triangle(|b| as real)
  {
    OwnRankSum(b);
    hide Triangle, Sum, Wins, OwnRank;
    SumLinear(b, Wins(a), OwnRank(b), RankOf(a, b), 1.0);
  }

  lemma RankSumOfPool(a: seq<real>, b: seq<real>)
    ensures Sum(Pool(a, b), RankIfB(Pool(a, b))) == PairCount(a, b) + Triangle(|b| as real)
  {
    var pool := Pool(a, b);
    forall x ensures RankIfB(pool)(Obs(x, false)) == 0.0 && RankIfB(pool)(Obs(x, true)) == RankOf(a, b)(x) {
      RankOfTagged(a, b, x);
    }
    SumPoolB(a, b, RankIfB(pool), RankOf(a, b));
    SumOfRanks(a, b);
    hide Triangle, Sum, PairCount, RankIfB, RankOf;
  }

  lemma RankSumIsPairCount(a: seq<real>, b: seq<real>, s: seq<Obs>)
    requires multiset(s) == multiset(Pool(a, b))
    ensures UFromRankSum(Sum(s, RankIfB(s)), |b| as real) == PairCount(a, b)
  {
    var pool := Pool(a, b);
    PermutedCounts(s, pool);
    SumExtensional(s, RankIfB(s), RankIfB(pool));
    SumPermutation(s, pool, RankIfB(pool));
    RankSumOfPool(a, b);
  }

  // ---------------------------------------------------------------------------------------------
  // The tie-corrected variance is the variance of the midranks
  // ---------------------------------------------------------------------------------------------

  /** What each member of a group of `t` after `start` others contributes to the cubic. */
  function GroupTerm(n: real, start: real, t: real): real {
    12.0 * Sq(start + (t + 1.0) / 2.0 - (n + 1.0) / 2.0) + (Sq(t) - 1.0)
  }

  /** One group's share of the cubic that telescopes over the groups. */
  lemma GroupCubic(n: real, start: real, t: real, u: real)
    requires u == 2.0 * start - n
    ensures t * GroupTerm(n, start, t) == (Cube(u + 2.0 * t) - Cube(u)) / 2.0 - t
  {
    var d := start + (t + 1.0) / 2.0 - (n + 1.0) / 2.0;
    assert 2.0 * d == u + t;
    assert 4.0 * (d * d) == (u + t) * (u + t);
    var w := u * u;
    var x := u * t;
    var y := t * t;
    assert (u + t) * (u + t) == w + 2.0 * x + y;
    assert (u + 2.0 * t) * (u + 2.0 * t) == w + 4.0 * x + 4.0 * y;
    assert (u + 2.0 * t) * (w + 4.0 * x + 4.0 * y) == u * w + 6.0 * (t * w) + 12.0 * (t * x) + 8.0 * (t * y);
  }

  function TiesAndSpread(s: seq<Obs>): Obs -> real {
    (o: Obs) => 12.0 * SquaredDeviation(s)(o) + TieShare(s)(o)
  }

  function Cube(x: real): real {
    x * x * x
  }

  lemma GroupTiesAndSpreadTerm(s: seq<Obs>, start: nat, end: nat, i: nat)
    requires Group(s, start, end) && start <= i <= end
    ensures TiesAndSpread(s)(s[i]) == GroupTerm(|s| as real, start as real, (end - start + 1) as real)
  {
    GroupCounts(s, start, end);
    hide Sq, Less, Equal, Sum;
    var t := (end - start + 1) as real;
    assert TieShare(s)(s[i]) == Sq(t) - 1.0;
    assert SquaredDeviation(s)(s[i]) == Sq(start as real + (t + 1.0) / 2.0 - (|s| as real + 1.0) / 2.0);
  }

  lemma GroupTiesAndSpread(s: seq<Obs>, start: nat, end: nat, t: real, u: real)
    requires Group(s, start, end) && t == (end - start + 1) as real && u == 2.0 * start as real - |s| as real
    ensures Sum(s[..end + 1], TiesAndSpread(s)) - Sum(s[..start], TiesAndSpread(s))
         == (Cube(u + 2.0 * t) - Cube(u)) / 2.0 - t
  {
    hide Cube, Sum, TiesAndSpread, GroupTerm;
    var c := GroupTerm(|s| as real, start as real, t);
    forall i | start <= i <= end ensures TiesAndSpread(s)(s[i]) == c {
      GroupTiesAndSpreadTerm(s, start, end, i);
    }
    SumGroup(s, start, end, TiesAndSpread(s), t, c);
    GroupCubic(|s| as real, start as real, t, u);
  }

  lemma GroupsTelescope(s: seq<Obs>)
    requires Sorted(s, Value())
    ensures var n := |s| as real; Sum(s, TiesAndSpread(s)) == Cube(n) - n
  {
    hide Cube, TiesAndSpread;
    var n := |s| as real;
    var start, u := 0, -n;
    assert s[..0] == [];
    NegatedCube(n);
    while start < |s|
      invariant Boundary(s, start) && u == 2.0 * start as real - n
      invariant Sum(s[..start], TiesAndSpread(s)) == (Cube(u) + Cube(n)) / 2.0 - start as real
    {
      hide Sum;
      var end := GroupAt(s, start);
      var t := (end - start + 1) as real;
      GroupTiesAndSpread(s, start, end, t, u);
      start, u := end + 1, u + 2.0 * t;
    }
    assert s[..start] == s && u == n;
  }

  lemma TieIdentitySorted(s: seq<Obs>)
    requires Sorted(s, Value())
    ensures var n := |s| as real; 12.0 * Spread(s) + Sum(s, TieShare(s)) == Cube(n) - n
  {
    GroupsTelescope(s);
    hide Cube, Sum;
    SumLinear(s, SquaredDeviation(s), TieShare(s), TiesAndSpread(s), 12.0);
  }

  lemma NegatedCube(n: real)
    ensures Cube(-n) == -Cube(n)
  {
  }

  lemma SpreadPermutation(s: seq<Obs>, t: seq<Obs>)
    requires multiset(s) == multiset(t)
    ensures Spread(s) == Spread(t)
  {
    PermutedCounts(s, t);
    SumExtensional(s, SquaredDeviation(s), SquaredDeviation(t));
    SumPermutation(s, t, SquaredDeviation(t));
  }

  /** The loop's variance expression equals the textbook finite-population variance. */
  lemma TieCorrectedVariance(a: seq<real>, b: seq<real>, s: seq<Obs>)
    requires |a| >= 2 && |b| >= 2
    requires Sorted(s, Value()) && multiset(s) == multiset(Pool(a, b))
    ensures CorrectedVariance(|a| as real, |b| as real, Sum(s, TieShare(s))) == Variance(a, b)
  {
    PermutedCounts(s, Pool(a, b));
    TieIdentitySorted(s);
    SpreadPermutation(s, Pool(a, b));
    VarianceAlgebra(|a| as real, |b| as real, Sum(s, TieShare(s)), Spread(s));
    hide Cube, Spread, Sum, CorrectedVariance, PopulationVariance, Pool;
  }

  lemma VarianceAlgebra(nA: real, nB: real, tie: real, spread: real)
    requires nA + nB > 1.0
    requires 12.0 * spread + tie == Cube(nA + nB) - (nA + nB)
    ensures CorrectedVariance(nA, nB, tie) == PopulationVariance(nA, nB, spread)
  {
    var n := nA + nB;
    var m := n * (n - 1.0);
    ProductPositive(n, n - 1.0);
    assert m * (n + 1.0) == Cube(n) - n;
    var q, r := tie / m, spread / m;
    assert q * m == tie && r * m == spread;
    Quotient(12.0 * r, n + 1.0, q, m);
    NestedQuotient(spread, n, n - 1.0);
    hide Cube;
    assert nA * nB / 12.0 * (12.0 * r) == nA * nB * r;
  }

  lemma ProductPositive(x: real, y: real)
    requires x > 0.0 && y > 0.0
    ensures x * y > 0.0
  {
  }

  lemma QuotientPositive(x: real, y: real)
    requires x > 0.0 && y > 0.0
    ensures x / y > 0.0
  {
  }

  lemma QuotientSum(x: real, y: real, m: real)
    requires m > 0.0 && x + y == m
    ensures x / m + y / m == 1.0
  {
    var p, q := x / m, y / m;
    assert p * m == x && q * m == y;
    Quotient(p, 1.0, q, m);
  }

  lemma QuotientNonnegative(x: real, y: real)
    requires x >= 0.0 && y > 0.0
    ensures x / y >= 0.0
  {
  }

  lemma NestedQuotient(x: real, y: real, z: real)
    requires y > 0.0 && z > 0.0
    ensures y * z != 0.0 && x / y / z == x / (y * z)
  {
    ProductPositive(y, z);
    var q := x / y / z;
    assert q * z == x / y;
    assert q * z * y == x;
    assert q * (y * z) == x;
  }

  lemma Quotient(x: real, y: real, q: real, m: real)
    requires m > 0.0
    requires x * m + q * m == y * m
    ensures q == y - x
  {
    assert (x + q - y) * m == 0.0;
  }

  // ---------------------------------------------------------------------------------------------
  // Sign of the variance, range of the effect size, swapping the arms
  // ---------------------------------------------------------------------------------------------

  lemma PoolValues(a: seq<real>, b: seq<real>, s: seq<Obs>)
    requires multiset(s) == multiset(Pool(a, b))
    ensures AllTied(a, b) <==> forall i, j :: 0 <= i < |s| && 0 <= j < |s| ==> s[i].value == s[j].value
  {
    var pool := Pool(a, b);
    forall x | x in a + b ensures exists i :: 0 <= i < |s| && s[i].value == x {
      var k :| 0 <= k < |a + b| && (a + b)[k] == x;
      assert pool[k].value == x;
      assert pool[k] in multiset(pool);
      assert pool[k] in s;
    }
    forall i | 0 <= i < |s| ensures s[i].value in a + b {
      assert s[i] in multiset(s);
      assert s[i] in pool;
      var k :| 0 <= k < |pool| && pool[k] == s[i];
      assert (a + b)[k] == s[i].value;
    }
  }

  lemma SquareSign(x: real)
    ensures Sq(0.0) == 0.0
    ensures x != 0.0 ==> Sq(x) > 0.0
  {
    if x > 0.0 {
      PositiveProduct(x, x, Sq(x));
    } else if x < 0.0 {
      PositiveProduct(-x, -x, Sq(x));
    }
  }

  lemma PositiveProduct(x: real, y: real, p: real)
    requires x > 0.0 && y > 0.0 && p == x * y
    ensures p > 0.0
  {
  }

  lemma SpreadSignSorted(s: seq<Obs>)
    requires Sorted(s, Value()) && s != []
    ensures Spread(s) >= 0.0
    ensures Spread(s) == 0.0 <==> s[0].value == s[|s| - 1].value
  {
    hide Sq, Less, Equal;
    forall x ensures Sq(0.0) == 0.0 && (x != 0.0 ==> Sq(x) > 0.0) {
      SquareSign(x);
    }
    SumNonnegative(s, SquaredDeviation(s));
    var end := GroupAt(s, 0);
    GroupCounts(s, 0, end);
    assert SquaredDeviation(s)(s[0]) == Sq((end + 1 - |s|) as real / 2.0);
    if s[0].value == s[|s| - 1].value {
      forall i | 0 <= i < |s| ensures SquaredDeviation(s)(s[i]) == 0.0 {
        assert s[i].value == s[0].value;
      }
    } else {
      assert end + 1 < |s|;
    }
  }

  lemma SpreadSign(a: seq<real>, b: seq<real>)
    requires a != []
    ensures Spread(Pool(a, b)) >= 0.0
    ensures Spread(Pool(a, b)) == 0.0 <==> AllTied(a, b)
  {
    var s := SortBy(Pool(a, b), Value());
    SortByCorrect(Pool(a, b), Value());
    SpreadPermutation(s, Pool(a, b));
    SpreadSignSorted(s);
    PoolValues(a, b, s);
    hide Spread, AllTied, SortBy;
    assert forall i :: 0 <= i < |s| ==> Value()(s[0]) <= Value()(s[i]) <= Value()(s[|s| - 1]);
  }

  lemma ScaleSign(nA: real, nB: real, spread: real)
    requires nA >= 2.0 && nB >= 2.0 && spread >= 0.0
    ensures PopulationVariance(nA, nB, spread) >= 0.0
    ensures PopulationVariance(nA, nB, spread) == 0.0 <==> spread == 0.0
  {
    ProductPositive(nA, nB);
    var q := spread / (nA + nB) / (nA + nB - 1.0);
    if spread > 0.0 {
      QuotientPositive(spread, nA + nB);
      QuotientPositive(spread / (nA + nB), nA + nB - 1.0);
      ProductPositive(nA * nB, q);
    }
  }

  /** The variance is never negative, and is zero exactly when every observation is tied. */
  lemma VarianceSign(a: seq<real>, b: seq<real>)
    requires |a| >= 2 && |b| >= 2
    ensures Variance(a, b) >= 0.0
    ensures Variance(a, b) == 0.0 <==> AllTied(a, b)
  {
    SpreadSign(a, b);
    ScaleSign(|a| as real, |b| as real, Spread(Pool(a, b)));
    hide Spread, Pool, PopulationVariance, AllTied;
  }

  lemma EffectTimesPairs(u: real, nA: real, nB: real)
    requires nA > 0.0 && nB > 0.0
    ensures Effect(u, nA, nB) * (nA * nB) == u
  {
    ProductPositive(nA, nB);
  }

  lemma Correction(u: real, mean: real)
    ensures IsCorrectedDistance(ZNumerator(u, mean), u, mean)
  {
  }

  lemma TestOf(a: seq<real>, b: seq<real>, tail: (real, real) -> real)
    requires |a| >= 2 && |b| >= 2
    ensures IsRankTest(a, b, tail,
              RankTest(PairCount(a, b), PValue(a, b, tail), Effect(PairCount(a, b), |a| as real, |b| as real)))
  {
    hide Effect, Variance, PairCount, AllTied, ZNumerator, IsCorrectedDistance;
    VarianceSign(a, b);
    EffectTimesPairs(PairCount(a, b), |a| as real, |b| as real);
    Correction(PairCount(a, b), Mean(|a| as real, |b| as real));
  }

  /** The effect size is the share of the pairs won, a probability, and swapping the arms reflects it about one half. */
  lemma EffectSize(a: seq<real>, b: seq<real>)
    requires a != [] && b != []
    ensures 0.0 <= Effect(PairCount(a, b), |a| as real, |b| as real) <= 1.0
    ensures Effect(PairCount(a, b), |a| as real, |b| as real)
            + Effect(PairCount(b, a), |b| as real, |a| as real) == 1.0
    ensures Effect(PairCount(a, b), |a| as real, |b| as real) * (|a| as real * |b| as real) == PairCount(a, b)
  {
    PairCountComplement(a, b);
    PairCountNonnegative(a, b);
    PairCountNonnegative(b, a);
    hide PairCount, Effect;
    EffectTimesPairs(PairCount(a, b), |a| as real, |b| as real);
    EffectOfCounts(PairCount(a, b), PairCount(b, a), |a| as real, |b| as real);
  }

  lemma EffectOfCounts(u: real, v: real, nA: real, nB: real)
    requires nA > 0.0 && nB > 0.0 && u >= 0.0 && v >= 0.0 && u + v == nA * nB
    ensures 0.0 <= Effect(u, nA, nB) <= 1.0 && Effect(u, nA, nB) + Effect(v, nB, nA) == 1.0
  {
    var ab := nA * nB;
    ProductPositive(nA, nB);
    assert nB * nA == ab;
    QuotientSum(u, v, ab);
    QuotientNonnegative(u, ab);
    QuotientNonnegative(v, ab);
  }

  lemma PairCountNonnegative(a: seq<real>, b: seq<real>)
    ensures PairCount(a, b) >= 0.0
  {
    forall y ensures Wins(a)(y) >= 0.0 {
      SumNonnegative(a, ScoreOver(y));
    }
    SumNonnegative(b, Wins(a));
  }

  lemma SpreadDependsOnCounts(p: seq<Obs>, q: seq<Obs>)
    requires |p| == |q|
    requires forall v :: Less(p, v) == Less(q, v) && Equal(p, v) == Equal(q, v)
    ensures forall x, s, t :: SquaredDeviation(p)(Obs(x, s)) == SquaredDeviation(q)(Obs(x, t))
  {
    hide Less, Equal, Sq;
  }

  /** Exchanging the arms changes neither the variance nor the numerator of z, hence not p. */
  lemma SwapInvariant(a: seq<real>, b: seq<real>, tail: (real, real) -> real)
    requires |a| >= 2 && |b| >= 2
    ensures Variance(a, b) == Variance(b, a)
    ensures var m := Mean(|a| as real, |b| as real);
            m == Mean(|b| as real, |a| as real) && ZNumerator(PairCount(a, b), m) == ZNumerator(PairCount(b, a), m)
    ensures PValue(a, b, tail) == PValue(b, a, tail)
  {
    PoolOrder(a, b, b, a);
    PairCountComplement(a, b);
    hide Sum, Spread, PairCount;
  }

  /** U, the variance and p do not depend on the order in which either arm's samples arrive. */
  lemma SampleOrderIrrelevant(a: seq<real>, b: seq<real>, c: seq<real>, d: seq<real>, tail: (real, real) -> real)
    requires |a| >= 2 && |b| >= 2
    requires multiset(a) == multiset(c) && multiset(b) == multiset(d)
    ensures |a| == |c| && |b| == |d|
    ensures PairCount(a, b) == PairCount(c, d)
    ensures PValue(a, b, tail) == PValue(c, d, tail)
  {
    assert |a| == |multiset(a)| == |multiset(c)| == |c|;
    assert |b| == |multiset(b)| == |multiset(d)| == |d|;
    PairCountOrder(a, b, c, d);
    PoolOrder(a, b, c, d);
    hide Sum, Spread, PairCount, PopulationVariance, Mean, Pool;
  }

  lemma PairCountOrder(a: seq<real>, b: seq<real>, c: seq<real>, d: seq<real>)
    requires multiset(a) == multiset(c) && multiset(b) == multiset(d)
    ensures PairCount(a, b) == PairCount(c, d)
  {
    forall y ensures Wins(a)(y) == Wins(c)(y) {
      SumPermutation(a, c, ScoreOver(y));
    }
    SumExtensional(b, Wins(a), Wins(c));
    SumPermutation(b, d, Wins(c));
  }

  /** The spread sees only the values pooled, not their order or the arm they came from. */
  lemma PoolOrder(a: seq<real>, b: seq<real>, c: seq<real>, d: seq<real>)
    requires multiset(a) + multiset(b) == multiset(c) + multiset(d)
    ensures Spread(Pool(a, b)) == Spread(Pool(c, d))
  {
    assert |a| + |b| == |multiset(a) + multiset(b)| == |multiset(c) + multiset(d)| == |c| + |d|;
    var p, q := Pool(a, b), Pool(c, d);
    forall v ensures Less(p, v) == Less(q, v) && Equal(p, v) == Equal(q, v) {
      PoolPermuted(a, b, c, d, IsLess(v), IsLess(v));
      PoolPermuted(a, b, c, d, IsEqual(v), IsEqual(v));
    }
    SpreadDependsOnCounts(p, q);
    PoolPermuted(a, b, c, d, SquaredDeviation(p), SquaredDeviation(q));
  }

  lemma PoolPermuted(a: seq<real>, b: seq<real>, c: seq<real>, d: seq<real>, f: Obs -> real, g: Obs -> real)
    requires multiset(a) + multiset(b) == multiset(c) + multiset(d)
    requires forall x, p, q :: f(Obs(x, p)) == g(Obs(x, q))
    ensures Sum(Pool(a, b), f) == Sum(Pool(c, d), g)
  {
    var h := (x: real) => f(Obs(x, true));
    SumPool(a, b, f, h, h);
    SumPool(c, d, g, h, h);
    SumAppend(a, b, h);
    SumAppend(c, d, h);
    SumPermutation(a + b, c + d, h);
  }
}
