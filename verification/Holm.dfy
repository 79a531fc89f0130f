/**
 The Holm-Bonferroni step-down adjustment of crates/vmcell-bench/src/stats.rs.

 The program sorts once and keeps a running maximum. It is proved equal to closed testing, which
 quantifies over every set of hypotheses, and to the textbook step-down procedure.
 */
module Holm {
  import opened Sorting

  // ---------------------------------------------------------------------------------------------
  // Closed testing
  // ---------------------------------------------------------------------------------------------

  function Clamp(x: real): real {
    if x < 0.0 then 0.0 else if x > 1.0 then 1.0 else x
  }

  /** A p-value multiplied up by a family size, kept a probability. */
  function Scale(c: real, q: real): real {
    Clamp(c * q)
  }

  ghost predicate Family(p: seq<real>, I: set<nat>) {
    I != {} && forall j :: j in I ==> j < |p|
  }

  ghost predicate IsSmallest(p: seq<real>, I: set<nat>, q: real)
    requires Family(p, I)
  {
    && (exists j :: j in I && p[j] == q)
    && (forall j :: j in I ==> q <= p[j])
  }

  /** The smallest p-value of a family of hypotheses. */
  ghost function Smallest(p: seq<real>, I: set<nat>): (q: real)
    requires Family(p, I)
    ensures IsSmallest(p, I, q)
  {
    var j :| j in I;
    if I == {j} then p[j]
    else
      var q := Smallest(p, I - {j});
      assert I == (I - {j}) + {j};
      if q <= p[j] then q else p[j]
  }

  /** The Bonferroni p-value of the intersection hypothesis over `I`. */
  ghost function Bonferroni(p: seq<real>, I: set<nat>): real
    requires Family(p, I)
  {
    Scale(|I| as real, Smallest(p, I))
  }

  /** `x` is the closed-testing p-value of hypothesis `i`: the largest over every family holding it. */
  ghost predicate ClosedTesting(p: seq<real>, i: nat, x: real) {
    && (exists I :: Family(p, I) && i in I && Bonferroni(p, I) == x)
    && (forall I :: Family(p, I) && i in I ==> Bonferroni(p, I) <= x)
  }

  // ---------------------------------------------------------------------------------------------
  // The textbook step-down procedure, on sorted p-values
  // ---------------------------------------------------------------------------------------------

  /** How many hypotheses are rejected: the smallest while it clears alpha over those that remain. */
  function StepDown(sorted: seq<real>, alpha: real): nat {
    if sorted != [] && sorted[0] <= alpha / |sorted| as real then 1 + StepDown(sorted[1..], alpha) else 0
  }

  function PValueOf(p: seq<real>): nat -> real {
    (i: nat) => if i < |p| then p[i] else 1.0
  }

  ghost predicate Distinct(order: seq<nat>) {
    forall j, k :: 0 <= j < k < |order| ==> order[j] != order[k]
  }

  /** `order` lists every index once. */
  ghost predicate Indices(p: seq<real>, order: seq<nat>) {
    |order| == |p| && Distinct(order) && forall k :: 0 <= k < |order| ==> order[k] < |p|
  }

  /** `order` lists every index once, by ascending p-value. */
  ghost predicate IsOrder(p: seq<real>, order: seq<nat>) {
    Indices(p, order) && forall j, k :: 0 <= j <= k < |order| ==> p[order[j]] <= p[order[k]]
  }

  function Scaled(p: seq<real>, order: seq<nat>, rank: nat): real
    requires rank < |order| == |p| && order[rank] < |p|
  {
    Scale((|p| - rank) as real, p[order[rank]])
  }

  /** The running maximum after the hypothesis at `rank`. */
  function Running(p: seq<real>, order: seq<nat>, rank: nat): (x: real)
    requires rank < |order| == |p| && forall k :: 0 <= k < |order| ==> order[k] < |p|
  {
    var before := if rank == 0 then 0.0 else Running(p, order, rank - 1);
    if before < Scaled(p, order, rank) then Scaled(p, order, rank) else before
  }

  // ---------------------------------------------------------------------------------------------
  // The program
  // ---------------------------------------------------------------------------------------------

  /** The step-down walk: each slot receives the running maximum at its rank. */
  method Walk(p: seq<real>, order: seq<nat>) returns (adjusted: seq<real>)
    requires Indices(p, order)
    ensures |adjusted| == |p|
    ensures forall k :: 0 <= k < |p| ==> adjusted[order[k]] == Running(p, order, k)
  {
    hide Scale, Running, Distinct;
    var n := |p|;
    var slots := new real[n](_ => 1.0);
    var runningMax := 0.0;
    for rank := 0 to n
      invariant runningMax == if rank == 0 then 0.0 else Running(p, order, rank - 1)
      invariant forall k :: 0 <= k < rank ==> slots[order[k]] == Running(p, order, k)
    {
      var index := order[rank];
      var scaled := Scale((n - rank) as real, p[index]);
      runningMax := if runningMax < scaled then scaled else runningMax;
      RunningStep(p, order, rank);
      FreshSlot(order, rank);
      slots[index] := runningMax;
    }
    adjusted := slots[..];
  }

  lemma RunningStep(p: seq<real>, order: seq<nat>, rank: nat)
    requires rank < |order| == |p| && forall k :: 0 <= k < |order| ==> order[k] < |p|
    ensures var before := if rank == 0 then 0.0 else Running(p, order, rank - 1);
            var scaled := Scale((|p| - rank) as real, p[order[rank]]);
            Running(p, order, rank) == if before < scaled then scaled else before
  {
  }

  lemma FreshSlot(order: seq<nat>, rank: nat)
    requires Distinct(order) && rank < |order|
    ensures forall k :: 0 <= k < rank ==> order[k] != order[rank]
  {
  }

  method Adjust(p: seq<real>) returns (adjusted: seq<real>)
    ensures |adjusted| == |p|
    ensures forall i :: 0 <= i < |p| ==> ClosedTesting(p, i, adjusted[i])
  {
    var n := |p|;
    if n == 0 {
      return [];
    }
    var order := SortBy<nat>(Iota(n), PValueOf(p));
    SortedIndices(p, order);
    hide SortBy, ClosedTesting;
    adjusted := Walk(p, order);
    forall i | 0 <= i < n ensures ClosedTesting(p, i, adjusted[i]) {
      var k := RankOf(p, order, i);
      RunningIsClosedTesting(p, order, k);
    }
  }

  // ---------------------------------------------------------------------------------------------
  // The sorted index vector
  // ---------------------------------------------------------------------------------------------

  lemma Occurrences<T>(s: seq<T>, j: nat, k: nat)
    requires j < k < |s| && s[j] == s[k]
    ensures multiset(s)[s[j]] >= 2
  {
    assert s == s[..k] + s[k..];
    assert s[j] in s[..k] && s[k] in s[k..];
  }

  function Iota(n: nat): (s: seq<nat>)
    ensures |s| == n
  {
    if n == 0 then [] else Iota(n - 1) + [n - 1]
  }

  lemma {:induction false} IotaOccurrences(n: nat, x: nat)
    ensures multiset(Iota(n))[x] == if x < n then 1 else 0
  {
    if n == 0 {
    } else {
      IotaOccurrences(n - 1, x);
    }
  }

  lemma SortedIndices(p: seq<real>, order: seq<nat>)
    requires order == SortBy<nat>(Iota(|p|), PValueOf(p))
    ensures IsOrder(p, order)
  {
    hide SortBy, Iota;
    SortByCorrect<nat>(Iota(|p|), PValueOf(p));
    forall k | 0 <= k < |order| ensures order[k] < |p| {
      assert order[k] in multiset(order);
      IotaOccurrences(|p|, order[k]);
    }
    forall j, k | 0 <= j < k < |order| ensures order[j] != order[k] {
      if order[j] == order[k] {
        Occurrences(order, j, k);
        IotaOccurrences(|p|, order[j]);
      }
    }
    forall j, k | 0 <= j <= k < |order| ensures p[order[j]] <= p[order[k]] {
      assert PValueOf(p)(order[j]) <= PValueOf(p)(order[k]);
    }
  }

  /** The indices at `rank` and later in the order. */
  ghost function From(order: seq<nat>, rank: nat): (I: set<nat>)
    requires rank <= |order|
    ensures forall k :: rank <= k < |order| ==> order[k] in I
    ensures forall x :: x in I ==> exists k :: rank <= k < |order| && order[k] == x
  {
    set k | rank <= k < |order| :: order[k]
  }

  lemma {:induction false} FromSize(order: seq<nat>, rank: nat)
    requires rank <= |order|
    requires Distinct(order)
    ensures |From(order, rank)| == |order| - rank
    decreases |order| - rank
  {
    if rank == |order| {
    } else {
      FromSize(order, rank + 1);
      assert order[rank] !in From(order, rank + 1);
      assert From(order, rank) == {order[rank]} + From(order, rank + 1);
    }
  }

  ghost function Below(n: nat): (I: set<nat>)
    ensures forall k: nat :: k in I <==> k < n
    ensures |I| == n
  {
    if n == 0 then {} else Below(n - 1) + {n - 1}
  }

  lemma {:induction false} SubsetSize<T>(a: set<T>, b: set<T>)
    requires a <= b
    ensures |a| <= |b|
    ensures |a| == |b| ==> a == b
  {
    if a == {} {
    } else {
      var x :| x in a;
      SubsetSize(a - {x}, b - {x});
    }
  }

  /** Every index has a rank. */
  lemma RankOf(p: seq<real>, order: seq<nat>, i: nat) returns (rank: nat)
    requires IsOrder(p, order) && i < |p|
    ensures rank < |p| && order[rank] == i
  {
    FromSize(order, 0);
    SubsetSize(From(order, 0), Below(|p|));
    assert i in Below(|p|);
    rank :| 0 <= rank < |order| && order[rank] == i;
  }

  // ---------------------------------------------------------------------------------------------
  // The running maximum is the closed-testing maximum
  // ---------------------------------------------------------------------------------------------

  lemma SmallestIs(p: seq<real>, I: set<nat>, j: nat)
    requires Family(p, I) && j in I && forall k :: k in I ==> p[j] <= p[k]
    ensures Smallest(p, I) == p[j]
  {
  }

  /** Scaling up the factor cannot lower a clamped product. */
  lemma ScaleUp(c: real, d: real, q: real)
    requires 0.0 <= c <= d
    ensures Scale(c, q) <= Scale(d, q)
  {
    if q >= 0.0 {
      assert (d - c) * q >= 0.0;
    } else {
      assert c * -q >= 0.0;
    }
  }

  /** The family's member of least rank decides its smallest p-value. */
  lemma LeastRank(p: seq<real>, order: seq<nat>, I: set<nat>, r: nat) returns (k: nat)
    requires IsOrder(p, order) && Family(p, I) && r < |p| && order[r] in I
    ensures k <= r && order[k] in I && I <= From(order, k) && Smallest(p, I) == p[order[k]]
  {
    k := 0;
    while order[k] !in I
      invariant k <= r && forall j :: 0 <= j < k ==> order[j] !in I
      decreases r - k
    {
      k := k + 1;
    }
    forall i | i in I ensures i in From(order, k) && p[order[k]] <= p[i] {
      var rank := RankOf(p, order, i);
    }
    SmallestIs(p, I, order[k]);
  }

  lemma {:induction false} RunningIsMax(p: seq<real>, order: seq<nat>, r: nat) returns (k: nat)
    requires IsOrder(p, order) && r < |p|
    ensures k <= r && Running(p, order, r) == Scaled(p, order, k)
    ensures forall j :: 0 <= j <= r ==> Scaled(p, order, j) <= Running(p, order, r)
  {
    if r == 0 {
      k := 0;
    } else {
      k := RunningIsMax(p, order, r - 1);
      if Running(p, order, r) == Scaled(p, order, r) {
        k := r;
      }
    }
  }

  lemma RunningIsClosedTesting(p: seq<real>, order: seq<nat>, r: nat)
    requires IsOrder(p, order) && r < |p|
    ensures ClosedTesting(p, order[r], Running(p, order, r))
  {
    hide Bonferroni, Running, From;
    var x := Running(p, order, r);
    var k := RunningIsMax(p, order, r);
    forall I | Family(p, I) && order[r] in I ensures Bonferroni(p, I) <= x {
      var j := FamilyBounded(p, order, I, r);
      assert Scaled(p, order, j) <= x;
    }
    ScaledIsBonferroni(p, order, k);
    assert order[r] in From(order, k);
  }

  /** A family's Bonferroni p-value is at most the scaled value at the rank of its first member. */
  lemma FamilyBounded(p: seq<real>, order: seq<nat>, I: set<nat>, r: nat) returns (j: nat)
    requires IsOrder(p, order) && Family(p, I) && r < |p| && order[r] in I
    ensures j <= r && Bonferroni(p, I) <= Scaled(p, order, j)
  {
    hide Scale, Smallest, From;
    j := LeastRank(p, order, I, r);
    FromSize(order, j);
    SubsetSize(I, From(order, j));
    ScaleUp(|I| as real, (|p| - j) as real, p[order[j]]);
  }

  /** The scaled value at a rank is the Bonferroni p-value of everything from that rank on. */
  lemma ScaledIsBonferroni(p: seq<real>, order: seq<nat>, k: nat)
    requires IsOrder(p, order) && k < |p|
    ensures Family(p, From(order, k)) && Bonferroni(p, From(order, k)) == Scaled(p, order, k)
  {
    hide Scale, Smallest, From;
    var I := From(order, k);
    FromSize(order, k);
    assert order[k] in I;
    SmallestIs(p, I, order[k]);
  }

  /** At most one value is the closed-testing p-value, so tie breaking cannot matter. */
  lemma ClosedTestingUnique(p: seq<real>, i: nat, x: real, y: real)
    requires ClosedTesting(p, i, x) && ClosedTesting(p, i, y)
    ensures x == y
  {
  }

  // ---------------------------------------------------------------------------------------------
  // What the adjusted values promise
  // ---------------------------------------------------------------------------------------------

  /**
   Family-wise error control: if a member of a set of true hypotheses clears alpha after adjustment,
   the smallest raw p-value of the set already clears alpha divided by its size.
   */
  lemma ErrorControl(p: seq<real>, T: set<nat>, i: nat, x: real, alpha: real)
    requires Family(p, T) && i in T && ClosedTesting(p, i, x)
    requires x <= alpha < 1.0
    ensures Smallest(p, T) <= alpha / |T| as real
  {
    var q, m := Smallest(p, T), |T| as real;
    assert Bonferroni(p, T) <= x;
    ScaleBound(m, q, alpha);
    hide Scale, Smallest;
  }

  lemma ScaleBound(m: real, q: real, alpha: real)
    requires m > 0.0 && 0.0 <= alpha < 1.0
    ensures Scale(m, q) <= alpha <==> q <= alpha / m
  {
    DivideBound(q, m, alpha);
  }

  lemma DivideBound(q: real, m: real, alpha: real)
    requires m > 0.0
    ensures m * q <= alpha <==> q <= alpha / m
  {
    var a := alpha / m;
    assert a * m == alpha;
    if q <= a {
      assert (a - q) * m >= 0.0;
    } else {
      assert (q - a) * m > 0.0;
    }
  }

  /** Never below the raw p-value, never above plain Bonferroni's. */
  lemma BetweenRawAndBonferroni(p: seq<real>, i: nat, x: real)
    requires i < |p| && 0.0 <= p[i] <= 1.0 && ClosedTesting(p, i, x)
    ensures p[i] <= x <= Scale(|p| as real, p[i])
  {
    SmallestIs(p, {i}, i);
    assert Scale(1.0, p[i]) == p[i];
    hide Scale, Smallest;
    assert Bonferroni(p, {i}) == p[i];
    var I :| Family(p, I) && i in I && Bonferroni(p, I) == x;
    SubsetSize(I, Below(|p|));
    ScaleUp(|I| as real, |p| as real, Smallest(p, I));
    ScaleMonotone(|p| as real, Smallest(p, I), p[i]);
  }

  /**
   How much the step-down wins over plain Bonferroni: an adjusted value below one is strictly smaller
   than Bonferroni's exactly for the hypotheses whose p-value is not the smallest.
   */
  lemma BelowBonferroniIff(p: seq<real>, i: nat, x: real)
    requires i < |p| && ClosedTesting(p, i, x) && forall j :: 0 <= j < |p| ==> 0.0 <= p[j] <= 1.0
    ensures x < Scale(|p| as real, p[i]) <==> x < 1.0 && exists j :: 0 <= j < |p| && p[j] < p[i]
  {
    hide Smallest;
    if j :| 0 <= j < |p| && p[j] < p[i] {
      var I :| Family(p, I) && i in I && Bonferroni(p, I) == x;
      SmallerFamily(p, I, i, j);
    } else {
      SmallestGainsNothing(p, i, x);
    }
  }

  /** The Bonferroni p-value of a family, before clamping, is below that of all hypotheses at a p-value above the least. */
  lemma SmallerFamily(p: seq<real>, I: set<nat>, i: nat, j: nat)
    requires Family(p, I) && i in I && j < |p| && 0.0 <= p[j] < p[i]
    requires forall k :: 0 <= k < |p| ==> 0.0 <= p[k]
    ensures |I| as real * Smallest(p, I) < |p| as real * p[i]
  {
    hide Smallest;
    FamilyFacts(p, I, i, j);
    FamilyProduct(|I| as real, |p| as real, Smallest(p, I), p[i]);
  }

  lemma FamilyFacts(p: seq<real>, I: set<nat>, i: nat, j: nat)
    requires Family(p, I) && i in I && j < |p| && p[j] < p[i]
    requires forall k :: 0 <= k < |p| ==> 0.0 <= p[k]
    ensures 0 < |I| <= |p| && 0.0 <= Smallest(p, I) <= p[i] && (|I| == |p| ==> Smallest(p, I) < p[i])
  {
    hide Smallest;
    SubsetSize(I, Below(|p|));
    assert IsSmallest(p, I, Smallest(p, I));
    if |I| == |p| {
      assert j in I;
    }
  }

  lemma FamilyProduct(m: real, n: real, q: real, r: real)
    requires 0.0 < m <= n && 0.0 <= q <= r && r > 0.0 && (m == n ==> q < r)
    ensures m * q < n * r
  {
    if m == n {
      StrictProduct(n, q, r);
    } else {
      ProductMonotone(m, q, r, m * q, m * r);
      StrictProduct(r, m, n);
    }
  }

  lemma StrictProduct(c: real, q: real, r: real)
    requires c > 0.0 && q < r
    ensures c * q < c * r && q * c < r * c
  {
    var d := r - q;
    assert c * d > 0.0;
  }

  /** A smallest p-value adjusts to exactly Bonferroni's. */
  lemma SmallestGainsNothing(p: seq<real>, i: nat, x: real)
    requires i < |p| && ClosedTesting(p, i, x) && forall j :: 0 <= j < |p| ==> p[i] <= p[j]
    ensures x >= Scale(|p| as real, p[i])
  {
    hide Scale, Smallest;
    SmallestIs(p, Below(|p|), i);
    assert Bonferroni(p, Below(|p|)) <= x;
  }

  /** Two equal p-values: both adjust to exactly Bonferroni's, though one of them comes second. */
  lemma TiesGainNothing()
    ensures var p := [0.01, 0.01]; ClosedTesting(p, 0, 0.02) && ClosedTesting(p, 1, 0.02) && Scale(2.0, 0.01) == 0.02
  {
    var p := [0.01, 0.01];
    forall i | 0 <= i < 2 ensures ClosedTesting(p, i, 0.02) {
      TiedPair(p, i);
    }
  }

  lemma TiedPair(p: seq<real>, i: nat)
    requires p == [0.01, 0.01] && i < 2
    ensures ClosedTesting(p, i, 0.02)
  {
    hide Smallest;
    forall I | Family(p, I) ensures Bonferroni(p, I) == (if |I| == 2 then 0.02 else 0.01) {
      SubsetSize(I, Below(2));
      assert IsSmallest(p, I, Smallest(p, I));
      assert |I| == 1 || |I| == 2;
    }
    assert Family(p, Below(2)) && i in Below(2) && Bonferroni(p, Below(2)) == 0.02;
  }

  lemma ScaleMonotone(c: real, q: real, r: real)
    requires c >= 0.0 && q <= r
    ensures Scale(c, q) <= Scale(c, r)
  {
    ProductMonotone(c, q, r, c * q, c * r);
  }

  lemma ProductMonotone(c: real, q: real, r: real, x: real, y: real)
    requires c >= 0.0 && q <= r && x == c * q && y == c * r
    ensures x <= y
  {
    var d := r - q;
    NonnegativeProduct(c, d);
    assert y - x == c * d;
  }

  /** The adjusted column never inverts the order of the raw one. */
  lemma KeepsOrder(p: seq<real>, i: nat, j: nat, x: real, y: real)
    requires i < |p| && j < |p| && p[i] <= p[j]
    requires ClosedTesting(p, i, x) && ClosedTesting(p, j, y)
    ensures x <= y
  {
    hide Scale, Smallest;
    var I :| Family(p, I) && i in I && Bonferroni(p, I) == x;
    var J := I + {j};
    SubsetSize(I, J);
    var k :| k in I && p[k] == Smallest(p, I);
    SmallestIs(p, J, k);
    ScaleUp(|I| as real, |J| as real, p[k]);
    assert Bonferroni(p, J) <= y;
  }

  /** Listing the hypotheses in another order permutes the adjusted values the same way. */
  lemma OrderIrrelevant(p: seq<real>, q: seq<real>, pi: seq<nat>, i: nat, x: real)
    requires |q| == |p| == |pi| && i < |p|
    requires forall k :: 0 <= k < |pi| ==> pi[k] < |p| && q[k] == p[pi[k]]
    requires Distinct(pi)
    requires ClosedTesting(q, i, x)
    ensures ClosedTesting(p, pi[i], x)
  {
    var I :| Family(q, I) && i in I && Bonferroni(q, I) == x;
    ImageBonferroni(p, q, pi, I);
    assert pi[i] in Image(pi, I);
    forall J | Family(p, J) && pi[i] in J ensures Bonferroni(p, J) <= x {
      var K := set k: nat | k < |pi| && pi[k] in J;
      Surjective(pi, J, K);
      ImageBonferroni(p, q, pi, K);
    }
  }

  ghost function Image(pi: seq<nat>, I: set<nat>): set<nat>
    requires forall k :: k in I ==> k < |pi|
  {
    set k | k in I :: pi[k]
  }

  lemma {:induction false} ImageSize(pi: seq<nat>, I: set<nat>)
    requires forall k :: k in I ==> k < |pi|
    requires Distinct(pi)
    ensures |Image(pi, I)| == |I|
  {
    if I == {} {
    } else {
      var k :| k in I;
      ImageSize(pi, I - {k});
      assert Image(pi, I) == Image(pi, I - {k}) + {pi[k]};
    }
  }

  lemma ImageBonferroni(p: seq<real>, q: seq<real>, pi: seq<nat>, I: set<nat>)
    requires |q| == |p| == |pi| && Family(q, I)
    requires forall k :: 0 <= k < |pi| ==> pi[k] < |p| && q[k] == p[pi[k]]
    requires Distinct(pi)
    ensures Family(p, Image(pi, I)) && Bonferroni(p, Image(pi, I)) == Bonferroni(q, I)
  {
    hide Scale;
    ImageSize(pi, I);
    assert IsSmallest(q, I, Smallest(q, I));
    var k :| k in I && q[k] == Smallest(q, I);
    assert pi[k] in Image(pi, I);
    assert IsSmallest(q, I, q[k]);
    forall j | j in Image(pi, I) ensures p[pi[k]] <= p[j] {
      var i :| i in I && pi[i] == j;
      assert q[k] <= q[i];
    }
    SmallestIs(p, Image(pi, I), pi[k]);
  }

  lemma Surjective(pi: seq<nat>, J: set<nat>, K: set<nat>)
    requires forall k :: 0 <= k < |pi| ==> pi[k] < |pi|
    requires Distinct(pi)
    requires forall j :: j in J ==> j < |pi|
    requires K == set k: nat | k < |pi| && pi[k] in J
    ensures Image(pi, K) == J
  {
    FromSize(pi, 0);
    SubsetSize(From(pi, 0), Below(|pi|));
    forall j | j in J ensures j in Image(pi, K) {
      assert j in From(pi, 0);
      var k :| 0 <= k < |pi| && pi[k] == j;
      assert k in K;
    }
  }

  // ---------------------------------------------------------------------------------------------
  // Agreement with the step-down procedure
  // ---------------------------------------------------------------------------------------------

  function SortedValues(p: seq<real>, order: seq<nat>): (s: seq<real>)
    requires forall k :: 0 <= k < |order| ==> order[k] < |p|
    ensures |s| == |order| && forall k :: 0 <= k < |s| ==> s[k] == p[order[k]]
  {
    seq(|order|, k requires 0 <= k < |order| => p[order[k]])
  }

  lemma {:induction false} StepDownPrefix(s: seq<real>, alpha: real, r: nat)
    requires r < |s|
    ensures r < StepDown(s, alpha) <==> forall k :: 0 <= k <= r ==> s[k] <= alpha / (|s| - k) as real
  {
    if r == 0 || s[0] > alpha / |s| as real {
    } else {
      StepDownPrefix(s[1..], alpha, r - 1);
      assert forall k :: 1 <= k < |s| ==> s[1..][k - 1] == s[k] && |s[1..]| - (k - 1) == |s| - k;
    }
  }

  /** An adjusted value is at most alpha exactly when the step-down procedure rejects the hypothesis. */
  lemma StepDownAgrees(p: seq<real>, order: seq<nat>, r: nat, x: real, alpha: real)
    requires IsOrder(p, order) && r < |p|
    requires ClosedTesting(p, order[r], x)
    requires alpha < 1.0
    requires 0.0 <= alpha || forall k :: 0 <= k < |p| ==> 0.0 <= p[k]
    ensures x <= alpha <==> r < StepDown(SortedValues(p, order), alpha)
  {
    if alpha < 0.0 {
      NegativeLevel(p, order, r, x, alpha);
    } else {
      NonnegativeLevel(p, order, r, x, alpha);
    }
  }

  /** Below level zero nothing is rejected by either. */
  lemma NegativeLevel(p: seq<real>, order: seq<nat>, r: nat, x: real, alpha: real)
    requires IsOrder(p, order) && r < |p| && ClosedTesting(p, order[r], x)
    requires alpha < 0.0 && forall k :: 0 <= k < |p| ==> 0.0 <= p[k]
    ensures x > alpha && StepDown(SortedValues(p, order), alpha) == 0
  {
    hide Smallest, StepDown;
    assert x >= 0.0;
    NothingRejected(SortedValues(p, order), alpha);
  }

  lemma NothingRejected(sorted: seq<real>, alpha: real)
    requires sorted != [] && sorted[0] >= 0.0 && alpha < 0.0
    ensures StepDown(sorted, alpha) == 0
  {
    var q, m := sorted[0], |sorted| as real;
    DivideBound(q, m, alpha);
    NonnegativeProduct(m, q);
  }

  lemma NonnegativeProduct(m: real, q: real)
    requires m >= 0.0 && q >= 0.0
    ensures m * q >= 0.0
  {
  }

  lemma NonnegativeLevel(p: seq<real>, order: seq<nat>, r: nat, x: real, alpha: real)
    requires IsOrder(p, order) && r < |p| && ClosedTesting(p, order[r], x)
    requires 0.0 <= alpha < 1.0
    ensures x <= alpha <==> r < StepDown(SortedValues(p, order), alpha)
  {
    hide Scale, Running, Smallest, ClosedTesting, StepDown;
    RunningIsClosedTesting(p, order, r);
    ClosedTestingUnique(p, order[r], x, Running(p, order, r));
    var s := SortedValues(p, order);
    var k := RunningIsMax(p, order, r);
    forall j | 0 <= j <= r ensures Scaled(p, order, j) <= alpha <==> s[j] <= alpha / (|s| - j) as real {
      ScaleBound((|s| - j) as real, s[j], alpha);
    }
    StepDownPrefix(s, alpha, r);
  }
}
