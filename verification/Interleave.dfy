/**
 The interleaved A/B execution plan of crates/vmcell-bench/src/ab.rs: every (spec, repeat) runs all
 arms back to back, and the arm that leads rotates with repeat + spec index.
 */
module Interleave {

  datatype Spec = Spec(backend: string, mode: string, extraArgs: seq<string>)

  datatype Run = Run(arm: string, spec: Spec, repetition: nat)

  /** A cell of the matrix by position: arm labels and specs may repeat, positions do not. */
  datatype Cell = Cell(arm: nat, spec: nat, repetition: nat)

  // ---------------------------------------------------------------------------------------------
  // The plan in closed form
  // ---------------------------------------------------------------------------------------------

  /** The position, among `arms`, of the arm that leads a block. */
  function Lead(arms: nat, spec: nat, repetition: nat): (a: nat)
    requires arms > 0
    ensures a < arms
  {
    (repetition + spec) % arms
  }

  /** The cell executed at step `k` of a plan over `arms` arms and `specs` specs. */
  function CellAt(arms: nat, specs: nat, k: nat): Cell
    requires arms > 0 && specs > 0
  {
    var spec := (k / arms) % specs;
    var repetition := (k / arms) / specs;
    Cell((Lead(arms, spec, repetition) + k % arms) % arms, spec, repetition)
  }

  /** The step at which a cell is executed. */
  function StepOf(arms: nat, specs: nat, c: Cell): (k: nat)
    requires c.arm < arms && c.spec < specs
  {
    var lead := Lead(arms, c.spec, c.repetition);
    var offset := if c.arm >= lead then c.arm - lead else c.arm + arms - lead;
    (c.repetition * specs + c.spec) * arms + offset
  }

  predicate InMatrix(arms: nat, specs: nat, repeats: nat, c: Cell) {
    c.arm < arms && c.spec < specs && c.repetition < repeats
  }

  // ---------------------------------------------------------------------------------------------
  // The program
  // ---------------------------------------------------------------------------------------------

  method Plan(arms: seq<string>, specs: seq<Spec>, repeats: nat) returns (plan: seq<Run>)
    ensures |plan| == repeats * |specs| * |arms|
    ensures forall k :: 0 <= k < |plan| ==>
              && InMatrix(|arms|, |specs|, repeats, CellAt(|arms|, |specs|, k))
              && var c := CellAt(|arms|, |specs|, k); plan[k] == Run(arms[c.arm], specs[c.spec], c.repetition)
  {
    plan := [];
    var n, m := |arms|, |specs|;
    if n == 0 || m == 0 || repeats == 0 {
      return;
    }
    for repetition := 0 to repeats
      invariant |plan| == repetition * m * n
      invariant Follows(arms, specs, repeats, plan)
    {
      for spec := 0 to m
        invariant |plan| == (repetition * m + spec) * n
        invariant Follows(arms, specs, repeats, plan)
      {
        var lead := (repetition + spec) % n;
        for offset := 0 to n
          invariant |plan| == (repetition * m + spec) * n + offset
          invariant Follows(arms, specs, repeats, plan)
        {
          CellOfBlock(n, m, spec, repetition, offset);
          plan := plan + [Run(arms[(lead + offset) % n], specs[spec], repetition)];
        }
        NextBlock(repetition * m + spec, n);
      }
      NextRepetition(repetition, m, n);
    }
  }

  ghost predicate Follows(arms: seq<string>, specs: seq<Spec>, repeats: nat, plan: seq<Run>)
    requires arms != [] && specs != []
  {
    forall k :: 0 <= k < |plan| ==>
      && InMatrix(|arms|, |specs|, repeats, CellAt(|arms|, |specs|, k))
      && var c := CellAt(|arms|, |specs|, k); plan[k] == Run(arms[c.arm], specs[c.spec], c.repetition)
  }

  lemma NextBlock(block: nat, n: nat)
    ensures (block + 1) * n == block * n + n
  {
  }

  lemma NextRepetition(repetition: nat, m: nat, n: nat)
    ensures (repetition * m + m) * n == (repetition + 1) * m * n
  {
    assert repetition * m + m == (repetition + 1) * m;
  }

  lemma MulMonotone(x: nat, y: nat, n: nat)
    requires x <= y
    ensures x * n <= y * n
  {
  }

  lemma MulDifference(x: int, y: int, n: int)
    ensures (x - y) * n == x * n - y * n
  {
  }

  lemma Division(x: nat, n: nat)
    requires n > 0
    ensures x == x / n * n + x % n && x % n < n
  {
  }

  /** Division with remainder is unique. */
  lemma DivMod(q: nat, n: nat, r: nat)
    requires r < n
    ensures (q * n + r) / n == q && (q * n + r) % n == r
  {
    var k := q * n + r;
    var d, e := k / n, k % n;
    assert d * n + e == k;
    MulDifference(d, q, n);
    if d != q {
      MulMonotone(1, if d > q then d - q else q - d, n);
      MulDifference(q, d, n);
    }
  }

  lemma CellOfBlock(arms: nat, specs: nat, spec: nat, repetition: nat, offset: nat)
    requires spec < specs && offset < arms
    ensures CellAt(arms, specs, (repetition * specs + spec) * arms + offset)
         == Cell((Lead(arms, spec, repetition) + offset) % arms, spec, repetition)
  {
    DivMod(repetition * specs + spec, arms, offset);
    DivMod(repetition, specs, spec);
  }

  // ---------------------------------------------------------------------------------------------
  // Every cell exactly once, in rotated blocks
  // ---------------------------------------------------------------------------------------------

  lemma RotateBack(arms: nat, lead: nat, arm: nat)
    requires lead < arms && arm < arms
    ensures var offset := if arm >= lead then arm - lead else arm + arms - lead;
            offset < arms && (lead + offset) % arms == arm
  {
    if arm < lead {
      DivMod(1, arms, arm);
    }
  }

  /** A step below the plan's length executes a cell of the matrix. */
  lemma StepInMatrix(arms: nat, specs: nat, repeats: nat, k: nat)
    requires arms > 0 && specs > 0 && k < repeats * specs * arms
    ensures InMatrix(arms, specs, repeats, CellAt(arms, specs, k))
  {
    var block := k / arms;
    assert block < repeats * specs by {
      assert block * arms <= k < (repeats * specs) * arms;
    }
    var repetition := block / specs;
    assert repetition * specs <= block < repeats * specs;
    assert repetition < repeats;
  }

  /**
   The plan is a permutation of the matrix: the cell at `StepOf(c)` is `c`, that step lies inside the
   plan, and no other step executes `c`.
   */
  lemma EveryCellOnce(arms: nat, specs: nat, repeats: nat, c: Cell)
    requires InMatrix(arms, specs, repeats, c)
    ensures StepOf(arms, specs, c) < repeats * specs * arms
    ensures CellAt(arms, specs, StepOf(arms, specs, c)) == c
    ensures forall k: nat :: CellAt(arms, specs, k) == c ==> k == StepOf(arms, specs, c)
  {
    CellOfStep(arms, specs, c);
    StepBound(arms, specs, repeats, c);
    forall k: nat | CellAt(arms, specs, k) == c ensures k == StepOf(arms, specs, c) {
      StepUnique(arms, specs, k);
    }
  }

  lemma CellOfStep(arms: nat, specs: nat, c: Cell)
    requires c.arm < arms && c.spec < specs
    ensures CellAt(arms, specs, StepOf(arms, specs, c)) == c
  {
    var lead := Lead(arms, c.spec, c.repetition);
    RotateBack(arms, lead, c.arm);
    CellOfBlock(arms, specs, c.spec, c.repetition, if c.arm >= lead then c.arm - lead else c.arm + arms - lead);
  }

  lemma StepBound(arms: nat, specs: nat, repeats: nat, c: Cell)
    requires InMatrix(arms, specs, repeats, c)
    ensures StepOf(arms, specs, c) < repeats * specs * arms
  {
    var block := c.repetition * specs + c.spec;
    RotateBack(arms, Lead(arms, c.spec, c.repetition), c.arm);
    MulMonotone(c.repetition + 1, repeats, specs);
    NextBlock(c.repetition, specs);
    MulMonotone(block + 1, repeats * specs, arms);
    NextBlock(block, arms);
  }

  lemma StepUnique(arms: nat, specs: nat, k: nat)
    requires arms > 0 && specs > 0
    ensures var c := CellAt(arms, specs, k);
            c.arm < arms && c.spec < specs && StepOf(arms, specs, c) == k
  {
    var c := CellAt(arms, specs, k);
    OffsetBack(arms, Lead(arms, c.spec, c.repetition), k % arms);
    assert k == (k / arms) * arms + k % arms;
    assert k / arms == c.repetition * specs + c.spec;
    hide Lead;
  }

  lemma OffsetBack(arms: nat, lead: nat, offset: nat)
    requires lead < arms && offset < arms
    ensures var arm := (lead + offset) % arms;
            offset == if arm >= lead then arm - lead else arm + arms - lead
  {
    if lead + offset >= arms {
      DivMod(1, arms, lead + offset - arms);
    }
  }

  /** Steps q*n .. q*n+n-1 share one spec and one repeat and run the arm list rotated by the lead. */
  lemma BlockIsRotation(arms: seq<string>, specs: seq<Spec>, repeats: nat, plan: seq<Run>, block: nat)
    requires arms != [] && specs != []
    requires |plan| == repeats * |specs| * |arms| && Follows(arms, specs, repeats, plan)
    requires block < repeats * |specs|
    ensures block * |arms| + |arms| <= |plan|
    ensures plan[block * |arms|..block * |arms| + |arms|]
         == Block(arms, specs[block % |specs|], block / |specs|, Lead(|arms|, block % |specs|, block / |specs|))
  {
    var n, m := |arms|, |specs|;
    NextBlock(block, n);
    MulMonotone(block + 1, repeats * m, n);
    var spec, repetition := block % m, block / m;
    var base, lead := block * n, Lead(n, spec, repetition);
    assert block == repetition * m + spec;
    hide Lead, Follows;
    forall offset | 0 <= offset < n
      ensures plan[base..base + n][offset] == Block(arms, specs[spec], repetition, lead)[offset]
    {
      RunAt(arms, specs, repeats, plan, spec, repetition, offset);
      RotatedIndex(arms, lead, offset);
    }
  }

  lemma RunAt(arms: seq<string>, specs: seq<Spec>, repeats: nat, plan: seq<Run>, spec: nat, repetition: nat, offset: nat)
    requires spec < |specs| && offset < |arms| && Follows(arms, specs, repeats, plan)
    requires (repetition * |specs| + spec) * |arms| + offset < |plan|
    ensures plan[(repetition * |specs| + spec) * |arms| + offset]
         == Run(arms[(Lead(|arms|, spec, repetition) + offset) % |arms|], specs[spec], repetition)
  {
    CellOfBlock(|arms|, |specs|, spec, repetition, offset);
  }

  /** One (spec, repeat) block: the arm list rotated so that `lead` comes first. */
  function Block(arms: seq<string>, spec: Spec, repetition: nat, lead: nat): (b: seq<Run>)
    requires lead <= |arms|
    ensures |b| == |arms|
  {
    var rotated := arms[lead..] + arms[..lead];
    seq(|arms|, i requires 0 <= i < |arms| => Run(rotated[i], spec, repetition))
  }

  lemma RotatedIndex(arms: seq<string>, lead: nat, offset: nat)
    requires lead < |arms| && offset < |arms|
    ensures (arms[lead..] + arms[..lead])[offset] == arms[(lead + offset) % |arms|]
  {
    var n, k := |arms|, lead + offset;
    if k < n {
      DivMod(0, n, k);
      assert (arms[lead..] + arms[..lead])[offset] == arms[lead..][offset];
    } else {
      DivMod(1, n, k - n);
      assert (arms[lead..] + arms[..lead])[offset] == arms[..lead][k - n];
    }
  }

  // ---------------------------------------------------------------------------------------------
  // Lead balance
  // ---------------------------------------------------------------------------------------------

  /** How many of the integers start .. start+len-1 are congruent to `arm`. */
  function Window(arms: nat, start: nat, len: nat, arm: nat): nat
    requires arms > 0
  {
    if len == 0 then 0
    else Window(arms, start, len - 1, arm) + if (start + len - 1) % arms == arm then 1 else 0
  }

  /** The windows of length `len` that start at first .. first+rows-1, added up. */
  function Grid(arms: nat, first: nat, rows: nat, len: nat, arm: nat): nat
    requires arms > 0
  {
    if rows == 0 then 0 else Grid(arms, first, rows - 1, len, arm) + Window(arms, first + rows - 1, len, arm)
  }

  /** How many of the plan's first `blocks` blocks the arm at position `arm` leads. */
  function LeadCount(arms: nat, specs: nat, blocks: nat, arm: nat): nat
    requires arms > 0 && specs > 0
  {
    if blocks == 0 then 0
    else LeadCount(arms, specs, blocks - 1, arm)
         + if CellAt(arms, specs, (blocks - 1) * arms).arm == arm then 1 else 0
  }

  lemma LeaderOfBlock(arms: nat, specs: nat, repetition: nat, spec: nat)
    requires arms > 0 && spec < specs
    ensures CellAt(arms, specs, (repetition * specs + spec) * arms).arm == (repetition + spec) % arms
  {
    CellOfBlock(arms, specs, spec, repetition, 0);
    DivMod(0, arms, Lead(arms, spec, repetition));
  }

  /** The plan's lead counts, block by block, are window counts summed over the repeats. */
  lemma {:induction false} LeadCountIsGrid(arms: nat, specs: nat, repeats: nat, spec: nat, arm: nat)
    requires arms > 0 && spec <= specs && specs > 0
    ensures LeadCount(arms, specs, repeats * specs + spec, arm)
         == Grid(arms, 0, repeats, specs, arm) + Window(arms, repeats, spec, arm)
    decreases repeats, spec
  {
    hide CellAt;
    if spec > 0 {
      LeadCountIsGrid(arms, specs, repeats, spec - 1, arm);
      LeaderOfBlock(arms, specs, repeats, spec - 1);
    } else if repeats > 0 {
      LeadCountIsGrid(arms, specs, repeats - 1, specs, arm);
      NextBlock(repeats - 1, specs);
    }
  }

  lemma {:induction false} WindowSplit(arms: nat, start: nat, len: nat, more: nat, arm: nat)
    requires arms > 0
    ensures Window(arms, start, len + more, arm) == Window(arms, start, len, arm) + Window(arms, start + len, more, arm)
  {
    if more == 0 {
    } else {
      WindowSplit(arms, start, len, more - 1, arm);
    }
  }

  /** Rows and columns of the grid may be exchanged. */
  lemma {:induction false} GridTranspose(arms: nat, first: nat, rows: nat, len: nat, arm: nat)
    requires arms > 0
    ensures Grid(arms, first, rows, len, arm) == Grid(arms, first, len, rows, arm)
    decreases rows + len
  {
    if rows == 0 {
      GridOfNothing(arms, first, len, arm);
    } else if len == 0 {
      GridOfNothing(arms, first, rows, arm);
    } else {
      GridTranspose(arms, first, rows - 1, len, arm);
      GridTranspose(arms, first, rows, len - 1, arm);
      GridTranspose(arms, first, rows - 1, len - 1, arm);
    }
  }

  lemma {:induction false} GridOfNothing(arms: nat, first: nat, rows: nat, arm: nat)
    requires arms > 0
    ensures Grid(arms, first, rows, 0, arm) == 0
  {
    if rows == 0 {
    } else {
      GridOfNothing(arms, first, rows - 1, arm);
    }
  }

  /** Fewer than `arms` integers apart, two numbers cannot be congruent. */
  lemma Congruent(arms: nat, x: nat, y: nat)
    requires x <= y < x + arms && x % arms == y % arms
    ensures x == y
  {
    var d := y / arms - x / arms;
    assert x == (x / arms) * arms + x % arms && y == (y / arms) * arms + y % arms;
    MulDifference(y / arms, x / arms, arms);
    if d != 0 {
      MulMonotone(1, if d > 0 then d else -d, arms);
      MulDifference(0, d, arms);
    }
  }

  /** A window no longer than `arms` meets a residue at most once, and exactly once when it is full. */
  lemma {:induction false} WindowAtMostOne(arms: nat, start: nat, len: nat, arm: nat)
    requires 0 < arms && len <= arms
    ensures Window(arms, start, len, arm) <= 1
    ensures Window(arms, start, len, arm) == 1 <==> exists t :: start <= t < start + len && t % arms == arm
  {
    if len == 0 {
    } else {
      WindowAtMostOne(arms, start, len - 1, arm);
      var last := start + len - 1;
      if last % arms == arm && Window(arms, start, len - 1, arm) == 1 {
        var t :| start <= t < last && t % arms == arm;
        Congruent(arms, t, last);
      }
    }
  }

  lemma FullWindow(arms: nat, start: nat, arm: nat)
    requires arm < arms
    ensures Window(arms, start, arms, arm) == 1
  {
    WindowAtMostOne(arms, start, arms, arm);
    var lead := start % arms;
    RotateBack(arms, lead, arm);
    var offset := if arm >= lead then arm - lead else arm + arms - lead;
    ModAdd(arms, start, offset);
    assert start <= start + offset < start + arms && (start + offset) % arms == arm;
  }

  lemma ModAdd(n: nat, x: nat, y: nat)
    requires n > 0
    ensures (x + y) % n == (x % n + y) % n
  {
    var q, r := x / n, x % n + y;
    var d, e := r / n, r % n;
    Division(x, n);
    Division(r, n);
    MulDifference(q + d, d, n);
    DivMod(q + d, n, e);
    assert x + y == (q + d) * n + e;
  }

  /** Whole turns contribute equally to every arm: only the length modulo `arms` matters. */
  lemma {:induction false} WindowTurns(arms: nat, start: nat, len: nat, arm: nat)
    requires arm < arms
    ensures Window(arms, start, len, arm) == len / arms + Window(arms, start, len % arms, arm)
  {
    hide Window;
    if len < arms {
      DivMod(0, arms, len);
    } else {
      var less := len - arms;
      WindowTurns(arms, start, less, arm);
      WindowSplit(arms, start, less, arms, arm);
      FullWindow(arms, start + less, arm);
      OneTurn(less, arms);
    }
  }

  lemma OneTurn(k: nat, n: nat)
    requires n > 0
    ensures (k + n) / n == k / n + 1 && (k + n) % n == k % n
  {
    assert k == (k / n) * n + k % n;
    NextBlock(k / n, n);
    DivMod(k / n + 1, n, k % n);
  }

  lemma GridTurns(arms: nat, first: nat, rows: nat, len: nat, arm: nat)
    requires arm < arms
    ensures Grid(arms, first, rows, len, arm) == rows * (len / arms) + Grid(arms, first, rows, len % arms, arm)
  {
    GridOfTurns(arms, first, rows, len, arm, len / arms, len % arms);
  }

  lemma {:induction false} GridOfTurns(arms: nat, first: nat, rows: nat, len: nat, arm: nat, turns: nat, left: nat)
    requires arm < arms && turns == len / arms && left == len % arms
    ensures Grid(arms, first, rows, len, arm) == rows * turns + Grid(arms, first, rows, left, arm)
  {
    hide Window;
    if rows == 0 {
    } else {
      GridOfTurns(arms, first, rows - 1, len, arm, turns, left);
      WindowTurns(arms, first + rows - 1, len, arm);
      NextBlock(rows - 1, turns);
    }
  }

  /** The lead count is a constant plus the count over the remainders of both dimensions. */
  lemma GridRemainders(arms: nat, rows: nat, len: nat, arm: nat)
    requires arm < arms
    ensures Grid(arms, 0, rows, len, arm)
         == rows * (len / arms) + (len % arms) * (rows / arms) + Grid(arms, 0, rows % arms, len % arms, arm)
  {
    GridTurns(arms, 0, rows, len, arm);
    GridTranspose(arms, 0, rows, len % arms, arm);
    GridTurns(arms, 0, len % arms, rows, arm);
    GridTranspose(arms, 0, len % arms, rows % arms, arm);
  }

  lemma {:induction false} GridAtMostRows(arms: nat, first: nat, rows: nat, len: nat, arm: nat)
    requires 0 < arms && len <= arms
    ensures Grid(arms, first, rows, len, arm) <= rows
  {
    if rows == 0 {
    } else {
      GridAtMostRows(arms, first, rows - 1, len, arm);
      WindowAtMostOne(arms, first + rows - 1, len, arm);
    }
  }

  /** Completing every window of length `len` to a full turn adds up to one lead per row. */
  lemma {:induction false} GridComplement(arms: nat, rows: nat, len: nat, arm: nat)
    requires arm < arms && len <= arms
    ensures Grid(arms, 0, rows, len, arm) + Grid(arms, len, rows, arms - len, arm) == rows
  {
    if rows == 0 {
    } else {
      GridComplement(arms, rows - 1, len, arm);
      WindowSplit(arms, rows - 1, len, arms - len, arm);
      FullWindow(arms, rows - 1, arm);
    }
  }

  function Min(x: int, y: int): int {
    if x < y then x else y
  }

  function Max(x: int, y: int): int {
    if x < y then y else x
  }

  lemma GridBounds(arms: nat, rows: nat, len: nat, arm: nat)
    requires arm < arms && rows <= arms && len <= arms
    ensures Max(0, rows + len - arms) <= Grid(arms, 0, rows, len, arm) <= Min(rows, len)
  {
    GridAtMostRows(arms, 0, rows, len, arm);
    GridTranspose(arms, 0, rows, len, arm);
    GridAtMostRows(arms, 0, len, rows, arm);
    GridComplement(arms, rows, len, arm);
    GridTranspose(arms, len, rows, arms - len, arm);
    GridAtMostRows(arms, len, arms - len, rows, arm);
  }

  lemma WindowReaches(arms: nat, start: nat, len: nat, arm: nat)
    requires arm < arms && len <= arms && start <= arms
    requires start + len <= arms || start <= arm < start + len
    ensures Window(arms, start, len, arm) == if start <= arm < start + len then 1 else 0
  {
    WindowAtMostOne(arms, start, len, arm);
    DivMod(0, arms, arm);
    forall t | start <= t < start + len && t < arms ensures t % arms == t {
      DivMod(0, arms, t);
    }
  }

  /** The last arm position leads least: only windows that reach arms-1 count. */
  lemma {:induction false} LastArmLeadsLeast(arms: nat, rows: nat, len: nat)
    requires 0 < arms && rows <= arms && len <= arms
    ensures Grid(arms, 0, rows, len, arms - 1) == Max(0, rows + len - arms)
  {
    hide Window;
    if rows == 0 {
    } else {
      LastArmLeadsLeast(arms, rows - 1, len);
      WindowReaches(arms, rows - 1, len, arms - 1);
    }
  }

  /** Position len-1 lies in every window that starts below `len`. */
  lemma {:induction false} MiddleArmLeadsMost(arms: nat, rows: nat, len: nat)
    requires rows <= len <= arms && 0 < len
    ensures Grid(arms, 0, rows, len, len - 1) == rows
  {
    hide Window;
    if rows == 0 {
    } else {
      MiddleArmLeadsMost(arms, rows - 1, len);
      WindowReaches(arms, rows - 1, len, len - 1);
    }
  }

  /** How far apart two arms' lead counts can be. */
  function Slack(arms: nat, specs: nat, repeats: nat): int
    requires arms > 0
  {
    var s, r := specs % arms, repeats % arms;
    Min(Min(s, r), Min(arms - s, arms - r))
  }

  /** Number of blocks the arm at position `arm` leads in the whole plan. */
  function LeadsInPlan(arms: nat, specs: nat, repeats: nat, arm: nat): nat
    requires arms > 0 && specs > 0
  {
    LeadCount(arms, specs, repeats * specs, arm)
  }

  lemma LeadsInPlanRemainders(arms: nat, specs: nat, repeats: nat, arm: nat)
    requires arm < arms && specs > 0
    ensures LeadsInPlan(arms, specs, repeats, arm)
         == repeats * (specs / arms) + (specs % arms) * (repeats / arms)
            + Grid(arms, 0, repeats % arms, specs % arms, arm)
  {
    LeadCountIsGrid(arms, specs, repeats, 0, arm);
    GridRemainders(arms, repeats, specs, arm);
  }

  /** Over the whole plan two arms' lead counts differ by at most the slack. */
  lemma LeadBalance(arms: nat, specs: nat, repeats: nat, a: nat, b: nat)
    requires a < arms && b < arms && specs > 0
    ensures LeadsInPlan(arms, specs, repeats, a) - LeadsInPlan(arms, specs, repeats, b) <= Slack(arms, specs, repeats)
  {
    LeadsInPlanRemainders(arms, specs, repeats, a);
    LeadsInPlanRemainders(arms, specs, repeats, b);
    GridBounds(arms, repeats % arms, specs % arms, a);
    GridBounds(arms, repeats % arms, specs % arms, b);
  }

  /** The slack is attained, so the bound cannot be improved. */
  lemma LeadBalanceTight(arms: nat, specs: nat, repeats: nat)
    requires arms > 0 && specs > 0
    ensures exists a, b :: 0 <= a < arms && 0 <= b < arms &&
              LeadsInPlan(arms, specs, repeats, a) - LeadsInPlan(arms, specs, repeats, b) == Slack(arms, specs, repeats)
  {
    var s, r := specs % arms, repeats % arms;
    var b := arms - 1;
    var a := if s == 0 && r == 0 then b else Max(s, r) - 1;
    LeadsInPlanRemainders(arms, specs, repeats, a);
    LeadsInPlanRemainders(arms, specs, repeats, b);
    LastArmLeadsLeast(arms, r, s);
    if r <= s && s > 0 {
      MiddleArmLeadsMost(arms, r, s);
    } else if r > s {
      GridTranspose(arms, 0, r, s, a);
      MiddleArmLeadsMost(arms, s, r);
    }
    assert LeadsInPlan(arms, specs, repeats, a) - LeadsInPlan(arms, specs, repeats, b) == Slack(arms, specs, repeats);
  }

  /** Every arm leads within one of every other exactly when the slack is at most one. */
  lemma WithinOneIff(arms: nat, specs: nat, repeats: nat)
    requires arms > 0 && specs > 0
    ensures (forall a, b :: 0 <= a < arms && 0 <= b < arms ==>
               LeadsInPlan(arms, specs, repeats, a) - LeadsInPlan(arms, specs, repeats, b) <= 1)
            <==> Slack(arms, specs, repeats) <= 1
  {
    LeadBalanceTight(arms, specs, repeats);
    forall a, b | 0 <= a < arms && 0 <= b < arms
      ensures LeadsInPlan(arms, specs, repeats, a) - LeadsInPlan(arms, specs, repeats, b) <= Slack(arms, specs, repeats)
    {
      LeadBalance(arms, specs, repeats, a, b);
    }
  }

  /** Four arms over two specs and two repeats: one arm leads twice and another never. */
  lemma FourArmsLeadUnevenly()
    ensures LeadsInPlan(4, 2, 2, 1) == 2 && LeadsInPlan(4, 2, 2, 3) == 0
  {
    LeadsInPlanRemainders(4, 2, 2, 1);
    LeadsInPlanRemainders(4, 2, 2, 3);
    MiddleArmLeadsMost(4, 2, 2);
    LastArmLeadsLeast(4, 2, 2);
  }

  /** With two or three arms no plan is ever off by more than one. */
  lemma ThreeArmsSuffice(arms: nat, specs: nat, repeats: nat)
    requires 0 < arms <= 3 && specs > 0
    ensures forall a, b :: 0 <= a < arms && 0 <= b < arms ==>
              LeadsInPlan(arms, specs, repeats, a) - LeadsInPlan(arms, specs, repeats, b) <= 1
  {
    assert Slack(arms, specs, repeats) <= 1;
    WithinOneIff(arms, specs, repeats);
  }

  /** The repeats of `spec` that the arm at position `arm` leads. */
  ghost function SpecLeads(arms: nat, spec: nat, repeats: nat, arm: nat): set<nat>
    requires arms > 0
  {
    set r: nat | r < repeats && Lead(arms, spec, r) == arm
  }

  /** The specs that the arm at position `arm` leads in one repeat. */
  ghost function RepeatLeads(arms: nat, repetition: nat, specs: nat, arm: nat): set<nat>
    requires arms > 0
  {
    set s: nat | s < specs && Lead(arms, s, repetition) == arm
  }

  lemma {:induction false} WindowCountsLeads(arms: nat, row: nat, len: nat, arm: nat)
    requires arms > 0
    ensures Window(arms, row, len, arm) == |SpecLeads(arms, row, len, arm)| == |RepeatLeads(arms, row, len, arm)|
  {
    assert SpecLeads(arms, row, len, arm) == RepeatLeads(arms, row, len, arm);
    if len == 0 {
    } else {
      WindowCountsLeads(arms, row, len - 1, arm);
      var before := SpecLeads(arms, row, len - 1, arm);
      if Lead(arms, row, len - 1) == arm {
        assert SpecLeads(arms, row, len, arm) == before + {len - 1};
      } else {
        assert SpecLeads(arms, row, len, arm) == before;
      }
    }
  }

  /** Within one spec, and within one repeat, any two arms lead within one of each other. */
  lemma BalancedWithinRow(arms: nat, row: nat, len: nat, a: nat, b: nat)
    requires a < arms && b < arms
    ensures |SpecLeads(arms, row, len, a)| - |SpecLeads(arms, row, len, b)| <= 1
    ensures |RepeatLeads(arms, row, len, a)| - |RepeatLeads(arms, row, len, b)| <= 1
  {
    WindowCountsLeads(arms, row, len, a);
    WindowCountsLeads(arms, row, len, b);
    WindowTurns(arms, row, len, a);
    WindowTurns(arms, row, len, b);
    WindowAtMostOne(arms, row, len % arms, a);
    WindowAtMostOne(arms, row, len % arms, b);
  }
}
