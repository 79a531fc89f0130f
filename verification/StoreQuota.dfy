/** The whole-store quota over every run: how far uploads opened against the same headroom can overshoot. */
module StoreQuota {
  import opened ArtifactNames
  import opened Basics
  import opened MapSums
  import opened StorePublish
  import opened StoreState

  /** What an admitted upload may still add: its whole limit, and its digest sidecar. */
  function Reserved(id: nat, a: Admitted): nat {
    a.limit + DIGEST_BYTES
  }

  /** What an open upload may still add: its unspent limit, and its digest sidecar. */
  function Unspent(id: nat, w: Writer): nat {
    (if w.written <= w.limit then w.limit - w.written else 0) + DIGEST_BYTES
  }

  /** What a `finish` past its rename may still add: the rest of its sidecar. */
  function Owed(id: nat, c: Closing): nat {
    if c.failed then 0
    else if c.staged.Some? && c.staged.value.octets <= DIGEST_BYTES then DIGEST_BYTES - c.staged.value.octets
    else DIGEST_BYTES
  }

  /** The octets in the directory plus everything the uploads and finishes in progress may still add. */
  ghost function Potential(s: State): nat {
    Used(s.nodes) + Sum(s.admitted, Reserved) + Sum(s.writers, Unspent) + Sum(s.closing, Owed)
  }

  // ---------------------------------------------------------------------------------------------
  // Used octets under directory updates
  // ---------------------------------------------------------------------------------------------

  lemma UsedWithout(nodes: Directory, name: string)
    ensures Used(nodes) == (if name in nodes then Weight(name, nodes[name]) else 0) + Used(nodes - {name})
  {
    SumTake(nodes, Weight, name);
  }

  lemma UsedWith(nodes: Directory, name: string, node: Node)
    ensures Used(nodes[name := node]) == Weight(name, node) + Used(nodes - {name})
    ensures Used(nodes[name := node]) <= Weight(name, node) + Used(nodes)
  {
    SumPut(nodes, Weight, name, node);
    UsedWithout(nodes, name);
  }

  lemma UsedShrinks(nodes: Directory, gone: set<string>)
    ensures Used(nodes - gone) <= Used(nodes)
  {
    SumShrinks(nodes, Weight, gone);
  }

  /** Renaming a temp file to a free name moves its octets and no others. */
  lemma UsedPublished(cfg: Config, s: State, id: nat)
    requires Inv(cfg, s) && Publishable(s, id)
    ensures Used(Published(s, id)) == Used(s.nodes)
  {
    var w := s.writers[id];
    assert WriterOk(cfg, s, id);
    hide Inv, Used, IsValid, IsTemp;
    UsedWithout(s.nodes, w.tmp);
    UsedWith(s.nodes - {w.tmp}, w.name, s.nodes[w.tmp]);
    assert s.nodes - {w.tmp} - {w.name} == s.nodes - {w.tmp};
  }

  /** How many octets of the sidecar have reached its temp file. */
  function StagedBytes(s: State, id: nat): nat
    requires id in s.closing
  {
    var c := s.closing[id];
    if c.staged.Some? && c.staged.value.tmp in s.nodes then c.staged.value.octets else 0
  }

  lemma UsedUnstaged(cfg: Config, s: State, id: nat)
    requires Inv(cfg, s) && id in s.closing
    ensures Used(s.nodes) == StagedBytes(s, id) + Used(s.nodes - StagedNames(s.closing[id]))
  {
    assert ClosingOk(s, id);
    hide Inv, Used, IsValid, IsTemp;
    if s.closing[id].staged.Some? {
      UsedWithout(s.nodes, s.closing[id].staged.value.tmp);
    } else {
      assert s.nodes - {} == s.nodes;
    }
  }

  // ---------------------------------------------------------------------------------------------
  // The potential, step by step
  // ---------------------------------------------------------------------------------------------

  lemma AbandonPotential(s: State, id: nat)
    requires id in s.writers
    ensures Potential(Abandon(s, id)) <= Potential(s)
  {
    hide Used, Sum;
    UsedShrinks(s.nodes, {s.writers[id].tmp});
    SumTake(s.writers, Unspent, id);
  }

  lemma WritePotential(cfg: Config, s: State, id: nat, chunk: seq<Byte>, diskOk: bool, now: int)
    requires ValidConfig(cfg) && Inv(cfg, s)
    ensures Potential(WriteStep(s, id, chunk, diskOk, now).0) <= Potential(s)
  {
    hide Used, Sum, IsHash;
    if id in s.writers {
      var w := s.writers[id];
      assert WriterOk(cfg, s, id);
      hide Inv, WriterOk;
      if !ChunkAccepted(w, chunk, diskOk) {
        AbandonPotential(s, id);
      } else {
        assert SaturatingAdd(w.written, |chunk|) == w.written + |chunk|;
        var w' := w.(data := w.data + chunk, written := w.written + |chunk|);
        SumPut(s.writers, Unspent, id, w');
        SumTake(s.writers, Unspent, id);
        UsedWith(s.nodes, w.tmp, File(w'.data, Some(now)));
        UsedWithout(s.nodes, w.tmp);
      }
    }
  }

  lemma RenamePotential(cfg: Config, s: State, id: nat, flushOk: bool, persistOk: bool)
    requires Inv(cfg, s)
    ensures Potential(RenameStep(s, id, flushOk, persistOk).0) <= Potential(s)
  {
    hide Used, Sum;
    if id in s.writers {
      assert WriterOk(cfg, s, id);
      AbandonPotential(s, id);
      if flushOk && persistOk && Publishable(s, id) {
        UsedPublished(cfg, s, id);
        hide Inv, Published, WriterOk;
        var w := s.writers[id];
        SumTake(s.writers, Unspent, id);
        SumPut(s.closing, Owed, id, Closing(w.name, w.data, w.written, None, false));
        assert s.closing - {id} == s.closing;
      }
    }
  }

  lemma StagePotential(cfg: Config, s: State, id: nat, tmp: string, octets: nat, now: int)
    requires ValidConfig(cfg)
    ensures Potential(StageStep(cfg, s, id, tmp, octets, now)) <= Potential(s)
  {
    hide Used, Sum, TempUsable;
    if Stageable(cfg, s, id, tmp, octets) {
      var c := s.closing[id];
      assert IsLowerDigest(cfg.hash(c.data));
      UsedWith(s.nodes, tmp, File(cfg.hash(c.data)[..octets], Some(now)));
      SumTake(s.closing, Owed, id);
      SumPut(s.closing, Owed, id, c.(staged := Some(Staged(tmp, octets))));
    }
  }

  lemma SealPotential(cfg: Config, s: State, id: nat, diskOk: bool, now: int)
    requires ValidConfig(cfg) && Inv(cfg, s)
    ensures Potential(SealStep(cfg, s, id, diskOk, now).0) <= Potential(s)
  {
    hide Used, Sum, Sidecar;
    if id in s.closing && !s.closing[id].failed {
      var c := s.closing[id];
      var rest := s.nodes - StagedNames(c);
      assert ClosingOk(s, id);
      UsedUnstaged(cfg, s, id);
      hide Inv;
      SumTake(s.closing, Owed, id);
      if Seals(s, id, diskOk) {
        assert IsLowerDigest(cfg.hash(c.data));
        UsedWith(rest, Sidecar(c.name), File(cfg.hash(c.data), Some(now)));
      } else {
        SumPut(s.closing, Owed, id, c.(staged := None, failed := true));
      }
    }
  }

  lemma RollBackPotential(s: State, id: nat, removeOk: bool)
    ensures Potential(RollBackStep(s, id, removeOk)) <= Potential(s)
  {
    hide Used, Sum, RollsBack;
    if id in s.closing {
      UsedShrinks(s.nodes, {s.closing[id].name});
      SumTake(s.closing, Owed, id);
    }
  }

  lemma UnlinkPotential(s: State, name: string, removeOk: bool)
    ensures Potential(UnlinkStep(s, name, removeOk).0) <= Potential(s)
    ensures Potential(UnlinkSidecarStep(s, name, removeOk)) <= Potential(s)
  {
    hide Used, Sum, IsValid, IsReserved, Sidecar;
    UsedShrinks(s.nodes, {name});
    UsedShrinks(s.nodes, {Sidecar(name)});
  }

  lemma OpenPotential(s: State, id: nat, tmp: string, now: int)
    requires id in s.admitted ==> id !in s.writers
    ensures Potential(OpenStep(s, id, tmp, now).0) <= Potential(s)
  {
    hide Used, Sum, TempUsable;
    if id in s.admitted {
      var w := Writer(s.admitted[id].name, tmp, [], 0, s.admitted[id].limit);
      SumTake(s.admitted, Reserved, id);
      SumPut(s.writers, Unspent, id, w);
      assert s.writers - {id} == s.writers;
      UsedWith(s.nodes, tmp, File([], Some(now)));
    }
  }

  /** Nothing but admitting an upload can raise the potential. */
  lemma OnlyAdmitRaises(cfg: Config, s: State, e: Event)
    requires ValidConfig(cfg) && Inv(cfg, s) && !e.Admit? && !e.Foreign?
    ensures Potential(Apply(cfg, s, e)) <= Potential(s)
  {
    hide Inv, ValidConfig, OpenStep, WriteStep, RenameStep, StageStep, SealStep, RollBackStep, UnlinkStep,
      UnlinkSidecarStep, Abandon, Residue;
    match e
    case Open(id, tmp, now) => AdmittedApart(cfg, s); OpenPotential(s, id, tmp, now);
    case Write(id, chunk, diskOk, now) => WritePotential(cfg, s, id, chunk, diskOk, now);
    case Drop(id) =>
      if id in s.writers {
        AbandonPotential(s, id);
      }
    case Rename(id, flushOk, persistOk) => RenamePotential(cfg, s, id, flushOk, persistOk);
    case Stage(id, tmp, octets, now) => StagePotential(cfg, s, id, tmp, octets, now);
    case Seal(id, diskOk, now) => SealPotential(cfg, s, id, diskOk, now);
    case RollBack(id, removeOk) => RollBackPotential(s, id, removeOk);
    case Unlink(name, removeOk) => UnlinkPotential(s, name, removeOk);
    case UnlinkSidecar(name, removeOk) => UnlinkPotential(s, name, removeOk);
    case Collect(now, minAge, stuck) => UsedShrinks(s.nodes, Residue(s.nodes, now, minAge) - stuck);
    case Crash =>
  }

  lemma AdmittedApart(cfg: Config, s: State)
    requires Inv(cfg, s)
    ensures forall id :: id in s.admitted ==> id !in s.writers && s.admitted[id].limit <= Cap(cfg)
  {
  }

  /** The number of uploads and finishes in progress, from admission on. */
  function InProgress(s: State): nat {
    |s.admitted| + |s.writers| + |s.closing|
  }

  /** The most that `n` uploads can add. */
  function Share(n: nat, cap: nat): nat {
    n * (cap + DIGEST_BYTES)
  }

  lemma AdmittedShares(cfg: Config, s: State)
    requires Inv(cfg, s)
    ensures Sum(s.admitted, Reserved) <= Share(|s.admitted|, Cap(cfg))
  {
    hide Sum, Cap;
    AdmittedApart(cfg, s);
    SumBound(s.admitted, Reserved, Cap(cfg) + DIGEST_BYTES);
  }

  lemma WriterShares(cfg: Config, s: State)
    requires Inv(cfg, s)
    ensures Sum(s.writers, Unspent) <= Share(|s.writers|, Cap(cfg))
  {
    hide Sum, Cap;
    forall id | id in s.writers ensures Unspent(id, s.writers[id]) <= Cap(cfg) + DIGEST_BYTES {
      assert WriterOk(cfg, s, id);
    }
    SumBound(s.writers, Unspent, Cap(cfg) + DIGEST_BYTES);
  }

  lemma ClosingShares(s: State)
    ensures Sum(s.closing, Owed) <= Share(|s.closing|, 0)
  {
    hide Sum;
    SumBound(s.closing, Owed, DIGEST_BYTES);
  }

  lemma Shares(x: nat, y: nat, cap: nat)
    ensures Share(x, cap) + Share(y, cap) == Share(x + y, cap)
    ensures Share(y, 0) <= Share(y, cap)
  {
    assert (x + y) * (cap + DIGEST_BYTES) == x * (cap + DIGEST_BYTES) + y * (cap + DIGEST_BYTES);
    assert y * (cap + DIGEST_BYTES) == y * cap + y * DIGEST_BYTES;
    assert y * cap >= 0;
  }

  /** What the uploads and finishes in progress may still add. */
  lemma InProgressBound(cfg: Config, s: State)
    requires Inv(cfg, s)
    ensures Sum(s.admitted, Reserved) + Sum(s.writers, Unspent) + Sum(s.closing, Owed) <= Share(InProgress(s), Cap(cfg))
  {
    hide Sum, Inv, Cap, Share;
    AdmittedShares(cfg, s);
    WriterShares(cfg, s);
    ClosingShares(s);
    Shares(|s.admitted|, |s.writers|, Cap(cfg));
    Shares(|s.admitted| + |s.writers|, |s.closing|, Cap(cfg));
  }

  /** An upload is admitted only below the quota, and its limit is at most the headroom it saw. */
  lemma AdmittedWithin(cfg: Config, s: State, name: string)
    requires ValidConfig(cfg) && cfg.quota.Some? && AdmitStep(cfg, s, name).1.Opened?
    ensures var t := AdmitStep(cfg, s, name).0;
            && s.next in t.admitted && t == s.(admitted := s.admitted[s.next := t.admitted[s.next]], next := s.next + 1)
            && Used(s.nodes) + t.admitted[s.next].limit <= cfg.quota.value
  {
    hide Used, IsValid, IsReserved, Exists, IsHash;
  }

  lemma AdmitPotential(cfg: Config, s: State, name: string)
    requires ValidConfig(cfg) && cfg.quota.Some? && Inv(cfg, s)
    ensures var t := AdmitStep(cfg, s, name).0;
            t == s || (InProgress(t) == InProgress(s) + 1 &&
                       Potential(t) <= cfg.quota.value + DIGEST_BYTES + Share(InProgress(s), Cap(cfg)))
  {
    hide Used, Sum, Inv, ValidConfig, AdmitStep, Cap, Share, Potential, InProgress;
    var (t, reply) := AdmitStep(cfg, s, name);
    RefusedUnchanged(cfg, s, name);
    if reply.Opened? {
      PotentialWithin(cfg, s);
      AdmittedWithin(cfg, s, name);
      NextUnused(cfg, s);
      OneMoreAdmitted(s, t, t.admitted[s.next]);
    }
  }

  lemma PotentialWithin(cfg: Config, s: State)
    requires Inv(cfg, s)
    ensures Potential(s) <= Used(s.nodes) + Share(InProgress(s), Cap(cfg))
  {
    hide Used, Sum, Inv, Cap, Share, InProgress;
    InProgressBound(cfg, s);
  }

  lemma OneMoreAdmitted(s: State, t: State, a: Admitted)
    requires s.next !in s.admitted && t == s.(admitted := s.admitted[s.next := a], next := s.next + 1)
    ensures Potential(t) == Potential(s) + a.limit + DIGEST_BYTES && InProgress(t) == InProgress(s) + 1
  {
    hide Used, Sum;
    SumAdd(s.admitted, Reserved, s.next, a);
  }

  lemma RefusedUnchanged(cfg: Config, s: State, name: string)
    ensures AdmitStep(cfg, s, name).1.Opened? || AdmitStep(cfg, s, name).0 == s
  {
    hide IsValid, IsReserved, Exists, HeadroomOf;
  }

  // ---------------------------------------------------------------------------------------------
  // The bound over a run
  // ---------------------------------------------------------------------------------------------

  /** At most `k` uploads and finishes are in progress after any step of the run, and nobody else writes. */
  ghost predicate AtMostOpen(cfg: Config, s: State, es: seq<Event>, k: nat) {
    && (forall i :: 0 <= i < |es| ==> !es[i].Foreign?)
    && (forall i :: 0 <= i <= |es| ==> InProgress(Exec(cfg, s, es[..i])) <= k)
  }

  function Ceiling(quota: nat, cap: nat, k: nat): nat
    requires k >= 1
  {
    quota + (k - 1) * cap + DIGEST_BYTES * k
  }

  lemma CeilingOfOpen(quota: nat, cap: nat, open: nat, k: nat)
    requires open + 1 <= k
    ensures quota + DIGEST_BYTES + Share(open, cap) <= Ceiling(quota, cap, k)
  {
    assert open * (cap + DIGEST_BYTES) == open * cap + open * DIGEST_BYTES;
    assert open * cap <= (k - 1) * cap;
  }

  lemma {:induction false} PotentialBound(cfg: Config, s: State, es: seq<Event>, k: nat)
    requires ValidConfig(cfg) && cfg.quota.Some? && Inv(cfg, s) && k >= 1
    requires Idle(s) && Used(s.nodes) <= cfg.quota.value
    requires AtMostOpen(cfg, s, es, k)
    ensures Potential(Exec(cfg, s, es)) <= Ceiling(cfg.quota.value, Cap(cfg), k)
  {
    hide Ceiling, Apply, Inv, ValidConfig, Cap;
    if es == [] {
      CeilingAboveQuota(cfg.quota.value, Cap(cfg), k);
    } else {
      var before, e := es[..|es| - 1], es[|es| - 1];
      assert forall i :: 0 <= i <= |before| ==> before[..i] == es[..i];
      assert es[..|es|] == es;
      assert AtMostOpen(cfg, s, before, k);
      PotentialBound(cfg, s, before, k);
      RunKeeps(cfg, s, before);
      var here := Exec(cfg, s, before);
      StepBound(cfg, here, e, k);
    }
  }

  lemma CeilingAboveQuota(quota: nat, cap: nat, k: nat)
    requires k >= 1
    ensures quota <= Ceiling(quota, cap, k)
  {
  }

  lemma StepBound(cfg: Config, s: State, e: Event, k: nat)
    requires ValidConfig(cfg) && cfg.quota.Some? && Inv(cfg, s) && k >= 1 && !e.Foreign?
    requires Potential(s) <= Ceiling(cfg.quota.value, Cap(cfg), k)
    requires InProgress(Apply(cfg, s, e)) <= k
    ensures Potential(Apply(cfg, s, e)) <= Ceiling(cfg.quota.value, Cap(cfg), k)
  {
    hide Ceiling, Inv, ValidConfig, Cap, Potential, InProgress, AdmitStep, Share;
    if e.Admit? {
      AdmitPotential(cfg, s, e.name);
      if Apply(cfg, s, e) != s {
        CeilingOfOpen(cfg.quota.value, Cap(cfg), InProgress(s), k);
      }
    } else {
      hide Apply;
      OnlyAdmitRaises(cfg, s, e);
    }
  }

  /**
   With at most `k` uploads and finishes in progress at once, the store never holds more than the quota
   plus k-1 times the smaller of upload cap and quota plus k sidecars, in any run of interleaved
   operations and crashes from a store within its quota.
   */
  lemma QuotaBound(cfg: Config, s: State, es: seq<Event>, k: nat)
    requires ValidConfig(cfg) && cfg.quota.Some? && Inv(cfg, s) && k >= 1
    requires Idle(s) && Used(s.nodes) <= cfg.quota.value
    requires AtMostOpen(cfg, s, es, k)
    ensures Used(Exec(cfg, s, es).nodes)
         <= cfg.quota.value + (k - 1) * Min(cfg.maxBytes, cfg.quota.value) + DIGEST_BYTES * k
  {
    PotentialBound(cfg, s, es, k);
  }

  // ---------------------------------------------------------------------------------------------
  // The sidecar
  // ---------------------------------------------------------------------------------------------

  /** What the sidecar a publication replaces weighed. */
  function ReplacedBytes(nodes: Directory, name: string): nat {
    if Sidecar(name) in nodes then Weight(Sidecar(name), nodes[Sidecar(name)]) else 0
  }

  /**
   Sealing adds 64 octets and takes back the staged ones and the replaced sidecar, nothing else; so it
   ends within the quota exactly when the difference still fits.
   */
  lemma SealWithinQuotaIff(cfg: Config, s: State, id: nat, diskOk: bool, now: int)
    requires ValidConfig(cfg) && Inv(cfg, s) && Seals(s, id, diskOk) && cfg.quota.Some?
    ensures Used(SealStep(cfg, s, id, diskOk, now).0.nodes) <= cfg.quota.value
       <==> Used(s.nodes) + DIGEST_BYTES
              <= cfg.quota.value + ReplacedBytes(s.nodes, s.closing[id].name) + StagedBytes(s, id)
  {
    hide Used, Sidecar, IsValid, IsTemp;
    var c := s.closing[id];
    var side, rest := Sidecar(c.name), s.nodes - StagedNames(c);
    assert ClosingOk(s, id);
    ClassesDisjoint(c.name);
    UsedUnstaged(cfg, s, id);
    hide Inv;
    assert IsLowerDigest(cfg.hash(c.data));
    assert side !in StagedNames(c);
    UsedWithout(rest, side);
    UsedWith(rest, side, File(cfg.hash(c.data), Some(now)));
  }

  /** Likewise an uninterrupted `finish` that succeeds. */
  lemma FinishWithinQuotaIff(cfg: Config, s: State, id: nat, weather: Weather, now: int)
    requires ValidConfig(cfg) && Inv(cfg, s) && FinishStep(cfg, s, id, weather, now).1.Info? && cfg.quota.Some?
    ensures id in s.writers
    ensures Used(FinishStep(cfg, s, id, weather, now).0.nodes) <= cfg.quota.value
       <==> Used(s.nodes) + DIGEST_BYTES <= cfg.quota.value + ReplacedBytes(s.nodes, s.writers[id].name)
  {
    hide Used, Sidecar, IsValid, IsTemp, ValidConfig;
    assert WriterOk(cfg, s, id);
    RenameKeeps(cfg, s, id, weather.flushOk, weather.persistOk);
    UsedPublished(cfg, s, id);
    ClassesDisjoint(s.writers[id].name);
    hide Inv, WriterOk;
    var renamed := RenameStep(s, id, weather.flushOk, weather.persistOk).0;
    SidecarNotName(s.writers[id].name);
    SealWithinQuotaIff(cfg, renamed, id, weather.sidecarOk, now);
    assert ReplacedBytes(renamed.nodes, s.writers[id].name) == ReplacedBytes(s.nodes, s.writers[id].name);
    hide SealStep;
  }

  lemma SidecarNotName(name: string)
    ensures Sidecar(name) != name
  {
    SidecarOf(name);
  }

  // ---------------------------------------------------------------------------------------------
  // Creating, when nobody interrupts
  // ---------------------------------------------------------------------------------------------

  lemma AdmittedNext(cfg: Config, s: State, name: string)
    ensures AdmitStep(cfg, s, name).1.Opened? ==>
              AdmitStep(cfg, s, name).1.id == s.next && s.next in AdmitStep(cfg, s, name).0.admitted
    ensures AdmitStep(cfg, s, name).0.nodes == s.nodes
  {
    hide IsValid, IsReserved, Exists, HeadroomOf;
  }

  /** An upload opens empty, with a ceiling that keeps the store within its quota; nothing but its temp file changes. */
  lemma CreatedWithin(cfg: Config, s: State, name: string, tmp: string, now: int)
    requires ValidConfig(cfg)
    ensures var (t, r) := CreateStep(cfg, s, name, tmp, now);
            && (forall other :: !IsTemp(other) ==> SameAt(t.nodes, s.nodes, other))
            && (r.Opened? ==>
                  && r.id in t.writers && t.writers[r.id].name == name && t.writers[r.id].data == []
                  && t.writers[r.id].limit <= cfg.maxBytes
                  && (cfg.quota.Some? ==> Used(t.nodes) + t.writers[r.id].limit <= cfg.quota.value))
  {
    hide Used, IsValid, IsReserved, Exists, IsTemp, IsHeld, IsHash, Measurable;
    UsedWith(s.nodes, tmp, File([], Some(now)));
  }
}
