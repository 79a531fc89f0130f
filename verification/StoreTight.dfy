/** The quota bound is attained: for every number of uploads there is a run that ends exactly on it. */
module StoreTight {
  import opened ArtifactNames
  import opened Basics
  import opened MapSums
  import opened StoreQuota
  import opened StoreRuns
  import opened StoreState

  /** Names and temp names for the uploads, all different and all free. */
  ghost predicate Fresh(nodes: Directory, names: seq<string>, tmps: seq<string>) {
    && |tmps| == |names|
    && (forall t :: 0 <= t < |names| ==> IsValid(names[t]) && names[t] !in nodes && Sidecar(names[t]) !in nodes)
    && (forall t :: 0 <= t < |tmps| ==> IsTemp(tmps[t]) && tmps[t] !in nodes)
    && (forall t, u :: 0 <= t < u < |names| ==> names[t] != names[u])
    && (forall t, u :: 0 <= t < u < |tmps| ==> tmps[t] != tmps[u])
  }

  /** An idle store with room for exactly one upload of the largest size. */
  ghost predicate Start(cfg: Config, s: State, names: seq<string>, tmps: seq<string>) {
    && ValidConfig(cfg) && cfg.quota.Some? && Cap(cfg) > 0 && Inv(cfg, s) && Idle(s)
    && Measurable(s.nodes) && Used(s.nodes) + Cap(cfg) == cfg.quota.value && Fresh(s.nodes, names, tmps)
  }

  /** The temp and artifact names not yet used up after `i` of `j` opened uploads were finished. */
  ghost predicate Untouched(x: Directory, names: seq<string>, tmps: seq<string>, i: nat, j: nat) {
    && (forall t :: i <= t < j && t < |tmps| ==> tmps[t] in x && x[tmps[t]] == File([], Some(0)))
    && (forall t :: j <= t < |tmps| ==> tmps[t] !in x)
    && (forall t :: i <= t < |names| ==> names[t] !in x && Sidecar(names[t]) !in x)
  }

  /** After `j` opens and `i` finishes: uploads i .. j-1 are open and empty. */
  ghost predicate Progress(cfg: Config, s: State, names: seq<string>, tmps: seq<string>, x: State, i: nat, j: nat)
    requires |tmps| == |names|
  {
    && i <= j <= |names| && x.admitted == map[] && x.closing == map[] && x.next == s.next + j
    && (forall id :: id in x.writers <==> s.next + i <= id < s.next + j)
    && (forall t :: i <= t < j ==> s.next + t in x.writers && x.writers[s.next + t] == Writer(names[t], tmps[t], [], 0, Cap(cfg)))
    && Untouched(x.nodes, names, tmps, i, j)
    && Used(x.nodes) == Used(s.nodes) + Share(i, Cap(cfg))
    && (i == 0 ==> Measurable(x.nodes))
  }

  lemma {:induction false} RangeCount(m: map<nat, Writer>, lo: nat, hi: nat)
    requires lo <= hi && forall id :: id in m <==> lo <= id < hi
    ensures |m| == hi - lo
    decreases hi
  {
    if lo == hi {
      assert m == map[];
    } else {
      RangeCount(m - {hi - 1}, lo, hi - 1);
      RemoveShrinks(m, hi - 1);
    }
  }

  lemma AtMostOpenSnoc(cfg: Config, s: State, es: seq<Event>, e: Event, k: nat)
    requires AtMostOpen(cfg, s, es, k) && !e.Foreign? && InProgress(Apply(cfg, Exec(cfg, s, es), e)) <= k
    ensures AtMostOpen(cfg, s, es + [e], k)
  {
    hide Apply, InProgress;
    ExecOne(cfg, s, es, e);
    assert (es + [e])[..|es| + 1] == es + [e];
    assert forall i :: 0 <= i <= |es| ==> (es + [e])[..i] == es[..i];
  }

  // ---------------------------------------------------------------------------------------------
  // Opening
  // ---------------------------------------------------------------------------------------------

  lemma NotHeld(cfg: Config, s: State, names: seq<string>, tmps: seq<string>, x: State, j: nat)
    requires Start(cfg, s, names, tmps) && Progress(cfg, s, names, tmps, x, 0, j) && j < |names|
    ensures !IsHeld(x, tmps[j])
  {
    hide Inv, ValidConfig, Used, Measurable, Untouched, IsValid, IsTemp, Sidecar, Share;
    forall id | id in x.writers ensures x.writers[id].tmp != tmps[j] {
      assert x.writers[s.next + (id - s.next)] == Writer(names[id - s.next], tmps[id - s.next], [], 0, Cap(cfg));
    }
  }

  lemma FullHeadroom(cfg: Config, nodes: Directory)
    requires ValidConfig(cfg) && cfg.quota.Some? && Cap(cfg) > 0
    requires Measurable(nodes) && Used(nodes) + Cap(cfg) == cfg.quota.value
    ensures HeadroomOf(cfg, nodes) == Room(Cap(cfg)) && LimitOf(cfg, HeadroomOf(cfg, nodes)) == Cap(cfg)
  {
    hide Used, Measurable;
  }

  lemma UntouchedOpen(x: Directory, names: seq<string>, tmps: seq<string>, j: nat)
    requires Untouched(x, names, tmps, 0, j) && j < |names| == |tmps|
    requires forall t :: 0 <= t < |names| ==> IsValid(names[t]) && IsTemp(tmps[t])
    requires forall t, u :: 0 <= t < u < |tmps| ==> tmps[t] != tmps[u]
    ensures Untouched(x[tmps[j] := File([], Some(0))], names, tmps, 0, j + 1)
  {
    forall t | 0 <= t < |names| ensures names[t] != tmps[j] && Sidecar(names[t]) != tmps[j] {
      ClassesDisjoint(names[t]);
    }
    hide IsValid, IsTemp, Sidecar;
  }

  lemma OpenOne(cfg: Config, s: State, names: seq<string>, tmps: seq<string>, x: State, j: nat)
    requires Start(cfg, s, names, tmps) && Progress(cfg, s, names, tmps, x, 0, j) && j < |names|
    ensures Progress(cfg, s, names, tmps, Apply(cfg, Apply(cfg, x, Admit(names[j])), Open(x.next, tmps[j], 0)), 0, j + 1)
  {
    hide Inv, ValidConfig, Used, Measurable, IsValid, IsTemp, Sidecar, Share, Apply, Cap, HeadroomOf, LimitOf, Untouched;
    NotHeld(cfg, s, names, tmps, x, j);
    NoShare(Cap(cfg));
    FullHeadroom(cfg, x.nodes);
    FreeAt(x.nodes, names, tmps, 0, j);
    OpenedState(cfg, x, names[j], tmps[j]);
    UntouchedOpen(x.nodes, names, tmps, j);
    UsedWith(x.nodes, tmps[j], File([], Some(0)));
    assert x.nodes - {tmps[j]} == x.nodes;
    MeasurableWith(x.nodes, tmps[j]);
  }

  lemma AdmitOne(cfg: Config, s: State, names: seq<string>, tmps: seq<string>, x: State, j: nat)
    requires Start(cfg, s, names, tmps) && Progress(cfg, s, names, tmps, x, 0, j) && j < |names|
    ensures InProgress(Apply(cfg, x, Admit(names[j]))) <= |names|
  {
    hide Inv, ValidConfig, Used, Measurable, IsValid, IsTemp, Sidecar, Share, Apply, Cap, HeadroomOf, LimitOf, Untouched;
    NoShare(Cap(cfg));
    FullHeadroom(cfg, x.nodes);
    FreeAt(x.nodes, names, tmps, 0, j);
    AdmittedState(cfg, x, names[j]);
    RangeCount(x.writers, s.next, s.next + j);
    assert |map[x.next := Admitted(names[j], Cap(cfg))]| == 1;
  }

  lemma NoShare(cap: nat)
    ensures Share(0, cap) == 0
  {
  }

  lemma FreeAt(x: Directory, names: seq<string>, tmps: seq<string>, i: nat, j: nat)
    requires Untouched(x, names, tmps, i, j) && i <= j < |names| == |tmps|
    ensures names[j] !in x && tmps[j] !in x
  {
  }

  lemma MeasurableWith(nodes: Directory, name: string)
    requires Measurable(nodes)
    ensures Measurable(nodes[name := File([], Some(0))])
  {
  }

  lemma {:induction false} OpenAll(cfg: Config, s: State, names: seq<string>, tmps: seq<string>, j: nat) returns (es: seq<Event>)
    requires Start(cfg, s, names, tmps) && j <= |names|
    ensures Progress(cfg, s, names, tmps, Exec(cfg, s, es), 0, j) && AtMostOpen(cfg, s, es, |names|)
  {
    hide Inv, ValidConfig, Measurable, IsValid, IsTemp, Sidecar, Apply, Used, Share;
    if j == 0 {
      es := [];
      NoShare(Cap(cfg));
      assert es[..0] == [];
    } else {
      var before := OpenAll(cfg, s, names, tmps, j - 1);
      var a, b := Admit(names[j - 1]), Open(Exec(cfg, s, before).next, tmps[j - 1], 0);
      OpenOne(cfg, s, names, tmps, Exec(cfg, s, before), j - 1);
      AdmitOne(cfg, s, names, tmps, Exec(cfg, s, before), j - 1);
      es := before + [a] + [b];
      ExecOne(cfg, s, before, a);
      ExecOne(cfg, s, before + [a], b);
      RangeCount(Exec(cfg, s, es).writers, s.next, s.next + j);
      hide Exec, Fresh, Untouched, AtMostOpen;
      AtMostOpenSnoc(cfg, s, before, a, |names|);
      AtMostOpenSnoc(cfg, s, before + [a], b, |names|);
    }
  }

  // ---------------------------------------------------------------------------------------------
  // Filling and finishing
  // ---------------------------------------------------------------------------------------------

  function Body(n: nat): (b: seq<Byte>)
    ensures |b| == n
  {
    seq(n, i => 0)
  }

  /** The directory after one more upload was filled to its limit and finished. */
  function Filled(cfg: Config, x: Directory, name: string, tmp: string): Directory {
    var body := Body(Cap(cfg));
    (x - {tmp})[name := File(body, Some(0))][Sidecar(name) := File(cfg.hash(body), Some(0))]
  }

  lemma UsedFilled(cfg: Config, x: Directory, name: string, tmp: string)
    requires ValidConfig(cfg) && name !in x && Sidecar(name) !in x && tmp in x && x[tmp] == File([], Some(0))
    ensures Used(Filled(cfg, x, name, tmp)) == Used(x) + Cap(cfg) + DIGEST_BYTES
  {
    SidecarOf(name);
    hide Used, Sidecar, Cap;
    var body := Body(Cap(cfg));
    var published := (x - {tmp})[name := File(body, Some(0))];
    assert IsLowerDigest(cfg.hash(body));
    UsedWithout(x, tmp);
    UsedWith(x - {tmp}, name, File(body, Some(0)));
    assert x - {tmp} - {name} == x - {tmp};
    UsedWith(published, Sidecar(name), File(cfg.hash(body), Some(0)));
    assert published - {Sidecar(name)} == published;
  }

  lemma UntouchedFilled(cfg: Config, x: Directory, names: seq<string>, tmps: seq<string>, i: nat)
    requires i < |names| == |tmps| && Untouched(x, names, tmps, i, |names|)
    requires forall t :: 0 <= t < |names| ==> IsValid(names[t]) && IsTemp(tmps[t])
    requires forall t, u :: 0 <= t < u < |names| ==> names[t] != names[u] && tmps[t] != tmps[u]
    ensures Untouched(Filled(cfg, x, names[i], tmps[i]), names, tmps, i + 1, |names|)
  {
    forall t | 0 <= t < |names|
      ensures names[t] != tmps[i] && Sidecar(names[t]) != tmps[i] && names[i] != tmps[t] && Sidecar(names[i]) != tmps[t]
      ensures names[t] != Sidecar(names[i]) && Sidecar(names[t]) != names[i]
      ensures t != i ==> Sidecar(names[t]) != Sidecar(names[i])
    {
      ClassesDisjoint(names[t]);
      ClassesDisjoint(names[i]);
      if Sidecar(names[t]) == Sidecar(names[i]) {
        SidecarInjective(names[t], names[i]);
      }
    }
    hide IsValid, IsTemp, Sidecar, Cap;
  }

  /** The three steps that fill and finish upload `id`. */
  function Fill(cfg: Config, id: nat): (e: seq<Event>)
    ensures |e| == 3 && forall t :: 0 <= t < 3 ==> !e[t].Foreign?
  {
    [Write(id, Body(Cap(cfg)), true, 0), Rename(id, true, true), Seal(id, true, 0)]
  }

  /** The states they lead through. */
  lemma FilledState(cfg: Config, x: State, id: nat)
    requires id in x.writers && id !in x.closing && Cap(cfg) <= U64_MAX
    requires var w := x.writers[id];
             && w == Writer(w.name, w.tmp, [], 0, Cap(cfg)) && w.name != w.tmp
             && w.tmp in x.nodes && w.name !in x.nodes && Sidecar(w.name) !in x.nodes
    ensures var w, e := x.writers[id], Fill(cfg, id);
            var a := Apply(cfg, x, e[0]);
            var b := Apply(cfg, a, e[1]);
            var c := Apply(cfg, b, e[2]);
            && a.admitted == b.admitted == x.admitted
            && a.writers.Keys == x.writers.Keys && a.closing == x.closing
            && b.writers == x.writers - {id} && b.closing.Keys == x.closing.Keys + {id}
            && c == x.(nodes := Filled(cfg, x.nodes, w.name, w.tmp), writers := x.writers - {id})
  {
    hide Apply, Sidecar, Cap;
    var w, e := x.writers[id], Fill(cfg, id);
    SidecarNotName(w.name);
    WrittenState(cfg, x, id, Body(Cap(cfg)));
    var a := Apply(cfg, x, e[0]);
    RenamedState(cfg, a, id);
    var b := Apply(cfg, a, e[1]);
    assert a.nodes - {w.tmp} == x.nodes - {w.tmp};
    assert a.writers - {id} == x.writers - {id};
    assert b.closing - {id} == x.closing;
    SealedState(cfg, b, id);
  }

  lemma ProgressFilled(cfg: Config, s: State, names: seq<string>, tmps: seq<string>, x: State, i: nat)
    requires Start(cfg, s, names, tmps) && Progress(cfg, s, names, tmps, x, i, |names|) && i < |names|
    ensures Progress(cfg, s, names, tmps,
                     x.(nodes := Filled(cfg, x.nodes, names[i], tmps[i]), writers := x.writers - {s.next + i}), i + 1, |names|)
  {
    hide Inv, ValidConfig, Measurable, IsValid, IsTemp, Sidecar, Used, Share, Cap, Filled, Untouched;
    TouchedAt(x.nodes, names, tmps, i);
    UsedFilled(cfg, x.nodes, names[i], tmps[i]);
    UntouchedFilled(cfg, x.nodes, names, tmps, i);
    OneMoreShare(i, Cap(cfg));
  }

  /** Filling and finishing upload `i`: the states on the way, and what is in progress in them. */
  lemma FillOne(cfg: Config, s: State, names: seq<string>, tmps: seq<string>, x: State, i: nat)
    returns (a: State, b: State, c: State)
    requires Start(cfg, s, names, tmps) && Progress(cfg, s, names, tmps, x, i, |names|) && i < |names|
    ensures var e := Fill(cfg, s.next + i); a == Apply(cfg, x, e[0]) && b == Apply(cfg, a, e[1]) && c == Apply(cfg, b, e[2])
    ensures c == x.(nodes := Filled(cfg, x.nodes, names[i], tmps[i]), writers := x.writers - {s.next + i})
    ensures InProgress(a) <= |names| && InProgress(b) <= |names| && InProgress(c) <= |names|
  {
    hide Inv, ValidConfig, Measurable, IsValid, IsTemp, Sidecar, Apply, Used, Share, Cap, Filled, Fill, Untouched;
    var id, e := s.next + i, Fill(cfg, s.next + i);
    CapFits(cfg);
    TouchedAt(x.nodes, names, tmps, i);
    NameNotTemp(names[i], tmps[i]);
    RangeCount(x.writers, id, s.next + |names|);
    RemoveShrinks(x.writers, id);
    FilledState(cfg, x, id);
    a := Apply(cfg, x, e[0]);
    b := Apply(cfg, a, e[1]);
    c := Apply(cfg, b, e[2]);
    Counts(x, a, b, id);
  }

  lemma Counts(x: State, a: State, b: State, id: nat)
    requires x.closing == map[] && id in x.writers && a.admitted == b.admitted == x.admitted
    requires a.writers.Keys == x.writers.Keys && a.closing == x.closing
    requires b.writers == x.writers - {id} && b.closing.Keys == x.closing.Keys + {id}
    ensures InProgress(a) == InProgress(x) && InProgress(b) == InProgress(x)
  {
    RemoveShrinks(x.writers, id);
    assert |a.writers| == |a.writers.Keys| == |x.writers.Keys|;
    assert |b.closing| == |b.closing.Keys| == |{id}|;
  }

  lemma CapFits(cfg: Config)
    requires ValidConfig(cfg)
    ensures Cap(cfg) <= U64_MAX
  {
  }

  lemma NameNotTemp(name: string, tmp: string)
    requires IsValid(name) && IsTemp(tmp)
    ensures name != tmp
  {
    ClassesDisjoint(name);
  }

  lemma TouchedAt(x: Directory, names: seq<string>, tmps: seq<string>, i: nat)
    requires i < |names| == |tmps| && Untouched(x, names, tmps, i, |names|)
    ensures tmps[i] in x && x[tmps[i]] == File([], Some(0)) && names[i] !in x && Sidecar(names[i]) !in x
  {
  }

  lemma OneMoreShare(n: nat, cap: nat)
    ensures Share(n + 1, cap) == Share(n, cap) + cap + DIGEST_BYTES
  {
  }

  lemma FillNext(cfg: Config, s: State, names: seq<string>, tmps: seq<string>, before: seq<Event>, i: nat) returns (es: seq<Event>)
    requires Start(cfg, s, names, tmps) && |tmps| == |names| && i < |names|
    requires Progress(cfg, s, names, tmps, Exec(cfg, s, before), i, |names|) && AtMostOpen(cfg, s, before, |names|)
    ensures Progress(cfg, s, names, tmps, Exec(cfg, s, es), i + 1, |names|) && AtMostOpen(cfg, s, es, |names|)
  {
    hide Start, Progress, AtMostOpen, Apply, Exec, Fill, Filled, InProgress, Cap;
    var x := Exec(cfg, s, before);
    var a, b, c := FillOne(cfg, s, names, tmps, x, i);
    ProgressFilled(cfg, s, names, tmps, x, i);
    es := ThreeMore(cfg, s, before, Fill(cfg, s.next + i), |names|);
    assert Exec(cfg, s, es) == c;
  }

  lemma {:induction false} FillAll(cfg: Config, s: State, names: seq<string>, tmps: seq<string>, i: nat) returns (es: seq<Event>)
    requires Start(cfg, s, names, tmps) && i <= |names|
    ensures Progress(cfg, s, names, tmps, Exec(cfg, s, es), i, |names|) && AtMostOpen(cfg, s, es, |names|)
  {
    hide Start, Progress, AtMostOpen, Exec;
    SameLength(cfg, s, names, tmps);
    if i == 0 {
      es := OpenAll(cfg, s, names, tmps, |names|);
    } else {
      es := FillAll(cfg, s, names, tmps, i - 1);
      es := FillNext(cfg, s, names, tmps, es, i - 1);
    }
  }

  lemma ThreeMore(cfg: Config, s: State, before: seq<Event>, e: seq<Event>, k: nat) returns (es: seq<Event>)
    requires |e| == 3 && AtMostOpen(cfg, s, before, k) && forall t :: 0 <= t < 3 ==> !e[t].Foreign?
    requires var a := Apply(cfg, Exec(cfg, s, before), e[0]);
             var b := Apply(cfg, a, e[1]);
             InProgress(a) <= k && InProgress(b) <= k && InProgress(Apply(cfg, b, e[2])) <= k
    ensures Exec(cfg, s, es) == Apply(cfg, Apply(cfg, Apply(cfg, Exec(cfg, s, before), e[0]), e[1]), e[2])
    ensures AtMostOpen(cfg, s, es, k)
  {
    hide Apply, Exec, AtMostOpen, InProgress;
    ExecOne(cfg, s, before, e[0]);
    ExecOne(cfg, s, before + [e[0]], e[1]);
    ExecOne(cfg, s, before + [e[0]] + [e[1]], e[2]);
    AtMostOpenSnoc(cfg, s, before, e[0], k);
    AtMostOpenSnoc(cfg, s, before + [e[0]], e[1], k);
    AtMostOpenSnoc(cfg, s, before + [e[0]] + [e[1]], e[2], k);
    es := before + [e[0]] + [e[1]] + [e[2]];
  }

  lemma SameLength(cfg: Config, s: State, names: seq<string>, tmps: seq<string>)
    requires Start(cfg, s, names, tmps)
    ensures |tmps| == |names|
  {
    hide Inv, ValidConfig, Measurable, IsValid, IsTemp, Sidecar, Used;
  }

  /**
   For any number of free names, a store that leaves room for exactly one upload of the largest size
   has a run with that many uploads at once that ends exactly on the bound.
   */
  lemma QuotaTight(cfg: Config, s: State, names: seq<string>, tmps: seq<string>) returns (es: seq<Event>)
    requires Start(cfg, s, names, tmps) && names != []
    ensures AtMostOpen(cfg, s, es, |names|)
    ensures Used(Exec(cfg, s, es).nodes)
         == cfg.quota.value + (|names| - 1) * Min(cfg.maxBytes, cfg.quota.value) + DIGEST_BYTES * |names|
  {
    hide Inv, ValidConfig, Measurable, IsValid, IsTemp, Sidecar, Used, Exec, AtMostOpen, Fresh, Untouched;
    es := FillAll(cfg, s, names, tmps, |names|);
    AllShares(|names|, Cap(cfg));
  }

  lemma AllShares(k: nat, cap: nat)
    requires k >= 1
    ensures Share(k, cap) == cap + (k - 1) * cap + DIGEST_BYTES * k
  {
  }
}
