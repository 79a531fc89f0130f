/**
 What an operation nobody interrupts answers, in terms of the directory it finds, and what it leaves
 behind: for each operation the answers' conditions exclude each other and cover every case.
 */
module StoreReplies {
  import opened ArtifactNames
  import opened Basics
  import opened StoreDigest
  import opened StorePublish
  import opened StoreState

  // ---------------------------------------------------------------------------------------------
  // Opening an upload
  // ---------------------------------------------------------------------------------------------

  /** A client may still take the name: it is well formed, and nothing or a dangling link is there. */
  ghost predicate Free(nodes: Directory, name: string) {
    IsValid(name) && (name in nodes ==> nodes[name].Link? && nodes[name].target.Dangling?)
  }

  ghost predicate CreateAnswer(cfg: Config, s: State, name: string, tmp: string, r: Reply) {
    var limited := cfg.quota.Some?;
    match r
    case BadRequest => IsReserved(name)
    case InvalidName => !IsReserved(name) && !IsValid(name)
    case AlreadyExists => IsValid(name) && !Free(s.nodes, name)
    case PayloadTooLarge => Free(s.nodes, name) && limited && Measurable(s.nodes) && cfg.quota.value <= Used(s.nodes)
    case Internal =>
      && Free(s.nodes, name)
      && if limited && !Measurable(s.nodes) then true
         else (limited ==> Used(s.nodes) < cfg.quota.value) && !TempUsable(s, tmp)
    case Opened(_) =>
      && Free(s.nodes, name) && TempUsable(s, tmp)
      && (limited ==> Measurable(s.nodes) && Used(s.nodes) < cfg.quota.value)
    case _ => false
  }

  /** The lower of the per-upload cap and what the quota leaves. */
  ghost function Allowance(cfg: Config, nodes: Directory): int {
    if cfg.quota.Some? && cfg.quota.value - Used(nodes) < cfg.maxBytes then cfg.quota.value - Used(nodes) else cfg.maxBytes
  }

  lemma AdmitReply(cfg: Config, s: State, name: string, tmp: string)
    requires ValidConfig(cfg)
    ensures var (t, r) := AdmitStep(cfg, s, name);
            if r.Opened? then
              && Free(s.nodes, name) && (cfg.quota.Some? ==> Measurable(s.nodes) && Used(s.nodes) < cfg.quota.value)
              && 0 <= Allowance(cfg, s.nodes) && r.id == s.next
              && t == s.(admitted := s.admitted[s.next := Admitted(name, Allowance(cfg, s.nodes))], next := s.next + 1)
            else t == s && CreateAnswer(cfg, s, name, tmp, r)
  {
    assert IsValid(name) ==> name != "" && !IsReserved(name);
    hide Used, Measurable, IsValid, IsReserved, TempUsable, IsHash;
  }

  /** `create_streaming`: which of its answers, and an empty upload under exactly the allowance or no change at all. */
  lemma CreateReply(cfg: Config, s: State, name: string, tmp: string, now: int)
    requires ValidConfig(cfg)
    ensures var (t, r) := CreateStep(cfg, s, name, tmp, now);
            && CreateAnswer(cfg, s, name, tmp, r)
            && (r.Opened? ==> 0 <= Allowance(cfg, s.nodes)
                              && t.nodes == s.nodes[tmp := File([], Some(now))]
                              && t.writers == s.writers[r.id := Writer(name, tmp, [], 0, Allowance(cfg, s.nodes))])
            && (!r.Opened? ==> t.nodes == s.nodes && t.writers == s.writers)
  {
    hide AdmitStep, Allowance, Used, Measurable, Free, IsReserved, IsValid, IsTemp, ValidConfig;
    AdmitReply(cfg, s, name, tmp);
  }

  // ---------------------------------------------------------------------------------------------
  // Writing
  // ---------------------------------------------------------------------------------------------

  ghost predicate WriteAnswer(s: State, id: nat, chunk: seq<Byte>, diskOk: bool, r: Reply) {
    if id !in s.writers then r == NotFound
    else
      var total, limit := |s.writers[id].data| + |chunk|, s.writers[id].limit;
      match r
      case Done => total <= limit && diskOk
      case PayloadTooLarge => total > limit && limit < U64_MAX
      case Internal => (total <= limit && !diskOk) || (total > limit && limit == U64_MAX)
      case _ => false
  }

  /** `write_chunk`: a chunk that fits is appended to what the upload holds; one refused costs the upload. */
  lemma WriteReply(cfg: Config, s: State, id: nat, chunk: seq<Byte>, diskOk: bool, now: int)
    requires ValidConfig(cfg) && Inv(cfg, s)
    ensures var (t, r) := WriteStep(s, id, chunk, diskOk, now);
            && WriteAnswer(s, id, chunk, diskOk, r)
            && (r == Done ==>
                  var data := s.writers[id].data + chunk;
                  && t.writers == s.writers[id := s.writers[id].(data := data, written := |data|)]
                  && t.nodes == if s.writers[id].tmp in s.nodes then s.nodes[s.writers[id].tmp := File(data, Some(now))]
                                else s.nodes)
            && (id in s.writers && r != Done ==>
                  t.writers == s.writers - {id} && t.nodes == s.nodes - {s.writers[id].tmp})
  {
    if id in s.writers {
      assert WriterOk(cfg, s, id);
    }
    hide IsValid, IsTemp, IsHash, SidecarsNamed, OneOwner, ClosingsOk;
  }

  // ---------------------------------------------------------------------------------------------
  // Finishing
  // ---------------------------------------------------------------------------------------------

  /** Nothing stands in the way of a sidecar's rename: a rename cannot replace a directory. */
  ghost predicate SidecarFree(nodes: Directory, name: string) {
    Sidecar(name) in nodes ==> !nodes[Sidecar(name)].Dir?
  }

  ghost predicate FinishAnswer(s: State, id: nat, weather: Weather, r: Reply) {
    if id !in s.writers then r == NotFound
    else
      var w := s.writers[id];
      var renames := weather.persistOk && w.tmp in s.nodes;
      var seals := weather.sidecarOk && SidecarFree(s.nodes, w.name);
      match r
      case AlreadyExists => weather.flushOk && w.name in s.nodes
      case Info(_, _, _) => weather.flushOk && w.name !in s.nodes && renames && seals
      case Internal => !weather.flushOk || (w.name !in s.nodes && !(renames && seals))
      case _ => false
  }

  /** `finish`: which of its answers; a name lost to another upload is told apart from a failure. */
  lemma FinishReply(cfg: Config, s: State, id: nat, weather: Weather, now: int)
    requires Inv(cfg, s)
    ensures FinishAnswer(s, id, weather, FinishStep(cfg, s, id, weather, now).1)
  {
    if id in s.writers {
      var w := s.writers[id];
      assert WriterOk(cfg, s, id);
      SidecarOf(w.name);
      ClassesDisjoint(w.name);
    }
    hide Inv, IsValid, IsTemp, IsReserved, Sidecar;
  }

  /** Asking for a name right after its `finish` succeeded is told what the `finish` told. */
  lemma FinishThenInfo(cfg: Config, s: State, id: nat, weather: Weather, now: int)
    requires ValidConfig(cfg) && Inv(cfg, s) && id in s.writers
    ensures var (t, r) := FinishStep(cfg, s, id, weather, now);
            r.Info? ==>
              && r.name in t.nodes && t.nodes[r.name].File?
              && r.size == |t.nodes[r.name].bytes|
              && r.sha256 == Reported(cfg.hash, t.nodes, r.name, t.nodes[r.name].bytes)
  {
    FinishAllOrNothing(cfg, s, id, weather, now);
    FinishedIsFile(cfg, s, id, weather, now);
    hide FinishStep, Inv, ReadSidecar;
  }

  lemma FinishedIsFile(cfg: Config, s: State, id: nat, weather: Weather, now: int)
    requires Inv(cfg, s) && id in s.writers
    ensures var (t, r) := FinishStep(cfg, s, id, weather, now);
            r.Info? ==> r.name in t.nodes && t.nodes[r.name].File?
  {
    var w := s.writers[id];
    assert WriterOk(cfg, s, id);
    SidecarOf(w.name);
    hide Inv, IsValid, IsTemp, IsReserved, Sidecar;
  }

  // ---------------------------------------------------------------------------------------------
  // Deleting
  // ---------------------------------------------------------------------------------------------

  ghost predicate DeleteAnswer(nodes: Directory, name: string, removeOk: bool, r: Reply) {
    match r
    case InvalidName => !IsReserved(name) && !IsValid(name)
    case NotFound => IsReserved(name) || (IsValid(name) && (name in nodes ==> nodes[name].Link?))
    case Internal => IsValid(name) && name in nodes && !nodes[name].Link? && !removeOk
    case Done => IsValid(name) && name in nodes && !nodes[name].Link? && removeOk
    case _ => false
  }

  lemma UnlinkReply(s: State, name: string, removeOk: bool)
    ensures var (t, r) := UnlinkStep(s, name, removeOk);
            && DeleteAnswer(s.nodes, name, removeOk, r)
            && t == if r != Done then s
                    else s.(nodes := s.nodes - {name},
                            deleting := if s.nodes[name].File? then s.deleting + multiset{name} else s.deleting)
  {
    assert IsValid(name) ==> !IsReserved(name);
    hide IsValid, IsReserved;
  }

  lemma SidecarUnlinked(s: State, name: string, sidecarOk: bool)
    requires name in s.nodes
    ensures var unlinked := s.(nodes := s.nodes - {name}, deleting := s.deleting + multiset{name});
            var t := UnlinkSidecarStep(unlinked, name, sidecarOk);
            && t.deleting == s.deleting
            && t.nodes == if sidecarOk && SidecarFree(s.nodes, name) then s.nodes - {name, Sidecar(name)} else s.nodes - {name}
  {
    SidecarOf(name);
    hide Sidecar;
    assert s.nodes - {name, Sidecar(name)} == s.nodes - {name} - {Sidecar(name)};
    assert s.deleting + multiset{name} - multiset{name} == s.deleting;
    if Sidecar(name) !in s.nodes {
      assert s.nodes - {name} - {Sidecar(name)} == s.nodes - {name};
    }
  }

  /** `delete`: which of its answers; a deleted file takes its sidecar along when that can be removed, a prefix takes none. */
  lemma DeleteReply(s: State, name: string, removeOk: bool, sidecarOk: bool)
    ensures var (t, r) := DeleteStep(s, name, removeOk, sidecarOk);
            && DeleteAnswer(s.nodes, name, removeOk, r)
            && (r == Done ==>
                  t.nodes == if s.nodes[name].File? && sidecarOk && SidecarFree(s.nodes, name)
                             then s.nodes - {name, Sidecar(name)} else s.nodes - {name})
            && (r != Done ==> t.nodes == s.nodes)
            && t.deleting == s.deleting
  {
    hide UnlinkStep, UnlinkSidecarStep, SidecarFree, Sidecar, IsValid, IsReserved;
    UnlinkReply(s, name, removeOk);
    if name in s.nodes {
      SidecarUnlinked(s, name, sidecarOk);
    }
  }
}
