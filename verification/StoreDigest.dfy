/** The digest `info` and `list` report is the hash of the stored bytes: exactly when, and over which runs. */
module StoreDigest {
  import opened ArtifactNames
  import opened Basics
  import opened StorePublish
  import opened StoreState

  /** The octets a name shows, links followed. */
  function Shown(nodes: Directory, name: string): Option<seq<Byte>> {
    if name in nodes then Content(nodes[name]) else None
  }

  /** What is reported for one artifact name is the hash of what the name shows. */
  ghost predicate AgreesAt(cfg: Config, nodes: Directory, name: string) {
    Shown(nodes, name).Some? ==>
      Reported(cfg.hash, nodes, name, Shown(nodes, name).value) == cfg.hash(Shown(nodes, name).value)
  }

  ghost predicate DigestsAgree(cfg: Config, nodes: Directory) {
    forall name :: IsValid(name) ==> AgreesAt(cfg, nodes, name)
  }

  /** Digests agree at every name no `finish` is working on: all that can be asked between its rename and its sidecar. */
  ghost predicate Settled(cfg: Config, s: State) {
    forall name :: IsValid(name) && !BeingClosed(s, name) ==> AgreesAt(cfg, s.nodes, name)
  }

  /** The sidecar on disk is some other body's. */
  predicate StaleFor(cfg: Config, nodes: Directory, name: string, body: seq<Byte>) {
    ReadSidecar(nodes, name).Some? && ReadSidecar(nodes, name).value != cfg.hash(body)
  }

  /** What the name shows stands beside another body's sidecar. */
  predicate Misreported(cfg: Config, nodes: Directory, name: string) {
    Shown(nodes, name).Some? && StaleFor(cfg, nodes, name, Shown(nodes, name).value)
  }

  /** No other `finish` is past its rename on the same name. */
  ghost predicate Sole(s: State, id: nat)
    requires id in s.closing
  {
    forall i :: i in s.closing && s.closing[i].name == s.closing[id].name ==> i == id
  }

  /** A `finish` ends by writing its sidecar beside another upload's body. */
  ghost predicate SealsOverAnother(cfg: Config, s: State, e: Event) {
    && e.Seal? && Seals(s, e.id, e.diskOk) && Sole(s, e.id)
    && var c := s.closing[e.id];
       Shown(s.nodes, c.name).Some? && cfg.hash(Shown(s.nodes, c.name).value) != cfg.hash(c.data)
  }

  /** A `finish` ends by a roll-back that removes nothing, over a stale sidecar. */
  ghost predicate RollBackLeavesStale(cfg: Config, s: State, e: Event) {
    && e.RollBack? && e.id in s.closing && s.closing[e.id].failed && Sole(s, e.id)
    && !RollsBack(s, e.id, e.removeOk) && Misreported(cfg, s.nodes, s.closing[e.id].name)
  }

  /** The daemon dies while a `finish` is past its rename and not past its sidecar, over a stale sidecar. */
  ghost predicate CrashLeavesStale(cfg: Config, s: State, e: Event) {
    e.Crash? && exists id :: id in s.closing && Misreported(cfg, s.nodes, s.closing[id].name)
  }

  /** Another program puts a file beside a stale sidecar. */
  ghost predicate ForeignBesideStale(cfg: Config, s: State, e: Event) {
    && e.Foreign? && ForeignAllowed(s, e.name) && IsValid(e.name) && !BeingClosed(s, e.name)
    && Content(e.node).Some? && StaleFor(cfg, s.nodes, e.name, Content(e.node).value)
  }

  ghost predicate Unsettles(cfg: Config, s: State, e: Event) {
    || SealsOverAnother(cfg, s, e) || RollBackLeavesStale(cfg, s, e)
    || CrashLeavesStale(cfg, s, e) || ForeignBesideStale(cfg, s, e)
  }

  // ---------------------------------------------------------------------------------------------
  // Sidecars
  // ---------------------------------------------------------------------------------------------

  lemma HexIsNotBlank(d: seq<Byte>)
    requires IsDigest(d)
    ensures TrimBlanks(d) == d
  {
  }

  /** A sidecar written with a digest reads back as that digest. */
  lemma SidecarReadsBack(nodes: Directory, name: string, digest: seq<Byte>)
    requires IsDigest(digest) && Sidecar(name) in nodes && Content(nodes[Sidecar(name)]) == Some(digest)
    ensures ReadSidecar(nodes, name) == Some(digest)
  {
    HexIsNotBlank(digest);
  }

  ghost predicate AllBlanks(s: seq<Byte>) {
    forall i :: 0 <= i < |s| ==> s[i] == 32 || 9 <= s[i] <= 13
  }

  lemma {:induction false} TrimOfPadded(before: seq<Byte>, d: seq<Byte>, after: seq<Byte>)
    requires AllBlanks(before) && AllBlanks(after) && d != [] && !IsBlank(d[0]) && !IsBlank(d[|d| - 1])
    ensures TrimBlanks(before + d + after) == d
    decreases |before| + |after|
  {
    var s := before + d + after;
    if before != [] {
      assert s[1..] == before[1..] + d + after;
      TrimOfPadded(before[1..], d, after);
    } else if after != [] {
      assert s[..|s| - 1] == before + d + after[..|after| - 1];
      TrimOfPadded(before, d, after[..|after| - 1]);
    } else {
      assert s == d;
    }
  }

  lemma {:induction false} TrimPads(s: seq<Byte>) returns (before: seq<Byte>, after: seq<Byte>)
    ensures AllBlanks(before) && AllBlanks(after) && s == before + TrimBlanks(s) + after
  {
    before, after := [], [];
    if s == [] {
    } else if IsBlank(s[0]) {
      before, after := TrimPads(s[1..]);
      before := [s[0]] + before;
    } else if IsBlank(s[|s| - 1]) {
      before, after := TrimPads(s[..|s| - 1]);
      after := after + [s[|s| - 1]];
    }
  }

  /** A sidecar is read as exactly those digests that make up its content but for blanks around them. */
  lemma SidecarReadIff(nodes: Directory, name: string, digest: seq<Byte>)
    requires Sidecar(name) in nodes && Content(nodes[Sidecar(name)]).Some?
    ensures ReadSidecar(nodes, name) == Some(digest) <==>
              && IsDigest(digest)
              && exists before, after ::
                   AllBlanks(before) && AllBlanks(after) && Content(nodes[Sidecar(name)]).value == before + digest + after
  {
    var bytes := Content(nodes[Sidecar(name)]).value;
    var b, a := TrimPads(bytes);
    forall before, after | IsDigest(digest) && AllBlanks(before) && AllBlanks(after) && bytes == before + digest + after
      ensures TrimBlanks(bytes) == digest
    {
      TrimOfPadded(before, digest, after);
    }
  }

  predicate SealsName(s: State, e: Event, name: string) {
    e.Seal? && Seals(s, e.id, e.diskOk) && s.closing[e.id].name == name
  }

  lemma InProgressValid(cfg: Config, s: State)
    requires Inv(cfg, s)
    ensures forall id :: id in s.writers ==> IsValid(s.writers[id].name)
    ensures forall id :: id in s.closing ==> IsValid(s.closing[id].name)
  {
    forall id | id in s.writers ensures IsValid(s.writers[id].name) {
      assert WriterOk(cfg, s, id);
    }
    forall id | id in s.closing ensures IsValid(s.closing[id].name) {
      assert ClosingOk(s, id);
    }
  }

  /** A `seal` that does not go through for this name leaves its sidecar alone. */
  lemma SealSparesSidecar(cfg: Config, s: State, e: Event, name: string)
    requires Inv(cfg, s) && IsValid(name) && e.Seal? && !SealsName(s, e, name)
    ensures KeptAt(Apply(cfg, s, e).nodes, s.nodes, Sidecar(name))
  {
    hide Inv, IsValid, Sidecar;
    if e.id in s.closing && s.closing[e.id].name != name && Sidecar(s.closing[e.id].name) == Sidecar(name) {
      SidecarInjective(s.closing[e.id].name, name);
    }
  }

  /** A step writes an artifact's sidecar only by sealing that artifact. */
  lemma SidecarElsewhere(cfg: Config, s: State, e: Event, name: string)
    requires Inv(cfg, s) && IsValid(name) && !SealsName(s, e, name)
    ensures KeptAt(Apply(cfg, s, e).nodes, s.nodes, Sidecar(name))
  {
    hide Inv, IsValid, IsTemp, IsReserved, Sidecar, Apply, SealsName;
    var side := Sidecar(name);
    ClassesDisjoint(name);
    SidecarOf(name);
    InProgressValid(cfg, s);
    match e
    case Admit(_) => OpenElsewhere(cfg, s, side, e);
    case Open(_, _, _) => OpenElsewhere(cfg, s, side, e);
    case Write(_, _, _, _) => WriteElsewhere(cfg, s, side, e);
    case Drop(_) => WriteElsewhere(cfg, s, side, e);
    case Rename(_, _, _) => RenameElsewhere(cfg, s, side, e);
    case Stage(_, _, _, _) => SealElsewhere(cfg, s, side, e);
    case Seal(_, _, _) => SealSparesSidecar(cfg, s, e, name);
    case RollBack(_, _) => RemovalElsewhere(cfg, s, side, e);
    case Unlink(_, _) => RemovalElsewhere(cfg, s, side, e);
    case UnlinkSidecar(_, _) => OnlyRemoves(cfg, s, e, side);
    case Collect(_, _, _) => OnlyRemoves(cfg, s, e, side);
    case Crash => RemovalElsewhere(cfg, s, side, e);
    case Foreign(_, _) => ForeignElsewhere(cfg, s, side, e);
  }

  lemma OnlyRemoves(cfg: Config, s: State, e: Event, name: string)
    requires e.UnlinkSidecar? || e.Collect?
    ensures KeptAt(Apply(cfg, s, e).nodes, s.nodes, name)
  {
    hide Residue, Sidecar;
  }

  // ---------------------------------------------------------------------------------------------
  // One step
  // ---------------------------------------------------------------------------------------------

  lemma AgreesIff(cfg: Config, nodes: Directory, name: string)
    ensures AgreesAt(cfg, nodes, name) <==> !Misreported(cfg, nodes, name)
  {
    hide ReadSidecar, Shown;
  }

  /** A name that the step does not touch keeps agreeing, whether or not its sidecar goes. */
  lemma UntouchedAgrees(cfg: Config, s: Directory, t: Directory, name: string)
    requires AgreesAt(cfg, s, name) && SameAt(t, s, name) && KeptAt(t, s, Sidecar(name))
    ensures AgreesAt(cfg, t, name)
  {
    hide TrimBlanks, IsDigest, Sidecar;
  }

  lemma GoneAgrees(cfg: Config, nodes: Directory, name: string)
    requires name !in nodes
    ensures AgreesAt(cfg, nodes, name)
  {
  }

  /** A name nobody is closing, before and after. */
  lemma QuietStep(cfg: Config, s: State, e: Event, name: string)
    requires ValidConfig(cfg) && Inv(cfg, s) && IsValid(name) && !BeingClosed(s, name) && AgreesAt(cfg, s.nodes, name)
    requires !BeingClosed(Apply(cfg, s, e), name) && !ForeignBesideStale(cfg, s, e)
    ensures AgreesAt(cfg, Apply(cfg, s, e).nodes, name)
  {
    hide ValidConfig, Inv, IsValid, Apply, Removes, AgreesAt, Sidecar, ForeignBesideStale;
    if Removes(s, e, name) {
      RemovesIt(cfg, s, e, name);
      GoneAgrees(cfg, Apply(cfg, s, e).nodes, name);
    } else if e.Foreign? && e.name == name {
      ForeignAgreesIff(cfg, s, e);
    } else {
      PublishingCloses(cfg, s, e, name);
      Elsewhere(cfg, s, e, name);
      SidecarElsewhere(cfg, s, e, name);
      UntouchedAgrees(cfg, s.nodes, Apply(cfg, s, e).nodes, name);
    }
  }

  lemma PublishingCloses(cfg: Config, s: State, e: Event, name: string)
    ensures Publishes(s, e, name) ==> BeingClosed(Apply(cfg, s, e), name)
  {
    if Publishes(s, e, name) {
      assert e.id in Apply(cfg, s, e).closing && Apply(cfg, s, e).closing[e.id].name == name;
    }
  }

  lemma ForeignAgreesIff(cfg: Config, s: State, e: Event)
    requires e.Foreign? && IsValid(e.name) && !BeingClosed(s, e.name) && AgreesAt(cfg, s.nodes, e.name)
    ensures AgreesAt(cfg, Apply(cfg, s, e).nodes, e.name) <==> !ForeignBesideStale(cfg, s, e)
  {
    SidecarOf(e.name);
    hide IsValid, IsReserved, Sidecar, BeingClosed, Content, TrimBlanks, IsDigest;
  }

  /** How the last `finish` on a name can end. */
  lemma ClosedBy(cfg: Config, s: State, e: Event, name: string)
    requires Inv(cfg, s) && BeingClosed(s, name) && !BeingClosed(Apply(cfg, s, e), name)
    ensures e.Crash? || (SealsName(s, e, name) && Sole(s, e.id))
         || (e.RollBack? && e.id in s.closing && s.closing[e.id].failed && s.closing[e.id].name == name && Sole(s, e.id))
  {
    hide Inv, Apply;
    var id :| id in s.closing && s.closing[id].name == name;
    if !e.Crash? {
      ClosingRemains(cfg, s, e);
      assert (e.Seal? || e.RollBack?) && e.id == id;
      forall i | i in s.closing && s.closing[i].name == name ensures i == e.id {
      }
    }
  }

  /** Every `finish` goes on through every step but a crash and its own end. */
  lemma ClosingRemains(cfg: Config, s: State, e: Event)
    requires Inv(cfg, s) && !e.Crash?
    ensures forall id :: id in s.closing ==>
              || (id in Apply(cfg, s, e).closing && Apply(cfg, s, e).closing[id].name == s.closing[id].name)
              || (e.Seal? && e.id == id && Seals(s, id, e.diskOk))
              || (e.RollBack? && e.id == id && s.closing[id].failed)
  {
    hide Inv, Apply;
    if e.Rename? {
      RenamingRemains(cfg, s, e);
    } else if e.Stage? || e.Seal? || e.RollBack? {
      SealingRemains(cfg, s, e);
    } else {
      ClosingOfRest(cfg, s, e);
    }
  }

  lemma RenamingRemains(cfg: Config, s: State, e: Event)
    requires Inv(cfg, s) && e.Rename?
    ensures forall id :: id in s.closing ==> id in Apply(cfg, s, e).closing && Apply(cfg, s, e).closing[id] == s.closing[id]
  {
    if e.id in s.writers {
      WriterNotClosing(cfg, s, e.id);
    }
    hide Inv, Published, Publishable;
  }

  lemma SealingRemains(cfg: Config, s: State, e: Event)
    requires e.Stage? || e.Seal? || e.RollBack?
    ensures forall id :: id in s.closing ==>
              || (id in Apply(cfg, s, e).closing && Apply(cfg, s, e).closing[id].name == s.closing[id].name)
              || (e.Seal? && e.id == id && Seals(s, id, e.diskOk))
              || (e.RollBack? && e.id == id && s.closing[id].failed)
  {
    hide Sidecar, TempUsable, RollsBack, Seals;
  }

  /** The end of the last `finish` on a name leaves it agreeing exactly when it is none of the bad ends. */
  lemma ClosedAgreesIff(cfg: Config, s: State, e: Event, name: string)
    requires ValidConfig(cfg) && Inv(cfg, s) && IsValid(name)
    requires BeingClosed(s, name) && !BeingClosed(Apply(cfg, s, e), name)
    ensures e.Crash? ==> (AgreesAt(cfg, Apply(cfg, s, e).nodes, name) <==> !Misreported(cfg, s.nodes, name))
    ensures e.Seal? ==> (AgreesAt(cfg, Apply(cfg, s, e).nodes, name) <==> !SealsOverAnother(cfg, s, e))
    ensures e.RollBack? ==> (AgreesAt(cfg, Apply(cfg, s, e).nodes, name) <==> !RollBackLeavesStale(cfg, s, e))
    ensures e.Crash? || e.Seal? || e.RollBack?
  {
    hide ValidConfig, Inv, IsValid, AgreesAt, Misreported, BeingClosed, Apply, Sole, RollsBack, Seals;
    ClosedBy(cfg, s, e, name);
    if e.Seal? {
      SealAgreesIff(cfg, s, e, name);
    } else {
      RolledBack(cfg, s, e, name);
      AgreesIff(cfg, s.nodes, name);
    }
  }

  lemma RolledBack(cfg: Config, s: State, e: Event, name: string)
    requires e.Crash? || (e.RollBack? && e.id in s.closing && s.closing[e.id].failed && s.closing[e.id].name == name)
    ensures e.RollBack? && RollsBack(s, e.id, e.removeOk) ==> AgreesAt(cfg, Apply(cfg, s, e).nodes, name)
    ensures !(e.RollBack? && RollsBack(s, e.id, e.removeOk)) ==> Apply(cfg, s, e).nodes == s.nodes
  {
    hide AgreesAt;
    if e.RollBack? && RollsBack(s, e.id, e.removeOk) {
      GoneAgrees(cfg, Apply(cfg, s, e).nodes, name);
    }
  }

  lemma SealAgreesIff(cfg: Config, s: State, e: Event, name: string)
    requires ValidConfig(cfg) && Inv(cfg, s) && IsValid(name) && SealsName(s, e, name) && Sole(s, e.id)
    ensures AgreesAt(cfg, Apply(cfg, s, e).nodes, name) <==> !SealsOverAnother(cfg, s, e)
  {
    hide Inv, IsValid, Sole, Removes;
    var digest, t := cfg.hash(s.closing[e.id].data), Apply(cfg, s, e).nodes;
    assert IsLowerDigest(digest);
    assert IsDigest(digest);
    SealedSidecar(cfg, s, e, name);
    Elsewhere(cfg, s, e, name);
    hide Apply, ValidConfig, Seals, IsDigest, IsLowerDigest, Sidecar, Content;
    SidecarReadsBack(t, name, digest);
    hide ReadSidecar;
  }

  lemma SealedSidecar(cfg: Config, s: State, e: Event, name: string)
    requires SealsName(s, e, name)
    ensures var t := Apply(cfg, s, e).nodes;
            Sidecar(name) in t && t[Sidecar(name)] == File(cfg.hash(s.closing[e.id].data), Some(e.now))
    ensures !Publishes(s, e, name) && !Removes(s, e, name)
  {
    hide Sidecar;
  }

  /**
   From agreement at every name no `finish` is working on, a step leads to agreement at every such name
   exactly when it does not end a `finish` over another upload's body or over a stale sidecar, and does
   not put a foreign file beside one.
   */
  lemma SettledStep(cfg: Config, s: State, e: Event)
    requires ValidConfig(cfg) && Inv(cfg, s) && Settled(cfg, s)
    ensures Settled(cfg, Apply(cfg, s, e)) <==> !Unsettles(cfg, s, e)
  {
    hide ValidConfig, Inv, IsValid, AgreesAt, BeingClosed, Apply;
    if Unsettles(cfg, s, e) {
      UnsettledName(cfg, s, e);
    } else {
      forall name | IsValid(name) && !BeingClosed(Apply(cfg, s, e), name) ensures AgreesAt(cfg, Apply(cfg, s, e).nodes, name) {
        SettledAt(cfg, s, e, name);
      }
    }
  }

  lemma SettledAt(cfg: Config, s: State, e: Event, name: string)
    requires ValidConfig(cfg) && Inv(cfg, s) && Settled(cfg, s) && !Unsettles(cfg, s, e)
    requires IsValid(name) && !BeingClosed(Apply(cfg, s, e), name)
    ensures AgreesAt(cfg, Apply(cfg, s, e).nodes, name)
  {
    hide ValidConfig, Inv, IsValid, AgreesAt, Apply, SealsOverAnother, RollBackLeavesStale, ForeignBesideStale, Misreported;
    if BeingClosed(s, name) {
      ClosedAgreesIff(cfg, s, e, name);
    } else {
      hide BeingClosed;
      QuietStep(cfg, s, e, name);
    }
  }

  lemma UnsettledName(cfg: Config, s: State, e: Event)
    requires ValidConfig(cfg) && Inv(cfg, s) && Settled(cfg, s) && Unsettles(cfg, s, e)
    ensures exists name :: IsValid(name) && !BeingClosed(Apply(cfg, s, e), name) && !AgreesAt(cfg, Apply(cfg, s, e).nodes, name)
  {
    hide ValidConfig, Inv, IsValid, AgreesAt, Apply, Misreported, StaleFor;
    InProgressValid(cfg, s);
    var name;
    if ForeignBesideStale(cfg, s, e) {
      name := e.name;
      ForeignClosesNothing(cfg, s, e);
      ForeignAgreesIff(cfg, s, e);
    } else {
      if CrashLeavesStale(cfg, s, e) {
        var id :| id in s.closing && Misreported(cfg, s.nodes, s.closing[id].name);
        name := s.closing[id].name;
      } else {
        name := s.closing[e.id].name;
      }
      assert BeingClosed(s, name);
      EndsClosing(cfg, s, e, name);
      ClosedAgreesIff(cfg, s, e, name);
    }
    assert IsValid(name) && !BeingClosed(Apply(cfg, s, e), name) && !AgreesAt(cfg, Apply(cfg, s, e).nodes, name);
  }

  lemma ForeignClosesNothing(cfg: Config, s: State, e: Event)
    requires e.Foreign?
    ensures Apply(cfg, s, e).closing == s.closing
  {
  }

  lemma EndsClosing(cfg: Config, s: State, e: Event, name: string)
    requires e.Crash? || (e.Seal? && Seals(s, e.id, e.diskOk)) || (e.RollBack? && e.id in s.closing && s.closing[e.id].failed)
    requires !e.Crash? ==> s.closing[e.id].name == name && Sole(s, e.id)
    ensures !BeingClosed(Apply(cfg, s, e), name)
  {
    hide Sidecar, RollsBack;
  }

  // ---------------------------------------------------------------------------------------------
  // Runs
  // ---------------------------------------------------------------------------------------------

  ghost predicate NeverUnsettled(cfg: Config, s: State, es: seq<Event>) {
    forall i :: 0 <= i < |es| ==> !Unsettles(cfg, Exec(cfg, s, es[..i]), es[i])
  }

  lemma {:induction false} SettledRun(cfg: Config, s: State, es: seq<Event>)
    requires ValidConfig(cfg) && Inv(cfg, s) && Settled(cfg, s) && NeverUnsettled(cfg, s, es)
    ensures Settled(cfg, Exec(cfg, s, es))
  {
    hide ValidConfig, Inv, Apply, Settled, Unsettles;
    if es == [] {
    } else {
      var before, e := es[..|es| - 1], es[|es| - 1];
      assert forall i :: 0 <= i < |before| ==> before[..i] == es[..i];
      SettledRun(cfg, s, before);
      RunKeeps(cfg, s, before);
      SettledStep(cfg, Exec(cfg, s, before), e);
    }
  }

  /** When nothing is being closed, settled means that all digests agree. */
  lemma SettledIdle(cfg: Config, s: State)
    requires Settled(cfg, s) && s.closing == map[]
    ensures DigestsAgree(cfg, s.nodes)
  {
    hide IsValid, AgreesAt;
  }

  /**
   No name is deleted under a `finish` on it, no crash hits a `finish` past its rename, no roll-back
   fails, and no other program writes.
   */
  predicate Undisturbed(s: State, e: Event) {
    && !e.Foreign? && (e.RollBack? ==> e.removeOk) && (e.Crash? ==> s.closing == map[])
    && (e.Unlink? ==> !DeletedUnderFinish(s, e, e.name))
  }

  ghost predicate UndisturbedRun(cfg: Config, s: State, es: seq<Event>) {
    forall i :: 0 <= i < |es| ==> Undisturbed(Exec(cfg, s, es[..i]), es[i])
  }

  lemma UndisturbedOwned(cfg: Config, s: State, es: seq<Event>, name: string)
    requires ValidConfig(cfg) && Inv(cfg, s) && Idle(s) && IsValid(name) && UndisturbedRun(cfg, s, es)
    ensures Owned(Exec(cfg, s, es), name)
  {
    hide Inv, ValidConfig, IsValid, Owned, Exec, Unlinks;
    forall i | 0 <= i < |es| ensures !DeletedUnderFinish(Exec(cfg, s, es[..i]), es[i], name) {
      assert Undisturbed(Exec(cfg, s, es[..i]), es[i]);
    }
    OwnedRun(cfg, s, es, name);
  }

  lemma UndisturbedSettles(cfg: Config, s: State, e: Event)
    requires Undisturbed(s, e) && (e.Seal? || e.RollBack? ==> e.id in s.closing ==> Owned(s, s.closing[e.id].name))
    ensures !Unsettles(cfg, s, e)
  {
    hide Sole, Misreported, StaleFor, DeletedUnderFinish;
  }

  /**
   Digest agreement: in every undisturbed run of interleaved operations from an idle store whose digests
   agree, each digest reported for a name no `finish` is working on is the hash of the stored bytes,
   whatever deletes left their sidecars behind and whatever sidecar writes failed.
   */
  lemma {:induction false} UndisturbedRunsAgree(cfg: Config, s: State, es: seq<Event>)
    requires ValidConfig(cfg) && Inv(cfg, s) && Idle(s) && DigestsAgree(cfg, s.nodes) && UndisturbedRun(cfg, s, es)
    ensures Settled(cfg, Exec(cfg, s, es))
    ensures Exec(cfg, s, es).closing == map[] ==> DigestsAgree(cfg, Exec(cfg, s, es).nodes)
  {
    hide ValidConfig, Inv, Apply, Unsettles, Undisturbed, DigestsAgree;
    AgreedSettled(cfg, s);
    hide Settled;
    forall i | 0 <= i < |es| ensures !Unsettles(cfg, Exec(cfg, s, es[..i]), es[i]) {
      UndisturbedAt(cfg, s, es, i);
    }
    SettledRun(cfg, s, es);
    if Exec(cfg, s, es).closing == map[] {
      SettledIdle(cfg, Exec(cfg, s, es));
    }
  }

  lemma AgreedSettled(cfg: Config, s: State)
    requires DigestsAgree(cfg, s.nodes)
    ensures Settled(cfg, s)
  {
    hide IsValid, AgreesAt, BeingClosed;
  }

  lemma UndisturbedAt(cfg: Config, s: State, es: seq<Event>, i: nat)
    requires ValidConfig(cfg) && Inv(cfg, s) && Idle(s) && UndisturbedRun(cfg, s, es) && i < |es|
    ensures !Unsettles(cfg, Exec(cfg, s, es[..i]), es[i])
  {
    hide ValidConfig, Inv, Exec, Undisturbed, Owned, Unsettles, IsValid;
    var before, here, e := es[..i], Exec(cfg, s, es[..i]), es[i];
    assert forall j :: 0 <= j < |before| ==> before[..j] == es[..j];
    RunKeeps(cfg, s, before);
    InProgressValid(cfg, here);
    if (e.Seal? || e.RollBack?) && e.id in here.closing {
      UndisturbedOwned(cfg, s, before, here.closing[e.id].name);
    }
    UndisturbedSettles(cfg, here, e);
  }

  // ---------------------------------------------------------------------------------------------
  // The case of the digits
  // ---------------------------------------------------------------------------------------------

  /** Reading a sidecar as documented: exactly one digest in lower case, or nothing. */
  function DocumentedSidecar(nodes: Directory, name: string): Option<seq<Byte>> {
    match Shown(nodes, Sidecar(name))
    case None => None
    case Some(bytes) => if IsLowerDigest(TrimBlanks(bytes)) then Some(TrimBlanks(bytes)) else None
  }

  predicate IsUpperHexDigit(b: Byte) {
    65 <= b <= 70
  }

  /** The sidecar holds 64 hexadecimal digits, at least one of them upper-case. */
  ghost predicate UpperCaseSidecar(nodes: Directory, name: string) {
    && Shown(nodes, Sidecar(name)).Some?
    && var text := TrimBlanks(Shown(nodes, Sidecar(name)).value);
       IsDigest(text) && exists i :: 0 <= i < |text| && IsUpperHexDigit(text[i])
  }

  /** A sidecar is read as documented if and only if it does not hold a digest with an upper-case digit. */
  lemma ReadAsDocumentedIff(nodes: Directory, name: string)
    ensures ReadSidecar(nodes, name) == DocumentedSidecar(nodes, name) <==> !UpperCaseSidecar(nodes, name)
  {
    hide TrimBlanks, Sidecar;
  }

  /** Sixty-four capital As are accepted for a digest. */
  lemma UpperCaseAccepted()
    ensures var digest := seq(64, i => 65);
            var nodes := map[Sidecar("a") := File(digest, None)];
            ReadSidecar(nodes, "a") == Some(digest) && !IsLowerDigest(digest) && DocumentedSidecar(nodes, "a") == None
  {
    var digest: seq<Byte> := seq(64, i => 65);
    var nodes: Directory := map[Sidecar("a") := File(digest, None)];
    assert digest[0] == 65;
    HexIsNotBlank(digest);
    hide TrimBlanks, Sidecar;
  }

  /** Every sidecar of an artifact holds a lower-case digest. */
  ghost predicate LowerCaseSidecars(nodes: Directory) {
    forall name :: IsValid(name) && Sidecar(name) in nodes ==>
      nodes[Sidecar(name)].File? && IsLowerDigest(nodes[Sidecar(name)].bytes)
  }

  lemma LowerCaseStep(cfg: Config, s: State, e: Event)
    requires ValidConfig(cfg) && Inv(cfg, s) && LowerCaseSidecars(s.nodes)
    ensures LowerCaseSidecars(Apply(cfg, s, e).nodes)
  {
    hide Inv, IsValid, Apply, Sidecar;
    var t := Apply(cfg, s, e).nodes;
    forall name | IsValid(name) && Sidecar(name) in t ensures t[Sidecar(name)].File? && IsLowerDigest(t[Sidecar(name)].bytes) {
      if SealsName(s, e, name) {
        SealedSidecar(cfg, s, e, name);
      } else {
        SidecarElsewhere(cfg, s, e, name);
      }
    }
  }

  /** In every state a run reaches, every artifact's sidecar is lower-case, hence read as documented. */
  lemma {:induction false} LowerCaseRun(cfg: Config, es: seq<Event>)
    requires ValidConfig(cfg)
    ensures LowerCaseSidecars(Exec(cfg, EMPTY, es).nodes)
    ensures forall name :: IsValid(name) ==>
              ReadSidecar(Exec(cfg, EMPTY, es).nodes, name) == DocumentedSidecar(Exec(cfg, EMPTY, es).nodes, name)
  {
    hide ValidConfig, Apply, LowerCaseSidecars, IsValid;
    if es == [] {
      assert LowerCaseSidecars(EMPTY.nodes) by { LowerCaseEmpty(); }
    } else {
      LowerCaseRun(cfg, es[..|es| - 1]);
      RunKeeps(cfg, EMPTY, es[..|es| - 1]);
      LowerCaseStep(cfg, Exec(cfg, EMPTY, es[..|es| - 1]), es[|es| - 1]);
    }
    forall name | IsValid(name)
      ensures ReadSidecar(Exec(cfg, EMPTY, es).nodes, name) == DocumentedSidecar(Exec(cfg, EMPTY, es).nodes, name)
    {
      LowerCaseRead(Exec(cfg, EMPTY, es).nodes, name);
    }
  }

  lemma LowerCaseEmpty()
    ensures LowerCaseSidecars(map[])
  {
  }

  lemma LowerCaseRead(nodes: Directory, name: string)
    requires LowerCaseSidecars(nodes) && IsValid(name)
    ensures ReadSidecar(nodes, name) == DocumentedSidecar(nodes, name)
  {
    hide IsValid, Sidecar;
    if Sidecar(name) in nodes {
      HexIsNotBlank(nodes[Sidecar(name)].bytes);
    }
    hide TrimBlanks;
  }

  // ---------------------------------------------------------------------------------------------
  // Operations nobody interrupts
  // ---------------------------------------------------------------------------------------------

  lemma RenamedClosing(s: State, id: nat, flushOk: bool, persistOk: bool)
    requires RenameStep(s, id, flushOk, persistOk).1 == Done
    ensures var t := RenameStep(s, id, flushOk, persistOk).0;
            && Publishable(s, id) && flushOk && persistOk
            && t.nodes == Published(s, id) && id in t.closing
            && t.closing[id] == Closing(s.writers[id].name, s.writers[id].data, s.writers[id].written, None, false)
  {
  }

  lemma RenamedOrNot(s: State, id: nat, flushOk: bool, persistOk: bool)
    requires id in s.writers
    ensures var (t, r) := RenameStep(s, id, flushOk, persistOk);
            && !r.Info?
            && (r != Done ==> t.nodes == s.nodes - {s.writers[id].tmp})
            && (r == Done ==>
                  && Publishable(s, id) && t.nodes == Published(s, id) && id in t.closing
                  && t.closing[id] == Closing(s.writers[id].name, s.writers[id].data, s.writers[id].written, None, false))
  {
    hide Published;
  }

  lemma SealedOrFailed(cfg: Config, s: State, id: nat, diskOk: bool, now: int)
    requires id in s.closing && !s.closing[id].failed && s.closing[id].staged == None
    ensures var (t, r) := SealStep(cfg, s, id, diskOk, now);
            var c := s.closing[id];
            && (r.Info? ==> r == Info(c.name, c.written, cfg.hash(c.data)) && id !in t.closing
                            && t.nodes == s.nodes[Sidecar(c.name) := File(cfg.hash(c.data), Some(now))])
            && (!r.Info? ==> r == Internal && id in t.closing && t.closing[id].failed && t.closing[id].name == c.name
                             && t.nodes == s.nodes)
  {
    hide Sidecar, Seals;
    assert s.nodes - {} == s.nodes;
  }

  /**
   A `finish` nobody interrupts: reported published, the name shows the accepted octets and its sidecar
   reads back as their hash; refused, the temp file is gone, and the name is as it was if and only if the
   rename had not gone through or the roll-back works.
   */
  lemma FinishAllOrNothing(cfg: Config, s: State, id: nat, weather: Weather, now: int)
    requires ValidConfig(cfg) && Inv(cfg, s) && id in s.writers
    ensures var (t, r) := FinishStep(cfg, s, id, weather, now);
            var w := s.writers[id];
            && (r.Info? ==> r == Info(w.name, |w.data|, cfg.hash(w.data)) && Shown(t.nodes, w.name) == Some(w.data)
                            && ReadSidecar(t.nodes, w.name) == Some(cfg.hash(w.data)))
            && (!r.Info? ==>
                  && w.tmp !in t.nodes
                  && (SameAt(t.nodes, s.nodes, w.name)
                      <==> RenameStep(s, id, weather.flushOk, weather.persistOk).1 != Done || weather.rollbackOk))
  {
    hide Inv, ValidConfig, FinishStep, RenameStep, SameAt, ReadSidecar, Shown;
    if FinishStep(cfg, s, id, weather, now).1.Info? {
      FinishPublished(cfg, s, id, weather, now);
    } else {
      FinishRefused(cfg, s, id, weather, now);
    }
  }

  lemma FinishPublished(cfg: Config, s: State, id: nat, weather: Weather, now: int)
    requires ValidConfig(cfg) && Inv(cfg, s) && id in s.writers && FinishStep(cfg, s, id, weather, now).1.Info?
    ensures var (t, r) := FinishStep(cfg, s, id, weather, now);
            var w := s.writers[id];
            && r == Info(w.name, |w.data|, cfg.hash(w.data)) && Shown(t.nodes, w.name) == Some(w.data)
            && ReadSidecar(t.nodes, w.name) == Some(cfg.hash(w.data))
  {
    hide IsValid, IsTemp, IsReserved, Sidecar, ReadSidecar, RenameStep, SealStep;
    var w := s.writers[id];
    assert WriterOk(cfg, s, id);
    SidecarOf(w.name);
    var renamed := RenameStep(s, id, weather.flushOk, weather.persistOk).0;
    RenamedOrNot(s, id, weather.flushOk, weather.persistOk);
    SealedOrFailed(cfg, renamed, id, weather.sidecarOk, now);
    var sealed := SealStep(cfg, renamed, id, weather.sidecarOk, now).0;
    assert IsLowerDigest(cfg.hash(w.data));
    SidecarReadsBack(sealed.nodes, w.name, cfg.hash(w.data));
    hide Inv, ValidConfig;
  }

  lemma FinishRefused(cfg: Config, s: State, id: nat, weather: Weather, now: int)
    requires Inv(cfg, s) && id in s.writers && !FinishStep(cfg, s, id, weather, now).1.Info?
    ensures var t := FinishStep(cfg, s, id, weather, now).0;
            var w := s.writers[id];
            && w.tmp !in t.nodes
            && (SameAt(t.nodes, s.nodes, w.name)
                <==> RenameStep(s, id, weather.flushOk, weather.persistOk).1 != Done || weather.rollbackOk)
  {
    hide IsValid, IsTemp, Sidecar, RenameStep, SealStep;
    var w := s.writers[id];
    assert WriterOk(cfg, s, id);
    ClassesDisjoint(w.name);
    RenamedOrNot(s, id, weather.flushOk, weather.persistOk);
    hide Inv, WriterOk;
    var (renamed, reply) := RenameStep(s, id, weather.flushOk, weather.persistOk);
    if reply == Done {
      SealedOrFailed(cfg, renamed, id, weather.sidecarOk, now);
    }
  }

  lemma UnlinkedOnly(s: State, name: string, removeOk: bool)
    ensures var (t, r) := UnlinkStep(s, name, removeOk);
            && (r == Done ==> name in s.nodes && t.nodes == s.nodes - {name})
            && (r != Done ==> t == s)
            && (r == Done && s.nodes[name].File? ==> name in t.deleting)
  {
    hide IsValid, IsReserved;
  }

  /** A `delete` nobody interrupts frees the name it reports done, and touches only the name and its sidecar. */
  lemma DeletedOnly(s: State, name: string, removeOk: bool, sidecarOk: bool)
    ensures var (t, r) := DeleteStep(s, name, removeOk, sidecarOk);
            && (r == Done ==> name !in t.nodes)
            && (forall other :: other != name && other != Sidecar(name) ==> SameAt(t.nodes, s.nodes, other))
            && (r != Done ==> t.nodes == s.nodes)
  {
    hide UnlinkStep, Sidecar;
    UnlinkedOnly(s, name, removeOk);
  }
}
