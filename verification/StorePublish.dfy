/**
 Create-only, atomic publishing over every run of interleaved uploads, finishes, deletes and crashes: what
 an artifact name can show, what can take it away, and when a roll-back takes away its own upload.
 */
module StorePublish {
  import opened ArtifactNames
  import opened Basics
  import opened StoreState

  /** The event makes writer `id`'s temp file visible under its artifact name. */
  predicate Renames(s: State, e: Event, id: nat) {
    e.Rename? && e.id == id && e.flushOk && e.persistOk && Publishable(s, id)
  }

  /** The event publishes under `name`. */
  predicate Publishes(s: State, e: Event, name: string) {
    e.Rename? && Renames(s, e, e.id) && s.writers[e.id].name == name
  }

  /** The event takes the entry `name` away: a delete of it, or a roll-back of a `finish` on it. */
  predicate Removes(s: State, e: Event, name: string) {
    || (e.Unlink? && e.name == name && Unlinks(s, name, e.removeOk))
    || (e.RollBack? && RollsBack(s, e.id, e.removeOk) && s.closing[e.id].name == name)
  }

  /** What a step adds to the data of upload `id`. */
  function Gain(s: State, e: Event, id: nat): seq<Byte> {
    if e.Write? && e.id == id && id in s.writers && ChunkAccepted(s.writers[id], e.chunk, e.diskOk) then e.chunk else []
  }

  /** The octets of all chunks of upload `id` that the run accepted, in order. */
  ghost function Accepted(cfg: Config, s: State, es: seq<Event>, id: nat): seq<Byte> {
    if es == [] then []
    else
      var before := es[..|es| - 1];
      Accepted(cfg, s, before, id) + Gain(Exec(cfg, s, before), es[|es| - 1], id)
  }

  // ---------------------------------------------------------------------------------------------
  // One step
  // ---------------------------------------------------------------------------------------------

  /** The two directories agree about one name. */
  predicate SameAt(a: Directory, b: Directory, name: string) {
    (name in a <==> name in b) && (name in a ==> a[name] == b[name])
  }

  lemma NotSidecar(name: string)
    requires IsValid(name)
    ensures forall other :: Sidecar(other) != name
  {
    forall other ensures Sidecar(other) != name {
      SidecarOf(other);
    }
  }

  lemma OpenElsewhere(cfg: Config, s: State, name: string, e: Event)
    requires !IsTemp(name) && (e.Admit? || e.Open?)
    ensures SameAt(Apply(cfg, s, e).nodes, s.nodes, name)
  {
    hide HeadroomOf, IsValid, IsReserved, Exists, IsTemp, IsHeld;
  }

  lemma WriteElsewhere(cfg: Config, s: State, name: string, e: Event)
    requires Inv(cfg, s) && !IsTemp(name) && (e.Write? || e.Drop?)
    ensures SameAt(Apply(cfg, s, e).nodes, s.nodes, name)
  {
    hide Inv, ChunkAccepted, ChunkFits;
    TempsNot(cfg, s, name);
  }

  lemma RenameElsewhere(cfg: Config, s: State, name: string, e: Event)
    requires Inv(cfg, s) && !IsTemp(name) && e.Rename? && !Publishes(s, e, name)
    ensures SameAt(Apply(cfg, s, e).nodes, s.nodes, name)
  {
    hide Inv;
    TempsNot(cfg, s, name);
  }

  lemma SealElsewhere(cfg: Config, s: State, name: string, e: Event)
    requires Inv(cfg, s) && !IsTemp(name) && (e.Stage? || e.Seal?)
    requires e.Seal? && e.id in s.closing ==> Sidecar(s.closing[e.id].name) != name
    ensures SameAt(Apply(cfg, s, e).nodes, s.nodes, name)
  {
    hide Inv, IsTemp, IsHeld, Sidecar;
    TempsNot(cfg, s, name);
  }

  lemma RemovalElsewhere(cfg: Config, s: State, name: string, e: Event)
    requires !Removes(s, e, name) && (e.Unlink? || e.RollBack? || e.Crash?)
    ensures SameAt(Apply(cfg, s, e).nodes, s.nodes, name)
  {
    if e.Unlink? {
      ValidUnreserved(e.name);
    }
    hide IsValid, IsReserved;
  }

  lemma ValidUnreserved(name: string)
    ensures IsValid(name) ==> !IsReserved(name)
  {
  }

  lemma CollectElsewhere(cfg: Config, s: State, name: string, e: Event)
    requires IsValid(name) && e.Collect?
    ensures SameAt(Apply(cfg, s, e).nodes, s.nodes, name)
  {
    ClassesDisjoint(name);
    hide IsValid, IsTemp, IsReserved;
  }

  lemma ForeignElsewhere(cfg: Config, s: State, name: string, e: Event)
    requires e.Foreign? && (e.name != name || !ForeignAllowed(s, name))
    ensures SameAt(Apply(cfg, s, e).nodes, s.nodes, name)
  {
    hide ForeignAllowed;
  }

  lemma UnlinkSidecarElsewhere(cfg: Config, s: State, name: string, e: Event)
    requires e.UnlinkSidecar? && Sidecar(e.name) != name
    ensures SameAt(Apply(cfg, s, e).nodes, s.nodes, name)
  {
    hide Sidecar;
  }

  /** Only its own publication, its own removal or a foreign file touches an artifact name. */
  lemma Elsewhere(cfg: Config, s: State, e: Event, name: string)
    requires Inv(cfg, s) && IsValid(name)
    requires !Publishes(s, e, name) && !Removes(s, e, name) && !(e.Foreign? && e.name == name)
    ensures SameAt(Apply(cfg, s, e).nodes, s.nodes, name)
  {
    hide Inv, IsValid, IsTemp, IsReserved, Publishes, Removes, Sidecar, Apply, SameAt;
    ClassesDisjoint(name);
    NotSidecar(name);
    match e
    case Admit(_) => OpenElsewhere(cfg, s, name, e);
    case Open(_, _, _) => OpenElsewhere(cfg, s, name, e);
    case Write(_, _, _, _) => WriteElsewhere(cfg, s, name, e);
    case Drop(_) => WriteElsewhere(cfg, s, name, e);
    case Rename(_, _, _) => RenameElsewhere(cfg, s, name, e);
    case Stage(_, _, _, _) => SealElsewhere(cfg, s, name, e);
    case Seal(_, _, _) => SealElsewhere(cfg, s, name, e);
    case RollBack(_, _) => RemovalElsewhere(cfg, s, name, e);
    case Unlink(_, _) => RemovalElsewhere(cfg, s, name, e);
    case UnlinkSidecar(_, _) => UnlinkSidecarElsewhere(cfg, s, name, e);
    case Collect(_, _, _) => CollectElsewhere(cfg, s, name, e);
    case Crash => RemovalElsewhere(cfg, s, name, e);
    case Foreign(_, _) => ForeignElsewhere(cfg, s, name, e);
  }

  lemma PublishesFree(s: State, e: Event, name: string)
    requires Publishes(s, e, name)
    ensures name !in s.nodes
  {
  }

  lemma RemovesIt(cfg: Config, s: State, e: Event, name: string)
    requires Removes(s, e, name)
    ensures name in s.nodes && name !in Apply(cfg, s, e).nodes
  {
    if e.Unlink? {
      ValidUnreserved(e.name);
    }
    hide IsValid, IsReserved;
  }

  /**
   An entry under a valid name is never changed in place, and leaves by exactly two ways: its own
   deletion, or a roll-back on its name.
   */
  lemma ArtifactLeavesIff(cfg: Config, s: State, e: Event, name: string)
    requires Inv(cfg, s) && IsValid(name) && name in s.nodes
    ensures name !in Apply(cfg, s, e).nodes <==> Removes(s, e, name)
    ensures name in Apply(cfg, s, e).nodes ==> Apply(cfg, s, e).nodes[name] == s.nodes[name]
  {
    hide Inv, IsValid, Removes, Publishes;
    if Removes(s, e, name) {
      RemovesIt(cfg, s, e, name);
    } else {
      if Publishes(s, e, name) {
        PublishesFree(s, e, name);
      }
      if !(e.Foreign? && e.name == name) {
        Elsewhere(cfg, s, e, name);
      }
    }
  }

  /** A publication shows the upload's complete data. */
  lemma RenamedContent(cfg: Config, s: State, e: Event, id: nat)
    requires Inv(cfg, s) && Renames(s, e, id)
    ensures var name, nodes := s.writers[id].name, Apply(cfg, s, e).nodes;
            name in nodes && nodes[name].File? && nodes[name].bytes == s.writers[id].data
  {
    assert WriterOk(cfg, s, id);
    hide IsValid, IsTemp;
  }

  /** A valid name comes into being only whole: as the complete data of one upload. */
  lemma ArtifactAppears(cfg: Config, s: State, e: Event, name: string) returns (id: nat)
    requires Inv(cfg, s) && IsValid(name) && name !in s.nodes && !(e.Foreign? && e.name == name)
    requires name in Apply(cfg, s, e).nodes
    ensures Renames(s, e, id) && s.writers[id].name == name
    ensures Content(Apply(cfg, s, e).nodes[name]) == Some(s.writers[id].data)
  {
    hide Inv, IsValid, Removes;
    id := 0;
    if Publishes(s, e, name) {
      id := e.id;
      RenamedContent(cfg, s, e, id);
    } else {
      if Removes(s, e, name) {
        RemovesIt(cfg, s, e, name);
      }
      Elsewhere(cfg, s, e, name);
    }
  }

  // ---------------------------------------------------------------------------------------------
  // Whole runs
  // ---------------------------------------------------------------------------------------------

  /** No temp file of upload `id` has been made yet. */
  predicate Unopened(s: State, id: nat) {
    id !in s.writers && (id in s.admitted || id >= s.next)
  }

  /** What upload `id` holds after one more step, told from what it held before. */
  lemma WriterStep(cfg: Config, s: State, e: Event, id: nat)
    requires Inv(cfg, s)
    ensures var t := Apply(cfg, s, e);
            && (id in t.writers && id in s.writers ==>
                  t.writers[id].data == s.writers[id].data + Gain(s, e, id) && t.writers[id].limit == s.writers[id].limit)
            && (id in t.writers && id !in s.writers ==>
                  id in s.admitted && t.writers[id].data == [] && t.writers[id].limit == s.admitted[id].limit)
            && (Unopened(t, id) ==> Unopened(s, id))
            && (Gain(s, e, id) != [] ==> id in t.writers)
  {
    hide Inv;
    NextUnused(cfg, s);
    AdmittedUnopened(cfg, s);
    if id in s.writers {
      assert s.writers[id].data + [] == s.writers[id].data;
    }
    if e.Admit? {
      AdmitWriters(cfg, s, e.name);
      hide AdmitStep;
    } else if e.Open? {
      hide TempUsable;
    } else if e.Write? {
      WriteWriters(s, e.id, e.chunk, e.diskOk, e.now);
      hide WriteStep, ChunkAccepted;
    } else {
      OthersUntouched(cfg, s, e);
      hide Apply;
    }
  }

  lemma AdmitWriters(cfg: Config, s: State, name: string)
    ensures var t := AdmitStep(cfg, s, name).0;
            t == s || (t.writers == s.writers && t.next == s.next + 1 && t.admitted.Keys == s.admitted.Keys + {s.next})
  {
    hide HeadroomOf, IsValid, IsReserved, Exists;
  }

  lemma WriteWriters(s: State, id: nat, chunk: seq<Byte>, diskOk: bool, now: int)
    ensures var t := WriteStep(s, id, chunk, diskOk, now).0;
            && t.next == s.next && t.admitted == s.admitted
            && if id in s.writers && ChunkAccepted(s.writers[id], chunk, diskOk)
               then exists w :: && t.writers == s.writers[id := w] && w.data == s.writers[id].data + chunk
                                && w.limit == s.writers[id].limit
               else t.writers == s.writers - {id}
  {
    if id !in s.writers {
      assert s.writers - {id} == s.writers;
    }
  }

  /** Only admitting, opening and writing change what the uploads are; everything else only closes some. */
  lemma OthersUntouched(cfg: Config, s: State, e: Event)
    requires !e.Admit? && !e.Open? && !e.Write?
    ensures Apply(cfg, s, e).next == s.next
    ensures Apply(cfg, s, e).admitted == if e.Crash? then map[] else s.admitted
    ensures forall id :: id in Apply(cfg, s, e).writers ==>
              id in s.writers && Apply(cfg, s, e).writers[id] == s.writers[id]
  {
    hide StageStep, SealStep, RollBackStep, UnlinkStep, UnlinkSidecarStep, Residue, Publishable, Published, ForeignAllowed;
    if IsBeside(e) {
      hide Apply;
      BesideUploads(cfg, s, e);
    }
  }

  /** Steps that leave the uploads alone. */
  predicate IsBeside(e: Event) {
    e.Stage? || e.Seal? || e.RollBack? || e.Unlink? || e.UnlinkSidecar? || e.Collect?
  }

  predicate SameUploads(t: State, s: State) {
    t.admitted == s.admitted && t.writers == s.writers && t.next == s.next
  }

  lemma StageUploads(cfg: Config, s: State, id: nat, tmp: string, octets: nat, now: int)
    ensures SameUploads(StageStep(cfg, s, id, tmp, octets, now), s)
  {
    hide Stageable;
  }

  lemma SealUploads(cfg: Config, s: State, id: nat, diskOk: bool, now: int)
    ensures SameUploads(SealStep(cfg, s, id, diskOk, now).0, s)
  {
    hide Seals, Sidecar;
  }

  lemma RemovalUploads(s: State, id: nat, name: string, removeOk: bool)
    ensures SameUploads(RollBackStep(s, id, removeOk), s)
    ensures SameUploads(UnlinkStep(s, name, removeOk).0, s)
    ensures SameUploads(UnlinkSidecarStep(s, name, removeOk), s)
  {
    hide RollsBack, IsValid, IsReserved, Sidecar;
  }

  lemma BesideUploads(cfg: Config, s: State, e: Event)
    requires IsBeside(e)
    ensures SameUploads(Apply(cfg, s, e), s)
  {
    hide StageStep, SealStep, RollBackStep, UnlinkStep, UnlinkSidecarStep, Residue;
    match e
    case Stage(id, tmp, octets, now) => StageUploads(cfg, s, id, tmp, octets, now);
    case Seal(id, diskOk, now) => SealUploads(cfg, s, id, diskOk, now);
    case RollBack(id, removeOk) => RemovalUploads(s, id, "", removeOk);
    case Unlink(name, removeOk) => RemovalUploads(s, 0, name, removeOk);
    case UnlinkSidecar(name, removeOk) => RemovalUploads(s, 0, name, removeOk);
    case Collect(_, _, _) =>
  }

  /** An open upload holds exactly the chunks the run accepted for it; an unopened one, none. */
  lemma {:induction false} WriterHoldsAccepted(cfg: Config, s: State, es: seq<Event>, id: nat)
    requires ValidConfig(cfg) && Inv(cfg, s) && Idle(s)
    ensures id in Exec(cfg, s, es).writers ==> Exec(cfg, s, es).writers[id].data == Accepted(cfg, s, es, id)
    ensures Unopened(Exec(cfg, s, es), id) ==> Accepted(cfg, s, es, id) == []
  {
    hide Inv, Apply, ValidConfig;
    if es == [] {
    } else {
      var before, e := es[..|es| - 1], es[|es| - 1];
      WriterHoldsAccepted(cfg, s, before, id);
      RunKeeps(cfg, s, before);
      var here := Exec(cfg, s, before);
      WriterStep(cfg, here, e, id);
      AdmittedUnopened(cfg, here);
    }
  }

  lemma AdmittedUnopened(cfg: Config, s: State)
    requires Inv(cfg, s)
    ensures forall id :: id in s.admitted ==> Unopened(s, id)
  {
  }

  /**
   Step `i` of the run published, under `name`, everything one upload had accepted by then, and the
   name has shown exactly those octets ever since.
   */
  ghost predicate VisibleSince(cfg: Config, s: State, es: seq<Event>, name: string, bytes: seq<Byte>, i: nat, id: nat) {
    && i < |es|
    && Renames(Exec(cfg, s, es[..i]), es[i], id)
    && Exec(cfg, s, es[..i]).writers[id].name == name
    && bytes == Accepted(cfg, s, es[..i], id)
    && forall j :: i < j <= |es| ==> ShowsAt(cfg, s, es, j, name, bytes)
  }

  ghost predicate ShowsAt(cfg: Config, s: State, es: seq<Event>, j: nat, name: string, bytes: seq<Byte>)
    requires j <= |es|
  {
    name in Exec(cfg, s, es[..j]).nodes && Content(Exec(cfg, s, es[..j]).nodes[name]) == Some(bytes)
  }

  /**
   Atomic, create-only publishing: whatever an artifact name shows is the concatenation of all chunks
   one upload accepted, and it has not changed since that upload was published.
   */
  lemma {:induction false} ArtifactOrigin(cfg: Config, s: State, es: seq<Event>, name: string)
    returns (bytes: seq<Byte>, i: nat, id: nat)
    requires ValidConfig(cfg) && Inv(cfg, s) && Idle(s) && name !in s.nodes && IsValid(name)
    requires forall j :: 0 <= j < |es| ==> !(es[j].Foreign? && es[j].name == name)
    requires name in Exec(cfg, s, es).nodes
    ensures VisibleSince(cfg, s, es, name, bytes, i, id)
  {
    hide Inv, Apply, IsValid, Renames, Content, Accepted, ValidConfig, Removes;
    var before, e := es[..|es| - 1], es[|es| - 1];
    var here := Exec(cfg, s, before);
    RunKeeps(cfg, s, before);
    assert es[..|es|] == es;
    assert forall j :: 0 <= j <= |before| ==> before[..j] == es[..j];
    if name in here.nodes {
      ArtifactLeavesIff(cfg, here, e, name);
      bytes, i, id := ArtifactOrigin(cfg, s, before, name);
      forall j | i < j <= |es| ensures ShowsAt(cfg, s, es, j, name, bytes) {
        if j < |es| {
          assert ShowsAt(cfg, s, before, j, name, bytes);
        } else {
          assert ShowsAt(cfg, s, before, |before|, name, bytes);
          assert before[..|before|] == before;
        }
      }
    } else {
      i := |es| - 1;
      id := ArtifactAppears(cfg, here, e, name);
      RenamesOpen(here, e, id);
      bytes := here.writers[id].data;
      WriterHoldsAccepted(cfg, s, before, id);
    }
  }

  lemma RenamesOpen(s: State, e: Event, id: nat)
    requires Renames(s, e, id)
    ensures id in s.writers && s.writers[id].name !in s.nodes
  {
  }

  /** Step `k` of the run takes `name` away. */
  ghost predicate RemovedAt(cfg: Config, s: State, es: seq<Event>, k: nat, name: string)
    requires k < |es|
  {
    Removes(Exec(cfg, s, es[..k]), es[k], name)
  }

  ghost predicate EntryAt(cfg: Config, s: State, es: seq<Event>, j: nat, name: string, node: Node)
    requires j <= |es|
  {
    name in Exec(cfg, s, es[..j]).nodes && Exec(cfg, s, es[..j]).nodes[name] == node
  }

  lemma ExecPrefix(cfg: Config, s: State, es: seq<Event>, j: nat)
    requires j < |es|
    ensures Exec(cfg, s, es[..j + 1]) == Apply(cfg, Exec(cfg, s, es[..j]), es[j])
  {
    hide Apply;
    assert es[..j + 1][..j] == es[..j];
  }

  /**
   From step `i` to step `j` the name shows the very entry it showed at `i` if and only if no step in
   between deletes the name or rolls a `finish` on it back.
   */
  lemma {:induction false} SameEntryIff(cfg: Config, s: State, es: seq<Event>, name: string, i: nat, j: nat, node: Node)
    requires ValidConfig(cfg) && Inv(cfg, s) && IsValid(name) && i <= j <= |es| && EntryAt(cfg, s, es, i, name, node)
    ensures (forall m :: i <= m <= j ==> EntryAt(cfg, s, es, m, name, node))
       <==> (forall k :: i <= k < j ==> !RemovedAt(cfg, s, es, k, name))
    decreases j
  {
    hide Inv, IsValid, ValidConfig, RemovedAt, EntryAt;
    if i == j {
    } else {
      SameEntryIff(cfg, s, es, name, i, j - 1, node);
      if EntryAt(cfg, s, es, j - 1, name, node) {
        EntryNext(cfg, s, es, name, j - 1, node);
      }
    }
  }

  lemma EntryNext(cfg: Config, s: State, es: seq<Event>, name: string, j: nat, node: Node)
    requires ValidConfig(cfg) && Inv(cfg, s) && IsValid(name) && j < |es| && EntryAt(cfg, s, es, j, name, node)
    ensures EntryAt(cfg, s, es, j + 1, name, node) <==> !RemovedAt(cfg, s, es, j, name)
  {
    hide Inv, IsValid, ValidConfig, Removes, Apply;
    RunKeeps(cfg, s, es[..j]);
    ExecPrefix(cfg, s, es, j);
    ArtifactLeavesIff(cfg, Exec(cfg, s, es[..j]), es[j], name);
  }

  /** A name that is there and later free was taken away in between. */
  lemma {:induction false} FreedByRemoval(cfg: Config, s: State, es: seq<Event>, name: string, i: nat, j: nat)
    requires ValidConfig(cfg) && Inv(cfg, s) && IsValid(name) && i <= j <= |es|
    requires name in Exec(cfg, s, es[..i]).nodes && name !in Exec(cfg, s, es[..j]).nodes
    ensures exists k :: i <= k < j && RemovedAt(cfg, s, es, k, name)
  {
    hide Inv, IsValid, ValidConfig, RemovedAt, Exec;
    var node := Exec(cfg, s, es[..i]).nodes[name];
    assert EntryAt(cfg, s, es, i, name, node);
    SameEntryIff(cfg, s, es, name, i, j, node);
    assert !EntryAt(cfg, s, es, j, name, node);
  }

  /**
   Of two publications of one name, however their finishes race, a step between them took the name
   away: a deletion of it, or a roll-back of a `finish` on it.
   */
  lemma RenameOncePerRemoval(cfg: Config, s: State, es: seq<Event>, name: string, i: nat, j: nat)
    requires ValidConfig(cfg) && Inv(cfg, s) && IsValid(name) && i < j < |es|
    requires Publishes(Exec(cfg, s, es[..i]), es[i], name) && Publishes(Exec(cfg, s, es[..j]), es[j], name)
    ensures exists k :: i < k < j && RemovedAt(cfg, s, es, k, name)
  {
    RunKeeps(cfg, s, es[..i]);
    ExecPrefix(cfg, s, es, i);
    RenamedContent(cfg, Exec(cfg, s, es[..i]), es[i], es[i].id);
    hide Inv, IsValid, ValidConfig, RemovedAt, Exec, Apply;
    FreedByRemoval(cfg, s, es, name, i + 1, j);
  }

  // ---------------------------------------------------------------------------------------------
  // Roll-backs
  // ---------------------------------------------------------------------------------------------

  /** Some `finish` on the name is between its rename and its end. */
  predicate BeingClosed(s: State, name: string) {
    exists id :: id in s.closing && s.closing[id].name == name
  }

  /** At most one `finish` on the name is past its rename, and the name shows that upload. */
  ghost predicate Owned(s: State, name: string) {
    && (forall id :: id in s.closing && s.closing[id].name == name ==>
          name in s.nodes && s.nodes[name].File? && s.nodes[name].bytes == s.closing[id].data)
    && (forall i, j :: i in s.closing && j in s.closing && s.closing[i].name == s.closing[j].name == name ==> i == j)
  }

  /** The name is deleted under a `finish` that is past its rename. */
  predicate DeletedUnderFinish(s: State, e: Event, name: string) {
    e.Unlink? && e.name == name && Unlinks(s, name, e.removeOk) && BeingClosed(s, name)
  }

  /** Two records of one `finish`: the same name and data. */
  predicate SameFinish(a: Closing, b: Closing) {
    a.name == b.name && a.data == b.data
  }

  /** Which finishes are past their rename: only renames add, and nothing re-targets one. */
  lemma ClosingStep(cfg: Config, s: State, e: Event, id: nat)
    requires Inv(cfg, s) && id in Apply(cfg, s, e).closing
    ensures id in s.closing ==> SameFinish(Apply(cfg, s, e).closing[id], s.closing[id])
    ensures id !in s.closing ==>
              Renames(s, e, id) && Apply(cfg, s, e).closing[id]
                                == Closing(s.writers[id].name, s.writers[id].data, s.writers[id].written, None, false)
    ensures e.RollBack? && e.id == id ==> id in s.closing && !s.closing[id].failed
  {
    if e.Rename? {
      if e.id in s.writers {
        assert WriterOk(cfg, s, e.id);
      }
      hide Inv, WriterOk, Published;
    } else if e.Stage? || e.Seal? || e.RollBack? {
      hide Inv;
      ClosingOfSealing(cfg, s, e);
    } else {
      hide Inv;
      ClosingOfRest(cfg, s, e);
      hide Apply;
    }
  }

  lemma ClosingOfSealing(cfg: Config, s: State, e: Event)
    requires e.Stage? || e.Seal? || e.RollBack?
    ensures forall id :: id in Apply(cfg, s, e).closing ==>
              id in s.closing && SameFinish(Apply(cfg, s, e).closing[id], s.closing[id])
    ensures e.RollBack? && e.id in Apply(cfg, s, e).closing ==> !s.closing[e.id].failed
  {
    hide Sidecar, TempUsable, RollsBack, Seals;
  }

  lemma ClosingOfRest(cfg: Config, s: State, e: Event)
    requires !e.Rename? && !e.Stage? && !e.Seal? && !e.RollBack?
    ensures Apply(cfg, s, e).closing == if e.Crash? then map[] else s.closing
  {
    hide IsValid, IsReserved, Sidecar, Residue, HeadroomOf, Exists, TempUsable, ForeignAllowed, ChunkAccepted, ChunkFits;
  }

  lemma OwnedStep(cfg: Config, s: State, e: Event, name: string)
    requires Inv(cfg, s) && IsValid(name) && Owned(s, name) && !DeletedUnderFinish(s, e, name)
    ensures Owned(Apply(cfg, s, e), name)
  {
    hide Inv, IsValid, Apply, Removes, Renames, Unlinks;
    var t := Apply(cfg, s, e);
    forall id | id in t.closing && t.closing[id].name == name
      ensures name in t.nodes && t.nodes[name].File? && t.nodes[name].bytes == t.closing[id].data
    {
      ClosingStep(cfg, s, e, id);
      if id in s.closing {
        OwnedEntry(cfg, s, e, name, id);
      } else {
        RenamedContent(cfg, s, e, id);
      }
    }
    forall i, j | i in t.closing && j in t.closing && t.closing[i].name == t.closing[j].name == name ensures i == j {
      ClosingStep(cfg, s, e, i);
      ClosingStep(cfg, s, e, j);
      if (i in s.closing) != (j in s.closing) {
        RenamesOpen(s, e, if i in s.closing then j else i);
      } else if i !in s.closing {
        SameRename(s, e, i, j);
      }
    }
  }

  lemma SameRename(s: State, e: Event, i: nat, j: nat)
    requires Renames(s, e, i) && Renames(s, e, j)
    ensures i == j
  {
  }

  /** The entry of an owned `finish` that is still in progress after the step stays. */
  lemma OwnedEntry(cfg: Config, s: State, e: Event, name: string, id: nat)
    requires Inv(cfg, s) && IsValid(name) && Owned(s, name) && !DeletedUnderFinish(s, e, name)
    requires id in s.closing && s.closing[id].name == name && id in Apply(cfg, s, e).closing
    ensures name in Apply(cfg, s, e).nodes && Apply(cfg, s, e).nodes[name] == s.nodes[name]
  {
    hide Inv, IsValid, Apply, Unlinks;
    ClosingStep(cfg, s, e, id);
    assert BeingClosed(s, name);
    assert !Removes(s, e, name);
    ArtifactLeavesIff(cfg, s, e, name);
  }

  /** No step of the run deletes the name under a `finish` on it. */
  ghost predicate NeverDeletedUnderFinish(cfg: Config, s: State, es: seq<Event>, name: string) {
    forall i :: 0 <= i < |es| ==> !DeletedUnderFinish(Exec(cfg, s, es[..i]), es[i], name)
  }

  /**
   As long as the name is never deleted under a `finish` on it, finishes on it exclude each other past
   their renames, and each finds its own upload under the name.
   */
  lemma {:induction false} OwnedRun(cfg: Config, s: State, es: seq<Event>, name: string)
    requires ValidConfig(cfg) && Inv(cfg, s) && Idle(s) && IsValid(name) && NeverDeletedUnderFinish(cfg, s, es, name)
    ensures Owned(Exec(cfg, s, es), name)
  {
    hide Inv, ValidConfig, IsValid, Apply, Owned, DeletedUnderFinish;
    if es == [] {
      OwnedIdle(s, name);
    } else {
      var before, e := es[..|es| - 1], es[|es| - 1];
      assert forall i :: 0 <= i <= |before| ==> before[..i] == es[..i];
      OwnedRun(cfg, s, before, name);
      RunKeeps(cfg, s, before);
      OwnedStep(cfg, Exec(cfg, s, before), e, name);
    }
  }

  lemma OwnedIdle(s: State, name: string)
    requires Idle(s)
    ensures Owned(s, name)
  {
  }

  /**
   From a rename on, the name shows the upload it published, unchanged, if and only if no later step
   deletes the name or rolls a `finish` on it back.
   */
  lemma PublishedShownIff(cfg: Config, s: State, es: seq<Event>, i: nat, j: nat, id: nat)
    requires ValidConfig(cfg) && Inv(cfg, s) && i < j <= |es| && Renames(Exec(cfg, s, es[..i]), es[i], id)
    ensures var name := Exec(cfg, s, es[..i]).writers[id].name;
            && EntryAt(cfg, s, es, i + 1, name, PublishedNode(cfg, s, es, i, id))
            && ((forall m :: i < m <= j ==> EntryAt(cfg, s, es, m, name, PublishedNode(cfg, s, es, i, id)))
                <==> (forall k :: i < k < j ==> !RemovedAt(cfg, s, es, k, name)))
  {
    var here := Exec(cfg, s, es[..i]);
    var name := here.writers[id].name;
    RunKeeps(cfg, s, es[..i]);
    assert WriterOk(cfg, here, id);
    ExecPrefix(cfg, s, es, i);
    RenamedContent(cfg, here, es[i], id);
    hide Inv, ValidConfig, Exec, Apply, WriterOk, RemovedAt, IsValid;
    SameEntryIff(cfg, s, es, name, i + 1, j, PublishedNode(cfg, s, es, i, id));
  }

  /** The entry a rename at step `i` publishes: the upload's whole data. */
  ghost function PublishedNode(cfg: Config, s: State, es: seq<Event>, i: nat, id: nat): (node: Node)
    requires ValidConfig(cfg) && Inv(cfg, s) && i < |es| && Renames(Exec(cfg, s, es[..i]), es[i], id)
    ensures node.File? && node.bytes == Exec(cfg, s, es[..i]).writers[id].data
  {
    RunKeeps(cfg, s, es[..i]);
    ExecPrefix(cfg, s, es, i);
    RenamedContent(cfg, Exec(cfg, s, es[..i]), es[i], id);
    Exec(cfg, s, es[..i + 1]).nodes[Exec(cfg, s, es[..i]).writers[id].name]
  }

  /**
   A roll-back at step `j` of a `finish` renamed at step `i` takes away the very entry that `finish`
   published if and only if no step in between had taken it away before.
   */
  lemma RollBackTakesOwnIff(cfg: Config, s: State, es: seq<Event>, i: nat, j: nat, id: nat)
    requires ValidConfig(cfg) && Inv(cfg, s) && i < j < |es| && Renames(Exec(cfg, s, es[..i]), es[i], id)
    requires es[j].RollBack? && es[j].id == id && RollsBack(Exec(cfg, s, es[..j]), id, es[j].removeOk)
    ensures var name := Exec(cfg, s, es[..i]).writers[id].name;
            (forall m :: i < m <= j ==> EntryAt(cfg, s, es, m, name, PublishedNode(cfg, s, es, i, id)))
            <==> (forall k :: i < k < j ==> !RemovedAt(cfg, s, es, k, name))
    ensures RemovedAt(cfg, s, es, j, Exec(cfg, s, es[..i]).writers[id].name)
  {
    hide Inv, ValidConfig, Apply, Renames;
    PublishedShownIff(cfg, s, es, i, j, id);
    SameTarget(cfg, s, es, i, j, id);
  }

  /** A `finish` in progress at step `j` that was renamed at step `i` still has the name of that rename. */
  lemma {:induction false} SameTarget(cfg: Config, s: State, es: seq<Event>, i: nat, j: nat, id: nat)
    requires ValidConfig(cfg) && Inv(cfg, s) && i < j <= |es| && Renames(Exec(cfg, s, es[..i]), es[i], id)
    requires id in Exec(cfg, s, es[..j]).closing
    ensures Exec(cfg, s, es[..j]).closing[id].name == Exec(cfg, s, es[..i]).writers[id].name
    decreases j
  {
    hide Inv, ValidConfig, Apply;
    var here := Exec(cfg, s, es[..j - 1]);
    ExecPrefix(cfg, s, es, j - 1);
    RunKeeps(cfg, s, es[..j - 1]);
    ClosingStep(cfg, here, es[j - 1], id);
    if i + 1 == j {
      WriterNotClosing(cfg, here, id);
    } else {
      SpentFrom(cfg, s, es, i, j - 1, id);
      SameTarget(cfg, s, es, i, j - 1, id);
    }
  }

  lemma WriterNotClosing(cfg: Config, s: State, id: nat)
    requires Inv(cfg, s) && id in s.writers
    ensures id !in s.closing
  {
    assert WriterOk(cfg, s, id);
  }

  /** Once renamed, an upload is never open again. */
  lemma {:induction false} SpentFrom(cfg: Config, s: State, es: seq<Event>, i: nat, j: nat, id: nat)
    requires ValidConfig(cfg) && Inv(cfg, s) && i < j <= |es| && Renames(Exec(cfg, s, es[..i]), es[i], id)
    ensures id !in Exec(cfg, s, es[..j]).writers && !Unopened(Exec(cfg, s, es[..j]), id)
    decreases j
  {
    hide Inv, ValidConfig, Apply;
    var here := Exec(cfg, s, es[..j - 1]);
    ExecPrefix(cfg, s, es, j - 1);
    RunKeeps(cfg, s, es[..j - 1]);
    if i + 1 == j {
      SpentByRename(cfg, here, es[i], id);
    } else {
      SpentFrom(cfg, s, es, i, j - 1, id);
      WriterStep(cfg, here, es[j - 1], id);
      AdmittedUnopened(cfg, here);
    }
  }

  lemma SpentByRename(cfg: Config, s: State, e: Event, id: nat)
    requires Inv(cfg, s) && Renames(s, e, id)
    ensures id !in Apply(cfg, s, e).writers && !Unopened(Apply(cfg, s, e), id)
  {
    NextUnused(cfg, s);
    assert id in s.admitted ==> id !in s.writers;
    hide Inv, Published;
  }

  /** In particular a roll-back removes its own octets in a run that never deletes the name under a `finish` on it. */
  lemma RollBackTakesOwn(cfg: Config, s: State, es: seq<Event>, id: nat)
    requires ValidConfig(cfg) && Inv(cfg, s) && Idle(s) && RollsBack(Exec(cfg, s, es), id, true)
    requires NeverDeletedUnderFinish(cfg, s, es, Exec(cfg, s, es).closing[id].name)
    ensures var here := Exec(cfg, s, es);
            Content(here.nodes[here.closing[id].name]) == Some(here.closing[id].data)
  {
    hide Apply, IsValid, NeverDeletedUnderFinish;
    RunKeeps(cfg, s, es);
    assert ClosingOk(Exec(cfg, s, es), id);
    hide Inv;
    OwnedRun(cfg, s, es, Exec(cfg, s, es).closing[id].name);
  }
}
