/**
 The artifact store of crates/vmcell-daemon/src/artifact_store.rs as a state machine: the directory,
 the uploads, finishes and deletes in progress, and one transition per change of the directory. The
 store takes no lock, so a `finish` is a rename, a sidecar and perhaps a roll-back, a `delete` is two
 removals, and a run interleaves them freely. What the file system or a crash decides is part of the
 event, so a run over all events is a run over all environments.
 */
module StoreState {
  import opened ArtifactNames
  import opened Basics
  import MapSums

  const U64_MAX: nat := 0xFFFF_FFFF_FFFF_FFFF
  const DIGEST_BYTES: nat := 64
  const MAX_STORE_WALK_DEPTH: nat := 4

  // ---------------------------------------------------------------------------------------------
  // The directory
  // ---------------------------------------------------------------------------------------------

  /** The contents of a snapshot prefix, by the sizes of what it holds. */
  datatype Tree = Leaf(size: nat) | Sub(entries: Forest)
  datatype Forest = Nil | Cons(tree: Tree, rest: Forest)

  /** What a symbolic link leads to when followed. */
  datatype Target = Dangling | ToFile(bytes: seq<Byte>) | ToDirectory

  datatype Node =
    | File(bytes: seq<Byte>, mtime: Option<int>)
    | Link(len: nat, target: Target)
    | Dir(entries: Forest)

  type Directory = map<string, Node>

  function ForestBytes(f: Forest): nat {
    match f
    case Nil => 0
    case Cons(Leaf(size), rest) => size + ForestBytes(rest)
    case Cons(Sub(entries), rest) => ForestBytes(entries) + ForestBytes(rest)
  }

  function Max(x: nat, y: nat): nat {
    if x < y then y else x
  }

  function Min(x: nat, y: nat): nat {
    if x < y then x else y
  }

  /** How many directory levels a forest spans, its own included. */
  function Levels(f: Forest): nat {
    match f
    case Nil => 1
    case Cons(Leaf(_), rest) => Levels(rest)
    case Cons(Sub(entries), rest) => Max(1 + Levels(entries), Levels(rest))
  }

  /** The octets an entry holds; the daemon's own scratch directory counts for nothing. */
  function Weight(name: string, node: Node): nat {
    match node
    case File(bytes, _) => |bytes|
    case Link(len, _) => len
    case Dir(entries) => if name == SCRATCH_DIR_NAME then 0 else ForestBytes(entries)
  }

  ghost function Used(nodes: Directory): nat {
    MapSums.Sum(nodes, Weight)
  }

  /** `path.exists()`: links are followed, and the empty name is the store directory itself. */
  predicate Exists(nodes: Directory, name: string) {
    name == "" || (name in nodes && !(nodes[name].Link? && nodes[name].target.Dangling?))
  }

  /** What reading a path yields when it is a file, links followed. */
  function Content(node: Node): Option<seq<Byte>> {
    match node
    case File(bytes, _) => Some(bytes)
    case Link(_, ToFile(bytes)) => Some(bytes)
    case _ => None
  }

  /** At least `minAge` old; an unreadable or future time stamp reads as too young. */
  predicate OlderThan(mtime: Option<int>, now: int, minAge: nat) {
    mtime.Some? && mtime.value <= now && now - mtime.value >= minAge
  }

  predicate Shallow(name: string, node: Node) {
    node.Dir? && name != SCRATCH_DIR_NAME ==> Levels(node.entries) <= MAX_STORE_WALK_DEPTH
  }

  ghost predicate Measurable(nodes: Directory) {
    forall name :: name in nodes ==> Shallow(name, nodes[name])
  }

  // ---------------------------------------------------------------------------------------------
  // Digests
  // ---------------------------------------------------------------------------------------------

  predicate IsHexDigit(b: Byte) {
    48 <= b <= 57 || 97 <= b <= 102 || 65 <= b <= 70
  }

  predicate IsBlank(b: Byte) {
    b == 32 || 9 <= b <= 13
  }

  function TrimBlanks(s: seq<Byte>): seq<Byte> {
    if s == [] then []
    else if IsBlank(s[0]) then TrimBlanks(s[1..])
    else if IsBlank(s[|s| - 1]) then TrimBlanks(s[..|s| - 1])
    else s
  }

  /** What a sidecar is accepted for: digits of either case. */
  predicate IsDigest(s: seq<Byte>) {
    |s| == DIGEST_BYTES && forall i :: 0 <= i < |s| ==> IsHexDigit(s[i])
  }

  predicate IsLowerHexDigit(b: Byte) {
    48 <= b <= 57 || 97 <= b <= 102
  }

  /** What the store writes: lower-case digits. */
  predicate IsLowerDigest(s: seq<Byte>) {
    |s| == DIGEST_BYTES && forall i :: 0 <= i < |s| ==> IsLowerHexDigit(s[i])
  }

  /** A sidecar's digest, or None when it is absent or not exactly one digest. */
  function ReadSidecar(nodes: Directory, name: string): Option<seq<Byte>> {
    if Sidecar(name) !in nodes then None
    else match Content(nodes[Sidecar(name)])
      case None => None
      case Some(bytes) => if IsDigest(TrimBlanks(bytes)) then Some(TrimBlanks(bytes)) else None
  }

  /** The hash of a byte string, in lower-case hexadecimal; any function with that shape. */
  type Hash = seq<Byte> -> seq<Byte>

  ghost predicate IsHash(hash: Hash) {
    forall b :: IsLowerDigest(hash(b))
  }

  /** The digest reported for a name: its sidecar's, or a fresh hash of the body. */
  function Reported(hash: Hash, nodes: Directory, name: string, body: seq<Byte>): seq<Byte> {
    match ReadSidecar(nodes, name)
    case Some(digest) => digest
    case None => hash(body)
  }

  // ---------------------------------------------------------------------------------------------
  // The store
  // ---------------------------------------------------------------------------------------------

  datatype Config = Config(maxBytes: nat, quota: Option<nat>, hash: Hash)

  ghost predicate ValidConfig(cfg: Config) {
    cfg.maxBytes <= U64_MAX && (cfg.quota.Some? ==> cfg.quota.value <= U64_MAX) && IsHash(cfg.hash)
  }

  /** An upload in progress: `data` is what its temp file and its hasher have absorbed. */
  datatype Writer = Writer(name: string, tmp: string, data: seq<Byte>, written: nat, limit: nat)

  /** An upload whose name and size were admitted, and whose temp file is still to come. */
  datatype Admitted = Admitted(name: string, limit: nat)

  /** The sidecar's own temp file, and how much of the digest has reached it. */
  datatype Staged = Staged(tmp: string, octets: nat)

  /** A `finish` past its rename: the sidecar is still to come or, once that `failed`, the roll-back. */
  datatype Closing = Closing(name: string, data: seq<Byte>, written: nat, staged: Option<Staged>, failed: bool)

  /** `deleting` are the deletes that have removed their file and not yet its sidecar. */
  datatype State = State(
    nodes: Directory, admitted: map<nat, Admitted>, writers: map<nat, Writer>, closing: map<nat, Closing>,
    deleting: multiset<string>, next: nat)

  datatype Reply =
    | Done
    | Opened(id: nat)
    | Info(name: string, size: nat, sha256: seq<Byte>)
    | BadRequest
    | InvalidName
    | AlreadyExists
    | PayloadTooLarge
    | NotFound
    | Internal

  function SaturatingAdd(x: nat, y: nat): nat {
    Min(x + y, U64_MAX)
  }

  /** No upload is ever held to more than this. */
  function Cap(cfg: Config): nat {
    if cfg.quota.Some? then Min(cfg.maxBytes, cfg.quota.value) else cfg.maxBytes
  }

  datatype Headroom = Unbounded | Room(bytes: nat) | Full | Unmeasurable

  ghost function HeadroomOf(cfg: Config, nodes: Directory): Headroom {
    match cfg.quota
    case None => Unbounded
    case Some(quota) =>
      if !Measurable(nodes) then Unmeasurable
      else
        var used := Min(Used(nodes), U64_MAX);
        if used >= quota then Full else Room(quota - used)
  }

  function LimitOf(cfg: Config, headroom: Headroom): nat {
    if headroom.Room? && headroom.bytes < cfg.maxBytes then headroom.bytes else cfg.maxBytes
  }

  function StagedNames(c: Closing): set<string> {
    if c.staged.Some? then {c.staged.value.tmp} else {}
  }

  /** Some upload or some sidecar being written owns the temp name. */
  predicate IsHeld(s: State, tmp: string) {
    || (exists id :: id in s.writers && s.writers[id].tmp == tmp)
    || (exists id :: id in s.closing && tmp in StagedNames(s.closing[id]))
  }

  predicate TempUsable(s: State, tmp: string) {
    IsTemp(tmp) && tmp !in s.nodes && !IsHeld(s, tmp)
  }

  /** `create_streaming`, first part: the name is checked, the store measured and the ceiling fixed. */
  ghost function AdmitStep(cfg: Config, s: State, name: string): (State, Reply) {
    if IsReserved(name) then (s, BadRequest)
    else if !IsValid(name) then (s, InvalidName)
    else if Exists(s.nodes, name) then (s, AlreadyExists)
    else
      var headroom := HeadroomOf(cfg, s.nodes);
      if headroom.Unmeasurable? then (s, Internal)
      else if headroom.Full? then (s, PayloadTooLarge)
      else (s.(admitted := s.admitted[s.next := Admitted(name, LimitOf(cfg, headroom))], next := s.next + 1), Opened(s.next))
  }

  /** `create_streaming`, second part: the temp file, whatever has happened to the store since. */
  function OpenStep(s: State, id: nat, tmp: string, now: int): (State, Reply) {
    if id !in s.admitted then (s, NotFound)
    else if !TempUsable(s, tmp) then (s.(admitted := s.admitted - {id}), Internal)
    else
      var w := Writer(s.admitted[id].name, tmp, [], 0, s.admitted[id].limit);
      (s.(nodes := s.nodes[tmp := File([], Some(now))], admitted := s.admitted - {id}, writers := s.writers[id := w]),
       Opened(id))
  }

  /** Dropping a writer removes its temp file. */
  function Abandon(s: State, id: nat): State
    requires id in s.writers
  {
    s.(nodes := s.nodes - {s.writers[id].tmp}, writers := s.writers - {id})
  }

  predicate ChunkFits(w: Writer, chunk: seq<Byte>) {
    SaturatingAdd(w.written, |chunk|) <= w.limit
  }

  /** A chunk is accepted when it fits the limit and the file system takes it; no file outgrows 64 bits. */
  predicate ChunkAccepted(w: Writer, chunk: seq<Byte>, diskOk: bool) {
    ChunkFits(w, chunk) && diskOk && |w.data| + |chunk| <= U64_MAX
  }

  /** `write_chunk`; the caller drops a writer whose chunk was refused. */
  function WriteStep(s: State, id: nat, chunk: seq<Byte>, diskOk: bool, now: int): (State, Reply) {
    if id !in s.writers then (s, NotFound)
    else
      var w := s.writers[id];
      if !ChunkFits(w, chunk) then (Abandon(s, id), PayloadTooLarge)
      else if !ChunkAccepted(w, chunk, diskOk) then (Abandon(s, id), Internal)
      else
        var w' := w.(data := w.data + chunk, written := SaturatingAdd(w.written, |chunk|));
        var nodes := if w.tmp in s.nodes then s.nodes[w.tmp := File(w'.data, Some(now))] else s.nodes;
        (s.(nodes := nodes, writers := s.writers[id := w']), Done)
  }

  /** The no-clobber rename can go through: name free, temp file still there. */
  predicate Publishable(s: State, id: nat) {
    id in s.writers && s.writers[id].name !in s.nodes && s.writers[id].tmp in s.nodes
  }

  /** The directory just after the rename. */
  function Published(s: State, id: nat): Directory
    requires id in s.writers && s.writers[id].tmp in s.nodes
  {
    var w := s.writers[id];
    (s.nodes - {w.tmp})[w.name := s.nodes[w.tmp]]
  }

  /** `finish`, first part: flush and claim the name. `Done` means the sidecar is next. */
  function RenameStep(s: State, id: nat, flushOk: bool, persistOk: bool): (State, Reply) {
    if id !in s.writers then (s, NotFound)
    else
      var w := s.writers[id];
      if !(flushOk && persistOk && Publishable(s, id)) then
        (Abandon(s, id), if flushOk && w.name in s.nodes then AlreadyExists else Internal)
      else
        (s.(nodes := Published(s, id), writers := s.writers - {id},
            closing := s.closing[id := Closing(w.name, w.data, w.written, None, false)]), Done)
  }

  predicate Stageable(cfg: Config, s: State, id: nat, tmp: string, octets: nat) {
    && id in s.closing && !s.closing[id].failed && s.closing[id].staged == None && TempUsable(s, tmp)
    && octets <= |cfg.hash(s.closing[id].data)|
  }

  /** `write_sidecar` begins: its temp file holds the first `octets` of the digest. */
  function StageStep(cfg: Config, s: State, id: nat, tmp: string, octets: nat, now: int): State {
    if !Stageable(cfg, s, id, tmp, octets) then s
    else
      var c := s.closing[id];
      s.(nodes := s.nodes[tmp := File(cfg.hash(c.data)[..octets], Some(now))],
         closing := s.closing[id := c.(staged := Some(Staged(tmp, octets)))])
  }

  /** The sidecar's rename goes through; a rename cannot replace a directory. */
  predicate Seals(s: State, id: nat, diskOk: bool) {
    && id in s.closing && !s.closing[id].failed && diskOk
    && StagedNames(s.closing[id]) <= s.nodes.Keys
    && !(Sidecar(s.closing[id].name) in s.nodes && s.nodes[Sidecar(s.closing[id].name)].Dir?)
  }

  /** `write_sidecar` ends: the sidecar is replaced whole, or the temp file goes and the roll-back is due. */
  function SealStep(cfg: Config, s: State, id: nat, diskOk: bool, now: int): (State, Reply) {
    if id !in s.closing || s.closing[id].failed then (s, NotFound)
    else
      var c := s.closing[id];
      var rest := s.nodes - StagedNames(c);
      if Seals(s, id, diskOk) then
        var digest := cfg.hash(c.data);
        (s.(nodes := rest[Sidecar(c.name) := File(digest, Some(now))], closing := s.closing - {id}),
         Info(c.name, c.written, digest))
      else (s.(nodes := rest, closing := s.closing[id := c.(staged := None, failed := true)]), Internal)
  }

  /** The roll-back unlinks whatever the name shows now, unless that is a directory. */
  predicate RollsBack(s: State, id: nat, removeOk: bool) {
    && id in s.closing && s.closing[id].failed && removeOk
    && s.closing[id].name in s.nodes && !s.nodes[s.closing[id].name].Dir?
  }

  function RollBackStep(s: State, id: nat, removeOk: bool): State {
    if id !in s.closing || !s.closing[id].failed then s
    else
      s.(nodes := if RollsBack(s, id, removeOk) then s.nodes - {s.closing[id].name} else s.nodes,
         closing := s.closing - {id})
  }

  predicate Unlinks(s: State, name: string, removeOk: bool) {
    IsValid(name) && name in s.nodes && !s.nodes[name].Link? && removeOk
  }

  /** `delete`, first part: the file, whose sidecar is next, or the whole snapshot prefix. */
  function UnlinkStep(s: State, name: string, removeOk: bool): (State, Reply) {
    if IsReserved(name) then (s, NotFound)
    else if !IsValid(name) then (s, InvalidName)
    else if name !in s.nodes || s.nodes[name].Link? then (s, NotFound)
    else if !removeOk then (s, Internal)
    else
      (s.(nodes := s.nodes - {name},
          deleting := if s.nodes[name].Dir? then s.deleting else s.deleting + multiset{name}), Done)
  }

  /** `delete`, second part, best effort. */
  function UnlinkSidecarStep(s: State, name: string, removeOk: bool): State {
    if name !in s.deleting then s
    else
      var side := Sidecar(name);
      var goes := removeOk && side in s.nodes && !s.nodes[side].Dir?;
      s.(nodes := if goes then s.nodes - {side} else s.nodes, deleting := s.deleting - multiset{name})
  }

  // ---------------------------------------------------------------------------------------------
  // Operations nobody interrupts
  // ---------------------------------------------------------------------------------------------

  /** What the file system does to a `finish`. */
  datatype Weather = Weather(flushOk: bool, persistOk: bool, sidecarOk: bool, rollbackOk: bool)

  /** `create_streaming`: every refusal but the last comes before the temp file is made. */
  ghost function CreateStep(cfg: Config, s: State, name: string, tmp: string, now: int): (State, Reply) {
    var (admitted, reply) := AdmitStep(cfg, s, name);
    if reply.Opened? then OpenStep(admitted, reply.id, tmp, now) else (admitted, reply)
  }

  function FinishStep(cfg: Config, s: State, id: nat, weather: Weather, now: int): (State, Reply) {
    var (renamed, reply) := RenameStep(s, id, weather.flushOk, weather.persistOk);
    if reply != Done then (renamed, reply)
    else
      var (sealed, outcome) := SealStep(cfg, renamed, id, weather.sidecarOk, now);
      (RollBackStep(sealed, id, weather.rollbackOk), outcome)
  }

  function DeleteStep(s: State, name: string, removeOk: bool, sidecarOk: bool): (State, Reply) {
    var (unlinked, reply) := UnlinkStep(s, name, removeOk);
    if reply == Done && s.nodes[name].File? then (UnlinkSidecarStep(unlinked, name, sidecarOk), reply)
    else (unlinked, reply)
  }

  /** The store's own crash residue: old temp files, and old sidecars whose artifact is gone. */
  predicate IsResidue(nodes: Directory, name: string, now: int, minAge: nat) {
    && name in nodes && nodes[name].File? && OlderThan(nodes[name].mtime, now, minAge)
    && (IsTemp(name) || (IsReserved(name) && !Exists(nodes, ArtifactOf(name))))
  }

  ghost function Residue(nodes: Directory, now: int, minAge: nat): set<string> {
    set name | name in nodes && IsResidue(nodes, name, now, minAge)
  }

  // ---------------------------------------------------------------------------------------------
  // Runs
  // ---------------------------------------------------------------------------------------------

  datatype Event =
    | Admit(name: string)
    | Open(id: nat, tmp: string, now: int)
    | Write(id: nat, chunk: seq<Byte>, diskOk: bool, now: int)
    | Drop(id: nat)
    | Rename(id: nat, flushOk: bool, persistOk: bool)
    | Stage(id: nat, tmp: string, octets: nat, now: int)
    | Seal(id: nat, diskOk: bool, now: int)
    | RollBack(id: nat, removeOk: bool)
    | Unlink(name: string, removeOk: bool)
    | UnlinkSidecar(name: string, removeOk: bool)
    | Collect(now: int, minAge: nat, stuck: set<string>)
    | Crash
    | Foreign(name: string, node: Node)

  /** A dead daemon runs no destructors: files stay, everything in progress is gone. */
  function AfterCrash(s: State): State {
    s.(admitted := map[], writers := map[], closing := map[], deleting := multiset{})
  }

  /**
   Files other programs put into the directory: never over an existing entry, never a reserved name,
   never the random name of an upload in progress.
   */
  predicate ForeignAllowed(s: State, name: string) {
    name !in s.nodes && !IsReserved(name) && !IsHeld(s, name)
  }

  ghost function Apply(cfg: Config, s: State, e: Event): State {
    match e
    case Admit(name) => AdmitStep(cfg, s, name).0
    case Open(id, tmp, now) => OpenStep(s, id, tmp, now).0
    case Write(id, chunk, diskOk, now) => WriteStep(s, id, chunk, diskOk, now).0
    case Drop(id) => if id in s.writers then Abandon(s, id) else s
    case Rename(id, flushOk, persistOk) => RenameStep(s, id, flushOk, persistOk).0
    case Stage(id, tmp, octets, now) => StageStep(cfg, s, id, tmp, octets, now)
    case Seal(id, diskOk, now) => SealStep(cfg, s, id, diskOk, now).0
    case RollBack(id, removeOk) => RollBackStep(s, id, removeOk)
    case Unlink(name, removeOk) => UnlinkStep(s, name, removeOk).0
    case UnlinkSidecar(name, removeOk) => UnlinkSidecarStep(s, name, removeOk)
    case Collect(now, minAge, stuck) => s.(nodes := s.nodes - (Residue(s.nodes, now, minAge) - stuck))
    case Crash => AfterCrash(s)
    case Foreign(name, node) => if ForeignAllowed(s, name) then s.(nodes := s.nodes[name := node]) else s
  }

  ghost function Exec(cfg: Config, s: State, es: seq<Event>): State {
    if es == [] then s else Apply(cfg, Exec(cfg, s, es[..|es| - 1]), es[|es| - 1])
  }

  const EMPTY: State := State(map[], map[], map[], map[], multiset{}, 0)

  /** Nothing is in progress: the state a daemon starts in. */
  predicate Idle(s: State) {
    s.admitted == map[] && s.writers == map[] && s.closing == map[] && s.deleting == multiset{}
  }

  lemma ExecOne(cfg: Config, s: State, es: seq<Event>, e: Event)
    ensures Exec(cfg, s, es + [e]) == Apply(cfg, Exec(cfg, s, es), e)
  {
    hide Apply;
    assert (es + [e])[..|es|] == es;
  }

  lemma {:induction false} ExecConcat(cfg: Config, s: State, a: seq<Event>, b: seq<Event>)
    ensures Exec(cfg, s, a + b) == Exec(cfg, Exec(cfg, s, a), b)
  {
    hide Apply;
    if b == [] {
      assert a + b == a;
    } else {
      ExecConcat(cfg, s, a, b[..|b| - 1]);
      assert (a + b)[..|a + b| - 1] == a + b[..|b| - 1];
    }
  }

  /** An uninterrupted `create_streaming` is its two parts in a row. */
  lemma CreateIsRun(cfg: Config, s: State, name: string, tmp: string, now: int)
    ensures CreateStep(cfg, s, name, tmp, now).0
         == if AdmitStep(cfg, s, name).1.Opened? then Exec(cfg, s, [Admit(name), Open(s.next, tmp, now)])
            else Exec(cfg, s, [Admit(name)])
  {
    var a, b := Admit(name), Open(s.next, tmp, now);
    assert [a, b] == [a] + [b] && [a] == [] + [a];
    ExecOne(cfg, s, [a], b);
    ExecOne(cfg, s, [], a);
    hide OpenStep, IsValid, IsReserved, Exists, HeadroomOf;
  }

  /** An uninterrupted `finish` is its parts in a row. */
  lemma FinishIsRun(cfg: Config, s: State, id: nat, weather: Weather, now: int)
    ensures var rename := Rename(id, weather.flushOk, weather.persistOk);
            FinishStep(cfg, s, id, weather, now).0
              == if RenameStep(s, id, weather.flushOk, weather.persistOk).1 == Done
                 then Exec(cfg, s, [rename, Seal(id, weather.sidecarOk, now), RollBack(id, weather.rollbackOk)])
                 else Exec(cfg, s, [rename])
  {
    hide RenameStep, SealStep, RollBackStep;
    var a, b, c := Rename(id, weather.flushOk, weather.persistOk), Seal(id, weather.sidecarOk, now), RollBack(id, weather.rollbackOk);
    assert [a, b, c] == [a, b] + [c] && [a, b] == [a] + [b] && [a] == [] + [a];
    ExecOne(cfg, s, [a, b], c);
    ExecOne(cfg, s, [a], b);
    ExecOne(cfg, s, [], a);
  }

  /** An uninterrupted `delete` is its two removals in a row. */
  lemma DeleteIsRun(cfg: Config, s: State, name: string, removeOk: bool, sidecarOk: bool)
    ensures DeleteStep(s, name, removeOk, sidecarOk).0
         == if UnlinkStep(s, name, removeOk).1 == Done && s.nodes[name].File?
            then Exec(cfg, s, [Unlink(name, removeOk), UnlinkSidecar(name, sidecarOk)])
            else Exec(cfg, s, [Unlink(name, removeOk)])
  {
    var a, b := Unlink(name, removeOk), UnlinkSidecar(name, sidecarOk);
    assert [a, b] == [a] + [b] && [a] == [] + [a];
    ExecOne(cfg, s, [a], b);
    ExecOne(cfg, s, [], a);
    hide UnlinkSidecarStep, IsValid, IsReserved;
  }

  // ---------------------------------------------------------------------------------------------
  // What every step keeps
  // ---------------------------------------------------------------------------------------------

  /** A writer is consistent with its temp file, its limit and its name. */
  ghost predicate WriterOk(cfg: Config, s: State, id: nat)
    requires id in s.writers
  {
    var w := s.writers[id];
    && id < s.next && id !in s.closing && IsValid(w.name) && IsTemp(w.tmp)
    && w.written == |w.data| <= w.limit <= Cap(cfg)
    && (w.tmp in s.nodes ==> s.nodes[w.tmp].File? && s.nodes[w.tmp].bytes == w.data)
  }

  ghost predicate ClosingOk(s: State, id: nat)
    requires id in s.closing
  {
    var c := s.closing[id];
    && id < s.next && IsValid(c.name) && c.written == |c.data| && (c.failed ==> c.staged == None)
    && (c.staged.Some? ==>
          var tmp := c.staged.value.tmp;
          IsTemp(tmp) && (tmp in s.nodes ==> s.nodes[tmp].File? && |s.nodes[tmp].bytes| == c.staged.value.octets <= DIGEST_BYTES))
  }

  /** No temp name has two owners. */
  ghost predicate OneOwner(s: State) {
    && (forall i, j :: i in s.writers && j in s.writers && i != j ==> s.writers[i].tmp != s.writers[j].tmp)
    && (forall i, j :: i in s.writers && j in s.closing ==> s.writers[i].tmp !in StagedNames(s.closing[j]))
    && (forall i, j :: i in s.closing && j in s.closing && i != j ==>
          StagedNames(s.closing[i]) !! StagedNames(s.closing[j]))
  }

  /** Outside the temp class a reserved name is the sidecar of a valid name. */
  ghost predicate SidecarsNamed(nodes: Directory) {
    forall name :: name in nodes && IsReserved(name) && !IsTemp(name) ==> IsValid(ArtifactOf(name))
  }

  ghost predicate WritersOk(cfg: Config, s: State) {
    forall id :: id in s.writers ==> WriterOk(cfg, s, id)
  }

  ghost predicate ClosingsOk(s: State) {
    forall id :: id in s.closing ==> ClosingOk(s, id)
  }

  /** An admitted upload has an identifier of its own and a ceiling within the cap. */
  ghost predicate AdmittedOk(cfg: Config, s: State) {
    forall id :: id in s.admitted ==>
      && id < s.next && id !in s.writers && id !in s.closing
      && IsValid(s.admitted[id].name) && s.admitted[id].limit <= Cap(cfg)
  }

  ghost predicate Inv(cfg: Config, s: State) {
    && AdmittedOk(cfg, s) && WritersOk(cfg, s) && ClosingsOk(s) && OneOwner(s) && SidecarsNamed(s.nodes)
    && (forall name :: name in s.deleting ==> IsValid(name))
  }

  /** An entry is gone or as it was. */
  predicate KeptAt(t: Directory, s: Directory, name: string) {
    name in t ==> name in s && t[name] == s[name]
  }

  lemma WritersKept(cfg: Config, s: State, t: State)
    requires WritersOk(cfg, s) && s.next <= t.next && t.closing.Keys <= s.closing.Keys
    requires forall id :: id in t.writers ==>
               id in s.writers && t.writers[id] == s.writers[id] && KeptAt(t.nodes, s.nodes, s.writers[id].tmp)
    ensures WritersOk(cfg, t)
  {
    hide IsValid, IsTemp;
    forall id | id in t.writers ensures WriterOk(cfg, t, id) {
      assert WriterOk(cfg, s, id);
    }
  }

  /** The finish is as it was, or has lost its staged file and failed. */
  predicate SameOrFailed(t: Closing, s: Closing) {
    t == s || t == s.(staged := None, failed := true)
  }

  lemma ClosingsKept(s: State, t: State)
    requires ClosingsOk(s) && s.next <= t.next
    requires forall id :: id in t.closing ==> id in s.closing && SameOrFailed(t.closing[id], s.closing[id])
    requires forall id, tmp :: id in t.closing && tmp in StagedNames(t.closing[id]) ==> KeptAt(t.nodes, s.nodes, tmp)
    ensures ClosingsOk(t)
  {
    hide IsValid, IsTemp;
    forall id | id in t.closing ensures ClosingOk(t, id) {
      assert ClosingOk(s, id);
      if t.closing[id].staged.Some? {
        assert KeptAt(t.nodes, s.nodes, t.closing[id].staged.value.tmp);
      }
    }
  }

  lemma OwnersKept(s: State, t: State)
    requires OneOwner(s)
    requires forall id :: id in t.writers ==> id in s.writers && t.writers[id].tmp == s.writers[id].tmp
    requires forall id :: id in t.closing ==> id in s.closing && SameOrFailed(t.closing[id], s.closing[id])
    ensures OneOwner(t)
  {
    assert forall id :: id in t.closing ==> StagedNames(t.closing[id]) <= StagedNames(s.closing[id]);
    hide StagedNames, SameOrFailed;
  }

  /** Steps that only close uploads and finishes, or mark finishes failed, keep the invariant. */
  lemma Kept(cfg: Config, s: State, t: State)
    requires Inv(cfg, s) && s.next <= t.next && SidecarsNamed(t.nodes)
    requires forall id :: id in t.admitted ==> id in s.admitted && t.admitted[id] == s.admitted[id]
    requires forall id :: id in t.writers ==>
               id in s.writers && t.writers[id] == s.writers[id] && KeptAt(t.nodes, s.nodes, s.writers[id].tmp)
    requires forall id :: id in t.closing ==> id in s.closing && SameOrFailed(t.closing[id], s.closing[id])
    requires forall id, tmp :: id in t.closing && tmp in StagedNames(t.closing[id]) ==> KeptAt(t.nodes, s.nodes, tmp)
    requires forall name :: name in t.deleting ==> name in s.deleting || IsValid(name)
    ensures Inv(cfg, t)
  {
    hide IsValid, WritersOk, ClosingsOk, OneOwner, SidecarsNamed, KeptAt, StagedNames, SameOrFailed;
    WritersKept(cfg, s, t);
    ClosingsKept(s, t);
    OwnersKept(s, t);
  }

  lemma Shrunk(nodes: Directory, gone: set<string>)
    requires SidecarsNamed(nodes)
    ensures SidecarsNamed(nodes - gone)
  {
  }

  lemma Grown(nodes: Directory, name: string, node: Node)
    requires SidecarsNamed(nodes) && (IsReserved(name) && !IsTemp(name) ==> IsValid(ArtifactOf(name)))
    ensures SidecarsNamed(nodes[name := node])
  {
    hide IsReserved, IsTemp, IsValid, ArtifactOf;
  }

  lemma AdmitKeeps(cfg: Config, s: State, name: string)
    requires Inv(cfg, s)
    ensures Inv(cfg, AdmitStep(cfg, s, name).0)
  {
    hide Used, Measurable, Exists, WritersOk, ClosingsOk, OneOwner, SidecarsNamed, IsValid, IsReserved, IsTemp;
    var (t, reply) := AdmitStep(cfg, s, name);
    if reply.Opened? {
      NextUnused(cfg, s);
      ClosingsKept(s, t);
      WritersKept(cfg, s, t);
      OwnersKept(s, t);
    }
  }

  /** Identifiers are never handed out twice. */
  lemma NextUnused(cfg: Config, s: State)
    requires Inv(cfg, s)
    ensures forall id :: id in s.admitted || id in s.writers || id in s.closing ==> id < s.next
  {
    forall id | id in s.writers ensures id < s.next {
      assert WriterOk(cfg, s, id);
    }
    forall id | id in s.closing ensures id < s.next {
      assert ClosingOk(s, id);
    }
  }

  /** One more upload, under a temp name nobody owns. */
  lemma OwnersOpened(s: State, t: State, id: nat, w: Writer)
    requires OneOwner(s) && !IsHeld(s, w.tmp) && id !in s.writers && t.writers == s.writers[id := w] && t.closing == s.closing
    ensures OneOwner(t)
  {
    hide StagedNames;
  }

  lemma OpenKeeps(cfg: Config, s: State, id: nat, tmp: string, now: int)
    requires Inv(cfg, s)
    ensures Inv(cfg, OpenStep(s, id, tmp, now).0)
  {
    hide Inv, TempUsable;
    if id in s.admitted {
      AdmissionDropped(cfg, s, id);
      if TempUsable(s, tmp) {
        OpenedKeeps(cfg, s, id, tmp, now);
      }
    }
  }

  lemma AdmissionDropped(cfg: Config, s: State, id: nat)
    requires Inv(cfg, s)
    ensures Inv(cfg, s.(admitted := s.admitted - {id}))
  {
    hide SidecarsNamed, WritersOk, ClosingsOk, OneOwner, IsValid;
    DeletingValid(cfg, s);
    Kept(cfg, s, s.(admitted := s.admitted - {id}));
  }

  lemma OpenedKeeps(cfg: Config, s: State, id: nat, tmp: string, now: int)
    requires Inv(cfg, s) && id in s.admitted && TempUsable(s, tmp)
    ensures Inv(cfg, OpenStep(s, id, tmp, now).0)
  {
    hide IsValid, IsReserved, IsTemp, SidecarsNamed, OneOwner;
    var t := OpenStep(s, id, tmp, now).0;
    var w := t.writers[id];
    OwnersOpened(s, t, id, w);
    Grown(s.nodes, w.tmp, File([], Some(now)));
    forall id | id in s.writers ensures WriterOk(cfg, s, id) && s.writers[id].tmp != w.tmp {
    }
    forall id, held | id in s.closing && held in StagedNames(s.closing[id]) ensures held != w.tmp {
    }
    ClosingsKept(s, t);
  }

  /** An upload's temp file and data grow together. */
  lemma WriteKeeps(cfg: Config, s: State, id: nat, chunk: seq<Byte>, diskOk: bool, now: int)
    requires Inv(cfg, s)
    ensures Inv(cfg, WriteStep(s, id, chunk, diskOk, now).0)
  {
    hide Inv, Abandon;
    if id in s.writers {
      AbandonKeeps(cfg, s, id);
      if ChunkAccepted(s.writers[id], chunk, diskOk) {
        AcceptedKeeps(cfg, s, id, chunk, now);
      }
    }
  }

  lemma AcceptedKeeps(cfg: Config, s: State, id: nat, chunk: seq<Byte>, now: int)
    requires Inv(cfg, s) && id in s.writers && ChunkAccepted(s.writers[id], chunk, true)
    ensures Inv(cfg, WriteStep(s, id, chunk, true, now).0)
  {
    hide IsValid, IsTemp, IsReserved, SidecarsNamed, OneOwner;
    var w, t := s.writers[id], WriteStep(s, id, chunk, true, now).0;
    assert WriterOk(cfg, s, id);
    Grown(s.nodes, w.tmp, File(w.data + chunk, Some(now)));
    OwnersKept(s, t);
    OthersDistinct(s, id);
    ClosingsKept(s, t);
    forall i | i in t.writers ensures WriterOk(cfg, t, i) {
      assert WriterOk(cfg, s, i);
    }
  }

  lemma OthersDistinct(s: State, id: nat)
    requires OneOwner(s) && id in s.writers
    ensures forall i :: i in s.writers && i != id ==> s.writers[i].tmp != s.writers[id].tmp
    ensures forall i, tmp :: i in s.closing && tmp in StagedNames(s.closing[i]) ==> tmp != s.writers[id].tmp
  {
  }

  lemma AbandonKeeps(cfg: Config, s: State, id: nat)
    requires Inv(cfg, s) && id in s.writers
    ensures Inv(cfg, Abandon(s, id))
  {
    hide SidecarsNamed;
    Shrunk(s.nodes, {s.writers[id].tmp});
    Kept(cfg, s, Abandon(s, id));
  }

  lemma RenameKeeps(cfg: Config, s: State, id: nat, flushOk: bool, persistOk: bool)
    requires Inv(cfg, s)
    ensures Inv(cfg, RenameStep(s, id, flushOk, persistOk).0)
  {
    if id in s.writers {
      AbandonKeeps(cfg, s, id);
      if flushOk && persistOk && Publishable(s, id) {
        assert WriterOk(cfg, s, id);
        PublishedKeeps(cfg, s, id);
      }
    }
  }

  lemma PublishedKeeps(cfg: Config, s: State, id: nat)
    requires Inv(cfg, s) && Publishable(s, id)
    ensures Inv(cfg, RenameStep(s, id, true, true).0)
  {
    var w := s.writers[id];
    assert WriterOk(cfg, s, id);
    hide Inv, IsValid, IsTemp, Published, Publishable;
    UploadMoved(cfg, s, id);
    ClosingAdded(cfg, s.(nodes := Published(s, id), writers := s.writers - {id}), id,
                 Closing(w.name, w.data, w.written, None, false));
  }

  /** The rename as the directory and the other uploads see it. */
  lemma UploadMoved(cfg: Config, s: State, id: nat)
    requires Inv(cfg, s) && Publishable(s, id)
    ensures Inv(cfg, s.(nodes := Published(s, id), writers := s.writers - {id}))
  {
    var w := s.writers[id];
    assert WriterOk(cfg, s, id);
    ClassesDisjoint(w.name);
    hide IsValid, IsTemp, IsReserved, SidecarsNamed, OneOwner, WritersOk, ClosingsOk;
    Shrunk(s.nodes, {w.tmp});
    Grown(s.nodes - {w.tmp}, w.name, s.nodes[w.tmp]);
    TempsNot(cfg, s, w.name);
    Kept(cfg, s, s.(nodes := Published(s, id), writers := s.writers - {id}));
  }

  lemma ClosingAdded(cfg: Config, s: State, id: nat, c: Closing)
    requires Inv(cfg, s) && id !in s.writers && id !in s.admitted && id < s.next
    requires IsValid(c.name) && c.written == |c.data| && c.staged == None
    ensures Inv(cfg, s.(closing := s.closing[id := c]))
  {
    hide IsValid, IsTemp, SidecarsNamed, OneOwner;
    var t := s.(closing := s.closing[id := c]);
    assert t.closing - {id} == s.closing - {id};
    OwnersClosed(s, t, id);
    WritersKeptButOne(cfg, s, t, id);
    forall i | i in t.closing ensures ClosingOk(t, i) {
      assert i != id ==> ClosingOk(s, i);
    }
  }

  /** No temp name in use is the given valid name. */
  lemma TempsNot(cfg: Config, s: State, name: string)
    requires Inv(cfg, s) && !IsTemp(name)
    ensures forall id :: id in s.writers ==> s.writers[id].tmp != name
    ensures forall id, tmp :: id in s.closing && tmp in StagedNames(s.closing[id]) ==> tmp != name
  {
    hide IsTemp, OneOwner, SidecarsNamed;
    forall id | id in s.writers ensures s.writers[id].tmp != name {
      assert WriterOk(cfg, s, id);
    }
    forall id, tmp | id in s.closing && tmp in StagedNames(s.closing[id]) ensures tmp != name {
      assert ClosingOk(s, id);
    }
  }

  lemma OwnersClosed(s: State, t: State, id: nat)
    requires OneOwner(s) && t.writers == s.writers && id in t.closing && t.closing[id].staged == None
    requires t.closing - {id} == s.closing - {id}
    ensures OneOwner(t)
  {
    assert forall i :: i in t.closing && i != id ==> i in t.closing - {id};
    assert forall i :: i in s.closing - {id} ==> i in s.closing && (s.closing - {id})[i] == s.closing[i];
  }

  lemma WritersKeptButOne(cfg: Config, s: State, t: State, id: nat)
    requires WritersOk(cfg, s) && t.writers == s.writers && t.nodes == s.nodes && t.next == s.next
    requires t.closing.Keys <= s.closing.Keys + {id} && id !in s.writers
    ensures WritersOk(cfg, t)
  {
    hide IsValid, IsTemp;
    forall i | i in t.writers ensures WriterOk(cfg, t, i) {
      assert WriterOk(cfg, s, i);
    }
  }

  lemma StageKeeps(cfg: Config, s: State, id: nat, tmp: string, octets: nat, now: int)
    requires ValidConfig(cfg) && Inv(cfg, s)
    ensures Inv(cfg, StageStep(cfg, s, id, tmp, octets, now))
  {
    hide IsValid, IsTemp, IsReserved, SidecarsNamed, OneOwner;
    if Stageable(cfg, s, id, tmp, octets) {
      var t := StageStep(cfg, s, id, tmp, octets, now);
      var digest := cfg.hash(s.closing[id].data);
      assert IsLowerDigest(digest);
      Grown(s.nodes, tmp, File(digest[..octets], Some(now)));
      OwnersStaged(s, t, id, tmp);
      forall i | i in s.writers ensures s.writers[i].tmp != tmp {
      }
      WritersKept(cfg, s, t);
      forall i | i in t.closing ensures ClosingOk(t, i) {
        assert ClosingOk(s, i);
        assert i != id ==> tmp !in StagedNames(s.closing[i]);
      }
    }
  }

  lemma OwnersStaged(s: State, t: State, id: nat, tmp: string)
    requires OneOwner(s) && !IsHeld(s, tmp) && t.writers == s.writers && id in s.closing
    requires t.closing.Keys == s.closing.Keys && StagedNames(t.closing[id]) == {tmp}
    requires forall i :: i in s.closing && i != id ==> t.closing[i] == s.closing[i]
    ensures OneOwner(t)
  {
    hide StagedNames;
  }

  lemma SealKeeps(cfg: Config, s: State, id: nat, diskOk: bool, now: int)
    requires Inv(cfg, s)
    ensures Inv(cfg, SealStep(cfg, s, id, diskOk, now).0)
  {
    if id in s.closing && !s.closing[id].failed {
      var c := s.closing[id];
      assert ClosingOk(s, id);
      SidecarOf(c.name);
      ClassesDisjoint(c.name);
      hide IsValid, IsTemp, IsReserved, SidecarsNamed, Sidecar, ArtifactOf;
      Shrunk(s.nodes, StagedNames(c));
      Grown(s.nodes - StagedNames(c), Sidecar(c.name), File(cfg.hash(c.data), Some(now)));
      TempsNot(cfg, s, Sidecar(c.name));
      hide Inv, Seals, StagedNames;
      DeletingValid(cfg, s);
      Kept(cfg, s, SealStep(cfg, s, id, diskOk, now).0);
    }
  }

  /** Removing entries keeps the invariant: an upload tolerates the loss of its temp file. */
  lemma RemovalKeeps(cfg: Config, s: State, t: State)
    requires Inv(cfg, s) && t.nodes.Keys <= s.nodes.Keys && t.next == s.next
    requires t.admitted == s.admitted && t.writers == s.writers
    requires forall name :: name in t.nodes ==> t.nodes[name] == s.nodes[name]
    requires t.closing.Keys <= s.closing.Keys && forall id :: id in t.closing ==> t.closing[id] == s.closing[id]
    requires forall name :: name in t.deleting ==> name in s.deleting || IsValid(name)
    ensures Inv(cfg, t)
  {
    assert t.nodes == s.nodes - (s.nodes.Keys - t.nodes.Keys);
    Shrunk(s.nodes, s.nodes.Keys - t.nodes.Keys);
    hide SidecarsNamed, IsValid;
    Kept(cfg, s, t);
  }

  lemma RollBackKeeps(cfg: Config, s: State, id: nat, removeOk: bool)
    requires Inv(cfg, s)
    ensures Inv(cfg, RollBackStep(s, id, removeOk))
  {
    hide Inv, IsValid;
    RemovalKeeps(cfg, s, RollBackStep(s, id, removeOk));
  }

  lemma DeletingValid(cfg: Config, s: State)
    requires Inv(cfg, s)
    ensures forall name :: name in s.deleting ==> IsValid(name)
  {
  }

  lemma UnlinkKeeps(cfg: Config, s: State, name: string, removeOk: bool)
    requires Inv(cfg, s)
    ensures Inv(cfg, UnlinkStep(s, name, removeOk).0)
  {
    hide Inv, IsReserved, IsValid;
    RemovalKeeps(cfg, s, UnlinkStep(s, name, removeOk).0);
  }

  lemma UnlinkSidecarKeeps(cfg: Config, s: State, name: string, removeOk: bool)
    requires Inv(cfg, s)
    ensures Inv(cfg, UnlinkSidecarStep(s, name, removeOk))
  {
    hide Inv, IsReserved, IsValid, Sidecar;
    RemovalKeeps(cfg, s, UnlinkSidecarStep(s, name, removeOk));
  }

  lemma CrashKeeps(cfg: Config, s: State)
    requires Inv(cfg, s)
    ensures Inv(cfg, AfterCrash(s))
  {
    hide SidecarsNamed;
    Kept(cfg, s, AfterCrash(s));
  }

  lemma ForeignKeeps(cfg: Config, s: State, name: string, node: Node)
    requires Inv(cfg, s) && ForeignAllowed(s, name)
    ensures Inv(cfg, s.(nodes := s.nodes[name := node]))
  {
    hide SidecarsNamed, IsReserved;
    Grown(s.nodes, name, node);
    Kept(cfg, s, s.(nodes := s.nodes[name := node]));
  }

  lemma CollectKeeps(cfg: Config, s: State, gone: set<string>)
    requires Inv(cfg, s)
    ensures Inv(cfg, s.(nodes := s.nodes - gone))
  {
    hide Inv, IsValid;
    RemovalKeeps(cfg, s, s.(nodes := s.nodes - gone));
  }

  /** Every step of every operation, every crash and every foreign file keeps the store consistent. */
  lemma StepKeeps(cfg: Config, s: State, e: Event)
    requires ValidConfig(cfg) && Inv(cfg, s)
    ensures Inv(cfg, Apply(cfg, s, e))
  {
    hide Inv, ValidConfig, AdmitStep, OpenStep, WriteStep, RenameStep, StageStep, SealStep, RollBackStep, UnlinkStep,
      UnlinkSidecarStep, Residue, Abandon, AfterCrash, ForeignAllowed;
    match e
    case Admit(name) => AdmitKeeps(cfg, s, name);
    case Open(id, tmp, now) => OpenKeeps(cfg, s, id, tmp, now);
    case Write(id, chunk, diskOk, now) => WriteKeeps(cfg, s, id, chunk, diskOk, now);
    case Drop(id) =>
      if id in s.writers {
        AbandonKeeps(cfg, s, id);
      }
    case Rename(id, flushOk, persistOk) => RenameKeeps(cfg, s, id, flushOk, persistOk);
    case Stage(id, tmp, octets, now) => StageKeeps(cfg, s, id, tmp, octets, now);
    case Seal(id, diskOk, now) => SealKeeps(cfg, s, id, diskOk, now);
    case RollBack(id, removeOk) => RollBackKeeps(cfg, s, id, removeOk);
    case Unlink(name, removeOk) => UnlinkKeeps(cfg, s, name, removeOk);
    case UnlinkSidecar(name, removeOk) => UnlinkSidecarKeeps(cfg, s, name, removeOk);
    case Collect(now, minAge, stuck) => CollectKeeps(cfg, s, Residue(s.nodes, now, minAge) - stuck);
    case Crash => CrashKeeps(cfg, s);
    case Foreign(name, node) =>
      if ForeignAllowed(s, name) {
        ForeignKeeps(cfg, s, name, node);
      }
  }

  /** Hence every state a run reaches from an empty store is consistent. */
  lemma {:induction false} RunKeeps(cfg: Config, s: State, es: seq<Event>)
    requires ValidConfig(cfg) && Inv(cfg, s)
    ensures Inv(cfg, Exec(cfg, s, es))
  {
    hide Inv, Apply, ValidConfig;
    if es == [] {
    } else {
      RunKeeps(cfg, s, es[..|es| - 1]);
      StepKeeps(cfg, Exec(cfg, s, es[..|es| - 1]), es[|es| - 1]);
    }
  }
}
