/**
 The artifact store as the daemon drives it: an object whose operations change a directory and the
 uploads in progress, each proved against its transition of the state machine, with the directory
 walks as loops over whatever order the system lists the entries in.
 */
module ArtifactStore {
  import opened ArtifactNames
  import opened Basics
  import opened MapSums
  import opened StoreDigest
  import opened StorePublish
  import opened StoreQuota
  import opened StoreReplies
  import opened StoreResidue
  import opened StoreState

  datatype StoreUsage = StoreUsage(usedBytes: nat, artifactCount: nat, snapshotPrefixCount: nat)

  datatype GcReport = GcReport(orphanSidecars: seq<string>, abandonedUploads: seq<string>, bytesFreed: nat)

  // ---------------------------------------------------------------------------------------------
  // Measuring
  // ---------------------------------------------------------------------------------------------

  /** Octets under a directory: exact up to `depth` levels, and an error, never a short count, beyond. */
  method DirBytes(f: Forest, depth: nat) returns (r: Option<nat>)
    ensures r.Some? <==> Levels(f) <= depth
    ensures r.Some? ==> r.value == Min(ForestBytes(f), U64_MAX)
    decreases depth
  {
    LevelsPositive(f);
    if depth == 0 {
      return None;
    }
    var total, left := 0, f;
    ghost var seen: nat, levels: nat := 0, 1;
    while left.Cons?
      invariant seen + ForestBytes(left) == ForestBytes(f) && total == Min(seen, U64_MAX)
      invariant Levels(f) == Max(levels, Levels(left)) && 1 <= levels <= depth
      decreases left
    {
      LevelsPositive(left.rest);
      if left.tree.Sub? {
        var inner := DirBytes(left.tree.entries, depth - 1);
        if inner.None? {
          return None;
        }
        total := SaturatingAdd(total, inner.value);
        seen := seen + ForestBytes(left.tree.entries);
        levels := Max(levels, 1 + Levels(left.tree.entries));
      } else {
        total := SaturatingAdd(total, left.tree.size);
        seen := seen + left.tree.size;
      }
      left := left.rest;
    }
    return Some(total);
  }

  function Append(f: Forest, g: Forest): Forest {
    match f
    case Nil => g
    case Cons(tree, rest) => Cons(tree, Append(rest, g))
  }

  /** Every file counts once and in full, however deep: a sub-directory weighs what its entries weigh in its place. */
  lemma {:induction false} NestingKeepsBytes(f: Forest, g: Forest, size: nat)
    ensures ForestBytes(Append(f, g)) == ForestBytes(f) + ForestBytes(g)
    ensures ForestBytes(Cons(Sub(f), g)) == ForestBytes(Append(f, g))
    ensures ForestBytes(Cons(Leaf(size), Nil)) == size
  {
    match f
    case Nil =>
    case Cons(_, rest) => NestingKeepsBytes(rest, g, size);
  }

  lemma {:induction false} LevelsPositive(f: Forest)
    ensures Levels(f) >= 1
  {
    match f
    case Nil =>
    case Cons(Leaf(_), rest) => LevelsPositive(rest);
    case Cons(Sub(_), rest) => LevelsPositive(rest);
  }

  /** One direct child of the store: links by their own length, the scratch directory not at all. */
  method EntryBytes(name: string, node: Node) returns (r: Option<nat>)
    ensures r.Some? <==> Shallow(name, node)
    ensures r.Some? ==> Min(r.value, U64_MAX) == Min(Weight(name, node), U64_MAX)
    ensures node.File? ==> r == Some(|node.bytes|)
    ensures node.Link? ==> r == Some(node.len)
    ensures node.Dir? && name == SCRATCH_DIR_NAME ==> r == Some(0)
    ensures node.Dir? && name != SCRATCH_DIR_NAME ==>
              r == if Levels(node.entries) <= 4 then Some(Min(ForestBytes(node.entries), U64_MAX)) else None
  {
    match node
    case Link(len, _) => return Some(len);
    case File(bytes, _) => return Some(|bytes|);
    case Dir(entries) =>
      if name == SCRATCH_DIR_NAME {
        return Some(0);
      }
      r := DirBytes(entries, MAX_STORE_WALK_DEPTH);
  }

  lemma UsedEmpty()
    ensures Used(map[]) == 0
  {
  }

  predicate IsArtifact(name: string, node: Node) {
    node.File? && IsValid(name)
  }

  predicate IsSnapshotPrefix(name: string, node: Node) {
    node.Dir? && name != SCRATCH_DIR_NAME
  }

  ghost function Artifacts(nodes: Directory): set<string> {
    set name | name in nodes && IsArtifact(name, nodes[name])
  }

  ghost function Prefixes(nodes: Directory): set<string> {
    set name | name in nodes && IsSnapshotPrefix(name, nodes[name])
  }

  lemma CountedNames(nodes: Directory)
    ensures Artifacts(nodes) == set name | name in nodes && nodes[name].File? && IsValid(name)
    ensures Prefixes(nodes) == set name | name in nodes && nodes[name].Dir? && name != SCRATCH_DIR_NAME
  {
    hide IsValid;
  }

  /** What of a directory is still to come: the entries from `i` on. */
  ghost function Left(nodes: Directory, entries: seq<string>, i: nat): Directory
    requires i <= |entries|
  {
    map name | name in nodes && name in entries[i..] :: nodes[name]
  }

  /** Taking the next entry takes exactly that entry out of what is left. */
  lemma LeftNext(nodes: Directory, entries: seq<string>, i: nat)
    requires Lists(entries, nodes) && i < |entries|
    ensures entries[i] in Left(nodes, entries, i)
    ensures Left(nodes, entries, i + 1) == Left(nodes, entries, i) - {entries[i]}
  {
    NextOnce(entries, i);
    assert entries[i] in nodes;
    hide Lists;
  }

  lemma NextOnce(entries: seq<string>, i: nat)
    requires i < |entries| && forall k, j :: 0 <= k < j < |entries| ==> entries[k] != entries[j]
    ensures entries[i..] == [entries[i]] + entries[i + 1..] && entries[i] !in entries[i + 1..]
    ensures forall name :: name in entries[i..] <==> name == entries[i] || name in entries[i + 1..]
  {
    var rest := entries[i + 1..];
    forall k | 0 <= k < |rest| ensures rest[k] != entries[i] {
      assert rest[k] == entries[i + 1 + k];
    }
  }

  lemma LeftAll(nodes: Directory, entries: seq<string>)
    requires Lists(entries, nodes)
    ensures Left(nodes, entries, 0) == nodes && Left(nodes, entries, |entries|) == map[]
  {
    assert entries[0..] == entries;
  }

  /** The counts and the octets of what is left, one entry on. */
  lemma LeftCounts(nodes: Directory, entries: seq<string>, i: nat)
    requires Lists(entries, nodes) && i < |entries|
    ensures var left, next := Left(nodes, entries, i), Left(nodes, entries, i + 1);
            var name := entries[i];
            && Used(left) == Weight(name, nodes[name]) + Used(next)
            && |Artifacts(left)| == |Artifacts(next)| + (if IsArtifact(name, nodes[name]) then 1 else 0)
            && |Prefixes(left)| == |Prefixes(next)| + (if IsSnapshotPrefix(name, nodes[name]) then 1 else 0)
  {
    LeftNext(nodes, entries, i);
    var left, next, name := Left(nodes, entries, i), Left(nodes, entries, i + 1), entries[i];
    assert left[name] == nodes[name];
    UsedWithout(left, name);
    hide IsValid, Used, Left;
    assert Artifacts(next) == Artifacts(left) - {name};
    assert Prefixes(next) == Prefixes(left) - {name};
  }

  // ---------------------------------------------------------------------------------------------
  // Listing
  // ---------------------------------------------------------------------------------------------

  /** Byte order of names; valid names are ASCII. */
  predicate Before(a: string, b: string) {
    b != "" && (a == "" || a[0] < b[0] || (a[0] == b[0] && Before(a[1..], b[1..])))
  }

  lemma {:induction false} BeforeTotal(a: string, b: string)
    ensures a == b || Before(a, b) || Before(b, a)
    ensures !(Before(a, b) && Before(b, a)) && !Before(a, a)
  {
    if a == "" {
    } else {
      BeforeTotal(a[1..], a[1..]);
      if b != "" {
        BeforeTotal(a[1..], b[1..]);
        assert a == [a[0]] + a[1..] && b == [b[0]] + b[1..];
      }
    }
  }

  lemma {:induction false} BeforeTransitive(a: string, b: string, c: string)
    requires Before(a, b) && Before(b, c)
    ensures Before(a, c)
  {
    if a == "" || a[0] < b[0] || b[0] < c[0] {
    } else {
      BeforeTransitive(a[1..], b[1..], c[1..]);
    }
  }

  /** The order is lexicographic: a proper prefix first, otherwise the smaller character at the first difference. */
  lemma {:induction false} BeforeIff(a: string, b: string)
    ensures Before(a, b) <==>
              exists k :: 0 <= k <= |a| && k < |b| && a[..k] == b[..k] && (k == |a| || a[k] < b[k])
  {
    forall k | 0 <= k <= |a| && k < |b| && a[..k] == b[..k] ensures k == 0 || a[0] == b[0] {
      if k > 0 {
        assert a[..k][0] == b[..k][0];
      }
    }
    assert a[..0] == b[..0];
    if b == "" || a == "" || a[0] != b[0] {
    } else {
      var x, y := a[1..], b[1..];
      BeforeIff(x, y);
      if Before(x, y) {
        var k :| 0 <= k <= |x| && k < |y| && x[..k] == y[..k] && (k == |x| || x[k] < y[k]);
        assert a[..k + 1] == [a[0]] + x[..k] && b[..k + 1] == [b[0]] + y[..k];
      }
      forall k | 0 <= k <= |a| && k < |b| && a[..k] == b[..k] && (k == |a| || a[k] < b[k]) ensures Before(x, y) {
        assert x[..k - 1] == a[..k][1..] && y[..k - 1] == b[..k][1..];
      }
    }
  }

  ghost predicate Ascending(s: seq<Reply>) {
    && (forall i :: 0 <= i < |s| ==> s[i].Info?)
    && (forall i, j :: 0 <= i < j < |s| ==> Before(s[i].name, s[j].name))
  }

  /** Inserts an entry at its place in an ascending listing that does not hold its name. */
  method InsertByName(x: Reply, s: seq<Reply>) returns (r: seq<Reply>)
    requires x.Info? && Ascending(s) && forall i :: 0 <= i < |s| ==> s[i].name != x.name
    ensures Ascending(r) && forall y :: y in r <==> y == x || y in s
  {
    var k := 0;
    while k < |s| && Before(s[k].name, x.name)
      invariant 0 <= k <= |s|
      invariant forall i :: 0 <= i < k ==> Before(s[i].name, x.name)
    {
      k := k + 1;
    }
    forall i | k <= i < |s| ensures Before(x.name, s[i].name) {
      BeforeTotal(x.name, s[k].name);
      if k < i {
        BeforeTransitive(x.name, s[k].name, s[i].name);
      }
    }
    hide Before;
    r := s[..k] + [x] + s[k..];
  }

  /** What `info` answers for a name that shows a file. */
  function InfoOf(cfg: Config, nodes: Directory, name: string): Reply
    requires name in nodes && Content(nodes[name]).Some?
  {
    var body := Content(nodes[name]).value;
    Info(name, |body|, Reported(cfg.hash, nodes, name, body))
  }

  /** `bytes` is what reading the name yields: its own octets, or those of the file its link leads to. */
  ghost predicate IsBodyOf(nodes: Directory, name: string, bytes: seq<Byte>) {
    && name in nodes
    && (if nodes[name].File? then bytes == nodes[name].bytes
        else nodes[name].Link? && nodes[name].target == ToFile(bytes))
  }

  /** One entry of what `info` and `list` report: the name asked for, its size, its sidecar's digest or a fresh hash. */
  ghost predicate Reports(cfg: Config, nodes: Directory, name: string, r: Reply) {
    exists bytes ::
      && IsBodyOf(nodes, name, bytes) && r.Info? && r.name == name && r.size == |bytes|
      && r.sha256 == if ReadSidecar(nodes, name).Some? then ReadSidecar(nodes, name).value else cfg.hash(bytes)
  }

  lemma InfoReports(cfg: Config, nodes: Directory, name: string)
    ensures (exists bytes :: IsBodyOf(nodes, name, bytes)) <==> name in nodes && Content(nodes[name]).Some?
    ensures name in nodes && Content(nodes[name]).Some? ==>
              IsBodyOf(nodes, name, Content(nodes[name]).value) && Reports(cfg, nodes, name, InfoOf(cfg, nodes, name))
  {
    hide ReadSidecar;
    if name in nodes && Content(nodes[name]).Some? {
      assert IsBodyOf(nodes, name, Content(nodes[name]).value);
    }
  }

  predicate IsListed(nodes: Directory, name: string) {
    name in nodes && IsValid(name) && Content(nodes[name]).Some?
  }

  lemma ListedReports(cfg: Config, nodes: Directory, r: seq<Reply>)
    requires forall x :: x in r <==> x.Info? && IsListed(nodes, x.name) && x == InfoOf(cfg, nodes, x.name)
    ensures forall x :: x in r ==> x.Info? && IsValid(x.name) && Reports(cfg, nodes, x.name, x)
    ensures forall name, bytes :: IsValid(name) && IsBodyOf(nodes, name, bytes) ==> exists x :: x in r && x.Info? && x.name == name
  {
    hide IsValid, Reports;
    forall x | x in r ensures Reports(cfg, nodes, x.name, x) {
      InfoReports(cfg, nodes, x.name);
    }
    forall name, bytes | IsValid(name) && IsBodyOf(nodes, name, bytes) ensures InfoOf(cfg, nodes, name) in r {
    }
  }

  // ---------------------------------------------------------------------------------------------
  // What a collection removes, and its report
  // ---------------------------------------------------------------------------------------------

  /** The `Collect` step in terms of the directory and the time stamps. */
  lemma CollectedExactly(cfg: Config, s: State, now: int, minAge: nat, stuck: set<string>)
    ensures var after := Apply(cfg, s, Collect(now, minAge, stuck)).nodes;
            && (forall name :: name in after ==> name in s.nodes && after[name] == s.nodes[name])
            && (forall name :: name in s.nodes ==>
                  (name !in after <==>
                     && name !in stuck && s.nodes[name].File?
                     && s.nodes[name].mtime.Some? && s.nodes[name].mtime.value + minAge <= now
                     && (IsTemp(name) || Orphaned(s.nodes, name))))
  {
    hide IsResidue, IsTemp, Orphaned;
    forall name | name in s.nodes
      ensures IsResidue(s.nodes, name, now, minAge) <==>
                && s.nodes[name].File? && s.nodes[name].mtime.Some? && s.nodes[name].mtime.value + minAge <= now
                && (IsTemp(name) || Orphaned(s.nodes, name))
    {
      ResidueMeans(s.nodes, name, now, minAge);
    }
  }

  function Entered(r: GcReport, name: string, bytes: nat): GcReport {
    var counted := r.(bytesFreed := SaturatingAdd(r.bytesFreed, bytes));
    if IsTemp(name) then counted.(abandonedUploads := r.abandonedUploads + [name])
    else counted.(orphanSidecars := r.orphanSidecars + [name])
  }

  /**
   The report names each removed entry once, under its class, and the octets freed are the drop in the
   store's usage, short of 64 bits.
   */
  ghost predicate Accounts(r: GcReport, before: Directory, after: Directory) {
    && after.Keys <= before.Keys
    && (forall name :: name in r.abandonedUploads <==> name in before && name !in after && IsTemp(name))
    && (forall name :: name in r.orphanSidecars <==> name in before && name !in after && !IsTemp(name))
    && |r.abandonedUploads| + |r.orphanSidecars| + |after| == |before|
    && Used(after) + r.bytesFreed <= Used(before)
    && (r.bytesFreed < U64_MAX ==> Used(after) + r.bytesFreed == Used(before))
  }

  lemma ResidueIn(nodes: Directory, name: string, now: int, minAge: nat)
    requires IsResidue(nodes, name, now, minAge)
    ensures name in nodes
  {
  }

  lemma AccountsNext(r: GcReport, before: Directory, after: Directory, name: string)
    requires Accounts(r, before, after) && name in after
    ensures Accounts(Entered(r, name, Weight(name, after[name])), before, after - {name})
  {
    hide Used, IsTemp, Weight;
    UsedWithout(after, name);
    RemoveShrinks(after, name);
    assert before.Keys >= after.Keys;
  }

  // ---------------------------------------------------------------------------------------------
  // The store
  // ---------------------------------------------------------------------------------------------

  class Store {
    const cfg: Config
    var nodes: Directory
    var admitted: map<nat, Admitted>
    var writers: map<nat, Writer>
    var closing: map<nat, Closing>
    var deleting: multiset<string>
    var next: nat

    ghost function View(): State
      reads this
    {
      State(nodes, admitted, writers, closing, deleting, next)
    }

    ghost predicate Valid()
      reads this
    {
      ValidConfig(cfg) && Inv(cfg, View())
    }

    /** `open` on a fresh directory. */
    constructor (maxBytes: nat, quota: Option<nat>, hash: Hash)
      requires ValidConfig(Config(maxBytes, quota, hash))
      ensures Valid() && View() == EMPTY && cfg == Config(maxBytes, quota, hash)
    {
      cfg, nodes, admitted := Config(maxBytes, quota, hash), map[], map[];
      writers, closing, deleting, next := map[], map[], multiset{}, 0;
    }

    /** Counts everything under the directory once, in whatever order it is listed, or fails. */
    method Usage(entries: seq<string>) returns (r: Option<StoreUsage>)
      requires Lists(entries, nodes)
      ensures r.Some? <==> Measurable(nodes)
      ensures r.Some? ==> r.value == StoreUsage(Min(Used(nodes), U64_MAX), |Artifacts(nodes)|, |Prefixes(nodes)|)
      ensures r.Some? ==>
                && r.value.artifactCount == |set name | name in nodes && nodes[name].File? && IsValid(name)|
                && r.value.snapshotPrefixCount == |set name | name in nodes && nodes[name].Dir? && name != SCRATCH_DIR_NAME|
    {
      hide Used, Left, IsValid, Weight, Shallow;
      var used, artifacts, prefixes := 0, 0, 0;
      ghost var seen: nat := 0;
      LeftAll(nodes, entries);
      for i := 0 to |entries|
        invariant Used(nodes) == seen + Used(Left(nodes, entries, i)) && used == Min(seen, U64_MAX)
        invariant |Artifacts(nodes)| == artifacts + |Artifacts(Left(nodes, entries, i))|
        invariant |Prefixes(nodes)| == prefixes + |Prefixes(Left(nodes, entries, i))|
        invariant forall k :: 0 <= k < i ==> Shallow(entries[k], nodes[entries[k]])
      {
        hide Artifacts, Prefixes, IsArtifact, IsSnapshotPrefix;
        LeftCounts(nodes, entries, i);
        var name := entries[i];
        var bytes := EntryBytes(name, nodes[name]);
        if bytes.None? {
          return None;
        }
        used := SaturatingAdd(used, bytes.value);
        seen := seen + Weight(name, nodes[name]);
        if IsSnapshotPrefix(name, nodes[name]) {
          prefixes := prefixes + 1;
        }
        if IsArtifact(name, nodes[name]) {
          artifacts := artifacts + 1;
        }
      }
      UsedEmpty();
      CountedNames(nodes);
      return Some(StoreUsage(used, artifacts, prefixes));
    }

    /** No quota, no scan; otherwise what the quota leaves, full, or not measurable. */
    method CheckQuotaHeadroom(entries: seq<string>) returns (r: Headroom)
      requires Lists(entries, nodes)
      ensures r == HeadroomOf(cfg, nodes)
      ensures r.Unbounded? <==> cfg.quota.None?
      ensures r.Unmeasurable? <==> cfg.quota.Some? && !Measurable(nodes)
      ensures r.Room? ==> r.bytes == cfg.quota.value - Min(Used(nodes), U64_MAX) > 0
      ensures r.Full? ==> cfg.quota.value <= Min(Used(nodes), U64_MAX)
    {
      match cfg.quota
      case None => return Unbounded;
      case Some(quota) =>
        var usage := Usage(entries);
        match usage
        case None => return Unmeasurable;
        case Some(u) => return if u.usedBytes >= quota then Full else Room(quota - u.usedBytes);
    }

    /** The first part of `create_streaming`: checks, measurement and ceiling. */
    method Admit(name: string, entries: seq<string>) returns (r: Reply)
      requires Valid() && Lists(entries, nodes)
      modifies this
      ensures Valid() && (View(), r) == AdmitStep(cfg, old(View()), name)
    {
      hide Inv, IsValid, IsReserved, HeadroomOf, Exists, ValidConfig, LimitOf, Lists;
      AdmitKeeps(cfg, View(), name);
      if IsReserved(name) {
        return BadRequest;
      }
      if !IsValid(name) {
        return InvalidName;
      }
      if Exists(nodes, name) {
        return AlreadyExists;
      }
      var headroom := CheckQuotaHeadroom(entries);
      if headroom.Unmeasurable? {
        return Internal;
      }
      if headroom.Full? {
        return PayloadTooLarge;
      }
      r := Opened(next);
      admitted := admitted[next := Admitted(name, LimitOf(cfg, headroom))];
      next := next + 1;
    }

    /** The second part: the temp file. */
    method MakeTemp(id: nat, tmp: string, now: int) returns (r: Reply)
      requires Valid() && id in admitted
      modifies this
      ensures Valid() && (View(), r) == OpenStep(old(View()), id, tmp, now)
    {
      hide Inv, ValidConfig, TempUsable;
      OpenKeeps(cfg, View(), id, tmp, now);
      var a := admitted[id];
      var usable := TempUsable(State(nodes, admitted, writers, closing, deleting, next), tmp);
      admitted := admitted - {id};
      if !usable {
        return Internal;
      }
      nodes := nodes[tmp := File([], Some(now))];
      writers := writers[id := Writer(a.name, tmp, [], 0, a.limit)];
      return Opened(id);
    }

    /**
     A `create_streaming` nobody interrupts: accepted, the upload is open and empty under a ceiling that
     keeps the store within its quota; accepted or not, no artifact and no sidecar is touched.
     */
    method CreateStreaming(name: string, tmp: string, now: int, entries: seq<string>) returns (r: Reply)
      requires Valid() && Lists(entries, nodes)
      modifies this
      ensures Valid() && (View(), r) == CreateStep(cfg, old(View()), name, tmp, now)
      ensures forall other :: !IsTemp(other) ==> SameAt(nodes, old(nodes), other)
      ensures r.Opened? ==>
                && r.id in writers && writers[r.id].name == name && writers[r.id].data == []
                && writers[r.id].limit <= cfg.maxBytes
                && (cfg.quota.Some? ==> Used(nodes) + writers[r.id].limit <= cfg.quota.value)
      ensures CreateAnswer(cfg, old(View()), name, tmp, r)
      ensures r.Opened? ==> writers[r.id].limit == Allowance(cfg, old(nodes)) && nodes == old(nodes)[tmp := File([], Some(now))]
    {
      CreateReply(cfg, View(), name, tmp, now);
      CreatedWithin(cfg, View(), name, tmp, now);
      hide Inv, ValidConfig, AdmitStep, OpenStep, SameAt, IsTemp, Used, Lists, CreateAnswer, Allowance;
      AdmittedNext(cfg, View(), name);
      r := Admit(name, entries);
      if r.Opened? {
        r := MakeTemp(r.id, tmp, now);
      }
    }

    /** Dropping a writer: the temp file goes, and no artifact and no sidecar is touched. */
    method Drop(id: nat)
      requires Valid() && id in writers
      modifies this
      ensures Valid() && View() == Abandon(old(View()), id)
      ensures old(writers)[id].tmp !in nodes && forall other :: !IsTemp(other) ==> SameAt(nodes, old(nodes), other)
    {
      assert WriterOk(cfg, View(), id);
      AbandonKeeps(cfg, View(), id);
      hide Inv, ValidConfig, IsTemp;
      nodes := nodes - {writers[id].tmp};
      writers := writers - {id};
    }

    method WriteChunk(id: nat, chunk: seq<Byte>, diskOk: bool, now: int) returns (r: Reply)
      requires Valid()
      modifies this
      ensures Valid() && (View(), r) == WriteStep(old(View()), id, chunk, diskOk, now)
      ensures WriteAnswer(old(View()), id, chunk, diskOk, r)
      ensures r == Done ==>
                var data := old(writers)[id].data + chunk;
                writers == old(writers)[id := old(writers)[id].(data := data, written := |data|)]
      ensures id in old(writers) && r != Done ==> writers == old(writers) - {id} && nodes == old(nodes) - {old(writers)[id].tmp}
    {
      WriteReply(cfg, View(), id, chunk, diskOk, now);
      hide Inv, ValidConfig, WriteAnswer;
      WriteKeeps(cfg, View(), id, chunk, diskOk, now);
      if id !in writers {
        return NotFound;
      }
      var w := writers[id];
      var total := SaturatingAdd(w.written, |chunk|);
      if total > w.limit {
        Drop(id);
        return PayloadTooLarge;
      }
      if !diskOk || |w.data| + |chunk| > U64_MAX {
        Drop(id);
        return Internal;
      }
      if w.tmp in nodes {
        nodes := nodes[w.tmp := File(w.data + chunk, Some(now))];
      }
      writers := writers[id := w.(data := w.data + chunk, written := total)];
      return Done;
    }

    /** The first part of `finish`: the no-clobber rename, or the upload is abandoned. */
    method Persist(id: nat, flushOk: bool, persistOk: bool) returns (r: Reply)
      requires Valid()
      modifies this
      ensures Valid() && (View(), r) == RenameStep(old(View()), id, flushOk, persistOk)
    {
      hide Inv, ValidConfig;
      RenameKeeps(cfg, View(), id, flushOk, persistOk);
      if id !in writers {
        return NotFound;
      }
      var w := writers[id];
      var taken := w.name in nodes;
      writers := writers - {id};
      if !flushOk || !persistOk || taken || w.tmp !in nodes {
        nodes := nodes - {w.tmp};
        return if flushOk && taken then AlreadyExists else Internal;
      }
      nodes := (nodes - {w.tmp})[w.name := nodes[w.tmp]];
      closing := closing[id := Closing(w.name, w.data, w.written, None, false)];
      return Done;
    }

    /** `write_sidecar` from its first to its last step: the sidecar is replaced whole, or the roll-back is due. */
    method WriteSidecar(id: nat, diskOk: bool, now: int) returns (r: Reply)
      requires Valid() && id in closing && !closing[id].failed && closing[id].staged == None
      modifies this
      ensures Valid() && (View(), r) == SealStep(cfg, old(View()), id, diskOk, now)
      ensures r.Info? <==> Seals(old(View()), id, diskOk)
      ensures r.Info? ==> ReadSidecar(nodes, r.name) == Some(cfg.hash(old(closing)[id].data))
    {
      hide Inv, Sidecar;
      SealKeeps(cfg, View(), id, diskOk, now);
      assert nodes - {} == nodes;
      var c := closing[id];
      var side := Sidecar(c.name);
      if !diskOk || (side in nodes && nodes[side].Dir?) {
        closing := closing[id := c.(failed := true)];
        return Internal;
      }
      var digest := cfg.hash(c.data);
      nodes := nodes[side := File(digest, Some(now))];
      closing := closing - {id};
      assert IsLowerDigest(digest);
      SidecarReadsBack(nodes, c.name, digest);
      return Info(c.name, c.written, digest);
    }

    /** The roll-back, best effort. */
    method RollBack(id: nat, removeOk: bool)
      requires Valid() && id in closing && closing[id].failed
      modifies this
      ensures Valid() && View() == RollBackStep(old(View()), id, removeOk)
    {
      hide Inv, ValidConfig;
      RollBackKeeps(cfg, View(), id, removeOk);
      var name := closing[id].name;
      if removeOk && name in nodes && !nodes[name].Dir? {
        nodes := nodes - {name};
      }
      closing := closing - {id};
    }

    /**
     An uninterrupted `finish`: a name reported published shows exactly the accepted octets, with their
     count and their hash; a refused one leaves no temp file, and the name as it was exactly when its
     rename did not go through or its roll-back works.
     */
    method Finish(id: nat, weather: Weather, now: int) returns (r: Reply)
      requires Valid()
      modifies this
      ensures Valid() && (View(), r) == FinishStep(cfg, old(View()), id, weather, now)
      ensures r.Info? ==> && id in old(writers) && r.name == old(writers)[id].name
                          && Shown(nodes, r.name) == Some(old(writers)[id].data)
                          && r.size == |old(writers)[id].data| && r.sha256 == cfg.hash(old(writers)[id].data)
                          && ReadSidecar(nodes, r.name) == Some(r.sha256)
      ensures FinishAnswer(old(View()), id, weather, r)
      ensures r.Info? ==> r.name in nodes && Content(nodes[r.name]).Some? && r == InfoOf(cfg, nodes, r.name)
      ensures id in old(writers) && !r.Info? ==>
                && old(writers)[id].tmp !in nodes
                && (SameAt(nodes, old(nodes), old(writers)[id].name)
                    <==> RenameStep(old(View()), id, weather.flushOk, weather.persistOk).1 != Done || weather.rollbackOk)
    {
      if id in writers {
        FinishAllOrNothing(cfg, View(), id, weather, now);
        FinishThenInfo(cfg, View(), id, weather, now);
      }
      FinishReply(cfg, View(), id, weather, now);
      hide FinishAnswer, Inv, ValidConfig, RenameStep, SealStep, RollBackStep, Seals, ReadSidecar, SameAt, Shown;
      r := Persist(id, weather.flushOk, weather.persistOk);
      if r != Done {
        return;
      }
      RenamedClosing(old(View()), id, weather.flushOk, weather.persistOk);
      SealedOrFailed(cfg, View(), id, weather.sidecarOk, now);
      r := WriteSidecar(id, weather.sidecarOk, now);
      if !r.Info? {
        RollBack(id, weather.rollbackOk);
      }
    }

    /** The first part of `delete`: the file, or a whole snapshot prefix. */
    method Unlink(name: string, removeOk: bool) returns (r: Reply)
      requires Valid()
      modifies this
      ensures Valid() && (View(), r) == UnlinkStep(old(View()), name, removeOk)
    {
      hide Inv, ValidConfig, IsValid, IsReserved;
      UnlinkKeeps(cfg, View(), name, removeOk);
      if IsReserved(name) {
        return NotFound;
      }
      if !IsValid(name) {
        return InvalidName;
      }
      if name !in nodes || nodes[name].Link? {
        return NotFound;
      }
      if !removeOk {
        return Internal;
      }
      if !nodes[name].Dir? {
        deleting := deleting + multiset{name};
      }
      nodes := nodes - {name};
      return Done;
    }

    /** The second part of `delete`, best effort. */
    method UnlinkSidecar(name: string, removeOk: bool)
      requires Valid() && name in deleting
      modifies this
      ensures Valid() && View() == UnlinkSidecarStep(old(View()), name, removeOk)
    {
      hide Inv, ValidConfig, Sidecar;
      UnlinkSidecarKeeps(cfg, View(), name, removeOk);
      var side := Sidecar(name);
      if removeOk && side in nodes && !nodes[side].Dir? {
        nodes := nodes - {side};
      }
      deleting := deleting - multiset{name};
    }

    /** An uninterrupted `delete`: when it reports success the name is free, and nothing but the name and its sidecar changed. */
    method Delete(name: string, removeOk: bool, sidecarOk: bool) returns (r: Reply)
      requires Valid()
      modifies this
      ensures Valid() && (View(), r) == DeleteStep(old(View()), name, removeOk, sidecarOk)
      ensures r == Done ==> name !in nodes
      ensures forall other :: other != name && other != Sidecar(name) ==> SameAt(nodes, old(nodes), other)
      ensures r != Done ==> nodes == old(nodes)
      ensures deleting == old(deleting)
      ensures DeleteAnswer(old(nodes), name, removeOk, r)
      ensures r == Done && old(nodes)[name].File? && sidecarOk && SidecarFree(old(nodes), name) ==> Sidecar(name) !in nodes
    {
      DeleteReply(View(), name, removeOk, sidecarOk);
      hide DeleteAnswer, Inv, ValidConfig, UnlinkStep, UnlinkSidecarStep, SameAt, Sidecar;
      UnlinkedOnly(View(), name, removeOk);
      DeletedOnly(View(), name, removeOk, sidecarOk);
      var isFile := name in nodes && nodes[name].File?;
      r := Unlink(name, removeOk);
      if r == Done && isFile {
        UnlinkSidecar(name, sidecarOk);
      }
    }

    /** Removes one entry if it is residue and removal works, telling how many octets that freed. */
    method CollectEntry(name: string, now: int, minAge: nat, stuck: set<string>) returns (freed: Option<nat>)
      modifies this`nodes
      ensures freed.Some? <==> name !in stuck && IsResidue(old(nodes), name, now, minAge)
      ensures freed.Some? <==>
                && name !in stuck && name in old(nodes) && old(nodes)[name].File?
                && old(nodes)[name].mtime.Some? && old(nodes)[name].mtime.value + minAge <= now
                && (IsTemp(name) || Orphaned(old(nodes), name))
      ensures nodes == old(nodes) - if freed.Some? then {name} else {}
      ensures freed.Some? ==> freed.value == Weight(name, old(nodes)[name])
    {
      hide IsTemp, IsReserved, ArtifactOf, Exists, OlderThan, Orphaned;
      ResidueMeans(nodes, name, now, minAge);
      assert nodes - {} == nodes;
      if name !in nodes || !nodes[name].File? {
        return None;
      }
      var node := nodes[name];
      var orphan := IsReserved(name) && !Exists(nodes, ArtifactOf(name));
      if !(IsTemp(name) || orphan) || !OlderThan(node.mtime, now, minAge) || name in stuck {
        return None;
      }
      nodes := nodes - {name};
      return Some(|node.bytes|);
    }

    /** The loop over the listing, deciding on what is left. */
    method Pass(entries: seq<string>, now: int, minAge: nat, stuck: set<string>) returns (r: GcReport)
      modifies this`nodes
      ensures nodes == Sweep(old(nodes), entries, now, minAge, stuck) && Accounts(r, old(nodes), nodes)
    {
      hide IsResidue, IsTemp, Weight, Used, Sweep;
      r := GcReport([], [], 0);
      assert entries[0..] == entries;
      for i := 0 to |entries|
        invariant Accounts(r, old(nodes), nodes)
        invariant Sweep(nodes, entries[i..], now, minAge, stuck) == Sweep(old(nodes), entries, now, minAge, stuck)
      {
        ghost var before := nodes;
        SweepNext(nodes, entries, i, now, minAge, stuck);
        var freed := CollectEntry(entries[i], now, minAge, stuck);
        if freed.Some? {
          ResidueIn(before, entries[i], now, minAge);
          AccountsNext(r, old(nodes), before, entries[i]);
          r := Entered(r, entries[i], freed.value);
        } else {
          assert nodes == before;
        }
      }
      SweepDone(nodes, entries, now, minAge, stuck);
    }

    /** One pass over the listing: exactly the collectable residue goes, and the report accounts for it. */
    method CollectResidue(entries: seq<string>, now: int, minAge: nat, stuck: set<string>) returns (r: GcReport)
      requires Valid() && Lists(entries, nodes)
      modifies this`nodes
      ensures Valid() && View() == Apply(cfg, old(View()), Collect(now, minAge, stuck))
      ensures forall name :: name in nodes ==> name in old(nodes) && nodes[name] == old(nodes)[name]
      ensures forall name :: name in old(nodes) ==>
                (name !in nodes <==>
                   && name !in stuck && old(nodes)[name].File?
                   && old(nodes)[name].mtime.Some? && old(nodes)[name].mtime.value + minAge <= now
                   && (IsTemp(name) || Orphaned(old(nodes), name)))
      ensures Accounts(r, old(nodes), nodes)
    {
      hide Inv, ValidConfig, Lists, Sweep, Apply, Used, IsTemp, Orphaned;
      CollectedExactly(cfg, View(), now, minAge, stuck);
      StepKeeps(cfg, View(), Collect(now, minAge, stuck));
      CollectIsSweep(cfg, View(), entries, now, minAge, stuck);
      r := Pass(entries, now, minAge, stuck);
    }

    /** A valid name that shows a file, with its size; its digest is the hash of the file when the name's digest agrees. */
    method GetInfo(name: string) returns (r: Reply)
      ensures r.Info? <==> IsListed(nodes, name)
      ensures !r.Info? ==> r == if IsValid(name) || IsReserved(name) then NotFound else InvalidName
      ensures r.Info? ==> r == InfoOf(cfg, nodes, name)
      ensures r.Info? <==> IsValid(name) && exists bytes :: IsBodyOf(nodes, name, bytes)
      ensures r.Info? ==> Reports(cfg, nodes, name, r)
      ensures r.Info? && AgreesAt(cfg, nodes, name) ==> r.sha256 == cfg.hash(Content(nodes[name]).value)
    {
      InfoReports(cfg, nodes, name);
      if IsReserved(name) {
        return NotFound;
      }
      if !IsValid(name) {
        return InvalidName;
      }
      if name !in nodes || Content(nodes[name]).None? {
        return NotFound;
      }
      return InfoOf(cfg, nodes, name);
    }

    /** Every listed artifact once, by name; the order the directory is read in does not show. */
    method List(entries: seq<string>) returns (r: seq<Reply>)
      requires Lists(entries, nodes)
      ensures Ascending(r)
      ensures forall x :: x in r <==> x.Info? && IsListed(nodes, x.name) && x == InfoOf(cfg, nodes, x.name)
      ensures forall x :: x in r ==> x.Info? && IsValid(x.name) && Reports(cfg, nodes, x.name, x)
      ensures forall name, bytes :: IsValid(name) && IsBodyOf(nodes, name, bytes) ==> exists x :: x in r && x.Info? && x.name == name
    {
      r := [];
      for i := 0 to |entries|
        invariant Ascending(r)
        invariant forall x :: x in r <==>
                    x.Info? && x.name in entries[..i] && IsListed(nodes, x.name) && x == InfoOf(cfg, nodes, x.name)
      {
        hide InfoOf, IsValid, Before, Content, IsReserved;
        var name := entries[i];
        assert entries[..i + 1] == entries[..i] + [name];
        if Content(nodes[name]).Some? && IsValid(name) {
          assert name !in entries[..i];
          var info := GetInfo(name);
          r := InsertByName(info, r);
        }
      }
      assert entries[..|entries|] == entries;
      ListedReports(cfg, nodes, r);
    }
  }
}
