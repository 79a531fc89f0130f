/**
 Runs in which the store does not do what is said of it, step by step: the sidecar over the quota, the
 stale sidecar after a crash, and the two races of a `finish` with a delete and a second upload.
 */
module StoreRuns {
  import opened ArtifactNames
  import opened Basics
  import opened StoreDigest
  import opened StorePublish
  import opened StoreQuota
  import opened StoreState

  const TEMP: string := ".vmcelld-tmp.x"

  lemma ExecPair(cfg: Config, s: State, a: Event, b: Event)
    ensures Exec(cfg, s, [a]) == Apply(cfg, s, a)
    ensures Exec(cfg, s, [a, b]) == Apply(cfg, Apply(cfg, s, a), b)
  {
    hide Apply;
    assert [a, b][..1] == [a] && [a][..0] == [];
    assert Exec(cfg, s, []) == s;
  }

  /** An upload of one chunk, up to and including its rename. */
  function Upload(id: nat, name: string, body: seq<Byte>): seq<Event> {
    [Admit(name), Open(id, TEMP, 0)] + [Write(id, body, true, 0), Rename(id, true, true)]
  }

  predicate Ready(s: State, name: string, tmp: string) {
    && IsValid(name) && name !in s.nodes && TempUsable(s, tmp)
    && s.next !in s.admitted && s.next !in s.writers && s.next !in s.closing
  }

  /** The state an upload of one chunk leads to: the name shows the body, the sidecar is next. */
  function AfterUpload(s: State, name: string, body: seq<Byte>): State {
    s.(nodes := s.nodes[name := File(body, Some(0))],
       closing := s.closing[s.next := Closing(name, body, |body|, None, false)], next := s.next + 1)
  }

  lemma AdmittedState(cfg: Config, s: State, name: string)
    requires IsValid(name) && name !in s.nodes
    requires HeadroomOf(cfg, s.nodes).Unbounded? || HeadroomOf(cfg, s.nodes).Room?
    ensures Apply(cfg, s, Admit(name))
         == s.(admitted := s.admitted[s.next := Admitted(name, LimitOf(cfg, HeadroomOf(cfg, s.nodes)))], next := s.next + 1)
  {
    ValidUnreserved(name);
    assert name != "";
    hide IsValid, IsReserved, HeadroomOf;
  }

  /** Admitting and opening an upload: its temp file is there, empty. */
  lemma OpenedState(cfg: Config, s: State, name: string, tmp: string)
    requires Ready(s, name, tmp)
    requires HeadroomOf(cfg, s.nodes).Unbounded? || HeadroomOf(cfg, s.nodes).Room?
    ensures Apply(cfg, Apply(cfg, s, Admit(name)), Open(s.next, tmp, 0))
         == s.(nodes := s.nodes[tmp := File([], Some(0))],
               writers := s.writers[s.next := Writer(name, tmp, [], 0, LimitOf(cfg, HeadroomOf(cfg, s.nodes)))],
               next := s.next + 1)
  {
    AdmittedState(cfg, s, name);
    hide IsValid, IsTemp, HeadroomOf, AdmitStep;
    var t := Apply(cfg, s, Admit(name));
    assert t.admitted - {s.next} == s.admitted;
    assert TempUsable(t, tmp);
  }

  lemma WrittenState(cfg: Config, s: State, id: nat, body: seq<Byte>)
    requires id in s.writers && s.writers[id].data == [] && s.writers[id].written == 0 && s.writers[id].tmp in s.nodes
    requires |body| <= s.writers[id].limit <= U64_MAX
    ensures Apply(cfg, s, Write(id, body, true, 0))
         == s.(nodes := s.nodes[s.writers[id].tmp := File(body, Some(0))],
               writers := s.writers[id := s.writers[id].(data := body, written := |body|)])
  {
    assert [] + body == body;
  }

  lemma RenamedState(cfg: Config, s: State, id: nat)
    requires id in s.writers && s.writers[id].name !in s.nodes
    requires s.writers[id].tmp in s.nodes && s.nodes[s.writers[id].tmp] == File(s.writers[id].data, Some(0))
    ensures var w := s.writers[id];
            Apply(cfg, s, Rename(id, true, true))
              == s.(nodes := (s.nodes - {w.tmp})[w.name := File(w.data, Some(0))], writers := s.writers - {id},
                    closing := s.closing[id := Closing(w.name, w.data, w.written, None, false)])
  {
  }

  lemma Uploaded(cfg: Config, s: State, name: string, body: seq<Byte>)
    requires Ready(s, name, TEMP)
    requires HeadroomOf(cfg, s.nodes).Unbounded? || HeadroomOf(cfg, s.nodes).Room?
    requires |body| <= LimitOf(cfg, HeadroomOf(cfg, s.nodes)) <= U64_MAX
    ensures Exec(cfg, s, Upload(s.next, name, body)) == AfterUpload(s, name, body)
  {
    hide IsValid, IsTemp, IsHeld, HeadroomOf, LimitOf, Apply;
    var admit, open, write, rename := Admit(name), Open(s.next, TEMP, 0), Write(s.next, body, true, 0), Rename(s.next, true, true);
    ClassesDisjoint(name);
    OpenedState(cfg, s, name, TEMP);
    var begun := Apply(cfg, Apply(cfg, s, admit), open);
    WrittenState(cfg, begun, s.next, body);
    var written := Apply(cfg, begun, write);
    assert s.nodes[TEMP := File([], Some(0))][TEMP := File(body, Some(0))] - {TEMP} == s.nodes;
    assert written.writers - {s.next} == s.writers;
    RenamedState(cfg, written, s.next);
    ExecPair(cfg, s, admit, open);
    ExecConcat(cfg, s, [admit, open], [write, rename]);
    ExecPair(cfg, begun, write, rename);
  }

  // ---------------------------------------------------------------------------------------------
  // The quota
  // ---------------------------------------------------------------------------------------------

  lemma ReadyEmpty()
    ensures Ready(EMPTY, "a", TEMP)
  {
    assert IsTemp(TEMP);
  }

  lemma SealedState(cfg: Config, s: State, id: nat)
    requires id in s.closing && !s.closing[id].failed && s.closing[id].staged == None
    requires Sidecar(s.closing[id].name) in s.nodes ==> s.nodes[Sidecar(s.closing[id].name)].File?
    ensures var c := s.closing[id];
            Apply(cfg, s, Seal(id, true, 0))
              == s.(nodes := s.nodes[Sidecar(c.name) := File(cfg.hash(c.data), Some(0))], closing := s.closing - {id})
  {
    hide Sidecar;
    assert s.nodes - {} == s.nodes;
  }

  /**
   The digest sidecar is outside the headroom an upload is held to: one upload that fills the store
   exactly to its quota leaves it 64 octets over, with no second upload involved.
   */
  lemma SidecarOvershoots(cfg: Config, body: seq<Byte>)
    requires ValidConfig(cfg) && cfg.quota == Some(|body|) && 0 < |body| <= cfg.maxBytes
    ensures Used(Exec(cfg, EMPTY, Upload(0, "a", body) + [Seal(0, true, 0)]).nodes) == |body| + DIGEST_BYTES
  {
    ReadyEmpty();
    assert HeadroomOf(cfg, EMPTY.nodes) == Room(|body|);
    Uploaded(cfg, EMPTY, "a", body);
    var s := AfterUpload(EMPTY, "a", body);
    SidecarOf("a");
    hide Sidecar, HeadroomOf, Upload;
    SealedState(cfg, s, 0);
    ExecConcat(cfg, EMPTY, Upload(0, "a", body), [Seal(0, true, 0)]);
    ExecPair(cfg, s, Seal(0, true, 0), Crash);
    assert IsLowerDigest(cfg.hash(body));
    var nodes: Directory := map["a" := File(body, Some(0))];
    assert s.nodes == nodes;
    hide Apply, Exec;
    UsedWith(nodes, Sidecar("a"), File(cfg.hash(body), Some(0)));
    assert nodes - {Sidecar("a")} == nodes;
    UsedWithout(nodes, "a");
    assert nodes - {"a"} == map[];
  }

  // ---------------------------------------------------------------------------------------------
  // A stale sidecar after a crash
  // ---------------------------------------------------------------------------------------------

  /** A delete of "a" that leaves its sidecar behind, or takes it along. */
  function Deletion(sidecarOk: bool): seq<Event> {
    [Unlink("a", true), UnlinkSidecar("a", sidecarOk)]
  }

  lemma UnlinkedState(cfg: Config, s: State)
    requires "a" in s.nodes && s.nodes["a"].File?
    ensures Apply(cfg, s, Unlink("a", true)) == s.(nodes := s.nodes - {"a"}, deleting := s.deleting + multiset{"a"})
  {
    assert IsValid("a");
    hide IsValid;
    ValidUnreserved("a");
  }

  lemma SidecarUnlinkedState(cfg: Config, s: State, sidecarOk: bool)
    requires "a" in s.deleting && (Sidecar("a") in s.nodes ==> s.nodes[Sidecar("a")].File?)
    ensures Apply(cfg, s, UnlinkSidecar("a", sidecarOk))
         == s.(nodes := s.nodes - if sidecarOk then {Sidecar("a")} else {}, deleting := s.deleting - multiset{"a"})
  {
    hide Sidecar;
    assert s.nodes - {} == s.nodes;
    if Sidecar("a") !in s.nodes {
      assert s.nodes - {Sidecar("a")} == s.nodes;
    }
  }

  lemma DeletedState(cfg: Config, s: State, sidecarOk: bool)
    requires "a" in s.nodes && s.nodes["a"].File? && s.deleting == multiset{}
    requires Sidecar("a") in s.nodes ==> s.nodes[Sidecar("a")].File?
    ensures Exec(cfg, s, Deletion(sidecarOk)) == s.(nodes := s.nodes - {"a"} - if sidecarOk then {Sidecar("a")} else {})
  {
    hide Sidecar, Apply;
    UnlinkedState(cfg, s);
    SidecarUnlinkedState(cfg, Apply(cfg, s, Unlink("a", true)), sidecarOk);
    ExecPair(cfg, s, Unlink("a", true), UnlinkSidecar("a", sidecarOk));
    assert multiset{} + multiset{"a"} - multiset{"a"} == multiset{};
  }

  /** What is stored under "a" and beside it. */
  function Stored(body: seq<Byte>, sidecar: seq<Byte>): Directory {
    map["a" := File(body, Some(0)), Sidecar("a") := File(sidecar, Some(0))]
  }

  /** A body beside another body's digest is misreported. */
  lemma StoredDisagrees(cfg: Config, body: seq<Byte>, other: seq<Byte>)
    requires ValidConfig(cfg) && cfg.hash(body) != cfg.hash(other)
    ensures !DigestsAgree(cfg, Stored(body, cfg.hash(other)))
  {
    SidecarOf("a");
    var nodes := Stored(body, cfg.hash(other));
    assert IsLowerDigest(cfg.hash(other));
    assert IsDigest(cfg.hash(other));
    SidecarReadsBack(nodes, "a", cfg.hash(other));
    AgreesIff(cfg, nodes, "a");
    assert IsValid("a");
    hide IsDigest, IsLowerDigest, AgreesAt, ReadSidecar;
    assert !AgreesAt(cfg, nodes, "a");
  }

  /** A store without a quota, and two bodies it accepts whose hashes differ. */
  ghost predicate Setting(cfg: Config, x: seq<Byte>, y: seq<Byte>) {
    && ValidConfig(cfg) && cfg.quota == None && |x| <= cfg.maxBytes && |y| <= cfg.maxBytes
    && cfg.hash(x) != cfg.hash(y)
  }

  function Plain(nodes: Directory, closing: map<nat, Closing>, next: nat): State {
    State(nodes, map[], map[], closing, multiset{}, next)
  }

  function Pending(body: seq<Byte>): Closing {
    Closing("a", body, |body|, None, false)
  }

  /** An upload of "a" into a store that holds at most its sidecar. */
  lemma UploadedA(cfg: Config, nodes: Directory, closing: map<nat, Closing>, next: nat, body: seq<Byte>)
    requires cfg.quota == None && |body| <= cfg.maxBytes <= U64_MAX && nodes.Keys <= {Sidecar("a")}
    requires next !in closing && forall id :: id in closing ==> closing[id].staged == None
    ensures Exec(cfg, Plain(nodes, closing, next), Upload(next, "a", body))
         == Plain(nodes["a" := File(body, Some(0))], closing[next := Pending(body)], next + 1)
  {
    assert IsValid("a");
    ClassesDisjoint("a");
    SidecarOf("a");
    assert IsTemp(TEMP);
    hide IsValid, IsTemp, Sidecar, Exec, Upload;
    Uploaded(cfg, Plain(nodes, closing, next), "a", body);
  }

  /** An artifact whose delete left its sidecar behind. */
  function LeftBehind(x: seq<Byte>): seq<Event> {
    Upload(0, "a", x) + [Seal(0, true, 0)] + Deletion(false)
  }

  function StaleSidecar(digest: seq<Byte>): Directory {
    map[Sidecar("a") := File(digest, Some(0))]
  }

  lemma LeftBehindState(cfg: Config, x: seq<Byte>)
    requires ValidConfig(cfg) && cfg.quota == None && |x| <= cfg.maxBytes
    ensures Exec(cfg, EMPTY, LeftBehind(x)) == Plain(StaleSidecar(cfg.hash(x)), map[], 1)
  {
    SidecarOf("a");
    hide Apply, Sidecar, Upload, Deletion, Exec;
    UploadedA(cfg, map[], map[], 0, x);
    var s1 := Plain(map["a" := File(x, Some(0))], map[0 := Pending(x)], 1);
    SealedState(cfg, s1, 0);
    var s2 := Plain(Stored(x, cfg.hash(x)), map[], 1);
    assert s1.closing - {0} == map[];
    assert Apply(cfg, s1, Seal(0, true, 0)) == s2;
    DeletedState(cfg, s2, false);
    assert s2.nodes - {"a"} - {} == StaleSidecar(cfg.hash(x));
    Steps(cfg, x, s1, Seal(0, true, 0), s2);
    ExecConcat(cfg, EMPTY, Upload(0, "a", x) + [Seal(0, true, 0)], Deletion(false));
  }

  /** A second upload of the name, past its rename. */
  lemma SecondUpload(cfg: Config, x: seq<Byte>, y: seq<Byte>)
    requires Setting(cfg, x, y)
    ensures Exec(cfg, EMPTY, LeftBehind(x) + Upload(1, "a", y))
         == Plain(Stored(y, cfg.hash(x)), map[1 := Pending(y)], 2)
  {
    SidecarOf("a");
    hide Apply, Sidecar, Upload, LeftBehind, Exec;
    LeftBehindState(cfg, x);
    UploadedA(cfg, StaleSidecar(cfg.hash(x)), map[], 1, y);
    assert StaleSidecar(cfg.hash(x))["a" := File(y, Some(0))] == Stored(y, cfg.hash(x));
    ExecConcat(cfg, EMPTY, LeftBehind(x), Upload(1, "a", y));
  }

  /** A crash before the second upload's sidecar: the digest reported is that of the deleted body. */
  lemma StaleAfterCrash(cfg: Config, x: seq<Byte>, y: seq<Byte>)
    requires Setting(cfg, x, y)
    ensures !DigestsAgree(cfg, Exec(cfg, EMPTY, LeftBehind(x) + Upload(1, "a", y) + [Crash]).nodes)
  {
    hide Apply, Sidecar, Upload, LeftBehind, Exec, DigestsAgree;
    SecondUpload(cfg, x, y);
    ExecConcat(cfg, EMPTY, LeftBehind(x) + Upload(1, "a", y), [Crash]);
    CrashKeepsNodes(cfg, Plain(Stored(y, cfg.hash(x)), map[1 := Pending(y)], 2));
    StoredDisagrees(cfg, y, x);
  }

  /** The same after a sidecar and a roll-back that both fail. */
  lemma StaleAfterRollBack(cfg: Config, x: seq<Byte>, y: seq<Byte>)
    requires Setting(cfg, x, y)
    ensures !DigestsAgree(cfg, Exec(cfg, EMPTY, LeftBehind(x) + Upload(1, "a", y) + [Seal(1, false, 0)] + [RollBack(1, false)]).nodes)
  {
    hide Sidecar, Upload, LeftBehind, Exec, DigestsAgree;
    SecondUpload(cfg, x, y);
    var s := Plain(Stored(y, cfg.hash(x)), map[1 := Pending(y)], 2);
    assert s.nodes - {} == s.nodes;
    assert Apply(cfg, Apply(cfg, s, Seal(1, false, 0)), RollBack(1, false)).nodes == s.nodes;
    hide Apply;
    ExecOne(cfg, EMPTY, LeftBehind(x) + Upload(1, "a", y), Seal(1, false, 0));
    ExecOne(cfg, EMPTY, LeftBehind(x) + Upload(1, "a", y) + [Seal(1, false, 0)], RollBack(1, false));
    StoredDisagrees(cfg, y, x);
  }

  lemma ForeignState(cfg: Config, s: State, node: Node)
    requires "a" !in s.nodes && s.writers == map[] && s.closing == map[]
    ensures Apply(cfg, s, Foreign("a", node)) == s.(nodes := s.nodes["a" := node])
  {
    assert !IsReserved("a");
  }

  /** The same after another program puts a file there. */
  lemma StaleAfterForeign(cfg: Config, x: seq<Byte>, y: seq<Byte>)
    requires Setting(cfg, x, y)
    ensures !DigestsAgree(cfg, Exec(cfg, EMPTY, LeftBehind(x) + [Foreign("a", File(y, Some(0)))]).nodes)
  {
    SidecarOf("a");
    hide Sidecar, LeftBehind, Exec, DigestsAgree, Apply;
    LeftBehindState(cfg, x);
    var s := Plain(StaleSidecar(cfg.hash(x)), map[], 1);
    ForeignState(cfg, s, File(y, Some(0)));
    assert s.nodes["a" := File(y, Some(0))] == Stored(y, cfg.hash(x));
    ExecOne(cfg, EMPTY, LeftBehind(x), Foreign("a", File(y, Some(0))));
    StoredDisagrees(cfg, y, x);
  }

  lemma Steps(cfg: Config, x: seq<Byte>, s1: State, e: Event, s2: State)
    requires Exec(cfg, EMPTY, Upload(0, "a", x)) == s1 && Apply(cfg, s1, e) == s2
    ensures Exec(cfg, EMPTY, Upload(0, "a", x) + [e]) == s2
  {
    hide Apply, Upload;
    ExecOne(cfg, EMPTY, Upload(0, "a", x), e);
  }

  lemma CrashKeepsNodes(cfg: Config, s: State)
    ensures Exec(cfg, s, [Crash]).nodes == s.nodes
  {
    ExecPair(cfg, s, Crash, Crash);
  }

  /** A sidecar and a roll-back that both fail: the `finish` is refused and the name shows the upload. */
  lemma RefusedYetShown(cfg: Config, x: seq<Byte>)
    requires ValidConfig(cfg) && cfg.quota == None && |x| <= cfg.maxBytes
    ensures var here := Exec(cfg, EMPTY, Upload(0, "a", x) + [Seal(0, false, 0)] + [RollBack(0, false)]);
            Idle(here) && Shown(here.nodes, "a") == Some(x)
    ensures SealStep(cfg, Exec(cfg, EMPTY, Upload(0, "a", x)), 0, false, 0).1 == Internal
  {
    SidecarOf("a");
    hide Sidecar, Upload, Exec;
    UploadedA(cfg, map[], map[], 0, x);
    var s := Plain(map["a" := File(x, Some(0))], map[0 := Pending(x)], 1);
    assert s.nodes - {} == s.nodes;
    var failed := Apply(cfg, s, Seal(0, false, 0));
    assert failed == Plain(s.nodes, map[0 := Pending(x).(failed := true)], 1);
    var done := Apply(cfg, failed, RollBack(0, false));
    assert failed.closing - {0} == map[];
    assert done == Plain(s.nodes, map[], 1);
    hide Apply;
    ExecOne(cfg, EMPTY, Upload(0, "a", x), Seal(0, false, 0));
    ExecOne(cfg, EMPTY, Upload(0, "a", x) + [Seal(0, false, 0)], RollBack(0, false));
  }

  // ---------------------------------------------------------------------------------------------
  // Races
  // ---------------------------------------------------------------------------------------------

  /** Between the rename and the sidecar of one upload of "a": a delete of it, and a whole second upload. */
  function RaceRun(x: seq<Byte>, y: seq<Byte>): seq<Event> {
    Upload(0, "a", x) + Deletion(true) + Upload(1, "a", y) + [Seal(1, true, 0)]
  }

  /** The second upload is published and reported so; the first still has its sidecar to write. */
  lemma Raced(cfg: Config, x: seq<Byte>, y: seq<Byte>)
    requires Setting(cfg, x, y)
    ensures Exec(cfg, EMPTY, RaceRun(x, y)) == Plain(Stored(y, cfg.hash(y)), map[0 := Pending(x)], 2)
  {
    SidecarOf("a");
    hide Apply, Sidecar, Upload, Deletion, Exec;
    UploadedA(cfg, map[], map[], 0, x);
    var s1 := Plain(map["a" := File(x, Some(0))], map[0 := Pending(x)], 1);
    DeletedState(cfg, s1, true);
    assert s1.nodes - {"a"} - {Sidecar("a")} == map[];
    UploadedA(cfg, map[], map[0 := Pending(x)], 1, y);
    var s3 := Plain(map["a" := File(y, Some(0))], map[0 := Pending(x), 1 := Pending(y)], 2);
    SealedState(cfg, s3, 1);
    assert s3.closing - {1} == map[0 := Pending(x)];
    ExecConcat(cfg, EMPTY, Upload(0, "a", x), Deletion(true));
    ExecConcat(cfg, EMPTY, Upload(0, "a", x) + Deletion(true), Upload(1, "a", y));
    ExecOne(cfg, EMPTY, Upload(0, "a", x) + Deletion(true) + Upload(1, "a", y), Seal(1, true, 0));
  }

  /**
   The first upload's sidecar lands over the second's: with no crash, no failure and no foreign file,
   the second upload's bytes are reported under the first one's digest.
   */
  lemma RaceMisreports(cfg: Config, x: seq<Byte>, y: seq<Byte>)
    requires Setting(cfg, x, y)
    ensures var here := Exec(cfg, EMPTY, RaceRun(x, y) + [Seal(0, true, 0)]);
            Idle(here) && !DigestsAgree(cfg, here.nodes)
  {
    SidecarOf("a");
    hide Apply, Sidecar, RaceRun, Exec, DigestsAgree;
    Raced(cfg, x, y);
    var s := Plain(Stored(y, cfg.hash(y)), map[0 := Pending(x)], 2);
    SealedState(cfg, s, 0);
    assert s.closing - {0} == map[];
    assert s.nodes[Sidecar("a") := File(cfg.hash(x), Some(0))] == Stored(y, cfg.hash(x));
    ExecOne(cfg, EMPTY, RaceRun(x, y), Seal(0, true, 0));
    StoredDisagrees(cfg, y, x);
  }

  /**
   The first upload's sidecar fails and its roll-back removes the second upload's artifact, which was
   published and never deleted.
   */
  lemma RollBackTakesAnothers(cfg: Config, x: seq<Byte>, y: seq<Byte>)
    requires Setting(cfg, x, y)
    ensures Shown(Exec(cfg, EMPTY, RaceRun(x, y)).nodes, "a") == Some(y)
    ensures "a" !in Exec(cfg, EMPTY, RaceRun(x, y) + [Seal(0, false, 0)] + [RollBack(0, true)]).nodes
  {
    SidecarOf("a");
    hide Sidecar, RaceRun, Exec;
    Raced(cfg, x, y);
    var s := Plain(Stored(y, cfg.hash(y)), map[0 := Pending(x)], 2);
    var failed := Apply(cfg, s, Seal(0, false, 0));
    assert s.nodes - {} == s.nodes;
    assert failed.closing[0].failed && failed.nodes == s.nodes;
    assert "a" !in Apply(cfg, failed, RollBack(0, true)).nodes;
    hide Apply;
    ExecOne(cfg, EMPTY, RaceRun(x, y), Seal(0, false, 0));
    ExecOne(cfg, EMPTY, RaceRun(x, y) + [Seal(0, false, 0)], RollBack(0, true));
  }
}
