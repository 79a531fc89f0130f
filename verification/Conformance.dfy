/**
 The two-directional conformance battery of crates/vmcell-artifact-validator/src/conformance.rs:
 every declaration an artifact makes is judged against probes, an absence only with the same probe
 run against a positive control, and under-claims against the set of expected ones.
 */
module Conformance {
  import opened Basics

  datatype Feature =
    | SnapshotRestore
    | LazyRestore
    | VirtioFsShares
    | UnprivilegedVhostUserNet
    | NestedVirt
    | VirtioConsole
    | RestoreRotatesHostPaths
    | DiskIoThrottle
    | UsbHostPassthrough
    | ControlPlane
    | XattrPreserved
    | ProcConfigGz

  const ALL: seq<Feature> := [
    SnapshotRestore, LazyRestore, VirtioFsShares, UnprivilegedVhostUserNet, NestedVirt, VirtioConsole,
    RestoreRotatesHostPaths, DiskIoThrottle, UsbHostPassthrough, ControlPlane, XattrPreserved, ProcConfigGz
  ]

  /** An artifact and its declaration: true for present, false for absent, no entry for no stance. */
  datatype Subject = Subject(id: string, stances: map<Feature, bool>)

  datatype ProbeOutcome = Works | DoesNotWork | NotRun

  datatype Status = Pass | Fail | Skip | Warn | Unverified

  datatype CheckOutcome = CheckOutcome(id: string, status: Status)

  datatype Battery =
    | Report(outcomes: seq<CheckOutcome>)
    | ControlIsCandidate(id: string)
    | ControlDoesNotDeclare(feature: Feature, control: string)

  /** An arbitrary probe: what it answers for a feature of a subject. */
  type Probe = (Feature, Subject) -> ProbeOutcome

  function Stance(s: Subject, f: Feature): Option<bool> {
    if f in s.stances then Some(s.stances[f]) else None
  }

  function CheckId(f: Feature): string {
    match f
    case SnapshotRestore => "conformance.snapshot_restore"
    case LazyRestore => "conformance.lazy_restore"
    case VirtioFsShares => "conformance.virtio_fs_shares"
    case UnprivilegedVhostUserNet => "conformance.unprivileged_vhost_user_net"
    case NestedVirt => "conformance.nested_virt"
    case VirtioConsole => "conformance.virtio_console"
    case RestoreRotatesHostPaths => "conformance.restore_rotates_host_paths"
    case DiskIoThrottle => "conformance.disk_io_throttle"
    case UsbHostPassthrough => "conformance.usb_host_passthrough"
    case ControlPlane => "conformance.control_plane"
    case XattrPreserved => "conformance.xattr_preserved"
    case ProcConfigGz => "conformance.proc_config_gz"
  }

  const EXPECTED_WARNINGS_CHECK_ID: string := "conformance.expected_warnings"

  /** One run's fixed inputs; `removed` holds the features the substrate cannot exercise. */
  datatype Setting = Setting(
    probe: Probe, removed: set<Feature>, candidate: Subject, control: Subject, expected: set<(Feature, string)>)

  // ---------------------------------------------------------------------------------------------
  // What each declaration amounts to
  // ---------------------------------------------------------------------------------------------

  /** Declared present, and contradicted by the substrate or by the probe. */
  predicate Broken(s: Setting, f: Feature) {
    && Stance(s.candidate, f) == Some(true)
    && (f in s.removed || s.probe(f, s.candidate) == DoesNotWork)
  }

  predicate Demonstrated(s: Setting, f: Feature) {
    Stance(s.candidate, f) == Some(true) && f !in s.removed && s.probe(f, s.candidate) == Works
  }

  /** An absence that can be judged: the substrate has the feature and the control shows the probe can say so. */
  predicate ControlledAbsence(s: Setting, f: Feature) {
    Stance(s.candidate, f) == Some(false) && f !in s.removed && s.probe(f, s.control) == Works
  }

  predicate VerifiedAbsence(s: Setting, f: Feature) {
    ControlledAbsence(s, f) && s.probe(f, s.candidate) == DoesNotWork
  }

  predicate UnderClaim(s: Setting, f: Feature) {
    ControlledAbsence(s, f) && s.probe(f, s.candidate) == Works
  }

  predicate Unjudged(s: Setting, f: Feature) {
    Stance(s.candidate, f) == None || (Stance(s.candidate, f) == Some(false) && f in s.removed)
  }

  predicate Expected(s: Setting, f: Feature) {
    (f, s.candidate.id) in s.expected
  }

  /** The status a feature's check must end with. */
  ghost predicate StatusIs(s: Setting, f: Feature, status: Status) {
    && (status == Fail <==> Broken(s, f) || (UnderClaim(s, f) && !Expected(s, f)))
    && (status == Pass <==> Demonstrated(s, f) || VerifiedAbsence(s, f))
    && (status == Warn <==> UnderClaim(s, f) && Expected(s, f))
    && (status == Skip <==> Unjudged(s, f))
  }

  /** Needs a positive control that the given control artifact does not offer. */
  predicate LacksControl(s: Setting, f: Feature) {
    && Stance(s.candidate, f) == Some(false) && f !in s.removed
    && Stance(s.control, f) != Some(true)
  }

  /** The probe calls one feature costs: none, the candidate's, or the candidate's and the control's. */
  function CallsFor(s: Setting, f: Feature): seq<(Feature, string)> {
    if Stance(s.candidate, f) == None || f in s.removed then []
    else if Stance(s.candidate, f) == Some(true) then [(f, s.candidate.id)]
    else [(f, s.candidate.id), (f, s.control.id)]
  }

  function CallsForAll(s: Setting, fs: seq<Feature>): seq<(Feature, string)> {
    if fs == [] then [] else CallsForAll(s, fs[..|fs| - 1]) + CallsFor(s, fs[|fs| - 1])
  }

  // ---------------------------------------------------------------------------------------------
  // The program
  // ---------------------------------------------------------------------------------------------

  function Judge(declared: Option<bool>, removed: bool, candidate: ProbeOutcome, control: ProbeOutcome): Status {
    match declared
    case None => Skip
    case Some(true) =>
      if removed then Fail
      else (match candidate case Works => Pass case DoesNotWork => Fail case NotRun => Unverified)
    case Some(false) =>
      if removed then Skip
      else if control != Works then Unverified
      else (match candidate case Works => Warn case DoesNotWork => Pass case NotRun => Unverified)
  }

  /** One paired check: the candidate's probe, its positive control where an absence needs one. */
  method CheckFeature(s: Setting, feature: Feature) returns (outcome: CheckOutcome, calls: seq<(Feature, string)>)
    ensures Judged(s, feature, outcome)
    ensures calls == CallsFor(s, feature)
    ensures var declared := Stance(s.candidate, feature);
            && (declared == None || feature in s.removed ==> calls == [])
            && (declared == Some(true) && feature !in s.removed ==> calls == [(feature, s.candidate.id)])
            && (declared == Some(false) && feature !in s.removed ==>
                  calls == [(feature, s.candidate.id), (feature, s.control.id)])
  {
    hide CheckId;
    calls := [];
    var declared := Stance(s.candidate, feature);
    var removal := feature in s.removed;
    var measurable := declared.Some? && !removal;
    var candidateOutcome, controlOutcome := NotRun, NotRun;
    if measurable {
      candidateOutcome := s.probe(feature, s.candidate);
      calls := calls + [(feature, s.candidate.id)];
    }
    if measurable && declared == Some(false) {
      controlOutcome := s.probe(feature, s.control);
      calls := calls + [(feature, s.control.id)];
    }
    outcome := CheckOutcome(CheckId(feature), Judge(declared, removal, candidateOutcome, controlOutcome));
  }

  method BatteryInner(s: Setting, features: seq<Feature>)
    returns (outcomes: seq<CheckOutcome>, warned: set<(Feature, string)>, calls: seq<(Feature, string)>)
    ensures |outcomes| == |features|
    ensures forall k :: 0 <= k < |features| ==> Judged(s, features[k], outcomes[k])
    ensures forall f, id :: (f, id) in warned <==> id == s.candidate.id && f in features && UnderClaim(s, f)
    ensures calls == CallsForAll(s, features)
  {
    hide Judged, UnderClaim;
    outcomes, warned, calls := [], {}, [];
    for i := 0 to |features|
      invariant |outcomes| == i
      invariant forall k :: 0 <= k < i ==> Judged(s, features[k], outcomes[k])
      invariant forall f, id :: (f, id) in warned <==> id == s.candidate.id && f in features[..i] && UnderClaim(s, f)
      invariant calls == CallsForAll(s, features[..i])
    {
      var feature := features[i];
      assert features[..i + 1] == features[..i] + [feature];
      assert features[..i + 1][..i] == features[..i];
      var outcome, made := CheckFeature(s, feature);
      WarnedIff(s, feature, outcome);
      if outcome.status == Warn {
        warned := warned + {(feature, s.candidate.id)};
      }
      outcomes := outcomes + [outcome];
      calls := calls + made;
    }
    assert features[..|features|] == features;
  }

  lemma WarnedIff(s: Setting, f: Feature, o: CheckOutcome)
    requires Judged(s, f, o)
    ensures o.status == Warn <==> UnderClaim(s, f)
  {
  }

  /** The judged outcome of one feature, before the warning lifecycle. */
  ghost predicate Judged(s: Setting, f: Feature, o: CheckOutcome) {
    && o.id == CheckId(f)
    && (o.status == Fail <==> Broken(s, f))
    && (o.status == Pass <==> Demonstrated(s, f) || VerifiedAbsence(s, f))
    && (o.status == Warn <==> UnderClaim(s, f))
    && (o.status == Skip <==> Unjudged(s, f))
  }

  /** Promotes un-expected warnings to failures, and appends the verdict on stale expectations. */
  method ApplyWarningLifecycle(s: Setting, features: seq<Feature>, judged: seq<CheckOutcome>, warned: set<(Feature, string)>)
    returns (outcomes: seq<CheckOutcome>)
    requires |judged| == |features| && forall k :: 0 <= k < |features| ==> judged[k].id == CheckId(features[k])
    requires forall j, k :: 0 <= j < k < |features| ==> features[j] != features[k]
    ensures |outcomes| == |judged| + 1
    ensures forall k :: 0 <= k < |judged| ==> outcomes[k] == Promoted(s, warned, features[k], judged[k])
    ensures outcomes[|judged|].id == EXPECTED_WARNINGS_CHECK_ID
    ensures outcomes[|judged|].status == Pass || outcomes[|judged|].status == Fail
    ensures outcomes[|judged|].status == Pass <==> forall f :: Expected(s, f) ==> (f, s.candidate.id) in warned
  {
    hide CheckId;
    outcomes := judged;
    for i := 0 to |features|
      invariant |outcomes| == |judged|
      invariant forall k :: 0 <= k < |judged| ==>
                  outcomes[k] == if k < i then Promoted(s, warned, features[k], judged[k]) else judged[k]
    {
      var key := (features[i], s.candidate.id);
      if key in warned && key !in s.expected {
        outcomes := PromoteId(outcomes, CheckId(features[i]));
        forall k | 0 <= k < |judged| && k != i ensures judged[k].id != CheckId(features[i]) {
          if judged[k].id == CheckId(features[i]) {
            IdsDistinct(features[k], features[i]);
          }
        }
      }
    }
    var stale := set e | e in s.expected && e.1 == s.candidate.id && e !in warned;
    StaleIffUnmet(s, warned, stale);
    var status := if stale == {} then Pass else Fail;
    outcomes := outcomes + [CheckOutcome(EXPECTED_WARNINGS_CHECK_ID, status)];
  }

  method PromoteId(before: seq<CheckOutcome>, id: string) returns (outcomes: seq<CheckOutcome>)
    ensures |outcomes| == |before|
    ensures forall k :: 0 <= k < |before| ==>
              outcomes[k] == if before[k].id == id && before[k].status == Warn then before[k].(status := Fail) else before[k]
  {
    outcomes := before;
    for k := 0 to |before|
      invariant |outcomes| == |before|
      invariant forall m :: 0 <= m < |before| ==>
                  outcomes[m] == if m < k && before[m].id == id && before[m].status == Warn
                                 then before[m].(status := Fail) else before[m]
    {
      if outcomes[k].id == id && outcomes[k].status == Warn {
        outcomes := outcomes[k := outcomes[k].(status := Fail)];
      }
    }
  }

  function Promoted(s: Setting, warned: set<(Feature, string)>, f: Feature, o: CheckOutcome): CheckOutcome {
    var key := (f, s.candidate.id);
    if key in warned && key !in s.expected && o.status == Warn then o.(status := Fail) else o
  }

  lemma StaleIffUnmet(s: Setting, warned: set<(Feature, string)>, stale: set<(Feature, string)>)
    requires stale == set e | e in s.expected && e.1 == s.candidate.id && e !in warned
    ensures stale == {} <==> forall f :: Expected(s, f) ==> (f, s.candidate.id) in warned
  {
    if stale == {} {
      forall f | Expected(s, f) ensures (f, s.candidate.id) in warned {
        assert (f, s.candidate.id) !in stale;
      }
    } else {
      var e :| e in stale;
      assert e == (e.0, s.candidate.id) && Expected(s, e.0);
    }
  }

  method RunBattery(s: Setting) returns (r: Battery, calls: seq<(Feature, string)>)
    ensures r.ControlIsCandidate? <==> s.candidate.id == s.control.id
    ensures r.ControlDoesNotDeclare? <==> s.candidate.id != s.control.id && exists f :: LacksControl(s, f)
    ensures r.ControlIsCandidate? ==> r.id == s.candidate.id
    ensures r.ControlDoesNotDeclare? ==> r.control == s.control.id
    ensures r.ControlDoesNotDeclare? ==>
              exists k :: 0 <= k < |ALL| && r.feature == ALL[k] && LacksControl(s, ALL[k])
                          && forall j :: 0 <= j < k ==> !LacksControl(s, ALL[j])
    ensures r.Report? ==> IsReport(s, r.outcomes) && calls == CallsForAll(s, ALL)
    ensures !r.Report? ==> calls == []
  {
    hide LacksControl, UnderClaim, Judged, CallsForAll;
    calls := [];
    if s.candidate.id == s.control.id {
      return ControlIsCandidate(s.candidate.id), calls;
    }
    var features := ALL;
    RosterComplete(features);
    for i := 0 to |features|
      invariant forall j :: 0 <= j < i ==> !LacksControl(s, features[j])
    {
      var lacks := NeedsMissingControl(s, features[i]);
      if lacks {
        return ControlDoesNotDeclare(features[i], s.control.id), calls;
      }
    }
    forall f ensures !LacksControl(s, f) {
      assert f in features;
    }
    var judged, warned;
    judged, warned, calls := BatteryInner(s, features);
    forall k | 0 <= k < |features| ensures judged[k].id == CheckId(features[k]) {
      JudgedId(s, features[k], judged[k]);
    }
    var outcomes := ApplyWarningLifecycle(s, features, judged, warned);
    ReportFollows(s, features, judged, warned, outcomes);
    r := Report(outcomes);
  }

  method NeedsMissingControl(s: Setting, f: Feature) returns (lacks: bool)
    ensures lacks == LacksControl(s, f)
  {
    var needsControl := Stance(s.candidate, f) == Some(false) && f !in s.removed;
    lacks := needsControl && Stance(s.control, f) != Some(true);
  }

  lemma JudgedId(s: Setting, f: Feature, o: CheckOutcome)
    requires Judged(s, f, o)
    ensures o.id == CheckId(f)
  {
  }

  /** The whole roster once, in order, each with its due status, then the lifecycle's own check. */
  ghost predicate IsReport(s: Setting, outcomes: seq<CheckOutcome>) {
    && |outcomes| == |ALL| + 1
    && (forall k :: 0 <= k < |ALL| ==> outcomes[k].id == CheckId(ALL[k]) && StatusIs(s, ALL[k], outcomes[k].status))
    && outcomes[|ALL|].id == EXPECTED_WARNINGS_CHECK_ID
    && (outcomes[|ALL|].status == Pass || outcomes[|ALL|].status == Fail)
    && (outcomes[|ALL|].status == Pass <==> forall f :: Expected(s, f) ==> UnderClaim(s, f))
  }

  lemma RosterComplete(features: seq<Feature>)
    requires features == ALL
    ensures |features| == 12
    ensures forall f :: f in features
    ensures forall j, k :: 0 <= j < k < |features| ==> features[j] != features[k]
  {
    forall f: Feature ensures f in features {
      assert features[Position(f)] == f;
    }
    assert forall k :: 0 <= k < |features| ==> Position(features[k]) == k;
  }

  function Position(f: Feature): (k: nat)
    ensures k < 12
  {
    match f
    case SnapshotRestore => 0
    case LazyRestore => 1
    case VirtioFsShares => 2
    case UnprivilegedVhostUserNet => 3
    case NestedVirt => 4
    case VirtioConsole => 5
    case RestoreRotatesHostPaths => 6
    case DiskIoThrottle => 7
    case UsbHostPassthrough => 8
    case ControlPlane => 9
    case XattrPreserved => 10
    case ProcConfigGz => 11
  }

  lemma PromotedStatus(s: Setting, f: Feature, o: CheckOutcome, warned: set<(Feature, string)>)
    requires Judged(s, f, o) && ((f, s.candidate.id) in warned <==> UnderClaim(s, f))
    ensures Promoted(s, warned, f, o).id == CheckId(f) && StatusIs(s, f, Promoted(s, warned, f, o).status)
  {
    hide CheckId;
  }

  lemma ReportFollows(s: Setting, features: seq<Feature>, judged: seq<CheckOutcome>, warned: set<(Feature, string)>,
                      outcomes: seq<CheckOutcome>)
    requires features == ALL && |judged| == |features| && |outcomes| == |features| + 1
    requires forall k :: 0 <= k < |features| ==> Judged(s, features[k], judged[k])
    requires forall f, id :: (f, id) in warned <==> id == s.candidate.id && f in features && UnderClaim(s, f)
    requires forall k :: 0 <= k < |features| ==> outcomes[k] == Promoted(s, warned, features[k], judged[k])
    requires outcomes[|features|].id == EXPECTED_WARNINGS_CHECK_ID
    requires outcomes[|features|].status == Pass || outcomes[|features|].status == Fail
    requires outcomes[|features|].status == Pass <==> forall f :: Expected(s, f) ==> (f, s.candidate.id) in warned
    ensures IsReport(s, outcomes)
  {
    hide Judged, UnderClaim, StatusIs, Promoted, CheckId, Expected;
    RosterComplete(features);
    forall k | 0 <= k < |features|
      ensures outcomes[k].id == CheckId(features[k]) && StatusIs(s, features[k], outcomes[k].status)
    {
      PromotedStatus(s, features[k], judged[k], warned);
    }
  }

  // ---------------------------------------------------------------------------------------------
  // What a report certifies
  // ---------------------------------------------------------------------------------------------

  ghost predicate NoFailure(outcomes: seq<CheckOutcome>) {
    forall k :: 0 <= k < |outcomes| ==> outcomes[k].status != Fail
  }

  /**
   A report has no failure exactly when no present claim is broken and the under-claims are exactly
   the expected entries for this candidate.
   */
  lemma VerdictOfReport(s: Setting, outcomes: seq<CheckOutcome>)
    requires IsReport(s, outcomes)
    ensures NoFailure(outcomes) <==>
              && (forall f :: !Broken(s, f))
              && (forall f :: UnderClaim(s, f) <==> Expected(s, f))
  {
    hide Broken, UnderClaim, Expected, Demonstrated, VerifiedAbsence, Unjudged, CheckId;
    var features := ALL;
    RosterComplete(features);
    if NoFailure(outcomes) {
      forall f: Feature ensures !Broken(s, f) && (UnderClaim(s, f) ==> Expected(s, f)) {
        assert f in features;
        var k :| 0 <= k < |features| && features[k] == f;
        assert outcomes[k].status != Fail;
      }
      assert outcomes[|features|].status != Fail;
    }
  }

  /** An absence passes only if the probe failed on the candidate and worked on the control. */
  lemma AbsencePassIsMeasured(s: Setting, outcomes: seq<CheckOutcome>, k: nat)
    requires IsReport(s, outcomes) && k < |ALL| && outcomes[k].status == Pass
    requires Stance(s.candidate, ALL[k]) == Some(false)
    ensures s.probe(ALL[k], s.candidate) == DoesNotWork && s.probe(ALL[k], s.control) == Works
    ensures ALL[k] !in s.removed
  {
    hide CheckId;
  }

  /** A probe that gives one constant answer certifies no absence at all. */
  lemma ConstantProbeCertifiesNothing(s: Setting, outcomes: seq<CheckOutcome>, answer: ProbeOutcome, k: nat)
    requires IsReport(s, outcomes) && k < |ALL| && forall f, x :: s.probe(f, x) == answer
    requires Stance(s.candidate, ALL[k]) == Some(false)
    ensures outcomes[k].status != Pass
  {
    if outcomes[k].status == Pass {
      AbsencePassIsMeasured(s, outcomes, k);
    }
  }

  lemma IdsDistinct(f: Feature, g: Feature)
    requires CheckId(f) == CheckId(g)
    ensures f == g
  {
    IdShape(f);
    IdShape(g);
  }

  /** Length and thirteenth character tell the twelve ids, and the lifecycle's own id, apart. */
  function Shape(f: Feature): (nat, char) {
    match f
    case SnapshotRestore => (28, 's')
    case LazyRestore => (24, 'l')
    case VirtioFsShares => (28, 'v')
    case UnprivilegedVhostUserNet => (39, 'u')
    case NestedVirt => (23, 'n')
    case VirtioConsole => (26, 'v')
    case RestoreRotatesHostPaths => (38, 'r')
    case DiskIoThrottle => (28, 'd')
    case UsbHostPassthrough => (32, 'u')
    case ControlPlane => (25, 'c')
    case XattrPreserved => (27, 'x')
    case ProcConfigGz => (26, 'p')
  }

  lemma IdShape(f: Feature)
    ensures |CheckId(f)| == Shape(f).0 && CheckId(f)[12] == Shape(f).1
  {
  }

  lemma ExpectedWarningsIdFresh(f: Feature)
    ensures CheckId(f) != EXPECTED_WARNINGS_CHECK_ID
  {
    IdShape(f);
    assert EXPECTED_WARNINGS_CHECK_ID[12] == 'e';
  }
}
