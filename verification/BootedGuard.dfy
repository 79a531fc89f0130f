/**
 The post-run guard of crates/vmcell-bench/src/ab.rs: every run booted its own arm's artifacts, and
 the kernels the runs named hash equal. Hashing goes through a per-path digest cache.
 */
module BootedGuard {
  import opened Basics

  datatype Manifest = Manifest(armLabel: string, kernel: string, rootfs: string)

  datatype Report = Report(armLabel: string, kernel: string, rootfs: string)

  datatype Role = Kernel | Rootfs

  datatype Error =
    | NotEnoughArms(count: nat)
    | UnknownArm(armLabel: string)
    | BootedArtifactMismatch(armLabel: string, role: Role, expected: string, found: string)
    | BootedKernelMismatch(booted: map<(string, string), string>)
    | Io(path: string)

  datatype Verdict = Pass | Fail(error: Error)

  /** The digest a path hashes to, or None when it cannot be read. */
  type Disk = string -> Option<string>

  // ---------------------------------------------------------------------------------------------
  // What the guard decides
  // ---------------------------------------------------------------------------------------------

  /** The manifest a label resolves to: collecting into a map keeps the last of equal labels. */
  function Owner(arms: seq<Manifest>, armLabel: string): Option<Manifest> {
    if arms == [] then None
    else if arms[|arms| - 1].armLabel == armLabel then Some(arms[|arms| - 1])
    else Owner(arms[..|arms| - 1], armLabel)
  }

  /** `k` is the manifest that describes a label: the last one that carries it. */
  ghost predicate Describes(arms: seq<Manifest>, k: int, armLabel: string) {
    && 0 <= k < |arms| && arms[k].armLabel == armLabel
    && forall j :: k < j < |arms| ==> arms[j].armLabel != armLabel
  }

  /** The run booted the very kernel and root file system its own arm is pinned to. */
  ghost predicate BootedOwn(arms: seq<Manifest>, run: Report) {
    exists k :: Describes(arms, k, run.armLabel) && arms[k] == Manifest(run.armLabel, run.kernel, run.rootfs)
  }

  ghost predicate AllClaimsHold(arms: seq<Manifest>, runs: seq<Report>) {
    forall i :: 0 <= i < |runs| ==> BootedOwn(arms, runs[i])
  }

  /** What is said of a run that did not: no such arm, or the first of kernel and rootfs that differs. */
  ghost predicate Accuses(arms: seq<Manifest>, run: Report, error: Error) {
    match error
    case UnknownArm(armLabel) =>
      armLabel == run.armLabel && forall k :: 0 <= k < |arms| ==> arms[k].armLabel != run.armLabel
    case BootedArtifactMismatch(armLabel, role, expected, found) =>
      && armLabel == run.armLabel && expected != found
      && exists k ::
           && Describes(arms, k, run.armLabel)
           && (role.Kernel? ==> expected == arms[k].kernel && found == run.kernel)
           && (role.Rootfs? ==> arms[k].kernel == run.kernel && expected == arms[k].rootfs && found == run.rootfs)
    case _ => false
  }

  ghost predicate AllReadable(runs: seq<Report>, disk: Disk) {
    forall i :: 0 <= i < |runs| ==> disk(runs[i].kernel).Some?
  }

  ghost predicate KernelsAgree(runs: seq<Report>, disk: Disk) {
    forall i, j :: 0 <= i < |runs| && 0 <= j < |runs| ==> disk(runs[i].kernel) == disk(runs[j].kernel)
  }

  /** One digest per (label, kernel path) pair that some run names. */
  ghost predicate IsBootedTable(runs: seq<Report>, disk: Disk, booted: map<(string, string), string>) {
    && (forall i :: 0 <= i < |runs| ==> (runs[i].armLabel, runs[i].kernel) in booted)
    && (forall key :: key in booted ==>
          && disk(key.1) == Some(booted[key])
          && exists i :: 0 <= i < |runs| && key == (runs[i].armLabel, runs[i].kernel))
  }

  // ---------------------------------------------------------------------------------------------
  // The program
  // ---------------------------------------------------------------------------------------------

  /** First pass: the first run whose claim about its own arm is wrong, in run order. */
  method CheckClaims(arms: seq<Manifest>, runs: seq<Report>) returns (fault: Option<Error>)
    ensures fault == None <==> AllClaimsHold(arms, runs)
    ensures fault.Some? ==>
              exists i :: 0 <= i < |runs| && AllClaimsHold(arms, runs[..i]) && Accuses(arms, runs[i], fault.value)
  {
    hide BootedOwn, Accuses;
    var byLabel: map<string, Manifest> := map[];
    for i := 0 to |arms|
      invariant forall armLabel :: Owner(arms[..i], armLabel) == if armLabel in byLabel then Some(byLabel[armLabel]) else None
    {
      assert arms[..i + 1][..i] == arms[..i];
      byLabel := byLabel[arms[i].armLabel := arms[i]];
    }
    assert arms[..|arms|] == arms;
    for i := 0 to |runs|
      invariant AllClaimsHold(arms, runs[..i])
    {
      var run := runs[i];
      ClaimDecided(arms, run);
      if run.armLabel !in byLabel {
        return Some(UnknownArm(run.armLabel));
      }
      var arm := byLabel[run.armLabel];
      if arm.kernel != run.kernel {
        return Some(BootedArtifactMismatch(run.armLabel, Kernel, arm.kernel, run.kernel));
      }
      if arm.rootfs != run.rootfs {
        return Some(BootedArtifactMismatch(run.armLabel, Rootfs, arm.rootfs, run.rootfs));
      }
    }
    return None;
  }

  /** Second pass: each named kernel hashed once per path, one table entry per (label, path). */
  method HashKernels(runs: seq<Report>, disk: Disk) returns (fault: Option<Error>, booted: map<(string, string), string>)
    ensures fault == None <==> AllReadable(runs, disk)
    ensures fault == None ==> IsBootedTable(runs, disk, booted)
    ensures fault.Some? ==>
              exists i :: 0 <= i < |runs| && AllReadable(runs[..i], disk) && disk(runs[i].kernel) == None
                          && fault == Some(Io(runs[i].kernel))
  {
    var digests: map<string, string> := map[];
    booted := map[];
    for i := 0 to |runs|
      invariant AllReadable(runs[..i], disk)
      invariant forall path :: path in digests ==> disk(path) == Some(digests[path])
      invariant IsBootedTable(runs[..i], disk, booted)
    {
      var kernel := runs[i].kernel;
      if kernel !in digests {
        match disk(kernel) {
          case None =>
            return Some(Io(kernel)), booted;
          case Some(read) =>
            digests := digests[kernel := read];
        }
      }
      TableStep(runs, disk, booted, i, digests[kernel]);
      booted := booted[(runs[i].armLabel, kernel) := digests[kernel]];
    }
    assert runs[..|runs|] == runs;
    return None, booted;
  }

  method GuardBootedArtifacts(arms: seq<Manifest>, runs: seq<Report>, disk: Disk) returns (v: Verdict)
    ensures v.Pass? <==>
              |runs| >= 2 && AllClaimsHold(arms, runs) && AllReadable(runs, disk) && KernelsAgree(runs, disk)
    ensures v.Fail? ==> Explains(arms, runs, disk, v.error)
  {
    if |runs| < 2 {
      return Fail(NotEnoughArms(|runs|));
    }
    var claim := CheckClaims(arms, runs);
    if claim.Some? {
      return Fail(claim.value);
    }
    var unread, booted := HashKernels(runs, disk);
    if unread.Some? {
      return Fail(unread.value);
    }
    TableDecides(runs, disk, booted);
    if forall k, l :: k in booted && l in booted ==> booted[k] == booted[l] {
      return Pass;
    }
    return Fail(BootedKernelMismatch(booted));
  }

  /** Which failure is reported: the earliest check that fails, at the earliest run that fails it. */
  ghost predicate Explains(arms: seq<Manifest>, runs: seq<Report>, disk: Disk, error: Error) {
    match error
    case NotEnoughArms(count) => count == |runs| < 2
    case Io(path) =>
      && |runs| >= 2 && AllClaimsHold(arms, runs)
      && exists i :: 0 <= i < |runs| && AllReadable(runs[..i], disk) && disk(runs[i].kernel) == None && path == runs[i].kernel
    case BootedKernelMismatch(booted) =>
      && |runs| >= 2 && AllClaimsHold(arms, runs) && AllReadable(runs, disk) && !KernelsAgree(runs, disk)
      && IsBootedTable(runs, disk, booted)
    case _ =>
      && |runs| >= 2
      && exists i :: 0 <= i < |runs| && AllClaimsHold(arms, runs[..i]) && Accuses(arms, runs[i], error)
  }

  lemma TableStep(runs: seq<Report>, disk: Disk, booted: map<(string, string), string>, i: nat, sha: string)
    requires i < |runs| && IsBootedTable(runs[..i], disk, booted) && disk(runs[i].kernel) == Some(sha)
    ensures IsBootedTable(runs[..i + 1], disk, booted[(runs[i].armLabel, runs[i].kernel) := sha])
  {
    var before, after := runs[..i], runs[..i + 1];
    var table := booted[(runs[i].armLabel, runs[i].kernel) := sha];
    forall key | key in table
      ensures exists j :: 0 <= j < |after| && key == (after[j].armLabel, after[j].kernel)
    {
      if key in booted {
        var j :| 0 <= j < |before| && key == (before[j].armLabel, before[j].kernel);
        assert after[j] == before[j];
      } else {
        assert after[i] == runs[i];
      }
    }
    forall j | 0 <= j < |after| ensures (after[j].armLabel, after[j].kernel) in table {
      if j < i {
        assert after[j] == before[j];
      }
    }
  }

  /** Comparing the table's digests decides the same question as hashing every run's kernel. */
  lemma TableDecides(runs: seq<Report>, disk: Disk, booted: map<(string, string), string>)
    requires IsBootedTable(runs, disk, booted)
    ensures (forall k, l :: k in booted && l in booted ==> booted[k] == booted[l]) <==> KernelsAgree(runs, disk)
  {
    if forall k, l :: k in booted && l in booted ==> booted[k] == booted[l] {
      forall i, j | 0 <= i < |runs| && 0 <= j < |runs| ensures disk(runs[i].kernel) == disk(runs[j].kernel) {
        var k, l := (runs[i].armLabel, runs[i].kernel), (runs[j].armLabel, runs[j].kernel);
        assert booted[k] == booted[l];
      }
    }
    if KernelsAgree(runs, disk) {
      forall k, l | k in booted && l in booted ensures booted[k] == booted[l] {
        var i :| 0 <= i < |runs| && k == (runs[i].armLabel, runs[i].kernel);
        var j :| 0 <= j < |runs| && l == (runs[j].armLabel, runs[j].kernel);
      }
    }
  }

  lemma {:induction false} OwnerDescribes(arms: seq<Manifest>, armLabel: string)
    ensures Owner(arms, armLabel) == None <==> forall k :: 0 <= k < |arms| ==> arms[k].armLabel != armLabel
    ensures forall k :: Describes(arms, k, armLabel) ==> Owner(arms, armLabel) == Some(arms[k])
    ensures Owner(arms, armLabel).Some? ==> exists k :: Describes(arms, k, armLabel)
  {
    if arms == [] {
    } else {
      var before := arms[..|arms| - 1];
      OwnerDescribes(before, armLabel);
      if arms[|arms| - 1].armLabel == armLabel {
        assert Describes(arms, |arms| - 1, armLabel);
      } else {
        forall k ensures Describes(before, k, armLabel) <==> Describes(arms, k, armLabel) {
        }
      }
    }
  }

  /** Looking the label up and comparing the two paths decides a run's claim, and says what is wrong with it. */
  lemma ClaimDecided(arms: seq<Manifest>, run: Report)
    ensures match Owner(arms, run.armLabel)
            case None => !BootedOwn(arms, run) && Accuses(arms, run, UnknownArm(run.armLabel))
            case Some(arm) =>
              if arm.kernel != run.kernel then
                && !BootedOwn(arms, run)
                && Accuses(arms, run, BootedArtifactMismatch(run.armLabel, Kernel, arm.kernel, run.kernel))
              else if arm.rootfs != run.rootfs then
                && !BootedOwn(arms, run)
                && Accuses(arms, run, BootedArtifactMismatch(run.armLabel, Rootfs, arm.rootfs, run.rootfs))
              else BootedOwn(arms, run)
  {
    OwnerDescribes(arms, run.armLabel);
    hide Owner;
  }

  /** When labels are distinct, a run's owner is the one manifest that carries its label. */
  lemma {:induction false} OwnerOfDistinct(arms: seq<Manifest>, k: nat)
    requires forall i, j :: 0 <= i < j < |arms| ==> arms[i].armLabel != arms[j].armLabel
    requires k < |arms|
    ensures Owner(arms, arms[k].armLabel) == Some(arms[k])
  {
    if k == |arms| - 1 {
    } else {
      OwnerOfDistinct(arms[..|arms| - 1], k);
    }
  }

  /** When labels are distinct, a run is in order exactly when what it reports is one of the manifests. */
  lemma BootedOwnOfDistinct(arms: seq<Manifest>, run: Report)
    requires forall i, j :: 0 <= i < j < |arms| ==> arms[i].armLabel != arms[j].armLabel
    ensures BootedOwn(arms, run) <==> Manifest(run.armLabel, run.kernel, run.rootfs) in arms
  {
    if Manifest(run.armLabel, run.kernel, run.rootfs) in arms {
      var k :| 0 <= k < |arms| && arms[k] == Manifest(run.armLabel, run.kernel, run.rootfs);
      assert Describes(arms, k, run.armLabel);
    }
  }
}
