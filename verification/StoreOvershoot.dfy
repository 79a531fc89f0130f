/**
 How far concurrent uploads overshoot the quota, told from what they upload: for every upload, by no more
 than what the others bring after it was admitted, and by a sidecar each.
 */
module StoreOvershoot {
  import opened ArtifactNames
  import opened Basics
  import opened MapSums
  import opened StorePublish
  import opened StoreQuota
  import opened StoreState

  /** The octets in the directory and the sidecars still to come. */
  ghost function Load(s: State): nat {
    Used(s.nodes) + DIGEST_BYTES * (|s.admitted| + |s.writers|) + Sum(s.closing, Owed)
  }

  /** The octets a step accepts for any upload. */
  function Chunk(s: State, e: Event): nat {
    if e.Write? then |Gain(s, e, e.id)| else 0
  }

  /** The octets a run accepts for uploads other than `id`. */
  ghost function OtherBytes(cfg: Config, s: State, es: seq<Event>, id: nat): nat {
    if es == [] then 0
    else
      var before, e := es[..|es| - 1], es[|es| - 1];
      OtherBytes(cfg, s, before, id) + if e.Write? && e.id != id then Chunk(Exec(cfg, s, before), e) else 0
  }

  // ---------------------------------------------------------------------------------------------
  // One step
  // ---------------------------------------------------------------------------------------------

  lemma AdmitLoad(cfg: Config, s: State, name: string)
    requires Inv(cfg, s)
    ensures var t := AdmitStep(cfg, s, name).0; Load(t) == Load(s) + DIGEST_BYTES * (t.next - s.next)
  {
    hide Inv, Used, Sum, AdmitStep;
    NextUnused(cfg, s);
    AdmitShape(cfg, s, name);
    var t := AdmitStep(cfg, s, name).0;
    if t != s {
      AddGrows(s.admitted, s.next, t.admitted[s.next]);
    }
  }

  lemma AdmitShape(cfg: Config, s: State, name: string)
    ensures var t := AdmitStep(cfg, s, name).0;
            t == s || (s.next in t.admitted && t == s.(admitted := s.admitted[s.next := t.admitted[s.next]], next := s.next + 1))
  {
    hide IsValid, IsReserved, Exists, HeadroomOf;
  }

  lemma OpenLoad(cfg: Config, s: State, id: nat, tmp: string, now: int)
    requires Inv(cfg, s)
    ensures Load(OpenStep(s, id, tmp, now).0) <= Load(s)
  {
    hide Inv, Used, Sum, TempUsable, Cap;
    AdmittedApart(cfg, s);
    if id in s.admitted {
      RemoveShrinks(s.admitted, id);
      UsedWith(s.nodes, tmp, File([], Some(now)));
      AddGrows(s.writers, id, Writer(s.admitted[id].name, tmp, [], 0, s.admitted[id].limit));
    }
  }

  lemma AbandonLoad(s: State, id: nat)
    requires id in s.writers
    ensures Load(Abandon(s, id)) <= Load(s)
  {
    hide Used, Sum;
    UsedShrinks(s.nodes, {s.writers[id].tmp});
    RemoveShrinks(s.writers, id);
  }

  lemma WriteLoad(cfg: Config, s: State, e: Event)
    requires Inv(cfg, s) && e.Write?
    ensures Load(Apply(cfg, s, e)) <= Load(s) + Chunk(s, e)
  {
    hide Used, Sum, Abandon;
    if e.id in s.writers {
      AbandonLoad(s, e.id);
      if ChunkAccepted(s.writers[e.id], e.chunk, e.diskOk) {
        AcceptedLoad(cfg, s, e);
      }
    }
  }

  lemma AcceptedLoad(cfg: Config, s: State, e: Event)
    requires Inv(cfg, s) && e.Write? && e.id in s.writers && ChunkAccepted(s.writers[e.id], e.chunk, e.diskOk)
    ensures Load(Apply(cfg, s, e)) <= Load(s) + |e.chunk|
  {
    var w, t := s.writers[e.id], Apply(cfg, s, e);
    assert WriterOk(cfg, s, e.id);
    hide Inv, Used, Sum, IsValid, IsTemp;
    UsedWith(s.nodes, w.tmp, File(w.data + e.chunk, Some(e.now)));
    UsedWithout(s.nodes, w.tmp);
    assert t.writers.Keys == s.writers.Keys;
    assert |t.writers| == |t.writers.Keys| == |s.writers.Keys|;
  }

  lemma RenameLoad(cfg: Config, s: State, id: nat, flushOk: bool, persistOk: bool)
    requires Inv(cfg, s)
    ensures Load(RenameStep(s, id, flushOk, persistOk).0) <= Load(s)
  {
    hide Used, Sum;
    if id in s.writers {
      WriterNotClosing(cfg, s, id);
      AbandonLoad(s, id);
      if flushOk && persistOk && Publishable(s, id) {
        UsedPublished(cfg, s, id);
        hide Inv, Published;
        var w := s.writers[id];
        RemoveShrinks(s.writers, id);
        SumAdd(s.closing, Owed, id, Closing(w.name, w.data, w.written, None, false));
      }
    }
  }

  lemma BesideLoad(cfg: Config, s: State, e: Event)
    requires ValidConfig(cfg) && Inv(cfg, s) && IsBeside(e)
    ensures Load(Apply(cfg, s, e)) <= Load(s)
  {
    hide Inv, ValidConfig, Apply, Used, Sum;
    BesideUploads(cfg, s, e);
    OnlyAdmitRaises(cfg, s, e);
  }

  /** A step adds what it accepts, and a sidecar for an upload it admits. */
  lemma LoadStep(cfg: Config, s: State, e: Event)
    requires ValidConfig(cfg) && Inv(cfg, s) && !e.Foreign?
    ensures s.next <= Apply(cfg, s, e).next
    ensures Load(Apply(cfg, s, e)) <= Load(s) + Chunk(s, e) + DIGEST_BYTES * (Apply(cfg, s, e).next - s.next)
  {
    NextGrows(cfg, s, e);
    hide Inv, ValidConfig, Load, Chunk, AdmitStep, OpenStep, WriteStep, RenameStep, Abandon, StageStep, SealStep,
      RollBackStep, UnlinkStep, UnlinkSidecarStep, Residue, AfterCrash;
    if IsBeside(e) {
      BesideLoad(cfg, s, e);
    } else {
      match e
      case Admit(name) => AdmitLoad(cfg, s, name);
      case Open(id, tmp, now) => OpenLoad(cfg, s, id, tmp, now);
      case Write(_, _, _, _) => WriteLoad(cfg, s, e);
      case Drop(id) =>
        if id in s.writers {
          AbandonLoad(s, id);
        }
      case Rename(id, flushOk, persistOk) => RenameLoad(cfg, s, id, flushOk, persistOk);
      case Crash => CrashLoad(s);
    }
  }

  lemma CrashLoad(s: State)
    ensures Load(AfterCrash(s)) <= Load(s)
  {
    hide Used;
  }

  lemma NextGrows(cfg: Config, s: State, e: Event)
    ensures s.next <= Apply(cfg, s, e).next && (!e.Admit? ==> Apply(cfg, s, e).next == s.next)
  {
    if e.Admit? {
      AdmitShape(cfg, s, e.name);
      hide AdmitStep;
    } else if e.Open? {
      hide TempUsable;
    } else if e.Write? {
      WriteWriters(s, e.id, e.chunk, e.diskOk, e.now);
      hide WriteStep;
    } else {
      OthersUntouched(cfg, s, e);
      hide Apply;
    }
  }

  // ---------------------------------------------------------------------------------------------
  // Runs
  // ---------------------------------------------------------------------------------------------

  lemma {:induction false} LoadRun(cfg: Config, s: State, es: seq<Event>, id: nat)
    requires ValidConfig(cfg) && Inv(cfg, s) && forall i :: 0 <= i < |es| ==> !es[i].Foreign?
    ensures s.next <= Exec(cfg, s, es).next
    ensures Load(Exec(cfg, s, es)) <= Load(s) + |Accepted(cfg, s, es, id)| + OtherBytes(cfg, s, es, id)
                                      + DIGEST_BYTES * (Exec(cfg, s, es).next - s.next)
  {
    hide Inv, ValidConfig, Apply, Load, Gain;
    if es == [] {
    } else {
      var before, e := es[..|es| - 1], es[|es| - 1];
      LoadRun(cfg, s, before, id);
      RunKeeps(cfg, s, before);
      var here := Exec(cfg, s, before);
      LoadStep(cfg, here, e);
      NoGain(here, e, id);
    }
  }

  lemma NoGain(s: State, e: Event, id: nat)
    ensures !e.Write? || e.id != id ==> Gain(s, e, id) == []
  {
  }

  /** What upload `id` is, seen from its admission: its ceiling never changes and it never gets more. */
  ghost predicate Tracked(x: State, id: nat, limit: nat, accepted: seq<Byte>) {
    && |accepted| <= limit
    && (id in x.admitted ==> x.admitted[id].limit == limit)
    && (id in x.writers ==> x.writers[id].limit == limit && x.writers[id].data == accepted)
    && (Unopened(x, id) ==> accepted == [])
  }

  lemma TrackedStep(cfg: Config, s: State, e: Event, id: nat, limit: nat, accepted: seq<Byte>)
    requires Inv(cfg, s) && Inv(cfg, Apply(cfg, s, e)) && id < s.next && Tracked(s, id, limit, accepted)
    ensures Tracked(Apply(cfg, s, e), id, limit, accepted + Gain(s, e, id))
  {
    var t := Apply(cfg, s, e);
    WriterStep(cfg, s, e, id);
    AdmittedUnopened(cfg, s);
    AdmittedOnce(cfg, s, e, id);
    if id in t.writers {
      assert WriterOk(cfg, t, id);
      assert accepted + [] == accepted;
    }
    hide Inv, Apply, Gain, WriterOk;
    assert accepted + [] == accepted;
  }

  /** No step admits an identifier that has been handed out, or changes an admission. */
  lemma AdmittedOnce(cfg: Config, s: State, e: Event, id: nat)
    requires id < s.next
    ensures id in Apply(cfg, s, e).admitted ==> id in s.admitted && Apply(cfg, s, e).admitted[id] == s.admitted[id]
  {
    if e.Admit? {
      AdmitShape(cfg, s, e.name);
      hide AdmitStep;
    } else if e.Open? {
      hide TempUsable;
    } else if e.Write? {
      WriteWriters(s, e.id, e.chunk, e.diskOk, e.now);
      hide WriteStep;
    } else {
      OthersUntouched(cfg, s, e);
      hide Apply;
    }
  }

  /** No upload ever gets more than the ceiling it was admitted with. */
  lemma {:induction false} OwnWithin(cfg: Config, s: State, es: seq<Event>, id: nat)
    requires ValidConfig(cfg) && Inv(cfg, s) && id in s.admitted
    ensures Tracked(Exec(cfg, s, es), id, s.admitted[id].limit, Accepted(cfg, s, es, id))
    ensures id < Exec(cfg, s, es).next
  {
    hide Inv, ValidConfig, Apply, Gain, Tracked;
    if es == [] {
      NextUnused(cfg, s);
      TrackedFirst(cfg, s, id);
    } else {
      var before, e := es[..|es| - 1], es[|es| - 1];
      OwnWithin(cfg, s, before, id);
      RunKeeps(cfg, s, before);
      RunKeeps(cfg, s, es);
      var here := Exec(cfg, s, before);
      TrackedStep(cfg, here, e, id, s.admitted[id].limit, Accepted(cfg, s, before, id));
      NextGrows(cfg, here, e);
    }
  }

  lemma TrackedFirst(cfg: Config, s: State, id: nat)
    requires Inv(cfg, s) && id in s.admitted
    ensures Tracked(s, id, s.admitted[id].limit, [])
  {
  }

  /** Everything in progress was admitted during the run. */
  ghost predicate AdmittedSince(x: State, first: nat) {
    && (forall id :: id in x.admitted ==> first <= id < x.next)
    && (forall id :: id in x.writers ==> first <= id < x.next)
    && (forall id :: id in x.closing ==> first <= id < x.next)
  }

  lemma AdmittedSinceStep(cfg: Config, s: State, e: Event, first: nat)
    requires Inv(cfg, s) && Inv(cfg, Apply(cfg, s, e)) && AdmittedSince(s, first) && first <= s.next
    ensures AdmittedSince(Apply(cfg, s, e), first)
  {
    hide Inv, Apply, Gain;
    var t := Apply(cfg, s, e);
    NextUnused(cfg, t);
    forall id | id in t.admitted ensures first <= id {
      if id < s.next {
        AdmittedOnce(cfg, s, e, id);
      }
    }
    forall id | id in t.writers ensures first <= id {
      WriterStep(cfg, s, e, id);
    }
    forall id | id in t.closing ensures first <= id {
      ClosingStep(cfg, s, e, id);
      if id !in s.closing {
        RenamesOpen(s, e, id);
      }
    }
  }

  lemma {:induction false} AdmittedSinceRun(cfg: Config, s: State, es: seq<Event>)
    requires ValidConfig(cfg) && Inv(cfg, s) && Idle(s)
    ensures s.next <= Exec(cfg, s, es).next && AdmittedSince(Exec(cfg, s, es), s.next)
  {
    hide Inv, ValidConfig, Apply, AdmittedSince;
    if es == [] {
      SinceIdle(s);
    } else {
      var before, e := es[..|es| - 1], es[|es| - 1];
      AdmittedSinceRun(cfg, s, before);
      RunKeeps(cfg, s, before);
      RunKeeps(cfg, s, es);
      NextGrows(cfg, Exec(cfg, s, before), e);
      AdmittedSinceStep(cfg, Exec(cfg, s, before), e, s.next);
    }
  }

  lemma SinceIdle(s: State)
    requires Idle(s)
    ensures AdmittedSince(s, s.next)
  {
  }

  ghost function Range(lo: nat, hi: nat): (r: set<nat>)
    requires lo <= hi
    ensures |r| == hi - lo && forall k :: k in r <==> lo <= k < hi
    decreases hi
  {
    if lo == hi then {} else Range(lo, hi - 1) + {hi - 1}
  }

  lemma {:induction false} SubsetCount(a: set<nat>, b: set<nat>)
    requires a <= b
    ensures |a| <= |b|
  {
    if a == {} {
    } else {
      var x :| x in a;
      SubsetCount(a - {x}, b - {x});
    }
  }

  lemma UnionCount(a: set<nat>, b: set<nat>, c: set<nat>)
    requires a !! b && a !! c && b !! c
    ensures |a + b + c| == |a| + |b| + |c|
  {
    assert |(a + b) + c| == |a + b| + |c|;
  }

  lemma ApartKeys(cfg: Config, x: State)
    requires Inv(cfg, x)
    ensures x.admitted.Keys !! x.writers.Keys && x.admitted.Keys !! x.closing.Keys && x.writers.Keys !! x.closing.Keys
  {
    hide ClosingsOk, OneOwner, SidecarsNamed, IsValid;
    forall id | id in x.writers ensures id !in x.closing {
      assert WriterOk(cfg, x, id);
    }
  }

  /** No more is in progress than was ever admitted. */
  lemma InProgressCount(cfg: Config, x: State, first: nat)
    requires Inv(cfg, x) && first <= x.next && AdmittedSince(x, first)
    ensures InProgress(x) <= x.next - first
  {
    hide Inv;
    ApartKeys(cfg, x);
    UnionCount(x.admitted.Keys, x.writers.Keys, x.closing.Keys);
    SubsetCount(x.admitted.Keys + x.writers.Keys + x.closing.Keys, Range(first, x.next));
  }

  lemma LoadBound(s: State)
    ensures Used(s.nodes) <= Load(s) <= Used(s.nodes) + DIGEST_BYTES * InProgress(s)
  {
    hide Used, Sum;
    ClosingShares(s);
  }

  /**
   The overshoot in terms of what is uploaded: for every upload a run admits, the store ends within the
   quota plus the octets accepted for other uploads after that admission, plus one sidecar for each upload
   of the run.
   */
  lemma OvershootByOthers(cfg: Config, s: State, es: seq<Event>, i: nat)
    requires ValidConfig(cfg) && cfg.quota.Some? && Inv(cfg, s) && Idle(s)
    requires i < |es| && es[i].Admit? && AdmitStep(cfg, Exec(cfg, s, es[..i]), es[i].name).1.Opened?
    requires forall j :: i < j < |es| ==> !es[j].Foreign?
    ensures var id := Exec(cfg, s, es[..i]).next;
            Used(Exec(cfg, s, es).nodes)
              <= cfg.quota.value + OtherBytes(cfg, Exec(cfg, s, es[..i + 1]), es[i + 1..], id)
                 + DIGEST_BYTES * (Exec(cfg, s, es).next - s.next)
  {
    hide Inv, ValidConfig, Apply, AdmitStep, Load, Used, Tracked, InProgress, AdmittedSince;
    var here, rest := Exec(cfg, s, es[..i]), es[i + 1..];
    var id := here.next;
    RunKeeps(cfg, s, es[..i]);
    RunKeeps(cfg, s, es[..i + 1]);
    var u := AdmittedAt(cfg, s, es, i);
    assert es == es[..i + 1] + rest;
    ExecConcat(cfg, s, es[..i + 1], rest);
    LoadRun(cfg, u, rest, id);
    OwnWithin(cfg, u, rest, id);
    OwnBytes(Exec(cfg, u, rest), id, u.admitted[id].limit, Accepted(cfg, u, rest, id));
    AdmittedSinceRun(cfg, s, es[..i + 1]);
    InProgressCount(cfg, u, s.next);
    LoadBound(u);
    LoadBound(Exec(cfg, u, rest));
  }

  lemma OwnBytes(x: State, id: nat, limit: nat, accepted: seq<Byte>)
    requires Tracked(x, id, limit, accepted)
    ensures |accepted| <= limit
  {
  }

  /** The state just after the admission at step `i`. */
  lemma AdmittedAt(cfg: Config, s: State, es: seq<Event>, i: nat) returns (u: State)
    requires ValidConfig(cfg) && cfg.quota.Some? && i < |es|
    requires es[i].Admit? && AdmitStep(cfg, Exec(cfg, s, es[..i]), es[i].name).1.Opened?
    ensures var here := Exec(cfg, s, es[..i]);
            && u == Exec(cfg, s, es[..i + 1]) && here.next in u.admitted && u.nodes == here.nodes && u.next == here.next + 1
            && Used(u.nodes) + u.admitted[here.next].limit <= cfg.quota.value
  {
    hide ValidConfig, Used, AdmitStep;
    u := Exec(cfg, s, es[..i + 1]);
    ExecPrefix(cfg, s, es, i);
    AdmittedWithin(cfg, Exec(cfg, s, es[..i]), es[i].name);
  }

  // ---------------------------------------------------------------------------------------------
  // Two uploads
  // ---------------------------------------------------------------------------------------------

  /** Every identifier handed out during a run was handed out by an admission. */
  lemma {:induction false} AdmissionOf(cfg: Config, s: State, es: seq<Event>, id: nat) returns (i: nat)
    requires s.next <= id < Exec(cfg, s, es).next
    ensures i < |es| && es[i].Admit? && Exec(cfg, s, es[..i]).next == id
    ensures AdmitStep(cfg, Exec(cfg, s, es[..i]), es[i].name).1.Opened?
  {
    hide Apply, AdmitStep;
    if es == [] {
      assert false;
    } else {
      var before, e := es[..|es| - 1], es[|es| - 1];
      var here := Exec(cfg, s, before);
      NextGrows(cfg, here, e);
      if id < here.next {
        i := AdmissionOf(cfg, s, before, id);
        assert before[..i] == es[..i];
      } else {
        i := |es| - 1;
        AdmittedBy(cfg, here, e);
      }
    }
  }

  lemma AdmittedBy(cfg: Config, s: State, e: Event)
    requires e.Admit? && s.next < Apply(cfg, s, e).next
    ensures AdmitStep(cfg, s, e.name).1.Opened? && Apply(cfg, s, e).next == s.next + 1
  {
    hide IsValid, IsReserved, Exists, HeadroomOf;
  }

  lemma {:induction false} AcceptedConcat(cfg: Config, s: State, a: seq<Event>, b: seq<Event>, id: nat)
    ensures Accepted(cfg, s, a + b, id) == Accepted(cfg, s, a, id) + Accepted(cfg, Exec(cfg, s, a), b, id)
  {
    hide Apply, Gain;
    if b == [] {
      assert a + b == a;
    } else {
      var before, e := b[..|b| - 1], b[|b| - 1];
      AcceptedConcat(cfg, s, a, before, id);
      ExecConcat(cfg, s, a, before);
      assert (a + b)[..|a + b| - 1] == a + before;
    }
  }

  /** With one other upload, what the others bring is what that one brings. */
  lemma {:induction false} OtherIsOne(cfg: Config, s: State, es: seq<Event>, id: nat, other: nat)
    requires id != other
    requires forall i :: 0 <= i < |es| ==> Exec(cfg, s, es[..i]).writers.Keys <= {id, other}
    ensures OtherBytes(cfg, s, es, id) == |Accepted(cfg, s, es, other)|
  {
    hide Apply;
    if es == [] {
    } else {
      var before, e := es[..|es| - 1], es[|es| - 1];
      assert forall i :: 0 <= i < |before| ==> before[..i] == es[..i];
      OtherIsOne(cfg, s, before, id, other);
      OneGain(Exec(cfg, s, before), e, id, other);
    }
  }

  lemma OneGain(s: State, e: Event, id: nat, other: nat)
    requires id != other && s.writers.Keys <= {id, other}
    ensures |Gain(s, e, other)| == if e.Write? && e.id != id then Chunk(s, e) else 0
  {
  }

  /** In a run of two uploads, what the others bring after one's admission is at most what the other brings at all. */
  lemma OtherOfTwo(cfg: Config, s: State, es: seq<Event>, i: nat, id: nat, other: nat)
    requires ValidConfig(cfg) && Inv(cfg, s) && Idle(s) && i < |es| && Exec(cfg, s, es).next == s.next + 2
    requires {id, other} == {s.next, s.next + 1}
    ensures OtherBytes(cfg, Exec(cfg, s, es[..i + 1]), es[i + 1..], id) <= |Accepted(cfg, s, es, other)|
  {
    hide Inv, ValidConfig, Apply, Gain;
    var head, rest := es[..i + 1], es[i + 1..];
    assert es == head + rest && id in {s.next, s.next + 1} && other in {s.next, s.next + 1};
    AcceptedConcat(cfg, s, head, rest, other);
    DistinctPair(s.next, id, other);
    forall j | 0 <= j < |rest| ensures Exec(cfg, Exec(cfg, s, head), rest[..j]).writers.Keys <= {id, other} {
      ExecConcat(cfg, s, head, rest[..j]);
      assert head + rest[..j] == es[..i + 1 + j];
      OnlyTwo(cfg, s, es, i + 1 + j);
    }
    OtherIsOne(cfg, Exec(cfg, s, head), rest, id, other);
  }

  lemma DistinctPair(n: nat, a: nat, b: nat)
    requires {a, b} == {n, n + 1}
    ensures a != b
  {
    assert n in {a, b} && n + 1 in {a, b};
  }

  lemma OnlyTwo(cfg: Config, s: State, es: seq<Event>, j: nat)
    requires ValidConfig(cfg) && Inv(cfg, s) && Idle(s) && j <= |es| && Exec(cfg, s, es).next == s.next + 2
    ensures Exec(cfg, s, es[..j]).writers.Keys <= {s.next, s.next + 1}
  {
    hide Inv, ValidConfig, Exec;
    AdmittedSinceRun(cfg, s, es[..j]);
    assert es == es[..j] + es[j..];
    ExecConcat(cfg, s, es[..j], es[j..]);
    NextGrowsRun(cfg, Exec(cfg, s, es[..j]), es[j..]);
  }

  lemma {:induction false} NextGrowsRun(cfg: Config, s: State, es: seq<Event>)
    ensures s.next <= Exec(cfg, s, es).next
  {
    hide Apply;
    if es == [] {
    } else {
      NextGrowsRun(cfg, s, es[..|es| - 1]);
      NextGrows(cfg, Exec(cfg, s, es[..|es| - 1]), es[|es| - 1]);
    }
  }

  /**
   Two uploads, however they overlap: together they take the store over its quota by at most the smaller
   of the two, and their two sidecars.
   */
  lemma SmallerOfTwo(cfg: Config, s: State, es: seq<Event>)
    requires ValidConfig(cfg) && cfg.quota.Some? && Inv(cfg, s) && Idle(s)
    requires Exec(cfg, s, es).next == s.next + 2 && forall j :: 0 <= j < |es| ==> !es[j].Foreign?
    ensures Used(Exec(cfg, s, es).nodes)
         <= cfg.quota.value + Min(|Accepted(cfg, s, es, s.next)|, |Accepted(cfg, s, es, s.next + 1)|) + 2 * DIGEST_BYTES
  {
    hide Inv, ValidConfig, Apply, AdmitStep, Used, OtherBytes, Accepted, Exec;
    var i := AdmissionOf(cfg, s, es, s.next);
    OvershootByOthers(cfg, s, es, i);
    OtherOfTwo(cfg, s, es, i, s.next, s.next + 1);
    var j := AdmissionOf(cfg, s, es, s.next + 1);
    OvershootByOthers(cfg, s, es, j);
    OtherOfTwo(cfg, s, es, j, s.next + 1, s.next);
  }
}
