/**
 Collecting crash residue: a pass decides entry by entry on a directory it is itself shrinking. When it
 removes exactly the residue, whatever order the directory is read in.
 */
module StoreResidue {
  import opened ArtifactNames
  import opened StoreState

  /** `entries` lists a directory: every entry once, in whatever order the system returns them. */
  ghost predicate Lists(entries: seq<string>, nodes: Directory) {
    && (forall i :: 0 <= i < |entries| ==> entries[i] in nodes)
    && (forall name :: name in nodes ==> name in entries)
    && (forall i, j :: 0 <= i < j < |entries| ==> entries[i] != entries[j])
  }

  /** The pass: one decision per entry, on what is left; `stuck` are the names whose removal fails. */
  function Sweep(nodes: Directory, entries: seq<string>, now: int, minAge: nat, stuck: set<string>): Directory {
    if entries == [] then nodes
    else
      var name := entries[0];
      var gone := if name !in stuck && IsResidue(nodes, name, now, minAge) then {name} else {};
      Sweep(nodes - gone, entries[1..], now, minAge, stuck)
  }

  lemma SweepNext(nodes: Directory, entries: seq<string>, i: nat, now: int, minAge: nat, stuck: set<string>)
    requires i < |entries|
    ensures var gone := if entries[i] !in stuck && IsResidue(nodes, entries[i], now, minAge) then {entries[i]} else {};
            Sweep(nodes, entries[i..], now, minAge, stuck) == Sweep(nodes - gone, entries[i + 1..], now, minAge, stuck)
  {
    hide IsResidue;
    assert entries[i..][1..] == entries[i + 1..];
  }

  lemma SweepDone(nodes: Directory, entries: seq<string>, now: int, minAge: nat, stuck: set<string>)
    ensures Sweep(nodes, entries[|entries|..], now, minAge, stuck) == nodes
  {
  }

  predicate IsOldFile(nodes: Directory, name: string, now: int, minAge: nat) {
    name in nodes && nodes[name].File? && OlderThan(nodes[name].mtime, now, minAge)
  }

  /**
   A residue file `name` that the pass will remove, with an old file beside it that is its sidecar in
   turn: that second sidecar is an orphan only once `name` is gone.
   */
  predicate Chained(nodes: Directory, name: string, now: int, minAge: nat, stuck: set<string>) {
    && name !in stuck && IsResidue(nodes, name, now, minAge)
    && Sidecar(name) !in stuck && IsOldFile(nodes, Sidecar(name), now, minAge) && !IsTemp(Sidecar(name))
  }

  ghost predicate Unchained(nodes: Directory, now: int, minAge: nat, stuck: set<string>) {
    forall name :: name in nodes ==> !Chained(nodes, name, now, minAge, stuck)
  }

  /** What one pass ought to remove. */
  ghost function Collectable(nodes: Directory, now: int, minAge: nat, stuck: set<string>): set<string> {
    Residue(nodes, now, minAge) - stuck
  }

  lemma SidecarOfArtifact(name: string)
    requires IsReserved(name)
    ensures Sidecar(ArtifactOf(name)) == name
  {
  }

  /** Without chains, removing residue turns nothing else into residue and saves nothing. */
  lemma ResidueStable(nodes: Directory, gone: set<string>, name: string, now: int, minAge: nat, stuck: set<string>)
    requires Unchained(nodes, now, minAge, stuck) && gone <= Collectable(nodes, now, minAge, stuck)
    requires name in nodes && name !in gone && name !in stuck
    ensures IsResidue(nodes - gone, name, now, minAge) <==> IsResidue(nodes, name, now, minAge)
  {
    if IsReserved(name) && ArtifactOf(name) in gone {
      SidecarOfArtifact(name);
      assert !Chained(nodes, ArtifactOf(name), now, minAge, stuck);
    }
    hide IsReserved, IsTemp, Sidecar, ArtifactOf, OlderThan;
  }

  /** The pass from the middle: `gone` is removed, `entries` are still to come. */
  lemma {:induction false} SweepFrom(nodes: Directory, gone: set<string>, entries: seq<string>,
                                     now: int, minAge: nat, stuck: set<string>)
    requires Unchained(nodes, now, minAge, stuck) && gone <= Collectable(nodes, now, minAge, stuck)
    requires forall name :: name in Collectable(nodes, now, minAge, stuck) && name !in gone ==> name in entries
    requires forall i :: 0 <= i < |entries| ==> entries[i] in nodes && entries[i] !in gone
    requires forall i, j :: 0 <= i < j < |entries| ==> entries[i] != entries[j]
    ensures Sweep(nodes - gone, entries, now, minAge, stuck) == nodes - Collectable(nodes, now, minAge, stuck)
    decreases |entries|
  {
    if entries == [] {
      assert gone == Collectable(nodes, now, minAge, stuck);
    } else {
      var name := entries[0];
      if name !in stuck {
        ResidueStable(nodes, gone, name, now, minAge, stuck);
      }
      hide IsResidue, Unchained;
      var more := if name in Collectable(nodes, now, minAge, stuck) then {name} else {};
      assert entries == [name] + entries[1..];
      assert nodes - gone - more == nodes - (gone + more);
      SweepFrom(nodes, gone + more, entries[1..], now, minAge, stuck);
    }
  }

  /** Without chains one pass removes exactly the residue it can remove, in every directory order. */
  lemma SweepExact(nodes: Directory, entries: seq<string>, now: int, minAge: nat, stuck: set<string>)
    requires Lists(entries, nodes) && Unchained(nodes, now, minAge, stuck)
    ensures Sweep(nodes, entries, now, minAge, stuck) == nodes - Collectable(nodes, now, minAge, stuck)
  {
    assert nodes - {} == nodes;
    SweepFrom(nodes, {}, entries, now, minAge, stuck);
  }

  /** Every listing removes exactly the residue if and only if the directory holds no chain. */
  lemma SweepExactIff(nodes: Directory, now: int, minAge: nat, stuck: set<string>)
    ensures Unchained(nodes, now, minAge, stuck) <==>
            (forall entries :: Lists(entries, nodes) ==>
               Sweep(nodes, entries, now, minAge, stuck) == nodes - Collectable(nodes, now, minAge, stuck))
  {
    if Unchained(nodes, now, minAge, stuck) {
      forall entries | Lists(entries, nodes)
        ensures Sweep(nodes, entries, now, minAge, stuck) == nodes - Collectable(nodes, now, minAge, stuck)
      {
        SweepExact(nodes, entries, now, minAge, stuck);
      }
    } else {
      var name :| name in nodes && Chained(nodes, name, now, minAge, stuck);
      ChainOvershoots(nodes, name, now, minAge, stuck);
    }
  }

  /** Read before its own sidecar, the head of a chain takes that sidecar along. */
  lemma ChainOvershoots(nodes: Directory, name: string, now: int, minAge: nat, stuck: set<string>)
    requires Chained(nodes, name, now, minAge, stuck)
    ensures exists entries :: Lists(entries, nodes) &&
              Sweep(nodes, entries, now, minAge, stuck) != nodes - Collectable(nodes, now, minAge, stuck)
  {
    hide Lists, Listing, Sweep, Residue, Sidecar, Chained, IsResidue;
    var side := Sidecar(name);
    ChainHead(nodes, name, now, minAge, stuck);
    PairFirst(nodes, name, side);
    var rest := Listing(nodes.Keys - {name, side});
    PairSwept(nodes, name, side, rest, now, minAge, stuck);
    assert side in nodes - Collectable(nodes, now, minAge, stuck);
  }

  lemma PairSwept(nodes: Directory, a: string, b: string, rest: seq<string>, now: int, minAge: nat, stuck: set<string>)
    requires a !in stuck && b !in stuck && a != b
    requires IsResidue(nodes, a, now, minAge) && IsResidue(nodes - {a}, b, now, minAge)
    ensures b !in Sweep(nodes, [a] + ([b] + rest), now, minAge, stuck)
  {
    hide IsResidue;
    assert ([a] + ([b] + rest))[1..] == [b] + rest && ([b] + rest)[1..] == rest;
    SweepShrinks(nodes - {a} - {b}, rest, now, minAge, stuck);
    assert Sweep(nodes - {a}, [b] + rest, now, minAge, stuck) == Sweep(nodes - {a} - {b}, rest, now, minAge, stuck);
  }

  /** The sidecar of a chain's head is no residue while the head is there, and residue once it is not. */
  lemma ChainHead(nodes: Directory, name: string, now: int, minAge: nat, stuck: set<string>)
    requires Chained(nodes, name, now, minAge, stuck)
    ensures name in nodes && Sidecar(name) in nodes && Sidecar(name) != name
    ensures name !in stuck && Sidecar(name) !in stuck
    ensures Sidecar(name) !in Residue(nodes, now, minAge)
    ensures IsResidue(nodes, name, now, minAge) && IsResidue(nodes - {name}, Sidecar(name), now, minAge)
  {
    SidecarOf(name);
    assert name != "";
    hide IsReserved, Sidecar, ArtifactOf, OlderThan, IsTemp;
  }

  lemma PairFirst(nodes: Directory, a: string, b: string)
    requires a in nodes && b in nodes && a != b
    ensures Lists([a] + ([b] + Listing(nodes.Keys - {a, b})), nodes)
  {
    hide Listing;
    var rest := Listing(nodes.Keys - {a, b});
    var entries := [a] + ([b] + rest);
    assert entries[0] == a && entries[1] == b;
    forall i | 2 <= i < |entries| ensures entries[i] == rest[i - 2] && entries[i] in nodes && entries[i] !in {a, b} {
      assert rest[i - 2] in rest;
    }
    forall name | name in nodes ensures name in entries {
      assert name in {a, b} || name in rest;
    }
  }

  ghost function Listing(names: set<string>): (r: seq<string>)
    ensures forall name :: name in names <==> name in r
    ensures forall i, j :: 0 <= i < j < |r| ==> r[i] != r[j]
  {
    if names == {} then []
    else
      var name :| name in names;
      [name] + Listing(names - {name})
  }

  lemma {:induction false} SweepShrinks(nodes: Directory, entries: seq<string>, now: int, minAge: nat, stuck: set<string>)
    ensures Sweep(nodes, entries, now, minAge, stuck).Keys <= nodes.Keys
    decreases |entries|
  {
    if entries == [] {
    } else {
      var gone := if entries[0] !in stuck && IsResidue(nodes, entries[0], now, minAge) then {entries[0]} else {};
      hide IsResidue;
      SweepShrinks(nodes - gone, entries[1..], now, minAge, stuck);
    }
  }

  /**
   Chained or not, a pass never changes an entry it keeps, and what it removes is an old plain file
   under one of the store's own two name classes: no artifact, no snapshot prefix, no link.
   */
  lemma {:induction false} SweepSpares(nodes: Directory, entries: seq<string>, now: int, minAge: nat, stuck: set<string>, name: string)
    requires name in nodes
    ensures var after := Sweep(nodes, entries, now, minAge, stuck);
            if name in after then after[name] == nodes[name]
            else name in entries && name !in stuck
                 && nodes[name].File? && nodes[name].mtime.Some? && nodes[name].mtime.value + minAge <= now
                 && (IsTemp(name) || IsReserved(name)) && !IsValid(name)
    decreases |entries|
  {
    if entries == [] {
    } else {
      var first := entries[0];
      var gone := if first !in stuck && IsResidue(nodes, first, now, minAge) then {first} else {};
      if name in gone {
        if IsTemp(name) {
          TempNotValid(name);
        }
        SweepShrinks(nodes - gone, entries[1..], now, minAge, stuck);
      } else {
        SweepSpares(nodes - gone, entries[1..], now, minAge, stuck, name);
      }
      hide IsTemp, IsReserved, IsValid, IsResidue;
    }
  }

  /** `name` is the sidecar of a name that no longer leads anywhere. */
  ghost predicate Orphaned(nodes: Directory, name: string) {
    exists artifact ::
      && name == Sidecar(artifact) && artifact != ""
      && (artifact in nodes ==> nodes[artifact].Link? && nodes[artifact].target.Dangling?)
  }

  /** Residue in terms of the directory and the time stamps: a plain file of a class of the store's own, old enough. */
  lemma ResidueMeans(nodes: Directory, name: string, now: int, minAge: nat)
    ensures IsResidue(nodes, name, now, minAge) <==>
              && name in nodes && nodes[name].File?
              && nodes[name].mtime.Some? && nodes[name].mtime.value + minAge <= now
              && (IsTemp(name) || Orphaned(nodes, name))
  {
    if IsReserved(name) {
      SidecarOfArtifact(name);
    }
    forall artifact | name == Sidecar(artifact) ensures IsReserved(name) && ArtifactOf(name) == artifact {
      SidecarOf(artifact);
    }
    hide IsReserved, IsTemp, Sidecar, ArtifactOf;
  }

  /** After an unchained pass the only residue left is what could not be removed: a second pass is idle. */
  lemma SweepSettles(nodes: Directory, now: int, minAge: nat, stuck: set<string>)
    requires Unchained(nodes, now, minAge, stuck)
    ensures Collectable(nodes - Collectable(nodes, now, minAge, stuck), now, minAge, stuck) == {}
  {
    var gone := Collectable(nodes, now, minAge, stuck);
    forall name | name in nodes && name !in gone && name !in stuck ensures !IsResidue(nodes - gone, name, now, minAge) {
      ResidueStable(nodes, gone, name, now, minAge, stuck);
    }
    hide IsResidue;
  }

  /** No run of the store makes a chain: its sidecars belong to valid names, and residue names are not valid. */
  lemma ReachableUnchained(cfg: Config, s: State, now: int, minAge: nat, stuck: set<string>)
    requires Inv(cfg, s)
    ensures Unchained(s.nodes, now, minAge, stuck)
  {
    forall name | name in s.nodes ensures !Chained(s.nodes, name, now, minAge, stuck) {
      SidecarOf(name);
      assert Sidecar(name) in s.nodes && !IsTemp(Sidecar(name)) ==> IsValid(name);
      if IsTemp(name) {
        TempNotValid(name);
      }
    }
  }

  /** So in every reachable state a pass, in any order, is the `Collect` step of the store. */
  lemma CollectIsSweep(cfg: Config, s: State, entries: seq<string>, now: int, minAge: nat, stuck: set<string>)
    requires Inv(cfg, s) && Lists(entries, s.nodes)
    ensures Apply(cfg, s, Collect(now, minAge, stuck)) == s.(nodes := Sweep(s.nodes, entries, now, minAge, stuck))
  {
    ReachableUnchained(cfg, s, now, minAge, stuck);
    SweepExact(s.nodes, entries, now, minAge, stuck);
  }
}
