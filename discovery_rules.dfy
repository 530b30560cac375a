/**
 * The expression-level rules of Discovery.java: the containment test of the
 * movement listener, the first-match lookups of rename and travel, what
 * `regionsFor` loads, and the specification of one block crossing (which
 * regions get a `discover` call, which of them get recorded).
 */
module DiscoveryRules {
  import opened Wrappers
  import opened Regions
  import opened SortedSets
  import opened Storage

  /** How `SELECT * FROM regions` ended: every row read, or an SQLException after `rows` rows. */
  datatype ReadFault = Complete | FailsAfter(rows: nat)

  /** What the travel command does. */
  datatype TravelResult =
    | Teleported(world: Uuid, x: real, y: real, z: real)
    | TravelNotAPlayer
    | NotDiscovered
    | UnknownWorld

  /** The rows `fetchAllRegions` gets to add before the read ends. */
  function Delivered(rows: seq<Region>, read: ReadFault): (d: seq<Region>)
    ensures d <= rows
    ensures read.Complete? ==> d == rows
    ensures read.FailsAfter? && read.rows < |rows| ==> |d| == read.rows
    ensures read.FailsAfter? && read.rows >= |rows| ==> d == rows
  {
    match read
    case Complete => rows
    case FailsAfter(n) => if n < |rows| then rows[..n] else rows
  }

  /** The set `regionsFor` returns: the joined rows added to a TreeSet, or an empty set on SQLException. */
  function Loaded(st: Store, player: Uuid, fault: bool): seq<Region> {
    if fault then [] else Build(JoinRows(st, player))
  }

  /** `computeIfAbsent(player, this::regionsFor)`: the cached set, else a fresh load. */
  function CachedOrLoaded(cache: map<Uuid, seq<Region>>, st: Store, player: Uuid, fault: bool): seq<Region> {
    if player in cache then cache[player] else Loaded(st, player, fault)
  }

  /** `inside`: strictly within the box on both axes; the world is not consulted. */
  predicate Inside(r: Region, x: int, z: int) {
    r.xMin < x && x < r.xMax && r.zMin < z && z < r.zMax
  }

  /** The creation check: the teleport point lies in the (normalised) box, edges included. */
  predicate TeleportInBox(r: Region) {
    r.xMin as real <= r.teleportX <= r.xMax as real && r.zMin as real <= r.teleportZ <= r.zMax as real
  }

  /** `stream().filter(name.equals(...)).findFirst()`: the first region with exactly this name. */
  function FirstNamed(s: seq<Region>, name: string): (r: Option<Region>)
    ensures r.None? <==> forall x :: x in s ==> x.name != name
    ensures r.Some? ==> exists i :: 0 <= i < |s| && s[i] == r.value && r.value.name == name
                                    && forall j :: 0 <= j < i ==> s[j].name != name
  {
    if s == [] then None
    else if s[0].name == name then Some(s[0])
    else
      var r := FirstNamed(s[1..], name);
      assert s == [s[0]] + s[1..];
      if r.Some? then
        var i :| 0 <= i < |s[1..]| && s[1..][i] == r.value && r.value.name == name
                 && forall j :: 0 <= j < i ==> s[1..][j].name != name;
        assert forall j :: 0 <= j < i + 1 ==> s[j].name != name by {
          forall j | 0 < j < i + 1 ensures s[j].name != name {
            assert s[j] == s[1..][j - 1];
          }
        }
        assert s[i + 1] == r.value;
        r
      else r
  }

  /** The travel lookup on a player's set: first exact-name match, then the world check. */
  function Resolve(entry: seq<Region>, destination: string, worlds: set<Uuid>): (res: TravelResult)
    ensures res.NotDiscovered? <==> forall x :: x in entry ==> x.name != destination
    ensures res.Teleported? || res.UnknownWorld? ==>
      var r := FirstNamed(entry, destination).value;
      r in entry && r.name == destination && (res.Teleported? <==> r.worldUuid in worlds)
    ensures res.Teleported? ==>
      var r := FirstNamed(entry, destination).value;
      res == Teleported(r.worldUuid, r.teleportX, r.teleportY, r.teleportZ)
    ensures !res.TravelNotAPlayer?
  {
    match FirstNamed(entry, destination)
    case None => NotDiscovered
    case Some(r) =>
      if r.worldUuid in worlds then Teleported(r.worldUuid, r.teleportX, r.teleportY, r.teleportZ)
      else UnknownWorld
  }

  /** The discovery rows one player's successful discoveries append, in order. */
  function Records(player: Uuid, rs: seq<Region>): (rows: seq<DiscoveryRow>)
    ensures |rows| == |rs|
    ensures forall i :: 0 <= i < |rs| ==> rows[i] == (player, rs[i].uuid)
    decreases |rs|
  {
    if rs == [] then [] else Records(player, rs[..|rs| - 1]) + [(player, rs[|rs| - 1].uuid)]
  }

  /**
   * The state of one block crossing after the catalog regions `cat` have
   * been visited in order: the player's set, the regions that got a
   * `discover` call, and the ones whose insert succeeded (and were notified).
   */
  datatype SweepState = SweepState(entry: seq<Region>, attempted: seq<Region>, notified: seq<Region>)

  /**
   * The stream in `onMove`: a region is checked against the set as it stands
   * when the region is reached; the insert for a region whose uuid is in
   * `faults` throws, and nothing else happens for it.
   */
  function Sweep(entry: seq<Region>, cat: seq<Region>, x: int, z: int, faults: set<Uuid>): SweepState
    decreases |cat|
  {
    if cat == [] then SweepState(entry, [], [])
    else
      var prev := Sweep(entry, cat[..|cat| - 1], x, z, faults);
      var r := cat[|cat| - 1];
      if !Inside(r, x, z) || Contains(prev.entry, r) then prev
      else if r.uuid in faults then prev.(attempted := prev.attempted + [r])
      else SweepState(Insert(prev.entry, r), prev.attempted + [r], prev.notified + [r])
  }

  /** Reference definition: the catalog regions containing the cell and not in the set, in catalog order. */
  function Eligible(cat: seq<Region>, entry: seq<Region>, x: int, z: int): seq<Region>
    decreases |cat|
  {
    if cat == [] then []
    else
      var r := cat[|cat| - 1];
      Eligible(cat[..|cat| - 1], entry, x, z) + (if Inside(r, x, z) && !Contains(entry, r) then [r] else [])
  }

  /** The regions of `rs` whose insert does not fail, in order. */
  function Succeeding(rs: seq<Region>, faults: set<Uuid>): seq<Region>
    decreases |rs|
  {
    if rs == [] then []
    else
      var r := rs[|rs| - 1];
      Succeeding(rs[..|rs| - 1], faults) + (if r.uuid in faults then [] else [r])
  }

  /** One more catalog region visited: the step of the stream. */
  lemma SweepUnfold(entry: seq<Region>, cat: seq<Region>, k: nat, x: int, z: int, faults: set<Uuid>)
    requires k < |cat|
    ensures var prev := Sweep(entry, cat[..k], x, z, faults);
      var r := cat[k];
      Sweep(entry, cat[..k + 1], x, z, faults) ==
        if !Inside(r, x, z) || Contains(prev.entry, r) then prev
        else if r.uuid in faults then prev.(attempted := prev.attempted + [r])
        else SweepState(Insert(prev.entry, r), prev.attempted + [r], prev.notified + [r])
  {
    assert cat[..k + 1][..k] == cat[..k];
  }

  /** The step of `Sweep` for `cat[k]`, in the terms of one filter test and one insert. */
  lemma SweepStep(entry: seq<Region>, cat: seq<Region>, k: nat, x: int, z: int, faults: set<Uuid>,
                  called: bool, ok: bool)
    requires k < |cat|
    requires called == (Inside(cat[k], x, z) && !Contains(Sweep(entry, cat[..k], x, z, faults).entry, cat[k]))
    requires ok == (called && cat[k].uuid !in faults)
    ensures var prev := Sweep(entry, cat[..k], x, z, faults);
      Sweep(entry, cat[..k + 1], x, z, faults) == SweepState(
        if ok then Insert(prev.entry, cat[k]) else prev.entry,
        if called then prev.attempted + [cat[k]] else prev.attempted,
        if ok then prev.notified + [cat[k]] else prev.notified)
  {
    SweepUnfold(entry, cat, k, x, z, faults);
  }

  /** The store after the rows of `notified`, and one more insert if it succeeds. */
  lemma RecordsStep(st0: Store, player: Uuid, notified: seq<Region>, r: Region, ok: bool)
    ensures var st := st0.(discoveries := st0.discoveries + Records(player, notified));
      (if ok then InsertDiscovery(st, player, r.uuid) else st)
        == st0.(discoveries := st0.discoveries + Records(player, if ok then notified + [r] else notified))
  {
    if ok {
      RecordsAppend(player, notified, r);
    }
  }

  /** One more successful discovery appends one row. */
  lemma RecordsAppend(player: Uuid, rs: seq<Region>, r: Region)
    ensures Records(player, rs + [r]) == Records(player, rs) + [(player, r.uuid)]
  {
    assert (rs + [r])[..|rs|] == rs;
  }

  // ---------------------------------------------------------------- containment

  /** A cell on the boundary line is never inside. */
  lemma InsideExcludesBoundary(r: Region, x: int, z: int)
    requires x == r.xMin || x == r.xMax || z == r.zMin || z == r.zMax
    ensures !Inside(r, x, z)
  {
  }

  /** Containment does not depend on the region's world. */
  lemma InsideIgnoresWorld(r: Region, w: Uuid, x: int, z: int)
    ensures Inside(r.(worldUuid := w), x, z) == Inside(r, x, z)
  {
  }

  /** A box less than two cells wide on some axis contains no cell at all. */
  lemma NarrowBoxIsEmpty(r: Region, x: int, z: int)
    requires r.xMax - r.xMin < 2 || r.zMax - r.zMin < 2
    ensures !Inside(r, x, z)
  {
  }

  /** The edge examples for the box (0,0)-(10,10). */
  lemma InsideExamples(r: Region)
    requires r.xMin == 0 && r.zMin == 0 && r.xMax == 10 && r.zMax == 10
    ensures !Inside(r, 0, 5) && !Inside(r, 10, 5) && !Inside(r, 5, 0) && !Inside(r, 5, 10)
    ensures Inside(r, 5, 5)
  {
  }

  // ---------------------------------------------------------------- lookups

  /** The lookup result does not depend on regions after the first match. */
  lemma FirstNamedPrefix(s: seq<Region>, t: seq<Region>, name: string)
    requires FirstNamed(s, name).Some?
    ensures FirstNamed(s + t, name) == FirstNamed(s, name)
    decreases |s|
  {
    if s[0].name != name {
      assert (s + t)[1..] == s[1..] + t;
      FirstNamedPrefix(s[1..], t, name);
    }
  }

  // ---------------------------------------------------------------- regionsFor

  /** What `regionsFor` returns is a well-formed TreeSet. */
  lemma LoadedSorted(st: Store, player: Uuid, fault: bool)
    ensures Sorted(Loaded(st, player, fault))
  {
    if !fault {
      BuildSorted(JoinRows(st, player));
    }
  }

  /**
   * A freshly loaded set holds only stored regions the player has a
   * discovery row for, and covers (up to case) every such region.
   */
  lemma LoadedMembers(st: Store, player: Uuid, x: Region)
    ensures x in Loaded(st, player, false) ==> x in st.regions && (player, x.uuid) in st.discoveries
    ensures x in st.regions && (player, x.uuid) in st.discoveries ==> Contains(Loaded(st, player, false), x)
  {
    var rows := JoinRows(st, player);
    BuildElements(rows);
    JoinMembers(st.regions, st.discoveries, player, x);
    BuildContains(rows, x);
    if x in rows {
      CompareReflexive(x.name);
    }
  }

  /**
   * After a delete, neither the reloaded catalog nor any set loaded later
   * holds the deleted uuid, although the discovery rows for it remain.
   */
  lemma DeletedNeverReloaded(st: Store, id: Uuid, read: ReadFault, player: Uuid, x: Region)
    ensures var st' := DeleteRegion(st, id).0;
      st'.discoveries == st.discoveries
      && (x in Build(Delivered(st'.regions, read)) ==> x.uuid != id)
      && (x in Loaded(st', player, false) ==> x.uuid != id)
  {
    var st' := DeleteRegion(st, id).0;
    var rows := Delivered(st'.regions, read);
    BuildElements(rows);
    if x in rows {
      assert x in st'.regions;
    }
    LoadedMembers(st', player, x);
  }

  /**
   * After a rename's update, reloading shows the new name for that uuid and
   * never the old one: every reloaded region with the uuid is the renamed
   * row, in the catalog and in every player's set.
   */
  lemma RenameReflected(st: Store, r: Region, to: string, read: ReadFault, player: Uuid, x: Region)
    requires KeysUnique(st.regions)
    ensures var st' := UpdateRegion(st, r.(name := to));
      (x in Build(Delivered(st'.regions, read)) && x.uuid == r.uuid ==> x == r.(name := to))
      && (x in Loaded(st', player, false) && x.uuid == r.uuid ==> x == r.(name := to))
  {
    var st' := UpdateRegion(st, r.(name := to));
    UpdateKeepsKeys(st, r.(name := to));
    var rows := Delivered(st'.regions, read);
    BuildElements(rows);
    LoadedMembers(st', player, x);
    if x in st'.regions && x.uuid == r.uuid {
      var i :| 0 <= i < |st'.regions| && st'.regions[i] == x;
      assert st.regions[i].uuid == r.uuid;
    }
    if x in rows {
      assert x in st'.regions;
    }
  }

  /** With the row present and no name clash, the renamed region is in the reloaded catalog. */
  lemma RenameReloadsRenamed(st: Store, r: Region, to: string)
    requires HasKey(st.regions, r.uuid)
    requires NameDistinct(UpdateRegion(st, r.(name := to)).regions)
    ensures r.(name := to) in Build(UpdateRegion(st, r.(name := to)).regions)
  {
    var st' := UpdateRegion(st, r.(name := to));
    var y :| y in st.regions && y.uuid == r.uuid;
    var i :| 0 <= i < |st.regions| && st.regions[i] == y;
    assert st'.regions[i] == r.(name := to);
    BuildDistinct(st'.regions);
    assert r.(name := to) in multiset(st'.regions);
  }

  /**
   * Renaming a catalog region that has no row (its insert failed at
   * creation) updates nothing, and the reload that follows drops it.
   */
  lemma RenameWithoutRow(st: Store, r: Region, to: string, read: ReadFault, x: Region)
    requires !HasKey(st.regions, r.uuid)
    ensures UpdateRegion(st, r.(name := to)) == st
    ensures x in Build(Delivered(st.regions, read)) ==> x.uuid != r.uuid
  {
    var st' := UpdateRegion(st, r.(name := to));
    assert st'.regions == st.regions;
    var rows := Delivered(st.regions, read);
    BuildElements(rows);
    if x in rows {
      assert x in st.regions;
    }
  }

  // ---------------------------------------------------------------- one block crossing

  /** Distinct members of a sorted sequence never tie under the comparator. */
  lemma SortedNoTies(s: seq<Region>, a: Region, b: Region)
    requires Sorted(s) && a in s && b in s && a != b
    ensures a.CompareTo(b) != 0
  {
    var i :| 0 <= i < |s| && s[i] == a;
    var j :| 0 <= j < |s| && s[j] == b;
    if j < i {
      CompareToAntisymmetric(a, b);
    }
  }

  /** Every prefix of a sorted sequence is sorted. */
  lemma SortedPrefix(s: seq<Region>, k: nat)
    requires Sorted(s) && k <= |s|
    ensures Sorted(s[..k])
  {
  }

  /** Membership in the reference filter. */
  lemma {:induction false} EligibleMembers(cat: seq<Region>, entry: seq<Region>, x: int, z: int, r: Region)
    ensures r in Eligible(cat, entry, x, z) <==> r in cat && Inside(r, x, z) && !Contains(entry, r)
    decreases |cat|
  {
    if cat != [] {
      var init := cat[..|cat| - 1];
      assert cat == init + [cat[|cat| - 1]];
      EligibleMembers(init, entry, x, z, r);
    }
  }

  /** Membership in the filter on insert failures. */
  lemma {:induction false} SucceedingMembers(rs: seq<Region>, faults: set<Uuid>, r: Region)
    ensures r in Succeeding(rs, faults) <==> r in rs && r.uuid !in faults
    decreases |rs|
  {
    if rs != [] {
      var init := rs[..|rs| - 1];
      assert rs == init + [rs[|rs| - 1]];
      SucceedingMembers(init, faults, r);
    }
  }

  /**
   * A crossing keeps the player's set sorted; afterwards a region is in the
   * set (up to case) iff it was before or a notified region ties with it;
   * every call is for a catalog region, and the notified ones are the calls
   * whose insert succeeded.
   */
  lemma {:induction false} SweepEntry(entry: seq<Region>, cat: seq<Region>, x: int, z: int, faults: set<Uuid>)
    requires Sorted(entry)
    ensures var s := Sweep(entry, cat, x, z, faults);
      && Sorted(s.entry)
      && (forall q :: Contains(s.entry, q) <==> Contains(entry, q) || Contains(s.notified, q))
      && (forall r :: r in s.attempted ==> r in cat)
      && (forall r :: r in s.notified ==> r in s.attempted && r.uuid !in faults)
    decreases |cat|
  {
    if cat != [] {
      var init, r := cat[..|cat| - 1], cat[|cat| - 1];
      SweepEntry(entry, init, x, z, faults);
      var prev := Sweep(entry, init, x, z, faults);
      var s := Sweep(entry, cat, x, z, faults);
      if Inside(r, x, z) && !Contains(prev.entry, r) && r.uuid !in faults {
        InsertSorted(prev.entry, r);
        forall q ensures Contains(s.entry, q) <==> Contains(entry, q) || Contains(s.notified, q) {
          InsertContains(prev.entry, r, q);
          if Contains(prev.notified, q) {
            var n :| n in prev.notified && q.CompareTo(n) == 0;
            assert n in s.notified;
          }
          if q.CompareTo(r) == 0 {
            assert r in s.notified;
          }
          if Contains(s.notified, q) {
            var n :| n in s.notified && q.CompareTo(n) == 0;
            if n != r {
              assert n in prev.notified;
            }
          }
        }
      }
    }
  }

  /** The last element of a sorted sequence ties with none of the earlier ones. */
  lemma LastNoTies(cat: seq<Region>, n: Region)
    requires Sorted(cat) && cat != [] && n in cat[..|cat| - 1]
    ensures cat[|cat| - 1].CompareTo(n) != 0
  {
    var k :| 0 <= k < |cat| - 1 && cat[k] == n;
    assert cat[k].CompareTo(cat[|cat| - 1]) < 0;
    CompareToAntisymmetric(n, cat[|cat| - 1]);
  }

  /** The failure filter distributes over an appended element. */
  lemma SucceedingAppend(rs: seq<Region>, r: Region, faults: set<Uuid>)
    ensures Succeeding(rs + [r], faults) == Succeeding(rs, faults) + (if r.uuid in faults then [] else [r])
  {
    assert (rs + [r])[..|rs + [r]| - 1] == rs;
  }

  /**
   * A crossing calls `discover` exactly for the eligible regions, once each,
   * in catalog order, and records exactly those whose insert succeeds.
   */
  lemma {:induction false} SweepIsEligible(entry: seq<Region>, cat: seq<Region>, x: int, z: int, faults: set<Uuid>)
    requires Sorted(entry) && Sorted(cat)
    ensures Sweep(entry, cat, x, z, faults).attempted == Eligible(cat, entry, x, z)
    ensures Sweep(entry, cat, x, z, faults).notified == Succeeding(Eligible(cat, entry, x, z), faults)
    decreases |cat|
  {
    if cat != [] {
      var init, r := cat[..|cat| - 1], cat[|cat| - 1];
      SortedPrefix(cat, |cat| - 1);
      SweepIsEligible(entry, init, x, z, faults);
      SweepEntry(entry, init, x, z, faults);
      var prev := Sweep(entry, init, x, z, faults);
      assert !Contains(prev.notified, r) by {
        forall n | n in prev.notified ensures r.CompareTo(n) != 0 {
          LastNoTies(cat, n);
        }
      }
      assert Contains(prev.entry, r) == Contains(entry, r);
      var e := Eligible(init, entry, x, z);
      if Inside(r, x, z) && !Contains(entry, r) {
        SucceedingAppend(e, r, faults);
      } else {
        assert Eligible(cat, entry, x, z) == e;
      }
    }
  }

  /** No region gets two `discover` calls in one crossing. */
  lemma {:induction false} EligibleSorted(cat: seq<Region>, entry: seq<Region>, x: int, z: int)
    requires Sorted(cat)
    ensures Sorted(Eligible(cat, entry, x, z))
    decreases |cat|
  {
    if cat != [] {
      var init, r := cat[..|cat| - 1], cat[|cat| - 1];
      SortedPrefix(cat, |cat| - 1);
      EligibleSorted(init, entry, x, z);
      var e := Eligible(init, entry, x, z);
      forall n | n in e ensures n.CompareTo(r) < 0 {
        EligibleMembers(init, entry, x, z, n);
        var k :| 0 <= k < |init| && init[k] == n;
        assert cat[k].CompareTo(cat[|cat| - 1]) < 0;
      }
    }
  }

  /**
   * Discovery is idempotent: crossing again into the same cell calls
   * `discover` only for regions whose insert failed the first time, and for
   * every one of them: a failed discovery stays eligible.
   */
  lemma SweepAgain(entry: seq<Region>, cat: seq<Region>, x: int, z: int, faults: set<Uuid>, faults': set<Uuid>, r: Region)
    requires Sorted(entry) && Sorted(cat)
    ensures var s1 := Sweep(entry, cat, x, z, faults);
      r in Sweep(s1.entry, cat, x, z, faults').attempted <==> r in s1.attempted && r.uuid in faults
  {
    var s1 := Sweep(entry, cat, x, z, faults);
    SweepEntry(entry, cat, x, z, faults);
    SweepIsEligible(entry, cat, x, z, faults);
    SweepIsEligible(s1.entry, cat, x, z, faults');
    EligibleMembers(cat, entry, x, z, r);
    EligibleMembers(cat, s1.entry, x, z, r);
    SucceedingMembers(s1.attempted, faults, r);
    if r in s1.notified {
      CompareReflexive(r.name);
      assert Contains(s1.notified, r);
    }
    if r in s1.attempted && r.uuid in faults {
      assert !Contains(s1.notified, r) by {
        forall n | n in s1.notified ensures r.CompareTo(n) != 0 {
          SortedNoTies(cat, r, n);
        }
      }
    }
  }

  /** With no insert failure, a second crossing into the same cell calls `discover` for nothing. */
  lemma SweepTwiceNothing(entry: seq<Region>, cat: seq<Region>, x: int, z: int, faults': set<Uuid>)
    requires Sorted(entry) && Sorted(cat)
    ensures Sweep(Sweep(entry, cat, x, z, {}).entry, cat, x, z, faults').attempted == []
  {
    var s2 := Sweep(Sweep(entry, cat, x, z, {}).entry, cat, x, z, faults');
    if s2.attempted != [] {
      SweepAgain(entry, cat, x, z, {}, faults', s2.attempted[0]);
      assert false;
    }
  }

  /** A region already in the player's set is never recorded again. */
  lemma SweepSkipsKnown(entry: seq<Region>, cat: seq<Region>, x: int, z: int, faults: set<Uuid>, r: Region)
    requires Sorted(entry) && Sorted(cat) && Contains(entry, r)
    ensures r !in Sweep(entry, cat, x, z, faults).attempted
  {
    SweepIsEligible(entry, cat, x, z, faults);
    EligibleMembers(cat, entry, x, z, r);
  }
}
