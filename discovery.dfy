/**
 * The plugin object of Discovery.java: the `regions` catalog, the
 * `discoveredBy` cache, and the command executors and event handlers that
 * change them.  The database is a field holding the abstract store value;
 * each method takes, as parameters, whether its SQL statements throw.
 */
module DiscoveryPlugin {
  import opened Wrappers
  import opened Regions
  import opened SortedSets
  import opened Storage
  import opened DiscoveryRules

  /** Who issued a command: a player standing in a world, or the console. */
  datatype Source = PlayerSource(id: Uuid, world: Uuid) | ConsoleSource

  /** What a create, delete or rename command reports. */
  datatype Outcome = Success | NotAPlayer | TeleportOutside | NoSuchRegion | DatabaseError

  function Min(a: int, b: int): int { if b < a then b else a }
  function Max(a: int, b: int): int { if b < a then a else b }

  class Discovery {
    /** The `regions` TreeSet: every known region, sorted by `compareTo`. */
    var regions: seq<Region>
    /** The `discoveredBy` map from a player's uuid to that player's TreeSet. */
    var discoveredBy: map<Uuid, seq<Region>>
    /** The SQLite database. */
    var store: Store

    /** Both TreeSets keep their tree invariant; the regions table keeps its primary key. */
    ghost predicate Valid()
      reads this
    {
      && Sorted(regions)
      && (forall p :: p in discoveredBy ==> Sorted(discoveredBy[p]))
      && KeysUnique(store.regions)
    }

    /** The field initialisers: an empty catalog and an empty cache over an existing database. */
    constructor (st: Store)
      requires KeysUnique(st.regions)
      ensures Valid()
      ensures regions == [] && discoveredBy == map[] && store == st
    {
      regions := [];
      discoveredBy := map[];
      store := st;
    }

    /** `fetchAllRegions`: clear the catalog, then add every row read before the query ends. */
    method FetchAllRegions(read: ReadFault)
      requires Valid()
      modifies this`regions
      ensures Valid()
      ensures regions == Build(Delivered(store.regions, read))
    {
      var rows := Delivered(store.regions, read);
      regions := [];
      var i := 0;
      while i < |rows|
        invariant 0 <= i <= |rows|
        invariant regions == Build(rows[..i])
      {
        assert rows[..i + 1][..i] == rows[..i];
        regions := Insert(regions, rows[i]);
        i := i + 1;
      }
      assert rows[..|rows|] == rows;
      BuildSorted(rows);
    }

    /** `regionsFor`: the player's joined rows added to a fresh TreeSet; an empty set on SQLException. */
    method RegionsFor(key: Uuid, fault: bool) returns (entry: seq<Region>)
      ensures entry == Loaded(store, key, fault)
    {
      if fault {
        return [];
      }
      var rows := JoinRows(store, key);
      entry := [];
      var i := 0;
      while i < |rows|
        invariant 0 <= i <= |rows|
        invariant entry == Build(rows[..i])
      {
        assert rows[..i + 1][..i] == rows[..i];
        entry := Insert(entry, rows[i]);
        i := i + 1;
      }
      assert rows[..|rows|] == rows;
    }

    /** `discoveredBy.computeIfAbsent(player, this::regionsFor)`. */
    method EntryFor(player: Uuid, fault: bool) returns (entry: seq<Region>)
      requires Valid()
      modifies this`discoveredBy
      ensures Valid()
      ensures entry == CachedOrLoaded(old(discoveredBy), store, player, fault)
      ensures discoveredBy == old(discoveredBy)[player := entry]
    {
      if player in discoveredBy {
        entry := discoveredBy[player];
      } else {
        entry := RegionsFor(player, fault);
        LoadedSorted(store, player, fault);
        discoveredBy := discoveredBy[player := entry];
      }
    }

    /** The list command: a player sees their own set, the console the whole catalog. */
    method List(src: Source, fault: bool) returns (shown: seq<Region>)
      requires Valid()
      modifies this`discoveredBy
      ensures Valid()
      ensures src.ConsoleSource? ==> shown == regions && discoveredBy == old(discoveredBy)
      ensures src.PlayerSource? ==>
        shown == CachedOrLoaded(old(discoveredBy), store, src.id, fault)
        && discoveredBy == old(discoveredBy)[src.id := shown]
    {
      if src.PlayerSource? {
        shown := EntryFor(src.id, fault);
      } else {
        shown := regions;
      }
    }

    /**
     * The create command.  The corners are put in order, the teleport point
     * must lie in the box, edges included; the region then goes into the
     * catalog, and only then is the row inserted, so a failed insert leaves
     * it in the catalog.  The cache is never touched.
     */
    method Create(src: Source, uuid: Uuid, name: string, x1: int, z1: int, x2: int, z2: int,
                  tx: real, ty: real, tz: real, fault: bool) returns (outcome: Outcome)
      requires Valid()
      modifies this`regions, this`store
      ensures Valid()
      ensures discoveredBy == old(discoveredBy)
      ensures src.ConsoleSource? ==> outcome == NotAPlayer && regions == old(regions) && store == old(store)
      ensures src.PlayerSource? ==>
        var r := Region(uuid, name, src.world, Min(x1, x2), Min(z1, z2), Max(x1, x2), Max(z1, z2), tx, ty, tz, src.id);
        && (!TeleportInBox(r) ==> outcome == TeleportOutside && regions == old(regions) && store == old(store))
        && (TeleportInBox(r) ==>
              && regions == Insert(old(regions), r)
              && (Contains(old(regions), r) ==> regions == old(regions))
              && store == InsertRegion(old(store), r, fault).0
              && outcome == (if InsertRegion(old(store), r, fault).1 then Success else DatabaseError))
    {
      if src.ConsoleSource? {
        return NotAPlayer;
      }
      var lx, lz, hx, hz := x1, z1, x2, z2;
      if hx < lx {
        lx, hx := hx, lx;
      }
      if hz < lz {
        lz, hz := hz, lz;
      }
      if tx < lx as real || tx > hx as real || tz < lz as real || tz > hz as real {
        return TeleportOutside;
      }
      var r := Region(uuid, name, src.world, lx, lz, hx, hz, tx, ty, tz, src.id);
      assert r == Region(uuid, name, src.world, Min(x1, x2), Min(z1, z2), Max(x1, x2), Max(z1, z2), tx, ty, tz, src.id);
      outcome := AddRegion(r, fault);
    }

    /** The tail of create: `regions.add` first, then INSERT_REGION. */
    method AddRegion(r: Region, fault: bool) returns (outcome: Outcome)
      requires Valid()
      modifies this`regions, this`store
      ensures Valid()
      ensures regions == Insert(old(regions), r)
      ensures Contains(old(regions), r) ==> regions == old(regions)
      ensures store == InsertRegion(old(store), r, fault).0
      ensures outcome == if InsertRegion(old(store), r, fault).1 then Success else DatabaseError
    {
      InsertSorted(regions, r);
      if Contains(regions, r) {
        InsertPresent(regions, r);
      }
      regions := Insert(regions, r);
      var (st', ok) := InsertRegion(store, r, fault);
      store := st';
      outcome := if ok then Success else DatabaseError;
    }

    /**
     * The delete command, by uuid text.  Only when a row was removed is the
     * catalog reloaded and the cache cleared; the discovery rows stay.
     */
    method Delete(id: Uuid, fault: bool, read: ReadFault) returns (outcome: Outcome)
      requires Valid()
      modifies this`regions, this`discoveredBy, this`store
      ensures Valid()
      ensures fault ==>
        outcome == DatabaseError && regions == old(regions) && discoveredBy == old(discoveredBy) && store == old(store)
      ensures !fault && DeleteRegion(old(store), id).1 == 0 ==>
        outcome == NoSuchRegion && regions == old(regions) && discoveredBy == old(discoveredBy) && store == old(store)
      ensures !fault && DeleteRegion(old(store), id).1 > 0 ==>
        && outcome == Success
        && store == DeleteRegion(old(store), id).0
        && regions == Build(Delivered(store.regions, read))
        && discoveredBy == map[]
      ensures DeleteRegion(old(store), id).1 <= 1
    {
      DeleteAtMostOne(store.regions, id);
      if fault {
        return DatabaseError;
      }
      var (st', deleted) := DeleteRegion(store, id);
      if deleted > 0 {
        DeleteKeepsKeys(store.regions, id);
        store := st';
        FetchAllRegions(read);
        discoveredBy := map[];
        outcome := Success;
      } else {
        DeleteNothing(store.regions, id);
        outcome := NoSuchRegion;
      }
    }

    /**
     * The rename command.  The first catalog region, in sorted order, whose
     * name is exactly `from` has its row rewritten with name `to` and its
     * other fields as the catalog has them; however many rows that updates,
     * the catalog is then reloaded and the cache cleared.
     */
    method Rename(from: string, to: string, fault: bool, read: ReadFault) returns (outcome: Outcome)
      requires Valid()
      modifies this`regions, this`discoveredBy, this`store
      ensures Valid()
      ensures FirstNamed(old(regions), from).None? ==>
        outcome == NoSuchRegion && regions == old(regions) && discoveredBy == old(discoveredBy) && store == old(store)
      ensures FirstNamed(old(regions), from).Some? && fault ==>
        outcome == DatabaseError && regions == old(regions) && discoveredBy == old(discoveredBy) && store == old(store)
      ensures FirstNamed(old(regions), from).Some? && !fault ==>
        && outcome == Success
        && store == UpdateRegion(old(store), FirstNamed(old(regions), from).value.(name := to))
        && regions == Build(Delivered(store.regions, read))
        && discoveredBy == map[]
    {
      var found := FirstNamed(regions, from);
      if found.None? {
        return NoSuchRegion;
      }
      var region := found.value;
      if fault {
        return DatabaseError;
      }
      UpdateKeepsKeys(store, region.(name := to));
      store := UpdateRegion(store, region.(name := to));
      FetchAllRegions(read);
      discoveredBy := map[];
      outcome := Success;
    }

    /** The reload command (and the start-up load): reload the catalog, clear the cache, report the size. */
    method Reload(read: ReadFault) returns (n: nat)
      requires Valid()
      modifies this`regions, this`discoveredBy
      ensures Valid()
      ensures regions == Build(Delivered(store.regions, read))
      ensures discoveredBy == map[]
      ensures n == |regions|
    {
      FetchAllRegions(read);
      discoveredBy := map[];
      n := |regions|;
    }

    /**
     * The travel command: look the destination up, by exact name, in the
     * player's set (loading it if absent), then check that its world is
     * loaded.  Teleporting itself is left to the host.
     */
    method Travel(src: Source, destination: string, fault: bool, worlds: set<Uuid>) returns (res: TravelResult)
      requires Valid()
      modifies this`discoveredBy
      ensures Valid()
      ensures src.ConsoleSource? ==> res == TravelNotAPlayer && discoveredBy == old(discoveredBy)
      ensures src.PlayerSource? ==>
        var entry := CachedOrLoaded(old(discoveredBy), store, src.id, fault);
        discoveredBy == old(discoveredBy)[src.id := entry] && res == Resolve(entry, destination, worlds)
    {
      if src.ConsoleSource? {
        return TravelNotAPlayer;
      }
      var entry := EntryFor(src.id, fault);
      var found := FirstNamed(entry, destination);
      if found.None? {
        return NotDiscovered;
      }
      var region := found.value;
      if region.worldUuid !in worlds {
        return UnknownWorld;
      }
      res := Teleported(region.worldUuid, region.teleportX, region.teleportY, region.teleportZ);
    }

    /**
     * `discover`: insert the discovery row; if that throws, do nothing more.
     * Otherwise the player is notified and the region is added to the
     * player's cached set; no other player's set changes.
     */
    method Discover(player: Uuid, region: Region, fault: bool) returns (ok: bool)
      requires Valid() && player in discoveredBy
      modifies this`discoveredBy, this`store
      ensures Valid()
      ensures ok == !fault
      ensures ok ==>
        && store == InsertDiscovery(old(store), player, region.uuid)
        && discoveredBy == old(discoveredBy)[player := Insert(old(discoveredBy)[player], region)]
      ensures !ok ==> store == old(store) && discoveredBy == old(discoveredBy)
    {
      if fault {
        return false;
      }
      store := InsertDiscovery(store, player, region.uuid);
      var updated := discoveredBy[player];
      InsertSorted(updated, region);
      updated := Insert(updated, region);
      discoveredBy := discoveredBy[player := updated];
      ok := true;
    }

    /** One element of the `onMove` stream: the filter, then `discover` if it lets the region through. */
    method Visit(player: Uuid, r: Region, x: int, z: int, insertFaults: set<Uuid>) returns (called: bool, ok: bool)
      requires Valid() && player in discoveredBy
      modifies this`discoveredBy, this`store
      ensures Valid() && player in discoveredBy
      ensures called == (Inside(r, x, z) && !Contains(old(discoveredBy)[player], r))
      ensures ok == (called && r.uuid !in insertFaults)
      ensures store == if ok then InsertDiscovery(old(store), player, r.uuid) else old(store)
      ensures discoveredBy == old(discoveredBy)[player := if ok then Insert(old(discoveredBy)[player], r) else old(discoveredBy)[player]]
    {
      called, ok := false, false;
      if Inside(r, x, z) && !Contains(discoveredBy[player], r) {
        called := true;
        ok := Discover(player, r, r.uuid in insertFaults);
      }
    }

    /**
     * The stream of `onMove` on a crossing: each catalog region containing
     * the cell and absent from the player's set, as the set stands when the
     * region is reached, gets one `discover` call, in catalog order.
     */
    method DiscoverAll(player: Uuid, x: int, z: int, insertFaults: set<Uuid>)
      returns (attempted: seq<Region>, notified: seq<Region>)
      requires Valid() && player in discoveredBy
      modifies this`discoveredBy, this`store
      ensures Valid()
      ensures var s := Sweep(old(discoveredBy)[player], regions, x, z, insertFaults);
        && attempted == s.attempted && notified == s.notified
        && discoveredBy == old(discoveredBy)[player := s.entry]
        && store == old(store).(discoveries := old(store).discoveries + Records(player, notified))
    {
      var cat := regions;
      ghost var m0, st0 := discoveredBy, store;
      ghost var e0 := discoveredBy[player];
      assert cat[..0] == [];
      ghost var s := Sweep(e0, cat[..0], x, z, insertFaults);
      attempted, notified := [], [];
      var i := 0;
      while i < |cat|
        invariant 0 <= i <= |cat|
        invariant Valid() && player in discoveredBy && regions == cat
        invariant s == Sweep(e0, cat[..i], x, z, insertFaults)
        invariant discoveredBy == m0[player := s.entry]
        invariant attempted == s.attempted && notified == s.notified
        invariant store == st0.(discoveries := st0.discoveries + Records(player, notified))
      {
        var r := cat[i];
        var called, ok := Visit(player, r, x, z, insertFaults);
        ghost var entry := if ok then Insert(s.entry, r) else s.entry;
        UpdateTwice(m0, player, s.entry, entry);
        SweepStep(e0, cat, i, x, z, insertFaults, called, ok);
        RecordsStep(st0, player, notified, r, ok);
        attempted := if called then attempted + [r] else attempted;
        notified := if ok then notified + [r] else notified;
        s := SweepState(entry, attempted, notified);
        assert s == Sweep(e0, cat[..i + 1], x, z, insertFaults);
        i := i + 1;
      }
      assert cat[..|cat|] == cat;
    }

    /**
     * `onMove`, with positions already floored to cells.  The player's set is
     * always ensured; the catalog is scanned only if the cell changed on
     * some axis.  Returns the regions that got a `discover` call and the ones
     * that were notified.
     */
    method OnMove(player: Uuid, fromX: int, fromZ: int, toX: int, toZ: int, loadFault: bool, insertFaults: set<Uuid>)
      returns (attempted: seq<Region>, notified: seq<Region>)
      requires Valid()
      modifies this`discoveredBy, this`store
      ensures Valid()
      ensures var e0 := CachedOrLoaded(old(discoveredBy), old(store), player, loadFault);
        if fromX == toX && fromZ == toZ then
          && attempted == [] && notified == []
          && discoveredBy == old(discoveredBy)[player := e0]
          && store == old(store)
        else
          var s := Sweep(e0, regions, toX, toZ, insertFaults);
          && attempted == s.attempted && notified == s.notified
          && discoveredBy == old(discoveredBy)[player := s.entry]
          && store == old(store).(discoveries := old(store).discoveries + Records(player, notified))
    {
      var e0 := EntryFor(player, loadFault);
      attempted, notified := [], [];
      if fromX != toX || fromZ != toZ {
        attempted, notified := DiscoverAll(player, toX, toZ, insertFaults);
      }
    }
  }

  /** A second update of the same key overrides the first. */
  lemma UpdateTwice<K, V>(m: map<K, V>, k: K, a: V, b: V)
    ensures m[k := a][k := b] == m[k := b]
  {
  }

  /** Region "Camp" spans (0,0)-(20,20) in world "W", teleport target (10, 64, 10). */
  function Camp(): Region {
    Region("c-1", "Camp", "W", 0, 0, 20, 20, 10.0, 64.0, 10.0, "admin")
  }

  /**
   * A client of the specifications above: with "Camp" stored, a player walks
   * into (5,5), discovers it once, can travel to it but not to "Unknown", and
   * a further step inside discovers nothing.
   */
  method CampScenario()
  {
    var d := CampReloaded();
    CampArrive(d);
    CampRevisit(d);
    CampTravel(d);
  }

  /** A plugin over a database holding only "Camp", after `reload`. */
  method CampReloaded() returns (d: Discovery)
    ensures fresh(d) && d.Valid()
    ensures d.regions == [Camp()] && d.discoveredBy == map[] && d.store == Store([Camp()], [])
  {
    var st := Store([Camp()], []);
    d := new Discovery(st);
    assert Build([Camp()]) == Insert(Build([]), Camp()) == [Camp()];
    var n := d.Reload(Complete);
    assert n == 1;
  }

  /** The first crossing into (5,5) discovers "Camp" and records one row. */
  method CampArrive(d: Discovery)
    requires d.Valid()
    requires d.regions == [Camp()] && d.discoveredBy == map[] && d.store == Store([Camp()], [])
    modifies d
    ensures d.Valid() && d.regions == [Camp()] && d.discoveredBy == map["p-1" := [Camp()]]
    ensures d.store.discoveries == [("p-1", "c-1")]
  {
    assert JoinRows(d.store, "p-1") == [];
    assert CachedOrLoaded(map[], d.store, "p-1", false) == [];
    assert Sweep([], [Camp()], 5, 5, {}) == SweepState([Camp()], [Camp()], [Camp()]) by {
      SweepUnfold([], [Camp()], 0, 5, 5, {});
      assert [Camp()][..0] == [] && [Camp()][..1] == [Camp()];
    }
    var attempted, notified := d.OnMove("p-1", -1, -1, 5, 5, false, {});
    assert attempted == [Camp()] && notified == [Camp()];
    assert Records("p-1", [Camp()]) == [("p-1", "c-1")];
  }

  /** Travel to "Camp" once it is discovered, and to a name never discovered. */
  method CampTravel(d: Discovery)
    requires d.Valid() && d.discoveredBy == map["p-1" := [Camp()]]
    modifies d
  {
    var there := d.Travel(PlayerSource("p-1", "W"), "Camp", false, {"W"});
    assert there == Teleported("W", 10.0, 64.0, 10.0);
    var nowhere := d.Travel(PlayerSource("p-1", "W"), "Unknown", false, {"W"});
    assert nowhere == NotDiscovered;
    var lost := d.Travel(PlayerSource("p-1", "W"), "Camp", false, {});
    assert lost == UnknownWorld;
  }

  /** Crossing another block inside "Camp" records nothing more. */
  method CampRevisit(d: Discovery)
    requires d.Valid() && d.regions == [Camp()] && d.discoveredBy == map["p-1" := [Camp()]]
    modifies d
    ensures d.Valid() && d.discoveredBy == map["p-1" := [Camp()]]
  {
    var c := Camp();
    CompareReflexive(c.name);
    assert c in [c] && c.CompareTo(c) == 0;
    assert Contains([Camp()], Camp());
    assert Sweep([Camp()], [Camp()], 6, 5, {}).attempted == [] by {
      SweepUnfold([Camp()], [Camp()], 0, 6, 5, {});
      assert [Camp()][..0] == [] && [Camp()][..1] == [Camp()];
    }
    ghost var before := d.store;
    var attempted, notified := d.OnMove("p-1", 5, 5, 6, 5, false, {});
    assert attempted == [] && notified == [];
    assert d.store == before;
  }

  /** The create examples: a teleport point off the box is refused, reversed corners are put in order. */
  method CreateScenario()
  {
    var d := new Discovery(Store([], []));
    var refused := d.Create(PlayerSource("p-1", "W"), "x-1", "X", 0, 0, 10, 10, 11.0, 0.0, 5.0, false);
    assert refused == TeleportOutside && d.regions == [] && d.store == Store([], []);
    var made := d.Create(PlayerSource("p-1", "W"), "x-1", "X", 10, 10, 0, 0, 5.0, 0.0, 5.0, false);
    assert made == Success;
    assert d.store.regions == [Region("x-1", "X", "W", 0, 0, 10, 10, 5.0, 0.0, 5.0, "p-1")];
  }
}
