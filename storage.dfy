/**
 * The SQLite database behind the plugin, as an abstract value: the rows of the
 * `regions` table in table order, and the rows of the append-only
 * `discovered_regions` table.  Each SQL statement the plugin issues is a pure
 * function on that value; whether a statement throws SQLException is decided
 * by the caller, so every failure path can be modelled.
 */
module Storage {
  import opened Regions

  /** One `discovered_regions` row: (player_uuid, region_uuid). */
  type DiscoveryRow = (Uuid, Uuid)

  datatype Store = Store(regions: seq<Region>, discoveries: seq<DiscoveryRow>)

  /** `uuid` is the primary key of `regions`. */
  predicate KeysUnique(rows: seq<Region>) {
    forall i, j :: 0 <= i < j < |rows| ==> rows[i].uuid != rows[j].uuid
  }

  predicate HasKey(rows: seq<Region>, id: Uuid) {
    exists x :: x in rows && x.uuid == id
  }

  /**
   * INSERT_REGION.  It fails on an I/O fault or on a primary-key clash;
   * otherwise the row is appended.
   */
  function InsertRegion(st: Store, r: Region, fault: bool): (res: (Store, bool))
    ensures res.1 <==> !fault && !HasKey(st.regions, r.uuid)
    ensures res.1 ==> res.0.regions == st.regions + [r] && res.0.discoveries == st.discoveries
    ensures !res.1 ==> res.0 == st
    ensures KeysUnique(st.regions) ==> KeysUnique(res.0.regions)
  {
    if fault || HasKey(st.regions, r.uuid) then (st, false)
    else (st.(regions := st.regions + [r]), true)
  }

  /** The rows whose uuid is `id`. */
  function RowsWithKey(rows: seq<Region>, id: Uuid): (t: seq<Region>)
    ensures forall x :: x in t <==> x in rows && x.uuid == id
  {
    if rows == [] then []
    else (if rows[0].uuid == id then [rows[0]] else []) + RowsWithKey(rows[1..], id)
  }

  /** The rows whose uuid is not `id`, in table order. */
  function RowsWithoutKey(rows: seq<Region>, id: Uuid): (t: seq<Region>)
    ensures forall x :: x in t <==> x in rows && x.uuid != id
    ensures |t| <= |rows|
  {
    if rows == [] then []
    else (if rows[0].uuid == id then [] else [rows[0]]) + RowsWithoutKey(rows[1..], id)
  }

  /**
   * DELETE_REGION: removes every row whose uuid is `id`, and reports how many
   * rows it removed (executeUpdate's count).
   */
  function DeleteRegion(st: Store, id: Uuid): (res: (Store, nat))
    ensures res.0.regions == RowsWithoutKey(st.regions, id)
    ensures res.0.discoveries == st.discoveries
    ensures res.1 == |st.regions| - |RowsWithoutKey(st.regions, id)|
  {
    var kept := RowsWithoutKey(st.regions, id);
    (st.(regions := kept), |st.regions| - |kept|)
  }

  /** UPDATE_REGION for the row of `r.uuid`: every other column takes `r`'s value. */
  function UpdateRegion(st: Store, r: Region): (st': Store)
    ensures |st'.regions| == |st.regions| && st'.discoveries == st.discoveries
    ensures forall i :: 0 <= i < |st.regions| && st.regions[i].uuid == r.uuid ==> st'.regions[i] == r
    ensures forall i :: 0 <= i < |st.regions| && st.regions[i].uuid != r.uuid ==> st'.regions[i] == st.regions[i]
  {
    st.(regions := seq(|st.regions|, i requires 0 <= i < |st.regions| =>
      if st.regions[i].uuid == r.uuid then r else st.regions[i]))
  }

  /** DISCOVER_REGION: appends one row; duplicates are not checked. */
  function InsertDiscovery(st: Store, player: Uuid, region: Uuid): (st': Store)
    ensures st'.regions == st.regions
    ensures st'.discoveries == st.discoveries + [(player, region)]
  {
    st.(discoveries := st.discoveries + [(player, region)])
  }

  /**
   * REGIONS_DISCOVERED_BY: the inner join of `discovered_regions` and
   * `regions` on the region uuid, for one player: for each of the player's
   * discovery rows, the region rows it joins with.
   */
  function Join(rows: seq<Region>, discoveries: seq<DiscoveryRow>, player: Uuid): seq<Region>
    decreases |discoveries|
  {
    if discoveries == [] then []
    else
      (if discoveries[0].0 == player then RowsWithKey(rows, discoveries[0].1) else [])
      + Join(rows, discoveries[1..], player)
  }

  function JoinRows(st: Store, player: Uuid): seq<Region> {
    Join(st.regions, st.discoveries, player)
  }

  /** Removing a key under the primary-key constraint removes at most one row. */
  lemma {:induction false} DeleteAtMostOne(rows: seq<Region>, id: Uuid)
    requires KeysUnique(rows)
    ensures |rows| - |RowsWithoutKey(rows, id)| <= 1
    ensures |rows| - |RowsWithoutKey(rows, id)| == 0 <==> !HasKey(rows, id)
  {
    if rows != [] {
      assert KeysUnique(rows[1..]);
      DeleteAtMostOne(rows[1..], id);
      if rows[0].uuid == id {
        assert !HasKey(rows[1..], id) by {
          forall x | x in rows[1..] ensures x.uuid != id {
            var k :| 0 <= k < |rows[1..]| && rows[1..][k] == x;
            assert rows[k + 1] == x;
          }
        }
      }
      if HasKey(rows, id) && rows[0].uuid != id {
        var x :| x in rows && x.uuid == id;
        assert x in rows[1..];
      }
    }
  }

  /** A delete that removes nothing leaves the table as it was. */
  lemma {:induction false} DeleteNothing(rows: seq<Region>, id: Uuid)
    requires |RowsWithoutKey(rows, id)| == |rows|
    ensures RowsWithoutKey(rows, id) == rows
  {
    if rows != [] {
      DeleteNothing(rows[1..], id);
      assert rows == [rows[0]] + rows[1..];
    }
  }

  /** Deleting keeps the primary-key constraint. */
  lemma {:induction false} DeleteKeepsKeys(rows: seq<Region>, id: Uuid)
    requires KeysUnique(rows)
    ensures KeysUnique(RowsWithoutKey(rows, id))
  {
    if rows != [] {
      assert KeysUnique(rows[1..]);
      DeleteKeepsKeys(rows[1..], id);
      var t := RowsWithoutKey(rows, id);
      if rows[0].uuid != id {
        var u := RowsWithoutKey(rows[1..], id);
        assert t == [rows[0]] + u;
        forall j | 0 < j < |t| ensures t[0].uuid != t[j].uuid {
          assert t[j] in u;
          var k :| 0 <= k < |rows[1..]| && rows[1..][k] == t[j];
          assert rows[k + 1] == t[j];
        }
      }
    }
  }

  /** Updating by uuid keeps every key where it was, so the constraint holds. */
  lemma UpdateKeepsKeys(st: Store, r: Region)
    requires KeysUnique(st.regions)
    ensures KeysUnique(UpdateRegion(st, r).regions)
    ensures forall i :: 0 <= i < |st.regions| ==> UpdateRegion(st, r).regions[i].uuid == st.regions[i].uuid
  {
  }

  /** The join yields exactly the stored regions the player has a discovery row for. */
  lemma {:induction false} JoinMembers(rows: seq<Region>, discoveries: seq<DiscoveryRow>, player: Uuid, x: Region)
    ensures x in Join(rows, discoveries, player) <==> x in rows && (player, x.uuid) in discoveries
    decreases |discoveries|
  {
    if discoveries != [] {
      JoinMembers(rows, discoveries[1..], player, x);
      assert discoveries == [discoveries[0]] + discoveries[1..];
    }
  }
}
