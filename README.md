# Discovery: region catalog and discovery index

A model of the core of the Sponge plugin *Discovery*. Players discover named
rectangular regions by walking into them. Later they can travel by name to any
region they have discovered. The model covers these parts:

- the immutable `Region` value. Its `equals` compares uuids. Its `compareTo`
  compares names ignoring letter case (`regions.dfy`, module `Regions`);
- the `TreeSet<Region>` ordered by `compareTo`. It is a strictly sorted
  sequence whose `add` uses the comparator to decide membership
  (`sorted_sets.dfy`, module `SortedSets`);
- the SQLite database, as an abstract value. It holds the `regions` table and
  the append-only `discovered_regions` table. Each statement the plugin issues
  is one pure function, and the caller decides whether the statement throws
  (`storage.dfy`, module `Storage`);
- the expression-level rules: the containment test `inside`, the first-match
  lookups of rename and travel, what `regionsFor` loads, and a reference
  specification of one block crossing in `onMove` (`discovery_rules.dfy`,
  module `DiscoveryRules`);
- the plugin object itself. It is a class holding the `regions` catalog, the
  `discoveredBy` cache and the database. It has one method per command
  executor (list, create, delete, rename, reload, travel) and per event step
  (`onMove`, `discover`, `regionsFor`, `fetchAllRegions`). The last two loop
  over result rows (`discovery.dfy`, module `DiscoveryPlugin`).

Each store failure is a parameter:
- `fault: bool` says whether one write, or the `regionsFor` query, throws;
- `ReadFault` (`Complete` or `FailsAfter(n)`) says how `SELECT * FROM regions`
  ended. The catalog is cleared first, so a failure part-way leaves a prefix;
- `insertFaults` holds the region uuids whose discovery insert throws during
  one crossing.

On these points the model follows the code, whose behaviour may surprise a
reader:
- create adds the region to the catalog *before* the insert, so a failed
  insert leaves it in the catalog;
- set membership and de-duplication use the comparator, not the uuid, so two
  regions whose names are equal ignoring case are the same element;
- rename ignores the number of rows its update changed;
- a failing `regionsFor` caches an empty set for the player.

## Model

| member | source | states |
|---|---|---|
| `Regions.GettersReturnArguments` | src/main/java/net/phroa/sponge/discovery/Region.java:28-97 | every getter returns exactly the value given to the constructor |
| `Regions.Fold` | src/main/java/net/phroa/sponge/discovery/Region.java:105-107 | the per-character fold maps an upper-case ASCII letter to its lower-case letter and leaves every other character alone |
| `Regions.FoldAll` | src/main/java/net/phroa/sponge/discovery/Region.java:105-107 | folding a name keeps its length and folds each character in place |
| `Regions.CompareAntisymmetric` | src/main/java/net/phroa/sponge/discovery/Region.java:105-107 | swapping the two names negates the case-insensitive comparison |
| `Regions.CompareZeroIff` | src/main/java/net/phroa/sponge/discovery/Region.java:105-107 | two names compare 0 exactly when they agree after case folding |
| `Regions.CompareTransitive` | src/main/java/net/phroa/sponge/discovery/Region.java:105-107 | the comparison is transitive, and strict as soon as one step is strict |
| `Regions.CompareReflexive` | src/main/java/net/phroa/sponge/discovery/Region.java:105-107 | every name compares 0 with itself |
| `Regions.CompareToAntisymmetric` | src/main/java/net/phroa/sponge/discovery/Region.java:105-108 | `compareTo` negates under swapping its arguments |
| `Regions.CompareToTransitive` | src/main/java/net/phroa/sponge/discovery/Region.java:105-108 | `compareTo` is transitive, so it is a total preorder on regions |
| `Regions.CompareToZeroTransitive` | src/main/java/net/phroa/sponge/discovery/Region.java:105-108 | comparing 0 is an equivalence: two regions that tie with a third tie with each other |
| `Regions.CompareToOnlyNames` | src/main/java/net/phroa/sponge/discovery/Region.java:105-108 | `compareTo` depends on the names alone, not on uuid, world, bounds or teleport fields |
| `Regions.AlphaBetaOrder` | src/main/java/net/phroa/sponge/discovery/Region.java:105-107 | "Alpha" and "alpha" compare 0, and both come before "Beta" |
| `Regions.EqualsByUuid` | src/main/java/net/phroa/sponge/discovery/Region.java:99-102 | `equals(o)` holds iff `o` is a non-null Region with the same uuid |
| `Regions.EqualsIgnoresFields` | src/main/java/net/phroa/sponge/discovery/Region.java:100-102 | `equals` gives the same answer for any two arguments with the same uuid, whatever their other fields |
| `Regions.EqualsIsEquivalence` | src/main/java/net/phroa/sponge/discovery/Region.java:100-102 | `equals` on regions is reflexive, symmetric and transitive |
| `Regions.OrderInconsistentWithEquals` | src/main/java/net/phroa/sponge/discovery/Region.java:100-108 | regions with different uuids and names equal ignoring case compare 0 but are not `equals` |
| `SortedSets.Insert` | src/main/java/net/phroa/sponge/discovery/Discovery.java:287 | `TreeSet.add` adds no element other than the new one, grows the set by at most one, and leaves the new element present or a tying element already there |
| `SortedSets.InsertSorted` | src/main/java/net/phroa/sponge/discovery/Discovery.java:154 | adding keeps the set strictly sorted by `compareTo` |
| `SortedSets.InsertAbsent` | src/main/java/net/phroa/sponge/discovery/Discovery.java:287 | adding a region that ties with no element adds exactly that region |
| `SortedSets.InsertPresent` | src/main/java/net/phroa/sponge/discovery/Discovery.java:287 | adding a region whose name equals an element's name ignoring case changes nothing, whatever its uuid |
| `SortedSets.InsertContains` | src/main/java/net/phroa/sponge/discovery/Discovery.java:498 | after an add, a region is contained iff it was contained before or it ties with the added region |
| `SortedSets.BuildSorted` | src/main/java/net/phroa/sponge/discovery/Discovery.java:543-566 | a set filled row by row from an empty TreeSet is strictly sorted |
| `SortedSets.BuildElements` | src/main/java/net/phroa/sponge/discovery/Discovery.java:549-562 | every element of a filled set is one of the rows read |
| `SortedSets.BuildContains` | src/main/java/net/phroa/sponge/discovery/Discovery.java:549-562 | a filled set contains a region, by comparator, iff some row does |
| `SortedSets.BuildFirstWins` | src/main/java/net/phroa/sponge/discovery/Discovery.java:549-562 | among rows whose names are equal ignoring case, the first one read is the one kept |
| `SortedSets.BuildDistinct` | src/main/java/net/phroa/sponge/discovery/Discovery.java:549-562 | when no two rows tie by name, the filled set holds exactly the rows, as a multiset |
| `Storage.InsertRegion` | src/main/java/net/phroa/sponge/discovery/Discovery.java:289-306 | the insert succeeds iff there is no fault and no row with that uuid; on success it appends the row, on failure it changes nothing, and it keeps the primary key unique |
| `Storage.RowsWithKey` | src/main/java/net/phroa/sponge/discovery/Discovery.java:147-149 | the rows the join selects for one region uuid are exactly the stored rows with that uuid |
| `Storage.RowsWithoutKey` | src/main/java/net/phroa/sponge/discovery/Discovery.java:133-134 | the rows a delete keeps are exactly the rows with another uuid, and there are no more of them than before |
| `Storage.DeleteRegion` | src/main/java/net/phroa/sponge/discovery/Discovery.java:327-330 | the delete removes the rows with the given uuid, leaves the discovery rows alone, and reports how many rows it removed |
| `Storage.UpdateRegion` | src/main/java/net/phroa/sponge/discovery/Discovery.java:364-378 | the row with the region's uuid takes all of the new values, every other row is unchanged, and the discovery rows are untouched |
| `Storage.InsertDiscovery` | src/main/java/net/phroa/sponge/discovery/Discovery.java:477-481 | a discovery appends one (player, region) row without a duplicate check, and the regions table is untouched |
| `Storage.DeleteAtMostOne` | src/main/java/net/phroa/sponge/discovery/Discovery.java:130-134 | under the primary key, a delete removes at most one row, and removes none iff no row has that uuid |
| `Storage.DeleteNothing` | src/main/java/net/phroa/sponge/discovery/Discovery.java:335-343 | a delete that removed no row left the table exactly as it was |
| `Storage.DeleteKeepsKeys` | src/main/java/net/phroa/sponge/discovery/Discovery.java:133-134 | deleting keeps the primary key unique |
| `Storage.UpdateKeepsKeys` | src/main/java/net/phroa/sponge/discovery/Discovery.java:116-128 | updating by uuid keeps every row's uuid, so the primary key stays unique |
| `Storage.JoinMembers` | src/main/java/net/phroa/sponge/discovery/Discovery.java:147-149 | the inner join yields a region iff it is stored and the player has a discovery row for its uuid |
| `DiscoveryRules.Delivered` | src/main/java/net/phroa/sponge/discovery/Discovery.java:546-565 | the rows read before the query ends are a prefix of the table: all of it when the read completes, exactly `n` rows when it fails after `n` |
| `DiscoveryRules.FirstNamed` | src/main/java/net/phroa/sponge/discovery/Discovery.java:355-357 | the lookup is empty iff no region has exactly that name; otherwise it is the region at the first position with that name |
| `DiscoveryRules.Resolve` | src/main/java/net/phroa/sponge/discovery/Discovery.java:423-439 | travel fails "not discovered" iff no region in the entry has exactly that name; otherwise it uses the first match, fails "unknown world" iff its world is absent, and else gives that region's world and teleport point |
| `DiscoveryRules.Records` | src/main/java/net/phroa/sponge/discovery/Discovery.java:477-481 | the rows one player's successful discoveries append are (player, region uuid), one per region, in order |
| `DiscoveryRules.SweepUnfold` | src/main/java/net/phroa/sponge/discovery/Discovery.java:469-471 | one more catalog region in the stream is filtered against the entry as it stands, then discovered or skipped |
| `DiscoveryRules.SweepStep` | src/main/java/net/phroa/sponge/discovery/Discovery.java:469-471 | the stream's step for one region, in terms of one filter result and one insert outcome |
| `DiscoveryRules.RecordsStep` | src/main/java/net/phroa/sponge/discovery/Discovery.java:477-485 | a successful insert appends that region's row, and a failed one changes nothing |
| `DiscoveryRules.InsideExcludesBoundary` | src/main/java/net/phroa/sponge/discovery/Discovery.java:503-508 | a cell on any edge of the box is never inside |
| `DiscoveryRules.InsideIgnoresWorld` | src/main/java/net/phroa/sponge/discovery/Discovery.java:503-508 | containment does not depend on the region's world |
| `DiscoveryRules.NarrowBoxIsEmpty` | src/main/java/net/phroa/sponge/discovery/Discovery.java:503-508 | a box less than two cells wide on either axis contains no cell |
| `DiscoveryRules.InsideExamples` | src/main/java/net/phroa/sponge/discovery/Discovery.java:503-508 | for the box (0,0)-(10,10), the cells (0,5), (10,5), (5,0) and (5,10) are outside and (5,5) is inside |
| `DiscoveryRules.FirstNamedPrefix` | src/main/java/net/phroa/sponge/discovery/Discovery.java:355-357 | regions after the first match do not affect the lookup |
| `DiscoveryRules.LoadedSorted` | src/main/java/net/phroa/sponge/discovery/Discovery.java:510-538 | what `regionsFor` returns is a strictly sorted set, also on failure |
| `DiscoveryRules.LoadedMembers` | src/main/java/net/phroa/sponge/discovery/Discovery.java:510-538 | a freshly loaded entry holds only stored regions the player has a discovery row for, and covers, by comparator, every such region |
| `DiscoveryRules.DeletedNeverReloaded` | src/main/java/net/phroa/sponge/discovery/Discovery.java:325-343 | after a delete the discovery rows remain, yet neither the reloaded catalog nor any entry loaded later holds the deleted uuid |
| `DiscoveryRules.RenameReflected` | src/main/java/net/phroa/sponge/discovery/Discovery.java:364-385 | after a rename's update, every reloaded region with that uuid, in the catalog or in a later entry, is the renamed region |
| `DiscoveryRules.RenameReloadsRenamed` | src/main/java/net/phroa/sponge/discovery/Discovery.java:364-384 | when the row exists and no names tie, the renamed region is in the reloaded catalog |
| `DiscoveryRules.RenameWithoutRow` | src/main/java/net/phroa/sponge/discovery/Discovery.java:364-384 | renaming a catalog region with no row (its insert failed) updates nothing, and the reload that follows drops it from the catalog |
| `DiscoveryRules.EligibleMembers` | src/main/java/net/phroa/sponge/discovery/Discovery.java:469-470 | a region passes the filter iff it is in the catalog, contains the cell, and is not in the entry by comparator |
| `DiscoveryRules.SucceedingMembers` | src/main/java/net/phroa/sponge/discovery/Discovery.java:477-485 | a region is recorded iff its discover call's insert does not throw |
| `DiscoveryRules.SweepEntry` | src/main/java/net/phroa/sponge/discovery/Discovery.java:464-500 | a crossing keeps the entry sorted; afterwards a region is in it iff it was before or ties with a notified region; every call is for a catalog region; the notified regions are the calls whose insert succeeded |
| `DiscoveryRules.SweepIsEligible` | src/main/java/net/phroa/sponge/discovery/Discovery.java:467-500 | a crossing calls `discover` exactly for the eligible regions, in catalog order, and records exactly those whose insert succeeds |
| `DiscoveryRules.EligibleSorted` | src/main/java/net/phroa/sponge/discovery/Discovery.java:469-471 | the eligible regions are strictly sorted, so no region gets two calls in one crossing |
| `DiscoveryRules.SweepAgain` | src/main/java/net/phroa/sponge/discovery/Discovery.java:464-485 | a second crossing into the same cell calls `discover` exactly for the regions whose insert failed the first time |
| `DiscoveryRules.SweepTwiceNothing` | src/main/java/net/phroa/sponge/discovery/Discovery.java:467-471 | with no insert failure, a second crossing into the same cell calls `discover` for nothing |
| `DiscoveryRules.SweepSkipsKnown` | src/main/java/net/phroa/sponge/discovery/Discovery.java:470 | a region already in the entry, by comparator, never gets a `discover` call |
| `DiscoveryPlugin.Discovery.constructor` | src/main/java/net/phroa/sponge/discovery/Discovery.java:154-161 | the plugin starts with an empty catalog and an empty cache over the given database |
| `DiscoveryPlugin.Discovery.FetchAllRegions` | src/main/java/net/phroa/sponge/discovery/Discovery.java:543-566 | the catalog becomes the set filled from the rows read before the query ended, and it stays sorted |
| `DiscoveryPlugin.Discovery.RegionsFor` | src/main/java/net/phroa/sponge/discovery/Discovery.java:510-538 | the result is the set filled from the player's joined rows, or an empty set when the query throws |
| `DiscoveryPlugin.Discovery.EntryFor` | src/main/java/net/phroa/sponge/discovery/Discovery.java:464 | the cached entry if there is one, else a fresh load that is then cached; no other player's entry changes |
| `DiscoveryPlugin.Discovery.List` | src/main/java/net/phroa/sponge/discovery/Discovery.java:207-240 | a player sees their own entry, loading it if absent; the console sees the whole catalog and nothing changes |
| `DiscoveryPlugin.Discovery.Create` | src/main/java/net/phroa/sponge/discovery/Discovery.java:255-313 | corners are put in order; a teleport point outside the box, edges allowed, changes nothing; otherwise the catalog gets the normalised region (a no-op on a name tie), then the insert runs, and the cache is never touched |
| `DiscoveryPlugin.Discovery.AddRegion` | src/main/java/net/phroa/sponge/discovery/Discovery.java:287-306 | the region goes into the catalog before the insert, and stays there when the insert fails |
| `DiscoveryPlugin.Discovery.Delete` | src/main/java/net/phroa/sponge/discovery/Discovery.java:320-344 | a failure or a delete of zero rows changes nothing in memory; a removed row reloads the catalog and clears the cache; at most one row goes |
| `DiscoveryPlugin.Discovery.Rename` | src/main/java/net/phroa/sponge/discovery/Discovery.java:351-388 | no exact-name match changes nothing; a failed update neither reloads nor clears; otherwise the row of the first match gets the new name and its other fields from the catalog, the catalog is reloaded and the cache cleared |
| `DiscoveryPlugin.Discovery.Reload` | src/main/java/net/phroa/sponge/discovery/Discovery.java:394-402 | the catalog is reloaded, the cache is emptied, and the count is the new catalog size |
| `DiscoveryPlugin.Discovery.Travel` | src/main/java/net/phroa/sponge/discovery/Discovery.java:417-449 | the player's entry is loaded once and cached, and the result is the first exact-name match's teleport target, "not discovered" or "unknown world"; the console is refused |
| `DiscoveryPlugin.Discovery.Discover` | src/main/java/net/phroa/sponge/discovery/Discovery.java:475-501 | a failed insert changes nothing; on success one row is appended and the region joins that player's entry alone |
| `DiscoveryPlugin.Discovery.Visit` | src/main/java/net/phroa/sponge/discovery/Discovery.java:469-471 | one region is discovered iff it contains the cell and is not in the entry, and it is recorded iff its insert succeeds |
| `DiscoveryPlugin.Discovery.DiscoverAll` | src/main/java/net/phroa/sponge/discovery/Discovery.java:469-471 | the stream over the catalog reaches exactly the state of the reference crossing, and the store gains one row per notified region |
| `DiscoveryPlugin.Discovery.OnMove` | src/main/java/net/phroa/sponge/discovery/Discovery.java:460-473 | the entry is always ensured; with the cell unchanged nothing else happens; on a crossing the entry, the calls and the store follow the reference crossing |
| `DiscoveryPlugin.CampReloaded` | src/main/java/net/phroa/sponge/discovery/Discovery.java:394-401 | reloading a database that holds only "Camp" gives a catalog of just "Camp" and an empty cache |
| `DiscoveryPlugin.CampArrive` | src/main/java/net/phroa/sponge/discovery/Discovery.java:460-501 | the first crossing into (5,5) discovers "Camp" once and records one row |
| `DiscoveryPlugin.CampRevisit` | src/main/java/net/phroa/sponge/discovery/Discovery.java:464-471 | a further crossing inside "Camp" records nothing and leaves the entry alone |

## Left out

- Command registration, argument parsing, permissions and the `CommandResult` values are wiring. Each executor is a method that returns an outcome.
- The configuration file and its version switch, which shuts the server down on an unknown version, are file I/O and host control.
- SQL text, JDBC connections and Flyway migrations are I/O. The database is an abstract value, and `SQLException` is a parameter of each operation.
- Rows carry no order from the database, because there is no `ORDER BY`. The model reads `regions` in table order. It reads the join in discovery-row order, and for each discovery row in table order.
- `UUID.fromString` failures on malformed stored text are not modelled. Uuids are their stored text.
- `UUID.randomUUID` in create is a uuid the caller supplies.
- Text, pagination, titles, sounds and the blocking profile lookup in `formatRegion` are presentation. The discovery title appears only as the `notified` sequence.
- Positions are cells already floored to integers. Teleport coordinates are reals, not IEEE doubles.
- World lookup is a set of loaded world uuids. The teleport itself (`setLocation`) is left to the host.
- `parallelStream().findFirst()` in rename keeps encounter order. It is modelled as a sequential first match.
- Regions.Fold: folds ASCII letters only. `String.CASE_INSENSITIVE_ORDER` folds each UTF-16 char through `Character.toUpperCase` and then `Character.toLowerCase`.
- Regions.CompareIgnoreCase: names are sequences of Unicode scalar values, not of UTF-16 code units. For a name holding a character outside the Basic Multilingual Plane, Java counts two units in the length term and compares its high surrogate, so the order against characters U+E000 to U+FFFF and the length difference are not those of the source.
- A failing statement is modelled as writing nothing. The `catch (SQLException)` blocks also cover the `close()` calls of try-with-resources, so a `close()` that throws after the write has committed takes the failure path with the row stored: create reports a database error, delete neither reloads nor clears the cache, and `discover` skips the cache update so that the next crossing inserts a second discovery row. Failures after the commit are not modelled.
- Concurrency is not modelled. Events and commands run one at a time on the server thread.
- An insert whose uuid clashes with a stored row fails, as the primary key requires. A random uuid makes that clash practically impossible.
