/**
 * The immutable `Region` value: a named axis-aligned box in one world, with a
 * teleport target.  Identity (`equals`) is by uuid; order (`compareTo`) is by
 * name, ignoring letter case, so the two disagree.
 */
module Regions {

  /** A java.util.UUID in the text form the plugin stores in its tables. */
  type Uuid = string

  /** A java.lang.Object that `Region.equals` may be handed: null, a Region, or anything else. */
  datatype Obj = Null | RegionObj(region: Region) | OtherObj

  /**
   * All fields are final and set once by the constructor; the datatype's
   * destructors are the getters.  Teleport coordinates are doubles in the
   * source and reals here.
   */
  datatype Region = Region(
    uuid: Uuid,
    name: string,
    worldUuid: Uuid,
    xMin: int,
    zMin: int,
    xMax: int,
    zMax: int,
    teleportX: real,
    teleportY: real,
    teleportZ: real,
    creator: Uuid)
  {
    /** `equals(Object)`: a non-null Region with the same uuid. */
    predicate Equals(o: Obj) {
      o.RegionObj? && o.region.uuid == uuid
    }

    /** `compareTo`: String.CASE_INSENSITIVE_ORDER on the names. */
    function CompareTo(other: Region): int {
      CompareIgnoreCase(name, other.name)
    }
  }

  /** Every getter returns the value the constructor was given; nothing is recomputed. */
  lemma GettersReturnArguments(uuid: Uuid, name: string, world: Uuid, xMin: int, zMin: int, xMax: int, zMax: int,
                               tx: real, ty: real, tz: real, creator: Uuid)
    ensures var r := Region(uuid, name, world, xMin, zMin, xMax, zMax, tx, ty, tz, creator);
      && r.uuid == uuid && r.name == name && r.worldUuid == world
      && r.xMin == xMin && r.zMin == zMin && r.xMax == xMax && r.zMax == zMax
      && r.teleportX == tx && r.teleportY == ty && r.teleportZ == tz && r.creator == creator
  {
  }

  /** The per-character case fold of CASE_INSENSITIVE_ORDER, restricted to ASCII letters. */
  function Fold(c: char): (f: char)
    ensures 'A' <= c <= 'Z' ==> 'a' <= f <= 'z' && f as int - c as int == 32
    ensures !('A' <= c <= 'Z') ==> f == c
  {
    if 'A' <= c <= 'Z' then (c as int + 32) as char else c
  }

  /** Lower-cases every ASCII letter of a string. */
  function FoldAll(s: string): (t: string)
    ensures |t| == |s|
    ensures forall i :: 0 <= i < |s| ==> t[i] == Fold(s[i])
  {
    if s == [] then [] else [Fold(s[0])] + FoldAll(s[1..])
  }

  /**
   * String.CASE_INSENSITIVE_ORDER.compare: at the first position whose folded
   * characters differ, their difference; otherwise the difference of lengths.
   */
  function CompareIgnoreCase(a: string, b: string): int
  {
    if a == [] || b == [] then |a| - |b|
    else if Fold(a[0]) != Fold(b[0]) then Fold(a[0]) as int - Fold(b[0]) as int
    else CompareIgnoreCase(a[1..], b[1..])
  }

  /** The comparison is exactly antisymmetric: swapping the arguments negates it. */
  lemma {:induction false} CompareAntisymmetric(a: string, b: string)
    ensures CompareIgnoreCase(a, b) == -CompareIgnoreCase(b, a)
  {
    if a != [] && b != [] && Fold(a[0]) == Fold(b[0]) {
      CompareAntisymmetric(a[1..], b[1..]);
    }
  }

  /** Two names compare equal exactly when they agree after case folding. */
  lemma {:induction false} CompareZeroIff(a: string, b: string)
    ensures CompareIgnoreCase(a, b) == 0 <==> FoldAll(a) == FoldAll(b)
  {
    if a != [] && b != [] {
      CompareZeroIff(a[1..], b[1..]);
      assert FoldAll(a) == [Fold(a[0])] + FoldAll(a[1..]);
      assert FoldAll(b) == [Fold(b[0])] + FoldAll(b[1..]);
      if FoldAll(a) == FoldAll(b) {
        assert FoldAll(a)[0] == FoldAll(b)[0];
        assert FoldAll(a)[1..] == FoldAll(a[1..]);
        assert FoldAll(b)[1..] == FoldAll(b[1..]);
      }
    }
  }

  /** Transitivity of the induced order, strict as soon as one step is strict. */
  lemma {:induction false} CompareTransitive(a: string, b: string, c: string)
    requires CompareIgnoreCase(a, b) <= 0 && CompareIgnoreCase(b, c) <= 0
    ensures CompareIgnoreCase(a, c) <= 0
    ensures CompareIgnoreCase(a, b) < 0 || CompareIgnoreCase(b, c) < 0 ==> CompareIgnoreCase(a, c) < 0
  {
    if a != [] && b != [] && c != [] {
      if Fold(a[0]) == Fold(b[0]) && Fold(b[0]) == Fold(c[0]) {
        CompareTransitive(a[1..], b[1..], c[1..]);
      }
    }
  }

  /** Every name is equal to itself under the order. */
  lemma CompareReflexive(a: string)
    ensures CompareIgnoreCase(a, a) == 0
  {
    CompareZeroIff(a, a);
  }

  /** `compareTo` negates under swapping (the sign contract of Comparable). */
  lemma CompareToAntisymmetric(r: Region, s: Region)
    ensures r.CompareTo(s) == -s.CompareTo(r)
  {
    CompareAntisymmetric(r.name, s.name);
  }

  /** `compareTo` is transitive, strictly so when one step is strict. */
  lemma CompareToTransitive(r: Region, s: Region, t: Region)
    requires r.CompareTo(s) <= 0 && s.CompareTo(t) <= 0
    ensures r.CompareTo(t) <= 0
    ensures r.CompareTo(s) < 0 || s.CompareTo(t) < 0 ==> r.CompareTo(t) < 0
  {
    CompareTransitive(r.name, s.name, t.name);
  }

  /** Regions that compare 0 with a common region compare 0 with each other. */
  lemma CompareToZeroTransitive(r: Region, s: Region, t: Region)
    requires r.CompareTo(s) == 0 && s.CompareTo(t) == 0
    ensures r.CompareTo(t) == 0
  {
    CompareToTransitive(r, s, t);
    CompareToAntisymmetric(r, s);
    CompareToAntisymmetric(s, t);
    CompareToTransitive(t, s, r);
    CompareToAntisymmetric(t, r);
  }

  /** `compareTo` never looks at the uuid nor at any field but the name. */
  lemma CompareToOnlyNames(r: Region, s: Region, r': Region, s': Region)
    requires r.name == r'.name && s.name == s'.name
    ensures r.CompareTo(s) == r'.CompareTo(s')
  {
  }

  /** The ordering examples: "Alpha" and "alpha" tie, and both precede "Beta". */
  lemma AlphaBetaOrder()
    ensures CompareIgnoreCase("Alpha", "alpha") == 0
    ensures CompareIgnoreCase("Alpha", "Beta") < 0
    ensures CompareIgnoreCase("alpha", "Beta") < 0
  {
    CompareZeroIff("Alpha", "alpha");
    assert FoldAll("Alpha") == "alpha";
    assert FoldAll("alpha") == "alpha";
  }

  /** `equals` is true exactly for a non-null Region carrying the same uuid. */
  lemma EqualsByUuid(r: Region, o: Obj)
    ensures r.Equals(o) <==> o != Null && o.RegionObj? && o.region.uuid == r.uuid
  {
  }

  /** `equals` ignores every field but the uuid. */
  lemma EqualsIgnoresFields(r: Region, s: Region, s': Region)
    requires s'.uuid == s.uuid
    ensures r.Equals(RegionObj(s)) == r.Equals(RegionObj(s'))
  {
  }

  /** `equals` restricted to regions is an equivalence relation. */
  lemma EqualsIsEquivalence(r: Region, s: Region, t: Region)
    ensures r.Equals(RegionObj(r))
    ensures r.Equals(RegionObj(s)) <==> s.Equals(RegionObj(r))
    ensures r.Equals(RegionObj(s)) && s.Equals(RegionObj(t)) ==> r.Equals(RegionObj(t))
  {
  }

  /**
   * The order is not consistent with `equals`: two regions with different
   * uuids and names equal up to case compare 0 yet are not equal.
   */
  lemma OrderInconsistentWithEquals(r: Region, s: Region)
    requires r.uuid != s.uuid && FoldAll(r.name) == FoldAll(s.name)
    ensures r.CompareTo(s) == 0 && !r.Equals(RegionObj(s))
  {
    CompareZeroIff(r.name, s.name);
  }
}
