/**
 * java.util.TreeSet<Region> ordered by `Region::compareTo`, as a sequence kept
 * strictly sorted by that comparator.  Membership and de-duplication go
 * through the comparator: a region whose name equals an element's name up to
 * case counts as already present, whatever its uuid.
 */
module SortedSets {
  import opened Regions

  /** The red-black tree invariant: elements strictly ascending by `compareTo`. */
  predicate Sorted(s: seq<Region>) {
    forall i, j :: 0 <= i < j < |s| ==> s[i].CompareTo(s[j]) < 0
  }

  /** TreeSet.contains: some element compares 0 with `r`. */
  predicate Contains(s: seq<Region>, r: Region) {
    exists x :: x in s && r.CompareTo(x) == 0
  }

  /**
   * TreeSet.add: walk the tree comparing the new element with each key; a
   * key comparing 0 leaves the set as it was.
   */
  function Insert(s: seq<Region>, r: Region): (t: seq<Region>)
    ensures forall x :: x in t ==> x in s || x == r
    ensures r in t || Contains(s, r)
    ensures |s| <= |t| <= |s| + 1
    decreases |s|
  {
    if s == [] then [r]
    else if r.CompareTo(s[0]) < 0 then [r] + s
    else if r.CompareTo(s[0]) == 0 then s
    else [s[0]] + Insert(s[1..], r)
  }

  /** A set built by adding `rows` one at a time to an empty TreeSet. */
  function Build(rows: seq<Region>): seq<Region>
    decreases |rows|
  {
    if rows == [] then [] else Insert(Build(rows[..|rows| - 1]), rows[|rows| - 1])
  }

  /** No two rows have names equal up to case. */
  predicate NameDistinct(rows: seq<Region>) {
    forall i, j :: 0 <= i < j < |rows| ==> rows[i].CompareTo(rows[j]) != 0
  }

  /** `rows[i]` is the first row with its name, up to case. */
  predicate FirstOfName(rows: seq<Region>, i: int) {
    0 <= i < |rows| && forall j :: 0 <= j < i ==> rows[j].CompareTo(rows[i]) != 0
  }

  /** In a sorted sequence, every element after position 0 lies strictly above `r` if `s[0]` does. */
  lemma BelowHead(s: seq<Region>, r: Region)
    requires Sorted(s) && s != [] && r.CompareTo(s[0]) < 0
    ensures forall x :: x in s ==> r.CompareTo(x) < 0
  {
    forall x | x in s ensures r.CompareTo(x) < 0 {
      var k :| 0 <= k < |s| && s[k] == x;
      if k > 0 {
        CompareToTransitive(r, s[0], x);
      }
    }
  }

  /** Adding keeps the tree invariant. */
  lemma {:induction false} InsertSorted(s: seq<Region>, r: Region)
    requires Sorted(s)
    ensures Sorted(Insert(s, r))
    decreases |s|
  {
    if s != [] {
      var c := r.CompareTo(s[0]);
      if c < 0 {
        BelowHead(s, r);
      } else if c > 0 {
        InsertSorted(s[1..], r);
        var t := Insert(s, r);
        var u := Insert(s[1..], r);
        assert t == [s[0]] + u;
        CompareToAntisymmetric(r, s[0]);
        forall j | 0 < j < |t| ensures s[0].CompareTo(t[j]) < 0 {
          assert t[j] == u[j - 1];
          assert u[j - 1] in u;
          if u[j - 1] != r {
            var k :| 0 <= k < |s[1..]| && s[1..][k] == u[j - 1];
            assert s[k + 1] == u[j - 1];
          }
        }
      }
    }
  }

  /** Adding an element not yet present (by comparator) adds exactly that element. */
  lemma {:induction false} InsertAbsent(s: seq<Region>, r: Region)
    requires !Contains(s, r)
    ensures multiset(Insert(s, r)) == multiset(s) + multiset{r}
    decreases |s|
  {
    if s != [] {
      assert s[0] in s;
      if r.CompareTo(s[0]) > 0 {
        assert s == [s[0]] + s[1..];
        assert !Contains(s[1..], r) by {
          forall x | x in s[1..] ensures r.CompareTo(x) != 0 {
            assert x in s;
          }
        }
        InsertAbsent(s[1..], r);
      }
    }
  }

  /** Adding an element already present (by comparator) changes nothing. */
  lemma {:induction false} InsertPresent(s: seq<Region>, r: Region)
    requires Sorted(s) && Contains(s, r)
    ensures Insert(s, r) == s
    decreases |s|
  {
    var c := r.CompareTo(s[0]);
    if c < 0 {
      BelowHead(s, r);
      assert false;
    } else if c > 0 {
      assert Contains(s[1..], r) by {
        var x :| x in s && r.CompareTo(x) == 0;
        assert x in s[1..] by {
          assert s == [s[0]] + s[1..];
        }
      }
      TailSorted(s);
      InsertPresent(s[1..], r);
      assert s == [s[0]] + s[1..];
    }
  }

  /** Dropping the least element keeps a sequence sorted. */
  lemma TailSorted(s: seq<Region>)
    requires Sorted(s) && s != []
    ensures Sorted(s[1..])
  {
  }

  /** After an add, `q` is present iff it was before or it ties with the added element. */
  lemma InsertContains(s: seq<Region>, r: Region, q: Region)
    requires Sorted(s)
    ensures Contains(Insert(s, r), q) <==> Contains(s, q) || q.CompareTo(r) == 0
  {
    if Contains(s, r) {
      InsertPresent(s, r);
      if q.CompareTo(r) == 0 {
        var x :| x in s && r.CompareTo(x) == 0;
        CompareToZeroTransitive(q, r, x);
      }
    } else {
      InsertAbsent(s, r);
      var t := Insert(s, r);
      assert r in multiset(t);
      if Contains(s, q) {
        var x :| x in s && q.CompareTo(x) == 0;
        assert x in multiset(t);
      }
      if Contains(t, q) {
        var x :| x in t && q.CompareTo(x) == 0;
        assert x in multiset(s) + multiset{r};
      }
    }
  }

  /** Every set built from rows is sorted. */
  lemma {:induction false} BuildSorted(rows: seq<Region>)
    ensures Sorted(Build(rows))
    decreases |rows|
  {
    if rows != [] {
      BuildSorted(rows[..|rows| - 1]);
      InsertSorted(Build(rows[..|rows| - 1]), rows[|rows| - 1]);
    }
  }

  /** Every element of a built set is one of the rows. */
  lemma {:induction false} BuildElements(rows: seq<Region>)
    ensures forall x :: x in Build(rows) ==> x in rows
    decreases |rows|
  {
    if rows != [] {
      var init := rows[..|rows| - 1];
      BuildElements(init);
      forall x | x in Build(rows) ensures x in rows {
        if x != rows[|rows| - 1] {
          assert x in init;
        }
      }
    }
  }

  /** A built set holds a region up to case exactly when some row does. */
  lemma {:induction false} BuildContains(rows: seq<Region>, q: Region)
    ensures Contains(Build(rows), q) <==> Contains(rows, q)
    decreases |rows|
  {
    if rows != [] {
      var init, last := rows[..|rows| - 1], rows[|rows| - 1];
      assert rows == init + [last];
      BuildContains(init, q);
      BuildSorted(init);
      InsertContains(Build(init), last, q);
      if Contains(rows, q) && !Contains(init, q) {
        var x :| x in rows && q.CompareTo(x) == 0;
        assert x == last;
      }
      if Contains(init, q) {
        var x :| x in init && q.CompareTo(x) == 0;
        assert x in rows;
      }
    }
  }

  /** A row that is first with its name stays first when later rows are appended. */
  lemma FirstOfNameExtends(rows: seq<Region>, more: seq<Region>, i: int)
    requires FirstOfName(rows, i)
    ensures FirstOfName(rows + more, i) && (rows + more)[i] == rows[i]
  {
  }

  /** A row tying with no earlier row is first with its name. */
  lemma FirstOfNameLast(init: seq<Region>, last: Region)
    requires !Contains(init, last)
    ensures FirstOfName(init + [last], |init|)
  {
    var rows := init + [last];
    forall j | 0 <= j < |init| ensures rows[j].CompareTo(last) != 0 {
      assert rows[j] == init[j] && init[j] in init;
      CompareToAntisymmetric(rows[j], last);
    }
  }

  /** Where rows tie by name, the first one read is the one kept. */
  lemma {:induction false} BuildFirstWins(rows: seq<Region>)
    ensures forall x :: x in Build(rows) ==> exists i :: FirstOfName(rows, i) && rows[i] == x
    decreases |rows|
  {
    if rows != [] {
      var init, last := rows[..|rows| - 1], rows[|rows| - 1];
      assert rows == init + [last];
      var b := Build(init);
      BuildFirstWins(init);
      BuildSorted(init);
      BuildContains(init, last);
      if Contains(b, last) {
        InsertPresent(b, last);
      } else {
        InsertAbsent(b, last);
      }
      forall x | x in Build(rows) ensures exists i :: FirstOfName(rows, i) && rows[i] == x {
        if x in b {
          var i :| FirstOfName(init, i) && init[i] == x;
          FirstOfNameExtends(init, [last], i);
        } else {
          assert x in multiset(b) + multiset{last};
          FirstOfNameLast(init, last);
        }
      }
    }
  }

  /** With no ties by name, the built set holds exactly the rows. */
  lemma {:induction false} BuildDistinct(rows: seq<Region>)
    requires NameDistinct(rows)
    ensures multiset(Build(rows)) == multiset(rows)
    decreases |rows|
  {
    if rows != [] {
      var init, last := rows[..|rows| - 1], rows[|rows| - 1];
      assert rows == init + [last];
      assert NameDistinct(init);
      BuildDistinct(init);
      BuildContains(init, last);
      assert !Contains(init, last) by {
        forall x | x in init ensures last.CompareTo(x) != 0 {
          var k :| 0 <= k < |init| && init[k] == x;
          CompareToAntisymmetric(last, x);
          assert rows[k].CompareTo(rows[|rows| - 1]) != 0;
        }
      }
      InsertAbsent(Build(init), last);
    }
  }
}
