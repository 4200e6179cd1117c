/** Duplicate removal (`drop_duplicates(subset=[name_col])`,
    processing.py:117): of the records sharing a key, only the first stays.
    Keys are compared as cell values, so two missing names count as equal,
    as the library's duplicate detection treats them. */
module Dedup {
  import opened Frames

  /** The scan with the set of keys already met, as a hash-based duplicate
      check does it. */
  function DedupFrom(rs: seq<Rec>, key: Rec -> Cell, seen: set<Cell>): (r: seq<Rec>)
    ensures |r| <= |rs|
    decreases |rs|
  {
    if rs == [] then []
    else if key(rs[0]) in seen then DedupFrom(rs[1..], key, seen)
    else [rs[0]] + DedupFrom(rs[1..], key, seen + {key(rs[0])})
  }

  /** drop_duplicates keeping the first record of every key. */
  function DropDuplicates(rs: seq<Rec>, key: Rec -> Cell): (r: seq<Rec>)
    ensures |r| <= |rs|
  {
    DedupFrom(rs, key, {})
  }

  /** No record with a smaller label has the same key: x is the first of its
      key in rs. */
  predicate FirstOfKey(rs: seq<Rec>, key: Rec -> Cell, x: Rec) {
    forall y <- rs :: y.index < x.index ==> key(y) != key(x)
  }

  /** The scan keeps exactly the records whose key is new and which come
      first among the records sharing their key. */
  lemma {:induction false} DedupFromIsKeep(rs: seq<Rec>, key: Rec -> Cell, seen: set<Cell>)
    requires Ordered(rs)
    ensures DedupFrom(rs, key, seen) == Keep(rs, x => key(x) !in seen && FirstOfKey(rs, key, x))
    decreases |rs|
  {
    if rs != [] {
      var h, t := rs[0], rs[1..];
      assert Ordered(t);
      var seen' := if key(h) in seen then seen else seen + {key(h)};
      DedupFromIsKeep(t, key, seen');
      assert FirstOfKey(rs, key, h) by {
        forall y <- rs ensures y.index < h.index ==> key(y) != key(h) {
          var j :| 0 <= j < |rs| && rs[j] == y;
          assert j == 0 || h.index < y.index;
        }
      }
      forall x <- t
        ensures (key(x) !in seen && FirstOfKey(rs, key, x)) == (key(x) !in seen' && FirstOfKey(t, key, x))
      {
        var j :| 0 <= j < |t| && t[j] == x;
        assert rs[j + 1] == x;
        assert h.index < x.index;
        assert forall y <- rs :: y == h || y in t;
      }
      KeepExt(t, x => key(x) !in seen && FirstOfKey(rs, key, x), x => key(x) !in seen' && FirstOfKey(t, key, x));
    }
  }

  /** drop_duplicates is the mask "first of its key". */
  lemma DropDuplicatesIsKeepFirst(rs: seq<Rec>, key: Rec -> Cell)
    requires Ordered(rs)
    ensures DropDuplicates(rs, key) == Keep(rs, x => FirstOfKey(rs, key, x))
  {
    var none: set<Cell> := {};
    DedupFromIsKeep(rs, key, none);
    var a := x => key(x) !in none && FirstOfKey(rs, key, x);
    var b := x => FirstOfKey(rs, key, x);
    assert forall x <- rs :: a(x) == b(x);
    KeepExt(rs, a, b);
  }

  /** After removal, no two records share a key. */
  lemma DropDuplicatesDistinct(rs: seq<Rec>, key: Rec -> Cell)
    requires Ordered(rs)
    ensures forall i, j | 0 <= i < j < |DropDuplicates(rs, key)| ::
      key(DropDuplicates(rs, key)[i]) != key(DropDuplicates(rs, key)[j])
  {
    DropDuplicatesIsKeepFirst(rs, key);
    var r := DropDuplicates(rs, key);
    forall i, j | 0 <= i < j < |r| ensures key(r[i]) != key(r[j]) {
      assert r[i] in r && r[j] in r;
    }
  }

  /** Every key of the input survives: removal drops repeats, never a name. */
  lemma {:induction false} DedupFromCovers(rs: seq<Rec>, key: Rec -> Cell, seen: set<Cell>)
    ensures forall x <- rs :: key(x) in seen || exists y <- DedupFrom(rs, key, seen) :: key(y) == key(x)
    decreases |rs|
  {
    if rs != [] {
      var seen' := if key(rs[0]) in seen then seen else seen + {key(rs[0])};
      DedupFromCovers(rs[1..], key, seen');
      var r := DedupFrom(rs, key, seen);
      if key(rs[0]) !in seen {
        assert r[0] == rs[0];
        assert forall y <- DedupFrom(rs[1..], key, seen') :: y in r;
      }
      assert forall x <- rs :: x == rs[0] || x in rs[1..];
    }
  }

  /** The keys after removal are the keys before. */
  lemma DropDuplicatesKeys(rs: seq<Rec>, key: Rec -> Cell)
    ensures forall x <- rs :: exists y <- DropDuplicates(rs, key) :: key(y) == key(x)
    ensures forall y <- DropDuplicates(rs, key) :: y in rs
  {
    DedupFromCovers(rs, key, {});
    DedupFromSub(rs, key, {});
  }

  /** The scan only drops records. */
  lemma {:induction false} DedupFromSub(rs: seq<Rec>, key: Rec -> Cell, seen: set<Cell>)
    ensures forall y <- DedupFrom(rs, key, seen) :: y in rs
    decreases |rs|
  {
    if rs != [] {
      var seen' := if key(rs[0]) in seen then seen else seen + {key(rs[0])};
      DedupFromSub(rs[1..], key, seen');
      assert forall y <- rs[1..] :: y in rs;
    }
  }

  /** Removing duplicates twice is removing them once. */
  lemma DropDuplicatesIdempotent(rs: seq<Rec>, key: Rec -> Cell)
    requires Ordered(rs)
    ensures DropDuplicates(DropDuplicates(rs, key), key) == DropDuplicates(rs, key)
  {
    var r := DropDuplicates(rs, key);
    DropDuplicatesIsKeepFirst(rs, key);
    assert Ordered(r);
    DropDuplicatesIsKeepFirst(r, key);
    DropDuplicatesDistinct(rs, key);
    forall x <- r ensures FirstOfKey(r, key, x) {
      forall y <- r | y.index < x.index ensures key(y) != key(x) {
        var i :| 0 <= i < |r| && r[i] == y;
        var j :| 0 <= j < |r| && r[j] == x;
        assert i != j;
      }
    }
    KeepAll(r, x => FirstOfKey(r, key, x));
  }

  /** Rewriting records before the scan is the scan on the rewritten keys,
      followed by the rewrite. */
  lemma {:induction false} DedupFromMap(rs: seq<Rec>, g: Rec -> Rec, key: Rec -> Cell, seen: set<Cell>)
    ensures DedupFrom(MapRecs(rs, g), key, seen) == MapRecs(DedupFrom(rs, x => key(g(x)), seen), g)
    decreases |rs|
  {
    if rs != [] {
      var k := x => key(g(x));
      assert MapRecs(rs, g)[1..] == MapRecs(rs[1..], g);
      var seen' := if k(rs[0]) in seen then seen else seen + {k(rs[0])};
      DedupFromMap(rs[1..], g, key, seen');
      var tail := DedupFrom(rs[1..], k, seen');
      if k(rs[0]) !in seen {
        assert MapRecs([rs[0]] + tail, g) == [g(rs[0])] + MapRecs(tail, g);
      }
    }
  }

  /** drop_duplicates after a rewrite of every record. */
  lemma DropDuplicatesMap(rs: seq<Rec>, g: Rec -> Rec, key: Rec -> Cell)
    ensures DropDuplicates(MapRecs(rs, g), key) == MapRecs(DropDuplicates(rs, x => key(g(x))), g)
  {
    DedupFromMap(rs, g, key, {});
  }
}
