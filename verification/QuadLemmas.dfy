/** What the quadtree promises: its structural invariant, soundness and completeness of query
    against a scan of everything inserted, and the exact extent of that completeness. */
module QuadLemmas {
  import opened Basics
  import opened Rects
  import opened QuadSpec

  // ---------- the structural invariant ----------

  ghost predicate DistinctObjects<O>(objects: seq<Entry<O>>) {
    forall i, j :: 0 <= i < j < |objects| ==> objects[i].obj != objects[j].obj
  }

  /** A stored rect overlaps its node, a divided node is full and above the deepest level, only
      deepest nodes may exceed the capacity, and kids are the quadrants of their parent. */
  ghost predicate Sound<O>(cfg: Config, t: Tree<O>) {
    && (forall i :: 0 <= i < |t.objects| ==> Collide(t.boundary, t.objects[i].rect))
    && DistinctObjects(t.objects)
    && (t.level < cfg.maxLevel ==> |t.objects| <= Max(cfg.capacity, 0))
    && |t.kids| in {0, 4}
    && (t.kids != [] ==> t.level < cfg.maxLevel && |t.objects| >= cfg.capacity)
    && (forall i :: 0 <= i < |t.kids| ==>
          && t.kids[i].boundary == Quadrant(t.boundary, i)
          && t.kids[i].level == t.level + 1
          && Sound(cfg, t.kids[i]))
  }

  lemma {:induction false} QuartersSound<O>(cfg: Config, b: Rect, level: int)
    requires level < cfg.maxLevel
    ensures forall i :: 0 <= i < 4 ==> Sound(cfg, Quarters<O>(b, level)[i])
  {
  }

  // ---------- one insert ----------

  ghost function Objects<O>(t: Tree<O>): set<O> {
    set e | e in Entries(t) :: e.obj
  }

  lemma FreshIsNotHeld<O>(t: Tree<O>, o: O)
    requires o !in Objects(t)
    ensures !Holds(t.objects, o)
  {
    forall i | 0 <= i < |t.objects| ensures t.objects[i].obj != o {
      assert t.objects[i] in Entries(t);
    }
  }

  lemma KidEntries<O>(t: Tree<O>)
    requires Layered(t)
    ensures forall i :: 0 <= i < 4 ==> Layered(KidsToFill(t)[i]) && Entries(KidsToFill(t)[i]) <= Entries(t)
    ensures forall i :: 0 <= i < 4 ==> KidsToFill(t)[i].level == t.level + 1
  {
  }

  /** An insert adds at most the new entry, keeps every old one, and adds the new one exactly
      when it answers true (given that the object was not stored before). */
  lemma {:induction false} InsertEntries<O>(cfg: Config, t: Tree<O>, r: Rect, o: O)
    requires Layered(t) && o !in Objects(t)
    ensures var out := Insert(cfg, t, r, o);
            Entries(out.tree) == Entries(t) + (if out.ok then {Entry(r, o)} else {})
    decreases Room(cfg, t.level)
  {
    hide Insert, Layered, Collide, Entries, Quarters;
    if Collide(t.boundary, r) && !Keeps(cfg, t) {
      InsertPushes(cfg, t, r, o);
      var out, kids := Insert(cfg, t, r, o), KidsToFill(t);
      forall i | 0 <= i < 4
        ensures Entries(out.tree.kids[i])
                == Entries(kids[i]) + (if Insert(cfg, kids[i], r, o).ok then {Entry(r, o)} else {})
      {
        KidObjects(t, i);
        InsertEntries(cfg, kids[i], r, o);
      }
      PushedEntries(cfg, t, r, o);
    } else {
      KeptEntries(cfg, t, r, o);
    }
  }

  lemma KidObjects<O>(t: Tree<O>, i: nat)
    requires Layered(t) && i < 4
    ensures Objects(KidsToFill(t)[i]) <= Objects(t)
  {
    KidEntries(t);
  }

  /** The case of InsertEntries in which the object goes no further than this node. */
  lemma KeptEntries<O>(cfg: Config, t: Tree<O>, r: Rect, o: O)
    requires Layered(t) && o !in Objects(t) && (!Collide(t.boundary, r) || Keeps(cfg, t))
    ensures var out := Insert(cfg, t, r, o);
            Entries(out.tree) == Entries(t) + (if out.ok then {Entry(r, o)} else {})
  {
    FreshIsNotHeld(t, o);
  }

  /** What an insert does to a node that passes the object on. */
  lemma InsertPushes<O>(cfg: Config, t: Tree<O>, r: Rect, o: O)
    requires Layered(t) && Collide(t.boundary, r) && !Keeps(cfg, t)
    ensures |KidsToFill(t)| == 4 && forall i :: 0 <= i < 4 ==> Layered(KidsToFill(t)[i])
    ensures forall i :: 0 <= i < 4 ==> KidsToFill(t)[i].level == t.level + 1
    ensures var out := Insert(cfg, t, r, o);
            && out.tree.objects == t.objects && |out.tree.kids| == 4
            && (forall i :: 0 <= i < 4 ==> out.tree.kids[i] == Insert(cfg, KidsToFill(t)[i], r, o).tree)
            && (out.ok <==> exists i :: 0 <= i < 4 && Insert(cfg, KidsToFill(t)[i], r, o).ok)
  {
  }

  /** Splitting a leaf adds nothing: entries are the node's own and those of the four to fill. */
  lemma EntriesByKids<O>(t: Tree<O>, e: Entry<O>)
    requires Layered(t)
    ensures |KidsToFill(t)| == 4
    ensures e in Entries(t) <==> e in t.objects || exists i :: 0 <= i < 4 && e in Entries(KidsToFill(t)[i])
  {
  }

  /** The step of InsertEntries for one entry of a node that passes the object on. */
  lemma PushedEntry<O>(cfg: Config, t: Tree<O>, r: Rect, o: O, e: Entry<O>)
    requires Layered(t) && Collide(t.boundary, r) && !Keeps(cfg, t)
    requires forall i :: 0 <= i < 4 ==>
               var next := Insert(cfg, KidsToFill(t)[i], r, o);
               Entries(next.tree) == Entries(KidsToFill(t)[i]) + (if next.ok then {Entry(r, o)} else {})
    ensures var out := Insert(cfg, t, r, o);
            e in Entries(out.tree) <==> e in Entries(t) || (out.ok && e == Entry(r, o))
  {
    hide Insert, Layered, Collide, Keeps, Entries, Quarters;
    var out := Insert(cfg, t, r, o);
    InsertPushes(cfg, t, r, o);
    EntriesByKids(t, e);
    EntriesByKids(out.tree, e);
  }

  /** Every insert keeps the structural invariant. */
  lemma {:induction false} InsertSound<O>(cfg: Config, t: Tree<O>, r: Rect, o: O)
    requires Sound(cfg, t) && Layered(t)
    ensures Sound(cfg, Insert(cfg, t, r, o).tree)
    decreases Room(cfg, t.level)
  {
    hide Collide, Insert, Quarters;
    if Collide(t.boundary, r) && !Keeps(cfg, t) {
      InsertPushes(cfg, t, r, o);
      KidsSound(cfg, t);
      forall i | 0 <= i < 4 ensures Sound(cfg, Insert(cfg, KidsToFill(t)[i], r, o).tree) {
        InsertSound(cfg, KidsToFill(t)[i], r, o);
      }
    } else {
      KeptSound(cfg, t, r, o);
    }
  }

  lemma KidsSound<O>(cfg: Config, t: Tree<O>)
    requires Sound(cfg, t) && t.level < cfg.maxLevel
    ensures |KidsToFill(t)| == 4
    ensures forall i :: 0 <= i < 4 ==>
              Sound(cfg, KidsToFill(t)[i]) && KidsToFill(t)[i].boundary == Quadrant(t.boundary, i)
  {
    QuartersSound<O>(cfg, t.boundary, t.level);
  }

  lemma KeptSound<O>(cfg: Config, t: Tree<O>, r: Rect, o: O)
    requires Sound(cfg, t) && Layered(t) && (!Collide(t.boundary, r) || Keeps(cfg, t))
    ensures Sound(cfg, Insert(cfg, t, r, o).tree)
  {
  }

  lemma PushedEntries<O>(cfg: Config, t: Tree<O>, r: Rect, o: O)
    requires Layered(t) && Collide(t.boundary, r) && !Keeps(cfg, t)
    requires forall i :: 0 <= i < 4 ==>
               var next := Insert(cfg, KidsToFill(t)[i], r, o);
               Entries(next.tree) == Entries(KidsToFill(t)[i]) + (if next.ok then {Entry(r, o)} else {})
    ensures var out := Insert(cfg, t, r, o);
            Entries(out.tree) == Entries(t) + (if out.ok then {Entry(r, o)} else {})
  {
    hide Insert, Layered, Collide, Entries, Quarters;
    var out := Insert(cfg, t, r, o);
    var expected := Entries(t) + (if out.ok then {Entry(r, o)} else {});
    forall e ensures e in Entries(out.tree) <==> e in expected {
      PushedEntry(cfg, t, r, o, e);
    }
    SameMembers(Entries(out.tree), expected);
  }

  lemma SameMembers<T>(a: set<T>, b: set<T>)
    requires forall x :: x in a <==> x in b
    ensures a == b
  {
  }

  // ---------- covered pixels ----------

  /** p lies in the boundary and in a chain of quadrants down to the deepest level. */
  ghost predicate Covered(cfg: Config, b: Rect, level: int, p: Pixel)
    decreases Room(cfg, level)
  {
    && Inside(p, b)
    && (level >= cfg.maxLevel || exists i :: 0 <= i < 4 && Covered(cfg, Quadrant(b, i), level + 1, p))
  }

  /** Entry e is stored in a node that contains p, as do all the nodes above it. */
  ghost predicate HeldAt<O>(t: Tree<O>, p: Pixel, e: Entry<O>) {
    && Inside(p, t.boundary)
    && (e in t.objects || exists i :: 0 <= i < |t.kids| && HeldAt(t.kids[i], p, e))
  }

  lemma {:induction false} InsertKeepsHeld<O>(cfg: Config, t: Tree<O>, r: Rect, o: O, p: Pixel, e: Entry<O>)
    requires Layered(t) && HeldAt(t, p, e)
    ensures HeldAt(Insert(cfg, t, r, o).tree, p, e)
    decreases Room(cfg, t.level), t
  {
    if Collide(t.boundary, r) && e !in t.objects
       && !Keeps(cfg, t) {
      var i :| 0 <= i < |t.kids| && HeldAt(t.kids[i], p, e);
      InsertKeepsHeld(cfg, t.kids[i], r, o, p, e);
      assert HeldAt(Insert(cfg, t, r, o).tree.kids[i], p, e);
    }
  }

  /** A fresh object is held at every covered pixel of its rect. */
  lemma {:induction false} InsertHolds<O>(cfg: Config, t: Tree<O>, r: Rect, o: O, p: Pixel)
    requires Sound(cfg, t) && Layered(t) && o !in Objects(t)
    requires Inside(p, r) && Covered(cfg, t.boundary, t.level, p)
    ensures HeldAt(Insert(cfg, t, r, o).tree, p, Entry(r, o))
    decreases Room(cfg, t.level)
  {
    hide Insert, Layered, Entries, Quarters, Quadrant, KidsToFill, Sound;
    CollideIsSharingAPixel(t.boundary, r);
    if Keeps(cfg, t) {
      KeptHolds(cfg, t, r, o);
    } else {
      InsertPushes(cfg, t, r, o);
      KidsSound(cfg, t);
      var i :| 0 <= i < 4 && Covered(cfg, Quadrant(t.boundary, i), t.level + 1, p);
      KidObjects(t, i);
      InsertHolds(cfg, KidsToFill(t)[i], r, o, p);
      assert HeldAt(Insert(cfg, t, r, o).tree.kids[i], p, Entry(r, o));
    }
  }

  lemma KeptHolds<O>(cfg: Config, t: Tree<O>, r: Rect, o: O)
    requires Layered(t) && o !in Objects(t) && Collide(t.boundary, r) && Keeps(cfg, t)
    ensures Entry(r, o) in Insert(cfg, t, r, o).tree.objects
  {
    FreshIsNotHeld(t, o);
  }

  // ---------- one query ----------

  ghost predicate Unique<O>(s: seq<O>) {
    forall i, j :: 0 <= i < j < |s| ==> s[i] != s[j]
  }

  /** What a scan of the entries of one node may add. */
  lemma {:induction false} CollectMeaning<O>(objects: seq<Entry<O>>, range: Rect, found: seq<O>)
    ensures var c := Collect(objects, range, found);
            && found <= c
            && (Unique(found) ==> Unique(c))
            && forall o :: o in c <==>
                 o in found || exists i :: 0 <= i < |objects| && objects[i].obj == o && Collide(range, objects[i].rect)
  {
    if objects != [] {
      CollectMeaning(objects[..|objects| - 1], range, found);
    }
  }

  /** The entries a query can reach: colliding with the range, in a node whose own boundary and
      whose ancestors' boundaries collide with it too. */
  ghost function Visible<O>(t: Tree<O>, range: Rect): set<Entry<O>> {
    if !Collide(t.boundary, range) then {}
    else
      (set e | e in t.objects && Collide(range, e.rect))
      + (set i, e | 0 <= i < |t.kids| && e in Visible(t.kids[i], range) :: e)
  }

  ghost predicate Shows<O>(entries: set<Entry<O>>, o: O) {
    exists e :: e in entries && e.obj == o
  }

  /** query appends to what was found before exactly the objects of the reachable entries,
      each once. */
  lemma {:induction false} QueryMeaning<O>(t: Tree<O>, range: Rect, found: seq<O>)
    ensures var q := Query(t, range, found);
            && found <= q
            && (Unique(found) ==> Unique(q))
            && forall o :: o in q <==> o in found || Shows(Visible(t, range), o)
    decreases t, 0
  {
    if Collide(t.boundary, range) {
      var here := Collect(t.objects, range, found);
      var q := Query(t, range, found);
      CollectMeaning(t.objects, range, found);
      QueryEachMeaning(t.kids, range, here);
      forall o ensures o in q <==> o in found || Shows(Visible(t, range), o) {
        if o in q && o !in found {
          if o in here {
            var i :| 0 <= i < |t.objects| && t.objects[i].obj == o && Collide(range, t.objects[i].rect);
            assert t.objects[i] in Visible(t, range);
          } else {
            var i :| 0 <= i < |t.kids| && Shows(Visible(t.kids[i], range), o);
            var e :| e in Visible(t.kids[i], range) && e.obj == o;
            assert e in Visible(t, range);
          }
        }
        if Shows(Visible(t, range), o) {
          var e :| e in Visible(t, range) && e.obj == o;
          if e in t.objects && Collide(range, e.rect) {
            assert o in here;
          } else {
            var i :| 0 <= i < |t.kids| && e in Visible(t.kids[i], range);
            assert Shows(Visible(t.kids[i], range), o);
          }
        }
      }
    }
  }

  lemma {:induction false} QueryEachMeaning<O>(kids: seq<Tree<O>>, range: Rect, found: seq<O>)
    ensures var q := QueryEach(kids, range, found);
            && found <= q
            && (Unique(found) ==> Unique(q))
            && forall o :: o in q <==>
                 o in found || exists i :: 0 <= i < |kids| && Shows(Visible(kids[i], range), o)
    decreases kids, 1
  {
    if kids != [] {
      var last := |kids| - 1;
      QueryEachMeaning(kids[..last], range, found);
      QueryMeaning(kids[last], range, QueryEach(kids[..last], range, found));
    }
  }

  lemma {:induction false} VisibleIsStored<O>(t: Tree<O>, range: Rect, e: Entry<O>)
    requires e in Visible(t, range)
    ensures e in Entries(t) && Collide(range, e.rect)
  {
    if !(e in t.objects && Collide(range, e.rect)) {
      var i :| 0 <= i < |t.kids| && e in Visible(t.kids[i], range);
      VisibleIsStored(t.kids[i], range, e);
    }
  }

  lemma {:induction false} HeldIsVisible<O>(t: Tree<O>, range: Rect, e: Entry<O>, p: Pixel)
    requires HeldAt(t, p, e) && Inside(p, range) && Inside(p, e.rect)
    ensures e in Visible(t, range)
  {
    CollideIsSharingAPixel(t.boundary, range);
    CollideIsSharingAPixel(range, e.rect);
    if e !in t.objects {
      var i :| 0 <= i < |t.kids| && HeldAt(t.kids[i], p, e);
      HeldIsVisible(t.kids[i], range, e, p);
    }
  }

  // ---------- a whole frame: inserts into an empty tree, then queries ----------

  ghost function InsertAll<O>(cfg: Config, t: Tree<O>, entries: seq<Entry<O>>): (r: Tree<O>)
    requires Layered(t)
    ensures Layered(r) && r.boundary == t.boundary && r.level == t.level
  {
    if entries == [] then t
    else
      var last := entries[|entries| - 1];
      Insert(cfg, InsertAll(cfg, t, entries[..|entries| - 1]), last.rect, last.obj).tree
  }

  /** The tree of one frame: cleared, then filled. */
  ghost function Filled<O>(cfg: Config, boundary: Rect, level: int, entries: seq<Entry<O>>): (r: Tree<O>)
    ensures Layered(r) && r.boundary == boundary && r.level == level
  {
    InsertAll(cfg, EmptyNode(boundary, level), entries)
  }

  /** In every reachable tree the structural invariant holds, only inserted entries are stored,
      and each inserted entry is held at every covered pixel of its rect. */
  lemma {:induction false} FilledInvariant<O>(cfg: Config, boundary: Rect, level: int, entries: seq<Entry<O>>)
    requires DistinctObjects(entries)
    ensures var t := Filled(cfg, boundary, level, entries);
            && Sound(cfg, t)
            && (forall e :: e in Entries(t) ==> e in entries)
            && forall e, p :: e in entries && Inside(p, e.rect) && Covered(cfg, boundary, level, p) ==> HeldAt(t, p, e)
  {
    if entries != [] {
      var before, last := entries[..|entries| - 1], entries[|entries| - 1];
      var t0 := Filled(cfg, boundary, level, before);
      var t := Filled(cfg, boundary, level, entries);
      FilledInvariant(cfg, boundary, level, before);
      InsertSound(cfg, t0, last.rect, last.obj);
      InsertEntries(cfg, t0, last.rect, last.obj);
      forall e, p | e in entries && Inside(p, e.rect) && Covered(cfg, boundary, level, p)
        ensures HeldAt(t, p, e)
      {
        if e in before {
          InsertKeepsHeld(cfg, t0, last.rect, last.obj, p, e);
        } else {
          InsertHolds(cfg, t0, last.rect, last.obj, p);
        }
      }
    }
  }

  /** query against a full scan: no object twice, nothing but inserted objects whose rect collides
      with the range, and all of those that share a covered pixel with it. */
  lemma QueryAgainstScan<O>(cfg: Config, boundary: Rect, level: int, entries: seq<Entry<O>>, range: Rect)
    requires DistinctObjects(entries)
    ensures var q := Query(Filled(cfg, boundary, level, entries), range, []);
            && Unique(q)
            && (forall o :: o in q ==> exists e :: e in entries && e.obj == o && Collide(range, e.rect))
            && forall e, p :: e in entries && Inside(p, e.rect) && Inside(p, range) && Covered(cfg, boundary, level, p)
                 ==> e.obj in q
  {
    var t := Filled(cfg, boundary, level, entries);
    var q := Query(t, range, []);
    FilledInvariant(cfg, boundary, level, entries);
    QueryMeaning(t, range, []);
    forall o | o in q ensures exists e :: e in entries && e.obj == o && Collide(range, e.rect) {
      assert Shows(Visible(t, range), o);
      var e :| e in Visible(t, range) && e.obj == o;
      VisibleIsStored(t, range, e);
    }
    forall e, p | e in entries && Inside(p, e.rect) && Inside(p, range) && Covered(cfg, boundary, level, p)
      ensures e.obj in q
    {
      HeldIsVisible(t, range, e, p);
    }
  }

  // ---------- enumeration ----------

  predicate Within(a: Rect, b: Rect) {
    && 0 <= a.w && 0 <= a.h
    && b.x <= a.x && a.x + a.w <= b.x + b.w
    && b.y <= a.y && a.y + a.h <= b.y + b.h
  }

  lemma QuadrantWithin(b: Rect, i: int)
    requires 0 <= b.w && 0 <= b.h && 0 <= i < 4
    ensures Within(Quadrant(b, i), b)
  {
  }

  lemma WithinCollides(a: Rect, b: Rect, r: Rect)
    requires Within(a, b) && Collide(a, r)
    ensures Collide(b, r) && Collide(r, b) && Collide(a, b)
  {
  }

  /** A stored rect overlaps the boundary of every node above it. */
  lemma {:induction false} StoredOverlapsBoundary<O>(cfg: Config, t: Tree<O>, e: Entry<O>)
    requires Sound(cfg, t) && 0 <= t.boundary.w && 0 <= t.boundary.h && e in Entries(t)
    ensures Collide(t.boundary, e.rect)
  {
    if e !in t.objects {
      var i :| 0 <= i < |t.kids| && e in Entries(t.kids[i]);
      QuadrantWithin(t.boundary, i);
      StoredOverlapsBoundary(cfg, t.kids[i], e);
      WithinCollides(t.kids[i].boundary, t.boundary, e.rect);
    }
  }

  lemma {:induction false} AllVisibleFromOutside<O>(cfg: Config, t: Tree<O>, range: Rect, e: Entry<O>)
    requires Sound(cfg, t) && Within(t.boundary, range) && e in Entries(t)
    ensures e in Visible(t, range)
  {
    hide Collide;
    StoredOverlapsBoundary(cfg, t, e);
    WithinCollides(t.boundary, range, e.rect);
    if e !in t.objects {
      var i :| 0 <= i < |t.kids| && e in Entries(t.kids[i]);
      QuadrantWithin(t.boundary, i);
      AllVisibleFromOutside(cfg, t.kids[i], range, e);
    }
  }

  /** query(self.boundary) lists every stored object exactly once. */
  lemma BoundaryQueryEnumerates<O>(cfg: Config, t: Tree<O>)
    requires Sound(cfg, t) && 0 <= t.boundary.w && 0 <= t.boundary.h
    ensures var q := Query(t, t.boundary, []);
            Unique(q) && forall o :: o in q <==> o in Objects(t)
  {
    QueryMeaning(t, t.boundary, []);
    forall e | e in Entries(t) ensures e in Visible(t, t.boundary) {
      AllVisibleFromOutside(cfg, t, t.boundary, e);
    }
    forall o ensures o in Query(t, t.boundary, []) <==> o in Objects(t) {
      if Shows(Visible(t, t.boundary), o) {
        var e :| e in Visible(t, t.boundary) && e.obj == o;
        VisibleIsStored(t, t.boundary, e);
      }
    }
  }
}
