/** In which order a query lists what it finds. */
module QuadOrder {
  import opened Rects
  import opened QuadSpec
  import opened QuadLemmas

  // ---------- where an object is ----------

  /** A query for the range reaches o at this address: the numbers of the kids on the way down, then
      o's number in its node. */
  ghost predicate At<O>(t: Tree<O>, range: Rect, path: seq<int>, o: O)
    decreases |path|
  {
    && path != [] && Collide(t.boundary, range)
    && if |path| == 1 then
         && 0 <= path[0] < |t.objects|
         && t.objects[path[0]].obj == o && Collide(range, t.objects[path[0]].rect)
       else 0 <= path[0] < |t.kids| && At(t.kids[path[0]], range, path[1..], o)
  }

  /** A node comes before what is below it, and nw before ne before sw before se. */
  predicate Earlier(a: seq<int>, b: seq<int>)
    decreases |a|
  {
    && a != [] && b != []
    && if |a| == 1 then |b| > 1 || a[0] < b[0]
       else |b| > 1 && (a[0] < b[0] || (a[0] == b[0] && Earlier(a[1..], b[1..])))
  }

  /** x is somewhere before any place where y is. */
  ghost predicate Precedes<O>(t: Tree<O>, range: Rect, x: O, y: O) {
    exists a :: At(t, range, a, x) && forall b :: At(t, range, b, y) ==> Earlier(a, b)
  }

  lemma {:induction false} VisibleIsAt<O>(t: Tree<O>, range: Rect, e: Entry<O>) returns (path: seq<int>)
    requires e in Visible(t, range)
    ensures At(t, range, path, e.obj)
  {
    if e in t.objects && Collide(range, e.rect) {
      var k :| 0 <= k < |t.objects| && t.objects[k] == e;
      path := [k];
    } else {
      var i :| 0 <= i < |t.kids| && e in Visible(t.kids[i], range);
      var rest := VisibleIsAt(t.kids[i], range, e);
      path := [i] + rest;
      assert path[1..] == rest;
    }
  }

  lemma {:induction false} AtIsVisible<O>(t: Tree<O>, range: Rect, path: seq<int>, o: O)
    requires At(t, range, path, o)
    ensures Shows(Visible(t, range), o)
    decreases |path|
  {
    if |path| == 1 {
      assert t.objects[path[0]] in Visible(t, range);
    } else {
      AtIsVisible(t.kids[path[0]], range, path[1..], o);
      var e :| e in Visible(t.kids[path[0]], range) && e.obj == o;
      assert e in Visible(t, range);
    }
  }

  // ---------- the order of a query ----------

  ghost predicate Scanned<O>(objects: seq<Entry<O>>, range: Rect, k: int, o: O) {
    0 <= k < |objects| && objects[k].obj == o && Collide(range, objects[k].rect)
  }

  lemma NewIsNew<O>(before: seq<O>, q: seq<O>, i: int)
    requires before <= q && Unique(q) && |before| <= i < |q|
    ensures q[i] !in before
  {
    forall k | 0 <= k < |before| ensures before[k] != q[i] {
      assert before[k] == q[k];
    }
  }

  /** One node lists its objects in the order in which it keeps them. */
  lemma {:induction false} CollectOrder<O>(
    objects: seq<Entry<O>>, range: Rect, found: seq<O>, i: int, j: int, x: O, y: O)
    returns (k: int)
    requires Unique(found) && |found| <= i < j < |Collect(objects, range, found)|
    requires x == Collect(objects, range, found)[i] && y == Collect(objects, range, found)[j]
    ensures Scanned(objects, range, k, x) && forall l :: Scanned(objects, range, l, y) ==> k < l
  {
    hide Collide;
    var last := |objects| - 1;
    var before, c := Collect(objects[..last], range, found), Collect(objects, range, found);
    CollectMeaning(objects[..last], range, found);
    CollectMeaning(objects, range, found);
    if j < |before| {
      k := CollectOrder(objects[..last], range, found, i, j, x, y);
      forall l | Scanned(objects, range, l, y) ensures k < l {
        if l < last {
          assert Scanned(objects[..last], range, l, y);
        }
      }
    } else {
      NewIsNew(found, before, i);
      k := ScannedFirst(objects[..last], range, found, x);
      NewIsNew(before, c, j);
      NotScanned(objects[..last], range, found, y);
      forall l | 0 <= l < last ensures !Scanned(objects, range, l, y) {
        assert objects[..last][l] == objects[l];
      }
    }
  }

  lemma NotScanned<O>(objects: seq<Entry<O>>, range: Rect, found: seq<O>, o: O)
    requires o !in Collect(objects, range, found)
    ensures forall k :: !Scanned(objects, range, k, o)
  {
    CollectMeaning(objects, range, found);
  }

  lemma ScannedFirst<O>(objects: seq<Entry<O>>, range: Rect, found: seq<O>, o: O) returns (k: int)
    requires o in Collect(objects, range, found) && o !in found
    ensures Scanned(objects, range, k, o)
  {
    CollectMeaning(objects, range, found);
    k :| 0 <= k < |objects| && objects[k].obj == o && Collide(range, objects[k].rect);
  }

  /** query lists its objects by the first place at which it reaches each of them: those of a node in
      their order there, before those below it, and these quadrant by quadrant. */
  lemma {:induction false} QueryOrder<O>(t: Tree<O>, range: Rect, found: seq<O>, i: int, j: int, x: O, y: O)
    requires Unique(found) && |found| <= i < j < |Query(t, range, found)|
    requires x == Query(t, range, found)[i] && y == Query(t, range, found)[j]
    ensures Precedes(t, range, x, y)
    decreases t, 0
  {
    hide Collide;
    var here, q := Collect(t.objects, range, found), Query(t, range, found);
    CollectMeaning(t.objects, range, found);
    QueryMeaning(t, range, found);
    QueryEachMeaning(t.kids, range, here);
    if j >= |here| {
      NewIsNew(here, q, j);
      NotScanned(t.objects, range, found, y);
    }
    if i < |here| {
      var k;
      if j < |here| {
        k := CollectOrder(t.objects, range, found, i, j, x, y);
      } else {
        NewIsNew(found, here, i);
        k := ScannedFirst(t.objects, range, found, x);
      }
      assert At(t, range, [k], x);
      forall b | At(t, range, b, y) ensures Earlier([k], b) {
        assert |b| == 1 ==> Scanned(t.objects, range, b[0], y);
      }
    } else {
      var m, a := QueryEachOrder(t.kids, range, here, i, j, x, y);
      var path := [m] + a;
      assert path[1..] == a;
      assert At(t, range, path, x);
      forall b | At(t, range, b, y) ensures Earlier(path, b) {
        assert !Scanned(t.objects, range, b[0], y);
        assert |b| > 1 ==> KidAt(t.kids, range, b[0], b[1..], y);
      }
    }
  }

  ghost predicate KidAt<O>(kids: seq<Tree<O>>, range: Rect, n: int, path: seq<int>, o: O) {
    0 <= n < |kids| && At(kids[n], range, path, o)
  }

  /** The place a in kid m is before any place where y is in these kids. */
  ghost predicate KidPrecedes<O>(kids: seq<Tree<O>>, range: Rect, m: int, a: seq<int>, y: O) {
    forall n, b :: KidAt(kids, range, n, b, y) ==> m < n || (m == n && Earlier(a, b))
  }

  lemma KidThatShows<O>(kids: seq<Tree<O>>, range: Rect, found: seq<O>, o: O) returns (m: int, a: seq<int>)
    requires o in QueryEach(kids, range, found) && o !in found
    ensures 0 <= m < |kids| && At(kids[m], range, a, o)
  {
    QueryEachMeaning(kids, range, found);
    m :| 0 <= m < |kids| && Shows(Visible(kids[m], range), o);
    var e :| e in Visible(kids[m], range) && e.obj == o;
    a := VisibleIsAt(kids[m], range, e);
  }

  /** Nothing that is new after these kids is in one of them. */
  lemma NotInFront<O>(kids: seq<Tree<O>>, range: Rect, found: seq<O>, o: O)
    requires o !in QueryEach(kids, range, found)
    ensures forall n, b :: 0 <= n < |kids| ==> !At(kids[n], range, b, o)
  {
    QueryEachMeaning(kids, range, found);
    forall n, b | 0 <= n < |kids| ensures !At(kids[n], range, b, o) {
      if At(kids[n], range, b, o) {
        AtIsVisible(kids[n], range, b, o);
      }
    }
  }

  lemma {:induction false} QueryEachOrder<O>(
    kids: seq<Tree<O>>, range: Rect, found: seq<O>, i: int, j: int, x: O, y: O)
    returns (m: int, a: seq<int>)
    requires Unique(found) && |found| <= i < j < |QueryEach(kids, range, found)|
    requires x == QueryEach(kids, range, found)[i] && y == QueryEach(kids, range, found)[j]
    ensures 0 <= m < |kids| && At(kids[m], range, a, x) && KidPrecedes(kids, range, m, a, y)
    decreases kids, 1
  {
    hide Collide;
    var last := |kids| - 1;
    var before := QueryEach(kids[..last], range, found);
    QueryEachMeaning(kids[..last], range, found);
    QueryMeaning(kids[last], range, before);
    if j < |before| {
      m, a := QueryEachOrder(kids[..last], range, found, i, j, x, y);
      forall n, b | KidAt(kids, range, n, b, y) ensures m < n || (m == n && Earlier(a, b)) {
        if n < last {
          assert KidAt(kids[..last], range, n, b, y);
        }
      }
    } else {
      NewIsNew(before, QueryEach(kids, range, found), j);
      NotInFront(kids[..last], range, found, y);
      forall n, b | 0 <= n < last ensures !At(kids[n], range, b, y) {
        assert kids[..last][n] == kids[n];
      }
      if i < |before| {
        NewIsNew(found, before, i);
        m, a := KidThatShows(kids[..last], range, found, x);
      } else {
        QueryOrder(kids[last], range, before, i, j, x, y);
        m := last;
        a :| At(kids[last], range, a, x) && forall b :: At(kids[last], range, b, y) ==> Earlier(a, b);
      }
    }
  }

  // ---------- the order within a node ----------

  ghost predicate InsertedBefore<O>(entries: seq<Entry<O>>, e: Entry<O>, f: Entry<O>) {
    exists x, y :: 0 <= x < y < |entries| && entries[x] == e && entries[y] == f
  }

  /** Every node keeps its objects in the order in which they were inserted. */
  ghost predicate Chronological<O>(t: Tree<O>, entries: seq<Entry<O>>) {
    && (forall i :: 0 <= i < |t.objects| ==> t.objects[i] in entries)
    && (forall i, j :: 0 <= i < j < |t.objects| ==> InsertedBefore(entries, t.objects[i], t.objects[j]))
    && forall i :: 0 <= i < |t.kids| ==> Chronological(t.kids[i], entries)
  }

  lemma {:induction false} OneEntryMore<O>(t: Tree<O>, entries: seq<Entry<O>>, e: Entry<O>)
    requires Chronological(t, entries)
    ensures Chronological(t, entries + [e])
  {
    forall i, j | 0 <= i < j < |t.objects| ensures InsertedBefore(entries + [e], t.objects[i], t.objects[j]) {
      var x, y :| 0 <= x < y < |entries| && entries[x] == t.objects[i] && entries[y] == t.objects[j];
      assert (entries + [e])[x] == t.objects[i] && (entries + [e])[y] == t.objects[j];
    }
    forall i | 0 <= i < |t.kids| ensures Chronological(t.kids[i], entries + [e]) {
      OneEntryMore(t.kids[i], entries, e);
    }
  }

  lemma {:induction false} InsertChronological<O>(cfg: Config, t: Tree<O>, r: Rect, o: O, entries: seq<Entry<O>>)
    requires Layered(t) && Chronological(t, entries)
    ensures Chronological(Insert(cfg, t, r, o).tree, entries + [Entry(r, o)])
    decreases Room(cfg, t.level)
  {
    hide Insert, Layered, Collide, Quarters;
    var more := entries + [Entry(r, o)];
    OneEntryMore(t, entries, Entry(r, o));
    if Collide(t.boundary, r) && !Keeps(cfg, t) {
      InsertPushes(cfg, t, r, o);
      forall i | 0 <= i < 4 ensures Chronological(Insert(cfg, KidsToFill(t)[i], r, o).tree, more) {
        EmptyQuarters<O>(t.boundary, t.level, entries);
        InsertChronological(cfg, KidsToFill(t)[i], r, o, entries);
      }
    } else {
      KeptChronological(cfg, t, r, o, entries);
    }
  }

  lemma EmptyQuarters<O>(b: Rect, level: int, entries: seq<Entry<O>>)
    ensures |Quarters<O>(b, level)| == 4
    ensures forall i :: 0 <= i < 4 ==> Chronological(Quarters<O>(b, level)[i], entries)
  {
  }

  lemma KeptChronological<O>(cfg: Config, t: Tree<O>, r: Rect, o: O, entries: seq<Entry<O>>)
    requires Layered(t) && Chronological(t, entries) && Chronological(t, entries + [Entry(r, o)])
    requires !Collide(t.boundary, r) || Keeps(cfg, t)
    ensures Chronological(Insert(cfg, t, r, o).tree, entries + [Entry(r, o)])
  {
    var more := entries + [Entry(r, o)];
    if Collide(t.boundary, r) && !Holds(t.objects, o) {
      forall i | 0 <= i < |t.objects| ensures InsertedBefore(more, t.objects[i], Entry(r, o)) {
        var x :| 0 <= x < |entries| && entries[x] == t.objects[i];
        assert more[x] == t.objects[i] && more[|entries|] == Entry(r, o);
      }
    }
  }

  /** So it is in every tree that inserts have built. */
  lemma {:induction false} FilledInOrder<O>(cfg: Config, boundary: Rect, level: int, entries: seq<Entry<O>>)
    ensures Chronological(Filled(cfg, boundary, level, entries), entries)
  {
    if entries != [] {
      var front, last := entries[..|entries| - 1], entries[|entries| - 1];
      FilledInOrder(cfg, boundary, level, front);
      assert entries == front + [last];
      InsertChronological(cfg, Filled(cfg, boundary, level, front), last.rect, last.obj, front);
    }
  }
}
