/** How far the quadtree's completeness reaches: exactly the covered pixels, which are all the
    pixels of the boundary exactly when both sizes halve evenly down to the deepest level. */
module QuadCoverage {
  import opened Basics
  import opened Rects
  import opened QuadSpec
  import opened QuadLemmas

  function Pow2(n: nat): (r: nat)
    ensures r >= 1
  {
    if n == 0 then 1 else 2 * Pow2(n - 1)
  }

  /** w halves evenly n times. */
  predicate Halves(w: int, n: nat) {
    w % Pow2(n) == 0
  }

  lemma HalvesOnce(w: int, n: nat)
    requires n >= 1
    ensures Halves(w, n) <==> w % 2 == 0 && Halves(w / 2, n - 1)
  {
    var m := Pow2(n - 1);
    if Halves(w, n) {
      var q := w / (2 * m);
      assert w == 2 * m * q;
      assert w == 2 * (m * q);
      assert w / 2 == m * q;
      MultipleHasNoRest(m, q);
    }
    if w % 2 == 0 && Halves(w / 2, n - 1) {
      var q := (w / 2) / m;
      assert w / 2 == m * q;
      assert w == 2 * m * q;
      MultipleHasNoRest(2 * m, q);
    }
  }

  lemma MultipleHasNoRest(m: int, q: int)
    requires m >= 1
    ensures (m * q) % m == 0
  {
    var d, r := (m * q) / m, (m * q) % m;
    assert m * q == m * d + r;
    if q != d {
      MultipleIsFar(m, q - d);
    }
  }

  lemma MultipleIsFar(m: int, k: int)
    requires m >= 1 && k != 0
    ensures m * k >= m || m * k <= -m
  {
    if k >= 1 {
      assert m * (k - 1) >= 0;
    } else {
      assert m * (-1 - k) >= 0;
    }
  }

  /** Quadrants share no pixel. */
  lemma QuadrantsDisjoint(b: Rect, i: int, j: int, p: Pixel)
    requires 0 <= b.w && 0 <= b.h && 0 <= i < 4 && 0 <= j < 4
    requires Inside(p, Quadrant(b, i)) && Inside(p, Quadrant(b, j))
    ensures i == j
  {
  }

  /** The quadrants tile the rect but for the last column of an odd width and the last row of an odd
      height. */
  lemma QuadrantsTile(b: Rect, p: Pixel)
    requires 0 <= b.w && 0 <= b.h
    ensures (exists i :: 0 <= i < 4 && Inside(p, Quadrant(b, i)))
            <==> Inside(p, Rect(b.x, b.y, b.w - b.w % 2, b.h - b.h % 2))
  {
    var even := Rect(b.x, b.y, b.w - b.w % 2, b.h - b.h % 2);
    if Inside(p, even) {
      var i := QuadrantOf(even, p);
      assert Inside(p, Quadrant(b, i));
    }
  }

  /** Which quadrant a pixel is in: the east ones begin half the width, rounded down, from the left,
      the south ones half the height from the top. */
  lemma QuadrantAt(b: Rect, i: int, p: Pixel)
    requires 0 <= b.w && 0 <= b.h && 0 <= i < 4 && Inside(p, Quadrant(b, i))
    ensures i == (if p.x < b.x + b.w / 2 then 0 else 1) + (if p.y < b.y + b.h / 2 then 0 else 2)
  {
  }

  /** The place d of a side of this size is still there after n halvings: each time it falls into the
      first or the second half, both rounded down, and not behind them. */
  predicate Survives(size: int, n: nat, d: int) {
    && 0 <= d < size
    && (n == 0 || (d < size / 2 && Survives(size / 2, n - 1, d))
        || (size / 2 <= d && Survives(size / 2, n - 1, d - size / 2)))
  }

  /** The covered pixels, level by level and side by side, in terms of their distance from the corner. */
  lemma {:induction false} CoveredByHalving(cfg: Config, b: Rect, level: int, p: Pixel)
    requires 0 <= b.w && 0 <= b.h
    ensures Covered(cfg, b, level, p) <==>
            Survives(b.w, Room(cfg, level), p.x - b.x) && Survives(b.h, Room(cfg, level), p.y - b.y)
    decreases Room(cfg, level)
  {
    if Inside(p, b) && level < cfg.maxLevel {
      forall i | 0 <= i < 4
        ensures Covered(cfg, Quadrant(b, i), level + 1, p) ==>
                Survives(b.w, Room(cfg, level), p.x - b.x) && Survives(b.h, Room(cfg, level), p.y - b.y)
      {
        CoveredByHalving(cfg, Quadrant(b, i), level + 1, p);
      }
      var i := (if p.x < b.x + b.w / 2 then 0 else 1) + (if p.y < b.y + b.h / 2 then 0 else 2);
      CoveredByHalving(cfg, Quadrant(b, i), level + 1, p);
    }
  }

  function QuadrantOf(b: Rect, p: Pixel): (i: int)
    requires 0 <= b.w && 0 <= b.h && b.w % 2 == 0 && b.h % 2 == 0 && Inside(p, b)
    ensures 0 <= i < 4 && Inside(p, Quadrant(b, i))
  {
    (if p.x < b.x + b.w / 2 then 0 else 1) + (if p.y < b.y + b.h / 2 then 0 else 2)
  }

  lemma {:induction false} EvenCovers(cfg: Config, b: Rect, level: int, p: Pixel)
    requires 0 <= b.w && 0 <= b.h && Inside(p, b)
    requires Halves(b.w, Room(cfg, level)) && Halves(b.h, Room(cfg, level))
    ensures Covered(cfg, b, level, p)
    decreases Room(cfg, level)
  {
    if level < cfg.maxLevel {
      HalvesOnce(b.w, Room(cfg, level));
      HalvesOnce(b.h, Room(cfg, level));
      var i := QuadrantOf(b, p);
      EvenCovers(cfg, Quadrant(b, i), level + 1, p);
    }
  }

  /** Otherwise some pixel of the boundary falls out of the split. */
  lemma {:induction false} UnevenLoses(cfg: Config, b: Rect, level: int) returns (p: Pixel)
    requires 1 <= b.w && 1 <= b.h
    requires !(Halves(b.w, Room(cfg, level)) && Halves(b.h, Room(cfg, level)))
    ensures Inside(p, b) && !Covered(cfg, b, level, p)
    decreases Room(cfg, level)
  {
    assert level < cfg.maxLevel;
    HalvesOnce(b.w, Room(cfg, level));
    HalvesOnce(b.h, Room(cfg, level));
    if b.w % 2 == 1 {
      p := Pixel(b.x + b.w - 1, b.y);
    } else if b.h % 2 == 1 {
      p := Pixel(b.x, b.y + b.h - 1);
    } else {
      p := UnevenLoses(cfg, Quadrant(b, 0), level + 1);
      forall i | 0 <= i < 4 ensures !Covered(cfg, Quadrant(b, i), level + 1, p) {
        if Inside(p, Quadrant(b, i)) {
          QuadrantsDisjoint(b, 0, i, p);
        }
      }
    }
  }

  /** Every pixel of a non-empty boundary is covered exactly when both sizes are divisible by
      2 to the number of levels below it. */
  lemma FullCoverage(cfg: Config, b: Rect, level: int)
    requires 1 <= b.w && 1 <= b.h
    ensures (forall p :: Inside(p, b) ==> Covered(cfg, b, level, p))
            <==> Halves(b.w, Room(cfg, level)) && Halves(b.h, Room(cfg, level))
  {
    if Halves(b.w, Room(cfg, level)) && Halves(b.h, Room(cfg, level)) {
      forall p | Inside(p, b) ensures Covered(cfg, b, level, p) {
        EvenCovers(cfg, b, level, p);
      }
    } else {
      var p := UnevenLoses(cfg, b, level);
    }
  }

  /** With such sizes and a range inside the boundary, query is the full scan. */
  lemma QueryIsScan<O>(cfg: Config, boundary: Rect, level: int, entries: seq<Entry<O>>, range: Rect)
    requires DistinctObjects(entries) && 1 <= boundary.w && 1 <= boundary.h && Within(range, boundary)
    requires Halves(boundary.w, Room(cfg, level)) && Halves(boundary.h, Room(cfg, level))
    ensures var q := Query(Filled(cfg, boundary, level, entries), range, []);
            && Unique(q)
            && forall o :: o in q <==> exists e :: e in entries && e.obj == o && Collide(range, e.rect)
  {
    QueryAgainstScan(cfg, boundary, level, entries, range);
    FullCoverage(cfg, boundary, level);
    forall e | e in entries && Collide(range, e.rect)
      ensures e.obj in Query(Filled(cfg, boundary, level, entries), range, [])
    {
      var p := CommonPixel(range, e.rect);
      assert Inside(p, boundary);
    }
  }

  // ---------- what is lost at an uncovered pixel ----------

  function UnitRect(p: Pixel): Rect {
    Rect(p.x, p.y, 1, 1)
  }

  function Piled<O>(p: Pixel, objs: seq<O>): seq<Entry<O>> {
    seq(|objs|, k requires 0 <= k < |objs| => Entry(UnitRect(p), objs[k]))
  }

  lemma EntriesOfFew<O>(objects: seq<Entry<O>>)
    ensures |set e | e in objects| <= |objects|
  {
    if objects != [] {
      var rest := objects[..|objects| - 1];
      EntriesOfFew(rest);
      assert (set e | e in objects) == (set e | e in rest) + {objects[|objects| - 1]};
    }
  }

  /** A subtree whose boundary misses p stores no unit rect at p. */
  lemma {:induction false} NothingAway<O>(cfg: Config, t: Tree<O>, p: Pixel)
    requires Sound(cfg, t) && 0 <= t.boundary.w && 0 <= t.boundary.h && !Inside(p, t.boundary)
    requires forall e :: e in Entries(t) ==> e.rect == UnitRect(p)
    ensures Entries(t) == {}
  {
    forall i | 0 <= i < |t.kids| ensures Entries(t.kids[i]) == {} {
      QuadrantWithin(t.boundary, i);
      NothingAway(cfg, t.kids[i], p);
    }
    if t.objects != [] {
      assert t.objects[0] in Entries(t);
      CollideIsSharingAPixel(t.boundary, UnitRect(p));
    }
  }

  ghost function Own<O>(t: Tree<O>): set<Entry<O>> {
    set e | e in t.objects
  }

  /** Such a tree stores things in its root and in at most one kid. */
  lemma OnePath<O>(cfg: Config, t: Tree<O>, p: Pixel) returns (i: int)
    requires Sound(cfg, t) && 0 <= t.boundary.w && 0 <= t.boundary.h
    requires forall e :: e in Entries(t) ==> e.rect == UnitRect(p)
    ensures if 0 <= i < |t.kids| then Inside(p, t.kids[i].boundary) && Entries(t) == Own(t) + Entries(t.kids[i])
            else Entries(t) == Own(t)
  {
    forall j | 0 <= j < |t.kids| && !Inside(p, t.kids[j].boundary) ensures Entries(t.kids[j]) == {} {
      QuadrantWithin(t.boundary, j);
      NothingAway(cfg, t.kids[j], p);
    }
    if k :| 0 <= k < |t.kids| && Inside(p, t.kids[k].boundary) {
      i := k;
      forall j | 0 <= j < |t.kids| && j != i ensures Entries(t.kids[j]) == {} {
        if Inside(p, t.kids[j].boundary) {
          QuadrantsDisjoint(t.boundary, i, j, p);
        }
      }
    } else {
      i := -1;
    }
  }

  /** At an uncovered pixel only the levels above the deepest can store anything: no more than
      capacity objects each. */
  lemma {:induction false} UncoveredRoom<O>(cfg: Config, t: Tree<O>, p: Pixel)
    requires Sound(cfg, t) && 0 <= t.boundary.w && 0 <= t.boundary.h
    requires Inside(p, t.boundary) && !Covered(cfg, t.boundary, t.level, p)
    requires forall e :: e in Entries(t) ==> e.rect == UnitRect(p)
    ensures |Entries(t)| <= Max(cfg.capacity, 0) * Room(cfg, t.level)
  {
    hide Covered, Collide, Entries;
    var c, n := Max(cfg.capacity, 0), Room(cfg, t.level);
    UncoveredBelow(cfg, t, p);
    OneLevelMore(c, n);
    var i := OnePath(cfg, t, p);
    EntriesOfFew(t.objects);
    assert |Own(t)| <= c;
    if 0 <= i < |t.kids| {
      KidIsSmaller(cfg, t, i);
      UncoveredRoom(cfg, t.kids[i], p);
    }
  }

  lemma UncoveredBelow<O>(cfg: Config, t: Tree<O>, p: Pixel)
    requires Sound(cfg, t) && Inside(p, t.boundary) && !Covered(cfg, t.boundary, t.level, p)
    ensures Room(cfg, t.level) >= 1
    ensures forall i :: 0 <= i < |t.kids| ==> !Covered(cfg, t.kids[i].boundary, t.kids[i].level, p)
  {
  }

  lemma OneLevelMore(c: nat, n: nat)
    requires n >= 1
    ensures c * n == c + c * (n - 1) && c * (n - 1) >= 0
  {
  }

  lemma KidIsSmaller<O>(cfg: Config, t: Tree<O>, i: int)
    requires Sound(cfg, t) && 0 <= i < |t.kids| && 0 <= t.boundary.w && 0 <= t.boundary.h
    ensures 0 <= t.kids[i].boundary.w && 0 <= t.kids[i].boundary.h && t.kids[i].level == t.level + 1
    ensures Entries(t.kids[i]) <= Entries(t)
  {
  }

  lemma ManyObjects<O>(objs: seq<O>, some: set<O>)
    requires Unique(objs) && forall o :: o in objs ==> o in some
    ensures |objs| <= |some|
  {
    if objs != [] {
      var last := |objs| - 1;
      ManyObjects(objs[..last], some - {objs[last]});
    }
  }

  lemma ObjectsOfEntries<O>(entries: set<Entry<O>>)
    ensures |set e | e in entries :: e.obj| <= |entries|
  {
    if entries != {} {
      var e0 :| e0 in entries;
      ObjectsOfEntries(entries - {e0});
      assert (set e | e in entries :: e.obj) == (set e | e in entries - {e0} :: e.obj) + {e0.obj};
    }
  }

  /** Completeness stops there: pile up more unit rects on an uncovered pixel of the boundary than
      the levels above can hold, and one of these objects is found by no query at all. */
  lemma UncoveredPixelLosesAnObject<O>(cfg: Config, boundary: Rect, level: int, p: Pixel, objs: seq<O>)
    returns (k: nat)
    requires 0 <= boundary.w && 0 <= boundary.h
    requires Inside(p, boundary) && !Covered(cfg, boundary, level, p)
    requires Unique(objs) && |objs| > Max(cfg.capacity, 0) * Room(cfg, level)
    ensures k < |objs|
    ensures forall range :: objs[k] !in Query(Filled(cfg, boundary, level, Piled(p, objs)), range, [])
  {
    var t := Filled(cfg, boundary, level, Piled(p, objs));
    FilledInvariant(cfg, boundary, level, Piled(p, objs));
    UncoveredRoom(cfg, t, p);
    ObjectsOfEntries(Entries(t));
    if forall o :: o in objs ==> o in Objects(t) {
      ManyObjects(objs, Objects(t));
    }
    var o :| o in objs && o !in Objects(t);
    k :| k < |objs| && objs[k] == o;
    forall range ensures o !in Query(t, range, []) {
      QueryMeaning(t, range, []);
      if Shows(Visible(t, range), o) {
        var e :| e in Visible(t, range) && e.obj == o;
        VisibleIsStored(t, range, e);
      }
    }
  }

  /** query misses nothing that shares a pixel of the boundary with the range. */
  ghost predicate FindsAll(cfg: Config, boundary: Rect, level: int, entries: seq<Entry<int>>, range: Rect) {
    forall e, p :: e in entries && Inside(p, e.rect) && Inside(p, range) && Inside(p, boundary)
               ==> e.obj in Query(Filled(cfg, boundary, level, entries), range, [])
  }

  /** The exact condition: on a non-empty boundary, query finds what a full scan finds there, for all
      objects and all ranges, if and only if both sizes halve evenly down to the deepest level. */
  lemma CompleteExactlyWhenHalving(cfg: Config, boundary: Rect, level: int)
    requires 1 <= boundary.w && 1 <= boundary.h
    ensures (forall entries: seq<Entry<int>>, range: Rect ::
               DistinctObjects(entries) ==> FindsAll(cfg, boundary, level, entries, range))
            <==> Halves(boundary.w, Room(cfg, level)) && Halves(boundary.h, Room(cfg, level))
  {
    if Halves(boundary.w, Room(cfg, level)) && Halves(boundary.h, Room(cfg, level)) {
      FullCoverage(cfg, boundary, level);
      forall entries: seq<Entry<int>>, range: Rect | DistinctObjects(entries)
        ensures FindsAll(cfg, boundary, level, entries, range)
      {
        QueryAgainstScan(cfg, boundary, level, entries, range);
      }
    } else {
      var entries, range := LosingEntries(cfg, boundary, level);
    }
  }

  lemma LosingEntries(cfg: Config, boundary: Rect, level: int) returns (entries: seq<Entry<int>>, range: Rect)
    requires 1 <= boundary.w && 1 <= boundary.h
    requires !(Halves(boundary.w, Room(cfg, level)) && Halves(boundary.h, Room(cfg, level)))
    ensures DistinctObjects(entries) && !FindsAll(cfg, boundary, level, entries, range)
  {
    var p := UnevenLoses(cfg, boundary, level);
    var n := Max(cfg.capacity, 0) * Room(cfg, level) + 1;
    assert n >= 1;
    var objs: seq<int> := seq(n, i => i);
    var k := UncoveredPixelLosesAnObject(cfg, boundary, level, p, objs);
    entries, range := Piled(p, objs), UnitRect(p);
    assert entries[k] in entries && entries[k].obj == objs[k];
    assert Inside(p, entries[k].rect) && Inside(p, range);
  }

  /** The game's own screen, 1920 by 1080 with max_level 5, has such pixels. */
  lemma GameScreenIsNotCovered(cfg: Config) returns (p: Pixel)
    requires cfg.maxLevel == 5
    ensures Inside(p, Rect(0, 0, 1920, 1080)) && !Covered(cfg, Rect(0, 0, 1920, 1080), 0, p)
  {
    assert Pow2(5) == 32;
    p := UnevenLoses(cfg, Rect(0, 0, 1920, 1080), 0);
  }

  /** Which ones: the last row of every 135, and the last of every 67 within them. */
  lemma GameScreenCovered(cfg: Config, p: Pixel)
    requires cfg.maxLevel == 5 && Inside(p, Rect(0, 0, 1920, 1080))
    ensures Covered(cfg, Rect(0, 0, 1920, 1080), 0, p) <==> p.y % 135 != 134 && p.y % 135 % 67 != 66
  {
    CoveredByHalving(cfg, Rect(0, 0, 1920, 1080), 0, p);
    ColumnSurvives(p.x);
    RowSurvives(p.y);
  }

  /** The place within its half. */
  function Fold(half: int, d: int): int {
    if d < half then d else d - half
  }

  lemma OneHalving(size: int, half: int, n: nat, d: int)
    requires half == size / 2 && 0 <= d < size
    ensures Survives(size, n + 1, d) <==> d < 2 * half && Survives(half, n, Fold(half, d))
  {
  }

  lemma ColumnSurvives(x: int)
    requires 0 <= x < 1920
    ensures Survives(1920, 5, x)
  {
    hide Survives;
    OneHalving(1920, 960, 4, x);
    var a := Fold(960, x);
    OneHalving(960, 480, 3, a);
    var b := Fold(480, a);
    OneHalving(480, 240, 2, b);
    var c := Fold(240, b);
    OneHalving(240, 120, 1, c);
    var d := Fold(120, c);
    OneHalving(120, 60, 0, d);
    NoHalving(60, Fold(60, d));
  }

  lemma NoHalving(size: int, d: int)
    ensures Survives(size, 0, d) <==> 0 <= d < size
  {
  }

  lemma RowSurvives(y: int)
    requires 0 <= y < 1080
    ensures Survives(1080, 5, y) <==> y % 135 != 134 && y % 135 % 67 != 66
  {
    hide Survives;
    OneHalving(1080, 540, 4, y);
    var a := Fold(540, y);
    OneHalving(540, 270, 3, a);
    var b := Fold(270, a);
    OneHalving(270, 135, 2, b);
    var c := Fold(135, b);
    assert c == y % 135;
    OneHalving(135, 67, 1, c);
    if c < 134 {
      var d := Fold(67, c);
      assert d == c % 67;
      OneHalving(67, 33, 0, d);
      NoHalving(33, Fold(33, d));
    }
  }
}
