/** The collision log of one frame, and what it says about brute force over all pairs. */
module QuadCheck {
  import opened Basics
  import opened Rects
  import opened QuadSpec
  import opened QuadLemmas
  import opened QuadCoverage

  /** What check sees of the objects: where they are now, and which of them start collisions. */
  datatype Snapshot<O> = Snapshot(rects: map<O, Rect>, instigators: set<O>)

  ghost predicate Overlap<O>(s: Snapshot<O>, a: O, b: O) {
    a in s.rects && b in s.rects && Collide(s.rects[a], s.rects[b])
  }

  /** a is a candidate, b is among its hits, and they overlap now. */
  ghost predicate Fires<O>(t: Tree<O>, s: Snapshot<O>, a: O, b: O) {
    && a in Objects(t) && b in Objects(t) && a in s.instigators && a != b && Overlap(s, a, b)
    && a in Query(t, t.boundary, [])
    && b in Query(t, s.rects[a], [])
  }

  /** The unordered pairs of a log. */
  ghost function Pairs<O>(log: seq<(O, O)>): set<set<O>> {
    set k | 0 <= k < |log| :: {log[k].0, log[k].1}
  }

  /** The pair {a, b} is in the log, whoever of the two called. */
  ghost predicate Logged<O>(log: seq<(O, O)>, a: O, b: O) {
    {a, b} in Pairs(log)
  }

  ghost predicate OncePerPair<O>(log: seq<(O, O)>) {
    forall j, k :: 0 <= j < k < |log| ==> {log[j].0, log[j].1} != {log[k].0, log[k].1}
  }

  /** A query from scratch. */
  ghost function QueryNew<O>(t: Tree<O>, range: Rect): seq<O> {
    Query(t, range, [])
  }

  ghost predicate Before<O>(q: seq<O>, a: O, b: O) {
    exists i, j :: 0 <= i < j < |q| && q[i] == a && q[j] == b
  }

  /** Of a pair that could fire both ways, the one that is found first calls. */
  ghost predicate FirstCalls<O>(t: Tree<O>, s: Snapshot<O>, log: seq<(O, O)>) {
    forall k :: 0 <= k < |log| && Fires(t, s, log[k].1, log[k].0) ==>
      Before(QueryNew(t, t.boundary), log[k].0, log[k].1)
  }

  /** The first call comes from a caller found earlier, or from the same one about an earlier hit. */
  ghost predicate CallsBefore<O>(t: Tree<O>, s: Snapshot<O>, first: (O, O), second: (O, O)) {
    || Before(QueryNew(t, t.boundary), first.0, second.0)
    || (first.0 == second.0 && first.0 in s.rects
        && Before(QueryNew(t, s.rects[first.0]), first.1, second.1))
  }

  ghost predicate InTurn<O>(t: Tree<O>, s: Snapshot<O>, log: seq<(O, O)>) {
    && FirstCalls(t, s, log)
    && forall j, k :: 0 <= j < k < |log| ==> CallsBefore(t, s, log[j], log[k])
  }

  /** The log holds only firing pairs, each unordered pair at most once, and misses none; who calls and
      in which order follows from the order in which the queries find them. */
  ghost predicate IsCheckLog<O>(t: Tree<O>, s: Snapshot<O>, log: seq<(O, O)>) {
    && (forall k :: 0 <= k < |log| ==> Fires(t, s, log[k].0, log[k].1))
    && OncePerPair(log)
    && (forall a, b :: a in Objects(t) && b in Objects(t) && Fires(t, s, a, b) ==> Logged(log, a, b))
    && InTurn(t, s, log)
  }

  // ---------- the invariants of check's loops ----------

  /** The log so far is in order, and handled holds exactly its pairs. */
  ghost predicate LogSoFar<O>(t: Tree<O>, s: Snapshot<O>, log: seq<(O, O)>, handled: set<set<O>>) {
    && (forall k :: 0 <= k < |log| ==> Fires(t, s, log[k].0, log[k].1))
    && OncePerPair(log)
    && handled == Pairs(log)
  }

  /** Whatever the callers fire at is logged. */
  ghost predicate CallersDone<O>(t: Tree<O>, s: Snapshot<O>, handled: set<set<O>>, callers: seq<O>) {
    forall a, b :: a in callers && b in Objects(t) && Fires(t, s, a, b) ==> {a, b} in handled
  }

  /** Whatever a fires at among these hits is logged. */
  ghost predicate HitsDone<O>(t: Tree<O>, s: Snapshot<O>, handled: set<set<O>>, a: O, hits: seq<O>) {
    forall b :: b in hits && Fires(t, s, a, b) ==> {a, b} in handled
  }

  lemma LogNothing<O>(t: Tree<O>, s: Snapshot<O>)
    ensures LogSoFar(t, s, [], {}) && CallersDone(t, s, {}, [])
  {
  }

  lemma NoHits<O>(t: Tree<O>, s: Snapshot<O>, handled: set<set<O>>, a: O)
    ensures HitsDone(t, s, handled, a, [])
  {
  }

  lemma LogOneMore<O>(t: Tree<O>, s: Snapshot<O>, log: seq<(O, O)>, handled: set<set<O>>, a: O, b: O)
    requires LogSoFar(t, s, log, handled) && Fires(t, s, a, b) && {a, b} !in handled
    ensures LogSoFar(t, s, log + [(a, b)], handled + {{a, b}})
  {
    var more := log + [(a, b)];
    assert more[|log|] == (a, b);
    assert forall k :: 0 <= k < |log| ==> {log[k].0, log[k].1} in Pairs(log);
    forall x ensures x in Pairs(more) <==> x in Pairs(log) || x == {a, b} {
      if x in Pairs(log) {
        var k :| 0 <= k < |log| && {log[k].0, log[k].1} == x;
        assert more[k] == log[k];
      }
    }
  }

  /** What is in the log comes from these callers, or from a about these hits. */
  ghost predicate From<O>(log: seq<(O, O)>, callers: seq<O>, a: O, hits: seq<O>) {
    forall k :: 0 <= k < |log| ==> log[k].0 in callers || (log[k].0 == a && log[k].1 in hits)
  }

  ghost predicate FromCallers<O>(log: seq<(O, O)>, callers: seq<O>) {
    forall k :: 0 <= k < |log| ==> log[k].0 in callers
  }

  lemma NothingInTurn<O>(t: Tree<O>, s: Snapshot<O>)
    ensures InTurn(t, s, []) && FromCallers<O>([], [])
  {
  }

  /** Logging a's next hit keeps the turn: all earlier callers have been through, so that b, if it
      fires back, comes later. */
  lemma TurnOfHit<O>(t: Tree<O>, s: Snapshot<O>, log: seq<(O, O)>, handled: set<set<O>>, i: nat, j: nat)
    requires i < |QueryNew(t, t.boundary)|
    requires var a := QueryNew(t, t.boundary)[i];
             && a in s.rects && j < |QueryNew(t, s.rects[a])|
             && var b := QueryNew(t, s.rects[a])[j];
                && a != b && {a, b} !in handled
                && CallersDone(t, s, handled, QueryNew(t, t.boundary)[..i])
                && InTurn(t, s, log)
                && From(log, QueryNew(t, t.boundary)[..i], a, QueryNew(t, s.rects[a])[..j])
    ensures var a := QueryNew(t, t.boundary)[i];
            InTurn(t, s, log + [(a, QueryNew(t, s.rects[a])[j])])
  {
    hide QueryNew;
    var all := QueryNew(t, t.boundary);
    var a := all[i];
    var hits := QueryNew(t, s.rects[a]);
    var b := hits[j];
    var more := log + [(a, b)];
    if Fires(t, s, b, a) {
      FoundLater(t, s, handled, all, i, b);
    }
    assert FirstCalls(t, s, more) by {
      forall k | 0 <= k < |more| && Fires(t, s, more[k].1, more[k].0) ensures Before(all, more[k].0, more[k].1) {
        if k < |log| {
          assert more[k] == log[k];
        }
      }
    }
    forall k | 0 <= k < |log| ensures CallsBefore(t, s, log[k], (a, b)) {
      if log[k].0 in all[..i] {
        var x :| 0 <= x < i && all[x] == log[k].0;
        assert Before(all, log[k].0, a);
      } else {
        var x :| 0 <= x < j && hits[x] == log[k].1;
        assert Before(hits, log[k].1, b);
      }
    }
    forall x, y | 0 <= x < y < |more| ensures CallsBefore(t, s, more[x], more[y]) {
      if y < |log| {
        assert more[x] == log[x] && more[y] == log[y];
      }
    }
  }

  lemma FoundLater<O>(t: Tree<O>, s: Snapshot<O>, handled: set<set<O>>, all: seq<O>, i: nat, b: O)
    requires all == QueryNew(t, t.boundary) && i < |all| && all[i] != b && {all[i], b} !in handled
    requires CallersDone(t, s, handled, all[..i]) && Fires(t, s, b, all[i])
    ensures Before(all, all[i], b)
  {
    assert {b, all[i]} == {all[i], b};
    var y :| 0 <= y < |all| && all[y] == b;
    assert b !in all[..i];
  }

  lemma FromStep<O>(log: seq<(O, O)>, callers: seq<O>, a: O, hits: seq<O>, j: nat)
    requires j < |hits| && From(log, callers, a, hits[..j])
    ensures From(log, callers, a, hits[..j + 1]) && From(log + [(a, hits[j])], callers, a, hits[..j + 1])
  {
    assert hits[..j + 1] == hits[..j] + [hits[j]];
  }

  lemma FromEnds<O>(log: seq<(O, O)>, all: seq<O>, i: nat, hits: seq<O>)
    requires i < |all|
    ensures FromCallers(log, all[..i]) ==> From(log, all[..i], all[i], hits) && FromCallers(log, all[..i + 1])
    ensures From(log, all[..i], all[i], hits) ==> FromCallers(log, all[..i + 1])
  {
    assert all[..i + 1] == all[..i] + [all[i]];
  }

  lemma OneHitMore<O>(t: Tree<O>, s: Snapshot<O>, before: set<set<O>>, after: set<set<O>>, a: O, hits: seq<O>, b: O)
    requires HitsDone(t, s, before, a, hits) && before <= after && (Fires(t, s, a, b) ==> {a, b} in after)
    ensures HitsDone(t, s, after, a, hits + [b])
  {
  }

  lemma OneCallerMore<O>(t: Tree<O>, s: Snapshot<O>, before: set<set<O>>, after: set<set<O>>, callers: seq<O>, a: O)
    requires CallersDone(t, s, before, callers) && before <= after
    requires a in s.instigators ==> a in s.rects && HitsDone(t, s, after, a, QueryNew(t, s.rects[a]))
    ensures CallersDone(t, s, after, callers + [a])
  {
  }

  lemma LogIsComplete<O>(t: Tree<O>, s: Snapshot<O>, log: seq<(O, O)>, handled: set<set<O>>)
    requires LogSoFar(t, s, log, handled) && CallersDone(t, s, handled, QueryNew(t, t.boundary))
    requires InTurn(t, s, log)
    ensures IsCheckLog(t, s, log)
  {
    hide InTurn;
  }

  /** check looks at every stored object, at the rect it was inserted with. */
  ghost predicate Unmoved<O>(t: Tree<O>, entries: seq<Entry<O>>, s: Snapshot<O>) {
    Objects(t) <= s.rects.Keys && forall e :: e in entries && e.obj in s.rects ==> s.rects[e.obj] == e.rect
  }

  /** Some covered pixel lies in both rects. */
  ghost predicate MeetCovered(cfg: Config, boundary: Rect, level: int, a: Rect, b: Rect) {
    exists p :: Inside(p, a) && Inside(p, b) && Covered(cfg, boundary, level, p)
  }

  /** One frame: whatever check logs is an instigator hitting another object that it overlaps now, each
      unordered pair once. However the objects have moved since they were inserted, no overlap is
      missed of an instigator that was inserted at some covered pixel and now shares one with the rect
      that the other was inserted with; with unmoved rects that is every overlap on a covered pixel. */
  lemma CheckAgainstBruteForce<O>(
    cfg: Config, boundary: Rect, level: int, entries: seq<Entry<O>>, s: Snapshot<O>, log: seq<(O, O)>)
    requires DistinctObjects(entries) && IsCheckLog(Filled(cfg, boundary, level, entries), s, log)
    ensures OncePerPair(log)
    ensures forall k :: 0 <= k < |log| ==>
              log[k].0 in s.instigators && log[k].0 != log[k].1 && Overlap(s, log[k].0, log[k].1)
    ensures forall e, f :: e in entries && f in entries && e.obj != f.obj && e.obj in s.instigators
                           && Overlap(s, e.obj, f.obj) && MeetCovered(cfg, boundary, level, e.rect, e.rect)
                           && MeetCovered(cfg, boundary, level, s.rects[e.obj], f.rect)
                       ==> Logged(log, e.obj, f.obj)
    ensures Unmoved(Filled(cfg, boundary, level, entries), entries, s) ==>
              forall e, f :: e in entries && f in entries && e.obj != f.obj && e.obj in s.instigators
                             && MeetCovered(cfg, boundary, level, e.rect, f.rect)
                         ==> Logged(log, e.obj, f.obj)
  {
    hide Query, Filled, InTurn;
    var t := Filled(cfg, boundary, level, entries);
    forall e, f | e in entries && f in entries && e.obj != f.obj && e.obj in s.instigators
                  && Overlap(s, e.obj, f.obj) && MeetCovered(cfg, boundary, level, e.rect, e.rect)
                  && MeetCovered(cfg, boundary, level, s.rects[e.obj], f.rect)
      ensures Logged(log, e.obj, f.obj)
    {
      IsQueried(cfg, boundary, level, entries, e.rect, e);
      IsQueried(cfg, boundary, level, entries, s.rects[e.obj], f);
    }
    if Unmoved(t, entries, s) {
      forall e, f | e in entries && f in entries && e.obj != f.obj && e.obj in s.instigators
                    && MeetCovered(cfg, boundary, level, e.rect, f.rect)
        ensures Logged(log, e.obj, f.obj)
      {
        var p :| Inside(p, e.rect) && Inside(p, f.rect) && Covered(cfg, boundary, level, p);
        CollideIsSharingAPixel(e.rect, f.rect);
        assert MeetCovered(cfg, boundary, level, e.rect, e.rect);
        IsQueried(cfg, boundary, level, entries, e.rect, e);
        IsQueried(cfg, boundary, level, entries, e.rect, f);
      }
    }
  }

  /** Sharing a covered pixel with the range, an inserted object is found by its query and by that of
      the whole boundary. */
  lemma IsQueried<O>(
    cfg: Config, boundary: Rect, level: int, entries: seq<Entry<O>>, range: Rect, e: Entry<O>)
    requires DistinctObjects(entries) && e in entries && MeetCovered(cfg, boundary, level, range, e.rect)
    ensures var t := Filled(cfg, boundary, level, entries);
            e.obj in Query(t, range, []) && e.obj in Query(t, boundary, []) && e.obj in Objects(t)
  {
    QueryAgainstScan(cfg, boundary, level, entries, range);
    QueryAgainstScan(cfg, boundary, level, entries, boundary);
    QueriedIsStored(Filled(cfg, boundary, level, entries), range, e.obj);
  }

  lemma QueriedIsStored<O>(t: Tree<O>, range: Rect, o: O)
    requires o in Query(t, range, [])
    ensures o in Objects(t)
  {
    QueryMeaning(t, range, []);
    assert Shows(Visible(t, range), o);
    var e :| e in Visible(t, range) && e.obj == o;
    VisibleIsStored(t, range, e);
  }

  /** With evenly halving sizes and all objects inside the boundary, the log is brute force: a pair
      is logged exactly when the two overlap and one of them is an instigator. */
  lemma CheckIsBruteForce<O>(
    cfg: Config, boundary: Rect, level: int, entries: seq<Entry<O>>, s: Snapshot<O>, log: seq<(O, O)>,
    e: Entry<O>, f: Entry<O>)
    requires DistinctObjects(entries) && IsCheckLog(Filled(cfg, boundary, level, entries), s, log)
    requires Unmoved(Filled(cfg, boundary, level, entries), entries, s) && 1 <= boundary.w && 1 <= boundary.h
    requires Halves(boundary.w, Room(cfg, level)) && Halves(boundary.h, Room(cfg, level))
    requires e in entries && f in entries && e.obj != f.obj
    requires Within(e.rect, boundary) && Within(f.rect, boundary)
    ensures Logged(log, e.obj, f.obj) <==>
            Collide(e.rect, f.rect) && (e.obj in s.instigators || f.obj in s.instigators)
  {
    hide Query, Filled, InTurn, Fires, Covered;
    CheckAgainstBruteForce(cfg, boundary, level, entries, s, log);
    FullCoverage(cfg, boundary, level);
    if Collide(e.rect, f.rect) {
      var p := CommonPixel(e.rect, f.rect);
      assert Inside(p, boundary);
      assert MeetCovered(cfg, boundary, level, e.rect, f.rect);
      assert MeetCovered(cfg, boundary, level, f.rect, e.rect);
      assert {f.obj, e.obj} == {e.obj, f.obj};
    }
    if Logged(log, e.obj, f.obj) {
      var k :| 0 <= k < |log| && {log[k].0, log[k].1} == {e.obj, f.obj};
      assert log[k].0 in {e.obj, f.obj} && log[k].1 in {e.obj, f.obj};
    }
  }
}
