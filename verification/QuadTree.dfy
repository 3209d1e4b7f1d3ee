/** The quadtree of pycharm/无敌割草/utils/QuadTree.py as a heap structure: nodes that update
    their own fields, tied by Valid() to the tree value that QuadSpec's operations work on. */
module QuadTree {
  import opened Basics
  import opened Rects
  import opened QuadSpec
  import opened QuadLemmas
  import opened QuadCheck

  /** A game object: its current rect, and whether it starts collisions. */
  class IxObject {
    var rect: Rect
    var isInstigator: bool

    constructor (rect: Rect, isInstigator: bool)
      ensures this.rect == rect && this.isInstigator == isInstigator
    {
      this.rect, this.isInstigator := rect, isInstigator;
    }
  }

  /** The list that one query passes down the tree. */
  class FoundList {
    var items: seq<IxObject>

    constructor ()
      ensures items == []
    {
      items := [];
    }
  }

  class Quadtree {
    var boundary: Rect
    const capacity: int
    const level: int
    const maxLevel: int
    var objects: seq<Entry<IxObject>>
    var divided: bool
    var nw: Quadtree?
    var ne: Quadtree?
    var sw: Quadtree?
    var se: Quadtree?
    ghost var Repr: set<object>
    ghost var kids: seq<Quadtree>  // nw, ne, sw, se once divided
    ghost var tree: Tree<IxObject>

    ghost function Cfg(): Config {
      Config(capacity, maxLevel)
    }

    /** All the nodes of these trees. */
    static ghost function ReprOf(ks: seq<Quadtree>): set<object>
      reads ks
    {
      set i, x | 0 <= i < |ks| && x in ks[i].Repr :: x
    }

    static ghost function TreesOf(ks: seq<Quadtree>): seq<Tree<IxObject>>
      reads ks
    {
      seq(|ks|, i requires 0 <= i < |ks| reads ks => ks[i].tree)
    }

    /** This node's own fields are consistent with those of its children. */
    ghost predicate Links()
      reads this, kids
    {
      && Repr == {this} + ReprOf(kids) && this !in ReprOf(kids)
      && Layered(tree)
      && tree.boundary == boundary && tree.level == level && tree.objects == objects
      && tree.kids == TreesOf(kids)
      && (if divided then kids == [nw, ne, sw, se]
          else kids == [] && nw == null && ne == null && sw == null && se == null)
      && forall i :: 0 <= i < |kids| ==> kids[i].Cfg() == Cfg() && kids[i].level == level + 1
    }

    ghost predicate Valid()
      reads this, Repr
      ensures Valid() ==> this in Repr && Links()
      ensures Valid() ==> Layered(tree) && tree.level == level && tree.boundary == boundary
      decreases Repr
    {
      && this in Repr
      && (forall i :: 0 <= i < |kids| ==> kids[i] in Repr && kids[i].Repr <= Repr && this !in kids[i].Repr)
      && Links()
      && (forall i :: 0 <= i < |kids| ==> kids[i].Valid())
      && (forall i, j :: 0 <= i < j < |kids| ==> kids[i].Repr !! kids[j].Repr)
    }

    /** Valid trees that share no node. */
    static ghost predicate Apart(ks: seq<Quadtree>)
      reads ks, ReprOf(ks)
    {
      && (forall i :: 0 <= i < |ks| ==> ks[i].Valid())
      && (forall i, j :: 0 <= i < j < |ks| ==> ks[i].Repr !! ks[j].Repr)
    }

    lemma Open()
      requires Valid()
      ensures Apart(kids)
    {
    }

    lemma Close()
      requires Links() && Apart(kids)
      ensures Valid()
    {
    }

    constructor (boundary: Rect, capacity: int := 4, level: int := 0, maxLevel: int := 5)
      ensures Valid() && Repr == {this}
      ensures this.capacity == capacity && this.level == level && this.maxLevel == maxLevel
      ensures this.boundary == boundary && tree == EmptyNode(boundary, level)
    {
      this.boundary, this.capacity, this.level, this.maxLevel := boundary, capacity, level, maxLevel;
      objects, divided := [], false;
      nw, ne, sw, se := null, null, null, null;
      Repr, kids := {this}, [];
      tree := EmptyNode(boundary, level);
    }

    /** Empties this node and, on the way out, every node below it. */
    method Clear()
      requires Valid()
      modifies Repr
      ensures Valid() && Repr == {this} && boundary == old(boundary)
      ensures tree == EmptyNode(boundary, level)
      decreases Repr, 1
    {
      hide Valid, Apart, ReprOf;
      Open();
      KidsBelow();
      objects := [];
      if divided {
        ClearEach([nw, ne, sw, se], Repr);
        divided := false;
        nw, ne, sw, se := null, null, null, null;
      }
      Repr, kids := {this}, [];
      tree := EmptyNode(boundary, level);
      NoKids();
      Close();
    }

    static method ClearEach(quads: seq<Quadtree>, ghost above: set<object>)
      requires Apart(quads) && forall i :: 0 <= i < |quads| ==> quads[i].Repr < above
      modifies ReprOf(quads)
      decreases above, 0
    {
      hide Quadtree.Valid, Quadtree.Links;
      for n := 0 to |quads|
        invariant forall i :: n <= i < |quads| ==> quads[i].Valid() && quads[i].Repr == old(quads[i].Repr)
      {
        quads[n].Clear();
      }
    }

    lemma KidsBelow()
      requires Valid()
      ensures forall i :: 0 <= i < |kids| ==> kids[i].Repr < Repr
    {
    }

    lemma NoKids()
      ensures ReprOf([]) == {} && Apart([])
    {
    }

    method Update(newBound: Rect)
      requires Valid()
      modifies Repr
      ensures Valid() && Repr == {this} && tree == EmptyNode(newBound, level)
    {
      boundary := newBound;
      tree := tree.(boundary := newBound);
      Clear();
    }

    /** nw, ne, sw and se with the source's own corners and sizes. */
    static ghost predicate InPlace(b: Rect, ks: seq<Quadtree>)
      reads ks
    {
      && |ks| == 4
      && ks[0].boundary == Rect(b.x, b.y, b.w / 2, b.h / 2)
      && ks[1].boundary == Rect(b.x + b.w / 2, b.y, b.w / 2, b.h / 2)
      && ks[2].boundary == Rect(b.x, b.y + b.h / 2, b.w / 2, b.h / 2)
      && ks[3].boundary == Rect(b.x + b.w / 2, b.y + b.h / 2, b.w / 2, b.h / 2)
    }

    method Subdivide()
      requires Valid() && !divided
      modifies this
      ensures Valid() && fresh(Repr - old(Repr)) && divided
      ensures tree == old(tree).(kids := Quarters(old(boundary), level))
      ensures boundary == old(boundary) && objects == old(objects)
      ensures kids == [nw, ne, sw, se] && InPlace(boundary, kids)
    {
      hide Valid, Apart, ReprOf, QuadSpec.Insert, Quarters, InPlace, Layered;
      var Rect(x, y, w, h) := boundary;
      var hw, hh := w / 2, h / 2;
      var bounds := [Rect(x, y, hw, hh), Rect(x + hw, y, hw, hh),
                     Rect(x, y + hh, hw, hh), Rect(x + hw, y + hh, hw, hh)];
      var quads := NewNodes(bounds, capacity, level + 1, maxLevel);
      FourInPlace(quads, boundary, level);
      Adopt(quads);
    }

    /** The four new nodes become this one's children. */
    method Adopt(quads: seq<Quadtree>)
      requires Valid() && !divided && |quads| == 4 && Apart(quads) && this !in ReprOf(quads) && this !in quads
      requires TreesOf(quads) == Quarters(boundary, level)
      requires forall i :: 0 <= i < 4 ==> quads[i].Cfg() == Cfg() && quads[i].level == level + 1
      modifies this
      ensures Valid() && Repr == {this} + ReprOf(quads) && divided
      ensures tree == old(tree).(kids := Quarters(old(boundary), level))
      ensures boundary == old(boundary) && objects == old(objects)
      ensures kids == [nw, ne, sw, se] && kids == quads
    {
      hide Valid, Apart, ReprOf, Quarters, Layered;
      SplitIsLayered(tree);
      nw, ne, sw, se := quads[0], quads[1], quads[2], quads[3];
      divided, kids := true, quads;
      assert kids == [nw, ne, sw, se];
      Repr := {this} + ReprOf(kids);
      tree := tree.(kids := Quarters(boundary, level));
      Close();
    }

    static lemma FourInPlace(quads: seq<Quadtree>, b: Rect, level: int)
      requires var Rect(x, y, w, h) := b;
               var hw, hh := w / 2, h / 2;
               var bounds := [Rect(x, y, hw, hh), Rect(x + hw, y, hw, hh),
                              Rect(x, y + hh, hw, hh), Rect(x + hw, y + hh, hw, hh)];
               && |quads| == 4 && (forall i :: 0 <= i < 4 ==> quads[i].boundary == bounds[i])
               && TreesOf(quads) == seq(4, i requires 0 <= i < 4 => EmptyNode(bounds[i], level + 1))
      ensures InPlace(b, quads) && TreesOf(quads) == Quarters(b, level)
    {
      QuartersAre<IxObject>(b, level);
    }

    static method NewNodes(bounds: seq<Rect>, capacity: int, level: int, maxLevel: int) returns (quads: seq<Quadtree>)
      ensures |quads| == |bounds| && Apart(quads) && fresh(ReprOf(quads))
      ensures forall i :: 0 <= i < |quads| ==> quads[i].boundary == bounds[i]
      ensures TreesOf(quads) == seq(|bounds|, i requires 0 <= i < |bounds| => EmptyNode(bounds[i], level))
      ensures forall i :: 0 <= i < |quads| ==> quads[i].Cfg() == Config(capacity, maxLevel) && quads[i].level == level
    {
      hide Quadtree.Valid, Quadtree.Links;
      quads := [];
      for n := 0 to |bounds|
        invariant |quads| == n
        invariant forall i :: 0 <= i < n ==> quads[i].Valid() && quads[i].Repr == {quads[i]} && fresh(quads[i])
        invariant forall i, j :: 0 <= i < j < n ==> quads[i] != quads[j]
        invariant forall i :: 0 <= i < n ==>
                    quads[i].tree == EmptyNode(bounds[i], level) && quads[i].boundary == bounds[i]
        invariant forall i :: 0 <= i < n ==> quads[i].Cfg() == Config(capacity, maxLevel) && quads[i].level == level
      {
        var quad := new Quadtree(bounds[n], capacity, level, maxLevel);
        quads := quads + [quad];
      }
    }

    method Insert(objRect: Rect, obj: IxObject) returns (ok: bool)
      requires Valid()
      modifies Repr
      ensures Valid() && fresh(Repr - old(Repr)) && boundary == old(boundary)
      ensures Outcome(tree, ok) == QuadSpec.Insert(Cfg(), old(tree), objRect, obj)
      decreases Room(Cfg(), level), 1
    {
      hide InPlace, Collide, Quarters, KidsToFill;
      if !Collide(boundary, objRect) {
        return false;
      }
      if |objects| < capacity || level >= maxLevel {
        if !Holds(objects, obj) {
          objects := objects + [Entry(objRect, obj)];
          tree := tree.(objects := objects);
        }
        return true;
      }
      if !divided {
        Subdivide();
        SplitFirst(Cfg(), old(tree), objRect, obj);
      }
      ok := PushDown(objRect, obj);
    }

    /** The descent of insert: every child may take the object. */
    method PushDown(objRect: Rect, obj: IxObject) returns (inserted: bool)
      requires Valid() && divided && Collide(boundary, objRect) && !Keeps(Cfg(), tree)
      modifies Repr
      ensures Valid() && fresh(Repr - old(Repr)) && boundary == old(boundary)
      ensures Outcome(tree, inserted) == QuadSpec.Insert(Cfg(), old(tree), objRect, obj)
      decreases Room(Cfg(), level), 0
    {
      hide Valid, QuadSpec.Insert, Apart, ReprOf, Layered, Collide;
      Open();
      ghost var oks;
      inserted, oks := InsertEach([nw, ne, sw, se], objRect, obj);
      Repr := {this} + ReprOf(kids);
      PushedDown(Cfg(), old(tree), objRect, obj, TreesOf(kids), oks);
      tree := tree.(kids := TreesOf(kids));
      Close();
    }

    /** The loop of insert over its four children, which share no node. */
    static method InsertEach(quads: seq<Quadtree>, objRect: Rect, obj: IxObject)
      returns (inserted: bool, ghost oks: seq<bool>)
      requires |quads| == 4 && Apart(quads)
      requires forall i :: 0 <= i < 4 ==> quads[i].Cfg() == quads[0].Cfg() && quads[i].level == quads[0].level
      modifies ReprOf(quads)
      ensures Apart(quads) && fresh(ReprOf(quads) - old(ReprOf(quads)))
      ensures |oks| == 4 && inserted == (true in oks)
      ensures forall i :: 0 <= i < 4 ==>
                Outcome(quads[i].tree, oks[i]) == QuadSpec.Insert(quads[0].Cfg(), old(quads[i].tree), objRect, obj)
      decreases Room(quads[0].Cfg(), quads[0].level), 3
    {
      hide Quadtree.Valid, Quadtree.Links, Quadtree.Cfg, QuadSpec.Insert, Layered, Room, Apart, ReprOf;
      inserted, oks := false, [];
      ghost var cfg, was := quads[0].Cfg(), TreesOf(quads);
      ApartAre(quads);
      for n := 0 to 4
        invariant |oks| == n && inserted == (true in oks)
        invariant Apart(quads) && fresh(ReprOf(quads) - old(ReprOf(quads)))
        invariant forall i :: n <= i < 4 ==> quads[i].tree == was[i]
        invariant forall i :: 0 <= i < n ==>
                    Outcome(quads[i].tree, oks[i]) == QuadSpec.Insert(cfg, was[i], objRect, obj)
      {
        ApartAre(quads);
        var ok := InsertNth(quads, n, quads[n], objRect, obj);
        assert Outcome(quads[n].tree, ok) == QuadSpec.Insert(cfg, was[n], objRect, obj);
        inserted := ok || inserted;
        oks := oks + [ok];
      }
    }

    static lemma ApartAre(quads: seq<Quadtree>)
      requires Apart(quads)
      ensures forall i :: 0 <= i < |quads| ==> quads[i].Repr <= ReprOf(quads) && Layered(quads[i].tree)
    {
    }

    /** One turn of that loop inserts into one child and touches no other. */
    static method InsertNth(ghost quads: seq<Quadtree>, ghost n: nat, quad: Quadtree, objRect: Rect, obj: IxObject)
      returns (ok: bool)
      requires n < |quads| && quads[n] == quad && Apart(quads)
      modifies quad.Repr
      ensures Apart(quads) && forall x :: x in ReprOf(quads) ==> x in old(ReprOf(quads)) || fresh(x)
      ensures Outcome(quad.tree, ok) == QuadSpec.Insert(quad.Cfg(), old(quad.tree), objRect, obj)
      ensures forall i :: 0 <= i < |quads| && i != n ==> quads[i].tree == old(quads[i].tree)
      decreases Room(quad.Cfg(), quad.level), 2
    {
      hide Quadtree.Valid, Quadtree.Links, Quadtree.Cfg, QuadSpec.Insert, Layered, Room;
      ok := quad.Insert(objRect, obj);
      assert forall i :: 0 <= i < |quads| && i != n ==> quads[i].Repr == old(quads[i].Repr) && quads[i].Valid();
    }

    /** Appends to the shared list what this tree shows of the range. */
    method Query(range: Rect, found: FoundList)
      requires Valid() && found !in Repr
      modifies found
      ensures found.items == QuadSpec.Query(tree, range, old(found.items))
      decreases Repr, 1
    {
      hide Valid, QuadSpec.Query, Apart, ReprOf, Collide, Layered;
      QueryOfNode(tree, range, found.items);
      if !Collide(boundary, range) {
        return;
      }
      Scan(range, found);
      if divided {
        Open();
        KidsBelow();
        assert kids[0] == nw && kids[1] == ne && kids[2] == sw && kids[3] == se;
        QueryFour(kids, nw, ne, sw, se, range, found, Repr);
      }
    }

    /** The scan of this node's own objects. */
    method Scan(range: Rect, found: FoundList)
      requires found as object != this
      modifies found
      ensures found.items == Collect(objects, range, old(found.items))
    {
      for n := 0 to |objects|
        invariant found.items == Collect(objects[..n], range, old(found.items))
      {
        var Entry(rect, obj) := objects[n];
        assert objects[..n + 1][..n] == objects[..n];
        if Collide(range, rect) {
          if obj !in found.items {
            found.items := found.items + [obj];
          }
        }
      }
      assert objects[..|objects|] == objects;
    }

    static method QueryFour(ghost kids: seq<Quadtree>, nw: Quadtree, ne: Quadtree, sw: Quadtree, se: Quadtree,
                            range: Rect, found: FoundList, ghost above: set<object>)
      requires kids == [nw, ne, sw, se] && Apart(kids)
      requires forall i :: 0 <= i < 4 ==> kids[i].Repr < above
      requires found !in above
      modifies found
      ensures found.items == QueryEach(TreesOf(kids), range, old(found.items))
      decreases above, 0
    {
      hide Quadtree.Valid, Quadtree.Links;
      assert nw == kids[0] && ne == kids[1] && sw == kids[2] && se == kids[3];
      FourQueries(nw.tree, ne.tree, sw.tree, se.tree, range, found.items);
      assert TreesOf(kids) == [nw.tree, ne.tree, sw.tree, se.tree];
      nw.Query(range, found);
      ne.Query(range, found);
      sw.Query(range, found);
      se.Query(range, found);
    }

    /** Collision detection of one frame; the log stands for the calls of on_collision. */
    method Check() returns (log: seq<(IxObject, IxObject)>)
      requires Valid()
      ensures IsCheckLog(tree, Look(Objects(tree)), log)
    {
      log := CheckStored(Objects(tree));
    }

    /** check, with the stored objects named. */
    method CheckStored(ghost stored: set<IxObject>) returns (log: seq<(IxObject, IxObject)>)
      requires Valid() && stored == Objects(tree)
      ensures IsCheckLog(tree, Look(stored), log)
    {
      hide Valid, QuadSpec.Query, Objects, LogSoFar, CallersDone, HitsDone, IsCheckLog, InTurn, From, FromCallers;
      ghost var s := Look(stored);
      var handled: set<set<IxObject>> := {};
      log := [];
      var candidates := new FoundList();
      Query(boundary, candidates);
      var all := candidates.items;
      LogNothing(tree, s);
      NothingInTurn(tree, s);
      for i := 0 to |all|
        invariant Look(stored) == s
        invariant InTurn(tree, s, log) && FromCallers(log, all[..i])
        invariant LogSoFar(tree, s, log, handled) && CallersDone(tree, s, handled, all[..i])
      {
        QueriedIsStored(tree, boundary, all[i]);
        FromEnds(log, all, i, []);
        ghost var before := handled;
        if all[i].isInstigator {
          log, handled := CheckHits(all[i], log, handled, stored, i);
        }
        OneCallerMore(tree, s, before, handled, all[..i], all[i]);
        assert all[..i + 1] == all[..i] + [all[i]];
      }
      assert all[..|all|] == all;
      LogIsComplete(tree, s, log, handled);
    }

    /** The inner loop of check: everything that one instigator, the i-th found, hits. */
    method CheckHits(obj: IxObject, soFar: seq<(IxObject, IxObject)>, handledSoFar: set<set<IxObject>>,
                     ghost stored: set<IxObject>, ghost i: nat)
      returns (log: seq<(IxObject, IxObject)>, handled: set<set<IxObject>>)
      requires Valid() && stored == Objects(tree)
      requires i < |QueryNew(tree, tree.boundary)| && obj == QueryNew(tree, tree.boundary)[i]
      requires obj in stored && obj.isInstigator
      requires LogSoFar(tree, Look(stored), soFar, handledSoFar)
      requires InTurn(tree, Look(stored), soFar) && FromCallers(soFar, QueryNew(tree, tree.boundary)[..i])
      requires CallersDone(tree, Look(stored), handledSoFar, QueryNew(tree, tree.boundary)[..i])
      ensures LogSoFar(tree, Look(stored), log, handled) && handledSoFar <= handled
      ensures HitsDone(tree, Look(stored), handled, obj, QueryNew(tree, obj.rect))
      ensures InTurn(tree, Look(stored), log) && FromCallers(log, QueryNew(tree, tree.boundary)[..i + 1])
    {
      hide Valid, QuadSpec.Query, Objects, LogSoFar, HitsDone, InTurn, From, FromCallers, CallersDone;
      ghost var s, all := Look(stored), QueryNew(tree, tree.boundary);
      log, handled := soFar, handledSoFar;
      var found := new FoundList();
      Query(obj.rect, found);
      var hits := found.items;
      NoHits(tree, s, handled, obj);
      FromEnds(log, all, i, hits[..0]);
      for j := 0 to |hits|
        invariant LogSoFar(tree, s, log, handled) && handledSoFar <= handled
        invariant HitsDone(tree, s, handled, obj, hits[..j])
        invariant InTurn(tree, s, log) && From(log, all[..i], obj, hits[..j])
      {
        var other := hits[j];
        QueriedIsStored(tree, obj.rect, other);
        FromStep(log, all[..i], obj, hits, j);
        ghost var before := handled;
        var pair := {obj, other};
        if other != obj && pair !in handled && Collide(obj.rect, other.rect) {
          LogOneMore(tree, s, log, handled, obj, other);
          TurnOfHit(tree, s, log, handledSoFar, i, j);
          log := log + [(obj, other)];
          handled := handled + {pair};
        }
        OneHitMore(tree, s, before, handled, obj, hits[..j], other);
        assert hits[..j + 1] == hits[..j] + [other];
      }
      assert hits[..|hits|] == hits;
      FromEnds(log, all, i, hits);
    }
  }

  function EntriesOf(objs: seq<IxObject>): seq<Entry<IxObject>>
    reads objs
  {
    seq(|objs|, i requires 0 <= i < |objs| reads objs => Entry(objs[i].rect, objs[i]))
  }

  /** One frame: clear the tree to a new boundary, insert every object, let the objects move, check for
      collisions. The log is sound against where the objects are now. It is complete for an instigator
      that was inserted at some covered pixel and now shares one with the rect that the object it
      overlaps was inserted with. */
  method RunFrame(q: Quadtree, newBound: Rect, objs: seq<IxObject>, moved: seq<Rect>)
    returns (log: seq<(IxObject, IxObject)>)
    requires q.Valid() && Unique(objs) && forall o :: o in objs ==> o !in q.Repr
    requires |moved| == |objs|
    modifies q.Repr, objs
    ensures q.Valid() && q.tree == Filled(q.Cfg(), newBound, q.level, old(EntriesOf(objs)))
    ensures forall i :: 0 <= i < |objs| ==> objs[i].rect == moved[i]
    ensures OncePerPair(log)
    ensures forall k :: 0 <= k < |log| ==>
              log[k].0.isInstigator && log[k].0 != log[k].1 && Collide(log[k].0.rect, log[k].1.rect)
    ensures forall i, j :: 0 <= i < |objs| && 0 <= j < |objs| && i != j && objs[i].isInstigator
                           && Collide(moved[i], moved[j])
                           && MeetCovered(q.Cfg(), newBound, q.level, old(objs[i].rect), old(objs[i].rect))
                           && MeetCovered(q.Cfg(), newBound, q.level, moved[i], old(objs[j].rect))
                       ==> Logged(log, objs[i], objs[j])
  {
    hide Quadtree.Valid, Filled, MeetCovered, IsCheckLog, Quadtree.Cfg;
    ghost var entries := EntriesOf(objs);
    Refill(q, newBound, objs);
    MoveAll(q, objs, moved);
    log := q.Check();
    FrameLog(q.Cfg(), newBound, q.level, objs, entries, q.tree, log);
  }

  /** The objects move; the tree keeps the rects they were inserted with. */
  method MoveAll(ghost q: Quadtree, objs: seq<IxObject>, moved: seq<Rect>)
    requires q.Valid() && Unique(objs) && |moved| == |objs| && forall o :: o in objs ==> o !in q.Repr
    modifies objs
    ensures q.Valid() && forall i :: 0 <= i < |objs| ==> objs[i].rect == moved[i]
    ensures forall o :: o in objs ==> o.isInstigator == old(o.isInstigator)
  {
    for n := 0 to |objs|
      invariant q.Valid()
      invariant forall i :: 0 <= i < n ==> objs[i].rect == moved[i]
      invariant forall o :: o in objs ==> o.isInstigator == old(o.isInstigator)
    {
      objs[n].rect := moved[n];
    }
  }

  method Refill(q: Quadtree, newBound: Rect, objs: seq<IxObject>)
    requires q.Valid() && forall o :: o in objs ==> o !in q.Repr
    modifies q.Repr
    ensures q.Valid() && fresh(q.Repr - old(q.Repr))
    ensures q.tree == Filled(q.Cfg(), newBound, q.level, old(EntriesOf(objs)))
  {
    hide Quadtree.Valid, Quadtree.Links, QuadSpec.Insert;
    ghost var entries := EntriesOf(objs);
    q.Update(newBound);
    assert entries[..0] == [];
    for n := 0 to |objs|
      invariant q.Valid() && fresh(q.Repr - old(q.Repr))
      invariant forall o :: o in objs ==> o.rect == old(o.rect) && o !in q.Repr
      invariant q.tree == Filled(q.Cfg(), newBound, q.level, entries[..n])
    {
      assert entries[n] == Entry(objs[n].rect, objs[n]);
      assert entries[..n + 1][..n] == entries[..n];
      assert objs[n] in objs;
      var ok := q.Insert(objs[n].rect, objs[n]);
    }
    assert entries[..|objs|] == entries;
  }

  lemma FrameLog(cfg: Config, boundary: Rect, level: int, objs: seq<IxObject>, entries: seq<Entry<IxObject>>,
                 t: Tree<IxObject>, log: seq<(IxObject, IxObject)>)
    requires Unique(objs) && |entries| == |objs| && forall i :: 0 <= i < |objs| ==> entries[i].obj == objs[i]
    requires t == Filled(cfg, boundary, level, entries) && IsCheckLog(t, Look(Objects(t)), log)
    ensures OncePerPair(log)
    ensures forall k :: 0 <= k < |log| ==>
              log[k].0.isInstigator && log[k].0 != log[k].1 && Collide(log[k].0.rect, log[k].1.rect)
    ensures forall i, j :: 0 <= i < |objs| && 0 <= j < |objs| && i != j && objs[i].isInstigator
                           && Collide(objs[i].rect, objs[j].rect)
                           && MeetCovered(cfg, boundary, level, entries[i].rect, entries[i].rect)
                           && MeetCovered(cfg, boundary, level, objs[i].rect, entries[j].rect)
                       ==> Logged(log, objs[i], objs[j])
  {
    hide Query, Filled, MeetCovered, IsCheckLog, Collide;
    var s := Look(Objects(t));
    CheckAgainstBruteForce(cfg, boundary, level, entries, s, log);
    forall i, j | 0 <= i < |objs| && 0 <= j < |objs| && i != j && objs[i].isInstigator
                  && Collide(objs[i].rect, objs[j].rect)
                  && MeetCovered(cfg, boundary, level, entries[i].rect, entries[i].rect)
                  && MeetCovered(cfg, boundary, level, objs[i].rect, entries[j].rect)
      ensures Logged(log, objs[i], objs[j])
    {
      IsQueried(cfg, boundary, level, entries, entries[i].rect, entries[i]);
      IsQueried(cfg, boundary, level, entries, objs[i].rect, entries[j]);
    }
  }

  /** The given objects as check finds them. */
  ghost function Look(stored: set<IxObject>): Snapshot<IxObject>
    reads stored
  {
    Snapshot(map o | o in stored :: o.rect, set o | o in stored && o.isInstigator)
  }

  lemma QueryOfNode<O>(t: Tree<O>, range: Rect, found: seq<O>)
    ensures QuadSpec.Query(t, range, found)
            == if Collide(t.boundary, range) then QueryEach(t.kids, range, Collect(t.objects, range, found)) else found
  {
  }

  lemma FourQueries<O>(a: Tree<O>, b: Tree<O>, c: Tree<O>, d: Tree<O>, range: Rect, found: seq<O>)
    ensures QueryEach([a, b, c, d], range, found)
            == QuadSpec.Query(d, range,
                 QuadSpec.Query(c, range, QuadSpec.Query(b, range, QuadSpec.Query(a, range, found))))
  {
    hide QuadSpec.Query;
    assert [a, b, c, d][..3] == [a, b, c];
    assert [a, b, c][..2] == [a, b];
    assert [a, b][..1] == [a];
    assert QueryEach([a, b], range, found) == QuadSpec.Query(b, range, QueryEach([a], range, found));
    assert QueryEach([a, b, c], range, found) == QuadSpec.Query(c, range, QueryEach([a, b], range, found));
  }

  lemma QuartersAre<O>(b: Rect, level: int)
    ensures Quarters<O>(b, level)
            == [EmptyNode(Rect(b.x, b.y, b.w / 2, b.h / 2), level + 1),
                EmptyNode(Rect(b.x + b.w / 2, b.y, b.w / 2, b.h / 2), level + 1),
                EmptyNode(Rect(b.x, b.y + b.h / 2, b.w / 2, b.h / 2), level + 1),
                EmptyNode(Rect(b.x + b.w / 2, b.y + b.h / 2, b.w / 2, b.h / 2), level + 1)]
  {
  }

  lemma SplitIsLayered<O>(t: Tree<O>)
    ensures Layered(t.(kids := Quarters(t.boundary, t.level)))
  {
  }

  /** Splitting before the descent is what the value-level insert does within it. */
  lemma SplitFirst<O>(cfg: Config, t: Tree<O>, r: Rect, o: O)
    requires Layered(t) && t.kids == [] && !Keeps(cfg, t) && Collide(t.boundary, r)
    ensures var split := t.(kids := Quarters(t.boundary, t.level));
            Layered(split) && QuadSpec.Insert(cfg, split, r, o) == QuadSpec.Insert(cfg, t, r, o)
  {
    var split := t.(kids := Quarters(t.boundary, t.level));
    assert KidsToFill(split) == KidsToFill(t);
    assert QuadSpec.Insert(cfg, split, r, o).tree.kids == QuadSpec.Insert(cfg, t, r, o).tree.kids;
  }

  lemma PushedDown<O>(cfg: Config, t: Tree<O>, r: Rect, o: O, kids: seq<Tree<O>>, oks: seq<bool>)
    requires Layered(t) && |t.kids| == |kids| == |oks| == 4 && !Keeps(cfg, t) && Collide(t.boundary, r)
    requires forall i :: 0 <= i < 4 ==> Outcome(kids[i], oks[i]) == QuadSpec.Insert(cfg, t.kids[i], r, o)
    ensures QuadSpec.Insert(cfg, t, r, o) == Outcome(t.(kids := kids), true in oks)
  {
    var out := QuadSpec.Insert(cfg, t, r, o);
    assert out.tree.kids == kids;
    assert out.ok <==> exists i :: 0 <= i < 4 && oks[i];
  }
}
