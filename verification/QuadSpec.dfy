/** The quadtree as a value: what each operation of pycharm/无敌割草/utils/QuadTree.py does to
    the tree, and what the tree therefore knows about the objects put into it. */
module QuadSpec {
  import opened Basics
  import opened Rects

  datatype Config = Config(capacity: int, maxLevel: int)

  datatype Entry<O> = Entry(rect: Rect, obj: O)

  /** kids is empty, or holds nw, ne, sw, se in that order. */
  datatype Tree<O> = Node(boundary: Rect, level: int, objects: seq<Entry<O>>, kids: seq<Tree<O>>)

  // ---------- operations ----------

  function EmptyNode<O>(boundary: Rect, level: int): Tree<O> {
    Node(boundary, level, [], [])
  }

  /** Quadrant i (nw, ne, sw, se) of b; an odd size loses its last column or row. */
  function Quadrant(b: Rect, i: int): Rect {
    var hw, hh := b.w / 2, b.h / 2;
    Rect(if i == 1 || i == 3 then b.x + hw else b.x, if i == 2 || i == 3 then b.y + hh else b.y, hw, hh)
  }

  function Quarters<O>(b: Rect, level: int): seq<Tree<O>> {
    [EmptyNode(Quadrant(b, 0), level + 1), EmptyNode(Quadrant(b, 1), level + 1),
     EmptyNode(Quadrant(b, 2), level + 1), EmptyNode(Quadrant(b, 3), level + 1)]
  }

  predicate Holds<O(==)>(objects: seq<Entry<O>>, o: O) {
    exists i :: 0 <= i < |objects| && objects[i].obj == o
  }

  /** Levels left below this one. */
  function Room(cfg: Config, level: int): nat {
    if level < cfg.maxLevel then cfg.maxLevel - level else 0
  }

  /** Every node has no kids or four, each one level deeper. */
  ghost predicate Layered<O>(t: Tree<O>) {
    && |t.kids| in {0, 4}
    && forall i :: 0 <= i < |t.kids| ==> t.kids[i].level == t.level + 1 && Layered(t.kids[i])
  }

  /** What a call of insert leaves behind, and what it answers. */
  datatype Outcome<O> = Outcome(tree: Tree<O>, ok: bool)

  /** The kids after the split that insert makes when there are none. */
  function KidsToFill<O>(t: Tree<O>): seq<Tree<O>> {
    if t.kids == [] then Quarters(t.boundary, t.level) else t.kids
  }

  /** The node itself takes the object: it has room, or nothing lies below it. */
  predicate Keeps<O>(cfg: Config, t: Tree<O>) {
    |t.objects| < cfg.capacity || t.level >= cfg.maxLevel
  }

  ghost function Insert<O>(cfg: Config, t: Tree<O>, r: Rect, o: O): (out: Outcome<O>)
    requires Layered(t)
    ensures Layered(out.tree) && out.tree.boundary == t.boundary && out.tree.level == t.level
    decreases Room(cfg, t.level)
  {
    if !Collide(t.boundary, r) then Outcome(t, false)
    else if Keeps(cfg, t) then
      Outcome(if Holds(t.objects, o) then t else t.(objects := t.objects + [Entry(r, o)]), true)
    else
      var kids := KidsToFill(t);
      Outcome(
        t.(kids := seq(4, i requires 0 <= i < 4 => Insert(cfg, kids[i], r, o).tree)),
        exists i :: 0 <= i < 4 && Insert(cfg, kids[i], r, o).ok)
  }

  /** The scan of one node: append the colliding objects that are not found yet. */
  function Collect<O(==)>(objects: seq<Entry<O>>, range: Rect, found: seq<O>): seq<O> {
    if objects == [] then found
    else
      var e := objects[|objects| - 1];
      var before := Collect(objects[..|objects| - 1], range, found);
      if Collide(range, e.rect) && e.obj !in before then before + [e.obj] else before
  }

  function Query<O(==)>(t: Tree<O>, range: Rect, found: seq<O>): seq<O>
    decreases t, 0
  {
    if !Collide(t.boundary, range) then found
    else QueryEach(t.kids, range, Collect(t.objects, range, found))
  }

  function QueryEach<O(==)>(kids: seq<Tree<O>>, range: Rect, found: seq<O>): seq<O>
    decreases kids, 1
  {
    if kids == [] then found
    else Query(kids[|kids| - 1], range, QueryEach(kids[..|kids| - 1], range, found))
  }

  // ---------- what is stored ----------

  ghost function Entries<O>(t: Tree<O>): set<Entry<O>> {
    (set e | e in t.objects) + (set i, e | 0 <= i < |t.kids| && e in Entries(t.kids[i]) :: e)
  }
}
