/**
 * The 2-d tree of `kdtree/KdTree.java`, restricted to insertion and
 * membership. Nodes alternate between splitting on `x` (HORIZONTAL, at the
 * root) and on `y` (VERTICAL); a point whose key is smaller goes left, any
 * other point goes right, and a point equal to the node's stops there. Only
 * `<` and `==` are used on coordinates, so `real` stands for `double`.
 */
module KdTrees {
  import opened Wrappers

  /** `Point2D`: a point of the plane. */
  datatype Point2D = Point2D(x: real, y: real)

  /** A node's axis-aligned rectangle: `xmin`, `ymin`, `xmax`, `ymax`. */
  datatype Rect = Rect(xmin: real, ymin: real, xmax: real, ymax: real)

  const HORIZONTAL: bool := false
  const VERTICAL: bool := true
  const LEFT: bool := false
  const RIGHT: bool := true

  /** The coordinate a node of the given orientation splits on. */
  function Key(p: Point2D, orientation: bool): real
  {
    if orientation == HORIZONTAL then p.x else p.y
  }

  /**
   * The test of `insert` and `contains`: `p` belongs to the left of `at`,
   * its key for the orientation being the smaller.
   */
  function GoesLeft(p: Point2D, at: Point2D, orientation: bool): (left: bool)
    ensures left <==> Key(p, orientation) < Key(at, orientation)
  {
    (orientation == HORIZONTAL && p.x < at.x) || (orientation == VERTICAL && p.y < at.y)
  }

  /** The point lies in the closed rectangle. */
  predicate InRect(r: Rect, p: Point2D)
  {
    r.xmin <= p.x <= r.xmax && r.ymin <= p.y <= r.ymax
  }

  /**
   * The rectangle of a child of a node at `at` with rectangle `r`: `r` cut at
   * `at.x` (HORIZONTAL) or `at.y` (VERTICAL), keeping the LEFT (lower) or
   * RIGHT (upper) side.
   */
  function ChildRect(r: Rect, at: Point2D, orientation: bool, position: bool): (c: Rect)
  {
    if orientation == HORIZONTAL then
      if position == LEFT then r.(xmax := at.x) else r.(xmin := at.x)
    else
      if position == LEFT then r.(ymax := at.y) else r.(ymin := at.y)
  }

  /**
   * When the parent's point lies in the parent's rectangle, a child's
   * rectangle is the part of the parent's on its side of the split line: a point in it lies in the parent's rectangle,
   * and its key is at most the split (LEFT) or at least the split (RIGHT). Conversely a point of the
   * parent's rectangle on that side lies in the child's.
   */
  lemma ChildRectSide(r: Rect, at: Point2D, orientation: bool, position: bool, p: Point2D)
    requires InRect(r, at)
    ensures InRect(ChildRect(r, at, orientation, position), p) <==>
      && InRect(r, p)
      && (position == LEFT ==> Key(p, orientation) <= Key(at, orientation))
      && (position == RIGHT ==> Key(p, orientation) >= Key(at, orientation))
  {
  }

  /**
   * The shape of a subtree as a value: what the nodes below a node hold,
   * without the rectangles.
   */
  datatype KTree = Empty | Branch(left: KTree, at: Point2D, right: KTree)

  /** The points of a subtree. */
  function Points(t: KTree): set<Point2D>
  {
    match t
    case Empty => {}
    case Branch(l, at, r) => Points(l) + {at} + Points(r)
  }

  /**
   * The 2-d tree order for a subtree whose root splits with `orientation`:
   * every point on the left has a smaller key than the root's point, every
   * point on the right a key at least as large, and the subtrees are ordered
   * with the other orientation.
   */
  ghost predicate Ordered(t: KTree, orientation: bool)
  {
    match t
    case Empty => true
    case Branch(l, at, r) =>
      && Ordered(l, !orientation) && Ordered(r, !orientation)
      && (forall q :: q in Points(l) ==> Key(q, orientation) < Key(at, orientation))
      && (forall q :: q in Points(r) ==> Key(q, orientation) >= Key(at, orientation))
  }

  /**
   * The search `contains(node, point, orientation)` makes, on the value of
   * the subtree: it only ever reports a point the subtree holds.
   */
  function Search(t: KTree, p: Point2D, orientation: bool): (found: bool)
    ensures found ==> p in Points(t)
  {
    match t
    case Empty => false
    case Branch(l, at, r) =>
      if at == p then true
      else if GoesLeft(p, at, orientation) then Search(l, p, !orientation)
      else Search(r, p, !orientation)
  }

  /**
   * What `insert(node, point, orientation)` does, on the value of the
   * subtree: it adds the point and keeps every other one.
   */
  function Insert(t: KTree, p: Point2D, orientation: bool): (r: KTree)
    ensures Points(r) == Points(t) + {p}
  {
    match t
    case Empty => Branch(Empty, p, Empty)
    case Branch(l, at, r) =>
      if at == p then t
      else if GoesLeft(p, at, orientation) then Branch(Insert(l, p, !orientation), at, r)
      else Branch(l, at, Insert(r, p, !orientation))
  }

  /** In an ordered subtree, the search finds exactly the points it holds. */
  lemma {:induction false} SearchFindsMembers(t: KTree, p: Point2D, orientation: bool)
    requires Ordered(t, orientation)
    ensures Search(t, p, orientation) <==> p in Points(t)
  {
    match t
    case Empty =>
    case Branch(l, at, r) =>
      SearchFindsMembers(l, p, !orientation);
      SearchFindsMembers(r, p, !orientation);
  }

  /** Insertion keeps the 2-d tree order. */
  lemma {:induction false} InsertOrdered(t: KTree, p: Point2D, orientation: bool)
    requires Ordered(t, orientation)
    ensures Ordered(Insert(t, p, orientation), orientation)
  {
    match t
    case Empty =>
    case Branch(l, at, r) =>
      if at == p {
      } else if GoesLeft(p, at, orientation) {
        InsertOrdered(l, p, !orientation);
      } else {
        InsertOrdered(r, p, !orientation);
      }
  }

  /** Inserting a point that is already there changes nothing. */
  lemma {:induction false} InsertPresent(t: KTree, p: Point2D, orientation: bool)
    requires Search(t, p, orientation)
    ensures Insert(t, p, orientation) == t
  {
    match t
    case Empty =>
    case Branch(l, at, r) =>
      if at == p {
      } else if GoesLeft(p, at, orientation) {
        InsertPresent(l, p, !orientation);
      } else {
        InsertPresent(r, p, !orientation);
      }
  }

  /** After an insertion the point is found, and every point found before still is. */
  lemma InsertThenSearch(t: KTree, p: Point2D, q: Point2D, orientation: bool)
    requires Ordered(t, orientation)
    ensures Search(Insert(t, p, orientation), p, orientation)
    ensures Search(t, q, orientation) ==> Search(Insert(t, p, orientation), q, orientation)
  {
    InsertOrdered(t, p, orientation);
    SearchFindsMembers(t, q, orientation);
    SearchFindsMembers(Insert(t, p, orientation), p, orientation);
    SearchFindsMembers(Insert(t, p, orientation), q, orientation);
  }

  /**
   * Insertion into an ordered subtree keeps it ordered, adds the point, and
   * grows the number of points exactly when the search did not find it.
   */
  lemma InsertCount(t: KTree, p: Point2D, orientation: bool)
    requires Ordered(t, orientation)
    ensures Ordered(Insert(t, p, orientation), orientation)
    ensures Points(Insert(t, p, orientation)) == Points(t) + {p}
    ensures |Points(Insert(t, p, orientation))| == if Search(t, p, orientation) then |Points(t)| else |Points(t)| + 1
    ensures Search(t, p, orientation) <==> p in Points(t)
  {
    InsertOrdered(t, p, orientation);
    SearchFindsMembers(t, p, orientation);
  }

  class Node {
    var left: Node?
    var right: Node?
    const x: real
    const y: real
    const rect: Rect
    ghost var Repr: set<object>
    ghost var Tree: KTree

    /**
     * The subtree rooted here: the footprints of the children are disjoint
     * parts of this one, and `Tree` is this node's point between the values of
     * its children.
     */
    ghost predicate Valid()
      reads this, Repr
      decreases Repr
    {
      && this in Repr
      && (left != null ==> left in Repr && left.Repr <= Repr && this !in left.Repr && left.Valid())
      && (right != null ==> right in Repr && right.Repr <= Repr && this !in right.Repr && right.Valid())
      && (left != null && right != null ==> left.Repr !! right.Repr)
      && Tree == Branch(if left == null then Empty else left.Tree, Here(), if right == null then Empty else right.Tree)
    }

    /** The point this node holds. */
    function Here(): Point2D
    {
      Point2D(x, y)
    }

    /** `Node(Point2D)`: the root, whose rectangle is the unit square. */
    constructor Root(point: Point2D)
      ensures Here() == point && rect == Rect(0.0, 0.0, 1.0, 1.0)
      ensures Valid() && Repr == {this} && Tree == Branch(Empty, point, Empty)
    {
      x := point.x;
      y := point.y;
      rect := Rect(0.0, 0.0, 1.0, 1.0);
      left := null;
      right := null;
      Repr := {this};
      Tree := Branch(Empty, point, Empty);
    }

    /**
     * `Node(x, y, parent, orientation, position)`: a leaf below `parent`,
     * whose rectangle is the parent's cut at the parent's split coordinate.
     */
    constructor Child(x: real, y: real, parent: Node, orientation: bool, position: bool)
      ensures Here() == Point2D(x, y) && rect == ChildRect(parent.rect, parent.Here(), orientation, position)
      ensures Valid() && Repr == {this} && Tree == Branch(Empty, Point2D(x, y), Empty)
    {
      this.x := x;
      this.y := y;
      rect := ChildRect(parent.rect, parent.Here(), orientation, position);
      left := null;
      right := null;
      Repr := {this};
      Tree := Branch(Empty, Point2D(x, y), Empty);
    }
  }

  /**
   * The recursive `contains(node, point, orientation)`: false on an empty
   * subtree, true at a node holding the point, and otherwise the answer of
   * the side the point belongs to.
   */
  function ContainsAt(node: Node?, p: Point2D, orientation: bool): (r: bool)
    reads if node == null then {} else node.Repr
    requires node != null ==> node.Valid()
    ensures r == Search(if node == null then Empty else node.Tree, p, orientation)
    decreases if node == null then {} else node.Repr
  {
    if node == null then false
    else if node.Here() == p then true
    else if GoesLeft(p, node.Here(), orientation) then ContainsAt(node.left, p, !orientation)
    else ContainsAt(node.right, p, !orientation)
  }

  /**
   * The recursive `insert(node, point, orientation)`: a point already at this
   * node gives 0; otherwise it goes down the side it belongs to. The subtree
   * changes as `Insert` says, and the result is 0 exactly when the search
   * finds the point.
   */
  method InsertAt(node: Node, p: Point2D, orientation: bool) returns (result: int)
    requires node.Valid()
    modifies node.Repr
    ensures node.Valid() && fresh(node.Repr - old(node.Repr))
    ensures node.Tree == Insert(old(node.Tree), p, orientation)
    ensures result == if Search(old(node.Tree), p, orientation) then 0 else 1
    decreases node.Repr, 1
  {
    if node.Here() == p {
      result := 0;
    } else if GoesLeft(p, node.Here(), orientation) {
      result := InsertLeft(node, p, orientation);
    } else {
      result := InsertRight(node, p, orientation);
    }
  }

  /**
   * The left branch of `insert(node, point, orientation)`: a new leaf when the
   * left child is missing, otherwise the insertion continues there with the
   * other orientation.
   */
  method InsertLeft(node: Node, p: Point2D, orientation: bool) returns (result: int)
    requires node.Valid() && node.Here() != p && GoesLeft(p, node.Here(), orientation)
    modifies node.Repr
    ensures node.Valid() && fresh(node.Repr - old(node.Repr))
    ensures node.Tree == Insert(old(node.Tree), p, orientation)
    ensures result == if Search(old(node.Tree), p, orientation) then 0 else 1
    decreases node.Repr, 0
  {
    if node.left == null {
      node.left := new Node.Child(p.x, p.y, node, orientation, LEFT);
      result := 1;
    } else {
      result := InsertAt(node.left, p, !orientation);
    }
    node.Repr := node.Repr + node.left.Repr;
    node.Tree := node.Tree.(left := node.left.Tree);
  }

  /**
   * The right branch of `insert(node, point, orientation)`: a new leaf when
   * the right child is missing, otherwise the insertion continues there with
   * the other orientation.
   */
  method InsertRight(node: Node, p: Point2D, orientation: bool) returns (result: int)
    requires node.Valid() && node.Here() != p && !GoesLeft(p, node.Here(), orientation)
    modifies node.Repr
    ensures node.Valid() && fresh(node.Repr - old(node.Repr))
    ensures node.Tree == Insert(old(node.Tree), p, orientation)
    ensures result == if Search(old(node.Tree), p, orientation) then 0 else 1
    decreases node.Repr, 0
  {
    if node.right == null {
      node.right := new Node.Child(p.x, p.y, node, orientation, RIGHT);
      result := 1;
    } else {
      result := InsertAt(node.right, p, !orientation);
    }
    node.Repr := node.Repr + node.right.Repr;
    node.Tree := node.Tree.(right := node.right.Tree);
  }

  class KdTree {
    var size: int
    var root: Node?

    /** The objects the tree is made of: itself and the nodes below the root. */
    ghost function Repr(): set<object>
      reads this, root
    {
      if root == null then {this} else {this} + root.Repr
    }

    /** The points held, as a value. */
    ghost function Tree(): KTree
      reads this, root
    {
      if root == null then Empty else root.Tree
    }

    /**
     * The tree is empty or its root's subtree is ordered with the root
     * splitting on `x`; `size` counts the distinct points.
     */
    ghost predicate Valid()
      reads this, root, Repr()
    {
      && (root != null ==> this !in root.Repr && root.Valid())
      && Ordered(Tree(), HORIZONTAL)
      && size == |Points(Tree())|
    }

    /** `new KdTree()`: no points. */
    constructor ()
      ensures Valid() && Points(Tree()) == {}
    {
      size := 0;
      root := null;
    }

    /** `isEmpty()`: `size == 0`, that is, no point is held. */
    method IsEmpty() returns (r: bool)
      requires Valid()
      ensures r <==> Points(Tree()) == {}
    {
      r := size == 0;
    }

    /** `size()`: the number of distinct points held. */
    method Size() returns (r: int)
      requires Valid()
      ensures r == |Points(Tree())|
    {
      r := size;
    }

    /**
     * `insert(point)`: null throws `NullPointerException`; otherwise the first
     * point becomes the root, and later ones go down from it. The size grows
     * only for a new point.
     */
    method Insert(point: Option<Point2D>) returns (s: Status)
      requires Valid()
      modifies Repr()
      ensures Valid() && fresh(Repr() - old(Repr()))
      ensures point.None? ==> s == Failure(NullPointer) && Tree() == old(Tree())
      ensures point.Some? ==> s == Success && Points(Tree()) == Points(old(Tree())) + {point.value}
      ensures point.Some? ==> size == if point.value in Points(old(Tree())) then old(size) else old(size) + 1
    {
      if point.None? {
        s := Failure(NullPointer);
      } else if root == null {
        root := new Node.Root(point.value);
        size := 1;
        s := Success;
      } else {
        InsertBelowRoot(point.value);
        s := Success;
      }
    }

    /** `insert(point)` into a non-empty tree: the point goes down from the root. */
    method InsertBelowRoot(p: Point2D)
      requires Valid() && root != null
      modifies Repr()
      ensures Valid() && fresh(Repr() - old(Repr())) && root == old(root)
      ensures Points(Tree()) == Points(old(Tree())) + {p}
      ensures size == if p in Points(old(Tree())) then old(size) else old(size) + 1
    {
      InsertCount(root.Tree, p, HORIZONTAL);
      var added := InsertAt(root, p, HORIZONTAL);
      size := size + added;
    }

    /**
     * `contains(point)`: null throws `NullPointerException`, an empty tree
     * holds nothing, and otherwise the search starts at the root.
     */
    function Contains(point: Option<Point2D>): (r: Result<bool>)
      reads this, root, Repr()
      requires Valid()
      ensures point.None? ==> r == Err(NullPointer)
      ensures point.Some? ==> r == Ok(point.value in Points(Tree()))
    {
      if point.None? then Err(NullPointer)
      else if size == 0 then Ok(false)
      else
        SearchFindsMembers(Tree(), point.value, HORIZONTAL);
        Ok(ContainsAt(root, point.value, HORIZONTAL))
    }
  }
}
