/**
 * A* search for the sliding-tile puzzle (8puzzle/Solver.java).
 *
 * Search nodes live in an arena `nodes`; a node's `prevNode` is the index of
 * its parent there, and the priority queue holds arena indices. Two roots
 * share the queue, the initial board and its twin; whichever branch dequeues
 * a goal first decides solvability. The solution is rebuilt by following the
 * parent indices back from the goal onto a stack (a sequence whose push
 * prepends).
 */
module Solving {
  import opened Wrappers
  import opened Boards

  /** A search node. `steps` is a Java `short`; `prevNode` indexes the arena. */
  datatype Node = Node(board: Board, steps: int, prevNode: Option<nat>, twin: bool)

  /** The outcome fields of a solver: `isSolvable`, `moves`, `solution` (null when unsolvable). */
  datatype Solver = Solver(solvable: bool, moves: int, result: Option<seq<Board>>)

  /** The priority cached by the node constructor: moves so far plus the Manhattan estimate. */
  function Priority(n: Node): (p: int)
    ensures Valid(n.board) ==> p >= n.steps && (p == n.steps <==> IsGoal(n.board))
  {
    if Valid(n.board) then
      ManhattanDominatesHamming(n.board.size, n.board.blocks);
      n.steps + n.board.manhattan
    else
      n.steps + n.board.manhattan
  }

  /**
   * For nodes on puzzle boards at most 1000 wide with `short` step counts,
   * the priority and each difference `compareTo` forms fit a Java `int`, so
   * its subtractions cannot wrap and the sign it returns is the model's.
   */
  lemma CompareFits(a: Node, b: Node)
    requires Puzzle(a.board) && a.board.size <= 1000 && -0x8000 <= a.steps < 0x8000
    requires Puzzle(b.board) && b.board.size <= 1000 && -0x8000 <= b.steps < 0x8000
    ensures IsInt32(Priority(a)) && IsInt32(Priority(b)) && IsInt32(Priority(a) - Priority(b))
    ensures IsInt32(a.board.manhattan - b.board.manhattan) && IsInt32(a.board.hamming - b.board.hamming)
  {
    PuzzleFits(a.board);
    PuzzleFits(b.board);
  }

  // ---------------------------------------------------------------------------
  // The comparator
  // ---------------------------------------------------------------------------

  /** The key the comparator orders by: priority, non-twin first, Manhattan, Hamming. */
  function Key(n: Node): seq<int>
  {
    [Priority(n), Indicator(n.twin), n.board.manhattan, n.board.hamming]
  }

  /** Strict lexicographic order on integer sequences of equal length. */
  predicate LexLess(s: seq<int>, t: seq<int>)
    requires |s| == |t|
    decreases |s|
  {
    |s| > 0 && (s[0] < t[0] || (s[0] == t[0] && LexLess(s[1..], t[1..])))
  }

  /** `a` ranks strictly before `b` in the queue. */
  predicate RanksBefore(a: Node, b: Node)
  {
    LexLess(Key(a), Key(b))
  }

  /**
   * `Node.compareTo`: negative when `a` ranks first, positive when `b` does,
   * zero exactly when all four key components agree.
   */
  function CompareTo(a: Node, b: Node): (c: int)
    ensures c < 0 <==> RanksBefore(a, b)
    ensures c > 0 <==> RanksBefore(b, a)
    ensures c == 0 <==> Key(a) == Key(b)
  {
    var ka, kb := Key(a), Key(b);
    LexLess4(ka, kb);
    LexLess4(kb, ka);
    var cmp := Priority(a) - Priority(b);
    if cmp != 0 then
      cmp
    else if a.twin != b.twin then
      // On equal priority the initial board's branch ranks first.
      if a.twin then 1 else -1
    else if a.board.manhattan - b.board.manhattan != 0 then
      a.board.manhattan - b.board.manhattan
    else
      a.board.hamming - b.board.hamming
  }

  /** The lexicographic order on four-component keys, written out. */
  lemma LexLess4(s: seq<int>, t: seq<int>)
    requires |s| == |t| == 4
    ensures LexLess(s, t) <==>
      || s[0] < t[0]
      || (s[0] == t[0] && s[1] < t[1])
      || (s[0] == t[0] && s[1] == t[1] && s[2] < t[2])
      || (s[0] == t[0] && s[1] == t[1] && s[2] == t[2] && s[3] < t[3])
  {
    var s1, t1 := s[1..], t[1..];
    var s2, t2 := s1[1..], t1[1..];
    var s3, t3 := s2[1..], t2[1..];
    assert LexLess(s3, t3) <==> s[3] < t[3] by {
      assert !LexLess(s3[1..], t3[1..]);
    }
    assert LexLess(s2, t2) <==> s[2] < t[2] || (s[2] == t[2] && LexLess(s3, t3));
    assert LexLess(s1, t1) <==> s[1] < t[1] || (s[1] == t[1] && LexLess(s2, t2));
  }

  /** The lexicographic order is irreflexive and asymmetric. */
  lemma {:induction false} LexAsymmetric(s: seq<int>, t: seq<int>)
    requires |s| == |t|
    ensures !(LexLess(s, t) && LexLess(t, s))
    ensures !LexLess(s, s)
    decreases |s|
  {
    if |s| > 0 {
      LexAsymmetric(s[1..], t[1..]);
    }
  }

  /** The lexicographic order is transitive. */
  lemma {:induction false} LexTransitive(s: seq<int>, t: seq<int>, u: seq<int>)
    requires |s| == |t| == |u|
    requires LexLess(s, t) && LexLess(t, u)
    ensures LexLess(s, u)
    decreases |s|
  {
    if s[0] == t[0] && t[0] == u[0] {
      LexTransitive(s[1..], t[1..], u[1..]);
    }
  }

  /** Two different sequences of equal length are ordered one way or the other. */
  lemma {:induction false} LexTotal(s: seq<int>, t: seq<int>)
    requires |s| == |t| && s != t
    ensures LexLess(s, t) || LexLess(t, s)
    decreases |s|
  {
    if s[0] == t[0] {
      assert s == [s[0]] + s[1..] && t == [t[0]] + t[1..];
      LexTotal(s[1..], t[1..]);
    }
  }

  /** `compareTo` is antisymmetric: swapping the operands flips the sign. */
  lemma CompareAntisymmetric(a: Node, b: Node)
    ensures CompareTo(a, b) < 0 <==> CompareTo(b, a) > 0
    ensures CompareTo(a, b) == 0 <==> CompareTo(b, a) == 0
  {
    LexAsymmetric(Key(a), Key(b));
  }

  /** `compareTo` is transitive, for "at most" and for "strictly before". */
  lemma CompareTransitive(a: Node, b: Node, c: Node)
    ensures CompareTo(a, b) <= 0 && CompareTo(b, c) <= 0 ==> CompareTo(a, c) <= 0
    ensures CompareTo(a, b) < 0 && CompareTo(b, c) < 0 ==> CompareTo(a, c) < 0
  {
    var ka, kb, kc := Key(a), Key(b), Key(c);
    if LexLess(ka, kb) && LexLess(kb, kc) {
      LexTransitive(ka, kb, kc);
    }
    LexAsymmetric(ka, kc);
  }

  /** Any two nodes are comparable. */
  lemma CompareTotal(a: Node, b: Node)
    ensures CompareTo(a, b) <= 0 || CompareTo(b, a) <= 0
  {
    if Key(a) != Key(b) {
      LexTotal(Key(a), Key(b));
    }
  }

  // ---------------------------------------------------------------------------
  // The priority queue: a set of arena indices with extract-min
  // ---------------------------------------------------------------------------

  /** `m` is a minimum of the queue `pq` under `compareTo`. */
  predicate IsMinOf(nodes: seq<Node>, pq: set<nat>, m: nat)
  {
    && m in pq && m < |nodes|
    && forall j :: j in pq && j < |nodes| ==> CompareTo(nodes[m], nodes[j]) <= 0
  }

  /** A non-empty queue has a minimum, so `delMin` can always choose one. */
  lemma MinExists(nodes: seq<Node>, pq: set<nat>)
    requires pq != {} && forall i :: i in pq ==> i < |nodes|
    ensures exists m :: IsMinOf(nodes, pq, m)
    decreases pq
  {
    var x :| x in pq;
    if pq == {x} {
      assert IsMinOf(nodes, pq, x);
    } else {
      var rest := pq - {x};
      MinExists(nodes, rest);
      var m: nat :| IsMinOf(nodes, rest, m);
      CompareTotal(nodes[x], nodes[m]);
      if CompareTo(nodes[m], nodes[x]) <= 0 {
        assert IsMinOf(nodes, pq, m);
      } else {
        forall j | j in pq && j < |nodes|
          ensures CompareTo(nodes[x], nodes[j]) <= 0
        {
          if j != x {
            CompareTransitive(nodes[x], nodes[m], nodes[j]);
          }
        }
        assert IsMinOf(nodes, pq, x);
      }
    }
  }

  // ---------------------------------------------------------------------------
  // The search arena
  // ---------------------------------------------------------------------------

  /** Every parent index points to an earlier node. */
  predicate ParentsBefore(nodes: seq<Node>)
  {
    forall i :: 0 <= i < |nodes| && nodes[i].prevNode.Some? ==> nodes[i].prevNode.value < i
  }

  /** `b` is the valid board `a` after one slide: the blank exchanged with an orthogonally adjacent cell. */
  predicate Slide(a: Board, b: Board)
  {
    exists t :: 0 <= t < |a.blocks| && SlideTo(a, b, t)
  }

  /** The slide that moves the tile at cell `t` into the blank. */
  predicate SlideTo(a: Board, b: Board, t: int)
  {
    && Valid(a) && Valid(b) && b.size == a.size
    && 0 <= t < |a.blocks| && Adjacent(a.size, a.blankPos, t)
    && b.blocks == Swap(a.blocks, a.blankPos, t)
  }

  /** Every board `neighbors` yields is one slide away. */
  lemma NeighborSlides(a: Board, k: int)
    requires Valid(a) && 0 <= k < |Neighbors(a)|
    ensures Slide(a, Neighbors(a)[k])
  {
    MoveTargetsAdjacent(a.size, a.blankPos);
    var t := MoveTargets(a.size, a.blankPos)[k];
    assert SlideTo(a, Neighbors(a)[k], t);
  }

  /** All of the boards `neighbors` yields are one slide away. */
  lemma NeighborsSlide(a: Board)
    requires Valid(a)
    ensures forall b :: b in Neighbors(a) ==> Slide(a, b)
  {
    forall k | 0 <= k < |Neighbors(a)|
      ensures Slide(a, Neighbors(a)[k])
    {
      NeighborSlides(a, k);
    }
  }

  /** A slide keeps a puzzle a puzzle: it only exchanges two cells. */
  lemma SlideKeepsPuzzle(a: Board, b: Board)
    requires Puzzle(a) && Slide(a, b)
    ensures Puzzle(b)
  {
    var t :| 0 <= t < |a.blocks| && SlideTo(a, b, t);
    SwapKeepsPermutation(a.blocks, a.blankPos, t);
  }

  /**
   * `child` was made while expanding `parent`: one slide further, on the same
   * branch, one `short` step more.
   */
  predicate Link(child: Node, parent: Node)
  {
    && Slide(parent.board, child.board)
    && child.twin == parent.twin
    && child.steps == ToShort(parent.steps + 1)
  }

  /**
   * Node `i` is a child of an earlier node, one level deeper, and its board is
   * not the one its grandparent holds.
   */
  predicate ChildOf(nodes: seq<Node>, depth: seq<nat>, i: int)
    requires 0 <= i < |nodes| == |depth|
  {
    exists p :: 0 <= p < i && ChildAt(nodes, depth, i, p)
  }

  /** `ChildOf`, with node `p` as the parent. */
  predicate ChildAt(nodes: seq<Node>, depth: seq<nat>, i: int, p: int)
    requires 0 <= p < i < |nodes| == |depth|
  {
    && nodes[i].prevNode == Some(p)
    && depth[i] == depth[p] + 1
    && Link(nodes[i], nodes[p])
    && (nodes[p].prevNode.Some? ==>
          nodes[p].prevNode.value < p && nodes[i].board != nodes[nodes[p].prevNode.value].board)
  }

  /**
   * The arena of a search from `start`: the two roots, the initial board and
   * its twin with no parent and no steps, then each node a child of an
   * earlier one. `depth` counts slides from a root. `ArenaAt` gives the facts
   * about any single node.
   */
  predicate Arena(start: Board, nodes: seq<Node>, depth: seq<nat>)
    requires Valid(start)
  {
    && |nodes| == |depth| >= 2
    && nodes[0] == Node(start, 0, None, false)
    && nodes[1] == Node(Twin(start), 0, None, true)
    && depth[0] == 0 && depth[1] == 0
    && forall i :: 2 <= i < |nodes| ==> ChildOf(nodes, depth, i)
  }

  /** A child keeps its description when later nodes are appended. */
  lemma ChildOfPrefix(nodes: seq<Node>, depth: seq<nat>, k: int, i: int)
    requires |nodes| == |depth| && 0 <= i < k <= |nodes|
    requires ChildOf(nodes[..k], depth[..k], i)
    ensures ChildOf(nodes, depth, i)
  {
    var pre, dpre := nodes[..k], depth[..k];
    var p :| 0 <= p < i && ChildAt(pre, dpre, i, p);
    assert pre[i] == nodes[i] && pre[p] == nodes[p];
    assert dpre[i] == depth[i] && dpre[p] == depth[p];
    if nodes[p].prevNode.Some? {
      var g := nodes[p].prevNode.value;
      assert pre[g] == nodes[g];
    }
    assert ChildAt(nodes, depth, i, p);
  }

  /**
   * Every node of an arena: a valid board (a puzzle when the initial board
   * is one), `short` steps counting its depth, and either a root or a child.
   */
  lemma {:induction false} ArenaAt(start: Board, nodes: seq<Node>, depth: seq<nat>, i: int)
    requires Valid(start) && Arena(start, nodes, depth) && 0 <= i < |nodes|
    ensures Valid(nodes[i].board) && nodes[i].steps == ToShort(depth[i])
    ensures Puzzle(start) ==> Puzzle(nodes[i].board)
    ensures i == 0 ==> nodes[i] == Node(start, 0, None, false) && depth[i] == 0
    ensures i == 1 ==> nodes[i] == Node(Twin(start), 0, None, true) && depth[i] == 0
    ensures i >= 2 ==> ChildOf(nodes, depth, i)
    decreases i
  {
    if i >= 2 {
      assert ChildOf(nodes, depth, i);
      var p :| 0 <= p < i && ChildAt(nodes, depth, i, p);
      ArenaAt(start, nodes, depth, p);
      ShortSucc(depth[p]);
      if Puzzle(start) {
        SlideKeepsPuzzle(nodes[p].board, nodes[i].board);
      }
    }
  }

  lemma ArenaParents(start: Board, nodes: seq<Node>, depth: seq<nat>)
    requires Valid(start) && Arena(start, nodes, depth)
    ensures ParentsBefore(nodes)
  {
    forall i | 0 <= i < |nodes| && nodes[i].prevNode.Some?
      ensures nodes[i].prevNode.value < i
    {
      ArenaAt(start, nodes, depth, i);
    }
  }

  /** The boards from the root of node `i`'s branch down to node `i`. */
  function Path(nodes: seq<Node>, i: nat): (p: seq<Board>)
    requires ParentsBefore(nodes) && i < |nodes|
    ensures |p| >= 1 && p[|p| - 1] == nodes[i].board
    decreases i
  {
    match nodes[i].prevNode
    case None => [nodes[i].board]
    case Some(p) => Path(nodes, p) + [nodes[i].board]
  }

  /**
   * Each board is a slide away from the one before it, and no slide is
   * undone at once; a lone board is a valid one.
   */
  predicate SlideChain(p: seq<Board>)
  {
    && (|p| == 1 ==> Valid(p[0]))
    && (forall k :: 1 <= k < |p| ==> Slide(p[k - 1], p[k]))
    && (forall k :: 2 <= k < |p| ==> p[k] != p[k - 2])
  }

  /** Every board of a slide chain is valid. */
  lemma SlideChainValid(p: seq<Board>, k: int)
    requires SlideChain(p) && 0 <= k < |p|
    ensures Valid(p[k])
  {
    if |p| > 1 {
      var j := if k == 0 then 1 else k;
      assert Slide(p[j - 1], p[j]);
      var t :| 0 <= t < |p[j - 1].blocks| && SlideTo(p[j - 1], p[j], t);
    }
  }

  /** A sequence of slides from `start` to a goal board. */
  predicate SolvesFrom(start: Board, p: seq<Board>)
  {
    |p| >= 1 && p[0] == start && IsGoal(p[|p| - 1]) && SlideChain(p)
  }

  /** A slide chain grows by one more slide that does not undo the last one. */
  lemma SlideChainSnoc(p: seq<Board>, b: Board)
    requires SlideChain(p) && |p| >= 1
    requires Slide(p[|p| - 1], b)
    requires |p| >= 2 ==> b != p[|p| - 2]
    ensures SlideChain(p + [b])
  {
    SnocSlides(p, b);
    SnocNoUndo(p, b);
  }

  lemma SnocSlides(p: seq<Board>, b: Board)
    requires |p| >= 1 && forall k :: 1 <= k < |p| ==> Slide(p[k - 1], p[k])
    requires Slide(p[|p| - 1], b)
    ensures var q := p + [b]; forall k :: 1 <= k < |q| ==> Slide(q[k - 1], q[k])
  {
    var q := p + [b];
    forall k | 1 <= k < |q|
      ensures Slide(q[k - 1], q[k])
    {
      SnocParts(p, b, k - 1);
      if k < |p| {
        SnocParts(p, b, k);
      }
    }
  }

  lemma SnocNoUndo(p: seq<Board>, b: Board)
    requires forall k :: 2 <= k < |p| ==> p[k] != p[k - 2]
    requires |p| >= 2 ==> b != p[|p| - 2]
    ensures var q := p + [b]; forall k :: 2 <= k < |q| ==> q[k] != q[k - 2]
  {
    var q := p + [b];
    forall k | 2 <= k < |q|
      ensures q[k] != q[k - 2]
    {
      SnocParts(p, b, k - 2);
      if k < |p| {
        SnocParts(p, b, k);
      }
    }
  }

  /** The parts of `p + [b]`: `p` itself, then `b`. */
  lemma SnocParts<T>(p: seq<T>, b: T, i: int)
    requires 0 <= i < |p|
    ensures (p + [b])[..|p|] == p && (p + [b])[|p|] == b && (p + [b])[i] == p[i]
  {
  }

  /**
   * The parent links of an arena spell out a slide sequence from the node's
   * root, the initial board or its twin, with one board per step taken.
   */
  lemma {:induction false} PathShape(start: Board, nodes: seq<Node>, depth: seq<nat>, i: nat)
    requires Valid(start) && Arena(start, nodes, depth) && i < |nodes|
    ensures ParentsBefore(nodes)
    ensures var p := Path(nodes, i);
      && |p| == depth[i] + 1
      && p[0] == (if nodes[i].twin then Twin(start) else start)
      && SlideChain(p)
    decreases i
  {
    ArenaParents(start, nodes, depth);
    ArenaAt(start, nodes, depth, i);
    if i >= 2 {
      var q := nodes[i].prevNode.value;
      PathShape(start, nodes, depth, q);
      var pq := Path(nodes, q);
      assert Path(nodes, i) == pq + [nodes[i].board];
      if nodes[q].prevNode.Some? {
        var g := nodes[q].prevNode.value;
        assert pq == Path(nodes, g) + [nodes[q].board];
        assert pq[|pq| - 2] == nodes[g].board;
      }
      SlideChainSnoc(pq, nodes[i].board);
    }
  }

  // ---------------------------------------------------------------------------
  // The search
  // ---------------------------------------------------------------------------

  /** Java's `(short) (steps + 1)` agrees with counting in `int` and narrowing once. */
  lemma ShortSucc(d: int)
    ensures ToShort(ToShort(d) + 1) == ToShort(d + 1)
  {
    var s := ToShort(d);
    var m := d % 0x1_0000;
    assert s == m || s == m - 0x1_0000;
    var m1 := (d + 1) % 0x1_0000;
    assert m1 == if m == 0xFFFF then 0 else m + 1;
    var m2 := (s + 1) % 0x1_0000;
    assert m2 == m1;
  }

  /** The board of node `m`'s parent, if any: the one board `m`'s expansion skips. */
  function PrevBoard(nodes: seq<Node>, m: nat): Option<Board>
    requires m < |nodes|
  {
    match nodes[m].prevNode
    case Some(p) => if p < |nodes| then Some(nodes[p].board) else None
    case None => None
  }

  /** `b` `equals` the board to skip, if there is one. */
  predicate Skipped(skip: Option<Board>, b: Board)
  {
    skip.Some? && Equals(skip.value, b)
  }

  /** The neighbours that become children, in order: all but the skipped board. */
  function Kept(nbs: seq<Board>, skip: Option<Board>): (r: seq<Board>)
    ensures |r| <= |nbs|
  {
    if nbs == [] then []
    else Kept(nbs[..|nbs| - 1], skip) + (if Skipped(skip, nbs[|nbs| - 1]) then [] else [nbs[|nbs| - 1]])
  }

  /** A neighbour is kept exactly when it is not the skipped board. */
  lemma {:induction false} KeptMembers(nbs: seq<Board>, skip: Option<Board>)
    ensures forall b :: b in Kept(nbs, skip) <==> b in nbs && !Skipped(skip, b)
    decreases |nbs|
  {
    if nbs != [] {
      var init := nbs[..|nbs| - 1];
      KeptMembers(init, skip);
      assert nbs == init + [nbs[|nbs| - 1]];
    }
  }

  /** Of distinct neighbours at most one is skipped. */
  lemma {:induction false} KeptSize(nbs: seq<Board>, skip: Option<Board>)
    requires forall i, j :: 0 <= i < j < |nbs| ==> nbs[i] != nbs[j]
    requires forall k :: 0 <= k < |nbs| ==> Valid(nbs[k])
    requires skip.Some? ==> Valid(skip.value)
    ensures |Kept(nbs, skip)| >= |nbs| - 1
    ensures skip.None? || skip.value !in nbs ==> |Kept(nbs, skip)| == |nbs|
    decreases |nbs|
  {
    if nbs != [] {
      var init := nbs[..|nbs| - 1];
      KeptSize(init, skip);
      if Skipped(skip, nbs[|nbs| - 1]) {
        assert skip.value == nbs[|nbs| - 1] && skip.value !in init;
      }
    }
  }

  /** The child nodes made from `boards` while expanding node `m`. */
  function ChildNodes(boards: seq<Board>, steps: int, m: nat, twin: bool): (r: seq<Node>)
    ensures |r| == |boards|
    ensures forall i :: 0 <= i < |r| ==> r[i] == Node(boards[i], steps, Some(m), twin)
  {
    seq(|boards|, i requires 0 <= i < |boards| => Node(boards[i], steps, Some(m), twin))
  }

  /** Reading one more neighbour keeps it unless it is the skipped board. */
  lemma KeptStep(nbs: seq<Board>, skip: Option<Board>, k: int)
    requires 0 <= k < |nbs|
    ensures Kept(nbs[..k + 1], skip) == Kept(nbs[..k], skip) + (if Skipped(skip, nbs[k]) then [] else [nbs[k]])
  {
    assert nbs[..k + 1][..k] == nbs[..k];
  }

  lemma ChildNodesSnoc(nodes: seq<Node>, boards: seq<Board>, b: Board, steps: int, m: nat, twin: bool)
    ensures nodes + ChildNodes(boards + [b], steps, m, twin) ==
      nodes + ChildNodes(boards, steps, m, twin) + [Node(b, steps, Some(m), twin)]
  {
  }

  /** Queueing the arena's next index keeps the queue equal to the old one plus the new indices. */
  lemma QueueGrows(pq: set<nat>, pqCur: set<nat>, lo: nat, hi: nat)
    requires forall i :: i in pqCur <==> i in pq || lo <= i < hi
    requires lo <= hi
    ensures forall i :: i in pqCur + {hi} <==> i in pq || lo <= i < hi + 1
  {
  }

  /**
   * Expanding node `m`: each neighbour of its board, in order, becomes a child
   * one step further on the same branch, appended to the arena and queued,
   * unless it equals the board of `m`'s parent.
   */
  method Expand(ghost start: Board, nodes: seq<Node>, ghost depth: seq<nat>, pq: set<nat>, m: nat)
    returns (nodes': seq<Node>, ghost depth': seq<nat>, pq': set<nat>)
    requires Valid(start) && Arena(start, nodes, depth) && m < |nodes|
    ensures Valid(nodes[m].board)
    ensures nodes' == nodes + ChildNodes(Kept(Neighbors(nodes[m].board), PrevBoard(nodes, m)),
                                         ToShort(nodes[m].steps + 1), m, nodes[m].twin)
    ensures Arena(start, nodes', depth')
    ensures |depth'| == |nodes'| && depth'[..|nodes|] == depth
    ensures forall i :: i in pq' <==> i in pq || |nodes| <= i < |nodes'|
    ensures Puzzle(start) ==> |nodes'| > |nodes|
  {
    ArenaAt(start, nodes, depth, m);
    ParentEarlier(start, nodes, depth, m);
    var nbs := Neighbors(nodes[m].board);
    NeighborsSlide(nodes[m].board);
    nodes', pq' := AddChildren(nodes, pq, m, nbs);
    ExpandGrows(start, nodes, depth, m, nodes');
    depth' := depth + Repeat(depth[m] + 1, |nodes'| - |nodes|);
    ExpandArena(start, nodes, depth, m, nbs, nodes', depth');
  }

  /**
   * The loop over the neighbours `nbs` of node `m`: every one that does not
   * equal the board of `m`'s parent is appended as a child and queued.
   */
  method AddChildren(nodes: seq<Node>, pq: set<nat>, m: nat, nbs: seq<Board>)
    returns (nodes': seq<Node>, pq': set<nat>)
    requires m < |nodes| && (nodes[m].prevNode.Some? ==> nodes[m].prevNode.value < |nodes|)
    ensures nodes' == nodes + ChildNodes(Kept(nbs, PrevBoard(nodes, m)), ToShort(nodes[m].steps + 1), m, nodes[m].twin)
    ensures forall i :: i in pq' <==> i in pq || |nodes| <= i < |nodes'|
  {
    var node := nodes[m];
    var steps := ToShort(node.steps + 1);
    ghost var skip := PrevBoard(nodes, m);
    nodes', pq' := nodes, pq;
    assert nbs[..0] == [];
    for k := 0 to |nbs|
      invariant nodes' == nodes + ChildNodes(Kept(nbs[..k], skip), steps, m, node.twin)
      invariant forall i :: i in pq' <==> i in pq || |nodes| <= i < |nodes'|
    {
      KeptStep(nbs, skip, k);
      if node.prevNode.Some? && Equals(nodes[node.prevNode.value].board, nbs[k]) {
        continue;
      }
      ChildNodesSnoc(nodes, Kept(nbs[..k], skip), nbs[k], steps, m, node.twin);
      QueueGrows(pq, pq', |nodes|, |nodes'|);
      nodes', pq' := nodes' + [Node(nbs[k], steps, Some(m), node.twin)], pq' + {|nodes'|};
    }
    assert nbs[..|nbs|] == nbs;
  }

  /** `n` copies of `d`. */
  function Repeat(d: nat, n: nat): (r: seq<nat>)
    ensures |r| == n && forall i :: 0 <= i < n ==> r[i] == d
  {
    seq(n, _ => d)
  }

  /**
   * The children made from the boards `nbs`, each a slide away from node
   * `m`'s board, all but the board of `m`'s parent, one level deeper than
   * `m`, extend the arena.
   */
  lemma ExpandArena(start: Board, nodes: seq<Node>, depth: seq<nat>, m: nat, nbs: seq<Board>,
                    ns: seq<Node>, ds: seq<nat>)
    requires Valid(start) && Arena(start, nodes, depth) && m < |nodes|
    requires forall b :: b in nbs ==> Slide(nodes[m].board, b)
    requires ns == nodes + ChildNodes(Kept(nbs, PrevBoard(nodes, m)), ToShort(nodes[m].steps + 1), m, nodes[m].twin)
    requires ds == depth + Repeat(depth[m] + 1, |ns| - |nodes|)
    ensures Arena(start, ns, ds)
  {
    ParentEarlier(start, nodes, depth, m);
    KidsOfExpansion(nodes, depth, m, nbs, ns, ds);
    ArenaExtend(start, nodes, depth, ns, ds);
  }

  /** A node's parent, if any, comes before it. */
  lemma ParentEarlier(start: Board, nodes: seq<Node>, depth: seq<nat>, m: nat)
    requires Valid(start) && Arena(start, nodes, depth) && m < |nodes|
    ensures nodes[m].prevNode.Some? ==> nodes[m].prevNode.value < m
  {
    if m >= 2 {
      assert ChildOf(nodes, depth, m);
      var p :| 0 <= p < m && ChildAt(nodes, depth, m, p);
    }
  }

  /** The nodes appended while expanding node `m` are all its children. */
  lemma KidsOfExpansion(nodes: seq<Node>, depth: seq<nat>, m: nat, nbs: seq<Board>, ns: seq<Node>, ds: seq<nat>)
    requires |nodes| == |depth| && m < |nodes|
    requires nodes[m].prevNode.Some? ==> nodes[m].prevNode.value < m
    requires forall b :: b in nbs ==> Slide(nodes[m].board, b)
    requires ns == nodes + ChildNodes(Kept(nbs, PrevBoard(nodes, m)), ToShort(nodes[m].steps + 1), m, nodes[m].twin)
    requires ds == depth + Repeat(depth[m] + 1, |ns| - |nodes|)
    ensures |ns| == |ds| && ns[..|nodes|] == nodes && ds[..|nodes|] == depth
    ensures forall i :: |nodes| <= i < |ns| ==> ChildOf(ns, ds, i)
  {
    var kept := Kept(nbs, PrevBoard(nodes, m));
    KeptMembers(nbs, PrevBoard(nodes, m));
    assert forall b :: b in kept ==> Slide(nodes[m].board, b) && !Skipped(PrevBoard(nodes, m), b);
    KidsAreChildren(nodes, depth, m, kept, ns, ds);
  }

  /** An arena grows by nodes that are each a child of an earlier one. */
  lemma ArenaExtend(start: Board, nodes: seq<Node>, depth: seq<nat>, ns: seq<Node>, ds: seq<nat>)
    requires Valid(start) && Arena(start, nodes, depth)
    requires |ns| == |ds| && |nodes| <= |ns| && ns[..|nodes|] == nodes && ds[..|nodes|] == depth
    requires forall i :: |nodes| <= i < |ns| ==> ChildOf(ns, ds, i)
    ensures Arena(start, ns, ds)
  {
    PrefixChildren(nodes, depth, ns, ds);
    assert ns[0] == nodes[0] && ns[1] == nodes[1] && ds[0] == depth[0] && ds[1] == depth[1];
  }

  /** The children recorded in an arena stay children when it grows at the end. */
  lemma PrefixChildren(nodes: seq<Node>, depth: seq<nat>, ns: seq<Node>, ds: seq<nat>)
    requires |nodes| == |depth| <= |ns| == |ds|
    requires ns[..|nodes|] == nodes && ds[..|nodes|] == depth
    requires forall i :: 2 <= i < |nodes| ==> ChildOf(nodes, depth, i)
    ensures forall i :: 2 <= i < |nodes| ==> ChildOf(ns, ds, i)
  {
    forall i | 2 <= i < |nodes|
      ensures ChildOf(ns, ds, i)
    {
      ChildOfPrefix(ns, ds, |nodes|, i);
    }
  }

  /** Every node appended for a board of `kept` is a child of node `m`. */
  lemma KidsAreChildren(nodes: seq<Node>, depth: seq<nat>, m: nat, kept: seq<Board>, ns: seq<Node>, ds: seq<nat>)
    requires |nodes| == |depth| && m < |nodes|
    requires nodes[m].prevNode.Some? ==> nodes[m].prevNode.value < m
    requires forall b :: b in kept ==> Slide(nodes[m].board, b) && !Skipped(PrevBoard(nodes, m), b)
    requires ns == nodes + ChildNodes(kept, ToShort(nodes[m].steps + 1), m, nodes[m].twin)
    requires ds == depth + Repeat(depth[m] + 1, |ns| - |nodes|)
    ensures forall i :: |nodes| <= i < |ns| ==> ChildOf(ns, ds, i)
  {
    var kids := ChildNodes(kept, ToShort(nodes[m].steps + 1), m, nodes[m].twin);
    assert ns[..|nodes|] == nodes && ds[..|nodes|] == depth;
    forall i | |nodes| <= i < |ns|
      ensures ChildOf(ns, ds, i)
    {
      var b := kept[i - |nodes|];
      ConcatAt(nodes, kids, ns, i);
      ConcatAt(depth, Repeat(depth[m] + 1, |ns| - |nodes|), ds, i);
      KidIsChild(nodes, depth, m, b, ns, ds, i);
    }
  }

  /** Node `i` past the old arena, made from `b`, a slide away from node `m`'s board, is its child. */
  lemma KidIsChild(nodes: seq<Node>, depth: seq<nat>, m: nat, b: Board, ns: seq<Node>, ds: seq<nat>, i: int)
    requires |nodes| == |depth| && m < |nodes| <= i < |ns| == |ds|
    requires ns[..|nodes|] == nodes && ds[..|nodes|] == depth
    requires ns[i] == Node(b, ToShort(nodes[m].steps + 1), Some(m), nodes[m].twin) && ds[i] == depth[m] + 1
    requires Slide(nodes[m].board, b) && !Skipped(PrevBoard(nodes, m), b)
    requires nodes[m].prevNode.Some? ==> nodes[m].prevNode.value < m
    ensures ChildOf(ns, ds, i)
  {
    assert ns[m] == nodes[m] && ds[m] == depth[m];
    if nodes[m].prevNode.Some? {
      var g := nodes[m].prevNode.value;
      assert ns[g] == nodes[g];
    }
    assert ChildAt(ns, ds, i, m);
  }

  lemma ConcatAt<T>(s: seq<T>, t: seq<T>, st: seq<T>, i: int)
    requires st == s + t && |s| <= i < |st|
    ensures st[i] == t[i - |s|]
  {
  }

  /**
   * The solution: walking the parent links up from node `goal`, each board
   * is pushed on a stack, so the stack lists the path from the root down.
   */
  method Rebuild(nodes: seq<Node>, goal: nat) returns (result: seq<Board>)
    requires ParentsBefore(nodes) && goal < |nodes|
    ensures result == Path(nodes, goal)
  {
    result := [];
    var cur: nat := goal;
    while true
      invariant cur < |nodes|
      invariant Path(nodes, goal) == Path(nodes, cur) + result
      decreases cur
    {
      var prev := result;
      result := [nodes[cur].board] + result;
      match nodes[cur].prevNode
      case None =>
        return;
      case Some(p) =>
        assert Path(nodes, cur) + prev == Path(nodes, p) + result;
        cur := p;
    }
  }

  /** How the search loop ends: out of rounds, with an empty queue, or at goal node `m`. */
  datatype Stop = OutOfFuel | QueueEmpty | AtGoal(m: nat)

  /**
   * One expanding round of the search loop: node `m`, a minimum of the
   * queue `q` under `compareTo`, is not a goal, so its children are
   * appended to the arena `before`, giving `after`, and queued in its
   * place, giving `q'`.
   */
  ghost predicate Round(before: seq<Node>, q: set<nat>, m: nat, after: seq<Node>, q': set<nat>)
  {
    && (forall i :: i in q ==> i < |before|)
    && IsMinOf(before, q, m)
    && !IsGoal(before[m].board)
    && Valid(before[m].board)
    && after == before + ChildNodes(Kept(Neighbors(before[m].board), PrevBoard(before, m)),
                                    ToShort(before[m].steps + 1), m, before[m].twin)
    && forall i :: i in q' <==> (i in q && i != m) || |before| <= i < |after|
  }

  /**
   * The rounds of a search so far: round `k` removes `expanded[k]` from the
   * queue `queues[k]` over the arena `arenas[k]`, and leaves `queues[k + 1]`
   * and `arenas[k + 1]`. The queue starts with the two roots, and the last
   * arena is the current one.
   */
  ghost predicate Rounds(start: Board, nodes: seq<Node>, expanded: seq<nat>, queues: seq<set<nat>>,
                         arenas: seq<seq<Node>>)
    requires Valid(start)
  {
    && |queues| == |arenas| == |expanded| + 1
    && queues[0] == {0, 1}
    && arenas[0] == [Node(start, 0, None, false), Node(Twin(start), 0, None, true)]
    && arenas[|expanded|] == nodes
    && forall k :: 0 <= k < |expanded| ==> RoundAt(expanded, queues, arenas, k)
  }

  /** Round `k` of the record. */
  ghost predicate RoundAt(expanded: seq<nat>, queues: seq<set<nat>>, arenas: seq<seq<Node>>, k: nat)
    requires k < |expanded| && |queues| == |arenas| == |expanded| + 1
  {
    Round(arenas[k], queues[k], expanded[k], arenas[k + 1], queues[k + 1])
  }

  /**
   * The record of one search: the arena and the depth of its nodes, the
   * node removed in each expanding round, the queue and the arena before
   * each round (the final ones last), and how the loop ended.
   */
  datatype Run = Run(nodes: seq<Node>, depth: seq<nat>, expanded: seq<nat>,
                     queues: seq<set<nat>>, arenas: seq<seq<Node>>, stop: Stop)

  /**
   * A best-first search from `start` allowed `fuel` removals from the
   * queue. It expands non-goal minima round by round; it ends out of fuel
   * only after `fuel` such rounds, with an empty queue only for a board
   * that is not a permutation, and otherwise at a goal that is a minimum of
   * the final queue, so no queued node ranks before it.
   */
  ghost predicate SearchRun(start: Board, fuel: nat, run: Run)
    requires Valid(start)
  {
    && Arena(start, run.nodes, run.depth)
    && ParentsBefore(run.nodes)
    && Rounds(start, run.nodes, run.expanded, run.queues, run.arenas)
    && (run.stop == OutOfFuel ==> |run.expanded| == fuel)
    && (run.stop == QueueEmpty ==>
          |run.expanded| < fuel && run.queues[|run.expanded|] == {} && !Puzzle(start))
    && (run.stop.AtGoal? ==>
          && |run.expanded| < fuel
          && IsMinOf(run.nodes, run.queues[|run.expanded|], run.stop.m)
          && IsGoal(run.nodes[run.stop.m].board))
  }

  /** A round appended to the record leaves the earlier rounds as they were. */
  lemma NextRound(start: Board, nodes: seq<Node>, expanded: seq<nat>, queues: seq<set<nat>>,
                  arenas: seq<seq<Node>>, m: nat, nodes': seq<Node>, q': set<nat>)
    requires Valid(start) && Rounds(start, nodes, expanded, queues, arenas)
    requires Round(nodes, queues[|expanded|], m, nodes', q')
    ensures Rounds(start, nodes', expanded + [m], queues + [q'], arenas + [nodes'])
  {
    var n := |expanded|;
    var expanded', queues', arenas' := expanded + [m], queues + [q'], arenas + [nodes'];
    forall k | 0 <= k < n + 1
      ensures RoundAt(expanded', queues', arenas', k)
    {
      if k < n {
        assert RoundAt(expanded, queues, arenas, k);
      }
    }
  }

  /**
   * The search loop of the `Solver` constructor. Both roots share one queue;
   * each round removes a minimum under `compareTo` and stops at a goal
   * board, or else expands it. An empty queue makes `delMin` throw
   * `NoSuchElementException`, which happens only for boards that are not
   * permutations. The loop removes at most `fuel` nodes from the queue.
   */
  method Search(start: Board, fuel: nat) returns (nodes: seq<Node>, stop: Stop, ghost run: Run)
    requires Valid(start)
    ensures run.nodes == nodes && run.stop == stop && SearchRun(start, fuel, run)
  {
    nodes := [Node(start, 0, None, false), Node(Twin(start), 0, None, true)];
    ghost var depth := [0, 0];
    var pq: set<nat> := {0, 1};
    ghost var expanded: seq<nat> := [];
    ghost var queues := [pq];
    ghost var arenas := [nodes];
    var rounds := 0;
    while true
      invariant Arena(start, nodes, depth)
      invariant Rounds(start, nodes, expanded, queues, arenas)
      invariant rounds == |expanded| <= fuel && queues[rounds] == pq
      invariant forall i :: i in pq ==> i < |nodes|
      invariant Puzzle(start) ==> pq != {}
      decreases fuel - rounds
    {
      if rounds == fuel {
        stop := OutOfFuel;
        break;
      }
      if pq == {} {
        stop := QueueEmpty;
        break;
      }
      MinExists(nodes, pq);
      var m: nat :| IsMinOf(nodes, pq, m);
      if IsGoal(nodes[m].board) {
        stop := AtGoal(m);
        break;
      }
      nodes, depth, pq := ExpandRound(start, nodes, depth, expanded, queues, arenas, pq, m);
      expanded, queues, arenas := expanded + [m], queues + [pq], arenas + [nodes];
      rounds := rounds + 1;
    }
    ArenaParents(start, nodes, depth);
    run := Run(nodes, depth, expanded, queues, arenas, stop);
  }

  /** One expanding round of the search loop, recorded. */
  method ExpandRound(ghost start: Board, nodes: seq<Node>, ghost depth: seq<nat>, ghost expanded: seq<nat>,
                     ghost queues: seq<set<nat>>, ghost arenas: seq<seq<Node>>, pq: set<nat>, m: nat)
    returns (nodes': seq<Node>, ghost depth': seq<nat>, pq': set<nat>)
    requires Valid(start) && Arena(start, nodes, depth) && Rounds(start, nodes, expanded, queues, arenas)
    requires queues[|expanded|] == pq && (forall i :: i in pq ==> i < |nodes|)
    requires IsMinOf(nodes, pq, m) && !IsGoal(nodes[m].board)
    ensures Arena(start, nodes', depth')
    ensures Rounds(start, nodes', expanded + [m], queues + [pq'], arenas + [nodes'])
    ensures forall i :: i in pq' ==> i < |nodes'|
    ensures Puzzle(start) ==> pq' != {}
  {
    nodes', depth', pq' := Expand(start, nodes, depth, pq - {m}, m);
    NextRound(start, nodes, expanded, queues, arenas, m, nodes', pq');
    assert Puzzle(start) ==> |nodes| in pq';
  }

  /**
   * When the initial board is the goal, its root ranks before the twin's:
   * equal priority is impossible to beat, and on a tie the non-twin goes
   * first. So the only minimum of the two roots is the initial board.
   */
  lemma RootsMin(start: Board, nodes: seq<Node>, m: nat)
    requires Valid(start) && IsGoal(start)
    requires |nodes| >= 2 && nodes[0] == Node(start, 0, None, false) && nodes[1] == Node(Twin(start), 0, None, true)
    requires IsMinOf(nodes, {0, 1}, m)
    ensures m == 0
  {
    ManhattanDominatesHamming(start.size, start.blocks);
    var a, b := nodes[0], nodes[1];
    assert Priority(a) == 0 && Priority(b) >= 0;
    LexLess4(Key(a), Key(b));
    assert CompareTo(b, a) > 0;
  }

  /** A search from the goal board with any fuel at all finds the initial root at once. */
  lemma GoalFoundFirst(start: Board, fuel: nat, run: Run)
    requires Puzzle(start) && IsGoal(start) && fuel >= 1
    requires SearchRun(start, fuel, run)
    ensures run.expanded == [] && run.stop == AtGoal(0)
  {
    assert |run.expanded| == 0 by {
      if |run.expanded| > 0 {
        assert RoundAt(run.expanded, run.queues, run.arenas, 0);
        RootsMin(start, run.arenas[0], run.expanded[0]);
      }
    }
    if run.stop.AtGoal? {
      RootsMin(start, run.nodes, run.stop.m);
    }
  }

  /**
   * The `Solver` constructor. A missing board throws `NullPointerException`.
   * Out of fuel the result is `Ok(None)`. A goal on the twin's branch means
   * the initial board is unsolvable; one on the initial board's branch is
   * the solution, rebuilt from the parent links. `run` records the search
   * and `trail` the boards leading to the goal that was found.
   */
  method Solve(initial: Option<Board>, fuel: nat) returns (r: Result<Option<Solver>>, ghost run: Run, ghost trail: seq<Board>)
    requires initial.Some? ==> Valid(initial.value)
    ensures initial.None? <==> r == Err(NullPointer)
    ensures initial.Some? ==> SearchRun(initial.value, fuel, run)
    ensures initial.Some? && run.stop == OutOfFuel ==> r == Ok(None)
    ensures initial.Some? && run.stop == QueueEmpty ==> r == Err(NoSuchElement)
    ensures initial.Some? && run.stop.AtGoal? ==>
      var goal := run.nodes[run.stop.m];
      && trail == Path(run.nodes, run.stop.m)
      && r == Ok(Some(if goal.twin then Solver(false, -1, None) else Solver(true, goal.steps, Some(trail))))
    ensures r == Err(NoSuchElement) ==> initial.Some? && !Puzzle(initial.value)
    ensures r.Ok? && r.value.Some? && r.value.value.solvable ==>
      && initial.Some?
      && r.value.value.result == Some(trail)
      && SolvesFrom(initial.value, trail)
      && r.value.value.moves == ToShort(|trail| - 1)
    ensures r.Ok? && r.value.Some? && !r.value.value.solvable ==>
      && initial.Some?
      && r.value.value == Solver(false, -1, None)
      && SolvesFrom(Twin(initial.value), trail)
    ensures initial.Some? && Puzzle(initial.value) && IsGoal(initial.value) && fuel >= 1 ==>
      r == Ok(Some(Solver(true, 0, Some([initial.value]))))
  {
    trail := [];
    if initial.None? {
      r := Err(NullPointer);
      run := Run([], [], [], [], [], OutOfFuel);
    } else {
      var start := initial.value;
      var nodes, stop;
      nodes, stop, run := Search(start, fuel);
      match stop {
        case OutOfFuel =>
          r := Ok(None);
        case QueueEmpty =>
          r := Err(NoSuchElement);
        case AtGoal(m) =>
          FoundGoal(start, nodes, run.depth, m);
          trail := Path(nodes, m);
          if nodes[m].twin {
            r := Ok(Some(Solver(false, -1, None)));
          } else {
            var result := Rebuild(nodes, m);
            r := Ok(Some(Solver(true, nodes[m].steps, Some(result))));
          }
      }
      if Puzzle(start) && IsGoal(start) && fuel >= 1 {
        GoalFoundFirst(start, fuel, run);
      }
    }
  }

  /** A goal node found in the arena ends a slide sequence from its branch's root. */
  lemma FoundGoal(start: Board, nodes: seq<Node>, depth: seq<nat>, m: nat)
    requires Valid(start) && Arena(start, nodes, depth) && m < |nodes| && IsGoal(nodes[m].board)
    ensures ParentsBefore(nodes)
    ensures SolvesFrom(if nodes[m].twin then Twin(start) else start, Path(nodes, m))
    ensures nodes[m].steps == ToShort(|Path(nodes, m)| - 1)
  {
    PathShape(start, nodes, depth, m);
    ArenaAt(start, nodes, depth, m);
  }

  /** On a puzzle, expanding a node adds at least one child, so the queue never runs dry. */
  lemma ExpandGrows(start: Board, nodes: seq<Node>, depth: seq<nat>, m: nat, nodes': seq<Node>)
    requires Valid(start) && Arena(start, nodes, depth) && m < |nodes| && Valid(nodes[m].board)
    requires nodes' == nodes + ChildNodes(Kept(Neighbors(nodes[m].board), PrevBoard(nodes, m)),
                                          ToShort(nodes[m].steps + 1), m, nodes[m].twin)
    ensures Puzzle(start) ==> |nodes'| > |nodes|
  {
    if Puzzle(start) {
      ArenaAt(start, nodes, depth, m);
      ParentEarlier(start, nodes, depth, m);
      if nodes[m].prevNode.Some? {
        ArenaAt(start, nodes, depth, nodes[m].prevNode.value);
      }
      NeighborsDistinct(nodes[m].board);
      KeptSize(Neighbors(nodes[m].board), PrevBoard(nodes, m));
    }
  }
}
