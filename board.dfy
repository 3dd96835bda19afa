/**
 * An immutable n-by-n sliding-tile board (8puzzle/Board.java).
 *
 * The tiles live in a flat row-major sequence; index `pos` is row `pos / size`,
 * column `pos % size`, and the goal places tile `t` at index `t - 1` with the
 * blank (0) last. A board caches the blank's index and its Hamming and
 * Manhattan distances. The main constructor computes them in nested loops
 * (`NewBoard`); a derived board (`Derive`) swaps two cells of its parent and
 * updates the cached distances from the two cells alone.
 */
module Boards {
  import opened Wrappers

  /** The blank tile. */
  const BLANK := 0

  /** Java's narrowing `(char) v`: the low 16 bits of `v`, read as unsigned. */
  function ToChar(v: int): (c: int)
    ensures 0 <= c < 0x1_0000
    ensures 0 <= v < 0x1_0000 ==> c == v
    ensures (v - c) % 0x1_0000 == 0
  {
    v % 0x1_0000
  }

  /** Java's narrowing `(short) v`: the low 16 bits of `v`, read in two's complement. */
  function ToShort(v: int): (s: int)
    ensures -0x8000 <= s < 0x8000
    ensures -0x8000 <= v < 0x8000 ==> s == v
    ensures 0 <= v ==> s <= v
    ensures (v - s) % 0x1_0000 == 0
  {
    var m := v % 0x1_0000;
    if m < 0x8000 then m else m - 0x1_0000
  }

  function Abs(v: int): nat
  {
    if v < 0 then -v else v
  }

  function Indicator(b: bool): nat
  {
    if b then 1 else 0
  }

  // ---------------------------------------------------------------------------
  // Positions, distances and their from-scratch totals
  // ---------------------------------------------------------------------------

  /** `toPosition`: the flat index of column `x`, row `y`. */
  function ToPosition(n: int, x: int, y: int): (pos: int)
    requires 0 <= x < n && 0 <= y < n
    ensures 0 <= pos < n * n && pos == y * n + x
    ensures pos / n == y && pos % n == x
  {
    DivModUnique(y * n + x, n, y, x);
    MulStrictBound(y, n, x);
    y * n + x
  }

  /** `isAtPosition`: the tile at `pos` is the one the goal puts there. */
  function IsAtPosition(pos: int, tile: int): (at: bool)
    ensures forall n: nat :: 0 <= pos < n * n - 1 ==> (at <==> tile == GoalBlocks(n)[pos])
    ensures 0 <= pos && at ==> tile != BLANK
  {
    tile == pos + 1
  }

  /** A non-blank tile away from its goal index: what Hamming counts. */
  predicate Misplaced(pos: int, tile: int)
  {
    tile != BLANK && !IsAtPosition(pos, tile)
  }

  /**
   * The column of cell `pos` in a grid `n` wide, by repeated subtraction;
   * `ColRow` shows it is `pos % n`. Written without division so that the
   * definition unfolds into linear arithmetic only.
   */
  function Col(n: int, pos: int): int
    requires n >= 1 && pos >= 0
    decreases pos
  {
    if pos < n then pos else Col(n, pos - n)
  }

  /** The row of cell `pos` in a grid `n` wide, by repeated subtraction; `ColRow` shows it is `pos / n`. */
  function Row(n: int, pos: int): nat
    requires n >= 1 && pos >= 0
    decreases pos
  {
    if pos < n then 0 else Row(n, pos - n) + 1
  }

  /** Column and row are Java's `%` and `/`, which agree with Dafny's on non-negative operands. */
  lemma {:induction false} ColRow(n: int, pos: int)
    requires n >= 1 && pos >= 0
    ensures Col(n, pos) == pos % n && Row(n, pos) == pos / n
    decreases pos
  {
    if pos >= n {
      ColRow(n, pos - n);
      DivModSplit(pos - n, n);
      DivModUnique(pos, n, Row(n, pos - n) + 1, Col(n, pos - n));
    } else {
      DivModUnique(pos, n, 0, pos);
    }
  }

  /**
   * `calcManhattan`: column distance plus row distance between `pos` and the
   * goal index `tile - 1`. The source takes columns and rows with `%` and `/`;
   * both operands are non-negative, where `ColRow` shows `Col` and `Row` are
   * those operators.
   */
  function CalcManhattan(n: int, pos: nat, tile: int): (d: nat)
    requires n > 0 && tile >= 1
    ensures d == 0 <==> IsAtPosition(pos, tile)
  {
    var target := tile - 1;
    SameCell(n, pos, target);
    Abs(Col(n, pos) - Col(n, target)) + Abs(Row(n, pos) - Row(n, target))
  }

  /** A cell is determined by its column and row. */
  lemma SameCell(n: int, p: nat, q: nat)
    requires n > 0
    ensures Col(n, p) == Col(n, q) && Row(n, p) == Row(n, q) <==> p == q
  {
    ColRow(n, p);
    ColRow(n, q);
    DivModSplit(p, n);
    DivModSplit(q, n);
  }

  /** What the tile at `pos` adds to the Manhattan distance. */
  function Contribution(n: int, pos: nat, tile: int): nat
    requires n > 0 && tile >= 0
  {
    if Misplaced(pos, tile) then CalcManhattan(n, pos, tile) else 0
  }

  predicate CharTiles(s: seq<int>)
  {
    forall k :: 0 <= k < |s| ==> 0 <= s[k] < 0x1_0000
  }

  /** The Hamming distance of a tile sequence, computed from scratch. */
  function HammingOf(s: seq<int>): nat
  {
    if s == [] then 0
    else HammingOf(s[..|s| - 1]) + Indicator(Misplaced(|s| - 1, s[|s| - 1]))
  }

  /** The Manhattan distance of a tile sequence, computed from scratch. */
  function ManhattanOf(n: int, s: seq<int>): nat
    requires n > 0 && CharTiles(s)
  {
    if s == [] then 0
    else ManhattanOf(n, s[..|s| - 1]) + Contribution(n, |s| - 1, s[|s| - 1])
  }

  /** Where the main constructor leaves `blankPos`: the last blank, or 0 when there is none. */
  function LastBlank(s: seq<int>): (p: nat)
    ensures BLANK in s ==> p < |s| && s[p] == BLANK && forall k :: p < k < |s| ==> s[k] != BLANK
    ensures BLANK !in s ==> p == 0
  {
    if s == [] then 0
    else if s[|s| - 1] == BLANK then |s| - 1
    else LastBlank(s[..|s| - 1])
  }

  /** The tiles exchanged: `s` with cells `i` and `j` swapped. */
  function Swap(s: seq<int>, i: int, j: int): (t: seq<int>)
    requires 0 <= i < |s| && 0 <= j < |s|
    ensures |t| == |s| && t[i] == s[j] && t[j] == s[i]
    ensures forall k :: 0 <= k < |s| && k != i && k != j ==> t[k] == s[k]
  {
    s[i := s[j]][j := s[i]]
  }

  // ---------------------------------------------------------------------------
  // The board
  // ---------------------------------------------------------------------------

  datatype Board = Board(size: int, blocks: seq<int>, blankPos: int, hamming: int, manhattan: int)

  /** The cached fields of a board agree with its tiles. */
  predicate Valid(b: Board)
  {
    && b.size >= 2
    && |b.blocks| == Area(b.size, b.size)
    && CharTiles(b.blocks)
    && 0 <= b.blankPos < |b.blocks|
    && (BLANK in b.blocks ==> b.blocks[b.blankPos] == BLANK)
    && b.hamming == HammingOf(b.blocks)
    && b.manhattan == ManhattanOf(b.size, b.blocks)
  }

  /**
   * Distinct values in 0 .. |s|-1, the blank among them: by counting, a
   * permutation of 0 .. |s|-1.
   */
  predicate IsPermutation(s: seq<int>)
  {
    && (forall k :: 0 <= k < |s| ==> 0 <= s[k] < |s|)
    && (forall i, j :: 0 <= i < j < |s| ==> s[i] != s[j])
    && BLANK in s
  }

  /** A puzzle board: a valid board whose tiles are a permutation of 0 .. n*n-1. */
  predicate Puzzle(b: Board)
  {
    Valid(b) && IsPermutation(b.blocks)
  }

  /** `isGoal`: the cached Hamming distance is zero, so on a valid board no tile is misplaced. */
  function IsGoal(b: Board): (goal: bool)
    ensures Valid(b) ==> (goal <==> forall k :: 0 <= k < |b.blocks| ==> !Misplaced(k, b.blocks[k]))
  {
    HammingZero(b.blocks);
    b.hamming == 0
  }

  /** The goal layout: 1, 2, ..., n*n-1, then the blank. */
  function GoalBlocks(n: nat): seq<int>
  {
    seq(n * n, i => if i == n * n - 1 then BLANK else i + 1)
  }

  /** The first `n` cells of a grid row, narrowed to `char`. */
  function RowTiles(row: seq<int>, n: nat): (r: seq<int>)
    requires n <= |row|
    ensures |r| == n && CharTiles(r)
  {
    seq(n, x requires 0 <= x < n => ToChar(row[x]))
  }

  /** The number of cells in `rows` rows of `n` cells, counted row by row. */
  function Area(rows: nat, n: nat): nat
  {
    if rows == 0 then 0 else Area(rows - 1, n) + n
  }

  /** The first `rows` rows of a grid, row-major, as the constructor copies them. */
  function Flatten(grid: seq<seq<int>>, n: nat, rows: nat): (s: seq<int>)
    requires rows <= |grid| && forall y :: 0 <= y < rows ==> n <= |grid[y]|
    ensures |s| == Area(rows, n) && CharTiles(s)
  {
    if rows == 0 then []
    else Flatten(grid, n, rows - 1) + RowTiles(grid[rows - 1], n)
  }

  /**
   * The main constructor `Board(int[][])`. The dimension is the number of rows
   * narrowed to `short`; fewer than 2 throws `IllegalArgumentException`. Cells are
   * read row by row, each narrowed to `char`; a row shorter than the dimension
   * throws `ArrayIndexOutOfBoundsException` when it is reached.
   */
  method NewBoard(grid: seq<seq<int>>) returns (r: Result<Board>)
    ensures ToShort(|grid|) < 2 ==> r == Err(IllegalArgument)
    ensures ToShort(|grid|) >= 2 ==>
      (r.Err? <==> exists y :: 0 <= y < ToShort(|grid|) && |grid[y]| < ToShort(|grid|))
    ensures ToShort(|grid|) >= 2 && r.Err? ==> r.error == IndexOutOfBounds
    ensures r.Ok? ==>
      && var n := ToShort(|grid|);
      && 2 <= n <= |grid|
      && (forall y :: 0 <= y < n ==> n <= |grid[y]|)
      && r.value.size == n
      && r.value.blocks == Flatten(grid, n, n)
      && r.value.blankPos == LastBlank(r.value.blocks)
      && Valid(r.value)
  {
    var size := ToShort(|grid|);
    if size < 2 {
      return Err(IllegalArgument);
    }
    // The grid is stored row by row in one array of size*size cells.
    var blocks := new int[size * size];
    AreaProduct(size, size);
    r := ReadGrid(grid, size, blocks);
    if r.Ok? {
      ReadBoardValid(size, r.value.blocks, r.value.blankPos, r.value.hamming, r.value.manhattan);
    }
  }

  /**
   * The loops of the main constructor, once the dimension `size` is known and
   * the flat array allocated: the cells are read row by row into `blocks`.
   */
  method ReadGrid(grid: seq<seq<int>>, size: int, blocks: array<int>) returns (r: Result<Board>)
    requires 2 <= size <= |grid| && blocks.Length == Area(size, size)
    modifies blocks
    ensures r.Ok? <==> forall y :: 0 <= y < size ==> size <= |grid[y]|
    ensures r.Err? ==> r.error == IndexOutOfBounds
    ensures r.Ok? ==>
      var s := Flatten(grid, size, size);
      r.value == Board(size, s, LastBlank(s), HammingOf(s), ManhattanOf(size, s))
  {
    var blankPos, hamming, manhattan := 0, 0, 0;
    var y, ok := 0, true;
    ghost var done: seq<int> := [];  // the cells read so far, row-major
    while y < size
      invariant 0 <= y <= size
      invariant RowsRead(grid, size, y, blocks[..], done, blankPos, hamming, manhattan)
    {
      RowFits(y, size);
      ok, blankPos, hamming, manhattan, done := ReadRow(grid, size, y, blocks, done, blankPos, hamming, manhattan);
      if !ok {
        break;
      }
      y := y + 1;
    }
    if ok {
      assert blocks[..] == done;
      r := Ok(Board(size, blocks[..], blankPos, hamming, manhattan));
    } else {
      r := Err(IndexOutOfBounds);
    }
  }

  /** The fields the main constructor computes make a valid board. */
  lemma ReadBoardValid(n: int, s: seq<int>, blankPos: int, hamming: int, manhattan: int)
    requires n >= 2 && |s| == Area(n, n) && CharTiles(s)
    requires blankPos == LastBlank(s) && hamming == HammingOf(s) && manhattan == ManhattanOf(n, s)
    ensures Valid(Board(n, s, blankPos, hamming, manhattan))
  {
    AreaProduct(n, n);
    MulMono(1, n, n);
  }

  /**
   * The state of the main constructor after its first `rows` rows: they are
   * all long enough, the cells read so far (`done`, row-major) sit at the
   * front of `cells`, and the blank position and the distances agree with them.
   */
  ghost predicate RowsRead(grid: seq<seq<int>>, size: int, rows: int, cells: seq<int>, done: seq<int>,
                           blankPos: int, hamming: int, manhattan: int)
  {
    && 0 <= rows <= |grid| && size > 0
    && (forall k :: 0 <= k < rows ==> size <= |grid[k]|)
    && done == Flatten(grid, size, rows) && |done| <= |cells| && cells[..|done|] == done
    && blankPos == LastBlank(done)
    && hamming == HammingOf(done)
    && manhattan == ManhattanOf(size, done)
  }

  /**
   * The inner loop of the main constructor: row `y` copied into `blocks`, the
   * running blank position and distances updated cell by cell. `ok` is false
   * when the row is shorter than the dimension.
   */
  method ReadRow(grid: seq<seq<int>>, size: int, y: int, blocks: array<int>, ghost done: seq<int>,
                 blankPos0: int, hamming0: int, manhattan0: int)
    returns (ok: bool, blankPos: int, hamming: int, manhattan: int, ghost cur: seq<int>)
    requires 0 <= y < size <= |grid| && Area(y, size) + size <= blocks.Length
    requires RowsRead(grid, size, y, blocks[..], done, blankPos0, hamming0, manhattan0)
    modifies blocks
    ensures ok <==> size <= |grid[y]|
    ensures ok ==> RowsRead(grid, size, y + 1, blocks[..], cur, blankPos, hamming, manhattan)
  {
    var row := grid[y];
    blankPos, hamming, manhattan := blankPos0, hamming0, manhattan0;
    var x := 0;
    cur := done;
    while x < size
      invariant 0 <= x <= size && x <= |row|
      invariant |cur| == |done| + x
      invariant cur == done + RowTiles(row, x) && blocks[..|cur|] == cur
      invariant blankPos == LastBlank(cur)
      invariant hamming == HammingOf(cur)
      invariant manhattan == ManhattanOf(size, cur)
    {
      if |grid[y]| <= x {
        return false, blankPos, hamming, manhattan, cur;
      }
      ghost var next;
      blankPos, hamming, manhattan, next := ReadCell(row, size, x, y, blocks, done, cur, blankPos, hamming, manhattan);
      cur := next;
      x := x + 1;
    }
    FlattenStep(grid, size, y);
    ok := true;
  }

  /**
   * One step of the inner loop of the main constructor: the cell at column `x`,
   * row `y` is narrowed to `char` and stored at its flat index; the blank
   * position and the distances take it into account.
   */
  method ReadCell(row: seq<int>, size: int, x: int, y: int, blocks: array<int>, ghost done: seq<int>,
                  ghost cur: seq<int>, blankPos0: int, hamming0: int, manhattan0: int)
    returns (blankPos: int, hamming: int, manhattan: int, ghost next: seq<int>)
    requires 0 <= x < size && x < |row| && 0 <= y < size
    requires |done| == Area(y, size) && |cur| == |done| + x < blocks.Length
    requires CharTiles(done) && cur == done + RowTiles(row, x) && blocks[..|cur|] == cur
    requires blankPos0 == LastBlank(cur)
    requires hamming0 == HammingOf(cur) && manhattan0 == ManhattanOf(size, cur)
    modifies blocks
    ensures next == done + RowTiles(row, x + 1) && blocks[..|next|] == next
    ensures blankPos == LastBlank(next)
    ensures hamming == HammingOf(next) && manhattan == ManhattanOf(size, next)
  {
    blankPos, hamming, manhattan := blankPos0, hamming0, manhattan0;
    var pos := ToPosition(size, x, y);
    PositionIsArea(size, x, y);
    var tile := ToChar(row[x]);
    blocks[pos] := tile;
    AppendCell(size, cur, tile);
    RowTilesSnoc(row, x);
    if tile == BLANK {
      blankPos := pos;
    } else if !IsAtPosition(pos, tile) {
      hamming := hamming + 1;
      manhattan := manhattan + CalcManhattan(size, pos, tile);
    }
    next := cur + [tile];
  }

  /** Reading one more row appends its cells. */
  lemma FlattenStep(grid: seq<seq<int>>, n: nat, y: nat)
    requires y < |grid| && forall k :: 0 <= k < y ==> n <= |grid[k]|
    requires n <= |grid[y]|
    ensures forall k :: 0 <= k < y + 1 ==> n <= |grid[k]|
    ensures Flatten(grid, n, y + 1) == Flatten(grid, n, y) + RowTiles(grid[y], n)
  {
  }

  /** Reading one more cell of a row appends its `char` value. */
  lemma RowTilesSnoc(row: seq<int>, x: nat)
    requires x < |row|
    ensures RowTiles(row, x + 1) == RowTiles(row, x) + [ToChar(row[x])]
  {
  }

  /** How the from-scratch values grow when one more cell is read. */
  lemma AppendCell(n: int, done: seq<int>, t: int)
    requires n > 0 && CharTiles(done) && 0 <= t < 0x1_0000
    ensures CharTiles(done + [t])
    ensures LastBlank(done + [t]) == if t == BLANK then |done| else LastBlank(done)
    ensures HammingOf(done + [t]) == HammingOf(done) + Indicator(Misplaced(|done|, t))
    ensures ManhattanOf(n, done + [t]) == ManhattanOf(n, done) + Contribution(n, |done|, t)
  {
    assert (done + [t])[..|done|] == done;
  }

  /**
   * The private derive constructor `Board(board, oldPos, newPos)`: the parent's
   * tiles with two cells swapped. The distances are not recomputed: the
   * contributions of the two cells after the swap are added and those before
   * the swap are taken off. The parent, a value, is untouched.
   */
  function Derive(b: Board, oldPos: int, newPos: int): (r: Board)
    requires Valid(b)
    requires 0 <= oldPos < |b.blocks| && 0 <= newPos < |b.blocks|
    ensures r.size == b.size && r.blocks == Swap(b.blocks, oldPos, newPos)
    ensures Valid(r)
  {
    var blocks := Swap(b.blocks, oldPos, newPos);
    // Distances the two cells add after the swap ...
    var h1 := b.hamming + Indicator(Misplaced(oldPos, blocks[oldPos])) + Indicator(Misplaced(newPos, blocks[newPos]));
    var m1 := b.manhattan + Contribution(b.size, oldPos, blocks[oldPos]) + Contribution(b.size, newPos, blocks[newPos]);
    // ... less what they added before it.
    var h := h1 - Indicator(Misplaced(oldPos, b.blocks[oldPos])) - Indicator(Misplaced(newPos, b.blocks[newPos]));
    var m := m1 - Contribution(b.size, oldPos, b.blocks[oldPos]) - Contribution(b.size, newPos, b.blocks[newPos]);
    var blankPos :=
      if blocks[oldPos] == BLANK then oldPos
      else if blocks[newPos] == BLANK then newPos
      else b.blankPos;
    SwapHamming(b.blocks, oldPos, newPos);
    SwapManhattan(b.size, b.blocks, oldPos, newPos);
    Board(b.size, blocks, blankPos, h, m)
  }

  /**
   * On a puzzle board the blank is unique, so the blank index `derive`
   * carries along is the one the main constructor would find again.
   */
  lemma DeriveKeepsPuzzle(b: Board, oldPos: int, newPos: int)
    requires Puzzle(b) && 0 <= oldPos < |b.blocks| && 0 <= newPos < |b.blocks|
    ensures Puzzle(Derive(b, oldPos, newPos))
    ensures Derive(b, oldPos, newPos).blankPos == LastBlank(Derive(b, oldPos, newPos).blocks)
  {
    var r := Derive(b, oldPos, newPos);
    SwapKeepsPermutation(b.blocks, oldPos, newPos);
    BlankIsUnique(r.blocks, r.blankPos, LastBlank(r.blocks));
  }

  /**
   * `twin`: exchange the first two cells of the second row when the blank is
   * in the first row, and of the first row otherwise.
   */
  function Twin(b: Board): (r: Board)
    requires Valid(b)
    ensures Valid(r) && r.size == b.size
    ensures SwapsRowStart(b, r, if b.blankPos < b.size then b.size else 0)
    ensures Puzzle(b) ==> Puzzle(r) && r.blocks != b.blocks
    ensures Puzzle(b) ==> exists i :: TransposesPair(b, r, i)
  {
    TwoRows(b.size);
    // Exchange two cells of the second row when the blank is in the first, else of the first.
    var i := if Row(b.size, b.blankPos) == 0 then b.size else 0;
    var r := Derive(b, i, i + 1);
    assert SwapsRowStart(b, r, i);
    if IsPermutation(b.blocks) then
      TwinPair(b, i);
      r
    else
      r
  }

  lemma TwinPair(b: Board, i: int)
    requires Puzzle(b)
    requires i == if Row(b.size, b.blankPos) == 0 then b.size else 0
    ensures i + 1 < |b.blocks|
    ensures var r := Derive(b, i, i + 1);
      Puzzle(r) && r.blocks != b.blocks && TransposesPair(b, r, i)
  {
    TwoRows(b.size);
    SwapKeepsPermutation(b.blocks, i, i + 1);
    BlankUnique(b, i);
    BlankUnique(b, i + 1);
    var r := Derive(b, i, i + 1);
    assert r.blocks[i] != b.blocks[i];
  }

  /**
   * `r` is `b` with the two non-blank tiles at `i` and `i + 1` exchanged, where
   * `i` starts the first or the second row.
   */
  predicate TransposesPair(b: Board, r: Board, i: int)
  {
    SwapsRowStart(b, r, i) && b.blocks[i] != BLANK && b.blocks[i + 1] != BLANK
  }

  /** `r` is `b` with the cells at `i` and `i + 1` exchanged, where `i` starts the first or the second row. */
  predicate SwapsRowStart(b: Board, r: Board, i: int)
  {
    && (i == 0 || i == b.size)
    && 0 <= i && i + 1 < |b.blocks|
    && r.blocks == Swap(b.blocks, i, i + 1)
  }

  /** Orthogonal adjacency of two cells of a grid `n` wide: same row and neighbouring columns, or the reverse. */
  predicate Adjacent(n: int, p: int, q: int)
    requires n > 0 && p >= 0 && q >= 0
  {
    || (Row(n, p) == Row(n, q) && Abs(Col(n, p) - Col(n, q)) == 1)
    || (Col(n, p) == Col(n, q) && Abs(Row(n, p) - Row(n, q)) == 1)
  }

  /** The cells the blank at `pos` moves to in `neighbors`: left, right, up, down, each when in bounds. */
  function MoveTargets(n: int, pos: int): (ts: seq<int>)
    requires n >= 2 && 0 <= pos < Area(n, n)
    ensures 2 <= |ts| <= 4
    ensures forall i, j :: 0 <= i < j < |ts| ==> ts[i] != ts[j]
  {
    AreaProduct(n, n);
    MovesLemma(n, pos);
    ColRow(n, pos);
    var x := Col(n, pos);
    var y := Row(n, pos);
    (if x > 0 then [pos - 1] else [])
    + (if x < n - 1 then [pos + 1] else [])
    + (if y > 0 then [pos - n] else [])
    + (if y < n - 1 then [pos + n] else [])
  }

  /**
   * The targets are exactly the cells orthogonally adjacent to `pos`. Kept
   * apart from `MoveTargets` so that its division and remainder stay out of
   * proofs that only count or compare targets.
   */
  lemma MoveTargetsAdjacent(n: int, pos: int)
    requires n >= 2 && 0 <= pos < Area(n, n)
    ensures var ts := MoveTargets(n, pos);
      && (forall k :: 0 <= k < |ts| ==> 0 <= ts[k] < Area(n, n) && Adjacent(n, pos, ts[k]))
      && (forall q :: 0 <= q < Area(n, n) && Adjacent(n, pos, q) ==> q in ts)
  {
    AreaProduct(n, n);
    MovesLemma(n, pos);
    ColRow(n, pos);
  }

  /** `neighbors`: the boards one slide away, the blank exchanged with each target in turn. */
  function Neighbors(b: Board): (r: seq<Board>)
    requires Valid(b)
    ensures var ts := MoveTargets(b.size, b.blankPos);
      && |r| == |ts|
      && forall k :: 0 <= k < |r| ==>
        && Valid(r[k]) && r[k].size == b.size
        && 0 <= ts[k] < |b.blocks| && ts[k] != b.blankPos
        && r[k].blocks == Swap(b.blocks, b.blankPos, ts[k])
        && (Puzzle(b) ==> Puzzle(r[k]) && r[k].blankPos == ts[k])
  {
    var ts := MoveTargets(b.size, b.blankPos);
    MoveTargetsAdjacent(b.size, b.blankPos);
    seq(|ts|, k requires 0 <= k < |ts| => NeighborAt(b, ts[k]))
  }

  /** On a puzzle the neighbours are pairwise different: the blank ends up in a different cell in each. */
  lemma NeighborsDistinct(b: Board)
    requires Puzzle(b)
    ensures var r := Neighbors(b);
      forall i, j :: 0 <= i < j < |r| ==> r[i] != r[j]
  {
    var r := Neighbors(b);
    var ts := MoveTargets(b.size, b.blankPos);
    forall i, j | 0 <= i < j < |r|
      ensures r[i] != r[j]
    {
      assert r[i].blankPos == ts[i] != ts[j] == r[j].blankPos;
    }
  }

  function NeighborAt(b: Board, t: int): (r: Board)
    requires Valid(b) && 0 <= t < |b.blocks| && t != b.blankPos
    ensures Valid(r) && r.size == b.size && r.blocks == Swap(b.blocks, b.blankPos, t)
    ensures Puzzle(b) ==> Puzzle(r) && r.blankPos == t
  {
    if Puzzle(b) then
      SwapKeepsPermutation(b.blocks, b.blankPos, t);
      BlankUnique(b, t);
      Derive(b, b.blankPos, t)
    else
      Derive(b, b.blankPos, t)
  }

  /**
   * `equals`: same dimension, blank index, Hamming distance and tiles. The
   * first three are cheap filters: on puzzle boards only the tiles decide.
   */
  function Equals(a: Board, b: Board): (r: bool)
    ensures Valid(a) && Valid(b) ==> (r <==> a == b)
    ensures Puzzle(a) && Puzzle(b) ==> (r <==> a.size == b.size && a.blocks == b.blocks)
  {
    if Puzzle(a) && Puzzle(b) && a.size == b.size && a.blocks == b.blocks then
      BlankIsUnique(a.blocks, a.blankPos, b.blankPos);
      a.size == b.size && a.blankPos == b.blankPos && a.hamming == b.hamming && a.blocks == b.blocks
    else
      a.size == b.size && a.blankPos == b.blankPos && a.hamming == b.hamming && a.blocks == b.blocks
  }

  // ---------------------------------------------------------------------------
  // Properties of the distances
  // ---------------------------------------------------------------------------

  /** Changing one cell changes the Hamming distance by that cell's contributions alone. */
  lemma {:induction false} HammingUpdate(s: seq<int>, k: int, v: int)
    requires 0 <= k < |s|
    ensures HammingOf(s[k := v]) == HammingOf(s) - Indicator(Misplaced(k, s[k])) + Indicator(Misplaced(k, v))
    decreases |s|
  {
    var t := s[k := v];
    if k == |s| - 1 {
      assert t[..|t| - 1] == s[..|s| - 1];
    } else {
      assert t[..|t| - 1] == s[..|s| - 1][k := v];
      HammingUpdate(s[..|s| - 1], k, v);
    }
  }

  /** Changing one cell changes the Manhattan distance by that cell's contributions alone. */
  lemma {:induction false} ManhattanUpdate(n: int, s: seq<int>, k: int, v: int)
    requires n > 0 && CharTiles(s) && 0 <= k < |s| && 0 <= v < 0x1_0000
    ensures CharTiles(s[k := v])
    ensures ManhattanOf(n, s[k := v]) == ManhattanOf(n, s) - Contribution(n, k, s[k]) + Contribution(n, k, v)
    decreases |s|
  {
    var t := s[k := v];
    if k == |s| - 1 {
      assert t[..|t| - 1] == s[..|s| - 1];
    } else {
      assert t[..|t| - 1] == s[..|s| - 1][k := v];
      ManhattanUpdate(n, s[..|s| - 1], k, v);
    }
  }

  /**
   * The derive constructor's Hamming update is exact: the distance of the
   * swapped tiles equals the parent's less the two cells' old contributions
   * plus their new ones.
   */
  lemma SwapHamming(s: seq<int>, i: int, j: int)
    requires 0 <= i < |s| && 0 <= j < |s|
    ensures HammingOf(Swap(s, i, j)) ==
      HammingOf(s) + Indicator(Misplaced(i, s[j])) + Indicator(Misplaced(j, s[i]))
      - Indicator(Misplaced(i, s[i])) - Indicator(Misplaced(j, s[j]))
  {
    var s1 := s[i := s[j]];
    HammingUpdate(s, i, s[j]);
    HammingUpdate(s1, j, s[i]);
  }

  /** The derive constructor's Manhattan update is exact, as for Hamming. */
  lemma SwapManhattan(n: int, s: seq<int>, i: int, j: int)
    requires n > 0 && CharTiles(s) && 0 <= i < |s| && 0 <= j < |s|
    ensures CharTiles(Swap(s, i, j))
    ensures ManhattanOf(n, Swap(s, i, j)) ==
      ManhattanOf(n, s) + Contribution(n, i, s[j]) + Contribution(n, j, s[i])
      - Contribution(n, i, s[i]) - Contribution(n, j, s[j])
  {
    var s1 := s[i := s[j]];
    ManhattanUpdate(n, s, i, s[j]);
    ManhattanUpdate(n, s1, j, s[i]);
  }

  /** The Hamming distance is zero exactly when no tile is misplaced. */
  lemma {:induction false} HammingZero(s: seq<int>)
    ensures HammingOf(s) == 0 <==> forall k :: 0 <= k < |s| ==> !Misplaced(k, s[k])
    decreases |s|
  {
    if s != [] {
      var p := s[..|s| - 1];
      HammingZero(p);
      assert forall k :: 0 <= k < |p| ==> p[k] == s[k];
    }
  }

  /** At most every non-blank tile is misplaced: Hamming lies in 0 .. n*n-1 on a board with a blank. */
  lemma {:induction false} HammingBound(s: seq<int>)
    ensures HammingOf(s) <= |s|
    ensures BLANK in s ==> HammingOf(s) < |s|
    decreases |s|
  {
    if s != [] {
      var p := s[..|s| - 1];
      HammingBound(p);
      assert s == p + [s[|s| - 1]];
    }
  }

  /**
   * Every misplaced tile is at least one step from home, so Manhattan is at
   * least Hamming, and one is zero exactly when the other is.
   */
  lemma {:induction false} ManhattanDominatesHamming(n: int, s: seq<int>)
    requires n > 0 && CharTiles(s)
    ensures HammingOf(s) <= ManhattanOf(n, s)
    ensures ManhattanOf(n, s) == 0 <==> HammingOf(s) == 0
    decreases |s|
  {
    if s != [] {
      ManhattanDominatesHamming(n, s[..|s| - 1]);
    }
  }

  /** One tile's Manhattan contribution on a puzzle board is at most `2*(n-1)`. */
  lemma ContributionBound(n: int, pos: int, tile: int)
    requires n >= 1 && 0 <= pos < n * n && 0 <= tile <= n * n
    ensures Contribution(n, pos, tile) <= 2 * (n - 1)
  {
    if Misplaced(pos, tile) {
      ColRow(n, pos);
      ColRow(n, tile - 1);
      RowOf(n, pos);
      RowOf(n, tile - 1);
    }
  }

  /** With tiles below `n*n`, the Manhattan total is at most `2*(n-1)` per cell. */
  lemma {:induction false} ManhattanBound(n: int, s: seq<int>)
    requires n >= 1 && CharTiles(s) && |s| <= n * n
    requires forall k :: 0 <= k < |s| ==> s[k] < n * n
    ensures ManhattanOf(n, s) <= 2 * (n - 1) * |s|
    decreases |s|
  {
    if s != [] {
      var c, d := |s| - 1, 2 * (n - 1);
      var init := s[..c];
      assert forall k :: 0 <= k < c ==> init[k] == s[k];
      ManhattanBound(n, init);
      ContributionBound(n, c, s[c]);
      assert ManhattanOf(n, s) == ManhattanOf(n, init) + Contribution(n, c, s[c]);
      MulSucc(c, d);
    }
  }

  /**
   * On a puzzle board at most 1000 wide the Hamming and Manhattan totals, and
   * so every partial sum the constructor and `derive` form, fit a Java `int`:
   * they cannot wrap.
   */
  lemma PuzzleFits(b: Board)
    requires Puzzle(b) && b.size <= 1000
    ensures 0 <= b.hamming <= b.manhattan <= 1_998_000_000
  {
    var n := b.size;
    AreaProduct(n, n);
    ManhattanDominatesHamming(n, b.blocks);
    ManhattanBound(n, b.blocks);
    MulMono(n, 1000, n);
    MulMono(n * n, 1000 * 1000, 2 * (n - 1));
    MulMono(2 * (n - 1), 2 * 999, 1000 * 1000);
  }

  /** `isGoal` holds exactly when the board shows the goal layout. */
  lemma GoalIsSolvedLayout(b: Board)
    requires Puzzle(b)
    ensures IsGoal(b) <==> b.blocks == GoalBlocks(b.size)
  {
    var s, N := b.blocks, |b.blocks|;
    AreaProduct(b.size, b.size);
    var g := GoalBlocks(b.size);
    HammingZero(s);
    if s == g {
      assert forall k :: 0 <= k < N ==> !Misplaced(k, s[k]);
    }
    if IsGoal(b) {
      // The last cell cannot hold its "own" tile N, so it is blank,
      // and then no other cell is.
      assert s[N - 1] == BLANK;
      forall k | 0 <= k < N ensures s[k] == g[k] {
        if k < N - 1 {
          assert s[k] != s[N - 1];
        }
      }
    }
  }

  /**
   * Each slide moves one tile to an adjacent cell, so it changes the
   * Manhattan distance by exactly one (the heuristic is consistent).
   */
  lemma ManhattanStep(b: Board, k: int)
    requires Puzzle(b)
    requires 0 <= k < |Neighbors(b)|
    ensures Abs(Neighbors(b)[k].manhattan - b.manhattan) == 1
  {
    var n, p := b.size, b.blankPos;
    MoveTargetsAdjacent(n, p);
    var t := MoveTargets(n, p)[k];
    var tile := b.blocks[t];
    BlankUnique(b, t);
    SwapManhattan(n, b.blocks, p, t);
    StepDistance(n, p, t, tile);
    assert Contribution(n, p, tile) == CalcManhattan(n, p, tile);
    assert Contribution(n, t, tile) == CalcManhattan(n, t, tile);
  }

  /** Moving a tile to an adjacent cell brings it one step nearer its goal cell or one step further. */
  lemma StepDistance(n: int, p: int, t: int, tile: int)
    requires n > 0 && p >= 0 && t >= 0 && tile >= 1 && Adjacent(n, p, t)
    ensures Abs(CalcManhattan(n, p, tile) - CalcManhattan(n, t, tile)) == 1
  {
    ColRow(n, p);
    ColRow(n, t);
  }

  // ---------------------------------------------------------------------------
  // Helpers about blanks and permutations
  // ---------------------------------------------------------------------------

  /** In a permutation every value, the blank included, occurs once. */
  lemma BlankIsUnique(s: seq<int>, i: int, j: int)
    requires IsPermutation(s) && 0 <= i < |s| && 0 <= j < |s|
    requires s[i] == s[j]
    ensures i == j
  {
  }

  lemma BlankUnique(b: Board, t: int)
    requires Puzzle(b) && 0 <= t < |b.blocks| && t != b.blankPos
    ensures b.blocks[t] != BLANK
  {
    assert b.blocks[b.blankPos] == BLANK;
    if b.blocks[t] == BLANK {
      BlankIsUnique(b.blocks, t, b.blankPos);
    }
  }

  lemma SwapKeepsPermutation(s: seq<int>, i: int, j: int)
    requires IsPermutation(s) && 0 <= i < |s| && 0 <= j < |s|
    ensures IsPermutation(Swap(s, i, j))
  {
    var t := Swap(s, i, j);
    forall a, c | 0 <= a < c < |t| ensures t[a] != t[c] {
      var a' := if a == i then j else if a == j then i else a;
      var c' := if c == i then j else if c == j then i else c;
      assert t[a] == s[a'] && t[c] == s[c'];
      if s[a'] == s[c'] {
        BlankIsUnique(s, a', c');
      }
    }
  }

  // ---------------------------------------------------------------------------
  // Arithmetic helpers
  // ---------------------------------------------------------------------------

  lemma DivModSplit(a: int, n: int)
    requires n > 0
    ensures a == (a / n) * n + a % n && 0 <= a % n < n
  {
  }

  lemma MulMono(a: int, b: int, n: int)
    requires 0 <= a <= b && n >= 0
    ensures a * n <= b * n
  {
  }

  /** A board at least two wide has at least two rows of cells. */
  lemma TwoRows(n: nat)
    requires n >= 2
    ensures 2 * n <= Area(n, n)
  {
    AreaMono(2, n, n);
  }

  /** Row `y` of an `n`-by-`n` grid ends within the grid. */
  lemma RowFits(y: nat, n: nat)
    requires y < n
    ensures Area(y, n) + n <= Area(n, n)
  {
    AreaMono(y + 1, n, n);
  }

  /** The flat index of a cell is the number of cells before it, row-major. */
  lemma PositionIsArea(n: nat, x: nat, y: nat)
    requires x < n && y < n
    ensures ToPosition(n, x, y) == Area(y, n) + x
  {
    AreaProduct(y, n);
  }

  /** More rows, more cells. */
  lemma {:induction false} AreaMono(a: nat, b: nat, n: nat)
    requires a <= b
    ensures Area(a, n) <= Area(b, n)
    decreases b - a
  {
    if a < b {
      AreaMono(a + 1, b, n);
    }
  }

  /** Counting row by row gives the product. */
  lemma {:induction false} AreaProduct(rows: nat, n: nat)
    ensures Area(rows, n) == rows * n
  {
    if rows > 0 {
      AreaProduct(rows - 1, n);
      MulSucc(rows - 1, n);
    }
  }

  lemma MulSucc(y: int, n: int)
    ensures (y + 1) * n == y * n + n
  {
  }

  /** `y * n + x` lies below `n * n` when `y < n` and `x < n`. */
  lemma MulStrictBound(y: int, n: int, x: int)
    requires 0 <= y < n && 0 <= x < n
    ensures 0 <= y * n + x < n * n
  {
    MulMono(y + 1, n, n);
    MulSucc(y, n);
  }

  /** Quotient and remainder are unique. */
  lemma DivModUnique(a: int, n: int, q: int, r: int)
    requires n > 0 && 0 <= r < n && a == q * n + r
    ensures a / n == q && a % n == r
  {
    DivModSplit(a, n);
    var d := q - a / n;
    assert d * n == a % n - r by {
      assert q * n - (a / n) * n == d * n;
    }
    if d >= 1 {
      MulMono(1, d, n);
    } else if d <= -1 {
      MulMono(1, -d, n);
    }
  }

  /** The arithmetic behind `MoveTargets`. */
  lemma MovesLemma(n: int, pos: int)
    requires n >= 2 && 0 <= pos < n * n
    ensures var x, y := pos % n, pos / n;
      && 0 <= x < n && 0 <= y < n
      && (x > 0 ==> 0 <= pos - 1 && Adjacent(n, pos, pos - 1))
      && (x < n - 1 ==> Adjacent(n, pos, pos + 1) && pos + 1 < n * n)
      && (y > 0 ==> 0 <= pos - n && Adjacent(n, pos, pos - n))
      && (y < n - 1 ==> Adjacent(n, pos, pos + n) && pos + n < n * n)
      && forall q :: 0 <= q < n * n && Adjacent(n, pos, q) ==>
           || (x > 0 && q == pos - 1)
           || (x < n - 1 && q == pos + 1)
           || (y > 0 && q == pos - n)
           || (y < n - 1 && q == pos + n)
  {
    RowOf(n, pos);
    MovesHorizontal(n, pos);
    MovesVertical(n, pos);
    forall q | 0 <= q < n * n && Adjacent(n, pos, q)
      ensures
        || (pos % n > 0 && q == pos - 1)
        || (pos % n < n - 1 && q == pos + 1)
        || (pos / n > 0 && q == pos - n)
        || (pos / n < n - 1 && q == pos + n)
    {
      MovesComplete(n, pos, q);
    }
  }

  /** A cell of the grid lies in one of its `n` rows. */
  lemma RowOf(n: int, pos: int)
    requires n >= 1 && 0 <= pos < n * n
    ensures 0 <= pos / n < n && 0 <= pos % n < n
  {
    DivModSplit(pos, n);
    if pos / n >= n {
      MulMono(n, pos / n, n);
    }
  }

  lemma MovesHorizontal(n: int, pos: int)
    requires n >= 2 && 0 <= pos < n * n
    ensures var x, y := pos % n, pos / n;
      && (x > 0 ==> 0 <= pos - 1 && Adjacent(n, pos, pos - 1))
      && (x < n - 1 ==> Adjacent(n, pos, pos + 1) && pos + 1 < n * n)
  {
    var x, y := pos % n, pos / n;
    RowOf(n, pos);
    DivModSplit(pos, n);
    ColRow(n, pos);
    if x > 0 { DivModUnique(pos - 1, n, y, x - 1); ColRow(n, pos - 1); }
    if x < n - 1 { DivModUnique(pos + 1, n, y, x + 1); MulStrictBound(y, n, x + 1); ColRow(n, pos + 1); }
  }

  lemma MovesVertical(n: int, pos: int)
    requires n >= 2 && 0 <= pos < n * n
    ensures var x, y := pos % n, pos / n;
      && (y > 0 ==> 0 <= pos - n && Adjacent(n, pos, pos - n))
      && (y < n - 1 ==> Adjacent(n, pos, pos + n) && pos + n < n * n)
  {
    var x, y := pos % n, pos / n;
    RowOf(n, pos);
    DivModSplit(pos, n);
    ColRow(n, pos);
    if y > 0 { MulSucc(y - 1, n); DivModUnique(pos - n, n, y - 1, x); ColRow(n, pos - n); }
    if y < n - 1 { MulSucc(y, n); DivModUnique(pos + n, n, y + 1, x); MulStrictBound(y + 1, n, x); ColRow(n, pos + n); }
  }

  lemma MovesComplete(n: int, pos: int, q: int)
    requires n >= 2 && 0 <= pos < n * n && 0 <= q < n * n && Adjacent(n, pos, q)
    ensures
      || (pos % n > 0 && q == pos - 1)
      || (pos % n < n - 1 && q == pos + 1)
      || (pos / n > 0 && q == pos - n)
      || (pos / n < n - 1 && q == pos + n)
  {
    var x, y := pos % n, pos / n;
    RowOf(n, pos);
    RowOf(n, q);
    DivModSplit(pos, n);
    DivModSplit(q, n);
    ColRow(n, pos);
    ColRow(n, q);
    if q / n == y + 1 {
      MulSucc(y, n);
    } else if q / n == y - 1 {
      MulSucc(y - 1, n);
    }
  }
}
