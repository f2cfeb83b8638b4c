/** Geometry of the 20 x 20 toroidal board: cells, the four headings, one step of
    movement with wrap-around, and the counting argument that a free cell exists
    while the snake covers fewer than all cells. */
module Grid {

  /** Side length of the square board, in cells. */
  const GridSize: int := 20

  /** Number of cells on the board. */
  const CellCount: int := GridSize * GridSize

  /** A board position; x grows to the right and y grows downwards, as on screen. */
  datatype Cell = Cell(x: int, y: int)

  datatype Direction = Up | Down | Left | Right

  predicate InBounds(c: Cell) {
    0 <= c.x < GridSize && 0 <= c.y < GridSize
  }

  predicate AllInBounds(s: seq<Cell>) {
    forall i :: 0 <= i < |s| ==> InBounds(s[i])
  }

  /** No cell occurs twice. */
  predicate Distinct(s: seq<Cell>) {
    forall i, j :: 0 <= i < j < |s| ==> s[i] != s[j]
  }

  /** The heading that reverses `d`. */
  function Opposite(d: Direction): (r: Direction)
    ensures r != d
  {
    match d
    case Up => Down
    case Down => Up
    case Left => Right
    case Right => Left
  }

  /** Horizontal displacement of one step in direction `d`. */
  function Dx(d: Direction): int {
    match d
    case Left => -1
    case Right => 1
    case _ => 0
  }

  /** Vertical displacement of one step in direction `d` (screen coordinates). */
  function Dy(d: Direction): int {
    match d
    case Up => -1
    case Down => 1
    case _ => 0
  }

  /** The teleport at the board's edges: a coordinate below 0 becomes the last
      column or row, one at or beyond the size becomes 0. For a coordinate at most
      one step outside the board this is arithmetic modulo the board size. */
  function Wrap(v: int): (w: int)
    ensures -1 <= v <= GridSize ==> 0 <= w < GridSize && w == v % GridSize
  {
    if v < 0 then GridSize - 1 else if v >= GridSize then 0 else v
  }

  /** The cell one step from `c` in direction `d`, wrapped onto the board. From a
      cell on the board this is the neighbour on the torus: the result is on the
      board, differs from `c`, and its coordinates are those of `c` displaced by
      one unit modulo the board size. */
  function Move(c: Cell, d: Direction): (r: Cell)
    ensures InBounds(c) ==> InBounds(r) && r != c
    ensures InBounds(c) ==> r == Cell((c.x + Dx(d)) % GridSize, (c.y + Dy(d)) % GridSize)
  {
    var stepped := match d
      case Up => Cell(c.x, c.y - 1)
      case Down => Cell(c.x, c.y + 1)
      case Left => Cell(c.x - 1, c.y)
      case Right => Cell(c.x + 1, c.y);
    Cell(Wrap(stepped.x), Wrap(stepped.y))
  }

  /** Stepping back in the opposite direction returns to the starting cell,
      including across an edge. */
  lemma MoveUndo(c: Cell, d: Direction)
    requires InBounds(c)
    ensures Move(Move(c, d), Opposite(d)) == c
  {
  }

  /** From a cell on the board, different headings lead to different cells: the
      board is wide enough that a step left and a step right never meet. */
  lemma MoveDistinct(c: Cell, d1: Direction, d2: Direction)
    requires InBounds(c) && d1 != d2
    ensures Move(c, d1) != Move(c, d2)
  {
  }

  /** `b` is one step away from `a`. */
  ghost predicate Adjacent(a: Cell, b: Cell) {
    exists d :: Move(a, d) == b
  }

  /** Each segment is one step away from the segment before it. */
  ghost predicate Connected(s: seq<Cell>) {
    forall i :: 0 <= i < |s| - 1 ==> Adjacent(s[i], s[i + 1])
  }

  /** Some cell of the board is not in `s`. */
  ghost predicate HasFreeCell(s: seq<Cell>) {
    exists c :: InBounds(c) && c !in s
  }

  /** The board's cells in row-major order. */
  function CellAt(i: int): (c: Cell)
    requires 0 <= i < CellCount
    ensures InBounds(c)
  {
    Cell(i % GridSize, i / GridSize)
  }

  function AllCells(): (cells: seq<Cell>)
    ensures |cells| == CellCount && AllInBounds(cells)
  {
    seq(CellCount, i requires 0 <= i < CellCount => CellAt(i))
  }

  lemma AllCellsDistinct()
    ensures Distinct(AllCells())
  {
    var cells := AllCells();
    forall i, j | 0 <= i < j < |cells| ensures cells[i] != cells[j] {
      assert i == GridSize * (i / GridSize) + i % GridSize;
      assert j == GridSize * (j / GridSize) + j % GridSize;
    }
  }

  /** A sequence has at most as many different elements as it is long, and
      exactly as many when no element repeats. */
  lemma {:induction false} ElementCount(s: seq<Cell>)
    ensures |set c | c in s| <= |s|
    ensures Distinct(s) ==> |set c | c in s| == |s|
  {
    if s != [] {
      var rest := s[1..];
      ElementCount(rest);
      assert (set c | c in s) == {s[0]} + (set c | c in rest);
      if Distinct(s) {
        assert Distinct(rest) by {
          forall i, j | 0 <= i < j < |rest| ensures rest[i] != rest[j] {
            assert rest[i] == s[i + 1] && rest[j] == s[j + 1];
          }
        }
        assert s[0] !in rest by {
          forall k | 0 <= k < |rest| ensures rest[k] != s[0] {
            assert rest[k] == s[k + 1];
          }
        }
      }
    }
  }

  /** Pigeonhole: a snake shorter than the number of cells leaves a cell free,
      so the retry loop that places food has something to find. */
  lemma FreeCellExists(s: seq<Cell>)
    requires |s| < CellCount
    ensures HasFreeCell(s)
  {
    var board := set c | c in AllCells();
    var taken := set c | c in s;
    AllCellsDistinct();
    ElementCount(AllCells());
    ElementCount(s);
    assert |taken - board| == |taken| - |taken * board|;
    assert taken * board == board * taken;
    assert |board - taken| == |board| - |board * taken|;
    var c :| c in board - taken;
    assert InBounds(c);
  }
}
