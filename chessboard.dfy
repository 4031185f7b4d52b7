/** `draw_square`: a 500 by 500 chessboard of `cellCount` cells per side,
    filled square by square into a zeroed RGB buffer. */
module Chessboard {
  import opened Image
  import opened Arith

  /** The side of the image in pixels (`size`). */
  const Size: nat := 500

  /** `square_size = size / cell_count`, the side of one cell in pixels. */
  function SquareSize(cellCount: U32): nat
    requires cellCount > 0
  {
    Size / cellCount
  }

  /** The colour of cell `(i, j)`: white when `i + j` is even. */
  function CellColor(i: nat, j: nat): (c: Rgb)
    ensures c == White || c == Black
    ensures c == White <==> (i + j) % 2 == 0
  {
    if (i + j) % 2 == 0 then White else Black
  }

  /** The finished image at pixel `(px, py)`: inside the painted area of
      `cellCount * square_size` pixels per side, the colour of the cell the
      pixel lies in; outside it, the zero the buffer started with. */
  function Board(cellCount: U32, px: nat, py: nat): (b: Rgb)
    requires cellCount > 0
    ensures b == White || b == Black
  {
    var s := SquareSize(cellCount);
    if 0 < s && px < cellCount * s && py < cellCount * s then
      DivBounds(px, s);
      DivBounds(py, s);
      CellColor(px / s, py / s)
    else Black
  }

  /** The painted area fits in the image. */
  lemma {:induction false} BoardFits(cellCount: U32)
    requires cellCount > 0
    ensures cellCount * SquareSize(cellCount) <= Size
  {
    DivBounds(Size, cellCount);
  }

  /** Pixels at or beyond `cellCount * square_size` in either direction are
      never painted and keep the buffer's initial black. When `cellCount`
      does not divide 500 this is a strip along the right and bottom edges
      of the image. */
  lemma {:induction false} OutsideIsBlack(cellCount: U32, px: nat, py: nat)
    requires cellCount > 0
    requires px >= cellCount * SquareSize(cellCount) || py >= cellCount * SquareSize(cellCount)
    ensures Board(cellCount, px, py) == Black
  {
  }

  /** With three cells the squares are 166 pixels wide, so the last two
      rows and columns of the image stay black. */
  lemma ThreeCellsLeaveStrip()
    ensures SquareSize(3) == 166
    ensures forall p :: 0 <= p < Size ==> Board(3, 498, p) == Black && Board(3, p, 499) == Black
  {
    forall p | 0 <= p < Size
      ensures Board(3, 498, p) == Black && Board(3, p, 499) == Black
    {
      OutsideIsBlack(3, 498, p);
      OutsideIsBlack(3, p, 499);
    }
  }

  /** Offset `o < s` into cell `c < cellCount` stays inside the painted area. */
  lemma {:induction false} CellOffsetInside(cellCount: U32, c: nat, o: nat)
    requires cellCount > 0 && c < cellCount && o < SquareSize(cellCount)
    ensures c * SquareSize(cellCount) + o < cellCount * SquareSize(cellCount) <= Size
  {
    var s := SquareSize(cellCount);
    BoardFits(cellCount);
    MulMonotone(s, c + 1, cellCount);
    assert s * (c + 1) == c * s + s;
  }

  /** Pixel `(i * s + x, j * s + y)` with `s = square_size` lies in the image
      and shows the colour of cell `(i, j)`. */
  lemma {:induction false} SquareColor(cellCount: U32, i: nat, j: nat, x: nat, y: nat)
    requires cellCount > 0 && i < cellCount && j < cellCount
    requires x < SquareSize(cellCount) && y < SquareSize(cellCount)
    ensures var s := SquareSize(cellCount);
            i * s + x < Size && j * s + y < Size &&
            Board(cellCount, i * s + x, j * s + y) == CellColor(i, j)
  {
    var s := SquareSize(cellCount);
    CellOffsetInside(cellCount, i, x);
    CellOffsetInside(cellCount, j, y);
    DivUnique(i * s + x, s, i);
    DivUnique(j * s + y, s, j);
  }

  /** Cells are disjoint: two index tuples of the loop nest that name the same
      pixel are the same tuple, so no pixel is written twice. */
  lemma {:induction false} SquaresDisjoint(cellCount: U32, i: nat, j: nat, x: nat, y: nat,
                                           i': nat, j': nat, x': nat, y': nat)
    requires cellCount > 0
    requires x < SquareSize(cellCount) && y < SquareSize(cellCount)
    requires x' < SquareSize(cellCount) && y' < SquareSize(cellCount)
    requires var s := SquareSize(cellCount);
             i * s + x == i' * s + x' && j * s + y == j' * s + y'
    ensures i == i' && j == j' && x == x' && y == y'
  {
    var s := SquareSize(cellCount);
    DivUnique(i * s + x, s, i);
    DivUnique(i' * s + x', s, i');
    DivUnique(j * s + y, s, j);
    DivUnique(j' * s + y', s, j');
  }

  /** One square further along lies in the next cell. */
  lemma {:induction false} NextCell(p: nat, s: nat)
    requires 0 < s
    ensures (p + s) / s == p / s + 1
  {
    DivBounds(p, s);
    assert s * (p / s + 1) == s * (p / s) + s;
    DivUnique(p + s, s, p / s + 1);
  }

  /** Inside the painted area the squares have a positive side and every
      pixel shows the colour of the cell it lies in. */
  lemma {:induction false} BoardInside(cellCount: U32, px: nat, py: nat)
    requires cellCount > 0
    requires px < cellCount * SquareSize(cellCount) && py < cellCount * SquareSize(cellCount)
    ensures var s := SquareSize(cellCount);
            0 < s && 0 <= px / s && 0 <= py / s &&
            Board(cellCount, px, py) == CellColor(px / s, py / s)
  {
    var s := SquareSize(cellCount);
    MulMonotone(cellCount, s, 0);
    DivBounds(px, s);
    DivBounds(py, s);
  }

  /** Moving one square to the right inside the painted area changes the
      colour: horizontally adjacent cells are opposite. */
  lemma {:induction false} AdjacentColumnsOpposite(cellCount: U32, px: nat, py: nat)
    requires cellCount > 0
    requires px + SquareSize(cellCount) < cellCount * SquareSize(cellCount)
    requires py < cellCount * SquareSize(cellCount)
    ensures Board(cellCount, px, py) != Board(cellCount, px + SquareSize(cellCount), py)
  {
    var s := SquareSize(cellCount);
    BoardInside(cellCount, px, py);
    BoardInside(cellCount, px + s, py);
    NextCell(px, s);
  }

  /** Moving one square down inside the painted area changes the colour:
      vertically adjacent cells are opposite. */
  lemma {:induction false} AdjacentRowsOpposite(cellCount: U32, px: nat, py: nat)
    requires cellCount > 0
    requires px < cellCount * SquareSize(cellCount)
    requires py + SquareSize(cellCount) < cellCount * SquareSize(cellCount)
    ensures Board(cellCount, px, py) != Board(cellCount, px, py + SquareSize(cellCount))
  {
    var s := SquareSize(cellCount);
    BoardInside(cellCount, px, py);
    BoardInside(cellCount, px, py + s);
    NextCell(py, s);
  }

  /** `draw_square`: the image is 500 by 500 whatever `cellCount` is, and
      every pixel holds `Board` — the cell colours inside the painted area and
      the initial black outside it. A zero `cellCount` divides by zero in the
      source, so it is excluded. */
  method DrawSquare(cellCount: U32) returns (image: array2<Rgb>)
    requires cellCount > 0
    ensures fresh(image)
    ensures image.Length0 == Size && image.Length1 == Size
    ensures forall px, py :: 0 <= px < Size && 0 <= py < Size ==> image[px, py] == Board(cellCount, px, py)
  {
    var squareSize := Size / cellCount;
    image := new Rgb[Size, Size]((_, _) => Black);
    ghost var n, s := cellCount, squareSize;
    BoardFits(cellCount);
    for i := 0 to cellCount
      invariant forall a, b :: 0 <= a < Size && 0 <= b < Size ==>
                  image[a, b] == if a < i * s && b < n * s then Board(n, a, b) else Black
    {
      for j := 0 to cellCount
        invariant forall a, b :: 0 <= a < Size && 0 <= b < Size ==>
                    image[a, b] == if (a < i * s && b < n * s) || (i * s <= a < i * s + s && b < j * s)
                                   then Board(n, a, b) else Black
      {
        var color := if (i + j) % 2 == 0 then White else Black;
        for x := 0 to squareSize
          invariant forall a, b :: 0 <= a < Size && 0 <= b < Size ==>
                      image[a, b] == if (a < i * s && b < n * s) || (i * s <= a < i * s + s && b < j * s) ||
                                        (i * s <= a < i * s + x && j * s <= b < j * s + s)
                                     then Board(n, a, b) else Black
        {
          for y := 0 to squareSize
            invariant forall a, b :: 0 <= a < Size && 0 <= b < Size ==>
                        image[a, b] == if (a < i * s && b < n * s) || (i * s <= a < i * s + s && b < j * s) ||
                                          (i * s <= a < i * s + x && j * s <= b < j * s + s) ||
                                          (a == i * s + x && j * s <= b < j * s + y)
                                       then Board(n, a, b) else Black
          {
            var px := i * squareSize + x;
            var py := j * squareSize + y;
            SquareColor(cellCount, i, j, x, y);
            image[px, py] := color;
          }
        }
        assert j * s + s == (j + 1) * s;
      }
      assert i * s + s == (i + 1) * s;
    }
  }
}
