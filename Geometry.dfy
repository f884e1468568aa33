/** Board geometry of the Tafl board view: 1-indexed square grid coordinates and the
    classification of a cell as a corner, the centre (the throne) or an ordinary cell.
    The board dimension is the square root of the snapshot size, so it is never negative
    and Dafny's division agrees with Java's here. */
module Geometry {

  /** A grid coordinate, `x` the row and `y` the column, both counted from 1. */
  datatype Coord = Coord(x: int, y: int)

  /** The kind of widget the board factory is asked for when a cell is created. */
  datatype CellRole = Normal | Corner | Center

  /** All coordinates of a `dim` x `dim` board. */
  function Board(dim: nat): set<Coord>
  {
    set x, y | 1 <= x <= dim && 1 <= y <= dim :: Coord(x, y)
  }

  lemma InBoard(dim: nat, c: Coord)
    ensures c in Board(dim) <==> 1 <= c.x <= dim && 1 <= c.y <= dim
  {
    if 1 <= c.x <= dim && 1 <= c.y <= dim {
      assert Coord(c.x, c.y) in Board(dim);
    }
  }

  /** `isCornerCell`; a corner of a non-empty board lies on it. */
  predicate IsCornerCell(c: Coord, dim: nat)
    ensures IsCornerCell(c, dim) && dim >= 1 ==> 1 <= c.x <= dim && 1 <= c.y <= dim
  {
    (c.x == 1 && c.y == 1) ||
    (c.x == 1 && c.y == dim) ||
    (c.x == dim && c.y == 1) ||
    (c.x == dim && c.y == dim)
  }

  /** `isCenterCell`; the centre of a non-empty board lies on it. */
  predicate IsCenterCell(c: Coord, dim: nat)
    ensures IsCenterCell(c, dim) && dim >= 1 ==> 1 <= c.x <= dim && 1 <= c.y <= dim
  {
    c.x == dim / 2 + 1 && c.y == dim / 2 + 1
  }

  /** A cell that keeps the special colour whatever colour it is asked to take. */
  predicate IsSpecial(c: Coord, dim: nat)
  {
    IsCornerCell(c, dim) || IsCenterCell(c, dim)
  }

  /** The corners are exactly the four extreme cells of the grid. */
  function Corners(dim: nat): set<Coord>
  {
    {Coord(1, 1), Coord(1, dim), Coord(dim, 1), Coord(dim, dim)}
  }

  function CenterOf(dim: nat): Coord
  {
    Coord(dim / 2 + 1, dim / 2 + 1)
  }

  /** The factory call chosen for a new cell: the corner test comes first, so a cell that
      is both a corner and the centre (only on boards of dimension 1 or 2) is a corner. */
  function CellChoice(c: Coord, dim: nat): (r: CellRole)
    ensures r == Normal <==> !IsSpecial(c, dim)
    ensures IsCornerCell(c, dim) ==> r == Corner
  {
    if IsCornerCell(c, dim) then Corner
    else if IsCenterCell(c, dim) then Center
    else Normal
  }

  lemma CornerCellExactly(c: Coord, dim: nat)
    ensures IsCornerCell(c, dim) <==> c in Corners(dim)
  {
  }

  lemma CenterCellExactly(c: Coord, dim: nat)
    ensures IsCenterCell(c, dim) <==> c == CenterOf(dim)
  {
  }

  /** On every board of dimension at least 3 (in particular every odd one) no cell is both
      a corner and the centre, so each special cell has exactly one role. */
  lemma CornerCenterDisjoint(c: Coord, dim: nat)
    requires dim >= 3
    ensures !(IsCornerCell(c, dim) && IsCenterCell(c, dim))
  {
    assert 1 < dim / 2 + 1 < dim;
  }

  /** On a 2 x 2 board the centre (2,2) is also a corner, which is why the order of the
      tests in `CellChoice` matters there. */
  lemma CornerCenterOverlapOnTwo()
    ensures IsCornerCell(Coord(2, 2), 2) && IsCenterCell(Coord(2, 2), 2)
    ensures CellChoice(Coord(2, 2), 2) == Corner
  {
  }

  /** The role chosen for each cell, stated by position: Corner for the four extreme
      cells, Center for the middle cell when it is not also a corner, Normal otherwise. */
  lemma CellChoiceByPosition(c: Coord, dim: nat)
    ensures CellChoice(c, dim) == Corner <==> c in Corners(dim)
    ensures CellChoice(c, dim) == Center <==> c == CenterOf(dim) && c !in Corners(dim)
    ensures CellChoice(c, dim) == Normal <==> c !in Corners(dim) && c != CenterOf(dim)
  {
  }

  /** Exactly one role is chosen and, from dimension 3 on, it is Center precisely for the
      centre cell. */
  lemma CellChoiceRoles(c: Coord, dim: nat)
    requires dim >= 3
    ensures CellChoice(c, dim) == Corner <==> IsCornerCell(c, dim)
    ensures CellChoice(c, dim) == Center <==> IsCenterCell(c, dim)
    ensures CellChoice(c, dim) == Normal <==> !IsCornerCell(c, dim) && !IsCenterCell(c, dim)
  {
    CornerCenterDisjoint(c, dim);
  }

  /** A board of dimension at least 2 has exactly four corner cells. */
  lemma CornerCount(dim: nat)
    requires dim >= 2
    ensures (set c | c in Board(dim) && IsCornerCell(c, dim)) == Corners(dim)
    ensures |Corners(dim)| == 4
  {
    var cs := set c | c in Board(dim) && IsCornerCell(c, dim);
    forall c | c in Corners(dim) ensures c in cs {
      InBoard(dim, c);
    }
    var a, b, d, e := Coord(1, 1), Coord(1, dim), Coord(dim, 1), Coord(dim, dim);
    assert {a, b, d, e} == {a} + {b} + {d} + {e};
    assert |{a} + {b}| == 2;
    assert |{a} + {b} + {d}| == 3;
    assert |{a} + {b} + {d} + {e}| == 4;
  }

  /** A non-empty board has exactly one centre cell, and it lies on the board. */
  lemma CenterCount(dim: nat)
    requires dim >= 1
    ensures (set c | c in Board(dim) && IsCenterCell(c, dim)) == {CenterOf(dim)}
  {
    InBoard(dim, CenterOf(dim));
  }

  /** `findSpecialCell`: the corner and centre cells of a list, in list order (the order is
      stated by `FindSpecialCellAppend`). */
  function FindSpecialCell(cells: seq<Coord>, dim: nat): (r: seq<Coord>)
    ensures |r| <= |cells|
    ensures forall c :: c in r <==> c in cells && IsSpecial(c, dim)
    ensures forall c :: IsSpecial(c, dim) ==> multiset(r)[c] == multiset(cells)[c]
    ensures forall c :: !IsSpecial(c, dim) ==> multiset(r)[c] == 0
  {
    if cells == [] then []
    else
      var rest := FindSpecialCell(cells[1..], dim);
      assert cells == [cells[0]] + cells[1..];
      if IsSpecial(cells[0], dim) then [cells[0]] + rest else rest
  }

  /** The filter keeps the list order: filtering a concatenation concatenates the filtered
      parts (together with `FindSpecialCellSingle` this fixes the whole result). */
  lemma {:induction false} FindSpecialCellAppend(a: seq<Coord>, b: seq<Coord>, dim: nat)
    ensures FindSpecialCell(a + b, dim) == FindSpecialCell(a, dim) + FindSpecialCell(b, dim)
  {
    if a == [] {
      assert a + b == b;
    } else {
      assert (a + b)[0] == a[0];
      assert (a + b)[1..] == a[1..] + b;
      FindSpecialCellAppend(a[1..], b, dim);
    }
  }

  /** A single cell is kept exactly when it is a corner or the centre. */
  lemma FindSpecialCellSingle(c: Coord, dim: nat)
    ensures FindSpecialCell([c], dim) == if IsSpecial(c, dim) then [c] else []
  {
    assert [c][1..] == [];
  }
}
