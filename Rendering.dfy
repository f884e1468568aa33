/** What one board cell shows: the piece widgets it holds and its background colour,
    the colour rule for special cells, and the effect of redrawing the pieces from an
    engine snapshot. */
module Rendering {
  import opened Wrappers
  import opened Geometry

  /** The engine's piece enumeration, as carried by a snapshot cell. */
  datatype PieceKind = Empty | WhitePawn | BlackPawn | WhiteKing

  /** The piece widgets the board factory can create. */
  datatype Icon = WhitePawnIcon | BlackPawnIcon | KingIcon

  /** One entry of an engine board snapshot. */
  datatype BoardCell = BoardCell(coord: Coord, piece: PieceKind)

  /** Background colours. `InitialColor(role)` is whatever colour the factory gives a
      freshly created cell of that role. */
  datatype Color = NormalColor | SpecialColor | PossibleMoveColor | InitialColor(role: CellRole)

  /** The widgets a cell holds; a cell "has a piece" when it holds any. */
  type Content = seq<Icon>

  /** `pawnChoice`: the widgets added to a cell for a snapshot piece (nothing for Empty). */
  function PawnChoice(k: PieceKind): (r: Content)
    ensures |r| <= 1
    ensures r == [] <==> k == Empty
  {
    match k
    case WhitePawn => [WhitePawnIcon]
    case BlackPawn => [BlackPawnIcon]
    case WhiteKing => [KingIcon]
    case Empty => []
  }

  /** The piece a cell's widgets stand for; the inverse of `PawnChoice`. */
  function KindShown(content: Content): PieceKind
  {
    if content == [] then Empty
    else match content[0]
      case WhitePawnIcon => WhitePawn
      case BlackPawnIcon => BlackPawn
      case KingIcon => WhiteKing
  }

  /** The rendering loses nothing: the shown widgets determine the snapshot piece. */
  lemma PawnChoiceRoundTrip(k: PieceKind)
    ensures KindShown(PawnChoice(k)) == k
  {
  }

  /** `setColorBackground`: the colour a cell ends up with when asked to take `col`. */
  function Painted(c: Coord, col: Color, dim: nat): (r: Color)
    ensures r == if CellChoice(c, dim) == Normal then col else SpecialColor
  {
    if IsCenterCell(c, dim) || IsCornerCell(c, dim) then SpecialColor else col
  }

  /** Painting is idempotent, and a special cell ignores the requested colour. */
  lemma PaintedIdempotent(c: Coord, col: Color, dim: nat)
    ensures Painted(c, Painted(c, col, dim), dim) == Painted(c, col, dim)
    ensures IsSpecial(c, dim) ==> forall other: Color :: Painted(c, other, dim) == SpecialColor
  {
  }

  /** The possible-moves colour on every listed cell, special cells included. */
  function Highlighted(colors: map<Coord, Color>, moves: seq<Coord>): (r: map<Coord, Color>)
    ensures r.Keys == colors.Keys
  {
    map c | c in colors :: if c in moves then PossibleMoveColor else colors[c]
  }

  /** Every listed cell repainted through the colour rule with the normal colour. */
  function Reset(colors: map<Coord, Color>, moves: seq<Coord>, dim: nat): (r: map<Coord, Color>)
    ensures r.Keys == colors.Keys
  {
    map c | c in colors :: if c in moves then Painted(c, NormalColor, dim) else colors[c]
  }

  /** After a reset no listed cell shows the possible-moves colour, and resetting again
      changes nothing. */
  lemma ResetClears(colors: map<Coord, Color>, moves: seq<Coord>, dim: nat)
    ensures forall c :: c in moves && c in colors ==> Reset(colors, moves, dim)[c] != PossibleMoveColor
    ensures Reset(Reset(colors, moves, dim), moves, dim) == Reset(colors, moves, dim)
  {
  }

  /** Highlighting and then resetting the same list leaves each listed cell at the normal
      colour (special colour on corners and centre) and every other cell as it was. */
  lemma HighlightThenReset(colors: map<Coord, Color>, moves: seq<Coord>, dim: nat)
    ensures Reset(Highlighted(colors, moves), moves, dim) == Reset(colors, moves, dim)
  {
  }

  // ---------------------------------------------------------------------------------
  // Redrawing from a snapshot

  /** `setPawns`: the cells' contents after the snapshot entries are applied in order;
      each entry clears its cell and adds the widgets `PawnChoice` gives. */
  function ApplySnapshot(pieces: map<Coord, Content>, snap: seq<BoardCell>): map<Coord, Content>
  {
    if snap == [] then pieces
    else
      var last := snap[|snap| - 1];
      ApplySnapshot(pieces, snap[..|snap| - 1])[last.coord := PawnChoice(last.piece)]
  }

  /** One more entry of a snapshot prefix: its cell is set to the entry's widgets. */
  lemma ApplySnapshotStep(pieces: map<Coord, Content>, snap: seq<BoardCell>, i: nat)
    requires i < |snap|
    ensures ApplySnapshot(pieces, snap[..i + 1]) ==
              ApplySnapshot(pieces, snap[..i])[snap[i].coord := PawnChoice(snap[i].piece)]
  {
    assert snap[..i + 1][..i] == snap[..i];
  }

  /** The piece of the last snapshot entry for `c`, if there is one. */
  function Lookup(snap: seq<BoardCell>, c: Coord): (r: Option<PieceKind>)
    ensures r.None? <==> forall i :: 0 <= i < |snap| ==> snap[i].coord != c
  {
    if snap == [] then None
    else if snap[|snap| - 1].coord == c then Some(snap[|snap| - 1].piece)
    else Lookup(snap[..|snap| - 1], c)
  }

  /** For a snapshot that lists each cell once, `Lookup` finds that cell's own entry. */
  lemma {:induction false} LookupDistinct(snap: seq<BoardCell>, i: nat)
    requires i < |snap|
    requires forall j, k :: 0 <= j < k < |snap| ==> snap[j].coord != snap[k].coord
    ensures Lookup(snap, snap[i].coord) == Some(snap[i].piece)
  {
    if i < |snap| - 1 {
      var front := snap[..|snap| - 1];
      assert front[i] == snap[i];
      LookupDistinct(front, i);
    }
  }

  /** Each listed cell ends up holding exactly the widgets for its last listed piece;
      every other cell is untouched. */
  lemma {:induction false} ApplySnapshotAt(pieces: map<Coord, Content>, snap: seq<BoardCell>, c: Coord)
    requires c in pieces
    ensures c in ApplySnapshot(pieces, snap)
    ensures ApplySnapshot(pieces, snap)[c] ==
              match Lookup(snap, c)
              case Some(k) => PawnChoice(k)
              case None => pieces[c]
  {
    if snap != [] {
      ApplySnapshotAt(pieces, snap[..|snap| - 1], c);
    }
  }

  /** The snapshot adds exactly the cells it lists to the map's keys. */
  lemma {:induction false} ApplySnapshotKeys(pieces: map<Coord, Content>, snap: seq<BoardCell>)
    ensures ApplySnapshot(pieces, snap).Keys ==
              pieces.Keys + (set i | 0 <= i < |snap| :: snap[i].coord)
  {
    if snap != [] {
      var front := snap[..|snap| - 1];
      ApplySnapshotKeys(pieces, front);
      var all := set i | 0 <= i < |snap| :: snap[i].coord;
      var early := set i | 0 <= i < |front| :: front[i].coord;
      assert all == early + {snap[|snap| - 1].coord} by {
        forall c | c in all ensures c in early + {snap[|snap| - 1].coord} {
          var i :| 0 <= i < |snap| && snap[i].coord == c;
          if i < |front| { assert front[i] == snap[i]; }
        }
        forall c | c in early ensures c in all {
          var i :| 0 <= i < |front| && front[i].coord == c;
          assert snap[i] == front[i];
        }
      }
    }
  }

  /** With every listed coordinate already a cell, the cells stay the same. */
  lemma ApplySnapshotKeepsCells(pieces: map<Coord, Content>, snap: seq<BoardCell>)
    requires forall i :: 0 <= i < |snap| ==> snap[i].coord in pieces
    ensures ApplySnapshot(pieces, snap).Keys == pieces.Keys
  {
    ApplySnapshotKeys(pieces, snap);
  }

  /** Applying the same snapshot twice equals applying it once. */
  lemma ApplySnapshotIdempotent(pieces: map<Coord, Content>, snap: seq<BoardCell>)
    ensures ApplySnapshot(ApplySnapshot(pieces, snap), snap) == ApplySnapshot(pieces, snap)
  {
    var once := ApplySnapshot(pieces, snap);
    var twice := ApplySnapshot(once, snap);
    ApplySnapshotKeys(pieces, snap);
    ApplySnapshotKeys(once, snap);
    forall c | c in twice ensures c in once && twice[c] == once[c] {
      ApplySnapshotAt(once, snap, c);
      if c in pieces {
        ApplySnapshotAt(pieces, snap, c);
      } else {
        LookupLastWrite(pieces, snap, c);
      }
    }
  }

  /** A cell that a snapshot lists shows the last listed piece, whether or not it was a
      cell before. */
  lemma {:induction false} LookupLastWrite(pieces: map<Coord, Content>, snap: seq<BoardCell>, c: Coord)
    requires Lookup(snap, c).Some?
    ensures c in ApplySnapshot(pieces, snap)
    ensures ApplySnapshot(pieces, snap)[c] == PawnChoice(Lookup(snap, c).value)
  {
    if snap[|snap| - 1].coord != c {
      LookupLastWrite(pieces, snap[..|snap| - 1], c);
    }
  }

  /** If every cell holds at most one widget before, it does after the snapshot too. */
  lemma {:induction false} ApplySnapshotSingleIcon(pieces: map<Coord, Content>, snap: seq<BoardCell>)
    requires forall c :: c in pieces ==> |pieces[c]| <= 1
    ensures forall c :: c in ApplySnapshot(pieces, snap) ==> |ApplySnapshot(pieces, snap)[c]| <= 1
  {
    if snap != [] {
      ApplySnapshotSingleIcon(pieces, snap[..|snap| - 1]);
    }
  }
}
