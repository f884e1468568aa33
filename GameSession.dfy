/** The game-board session object: the cells (their widgets and background colours),
    the selected cell, the listed destinations, the player to move and the two lost-pawn
    panels, updated in place by clicks and by the engine's update callback. Every method
    is proved to change the state exactly as the matching function of module Interaction
    says, and the object invariant `Valid` is kept by every public operation. */
module GameSession {
  import opened Wrappers
  import opened Geometry
  import opened Rendering
  import Interaction

  /** The cells `initBoard` has created before cell (i, j): all of rows 1 to i - 1 and
      the first j - 1 cells of row i. */
  ghost predicate CellsDone(c: Coord, dim: nat, i: int, j: int)
  {
    1 <= c.y <= dim && (1 <= c.x < i || (c.x == i && c.y < j))
  }

  /** The cell map after `initBoard`'s loops have written every cell before (i, j),
      row by row, starting from `m`. */
  ghost function PiecesWritten(m: map<Coord, Content>, dim: nat, i: nat, j: nat): map<Coord, Content>
    requires 1 <= i && 1 <= j <= dim + 1
    decreases i, j
  {
    if j > 1 then PiecesWritten(m, dim, i, j - 1)[Coord(i, j - 1) := []]
    else if i > 1 then PiecesWritten(m, dim, i - 1, dim + 1)
    else m
  }

  ghost function ColorsWritten(m: map<Coord, Color>, dim: nat, i: nat, j: nat): map<Coord, Color>
    requires 1 <= i && 1 <= j <= dim + 1
    decreases i, j
  {
    if j > 1 then ColorsWritten(m, dim, i, j - 1)[Coord(i, j - 1) := InitialColor(CellChoice(Coord(i, j - 1), dim))]
    else if i > 1 then ColorsWritten(m, dim, i - 1, dim + 1)
    else m
  }

  /** A cell is present after the writes before (i, j) when it was present before or is
      one of the cells done; the done cells hold the new entry, the others their old one. */
  lemma {:induction false} PiecesWrittenAt(m: map<Coord, Content>, dim: nat, i: nat, j: nat, c: Coord)
    requires 1 <= i && 1 <= j <= dim + 1
    ensures c in PiecesWritten(m, dim, i, j) <==> c in m || CellsDone(c, dim, i, j)
    ensures c in PiecesWritten(m, dim, i, j) ==>
              PiecesWritten(m, dim, i, j)[c] == if CellsDone(c, dim, i, j) then [] else m[c]
    decreases i, j
  {
    if j > 1 {
      PiecesWrittenAt(m, dim, i, j - 1, c);
    } else if i > 1 {
      PiecesWrittenAt(m, dim, i - 1, dim + 1, c);
    }
  }

  lemma {:induction false} ColorsWrittenAt(m: map<Coord, Color>, dim: nat, i: nat, j: nat, c: Coord)
    requires 1 <= i && 1 <= j <= dim + 1
    ensures c in ColorsWritten(m, dim, i, j) <==> c in m || CellsDone(c, dim, i, j)
    ensures c in ColorsWritten(m, dim, i, j) ==>
              ColorsWritten(m, dim, i, j)[c] ==
                if CellsDone(c, dim, i, j) then InitialColor(CellChoice(c, dim)) else m[c]
    decreases i, j
  {
    if j > 1 {
      ColorsWrittenAt(m, dim, i, j - 1, c);
    } else if i > 1 {
      ColorsWrittenAt(m, dim, i - 1, dim + 1, c);
    }
  }

  /** After the last row every board cell has been written: the contents... */
  lemma AllPiecesWritten(pieces0: map<Coord, Content>, dim: nat)
    ensures PiecesWritten(pieces0, dim, dim + 1, 1) == pieces0 + Interaction.EmptyCells(dim)
  {
    var ps, ps' := PiecesWritten(pieces0, dim, dim + 1, 1), pieces0 + Interaction.EmptyCells(dim);
    forall c ensures (c in ps <==> c in ps') && (c in ps ==> ps[c] == ps'[c]) {
      InBoard(dim, c);
      PiecesWrittenAt(pieces0, dim, dim + 1, 1, c);
    }
  }

  /** ... and the colours. */
  lemma AllColorsWritten(colors0: map<Coord, Color>, dim: nat)
    ensures ColorsWritten(colors0, dim, dim + 1, 1) == colors0 + Interaction.InitialColors(dim)
  {
    var cs, cs' := ColorsWritten(colors0, dim, dim + 1, 1), colors0 + Interaction.InitialColors(dim);
    forall c ensures (c in cs <==> c in cs') && (c in cs ==> cs[c] == cs'[c]) {
      InBoard(dim, c);
      ColorsWrittenAt(colors0, dim, dim + 1, 1, c);
    }
  }

  /** One pass of the `setPawns` loop: the cell of entry `i` is emptied if it holds anything
      (`cleared`), then given the entry's widgets (`after`); this extends the applied
      snapshot prefix by one entry and keeps the cells. */
  lemma SetPawnsStep(p0: map<Coord, Content>, snap: seq<BoardCell>, i: nat,
                     before: map<Coord, Content>, cleared: map<Coord, Content>,
                     after: map<Coord, Content>)
    requires i < |snap| && before == ApplySnapshot(p0, snap[..i])
    requires snap[i].coord in before
    requires if |before[snap[i].coord]| > 0 then cleared == before[snap[i].coord := []]
             else cleared == before
    requires after == cleared[snap[i].coord := cleared[snap[i].coord] + Rendering.PawnChoice(snap[i].piece)]
    ensures after == ApplySnapshot(p0, snap[..i + 1]) && after.Keys == before.Keys
  {
    ApplySnapshotStep(p0, snap, i);
    assert cleared[snap[i].coord] == [];
    assert [] + Rendering.PawnChoice(snap[i].piece) == Rendering.PawnChoice(snap[i].piece);
  }

  class Game {
    var dim: nat
    var pieces: map<Coord, Content>
    var colors: map<Coord, Color>
    var selectedCell: Option<Coord>
    var possibleMoves: seq<Coord>
    var player: Interaction.Player
    var leftPanel: nat
    var rightPanel: nat
    /** Every move request handed to the controller so far. */
    ghost var requests: seq<Interaction.Request>

    ghost function State(): Interaction.View
      reads this
    {
      Interaction.View(dim, pieces, colors, selectedCell, possibleMoves, player,
                       leftPanel, rightPanel, requests)
    }

    ghost predicate Valid()
      reads this
    {
      Interaction.Inv(State())
    }

    /** A new session with no cells yet. The player is read from the menu before the user
        has chosen a colour, so it is always the unset value; both `Player.Black() == player`
        tests send that value down the White branch, and White stands for it here. */
    constructor ()
      ensures State() == Interaction.Fresh(Interaction.White)
      ensures Valid()
    {
      dim := 0;
      pieces := map[];
      colors := map[];
      selectedCell := None;
      possibleMoves := [];
      player := Interaction.White;
      leftPanel := 0;
      rightPanel := 0;
      requests := [];
    }

    /** Builds the board of a fresh session for the engine's dimension and draws the
        engine's starting snapshot. */
    method InitGamePanel(dimension: nat, snap: seq<BoardCell>)
      requires State() == Interaction.Fresh(player)
      requires Interaction.SnapshotOnBoard(dimension, snap)
      modifies this`dim, this`pieces, this`colors, this`leftPanel, this`rightPanel
      ensures State() == Interaction.InitGamePanel(old(State()), dimension, snap)
      ensures Valid()
    {
      ghost var p := player;
      leftPanel, rightPanel := 0, 0;
      dim := dimension;
      InitBoard();
      SetPawns(snap);
      Interaction.InitGamePanelInv(p, dimension, snap);
    }

    /** One new empty cell for every coordinate, row by row. */
    method InitBoard()
      modifies this`pieces, this`colors
      ensures State() == Interaction.InitBoard(old(State()))
    {
      ghost var pieces0, colors0 := pieces, colors;
      var i := 1;
      while i <= dim
        invariant 1 <= i <= dim + 1
        invariant pieces == PiecesWritten(pieces0, dim, i, 1)
        invariant colors == ColorsWritten(colors0, dim, i, 1)
      {
        var j := 1;
        while j <= dim
          invariant 1 <= j <= dim + 1
          invariant pieces == PiecesWritten(pieces0, dim, i, j)
          invariant colors == ColorsWritten(colors0, dim, i, j)
        {
          var coordinate := Coord(i, j);
          pieces := pieces[coordinate := []];
          colors := colors[coordinate := InitialColor(CellChoice(coordinate, dim))];
          j := j + 1;
        }
        assert PiecesWritten(pieces0, dim, i + 1, 1) == PiecesWritten(pieces0, dim, i, dim + 1);
        assert ColorsWritten(colors0, dim, i + 1, 1) == ColorsWritten(colors0, dim, i, dim + 1);
        i := i + 1;
      }
      AllPiecesWritten(pieces0, dim);
      AllColorsWritten(colors0, dim);
      assert pieces == pieces0 + Interaction.EmptyCells(dim);
      assert colors == colors0 + Interaction.InitialColors(dim);
    }

    /** A click on the cell at `coord`; `engineMoves` is the engine's answer for `coord`. */
    method ActionCell(coord: Coord, engineMoves: seq<Coord>)
      requires Valid()
      requires coord in Board(dim)
      requires Interaction.OnBoard(dim, engineMoves)
      modifies this`selectedCell, this`possibleMoves, this`colors, this`requests
      ensures State() == Interaction.ActionCell(old(State()), coord, engineMoves)
      ensures Valid()
    {
      ghost var before := State();
      Interaction.ActionCellInv(before, coord, engineMoves);
      if |pieces[coord]| > 0 && |possibleMoves| == 0 {
        selectedCell := Some(coord);
        MoveRequest(engineMoves);
      } else if |possibleMoves| > 0 && coord !in possibleMoves {
        ResetPossibleMoves();
        DeselectCell();
      } else if coord in possibleMoves && selectedCell.Some? {
        var coordinateStart := selectedCell.value;
        MoveAndPaint(coordinateStart, coord);
      }
    }

    /** Hands the move to the controller. */
    method MoveAndPaint(coordStart: Coord, coordArr: Coord)
      modifies this`requests
      ensures requests == old(requests) + [Interaction.Request(coordStart, coordArr)]
    {
      requests := requests + [Interaction.Request(coordStart, coordArr)];
    }

    /** Lists the engine's answer and paints each listed cell with the possible-moves
        colour. */
    method MoveRequest(engineMoves: seq<Coord>)
      requires forall i :: 0 <= i < |engineMoves| ==> engineMoves[i] in colors
      modifies this`possibleMoves, this`colors
      ensures possibleMoves == engineMoves
      ensures colors == Highlighted(old(colors), engineMoves)
    {
      possibleMoves := engineMoves;
      var i := 0;
      while i < |possibleMoves|
        invariant 0 <= i <= |possibleMoves| && possibleMoves == engineMoves
        invariant colors.Keys == old(colors).Keys
        invariant forall c :: c in colors ==>
                    colors[c] == if c in engineMoves[..i] then PossibleMoveColor else old(colors)[c]
      {
        colors := colors[possibleMoves[i] := PossibleMoveColor];
        assert engineMoves[..i + 1] == engineMoves[..i] + [engineMoves[i]];
        i := i + 1;
      }
      assert engineMoves[..i] == engineMoves;
    }

    /** Paints `c` with `col`, or with the special colour if `c` is a corner or the centre. */
    method SetColorBackground(c: Coord, col: Color)
      requires c in colors
      modifies this`colors
      ensures colors == old(colors)[c := Painted(c, col, dim)]
    {
      if IsCenterCell(c, dim) || IsCornerCell(c, dim) {
        colors := colors[c := SpecialColor];
      } else {
        colors := colors[c := col];
      }
    }

    /** Repaints every listed cell with the normal colour through `SetColorBackground`. */
    method ResetPossibleMoves()
      requires forall i :: 0 <= i < |possibleMoves| ==> possibleMoves[i] in colors
      modifies this`colors
      ensures colors == Reset(old(colors), possibleMoves, dim)
    {
      var i := 0;
      while i < |possibleMoves|
        invariant 0 <= i <= |possibleMoves|
        invariant colors.Keys == old(colors).Keys
        invariant forall c :: c in colors ==>
                    colors[c] == if c in possibleMoves[..i] then Painted(c, NormalColor, dim) else old(colors)[c]
      {
        SetColorBackground(possibleMoves[i], NormalColor);
        assert possibleMoves[..i + 1] == possibleMoves[..i] + [possibleMoves[i]];
        i := i + 1;
      }
      assert possibleMoves[..i] == possibleMoves;
    }

    method DeselectCell()
      modifies this`selectedCell, this`possibleMoves
      ensures selectedCell == None && possibleMoves == []
    {
      selectedCell := None;
      possibleMoves := [];
    }

    /** Redraws every listed cell: clears it if it holds anything, then adds the widget
        for its snapshot piece. */
    method SetPawns(positions: seq<BoardCell>)
      requires forall i :: 0 <= i < |positions| ==> positions[i].coord in pieces
      modifies this`pieces
      ensures pieces == ApplySnapshot(old(pieces), positions)
    {
      ghost var p0 := pieces;
      var i := 0;
      while i < |positions|
        invariant 0 <= i <= |positions|
        invariant pieces.Keys == p0.Keys
        invariant pieces == ApplySnapshot(p0, positions[..i])
      {
        var p := positions[i];
        ghost var before := pieces;
        if |pieces[p.coord]| > 0 {
          pieces := pieces[p.coord := []];
        }
        ghost var cleared := pieces;
        PawnChoice(p);
        SetPawnsStep(p0, positions, i, before, cleared, pieces);
        i := i + 1;
      }
      assert positions[..i] == positions;
    }

    /** Adds the widget for the cell's piece to what the cell already holds. */
    method PawnChoice(c: BoardCell)
      requires c.coord in pieces
      modifies this`pieces
      ensures pieces == old(pieces)[c.coord := old(pieces)[c.coord] + Rendering.PawnChoice(c.piece)]
    {
      var piece := c.piece;
      if piece == WhitePawn {
        pieces := pieces[c.coord := pieces[c.coord] + [WhitePawnIcon]];
      } else if piece == BlackPawn {
        pieces := pieces[c.coord := pieces[c.coord] + [BlackPawnIcon]];
      } else if piece == WhiteKing {
        pieces := pieces[c.coord := pieces[c.coord] + [KingIcon]];
      } else {
        assert pieces[c.coord] + [] == pieces[c.coord];
      }
    }

    /** The engine's callback after a move: captured counts, the new board, and the
        hand-over of the turn. */
    method UpdateMove(board: seq<BoardCell>, nBlackCaptured: int, nWhiteCaptured: int)
      requires Valid()
      requires Interaction.SnapshotOnBoard(dim, board)
      modifies this`leftPanel, this`rightPanel, this`pieces, this`colors,
               this`selectedCell, this`possibleMoves, this`player
      ensures State() == Interaction.UpdateMove(old(State()), board, nBlackCaptured, nWhiteCaptured)
      ensures Valid()
    {
      ghost var v0 := State();
      Interaction.UpdateMoveInv(v0, board, nBlackCaptured, nWhiteCaptured);
      AddLostPawns(nBlackCaptured, nWhiteCaptured);
      ghost var v1 := Interaction.AddLostPawns(v0, nBlackCaptured, nWhiteCaptured);
      SetPawns(board);
      ghost var v2 := Interaction.SetPawns(v1, board);
      assert State() == v2;
      ResetPossibleMoves();
      ghost var v3 := Interaction.ResetPossibleMoves(v2);
      assert State() == v3;
      DeselectCell();
      SwitchPlayer();
    }

    /** Empties the current player's panel and adds one lost-pawn marker per captured
        piece of that side. */
    method AddLostPawns(nBlackCaptured: int, nWhiteCaptured: int)
      modifies this`leftPanel, this`rightPanel
      ensures State() == Interaction.AddLostPawns(old(State()), nBlackCaptured, nWhiteCaptured)
    {
      var length := if Interaction.Black == player then nBlackCaptured else nWhiteCaptured;
      if Interaction.Black == player {
        leftPanel := 0;
      } else {
        rightPanel := 0;
      }
      var i := 0;
      while i < length
        invariant 0 <= i <= Interaction.Tally(length)
        invariant if Interaction.Black == player
                  then leftPanel == i && rightPanel == old(rightPanel)
                  else rightPanel == i && leftPanel == old(leftPanel)
      {
        if Interaction.Black == player {
          leftPanel := leftPanel + 1;
        } else {
          rightPanel := rightPanel + 1;
        }
        i := i + 1;
      }
    }

    method SwitchPlayer()
      modifies this`player
      ensures player == Interaction.SwitchPlayer(old(player))
    {
      player := if Interaction.Black == player then Interaction.White else Interaction.Black;
    }
  }
}
