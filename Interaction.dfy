/** The board-interaction session as a value: what a click does to the selection, the
    listed destinations, the cell colours and the log of move requests sent to the
    controller, and what the engine's update callback does to the whole view. The class
    in GameSession.dfy is proved to follow these functions step for step. */
module Interaction {
  import opened Wrappers
  import opened Geometry
  import opened Rendering

  /** The side whose captured pieces the next callback tallies. `White` also stands for the
      unset value a new session starts with: every test on the player compares it with
      Black only, so the unset value behaves exactly as White does. */
  datatype Player = Black | White

  /** A move request handed to the controller: from the selected cell to the clicked one. */
  datatype Request = Request(start: Coord, arrival: Coord)

  /** The session's observable state. `leftPanel` and `rightPanel` are the number of
      lost-pawn markers written into the side panels; `requests` is every move request
      sent to the controller, oldest first. */
  datatype View = View(
    dim: nat,
    pieces: map<Coord, Content>,
    colors: map<Coord, Color>,
    selected: Option<Coord>,
    moves: seq<Coord>,
    player: Player,
    leftPanel: nat,
    rightPanel: nat,
    requests: seq<Request>)

  /** `switchPlayer`: anything that is not Black becomes Black. */
  function SwitchPlayer(p: Player): (r: Player)
    ensures r != p
  {
    if p == Black then White else Black
  }

  lemma SwitchPlayerTwice(p: Player)
    ensures SwitchPlayer(SwitchPlayer(p)) == p
  {
  }

  /** The board is built: exactly the `dim` x `dim` cells exist, every listed destination
      and the selected cell are among them, and no cell holds more than one widget. */
  ghost predicate Ready(v: View)
  {
    v.pieces.Keys == Board(v.dim) &&
    v.colors.Keys == Board(v.dim) &&
    (forall i :: 0 <= i < |v.moves| ==> v.moves[i] in Board(v.dim)) &&
    (v.selected.Some? ==> v.selected.value in Board(v.dim)) &&
    (forall c :: c in v.pieces ==> |v.pieces[c]| <= 1)
  }

  /** Listed destinations are only ever those of a selected cell. */
  ghost predicate SelectionInv(v: View)
  {
    v.moves != [] ==> v.selected.Some?
  }

  /** The possible-moves colour is shown on exactly the listed destinations. */
  ghost predicate HighlightInv(v: View)
  {
    forall c :: c in v.colors ==> (v.colors[c] == PossibleMoveColor <==> c in v.moves)
  }

  ghost predicate Inv(v: View)
  {
    Ready(v) && SelectionInv(v) && HighlightInv(v)
  }

  /** The engine's moves and a snapshot name only cells of the board. */
  ghost predicate OnBoard(dim: nat, cs: seq<Coord>)
  {
    forall i :: 0 <= i < |cs| ==> cs[i] in Board(dim)
  }

  ghost predicate SnapshotOnBoard(dim: nat, snap: seq<BoardCell>)
  {
    forall i :: 0 <= i < |snap| ==> snap[i].coord in Board(dim)
  }

  // ---------------------------------------------------------------------------------
  // Construction

  /** A session just constructed: no cells, nothing selected, empty panels. */
  function Fresh(player: Player): View
  {
    View(0, map[], map[], None, [], player, 0, 0, [])
  }

  /** `initBoard`: one new empty cell per board coordinate, coloured as the factory
      colours a cell of its role; existing entries with the same coordinate are replaced. */
  function InitBoard(v: View): (r: View)
    ensures r.(pieces := v.pieces, colors := v.colors) == v
  {
    v.(pieces := v.pieces + EmptyCells(v.dim), colors := v.colors + InitialColors(v.dim))
  }

  /** The contents of the newly created cells: no widgets. */
  function EmptyCells(dim: nat): map<Coord, Content>
  {
    map c | c in Board(dim) :: []
  }

  /** The colours of the newly created cells, by role. */
  function InitialColors(dim: nat): map<Coord, Color>
  {
    map c | c in Board(dim) :: InitialColor(CellChoice(c, dim))
  }

  /** After `initBoard` every board cell exists, holds nothing and has its role's initial
      colour; cells that existed before keep their entries. */
  lemma InitBoardCells(v: View)
    ensures var r := InitBoard(v);
      r.pieces.Keys == v.pieces.Keys + Board(v.dim) &&
      r.colors.Keys == v.colors.Keys + Board(v.dim) &&
      (forall c :: c in Board(v.dim) ==> r.pieces[c] == []) &&
      (forall c :: c in Board(v.dim) ==> r.colors[c] == InitialColor(CellChoice(c, v.dim))) &&
      (forall c :: c in v.pieces && c !in Board(v.dim) ==> r.pieces[c] == v.pieces[c]) &&
      (forall c :: c in v.colors && c !in Board(v.dim) ==> r.colors[c] == v.colors[c]) &&
      r.dim == v.dim && r.player == v.player &&
      r.leftPanel == v.leftPanel && r.rightPanel == v.rightPanel &&
      r.selected == v.selected && r.moves == v.moves && r.requests == v.requests
  {
  }

  /** `initGamePanel`: new, empty side panels (`initLeftRightPanel`), then the board for
      dimension `dim` (`initBoard`), then the snapshot drawn on it (`setPawns`). */
  function InitGamePanel(v: View, dim: nat, snap: seq<BoardCell>): (r: View)
    ensures r.dim == dim && r.colors == v.colors + InitialColors(dim)
    ensures r.leftPanel == 0 && r.rightPanel == 0
    ensures r.(dim := v.dim, pieces := v.pieces, colors := v.colors,
               leftPanel := v.leftPanel, rightPanel := v.rightPanel) == v
  {
    SetPawns(InitBoard(v.(dim := dim, leftPanel := 0, rightPanel := 0)), snap)
  }

  // ---------------------------------------------------------------------------------
  // Clicks

  /** `setPawns`: only the cells' widgets change. */
  function SetPawns(v: View, snap: seq<BoardCell>): (r: View)
    ensures r.(pieces := v.pieces) == v
  {
    v.(pieces := ApplySnapshot(v.pieces, snap))
  }

  /** `moveRequest`: list the engine's answer and paint it, special cells included. */
  function MoveRequest(v: View, engineMoves: seq<Coord>): (r: View)
    ensures r.moves == engineMoves && r.colors.Keys == v.colors.Keys
    ensures r.(moves := v.moves, colors := v.colors) == v
  {
    v.(moves := engineMoves, colors := Highlighted(v.colors, engineMoves))
  }

  /** The `forEach` that repaints every listed destination with the normal colour. */
  function ResetPossibleMoves(v: View): (r: View)
    ensures r.colors.Keys == v.colors.Keys
    ensures r.(colors := v.colors) == v
  {
    v.(colors := Reset(v.colors, v.moves, v.dim))
  }

  /** `deselectCell`. */
  function DeselectCell(v: View): (r: View)
    ensures r.selected.None? && r.moves == []
    ensures r.(selected := v.selected, moves := v.moves) == v
  {
    v.(selected := None, moves := [])
  }

  /** `moveAndPaint`: hand the move to the controller; the view itself does not change. */
  function MoveAndPaint(v: View, start: Coord, arrival: Coord): (r: View)
    ensures |r.requests| == |v.requests| + 1 && r.requests[..|v.requests|] == v.requests
    ensures r.requests[|v.requests|] == Request(start, arrival)
    ensures r.(requests := v.requests) == v
  {
    v.(requests := v.requests + [Request(start, arrival)])
  }

  predicate Occupied(v: View, c: Coord)
    requires c in v.pieces
  {
    |v.pieces[c]| > 0
  }

  /** `actionCell`: a click on `coord`; `engineMoves` is what the engine answers when
      asked for the moves of `coord` (consulted only when a piece is being selected). */
  function ActionCell(v: View, coord: Coord, engineMoves: seq<Coord>): (r: View)
    requires coord in v.pieces
    ensures r.dim == v.dim && r.pieces == v.pieces && r.player == v.player
    ensures r.leftPanel == v.leftPanel && r.rightPanel == v.rightPanel
    ensures r.colors.Keys == v.colors.Keys
    ensures |v.requests| <= |r.requests| <= |v.requests| + 1
    ensures r.requests[..|v.requests|] == v.requests
  {
    if Occupied(v, coord) && v.moves == [] then
      MoveRequest(v.(selected := Some(coord)), engineMoves)
    else if v.moves != [] && coord !in v.moves then
      DeselectCell(ResetPossibleMoves(v))
    else if coord in v.moves && v.selected.Some? then
      MoveAndPaint(v, v.selected.value, coord)
    else
      v
  }

  // ---------------------------------------------------------------------------------
  // Engine callback

  /** The number of markers a `for (i = 0; i < n; i++)` loop adds. */
  function Tally(n: int): (r: nat)
    ensures n >= 0 ==> r == n
    ensures n < 0 ==> r == 0
  {
    if n > 0 then n else 0
  }

  /** `addLostPawns`: the current player's panel (left for Black, right for White) is
      emptied and refilled with that side's captured count. */
  function AddLostPawns(v: View, nBlackCaptured: int, nWhiteCaptured: int): (r: View)
    ensures v.player == Black ==> r.leftPanel == Tally(nBlackCaptured) && r.rightPanel == v.rightPanel
    ensures v.player != Black ==> r.rightPanel == Tally(nWhiteCaptured) && r.leftPanel == v.leftPanel
    ensures r.(leftPanel := v.leftPanel, rightPanel := v.rightPanel) == v
  {
    if v.player == Black then v.(leftPanel := Tally(nBlackCaptured))
    else v.(rightPanel := Tally(nWhiteCaptured))
  }

  /** `updateMove`: tally, redraw, clear highlights, deselect, pass the turn. */
  function UpdateMove(v: View, snap: seq<BoardCell>, nBlackCaptured: int, nWhiteCaptured: int): (r: View)
    ensures r.player != v.player && r.selected.None? && r.moves == []
    ensures r.dim == v.dim && r.requests == v.requests
    ensures r.colors.Keys == v.colors.Keys
  {
    var w := DeselectCell(ResetPossibleMoves(SetPawns(AddLostPawns(v, nBlackCaptured, nWhiteCaptured), snap)));
    w.(player := SwitchPlayer(w.player))
  }

  // ---------------------------------------------------------------------------------
  // The invariant

  /** The board built on a fresh session satisfies the invariant, with every cell at its
      initial colour and showing exactly the snapshot's pieces. */
  lemma InitGamePanelInv(player: Player, dim: nat, snap: seq<BoardCell>)
    requires SnapshotOnBoard(dim, snap)
    ensures Inv(InitGamePanel(Fresh(player), dim, snap))
    ensures var v := InitGamePanel(Fresh(player), dim, snap);
      v.selected == None && v.moves == [] && v.player == player &&
      (forall c :: c in Board(dim) ==> v.colors[c] == InitialColor(CellChoice(c, dim))) &&
      (forall c :: c in Board(dim) ==> v.pieces[c] == match Lookup(snap, c)
                                                      case Some(k) => PawnChoice(k)
                                                      case None => [])
  {
    var b := InitBoard(Fresh(player).(dim := dim, leftPanel := 0, rightPanel := 0));
    InitBoardCells(Fresh(player).(dim := dim, leftPanel := 0, rightPanel := 0));
    ApplySnapshotKeepsCells(b.pieces, snap);
    ApplySnapshotSingleIcon(b.pieces, snap);
    forall c | c in Board(dim)
      ensures ApplySnapshot(b.pieces, snap)[c] == match Lookup(snap, c)
                                                  case Some(k) => PawnChoice(k)
                                                  case None => []
    {
      ApplySnapshotAt(b.pieces, snap, c);
    }
  }

  /** Every click keeps the invariant. */
  lemma ActionCellInv(v: View, coord: Coord, engineMoves: seq<Coord>)
    requires Inv(v) && coord in Board(v.dim) && OnBoard(v.dim, engineMoves)
    ensures Inv(ActionCell(v, coord, engineMoves))
  {
  }

  /** `deselectCell` on its own keeps the board and the selection invariant. */
  lemma DeselectCellInv(v: View)
    requires Ready(v)
    ensures Ready(DeselectCell(v)) && SelectionInv(DeselectCell(v))
  {
  }

  /** The engine callback keeps the invariant. */
  lemma UpdateMoveInv(v: View, snap: seq<BoardCell>, nBlackCaptured: int, nWhiteCaptured: int)
    requires Inv(v) && SnapshotOnBoard(v.dim, snap)
    ensures Inv(UpdateMove(v, snap, nBlackCaptured, nWhiteCaptured))
  {
    ApplySnapshotKeepsCells(v.pieces, snap);
    ApplySnapshotSingleIcon(v.pieces, snap);
  }

  // ---------------------------------------------------------------------------------
  // What a click does

  /** A click on an occupied cell with nothing listed selects it, lists the engine's
      answer (even an empty one) and paints every listed cell, corners and centre
      included, with the possible-moves colour; nothing else changes. */
  lemma SelectOccupied(v: View, coord: Coord, engineMoves: seq<Coord>)
    requires coord in v.pieces && Occupied(v, coord) && v.moves == []
    ensures var r := ActionCell(v, coord, engineMoves);
      r.selected == Some(coord) && r.moves == engineMoves &&
      r.colors.Keys == v.colors.Keys &&
      (forall c :: c in v.colors && c in engineMoves ==> r.colors[c] == PossibleMoveColor) &&
      (forall c :: c in v.colors && c !in engineMoves ==> r.colors[c] == v.colors[c]) &&
      r.pieces == v.pieces && r.requests == v.requests && r.player == v.player &&
      r.leftPanel == v.leftPanel && r.rightPanel == v.rightPanel
  {
  }

  /** A click outside a non-empty list repaints every listed cell through the colour rule
      with the normal colour, clears the selection and the list, and sends nothing. */
  lemma ClickOutsideDeselects(v: View, coord: Coord, engineMoves: seq<Coord>)
    requires coord in v.pieces && v.moves != [] && coord !in v.moves
    ensures var r := ActionCell(v, coord, engineMoves);
      r.selected == None && r.moves == [] &&
      r.colors.Keys == v.colors.Keys &&
      (forall c :: c in v.colors && c in v.moves ==> r.colors[c] == Painted(c, NormalColor, v.dim)) &&
      (forall c :: c in v.colors && c !in v.moves ==> r.colors[c] == v.colors[c]) &&
      r.pieces == v.pieces && r.requests == v.requests && r.player == v.player
  {
  }

  /** Under the invariant, after a click outside the list no cell shows the possible-moves
      colour any more. */
  lemma ClickOutsideClearsHighlights(v: View, coord: Coord, engineMoves: seq<Coord>)
    requires Inv(v) && coord in v.pieces && v.moves != [] && coord !in v.moves
    ensures forall c :: c in ActionCell(v, coord, engineMoves).colors ==>
              ActionCell(v, coord, engineMoves).colors[c] != PossibleMoveColor
  {
  }

  /** A click on a listed destination with a selection sends exactly the request
      (selected, clicked) and changes nothing else. */
  lemma ClickDestinationRequests(v: View, coord: Coord, engineMoves: seq<Coord>)
    requires coord in v.pieces && coord in v.moves && v.selected.Some?
    ensures ActionCell(v, coord, engineMoves) ==
              v.(requests := v.requests + [Request(v.selected.value, coord)])
  {
  }

  /** The `selectedCell.isPresent()` test is redundant: under the invariant a click on a
      listed destination always sends the request. */
  lemma PresenceGuardRedundant(v: View, coord: Coord, engineMoves: seq<Coord>)
    requires Inv(v) && coord in v.pieces && coord in v.moves
    ensures v.selected.Some?
    ensures ActionCell(v, coord, engineMoves).requests ==
              v.requests + [Request(v.selected.value, coord)]
  {
  }

  /** A click on an empty cell with nothing listed changes nothing. */
  lemma ClickEmptyIdle(v: View, coord: Coord, engineMoves: seq<Coord>)
    requires coord in v.pieces && !Occupied(v, coord) && v.moves == []
    ensures ActionCell(v, coord, engineMoves) == v
  {
  }

  /** A click sends at most one request, and sends one exactly when it hits a listed
      destination of a selected cell. */
  lemma ClickRequests(v: View, coord: Coord, engineMoves: seq<Coord>)
    requires coord in v.pieces
    ensures coord in v.moves && v.selected.Some? ==>
              ActionCell(v, coord, engineMoves).requests == v.requests + [Request(v.selected.value, coord)]
    ensures !(coord in v.moves && v.selected.Some?) ==>
              ActionCell(v, coord, engineMoves).requests == v.requests
  {
  }

  /** While destinations are listed, a click never selects a different cell: the
      selection stays or is cleared. */
  lemma SelectionFixedWhileListed(v: View, coord: Coord, engineMoves: seq<Coord>)
    requires coord in v.pieces && v.moves != []
    ensures var r := ActionCell(v, coord, engineMoves);
      r.selected == v.selected || r.selected == None
  {
  }

  /** The source does not block a second click on the same destination before the engine
      answers: two clicks send the request twice. */
  lemma DoubleClickSendsTwice(v: View, coord: Coord, engineMoves: seq<Coord>)
    requires coord in v.pieces && coord in v.moves && v.selected.Some?
    ensures var once := ActionCell(v, coord, engineMoves);
      ActionCell(once, coord, engineMoves).requests ==
        v.requests + [Request(v.selected.value, coord), Request(v.selected.value, coord)]
  {
    var once := ActionCell(v, coord, engineMoves);
    ClickDestinationRequests(v, coord, engineMoves);
    ClickDestinationRequests(once, coord, engineMoves);
  }

  // ---------------------------------------------------------------------------------
  // What the engine callback does

  /** The current player's panel shows that side's captured count (none for a negative
      count), the other panel is untouched, the pieces are redrawn from the snapshot,
      listed cells are repainted, nothing is selected and the turn passes. */
  lemma UpdateMoveEffect(v: View, snap: seq<BoardCell>, nBlackCaptured: int, nWhiteCaptured: int)
    ensures var r := UpdateMove(v, snap, nBlackCaptured, nWhiteCaptured);
      (v.player == Black ==> r.leftPanel == Tally(nBlackCaptured) && r.rightPanel == v.rightPanel) &&
      (v.player == White ==> r.rightPanel == Tally(nWhiteCaptured) && r.leftPanel == v.leftPanel) &&
      r.pieces == ApplySnapshot(v.pieces, snap) &&
      r.colors == Reset(v.colors, v.moves, v.dim) &&
      r.selected == None && r.moves == [] &&
      r.player != v.player && r.requests == v.requests && r.dim == v.dim
  {
  }

  /** Under the invariant the callback leaves no cell in the possible-moves colour and
      each cell shows the snapshot's last piece for it. */
  lemma UpdateMoveRedraws(v: View, snap: seq<BoardCell>, nBlackCaptured: int, nWhiteCaptured: int, c: Coord)
    requires Inv(v) && SnapshotOnBoard(v.dim, snap) && c in Board(v.dim)
    ensures var r := UpdateMove(v, snap, nBlackCaptured, nWhiteCaptured);
      r.colors[c] != PossibleMoveColor &&
      c in r.pieces && r.pieces[c] == match Lookup(snap, c)
                     case Some(k) => PawnChoice(k)
                     case None => v.pieces[c]
  {
    ApplySnapshotAt(v.pieces, snap, c);
  }

  /** Two callbacks return the turn to the player who had it. */
  lemma UpdateMoveTwiceRestoresPlayer(v: View, s1: seq<BoardCell>, s2: seq<BoardCell>,
                                      b1: int, w1: int, b2: int, w2: int)
    ensures UpdateMove(UpdateMove(v, s1, b1, w1), s2, b2, w2).player == v.player
  {
    SwitchPlayerTwice(v.player);
  }

  /** Delivering the same snapshot again redraws nothing new. */
  lemma UpdateMoveSameSnapshot(v: View, snap: seq<BoardCell>, b1: int, w1: int, b2: int, w2: int)
    ensures UpdateMove(UpdateMove(v, snap, b1, w1), snap, b2, w2).pieces ==
              UpdateMove(v, snap, b1, w1).pieces
  {
    ApplySnapshotIdempotent(v.pieces, snap);
  }
}
