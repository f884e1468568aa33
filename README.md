# Tafl board view: the interaction session of `Game.java`

This project models, in Dafny, the board-interaction session of the Hnefatafl (Tafl-family)
game front-end. The session turns clicks on board cells into move requests for an external
rules engine. When the engine reports a result, the session redraws the board.

It holds these parts:

- cell geometry (corners, the centre, the role chosen for each new cell);
- the selection state machine: the selected cell, the destinations the engine listed, and
  cell colours;
- the colour rule that keeps corners and the centre in the special colour;
- the engine's update callback: lost-pawn panels, redrawing the pieces from a snapshot,
  clearing highlights, deselecting, and passing the turn.

Files:

- `Wrappers.dfy`: the `Option` type used for the selected cell.
- `Geometry.dfy`: coordinates, the board's cells, the corner and centre predicates,
  `CellChoice`, `FindSpecialCell`, and the counting and disjointness lemmas.
- `Rendering.dfy`: what a cell shows. This covers the piece widgets (`PawnChoice`) and the
  colour rule (`Painted`). It also covers highlighting and resetting a list of cells, and
  applying a snapshot (`ApplySnapshot`), with its pointwise and idempotence lemmas.
- `Interaction.dfy`: the whole session as a value (`View`). It has one function per
  operation of `Game.java` and the invariant `Inv`. The lemmas state what a click and the
  callback do.
- `GameSession.dfy`: class `Game`. Its fields are the ones `Game.java` updates in place.
  Each method's `ensures` gives its whole new state:
  - `InitGamePanel`, `InitBoard`, `ActionCell`, `UpdateMove` and `AddLostPawns` as the
    matching `Interaction` function of the old state;
  - `MoveRequest`, `SetColorBackground`, `ResetPossibleMoves`, `SetPawns` and
    `PawnChoice` through the Rendering functions on the changed map;
  - the rest field by field.

  The operations triggered by the user and by the engine (`InitGamePanel`, `ActionCell`,
  `UpdateMove`) establish or keep `Valid()`. The helpers they call do not keep it on their
  own. For example, `deselectCell` alone keeps only `Ready` and the selection rule
  (`Interaction.DeselectCellInv`).

The Swing widgets are replaced by two maps keyed by coordinate:

- `pieces`: the widgets a cell holds, as a sequence, so `removeAll` and `add` stay literal;
- `colors`: the cell's background colour.

The colours are `NormalColor`, `SpecialColor` and `PossibleMoveColor`, plus
`InitialColor(role)`: the colour the factory gives a new cell of that role. It is a colour
of its own, distinct from the other three (see "## Left out").
Each side panel is modelled as the number of lost-pawn markers written into it.

The rules engine, the controller and the widget factory are outside the model:

- the engine's answer to "possible moves of this cell" is a parameter of `ActionCell`;
- the board snapshot and the captured counts are parameters of `UpdateMove`;
- a move request sent to the controller is appended to a ghost log, `requests`.

The engine lists and snapshots must name board cells only. The source's `cells.get(c)`
would be null for any other coordinate.

Behaviour of the code that the model states as it is:

- A click on an occupied cell selects it even when the engine lists no destination
  (`Interaction.SelectOccupied`).
- Selecting paints every listed destination with the possible-moves colour, corners and
  centre included.
- `setEndGame` only prints. No winner colour exists and clicks are not blocked after the
  game ends.
- A second click on a listed destination, before the engine answers, sends the request
  again (`Interaction.DoubleClickSendsTwice`). Nothing marks a request as in flight.
- Within one game the code keeps two invariants, which the model states and proves. First,
  a non-empty destination list implies a selected cell. Second, the possible-moves colour is
  shown on exactly the listed destinations.
- The session's player is read from the menu when the session is built. At that point the
  user has not yet chosen a colour, so the value is unset. Both tests on the player compare
  it with Black only, so the unset value behaves as White: the first callback tallies
  White's captures into the right panel. The model starts every session from White.

## Model

| member | source | states |
|---|---|---|
| Geometry.CellChoice | src/main/scala/view/Game.java:256-265 | a new cell is Normal exactly when it is neither a corner nor the centre, and a corner is always made a Corner (the corner test comes first) |
| Geometry.IsCornerCell | src/main/scala/view/Game.java:278-283 | `isCornerCell`: the four extreme cells; on a non-empty board each of them lies on the board |
| Geometry.IsCenterCell | src/main/scala/view/Game.java:285-287 | `isCenterCell`: the cell (d/2+1, d/2+1); on a non-empty board it lies on the board |
| Geometry.CornerCellExactly | src/main/scala/view/Game.java:278-283 | `isCornerCell` holds exactly for (1,1), (1,d), (d,1) and (d,d) |
| Geometry.CenterCellExactly | src/main/scala/view/Game.java:285-287 | `isCenterCell` holds exactly for (d/2+1, d/2+1) |
| Geometry.CornerCenterDisjoint | src/main/scala/view/Game.java:278-287 | on every board of dimension at least 3 (every odd Tafl board) no cell is both a corner and the centre |
| Geometry.CornerCenterOverlapOnTwo | src/main/scala/view/Game.java:256-265 | on a 2x2 board the cell (2,2) is a corner and the centre, and `cellChoice` makes it a Corner |
| Geometry.CellChoiceByPosition | src/main/scala/view/Game.java:256-265 | `cellChoice` gives Corner for the four extreme cells, Center for the middle cell when it is not a corner, Normal for every other cell |
| Geometry.CellChoiceRoles | src/main/scala/view/Game.java:256-287 | from dimension 3 on, the role is Corner iff `isCornerCell`, Center iff `isCenterCell`, Normal iff neither |
| Geometry.CornerCount | src/main/scala/view/Game.java:278-283 | a board of dimension at least 2 has exactly four corner cells, all on the board |
| Geometry.CenterCount | src/main/scala/view/Game.java:285-287 | a non-empty board has exactly one centre cell, and it is on the board |
| Geometry.FindSpecialCell | src/main/scala/view/Game.java:125-127 | the result has exactly the corner and centre cells of the list, each as often as in the list, and no other cell |
| Geometry.FindSpecialCellAppend | src/main/scala/view/Game.java:125-127 | the filter keeps list order: filtering a concatenation is the concatenation of the filtered parts |
| Geometry.FindSpecialCellSingle | src/main/scala/view/Game.java:125-127 | a one-cell list keeps its cell exactly when it is a corner or the centre |
| Rendering.PawnChoice | src/main/scala/view/Game.java:200-211 | a snapshot piece adds at most one widget, and none exactly for an empty cell |
| Rendering.PawnChoiceRoundTrip | src/main/scala/view/Game.java:200-211 | the widget shown determines the snapshot piece (each piece has its own widget) |
| Rendering.Painted | src/main/scala/view/Game.java:177-184 | the colour `setColorBackground` leaves: the requested colour on a Normal cell, the special colour on a corner or the centre |
| Rendering.PaintedIdempotent | src/main/scala/view/Game.java:177-184 | repainting with the result changes nothing, and a special cell is special-coloured whatever colour is requested |
| Rendering.Highlighted | src/main/scala/view/Game.java:170-175 | `moveRequest`'s painting loop as a map: no cell is added or removed (the colour of each cell is stated by `Interaction.SelectOccupied`) |
| Rendering.Reset | src/main/scala/view/Game.java:99-101 | the reset loop as a map: no cell is added or removed (the colour of each cell is stated by `ResetClears` and `Interaction.ClickOutsideDeselects`) |
| Rendering.ResetClears | src/main/scala/view/Game.java:99-101 | after the reset loop no listed cell shows the possible-moves colour, and a second reset changes nothing |
| Rendering.HighlightThenReset | src/main/scala/view/Game.java:170-189 | highlighting a list and then resetting it equals resetting it alone, so no trace of the highlight survives |
| Rendering.ApplySnapshotStep | src/main/scala/view/Game.java:192-197 | one more snapshot entry updates exactly its own cell to the entry's widgets |
| Rendering.Lookup | src/main/scala/view/Game.java:191-198 | the snapshot has no entry for a cell exactly when the lookup finds none |
| Rendering.LookupDistinct | src/main/scala/view/Game.java:191-198 | in a snapshot that lists each cell once, a cell's lookup is its own entry's piece |
| Rendering.ApplySnapshotAt | src/main/scala/view/Game.java:191-211 | after `setPawns` a listed cell holds exactly the widgets for its last listed piece (nothing for Empty), and an unlisted cell is untouched |
| Rendering.LookupLastWrite | src/main/scala/view/Game.java:191-211 | a listed cell holds the widgets for its last listed piece, whether or not it existed before |
| Rendering.ApplySnapshotKeys | src/main/scala/view/Game.java:191-198 | `setPawns` adds exactly the listed coordinates to the cell map and removes none |
| Rendering.ApplySnapshotKeepsCells | src/main/scala/view/Game.java:191-198 | a snapshot of existing cells creates no cell and removes none |
| Rendering.ApplySnapshotIdempotent | src/main/scala/view/Game.java:191-211 | applying the same snapshot twice gives the same cells as applying it once |
| Rendering.ApplySnapshotSingleIcon | src/main/scala/view/Game.java:191-211 | because each cell is emptied before its widget is added, no cell ever holds more than one widget |
| Interaction.SwitchPlayer | src/main/scala/view/Game.java:129-131 | the player always changes |
| Interaction.SwitchPlayerTwice | src/main/scala/view/Game.java:129-131 | switching twice restores the original player |
| Interaction.InitBoard | src/main/scala/view/Game.java:75-92 | `initBoard` changes only the cells' widgets and colours |
| Interaction.InitBoardCells | src/main/scala/view/Game.java:75-92 | after `initBoard` every board cell exists, holds no widget and has its role's initial colour; off-board widgets and colours are kept, and so are the dimension, the player, the panels, the selection, the list and the request log |
| Interaction.InitGamePanel | src/main/scala/view/Game.java:49-56 | `initGamePanel` sets the dimension, empties both side panels (new panels from `initLeftRightPanel`), gives each board cell its role's initial colour, and changes nothing but the dimension, the panels and the cells |
| Interaction.SetPawns | src/main/scala/view/Game.java:191-198 | `setPawns` changes only the cells' widgets |
| Interaction.MoveRequest | src/main/scala/view/Game.java:170-175 | `moveRequest` lists exactly the engine's answer, keeps the set of cells, and changes nothing but the list and the colours |
| Interaction.ResetPossibleMoves | src/main/scala/view/Game.java:99-101 | the reset loop keeps the set of cells and changes nothing but the colours |
| Interaction.DeselectCell | src/main/scala/view/Game.java:186-189 | `deselectCell` empties the selection and the list and changes nothing else |
| Interaction.MoveAndPaint | src/main/scala/view/Game.java:110-111 | `moveAndPaint` appends exactly one request, (start, arrival), to the log and changes nothing else |
| Interaction.ActionCell | src/main/scala/view/Game.java:94-108 | a click never changes the pieces, the dimension, the player, the panels or the set of cells; it keeps the log and appends at most one request |
| Interaction.AddLostPawns | src/main/scala/view/Game.java:133-141 | the current player's panel (left for Black, right otherwise) takes that side's count, none if negative; the other panel and everything else stay as they were |
| Interaction.UpdateMove | src/main/scala/view/Game.java:213-228 | the callback always changes the player, leaves no selection and no listed move, keeps the dimension, the set of cells and the request log |
| Interaction.InitGamePanelInv | src/main/scala/view/Game.java:38-56 | a new session with its board built satisfies the invariant; each cell has its role's initial colour and shows the snapshot's piece |
| Interaction.ActionCellInv | src/main/scala/view/Game.java:94-108 | every click keeps the invariant: board cells only, listed moves imply a selection, the possible-moves colour on exactly the listed cells |
| Interaction.DeselectCellInv | src/main/scala/view/Game.java:186-189 | `deselectCell` keeps the board and the rule that listed moves imply a selection |
| Interaction.UpdateMoveInv | src/main/scala/view/Game.java:213-228 | the engine callback keeps the invariant |
| Interaction.SelectOccupied | src/main/scala/view/Game.java:95-97 | a click on an occupied cell with nothing listed selects it and lists the engine's answer, even an empty one; every listed cell, special cells included, gets the possible-moves colour; nothing else changes |
| Interaction.ClickOutsideDeselects | src/main/scala/view/Game.java:98-102 | a click outside a non-empty list repaints each listed cell through the colour rule with the normal colour and leaves the others alone; the selection and list become empty; no request is sent |
| Interaction.ClickOutsideClearsHighlights | src/main/scala/view/Game.java:98-102 | under the invariant, after such a click no cell shows the possible-moves colour |
| Interaction.ClickDestinationRequests | src/main/scala/view/Game.java:103-111 | a click on a listed cell with a selection appends exactly the request (selected, clicked), and nothing else changes |
| Interaction.PresenceGuardRedundant | src/main/scala/view/Game.java:103-107 | under the invariant the `isPresent()` test always holds when the clicked cell is listed, so the request is always sent |
| Interaction.ClickEmptyIdle | src/main/scala/view/Game.java:94-108 | a click on an empty cell with nothing listed changes nothing |
| Interaction.ClickRequests | src/main/scala/view/Game.java:94-111 | a click sends one request if it hits a listed cell of a selection, and sends none otherwise |
| Interaction.SelectionFixedWhileListed | src/main/scala/view/Game.java:94-108 | while moves are listed, a click never selects a different cell: the selection stays or is cleared |
| Interaction.DoubleClickSendsTwice | src/main/scala/view/Game.java:103-111 | two clicks on the same listed cell before the engine answers send the request twice |
| Interaction.UpdateMoveEffect | src/main/scala/view/Game.java:213-228 | the callback refills the current player's panel (left for Black, right for White) with that side's count, none if negative, and leaves the other panel alone; it redraws from the snapshot, resets the listed cells, clears the selection and list, and toggles the player |
| Interaction.UpdateMoveRedraws | src/main/scala/view/Game.java:213-222 | under the invariant, after the callback no cell shows the possible-moves colour, and every cell shows the snapshot's piece if listed and keeps its widgets if not |
| Interaction.UpdateMoveTwiceRestoresPlayer | src/main/scala/view/Game.java:225 | two callbacks hand the turn back to the player who had it |
| Interaction.UpdateMoveSameSnapshot | src/main/scala/view/Game.java:217 | delivering the same snapshot again leaves the pieces as they were |
| GameSession.Game.constructor | src/main/scala/view/Game.java:38-47 | a new session has no cells, no selection, no listed moves, empty panels and the unset player, which `White` stands for; it is valid |
| GameSession.Game.InitGamePanel | src/main/scala/view/Game.java:49-56 | on a fresh session: empties both side panels, builds the board and draws the snapshot, ending in a valid state |
| GameSession.Game.InitBoard | src/main/scala/view/Game.java:75-92 | the nested loop writes an empty cell with its role's initial colour at every board coordinate |
| GameSession.Game.ActionCell | src/main/scala/view/Game.java:94-108 | the click changes the session exactly as `Interaction.ActionCell` says, and the session stays valid |
| GameSession.Game.MoveAndPaint | src/main/scala/view/Game.java:110-111 | appends the move request to the controller log |
| GameSession.Game.MoveRequest | src/main/scala/view/Game.java:170-175 | lists the engine's answer, gives every listed cell the possible-moves colour and changes no other colour |
| GameSession.Game.SetColorBackground | src/main/scala/view/Game.java:177-184 | only cell `c` changes colour, and it takes the colour the colour rule gives |
| GameSession.Game.ResetPossibleMoves | src/main/scala/view/Game.java:99-101 | every listed cell is repainted through the colour rule with the normal colour, and the others are untouched |
| GameSession.Game.DeselectCell | src/main/scala/view/Game.java:186-189 | the selection and the list become empty |
| GameSession.Game.SetPawns | src/main/scala/view/Game.java:191-198 | the cells become the snapshot applied in order to the old cells |
| GameSession.Game.PawnChoice | src/main/scala/view/Game.java:200-211 | adds the widget for the piece to the cell's widgets, and nothing for an empty cell |
| GameSession.Game.UpdateMove | src/main/scala/view/Game.java:213-228 | the callback changes the session exactly as `Interaction.UpdateMove` says, and the session stays valid |
| GameSession.Game.AddLostPawns | src/main/scala/view/Game.java:133-141 | the current player's panel is emptied and refilled with one marker per captured piece of that side, none for a negative count |
| GameSession.Game.SwitchPlayer | src/main/scala/view/Game.java:129-131 | Black becomes White and anything else becomes Black |

## Left out

- Swing construction and layout are not modelled: building panels and buttons, grid-bag
  constraints, `repaint`/`validate`, `initNorthPanel`, `initSouthPanel`,
  and the menu button. They carry no session state. `initLeftRightPanel` is modelled only
  by its effect on the session: both side panels start empty (`Interaction.InitGamePanel`).
- `restoreGame` is not modelled, so `InitGamePanel` is stated only for a fresh session.
  `restoreGame` clears the cells but not the selection or the listed moves.
- `getCoordinate`, the reverse lookup from a button to its coordinate, is not modelled. A
  click is given directly by its coordinate.
- `setEndGame` is not modelled. It only writes to the console.
- Commented-out code in `moveAndPaint` and `addLostPawns` is not modelled.
- GameViewImpl.java, Menu.java and GameView.java are not part of this model. They hold
  frame and overlay plumbing, menu navigation, and delegation to the controller. In
  particular the board dimension is computed there by a floating-point square root of the
  snapshot size. The model takes the dimension as a natural number and requires every
  snapshot coordinate to be on the board.
- The rules engine and the controller are not modelled (move legality, captures, wins).
  They appear only as parameters and as the request log.
- GameSession.Game.constructor: the colour the user later picks in the menu
  (Menu.java:170-178) never reaches the session, because only `switchPlayer` writes the
  session's player after construction. The unset value is modelled as White, which it
  equals under every test in Game.java.
- `GameSession.Game.AddLostPawns`: the model counts the markers written. In Swing, adding
  the same `JLabel` repeatedly leaves a single child, so the panel would show one marker.
- The unused fields `lostBlackPawns` and `lostWhitePawns` are not modelled. They are set to
  0 and never read.
- The aliasing of the engine's list is not modelled. The session keeps the list object
  that `getPossibleMoves` returns, and `deselectCell` clears it in place. The model copies
  the list.
- The widgets that the factory puts into a newly created cell are not known, so a new cell
  is modelled as holding none. Its colour is modelled as `InitialColor(role)`.
- The factory's colours are not part of this model. `InitialColor(role)` is assumed to
  differ from the possible-moves colour, so a new cell never looks highlighted. The claim
  that the possible-moves colour is shown on exactly the listed destinations
  (`Interaction.HighlightInv`) rests on that assumption.
