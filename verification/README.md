# Tap-to-swap tile puzzle: board bookkeeping

This project models the bookkeeping core of a Unity tile puzzle's `GameManager`
(`Assets/GameManager.cs`). An image is cut into a `size` x `size` grid of
pieces. The player taps two pieces to exchange them; what the code actually
exchanges is described below. The model covers four parts:

- **Building the board.** `CreateGamePieces` stores, in cell `(r, c)` of
  `piecesArray`, the piece created for `(r, c)`. It names that piece
  `"{r*size+c}_{r}_{c}"` and draws it at slot `(r, c)`.
- **Decoding names.** `ObtenerFila` / `ObtenerColumna` split a name on `'_'`
  and parse its second and third fields with `int.Parse`.
- **The swap.** `SwapPieces` looks up the pieces stored at the cells that the
  two tapped names encode. It unhighlights them and exchanges their drawn
  positions. Then `UpdatePieceReference` scans the grid with nested loops for
  both pieces and exchanges their array cells.
- **Selection.** `SelectPieces`, once the hit test has produced a piece, uses
  the `selected1` / `selected2` / `selectedPosition1` fields to turn taps into
  at most one swap per pair of different taps.

A piece's identity is the `(row, col)` it was created for (`Board.Tile`).
Unity compares pieces by reference, and exactly one piece exists per
creation cell, so comparing `Tile` values is comparing pieces. The cell a piece
occupies now is only known from where it sits in the grid (`Board.Cell`). The
grid is a value (`seq<seq<Tile>>`). Every operation takes a session value and
returns the next one.

Names are never updated after creation. So after earlier swaps, tapping two
pieces exchanges the cells where those pieces were *created*, and those cells
may now hold other pieces. The model keeps this behaviour. The same lookup
decides which pieces `SwapPieces` unhighlights (Assets/GameManager.cs:78-81):
the pieces found in the named cells, not the tapped ones. So a tapped piece
that has moved away from its creation cell can stay highlighted after the
swap, as the `SelectPieces` contract states.
`GameManager.StaleLabelSwap` proves what the swap does in general.
`GameManager.StaleLabelExample` gives a board on which the tapped piece does
not move. Resolving a tap through a scan for the tapped piece's current cell
would avoid this. The code does not do that, and the model follows the code.

Modules:

- `Board` (`board.dfy`): tiles, cells and grids; the bijection invariant
  `Arrangement`; the cell exchange `Exchange` and its laws.
- `PieceNames` (`piece_names.dfy`): decimal numerals, `Split` and `Join`,
  piece names, and `ObtenerFila` / `ObtenerColumna`.
- `GameManager` (`game_manager.dfy`): the session state, `CreateGamePieces`,
  `UpdatePieceReference`, `SwapPieces` and `SelectPieces`.

The session invariant `GameManager.Valid` holds between frames. It says four
things:

- the grid is a bijection between cells and piece identities;
- every piece is drawn at the slot of the cell that stores it;
- a recorded first selection is the name of a piece;
- `selected2` is never left set.

`StartSession` establishes it, and `SelectPieces` preserves it.

## Model

| member | source | states |
|---|---|---|
| `Board.Exchange` | Assets/GameManager.cs:115-116 | The first cell receives the second cell's piece and the second cell receives the first cell's piece; every other cell keeps its piece. |
| `Board.ExchangeSelf` | Assets/GameManager.cs:115-116 | Exchanging a cell with itself leaves the grid unchanged. |
| `Board.ExchangeSymmetric` | Assets/GameManager.cs:115-116 | Exchanging a with b is the same as exchanging b with a. |
| `Board.ExchangeInvolution` | Assets/GameManager.cs:115-116 | Exchanging the same two cells twice restores the previous grid. |
| `Board.ExchangePreservesArrangement` | Assets/GameManager.cs:97-116 | An exchange keeps the grid a bijection: every piece is in exactly one cell and every cell holds exactly one piece. |
| `Board.ExchangeSameIff` | Assets/GameManager.cs:115-116 | On a bijective grid, two exchanges of distinct cells have the same effect if and only if they exchange the same pair of cells. |
| `Board.ExchangeAllPreservesArrangement` | Assets/GameManager.cs:97-116 | The grid stays a bijection across any sequence of exchanges. |
| `Board.IdentityIsArrangement` | Assets/GameManager.cs:23-45 | A grid holding the piece created for each cell in that cell is a bijection. |
| `PieceNames.Show` | Assets/GameManager.cs:32 | A number's decimal numeral in a name is non-empty and made only of digits, so it contains no `'_'`. |
| `PieceNames.ParseInt` | Assets/GameManager.cs:158 | Parsing succeeds if and only if the field is a non-empty run of decimal digits; otherwise it is a format error. |
| `PieceNames.ParseShow` | Assets/GameManager.cs:155-166 | Parsing the numeral written for n gives back n. |
| `PieceNames.Split` | Assets/GameManager.cs:157 | Splitting on `'_'` always yields at least one part, empty parts included. |
| `PieceNames.JoinSplit` | Assets/GameManager.cs:157 | Joining the parts of a split with the separator gives back the original string, so the split loses nothing. |
| `PieceNames.SplitNoSeparator` | Assets/GameManager.cs:157 | A string without the separator splits into itself alone. |
| `PieceNames.SplitFirst` | Assets/GameManager.cs:157 | A separator-free prefix followed by the separator is split off as the first part. |
| `PieceNames.SplitCount` | Assets/GameManager.cs:157 | A split has exactly one more part than the string has separators. |
| `PieceNames.Name` | Assets/GameManager.cs:32 | A piece's name contains exactly two `'_'` separators, and every other character is a decimal digit. |
| `PieceNames.ObtenerFila` | Assets/GameManager.cs:155-159 | The result is `MissingField(1)` exactly when the name has no `'_'`, which is the case where `partes[1]` throws. Otherwise it is the second field parsed: success exactly when that field is a non-empty run of digits, with the field's value, and `NotANumber(field)` when `int.Parse` would throw. |
| `PieceNames.ObtenerColumna` | Assets/GameManager.cs:162-166 | The result is `MissingField(2)` exactly when the name has fewer than two `'_'`, which is the case where `partes[2]` throws. Otherwise it is the third field parsed: success exactly when that field is a non-empty run of digits, with the field's value, and `NotANumber(field)` when `int.Parse` would throw. |
| `PieceNames.SplitName` | Assets/GameManager.cs:32 | A piece's name splits into exactly three fields: the index, the row and the column numerals. |
| `PieceNames.NameRoundTrip` | Assets/GameManager.cs:155-166 | `ObtenerFila` and `ObtenerColumna` applied to a name built at creation succeed and return exactly the row and column it was built from. |
| `PieceNames.NamesDistinct` | Assets/GameManager.cs:32 | No two different pieces share a name. |
| `PieceNames.IndexBounds` | Assets/GameManager.cs:32 | The index `row*size+col` in a name lies in `[0, size*size)`, and two pieces have the same index if and only if they are the same piece. |
| `PieceNames.PieceNameOf` | Assets/GameManager.cs:32 | Every piece's name decodes to an in-range cell, and that cell is the piece's own creation cell. |
| `PieceNames.NamedCellsDistinct` | Assets/GameManager.cs:78-79 | Two piece names address the same cell if and only if they are the same name. |
| `GameManager.CreateGamePieces` | Assets/GameManager.cs:21-45 | Afterwards every cell (r, c) holds the piece created for (r, c), the grid is a bijection, and each piece is drawn at its creation slot. |
| `GameManager.StartSession` | Assets/GameManager.cs:14-17 | A new session has the board in its created arrangement, nothing selected, nothing highlighted, and the session invariant holds. |
| `GameManager.ReadNamedCell` | Assets/GameManager.cs:96 | Reading the row and column back from a piece's name gives the piece's creation cell, which is where the scan starts from. |
| `GameManager.UpdatePieceReference` | Assets/GameManager.cs:93-117 | For two distinct pieces on a grid where no piece appears twice, the result is the grid with their two cells exchanged. If the same piece is passed twice, the piece stays in its cell and is also copied into its creation cell. |
| `GameManager.SwapPieces` | Assets/GameManager.cs:74-91 | Both selection flags end false. For different names, the grid becomes the exchange of the two cells the names encode, and the board invariant is kept. The pieces found in those two cells are the ones unhighlighted. |
| `GameManager.ExchangeKeepsShown` | Assets/GameManager.cs:83-87 | Exchanging the drawn positions of the two pieces together with their cells keeps every piece drawn at the slot of the cell that stores it. |
| `GameManager.SelectPieces` | Assets/GameManager.cs:134-149 | From no selection, a tap records the piece's name, highlights the piece and does not swap. With a selection, a tap swaps if and only if the tapped piece's creation cell differs from the cell the recorded name encodes (names and encoded cells correspond one to one). Without a swap nothing changes. A swap exchanges those two cells, unhighlights the pieces found in them and returns to no selection. `selected2` is false on return and the session invariant is kept. |
| `GameManager.StaleLabelSwap` | Assets/GameManager.cs:78-79 | A swap driven by the names of two tapped pieces equals exchanging the tapped pieces' current cells if and only if both pieces are at their creation cells or each sits at the other's creation cell. |
| `GameManager.StaleLabelExample` | Assets/GameManager.cs:78-79 | After the pieces of cells (0,0) and (0,1) are swapped, tapping piece (0,0) and piece (1,0) leaves the tapped piece (0,0) at (0,1) and moves the untapped piece (0,1) to (1,0). |

## Left out

- Mesh placement, scale and UV coordinates (Assets/GameManager.cs:22, 28-31, 35-44): float arithmetic and Unity mesh APIs. A piece's world position is kept only as the slot cell it is drawn at.
- Mouse input, raycasting and the `"PuzzlePiece"` tag check (Assets/GameManager.cs:122-132): engine input. `SelectPieces` takes the piece the hit test produced.
- Renderer and material assignment and `Debug.Log` in `HighlightPiece` / `unHighlightPiece` (Assets/GameManager.cs:50-72): rendering. Highlighting is a set of pieces, and pieces start unhighlighted.
- The Unity lifecycle hooks `Start` / `Update` (Assets/GameManager.cs:168-176): engine scheduling. `StartSession` stands for the field initialisers followed by `CreateGamePieces`.
- GameManager.CreateGamePieces: takes `size` as a natural number that stays fixed for the session. The source's `size` is a public `int` (Assets/GameManager.cs:9). A negative value, which makes `new Transform[size, size]` throw at Assets/GameManager.cs:21, is not modelled. Nor is a change of `size` after `Start`, which would move the scan bounds of Assets/GameManager.cs:97-99.
- PieceNames.ParseInt: models `int.Parse` only on unsigned digit strings. It does not model signs, surrounding whitespace or 32-bit overflow, because only names built at creation reach it.
- PieceNames.Index: computes `row*size+col` with unbounded integers. It does not model C# `int` overflow, which needs a board side above 46340.
- GameManager.UpdatePieceReference: says nothing about grids where a piece appears twice or is missing, because such grids are unreachable under the bijection invariant.
- GameManager.SwapPieces: requires both names to be piece names and the board invariant to hold. The exceptions a malformed name or an out-of-range index would raise are not modelled, because only names built at creation are passed in.
- GameManager.SelectPieces: requires the session invariant, which `StartSession` establishes and every call preserves.
- A shuffle, a solved-state check and a completion signal are not part of this code, so they are not modelled.
