/**
 The bookkeeping of `GameManager`: building the board, the nested-loop scan
 and exchange of `UpdatePieceReference`, `SwapPieces`, and the tap handling
 of `SelectPieces` once the hit test has produced a piece.

 Everything is a value: a method takes the session and returns the next one.
 */
module GameManager {
  import opened Board
  import opened PieceNames

  /** The fields of a `GameManager` instance that the core reads and writes.
      A piece's `transform.position` is a world-space point computed from the
      cell it was laid out in; it is kept here as that cell (`shownAt`).  The
      material of a piece is kept as membership in `highlighted`. */
  datatype Session = Session(
    size: nat,
    grid: Grid,
    shownAt: map<Tile, Cell>,
    highlighted: set<Tile>,
    selected1: bool,
    selectedPosition1: string,
    selected2: bool,
    selectedPosition2: string)

  /** The screen agrees with the array: the piece in each cell is drawn at
      that cell's slot. */
  ghost predicate ShownWhereStored(s: Session)
    requires Shaped(s.grid, s.size)
  {
    forall a :: InRange(s.size, a) ==> At(s.grid, s.size, a) in s.shownAt && s.shownAt[At(s.grid, s.size, a)] == a
  }

  /** What holds of the board between frames. */
  ghost predicate BoardOk(s: Session) {
    Arrangement(s.grid, s.size) && ShownWhereStored(s)
  }

  /** What holds of the whole session between frames: the board is a
      bijection drawn where it is stored, a first selection is always the
      name of some piece, and `selected2` is never left set. */
  ghost predicate Valid(s: Session) {
    && BoardOk(s)
    && (s.selected1 ==> IsPieceName(s.size, s.selectedPosition1))
    && !s.selected2
  }

  /** The nested loops of `CreateGamePieces`, restricted to identity, name
      and layout: cell (r, c) receives the piece created for (r, c), laid out
      at slot (r, c). */
  method CreateGamePieces(size: nat) returns (grid: Grid, shownAt: map<Tile, Cell>)
    ensures Shaped(grid, size) && IsIdentity(grid, size)
    ensures Arrangement(grid, size)
    ensures forall t :: ValidTile(size, t) ==> t in shownAt && shownAt[t] == Home(t)
  {
    grid := [];
    shownAt := map[];
    var row := 0;
    while row < size
      invariant 0 <= row <= size
      invariant |grid| == row
      invariant forall r, c :: 0 <= r < row && 0 <= c < |grid[r]| ==> grid[r][c] == Tile(r, c)
      invariant forall r :: 0 <= r < row ==> |grid[r]| == size
      invariant forall t :: ValidTile(size, t) && t.row < row ==> t in shownAt && shownAt[t] == Home(t)
    {
      var line: seq<Tile> := [];
      var col := 0;
      while col < size
        invariant 0 <= col <= size
        invariant |line| == col
        invariant forall c :: 0 <= c < col ==> line[c] == Tile(row, c)
        invariant forall t :: ValidTile(size, t) && t.row < row ==> t in shownAt && shownAt[t] == Home(t)
        invariant forall t :: ValidTile(size, t) && t.row == row && t.col < col ==> t in shownAt && shownAt[t] == Home(t)
      {
        var piece := Tile(row, col);
        shownAt := shownAt[piece := Cell(row, col)];
        line := line + [piece];
        col := col + 1;
      }
      grid := grid + [line];
      row := row + 1;
    }
    IdentityIsArrangement(grid, size);
  }

  /** `Start`: the field initialisers followed by `CreateGamePieces`.  No
      piece is highlighted and nothing is selected. */
  method StartSession(size: nat) returns (s: Session)
    ensures Valid(s) && s.size == size
    ensures IsIdentity(s.grid, size)
    ensures !s.selected1 && s.highlighted == {}
  {
    var grid, shownAt := CreateGamePieces(size);
    s := Session(size, grid, shownAt, {}, false, "", false, "");
  }

  /** `UpdatePieceReference`: scan the whole grid for the cells of `pieza1`
      and `pieza2`, starting from the creation cells their names encode,
      then store `pieza2` in the first cell and `pieza1` in the second.
      For two distinct pieces of a bijective grid this is the exchange of
      their cells; for one piece passed twice it also copies the piece into
      its creation cell. */
  method UpdatePieceReference(n: nat, g: Grid, pieza1: Tile, pieza2: Tile) returns (g': Grid)
    requires Shaped(g, n) && ValidTile(n, pieza1) && ValidTile(n, pieza2)
    ensures Shaped(g', n)
    ensures Injective(g, n) && pieza1 != pieza2 ==>
      forall a, b :: InRange(n, a) && InRange(n, b) && At(g, n, a) == pieza1 && At(g, n, b) == pieza2 ==>
        g' == Exchange(g, n, a, b)
    ensures Injective(g, n) && pieza1 == pieza2 ==>
      forall a :: InRange(n, a) && At(g, n, a) == pieza1 ==>
        && At(g', n, a) == pieza1
        && At(g', n, Home(pieza1)) == pieza1
        && forall x :: InRange(n, x) && x != a && x != Home(pieza1) ==> At(g', n, x) == At(g, n, x)
  {
    var fila1: nat, columna1: nat := ReadNamedCell(n, pieza2);
    var fila2: nat, columna2: nat := ReadNamedCell(n, pieza1);
    ghost var found1 := false;
    ghost var found2 := false;
    var fila: nat := 0;
    while fila < n
      invariant 0 <= fila <= n
      invariant InRange(n, Cell(fila1, columna1)) && InRange(n, Cell(fila2, columna2))
      invariant found1 ==> At(g, n, Cell(fila1, columna1)) == pieza1
      invariant !found1 ==> Cell(fila1, columna1) == Home(pieza2) && NotScanned(g, n, pieza1, fila, 0)
      invariant found2 ==> At(g, n, Cell(fila2, columna2)) == pieza2 && pieza1 != pieza2
      invariant !found2 ==> Cell(fila2, columna2) == Home(pieza1)
      invariant !found2 && pieza1 != pieza2 ==> NotScanned(g, n, pieza2, fila, 0)
    {
      var columna: nat := 0;
      while columna < n
        invariant 0 <= columna <= n
        invariant InRange(n, Cell(fila1, columna1)) && InRange(n, Cell(fila2, columna2))
        invariant found1 ==> At(g, n, Cell(fila1, columna1)) == pieza1
        invariant !found1 ==> Cell(fila1, columna1) == Home(pieza2) && NotScanned(g, n, pieza1, fila, columna)
        invariant found2 ==> At(g, n, Cell(fila2, columna2)) == pieza2 && pieza1 != pieza2
        invariant !found2 ==> Cell(fila2, columna2) == Home(pieza1)
        invariant !found2 && pieza1 != pieza2 ==> NotScanned(g, n, pieza2, fila, columna)
      {
        if g[fila][columna] == pieza1 {
          fila1, columna1 := fila, columna;
          found1 := true;
        } else if g[fila][columna] == pieza2 {
          fila2, columna2 := fila, columna;
          found2 := true;
        }
        NotScannedStep(g, n, pieza1, fila, columna);
        NotScannedStep(g, n, pieza2, fila, columna);
        columna := columna + 1;
      }
      NotScannedNextRow(g, n, pieza1, fila);
      NotScannedNextRow(g, n, pieza2, fila);
      fila := fila + 1;
    }
    var cell1, cell2 := Cell(fila1, columna1), Cell(fila2, columna2);
    g' := Put(g, n, cell1, pieza2);
    g' := Put(g', n, cell2, pieza1);

    if Injective(g, n) && pieza1 != pieza2 {
      forall a, b | InRange(n, a) && InRange(n, b) && At(g, n, a) == pieza1 && At(g, n, b) == pieza2
        ensures g' == Exchange(g, n, a, b)
      {
        assert found1 && found2;
        assert a == cell1 && b == cell2;
      }
    }
    if Injective(g, n) && pieza1 == pieza2 {
      forall a | InRange(n, a) && At(g, n, a) == pieza1
        ensures At(g', n, a) == pieza1 && At(g', n, Home(pieza1)) == pieza1
        ensures forall x :: InRange(n, x) && x != a && x != Home(pieza1) ==> At(g', n, x) == At(g, n, x)
      {
        assert found1 && !found2;
        assert a == cell1 && cell2 == Home(pieza1);
      }
    }
  }

  /** `ObtenerFila` and `ObtenerColumna` applied to a piece's name: the
      creation cell of the piece. */
  method ReadNamedCell(n: nat, t: Tile) returns (fila: nat, columna: nat)
    ensures Cell(fila, columna) == Home(t)
  {
    NameRoundTrip(n, t);
    fila := ObtenerFila(Name(n, t)).value;
    columna := ObtenerColumna(Name(n, t)).value;
  }

  lemma NotScannedStep(g: Grid, n: nat, t: Tile, row: nat, col: nat)
    requires Shaped(g, n) && row < n && col < n
    ensures NotScanned(g, n, t, row, col) && g[row][col] != t ==> NotScanned(g, n, t, row, col + 1)
  {
  }

  lemma NotScannedNextRow(g: Grid, n: nat, t: Tile, row: nat)
    requires Shaped(g, n)
    ensures NotScanned(g, n, t, row, n) ==> NotScanned(g, n, t, row + 1, 0)
  {
  }

  /** Piece t is in none of the cells a row-major scan has visited before
      reaching cell (row, col). */
  ghost predicate NotScanned(g: Grid, n: nat, t: Tile, row: nat, col: nat)
    requires Shaped(g, n)
  {
    forall a :: InRange(n, a) && (a.row < row || (a.row == row && a.col < col)) ==> At(g, n, a) != t
  }

  /** `SwapPieces`: clear both selection flags, look up the pieces stored at
      the creation cells encoded in the two names, unhighlight them, exchange
      their drawn positions and let `UpdatePieceReference` exchange their
      cells.  The net effect on the board is the exchange of the two cells
      the names encode, whichever pieces now sit there. */
  method SwapPieces(s: Session, piece1: string, piece2: string) returns (s': Session)
    requires BoardOk(s)
    requires IsPieceName(s.size, piece1) && IsPieceName(s.size, piece2)
    ensures !s'.selected1 && !s'.selected2
    ensures s'.size == s.size
    ensures s'.selectedPosition1 == s.selectedPosition1 && s'.selectedPosition2 == s.selectedPosition2
    ensures piece1 != piece2 ==> s'.grid == Exchange(s.grid, s.size, NamedCell(piece1), NamedCell(piece2))
    ensures piece1 != piece2 ==> BoardOk(s')
    ensures s'.highlighted ==
      s.highlighted - {At(s.grid, s.size, NamedCell(piece1)), At(s.grid, s.size, NamedCell(piece2))}
  {
    var n := s.size;
    var cell1 := Cell(ObtenerFila(piece1).value, ObtenerColumna(piece1).value);
    var cell2 := Cell(ObtenerFila(piece2).value, ObtenerColumna(piece2).value);
    var piece1Object := At(s.grid, n, cell1);
    var piece2Object := At(s.grid, n, cell2);
    var highlighted := s.highlighted - {piece1Object} - {piece2Object};

    var piece1Position := s.shownAt[piece1Object];
    var piece2Position := s.shownAt[piece2Object];
    var shownAt := s.shownAt[piece1Object := piece2Position][piece2Object := piece1Position];

    var grid := UpdatePieceReference(n, s.grid, piece1Object, piece2Object);
    s' := s.(grid := grid, shownAt := shownAt, highlighted := highlighted,
             selected1 := false, selected2 := false);

    if piece1 != piece2 {
      NamedCellsDistinct(n, piece1, piece2);
      assert piece1Object != piece2Object;
      assert grid == Exchange(s.grid, n, cell1, cell2);
      ExchangePreservesArrangement(s.grid, n, cell1, cell2);
      ExchangeKeepsShown(s, cell1, cell2, s');
    }
  }

  /** Whether the board is fine depends only on the board fields. */
  lemma SameBoard(s: Session, t: Session)
    requires BoardOk(s)
    requires t.size == s.size && t.grid == s.grid && t.shownAt == s.shownAt
    ensures BoardOk(t)
  {
  }

  /** Exchanging two cells together with the drawn positions of the two
      pieces in them keeps every piece drawn where it is stored. */
  lemma ExchangeKeepsShown(s: Session, a: Cell, b: Cell, s': Session)
    requires BoardOk(s) && InRange(s.size, a) && InRange(s.size, b) && a != b
    requires s'.size == s.size && s'.grid == Exchange(s.grid, s.size, a, b)
    requires s'.shownAt == s.shownAt[At(s.grid, s.size, a) := s.shownAt[At(s.grid, s.size, b)]]
                                    [At(s.grid, s.size, b) := s.shownAt[At(s.grid, s.size, a)]]
    ensures ShownWhereStored(s')
  {
  }

  /** `SelectPieces` after the hit test found the piece `hit`.  From no
      selection, the tap records the piece's name and highlights it; the
      second check then compares the name with itself, so nothing is
      swapped.  With a selection, tapping the same name does nothing and
      tapping another name highlights it and calls `SwapPieces` once.
      Piece names and the cells they encode correspond one to one
      (`NamedCellsDistinct`), so the contract compares the encoded cells
      where the code compares the names. */
  method SelectPieces(s: Session, hit: Tile) returns (s': Session, swapped: bool)
    requires Valid(s) && ValidTile(s.size, hit)
    ensures s'.size == s.size && !s'.selected2
    ensures swapped <==> s.selected1 && NamedCell(s.selectedPosition1) != Home(hit)
    ensures !s.selected1 ==>
      s' == s.(selected1 := true, selectedPosition1 := Name(s.size, hit), highlighted := s.highlighted + {hit})
    ensures s.selected1 && NamedCell(s.selectedPosition1) == Home(hit) ==> s' == s
    ensures s.selected1 && NamedCell(s.selectedPosition1) != Home(hit) ==>
      && !s'.selected1
      && s'.grid == Exchange(s.grid, s.size, NamedCell(s.selectedPosition1), Home(hit))
      && s'.highlighted == (s.highlighted + {hit}) - {At(s.grid, s.size, NamedCell(s.selectedPosition1)), At(s.grid, s.size, Home(hit))}
    ensures Valid(s')
  {
    var name := Name(s.size, hit);
    PieceNameOf(s.size, hit);
    s' := s;
    swapped := false;
    if !s'.selected1 {
      s' := s'.(selected1 := true, selectedPosition1 := name, highlighted := s'.highlighted + {hit});
      SameBoard(s, s');
    }
    if s'.selected1 && !s'.selected2 {
      if s'.selectedPosition1 != name {
        var first := s'.selectedPosition1;
        assert first == s.selectedPosition1 && s.selected1;
        NamedCellsDistinct(s.size, first, name);
        s' := s'.(selected2 := true, selectedPosition2 := name, highlighted := s'.highlighted + {hit});
        SameBoard(s, s');
        s' := SwapPieces(s', first, name);
        swapped := true;
      }
    }
  }

  /** The names of tapped pieces are never updated, so a swap exchanges the
      creation cells of the two tapped pieces.  That is the exchange of the
      tapped pieces themselves exactly when both are at their creation cells
      or each sits at the other's creation cell. */
  lemma StaleLabelSwap(g: Grid, n: nat, t1: Tile, t2: Tile, a: Cell, b: Cell)
    requires Arrangement(g, n) && ValidTile(n, t1) && ValidTile(n, t2) && t1 != t2
    requires InRange(n, a) && InRange(n, b) && At(g, n, a) == t1 && At(g, n, b) == t2
    ensures Exchange(g, n, Home(t1), Home(t2)) == Exchange(g, n, a, b) <==>
      (a == Home(t1) && b == Home(t2)) || (a == Home(t2) && b == Home(t1))
  {
    ExchangeSameIff(g, n, Home(t1), Home(t2), a, b);
  }

  /** On a fresh board, swap the pieces of cells (0,0) and (0,1), then tap
      piece (0,0) (now at (0,1)) and piece (1,0): the second swap exchanges
      cells (0,0) and (1,0), so the tapped piece (0,0) stays where it is and
      the untapped piece (0,1) moves. */
  lemma StaleLabelExample(g: Grid, n: nat)
    requires 2 <= n && Shaped(g, n) && IsIdentity(g, n)
    ensures var g1 := Exchange(g, n, Cell(0, 0), Cell(0, 1));
            var g2 := Exchange(g1, n, Home(Tile(0, 0)), Home(Tile(1, 0)));
            && At(g1, n, Cell(0, 1)) == Tile(0, 0)
            && At(g2, n, Cell(0, 1)) == Tile(0, 0)
            && At(g2, n, Cell(1, 0)) == Tile(0, 1)
            && At(g2, n, Cell(0, 0)) == Tile(1, 0)
  {
  }
}
