/**
 The puzzle board behind `GameManager.piecesArray`: a size x size grid of
 pieces, where a piece is identified by the row and column it was created
 for, and the cell it currently occupies is only known from where it sits
 in the grid.
 */
module Board {

  /** A piece's identity: the (row, col) it was created for.  Unity compares
      pieces by reference, and exactly one piece is instantiated per
      creation cell, so comparing these values is comparing pieces. */
  datatype Tile = Tile(row: nat, col: nat)

  /** A position (row, col) in the grid. */
  datatype Cell = Cell(row: nat, col: nat)

  /** The grid, indexed `grid[row][col]` like `piecesArray[row, col]`. */
  type Grid = seq<seq<Tile>>

  /** The cell a piece was created in. */
  function Home(t: Tile): Cell {
    Cell(t.row, t.col)
  }

  predicate ValidTile(n: nat, t: Tile) {
    t.row < n && t.col < n
  }

  predicate InRange(n: nat, c: Cell) {
    c.row < n && c.col < n
  }

  /** The grid has n rows of n cells. */
  predicate Shaped(g: Grid, n: nat) {
    |g| == n && forall r :: 0 <= r < n ==> |g[r]| == n
  }

  function At(g: Grid, n: nat, c: Cell): Tile
    requires Shaped(g, n) && InRange(n, c)
  {
    g[c.row][c.col]
  }

  /** Writes one cell, as `piecesArray[row, col] = piece` does. */
  function Put(g: Grid, n: nat, c: Cell, t: Tile): (r: Grid)
    requires Shaped(g, n) && InRange(n, c)
    ensures Shaped(r, n)
    ensures At(r, n, c) == t
    ensures forall x :: InRange(n, x) && x != c ==> At(r, n, x) == At(g, n, x)
  {
    g[c.row := g[c.row][c.col := t]]
  }

  /** Every cell holds a piece that was created for some cell of the grid. */
  ghost predicate AllValid(g: Grid, n: nat)
    requires Shaped(g, n)
  {
    forall a :: InRange(n, a) ==> ValidTile(n, At(g, n, a))
  }

  /** No piece occupies two cells. */
  ghost predicate Injective(g: Grid, n: nat)
    requires Shaped(g, n)
  {
    forall a, b :: InRange(n, a) && InRange(n, b) && a != b ==> At(g, n, a) != At(g, n, b)
  }

  /** Every piece created for the grid occupies some cell. */
  ghost predicate Surjective(g: Grid, n: nat)
    requires Shaped(g, n)
  {
    forall t :: ValidTile(n, t) ==> exists a :: InRange(n, a) && At(g, n, a) == t
  }

  /** The grid is a bijection between cells and piece identities: every cell
      holds exactly one piece and every piece sits in exactly one cell. */
  ghost predicate Arrangement(g: Grid, n: nat) {
    Shaped(g, n) && AllValid(g, n) && Injective(g, n) && Surjective(g, n)
  }

  /** Every cell holds the piece created for it: the board as first built. */
  ghost predicate IsIdentity(g: Grid, n: nat)
    requires Shaped(g, n)
  {
    forall a :: InRange(n, a) ==> At(g, n, a) == Tile(a.row, a.col)
  }

  /** Two grids of the same shape that agree on every cell are equal. */
  lemma GridExtensionality(g: Grid, h: Grid, n: nat)
    requires Shaped(g, n) && Shaped(h, n)
    requires forall a :: InRange(n, a) ==> At(g, n, a) == At(h, n, a)
    ensures g == h
  {
    forall r | 0 <= r < n
      ensures g[r] == h[r]
    {
      forall c | 0 <= c < n
        ensures g[r][c] == h[r][c]
      {
        assert At(g, n, Cell(r, c)) == At(h, n, Cell(r, c));
      }
    }
  }

  /** The exchange of two cells' contents performed at the end of
      `UpdatePieceReference`: first cell `a` receives `b`'s piece, then cell
      `b` receives `a`'s former piece. */
  function Exchange(g: Grid, n: nat, a: Cell, b: Cell): (r: Grid)
    requires Shaped(g, n) && InRange(n, a) && InRange(n, b)
    ensures Shaped(r, n)
    ensures At(r, n, a) == At(g, n, b) && At(r, n, b) == At(g, n, a)
    ensures forall x :: InRange(n, x) && x != a && x != b ==> At(r, n, x) == At(g, n, x)
  {
    var pa := At(g, n, a);
    var pb := At(g, n, b);
    Put(Put(g, n, a, pb), n, b, pa)
  }

  /** Exchanging a cell with itself changes nothing. */
  lemma ExchangeSelf(g: Grid, n: nat, a: Cell)
    requires Shaped(g, n) && InRange(n, a)
    ensures Exchange(g, n, a, a) == g
  {
    GridExtensionality(Exchange(g, n, a, a), g, n);
  }

  /** The order of the two cells does not matter. */
  lemma ExchangeSymmetric(g: Grid, n: nat, a: Cell, b: Cell)
    requires Shaped(g, n) && InRange(n, a) && InRange(n, b)
    ensures Exchange(g, n, a, b) == Exchange(g, n, b, a)
  {
    GridExtensionality(Exchange(g, n, a, b), Exchange(g, n, b, a), n);
  }

  /** Exchanging the same two cells twice restores the grid. */
  lemma ExchangeInvolution(g: Grid, n: nat, a: Cell, b: Cell)
    requires Shaped(g, n) && InRange(n, a) && InRange(n, b)
    ensures Exchange(Exchange(g, n, a, b), n, a, b) == g
  {
    GridExtensionality(Exchange(Exchange(g, n, a, b), n, a, b), g, n);
  }

  /** An exchange keeps the grid a bijection. */
  lemma ExchangePreservesArrangement(g: Grid, n: nat, a: Cell, b: Cell)
    requires Arrangement(g, n) && InRange(n, a) && InRange(n, b)
    ensures Arrangement(Exchange(g, n, a, b), n)
  {
    ExchangeMovesPieces(g, n, a, b);
    ExchangeKeepsInjective(g, n, a, b);
    ExchangeKeepsSurjective(g, n, a, b);
  }

  /** Each cell of the exchanged grid holds what g had at its swapped cell. */
  lemma ExchangeMovesPieces(g: Grid, n: nat, a: Cell, b: Cell)
    requires Shaped(g, n) && InRange(n, a) && InRange(n, b)
    ensures forall x :: InRange(n, x) ==> At(Exchange(g, n, a, b), n, x) == At(g, n, Swapped(x, a, b))
    ensures AllValid(g, n) ==> AllValid(Exchange(g, n, a, b), n)
  {
  }

  lemma ExchangeKeepsInjective(g: Grid, n: nat, a: Cell, b: Cell)
    requires Shaped(g, n) && Injective(g, n) && InRange(n, a) && InRange(n, b)
    ensures Injective(Exchange(g, n, a, b), n)
  {
  }

  lemma ExchangeKeepsSurjective(g: Grid, n: nat, a: Cell, b: Cell)
    requires Shaped(g, n) && Surjective(g, n) && InRange(n, a) && InRange(n, b)
    ensures Surjective(Exchange(g, n, a, b), n)
  {
  }

  /** Where the exchange of a and b sends cell x (the exchange is its own
      inverse, so this is also where x's new piece came from). */
  function Swapped(x: Cell, a: Cell, b: Cell): Cell {
    if x == a then b else if x == b then a else x
  }

  /** When the two cells hold different pieces, an exchange changes exactly
      those two cells. */
  lemma ExchangeChangesExactly(g: Grid, n: nat, a: Cell, b: Cell, x: Cell)
    requires Shaped(g, n) && InRange(n, a) && InRange(n, b) && InRange(n, x)
    requires At(g, n, a) != At(g, n, b)
    ensures At(Exchange(g, n, a, b), n, x) != At(g, n, x) <==> x == a || x == b
  {
  }

  /** Two exchanges of distinct pieces in a bijective grid have the same effect
      exactly when they exchange the same pair of cells. */
  lemma ExchangeSameIff(g: Grid, n: nat, a: Cell, b: Cell, c: Cell, d: Cell)
    requires Arrangement(g, n)
    requires InRange(n, a) && InRange(n, b) && InRange(n, c) && InRange(n, d)
    requires a != b && c != d
    ensures Exchange(g, n, a, b) == Exchange(g, n, c, d) <==> (a == c && b == d) || (a == d && b == c)
  {
    if Exchange(g, n, a, b) == Exchange(g, n, c, d) {
      ExchangeChangesExactly(g, n, a, b, c);
      ExchangeChangesExactly(g, n, c, d, c);
      ExchangeChangesExactly(g, n, a, b, d);
      ExchangeChangesExactly(g, n, c, d, d);
      ExchangeChangesExactly(g, n, a, b, a);
      ExchangeChangesExactly(g, n, c, d, a);
    } else if a == d && b == c {
      ExchangeSymmetric(g, n, a, b);
    }
  }

  /** Applies a sequence of exchanges in order. */
  function ExchangeAll(g: Grid, n: nat, swaps: seq<(Cell, Cell)>): Grid
    requires Shaped(g, n)
    requires forall i :: 0 <= i < |swaps| ==> InRange(n, swaps[i].0) && InRange(n, swaps[i].1)
    decreases |swaps|
  {
    if |swaps| == 0 then g
    else ExchangeAll(Exchange(g, n, swaps[0].0, swaps[0].1), n, swaps[1..])
  }

  /** The grid stays a bijection across any sequence of exchanges. */
  lemma {:induction false} ExchangeAllPreservesArrangement(g: Grid, n: nat, swaps: seq<(Cell, Cell)>)
    requires Arrangement(g, n)
    requires forall i :: 0 <= i < |swaps| ==> InRange(n, swaps[i].0) && InRange(n, swaps[i].1)
    ensures Arrangement(ExchangeAll(g, n, swaps), n)
    decreases |swaps|
  {
    if |swaps| > 0 {
      ExchangePreservesArrangement(g, n, swaps[0].0, swaps[0].1);
      ExchangeAllPreservesArrangement(Exchange(g, n, swaps[0].0, swaps[0].1), n, swaps[1..]);
    }
  }

  /** The board as first built is a bijection. */
  lemma IdentityIsArrangement(g: Grid, n: nat)
    requires Shaped(g, n) && IsIdentity(g, n)
    ensures Arrangement(g, n)
  {
    forall t | ValidTile(n, t)
      ensures exists x :: InRange(n, x) && At(g, n, x) == t
    {
      assert At(g, n, Home(t)) == t;
    }
  }
}
