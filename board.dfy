/**
 * The `claims` table of app.py for one game, as a map from cell to owner
 * name. The table's UNIQUE(game_id, row, col) constraint is what makes it a
 * map: a cell has at most one owner.
 */
module Board {

  /** The owner name that lock writes into every unclaimed cell. */
  const Void: string := "VOID"

  datatype Cell = Cell(row: int, col: int)

  type Claims = map<Cell, string>

  /** The 100 claimable cells (1..10) x (1..10). */
  function GridCells(): set<Cell>
  {
    set r, c | 1 <= r <= 10 && 1 <= c <= 10 :: Cell(r, c)
  }

  /** Cells (row, 1..n). */
  function RowPrefix(row: int, n: nat): set<Cell>
  {
    set c | 1 <= c <= n :: Cell(row, c)
  }

  /** Cells (1..n) x (1..10). */
  function RowsUpTo(n: nat): set<Cell>
  {
    set r, c | 1 <= r <= n && 1 <= c <= 10 :: Cell(r, c)
  }

  lemma {:induction false} RowPrefixSize(row: int, n: nat)
    ensures |RowPrefix(row, n)| == n
  {
    if n > 0 {
      RowPrefixSize(row, n - 1);
      assert RowPrefix(row, n) == RowPrefix(row, n - 1) + {Cell(row, n)};
    } else {
      assert RowPrefix(row, n) == {};
    }
  }

  lemma {:induction false} RowsUpToSize(n: nat)
    ensures |RowsUpTo(n)| == 10 * n
  {
    if n > 0 {
      RowsUpToSize(n - 1);
      RowPrefixSize(n, 10);
      assert RowsUpTo(n) == RowsUpTo(n - 1) + RowPrefix(n, 10);
      assert RowsUpTo(n - 1) !! RowPrefix(n, 10);
    } else {
      assert RowsUpTo(n) == {};
    }
  }

  /** The grid has exactly 100 cells. */
  lemma GridSize()
    ensures |GridCells()| == 100
  {
    RowsUpToSize(10);
    assert GridCells() == RowsUpTo(10);
  }

  lemma GridMembership(k: Cell)
    ensures k in GridCells() <==> 1 <= k.row <= 10 && 1 <= k.col <= 10
  {
  }

  /** Grid cell `k` comes before (r, c) in row-major order. */
  predicate Before(k: Cell, r: int, c: int)
  {
    1 <= k.row <= 10 && 1 <= k.col <= 10 && (k.row < r || (k.row == r && k.col < c))
  }

  /** Every claimed cell lies on the grid. */
  predicate OnGrid(m: Claims)
  {
    forall k :: k in m ==> k in GridCells()
  }

  /** A table whose cells all lie on the grid holds at most 100 claims. */
  lemma ClaimCountBounded(m: Claims)
    requires OnGrid(m)
    ensures |m| <= 100
  {
    GridSize();
    assert m.Keys <= GridCells();
    SubsetSize(m.Keys, GridCells());
  }

  lemma SubsetSize<T>(a: set<T>, b: set<T>)
    requires a <= b
    ensures |a| <= |b|
  {
    assert b == a + (b - a);
  }

  /** A table on the grid with 100 claims owns every grid cell. */
  lemma FullTableCoversGrid(m: Claims)
    requires OnGrid(m) && |m| == 100
    ensures m.Keys == GridCells()
  {
    GridSize();
    assert m.Keys <= GridCells();
    if m.Keys != GridCells() {
      var k :| k in GridCells() && k !in m.Keys;
      SubsetSize(m.Keys, GridCells() - {k});
      assert false;
    }
  }

  /** The cells `player` owns: `SELECT COUNT(*) FROM claims WHERE player_name = ...` counts them. */
  function Owned(m: Claims, player: string): set<Cell>
  {
    set k | k in m.Keys && m[k] == player
  }

  /** A successful claim of a free cell adds exactly that cell to the claimant's holdings. */
  lemma OwnedAfterClaim(m: Claims, cell: Cell, player: string)
    requires cell !in m
    ensures Owned(m[cell := player], player) == Owned(m, player) + {cell}
    ensures |Owned(m[cell := player], player)| == |Owned(m, player)| + 1
  {
    assert Owned(m[cell := player], player) == Owned(m, player) + {cell};
  }

  /** A claim by one player leaves every other player's holdings as they were. */
  lemma OwnedOthersAfterClaim(m: Claims, cell: Cell, player: string, other: string)
    requires cell !in m && other != player
    ensures Owned(m[cell := player], other) == Owned(m, other)
  {
  }

  /**
   * The lock fill: `INSERT ... 'VOID' ... ON CONFLICT DO NOTHING` for each of
   * the 100 cells. Owned cells keep their owner; every free cell gets VOID.
   */
  function FillVoid(m: Claims): Claims
  {
    map k | k in m.Keys + GridCells() :: if k in m then m[k] else Void
  }

  /** After the fill the grid is covered: all 100 cells are owned, none twice. */
  lemma FillVoidCoversGrid(m: Claims)
    requires OnGrid(m)
    ensures FillVoid(m).Keys == GridCells()
    ensures |FillVoid(m)| == 100
    ensures OnGrid(FillVoid(m))
  {
    assert FillVoid(m).Keys == GridCells();
    GridSize();
  }

  /** A table that keeps every owner and adds VOID exactly on the free grid cells is the fill. */
  lemma FilledIsFillVoid(start: Claims, m: Claims)
    requires forall k :: k in start ==> k in m && m[k] == start[k]
    requires forall k :: k in m && k !in start ==> m[k] == Void && Before(k, 11, 1)
    requires forall k :: Before(k, 11, 1) ==> k in m
    ensures m == FillVoid(start)
  {
    forall k
      ensures k in m <==> k in FillVoid(start)
    {
      GridMembership(k);
    }
    assert m.Keys == FillVoid(start).Keys;
  }

  /** The fill never overwrites an owner and writes nothing but VOID. */
  lemma FillVoidKeepsOwners(m: Claims)
    ensures forall k :: k in m ==> k in FillVoid(m) && FillVoid(m)[k] == m[k]
    ensures forall k :: k in FillVoid(m) && k !in m ==> FillVoid(m)[k] == Void
  {
  }

  /** Filling twice is filling once. */
  lemma FillVoidIdempotent(m: Claims)
    ensures FillVoid(FillVoid(m)) == FillVoid(m)
  {
    assert FillVoid(FillVoid(m)).Keys == FillVoid(m).Keys;
  }

  /** The unlock delete: `DELETE FROM claims WHERE player_name = 'VOID'`. */
  function DropVoid(m: Claims): Claims
  {
    map k | k in m.Keys && m[k] != Void :: m[k]
  }

  /** Unlock removes exactly the VOID cells and keeps every other claim as it was. */
  lemma DropVoidExact(m: Claims)
    ensures forall k :: k in DropVoid(m) <==> k in m && m[k] != Void
    ensures forall k :: k in DropVoid(m) ==> DropVoid(m)[k] == m[k]
    ensures Owned(DropVoid(m), Void) == {}
  {
  }

  /** Unlocking after locking restores a table that held no VOID cell. */
  lemma DropVoidUndoesFill(m: Claims)
    requires Owned(m, Void) == {}
    ensures DropVoid(FillVoid(m)) == m
  {
    forall k | k in m
      ensures m[k] != Void
    {
      assert k !in Owned(m, Void);
    }
    assert DropVoid(FillVoid(m)).Keys == m.Keys;
  }

  /** `DELETE FROM claims WHERE player_name = ...`: the ban cascade. */
  function DropOwner(m: Claims, player: string): Claims
  {
    map k | k in m.Keys && m[k] != player :: m[k]
  }

  /** The ban cascade removes exactly the player's cells. */
  lemma DropOwnerExact(m: Claims, player: string)
    ensures DropOwner(m, player).Keys == m.Keys - Owned(m, player)
    ensures forall k :: k in DropOwner(m, player) ==> DropOwner(m, player)[k] == m[k]
    ensures Owned(DropOwner(m, player), player) == {}
  {
  }
}
