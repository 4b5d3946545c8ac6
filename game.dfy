/**
 * The in-memory name grid of game.py: an 11 x 11 table of strings whose
 * row 0 and column 0 hold the drawn digits and whose cells (1..10, 1..10)
 * hold owner names.
 */
module Game {

  /** Number of rows (and of columns) of the table, headers included. */
  const Size: int := 11

  /** A value of `random.randint(0, 9)` or `secrets.randbelow(10)`. */
  type Digit = d: int | 0 <= d <= 9

  /** True for the ten owner rows and columns 1..10. */
  predicate InRange(row: int, col: int)
  {
    1 <= row <= 10 && 1 <= col <= 10
  }

  /** `str(d)` for a single digit. */
  function DigitText(d: Digit): (s: string)
    ensures |s| == 1 && '0' <= s[0] <= '9'
    ensures s[0] as int - '0' as int == d
  {
    [('0' as int + d) as char]
  }

  /** Python's index into a list of length 11: negative indices count from the end. */
  function PyIndex(i: int): (k: nat)
    requires -Size <= i < Size
    ensures k < Size
  {
    if i < 0 then i + Size else i
  }

  class NameGrid {
    var cells: array2<string>
    var numbersGenerated: bool

    ghost predicate Valid()
      reads this
    {
      cells.Length0 == Size && cells.Length1 == Size
    }

    /** Every one of the 121 cells is empty and no numbers have been drawn. */
    constructor ()
      ensures Valid() && fresh(cells)
      ensures !numbersGenerated
      ensures forall r, c :: 0 <= r < Size && 0 <= c < Size ==> cells[r, c] == ""
    {
      cells := new string[Size, Size]((r, c) => "");
      numbersGenerated := false;
    }

    /**
     * Writes one digit into each column header, then one into each row
     * header; `colDraws` are the first ten draws and `rowDraws` the next ten.
     * The corner and the owner cells are left alone.
     */
    method GenerateNumbers(colDraws: seq<Digit>, rowDraws: seq<Digit>)
      requires Valid()
      requires |colDraws| == 10 && |rowDraws| == 10
      modifies this`numbersGenerated, cells
      ensures Valid() && cells == old(cells)
      ensures numbersGenerated
      ensures forall i :: 1 <= i <= 10 ==> cells[0, i] == DigitText(colDraws[i - 1])
      ensures forall i :: 1 <= i <= 10 ==> cells[i, 0] == DigitText(rowDraws[i - 1])
      ensures cells[0, 0] == old(cells[0, 0])
      ensures forall r, c :: 1 <= r < Size && 1 <= c < Size ==> cells[r, c] == old(cells[r, c])
    {
      for col := 1 to 11
        invariant forall i :: 1 <= i < col ==> cells[0, i] == DigitText(colDraws[i - 1])
        invariant forall i :: col <= i < Size ==> cells[0, i] == old(cells[0, i])
        invariant forall r, c :: 0 <= r < Size && 0 <= c < Size && r != 0 ==> cells[r, c] == old(cells[r, c])
        invariant cells[0, 0] == old(cells[0, 0])
      {
        cells[0, col] := DigitText(colDraws[col - 1]);
      }
      for row := 1 to 11
        invariant forall i :: 1 <= i <= 10 ==> cells[0, i] == DigitText(colDraws[i - 1])
        invariant forall i :: 1 <= i < row ==> cells[i, 0] == DigitText(rowDraws[i - 1])
        invariant forall r, c :: 0 <= r < Size && 1 <= c < Size && r != 0 ==> cells[r, c] == old(cells[r, c])
        invariant cells[0, 0] == old(cells[0, 0])
      {
        cells[row, 0] := DigitText(rowDraws[row - 1]);
      }
      numbersGenerated := true;
    }

    /**
     * Out of range: refuses and changes nothing. In range: writes `name`
     * over whatever the cell held, and nothing else.
     */
    method AddName(row: int, col: int, name: string) returns (ok: bool)
      requires Valid()
      modifies cells
      ensures Valid() && cells == old(cells)
      ensures ok == InRange(row, col)
      ensures ok ==> cells[row, col] == name
      ensures forall r, c :: 0 <= r < Size && 0 <= c < Size && (!ok || (r, c) != (row, col)) ==>
                cells[r, c] == old(cells[r, c])
    {
      if !InRange(row, col) {
        return false;
      }
      cells[row, col] := name;
      return true;
    }

    /** Like AddName with the empty string as the name. */
    method ClearCell(row: int, col: int) returns (ok: bool)
      requires Valid()
      modifies cells
      ensures Valid() && cells == old(cells)
      ensures ok == InRange(row, col)
      ensures ok ==> cells[row, col] == ""
      ensures forall r, c :: 0 <= r < Size && 0 <= c < Size && (!ok || (r, c) != (row, col)) ==>
                cells[r, c] == old(cells[r, c])
    {
      if !InRange(row, col) {
        return false;
      }
      cells[row, col] := "";
      return true;
    }

    /** `get_cell`: an unchecked lookup; Python lets the indices be negative. */
    function GetCell(row: int, col: int): string
      requires Valid()
      requires -Size <= row < Size && -Size <= col < Size
      reads this, cells
    {
      cells[PyIndex(row), PyIndex(col)]
    }

    /**
     * `is_complete` scans the owner cells with `any`: it answers whether SOME
     * owner cell is non-empty. The header cells are never looked at.
     */
    method IsComplete() returns (some: bool)
      requires Valid()
      ensures some <==> exists r, c :: 1 <= r <= 10 && 1 <= c <= 10 && cells[r, c] != ""
    {
      var r := 1;
      while r <= 10
        invariant 1 <= r <= 11
        invariant forall r', c :: 1 <= r' < r && 1 <= c <= 10 ==> cells[r', c] == ""
      {
        var c := 1;
        while c <= 10
          invariant 1 <= c <= 11
          invariant forall c' :: 1 <= c' < c ==> cells[r, c'] == ""
        {
          if cells[r, c] != "" {
            return true;
          }
          c := c + 1;
        }
        r := r + 1;
      }
      return false;
    }
  }

  /**
   * `get_cell` reaches every cell under two names: a negative index counts
   * back from the end, so (r - 11, c - 11) is the same cell as (r, c).
   */
  lemma NegativeIndexAliases(g: NameGrid, r: int, c: int)
    requires g.Valid() && 0 <= r < Size && 0 <= c < Size
    ensures g.GetCell(r - Size, c - Size) == g.GetCell(r, c) == g.cells[r, c]
    ensures g.GetCell(r - Size, c) == g.GetCell(r, c - Size) == g.cells[r, c]
  {
  }

  /**
   * A cell written by `add_name` reads back as that name through `get_cell`,
   * and as the empty string once `clear_cell` has run on it.
   */
  method AddThenClear(g: NameGrid, row: int, col: int, name: string) returns (afterAdd: string, afterClear: string)
    requires g.Valid() && InRange(row, col)
    modifies g.cells
    ensures g.Valid()
    ensures afterAdd == name && afterClear == ""
    ensures forall r, c :: 0 <= r < Size && 0 <= c < Size && (r, c) != (row, col) ==>
              g.cells[r, c] == old(g.cells[r, c])
  {
    var ok := g.AddName(row, col, name);
    afterAdd := g.GetCell(row, col);
    ok := g.ClearCell(row, col);
    afterClear := g.GetCell(row, col);
  }
}
