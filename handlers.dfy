/**
 * The state one game keeps in app.py's three tables (its `games` row, its
 * `claims` rows and its `players` rows) and the request handlers that change
 * it, each as a method. Web plumbing (sessions, redirects, flash messages,
 * notifications) is not part of the model; each method returns the outcome
 * the handler reports.
 */
module Handlers {
  import opened Wrappers
  import opened Game
  import opened Board
  import opened Rules

  class Pool {
    // the `claims` rows: cell -> player_name
    var claims: Claims
    // the `players` rows: player_name -> (phone, is_banned, bonus_claims)
    var players: map<string, Player>
    // the `games` row
    var isLocked: bool
    var isComplete: bool
    var lockAt: string
    var rowNumbers: seq<Digit>
    var colNumbers: seq<Digit>
    var numbersReleased: bool
    var maxClaims: int

    /** The number lists are both empty or both ten digits long. */
    ghost predicate NumbersValid()
      reads this
    {
      |rowNumbers| == |colNumbers| && (|rowNumbers| == 0 || |rowNumbers| == 10)
    }

    /**
     * Every claimed cell is on the grid, the numbers are well formed, and the
     * completion flag is set exactly when all 100 cells are owned.
     */
    ghost predicate Valid()
      reads this
    {
      OnGrid(claims) && NumbersValid() && (isComplete <==> |claims| == 100)
    }

    /** `is_game_locked` on this game's row. */
    predicate LockedAt(now: int, parse: IsoParser)
      reads this
    {
      IsGameLocked(isLocked, lockAt, now, parse)
    }

    /** A game as `create_game` inserts it: no claims, no players, no numbers, open. */
    constructor (lockAt: string, maxClaims: int)
      ensures Valid()
      ensures claims == map[] && players == map[]
      ensures !isLocked && !isComplete && !numbersReleased
      ensures rowNumbers == [] && colNumbers == []
      ensures this.lockAt == lockAt && this.maxClaims == maxClaims
    {
      claims := map[];
      players := map[];
      isLocked := false;
      isComplete := false;
      this.lockAt := lockAt;
      rowNumbers := [];
      colNumbers := [];
      numbersReleased := false;
      this.maxClaims := maxClaims;
    }

    /**
     * `generate_and_store_numbers`: keeps and returns the stored lists when
     * both are present, otherwise stores and returns the ten-digit draws.
     */
    method GenerateAndStoreNumbers(rowDraw: seq<Digit>, colDraw: seq<Digit>) returns (rows: seq<Digit>, cols: seq<Digit>)
      requires NumbersValid()
      requires |rowDraw| == 10 && |colDraw| == 10
      modifies this`rowNumbers, this`colNumbers
      ensures NumbersValid()
      ensures (rows, cols) == StoredNumbers(old(rowNumbers), old(colNumbers), rowDraw, colDraw)
      ensures rowNumbers == rows && colNumbers == cols
      ensures |rows| == 10 && |cols| == 10
      ensures old(rowNumbers) != [] && old(colNumbers) != [] ==> rows == old(rowNumbers) && cols == old(colNumbers)
    {
      if rowNumbers != [] && colNumbers != [] {
        return rowNumbers, colNumbers;
      }
      rowNumbers, colNumbers := rowDraw, colDraw;
      return rowDraw, colDraw;
    }

    /**
     * `claim_spot`: the checks of ClaimVerdict in order; on success the cell is
     * bound to the player, an owned cell keeps its owner. Whenever the insert
     * was attempted and the table then holds 100 claims, numbers are generated
     * (if absent) and the game is marked complete.
     */
    method Claim(name: string, row: int, col: int, now: int, parse: IsoParser,
                 rowDraw: seq<Digit>, colDraw: seq<Digit>) returns (outcome: ClaimOutcome)
      requires Valid()
      requires |rowDraw| == 10 && |colDraw| == 10
      modifies this`claims, this`isComplete, this`rowNumbers, this`colNumbers
      ensures Valid()
      ensures outcome == ClaimVerdict(old(LockedAt(now, parse)), row, col, PlayerRow(old(players), name),
                                      old(maxClaims), |Owned(old(claims), name)|, Cell(row, col) in old(claims))
      ensures claims == if outcome == Claimed then old(claims)[Cell(row, col) := name] else old(claims)
      ensures |claims| <= 100
      ensures (outcome == Claimed || outcome == AlreadyTaken) && |claims| >= 100 ==>
                isComplete && (rowNumbers, colNumbers) == StoredNumbers(old(rowNumbers), old(colNumbers), rowDraw, colDraw)
      ensures !((outcome == Claimed || outcome == AlreadyTaken) && |claims| >= 100) ==>
                isComplete == old(isComplete) && rowNumbers == old(rowNumbers) && colNumbers == old(colNumbers)
    {
      ClaimCountBounded(claims);
      if LockedAt(now, parse) {
        return GameLocked;
      }
      if !InRange(row, col) {
        return InvalidSpot;
      }
      var player := PlayerRow(players, name);
      if player.Some? && player.value.isBanned {
        return Removed;
      }
      if maxClaims > 0 {
        var allowed := Allowance(maxClaims, player);
        var mine := |Owned(claims, name)|;
        if mine >= allowed {
          return LimitReached(allowed);
        }
      }
      var cell := Cell(row, col);
      if cell in claims {
        outcome := AlreadyTaken;
      } else {
        claims := claims[cell := name];
        outcome := Claimed;
      }
      assert cell in GridCells();
      ClaimCountBounded(claims);
      if |claims| >= 100 {
        var _, _ := GenerateAndStoreNumbers(rowDraw, colDraw);
        isComplete := true;
      }
    }

    /**
     * The lock branch of `admin_lock` / `superadmin_lock`: for each of the 100
     * cells in row-major order, insert VOID unless the cell is owned; then set
     * `is_locked` and `is_complete`.
     */
    method Lock()
      requires Valid()
      modifies this`claims, this`isLocked, this`isComplete
      ensures Valid()
      ensures claims == FillVoid(old(claims))
      ensures isLocked && isComplete && |claims| == 100
    {
      var start := claims;
      FillVoidCoversGrid(start);
      var m := start;
      for r := 1 to 11
        invariant forall k :: k in start ==> k in m && m[k] == start[k]
        invariant forall k :: k in m && k !in start ==> m[k] == Void && Before(k, r, 1)
        invariant forall k :: Before(k, r, 1) ==> k in m
      {
        m := FillRow(start, m, r);
      }
      FilledIsFillVoid(start, m);
      claims := m;
      isLocked, isComplete := true, true;
    }

    /** One pass of the inner `for c in range(1, 11)` loop of the lock fill. */
    static method FillRow(start: Claims, m: Claims, r: int) returns (m': Claims)
      requires 1 <= r <= 10
      requires forall k :: k in start ==> k in m && m[k] == start[k]
      requires forall k :: k in m && k !in start ==> m[k] == Void && Before(k, r, 1)
      requires forall k :: Before(k, r, 1) ==> k in m
      ensures forall k :: k in start ==> k in m' && m'[k] == start[k]
      ensures forall k :: k in m' && k !in start ==> m'[k] == Void && Before(k, r + 1, 1)
      ensures forall k :: Before(k, r + 1, 1) ==> k in m'
    {
      m' := m;
      for c := 1 to 11
        invariant forall k :: k in start ==> k in m' && m'[k] == start[k]
        invariant forall k :: k in m' && k !in start ==> m'[k] == Void && Before(k, r, c)
        invariant forall k :: Before(k, r, c) ==> k in m'
      {
        if Cell(r, c) !in m' {
          m' := m'[Cell(r, c) := Void];
        }
      }
    }

    /**
     * The unlock branch: delete the VOID cells, clear `is_locked`, and clear
     * `is_complete` when fewer than 100 claims remain. `lock_at` is kept.
     */
    method Unlock()
      requires Valid()
      modifies this`claims, this`isLocked, this`isComplete
      ensures Valid()
      ensures claims == DropVoid(old(claims))
      ensures !isLocked
      ensures isComplete == (old(isComplete) && |claims| >= 100)
    {
      ClaimCountBounded(claims);
      claims := DropVoid(claims);
      isLocked := false;
      SubsetSize(claims.Keys, old(claims).Keys);
      if |claims| < 100 {
        isComplete := false;
      }
    }

    /**
     * `admin_lock` and `superadmin_lock`: the stored flag (not the scheduled
     * instant) chooses between unlocking and locking. Neither branch touches
     * `lock_at`, so a passed schedule keeps the game locked after an unlock.
     */
    method ToggleLock()
      requires Valid()
      modifies this`claims, this`isLocked, this`isComplete
      ensures Valid()
      ensures isLocked == !old(isLocked)
      ensures old(isLocked) ==> claims == DropVoid(old(claims)) && isComplete == (old(isComplete) && |claims| >= 100)
      ensures !old(isLocked) ==> claims == FillVoid(old(claims)) && isComplete && |claims| == 100
      ensures lockAt == old(lockAt)
    {
      if isLocked {
        Unlock();
      } else {
        Lock();
      }
    }

    /**
     * `admin_remove`: deletes whatever claim sits at (row, col), real or
     * VOID, with no range or lock check; clears `is_complete` below 100.
     */
    method Remove(row: int, col: int)
      requires Valid()
      modifies this`claims, this`isComplete
      ensures Valid()
      ensures claims == old(claims) - {Cell(row, col)}
      ensures isComplete == (old(isComplete) && |claims| >= 100)
    {
      ClaimCountBounded(claims);
      claims := claims - {Cell(row, col)};
      assert claims.Keys <= old(claims).Keys;
      SubsetSize(claims.Keys, old(claims).Keys);
      if |claims| < 100 {
        isComplete := false;
      }
    }

    /**
     * `admin_ban`: an empty name is a bad request. Otherwise the player's row
     * (if any) is marked banned, all their claims are deleted, and
     * `is_complete` is cleared below 100.
     */
    method Ban(name: string) returns (ok: bool)
      requires Valid()
      modifies this`players, this`claims, this`isComplete
      ensures Valid()
      ensures ok == (name != "")
      ensures !ok ==> players == old(players) && claims == old(claims) && isComplete == old(isComplete)
      ensures ok ==> players == if name in old(players)
                                then old(players)[name := old(players)[name].(isBanned := true)]
                                else old(players)
      ensures ok ==> claims == DropOwner(old(claims), name)
      ensures ok ==> isComplete == (old(isComplete) && |claims| >= 100)
    {
      if name == "" {
        return false;
      }
      if name in players {
        players := players[name := players[name].(isBanned := true)];
      }
      ClaimCountBounded(claims);
      claims := DropOwner(claims, name);
      SubsetSize(claims.Keys, old(claims).Keys);
      if |claims| < 100 {
        isComplete := false;
      }
      return true;
    }

    /**
     * `admin_approve_request`: an empty name is a bad request; otherwise the
     * player's bonus grows by ApprovalBonus (a missing row is left alone).
     */
    method ApproveRequest(name: string) returns (granted: Option<int>)
      requires Valid()
      modifies this`players
      ensures Valid()
      ensures name == "" ==> granted == None && players == old(players)
      ensures name != "" ==> granted == Some(ApprovalBonus(maxClaims))
      ensures name != "" ==> players == if name in old(players)
                                        then old(players)[name := old(players)[name].(bonusClaims := old(players)[name].bonusClaims + ApprovalBonus(maxClaims))]
                                        else old(players)
    {
      if name == "" {
        return None;
      }
      var bonus := ApprovalBonus(maxClaims);
      if name in players {
        players := players[name := players[name].(bonusClaims := players[name].bonusClaims + bonus)];
      }
      return Some(bonus);
    }

    /** `admin_release`: generate the numbers if absent, then mark them released. */
    method Release(rowDraw: seq<Digit>, colDraw: seq<Digit>)
      requires Valid()
      requires |rowDraw| == 10 && |colDraw| == 10
      modifies this`rowNumbers, this`colNumbers, this`numbersReleased
      ensures Valid()
      ensures numbersReleased
      ensures (rowNumbers, colNumbers) == StoredNumbers(old(rowNumbers), old(colNumbers), rowDraw, colDraw)
      ensures |rowNumbers| == 10 && |colNumbers| == 10
    {
      var _, _ := GenerateAndStoreNumbers(rowDraw, colDraw);
      numbersReleased := true;
    }

    /**
     * The POST branch of `join_game`: decide by JoinVerdict and insert a fresh
     * `players` row (not banned, no bonus, the raw phone) when it says Joined.
     */
    method Join(name: string, phone: string, now: int, parse: IsoParser) returns (outcome: JoinOutcome)
      requires Valid()
      modifies this`players
      ensures Valid()
      ensures outcome == JoinVerdict(old(LockedAt(now, parse)), old(players), name, phone)
      ensures outcome.Joined? ==> outcome.name !in old(players) &&
                                  players == old(players)[outcome.name := Player(phone, false, 0)]
      ensures !outcome.Joined? ==> players == old(players)
    {
      outcome := JoinVerdict(LockedAt(now, parse), players, name, phone);
      JoinInsertsFreshName(LockedAt(now, parse), players, name, phone);
      if outcome.Joined? {
        players := players[outcome.name := Player(phone, false, 0)];
      }
    }

    /**
     * The projection of `build_grid_from_db`: a fresh NameGrid whose headers
     * hold the stored digits when both lists are present and whose owner
     * cells hold the claims; every other cell is empty.
     */
    method BuildGrid() returns (g: NameGrid)
      requires Valid()
      ensures fresh(g) && fresh(g.cells) && g.Valid()
      ensures g.numbersGenerated == (rowNumbers != [] && colNumbers != [])
      ensures g.cells[0, 0] == ""
      ensures forall r, c :: InRange(r, c) ==>
                g.cells[r, c] == if Cell(r, c) in claims then claims[Cell(r, c)] else ""
      ensures g.numbersGenerated ==> forall i :: 1 <= i <= 10 ==>
                g.cells[0, i] == DigitText(colNumbers[i - 1]) && g.cells[i, 0] == DigitText(rowNumbers[i - 1])
      ensures !g.numbersGenerated ==> forall i :: 1 <= i <= 10 ==> g.cells[0, i] == "" && g.cells[i, 0] == ""
    {
      g := new NameGrid();
      if colNumbers != [] && rowNumbers != [] {
        for i := 0 to 10
          invariant fresh(g) && fresh(g.cells) && g.Valid()
          invariant forall j :: 1 <= j <= i ==> g.cells[0, j] == DigitText(colNumbers[j - 1])
          invariant forall r, c :: 0 <= r < Size && 0 <= c < Size && !(r == 0 && 1 <= c <= i) ==> g.cells[r, c] == ""
        {
          g.cells[0, i + 1] := DigitText(colNumbers[i]);
        }
        for i := 0 to 10
          invariant fresh(g) && fresh(g.cells) && g.Valid()
          invariant forall j :: 1 <= j <= 10 ==> g.cells[0, j] == DigitText(colNumbers[j - 1])
          invariant forall j :: 1 <= j <= i ==> g.cells[j, 0] == DigitText(rowNumbers[j - 1])
          invariant forall r, c :: 1 <= r < Size && 0 <= c < Size && !(c == 0 && r <= i) ==> g.cells[r, c] == ""
          invariant g.cells[0, 0] == ""
        {
          g.cells[i + 1, 0] := DigitText(rowNumbers[i]);
        }
        g.numbersGenerated := true;
      }
      var rest := claims.Keys;
      while rest != {}
        invariant rest <= claims.Keys
        invariant fresh(g) && fresh(g.cells) && g.Valid() && g.numbersGenerated == (rowNumbers != [] && colNumbers != [])
        invariant forall r, c :: InRange(r, c) ==>
                    g.cells[r, c] == if Cell(r, c) in claims && Cell(r, c) !in rest then claims[Cell(r, c)] else ""
        invariant g.cells[0, 0] == ""
        invariant forall i :: 1 <= i <= 10 ==>
                    g.cells[0, i] == (if g.numbersGenerated then DigitText(colNumbers[i - 1]) else "")
        invariant forall i :: 1 <= i <= 10 ==>
                    g.cells[i, 0] == (if g.numbersGenerated then DigitText(rowNumbers[i - 1]) else "")
        decreases rest
      {
        var k :| k in rest;
        assert k in GridCells();
        g.cells[k.row, k.col] := claims[k];
        rest := rest - {k};
      }
    }
  }

  /**
   * Unlocking clears the stored flag but keeps `lock_at`: once the scheduled
   * instant has passed, the next claim is still refused as locked, so such a
   * game cannot be reopened for claims.
   */
  method UnlockThenClaim(p: Pool, name: string, row: int, col: int, now: int, parse: IsoParser, t: int,
                         rowDraw: seq<Digit>, colDraw: seq<Digit>) returns (outcome: ClaimOutcome)
    requires p.Valid() && p.isLocked
    requires p.lockAt != "" && parse(p.lockAt) == Some(t) && t <= now
    requires |rowDraw| == 10 && |colDraw| == 10
    modifies p
    ensures p.Valid() && !p.isLocked && p.lockAt == old(p.lockAt)
    ensures p.claims == DropVoid(old(p.claims))
    ensures p.LockedAt(now, parse)
    ensures outcome == GameLocked
  {
    p.ToggleLock();
    outcome := p.Claim(name, row, col, now, parse, rowDraw, colDraw);
  }
}
