# Squares pool: ownership grid and game-state rules

This project models the core of a "squares" pool web application written in
Python. Players claim cells of a shared 10 x 10 grid. Rows and columns later
receive drawn digits, and each digit pair decides the winner of one scoring
period. Two parts of the application are modelled, and the model proves
properties of both.

- **The name grid** (`game.py`, class `NameGrid`). This is an 11 x 11 table of
  strings. Row 0 and column 0 hold the drawn digits. Cells (1..10, 1..10)
  hold owner names. It is modelled as the class `Game.NameGrid` over an
  `array2<string>`. Its writers range-check their coordinates, and
  `is_complete` scans the owner cells.
- **The game-state rules** (`app.py`). These are the request handlers that
  read and write the `games`, `claims` and `players` tables of one game. They
  are modelled as the class `Handlers.Pool`:
  - `claims` is a map from cell to owner. The table's unique constraint on
    (game, row, col) becomes the map's single value per key.
  - `players` is a map from name to (phone, banned flag, bonus claims).
  - The fields of the `games` row are fields of the class.

  Each handler becomes a method: claim, lock/unlock, remove, ban, approve a
  request, release numbers, generate numbers, join, and the grid projection of
  `build_grid_from_db`. The decisions inside the handlers are pure functions
  in module `Rules`. These are the lock predicate, number storage, the claim
  checks and the join-name rules. Module `Board` holds the table-level
  operations and their lemmas: the VOID fill of a lock, the VOID delete of an
  unlock, and the ban cascade.

The clock is an integer `now`. `datetime.fromisoformat` is a parameter
`parse: string -> Option<int>`, which yields `None` where Python raises
`ValueError`. The random digits are parameters: `rowDraw`/`colDraw` for
`secrets.randbelow(10)`, and `colDraws`/`rowDraws` for `random.randint(0, 9)`.
Each is ten values in 0..9.

The object invariant `Handlers.Pool.Valid` is kept by every handler. It says:

- every claimed cell lies on the grid;
- the two number lists are both empty or both ten digits long;
- `is_complete` is set exactly when all 100 cells are owned.

The source never states the last point. It follows from the handlers, because
each handler that shrinks the table clears the flag below 100, and each one
that can reach 100 sets it.

In several places the source differs from what the usual rules of a squares
pool would lead a reader to expect. The model follows the source:

- Generated numbers are ten independent draws of 0..9, not permutations, so a
  digit may repeat (app.py:287-288, game.py:17, game.py:19).
- `NameGrid.is_complete` is true as soon as any single owner cell is
  non-empty (`any`, game.py:38-42).
- A passed `lock_at` only makes `is_game_locked` answer true. It does not fill
  empty cells with VOID, and it does not set `is_locked` (app.py:265-274).
- Unlock leaves `lock_at` as it was (app.py:1135-1145). After an unlock of a
  game whose `lock_at` has passed, `is_game_locked` is still true, so the
  next claim is refused as locked (`Handlers.UnlockThenClaim`). Such a game
  cannot be reopened.
- An approval grants `max_claims` extra squares, or 5 when claims are
  unlimited. It does not grant one (app.py:1069).
- The source has no live-score feed, no period resolution and no record of
  notified periods.

## Model

| member | source | states |
|---|---|---|
| `Game.NameGrid.constructor` | game.py:11-13 | All 121 cells are the empty string and `numbersGenerated` is false |
| `Game.DigitText` | game.py:17 | `str` of a draw is one character '0'..'9' whose value is the draw |
| `Game.NameGrid.GenerateNumbers` | game.py:15-20 | Column headers (0, 1..10) get the first ten draws and row headers (1..10, 0) the next ten; the corner and every owner cell are unchanged; `numbersGenerated` becomes true |
| `Game.NameGrid.AddName` | game.py:22-26 | Returns true iff row and col are in 1..10; in range it writes `name` into exactly that cell, overwriting any owner; out of range no cell changes; headers are never written |
| `Game.NameGrid.ClearCell` | game.py:28-32 | Returns true iff in range; in range exactly that cell becomes ""; out of range nothing changes |
| `Game.NegativeIndexAliases` | game.py:34-35 | `get_cell` reaches cell (r, c) also as (r - 11, c - 11), (r - 11, c) and (r, c - 11): a negative index counts back from the end, as Python list indexing does |
| `Game.AddThenClear` | game.py:22-35 | After `add_name(r, c, n)` in range, `get_cell(r, c)` returns `n`; after a later `clear_cell(r, c)` it returns ""; no other cell changes |
| `Game.NameGrid.IsComplete` | game.py:37-42 | True iff some cell with row and col in 1..10 is non-empty; header cells never matter |
| `Board.GridSize` | app.py:1151-1152 | The cells (1..10) x (1..10) are exactly 100 |
| `Board.ClaimCountBounded` | app.py:68 | With one owner per cell and every cell on the grid, the table holds at most 100 claims |
| `Board.FullTableCoversGrid` | app.py:718-722 | A table on the grid with 100 claims owns every one of the 100 cells |
| `Board.OwnedAfterClaim` | app.py:696-711 | Inserting a free cell for a player adds exactly that cell to the cells the per-player COUNT counts |
| `Board.OwnedOthersAfterClaim` | app.py:706-711 | A claim by one player leaves every other player's cells unchanged |
| `Board.FillVoidCoversGrid` | app.py:1149-1158 | After the lock fill every grid cell is owned and the table holds exactly 100 claims |
| `Board.FillVoidKeepsOwners` | app.py:1153-1156 | The fill (`ON CONFLICT DO NOTHING`) keeps every existing owner and writes only VOID |
| `Board.FillVoidIdempotent` | app.py:1345-1353 | Filling a filled table changes nothing |
| `Board.DropVoidExact` | app.py:1137-1140 | The unlock delete removes exactly the VOID-owned cells and keeps every other claim with its owner |
| `Board.DropVoidUndoesFill` | app.py:1135-1158 | Unlock after lock restores a table that held no VOID cell |
| `Board.DropOwnerExact` | app.py:1012-1015 | The ban cascade removes exactly the banned player's cells and keeps the rest |
| `Rules.LockIsMonotoneInTime` | app.py:265-274 | Once `is_game_locked` holds at some time, it holds at every later time |
| `Rules.StoredNumbersIdempotent` | app.py:282-285 | A second generation returns the first result unchanged, whatever it would draw |
| `Rules.StoredNumbersShape` | app.py:287-294 | After generation both lists have ten elements, each a digit 0..9 |
| `Rules.ClaimedIff` | app.py:673-716 | A claim succeeds iff the game is not locked, row and col are in 1..10, the player is not banned, the quota (if `max_claims > 0`) is not reached, and the cell is free |
| `Rules.OwnedCellNeverClaimed` | app.py:706-716 | A claim on an owned cell never succeeds |
| `Rules.ClaimStaysWithinAllowance` | app.py:692-703 | With `max_claims > 0`, a successful claim leaves the player with at most `max_claims + bonus_claims` cells |
| `Rules.ApprovalBonus` | app.py:1069 | An approval grants a positive number of extra squares |
| `Rules.ApprovalReopensQuota` | app.py:1069-1073 | A player refused at the limit has the same claim accepted after one approval |
| `Rules.Digits` | app.py:600 | The digit filter keeps only digits, never lengthens, and keeps an all-digit string as is |
| `Rules.DigitsOfChar` | app.py:600 | One character passes the filter exactly when it is a digit |
| `Rules.DigitsConcat` | app.py:600 | Filtering a concatenation is concatenating the filtered parts, so every digit of the phone is kept, in order |
| `Rules.Last4` | app.py:601 | At most four digits, exactly four when the phone has that many, and a suffix of the phone's digits |
| `Rules.ReservedNames` | app.py:590-592 | `name.upper() == "VOID"` holds exactly for the case mixes of "void" (with the dotless i for i) |
| `Rules.DisambiguatedNotVoid` | app.py:623 | A name with the phone digits appended is never "VOID" |
| `Rules.JoinInsertsFreshName` | app.py:603-645 | Join inserts only a name no player row holds, so the unique constraint is never hit; a rejoin is to an existing, unbanned row |
| `Rules.JoinedNameShape` | app.py:584-655 | The name a player gets is their own, or their own plus " (last4)" when the name was taken; never "VOID"; 1 to 27 characters |
| `Handlers.Pool.constructor` | app.py:407-411 | A new game has no claims or players, no numbers, is unlocked and incomplete |
| `Handlers.Pool.GenerateAndStoreNumbers` | app.py:277-294 | Returns and keeps the stored lists when both are non-empty; otherwise stores and returns the two ten-digit draws |
| `Handlers.Pool.Claim` | app.py:662-726 | Outcome follows the checks in order (locked, range, banned, quota, taken); only `Claimed` changes the table, binding just that cell; if the insert was attempted and 100 claims exist, numbers are generated if absent and the game is complete; at most 100 claims |
| `Handlers.Pool.Lock` | app.py:1148-1161 | Every free cell becomes VOID, owned cells are untouched, and `is_locked` and `is_complete` are set with exactly 100 claims |
| `Handlers.Pool.Unlock` | app.py:1135-1147 | Exactly the VOID cells are deleted; `is_locked` is cleared; `is_complete` is cleared when fewer than 100 claims remain |
| `Handlers.Pool.ToggleLock` | app.py:1124-1163 | The stored flag chooses unlock or lock; `lock_at` is never changed |
| `Handlers.UnlockThenClaim` | app.py:1135-1145 | Unlocking a game whose `lock_at` parses to an instant the clock has passed clears `is_locked`, deletes only the VOID cells and keeps `lock_at`, so the game still counts as locked and the next claim is refused as locked |
| `Handlers.Pool.Remove` | app.py:1189-1209 | Deletes the claim at (row, col) if any, with no range or lock check; `is_complete` is cleared below 100 |
| `Handlers.Pool.Ban` | app.py:996-1025 | An empty name changes nothing; otherwise the player's row (if any) is banned, all their claims are deleted, and `is_complete` is cleared below 100 |
| `Handlers.Pool.ApproveRequest` | app.py:1050-1077 | An empty name changes nothing; otherwise the player's bonus grows by `max_claims`, or by 5 when unlimited |
| `Handlers.Pool.Release` | app.py:1102-1120 | Numbers are generated if absent and marked released |
| `Handlers.Pool.Join` | app.py:573-655 | Outcome is the join decision; only a `Joined` outcome inserts a new, unbanned, bonus-free row under a name not yet taken |
| `Handlers.Pool.BuildGrid` | app.py:210-235 | A fresh grid with the stored digits in the headers (when both lists exist) and each claim's owner in its cell; every other cell is empty |

`superadmin_lock` (app.py:1320-1358) runs the same two branches as
`admin_lock`. `Handlers.Pool.ToggleLock` stands for both.

## Left out

- Flask routing, templates, flash messages and redirects, sessions and cookies, CSRF, rate limiting, and the admin and superadmin password checks. These are web plumbing with no rule to state.
- Looking up a missing game (404) and the "not joined yet" redirect. The model is one existing game, and the claimant's name is a parameter.
- Form parsing. Inputs are taken after `.strip()`. A `row`/`col` that is not an integer (Python `None`, which `claim_spot` reports as an invalid spot) is not modelled; the model takes integers.
- psycopg2 connections, the schema and migrations, and database concurrency. The unique constraint is modelled only as a sequential insert-if-absent on a map. The `UniqueViolation` path of `join_game` is unreachable sequentially (`Rules.JoinInsertsFreshName`).
- `send_discord_notification`. It is fire-and-forget HTTP with swallowed errors.
- `export_grid_to_pdf` and `NameGrid.__str__`. These are PDF drawing, file I/O and text layout.
- Randomness and the clock. They are parameters. Comparing a naive `now` with a timezone-aware `lock_at` raises `TypeError` in Python; the model's `parse` yields plain instants, so it does not capture that.
- `Rules.Digits`: `str.isdigit` also accepts non-ASCII digits; the model accepts only '0'..'9'.
- `Rules.ReservedNames`: `str.upper` is modelled only for ASCII letters and the dotless i. No other character upper-cases to a letter of "VOID".
- `Handlers.Pool.ApproveRequest`: `max_claims` and `bonus_claims` are 32-bit PostgreSQL `INTEGER` columns. An approval whose new bonus would pass 2^31-1 fails in the database with "integer out of range". Nothing is committed, not even the request's status change, and the request ends in a server error. The model's `int` is unbounded, so it stores the larger sum and reports the grant.
- `Game.NameGrid.GetCell`: indices outside -11..10 raise `IndexError` in Python; the model requires them in range.
- The `claimed_at` and `joined_at` timestamps, the square-request status rows (only the approved bonus amount is modelled), chat messages, phone recovery, unban, deny, the player and admin listings, game-creation validation, and the superadmin shutdown cascade. These are storage CRUD with no rule to prove.
