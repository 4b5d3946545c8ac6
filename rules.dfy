/**
 * The decision rules of app.py's handlers, with the SQL taken out: the
 * time-based lock predicate, number storage, the claim checks and the
 * join-name rules. The clock is an integer `now`; `datetime.fromisoformat`
 * is the parameter `parse`, which yields None where Python raises ValueError.
 */
module Rules {
  import opened Wrappers
  import opened Game
  import opened Board

  type IsoParser = string -> Option<int>

  /** A row of the `players` table (the game id is implicit). */
  datatype Player = Player(phone: string, isBanned: bool, bonusClaims: int)

  /** The `players` row for a name, if there is one. */
  function PlayerRow(players: map<string, Player>, name: string): Option<Player>
  {
    if name in players then Some(players[name]) else None
  }

  // ----- is_game_locked -----------------------------------------------------

  /**
   * `is_game_locked`: the stored flag, or else a non-empty `lock_at` that
   * parses to an instant the clock has reached. Text that does not parse
   * leaves the game open.
   */
  predicate IsGameLocked(isLocked: bool, lockAt: string, now: int, parse: IsoParser)
  {
    if isLocked then true
    else if lockAt == "" then false
    else match parse(lockAt)
      case Some(t) => now >= t
      case None => false
  }

  /** Once the scheduled instant has been reached, the game stays locked as the clock moves on. */
  lemma LockIsMonotoneInTime(isLocked: bool, lockAt: string, now: int, later: int, parse: IsoParser)
    requires IsGameLocked(isLocked, lockAt, now, parse) && now <= later
    ensures IsGameLocked(isLocked, lockAt, later, parse)
  {
  }

  // ----- generate_and_store_numbers -----------------------------------------

  /**
   * What `generate_and_store_numbers` leaves stored (and returns): the stored
   * lists when both are non-empty, otherwise the fresh draws. The draws are
   * ten independent digits each, so a digit may repeat.
   */
  function StoredNumbers(rows: seq<Digit>, cols: seq<Digit>, rowDraw: seq<Digit>, colDraw: seq<Digit>): (seq<Digit>, seq<Digit>)
  {
    if rows != [] && cols != [] then (rows, cols) else (rowDraw, colDraw)
  }

  /** Generating a second time returns the first result and stores nothing new. */
  lemma StoredNumbersIdempotent(rows: seq<Digit>, cols: seq<Digit>,
                                rowDraw: seq<Digit>, colDraw: seq<Digit>,
                                rowDraw': seq<Digit>, colDraw': seq<Digit>)
    requires |rowDraw| == 10 && |colDraw| == 10
    ensures var first := StoredNumbers(rows, cols, rowDraw, colDraw);
            StoredNumbers(first.0, first.1, rowDraw', colDraw') == first
  {
  }

  /** Once generated, both lists have ten digits. */
  lemma StoredNumbersShape(rows: seq<Digit>, cols: seq<Digit>, rowDraw: seq<Digit>, colDraw: seq<Digit>)
    requires |rows| == |cols| && (|rows| == 0 || |rows| == 10)
    requires |rowDraw| == 10 && |colDraw| == 10
    ensures |StoredNumbers(rows, cols, rowDraw, colDraw).0| == 10
    ensures |StoredNumbers(rows, cols, rowDraw, colDraw).1| == 10
  {
  }

  // ----- claim_spot ---------------------------------------------------------

  datatype ClaimOutcome =
    | GameLocked          // "This game is locked."
    | InvalidSpot         // row or col outside 1..10
    | Removed             // the player is banned
    | LimitReached(allowed: int)
    | AlreadyTaken        // the insert hit the unique constraint
    | Claimed

  /** A missing `players` row counts as no bonus. */
  function Bonus(player: Option<Player>): int
  {
    if player.Some? then player.value.bonusClaims else 0
  }

  /** `max_claims + bonus_claims`; only consulted when `max_claims > 0`. */
  function Allowance(maxClaims: int, player: Option<Player>): int
  {
    maxClaims + Bonus(player)
  }

  /**
   * The checks of `claim_spot`, in the order the handler makes them:
   * lock, coordinates, ban, quota, then the insert-if-absent.
   * `owned` is the number of cells the player holds, `taken` whether the cell has an owner.
   */
  function ClaimVerdict(locked: bool, row: int, col: int, player: Option<Player>,
                        maxClaims: int, owned: nat, taken: bool): ClaimOutcome
  {
    if locked then GameLocked
    else if !InRange(row, col) then InvalidSpot
    else if player.Some? && player.value.isBanned then Removed
    else if maxClaims > 0 && owned >= Allowance(maxClaims, player) then LimitReached(Allowance(maxClaims, player))
    else if taken then AlreadyTaken
    else Claimed
  }

  /** A claim succeeds exactly when every check passes. */
  lemma ClaimedIff(locked: bool, row: int, col: int, player: Option<Player>,
                   maxClaims: int, owned: nat, taken: bool)
    ensures ClaimVerdict(locked, row, col, player, maxClaims, owned, taken) == Claimed <==>
              && !locked
              && InRange(row, col)
              && !(player.Some? && player.value.isBanned)
              && (maxClaims <= 0 || owned < maxClaims + Bonus(player))
              && !taken
  {
  }

  /** Any claim of an owned cell fails, whoever makes it. */
  lemma OwnedCellNeverClaimed(locked: bool, row: int, col: int, player: Option<Player>,
                              maxClaims: int, owned: nat)
    ensures ClaimVerdict(locked, row, col, player, maxClaims, owned, true) != Claimed
  {
  }

  /**
   * Under a quota, a successful claim leaves the claimant with at most their
   * allowance of cells.
   */
  lemma ClaimStaysWithinAllowance(m: Claims, row: int, col: int, name: string, player: Option<Player>,
                                  locked: bool, maxClaims: int)
    requires ClaimVerdict(locked, row, col, player, maxClaims, |Owned(m, name)|, Cell(row, col) in m) == Claimed
    requires maxClaims > 0
    ensures |Owned(m[Cell(row, col) := name], name)| <= Allowance(maxClaims, player)
  {
    OwnedAfterClaim(m, Cell(row, col), name);
  }

  // ----- admin_approve_request ----------------------------------------------

  /** The extra squares one approval grants: the base quota, or 5 when unlimited. */
  function ApprovalBonus(maxClaims: int): (bonus: int)
    ensures bonus > 0
  {
    if maxClaims > 0 then maxClaims else 5
  }

  /**
   * A player at their limit is refused, and after one approval the same claim
   * goes through: the allowance grows by the base quota, so by at least one.
   */
  lemma ApprovalReopensQuota(row: int, col: int, p: Player, maxClaims: int, owned: nat)
    requires InRange(row, col) && !p.isBanned && maxClaims > 0
    requires owned == Allowance(maxClaims, Some(p))
    ensures ClaimVerdict(false, row, col, Some(p), maxClaims, owned, false) == LimitReached(owned)
    ensures ClaimVerdict(false, row, col, Some(p.(bonusClaims := p.bonusClaims + ApprovalBonus(maxClaims))),
                         maxClaims, owned, false) == Claimed
  {
  }

  // ----- join_game: names and phone digits ----------------------------------

  /** `str.isdigit` on the ASCII digits. */
  predicate IsDigit(ch: char)
  {
    '0' <= ch <= '9'
  }

  /** `"".join(c for c in s if c.isdigit())` */
  function Digits(s: string): (d: string)
    ensures |d| <= |s|
    ensures forall i :: 0 <= i < |d| ==> IsDigit(d[i])
    ensures (forall i :: 0 <= i < |s| ==> IsDigit(s[i])) ==> d == s
  {
    if s == [] then []
    else if IsDigit(s[0]) then [s[0]] + Digits(s[1..])
    else Digits(s[1..])
  }

  /** One character: kept when it is a digit, dropped otherwise. */
  lemma DigitsOfChar(ch: char)
    ensures Digits([ch]) == if IsDigit(ch) then [ch] else []
  {
    assert [ch][1..] == [];
  }

  /** The filter works character by character: every digit is kept, in order. */
  lemma {:induction false} DigitsConcat(a: string, b: string)
    ensures Digits(a + b) == Digits(a) + Digits(b)
  {
    if a == [] {
      assert a + b == b;
    } else {
      var ab := a + b;
      assert ab != [] && ab[0] == a[0];
      assert ab[1..] == a[1..] + b;
      DigitsConcat(a[1..], b);
      if IsDigit(a[0]) {
        calc {
          Digits(ab);
          [a[0]] + Digits(a[1..] + b);
          [a[0]] + (Digits(a[1..]) + Digits(b));
          ([a[0]] + Digits(a[1..])) + Digits(b);
        }
      } else {
        assert Digits(ab) == Digits(a[1..] + b);
      }
    }
  }

  /** `phone_digits[-4:]`: the last four digits, or all of them when there are fewer. */
  function Last4(phone: string): (s: string)
    ensures |s| <= 4
    ensures forall i :: 0 <= i < |s| ==> IsDigit(s[i])
    ensures |s| == if |Digits(phone)| >= 4 then 4 else |Digits(phone)|
    ensures Digits(phone) == Digits(phone)[..|Digits(phone)| - |s|] + s
  {
    var d := Digits(phone);
    if |d| >= 4 then d[|d| - 4..] else d
  }

  /**
   * `str.upper` on one character, for the characters whose upper case is a
   * single letter of "VOID": the ASCII letters and the dotless i, whose upper
   * case is 'I'. Every other character is returned as it is.
   */
  function UpperChar(ch: char): char
  {
    if 'a' <= ch <= 'z' then (ch as int - 32) as char
    else if ch == '\U{0131}' then 'I'
    else ch
  }

  function Upper(s: string): string
  {
    seq(|s|, i requires 0 <= i < |s| => UpperChar(s[i]))
  }

  /** `name.upper() == "VOID"`: the names join refuses so that no player looks like the sentinel. */
  predicate IsReservedName(name: string)
  {
    Upper(name) == Void
  }

  /** The refused names are the sixteen case mixes of "void", with the dotless i also standing for i. */
  lemma ReservedNames(name: string)
    ensures IsReservedName(name) <==>
              && |name| == 4
              && name[0] in {'v', 'V'}
              && name[1] in {'o', 'O'}
              && name[2] in {'i', 'I', '\U{0131}'}
              && name[3] in {'d', 'D'}
  {
    if IsReservedName(name) {
      assert |name| == 4;
      assert Upper(name)[0] == UpperChar(name[0]) == 'V';
      assert Upper(name)[1] == UpperChar(name[1]) == 'O';
      assert Upper(name)[2] == UpperChar(name[2]) == 'I';
      assert Upper(name)[3] == UpperChar(name[3]) == 'D';
    }
  }

  datatype JoinOutcome =
    | Closed              // the game is locked
    | MissingName
    | ReservedName        // upper-cases to "VOID"
    | NameTooLong         // more than 20 characters
    | MissingPhone
    | Banned              // the name (or its disambiguated form) belongs to a banned player
    | Rejoined(name: string)
    | Joined(name: string)

  /** The name a newcomer gets when their name is taken by someone with other phone digits. */
  function Disambiguated(name: string, phone: string): string
  {
    name + " (" + Last4(phone) + ")"
  }

  /**
   * The POST branch of `join_game`: the name checks, then the rejoin test on
   * the last four phone digits, then the disambiguated name and its own lookup.
   * `Joined` is the insert of a new `players` row.
   */
  function JoinVerdict(locked: bool, players: map<string, Player>, name: string, phone: string): JoinOutcome
  {
    if locked then Closed
    else if name == "" then MissingName
    else if IsReservedName(name) then ReservedName
    else if |name| > 20 then NameTooLong
    else if phone == "" then MissingPhone
    else if name !in players then Joined(name)
    else if players[name].isBanned then Banned
    else
      var last4 := Last4(phone);
      var known := Last4(players[name].phone);
      if last4 != "" && known != "" && last4 == known then Rejoined(name)
      else
        var alt := Disambiguated(name, phone);
        if alt !in players then Joined(alt)
        else if players[alt].isBanned then Banned
        else Rejoined(alt)
  }

  /** A join inserts only a name no row holds yet, so the table's UNIQUE(game_id, player_name) is never hit. */
  lemma JoinInsertsFreshName(locked: bool, players: map<string, Player>, name: string, phone: string)
    ensures JoinVerdict(locked, players, name, phone).Joined? ==>
              JoinVerdict(locked, players, name, phone).name !in players
    ensures JoinVerdict(locked, players, name, phone).Rejoined? ==>
              var n := JoinVerdict(locked, players, name, phone).name;
              n in players && !players[n].isBanned
  {
  }

  /** A disambiguated name carries a space where "VOID" has a letter. */
  lemma DisambiguatedNotVoid(name: string, phone: string)
    requires name != ""
    ensures Disambiguated(name, phone) != Void
  {
    var alt := Disambiguated(name, phone);
    assert alt[|name|] == ' ';
  }

  /**
   * The name a player ends up with is their own, or their own followed by the
   * last digits of their phone in parentheses; either way it is never "VOID"
   * and at most 27 characters long.
   */
  lemma JoinedNameShape(locked: bool, players: map<string, Player>, name: string, phone: string)
    requires JoinVerdict(locked, players, name, phone).Joined? || JoinVerdict(locked, players, name, phone).Rejoined?
    ensures var n := JoinVerdict(locked, players, name, phone).name;
            && (n == name || (name in players && n == Disambiguated(name, phone)))
            && n != Void
            && 0 < |n| <= 27
  {
    assert Upper(Void) == Void;
    assert name != "" && !IsReservedName(name) && |name| <= 20;
    assert name != Void;
    DisambiguatedNotVoid(name, phone);
  }
}
