/** The session logic of the console front end: the game status machine,
    the flag counters, the cursor and the win test. Reading keys and
    printing are left out: every step takes the key it reacts to as a
    parameter, and the process-wide statics become one `Session` value. */
module ConsoleGui {
  import opened GridTable
  import opened Cells
  import opened Sets
  import opened Flood
  import opened Seeding
  import Engine

  /** Limits on the table size accepted in the settings. */
  const MaxWidth: nat := 40
  const MaxHeight: nat := 40
  const MinWidth: nat := 5
  const MinHeight: nat := 5

  /** `GAME_STATUS` */
  datatype Status = NewGame | Setting | Menu | Flag | Check | GameOver | Exit

  /** The front end's statics: the status, the engine, the mine count read
      at the start of the game, the number of mines not yet flagged, the
      number of flags and the cursor. The counters are `size_t`, the cursor
      coordinates `int`. */
  datatype Session = Session(
    status: Status,
    game: Engine.Game,
    nMines: nat,
    found: nat,
    numFlags: nat,
    cursorX: int,
    cursorY: int)

  /** The statics at program start. */
  const Initial: Session := Session(NewGame, Engine.Start, 0, 0, 0, 0, 0)

  /* size_t arithmetic. */

  /** An `int` converted to `size_t`. */
  function ToSize(v: int): (s: nat)
    ensures s < Engine.SizeModulus
    ensures 0 <= v < Engine.SizeModulus ==> s == v
    ensures -(Engine.SizeModulus as int) <= v < 0 ==> s == v + Engine.SizeModulus
  {
    v % Engine.SizeModulus
  }

  /** `x++` on a `size_t`. */
  function SizeIncrement(x: nat): (y: nat)
    ensures x + 1 < Engine.SizeModulus ==> y == x + 1
    ensures x + 1 == Engine.SizeModulus ==> y == 0
  {
    (x + 1) % Engine.SizeModulus
  }

  /** `x--` on a `size_t`: zero wraps to the largest value. */
  function SizeDecrement(x: nat): (y: nat)
    ensures 0 < x <= Engine.SizeModulus ==> y == x - 1
    ensures x == 0 ==> y == Engine.SizeModulus - 1
  {
    (x - 1) % Engine.SizeModulus
  }

  /* The cursor. */

  /** Keys '8' (up) and '4' (left): decrement the coordinate as an `int`,
      add the table size in `size_t` arithmetic and reduce modulo the size. */
  function CursorBack(v: int, size: nat): int
    requires 0 < size < Engine.SizeModulus
  {
    ((size + ToSize(v - 1)) % Engine.SizeModulus) % size
  }

  /** Keys '2' (down) and '6' (right): increment the coordinate and reduce
      it modulo the table size as a `size_t`. */
  function CursorForward(v: int, size: nat): int
    requires 0 < size
  {
    ToSize(v + 1) % size
  }

  /** On a table of at most 40 cells a side, a cursor inside the table
      moves back one place, from the first to the last, and forward one
      place, from the last to the first; the two moves undo each other. */
  lemma CursorWraps(v: int, size: nat)
    requires 0 <= v < size <= MaxWidth
    ensures CursorBack(v, size) == if v == 0 then size - 1 else v - 1
    ensures CursorForward(v, size) == if v == size - 1 then 0 else v + 1
    ensures CursorBack(CursorForward(v, size), size) == v
    ensures CursorForward(CursorBack(v, size), size) == v
  {
    BackOne(v, size);
    ForwardOne(v, size);
    BackOne(CursorForward(v, size), size);
    ForwardOne(CursorBack(v, size), size);
  }

  lemma BackOne(v: int, size: nat)
    requires 0 <= v < size <= MaxWidth
    ensures CursorBack(v, size) == if v == 0 then size - 1 else v - 1
  {
    if v == 0 {
      assert ToSize(v - 1) == Engine.SizeModulus - 1;
      WrapOnce(size + ToSize(v - 1), Engine.SizeModulus);
      Below(size - 1, size);
    } else {
      Below(size + v - 1, Engine.SizeModulus);
      WrapOnce(size + v - 1, size);
    }
  }

  lemma ForwardOne(v: int, size: nat)
    requires 0 <= v < size <= MaxWidth
    ensures CursorForward(v, size) == if v == size - 1 then 0 else v + 1
  {
    if v == size - 1 {
      WrapOnce(size, size);
    } else {
      Below(v + 1, size);
    }
  }

  lemma Below(x: int, n: nat)
    requires 0 <= x < n
    ensures x % n == x
  {
  }

  lemma WrapOnce(x: int, n: nat)
    requires 0 < n <= x < 2 * n
    ensures x % n == x - n
  {
  }

  /* The table seen through the session. */

  /** The addresses of the flagged cells. */
  ghost function FlaggedCells(t: Table): set<Pos>
    requires Valid(t)
  {
    set c: nat, r: nat | c < t.width && r < t.height && IsFlagged(t, c, r) :: Pos(c, r)
  }

  /** The table of the session. */
  function TableOf(s: Session): Table {
    s.game.table
  }

  /** The table exists and the cursor addresses one of its cells, whose
      sizes fit a `size_t`: what the key handlers need. */
  predicate CursorOnTable(s: Session) {
    && Valid(TableOf(s))
    && TableOf(s).width < Engine.SizeModulus && TableOf(s).height < Engine.SizeModulus
    && 0 <= s.cursorX < TableOf(s).width && 0 <= s.cursorY < TableOf(s).height
  }

  /** The session with another table. */
  function WithTable(s: Session, t: Table): (s': Session)
    ensures TableOf(s') == t
    ensures s'.status == s.status && s'.nMines == s.nMines && s'.found == s.found
    ensures s'.numFlags == s.numFlags && s'.cursorX == s.cursorX && s'.cursorY == s.cursorY
    ensures s'.game.config == s.game.config && s'.game.nMines == s.game.nMines
  {
    s.(game := s.game.(table := t))
  }

  /* The steps. */

  /** `init`: cursor home, mine count from the engine, no flag placed and
      every mine still to find; the menu is next. */
  function Init(s: Session): (s': Session)
    ensures s'.status == Menu && s'.cursorX == 0 && s'.cursorY == 0
    ensures s'.nMines == Engine.GetNumMines(s.game) && s'.found == s'.nMines && s'.numFlags == 0
    ensures s'.game == s.game
  {
    s.(cursorX := 0, cursorY := 0, nMines := Engine.GetNumMines(s.game),
       found := Engine.GetNumMines(s.game), numFlags := 0, status := Menu)
  }

  /** The NEW_GAME step of the driver loop: `new_game` drawing cells from
      `draws`, then `init`. `complete` reports that the draws sufficed. */
  method Restart(s: Session, draws: seq<Draw>) returns (s': Session, complete: bool)
    ensures ConfigInRange(s.game.config) && complete ==> Inv(s') && s'.status == Menu
    ensures s'.game.config == Engine.Effective(s.game.config)
    ensures Seeded(TableOf(s'))
    ensures complete ==> MineCells(TableOf(s')) <= DrawnCells(draws, TableOf(s').width, TableOf(s').height)
  {
    var g, done := Engine.NewGame(s.game, draws);
    s' := Init(s.(game := g));
    complete := done;
    if ConfigInRange(s.game.config) && complete {
      RestartInv(s', g);
    }
  }

  /** `menu_mode` after the key `ch`: each of s, f, c, n, q in either case
      selects a status; any other key keeps the current one. */
  function MenuKey(current: Status, ch: char): (next: Status)
    ensures next != Exit || current == Exit
    ensures ch !in "sSfFcCnNqQ" ==> next == current
    ensures ch in "sS" ==> next == Setting
    ensures ch in "fF" ==> next == Flag
    ensures ch in "cC" ==> next == Check
    ensures ch in "nN" ==> next == NewGame
    ensures ch in "qQ" ==> next == GameOver
  {
    match ch
    case 's' => Setting
    case 'S' => Setting
    case 'f' => Flag
    case 'F' => Flag
    case 'c' => Check
    case 'C' => Check
    case 'n' => NewGame
    case 'N' => NewGame
    case 'q' => GameOver
    case 'Q' => GameOver
    case _ => current
  }

  /** The flag toggle of the Enter branch of `flag_mode`: on a covered
      cell, toggle the flag and keep both counters in step, in `size_t`
      arithmetic; an uncovered cell is left alone. */
  function ToggleFlag(s: Session): (s': Session)
    requires CursorOnTable(s)
    ensures CursorOnTable(s') && s'.status == s.status
  {
    var t, x, y := TableOf(s), s.cursorX as nat, s.cursorY as nat;
    if IsUncovered(t, x, y) then s
    else if IsFlagged(t, x, y) then
      var t' := UnsetFlag(t, x, y);
      WithTable(s, t').(numFlags := SizeDecrement(s.numFlags),
                        found := if HasMine(t', x, y) then SizeIncrement(s.found) else s.found)
    else
      var t' := SetFlag(t, x, y);
      WithTable(s, t').(numFlags := SizeIncrement(s.numFlags),
                        found := if HasMine(t', x, y) then SizeDecrement(s.found) else s.found)
  }

  /** The Enter branch of `flag_mode`: toggle, then end the game when the
      flags match the mine count and no mine is left to find. */
  function FlagEnter(s: Session): (s': Session)
    requires CursorOnTable(s)
    ensures CursorOnTable(s')
  {
    var s1 := ToggleFlag(s);
    if s1.numFlags == s1.nMines && s1.found == 0 then s1.(status := GameOver) else s1
  }

  /** The Enter branch of `check_mode`: a blank cell opens its region, a
      mine ends the game, a covered numbered cell is uncovered, and an
      uncovered numbered cell stays as it is. */
  function CheckEnter(s: Session): Session
    requires CursorOnTable(s)
  {
    var t, x, y := TableOf(s), s.cursorX as nat, s.cursorY as nat;
    if IsBlankCell(t, x, y) then WithTable(s, UncoverBlankCell(t, x, y))
    else if HasMine(t, x, y) then s.(status := GameOver)
    else if !IsUncovered(t, x, y) then WithTable(s, UncoverCell(t, x, y))
    else s
  }

  /** The cursor keys shared by flag and check mode. */
  predicate IsCursorKey(ch: char) {
    ch in "8246"
  }

  function MoveCursor(s: Session, ch: char): (s': Session)
    requires CursorOnTable(s) && IsCursorKey(ch)
  {
    var t := TableOf(s);
    match ch
    case '8' => s.(cursorY := CursorBack(s.cursorY, t.height))
    case '2' => s.(cursorY := CursorForward(s.cursorY, t.height))
    case '4' => s.(cursorX := CursorBack(s.cursorX, t.width))
    case _ => s.(cursorX := CursorForward(s.cursorX, t.width))
  }

  /** One key of `flag_mode`. */
  function FlagKey(s: Session, ch: char): Session
    requires CursorOnTable(s)
  {
    if IsCursorKey(ch) then MoveCursor(s, ch)
    else if ch == 'c' || ch == 'C' then s.(status := Check)
    else if ch == 'q' || ch == 'Q' then s.(status := Menu)
    else if ch == '\n' then FlagEnter(s)
    else s
  }

  /** One key of `check_mode`. */
  function CheckKey(s: Session, ch: char): Session
    requires CursorOnTable(s)
  {
    if IsCursorKey(ch) then MoveCursor(s, ch)
    else if ch == 'f' || ch == 'F' then s.(status := Flag)
    else if ch == 'q' || ch == 'Q' then s.(status := Menu)
    else if ch == '\n' then CheckEnter(s)
    else s
  }

  /** One answer to the exit question of `end_of_game`: y leaves, n starts
      a new game, anything else asks again. */
  function EndKey(s: Session, ch: char): (s': Session)
    ensures s'.status == (if ch in "yY" then Exit else if ch in "nN" then NewGame else s.status)
    ensures s' == s.(status := s'.status)
  {
    if ch == 'y' || ch == 'Y' then s.(status := Exit)
    else if ch == 'n' || ch == 'N' then s.(status := NewGame)
    else s
  }

  /* The settings. */

  /** The position of the first answer in [lo, hi]: the re-prompt loops of
      `setting_mode` read answers until one is accepted. `|answers|` means
      that none was. */
  function FirstAccepted(answers: seq<int>, lo: int, hi: int): (i: nat)
    ensures i <= |answers|
    ensures i < |answers| ==> lo <= answers[i] <= hi
    ensures forall j | 0 <= j < i :: answers[j] < lo || answers[j] > hi
  {
    if |answers| == 0 then 0
    else if lo <= answers[0] <= hi then 0
    else 1 + FirstAccepted(answers[1..], lo, hi)
  }

  function DifficultyOf(v: int): (d: Engine.Difficulty)
    requires 0 <= v <= 2
  {
    if v == 0 then Engine.Easy else if v == 1 then Engine.Hard else Engine.Expert
  }

  /** `setting_mode` given the answers typed at the three prompts. The
      height is checked against the maximum width, which has the same
      value. When every prompt got an accepted answer the configuration is
      set and a new game follows; otherwise the settings are still being
      asked for. */
  function SettingStep(s: Session, widths: seq<int>, heights: seq<int>, levels: seq<int>): (s': Session)
    ensures s' == s || (s'.status == NewGame && s'.game.config.Configured? && ConfigInRange(s'.game.config))
    ensures ConfigInRange(s.game.config) ==> ConfigInRange(s'.game.config)
    ensures TableOf(s') == TableOf(s)
  {
    var i := FirstAccepted(widths, MinWidth, MaxWidth);
    var j := FirstAccepted(heights, MinHeight, MaxWidth);
    var k := FirstAccepted(levels, 0, 2);
    if i == |widths| || j == |heights| || k == |levels| then s
    else
      s.(game := Engine.SetConfiguration(s.game, widths[i] as nat, heights[j] as nat, DifficultyOf(levels[k])),
         status := NewGame)
  }

  /** Answer i is the first one in [lo, hi]. */
  predicate FirstInRange(answers: seq<int>, i: nat, lo: int, hi: int) {
    && i < |answers| && lo <= answers[i] <= hi
    && forall j | 0 <= j < i :: answers[j] < lo || answers[j] > hi
  }

  /** When each prompt got an accepted answer, the settings record the
      first accepted width, height and difficulty (0 easy, 1 hard, 2
      expert), leave the rest of the session alone and ask for a new
      game. */
  lemma SettingStepAccepts(s: Session, widths: seq<int>, heights: seq<int>, levels: seq<int>,
                           i: nat, j: nat, k: nat)
    requires FirstInRange(widths, i, MinWidth, MaxWidth)
    requires FirstInRange(heights, j, MinHeight, MaxHeight)
    requires FirstInRange(levels, k, 0, 2)
    ensures var d := if levels[k] == 0 then Engine.Easy else if levels[k] == 1 then Engine.Hard else Engine.Expert;
      SettingStep(s, widths, heights, levels)
        == s.(status := NewGame, game := s.game.(config := Engine.Configured(widths[i] as nat, heights[j] as nat, d)))
  {
  }

  /** While some prompt has no accepted answer, the settings change
      nothing. */
  lemma SettingStepWaits(s: Session, widths: seq<int>, heights: seq<int>, levels: seq<int>)
    requires || (forall j | 0 <= j < |widths| :: widths[j] < MinWidth || widths[j] > MaxWidth)
             || (forall j | 0 <= j < |heights| :: heights[j] < MinHeight || heights[j] > MaxHeight)
             || (forall j | 0 <= j < |levels| :: levels[j] < 0 || levels[j] > 2)
    ensures SettingStep(s, widths, heights, levels) == s
  {
  }

  /* The win test. */

  /** `end_of_game` as written: the game counts as won when no mine is
      left to find. */
  predicate WonAsWritten(s: Session) {
    s.found == 0
  }

  /** The win test the counters support: as many flags as mines and no mine
      left to find, the condition flag mode ends the game on. */
  predicate Won(s: Session) {
    s.numFlags == s.nMines && s.found == 0
  }

  /* The session invariant. */

  /** The configuration lies in the ranges the settings accept, or is the
      10 x 10 default. */
  predicate ConfigInRange(c: Engine.Configuration) {
    c.Configured? ==> MinWidth <= c.width <= MaxWidth && MinHeight <= c.height <= MaxHeight
  }

  /** What holds between any two key presses of a game: the table has an
      accepted size and the cursor is on it, the mine count is the number of
      mined cells, `num_flags` counts the flagged cells, `found_num_mines`
      counts the mined cells without a flag, and while the game runs the
      win condition holds only on a table without mines. */
  ghost predicate Inv(s: Session) {
    && Tracked(s)
    && (s.status in {Menu, Flag, Check} && Won(s) ==> s.nMines == 0)
  }

  /** The part of the invariant that does not depend on the status. */
  ghost predicate Tracked(s: Session) {
    var t := TableOf(s);
    && ConfigInRange(s.game.config)
    && Valid(t) && MinWidth <= t.width <= MaxWidth && MinHeight <= t.height <= MaxHeight
    && 0 <= s.cursorX < t.width && 0 <= s.cursorY < t.height
    && s.nMines == |MineCells(t)|
    && s.numFlags == |FlaggedCells(t)|
    && s.found + |MineCells(t) * FlaggedCells(t)| == s.nMines
  }

  lemma RestartInv(s: Session, g: Engine.Game)
    requires s == Init(s) && s.game == g
    requires ConfigInRange(g.config) && Seeded(g.table)
    requires g.config.Configured? && g.table.width == g.config.width && g.table.height == g.config.height
    requires |MineCells(g.table)| == Engine.GetNumMines(g)
    ensures Inv(s)
  {
    assert FlaggedCells(g.table) == {};
  }

  /* What the steps do to the marked cells. */

  /** A table of an accepted size has at most 1600 cells, so no counter of
      cells comes near the `size_t` limit. */
  lemma FlaggedBounded(t: Table)
    requires Valid(t) && t.width <= MaxWidth && t.height <= MaxHeight
    ensures |FlaggedCells(t)| <= 1600
    ensures |MineCells(t)| <= 1600
  {
    AllCellsCount(t.width, t.height);
    SubsetNoLarger(FlaggedCells(t), AllCells(t.width, t.height));
    MinesBounded(t);
    AtMostSixteenHundred(t.width, t.height);
  }

  lemma AtMostSixteenHundred(width: nat, height: nat)
    requires width <= MaxWidth && height <= MaxHeight
    ensures width * height <= 1600
  {
    assert width * height <= MaxWidth * height;
  }

  /** The mined and flagged cells of a table whose mine bits are those of
      `t` and whose flag bits are those of `t` except at (x, y), where the
      flag is `flag`. */
  lemma MarkedCells(t: Table, t': Table, x: nat, y: nat, flag: bool)
    requires Valid(t) && Valid(t') && t'.width == t.width && t'.height == t.height
    requires InBounds(t, x, y)
    requires forall c: nat, r: nat | InBounds(t, c, r) :: HasMine(t', c, r) == HasMine(t, c, r)
    requires forall c: nat, r: nat | InBounds(t, c, r) ::
      IsFlagged(t', c, r) == if c == x && r == y then flag else IsFlagged(t, c, r)
    ensures MineCells(t') == MineCells(t)
    ensures FlaggedCells(t') == if flag then FlaggedCells(t) + {Pos(x, y)} else FlaggedCells(t) - {Pos(x, y)}
  {
    var f := if flag then FlaggedCells(t) + {Pos(x, y)} else FlaggedCells(t) - {Pos(x, y)};
    forall p | p in FlaggedCells(t')
      ensures p in f
    {
    }
    forall p | p in f
      ensures p in FlaggedCells(t')
    {
    }
    forall p | p in MineCells(t')
      ensures p in MineCells(t)
    {
    }
    forall p | p in MineCells(t)
      ensures p in MineCells(t')
    {
    }
  }

  /** `set_flag` adds the cell to the flagged ones and keeps the mines. */
  lemma SetFlagMarks(t: Table, x: nat, y: nat)
    requires Valid(t) && InBounds(t, x, y)
    ensures var t' := SetFlag(t, x, y);
      && Valid(t') && t'.width == t.width && t'.height == t.height
      && MineCells(t') == MineCells(t)
      && FlaggedCells(t') == FlaggedCells(t) + {Pos(x, y)}
      && HasMine(t', x, y) == HasMine(t, x, y)
  {
    var t' := SetFlag(t, x, y);
    SetFlagSpec(t, x, y);
    forall c: nat, r: nat | InBounds(t, c, r)
      ensures HasMine(t', c, r) == HasMine(t, c, r)
      ensures IsFlagged(t', c, r) == if c == x && r == y then true else IsFlagged(t, c, r)
    {
      QueriesReadFields(t, c, r);
      QueriesReadFields(t', c, r);
    }
    MarkedCells(t, t', x, y, true);
  }

  /** `unset_flag` removes the cell from the flagged ones and keeps the
      mines. */
  lemma UnsetFlagMarks(t: Table, x: nat, y: nat)
    requires Valid(t) && InBounds(t, x, y)
    ensures var t' := UnsetFlag(t, x, y);
      && Valid(t') && t'.width == t.width && t'.height == t.height
      && MineCells(t') == MineCells(t)
      && FlaggedCells(t') == FlaggedCells(t) - {Pos(x, y)}
      && HasMine(t', x, y) == HasMine(t, x, y)
  {
    var t' := UnsetFlag(t, x, y);
    UnsetFlagSpec(t, x, y);
    forall c: nat, r: nat | InBounds(t, c, r)
      ensures HasMine(t', c, r) == HasMine(t, c, r)
      ensures IsFlagged(t', c, r) == if c == x && r == y then false else IsFlagged(t, c, r)
    {
      QueriesReadFields(t, c, r);
      QueriesReadFields(t', c, r);
    }
    MarkedCells(t, t', x, y, false);
  }

  /** Uncovering cells changes neither the mined nor the flagged cells. */
  lemma GrowsKeepsMarks(t: Table, t': Table)
    requires Grows(t, t')
    ensures MineCells(t') == MineCells(t) && FlaggedCells(t') == FlaggedCells(t)
  {
    forall c: nat, r: nat | InBounds(t, c, r)
      ensures HasMine(t', c, r) == HasMine(t, c, r)
      ensures IsFlagged(t', c, r) == IsFlagged(t, c, r)
    {
      QueriesReadFields(t, c, r);
      QueriesReadFields(t', c, r);
    }
    SameMarks(t, t');
  }

  lemma SameMarks(t: Table, t': Table)
    requires Valid(t) && Valid(t') && t'.width == t.width && t'.height == t.height
    requires forall c: nat, r: nat | InBounds(t, c, r) :: HasMine(t', c, r) == HasMine(t, c, r)
    requires forall c: nat, r: nat | InBounds(t, c, r) :: IsFlagged(t', c, r) == IsFlagged(t, c, r)
    ensures MineCells(t') == MineCells(t) && FlaggedCells(t') == FlaggedCells(t)
  {
    forall p | p in FlaggedCells(t')
      ensures p in FlaggedCells(t)
    {
    }
    forall p | p in FlaggedCells(t)
      ensures p in FlaggedCells(t')
    {
    }
    forall p | p in MineCells(t')
      ensures p in MineCells(t)
    {
    }
    forall p | p in MineCells(t)
      ensures p in MineCells(t')
    {
    }
  }

  /* The invariant is kept by every step. */

  /** Toggling a flag keeps the counters exact; neither wraps. */
  lemma ToggleFlagTracked(s: Session)
    requires Tracked(s)
    ensures Tracked(ToggleFlag(s))
  {
    var t, x, y := TableOf(s), s.cursorX as nat, s.cursorY as nat;
    FlaggedBounded(t);
    if IsUncovered(t, x, y) {
    } else if IsFlagged(t, x, y) {
      UnsetFlagTracked(s);
    } else {
      SetFlagTracked(s);
    }
  }

  lemma SetFlagTracked(s: Session)
    requires Tracked(s)
    requires var t := TableOf(s); !IsFlagged(t, s.cursorX as nat, s.cursorY as nat)
    ensures var t, x, y := TableOf(s), s.cursorX as nat, s.cursorY as nat;
      var t' := SetFlag(t, x, y);
      Tracked(WithTable(s, t').(numFlags := SizeIncrement(s.numFlags),
                                found := if HasMine(t', x, y) then SizeDecrement(s.found) else s.found))
  {
    var t, x, y := TableOf(s), s.cursorX as nat, s.cursorY as nat;
    FlaggedBounded(t);
    SetFlagMarks(t, x, y);
    assert Pos(x, y) !in FlaggedCells(t);
    assert HasMine(t, x, y) <==> Pos(x, y) in MineCells(t);
    FlagAdded(MineCells(t), FlaggedCells(t), Pos(x, y), s.found);
  }

  /** The counts after a flag is added to a cell without one. */
  lemma FlagAdded(mines: set<Pos>, flags: set<Pos>, p: Pos, found: nat)
    requires p !in flags && found + |mines * flags| == |mines|
    ensures |flags + {p}| == |flags| + 1
    ensures p in mines ==> found >= 1 && (found - 1) + |mines * (flags + {p})| == |mines|
    ensures p !in mines ==> found + |mines * (flags + {p})| == |mines|
  {
    var marked := mines * flags;
    if p in mines {
      ProperSubsetSmaller(marked, mines, p);
      assert mines * (flags + {p}) == marked + {p};
    } else {
      assert mines * (flags + {p}) == marked;
    }
  }

  lemma UnsetFlagTracked(s: Session)
    requires Tracked(s)
    requires var t := TableOf(s); IsFlagged(t, s.cursorX as nat, s.cursorY as nat)
    ensures var t, x, y := TableOf(s), s.cursorX as nat, s.cursorY as nat;
      var t' := UnsetFlag(t, x, y);
      Tracked(WithTable(s, t').(numFlags := SizeDecrement(s.numFlags),
                                found := if HasMine(t', x, y) then SizeIncrement(s.found) else s.found))
  {
    var t, x, y := TableOf(s), s.cursorX as nat, s.cursorY as nat;
    FlaggedBounded(t);
    UnsetFlagMarks(t, x, y);
    assert Pos(x, y) in FlaggedCells(t);
    assert HasMine(t, x, y) <==> Pos(x, y) in MineCells(t);
    FlagRemoved(MineCells(t), FlaggedCells(t), Pos(x, y), s.found);
  }

  /** The counts after the flag of a flagged cell is removed. */
  lemma FlagRemoved(mines: set<Pos>, flags: set<Pos>, p: Pos, found: nat)
    requires p in flags && found + |mines * flags| == |mines|
    ensures |flags - {p}| == |flags| - 1 >= 0
    ensures p in mines ==> (found + 1) + |mines * (flags - {p})| == |mines|
    ensures p !in mines ==> found + |mines * (flags - {p})| == |mines|
  {
    var marked := mines * flags;
    assert flags == (flags - {p}) + {p};
    if p in mines {
      assert marked == mines * (flags - {p}) + {p};
    } else {
      assert mines * (flags - {p}) == marked;
    }
  }

  /** Enter in flag mode keeps the invariant. */
  lemma FlagEnterKeepsInv(s: Session)
    requires Inv(s) && s.status == Flag
    ensures Inv(FlagEnter(s))
  {
    ToggleFlagTracked(s);
  }

  /** Enter in check mode keeps the invariant: uncovering changes neither
      the mined nor the flagged cells. */
  lemma CheckEnterKeepsInv(s: Session)
    requires Inv(s) && s.status == Check
    ensures Inv(CheckEnter(s))
  {
    var t, x, y := TableOf(s), s.cursorX as nat, s.cursorY as nat;
    if IsBlankCell(t, x, y) {
      GrowsKeepsMarks(t, UncoverBlankCell(t, x, y));
    } else if !HasMine(t, x, y) && !IsUncovered(t, x, y) {
      UncoverShrinksCovered(t, x, y);
      GrowsKeepsMarks(t, UncoverCell(t, x, y));
    }
  }

  /** The cursor keys keep the cursor on the table. */
  lemma MoveCursorKeepsInv(s: Session, ch: char)
    requires Inv(s) && IsCursorKey(ch)
    ensures Inv(MoveCursor(s, ch))
  {
    var s' := MoveCursor(s, ch);
    MoveCursorStays(s, ch);
    CursorOnlyMoves(s, s'.cursorX, s'.cursorY);
  }

  lemma MoveCursorStays(s: Session, ch: char)
    requires CursorOnTable(s) && IsCursorKey(ch)
    requires TableOf(s).width <= MaxWidth && TableOf(s).height <= MaxHeight
    ensures var s' := MoveCursor(s, ch);
      && s' == s.(cursorX := s'.cursorX, cursorY := s'.cursorY)
      && 0 <= s'.cursorX < TableOf(s).width && 0 <= s'.cursorY < TableOf(s).height
  {
    CursorWraps(s.cursorX, TableOf(s).width);
    CursorWraps(s.cursorY, TableOf(s).height);
  }

  lemma CursorOnlyMoves(s: Session, x: int, y: int)
    requires Inv(s) && 0 <= x < TableOf(s).width && 0 <= y < TableOf(s).height
    ensures Inv(s.(cursorX := x, cursorY := y))
  {
  }

  /** Every key of flag mode keeps the invariant. */
  lemma FlagKeyKeepsInv(s: Session, ch: char)
    requires Inv(s) && s.status == Flag
    ensures Inv(FlagKey(s, ch))
  {
    if IsCursorKey(ch) {
      assert FlagKey(s, ch) == MoveCursor(s, ch);
      MoveCursorKeepsInv(s, ch);
    } else if ch == '\n' {
      assert FlagKey(s, ch) == FlagEnter(s);
      FlagEnterKeepsInv(s);
    } else {
      StatusKeepsInv(s, FlagKey(s, ch).status);
    }
  }

  /** Every key of check mode keeps the invariant. */
  lemma CheckKeyKeepsInv(s: Session, ch: char)
    requires Inv(s) && s.status == Check
    ensures Inv(CheckKey(s, ch))
  {
    if IsCursorKey(ch) {
      assert CheckKey(s, ch) == MoveCursor(s, ch);
      MoveCursorKeepsInv(s, ch);
    } else if ch == '\n' {
      assert CheckKey(s, ch) == CheckEnter(s);
      CheckEnterKeepsInv(s);
    } else {
      StatusKeepsInv(s, CheckKey(s, ch).status);
    }
  }

  /** A change of status between the play modes, or out of them, keeps
      the invariant. */
  lemma StatusKeepsInv(s: Session, status: Status)
    requires Inv(s)
    requires status in {Menu, Flag, Check} ==> s.status in {Menu, Flag, Check}
    ensures Inv(s.(status := status))
  {
  }

  /** Every key of the menu keeps the invariant. */
  lemma MenuKeyKeepsInv(s: Session, ch: char)
    requires Inv(s) && s.status == Menu
    ensures Inv(s.(status := MenuKey(s.status, ch)))
  {
  }

  /** The answer to the exit question keeps the invariant. */
  lemma EndKeyKeepsInv(s: Session, ch: char)
    requires Inv(s)
    ensures Inv(EndKey(s, ch))
  {
  }

  /** The settings keep the invariant: the table is not touched until the
      next game, and the configuration stays in the accepted ranges. */
  lemma SettingKeepsInv(s: Session, widths: seq<int>, heights: seq<int>, levels: seq<int>)
    requires Inv(s)
    ensures Inv(SettingStep(s, widths, heights, levels))
  {
  }

  /* What the invariant means. */

  /** Under the invariant the win condition holds exactly when the flagged
      cells are the mined cells: every mine flagged and nothing else. */
  lemma WonIsExact(s: Session)
    requires Inv(s)
    ensures Won(s) <==> FlaggedCells(TableOf(s)) == MineCells(TableOf(s))
  {
    var t := TableOf(s);
    var mines, flags := MineCells(t), FlaggedCells(t);
    var marked := mines * flags;
    SubsetNoLarger(marked, mines);
    if flags == mines {
      assert marked == mines;
    }
    if Won(s) {
      SubsetSameSize(marked, mines);
      assert mines <= flags;
      SubsetSameSize(mines, flags);
    }
  }

  /** The counter of mines to find never exceeds the mine count, so it
      never wraps below zero. */
  lemma FoundWithinCount(s: Session)
    requires Inv(s)
    ensures s.found <= s.nMines
    ensures s.found == |MineCells(TableOf(s)) - FlaggedCells(TableOf(s))|
  {
    var t := TableOf(s);
    var mines, flags := MineCells(t), FlaggedCells(t);
    assert mines == (mines * flags) + (mines - flags);
    assert (mines * flags) !! (mines - flags);
  }

  /** Enter in flag mode ends the game exactly when, after the toggle, the
      flagged cells are the mined cells. */
  lemma FlagEnterEndsExactly(s: Session)
    requires Inv(s) && s.status == Flag
    ensures var s' := FlagEnter(s);
      s'.status == GameOver <==> FlaggedCells(TableOf(s')) == MineCells(TableOf(s'))
  {
    FlagEnterKeepsInv(s);
    FlagEnterStatus(s);
    WonIsExact(FlagEnter(s));
  }

  /** Flag mode ends the game exactly when the counters after the toggle
      meet the win condition. */
  lemma FlagEnterStatus(s: Session)
    requires CursorOnTable(s) && s.status == Flag
    ensures FlagEnter(s).status == GameOver <==> Won(FlagEnter(s))
  {
    var t, x, y := TableOf(s), s.cursorX as nat, s.cursorY as nat;
    assert ToggleFlag(s).status == Flag;
  }

  /** Enter in flag mode toggles the flag of a covered cell and changes
      nothing else on the table; on an uncovered cell it changes nothing. */
  lemma FlagEnterToggles(s: Session)
    requires CursorOnTable(s)
    ensures var t, t', x, y := TableOf(s), TableOf(FlagEnter(s)), s.cursorX as nat, s.cursorY as nat;
      && Valid(t') && t'.width == t.width && t'.height == t.height
      && (IsUncovered(t, x, y) ==> t' == t)
      && (!IsUncovered(t, x, y) ==>
            && View(t', x, y) == View(t, x, y).(flagged := !IsFlagged(t, x, y))
            && OthersUnchanged(t, t', x, y))
  {
    var t, x, y := TableOf(s), s.cursorX as nat, s.cursorY as nat;
    QueriesReadFields(t, x, y);
    SetFlagSpec(t, x, y);
    UnsetFlagSpec(t, x, y);
  }

  /** Enter in check mode: the game ends exactly on a mine, leaving the
      table as it was; otherwise the cell ends up uncovered. Only cells
      without a mine are uncovered, only the uncovered marks change, the
      counters stay, and an uncovered cell changes nothing. A covered
      numbered cell is uncovered alone; a blank one starts the flood fill,
      which settles its neighbours and stops at numbered cells. */
  lemma CheckEnterReveals(s: Session)
    requires CursorOnTable(s) && s.status == Check
    ensures var t, t', x, y := TableOf(s), TableOf(CheckEnter(s)), s.cursorX as nat, s.cursorY as nat;
      && Grows(t, t') && Safe(t, t')
      && (CheckEnter(s).status == GameOver <==> HasMine(t, x, y))
      && (CheckEnter(s).status != GameOver ==> CheckEnter(s).status == Check)
      && (HasMine(t, x, y) ==> t' == t)
      && (!HasMine(t, x, y) ==> IsUncovered(t', x, y))
      && (IsUncovered(t, x, y) ==> t' == t)
      && CheckEnter(s).numFlags == s.numFlags && CheckEnter(s).found == s.found
    ensures var t, t', x, y := TableOf(s), TableOf(CheckEnter(s)), s.cursorX as nat, s.cursorY as nat;
      !IsUncovered(t, x, y) && !HasMine(t, x, y) && NumMines(t, x, y) != 0 ==>
        && View(t', x, y) == View(t, x, y).(uncovered := true)
        && OthersUnchanged(t, t', x, y)
    ensures var t, t', x, y := TableOf(s), TableOf(CheckEnter(s)), s.cursorX as nat, s.cursorY as nat;
      IsBlankCell(t, x, y) ==>
        && NeighboursSettled(t', x, y, 0) && Closed(t, t') && Supported(t, t', x, y)
  {
    var t, x, y := TableOf(s), s.cursorX as nat, s.cursorY as nat;
    if IsBlankCell(t, x, y) {
    } else if HasMine(t, x, y) || IsUncovered(t, x, y) {
      GrowsRefl(t);
    } else {
      UncoverGrows(t, x, y);
      UncoverCellSpec(t, x, y);
    }
  }

  /* The win test of `end_of_game`. */

  /** Revealing a mine never counts as a win under the corrected test. */
  lemma HitMineNeverWins(s: Session)
    requires Inv(s) && s.status == Check
    requires HasMine(TableOf(s), s.cursorX as nat, s.cursorY as nat)
    ensures CheckEnter(s).status == GameOver && !Won(CheckEnter(s))
  {
    var t := TableOf(s);
    assert Pos(s.cursorX as nat, s.cursorY as nat) in MineCells(t);
  }

  /** As written, `end_of_game` reports a win after a mine is revealed
      whenever every mine carries a flag, however many other cells are
      flagged too. */
  lemma WonAsWrittenAfterMine(s: Session)
    requires Inv(s) && s.status == Check
    requires HasMine(TableOf(s), s.cursorX as nat, s.cursorY as nat)
    requires MineCells(TableOf(s)) <= FlaggedCells(TableOf(s))
    ensures CheckEnter(s).status == GameOver && WonAsWritten(CheckEnter(s))
  {
    var t := TableOf(s);
    assert MineCells(t) * FlaggedCells(t) == MineCells(t);
  }

  /** A 5 x 5 Easy game in check mode, with the two mines such a game
      gets: seeding put a mine at (0, 0), then one at (1, 0), and counted
      them in the mine-free cells around. The player flagged (0, 1), then
      (0, 0), then (1, 0): the second flag left one mine to find, and the
      third left none but made three flags for two mines, so flag mode went
      on. The cursor is on the mine at (0, 0). */
  function BoomExample(): Session {
    var t0 := InitTable(NoTable, 5, 5).0;
    var t1 := SetCell(SetCell(SetCell(t0, 0, 0, 0x50), 1, 0, 0x51), 2, 0, 0x01);
    var t := SetCell(SetCell(SetCell(t1, 0, 1, 0x12), 1, 1, 0x02), 2, 1, 0x01);
    Session(Check, Engine.Game(Engine.Configured(5, 5, Engine.Easy), t, 2), 2, 0, 3, 0, 0)
  }

  lemma BoomExampleCells()
    ensures var t := TableOf(BoomExample());
      && Valid(t) && t.width == 5 && t.height == 5
      && MineCells(t) == {Pos(0, 0), Pos(1, 0)}
      && FlaggedCells(t) == {Pos(0, 0), Pos(1, 0), Pos(0, 1)}
      && BoomExample().nMines == Engine.MinesFor(5, 5, Engine.Easy)
  {
    var t := TableOf(BoomExample());
    forall c: nat, r: nat | InBounds(t, c, r)
      ensures HasMine(t, c, r) == (r == 0 && c <= 1)
      ensures IsFlagged(t, c, r) == ((r == 0 && c <= 1) || (c == 0 && r == 1))
    {
      var v := GetCell(t, c, r);
      assert v == if c == 0 && r == 0 then 0x50 else if c == 1 && r == 0 then 0x51
        else if c == 2 && r == 0 then 0x01 else if c == 0 && r == 1 then 0x12
        else if c == 1 && r == 1 then 0x02 else if c == 2 && r == 1 then 0x01 else 0;
    }
    assert Pos(0, 0) in MineCells(t) && Pos(1, 0) in MineCells(t);
    assert Pos(0, 1) in FlaggedCells(t);
    Engine.MineCountExamples();
  }

  /** The example session satisfies the invariant. Revealing the flagged
      mine ends the game, and the test as written reports a win although a
      mine went off and a mine-free cell is flagged; the corrected test
      does not. */
  lemma BoomExampleWinsAsWritten()
    ensures Inv(BoomExample())
    ensures var s' := CheckEnter(BoomExample());
      && s'.status == GameOver
      && WonAsWritten(s')
      && !Won(s')
      && FlaggedCells(TableOf(s')) != MineCells(TableOf(s'))
  {
    BoomExampleCells();
    var s := BoomExample();
    var t := TableOf(s);
    assert HasMine(t, 0, 0);
    assert Pos(0, 1) !in MineCells(t);
    assert MineCells(t) * FlaggedCells(t) == MineCells(t);
    assert |MineCells(t)| == 2;
    assert |FlaggedCells(t)| == 3;
  }

}
