/** The engine state around the grid store: the configuration, the mine
    count `set_mine` records, and the operations `set_configuration`,
    `new_game`, `end_game` and `get_num_mines`. The configuration pointer
    and the `nMines` static become fields of one `Game` value. */
module Engine {
  import opened GridTable
  import opened Cells
  import opened Seeding

  /** `Difficulty`: EASY = 0, HARD = 1, EXPERT = 2. */
  datatype Difficulty = Easy | Hard | Expert

  /** The configuration pointer: null until a configuration is set. */
  datatype Configuration =
    | Unconfigured
    | Configured(width: nat, height: nat, difficulty: Difficulty)

  /** The engine's state: the configuration, the grid store and the mine
      count of the current game. */
  datatype Game = Game(config: Configuration, table: Table, nMines: nat)

  /** The state at program start: no configuration, no table, no mines. */
  const Start: Game := Game(Unconfigured, NoTable, 0)

  /** `size_t` arithmetic is modulo 2^64. */
  const SizeModulus: nat := 0x1_0000_0000_0000_0000

  /** The divisor of the cell count that gives the mine count. */
  function Divisor(d: Difficulty): (k: nat)
    ensures 5 <= k <= 10
  {
    match d
    case Easy => 10
    case Hard => 7
    case Expert => 5
  }

  /** The mine count `new_game` asks for: the number of cells, computed as
      a `size_t` product, divided by the difficulty's divisor and rounded
      down. It never exceeds the number of cells; when the product does not
      wrap it is exactly the floor of cells / divisor. */
  function MinesFor(width: nat, height: nat, d: Difficulty): (n: nat)
    ensures n <= width * height
    ensures n * Divisor(d) <= width * height
    ensures width * height < SizeModulus ==> width * height < (n + 1) * Divisor(d)
  {
    var cells := (width * height) % SizeModulus;
    FloorDivision(cells, d);
    cells / Divisor(d)
  }

  lemma FloorDivision(x: nat, d: Difficulty)
    ensures (x / Divisor(d)) * Divisor(d) <= x < (x / Divisor(d) + 1) * Divisor(d)
  {
    match d
    case Easy =>
    case Hard =>
    case Expert =>
  }

  /** The configuration `new_game` plays: the given one, or 10 x 10 Easy
      when none was set. */
  function Effective(c: Configuration): (e: Configuration)
    ensures e.Configured?
    ensures c.Configured? ==> e == c
    ensures c.Unconfigured? ==> e == Configured(DefaultWidth, DefaultHeight, Easy)
  {
    if c.Unconfigured? then Configured(DefaultWidth, DefaultHeight, Easy) else c
  }

  /** `set_configuration`: record the dimensions and difficulty of the next
      game; the current table and mine count are untouched. */
  function SetConfiguration(g: Game, width: nat, height: nat, d: Difficulty): (g': Game)
    ensures Effective(g'.config) == Configured(width, height, d)
    ensures g'.table == g.table && g'.nMines == g.nMines
  {
    g.(config := Configured(width, height, d))
  }

  /** `get_num_mines`: the count the last `set_mine` recorded. */
  function GetNumMines(g: Game): nat {
    g.nMines
  }

  /** `new_game`: fall back to 10 x 10 Easy when unconfigured, allocate a
      zeroed table of the configured size and seed it with the difficulty's
      mine count, drawing cells from `draws`. `complete` reports whether the
      draws sufficed to place every mine; the table then holds exactly the
      recorded number of mines, all at drawn cells, and every other cell
      counts its mined neighbours. */
  method NewGame(g: Game, draws: seq<Draw>) returns (g': Game, complete: bool)
    ensures g'.config == Effective(g.config)
    ensures Seeded(g'.table)
    ensures g'.table.width == g'.config.width && g'.table.height == g'.config.height
    ensures GetNumMines(g') == MinesFor(g'.config.width, g'.config.height, g'.config.difficulty)
    ensures MineCells(g'.table) <= DrawnCells(draws, g'.table.width, g'.table.height)
    ensures complete <==> |MineCells(g'.table)| == GetNumMines(g')
    ensures |DrawnCells(draws, g'.table.width, g'.table.height)| >= GetNumMines(g') ==> complete
  {
    var c := Effective(g.config);
    var t := InitTable(g.table, c.width, c.height).0;
    ZeroTableIsSeeded(g.table, c.width, c.height);
    var n := MinesFor(c.width, c.height, c.difficulty);
    if n > 0 {
      NoCellsNoMines(c.width, c.height);
    }
    var t', nMines, placed, used := SetMine(t, n, draws);
    DrawnPrefix(draws, used, c.width, c.height);
    g' := Game(c, t', nMines);
    complete := placed == n;
  }

  lemma NoCellsNoMines(width: nat, height: nat)
    requires width * height > 0
    ensures width > 0 && height > 0
  {
  }

  /** The cells a prefix of the draws picks are among those all of them
      pick. */
  lemma DrawnPrefix(draws: seq<Draw>, used: nat, width: nat, height: nat)
    requires used <= |draws|
    ensures DrawnCells(draws[..used], width, height) <= DrawnCells(draws, width, height)
  {
    var prefix := draws[..used];
    assert forall i | 0 <= i < |prefix| :: prefix[i] == draws[i];
  }

  /** `end_game`: release the configuration and the table. The next
      `new_game` plays 10 x 10 Easy again. */
  function EndGame(g: Game): (g': Game)
    ensures g'.config.Unconfigured? && g'.table.storage.Null?
    ensures Effective(g'.config) == Configured(DefaultWidth, DefaultHeight, Easy)
    ensures g'.nMines == g.nMines
  {
    Game(Unconfigured, FreeTable(g.table).0, g.nMines)
  }

  /** A 10 x 10 Easy game has ten mines, a 40 x 40 Expert one 320, a
      5 x 5 Easy one two, and a 7 x 7 Hard one seven. */
  lemma MineCountExamples()
    ensures MinesFor(DefaultWidth, DefaultHeight, Easy) == 10
    ensures MinesFor(40, 40, Expert) == 320
    ensures MinesFor(5, 5, Easy) == 2
    ensures MinesFor(7, 7, Hard) == 7
  {
  }
}
