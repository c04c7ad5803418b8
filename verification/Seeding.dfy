/** `set_mine`: mine seeding by rejection sampling. A draw picks a row and
    a column; a cell that already holds a mine is drawn again, otherwise it
    gets the mine and each in-bounds, mine-free neighbour has its whole cell
    value incremented. `rand()` is an oracle: the sequence of values it
    returns is a parameter, and the model stops when it runs out. */
module Seeding {
  import opened Bitmask
  import opened GridTable
  import opened Cells
  import opened Sets

  /** The two `rand()` values one round consumes, the row's first. */
  datatype Draw = Draw(rowRand: nat, colRand: nat)

  /** The cell a draw picks: the row modulo the height, the column modulo
      the width. */
  function DrawCell(d: Draw, width: nat, height: nat): Pos
    requires width > 0 && height > 0
  {
    Pos(d.colRand % width, d.rowRand % height)
  }

  /** The cells a sequence of draws picks; none on a table without cells. */
  ghost function DrawnCells(ds: seq<Draw>, width: nat, height: nat): set<Pos> {
    set i | 0 <= i < |ds| && width > 0 && height > 0 :: DrawCell(ds[i], width, height)
  }

  /** The addresses of the mined cells. */
  ghost function MineCells(t: Table): set<Pos>
    requires Valid(t)
  {
    set c: nat, r: nat | c < t.width && r < t.height && HasMine(t, c, r) :: Pos(c, r)
  }

  /** The number of mined cells among the neighbours of (c, r), counting
      from the k-th neighbour on. */
  function AdjacentMinesFrom(t: Table, c: int, r: int, k: nat): (n: nat)
    requires Valid(t) && k <= Neighbor
    ensures n <= Neighbor - k
    decreases Neighbor - k
  {
    if k == Neighbor then 0
    else
      var c2, r2 := NeighbourColumn(c, k), NeighbourRow(r, k);
      (if OnTable(t, c2, r2) && HasMine(t, c2 as nat, r2 as nat) then 1 else 0)
        + AdjacentMinesFrom(t, c, r, k + 1)
  }

  /** The number of mined neighbours of (c, r); at most eight. */
  function AdjacentMines(t: Table, c: int, r: int): nat
    requires Valid(t)
  {
    AdjacentMinesFrom(t, c, r, 0)
  }

  /** The state seeding keeps: nothing is flagged or uncovered, and every
      mine-free cell holds exactly the number of its mined neighbours as its
      whole value. */
  ghost predicate Seeded(t: Table) {
    && Valid(t)
    && forall c: nat, r: nat | InBounds(t, c, r) ::
         && !IsFlagged(t, c, r) && !IsUncovered(t, c, r)
         && (!HasMine(t, c, r) ==> GetCell(t, c, r) == AdjacentMines(t, c, r) as bv32)
  }

  /** The mine counts depend on the mine bits only. */
  lemma {:induction false} SameMinesSameCounts(t1: Table, t2: Table, c: int, r: int, k: nat)
    requires Valid(t1) && Valid(t2) && t1.width == t2.width && t1.height == t2.height
    requires forall c2: nat, r2: nat | InBounds(t1, c2, r2) :: HasMine(t1, c2, r2) == HasMine(t2, c2, r2)
    requires k <= Neighbor
    ensures AdjacentMinesFrom(t1, c, r, k) == AdjacentMinesFrom(t2, c, r, k)
    decreases Neighbor - k
  {
    if k < Neighbor {
      SameMinesSameCounts(t1, t2, c, r, k + 1);
    }
  }

  /** Mining a mine-free cell p adds one to the count of exactly the cells
      that have p among the neighbours still to be counted. */
  lemma {:induction false} PutMineCounts(t: Table, pc: nat, pr: nat, c: int, r: int, k: nat)
    requires Valid(t) && InBounds(t, pc, pr) && !HasMine(t, pc, pr)
    requires k <= Neighbor
    ensures AdjacentMinesFrom(PutMine(t, pc, pr), c, r, k)
      == AdjacentMinesFrom(t, c, r, k) + (if k <= OffsetIndex(pc - c, pr - r) < Neighbor then 1 else 0)
    decreases Neighbor - k
  {
    if k < Neighbor {
      PutMineCounts(t, pc, pr, c, r, k + 1);
      PutMineTerm(t, pc, pr, c, r, k);
    }
  }

  /** The k-th neighbour's share of the count after mining p. */
  lemma PutMineTerm(t: Table, pc: nat, pr: nat, c: int, r: int, k: nat)
    requires Valid(t) && InBounds(t, pc, pr) && !HasMine(t, pc, pr)
    requires k < Neighbor
    ensures var t1, c2, r2 := PutMine(t, pc, pr), NeighbourColumn(c, k), NeighbourRow(r, k);
      (if OnTable(t1, c2, r2) && HasMine(t1, c2 as nat, r2 as nat) then 1 else 0)
      == (if OnTable(t, c2, r2) && HasMine(t, c2 as nat, r2 as nat) then 1 else 0)
         + (if OffsetIndex(pc - c, pr - r) == k then 1 else 0)
  {
    var c2, r2 := NeighbourColumn(c, k), NeighbourRow(r, k);
    NeighbourhoodIsComplete(c, r, pc, pr, k);
    if OnTable(t, c2, r2) {
      PutMineMines(t, pc, pr, c2 as nat, r2 as nat);
    }
  }

  /** The inner loop of `set_mine` around a newly mined cell p: each of the
      eight neighbours that is on the table and holds no mine has its whole
      cell value incremented, with 32-bit wrap-around as in C. */
  method BumpNeighbours(t: Table, pc: nat, pr: nat) returns (t': Table)
    requires Valid(t) && InBounds(t, pc, pr) && HasMine(t, pc, pr)
    ensures Bumped(t, t', pc, pr)
  {
    t' := t;
    var j := 0;
    while j < Neighbor
      invariant 0 <= j <= Neighbor
      invariant BumpedBelow(t, t', pc, pr, j)
    {
      var c, r := NeighbourColumn(pc, j), NeighbourRow(pr, j);
      ghost var before := t';
      if OnTable(t', c, r) && !HasMine(t', c as nat, r as nat) {
        t' := SetCell(t', c as nat, r as nat, GetCell(t', c as nat, r as nat) + 1);
      }
      BumpStep(t, before, t', pc, pr, j);
      j := j + 1;
    }
    BumpedAll(t, t', pc, pr);
  }

  /** The body of a placing round of `set_mine`: `put_mine`, then the
      neighbour loop. */
  method PlaceMine(t: Table, pc: nat, pr: nat) returns (t': Table)
    requires Valid(t) && InBounds(t, pc, pr)
    ensures Bumped(PutMine(t, pc, pr), t', pc, pr)
  {
    var t1 := PutMine(t, pc, pr);
    PutMineMines(t, pc, pr, pc, pr);
    t' := BumpNeighbours(t1, pc, pr);
  }

  /** The table `t'` is `t` with the whole value of every mine-free cell
      adjacent to p incremented, and every other cell as it was. */
  ghost predicate Bumped(t: Table, t': Table, pc: nat, pr: nat) {
    && Valid(t) && Valid(t') && t'.width == t.width && t'.height == t.height
    && forall c: nat, r: nat | InBounds(t, c, r) ::
         GetCell(t', c, r) == if Adjacent(pc, pr, c, r) && !HasMine(t, c, r)
                              then GetCell(t, c, r) + 1 else GetCell(t, c, r)
  }

  /** The table `t'` is `t` with the mine-free neighbours of p among the
      first j incremented. */
  ghost predicate BumpedBelow(t: Table, t': Table, pc: nat, pr: nat, j: nat) {
    && Valid(t) && Valid(t') && t'.width == t.width && t'.height == t.height
    && forall c: nat, r: nat | InBounds(t, c, r) ::
         GetCell(t', c, r) == if OffsetIndex(c - pc, r - pr) < j && !HasMine(t, c, r)
                              then GetCell(t, c, r) + 1 else GetCell(t, c, r)
  }

  /** One turn of the loop of `BumpNeighbours`. */
  lemma BumpStep(t: Table, t1: Table, t2: Table, pc: nat, pr: nat, j: nat)
    requires j < Neighbor && BumpedBelow(t, t1, pc, pr, j)
    requires var c, r := NeighbourColumn(pc, j), NeighbourRow(pr, j);
      t2 == if OnTable(t1, c, r) && !HasMine(t1, c as nat, r as nat)
            then SetCell(t1, c as nat, r as nat, GetCell(t1, c as nat, r as nat) + 1)
            else t1
    ensures BumpedBelow(t, t2, pc, pr, j + 1)
  {
    var c, r := NeighbourColumn(pc, j), NeighbourRow(pr, j);
    NeighbourhoodIsComplete(pc, pr, c, r, j);
    if OnTable(t1, c, r) {
      assert GetCell(t1, c as nat, r as nat) == GetCell(t, c as nat, r as nat);
    }
    forall c2: nat, r2: nat | InBounds(t, c2, r2)
      ensures GetCell(t2, c2, r2) == if OffsetIndex(c2 - pc, r2 - pr) < j + 1 && !HasMine(t, c2, r2)
                                     then GetCell(t, c2, r2) + 1 else GetCell(t, c2, r2)
    {
      NeighbourhoodIsComplete(pc, pr, c2, r2, j);
    }
  }

  /** After all eight turns the incremented cells are the adjacent ones. */
  lemma BumpedAll(t: Table, t': Table, pc: nat, pr: nat)
    requires BumpedBelow(t, t', pc, pr, Neighbor)
    ensures Bumped(t, t', pc, pr)
  {
    forall c: nat, r: nat | InBounds(t, c, r)
      ensures (OffsetIndex(c - pc, r - pr) < Neighbor) == Adjacent(pc, pr, c, r)
    {
      NeighbourhoodIsComplete(pc, pr, c, r, 0);
    }
  }

  /** The whole-cell increment of a count below eight lands on the next
      count: it never carries into the flag bit. */
  lemma IncrementStaysInCount(k: nat)
    requires k < Neighbor
    ensures (k as bv32) + 1 == (k + 1) as bv32
    ensures ViewOf((k + 1) as bv32) == CellView(k + 1, false, false, false)
  {
    CountCell(k + 1);
  }

  /** A count stored as the whole cell value reads back as the count, with
      no flag, uncovered mark or mine. */
  lemma CountCell(k: nat)
    requires k <= Neighbor
    ensures ViewOf(k as bv32) == CellView(k, false, false, false)
  {
  }

  /** Mining a cell that holds only its count keeps the count and sets
      neither the flag nor the uncovered mark. */
  lemma MinedCountCell(k: nat)
    requires k <= Neighbor
    ensures ViewOf(Set(k as bv32, MineMask)) == CellView(k, false, false, true)
  {
  }

  /** One round of `set_mine` that places a mine keeps the table seeded and
      adds exactly that cell to the mined ones. */
  lemma PlaceKeepsSeeded(t: Table, pc: nat, pr: nat, t2: Table)
    requires Seeded(t) && InBounds(t, pc, pr) && !HasMine(t, pc, pr)
    requires Bumped(PutMine(t, pc, pr), t2, pc, pr)
    ensures Seeded(t2)
    ensures MineCells(t2) == MineCells(t) + {Pos(pc, pr)}
  {
    PlacedCells(t, pc, pr, t2);
    PlacedCountsAgree(t, pc, pr, t2);
    PlacedMineCells(t, pc, pr, t2);
  }

  lemma PlacedMineCells(t: Table, pc: nat, pr: nat, t2: Table)
    requires Valid(t) && Valid(t2) && t2.width == t.width && t2.height == t.height
    requires InBounds(t, pc, pr)
    requires forall c: nat, r: nat | InBounds(t, c, r) ::
      HasMine(t2, c, r) == (HasMine(t, c, r) || (c == pc && r == pr))
    ensures MineCells(t2) == MineCells(t) + {Pos(pc, pr)}
  {
    forall p | p in MineCells(t2)
      ensures p in MineCells(t) + {Pos(pc, pr)}
    {
    }
    forall p | p in MineCells(t) + {Pos(pc, pr)}
      ensures p in MineCells(t2)
    {
    }
  }

  lemma PlacedCountsAgree(t: Table, pc: nat, pr: nat, t2: Table)
    requires Seeded(t) && InBounds(t, pc, pr) && !HasMine(t, pc, pr)
    requires Bumped(PutMine(t, pc, pr), t2, pc, pr)
    requires forall c: nat, r: nat | InBounds(t, c, r) ::
      HasMine(t2, c, r) == (HasMine(t, c, r) || (c == pc && r == pr))
    ensures forall c: nat, r: nat | InBounds(t, c, r) ::
      AdjacentMines(t2, c, r) == AdjacentMines(PutMine(t, pc, pr), c, r)
  {
    var t1 := PutMine(t, pc, pr);
    PutMineMinesAll(t, pc, pr);
    forall c: nat, r: nat | InBounds(t, c, r)
      ensures AdjacentMines(t2, c, r) == AdjacentMines(t1, c, r)
    {
      SameMinesSameCounts(t1, t2, c, r, 0);
    }
  }

  /** After `put_mine` the mined cells are the old ones and the new one. */
  lemma PutMineMinesAll(t: Table, pc: nat, pr: nat)
    requires Valid(t) && InBounds(t, pc, pr)
    ensures forall c: nat, r: nat | InBounds(t, c, r) ::
      HasMine(PutMine(t, pc, pr), c, r) == (HasMine(t, c, r) || (c == pc && r == pr))
  {
    forall c: nat, r: nat | InBounds(t, c, r)
      ensures HasMine(PutMine(t, pc, pr), c, r) == (HasMine(t, c, r) || (c == pc && r == pr))
    {
      PutMineMines(t, pc, pr, c, r);
    }
  }

  /** What one placing round does to every cell. */
  lemma PlacedCells(t: Table, pc: nat, pr: nat, t2: Table)
    requires Seeded(t) && InBounds(t, pc, pr) && !HasMine(t, pc, pr)
    requires Bumped(PutMine(t, pc, pr), t2, pc, pr)
    ensures forall c: nat, r: nat | InBounds(t, c, r) ::
      && HasMine(t2, c, r) == (HasMine(t, c, r) || (c == pc && r == pr))
      && !IsFlagged(t2, c, r) && !IsUncovered(t2, c, r)
      && (!HasMine(t2, c, r) ==> GetCell(t2, c, r) == AdjacentMines(PutMine(t, pc, pr), c, r) as bv32)
  {
    var t1 := PutMine(t, pc, pr);
    forall c: nat, r: nat | InBounds(t, c, r)
      ensures HasMine(t2, c, r) == (HasMine(t, c, r) || (c == pc && r == pr))
      ensures !IsFlagged(t2, c, r) && !IsUncovered(t2, c, r)
      ensures !HasMine(t2, c, r) ==> GetCell(t2, c, r) == AdjacentMines(t1, c, r) as bv32
    {
      PlacedCell(t, pc, pr, t2, c, r);
    }
  }

  /** What one placing round does to a single cell. */
  lemma PlacedCell(t: Table, pc: nat, pr: nat, t2: Table, c: nat, r: nat)
    requires Seeded(t) && InBounds(t, pc, pr) && !HasMine(t, pc, pr)
    requires Valid(t2) && t2.width == t.width && t2.height == t.height && InBounds(t, c, r)
    requires var t1 := PutMine(t, pc, pr);
      GetCell(t2, c, r) == if Adjacent(pc, pr, c, r) && !HasMine(t1, c, r)
                           then GetCell(t1, c, r) + 1 else GetCell(t1, c, r)
    ensures HasMine(t2, c, r) == (HasMine(t, c, r) || (c == pc && r == pr))
    ensures !IsFlagged(t2, c, r) && !IsUncovered(t2, c, r)
    ensures !HasMine(t2, c, r) ==> GetCell(t2, c, r) == AdjacentMines(PutMine(t, pc, pr), c, r) as bv32
  {
    PutMineSpec(t, pc, pr);
    if c == pc && r == pr {
      PlacedAtMine(t, pc, pr, t2);
    } else {
      PutMineMines(t, pc, pr, c, r);
      if HasMine(t, c, r) {
        PlacedOtherMine(t, pc, pr, t2, c, r);
      } else {
        PlacedCounted(t, pc, pr, t2, c, r);
      }
    }
  }

  lemma PlacedAtMine(t: Table, pc: nat, pr: nat, t2: Table)
    requires Seeded(t) && InBounds(t, pc, pr) && !HasMine(t, pc, pr)
    requires Valid(t2) && t2.width == t.width && t2.height == t.height
    requires GetCell(t2, pc, pr) == GetCell(PutMine(t, pc, pr), pc, pr)
    ensures HasMine(t2, pc, pr)
    ensures !IsFlagged(t2, pc, pr) && !IsUncovered(t2, pc, pr)
  {
    PutMineSpec(t, pc, pr);
    QueriesReadFields(t, pc, pr);
    QueriesReadFields(t2, pc, pr);
    MinedCountCell(AdjacentMines(t, pc, pr));
  }

  lemma PlacedOtherMine(t: Table, pc: nat, pr: nat, t2: Table, c: nat, r: nat)
    requires Seeded(t) && InBounds(t, pc, pr) && InBounds(t, c, r) && HasMine(t, c, r)
    requires Valid(t2) && t2.width == t.width && t2.height == t.height
    requires GetCell(t2, c, r) == GetCell(t, c, r)
    ensures HasMine(t2, c, r)
    ensures !IsFlagged(t2, c, r) && !IsUncovered(t2, c, r)
  {
  }

  lemma PlacedCounted(t: Table, pc: nat, pr: nat, t2: Table, c: nat, r: nat)
    requires Seeded(t) && InBounds(t, pc, pr) && !HasMine(t, pc, pr)
    requires InBounds(t, c, r) && !HasMine(t, c, r) && (c != pc || r != pr)
    requires Valid(t2) && t2.width == t.width && t2.height == t.height
    requires GetCell(t2, c, r) == if Adjacent(pc, pr, c, r) then GetCell(t, c, r) + 1 else GetCell(t, c, r)
    ensures !HasMine(t2, c, r)
    ensures !IsFlagged(t2, c, r) && !IsUncovered(t2, c, r)
    ensures GetCell(t2, c, r) == AdjacentMines(PutMine(t, pc, pr), c, r) as bv32
  {
    var k := AdjacentMines(t, c, r);
    var k' := AdjacentMines(PutMine(t, pc, pr), c, r);
    assert GetCell(t, c, r) == k as bv32;
    CountAfterPut(t, pc, pr, c, r);
    assert k' == if Adjacent(pc, pr, c, r) then k + 1 else k;
    QueriesReadFields(t2, c, r);
    BumpedValue(GetCell(t, c, r), GetCell(t2, c, r), k, k', Adjacent(pc, pr, c, r));
  }

  lemma CountAfterPut(t: Table, pc: nat, pr: nat, c: nat, r: nat)
    requires Valid(t) && InBounds(t, pc, pr) && !HasMine(t, pc, pr)
    ensures AdjacentMines(PutMine(t, pc, pr), c, r) == AdjacentMines(t, c, r) + if Adjacent(pc, pr, c, r) then 1 else 0
  {
    PutMineCounts(t, pc, pr, c, r, 0);
    NeighbourhoodIsComplete(c, r, pc, pr, 0);
    NeighbourhoodIsComplete(pc, pr, c, r, 0);
  }

  lemma BumpedValue(x: bv32, y: bv32, k: nat, k': nat, bump: bool)
    requires k <= Neighbor && k' <= Neighbor && x == k as bv32
    requires k' == if bump then k + 1 else k
    requires y == if bump then x + 1 else x
    ensures y == k' as bv32
    ensures ViewOf(y) == CellView(k', false, false, false)
  {
    if bump {
      IncrementStaysInCount(k);
    } else {
      CountCell(k);
    }
  }

  /** `set_mine(n)` on the seeded table `t` (the zeroed table `new_game`
      has just allocated, say) with the oracle draws `draws`. It records n
      as the game's mine count and keeps drawing until n mines are placed;
      `used` draws are consumed and `placed` mines placed. The source loops
      for as long as it takes; this model also stops when the draws run
      out. The mined cells become the old ones plus every cell the consumed
      draws picked, and every other cell counts its mined neighbours. */
  method SetMine(t: Table, n: nat, draws: seq<Draw>) returns (t': Table, nMines: nat, placed: nat, used: nat)
    requires Seeded(t)
    requires n == 0 || (t.width > 0 && t.height > 0)
    ensures nMines == n
    ensures Seeded(t') && t'.width == t.width && t'.height == t.height
    ensures placed <= n && used <= |draws|
    ensures placed == n || used == |draws|
    ensures MineCells(t') == MineCells(t) + DrawnCells(draws[..used], t.width, t.height)
    ensures |MineCells(t')| == |MineCells(t)| + placed
    ensures |MineCells(t)| + placed <= t.width * t.height
    ensures |DrawnCells(draws, t.width, t.height) - MineCells(t)| >= n ==> placed == n
  {
    nMines := n;
    t' := t;
    placed := 0;
    used := 0;
    NoDrawsYet(t, draws);
    while placed < n && used < |draws|
      invariant placed <= n
      invariant Progress(t, t', draws, used, placed)
      decreases |draws| - used
    {
      t', placed := Round(t, t', draws, used, placed);
      used := used + 1;
    }
    MinesBounded(t');
    if placed < n {
      EnoughDrawn(t, t', draws, used, placed);
    }
  }

  /** Once every draw is consumed, the mines placed are the distinct free
      cells the draws picked. */
  lemma EnoughDrawn(t: Table, t': Table, draws: seq<Draw>, used: nat, placed: nat)
    requires Progress(t, t', draws, used, placed) && used == |draws|
    ensures placed == |DrawnCells(draws, t.width, t.height) - MineCells(t)|
  {
    assert draws[..used] == draws;
    UnionSize(MineCells(t), DrawnCells(draws, t.width, t.height));
  }

  /** One iteration of the `set_mine` loop: draw a row, then a column, and
      place a mine there unless the cell already holds one. */
  method Round(t: Table, t1: Table, draws: seq<Draw>, used: nat, placed: nat) returns (t2: Table, placed': nat)
    requires Progress(t, t1, draws, used, placed) && used < |draws|
    requires t.width > 0 && t.height > 0
    ensures Progress(t, t2, draws, used + 1, placed')
    ensures placed' == placed || placed' == placed + 1
  {
    var r := draws[used].rowRand % t.height;
    var c := draws[used].colRand % t.width;
    if !HasMine(t1, c, r) {
      t2 := PlaceMine(t1, c, r);
      PlaceRound(t, t1, t2, draws, used, placed);
      placed' := placed + 1;
    } else {
      SkipRound(t, t1, draws, used, placed);
      t2, placed' := t1, placed;
    }
  }

  /** The loop state of `set_mine` after `used` draws that placed `placed`
      mines. */
  ghost predicate Progress(t: Table, t': Table, draws: seq<Draw>, used: nat, placed: nat) {
    && Seeded(t) && Seeded(t') && t'.width == t.width && t'.height == t.height
    && used <= |draws|
    && MineCells(t') == MineCells(t) + DrawnCells(draws[..used], t.width, t.height)
    && |MineCells(t')| == |MineCells(t)| + placed
  }

  /** Before the first draw nothing has changed. */
  lemma NoDrawsYet(t: Table, draws: seq<Draw>)
    requires Seeded(t)
    ensures Progress(t, t, draws, 0, 0)
  {
    assert DrawnCells(draws[..0], t.width, t.height) == {};
  }

  /** A round whose drawn cell already holds a mine changes nothing but
      the number of draws consumed. */
  lemma SkipRound(t: Table, t1: Table, draws: seq<Draw>, used: nat, placed: nat)
    requires Progress(t, t1, draws, used, placed) && used < |draws|
    requires t.width > 0 && t.height > 0
    requires var p := DrawCell(draws[used], t.width, t.height);
      HasMine(t1, p.column, p.row)
    ensures Progress(t, t1, draws, used + 1, placed)
  {
    var p := DrawCell(draws[used], t.width, t.height);
    DrawnCellsGrow(draws, used, t.width, t.height);
    assert p in MineCells(t1);
  }

  /** A round whose drawn cell holds no mine places one there. */
  lemma PlaceRound(t: Table, t1: Table, t2: Table, draws: seq<Draw>, used: nat, placed: nat)
    requires Progress(t, t1, draws, used, placed) && used < |draws|
    requires t.width > 0 && t.height > 0
    requires var p := DrawCell(draws[used], t.width, t.height);
      !HasMine(t1, p.column, p.row) && Bumped(PutMine(t1, p.column, p.row), t2, p.column, p.row)
    ensures Progress(t, t2, draws, used + 1, placed + 1)
  {
    var p := DrawCell(draws[used], t.width, t.height);
    DrawnCellsGrow(draws, used, t.width, t.height);
    PlaceKeepsSeeded(t1, p.column, p.row, t2);
    assert p !in MineCells(t1);
  }

  /** One more draw adds its cell to the drawn ones. */
  lemma DrawnCellsGrow(draws: seq<Draw>, used: nat, width: nat, height: nat)
    requires width > 0 && height > 0 && used < |draws|
    ensures DrawnCells(draws[..used + 1], width, height)
      == DrawnCells(draws[..used], width, height) + {DrawCell(draws[used], width, height)}
  {
    var a := draws[..used];
    var b := draws[..used + 1];
    assert forall i | 0 <= i < |a| :: a[i] == b[i];
  }

  /** The zeroed table `init_table` allocates is seeded and holds no mine. */
  lemma ZeroTableIsSeeded(t0: Table, width: nat, height: nat)
    ensures Seeded(InitTable(t0, width, height).0)
    ensures MineCells(InitTable(t0, width, height).0) == {}
  {
    var t := InitTable(t0, width, height).0;
    CountCell(0);
    forall c: nat, r: nat | InBounds(t, c, r)
      ensures !HasMine(t, c, r) && !IsFlagged(t, c, r) && !IsUncovered(t, c, r)
    {
      QueriesReadFields(t, c, r);
    }
    forall c: nat, r: nat | InBounds(t, c, r)
      ensures GetCell(t, c, r) == AdjacentMines(t, c, r) as bv32
    {
      NoMinesNoCount(t, c, r, 0);
    }
  }

  lemma {:induction false} NoMinesNoCount(t: Table, c: int, r: int, k: nat)
    requires Valid(t) && k <= Neighbor
    requires forall c2: nat, r2: nat | InBounds(t, c2, r2) :: !HasMine(t, c2, r2)
    ensures AdjacentMinesFrom(t, c, r, k) == 0
    decreases Neighbor - k
  {
    if k < Neighbor {
      NoMinesNoCount(t, c, r, k + 1);
    }
  }

  /** On a seeded table a mine-free cell shows the number of its mined
      neighbours, at most eight, carries no flag and is covered. */
  lemma SeededCell(t: Table, c: nat, r: nat)
    requires Seeded(t) && InBounds(t, c, r) && !HasMine(t, c, r)
    ensures View(t, c, r) == CellView(AdjacentMines(t, c, r), false, false, false)
    ensures NumMines(t, c, r) == AdjacentMines(t, c, r) <= Neighbor
  {
    CountCell(AdjacentMines(t, c, r));
    QueriesReadFields(t, c, r);
  }

  /** The mined neighbours of (c, r) whose place in the visiting order is
      k or later. */
  ghost function NeighbourMines(t: Table, c: int, r: int, k: nat): set<Pos>
    requires Valid(t)
  {
    set p | p in MineCells(t) && k <= OffsetIndex(p.column - c, p.row - r) < Neighbor
  }

  /** The count the game stores is the number of mined cells adjacent to
      (c, r). */
  lemma MineCountIsAdjacentMines(t: Table, c: int, r: int)
    requires Valid(t)
    ensures AdjacentMines(t, c, r)
      == |set p | p in MineCells(t) && Adjacent(c, r, p.column, p.row)|
  {
    MinesFromIndex(t, c, r, 0);
    forall p: Pos
      ensures Adjacent(c, r, p.column, p.row) <==> OffsetIndex(p.column - c, p.row - r) < Neighbor
    {
      NeighbourhoodIsComplete(c, r, p.column, p.row, 0);
    }
    assert NeighbourMines(t, c, r, 0)
      == set p | p in MineCells(t) && Adjacent(c, r, p.column, p.row);
  }

  lemma {:induction false} MinesFromIndex(t: Table, c: int, r: int, k: nat)
    requires Valid(t) && k <= Neighbor
    ensures AdjacentMinesFrom(t, c, r, k) == |NeighbourMines(t, c, r, k)|
    decreases Neighbor - k
  {
    if k == Neighbor {
      assert NeighbourMines(t, c, r, k) == {};
    } else {
      MinesFromIndex(t, c, r, k + 1);
      NeighbourMinesSplit(t, c, r, k);
    }
  }

  /** The k-th neighbour of (c, r) as a set: itself when it is on the table
      and mined, nothing otherwise. */
  ghost function KthNeighbourMine(t: Table, c: int, r: int, k: nat): set<Pos>
    requires Valid(t) && k < Neighbor
  {
    var c2, r2 := NeighbourColumn(c, k), NeighbourRow(r, k);
    if OnTable(t, c2, r2) && HasMine(t, c2 as nat, r2 as nat) then {Pos(c2 as nat, r2 as nat)} else {}
  }

  lemma NeighbourMinesSplit(t: Table, c: int, r: int, k: nat)
    requires Valid(t) && k < Neighbor
    ensures NeighbourMines(t, c, r, k) == NeighbourMines(t, c, r, k + 1) + KthNeighbourMine(t, c, r, k)
    ensures NeighbourMines(t, c, r, k + 1) !! KthNeighbourMine(t, c, r, k)
    ensures |NeighbourMines(t, c, r, k)|
      == |NeighbourMines(t, c, r, k + 1)| + |KthNeighbourMine(t, c, r, k)|
  {
    forall p: Pos
      ensures p in NeighbourMines(t, c, r, k)
        <==> p in NeighbourMines(t, c, r, k + 1) || p in KthNeighbourMine(t, c, r, k)
    {
      NeighbourhoodIsComplete(c, r, p.column, p.row, k);
    }
    NeighbourhoodIsComplete(c, r, 0, 0, k);
  }

  /** Every cell of a width x height table. */
  ghost function AllCells(width: nat, height: nat): set<Pos> {
    set c: nat, r: nat | c < width && r < height :: Pos(c, r)
  }

  /** The cells of one row. */
  ghost function RowCells(width: nat, r: nat): set<Pos> {
    set c: nat | c < width :: Pos(c, r)
  }

  lemma {:induction false} RowCellsCount(width: nat, r: nat)
    ensures |RowCells(width, r)| == width
    decreases width
  {
    if width == 0 {
      assert RowCells(width, r) == {};
    } else {
      RowCellsCount(width - 1, r);
      assert RowCells(width, r) == RowCells(width - 1, r) + {Pos(width - 1, r)};
    }
  }

  /** A table has width x height cells. */
  lemma {:induction false} AllCellsCount(width: nat, height: nat)
    ensures |AllCells(width, height)| == width * height
    decreases height
  {
    if height == 0 {
      assert AllCells(width, height) == {};
    } else {
      AllCellsCount(width, height - 1);
      RowCellsCount(width, height - 1);
      assert AllCells(width, height) == AllCells(width, height - 1) + RowCells(width, height - 1);
      assert AllCells(width, height - 1) !! RowCells(width, height - 1);
      assert width * height == width * (height - 1) + width;
    }
  }

  /** No table holds more mines than cells. */
  lemma MinesBounded(t: Table)
    requires Valid(t)
    ensures |MineCells(t)| <= t.width * t.height
  {
    AllCellsCount(t.width, t.height);
    SubsetNoLarger(MineCells(t), AllCells(t.width, t.height));
  }
}
