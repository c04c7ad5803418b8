/** `uncover_blank_cell`: the recursive flood fill that opens a region of
    blank cells and the numbered cells around it. The C loop over the eight
    neighbours becomes `VisitNeighbours`, a function recursive in the
    neighbour index and mutually recursive with `UncoverBlankCell`. */
module Flood {
  import opened Bitmask
  import opened GridTable
  import opened Cells
  import opened Sets

  /** The addresses of the covered cells. */
  ghost function CoveredCells(t: Table): set<Pos>
    requires Valid(t)
  {
    set c: nat, r: nat | c < t.width && r < t.height && !IsUncovered(t, c, r) :: Pos(c, r)
  }

  /** `t'` comes from `t` by uncovering cells: the shape is the same, every
      bit other than the uncovered mark is the same in every cell, and no
      uncovered cell became covered again. */
  ghost predicate Grows(t: Table, t': Table) {
    && Valid(t) && Valid(t') && t'.width == t.width && t'.height == t.height
    && forall c: nat, r: nat | InBounds(t, c, r) ::
         && GetCell(t', c, r) & !UncoveredMask == GetCell(t, c, r) & !UncoveredMask
         && View(t', c, r) == View(t, c, r).(uncovered := View(t', c, r).uncovered)
         && (IsUncovered(t, c, r) ==> IsUncovered(t', c, r))
  }

  /** The cell is covered in `t` and uncovered in `t'`. */
  ghost predicate NewlyUncovered(t: Table, t': Table, c: nat, r: nat)
    requires Grows(t, t') && InBounds(t, c, r)
  {
    !IsUncovered(t, c, r) && IsUncovered(t', c, r)
  }

  /** No cell other than (column, row) went from covered to uncovered while
      holding a mine. */
  ghost predicate SafeExcept(t: Table, t': Table, column: nat, row: nat)
    requires Grows(t, t')
  {
    forall c: nat, r: nat | InBounds(t, c, r) && NewlyUncovered(t, t', c, r) && (c != column || r != row) ::
      !HasMine(t, c, r)
  }

  /** No mined cell went from covered to uncovered. */
  ghost predicate Safe(t: Table, t': Table)
    requires Grows(t, t')
  {
    forall c: nat, r: nat | InBounds(t, c, r) && NewlyUncovered(t, t', c, r) :: !HasMine(t, c, r)
  }

  /** The position (c, r), which may lie off the table, is off the table,
      holds a mine or is uncovered. */
  ghost predicate Settled(t: Table, c: int, r: int)
    requires Valid(t)
  {
    OnTable(t, c, r) ==> HasMine(t, c as nat, r as nat) || IsUncovered(t, c as nat, r as nat)
  }

  /** Every neighbour of (c, r) from the k-th on is settled. */
  ghost predicate NeighboursSettled(t: Table, c: int, r: int, k: nat)
    requires Valid(t)
  {
    forall j: nat | k <= j < Neighbor :: Settled(t, NeighbourColumn(c, j), NeighbourRow(r, j))
  }

  /** Every mine-free cell with no adjacent mine that went from covered to
      uncovered has all its neighbours settled: the fill never stops at a
      blank cell. */
  ghost predicate Closed(t: Table, t': Table)
    requires Grows(t, t')
  {
    forall c: nat, r: nat | InBounds(t, c, r) && NewlyUncovered(t, t', c, r) &&
      NumMines(t, c, r) == 0 && !HasMine(t, c, r) ::
      NeighboursSettled(t', c, r, 0)
  }

  /** The position (c, r) is on the table and is one the fill may open the
      neighbours of: the start, or a cell it newly uncovered that holds no
      mine and has no mined neighbour. */
  ghost predicate Feeds(t: Table, t': Table, column: nat, row: nat, c: int, r: int)
    requires Grows(t, t')
  {
    && OnTable(t, c, r)
    && ((c == column && r == row) ||
        (&& NewlyUncovered(t, t', c as nat, r as nat)
         && NumMines(t, c as nat, r as nat) == 0 && !HasMine(t, c as nat, r as nat)))
  }

  /** Some neighbour of (c, r) feeds the fill. */
  ghost predicate HasFeeder(t: Table, t': Table, column: nat, row: nat, c: nat, r: nat)
    requires Grows(t, t')
  {
    exists k: nat | k < Neighbor :: Feeds(t, t', column, row, NeighbourColumn(c, k), NeighbourRow(r, k))
  }

  /** Every cell other than the start that went from covered to uncovered
      has a neighbour feeding the fill: the fill opens only neighbours of
      the start and of the blank cells it reached, so it stops at numbered
      cells. */
  ghost predicate Supported(t: Table, t': Table, column: nat, row: nat)
    requires Grows(t, t')
  {
    forall c: nat, r: nat | InBounds(t, c, r) && NewlyUncovered(t, t', c, r) && (c != column || r != row) ::
      HasFeeder(t, t', column, row, c, r)
  }

  /** `uncover_blank_cell(col, row)`: uncover the cell, then visit its
      neighbours. The termination measure is the number of covered cells
      once the start is uncovered: every recursive entry is on a blank,
      hence covered, cell. */
  function UncoverBlankCell(t: Table, column: nat, row: nat): (t': Table)
    requires Valid(t) && InBounds(t, column, row)
    ensures Grows(t, t')
    ensures IsUncovered(t', column, row)
    ensures CoveredCells(t') <= CoveredCells(t) - {Pos(column, row)}
    ensures SafeExcept(t, t', column, row)
    ensures NeighboursSettled(t', column, row, 0)
    ensures Closed(t, t')
    ensures Supported(t, t', column, row)
    decreases |CoveredCells(UncoverCell(t, column, row))|, Neighbor + 1
  {
    UncoverShrinksCovered(t, column, row);
    var t1 := UncoverCell(t, column, row);
    var t' := VisitNeighbours(t1, column, row, 0);
    StartStep(t, t1, t', column, row);
    StartSupport(t, t1, t', column, row);
    t'
  }

  /** The loop of `uncover_blank_cell` from neighbour k on: a blank
      neighbour is flooded recursively, a covered mine-free one is
      uncovered, any other or off-table one is skipped. */
  function VisitNeighbours(t: Table, column: nat, row: nat, k: nat): (t': Table)
    requires Valid(t) && InBounds(t, column, row) && k <= Neighbor
    ensures Grows(t, t')
    ensures CoveredCells(t') <= CoveredCells(t)
    ensures Safe(t, t')
    ensures NeighboursSettled(t', column, row, k)
    ensures Closed(t, t')
    ensures Supported(t, t', column, row)
    decreases |CoveredCells(t)|, Neighbor - k
  {
    if k == Neighbor then
      GrowsRefl(t);
      t
    else
      var c := NeighbourColumn(column, k);
      var r := NeighbourRow(row, k);
      if OnTable(t, c, r) && IsBlankCell(t, c as nat, r as nat) then
        UncoverShrinksCovered(t, c as nat, r as nat);
        var t1 := UncoverBlankCell(t, c as nat, r as nat);
        SubsetNoLarger(CoveredCells(t1), CoveredCells(t));
        var t' := VisitNeighbours(t1, column, row, k + 1);
        FloodStep(t, t1, t', column, row, k);
        t'
      else if OnTable(t, c, r) && !IsUncovered(t, c as nat, r as nat) && !HasMine(t, c as nat, r as nat) then
        UncoverShrinksCovered(t, c as nat, r as nat);
        var t1 := UncoverCell(t, c as nat, r as nat);
        var t' := VisitNeighbours(t1, column, row, k + 1);
        UncoverStep(t, t1, t', column, row, k);
        t'
      else
        var t' := VisitNeighbours(t, column, row, k + 1);
        SkipStep(t, t', column, row, k);
        t'
  }

  // The proof steps of the two functions above, one lemma per branch.

  lemma GrowsRefl(t: Table)
    requires Valid(t)
    ensures Grows(t, t) && Safe(t, t) && Closed(t, t)
  {
  }

  lemma GrowsTrans(t: Table, t1: Table, t2: Table)
    requires Grows(t, t1) && Grows(t1, t2)
    ensures Grows(t, t2)
  {
  }

  /** Uncovering one cell is growth; it removes exactly that cell from the
      covered ones. */
  lemma UncoverShrinksCovered(t: Table, column: nat, row: nat)
    requires Valid(t) && InBounds(t, column, row)
    ensures Grows(t, UncoverCell(t, column, row))
    ensures CoveredCells(UncoverCell(t, column, row)) == CoveredCells(t) - {Pos(column, row)}
  {
    UncoverGrows(t, column, row);
    CoveredAfterUncover(t, UncoverCell(t, column, row), column, row);
  }

  lemma UncoverGrows(t: Table, column: nat, row: nat)
    requires Valid(t) && InBounds(t, column, row)
    ensures Grows(t, UncoverCell(t, column, row))
    ensures forall c: nat, r: nat | InBounds(t, c, r) ::
      IsUncovered(UncoverCell(t, column, row), c, r) == (IsUncovered(t, c, r) || (c == column && r == row))
  {
    var t' := UncoverCell(t, column, row);
    UncoverCellSpec(t, column, row);
    SetOutside(GetCell(t, column, row), UncoveredMask);
    forall c: nat, r: nat | InBounds(t, c, r)
      ensures GetCell(t', c, r) & !UncoveredMask == GetCell(t, c, r) & !UncoveredMask
      ensures View(t', c, r) == View(t, c, r).(uncovered := View(t', c, r).uncovered)
      ensures IsUncovered(t, c, r) ==> IsUncovered(t', c, r)
      ensures IsUncovered(t', c, r) == (IsUncovered(t, c, r) || (c == column && r == row))
    {
      QueriesReadFields(t, c, r);
      QueriesReadFields(t', c, r);
    }
  }

  lemma CoveredAfterUncover(t: Table, t': Table, column: nat, row: nat)
    requires Valid(t) && Valid(t') && t'.width == t.width && t'.height == t.height
    requires forall c: nat, r: nat | InBounds(t, c, r) ::
      IsUncovered(t', c, r) == (IsUncovered(t, c, r) || (c == column && r == row))
    ensures CoveredCells(t') == CoveredCells(t) - {Pos(column, row)}
  {
    forall p | p in CoveredCells(t')
      ensures p in CoveredCells(t) - {Pos(column, row)}
    {
    }
    forall p | p in CoveredCells(t) - {Pos(column, row)}
      ensures p in CoveredCells(t')
    {
    }
  }

  /** Settled neighbours stay settled as the table grows. */
  lemma SettledGrows(t: Table, t': Table, c: int, r: int, k: nat)
    requires Grows(t, t') && NeighboursSettled(t, c, r, k)
    ensures NeighboursSettled(t', c, r, k)
  {
    forall j: nat | k <= j < Neighbor
      ensures Settled(t', NeighbourColumn(c, j), NeighbourRow(r, j))
    {
      var c2, r2 := NeighbourColumn(c, j), NeighbourRow(r, j);
      if OnTable(t, c2, r2) {
        QueriesReadFields(t, c2 as nat, r2 as nat);
        QueriesReadFields(t', c2 as nat, r2 as nat);
      }
    }
  }

  /** Growth in two stages: safety and closure of both stages combine. */
  lemma Compose(t: Table, t1: Table, t2: Table, column: nat, row: nat)
    requires Grows(t, t1) && Grows(t1, t2)
    requires SafeExcept(t, t1, column, row) && Safe(t1, t2)
    requires Closed(t, t1) && Closed(t1, t2)
    ensures Grows(t, t2)
    ensures SafeExcept(t, t2, column, row)
    ensures Closed(t, t2)
  {
    GrowsTrans(t, t1, t2);
    forall c: nat, r: nat | InBounds(t, c, r) && NewlyUncovered(t, t2, c, r)
      ensures (c != column || r != row) ==> !HasMine(t, c, r)
      ensures NumMines(t, c, r) == 0 && !HasMine(t, c, r) ==> NeighboursSettled(t2, c, r, 0)
    {
      QueriesReadFields(t, c, r);
      QueriesReadFields(t1, c, r);
      if IsUncovered(t1, c, r) {
        if NumMines(t, c, r) == 0 && !HasMine(t, c, r) {
          SettledGrows(t1, t2, c, r, 0);
        }
      }
    }
  }

  /** The body of `UncoverBlankCell`. */
  lemma StartStep(t: Table, t1: Table, t': Table, column: nat, row: nat)
    requires Valid(t) && InBounds(t, column, row)
    requires t1 == UncoverCell(t, column, row)
    requires Grows(t1, t') && Safe(t1, t') && Closed(t1, t')
    requires CoveredCells(t') <= CoveredCells(t1)
    requires NeighboursSettled(t', column, row, 0)
    ensures Grows(t, t')
    ensures IsUncovered(t', column, row)
    ensures CoveredCells(t') <= CoveredCells(t) - {Pos(column, row)}
    ensures SafeExcept(t, t', column, row)
    ensures NeighboursSettled(t', column, row, 0)
    ensures Closed(t, t')
  {
    UncoverShrinksCovered(t, column, row);
    UncoverCellSpec(t, column, row);
    GrowsTrans(t, t1, t');
    QueriesReadFields(t1, column, row);
    QueriesReadFields(t', column, row);
    forall c: nat, r: nat | InBounds(t, c, r) && NewlyUncovered(t, t', c, r)
      ensures (c != column || r != row) ==> !HasMine(t, c, r)
      ensures NumMines(t, c, r) == 0 && !HasMine(t, c, r) ==> NeighboursSettled(t', c, r, 0)
    {
      QueriesReadFields(t, c, r);
      QueriesReadFields(t1, c, r);
    }
  }

  /** A blank neighbour is flooded by the recursive call. */
  lemma FloodStep(t: Table, t1: Table, t': Table, column: nat, row: nat, k: nat)
    requires Valid(t) && InBounds(t, column, row) && k < Neighbor
    requires OnTable(t, NeighbourColumn(column, k), NeighbourRow(row, k))
    requires IsBlankCell(t, NeighbourColumn(column, k) as nat, NeighbourRow(row, k) as nat)
    requires Grows(t, t1) && IsUncovered(t1, NeighbourColumn(column, k) as nat, NeighbourRow(row, k) as nat)
    requires SafeExcept(t, t1, NeighbourColumn(column, k) as nat, NeighbourRow(row, k) as nat)
    requires Closed(t, t1) && Supported(t, t1, NeighbourColumn(column, k) as nat, NeighbourRow(row, k) as nat)
    requires Grows(t1, t') && Safe(t1, t') && Closed(t1, t') && Supported(t1, t', column, row)
    requires NeighboursSettled(t', column, row, k + 1)
    ensures Grows(t, t') && Safe(t, t') && Closed(t, t') && Supported(t, t', column, row)
    ensures NeighboursSettled(t', column, row, k)
  {
    var c, r := NeighbourColumn(column, k) as nat, NeighbourRow(row, k) as nat;
    QueriesReadFields(t, c, r);
    Compose(t, t1, t', c, r);
    QueriesReadFields(t1, c, r);
    QueriesReadFields(t', c, r);
    FloodSupport(t, t1, t', column, row, k);
  }

  /** A covered, mine-free, numbered neighbour is uncovered alone. */
  lemma UncoverStep(t: Table, t1: Table, t': Table, column: nat, row: nat, k: nat)
    requires Valid(t) && InBounds(t, column, row) && k < Neighbor
    requires OnTable(t, NeighbourColumn(column, k), NeighbourRow(row, k))
    requires !IsBlankCell(t, NeighbourColumn(column, k) as nat, NeighbourRow(row, k) as nat)
    requires !IsUncovered(t, NeighbourColumn(column, k) as nat, NeighbourRow(row, k) as nat)
    requires !HasMine(t, NeighbourColumn(column, k) as nat, NeighbourRow(row, k) as nat)
    requires t1 == UncoverCell(t, NeighbourColumn(column, k) as nat, NeighbourRow(row, k) as nat)
    requires Grows(t1, t') && Safe(t1, t') && Closed(t1, t') && Supported(t1, t', column, row)
    requires NeighboursSettled(t', column, row, k + 1)
    ensures Grows(t, t') && Safe(t, t') && Closed(t, t') && Supported(t, t', column, row)
    ensures NeighboursSettled(t', column, row, k)
  {
    var c, r := NeighbourColumn(column, k) as nat, NeighbourRow(row, k) as nat;
    UncoverShrinksCovered(t, c, r);
    UncoverCellSpec(t, c, r);
    GrowsTrans(t, t1, t');
    QueriesReadFields(t, c, r);
    QueriesReadFields(t1, c, r);
    QueriesReadFields(t', c, r);
    forall c2: nat, r2: nat | InBounds(t, c2, r2) && NewlyUncovered(t, t', c2, r2)
      ensures !HasMine(t, c2, r2)
      ensures NumMines(t, c2, r2) == 0 && !HasMine(t, c2, r2) ==> NeighboursSettled(t', c2, r2, 0)
    {
      QueriesReadFields(t, c2, r2);
      QueriesReadFields(t1, c2, r2);
    }
    UncoverSupport(t, t1, t', column, row, k);
  }

  /** An off-table, uncovered or mined neighbour is skipped. */
  lemma SkipStep(t: Table, t': Table, column: nat, row: nat, k: nat)
    requires Valid(t) && InBounds(t, column, row) && k < Neighbor
    requires !(OnTable(t, NeighbourColumn(column, k), NeighbourRow(row, k)) &&
      IsBlankCell(t, NeighbourColumn(column, k) as nat, NeighbourRow(row, k) as nat))
    requires !(OnTable(t, NeighbourColumn(column, k), NeighbourRow(row, k)) &&
      !IsUncovered(t, NeighbourColumn(column, k) as nat, NeighbourRow(row, k) as nat) &&
      !HasMine(t, NeighbourColumn(column, k) as nat, NeighbourRow(row, k) as nat))
    requires Grows(t, t') && NeighboursSettled(t', column, row, k + 1)
    ensures NeighboursSettled(t', column, row, k)
  {
    var c, r := NeighbourColumn(column, k), NeighbourRow(row, k);
    if OnTable(t, c, r) {
      QueriesReadFields(t, c as nat, r as nat);
      QueriesReadFields(t', c as nat, r as nat);
    }
  }

  /* The proof that the fill stays within the neighbours of what it
     reached. */

  /** A cell that feeds the later stage of a fill fed the whole fill. */
  lemma FeedsLater(t: Table, t1: Table, t2: Table, column: nat, row: nat, c: int, r: int)
    requires Grows(t, t1) && Grows(t1, t2) && Grows(t, t2)
    requires Feeds(t1, t2, column, row, c, r)
    ensures Feeds(t, t2, column, row, c, r)
  {
    if c != column || r != row {
      QueriesReadFields(t, c as nat, r as nat);
      QueriesReadFields(t1, c as nat, r as nat);
    }
  }

  /** The cells the later stage of a fill newly uncovered keep their
      feeders in the whole fill. */
  lemma SupportLater(t: Table, t1: Table, t2: Table, column: nat, row: nat)
    requires Grows(t, t1) && Grows(t1, t2) && Grows(t, t2)
    requires Supported(t1, t2, column, row)
    ensures forall c: nat, r: nat | InBounds(t, c, r) && NewlyUncovered(t1, t2, c, r) && (c != column || r != row) ::
      HasFeeder(t, t2, column, row, c, r)
  {
    forall c: nat, r: nat | InBounds(t, c, r) && NewlyUncovered(t1, t2, c, r) && (c != column || r != row)
      ensures HasFeeder(t, t2, column, row, c, r)
    {
      var k: nat :| k < Neighbor && Feeds(t1, t2, column, row, NeighbourColumn(c, k), NeighbourRow(r, k));
      FeedsLater(t, t1, t2, column, row, NeighbourColumn(c, k), NeighbourRow(r, k));
    }
  }

  /** The start of a fill is a feeder of its own neighbours. */
  lemma StartFeeds(t: Table, t': Table, column: nat, row: nat, k: nat)
    requires Grows(t, t') && InBounds(t, column, row) && k < Neighbor
    requires OnTable(t, NeighbourColumn(column, k), NeighbourRow(row, k))
    ensures HasFeeder(t, t', column, row, NeighbourColumn(column, k) as nat, NeighbourRow(row, k) as nat)
  {
    NeighbourhoodIsSymmetric(column, row, k);
    var c, r := NeighbourColumn(column, k), NeighbourRow(row, k);
    assert Feeds(t, t', column, row, NeighbourColumn(c, 7 - k), NeighbourRow(r, 7 - k));
  }

  /** The body of `UncoverBlankCell` keeps every newly uncovered cell fed. */
  lemma StartSupport(t: Table, t1: Table, t': Table, column: nat, row: nat)
    requires Valid(t) && InBounds(t, column, row)
    requires t1 == UncoverCell(t, column, row)
    requires Grows(t, t1) && Grows(t1, t') && Grows(t, t')
    requires Supported(t1, t', column, row)
    ensures Supported(t, t', column, row)
  {
    UncoverGrows(t, column, row);
    SupportLater(t, t1, t', column, row);
  }

  /** A blank neighbour flooded by the recursive call: what the call opened
      is fed within it, and its start is fed by the start of the visit. */
  lemma FloodSupport(t: Table, t1: Table, t': Table, column: nat, row: nat, k: nat)
    requires Valid(t) && InBounds(t, column, row) && k < Neighbor
    requires OnTable(t, NeighbourColumn(column, k), NeighbourRow(row, k))
    requires IsBlankCell(t, NeighbourColumn(column, k) as nat, NeighbourRow(row, k) as nat)
    requires Grows(t, t1) && IsUncovered(t1, NeighbourColumn(column, k) as nat, NeighbourRow(row, k) as nat)
    requires Supported(t, t1, NeighbourColumn(column, k) as nat, NeighbourRow(row, k) as nat)
    requires Grows(t1, t') && Supported(t1, t', column, row)
    requires Grows(t, t')
    ensures Supported(t, t', column, row)
  {
    var c, r := NeighbourColumn(column, k) as nat, NeighbourRow(row, k) as nat;
    SupportLater(t, t1, t', column, row);
    StartFeeds(t, t', column, row, k);
    FloodFeeds(t, t1, t', column, row, k);
    forall c2: nat, r2: nat | InBounds(t, c2, r2) && NewlyUncovered(t, t', c2, r2) && (c2 != column || r2 != row)
      ensures HasFeeder(t, t', column, row, c2, r2)
    {
      QueriesReadFields(t1, c2, r2);
      QueriesReadFields(t', c2, r2);
    }
  }

  /** What the recursive flood of the k-th neighbour opened, other than
      that neighbour, is fed within the whole visit. */
  lemma FloodFeeds(t: Table, t1: Table, t': Table, column: nat, row: nat, k: nat)
    requires Valid(t) && InBounds(t, column, row) && k < Neighbor
    requires OnTable(t, NeighbourColumn(column, k), NeighbourRow(row, k))
    requires IsBlankCell(t, NeighbourColumn(column, k) as nat, NeighbourRow(row, k) as nat)
    requires Grows(t, t1) && IsUncovered(t1, NeighbourColumn(column, k) as nat, NeighbourRow(row, k) as nat)
    requires Supported(t, t1, NeighbourColumn(column, k) as nat, NeighbourRow(row, k) as nat)
    requires Grows(t1, t') && Grows(t, t')
    ensures forall c2: nat, r2: nat |
              && InBounds(t, c2, r2) && NewlyUncovered(t, t1, c2, r2)
              && (c2 != NeighbourColumn(column, k) || r2 != NeighbourRow(row, k)) ::
      HasFeeder(t, t', column, row, c2, r2)
  {
    var c, r := NeighbourColumn(column, k) as nat, NeighbourRow(row, k) as nat;
    forall c2: nat, r2: nat | InBounds(t, c2, r2) && NewlyUncovered(t, t1, c2, r2) && (c2 != c || r2 != r)
      ensures HasFeeder(t, t', column, row, c2, r2)
    {
      var j: nat :| j < Neighbor && Feeds(t, t1, c, r, NeighbourColumn(c2, j), NeighbourRow(r2, j));
      FeedsInner(t, t1, t', column, row, k, NeighbourColumn(c2, j), NeighbourRow(r2, j));
    }
  }

  /** A feeder of the recursive flood of the k-th neighbour feeds the
      whole visit. */
  lemma FeedsInner(t: Table, t1: Table, t': Table, column: nat, row: nat, k: nat, qc: int, qr: int)
    requires Valid(t) && InBounds(t, column, row) && k < Neighbor
    requires OnTable(t, NeighbourColumn(column, k), NeighbourRow(row, k))
    requires IsBlankCell(t, NeighbourColumn(column, k) as nat, NeighbourRow(row, k) as nat)
    requires Grows(t, t1) && IsUncovered(t1, NeighbourColumn(column, k) as nat, NeighbourRow(row, k) as nat)
    requires Grows(t1, t') && Grows(t, t')
    requires Feeds(t, t1, NeighbourColumn(column, k) as nat, NeighbourRow(row, k) as nat, qc, qr)
    ensures Feeds(t, t', column, row, qc, qr)
  {
    QueriesReadFields(t, qc as nat, qr as nat);
    QueriesReadFields(t1, qc as nat, qr as nat);
    QueriesReadFields(t', qc as nat, qr as nat);
  }

  /** A numbered neighbour uncovered alone is fed by the start. */
  lemma UncoverSupport(t: Table, t1: Table, t': Table, column: nat, row: nat, k: nat)
    requires Valid(t) && InBounds(t, column, row) && k < Neighbor
    requires OnTable(t, NeighbourColumn(column, k), NeighbourRow(row, k))
    requires t1 == UncoverCell(t, NeighbourColumn(column, k) as nat, NeighbourRow(row, k) as nat)
    requires Grows(t, t1) && Grows(t1, t') && Grows(t, t')
    requires Supported(t1, t', column, row)
    ensures Supported(t, t', column, row)
  {
    var c, r := NeighbourColumn(column, k) as nat, NeighbourRow(row, k) as nat;
    UncoverGrows(t, c, r);
    SupportLater(t, t1, t', column, row);
    StartFeeds(t, t', column, row, k);
  }
}
