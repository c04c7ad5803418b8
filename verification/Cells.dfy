/** The cell encoding of the game and its per-cell queries and mutators.
    A cell keeps its number of adjacent mines in bits 0-3, the flag in
    bit 4, the uncovered mark in bit 5 and the mine in bit 6. The
    eight-cell neighbourhood is also defined here, in the order the game
    visits it. */
module Cells {
  import opened Bitmask
  import opened GridTable

  /** Cells in a neighbourhood. */
  const Neighbor: nat := 8
  /** Dimensions of a game started without a configuration. */
  const DefaultWidth: nat := 10
  const DefaultHeight: nat := 10

  const FlagMask: bv32 := 0x10
  const UncoveredMask: bv32 := 0x20
  const MineMask: bv32 := 0x40
  const NumMineMask: bv32 := 0x0f

  /** The three one-bit masks are BIT(4), BIT(5) and BIT(6). */
  lemma MasksAreBits()
    ensures FlagMask == Bit(4) && UncoveredMask == Bit(5) && MineMask == Bit(6)
  {
  }

  /** No two masks share a bit, so writing one field never touches another. */
  lemma MasksDisjoint()
    ensures FlagMask & UncoveredMask == 0 && FlagMask & MineMask == 0
    ensures UncoveredMask & MineMask == 0
    ensures NumMineMask & (FlagMask | UncoveredMask | MineMask) == 0
  {
  }

  /** A cell address. */
  datatype Pos = Pos(column: nat, row: nat)

  /** The four fields a cell encodes. */
  datatype CellView = CellView(count: nat, flagged: bool, uncovered: bool, mine: bool)

  /** The fields of a raw cell value, read with the game's masks. */
  function ViewOf(x: bv32): CellView {
    CellView((x & NumMineMask) as nat, Check(x, FlagMask), Check(x, UncoveredMask), Check(x, MineMask))
  }

  /** The fields of the cell at (column, row). */
  function View(t: Table, column: nat, row: nat): CellView
    requires Valid(t) && InBounds(t, column, row)
  {
    ViewOf(GetCell(t, column, row))
  }

  /** `has_mine` */
  predicate HasMine(t: Table, column: nat, row: nat)
    requires Valid(t) && InBounds(t, column, row)
  {
    CheckCellMask(t, column, row, MineMask)
  }

  /** `put_mine` */
  function PutMine(t: Table, column: nat, row: nat): Table
    requires Valid(t) && InBounds(t, column, row)
  {
    SetCellMask(t, column, row, MineMask)
  }

  /** `is_uncovered` */
  predicate IsUncovered(t: Table, column: nat, row: nat)
    requires Valid(t) && InBounds(t, column, row)
  {
    CheckCellMask(t, column, row, UncoveredMask)
  }

  /** `uncover_cell` */
  function UncoverCell(t: Table, column: nat, row: nat): Table
    requires Valid(t) && InBounds(t, column, row)
  {
    SetCellMask(t, column, row, UncoveredMask)
  }

  /** `is_flagged` */
  predicate IsFlagged(t: Table, column: nat, row: nat)
    requires Valid(t) && InBounds(t, column, row)
  {
    CheckCellMask(t, column, row, FlagMask)
  }

  /** `set_flag` */
  function SetFlag(t: Table, column: nat, row: nat): Table
    requires Valid(t) && InBounds(t, column, row)
  {
    SetCellMask(t, column, row, FlagMask)
  }

  /** `unset_flag` */
  function UnsetFlag(t: Table, column: nat, row: nat): Table
    requires Valid(t) && InBounds(t, column, row)
  {
    ClearCellMask(t, column, row, FlagMask)
  }

  /** `num_mines`: the adjacent-mine count stored in the cell. */
  function NumMines(t: Table, column: nat, row: nat): nat
    requires Valid(t) && InBounds(t, column, row)
  {
    GetMask(t, column, row, NumMineMask) as nat
  }

  /** `is_blank_cell`: a covered, mine-free cell with no adjacent mine. */
  predicate IsBlankCell(t: Table, column: nat, row: nat)
    requires Valid(t) && InBounds(t, column, row)
  {
    NumMines(t, column, row) == 0 && !IsUncovered(t, column, row) && !HasMine(t, column, row)
  }

  /** The queries read exactly the fields of the cell. */
  lemma QueriesReadFields(t: Table, column: nat, row: nat)
    requires Valid(t) && InBounds(t, column, row)
    ensures HasMine(t, column, row) == View(t, column, row).mine
    ensures IsUncovered(t, column, row) == View(t, column, row).uncovered
    ensures IsFlagged(t, column, row) == View(t, column, row).flagged
    ensures NumMines(t, column, row) == View(t, column, row).count < 16
  {
    CountAtBits(GetCell(t, column, row));
  }

  /** The queries read the bit positions of the cell layout: the mine in
      bit 6, the uncovered mark in bit 5, the flag in bit 4 and the count in
      the low four bits. */
  lemma QueriesReadBits(t: Table, column: nat, row: nat)
    requires Valid(t) && InBounds(t, column, row)
    ensures HasMine(t, column, row) == BitAt(GetCell(t, column, row), 6)
    ensures IsUncovered(t, column, row) == BitAt(GetCell(t, column, row), 5)
    ensures IsFlagged(t, column, row) == BitAt(GetCell(t, column, row), 4)
    ensures NumMines(t, column, row) == (GetCell(t, column, row) % 16) as nat
  {
    QueriesReadFields(t, column, row);
    FieldsAtBits(GetCell(t, column, row));
  }

  /** The fields of a raw value sit at the bit positions of the layout. */
  lemma FieldsAtBits(x: bv32)
    ensures ViewOf(x).mine == BitAt(x, 6) && ViewOf(x).uncovered == BitAt(x, 5)
    ensures ViewOf(x).flagged == BitAt(x, 4) && ViewOf(x).count == (x % 16) as nat < 16
  {
    MineAtBit(x);
    UncoveredAtBit(x);
    FlagAtBit(x);
    CountAtBits(x);
  }

  lemma MineAtBit(x: bv32)
    ensures ViewOf(x).mine == BitAt(x, 6)
  {
  }

  lemma UncoveredAtBit(x: bv32)
    ensures ViewOf(x).uncovered == BitAt(x, 5)
  {
  }

  lemma FlagAtBit(x: bv32)
    ensures ViewOf(x).flagged == BitAt(x, 4)
  {
  }

  lemma CountAtBits(x: bv32)
    ensures ViewOf(x).count == (x % 16) as nat < 16
  {
  }

  /** A blank cell is one whose count, uncovered and mine bits are all zero;
      the flag plays no part. */
  lemma BlankCellBits(t: Table, column: nat, row: nat)
    requires Valid(t) && InBounds(t, column, row)
    ensures IsBlankCell(t, column, row) <==> GetCell(t, column, row) & 0x6f == 0
  {
    BlankBits(GetCell(t, column, row));
  }

  lemma BlankBits(x: bv32)
    ensures (x & NumMineMask == 0 && !Check(x, UncoveredMask) && !Check(x, MineMask)) <==> x & 0x6f == 0
  {
  }

  // How each mask write changes the fields of a raw value.

  lemma PutMineField(x: bv32)
    ensures ViewOf(Set(x, MineMask)) == ViewOf(x).(mine := true)
  {
  }

  lemma UncoverField(x: bv32)
    ensures ViewOf(Set(x, UncoveredMask)) == ViewOf(x).(uncovered := true)
  {
  }

  lemma SetFlagField(x: bv32)
    ensures ViewOf(Set(x, FlagMask)) == ViewOf(x).(flagged := true)
  {
  }

  lemma UnsetFlagField(x: bv32)
    ensures ViewOf(Clear(x, FlagMask)) == ViewOf(x).(flagged := false)
  {
  }

  /** The table after a write to (column, row) holds the same cells as
      before everywhere else. */
  ghost predicate OthersUnchanged(t: Table, t': Table, column: nat, row: nat)
    requires Valid(t) && Valid(t') && t'.width == t.width && t'.height == t.height
  {
    forall c: nat, r: nat | InBounds(t, c, r) && (c != column || r != row) ::
      GetCell(t', c, r) == GetCell(t, c, r)
  }

  /** `put_mine` marks the mine and changes nothing else: not the count,
      the flag or the uncovered mark of the cell, and no other cell. */
  lemma PutMineSpec(t: Table, column: nat, row: nat)
    requires Valid(t) && InBounds(t, column, row)
    ensures var t' := PutMine(t, column, row);
      && Valid(t') && t'.width == t.width && t'.height == t.height
      && View(t', column, row) == View(t, column, row).(mine := true)
      && OthersUnchanged(t, t', column, row)
  {
    PutMineField(GetCell(t, column, row));
  }

  /** After `put_mine` a cell holds a mine when it did before or it is the
      cell mined. */
  lemma PutMineMines(t: Table, pc: nat, pr: nat, c: nat, r: nat)
    requires Valid(t) && InBounds(t, pc, pr) && InBounds(t, c, r)
    ensures HasMine(PutMine(t, pc, pr), c, r) == (HasMine(t, c, r) || (c == pc && r == pr))
  {
    PutMineSpec(t, pc, pr);
    QueriesReadFields(t, c, r);
    QueriesReadFields(PutMine(t, pc, pr), c, r);
  }

  /** `uncover_cell` sets the uncovered mark and changes nothing else. */
  lemma UncoverCellSpec(t: Table, column: nat, row: nat)
    requires Valid(t) && InBounds(t, column, row)
    ensures var t' := UncoverCell(t, column, row);
      && Valid(t') && t'.width == t.width && t'.height == t.height
      && View(t', column, row) == View(t, column, row).(uncovered := true)
      && OthersUnchanged(t, t', column, row)
  {
    UncoverField(GetCell(t, column, row));
  }

  /** `set_flag` makes the cell flagged and changes nothing else. */
  lemma SetFlagSpec(t: Table, column: nat, row: nat)
    requires Valid(t) && InBounds(t, column, row)
    ensures var t' := SetFlag(t, column, row);
      && Valid(t') && t'.width == t.width && t'.height == t.height
      && View(t', column, row) == View(t, column, row).(flagged := true)
      && OthersUnchanged(t, t', column, row)
  {
    SetFlagField(GetCell(t, column, row));
  }

  /** `unset_flag` makes the cell unflagged and changes nothing else. */
  lemma UnsetFlagSpec(t: Table, column: nat, row: nat)
    requires Valid(t) && InBounds(t, column, row)
    ensures var t' := UnsetFlag(t, column, row);
      && Valid(t') && t'.width == t.width && t'.height == t.height
      && View(t', column, row) == View(t, column, row).(flagged := false)
      && OthersUnchanged(t, t', column, row)
  {
    UnsetFlagField(GetCell(t, column, row));
  }

  lemma SetFlagTwice(x: bv32)
    ensures Set(Set(x, FlagMask), FlagMask) == Set(x, FlagMask)
  {
  }

  lemma UnsetFlagTwice(x: bv32)
    ensures Clear(Clear(x, FlagMask), FlagMask) == Clear(x, FlagMask)
  {
  }

  /** Setting or clearing a flag a second time changes nothing. */
  lemma FlagIdempotent(t: Table, column: nat, row: nat)
    requires Valid(t) && InBounds(t, column, row)
    ensures SetFlag(SetFlag(t, column, row), column, row) == SetFlag(t, column, row)
    ensures UnsetFlag(UnsetFlag(t, column, row), column, row) == UnsetFlag(t, column, row)
  {
    var x := GetCell(t, column, row);
    SetFlagTwice(x);
    UnsetFlagTwice(x);
    var t1 := SetFlag(t, column, row);
    assert GetCell(t1, column, row) == Set(x, FlagMask);
    RewriteSameCell(t, column, row, Set(x, FlagMask), Set(x, FlagMask));
    var t2 := UnsetFlag(t, column, row);
    assert GetCell(t2, column, row) == Clear(x, FlagMask);
    RewriteSameCell(t, column, row, Clear(x, FlagMask), Clear(x, FlagMask));
  }

  /** Writing v over a cell of t1, a table that differs from t at most in
      that cell, gives the same table as writing v over the cell of t. */
  lemma RewriteSameCell(t: Table, column: nat, row: nat, u: bv32, v: bv32)
    requires Valid(t) && InBounds(t, column, row)
    ensures SetCell(SetCell(t, column, row, u), column, row, v) == SetCell(t, column, row, v)
  {
    var rows := t.storage.rows;
    var rows1 := SetCell(t, column, row, u).storage.rows;
    assert rows1[row] == rows[row][column := u];
    assert rows1[row][column := v] == rows[row][column := v];
  }

  /* The neighbourhood. The game visits the eight neighbours of (c, r) in
     this order: (c+1, r-1), (c+1, r), (c+1, r+1), (c, r-1), (c, r+1),
     (c-1, r-1), (c-1, r), (c-1, r+1). */

  const ColumnOffsets: seq<int> := [1, 1, 1, 0, 0, -1, -1, -1]
  const RowOffsets: seq<int> := [-1, 0, 1, -1, 1, -1, 0, 1]

  /** The column of the k-th neighbour of column c; it may lie outside the table. */
  function NeighbourColumn(c: int, k: nat): int
    requires k < Neighbor
  {
    c + ColumnOffsets[k]
  }

  /** The row of the k-th neighbour of row r; it may lie outside the table. */
  function NeighbourRow(r: int, k: nat): int
    requires k < Neighbor
  {
    r + RowOffsets[k]
  }

  /** The game's bounds test on signed positions: no negative index and
      nothing past the last row or column. */
  predicate OnTable(t: Table, c: int, r: int) {
    0 <= r < t.height && 0 <= c < t.width
  }

  /** Two distinct positions are adjacent when neither coordinate differs
      by more than one. */
  predicate Adjacent(c1: int, r1: int, c2: int, r2: int) {
    (c1 != c2 || r1 != r2) && -1 <= c2 - c1 <= 1 && -1 <= r2 - r1 <= 1
  }

  /** The index of offset (dc, dr) in the visiting order, or 8 when it is
      not an offset to a neighbour. */
  function OffsetIndex(dc: int, dr: int): (k: nat)
    ensures k <= Neighbor
  {
    if dc == 1 && dr == -1 then 0
    else if dc == 1 && dr == 0 then 1
    else if dc == 1 && dr == 1 then 2
    else if dc == 0 && dr == -1 then 3
    else if dc == 0 && dr == 1 then 4
    else if dc == -1 && dr == -1 then 5
    else if dc == -1 && dr == 0 then 6
    else if dc == -1 && dr == 1 then 7
    else 8
  }

  /** The eight offsets are exactly the neighbours, each visited once: the
      k-th neighbour is adjacent and has index k, and every adjacent
      position is the neighbour whose index its offset names. */
  lemma NeighbourhoodIsComplete(c: int, r: int, c2: int, r2: int, k: nat)
    requires k < Neighbor
    ensures Adjacent(c, r, NeighbourColumn(c, k), NeighbourRow(r, k))
    ensures OffsetIndex(NeighbourColumn(c, k) - c, NeighbourRow(r, k) - r) == k
    ensures Adjacent(c, r, c2, r2) <==> OffsetIndex(c2 - c, r2 - r) < Neighbor
    ensures Adjacent(c, r, c2, r2) ==>
      var j := OffsetIndex(c2 - c, r2 - r);
      NeighbourColumn(c, j) == c2 && NeighbourRow(r, j) == r2
  {
  }

  /** The visiting order is symmetric: if (c2, r2) is the k-th neighbour of
      (c, r), then (c, r) is the (7-k)-th neighbour of (c2, r2). */
  lemma NeighbourhoodIsSymmetric(c: int, r: int, k: nat)
    requires k < Neighbor
    ensures NeighbourColumn(NeighbourColumn(c, k), 7 - k) == c
    ensures NeighbourRow(NeighbourRow(r, k), 7 - k) == r
  {
  }
}
