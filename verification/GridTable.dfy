/** The grid store: a row-major width x height table of 32-bit cells with
    whole-cell and bit-mask accessors. The process-wide table pointer and
    dimensions of the original become one `Table` value that every operation
    takes and returns. Allocation always succeeds in this model. */
module GridTable {
  import opened Bitmask

  /** The table storage: absent (a null pointer) or `height` rows of
      `width` cells each, indexed `rows[row][column]`. */
  datatype Storage = Null | Rows(rows: seq<seq<bv32>>)

  /** The store's state: the dimensions last given to `InitTable` and the
      storage. Releasing the storage leaves the dimensions as they were. */
  datatype Table = Table(width: nat, height: nat, storage: Storage)

  /** The state before any table exists: zero dimensions, no storage. */
  const NoTable: Table := Table(0, 0, Null)

  /** Storage exists and has the recorded shape. */
  predicate Valid(t: Table) {
    && t.storage.Rows?
    && |t.storage.rows| == t.height
    && forall r | 0 <= r < |t.storage.rows| :: |t.storage.rows[r]| == t.width
  }

  /** The accessors are defined only for a column below the width and a row
      below the height. */
  predicate InBounds(t: Table, column: nat, row: nat) {
    column < t.width && row < t.height
  }

  /** The bounds helper as the source writes it: it compares the column with
      the height and the row with the width. No accessor calls it. */
  predicate IsWithinBoundAsWritten(t: Table, column: nat, row: nat) {
    column < t.height && row < t.width
  }

  /** The all-zero storage of the given shape. */
  function Zeros(width: nat, height: nat): seq<seq<bv32>> {
    seq(height, _ => seq(width, _ => 0))
  }

  /** `init_table`: release any previous storage, record the dimensions and
      allocate a zeroed table. Always reports success. */
  function InitTable(t: Table, width: nat, height: nat): (res: (Table, bool))
    ensures res.1
    ensures Valid(res.0) && res.0.width == width && res.0.height == height
    ensures forall c: nat, r: nat | InBounds(res.0, c, r) :: GetCell(res.0, c, r) == 0
  {
    var released := if t.storage.Rows? then FreeTable(t).0 else t;
    (released.(width := width, height := height, storage := Rows(Zeros(width, height))), true)
  }

  /** `free_table`: report false when there is no storage, otherwise drop it
      and report true. The dimensions are not reset. */
  function FreeTable(t: Table): (res: (Table, bool))
    ensures res.1 <==> t.storage.Rows?
    ensures res.0.storage.Null?
    ensures res.0.width == t.width && res.0.height == t.height
  {
    if t.storage.Rows? then (t.(storage := Null), true) else (t, false)
  }

  /** `table_width` */
  function TableWidth(t: Table): nat {
    t.width
  }

  /** `table_height` */
  function TableHeight(t: Table): nat {
    t.height
  }

  /** `get_cell`: the cell at (column, row), stored at `[row][column]`. */
  function GetCell(t: Table, column: nat, row: nat): bv32
    requires Valid(t) && InBounds(t, column, row)
  {
    t.storage.rows[row][column]
  }

  /** `set_cell`: replace the whole cell at (column, row). */
  function SetCell(t: Table, column: nat, row: nat, value: bv32): (t': Table)
    requires Valid(t) && InBounds(t, column, row)
    ensures Valid(t') && t'.width == t.width && t'.height == t.height
    ensures GetCell(t', column, row) == value
    ensures forall c: nat, r: nat | InBounds(t, c, r) && (c != column || r != row) ::
      GetCell(t', c, r) == GetCell(t, c, r)
  {
    var rows := t.storage.rows;
    t.(storage := Rows(rows[row := rows[row][column := value]]))
  }

  /** `set_cell_mask`: OR the mask into the cell. */
  function SetCellMask(t: Table, column: nat, row: nat, mask: bv32): Table
    requires Valid(t) && InBounds(t, column, row)
  {
    SetCell(t, column, row, Set(GetCell(t, column, row), mask))
  }

  /** `clear_cell_mask`: remove the mask's bits from the cell. */
  function ClearCellMask(t: Table, column: nat, row: nat, mask: bv32): Table
    requires Valid(t) && InBounds(t, column, row)
  {
    SetCell(t, column, row, Clear(GetCell(t, column, row), mask))
  }

  /** `check_cell_mask`: every bit of the mask is set in the cell. */
  predicate CheckCellMask(t: Table, column: nat, row: nat, mask: bv32)
    requires Valid(t) && InBounds(t, column, row)
  {
    Check(GetCell(t, column, row), mask)
  }

  /** `get_mask`: the cell's bits that lie inside the mask. */
  function GetMask(t: Table, column: nat, row: nat, mask: bv32): bv32
    requires Valid(t) && InBounds(t, column, row)
  {
    GetCell(t, column, row) & mask
  }

  /** Re-initialising forgets everything about the previous table: the
      result depends only on the new dimensions. */
  lemma InitTableForgetsPrevious(t1: Table, t2: Table, width: nat, height: nat)
    ensures InitTable(t1, width, height) == InitTable(t2, width, height)
  {
  }

  /** The dimensions reported are those last given to `init_table`; cell
      writes and releasing the storage do not change them. */
  lemma DimensionsPersist(t: Table, width: nat, height: nat, column: nat, row: nat, value: bv32)
    requires column < width && row < height
    ensures var t1 := InitTable(t, width, height).0;
      && TableWidth(SetCell(t1, column, row, value)) == width
      && TableHeight(SetCell(t1, column, row, value)) == height
      && TableWidth(FreeTable(t1).0) == width
      && TableHeight(FreeTable(t1).0) == height
  {
  }

  /** Releasing twice: the second release reports that nothing was there. */
  lemma FreeTwiceReportsFalse(t: Table)
    ensures !FreeTable(FreeTable(t).0).1
  {
  }

  /** A whole-cell write is read back, and no other cell changes. */
  lemma SetThenGet(t: Table, column: nat, row: nat, value: bv32, c: nat, r: nat)
    requires Valid(t) && InBounds(t, column, row) && InBounds(t, c, r)
    ensures GetCell(SetCell(t, column, row, value), c, r)
      == if c == column && r == row then value else GetCell(t, c, r)
  {
  }

  /** `set_cell_mask` turns on every bit of the mask in the addressed cell,
      keeps its other bits and leaves every other cell alone. */
  lemma SetCellMaskSpec(t: Table, column: nat, row: nat, mask: bv32)
    requires Valid(t) && InBounds(t, column, row)
    ensures var t' := SetCellMask(t, column, row, mask);
      && Valid(t') && t'.width == t.width && t'.height == t.height
      && TurnedOn(GetCell(t', column, row), GetCell(t, column, row), mask)
      && forall c: nat, r: nat | InBounds(t, c, r) && (c != column || r != row) ::
           GetCell(t', c, r) == GetCell(t, c, r)
  {
    var v := GetCell(t, column, row);
    var t' := SetCellMask(t, column, row, mask);
    assert GetCell(t', column, row) == Set(v, mask);
    SetSpec(v, mask);
  }

  /** `clear_cell_mask` removes exactly the mask's bits from the addressed
      cell and leaves every other cell alone. */
  lemma ClearCellMaskSpec(t: Table, column: nat, row: nat, mask: bv32)
    requires Valid(t) && InBounds(t, column, row)
    ensures var t' := ClearCellMask(t, column, row, mask);
      && Valid(t') && t'.width == t.width && t'.height == t.height
      && TurnedOff(GetCell(t', column, row), GetCell(t, column, row), mask)
      && forall c: nat, r: nat | InBounds(t, c, r) && (c != column || r != row) ::
           GetCell(t', c, r) == GetCell(t, c, r)
  {
    var v := GetCell(t, column, row);
    var t' := ClearCellMask(t, column, row, mask);
    assert GetCell(t', column, row) == Clear(v, mask);
    ClearSpec(v, mask);
  }

  /** `check_cell_mask` is the all-bits test on the addressed cell. */
  lemma CheckCellMaskIsAllBits(t: Table, column: nat, row: nat, mask: bv32)
    requires Valid(t) && InBounds(t, column, row)
    ensures CheckCellMask(t, column, row, mask) <==> AllBitsOf(GetCell(t, column, row), mask)
  {
    CheckIsAllBits(GetCell(t, column, row), mask);
  }

  /** `get_mask` keeps the cell's bits inside the mask and nothing else. */
  lemma GetMaskSpec(t: Table, column: nat, row: nat, mask: bv32)
    requires Valid(t) && InBounds(t, column, row)
    ensures GetMask(t, column, row, mask) & !mask == 0
    ensures (GetMask(t, column, row, mask) ^ GetCell(t, column, row)) & mask == 0
  {
  }

  /** `InBounds` admits exactly the addresses the storage holds. */
  lemma InBoundsIsStorageAddress(t: Table, column: nat, row: nat)
    requires Valid(t)
    ensures InBounds(t, column, row)
      <==> row < |t.storage.rows| && column < |t.storage.rows[row]|
  {
  }

  /** The bounds helper as written admits an address outside the storage of
      a 5-wide, 10-high table: column 7 of row 0. */
  lemma WithinBoundAsWrittenAdmitsOutside()
    ensures var t := InitTable(NoTable, 5, 10).0;
      && IsWithinBoundAsWritten(t, 7, 0)
      && !(0 < |t.storage.rows| && 7 < |t.storage.rows[0]|)
  {
  }
}
