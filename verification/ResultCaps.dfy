/** Capping what a session returns (src/session/mod.rs): text is cut at a character, rows and cells are
    dropped or replaced, and everything lost is flagged. */
module ResultCaps {
  import opened Bounds
  import opened Utf8Text

  datatype Reason = Rows | Bytes | CellBytes

  function Push(flags: seq<Reason>, reason: Reason): seq<Reason> {
    if reason in flags then flags else flags + [reason]
  }

  // ---- Text

  /** The longest prefix within the cap that ends at a character: valid, at most three bytes short of the
      cap, and flagged exactly when something was cut. */
  method CapString(s: bytes, max: nat) returns (r: bytes, cut: bool)
    requires ValidUtf8(s)
    ensures r <= s && |r| <= max && ValidUtf8(r) && Boundary(s, |r|)
    ensures cut <==> r != s
    ensures cut ==> |s| > max && max - |r| < 4 && forall j | |r| < j <= max :: !Boundary(s, j)
  {
    if |s| <= max {
      return s, false;
    }
    var end: nat := max;
    var near := BoundaryIsNear(s, max);
    while !Boundary(s, end)
      invariant near <= end <= max
      invariant forall j | end < j <= max :: !Boundary(s, j)
      decreases end
    {
      end := end - 1;
    }
    BoundaryExact(s, end);
    r, cut := s[..end], true;
    assert |r| < |s|;
  }

  // ---- Rows

  type Cell = string
  type Row = map<string, Cell>

  /** The caps, and the serialised sizes of cells and rows. */
  datatype Caps = Caps(rows: nat, cellBytes: nat, bytes: nat, cellSize: Cell -> nat, rowSize: Row -> nat, marker: Cell)

  predicate Oversized(cell: Cell, caps: Caps) {
    caps.cellSize(cell) > caps.cellBytes
  }

  function CappedCell(cell: Cell, caps: Caps): Cell {
    if Oversized(cell, caps) then caps.marker else cell
  }

  predicate OversizedAmong(row: Row, keys: set<string>, caps: Caps) {
    exists k :: k in keys && k in row && Oversized(row[k], caps)
  }

  predicate HasOversized(row: Row, caps: Caps) {
    OversizedAmong(row, row.Keys, caps)
  }

  /** The row with every oversized cell replaced by the marker. */
  function CappedRow(row: Row, caps: Caps): Row {
    map k | k in row :: CappedCell(row[k], caps)
  }

  function Flagged(oversized: bool, flags: seq<Reason>): seq<Reason> {
    if oversized then Push(flags, CellBytes) else flags
  }

  method InsertCappedCell(out: Row, key: string, cell: Cell, flags: seq<Reason>, caps: Caps) returns (row: Row, more: seq<Reason>)
    ensures row == out[key := CappedCell(cell, caps)]
    ensures more == Flagged(Oversized(cell, caps), flags)
    ensures row == out[key := if caps.cellSize(cell) > caps.cellBytes then caps.marker else cell]
    ensures flags <= more && forall x: Reason ::
      x in more <==> x in flags || (x == CellBytes && caps.cellSize(cell) > caps.cellBytes)
  {
    if Oversized(cell, caps) {
      return out[key := caps.marker], Push(flags, CellBytes);
    }
    row, more := out[key := cell], flags;
  }

  /** The first `keys` of a row are in. */
  ghost predicate CellsIn(row: Row, keys: set<string>, out: Row, caps: Caps) {
    out.Keys == keys && forall k | k in keys :: k in row && out[k] == CappedCell(row[k], caps)
  }

  lemma CellsInMore(row: Row, keys: set<string>, out: Row, k: string, caps: Caps)
    requires CellsIn(row, keys, out, caps) && k in row
    ensures CellsIn(row, keys + {k}, out[k := CappedCell(row[k], caps)], caps)
  {
  }

  lemma CellsInAll(row: Row, out: Row, caps: Caps)
    requires CellsIn(row, row.Keys, out, caps)
    ensures out == CappedRow(row, caps)
  {
  }

  lemma FlagsGrow(row: Row, keys: set<string>, k: string, flags: seq<Reason>, caps: Caps)
    requires k in row
    ensures Flagged(OversizedAmong(row, keys + {k}, caps), flags)
         == Flagged(Oversized(row[k], caps), Flagged(OversizedAmong(row, keys, caps), flags))
  {
    assert OversizedAmong(row, keys + {k}, caps) <==> OversizedAmong(row, keys, caps) || Oversized(row[k], caps);
  }

  method InsertCappedCells(row: Row, flags: seq<Reason>, caps: Caps) returns (out: Row, more: seq<Reason>)
    ensures out == CappedRow(row, caps)
    ensures more == Flagged(HasOversized(row, caps), flags)
  {
    out, more := map[], flags;
    var left := row.Keys;
    assert row.Keys - left == {};
    while left != {}
      invariant left <= row.Keys && CellsIn(row, row.Keys - left, out, caps)
      invariant more == Flagged(OversizedAmong(row, row.Keys - left, caps), flags)
      decreases |left|
    {
      var k :| k in left;
      TakeOne(row.Keys, left, k);
      FlagsGrow(row, row.Keys - left, k, flags, caps);
      CellsInMore(row, row.Keys - left, out, k, caps);
      out, more := InsertCappedCell(out, k, row[k], more, caps);
      left := left - {k};
    }
    assert row.Keys - left == row.Keys;
    CellsInAll(row, out, caps);
  }

  lemma TakeOne(all: set<string>, left: set<string>, k: string)
    requires k in left && left <= all
    ensures all - (left - {k}) == (all - left) + {k} && |left - {k}| < |left|
  {
  }

  function Total(rows: seq<Row>, caps: Caps): nat {
    if rows == [] then 0 else Total(rows[..|rows| - 1], caps) + caps.rowSize(rows[|rows| - 1])
  }

  function CappedRows(rows: seq<Row>, caps: Caps): (r: seq<Row>)
    ensures |r| == |rows| && forall i | 0 <= i < |rows| :: r[i] == CappedRow(rows[i], caps)
  {
    seq(|rows|, i requires 0 <= i < |rows| => CappedRow(rows[i], caps))
  }

  predicate AnyOversized(rows: seq<Row>, n: nat, caps: Caps)
    requires n <= |rows|
  {
    exists i :: 0 <= i < n && HasOversized(rows[i], caps)
  }

  function Least(a: nat, b: nat): nat {
    if a < b then a else b
  }

  /** The returned rows are the capped first rows, as many as fit; each flag says exactly what was lost. */
  ghost predicate CapsHonestly(rows: seq<Row>, out: seq<Row>, flags: seq<Reason>, caps: Caps) {
    var n := Least(|rows|, caps.rows);
    && |out| <= n && out == CappedRows(rows[..|out|], caps) && Total(out, caps) <= caps.bytes
    && (|out| < n ==> Total(out, caps) + caps.rowSize(CappedRow(rows[|out|], caps)) > caps.bytes)
    && (Rows in flags <==> |rows| > caps.rows)
    && (Bytes in flags <==> |out| < n)
    && (CellBytes in flags <==> AnyOversized(rows, if |out| < n then |out| + 1 else |out|, caps))
  }

  lemma OneMoreRow(rows: seq<Row>, i: nat, caps: Caps)
    requires i < |rows|
    ensures CappedRows(rows[..i], caps) + [CappedRow(rows[i], caps)] == CappedRows(rows[..i + 1], caps)
    ensures AnyOversized(rows, i + 1, caps) <==> AnyOversized(rows, i, caps) || HasOversized(rows[i], caps)
  {
  }

  lemma OneMoreTotal(out: seq<Row>, row: Row, caps: Caps)
    ensures Total(out + [row], caps) == Total(out, caps) + caps.rowSize(row)
  {
    assert (out + [row])[..|out|] == out;
  }

  method CapRows(rows: seq<Row>, caps: Caps) returns (out: seq<Row>, flags: seq<Reason>)
    ensures CapsHonestly(rows, out, flags, caps)
  {
    flags := if |rows| > caps.rows then [Rows] else [];
    out := [];
    var total := 0;
    var n := Least(|rows|, caps.rows);
    for i := 0 to n
      invariant out == CappedRows(rows[..i], caps) && total == Total(out, caps) <= caps.bytes
      invariant Rows in flags <==> |rows| > caps.rows
      invariant Bytes !in flags
      invariant CellBytes in flags <==> AnyOversized(rows, i, caps)
    {
      var row;
      row, flags := InsertCappedCells(rows[i], flags, caps);
      OneMoreRow(rows, i, caps);
      OneMoreTotal(out, row, caps);
      if total + caps.rowSize(row) > caps.bytes {
        flags := Push(flags, Bytes);
        return;
      }
      total := total + caps.rowSize(row);
      out := out + [row];
    }
  }

  /** What a returned row holds: the columns of its row, every cell over its cap replaced by the marker. */
  lemma CappedRowIs(row: Row, caps: Caps)
    ensures CappedRow(row, caps).Keys == row.Keys
    ensures forall k | k in row ::
      CappedRow(row, caps)[k] == if caps.cellSize(row[k]) > caps.cellBytes then caps.marker else row[k]
  {
  }

  /** Without a flag nothing is missing or replaced. */
  lemma NoFlagNoLoss(rows: seq<Row>, out: seq<Row>, caps: Caps)
    requires CapsHonestly(rows, out, [], caps)
    ensures out == rows
  {
    assert rows[..|out|] == rows;
    forall i | 0 <= i < |rows|
      ensures out[i] == rows[i]
    {
      assert !HasOversized(rows[i], caps);
      assert CappedRow(rows[i], caps) == rows[i];
    }
  }
}
