/**
 Reading one cell: from the column's buffer, or from the driver where there is no buffer or
 the buffer was too small. `row` is the row of the rowset that the cursor is on.
 */
module Readers {
  import opened Base
  import opened Unicode
  import opened PrefixCodes
  import opened Codec
  import opened Odbc
  import opened Columns
  import opened Pieces

  /** What a reader relies on: a column that fits its cells, a driver on some row, and nothing half read. */
  ghost predicate Usable(stmt: Handle, col: BoundColumn, column: nat, row: int)
    reads stmt, col
  {
    && stmt.Valid() && stmt.HasRow() && stmt.Whole()
    && column < |stmt.ctypes| && col.ctype == stmt.ctypes[column] && 0 <= row < col.cbdata.Length
    && col.cbdata as object != col.pdata
    && (col.bound ==> col.pdata.Length == col.cbdata.Length * col.clen && col.HasBuffer())
    && WellTyped(col.ctype, col.clen, stmt.CellAt(column))
  }

  /** Whether a bound text is read again from the driver. */
  predicate Again(stmt: Handle, col: BoundColumn, v: seq<Byte>) {
    stmt.getDataOnBound && stmt.totals && |v| > Room(col.ctype, col.clen)
  }

  /** What the buffer gives back: as much as fits, and of narrow text what lies before a zero. */
  function Cut(col: BoundColumn, v: seq<Byte>): seq<Byte> {
    var w := v[..Min(|v|, Room(col.ctype, col.clen))];
    if col.ctype == CChar then CStr(w, 0) else w
  }

  /**
   Where a get of the cursor's cell finds its answer: a null known beforehand, the cursor's own
   value in the buffer, or the cell of the driver's own row, unless that has been handed over.
   */
  datatype Supply = KnownNull | Buffered(bytes: seq<Byte>) | Handed(cell: Cell) | Drained

  /**
   Of a bound column the driver is asked only for a text that is read again, and of any other
   unless its null is known; of a binary one the driver is asked for the null as well.
   */
  ghost function SupplyOf(stmt: Handle, col: BoundColumn, column: nat, row: int, here: Cell): Supply
    requires Usable(stmt, col, column, row)
    reads stmt, col, col.cbdata
  {
    if col.cbdata[row] == SQL_NULL_DATA && (col.bound || col.ctype != CBinary || stmt.Spent(column)) then KnownNull
    else if col.bound && here.Value? && !Again(stmt, col, here.bytes) then Buffered(here.bytes)
    else if stmt.Spent(column) then Drained
    else Handed(stmt.CellAt(column))
  }

  /** A null that the driver hands over of another row, where the cursor's row has a value. */
  predicate Stray(supply: Supply, here: Cell) {
    supply == Handed(Null) && here.Value?
  }

  /** The slot agrees with the cursor's own cell, but for a null that may have been noted of another row's. */
  ghost predicate Kept(stmt: Handle, col: BoundColumn, row: int, here: Cell)
    requires 0 <= row
    reads col, col.cbdata, col.pdata
  {
    WellTyped(col.ctype, col.clen, here) && col.SlotKept(row, here, stmt.totals)
  }

  /** Asks the driver for a length, with no room for data: a null is known from here on, and nothing is read. */
  method AskLength(stmt: Handle, col: BoundColumn, column: nat, row: int)
    requires Usable(stmt, col, column, row) && !col.bound && col.ctype == CBinary
    modifies stmt`progress, col.cbdata
    ensures Usable(stmt, col, column, row) && stmt.CellAt(column) == old(stmt.CellAt(column))
    ensures forall i | 0 <= i < col.cbdata.Length && i != row :: col.cbdata[i] == old(col.cbdata[i])
    ensures old(stmt.Spent(column)) ==> stmt.Spent(column) && col.cbdata[row] == old(col.cbdata[row])
    ensures !old(stmt.Spent(column)) ==>
      && (col.cbdata[row] == SQL_NULL_DATA <==> stmt.CellAt(column).Null?)
      && (stmt.Spent(column) <==> stmt.CellAt(column) in {Null, Value([])})
  {
    var none := new Byte[0];
    var indicator, rc := 0, NoData;
    rc, indicator := stmt.GetData(column, none, indicator);
    if rc == Success || rc == SuccessWithInfo {
      col.cbdata[row] := indicator;
    }
  }

  /**
   `is_null`, on a row of the rowset whose cells the column holds. An unbound binary column asks
   the driver first; the others answer from their indicator. What a get gives is the same before
   and after.
   */
  method NullNoted(stmt: Handle, col: BoundColumn, column: nat, row: nat, ghost cells: seq<Cell>) returns (r: bool)
    requires Usable(stmt, col, column, row) && row < |cells|
    modifies stmt`progress, col.cbdata
    ensures Usable(stmt, col, column, row) && r == (col.cbdata[row] == SQL_NULL_DATA)
    ensures stmt.CellAt(column) == old(stmt.CellAt(column))
    ensures forall i | 0 <= i < col.cbdata.Length && i != row :: col.cbdata[i] == old(col.cbdata[i])
    ensures old(stmt.Spent(column)) || col.bound || col.ctype != CBinary ==>
      && stmt.Spent(column) == old(stmt.Spent(column)) && col.cbdata[row] == old(col.cbdata[row])
    ensures var supply := old(SupplyOf(stmt, col, column, row, cells[row]));
      && r == (supply == KnownNull || (supply == Handed(Null) && col.ctype == CBinary))
      && (r ==> (stmt.Spent(column) <==> old(stmt.Spent(column)) || supply.Handed?))
      && (forall want | CanAsk(col, want) :: Given(col, want, SupplyOf(stmt, col, column, row, cells[row])) == Given(col, want, supply))
      && (old(col.SlotsOk(cells, stmt.totals)) && !Stray(supply, cells[row]) ==> col.SlotsOk(cells, stmt.totals))
    ensures old(col.SlotsKept(cells, stmt.totals)) ==> col.SlotsKept(cells, stmt.totals)
  {
    if !col.bound && col.ctype == CBinary {
      AskLength(stmt, col, column, row);
    }
    r := col.cbdata[row] == SQL_NULL_DATA;
  }

  /** `bound_column_was_truncated`. A blob column is never bound and a bound one never empty. */
  predicate WasTruncated(col: BoundColumn, row: nat)
    requires row < col.cbdata.Length
    reads col, col.cbdata
  {
    if !col.bound || col.clen == 0 then false
    else
      var indicator := col.cbdata[row];
      if indicator == SQL_NULL_DATA || indicator == SQL_NO_TOTAL || indicator < 0 then false
      else indicator >= col.clen
  }

  /** Given a real length, it is true exactly when the text did not fit; SQL_NO_TOTAL hides the cut. */
  lemma TruncatedIff(col: BoundColumn, row: nat, v: seq<Byte>, totals: bool)
    requires col.bound && col.HasBuffer() && col.ctype != CFixed && WellTyped(col.ctype, col.clen, Value(v))
    requires row < col.cbdata.Length && col.Holds(row, Value(v), totals)
    ensures WasTruncated(col, row) <==> totals && |v| > Room(col.ctype, col.clen)
  {
  }

  /** The buffer gives a narrow text whole exactly when it fits and has no zero in it, and otherwise as much as fits. */
  lemma BufferNarrowIff(col: BoundColumn, v: seq<Byte>)
    requires col.HasBuffer() && col.ctype == CChar
    ensures Cut(col, v) == v <==> |v| < col.clen && 0 !in v
    ensures 0 !in v ==> Cut(col, v) == v[..Min(|v|, col.clen - 1)]
    ensures Cut(col, v) <= v && 0 !in Cut(col, v) && (|Cut(col, v)| == Min(|v|, col.clen - 1) || v[|Cut(col, v)|] == 0)
  {
    var w := v[..Min(|v|, col.clen - 1)];
    if 0 !in w {
      CStrUnique(w, 0, w);
    }
  }

  /** A wide one exactly when it fits, and otherwise the longest prefix of whole units beside a terminator. */
  lemma BufferWideIff(col: BoundColumn, v: seq<Byte>)
    requires col.HasBuffer() && col.ctype == CWChar && |v| % 2 == 0
    ensures Cut(col, v) == v <==> |v| + 2 <= col.clen
    ensures Cut(col, v) == v[..Min(|v|, col.clen - 2)]
  {
  }

  /** The reader's own test of a bound column decides as `SupplyOf` does, and an untouched value is all there. */
  lemma TestDecides(stmt: Handle, col: BoundColumn, column: nat, row: int, here: Cell)
    requires Usable(stmt, col, column, row) && Kept(stmt, col, row, here)
    requires col.ctype != CFixed && col.cbdata[row] != SQL_NULL_DATA
    ensures col.bound ==> here.Value? && col.Holds(row, here, stmt.totals)
    ensures col.bound ==> (WasTruncated(col, row) && stmt.getDataOnBound <==> !SupplyOf(stmt, col, column, row, here).Buffered?)
    ensures !stmt.Spent(column) && stmt.CellAt(column).Value? ==> stmt.Rest(column) == stmt.CellAt(column).bytes
  {
    if col.bound {
      TruncatedIff(col, row, here.bytes, stmt.totals);
    }
  }

  /** What a reader brings of a text, and what it notes: of a drained column it brings nothing. */
  function Brought(col: BoundColumn, supply: Supply): Option<seq<Byte>> {
    match supply
    case Buffered(v) => Some(Cut(col, v))
    case Handed(Value(v)) => Some(v)
    case Drained => Some([])
    case _ => None
  }

  /** Narrow text, and binary taken as text, before any conversion. */
  method RawNarrow(stmt: Handle, col: BoundColumn, column: nat, row: int, ghost here: Cell) returns (out: seq<Byte>)
    requires Usable(stmt, col, column, row) && (col.ctype == CChar || col.ctype == CBinary)
    modifies stmt`progress, col.cbdata
    ensures Usable(stmt, col, column, row) && stmt.CellAt(column) == old(stmt.CellAt(column))
    ensures forall i | 0 <= i < col.cbdata.Length && i != row :: col.cbdata[i] == old(col.cbdata[i])
    ensures !col.bound ==> stmt.Spent(column)
    ensures old(Kept(stmt, col, row, here)) && old(col.cbdata[row]) != SQL_NULL_DATA ==>
      var supply := old(SupplyOf(stmt, col, column, row, here));
      && (stmt.Spent(column) <==> old(stmt.Spent(column)) || supply.Handed?)
      && if supply == Handed(Null) then col.cbdata[row] == SQL_NULL_DATA
         else Brought(col, supply) == Some(out) && col.cbdata[row] == old(col.cbdata[row])
  {
    ghost var known := Kept(stmt, col, row, here) && col.cbdata[row] != SQL_NULL_DATA;
    if known {
      TestDecides(stmt, col, column, row, here);
    }
    if !col.bound || (WasTruncated(col, row) && stmt.getDataOnBound) {
      out := ReadNarrow(stmt, column, col.cbdata, row);
    } else {
      out := BoundNarrow(col, row, if here.Value? then here.bytes else [], stmt.totals);
    }
  }

  /** The bound buffer read as a C string. */
  method BoundNarrow(col: BoundColumn, row: nat, ghost v: seq<Byte>, ghost totals: bool) returns (out: seq<Byte>)
    requires col.bound && col.HasBuffer() && col.ctype == CChar
    requires row < col.cbdata.Length && col.pdata.Length == col.cbdata.Length * col.clen
    ensures col.Holds(row, Value(v), totals) ==> out == Cut(col, v)
  {
    SlotFits(row, col.cbdata.Length, col.clen);
    var base := row * col.clen;
    out := CStr(col.pdata[base..], 0);
    if col.Holds(row, Value(v), totals) {
      BoundText(col, row, v, totals);
    }
  }

  /** What a C reader finds in a slot that holds a text. */
  lemma BoundText(col: BoundColumn, row: nat, v: seq<Byte>, totals: bool)
    requires col.HasBuffer() && col.ctype == CChar && col.Holds(row, Value(v), totals)
    ensures 0 <= row * col.clen <= col.pdata.Length
    ensures CStr(col.pdata[row * col.clen..], 0) == CStr(v[..Min(|v|, col.clen - 1)], 0)
  {
    var memory := col.pdata[row * col.clen..];
    var w := v[..Min(|v|, col.clen - 1)];
    var image := Image(CChar, col.clen, v);
    assert image == w + [0];
    assert image <= memory by {
      assert memory[..col.clen] == col.pdata[row * col.clen..row * col.clen + col.clen];
    }
    assert memory[|w|] == image[|w|] == 0;
    assert CStr(w, 0) <= w <= memory;
    CStrUnique(memory, 0, CStr(w, 0));
  }

  /** Wide text before any conversion. */
  method RawWide(stmt: Handle, col: BoundColumn, column: nat, row: int, ghost here: Cell) returns (out: seq<Unit16>)
    requires Usable(stmt, col, column, row) && col.ctype == CWChar
    modifies stmt`progress, col.cbdata
    ensures Usable(stmt, col, column, row) && stmt.CellAt(column) == old(stmt.CellAt(column))
    ensures forall i | 0 <= i < col.cbdata.Length && i != row :: col.cbdata[i] == old(col.cbdata[i])
    ensures old(Kept(stmt, col, row, here)) && old(col.cbdata[row]) != SQL_NULL_DATA ==>
      var supply := old(SupplyOf(stmt, col, column, row, here));
      && (stmt.Spent(column) <==> old(stmt.Spent(column)) || supply.Handed?)
      && if supply == Handed(Null) then col.cbdata[row] == SQL_NULL_DATA
         else
           && Brought(col, supply).Some? && out == Units(Brought(col, supply).value) && Pairs(out, Brought(col, supply).value)
           && col.cbdata[row] == old(col.cbdata[row])
  {
    ghost var known := Kept(stmt, col, row, here) && col.cbdata[row] != SQL_NULL_DATA;
    if known {
      TestDecides(stmt, col, column, row, here);
    }
    if !col.bound || (WasTruncated(col, row) && stmt.getDataOnBound) {
      RestIsEven(stmt, col, column);
      out := ReadWide(stmt, column, col.cbdata, row);
    } else {
      out := BoundWide(col, row, if here.Value? then here.bytes else [], stmt.totals);
    }
  }

  /** How many units a slot is read as; a negative indicator turns into a count larger than any buffer. */
  function UnitsHeld(clen: nat, indicator: int): (size: nat)
    ensures 2 * size <= clen
  {
    var capacity := clen / 2;
    Min(if indicator < 0 then capacity else indicator / 2, if capacity > 0 then capacity - 1 else 0)
  }

  /** The bound buffer by its indicator, and not by a terminator. */
  method BoundWide(col: BoundColumn, row: nat, ghost v: seq<Byte>, ghost totals: bool) returns (out: seq<Unit16>)
    requires col.bound && col.HasBuffer() && col.ctype == CWChar
    requires row < col.cbdata.Length && col.pdata.Length == col.cbdata.Length * col.clen
    ensures |v| % 2 == 0 && col.Holds(row, Value(v), totals) ==> out == Units(Cut(col, v)) && Pairs(out, Cut(col, v))
  {
    SlotFits(row, col.cbdata.Length, col.clen);
    var base := row * col.clen;
    var size := UnitsHeld(col.clen, col.cbdata[row]);
    var slot := col.pdata[base..base + 2 * size];
    out := Units(slot);
    UnitsArePairs(out, slot);
    if |v| % 2 == 0 && col.Holds(row, Value(v), totals) {
      WideSlot(col, row, base, v, totals);
    }
  }

  lemma RestIsEven(stmt: Handle, col: BoundColumn, column: nat)
    requires Usable(stmt, col, column, 0) && col.ctype == CWChar
    ensures |stmt.Rest(column)| % 2 == 0
  {
  }

  lemma WideSlot(col: BoundColumn, row: nat, base: nat, v: seq<Byte>, totals: bool)
    requires col.HasBuffer() && col.ctype == CWChar && |v| % 2 == 0 && col.Holds(row, Value(v), totals) && base == row * col.clen
    ensures var size := UnitsHeld(col.clen, col.cbdata[row]);
      base + 2 * size <= col.pdata.Length && col.pdata[base..base + 2 * size] == Cut(col, v)
  {
    var size := UnitsHeld(col.clen, col.cbdata[row]);
    var image := Image(CWChar, col.clen, v);
    var w := v[..Min(|v|, col.clen - 2)];
    assert 2 * size == |w|;
    assert image[..|w|] == w;
    assert col.pdata[base..base + 2 * size] == col.pdata[base..base + col.clen][..2 * size];
  }

  // ---------------------------------------------------------------- one cell, whatever is wanted of it

  /** The type a caller asks for: a string, a byte vector, or the column's own fixed-size type. */
  datatype Want = Text | Bytes | Own

  /** What `get_ref_impl` has read before a string is converted: narrow or wide units, or a value's bytes. */
  datatype Raw = Narrow(bytes: seq<Byte>) | Wide(units: seq<Unit16>)

  /** What a read of the seen bytes gives; a byte vector can only be had of a binary column. */
  function RawOf(ctype: CType, want: Want, seen: seq<Byte>): Outcome<Raw> {
    if want == Bytes && ctype != CBinary then Raised
    else if want == Text && ctype == CWChar then Done(Wide(Units(seen)))
    else Done(Narrow(seen))
  }

  predicate CanAsk(col: BoundColumn, want: Want) {
    && (want == Text ==> col.ctype != CFixed)
    && (want == Own ==> col.ctype == CFixed && col.clen > 0)
  }

  /**
   What a get gives, before a string is converted: None for a null. A column of another type
   than binary has no bytes to give once it is asked, and a drained one no value of fixed size.
   */
  function Given(col: BoundColumn, want: Want, supply: Supply): Outcome<Option<Raw>> {
    if supply == KnownNull then Done(None)
    else if want == Bytes && col.ctype != CBinary then Raised
    else if want == Own && supply == Drained then Raised
    else
      match Brought(col, supply)
      case None => Done(None)
      case Some(v) =>
        match RawOf(col.ctype, want, v)
        case Raised => Raised
        case Done(raw) => Done(Some(raw))
  }

  lemma FixedSlot(col: BoundColumn, row: nat, v: seq<Byte>, totals: bool)
    requires col.ctype == CFixed && |v| == col.clen && col.Holds(row, Value(v), totals)
    ensures 0 <= row * col.clen <= row * col.clen + col.clen <= col.pdata.Length
    ensures col.pdata[row * col.clen..row * col.clen + col.clen] == v == Cut(col, v)
  {
    assert Image(CFixed, col.clen, v) == v;
  }

  /** The slot itself. */
  method BoundFixed(col: BoundColumn, row: nat, ghost here: Cell, ghost totals: bool) returns (out: seq<Byte>)
    requires col.bound && col.ctype == CFixed
    requires row < col.cbdata.Length && col.pdata.Length == col.cbdata.Length * col.clen
    ensures here.Value? && |here.bytes| == col.clen && col.Holds(row, here, totals) ==> out == Cut(col, here.bytes)
  {
    SlotFits(row, col.cbdata.Length, col.clen);
    var base := row * col.clen;
    out := col.pdata[base..base + col.clen];
    if here.Value? && |here.bytes| == col.clen && col.Holds(row, here, totals) {
      FixedSlot(col, row, here.bytes, totals);
    }
  }

  /** `ensure_pdata`: the slot, or one call of SQLGetData for a value of known size, which raises where nothing is left. */
  method EnsureData(stmt: Handle, col: BoundColumn, column: nat, row: int, ghost here: Cell) returns (r: Outcome<seq<Byte>>)
    requires Usable(stmt, col, column, row) && col.ctype == CFixed && col.clen > 0
    modifies stmt`progress, col.cbdata
    ensures Usable(stmt, col, column, row) && stmt.CellAt(column) == old(stmt.CellAt(column))
    ensures forall i | 0 <= i < col.cbdata.Length && i != row :: col.cbdata[i] == old(col.cbdata[i])
    ensures old(Kept(stmt, col, row, here)) && old(col.cbdata[row]) != SQL_NULL_DATA ==>
      var supply := old(SupplyOf(stmt, col, column, row, here));
      && (stmt.Spent(column) <==> old(stmt.Spent(column)) || supply.Handed?)
      && if supply == Handed(Null) then col.cbdata[row] == SQL_NULL_DATA && r.Done?
         else if supply == Drained then r.Raised? && col.cbdata[row] == old(col.cbdata[row])
         else r.Done? && Brought(col, supply) == Some(r.value) && col.cbdata[row] == old(col.cbdata[row])
  {
    if col.bound {
      var slot := BoundFixed(col, row, here, stmt.totals);
      return Done(slot);
    }
    var buffer := new Byte[col.clen](_ => 0);
    var ind, rc := 0, NoData;
    rc, ind := stmt.GetData(column, buffer, ind);
    if ind == SQL_NULL_DATA {
      col.cbdata[row] := SQL_NULL_DATA;
    }
    if rc == NoData {
      return Raised;
    }
    assert buffer[..] == buffer[..col.clen];
    r := Done(buffer[..]);
  }

  /** `get_ref_impl` up to the conversion of a string. */
  method RefImpl(stmt: Handle, col: BoundColumn, column: nat, row: int, want: Want, ghost here: Cell) returns (r: Outcome<Raw>)
    requires Usable(stmt, col, column, row) && CanAsk(col, want)
    modifies stmt`progress, col.cbdata
    ensures Usable(stmt, col, column, row) && stmt.CellAt(column) == old(stmt.CellAt(column))
    ensures forall i | 0 <= i < col.cbdata.Length && i != row :: col.cbdata[i] == old(col.cbdata[i])
    ensures !col.bound && col.ctype == CBinary ==> stmt.Spent(column)
    ensures want == Bytes && col.ctype != CBinary ==>
      r.Raised? && col.cbdata[row] == old(col.cbdata[row]) && stmt.progress == old(stmt.progress)
    ensures old(Kept(stmt, col, row, here)) && old(col.cbdata[row]) != SQL_NULL_DATA && (want == Bytes ==> col.ctype == CBinary) ==>
      var supply := old(SupplyOf(stmt, col, column, row, here));
      && (stmt.Spent(column) <==> old(stmt.Spent(column)) || supply.Handed?)
      && if supply == Handed(Null) then col.cbdata[row] == SQL_NULL_DATA && r.Done?
         else Given(col, want, supply) == (if r.Raised? then Raised else Done(Some(r.value))) && col.cbdata[row] == old(col.cbdata[row])
  {
    match want
    case Text =>
      if col.ctype == CWChar {
        var units := RawWide(stmt, col, column, row, here);
        r := Done(Wide(units));
      } else {
        var bytes := RawNarrow(stmt, col, column, row, here);
        r := Done(Narrow(bytes));
      }
    case Bytes =>
      if col.ctype != CBinary {
        return Raised;
      }
      var bytes := ReadBinary(stmt, column, col.cbdata, row);
      r := Done(Narrow(bytes));
    case Own =>
      var data := EnsureData(stmt, col, column, row, here);
      r := if data.Raised? then Raised else Done(Narrow(data.value));
  }

  /**
   `get_ref` with a fallback, up to the conversion of a string: None is the caller's fallback.
   The source converts before it tests for null a second time; a null leaves nothing to
   convert, so the order cannot be seen.
   */
  method ReadCell(stmt: Handle, col: BoundColumn, column: nat, row: nat, want: Want, ghost cells: seq<Cell>)
      returns (r: Outcome<Option<Raw>>)
    requires Usable(stmt, col, column, row) && CanAsk(col, want) && row < |cells|
    modifies stmt`progress, col.cbdata
    ensures Usable(stmt, col, column, row)
    ensures forall i | 0 <= i < col.cbdata.Length && i != row :: col.cbdata[i] == old(col.cbdata[i])
    ensures old(Kept(stmt, col, row, cells[row])) ==>
      var supply := old(SupplyOf(stmt, col, column, row, cells[row]));
      && r == Given(col, want, supply)
      && ((want == Bytes ==> col.ctype == CBinary) ==> (stmt.Spent(column) <==> old(stmt.Spent(column)) || supply.Handed?))
      && (old(col.SlotsOk(cells, stmt.totals)) && !Stray(supply, cells[row]) ==> col.SlotsOk(cells, stmt.totals))
    ensures old(Kept(stmt, col, row, cells[row]) && col.SlotsKept(cells, stmt.totals)) ==> col.SlotsKept(cells, stmt.totals)
  {
    var isNull := NullNoted(stmt, col, column, row, cells);
    if isNull {
      return Done(None);
    }
    var raw := RefImpl(stmt, col, column, row, want, cells[row]);
    if raw.Raised? {
      return Raised;
    }
    isNull := NullNoted(stmt, col, column, row, cells);
    r := Done(if isNull then None else Some(raw.value));
  }

  // ---------------------------------------------------------------- conversions

  /** `convert` to the narrow string: wide text goes through the codec, and may raise. */
  method ToNarrow(raw: Raw) returns (r: Outcome<seq<Byte>>)
    ensures r == NarrowOf(raw)
  {
    match raw
    case Narrow(bytes) => r := Done(bytes);
    case Wide(units) =>
      var narrow := ConvertUtf16ToUtf8(units);
      r := if narrow.None? then Raised else Done(narrow.value);
  }

  /** `convert` to the wide string: narrow text goes through the codec, and may raise. */
  method ToWide(raw: Raw) returns (r: Outcome<seq<Unit16>>)
    ensures r == WideOf(raw)
  {
    match raw
    case Wide(units) => r := Done(units);
    case Narrow(bytes) =>
      var wide := ConvertUtf8ToUtf16(bytes);
      r := if wide.None? then Raised else Done(wide.value);
  }

  ghost function NarrowOf(raw: Raw): Outcome<seq<Byte>> {
    match raw
    case Narrow(bytes) => Done(bytes)
    case Wide(units) =>
      match Transcode(EncodeUtf16, EncodeUtf8, units) case None => Raised case Some(t) => Done(t)
  }

  ghost function WideOf(raw: Raw): Outcome<seq<Unit16>> {
    match raw
    case Wide(units) => Done(units)
    case Narrow(bytes) =>
      match Transcode(EncodeUtf8, EncodeUtf16, bytes) case None => Raised case Some(t) => Done(t)
  }
}
