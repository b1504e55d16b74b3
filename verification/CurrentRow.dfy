/** Reading the row the cursor is on: the gets of a result, checked against its columns and its rowset. */
module CurrentRow {
  import opened Base
  import opened Unicode
  import opened PrefixCodes
  import opened Codec
  import opened Scrolling
  import opened RowsetCursor
  import opened Odbc
  import opened Columns
  import opened Pieces
  import opened Readers
  import opened Results

  /** The cursor is on a row, and the column is there. */
  ghost predicate At(result: ResultImpl, column: int)
    reads result, result.stmt, result.columns
  {
    result.Shape() && Ok(result.View()) && OnRow(result.View()) && 0 <= column < |result.columns|
  }

  /** The cells that the column's slots are for. */
  ghost function CellsOf(result: ResultImpl, column: int): seq<Cell>
    requires At(result, column)
    reads result, result.stmt, result.columns
  {
    ColumnCells(result.stmt.table, result.stmt.place.start, result.rowCount, column)
  }

  /** The cell the cursor is on. */
  ghost function CellHere(result: ResultImpl, column: int): Cell
    requires At(result, column)
    reads result, result.stmt, result.columns
  {
    CellsOf(result, column)[result.rowsetPosition]
  }

  /** The cell of the driver's own row, which is what SQLGetData hands over. */
  ghost function CellThere(result: ResultImpl, column: int): Cell
    requires At(result, column)
    reads result, result.stmt, result.columns
  {
    result.stmt.CellAt(column)
  }

  lemma ColumnUsable(result: ResultImpl, column: int)
    requires At(result, column)
    ensures Usable(result.stmt, result.columns[column], column, result.rowsetPosition)
    ensures WellTyped(result.columns[column].ctype, result.columns[column].clen, CellHere(result, column))
    ensures result.columns[column].ctype == CFixed ==> result.columns[column].clen > 0
    ensures CellHere(result, column) == result.stmt.table[RowOf(result.View())][column]
    ensures result.stmt.current == result.rowsetPosition ==> CellThere(result, column) == CellHere(result, column)
  {
    assert result.ColumnFits(column);
    assert result.stmt.table[RowOf(result.View())] in result.stmt.table;
  }

  /** On a row, with the buffers as every move and every read leaves them. */
  ghost predicate Readable(result: ResultImpl, column: int)
    reads result, result.stmt, result.columns, Buffers(result.columns)
  {
    At(result, column) && result.InStep()
  }

  lemma ReadableKept(result: ResultImpl, column: int)
    requires Readable(result, column)
    ensures Usable(result.stmt, result.columns[column], column, result.rowsetPosition)
    ensures Kept(result.stmt, result.columns[column], result.rowsetPosition, CellHere(result, column))
    ensures result.columns[column].SlotsKept(CellsOf(result, column), result.stmt.totals)
  {
    ColumnUsable(result, column);
    var cells := CellsOf(result, column);
    assert result.columns[column].SlotsKept(cells, result.stmt.totals);
    assert result.columns[column].ImageOk(result.rowsetPosition, cells[result.rowsetPosition]);
    assert result.columns[column].IndicatorKept(result.rowsetPosition, cells[result.rowsetPosition], result.stmt.totals);
  }

  /** Where a get finds its answer. */
  ghost function SupplyHere(result: ResultImpl, column: int): Supply
    requires At(result, column)
    reads result, result.stmt, result.columns, Buffers(result.columns)
  {
    ColumnUsable(result, column);
    SupplyOf(result.stmt, result.columns[column], column, result.rowsetPosition, CellHere(result, column))
  }

  /** What a get gives, before a string is converted. */
  ghost function Owed(result: ResultImpl, column: int, want: Want): Outcome<Option<Raw>>
    requires At(result, column)
    reads result, result.stmt, result.columns, Buffers(result.columns)
  {
    Given(result.columns[column], want, SupplyHere(result, column))
  }

  // ---------------------------------------------------------------- which cell, and how much of it

  /** What a get of the cursor's own cell gives when nothing of it has been handed over. */
  function OwnSupply(stmt: Handle, col: BoundColumn, bound: bool, here: Cell): Supply {
    match here
    case Null => KnownNull
    case Value(v) => if bound && !Again(stmt, col, v) then Buffered(v) else Handed(here)
  }

  /** From the driver, different values give different results. */
  lemma GivenOnce(col: BoundColumn, want: Want, a: seq<Byte>, b: seq<Byte>)
    requires WellTyped(col.ctype, col.clen, Value(a)) && (b == [] || WellTyped(col.ctype, col.clen, Value(b)))
    requires want == Bytes ==> col.ctype == CBinary
    ensures RawOf(col.ctype, want, a) == RawOf(col.ctype, want, b) <==> a == b
  {
    if want == Text && col.ctype == CWChar && Units(a) == Units(b) {
      UnitsInjective(a, b);
    }
  }

  /** The null or value found is the cursor's own; nothing is as good as an empty value. */
  predicate IsOwn(supply: Supply, here: Cell) {
    match supply
    case KnownNull => here.Null?
    case Buffered(_) => true
    case Handed(cell) => cell == here
    case Drained => here == Value([])
  }

  lemma IsOwnIff(stmt: Handle, col: BoundColumn, bound: bool, want: Want, supply: Supply, here: Cell)
    requires CanAsk(col, want) && (want == Bytes ==> col.ctype == CBinary) && WellTyped(col.ctype, col.clen, here)
    requires supply.Handed? ==> WellTyped(col.ctype, col.clen, supply.cell)
    requires supply.Buffered? ==> here.Value? && supply == OwnSupply(stmt, col, bound, here)
    requires supply.Handed? || supply.Drained? ==> OwnSupply(stmt, col, bound, here) in {KnownNull, Handed(here)}
    ensures Given(col, want, supply) == Given(col, want, OwnSupply(stmt, col, bound, here)) <==> IsOwn(supply, here)
  {
    if here.Value? {
      GivenOnce(col, want, here.bytes, []);
      if supply.Handed? && supply.cell.Value? {
        GivenOnce(col, want, here.bytes, supply.cell.bytes);
      }
    }
  }

  /** In every state that moves and reads leave, a get gives the cursor's own cell exactly when it finds it. */
  lemma OwnCellIff(result: ResultImpl, column: int, want: Want)
    requires Readable(result, column) && CanAsk(result.columns[column], want)
    requires want == Bytes ==> result.columns[column].ctype == CBinary
    ensures var col := result.columns[column];
      Owed(result, column, want) == Given(col, want, OwnSupply(result.stmt, col, col.bound, CellHere(result, column)))
      <==> IsOwn(SupplyHere(result, column), CellHere(result, column))
  {
    ReadableKept(result, column);
    ColumnUsable(result, column);
    var col := result.columns[column];
    IsOwnIff(result.stmt, col, col.bound, want, SupplyHere(result, column), CellHere(result, column));
  }

  /**
   With the buffers in step and a value that is not empty: the get gives it, as the buffer shows
   it or whole, exactly when it is in the buffer and not read again, or the driver is on a row
   that holds the same value and has not handed it over. The same row holds the same value.
   */
  lemma OwnValueIff(result: ResultImpl, column: int, want: Want, v: seq<Byte>)
    requires At(result, column) && CanAsk(result.columns[column], want) && v != []
    requires want == Bytes ==> result.columns[column].ctype == CBinary
    ensures result.InStep() && result.Synced() && CellHere(result, column) == Value(v) ==>
      var col := result.columns[column];
      && (Owed(result, column, want) == Given(col, want, OwnSupply(result.stmt, col, col.bound, Value(v)))
          <==> || (col.bound && !Again(result.stmt, col, v))
               || (!result.stmt.Spent(column) && CellThere(result, column) == Value(v)))
      && (result.stmt.current == result.rowsetPosition ==> CellThere(result, column) == Value(v))
  {
    ColumnUsable(result, column);
    if result.InStep() && result.Synced() {
      OwnCellIff(result, column, want);
      var cells := CellsOf(result, column);
      assert result.columns[column].SlotsOk(cells, result.stmt.totals);
      assert result.columns[column].IndicatorOk(result.rowsetPosition, cells[result.rowsetPosition], result.stmt.totals);
    }
  }

  /** The text fits its slot, and nothing in it ends a C string early. */
  predicate Fits(col: BoundColumn, v: seq<Byte>) {
    if col.ctype == CChar then |v| < col.clen && 0 !in v else |v| + 2 <= col.clen
  }

  /**
   The whole text of the cursor's cell is given exactly where it fits the buffer it is taken
   from, where the driver's row holds that text and hands it over, or where there is none.
   */
  lemma WholeTextIff(result: ResultImpl, column: int, v: seq<Byte>)
    requires Readable(result, column) && CellHere(result, column) == Value(v) && result.columns[column].ctype != CFixed
    ensures Owed(result, column, Text) == Given(result.columns[column], Text, Handed(Value(v))) <==>
      match SupplyHere(result, column)
      case KnownNull => false
      case Buffered(_) => Fits(result.columns[column], v)
      case Handed(cell) => cell == Value(v)
      case Drained => v == []
  {
    var col := result.columns[column];
    ReadableKept(result, column);
    ColumnUsable(result, column);
    match SupplyHere(result, column)
    case KnownNull =>
    case Buffered(_) => BufferWholeIff(col, v);
    case Drained => GivenOnce(col, Text, v, []);
    case Handed(cell) =>
      if cell.Value? {
        GivenOnce(col, Text, v, cell.bytes);
      }
  }

  lemma BufferWholeIff(col: BoundColumn, v: seq<Byte>)
    requires col.HasBuffer() && (col.ctype == CChar || (col.ctype == CWChar && |v| % 2 == 0))
    ensures Given(col, Text, Buffered(v)) == Given(col, Text, Handed(Value(v))) <==> Fits(col, v)
  {
    if col.ctype == CChar {
      BufferNarrowIff(col, v);
    } else {
      BufferWideIff(col, v);
      if Units(Cut(col, v)) == Units(v) {
        UnitsInjective(Cut(col, v), v);
      }
    }
  }

  /** The fallback is due exactly for a null that is known or handed over: the cursor's own, where its own cell is found. */
  lemma FallbackIff(result: ResultImpl, column: int, want: Want)
    requires Readable(result, column) && CanAsk(result.columns[column], want)
    requires want == Bytes ==> result.columns[column].ctype == CBinary
    ensures Owed(result, column, want) == Done(None) <==> SupplyHere(result, column) in {KnownNull, Handed(Null)}
    ensures IsOwn(SupplyHere(result, column), CellHere(result, column)) ==> (Owed(result, column, want) == Done(None) <==> CellHere(result, column).Null?)
  {
    ReadableKept(result, column);
  }

  // ---------------------------------------------------------------- the first read of a cell

  /** The buffers agree with the rowset, and the driver is on the cursor's row and has handed over nothing of the column. */
  ghost predicate FirstRead(result: ResultImpl, column: int)
    reads result, result.stmt, result.columns, Buffers(result.columns)
  {
    Readable(result, column) && result.Synced() && result.stmt.current == result.rowsetPosition && !result.stmt.Spent(column)
  }

  /** It is answered for the cursor's own cell: from its buffer, by the driver, or with the null. */
  lemma FirstSupply(result: ResultImpl, column: int)
    requires FirstRead(result, column)
    ensures CellHere(result, column) == result.stmt.table[result.stmt.place.start + result.rowsetPosition][column]
    ensures CellHere(result, column).Null? ==> SupplyHere(result, column) in {KnownNull, Handed(Null)}
    ensures CellHere(result, column).Null? && result.columns[column].bound ==> SupplyHere(result, column) == KnownNull
    ensures CellHere(result, column).Value? ==>
      SupplyHere(result, column) == OwnSupply(result.stmt, result.columns[column], result.columns[column].bound, CellHere(result, column))
  {
    ColumnUsable(result, column);
    var cells := CellsOf(result, column);
    assert result.columns[column].SlotsOk(cells, result.stmt.totals);
    assert result.columns[column].IndicatorOk(result.rowsetPosition, cells[result.rowsetPosition], result.stmt.totals);
  }

  /** What a buffer gives of a text with no zero in it: as much as it has room for beside a terminator. */
  lemma CutShown(col: BoundColumn, v: seq<Byte>)
    requires col.HasBuffer() && (col.ctype == CChar || col.ctype == CWChar) && WellTyped(col.ctype, col.clen, Value(v))
    ensures var seen := v[..Min(|v|, col.clen - if col.ctype == CWChar then 2 else 1)];
      && (col.ctype == CWChar ==> |seen| % 2 == 0)
      && ((col.ctype == CChar ==> 0 !in v) ==> Cut(col, v) == seen)
    ensures |v| <= Room(col.ctype, col.clen) <==> |v| <= col.clen - if col.ctype == CWChar then 2 else 1
  {
    if col.ctype == CChar {
      BufferNarrowIff(col, v);
    } else {
      BufferWideIff(col, v);
    }
  }

  /**
   How much of a text there is to see: all of it, or what its slot holds beside a terminator where
   a cut text is not read again.
   */
  function Seen(stmt: Handle, col: BoundColumn, bound: bool, v: seq<Byte>): (seen: seq<Byte>)
    ensures seen <= v && (!bound || (stmt.getDataOnBound && stmt.totals) ==> seen == v)
    ensures bound && !(stmt.getDataOnBound && stmt.totals) ==>
      |seen| == Min(|v|, Max(col.clen - if col.ctype == CWChar then 2 else 1, 0))
  {
    if !bound || (stmt.getDataOnBound && stmt.totals) then v
    else v[..Min(|v|, Max(col.clen - if col.ctype == CWChar then 2 else 1, 0))]
  }

  /** The text that the first read of a value is owed, before it is converted. */
  lemma OwnTextShown(stmt: Handle, col: BoundColumn, bound: bool, v: seq<Byte>)
    requires WellTyped(col.ctype, col.clen, Value(v)) && col.ctype != CFixed && (bound ==> col.HasBuffer())
    ensures var seen := Seen(stmt, col, bound, v);
      && (col.ctype == CWChar ==> |seen| % 2 == 0)
      && ((bound && col.ctype == CChar ==> 0 !in v) ==>
            Given(col, Text, OwnSupply(stmt, col, bound, Value(v)))
            == Done(Some(if col.ctype == CWChar then Wide(Units(seen)) else Narrow(seen))))
  {
    if bound {
      CutShown(col, v);
      assert v[..|v|] == v;
    }
  }

  // ---------------------------------------------------------------- is_null and the gets

  /** `is_null` behind its checks. */
  method IsNullHere(result: ResultImpl, column: nat) returns (r: bool)
    requires At(result, column)
    modifies result.stmt`progress, result.columns[column].cbdata
    ensures At(result, column) && result.View() == old(result.View())
    ensures r == (old(SupplyHere(result, column)) == KnownNull
                  || (old(SupplyHere(result, column)) == Handed(Null) && result.columns[column].ctype == CBinary))
    ensures forall want | CanAsk(result.columns[column], want) :: Owed(result, column, want) == old(Owed(result, column, want))
    ensures old(result.InStep()) ==> result.InStep()
    ensures old(result.Synced() && !Stray(SupplyHere(result, column), CellHere(result, column))) ==> result.Synced()
  {
    ColumnUsable(result, column);
    r := NullNoted(result.stmt, result.columns[column], column, result.rowsetPosition, CellsOf(result, column));
  }

  /** `is_null` with its checks on column and row. It reads nothing: whatever a get owed, it still owes. */
  method IsNull(result: ResultImpl, column: int) returns (r: Outcome<bool>)
    requires result.Shape() && Ok(result.View())
    modifies result.stmt`progress
    modifies if 0 <= column < |result.columns| then {result.columns[column].cbdata} else {}
    ensures result.Shape() && result.View() == old(result.View())
    ensures r.Raised? <==> !(0 <= column < |result.columns| && OnRow(result.View()))
    ensures r.Done? ==>
      && r.value == (old(SupplyHere(result, column)) == KnownNull
                     || (old(SupplyHere(result, column)) == Handed(Null) && result.columns[column].ctype == CBinary))
      && (forall want | CanAsk(result.columns[column], want) :: Owed(result, column, want) == old(Owed(result, column, want)))
      && (old(result.Synced() && !Stray(SupplyHere(result, column), CellHere(result, column))) ==> result.Synced())
    ensures old(result.InStep()) ==> result.InStep()
    ensures old(FirstRead(result, column)) ==>
      var cell, col := result.stmt.table[result.stmt.place.start + result.rowsetPosition][column], result.columns[column];
      && r.Done? && (r.value ==> cell.Null?)
      && (col.bound || col.ctype == CBinary ==> r.value == cell.Null?)
  {
    if column < 0 || column >= |result.columns| || result.rowsetPosition >= result.rowCount {
      return Raised;
    }
    if FirstRead(result, column) {
      FirstSupply(result, column);
    }
    var isNull := IsNullHere(result, column);
    r := Done(isNull);
  }

  /** The read itself: one indicator may change, and the buffers stay in step. */
  method ReadHere(result: ResultImpl, column: nat, want: Want) returns (r: Outcome<Option<Raw>>)
    requires Readable(result, column) && CanAsk(result.columns[column], want)
    modifies result.stmt`progress, result.columns[column].cbdata
    ensures Readable(result, column) && result.View() == old(result.View())
    ensures r == old(Owed(result, column, want))
    ensures (want == Bytes ==> result.columns[column].ctype == CBinary) ==>
      (result.stmt.Spent(column) <==> old(result.stmt.Spent(column)) || old(SupplyHere(result, column)).Handed?)
    ensures forall i | 0 <= i < result.columns[column].cbdata.Length && i != result.rowsetPosition ::
      result.columns[column].cbdata[i] == old(result.columns[column].cbdata[i])
    ensures old(result.Synced() && !Stray(SupplyHere(result, column), CellHere(result, column))) ==> result.Synced()
  {
    ReadableKept(result, column);
    ghost var cells := CellsOf(result, column);
    r := ReadCell(result.stmt, result.columns[column], column, result.rowsetPosition, want, cells);
    assert At(result, column) && CellsOf(result, column) == cells;
  }

  /** The read with its checks on column and row. */
  method ReadColumn(result: ResultImpl, column: int, want: Want) returns (r: Outcome<Option<Raw>>)
    requires result.Shape() && Ok(result.View()) && result.InStep()
    requires 0 <= column < |result.columns| ==> CanAsk(result.columns[column], want)
    modifies result.stmt`progress
    modifies if 0 <= column < |result.columns| then {result.columns[column].cbdata} else {}
    ensures result.Shape() && result.View() == old(result.View()) && result.InStep()
    ensures !(0 <= column < |result.columns| && OnRow(result.View())) ==> r.Raised?
    ensures old(At(result, column)) ==>
      && r == old(Owed(result, column, want))
      && ((want == Bytes ==> result.columns[column].ctype == CBinary) ==>
            (result.stmt.Spent(column) <==> old(result.stmt.Spent(column)) || old(SupplyHere(result, column)).Handed?))
      && (old(result.Synced() && !Stray(SupplyHere(result, column), CellHere(result, column))) ==> result.Synced())
    ensures old(At(result, column)) ==>
      forall i | 0 <= i < result.columns[column].cbdata.Length && i != result.rowsetPosition ::
        result.columns[column].cbdata[i] == old(result.columns[column].cbdata[i])
  {
    if column < 0 || column >= |result.columns| || result.rowsetPosition >= result.rowCount {
      return Raised;
    }
    r := ReadHere(result, column, want);
  }

  // ---------------------------------------------------------------- the gets

  /** What a get returns: the fallback for a null, if there is one to return, and otherwise the converted value. */
  function Returned<T>(given: Outcome<Option<Raw>>, convert: Raw -> Outcome<T>, fallback: Option<T>): Outcome<T> {
    match given
    case Raised => Raised
    case Done(None) => if fallback.None? then Raised else Done(fallback.value)
    case Done(Some(raw)) => convert(raw)
  }

  /** No text converts to no text, and only no text does. */
  lemma EmptyTextIff(raw: Raw)
    ensures NarrowOf(raw) == Done([]) <==> raw in {Narrow([]), Wide([])}
    ensures WideOf(raw) == Done([]) <==> raw in {Narrow([]), Wide([])}
  {
    Utf8Free();
    Utf16Free();
    TranscodeIs(EncodeUtf8, EncodeUtf16, []);
    TranscodeIs(EncodeUtf16, EncodeUtf8, []);
    match raw
    case Wide(units) =>
      if NarrowOf(raw) == Done([]) {
        TranscodeInjective(EncodeUtf16, EncodeUtf8, units, []);
      }
    case Narrow(bytes) =>
      if WideOf(raw) == Done([]) {
        TranscodeInjective(EncodeUtf8, EncodeUtf16, bytes, []);
      }
  }

  /** The fallback comes back for a null, and no text for a drained column. */
  lemma TextCases(col: BoundColumn, supply: Supply, narrow: Option<seq<Byte>>, wide: Option<seq<Unit16>>)
    requires CanAsk(col, Text)
    ensures supply in {KnownNull, Handed(Null)} ==> Given(col, Text, supply) == Done(None)
    ensures supply == Drained ==>
      && Returned(Given(col, Text, supply), NarrowOf, narrow) == Done([])
      && Returned(Given(col, Text, supply), WideOf, wide) == Done([])
  {
    EmptyTextIff(Narrow([]));
    EmptyTextIff(Wide([]));
  }

  /** A cell as narrow text: the fallback for a null, narrow text as it is, and wide text through the codec. */
  ghost predicate NarrowTextOf(stmt: Handle, col: BoundColumn, bound: bool, cell: Cell, fallback: Option<seq<Byte>>, r: Outcome<seq<Byte>>) {
    match cell
    case Null => r == if fallback.None? then Raised else Done(fallback.value)
    case Value(v) =>
      var seen := Seen(stmt, col, bound, v);
      && (col.ctype == CWChar ==>
            exists units :: Pairs(units, seen)
              && r == match Transcode(EncodeUtf16, EncodeUtf8, units) case None => Raised case Some(t) => Done(t))
      && (col.ctype != CWChar && !(bound && 0 in v) ==> r == Done(seen))
  }

  /** And as wide text: the units whose byte pairs are there, or narrow text through the codec. */
  ghost predicate WideTextOf(stmt: Handle, col: BoundColumn, bound: bool, cell: Cell, fallback: Option<seq<Unit16>>, r: Outcome<seq<Unit16>>) {
    match cell
    case Null => r == if fallback.None? then Raised else Done(fallback.value)
    case Value(v) =>
      var seen := Seen(stmt, col, bound, v);
      && (col.ctype == CWChar ==> r.Done? && Pairs(r.value, seen))
      && (col.ctype != CWChar && !(bound && 0 in v) ==>
            r == match Transcode(EncodeUtf8, EncodeUtf16, seen) case None => Raised case Some(t) => Done(t))
  }

  /** What a cell's own text is returned as, in terms of the table and the memory. */
  lemma OwnTextReturned(stmt: Handle, col: BoundColumn, bound: bool, cell: Cell, narrow: Option<seq<Byte>>, wide: Option<seq<Unit16>>)
    requires WellTyped(col.ctype, col.clen, cell) && col.ctype != CFixed && (bound ==> col.HasBuffer())
    ensures var given := Given(col, Text, OwnSupply(stmt, col, bound, cell));
      && NarrowTextOf(stmt, col, bound, cell, narrow, Returned(given, NarrowOf, narrow))
      && WideTextOf(stmt, col, bound, cell, wide, Returned(given, WideOf, wide))
  {
    if cell.Value? {
      OwnTextShown(stmt, col, bound, cell.bytes);
      var seen := Seen(stmt, col, bound, cell.bytes);
      if col.ctype == CWChar {
        UnitsArePairs(Units(seen), seen);
      }
    }
  }

  /** The first read of a text returns that of the cell in the table. */
  lemma FirstTextIsOwn(result: ResultImpl, column: int)
    requires FirstRead(result, column) && CanAsk(result.columns[column], Text)
    ensures var col := result.columns[column];
      var cell := result.stmt.table[result.stmt.place.start + result.rowsetPosition][column];
      && WellTyped(col.ctype, col.clen, cell) && (col.bound ==> col.HasBuffer())
      && Owed(result, column, Text) == Given(col, Text, OwnSupply(result.stmt, col, col.bound, cell))
  {
    FirstSupply(result, column);
    ColumnUsable(result, column);
    TextCases(result.columns[column], SupplyHere(result, column), None, None);
  }

  /** `get_ref<std::string>`, with a fallback or without. */
  method GetRefText(result: ResultImpl, column: int, fallback: Option<seq<Byte>>) returns (r: Outcome<seq<Byte>>)
    requires result.Shape() && Ok(result.View()) && result.InStep()
    requires 0 <= column < |result.columns| ==> CanAsk(result.columns[column], Text)
    modifies result.stmt`progress
    modifies if 0 <= column < |result.columns| then {result.columns[column].cbdata} else {}
    ensures result.Shape() && result.View() == old(result.View()) && result.InStep()
    ensures !(0 <= column < |result.columns| && OnRow(result.View())) ==> r.Raised?
    ensures old(At(result, column)) ==>
      var supply := old(SupplyHere(result, column));
      && r == Returned(Given(result.columns[column], Text, supply), NarrowOf, fallback)
      && (supply in {KnownNull, Handed(Null)} ==> r == if fallback.None? then Raised else Done(fallback.value))
      && (supply == Drained ==> r == Done([]))
      && (result.stmt.Spent(column) <==> old(result.stmt.Spent(column)) || supply.Handed?)
      && (old(result.Synced()) && !Stray(supply, old(CellHere(result, column))) ==> result.Synced())
    ensures old(At(result, column)) ==>
      forall i | 0 <= i < result.columns[column].cbdata.Length && i != result.rowsetPosition ::
        result.columns[column].cbdata[i] == old(result.columns[column].cbdata[i])
  {
    if At(result, column) {
      TextCases(result.columns[column], SupplyHere(result, column), fallback, None);
    }
    var owed := ReadColumn(result, column, Text);
    match owed
    case Raised => r := Raised;
    case Done(None) => r := if fallback.None? then Raised else Done(fallback.value);
    case Done(Some(raw)) => r := ToNarrow(raw);
  }

  /** `get_ref<wide_string>`, with a fallback or without. */
  method GetRefWideText(result: ResultImpl, column: int, fallback: Option<seq<Unit16>>) returns (r: Outcome<seq<Unit16>>)
    requires result.Shape() && Ok(result.View()) && result.InStep()
    requires 0 <= column < |result.columns| ==> CanAsk(result.columns[column], Text)
    modifies result.stmt`progress
    modifies if 0 <= column < |result.columns| then {result.columns[column].cbdata} else {}
    ensures result.Shape() && result.View() == old(result.View()) && result.InStep()
    ensures !(0 <= column < |result.columns| && OnRow(result.View())) ==> r.Raised?
    ensures old(At(result, column)) ==>
      var supply := old(SupplyHere(result, column));
      && r == Returned(Given(result.columns[column], Text, supply), WideOf, fallback)
      && (supply in {KnownNull, Handed(Null)} ==> r == if fallback.None? then Raised else Done(fallback.value))
      && (supply == Drained ==> r == Done([]))
      && (result.stmt.Spent(column) <==> old(result.stmt.Spent(column)) || supply.Handed?)
      && (old(result.Synced()) && !Stray(supply, old(CellHere(result, column))) ==> result.Synced())
  {
    if At(result, column) {
      TextCases(result.columns[column], SupplyHere(result, column), None, fallback);
    }
    var owed := ReadColumn(result, column, Text);
    match owed
    case Raised => r := Raised;
    case Done(None) => r := if fallback.None? then Raised else Done(fallback.value);
    case Done(Some(raw)) => r := ToWide(raw);
  }

  /** `get<std::string>`, with a fallback or without. */
  method GetText(result: ResultImpl, column: int, fallback: Option<seq<Byte>>) returns (r: Outcome<seq<Byte>>)
    requires result.Shape() && Ok(result.View()) && result.InStep()
    requires 0 <= column < |result.columns| ==> CanAsk(result.columns[column], Text)
    modifies result.stmt`progress
    modifies if 0 <= column < |result.columns| then {result.columns[column].cbdata} else {}
    ensures result.Shape() && result.View() == old(result.View()) && result.InStep()
    ensures !(0 <= column < |result.columns| && OnRow(result.View())) ==> r.Raised?
    ensures old(FirstRead(result, column)) ==>
      NarrowTextOf(result.stmt, result.columns[column], old(result.columns[column].bound),
        old(result.stmt.table[result.stmt.place.start + result.rowsetPosition][column]), fallback, r)
  {
    if FirstRead(result, column) {
      FirstTextIsOwn(result, column);
      var cell := result.stmt.table[result.stmt.place.start + result.rowsetPosition][column];
      OwnTextReturned(result.stmt, result.columns[column], result.columns[column].bound, cell, fallback, None);
    }
    r := GetRefText(result, column, fallback);
  }

  /** `get<wide_string>`, with a fallback or without. */
  method GetWideText(result: ResultImpl, column: int, fallback: Option<seq<Unit16>>) returns (r: Outcome<seq<Unit16>>)
    requires result.Shape() && Ok(result.View()) && result.InStep()
    requires 0 <= column < |result.columns| ==> CanAsk(result.columns[column], Text)
    modifies result.stmt`progress
    modifies if 0 <= column < |result.columns| then {result.columns[column].cbdata} else {}
    ensures result.Shape() && result.View() == old(result.View()) && result.InStep()
    ensures !(0 <= column < |result.columns| && OnRow(result.View())) ==> r.Raised?
    ensures old(FirstRead(result, column)) ==>
      WideTextOf(result.stmt, result.columns[column], old(result.columns[column].bound),
        old(result.stmt.table[result.stmt.place.start + result.rowsetPosition][column]), fallback, r)
  {
    if FirstRead(result, column) {
      FirstTextIsOwn(result, column);
      var cell := result.stmt.table[result.stmt.place.start + result.rowsetPosition][column];
      OwnTextReturned(result.stmt, result.columns[column], result.columns[column].bound, cell, None, fallback);
    }
    r := GetRefWideText(result, column, fallback);
  }

  /** What is not text is never cut. */
  lemma WholeUnlessText(result: ResultImpl, column: int, v: seq<Byte>)
    requires Readable(result, column) && SupplyHere(result, column) == Buffered(v)
    requires result.columns[column].ctype == CFixed || result.columns[column].ctype == CBinary
    ensures Cut(result.columns[column], v) == v
  {
    ColumnUsable(result, column);
  }

  /** `get_ref` in the column's own type, or a byte vector of a binary column. */
  method GetRefBytes(result: ResultImpl, column: int, want: Want, fallback: Option<seq<Byte>>) returns (r: Outcome<seq<Byte>>)
    requires result.Shape() && Ok(result.View()) && result.InStep() && want != Text
    requires 0 <= column < |result.columns| ==> CanAsk(result.columns[column], want)
    modifies result.stmt`progress
    modifies if 0 <= column < |result.columns| then {result.columns[column].cbdata} else {}
    ensures result.Shape() && result.View() == old(result.View()) && result.InStep()
    ensures !(0 <= column < |result.columns| && OnRow(result.View())) ==> r.Raised?
    ensures old(At(result, column)) && want == Bytes && result.columns[column].ctype != CBinary ==>
      r == if old(SupplyHere(result, column)) == KnownNull && fallback.Some? then Done(fallback.value) else Raised
    ensures old(At(result, column)) && (want == Bytes ==> result.columns[column].ctype == CBinary) ==>
      match old(SupplyHere(result, column))
      case Buffered(v) => r == Done(v)
      case Handed(Value(v)) => r == Done(v)
      case Drained => r == if want == Own then Raised else Done([])
      case _ => r == if fallback.None? then Raised else Done(fallback.value)
    ensures old(At(result, column) && result.Synced() && !Stray(SupplyHere(result, column), CellHere(result, column))) ==> result.Synced()
  {
    if At(result, column) && SupplyHere(result, column).Buffered? && (want == Bytes ==> result.columns[column].ctype == CBinary) {
      WholeUnlessText(result, column, SupplyHere(result, column).bytes);
    }
    var owed := ReadColumn(result, column, want);
    match owed
    case Raised => r := Raised;
    case Done(None) => r := if fallback.None? then Raised else Done(fallback.value);
    case Done(Some(raw)) => r := if raw.Narrow? then Done(raw.bytes) else Raised;
  }

  /** `get` in the column's own type, or a byte vector of a binary column. */
  method GetBytes(result: ResultImpl, column: int, want: Want, fallback: Option<seq<Byte>>) returns (r: Outcome<seq<Byte>>)
    requires result.Shape() && Ok(result.View()) && result.InStep() && want != Text
    requires 0 <= column < |result.columns| ==> CanAsk(result.columns[column], want)
    modifies result.stmt`progress
    modifies if 0 <= column < |result.columns| then {result.columns[column].cbdata} else {}
    ensures result.Shape() && result.View() == old(result.View()) && result.InStep()
    ensures !(0 <= column < |result.columns| && OnRow(result.View())) ==> r.Raised?
    ensures old(FirstRead(result, column)) && (want == Bytes ==> result.columns[column].ctype == CBinary) ==>
      match result.stmt.table[result.stmt.place.start + result.rowsetPosition][column]
      case Null => r == if fallback.None? then Raised else Done(fallback.value)
      case Value(v) => r == Done(v)
  {
    if FirstRead(result, column) {
      FirstSupply(result, column);
    }
    r := GetRefBytes(result, column, want, fallback);
  }

  // ---------------------------------------------------------------- another row's value, and none

  const SHORT: Cell := Value([0x61])
  const LONG: Cell := Value([0x62, 0x62])

  /**
   Two rows in one rowset, of a column whose slots have room for one byte; the driver reports
   lengths and hands bound columns over again.
   */
  ghost predicate TwoRows(result: ResultImpl, first: Cell, second: Cell)
    reads result, result.stmt, result.columns
  {
    && result.Shape() && !result.hasUnbound && |result.columns| == 1
    && result.stmt.table == [[first], [second]] && result.rowsetSize == 2 && result.stmt.faults == map[]
    && result.stmt.getDataOnBound && result.stmt.totals && result.columns[0].ctype == CChar && result.columns[0].clen == 2
  }

  method OpenTwoRows(first: Cell, second: Cell) returns (result: ResultImpl)
    ensures TwoRows(result, first, second) && result.View() == Fresh(2, 2, false, map[]) && result.Synced() && result.InStep()
    ensures fresh(result) && fresh(result.stmt) && fresh(result.columns[0]) && fresh(Buffers(result.columns))
  {
    var table: seq<seq<Cell>> := [[first], [second]];
    var stmt := new Handle(table, [CChar], 2, map[], true, true, true);
    result := new ResultImpl(stmt, [Description(CChar, 2, false)]);
    assert result.ColumnFits(0);
  }

  /** On one of the two rows with the buffers in step, and the driver on the first. */
  ghost predicate OnOneOf(result: ResultImpl, first: Cell, second: Cell, position: int)
    reads result, result.stmt, result.columns, Buffers(result.columns)
  {
    && TwoRows(result, first, second) && At(result, 0) && result.Synced() && result.InStep()
    && result.stmt.place == Place.At(0) && result.rowCount == 2 && result.rowsetPosition == position && result.stmt.current == 0
  }

  lemma SuppliedOf(result: ResultImpl, first: Cell, second: Cell, position: int)
    requires OnOneOf(result, first, second, position) && 0 <= position < 2
    ensures var here := if position == 0 then first else second;
      && CellHere(result, 0) == here && CellThere(result, 0) == first
      && (here == LONG ==> SupplyHere(result, 0) == if result.stmt.Spent(0) then Drained else Handed(first))
  {
    ColumnUsable(result, 0);
    var cells := CellsOf(result, 0);
    assert result.columns[0].SlotsOk(cells, result.stmt.totals);
    assert result.columns[0].IndicatorOk(position, cells[position], result.stmt.totals);
  }

  method FirstRow(result: ResultImpl, first: Cell, second: Cell)
    requires TwoRows(result, first, second) && result.View() == Fresh(2, 2, false, map[])
    modifies result, result.stmt, Buffers(result.columns)
    ensures OnOneOf(result, first, second, 0) && !result.stmt.Spent(0)
  {
    var moved := result.MoveToNext();
  }

  method SecondRow(result: ResultImpl, first: Cell, second: Cell)
    requires OnOneOf(result, first, second, 0)
    modifies result, result.stmt, Buffers(result.columns)
    ensures OnOneOf(result, first, second, 1) && result.stmt.Spent(0) == old(result.stmt.Spent(0))
  {
    var moved := result.MoveToNext();
  }

  /** A get of the long text: what the driver's row holds, and nothing once that has been handed over. */
  method GetLong(result: ResultImpl, first: Cell, second: Cell, position: int) returns (r: Outcome<seq<Byte>>)
    requires OnOneOf(result, first, second, position) && first.Value? && 0 <= position < 2 && (if position == 0 then first else second) == LONG
    modifies result.stmt`progress, result.columns[0].cbdata
    ensures OnOneOf(result, first, second, position) && result.stmt.Spent(0)
    ensures r == Done(if old(result.stmt.Spent(0)) then [] else first.bytes)
  {
    SuppliedOf(result, first, second, position);
    r := GetRefText(result, 0, None);
  }

  /** The input on which a get returns another row's value: "a" where the cursor's row holds "bb". */
  method ReadsAnotherRow() returns (r: Outcome<seq<Byte>>)
    ensures r == Done(SHORT.bytes) && SHORT.bytes != LONG.bytes
  {
    var result := OpenTwoRows(SHORT, LONG);
    FirstRow(result, SHORT, LONG);
    SecondRow(result, SHORT, LONG);
    r := GetLong(result, SHORT, LONG, 1);
  }

  /** The input on which the first get of a cell returns nothing: "bb" in both rows, and both are read. */
  method ReadsNothing() returns (first: Outcome<seq<Byte>>, second: Outcome<seq<Byte>>)
    ensures first == Done(LONG.bytes) && second == Done([]) && LONG.bytes != []
  {
    var result := OpenTwoRows(LONG, LONG);
    FirstRow(result, LONG, LONG);
    first := GetLong(result, LONG, LONG, 0);
    SecondRow(result, LONG, LONG);
    second := GetLong(result, LONG, LONG, 1);
  }
}
