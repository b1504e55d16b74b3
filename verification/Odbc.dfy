/**
 The statement handle of an abstract ODBC driver: a result set, the cursor position, and how
 far SQLGetData has got with the column it is on.
 */
module Odbc {
  import opened Base
  import opened Scrolling

  /** `CFixed` stands for every C type of a known size, the timestampoffset struct among them, which is bound as bytes. */
  datatype CType = CChar | CWChar | CBinary | CFixed

  /** A cell holds null or bytes in the column's C type: text without its terminator, wide text as byte pairs. */
  datatype Cell = Null | Value(bytes: seq<Byte>)

  datatype Rc = Success | SuccessWithInfo | NoData

  function Terminator(ctype: CType): nat {
    match ctype case CChar => 1 case CWChar => 2 case _ => 0
  }

  /** How many bytes of a value fit a buffer: whole units, beside the terminator. */
  function Room(ctype: CType, capacity: nat): (room: nat)
    ensures room <= capacity
  {
    if capacity < Terminator(ctype) then 0
    else if ctype == CWChar then capacity - 2 - capacity % 2
    else capacity - Terminator(ctype)
  }

  /** What the driver writes for a value: as much as fits, and the terminator. */
  function Image(ctype: CType, capacity: nat, v: seq<Byte>): (image: seq<Byte>)
    ensures |image| <= capacity
  {
    if capacity < Terminator(ctype) then []
    else v[..Min(|v|, Room(ctype, capacity))] + Fill(Terminator(ctype), 0)
  }

  /** A value the column's C type can hold. */
  predicate WellTyped(ctype: CType, clen: nat, cell: Cell) {
    cell.Value? ==> (ctype == CWChar ==> |cell.bytes| % 2 == 0) && (ctype == CFixed ==> |cell.bytes| == clen)
  }

  /** One column of the rows of a rowset. */
  function ColumnCells(table: seq<seq<Cell>>, start: nat, count: nat, column: nat): seq<Cell>
    requires start + count <= |table| && forall row | row in table :: column < |row|
  {
    seq(count, i requires 0 <= i < count => table[start + i][column])
  }

  method WriteOver(buffer: array<Byte>, image: seq<Byte>)
    requires |image| <= buffer.Length
    modifies buffer
    ensures image <= buffer[..]
  {
    for k := 0 to |image|
      invariant buffer[..k] == image[..k]
    {
      buffer[k] := image[k];
    }
    assert image[..|image|] == image;
  }

  /** What a buffer holds where an image was written: the value, or as much of it as fits. */
  lemma ImagePrefix(ctype: CType, capacity: nat, v: seq<Byte>, buffer: seq<Byte>)
    requires |buffer| == capacity && Image(ctype, capacity, v) <= buffer
    ensures var room := Room(ctype, capacity);
      if |v| <= room then buffer[..|v|] == v else buffer[..room] == v[..room]
  {
    var m := Min(|v|, Room(ctype, capacity));
    assert capacity >= Terminator(ctype) ==> Image(ctype, capacity, v)[..m] == v[..m];
  }

  /** How far SQLGetData has got: the column asked for last, where in it, and whether it is done with it. */
  datatype Progress = Progress(column: int, offset: nat, spent: bool)

  const NOTHING_READ := Progress(-1, 0, false)

  class Handle {
    const table: seq<seq<Cell>>
    const ctypes: seq<CType>
    const size: nat
    /** Which fetches raise, and the row count each leaves behind. */
    const faults: map<nat, nat>
    /** SQL_GD_BOUND of SQL_GETDATA_EXTENSIONS. */
    const getDataOnBound: bool
    /** Whether a fetch reports the length of a value it cut, or SQL_NO_TOTAL. */
    const totals: bool
    /** Whether a fetch writes the indicators of columns without a buffer. */
    const indicatesUnbound: bool

    var place: Place
    var current: int
    var fetches: nat
    var progress: Progress

    constructor (table: seq<seq<Cell>>, ctypes: seq<CType>, size: nat, faults: map<nat, nat>,
                 getDataOnBound: bool, totals: bool, indicatesUnbound: bool)
      requires size > 0 && forall row | row in table :: |row| == |ctypes|
      ensures Valid() && place == BeforeStart && current == 0 && fetches == 0 && progress == NOTHING_READ
      ensures this.table == table && this.ctypes == ctypes && this.size == size && this.faults == faults
      ensures this.getDataOnBound == getDataOnBound && this.totals == totals && this.indicatesUnbound == indicatesUnbound
    {
      this.table, this.ctypes, this.size, this.faults := table, ctypes, size, faults;
      this.getDataOnBound, this.totals, this.indicatesUnbound := getDataOnBound, totals, indicatesUnbound;
      place, current, fetches := BeforeStart, 0, 0;
      progress := NOTHING_READ;
    }

    /** Every row has a cell for every column. */
    ghost predicate Rectangular() {
      forall row | row in table :: |row| == |ctypes|
    }

    ghost predicate Valid()
      reads this
    {
      && size > 0 && Rectangular()
      && (place.At? ==> place.start < |table|)
      && (progress.column != -1 ==> HasRow() && 0 <= progress.column < |ctypes| && ProgressOk())
    }

    ghost predicate HasRow()
      reads this
    {
      place.At? && 0 <= current && place.start + current < |table|
    }

    /** The cell SQLGetData is asked for. */
    ghost function CellAt(column: nat): Cell
      requires HasRow() && column < |ctypes| && Rectangular()
      reads this
    {
      table[place.start + current][column]
    }

    ghost predicate ProgressOk()
      requires HasRow() && 0 <= progress.column < |ctypes| && Rectangular()
      reads this
    {
      match CellAt(progress.column)
      case Null => progress.spent
      case Value(v) => progress.spent || progress.offset <= |v|
    }

    /** No value is half read. */
    predicate Whole()
      reads this
    {
      progress.column != -1 ==> progress.spent || progress.offset == 0
    }

    /** Whether a whole value, or a null, has been handed over already. */
    ghost predicate Spent(column: nat)
      reads this
    {
      progress.column == column && progress.spent
    }

    /** What SQLGetData has not handed over yet. */
    ghost function Rest(column: nat): seq<Byte>
      requires Valid() && HasRow() && column < |ctypes|
      reads this
    {
      match CellAt(column)
      case Null => []
      case Value(v) => if progress.column != column then v else if progress.spent then [] else v[progress.offset..]
    }

    /** SQLSetPos with SQL_POSITION. */
    method SetPos(row: int)
      requires Valid() && place.At? && 0 <= row && place.start + row < |table|
      modifies this`current, this`progress
      ensures Valid() && current == row && progress == NOTHING_READ
    {
      current, progress := row, NOTHING_READ;
    }

    /** SQLFetchScroll without its writes to bound memory: the row count, or None where it raises. */
    method FetchScroll(o: Orientation) returns (rc: Rc, rows: nat, raised: bool)
      requires Valid()
      modifies this
      ensures Valid() && fetches == old(fetches) + 1 && progress == NOTHING_READ
      ensures raised <==> old(fetches) in faults
      ensures raised ==> place == old(place) && current == old(current) && rows == faults[old(fetches)]
      ensures !raised ==> place == Scroll(old(place), |table|, size, o)
      ensures !raised && place.At? ==> rc == Success && rows == Min(size, |table| - place.start) && current == 0
      ensures !raised && !place.At? ==> rc == NoData && rows == 0 && current == old(current)
    {
      progress := NOTHING_READ;
      fetches := fetches + 1;
      if fetches - 1 in faults {
        return NoData, faults[fetches - 1], true;
      }
      place := Scroll(place, |table|, size, o);
      if place.At? {
        current := 0;
        return Success, Min(size, |table| - place.start), false;
      }
      return NoData, 0, false;
    }

    /**
     SQLGetData. A cut piece reports what was left before it, or SQL_NO_TOTAL, as the driver
     likes; the last piece reports its own length. Once all is handed over there is no data,
     and nothing is written.
     */
    method GetData(column: nat, buffer: array<Byte>, ind: int) returns (rc: Rc, ind': int)
      requires Valid() && HasRow() && column < |ctypes|
      modifies this`progress, buffer
      ensures Valid() && progress.column == column
      ensures old(Spent(column)) ==> rc == NoData && ind' == ind && Spent(column) && buffer[..] == old(buffer[..])
      ensures !old(Spent(column)) && CellAt(column).Null? ==> rc == Success && ind' == SQL_NULL_DATA && Spent(column)
      ensures !old(Spent(column)) && CellAt(column).Value? ==>
        var rest, room := old(Rest(column)), Room(ctypes[column], buffer.Length);
        if |rest| <= room then
          rc == Success && ind' == |rest| && Spent(column) && buffer[..|rest|] == rest
        else
          && rc == SuccessWithInfo && (ind' == |rest| || ind' == SQL_NO_TOTAL)
          && !Spent(column) && Rest(column) == rest[room..] && buffer[..room] == rest[..room]
    {
      if progress.column != column {
        progress := Progress(column, 0, false);
      }
      if progress.spent {
        return NoData, ind;
      }
      if table[place.start + current][column].Null? {
        progress := progress.(spent := true);
        return Success, SQL_NULL_DATA;
      }
      rc, ind' := Serve(column, buffer);
    }

    /** Hands over the next piece of the value being read. */
    method Serve(column: nat, buffer: array<Byte>) returns (rc: Rc, ind: int)
      requires Valid() && HasRow() && column < |ctypes| && progress.column == column && !progress.spent && CellAt(column).Value?
      modifies this`progress, buffer
      ensures Valid() && progress.column == column
      ensures var rest, room := old(Rest(column)), Room(ctypes[column], buffer.Length);
        if |rest| <= room then
          rc == Success && ind == |rest| && progress.spent && buffer[..|rest|] == rest
        else
          && rc == SuccessWithInfo && (ind == |rest| || ind == SQL_NO_TOTAL)
          && !progress.spent && Rest(column) == rest[room..] && buffer[..room] == rest[..room]
    {
      var v := table[place.start + current][column].bytes;
      var rest := v[progress.offset..];
      var room := Room(ctypes[column], buffer.Length);
      var image := Image(ctypes[column], buffer.Length, rest);
      WriteOver(buffer, image);
      ImagePrefix(ctypes[column], buffer.Length, rest, buffer[..]);
      if |rest| <= room {
        progress := progress.(spent := true);
        return Success, |rest|;
      }
      assert v[progress.offset + room..] == rest[room..];
      progress := progress.(offset := progress.offset + room);
      var tells: bool := *;
      return SuccessWithInfo, if tells then |rest| else SQL_NO_TOTAL;
    }
  }
}
