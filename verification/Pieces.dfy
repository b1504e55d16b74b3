/**
 The SQLGetData loops: a value handed over in pieces of a fixed buffer, joined again whatever
 its length and whether a cut piece reports what is left or only that something is.
 */
module Pieces {
  import opened Base
  import opened Odbc

  /** The 16-bit units that byte pairs make, low byte first. */
  function Units(bytes: seq<Byte>): (units: seq<Unit16>)
    ensures |units| == |bytes| / 2
  {
    if |bytes| < 2 then [] else [Unit(bytes[0], bytes[1])] + Units(bytes[2..])
  }

  function Unit(low: int, high: int): Unit16
    requires 0 <= low < 0x100 && 0 <= high < 0x100
  {
    low + 0x100 * high
  }

  /** The memory holds the units: of every unit the low byte stands first, and the high byte behind it. */
  ghost predicate Pairs(units: seq<Unit16>, memory: seq<Byte>) {
    && |memory| == 2 * |units|
    && forall i :: 0 <= i < |units| ==> memory[2 * i] == units[i] % 0x100 && memory[2 * i + 1] == units[i] / 0x100
  }

  /** `Units` reads out what the memory holds, and nothing else would. */
  lemma {:induction false} UnitsArePairs(units: seq<Unit16>, memory: seq<Byte>)
    requires |memory| % 2 == 0
    ensures Units(memory) == units <==> Pairs(units, memory)
  {
    if memory != [] && units != [] {
      UnitsArePairs(units[1..], memory[2..]);
      assert Units(memory) == [Unit(memory[0], memory[1])] + Units(memory[2..]);
      assert units == [units[0]] + units[1..];
      assert Unit(memory[0], memory[1]) == units[0] <==> memory[0] == units[0] % 0x100 && memory[1] == units[0] / 0x100;
      if Pairs(units[1..], memory[2..]) {
        forall i | 0 < i < |units|
          ensures memory[2 * i] == units[i] % 0x100 && memory[2 * i + 1] == units[i] / 0x100
        {
          assert units[i] == units[1..][i - 1];
          assert memory[2 * i] == memory[2..][2 * (i - 1)];
        }
      }
      if Pairs(units, memory) {
        forall i | 0 <= i < |units| - 1
          ensures memory[2..][2 * i] == units[1..][i] % 0x100 && memory[2..][2 * i + 1] == units[1..][i] / 0x100
        {
          assert units[1..][i] == units[i + 1];
          assert memory[2..][2 * i] == memory[2 * (i + 1)];
        }
      }
    }
  }

  lemma {:induction false} UnitsConcat(a: seq<Byte>, b: seq<Byte>)
    requires |a| % 2 == 0
    ensures Units(a + b) == Units(a) + Units(b)
  {
    if a == [] {
      assert a + b == b;
    } else {
      UnitsConcat(a[2..], b);
      assert (a + b)[2..] == a[2..] + b && (a + b)[0] == a[0] && (a + b)[1] == a[1];
      Joined([Unit(a[0], a[1])], Units(a[2..]), Units(b));
    }
  }

  /** Byte pairs and units say the same. */
  lemma {:induction false} UnitsInjective(a: seq<Byte>, b: seq<Byte>)
    requires |a| % 2 == 0 && |b| % 2 == 0 && Units(a) == Units(b)
    ensures a == b
  {
    if a != [] {
      assert Units(a)[0] == Unit(a[0], a[1]) && Units(b)[0] == Unit(b[0], b[1]);
      assert Units(a)[1..] == Units(a[2..]) && Units(b)[1..] == Units(b[2..]);
      UnitsInjective(a[2..], b[2..]);
      assert a == [a[0], a[1]] + a[2..] && b == [b[0], b[1]] + b[2..];
    }
  }

  /** How many bytes a call put in the buffer: what the indicator says, but no more than a piece of whole units. */
  function Taken(ind: int, unit: nat, piece: nat): nat
    requires unit > 0
  {
    if ind == SQL_NO_TOTAL then unit * piece
    else if ind > 0 then unit * Min(ind / unit, piece)
    else 0
  }

  /** The sizes the source reads with: units to a piece of a 1024-byte buffer, beside the terminator. */
  function UnitSize(ctype: CType): (unit: nat)
    ensures unit > 0
  {
    if ctype == CWChar then 2 else 1
  }

  function PieceSize(ctype: CType): nat {
    match ctype case CChar => 1023 case CWChar => 511 case _ => 1024
  }

  /** The last piece is taken whole. */
  lemma TakesAll(ctype: CType, n: nat)
    requires n % UnitSize(ctype) == 0 && n <= Room(ctype, 1024)
    ensures Taken(n, UnitSize(ctype), PieceSize(ctype)) == n
  {
  }

  /** A cut piece is taken up to its terminator, whichever length it reports. */
  lemma TakesRoom(ctype: CType, n: nat, ind: int)
    requires n % UnitSize(ctype) == 0 && n > Room(ctype, 1024) && (ind == n || ind == SQL_NO_TOTAL)
    ensures Taken(ind, UnitSize(ctype), PieceSize(ctype)) == Room(ctype, 1024) > 0
    ensures Room(ctype, 1024) % UnitSize(ctype) == 0 && (n - Room(ctype, 1024)) % UnitSize(ctype) == 0
  {
  }

  /** What a buffer holds of a value it cut, taken up to the terminator, and the rest make the value. */
  lemma CutPiece(ctype: CType, rest: seq<Byte>, buffer: seq<Byte>, ind: int)
    requires |rest| % UnitSize(ctype) == 0 && |rest| > Room(ctype, 1024) && (ind == |rest| || ind == SQL_NO_TOTAL)
    requires |buffer| == 1024 && buffer[..Room(ctype, 1024)] == rest[..Room(ctype, 1024)]
    ensures var taken := Taken(ind, UnitSize(ctype), PieceSize(ctype));
      && 0 < taken <= 1024 && taken % UnitSize(ctype) == 0 && (|rest| - taken) % UnitSize(ctype) == 0
      && taken == Room(ctype, 1024) && buffer[..taken] + rest[taken..] == rest
  {
    TakesRoom(ctype, |rest|, ind);
  }

  /** And of one that fits. */
  lemma LastPiece(ctype: CType, rest: seq<Byte>, buffer: seq<Byte>)
    requires |rest| % UnitSize(ctype) == 0 && |rest| <= Room(ctype, 1024)
    requires |buffer| == 1024 && buffer[..|rest|] == rest
    ensures Taken(|rest|, UnitSize(ctype), PieceSize(ctype)) == |rest| && rest + [] == rest
  {
    TakesAll(ctype, |rest|);
  }

  /** What a call put in the buffer, by what it returned: a part of the rest, all of it, or nothing. */
  lemma PieceOf(ctype: CType, rest: seq<Byte>, buffer: seq<Byte>, rc: Rc, ind: int)
    requires |rest| % UnitSize(ctype) == 0 && |buffer| == 1024
    requires rc == SuccessWithInfo ==>
      |rest| > Room(ctype, 1024) && (ind == |rest| || ind == SQL_NO_TOTAL) && buffer[..Room(ctype, 1024)] == rest[..Room(ctype, 1024)]
    requires rc == Success ==> ind == SQL_NULL_DATA || (ind == |rest| <= Room(ctype, 1024) && buffer[..|rest|] == rest)
    requires rc == NoData ==> ind == 0
    ensures var taken := Taken(ind, UnitSize(ctype), PieceSize(ctype));
      && taken <= 1024 && taken % UnitSize(ctype) == 0
      && (rc == SuccessWithInfo ==> 0 < taken == Room(ctype, 1024) < |rest| && (|rest| - taken) % UnitSize(ctype) == 0)
      && (rc == SuccessWithInfo ==> buffer[..taken] + rest[taken..] == rest)
      && (rc == Success && ind != SQL_NULL_DATA ==> buffer[..taken] == rest)
      && (rc == NoData || ind == SQL_NULL_DATA ==> taken == 0)
  {
    if rc == SuccessWithInfo {
      CutPiece(ctype, rest, buffer, ind);
    } else if rc == Success && ind != SQL_NULL_DATA {
      LastPiece(ctype, rest, buffer);
    }
  }

  /** One turn of a loop: what it appends and what is then left make what was left before. */
  method NextPiece(stmt: Handle, column: nat, buffer: array<Byte>, ind0: int) returns (rc: Rc, ind: int, got: seq<Byte>)
    requires stmt.Valid() && stmt.HasRow() && column < |stmt.ctypes| && buffer.Length == 1024
    requires stmt.Spent(column) ==> ind0 == 0
    requires |stmt.Rest(column)| % UnitSize(stmt.ctypes[column]) == 0
    modifies stmt`progress, buffer
    ensures stmt.Valid() && stmt.HasRow() && stmt.progress.column == column && stmt.CellAt(column) == old(stmt.CellAt(column))
    ensures rc == SuccessWithInfo <==> !stmt.Spent(column)
    ensures old(stmt.Spent(column)) ==> rc == NoData && ind == ind0 && got == []
    ensures got + stmt.Rest(column) == old(stmt.Rest(column)) && |got| % UnitSize(stmt.ctypes[column]) == 0
    ensures rc == SuccessWithInfo ==> got != [] && |stmt.Rest(column)| % UnitSize(stmt.ctypes[column]) == 0
    ensures ind == SQL_NULL_DATA <==> !old(stmt.Spent(column)) && stmt.CellAt(column).Null?
  {
    ghost var rest := stmt.Rest(column);
    var ctype := stmt.ctypes[column];
    rc, ind := stmt.GetData(column, buffer, ind0);
    PieceOf(ctype, rest, buffer[..], rc, ind);
    got := buffer[..Taken(ind, UnitSize(ctype), PieceSize(ctype))];
  }

  lemma Joined<T>(out: seq<T>, got: seq<T>, rest: seq<T>)
    ensures (out + got) + rest == out + (got + rest)
  {
  }

  /** One more piece is joined, and the whole is still the whole. */
  lemma OneMorePiece<T>(out: seq<T>, got: seq<T>, before: seq<T>, after: seq<T>, all: seq<T>)
    requires out + before == all && got + after == before
    ensures (out + got) + after == all && |out + got| == |out| + |got|
  {
    Joined(out, got, after);
  }

  /** One turn of the narrow loop, which starts every turn with a zeroed buffer. */
  method NextNarrowPiece(stmt: Handle, column: nat, ind0: int) returns (rc: Rc, ind: int, got: seq<Byte>)
    requires stmt.Valid() && stmt.HasRow() && column < |stmt.ctypes|
    requires stmt.ctypes[column] == CChar || stmt.ctypes[column] == CBinary
    requires stmt.Spent(column) ==> ind0 == 0
    modifies stmt`progress
    ensures stmt.Valid() && stmt.HasRow() && stmt.progress.column == column && stmt.CellAt(column) == old(stmt.CellAt(column))
    ensures rc == SuccessWithInfo <==> !stmt.Spent(column)
    ensures old(stmt.Spent(column)) ==> ind == ind0
    ensures got + stmt.Rest(column) == old(stmt.Rest(column))
    ensures rc == SuccessWithInfo ==> got != []
    ensures ind == SQL_NULL_DATA <==> !old(stmt.Spent(column)) && stmt.CellAt(column).Null?
  {
    var buffer := new Byte[1024](_ => 0);
    rc, ind, got := NextPiece(stmt, column, buffer, ind0);
  }

  /** Narrow text in pieces of 1023 bytes, and binary read as text in pieces of 1024. */
  method ReadNarrow(stmt: Handle, column: nat, indicators: array<int>, row: nat) returns (out: seq<Byte>)
    requires stmt.Valid() && stmt.HasRow() && column < |stmt.ctypes| && row < indicators.Length
    requires stmt.ctypes[column] == CChar || stmt.ctypes[column] == CBinary
    modifies stmt`progress, indicators
    ensures stmt.Valid() && stmt.Spent(column) && out == old(stmt.Rest(column))
    ensures forall i | 0 <= i < indicators.Length && i != row :: indicators[i] == old(indicators[i])
    ensures indicators[row] == if !old(stmt.Spent(column)) && stmt.CellAt(column).Null? then SQL_NULL_DATA else old(indicators[row])
  {
    out := [];
    var ind, rc, got := 0, SuccessWithInfo, [];
    ghost var all, noData, cell := stmt.Rest(column), stmt.Spent(column), stmt.CellAt(column);
    while rc == SuccessWithInfo
      invariant stmt.Valid() && stmt.HasRow() && stmt.CellAt(column) == cell
      invariant out + stmt.Rest(column) == all
      invariant if rc == SuccessWithInfo then stmt.Spent(column) == noData && (noData ==> ind == 0) else stmt.Spent(column)
      invariant forall i | 0 <= i < indicators.Length && i != row :: indicators[i] == old(indicators[i])
      invariant indicators[row] == if rc != SuccessWithInfo && !noData && cell.Null? then SQL_NULL_DATA else old(indicators[row])
      decreases if rc == SuccessWithInfo then |all| - |out| + 1 else 0
    {
      ghost var before := stmt.Rest(column);
      rc, ind, got := NextNarrowPiece(stmt, column, ind);
      OneMorePiece(out, got, before, stmt.Rest(column), all);
      out := out + got;
      if ind == SQL_NULL_DATA {
        indicators[row] := SQL_NULL_DATA;
      }
    }
  }

  /** One turn of the wide loop, in units; a null is noted in the row's indicator. */
  method NextWidePiece(stmt: Handle, column: nat, ind0: int, indicators: array<int>, row: nat)
      returns (rc: Rc, ind: int, got: seq<Unit16>, ghost left: seq<Byte>)
    requires stmt.Valid() && stmt.HasRow() && column < |stmt.ctypes| && stmt.ctypes[column] == CWChar
    requires row < indicators.Length && (stmt.Spent(column) ==> ind0 == 0)
    requires |stmt.Rest(column)| % 2 == 0
    modifies stmt`progress, indicators
    ensures forall i | 0 <= i < indicators.Length && i != row :: indicators[i] == old(indicators[i])
    ensures indicators[row] == if ind == SQL_NULL_DATA then SQL_NULL_DATA else old(indicators[row])
    ensures stmt.Valid() && stmt.HasRow() && stmt.progress.column == column && stmt.CellAt(column) == old(stmt.CellAt(column))
    ensures rc == SuccessWithInfo <==> !stmt.Spent(column)
    ensures old(stmt.Spent(column)) ==> ind == ind0
    ensures left == stmt.Rest(column) && |left| % 2 == 0 && got + Units(left) == Units(old(stmt.Rest(column)))
    ensures rc != SuccessWithInfo ==> left == []
    ensures rc == SuccessWithInfo ==> got != []
    ensures ind == SQL_NULL_DATA <==> !old(stmt.Spent(column)) && stmt.CellAt(column).Null?
  {
    var buffer, bytes := new Byte[1024](_ => 0), [];
    ghost var rest := stmt.Rest(column);
    rc, ind, bytes := NextPiece(stmt, column, buffer, ind0);
    UnitsConcat(bytes, stmt.Rest(column));
    assert |rest| == |bytes| + |stmt.Rest(column)|;
    got, left := Units(bytes), stmt.Rest(column);
    if ind == SQL_NULL_DATA {
      indicators[row] := SQL_NULL_DATA;
    }
  }

  /** Wide text in pieces of 511 units. */
  method ReadWide(stmt: Handle, column: nat, indicators: array<int>, row: nat) returns (out: seq<Unit16>)
    requires stmt.Valid() && stmt.HasRow() && column < |stmt.ctypes| && row < indicators.Length
    requires stmt.ctypes[column] == CWChar && |stmt.Rest(column)| % 2 == 0
    modifies stmt`progress, indicators
    ensures stmt.Valid() && stmt.Spent(column) && out == Units(old(stmt.Rest(column)))
    ensures Pairs(out, old(stmt.Rest(column)))
    ensures forall i | 0 <= i < indicators.Length && i != row :: indicators[i] == old(indicators[i])
    ensures indicators[row] == if !old(stmt.Spent(column)) && stmt.CellAt(column).Null? then SQL_NULL_DATA else old(indicators[row])
  {
    out := [];
    var ind, rc, got := 0, SuccessWithInfo, [];
    ghost var noData, cell := stmt.Spent(column), stmt.CellAt(column);
    ghost var left := stmt.Rest(column);
    ghost var all := Units(left);
    UnitsArePairs(all, left);
    while rc == SuccessWithInfo
      invariant stmt.Valid() && stmt.HasRow() && stmt.CellAt(column) == cell
      invariant out + Units(left) == all && |left| % 2 == 0
      invariant if rc == SuccessWithInfo then left == stmt.Rest(column) else left == []
      invariant if rc == SuccessWithInfo then stmt.Spent(column) == noData && (noData ==> ind == 0) else stmt.Spent(column)
      invariant forall i | 0 <= i < indicators.Length && i != row :: indicators[i] == old(indicators[i])
      invariant indicators[row] == if rc != SuccessWithInfo && !noData && cell.Null? then SQL_NULL_DATA else old(indicators[row])
      decreases if rc == SuccessWithInfo then |all| - |out| + 1 else 0
    {
      ghost var before := Units(left);
      rc, ind, got, left := NextWidePiece(stmt, column, ind, indicators, row);
      OneMorePiece(out, got, before, Units(left), all);
      out := out + got;
    }
  }

  /** Binary in pieces of 1024 bytes, with one buffer for all of them. */
  method ReadBinary(stmt: Handle, column: nat, indicators: array<int>, row: nat) returns (out: seq<Byte>)
    requires stmt.Valid() && stmt.HasRow() && column < |stmt.ctypes| && row < indicators.Length
    requires stmt.ctypes[column] == CBinary
    modifies stmt`progress, indicators
    ensures stmt.Valid() && stmt.Spent(column) && out == old(stmt.Rest(column))
    ensures forall i | 0 <= i < indicators.Length && i != row :: indicators[i] == old(indicators[i])
    ensures indicators[row] == if !old(stmt.Spent(column)) && stmt.CellAt(column).Null? then SQL_NULL_DATA else old(indicators[row])
  {
    out := [];
    var ind, rc, got := 0, SuccessWithInfo, [];
    var buffer := new Byte[1024](_ => 0);
    ghost var all, noData, cell := stmt.Rest(column), stmt.Spent(column), stmt.CellAt(column);
    while rc == SuccessWithInfo
      invariant stmt.Valid() && stmt.HasRow() && stmt.CellAt(column) == cell
      invariant out + stmt.Rest(column) == all
      invariant if rc == SuccessWithInfo then stmt.Spent(column) == noData && (noData ==> ind == 0) else stmt.Spent(column)
      invariant forall i | 0 <= i < indicators.Length && i != row :: indicators[i] == old(indicators[i])
      invariant indicators[row] == if rc != SuccessWithInfo && !noData && cell.Null? then SQL_NULL_DATA else old(indicators[row])
      decreases if rc == SuccessWithInfo then |all| - |out| + 1 else 0
    {
      ghost var before := stmt.Rest(column);
      rc, ind, got := NextPiece(stmt, column, buffer, ind);
      OneMorePiece(out, got, before, stmt.Rest(column), all);
      out := out + got;
      if ind == SQL_NULL_DATA {
        indicators[row] := SQL_NULL_DATA;
      }
    }
  }
}
