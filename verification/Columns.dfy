/** Bound column buffers: fixed slots of `clen` bytes and one indicator a row. */
module Columns {
  import opened Base
  import opened Odbc

  /** What auto_bind_columns gives a buffer: anything but binary, in whole units and with room for a terminator. */
  predicate CanBuffer(ctype: CType, clen: nat) {
    && clen > 0 && clen >= Terminator(ctype) && ctype != CBinary
    && (ctype == CWChar ==> clen % 2 == 0)
  }

  /**
   One column. A blob column never has a buffer, so what before_move would release there is
   never there. `bound` false means that the buffer, if there was one, is gone.
   */
  class BoundColumn {
    const ctype: CType
    const clen: nat
    const cbdata: array<int>
    const pdata: array<Byte>
    var bound: bool

    constructor (ctype: CType, clen: nat, blob: bool, rowsetSize: nat)
      ensures this.ctype == ctype && this.clen == clen && bound == !blob
      ensures fresh(cbdata) && fresh(pdata) && cbdata.Length == rowsetSize
      ensures pdata.Length == if blob then 0 else rowsetSize * clen
    {
      this.ctype, this.clen, bound := ctype, clen, !blob;
      ProductNat(rowsetSize, clen);
      cbdata := new int[rowsetSize](_ => 0);
      pdata := new Byte[if blob then 0 else rowsetSize * clen](_ => 0);
    }

    predicate HasBuffer() { CanBuffer(ctype, clen) }

    /** The row's slot begins with what the driver writes for the value. */
    ghost predicate HoldsImage(i: nat, v: seq<Byte>)
      reads pdata
    {
      && 0 <= i * clen <= i * clen + clen <= pdata.Length
      && Image(ctype, clen, v) <= pdata[i * clen..i * clen + clen]
    }

    /** What a fetch reports for the cell in the indicator of a bound column. */
    function Indicator(cell: Cell, totals: bool): int {
      match cell
      case Null => SQL_NULL_DATA
      case Value(v) => if |v| > Room(ctype, clen) && !totals then SQL_NO_TOTAL else |v|
    }

    /** The row's slot and indicator are the driver's for the cell. */
    ghost predicate Holds(i: nat, cell: Cell, totals: bool)
      reads cbdata, pdata
    {
      && i < cbdata.Length && cbdata[i] == Indicator(cell, totals)
      && (cell.Value? ==> HoldsImage(i, cell.bytes))
    }

    /** A slot holds the cell's value where there is a buffer. */
    ghost predicate ImageOk(i: nat, cell: Cell)
      reads this, pdata
    {
      bound && cell.Value? ==> HoldsImage(i, cell.bytes)
    }

    /** An indicator is the driver's where there is a buffer, and never a false null where there is none. */
    ghost predicate IndicatorOk(i: nat, cell: Cell, totals: bool)
      reads this, cbdata
    {
      && i < cbdata.Length
      && if bound then cbdata[i] == Indicator(cell, totals) else cbdata[i] == SQL_NULL_DATA ==> cell.Null?
    }

    ghost predicate ImagesOk(cells: seq<Cell>)
      reads this, pdata
    {
      forall i | 0 <= i < |cells| :: ImageOk(i, cells[i])
    }

    ghost predicate IndicatorsOk(cells: seq<Cell>, totals: bool)
      reads this, cbdata
    {
      forall i | 0 <= i < |cells| :: IndicatorOk(i, cells[i], totals)
    }

    /** Every row of the rowset is in order. */
    ghost predicate SlotsOk(cells: seq<Cell>, totals: bool)
      reads this, cbdata, pdata
    {
      ImagesOk(cells) && IndicatorsOk(cells, totals)
    }

    /** As good as `IndicatorOk` for a reader, but a null may have been noted that is another row's. */
    ghost predicate IndicatorKept(i: nat, cell: Cell, totals: bool)
      reads this, cbdata
    {
      && i < cbdata.Length
      && (bound ==> cbdata[i] == Indicator(cell, totals) || cbdata[i] == SQL_NULL_DATA)
    }

    ghost predicate SlotKept(i: nat, cell: Cell, totals: bool)
      reads this, cbdata, pdata
    {
      ImageOk(i, cell) && IndicatorKept(i, cell, totals)
    }

    /** What every read leaves of the rows of a rowset. */
    ghost predicate SlotsKept(cells: seq<Cell>, totals: bool)
      reads this, cbdata, pdata
    {
      ImagesOk(cells) && forall i | 0 <= i < |cells| :: IndicatorKept(i, cells[i], totals)
    }

    ghost predicate Cleared()
      reads cbdata
    {
      forall i | 0 <= i < cbdata.Length :: cbdata[i] == 0
    }

    method ClearIndicators(count: nat)
      requires count <= cbdata.Length
      modifies cbdata
      ensures forall i | 0 <= i < count :: cbdata[i] == 0
      ensures count == cbdata.Length ==> Cleared()
    {
      for i := 0 to count
        invariant forall j | 0 <= j < i :: cbdata[j] == 0
      {
        cbdata[i] := 0;
      }
    }

    /** A slot that was in order still is: a null known to the buffer is a null. */
    method Unbind()
      modifies this`bound
      ensures !bound
      ensures forall cells: seq<Cell>, totals: bool | old(SlotsOk(cells, totals)) :: SlotsOk(cells, totals)
      ensures forall cells: seq<Cell>, totals: bool | |cells| <= cbdata.Length :: SlotsKept(cells, totals)
    {
      bound := false;
    }

    /** What a fetch writes to this column's memory. */
    method Deliver(cells: seq<Cell>, totals: bool, indicatesUnbound: bool)
      requires |cells| <= cbdata.Length && cbdata as object != pdata
      requires bound ==> pdata.Length == cbdata.Length * clen
      requires Cleared()
      modifies cbdata, pdata
      ensures SlotsOk(cells, totals)
    {
      if bound {
        DeliverBound(cells, totals);
      } else if indicatesUnbound {
        for i := 0 to |cells|
          invariant forall j | 0 <= j < i :: IndicatorOk(j, cells[j], totals)
          invariant forall j | i <= j < |cells| :: cbdata[j] == 0
        {
          cbdata[i] := if cells[i].Null? then SQL_NULL_DATA else |cells[i].bytes|;
        }
      }
    }

    method DeliverBound(cells: seq<Cell>, totals: bool)
      requires |cells| <= cbdata.Length && cbdata as object != pdata && pdata.Length == cbdata.Length * clen
      modifies cbdata, pdata
      ensures forall i | 0 <= i < |cells| :: Holds(i, cells[i], totals)
    {
      for i := 0 to |cells|
        invariant forall j | 0 <= j < i :: Holds(j, cells[j], totals)
      {
        SlotFits(i, cbdata.Length, clen);
        ghost var before, base := pdata[..], i * clen;
        DeliverSlot(i, cells[i], totals);
        forall j | 0 <= j < i
          ensures Holds(j, cells[j], totals)
        {
          SlotFits(j, i, clen);
          SameSlot(before, pdata[..], base, j * clen, clen);
        }
      }
    }

    method DeliverSlot(i: nat, cell: Cell, totals: bool)
      requires i < cbdata.Length && cbdata as object != pdata
      requires 0 <= i * clen <= i * clen + clen <= pdata.Length
      modifies cbdata, pdata
      ensures Holds(i, cell, totals)
      ensures forall j | 0 <= j < cbdata.Length && j != i :: cbdata[j] == old(cbdata[j])
      ensures pdata[..i * clen] == old(pdata[..i * clen]) && pdata[i * clen + clen..] == old(pdata[i * clen + clen..])
    {
      cbdata[i] := Indicator(cell, totals);
      if cell.Null? {
        return;
      }
      var v := cell.bytes;
      var base := i * clen;
      var image := Image(ctype, clen, v);
      CopyInto(pdata, base, image);
      assert pdata[base..base + clen][..|image|] == image;
    }
  }

  lemma SameSlot(before: seq<Byte>, after: seq<Byte>, base: nat, from: nat, clen: nat)
    requires base <= |before| && base <= |after| && before[..base] == after[..base] && from + clen <= base
    ensures before[from..from + clen] == after[from..from + clen]
  {
    assert before[from..from + clen] == before[..base][from..from + clen];
    assert after[from..from + clen] == after[..base][from..from + clen];
  }
}
