/**
 The result of a statement: columns whose buffers are filled a rowset at a time, and the six
 moves over them.
 */
module Results {
  import opened Base
  import opened Scrolling
  import opened RowsetCursor
  import opened Odbc
  import opened Columns

  datatype Description = Description(ctype: CType, clen: nat, blob: bool)

  /** No two columns share memory. */
  ghost predicate Distinct(columns: seq<BoundColumn>) {
    && (forall c, d | 0 <= c < d < |columns| ::
          columns[c] != columns[d] && columns[c].cbdata != columns[d].cbdata && columns[c].pdata != columns[d].pdata)
    && (forall c, d | 0 <= c < |columns| && 0 <= d < |columns| :: columns[c].cbdata as object != columns[d].pdata)
  }

  ghost function Buffers(columns: seq<BoundColumn>): set<object> {
    (set c: BoundColumn | c in columns :: c.cbdata as object) + (set c: BoundColumn | c in columns :: c.pdata as object)
  }

  class ResultImpl {
    const stmt: Handle
    const columns: seq<BoundColumn>
    const rowsetSize: nat
    var rowCount: nat
    var rowsetPosition: int
    var atEnd: bool
    var hasUnbound: bool

    ghost function View(): Cursor
      reads this, stmt
    {
      Cursor(|stmt.table|, rowsetSize, stmt.place, rowCount, rowsetPosition, stmt.current,
                    hasUnbound, atEnd, stmt.fetches, stmt.faults)
    }

    /** A rowset has just been fetched from `row` on, and cursor and driver are on its first row. */
    ghost predicate FetchedFrom(row: int)
      reads this, stmt
    {
      && stmt.place.At? && stmt.place.start == row && rowsetPosition == 0 && stmt.current == 0
      && rowCount == Min(rowsetSize, |stmt.table| - row) > 0
    }

    /** What an answered fetch says: whether there was a row to fetch from, and that it was fetched. */
    ghost predicate Found(r: Outcome<bool>, found: bool, row: int)
      reads this, stmt
    {
      r == Done(found) && if found then FetchedFrom(row) else !stmt.place.At? && rowCount == 0
    }

    /** The columns fit the result, each with memory of its own. */
    ghost predicate Layout()
      reads columns
    {
      && rowsetSize == stmt.size && |columns| == |stmt.ctypes| && stmt.Rectangular() && Distinct(columns)
      && forall c | 0 <= c < |columns| :: ColumnFits(c)
    }

    ghost predicate ColumnFits(c: nat)
      requires c < |columns| == |stmt.ctypes| && stmt.Rectangular()
      reads columns[c]
    {
      && columns[c].ctype == stmt.ctypes[c] && columns[c].cbdata.Length == rowsetSize
      && (columns[c].bound ==>
            && columns[c].pdata.Length == rowsetSize * columns[c].clen
            && columns[c].HasBuffer())
      && (columns[c].ctype == CFixed ==> columns[c].clen > 0)
      && forall row | row in stmt.table :: WellTyped(columns[c].ctype, columns[c].clen, row[c])
    }

    ghost predicate AllBound()
      reads columns
    {
      forall c | 0 <= c < |columns| :: columns[c].bound
    }

    /** What every call finds and leaves: the layout, the driver in order, and no value half read. */
    ghost predicate Shape()
      reads this, stmt, columns
    {
      && Layout() && stmt.Valid() && (hasUnbound || AllBound())
      && stmt.Whole()
    }

    /** The buffers and indicators agree with `count` rows of the result from `start` on. */
    ghost predicate BuffersHold(start: nat, count: nat)
      requires Layout() && start + count <= |stmt.table|
      reads columns, Buffers(columns)
    {
      forall c | 0 <= c < |columns| :: columns[c].SlotsOk(ColumnCells(stmt.table, start, count, c), stmt.totals)
    }

    /** Every slot of the rowset agrees with the result's own rows. */
    ghost predicate Synced()
      requires Layout()
      reads this, stmt, columns, Buffers(columns)
    {
      stmt.place.At? ==> stmt.place.start + rowCount <= |stmt.table| && BuffersHold(stmt.place.start, rowCount)
    }

    /** As good for a reader: but reads may have noted nulls that are other rows'. */
    ghost predicate BuffersKept(start: nat, count: nat)
      requires Layout() && start + count <= |stmt.table|
      reads columns, Buffers(columns)
    {
      forall c | 0 <= c < |columns| :: columns[c].SlotsKept(ColumnCells(stmt.table, start, count, c), stmt.totals)
    }

    /** What every move and every read leaves of the buffers. */
    ghost predicate InStep()
      requires Layout()
      reads this, stmt, columns, Buffers(columns)
    {
      stmt.place.At? ==> stmt.place.start + rowCount <= |stmt.table| && BuffersKept(stmt.place.start, rowCount)
    }

    lemma SyncedInStep()
      requires Layout() && Synced()
      ensures InStep()
    {
      if stmt.place.At? {
        forall c | 0 <= c < |columns|
          ensures columns[c].SlotsKept(ColumnCells(stmt.table, stmt.place.start, rowCount, c), stmt.totals)
        {
          assert columns[c].SlotsOk(ColumnCells(stmt.table, stmt.place.start, rowCount, c), stmt.totals);
        }
      }
    }

    constructor (stmt: Handle, descriptions: seq<Description>)
      requires stmt.Valid() && stmt.place.BeforeStart? && stmt.progress == NOTHING_READ
      requires |descriptions| == |stmt.ctypes|
      requires forall c | 0 <= c < |descriptions| ::
        && descriptions[c].ctype == stmt.ctypes[c]
        && (!descriptions[c].blob ==> CanBuffer(descriptions[c].ctype, descriptions[c].clen)) && (descriptions[c].ctype == CFixed ==> descriptions[c].clen > 0)
        && forall row | row in stmt.table :: WellTyped(descriptions[c].ctype, descriptions[c].clen, row[c])
      ensures this.stmt == stmt && Shape() && Ok(View()) && Synced() && InStep()
      ensures View() == Fresh(|stmt.table|, stmt.size, hasUnbound, stmt.faults).(current := stmt.current, fetches := stmt.fetches)
      ensures hasUnbound <==> exists c :: 0 <= c < |descriptions| && descriptions[c].blob
      ensures forall c | 0 <= c < |columns| :: fresh(columns[c]) && fresh(columns[c].cbdata) && fresh(columns[c].pdata)
      ensures forall c | 0 <= c < |columns| :: columns[c].clen == descriptions[c].clen && columns[c].bound == !descriptions[c].blob
    {
      this.stmt := stmt;
      rowsetSize := stmt.size;
      rowCount, rowsetPosition, atEnd := 0, 0, false;
      var cols, unbound := AutoBindColumns(descriptions, stmt.size);
      columns := cols;
      hasUnbound := unbound;
    }

    /** Clears every indicator, so that nothing recorded on one rowset is seen on the next. */
    method BeforeMove()
      requires Shape()
      modifies Buffers(columns)
      ensures Shape() && View() == old(View())
      ensures forall c | 0 <= c < |columns| :: columns[c].Cleared()
    {
      for c := 0 to |columns|
        invariant forall d | 0 <= d < c :: columns[d].Cleared()
      {
        assert ColumnFits(c);
        columns[c].ClearIndicators(rowsetSize);
      }
    }

    /** What SQLFetchScroll writes to the memory bound to it. */
    method DriverFills(start: nat, count: nat)
      requires Layout() && start + count <= |stmt.table| && count <= rowsetSize
      requires forall c | 0 <= c < |columns| :: columns[c].Cleared()
      modifies Buffers(columns)
      ensures BuffersHold(start, count)
    {
      for c := 0 to |columns|
        invariant forall d | 0 <= d < c :: columns[d].SlotsOk(ColumnCells(stmt.table, start, count, d), stmt.totals)
        invariant forall d | c <= d < |columns| :: columns[d].Cleared()
      {
        FillColumn(c, start, count);
      }
    }

    method FillColumn(c: nat, start: nat, count: nat)
      requires Layout() && c < |columns| && start + count <= |stmt.table| && count <= rowsetSize && columns[c].Cleared()
      modifies columns[c].cbdata, columns[c].pdata
      ensures columns[c].SlotsOk(ColumnCells(stmt.table, start, count, c), stmt.totals)
    {
      assert ColumnFits(c);
      columns[c].Deliver(ColumnCells(stmt.table, start, count, c), stmt.totals, stmt.indicatesUnbound);
    }

    method FillRowset()
      requires Shape() && Ok(View()) && stmt.place.At?
      requires forall c | 0 <= c < |columns| :: columns[c].Cleared()
      modifies Buffers(columns)
      ensures Shape() && View() == old(View()) && Synced()
    {
      DriverFills(stmt.place.start, rowCount);
    }

    /** The call of SQLFetchScroll and what the return code decides. */
    method CallFetchScroll(o: Orientation) returns (r: Outcome<bool>)
      requires Shape() && Ok(View())
      modifies this`rowCount, this`atEnd, stmt
      ensures Shape() && (View(), r) == Fetch(old(View()), o) && stmt.progress == NOTHING_READ
      ensures stmt.fetches == old(stmt.fetches) + 1 && (r.Raised? <==> old(stmt.fetches) in stmt.faults)
      ensures r.Raised? ==>
        stmt.place == old(stmt.place) && stmt.current == old(stmt.current) && atEnd == old(atEnd) && rowCount == stmt.faults[old(stmt.fetches)]
      ensures !r.Raised? ==>
        && stmt.place == Scroll(old(stmt.place), |stmt.table|, rowsetSize, o) && r == Done(stmt.place.At?)
        && (atEnd <==> old(atEnd) || !stmt.place.At?)
        && rowCount == (if stmt.place.At? then Min(rowsetSize, |stmt.table| - stmt.place.start) else 0)
        && stmt.current == (if stmt.place.At? then 0 else old(stmt.current))
    {
      var rc, rows, raised := stmt.FetchScroll(o);
      rowCount := rows;
      if raised {
        return Raised;
      }
      if rc == NoData {
        atEnd := true;
        return Done(false);
      }
      r := Done(true);
    }

    method FetchRows(o: Orientation) returns (r: Outcome<bool>)
      requires Shape() && Ok(View()) && rowsetPosition == 0
      modifies this, stmt, Buffers(columns)
      ensures Shape() && (View(), r) == Fetch(old(View()), o) && stmt.progress == NOTHING_READ
      ensures !r.Raised? ==> Synced() && InStep()
      ensures stmt.fetches == old(stmt.fetches) + 1 && (r.Raised? <==> old(stmt.fetches) in stmt.faults)
      ensures r.Raised? ==> stmt.place == old(stmt.place) && rowsetPosition == 0
      ensures !r.Raised? ==>
        var place := Scroll(old(stmt.place), |stmt.table|, rowsetSize, o);
        stmt.place == place && Found(r, place.At?, if place.At? then place.start else 0)
    {
      BeforeMove();
      r := CallFetchScroll(o);
      if r == Done(true) {
        FillRowset();
        SyncedInStep();
      }
    }

    method SetCurrentPosition()
      requires Shape() && Ok(View())
      modifies stmt`current, stmt`progress
      ensures Shape() && View() == SetCurrent(old(View())) && Ok(View())
      ensures stmt.current == if rowsetPosition < Min(rowsetSize, rowCount) then rowsetPosition else old(stmt.current)
      ensures OnRow(View()) ==> stmt.progress == NOTHING_READ
    {
      if rowsetPosition < rowsetSize && rowsetPosition < rowCount {
        stmt.SetPos(rowsetPosition);
      }
    }

    method MoveToFirst() returns (r: Outcome<bool>)
      requires Shape() && Ok(View())
      modifies this, stmt, Buffers(columns)
      ensures Shape() && (View(), r) == Fetch(old(View()).(position := 0), First)
      ensures !r.Raised? ==> Ok(View()) && Synced() && InStep()
      ensures stmt.fetches == old(stmt.fetches) + 1 && (r.Raised? <==> old(stmt.fetches) in stmt.faults)
      ensures r.Raised? ==> stmt.place == old(stmt.place) && rowsetPosition == 0
      ensures !r.Raised? ==> Found(r, |stmt.table| > 0, 0)
    {
      rowsetPosition := 0;
      r := FetchRows(First);
    }

    method MoveToLast() returns (r: Outcome<bool>)
      requires Shape() && Ok(View())
      modifies this, stmt, Buffers(columns)
      ensures Shape() && (View(), r) == Fetch(old(View()).(position := 0), Last)
      ensures !r.Raised? ==> Ok(View()) && Synced() && InStep()
      ensures stmt.fetches == old(stmt.fetches) + 1 && (r.Raised? <==> old(stmt.fetches) in stmt.faults)
      ensures r.Raised? ==> stmt.place == old(stmt.place) && rowsetPosition == 0
      ensures !r.Raised? ==> Found(r, |stmt.table| > 0, Max(|stmt.table| - rowsetSize, 0))
    {
      rowsetPosition := 0;
      r := FetchRows(Last);
    }

    /** The advance that stays inside the rowset: the buffers are not touched, and the driver may be told. */
    method NextInRowset() returns (onRow: bool)
      requires Shape() && Ok(View()) && rowCount != 0 && rowsetPosition + 1 < rowsetSize
      modifies this`rowsetPosition, stmt`current, stmt`progress
      ensures Shape() && Ok(View()) && (View(), Done(onRow)) == NextStep(old(View()))
      ensures (old(Synced()) ==> Synced()) && (old(InStep()) ==> InStep())
      ensures onRow ==> stmt.progress == if hasUnbound then NOTHING_READ else old(stmt.progress)
    {
      rowsetPosition := rowsetPosition + 1;
      if hasUnbound {
        SetCurrentPosition();
      }
      return rowsetPosition < rowCount;
    }

    /** The advance that leaves the rowset, or that has none to stay in. */
    method NextAcross() returns (r: Outcome<bool>)
      requires Shape() && Ok(View()) && rowsetPosition == 0
      modifies this, stmt, Buffers(columns)
      ensures Shape() && (View(), r) == Fetch(old(View()), Next) && stmt.progress == NOTHING_READ
      ensures !r.Raised? ==> Synced() && InStep()
      ensures stmt.fetches == old(stmt.fetches) + 1 && (r.Raised? <==> old(stmt.fetches) in stmt.faults)
      ensures r.Raised? ==> stmt.place == old(stmt.place) && rowsetPosition == 0
      ensures !r.Raised? ==>
        && (old(stmt.place).BeforeStart? ==> Found(r, |stmt.table| > 0, 0))
        && (old(stmt.place).At? ==> Found(r, old(stmt.place).start + rowsetSize < |stmt.table|, old(stmt.place).start + rowsetSize))
        && (old(stmt.place).AfterEnd? ==> r == Done(false))
        && (r == Done(false) ==> stmt.place.AfterEnd?)
    {
      r := FetchRows(Next);
    }

    method MoveToNext() returns (r: Outcome<bool>)
      requires Shape() && Ok(View())
      modifies this, stmt, Buffers(columns)
      ensures Shape() && (View(), r) == NextStep(old(View()))
      ensures !r.Raised? ==> Ok(View()) && (old(Synced()) ==> Synced()) && (old(InStep()) ==> InStep())
      ensures !r.Raised? && stmt.fetches > old(stmt.fetches) ==> Synced() && InStep()
      ensures stmt.fetches == old(stmt.fetches) ==> unchanged(Buffers(columns))
      ensures r == Done(true) ==>
        stmt.progress == if hasUnbound || stmt.fetches > old(stmt.fetches) then NOTHING_READ else old(stmt.progress)
      ensures stmt.fetches == old(stmt.fetches) + old(if rowCount > 0 && rowsetPosition + 1 < rowsetSize then 0 else 1)
      ensures r.Raised? <==> stmt.fetches > old(stmt.fetches) && old(stmt.fetches) in stmt.faults
      ensures r.Raised? ==> stmt.place == old(stmt.place) && rowsetPosition == 0
      ensures stmt.fetches == old(stmt.fetches) ==>
        && stmt.place == old(stmt.place) && rowCount == old(rowCount)
        && rowsetPosition == old(rowsetPosition) + 1 && r == Done(rowsetPosition < rowCount)
        && stmt.current == (if hasUnbound && rowsetPosition < rowCount then rowsetPosition else old(stmt.current))
      ensures stmt.fetches > old(stmt.fetches) && !r.Raised? ==>
        && (old(stmt.place).BeforeStart? ==> Found(r, |stmt.table| > 0, 0))
        && (old(stmt.place).At? ==> Found(r, old(stmt.place).start + rowsetSize < |stmt.table|, old(stmt.place).start + rowsetSize))
        && (old(stmt.place).AfterEnd? ==> r == Done(false))
        && (r == Done(false) ==> stmt.place.AfterEnd?)
    {
      if rowCount != 0 && rowsetPosition + 1 < rowsetSize {
        var onRow := NextInRowset();
        return Done(onRow);
      }
      rowsetPosition := 0;
      r := NextAcross();
    }

    /** The step back inside the rowset: the driver is told. */
    method PriorInRowset()
      requires Shape() && Ok(View()) && rowCount != 0 && rowsetPosition - 1 >= 0
      modifies this`rowsetPosition, stmt`current, stmt`progress
      ensures Shape() && Ok(View()) && (View(), Done(true)) == PriorStep(old(View()))
      ensures (old(Synced()) ==> Synced()) && (old(InStep()) ==> InStep())
    {
      rowsetPosition := rowsetPosition - 1;
      SetCurrentPosition();
    }

    method MoveToPrior() returns (r: Outcome<bool>)
      requires Shape() && Ok(View())
      modifies this, stmt, Buffers(columns)
      ensures Shape() && (View(), r) == PriorStep(old(View()))
      ensures !r.Raised? ==> Ok(View()) && (old(Synced()) ==> Synced()) && (old(InStep()) ==> InStep())
      ensures stmt.fetches == old(stmt.fetches) + old(if rowCount > 0 && rowsetPosition > 0 then 0 else 1)
      ensures r.Raised? <==> stmt.fetches > old(stmt.fetches) && old(stmt.fetches) in stmt.faults
      ensures r.Raised? ==> stmt.place == old(stmt.place) && rowsetPosition == 0
      ensures stmt.fetches == old(stmt.fetches) ==>
        && stmt.place == old(stmt.place) && rowCount == old(rowCount)
        && rowsetPosition == old(rowsetPosition) - 1 && r == Done(true)
        && stmt.current == (if rowsetPosition < rowCount then rowsetPosition else old(stmt.current))
      ensures stmt.fetches > old(stmt.fetches) && !r.Raised? ==>
        && (old(stmt.place).BeforeStart? ==> r == Done(false))
        && (r == Done(false) ==> stmt.place.BeforeStart?)
        && (old(stmt.place).At? ==> Found(r, old(stmt.place).start > 0, Max(old(stmt.place).start - rowsetSize, 0)))
        && (old(stmt.place).AfterEnd? ==> Found(r, |stmt.table| > 0, Max(|stmt.table| - rowsetSize, 0)))
    {
      if rowCount != 0 && rowsetPosition - 1 >= 0 {
        PriorInRowset();
        return Done(true);
      }
      rowsetPosition := 0;
      r := FetchRows(Prior);
    }

    method MoveToRow(row: int) returns (r: Outcome<bool>)
      requires Shape() && Ok(View())
      modifies this, stmt, Buffers(columns)
      ensures Shape() && (View(), r) == Fetch(old(View()).(position := 0), Absolute(row))
      ensures !r.Raised? ==> Ok(View()) && Synced() && InStep()
      ensures stmt.fetches == old(stmt.fetches) + 1 && (r.Raised? <==> old(stmt.fetches) in stmt.faults)
      ensures r.Raised? ==> stmt.place == old(stmt.place) && rowsetPosition == 0
      ensures !r.Raised? && row > 0 ==> Found(r, row <= |stmt.table|, row - 1)
      ensures !r.Raised? && row == 0 ==> r == Done(false)
      ensures !r.Raised? && row < 0 ==>
        Found(r, |stmt.table| > 0 && (-row <= |stmt.table| || -row <= rowsetSize), Max(|stmt.table| + row, 0))
    {
      rowsetPosition := 0;
      r := FetchRows(Absolute(row));
    }

    /** The skip that stays below the end of the rowset: only the position changes, and nobody is told. */
    method SkipInRowset(count: int) returns (onRow: bool)
      requires Shape() && Ok(View()) && rowCount != 0 && rowsetPosition + count < rowsetSize
      modifies this`rowsetPosition
      ensures Shape() && (View(), Done(onRow)) == SkipStep(old(View()), count)
      ensures rowsetPosition == old(rowsetPosition) + count && (onRow <==> rowsetPosition < rowCount)
      ensures rowsetPosition >= 0 ==> Ok(View())
      ensures (old(Synced()) ==> Synced()) && (old(InStep()) ==> InStep())
    {
      rowsetPosition := rowsetPosition + count;
      return rowsetPosition < rowCount;
    }

    /** The skip that leaves the rowset counts from its first row, or from outside the rows. */
    method SkipAcross(count: int) returns (r: Outcome<bool>)
      requires Shape() && Ok(View()) && rowsetPosition == 0
      modifies this, stmt, Buffers(columns)
      ensures Shape() && (View(), r) == Fetch(old(View()), Relative(count))
      ensures !r.Raised? ==> Synced() && InStep()
      ensures stmt.fetches == old(stmt.fetches) + 1 && (r.Raised? <==> old(stmt.fetches) in stmt.faults)
      ensures r.Raised? ==> stmt.place == old(stmt.place) && rowsetPosition == 0
      ensures !r.Raised? ==>
        && (old(stmt.place).BeforeStart? ==> Found(r, 0 < count <= |stmt.table|, count - 1))
        && (old(stmt.place).At? && old(stmt.place).start + count >= 0 ==>
              Found(r, old(stmt.place).start + count < |stmt.table|, old(stmt.place).start + count))
        && (old(stmt.place).AfterEnd? ==>
              Found(r, count < 0 < |stmt.table| && (-count <= |stmt.table| || -count <= rowsetSize), Max(|stmt.table| + count, 0)))
    {
      r := FetchRows(Relative(count));
    }

    /** A count below zero that reaches back before the rowset leaves the position negative. */
    method SkipRows(count: int) returns (r: Outcome<bool>)
      requires Shape() && Ok(View())
      modifies this, stmt, Buffers(columns)
      ensures Shape() && (View(), r) == SkipStep(old(View()), count)
      ensures !r.Raised? && !(old(rowCount) > 0 && old(rowsetPosition) + count < 0) ==> Ok(View())
      ensures !r.Raised? ==> (old(Synced()) ==> Synced()) && (old(InStep()) ==> InStep())
      ensures stmt.fetches == old(stmt.fetches) + old(if rowCount > 0 && rowsetPosition + count < rowsetSize then 0 else 1)
      ensures r.Raised? <==> stmt.fetches > old(stmt.fetches) && old(stmt.fetches) in stmt.faults
      ensures r.Raised? ==> stmt.place == old(stmt.place) && rowsetPosition == 0
      ensures stmt.fetches == old(stmt.fetches) ==>
        && stmt.place == old(stmt.place) && rowCount == old(rowCount) && stmt.current == old(stmt.current)
        && rowsetPosition == old(rowsetPosition) + count && r == Done(rowsetPosition < rowCount)
      ensures stmt.fetches > old(stmt.fetches) && !r.Raised? ==>
        && (old(stmt.place).BeforeStart? ==> Found(r, 0 < count <= |stmt.table|, count - 1))
        && (old(stmt.place).At? ==> Found(r, old(stmt.place).start + count < |stmt.table|, old(stmt.place).start + count))
        && (old(stmt.place).AfterEnd? ==>
              Found(r, count < 0 < |stmt.table| && (-count <= |stmt.table| || -count <= rowsetSize), Max(|stmt.table| + count, 0)))
    {
      if rowCount != 0 && rowsetPosition + count < rowsetSize {
        var onRow := SkipInRowset(count);
        return Done(onRow);
      }
      rowsetPosition := 0;
      r := SkipAcross(count);
    }

    /** Gives up a column's buffer. From here on the driver is told of every move. */
    method Unbind(column: int) returns (r: Outcome<()>)
      requires Shape()
      modifies this`hasUnbound
      modifies if 0 <= column < |columns| then {columns[column]} else {}
      ensures r.Done? <==> 0 <= column < |columns|
      ensures r.Done? ==> !columns[column].bound && forall c | 0 <= c < |columns| && c != column :: columns[c].bound == old(columns[c].bound)
      ensures Shape() && View() == if r.Done? then old(View()).(unbound := true) else old(View())
      ensures (old(Synced()) ==> Synced()) && (old(InStep()) ==> InStep())
    {
      if column < 0 || column >= |columns| {
        return Raised;
      }
      assert ColumnFits(column);
      hasUnbound := true;
      columns[column].Unbind();
      return Done(());
    }
  }

  method AutoBindColumns(descriptions: seq<Description>, rowsetSize: nat) returns (columns: seq<BoundColumn>, unbound: bool)
    ensures |columns| == |descriptions| && Distinct(columns)
    ensures forall c | 0 <= c < |columns| :: fresh(columns[c]) && fresh(columns[c].cbdata) && fresh(columns[c].pdata)
    ensures unbound <==> exists c :: 0 <= c < |descriptions| && descriptions[c].blob
    ensures forall c | 0 <= c < |columns| ::
      && columns[c].ctype == descriptions[c].ctype && columns[c].clen == descriptions[c].clen
      && columns[c].bound == !descriptions[c].blob && columns[c].cbdata.Length == rowsetSize
      && (columns[c].bound ==> columns[c].pdata.Length == rowsetSize * columns[c].clen)
  {
    columns, unbound := [], false;
    for i := 0 to |descriptions|
      invariant |columns| == i && Distinct(columns)
      invariant forall c | 0 <= c < i :: fresh(columns[c]) && fresh(columns[c].cbdata) && fresh(columns[c].pdata)
      invariant unbound <==> exists c :: 0 <= c < i && descriptions[c].blob
      invariant forall c | 0 <= c < i ::
        && columns[c].ctype == descriptions[c].ctype && columns[c].clen == descriptions[c].clen
        && columns[c].bound == !descriptions[c].blob && columns[c].cbdata.Length == rowsetSize
        && (columns[c].bound ==> columns[c].pdata.Length == rowsetSize * columns[c].clen)
    {
      var d := descriptions[i];
      var column := new BoundColumn(d.ctype, d.clen, d.blob, rowsetSize);
      columns := columns + [column];
      unbound := unbound || d.blob;
    }
  }
}
