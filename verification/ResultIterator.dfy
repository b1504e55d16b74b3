/** The input iterator over a result, and the loop it is for. */
module ResultIterators {
  import opened Base
  import opened RowsetCursor
  import opened Odbc
  import opened Columns
  import opened Unicode
  import opened PrefixCodes
  import opened Pieces
  import opened Readers
  import opened Results
  import opened CurrentRow

  class ResultIterator {
    var result: ResultImpl?

    /** The default iterator, which is the end. */
    constructor End()
      ensures result == null
    {
      result := null;
    }

    constructor (r: ResultImpl)
      requires r.Shape() && Ok(r.View())
      modifies r, r.stmt, Buffers(r.columns)
      ensures Advanced(r, NextStep(old(r.View())))
      ensures result != null ==> (old(r.Synced()) ==> r.Synced()) && (old(r.InStep()) ==> r.InStep())
      ensures result != null && r.stmt.fetches > old(r.stmt.fetches) ==> r.Synced() && r.InStep() && r.stmt.progress == NOTHING_READ
    {
      result := r;
      new;
      assert (old(r.Synced()) ==> r.Synced()) && (old(r.InStep()) ==> r.InStep());
      Increment();
    }

    /** The outcome of an advance: on the row `next` landed on, or at the end if it failed or raised. */
    ghost predicate Advanced(r: ResultImpl, step: (Cursor, Outcome<bool>))
      reads this, r, r.stmt, r.columns
    {
      && result == (if step.1 == Done(true) then r else null)
      && (result != null ==> r.Shape() && r.View() == step.0 && Ok(r.View()) && OnRow(r.View()))
    }

    /** Prefix increment. Advancing the end iterator is undefined. */
    method Increment()
      requires result != null && result.Shape() && Ok(result.View())
      modifies this, result, result.stmt, Buffers(result.columns)
      ensures Advanced(old(result), NextStep(old(result.View())))
      ensures result != null ==> (old(result.Synced()) ==> result.Synced()) && (old(result.InStep()) ==> result.InStep())
      ensures result != null && result.stmt.fetches > old(result.stmt.fetches) ==> result.Synced() && result.InStep()
      ensures result != null && result.stmt.fetches == old(result.stmt.fetches) ==> unchanged(Buffers(result.columns))
      ensures result != null ==>
        result.stmt.progress ==
          if result.hasUnbound || result.stmt.fetches > old(result.stmt.fetches) then NOTHING_READ else old(result.stmt.progress)
    {
      if !NextStep(result.View()).1.Raised? {
        StepOk(result.View(), MoveNext);
      }
      var moved := result.MoveToNext();
      match moved
      case Done(onRow) =>
        if !onRow {
          result := null;
        }
      case Raised =>
        result := null;
    }

    /** Equal when tied to one statement handle, or both at the end. */
    predicate Equals(rhs: ResultIterator): (same: bool)
      reads this, rhs
      ensures result == null || rhs.result == null ==> (same <==> result == rhs.result)
      ensures result != null && rhs.result == result ==> same
      ensures same && result != null ==> rhs.result != null && rhs.result.stmt == result.stmt
    {
      if result != null && rhs.result != null then result.stmt == rhs.result.stmt
      else result == null && rhs.result == null
    }
  }

  /** The rows that come before the first fetch that raises, or all of them: fetch j brings the rows from `start` on. */
  function RowsReached(n: nat, size: nat, faults: map<nat, nat>, j: nat, start: nat): (k: nat)
    requires size > 0 && start <= n
    ensures start <= k <= n
    ensures (forall i | j <= i :: i !in faults) ==> k == n
    decreases n - start
  {
    if j in faults then start
    else if start + size >= n then n
    else RowsReached(n, size, faults, j + 1, start + size)
  }

  /** No fetch before the f-th raises, and the f-th does. */
  ghost predicate FirstFault(faults: map<nat, nat>, f: nat) {
    f in faults && forall i: nat | i < f :: i !in faults
  }

  /** The rows reached are the f rowsets before the first fetch that raises, or all rows if there are fewer. */
  lemma {:induction false} ReachedIs(n: nat, size: nat, faults: map<nat, nat>, f: nat, j: nat, start: nat)
    requires size > 0 && start <= n && FirstFault(faults, f) && j <= f && start == j * size
    ensures RowsReached(n, size, faults, j, start) == Min(n, f * size)
    decreases f - j
  {
    if j < f {
      SlotFits(j, f, size);
      if start + size < n {
        ReachedIs(n, size, faults, f, j + 1, start + size);
      }
    }
  }

  lemma AllReached(n: nat, size: nat, faults: map<nat, nat>)
    requires size > 0
    ensures forall f: nat | FirstFault(faults, f) :: RowsReached(n, size, faults, 0, 0) == Min(n, f * size)
  {
    forall f: nat | FirstFault(faults, f)
      ensures RowsReached(n, size, faults, 0, 0) == Min(n, f * size)
    {
      ReachedIs(n, size, faults, f, 0, 0);
    }
  }

  /** On a row of a rowset that did not raise, with `all` rows to be reached in the end. */
  ghost predicate Reaching(c: Cursor, all: nat) {
    && Ok(c) && OnRow(c) && c.fetches >= 1 && c.fetches - 1 !in c.faults
    && all == RowsReached(c.n, c.size, c.faults, c.fetches - 1, c.place.start)
  }

  /** The first `next` of a fresh result. */
  lemma ReachFirst(n: nat, size: nat, unbound: bool, faults: map<nat, nat>)
    requires size > 0
    ensures var all, (d, r) := RowsReached(n, size, faults, 0, 0), NextStep(Fresh(n, size, unbound, faults));
      if r == Done(true) then Reaching(d, all) && RowOf(d) == 0 else all == 0
  {
  }

  /** Every further one. */
  lemma ReachOn(c: Cursor, all: nat)
    requires Reaching(c, all)
    ensures var (d, r) := NextStep(c);
      if r == Done(true) then Reaching(d, all) && RowOf(d) == RowOf(c) + 1 else all == RowOf(c) + 1
  {
    if c.position + 1 < c.size {
      NextInside(c);
    } else if c.place.start + c.size < c.n {
      assert all == RowsReached(c.n, c.size, c.faults, c.fetches, c.place.start + c.size);
    }
  }

  /** On row `row` with the buffers in step and `all` rows to be reached. */
  ghost predicate Ready(r: ResultImpl, all: nat, row: int)
    reads r, r.stmt, r.columns, Buffers(r.columns)
  {
    r.Shape() && r.Synced() && r.InStep() && Reaching(r.View(), all) && RowOf(r.View()) == row < all
  }

  /** `begin`. */
  method Begin(r: ResultImpl) returns (it: ResultIterator)
    requires r.Shape() && r.View() == Fresh(|r.stmt.table|, r.rowsetSize, r.hasUnbound, r.stmt.faults)
    modifies r, r.stmt, Buffers(r.columns)
    ensures fresh(it) && (it.result == null || it.result == r)
    ensures var all := RowsReached(|r.stmt.table|, r.rowsetSize, r.stmt.faults, 0, 0);
      if it.result == null then all == 0
      else Ready(r, all, 0) && r.hasUnbound == old(r.hasUnbound) && r.stmt.progress == NOTHING_READ && r.stmt.current == 0
  {
    ReachFirst(|r.stmt.table|, r.rowsetSize, r.hasUnbound, r.stmt.faults);
    it := new ResultIterator(r);
  }

  /** Rows 0, 1, 2, ... without a gap. */
  predicate InOrder(visited: seq<int>) {
    forall i | 0 <= i < |visited| :: visited[i] == i
  }

  lemma OneMoreInOrder(visited: seq<int>, row: int)
    requires InOrder(visited) && row == |visited|
    ensures InOrder(visited + [row])
  {
  }

  /**
   `for (auto& row : result)` on a fresh result: the rows visited are 0, 1, 2, ... without a
   gap, all n of them unless a fetch raises, and then exactly those the fetches before it
   brought; either way the iterator ends equal to `end`.
   */
  method RangeFor(r: ResultImpl) returns (visited: seq<int>, it: ResultIterator)
    requires r.Shape() && r.View() == Fresh(|r.stmt.table|, r.rowsetSize, r.hasUnbound, r.stmt.faults)
    modifies r, r.stmt, Buffers(r.columns)
    ensures it.result == null
    ensures |visited| == RowsReached(|r.stmt.table|, r.rowsetSize, r.stmt.faults, 0, 0)
    ensures InOrder(visited)
    ensures r.stmt.faults == map[] ==> |visited| == |r.stmt.table|
    ensures forall f: nat | FirstFault(r.stmt.faults, f) :: |visited| == Min(|r.stmt.table|, f * r.rowsetSize)
  {
    AllReached(|r.stmt.table|, r.rowsetSize, r.stmt.faults);
    ghost var all := RowsReached(|r.stmt.table|, r.rowsetSize, r.stmt.faults, 0, 0);
    visited := [];
    var end := new ResultIterator.End();
    it := Begin(r);
    while !it.Equals(end)
      invariant fresh(it) && fresh(end) && end.result == null && it != end && (it.result == null || it.result == r)
      invariant InOrder(visited)
      invariant if it.result == null then |visited| == all else Ready(r, all, |visited|)
      decreases if it.result == r then all - |visited| + 1 else 0
    {
      var row := r.stmt.place.start + r.rowsetPosition;
      OneMoreInOrder(visited, row);
      visited := visited + [row];
      ReachOn(r.View(), all);
      it.Increment();
    }
  }

  // ---------------------------------------------------------------- what the gets of a loop return

  /** A loop that gets one text column: `told` says that the driver is told of every move. */
  datatype Loop = Loop(stmt: Handle, col: BoundColumn, bound: bool, told: bool, column: nat, fallback: seq<Byte>)

  ghost predicate Fine(l: Loop) {
    && l.stmt.Rectangular() && l.column < |l.stmt.ctypes| && l.stmt.size > 0 && l.col.ctype != CFixed
    && (l.bound ==> l.col.HasBuffer()) && (!l.told ==> l.bound)
    && forall k | 0 <= k < |l.stmt.table| :: WellTyped(l.col.ctype, l.col.clen, CellOf(l, k))
  }

  ghost function CellOf(l: Loop, k: nat): Cell
    requires l.stmt.Rectangular() && l.column < |l.stmt.ctypes| && k < |l.stmt.table|
  {
    assert l.stmt.table[k] in l.stmt.table;
    l.stmt.table[k][l.column]
  }

  /** A text that was cut and is read again. */
  ghost predicate ReadAgain(l: Loop, k: nat)
    requires Fine(l) && k < |l.stmt.table|
  {
    l.bound && CellOf(l, k).Value? && Again(l.stmt, l.col, CellOf(l, k).bytes)
  }

  /** A text between two rows is read again. */
  ghost predicate AnyAgain(l: Loop, from: nat, to: nat)
    requires Fine(l) && to <= |l.stmt.table|
  {
    exists k | from <= k < to :: ReadAgain(l, k)
  }

  /** The first row of a row's rowset. */
  function StartOf(k: nat, size: nat): (start: nat)
    requires size > 0
    ensures start <= k
  {
    k - k % size
  }

  /**
   What the get on row k finds. Where the driver is not told, it stands on the first row of the
   rowset: the first text that is read again brings that row's cell, and every further one nothing.
   */
  ghost function SupplyAt(l: Loop, k: nat): Supply
    requires Fine(l) && k < |l.stmt.table|
  {
    if l.told || !ReadAgain(l, k) then OwnSupply(l.stmt, l.col, l.bound, CellOf(l, k))
    else if AnyAgain(l, StartOf(k, l.stmt.size), k) then Drained
    else Handed(CellOf(l, StartOf(k, l.stmt.size)))
  }

  ghost function TextFrom(l: Loop, supply: Supply): Outcome<seq<Byte>> {
    Returned(Given(l.col, Text, supply), NarrowOf, Some(l.fallback))
  }

  /** What the get on row k returns. */
  ghost function TextAt(l: Loop, k: nat): Outcome<seq<Byte>>
    requires Fine(l) && k < |l.stmt.table|
  {
    TextFrom(l, SupplyAt(l, k))
  }

  /** What row k itself holds: the fallback for a null, and otherwise the converted text as the buffer shows it, or whole. */
  ghost function OwnText(l: Loop, k: nat): Outcome<seq<Byte>>
    requires Fine(l) && k < |l.stmt.table|
  {
    TextFrom(l, OwnSupply(l.stmt, l.col, l.bound, CellOf(l, k)))
  }

  /**
   The get on row k returns what row k holds exactly when the driver is told of moves, the text
   is not read again, or the row is the first of its rowset; or when the first row, being the
   one brought, happens to have the same text.
   */
  lemma OwnTextIff(l: Loop, k: nat)
    requires Fine(l) && k < |l.stmt.table|
    ensures var start := StartOf(k, l.stmt.size);
      TextAt(l, k) == OwnText(l, k)
      <==> || l.told || !ReadAgain(l, k) || k % l.stmt.size == 0
           || (!AnyAgain(l, start, k) && TextFrom(l, Handed(CellOf(l, start))) == OwnText(l, k))
  {
    if !l.told && ReadAgain(l, k) {
      var v := CellOf(l, k).bytes;
      assert OwnText(l, k) == NarrowOf(RawOf(l.col.ctype, Text, v).value);
      EmptyTextIff(RawOf(l.col.ctype, Text, v).value);
      EmptyTextIff(RawOf(l.col.ctype, Text, []).value);
    }
  }

  /** So the loop collects the column where the driver is told of moves, or every text that is read again heads its rowset. */
  lemma CollectsColumn(l: Loop)
    requires Fine(l)
    requires l.told || forall k | 0 <= k < |l.stmt.table| && ReadAgain(l, k) :: k % l.stmt.size == 0
    ensures forall k | 0 <= k < |l.stmt.table| :: TextAt(l, k) == OwnText(l, k)
  {
    forall k | 0 <= k < |l.stmt.table|
      ensures TextAt(l, k) == OwnText(l, k)
    {
      OwnTextIff(l, k);
    }
  }

  /** What a row holds, in terms of the table and the memory. */
  lemma OwnTextIs(l: Loop, k: nat)
    requires Fine(l) && k < |l.stmt.table|
    ensures NarrowTextOf(l.stmt, l.col, l.bound, l.stmt.table[k][l.column], Some(l.fallback), OwnText(l, k))
  {
    OwnTextReturned(l.stmt, l.col, l.bound, CellOf(l, k), Some(l.fallback), None);
  }

  // ---------------------------------------------------------------- the loop

  lemma NextMultiple(a: nat, b: nat)
    requires b > 0
    ensures (a + b) % b == a % b
  {
    var q := a / b;
    ProductNat(q + 1, b);
    assert a + b == (q + 1) * b + a % b;
    QuotientIs(a + b, b, q + 1);
  }

  /** Behind a multiple of the size, the position is the remainder. */
  lemma PositionIs(start: nat, size: nat, position: nat)
    requires position < size && start % size == 0
    ensures StartOf(start + position, size) == start
  {
    var q := start / size;
    assert start == q * size;
    QuotientIs(start + position, size, q);
  }

  /** The following row of the same rowset, or the first of one that starts at the next multiple of the size. */
  predicate Follows(d: Cursor, c: Cursor) {
    && d.place.At? && d.size == c.size && d.unbound == c.unbound && d.size > 0 && d.place.start % d.size == 0
    && (d.fetches == c.fetches ==>
          && d.place == c.place && d.rows == c.rows && d.position == c.position + 1
          && d.current == if c.unbound then d.position else c.current)
    && (d.fetches != c.fetches ==> d.fetches > c.fetches && d.position == 0 && d.current == 0)
  }

  lemma NextFollows(c: Cursor, all: nat)
    requires Reaching(c, all) && c.place.start % c.size == 0
    ensures NextStep(c).1 == Done(true) ==> Follows(NextStep(c).0, c)
  {
    if c.position + 1 < c.size {
      NextInside(c);
    } else if c.fetches !in c.faults {
      NextAcross(c);
      NextMultiple(c.place.start, c.size);
    }
  }

  /** The loop a result and a column make. */
  ghost predicate IsLoop(r: ResultImpl, l: Loop)
    reads r, r.columns
  {
    && r.Layout() && l.column < |r.columns| && Fine(l)
    && l.stmt == r.stmt && l.col == r.columns[l.column] && l.bound == r.columns[l.column].bound && l.told == r.hasUnbound
  }

  /** From a row of the rowset on, the column's indicators are the driver's for these rows. */
  ghost predicate Marks(r: ResultImpl, column: nat, from: int)
    requires At(r, column) && 0 <= from
    reads r, r.stmt, r.columns, Buffers(r.columns)
  {
    forall i | from <= i < r.rowCount :: r.columns[column].IndicatorOk(i, CellsOf(r, column)[i], r.stmt.totals)
  }

  /** On row `row` of the loop, with the buffers in step. */
  ghost predicate InLoop(r: ResultImpl, l: Loop, all: nat, row: nat)
    reads r, r.stmt, r.columns, Buffers(r.columns)
  {
    && IsLoop(r, l) && At(r, l.column) && r.InStep() && Reaching(r.View(), all) && RowOf(r.View()) == row < all <= |r.stmt.table|
    && r.stmt.place.start % r.rowsetSize == 0
  }

  /** On row `row` of the loop, with the gets of all rows before `done` behind it. */
  ghost predicate OnLoop(r: ResultImpl, l: Loop, all: nat, row: nat, done: nat)
    requires row <= done <= row + 1
    reads r, r.stmt, r.columns, Buffers(r.columns)
  {
    && InLoop(r, l, all, row)
    && Marks(r, l.column, r.rowsetPosition + (done - row))
    && (if l.told then done == row ==> r.stmt.current == r.rowsetPosition && !r.stmt.Spent(l.column)
        else r.stmt.current == 0 && (r.stmt.Spent(l.column) <==> AnyAgain(l, r.stmt.place.start, done)))
  }

  /** What the get finds is what the loop says. */
  lemma FindsAt(r: ResultImpl, l: Loop, all: nat, row: nat)
    requires OnLoop(r, l, all, row, row)
    ensures Given(l.col, Text, SupplyHere(r, l.column)) == Given(l.col, Text, SupplyAt(l, row))
    ensures !l.told ==> (SupplyHere(r, l.column).Handed? <==> ReadAgain(l, row) && !r.stmt.Spent(l.column))
  {
    ColumnUsable(r, l.column);
    ReadableKept(r, l.column);
    PositionIs(r.stmt.place.start, r.rowsetSize, r.rowsetPosition);
    assert CellHere(r, l.column) == CellOf(l, row);
    assert r.columns[l.column].IndicatorOk(r.rowsetPosition, CellsOf(r, l.column)[r.rowsetPosition], r.stmt.totals);
  }

  lemma AnyAgainOn(l: Loop, from: nat, to: nat)
    requires Fine(l) && from <= to < |l.stmt.table|
    ensures AnyAgain(l, from, to + 1) <==> AnyAgain(l, from, to) || ReadAgain(l, to)
  {
  }

  /** The get of one turn. */
  method ReadText(r: ResultImpl, column: nat, fallback: seq<Byte>, ghost l: Loop, ghost all: nat, ghost row: nat)
      returns (text: Outcome<seq<Byte>>)
    requires OnLoop(r, l, all, row, row) && column == l.column && fallback == l.fallback
    modifies r.stmt`progress, r.columns[column].cbdata
    ensures text == TextAt(l, row)
    ensures OnLoop(r, l, all, row, row + 1)
  {
    FindsAt(r, l, all, row);
    AnyAgainOn(l, r.stmt.place.start, row);
    text := GetRefText(r, column, Some(fallback));
  }

  /** After a fetch every slot's indicator is the driver's. */
  lemma FreshMarks(r: ResultImpl, column: nat)
    requires At(r, column) && r.Synced()
    ensures Marks(r, column, r.rowsetPosition)
  {
    assert r.columns[column].SlotsOk(CellsOf(r, column), r.stmt.totals);
    forall i | r.rowsetPosition <= i < r.rowCount
      ensures r.columns[column].IndicatorOk(i, CellsOf(r, column)[i], r.stmt.totals)
    {
      assert r.columns[column].IndicatorOk(i, CellsOf(r, column)[i], r.stmt.totals);
    }
  }

  /** One `next` of the loop: the following row of the same buffers, or the first of freshly filled ones. */
  method Step(it: ResultIterator, r: ResultImpl, ghost l: Loop, ghost all: nat, ghost row: nat)
    requires it.result == r && InLoop(r, l, all, row)
    modifies it, r, r.stmt, Buffers(r.columns)
    ensures it.result == null || it.result == r
    ensures it.result == null ==> all == row + 1
    ensures it.result == r ==> InLoop(r, l, all, row + 1) && Follows(r.View(), old(r.View()))
    ensures it.result == r && r.stmt.fetches == old(r.stmt.fetches) ==>
      unchanged(Buffers(r.columns)) && r.stmt.progress == if l.told then NOTHING_READ else old(r.stmt.progress)
    ensures it.result == r && r.stmt.fetches > old(r.stmt.fetches) ==> r.Synced() && r.stmt.progress == NOTHING_READ
    ensures r.columns[l.column].bound == old(r.columns[l.column].bound)
  {
    ReachOn(r.View(), all);
    NextFollows(r.View(), all);
    it.Increment();
  }

  /** The advance of one turn. */
  method Advance(it: ResultIterator, r: ResultImpl, ghost l: Loop, ghost all: nat, ghost row: nat)
    requires it.result == r && OnLoop(r, l, all, row, row + 1)
    modifies it, r, r.stmt, Buffers(r.columns)
    ensures it.result == null || it.result == r
    ensures it.result == null ==> all == row + 1
    ensures it.result == r ==> OnLoop(r, l, all, row + 1, row + 1)
    ensures r.columns[l.column].bound == old(r.columns[l.column].bound)
  {
    Step(it, r, l, all, row);
    if it.result == r {
      if r.stmt.fetches != old(r.stmt.fetches) {
        FreshMarks(r, l.column);
      } else {
        ghost var cells := old(CellsOf(r, l.column));
        assert CellsOf(r, l.column) == cells;
        forall i | r.rowsetPosition <= i < r.rowCount
          ensures r.columns[l.column].IndicatorOk(i, cells[i], r.stmt.totals)
        {
          assert old(r.columns[l.column].IndicatorOk(i, cells[i], r.stmt.totals));
        }
      }
    }
  }

  /** One turn of the loop: the get, and the advance unless it raises. */
  method Turn(it: ResultIterator, r: ResultImpl, column: nat, fallback: seq<Byte>, ghost l: Loop, ghost all: nat, ghost row: nat)
      returns (text: Outcome<seq<Byte>>)
    requires it.result == r && OnLoop(r, l, all, row, row) && column == l.column && fallback == l.fallback
    modifies it, r, r.stmt, Buffers(r.columns)
    ensures text == TextAt(l, row)
    ensures !text.Raised? ==> it.result == null || it.result == r
    ensures !text.Raised? && it.result == null ==> all == row + 1
    ensures !text.Raised? && it.result == r ==> OnLoop(r, l, all, row + 1, row + 1)
  {
    text := ReadText(r, column, fallback, l, all, row);
    if !text.Raised? {
      Advance(it, r, l, all, row);
    }
  }

  /** The texts are what the gets return, from the first row on. */
  ghost predicate TextsOf(l: Loop, texts: seq<seq<Byte>>)
    requires Fine(l)
  {
    |texts| <= |l.stmt.table| && forall i | 0 <= i < |texts| :: TextAt(l, i) == Done(texts[i])
  }

  lemma OneMoreText(l: Loop, texts: seq<seq<Byte>>, text: seq<Byte>)
    requires Fine(l) && TextsOf(l, texts) && |texts| < |l.stmt.table| && TextAt(l, |texts|) == Done(text)
    ensures TextsOf(l, texts + [text])
  {
  }

  /** The turns of the loop. */
  method CollectTexts(it: ResultIterator, end: ResultIterator, r: ResultImpl, column: nat, fallback: seq<Byte>, ghost l: Loop, ghost all: nat)
      returns (texts: seq<seq<Byte>>, raised: bool)
    requires end != it && end.result == null
    requires Fine(l) && column == l.column && fallback == l.fallback && all <= |l.stmt.table|
    requires if it.result == null then all == 0 else it.result == r && OnLoop(r, l, all, 0, 0)
    modifies it, r, r.stmt, Buffers(r.columns)
    ensures TextsOf(l, texts)
    ensures if !raised then |texts| == all else |texts| < all && TextAt(l, |texts|).Raised?
  {
    texts, raised := [], false;
    while !it.Equals(end)
      invariant end.result == null && (it.result == null || it.result == r)
      invariant TextsOf(l, texts)
      invariant if it.result == null then |texts| == all else OnLoop(r, l, all, |texts|, |texts|)
      decreases if it.result == r then all - |texts| + 1 else 0
    {
      var text := Turn(it, r, column, fallback, l, all, |texts|);
      if text.Raised? {
        return texts, true;
      }
      OneMoreText(l, texts, text.value);
      texts := texts + [text.value];
    }
  }

  lemma LoopIsFine(r: ResultImpl, l: Loop)
    requires r.Shape() && l.column < |r.columns| && r.columns[l.column].ctype != CFixed
    requires l.stmt == r.stmt && l.col == r.columns[l.column] && l.bound == r.columns[l.column].bound && l.told == r.hasUnbound
    ensures Fine(l) && IsLoop(r, l)
  {
    assert r.ColumnFits(l.column);
    forall k | 0 <= k < |l.stmt.table|
      ensures WellTyped(l.col.ctype, l.col.clen, l.stmt.table[k][l.column])
    {
      assert l.stmt.table[k] in l.stmt.table;
    }
  }

  lemma StartsLoop(r: ResultImpl, l: Loop, all: nat)
    requires Ready(r, all, 0) && all <= |r.stmt.table| && IsLoop(r, l)
    requires r.stmt.progress == NOTHING_READ && r.stmt.current == 0
    ensures OnLoop(r, l, all, 0, 0)
  {
    FreshMarks(r, l.column);
  }

  /** `begin`, of a loop. */
  method BeginLoop(r: ResultImpl, ghost l: Loop) returns (it: ResultIterator)
    requires r.Shape() && r.View() == Fresh(|r.stmt.table|, r.rowsetSize, r.hasUnbound, r.stmt.faults)
    requires l.column < |r.columns| && r.columns[l.column].ctype != CFixed
    requires l.stmt == r.stmt && l.col == r.columns[l.column] && l.bound == r.columns[l.column].bound && l.told == r.hasUnbound
    modifies r, r.stmt, Buffers(r.columns)
    ensures Fine(l) && fresh(it) && (it.result == null || it.result == r)
    ensures var all := RowsReached(|r.stmt.table|, r.rowsetSize, r.stmt.faults, 0, 0);
      if it.result == null then all == 0 else OnLoop(r, l, all, 0, 0)
  {
    LoopIsFine(r, l);
    it := Begin(r);
    if it.result == r {
      LoopIsFine(r, l);
      StartsLoop(r, l, RowsReached(|r.stmt.table|, r.rowsetSize, r.stmt.faults, 0, 0));
    }
  }

  /**
   The loop that gets one text column of a fresh result, at every rowset size and whatever of the
   column is bound: the texts are what `TextAt` says of the rows reached, in order, up to the
   first that does not convert.
   */
  method RangeForText(r: ResultImpl, column: nat, fallback: seq<Byte>) returns (texts: seq<seq<Byte>>, raised: bool, ghost l: Loop)
    requires r.Shape() && r.View() == Fresh(|r.stmt.table|, r.rowsetSize, r.hasUnbound, r.stmt.faults)
    requires column < |r.columns| && CanAsk(r.columns[column], Text)
    modifies r, r.stmt, Buffers(r.columns)
    ensures l == Loop(r.stmt, r.columns[column], old(r.columns[column].bound), old(r.hasUnbound), column, fallback) && Fine(l)
    ensures TextsOf(l, texts)
    ensures var all := RowsReached(|r.stmt.table|, r.rowsetSize, r.stmt.faults, 0, 0);
      if !raised then |texts| == all else |texts| < all && TextAt(l, |texts|).Raised?
  {
    l := Loop(r.stmt, r.columns[column], r.columns[column].bound, r.hasUnbound, column, fallback);
    ghost var all := RowsReached(|r.stmt.table|, r.rowsetSize, r.stmt.faults, 0, 0);
    var end := new ResultIterator.End();
    var it := BeginLoop(r, l);
    texts, raised := CollectTexts(it, end, r, column, fallback, l, all);
  }

  // ---------------------------------------------------------------- the column as a list

  /** A bound column of narrow texts that fit their slots, none with a zero in it. */
  ghost predicate Fitting(r: ResultImpl, column: nat)
    requires r.Layout() && column < |r.columns|
    reads r.columns
  {
    && r.columns[column].bound && r.columns[column].ctype == CChar
    && forall k | 0 <= k < |r.stmt.table| && r.stmt.table[k][column].Value? :: Fits(r.columns[column], r.stmt.table[k][column].bytes)
  }

  function OrFallback(cell: Cell, fallback: seq<Byte>): seq<Byte> {
    if cell.Null? then fallback else cell.bytes
  }

  /** A text that fits is never asked for again and comes back as it is. */
  lemma FittingText(l: Loop, k: nat)
    requires Fine(l) && l.bound && l.col.ctype == CChar && k < |l.stmt.table|
    requires CellOf(l, k).Value? ==> Fits(l.col, CellOf(l, k).bytes)
    ensures TextAt(l, k) == Done(OrFallback(CellOf(l, k), l.fallback))
  {
    if CellOf(l, k).Value? {
      BufferNarrowIff(l.col, CellOf(l, k).bytes);
    }
  }

  /**
   End to end, at every rowset size: the loop collects exactly the column of the result, row by
   row, with the fallback for nulls; all of it, unless a fetch raises.
   */
  method RangeForFittingText(r: ResultImpl, column: nat, fallback: seq<Byte>) returns (texts: seq<seq<Byte>>)
    requires r.Shape() && r.View() == Fresh(|r.stmt.table|, r.rowsetSize, r.hasUnbound, r.stmt.faults)
    requires column < |r.columns| && Fitting(r, column)
    modifies r, r.stmt, Buffers(r.columns)
    ensures |texts| == RowsReached(|r.stmt.table|, r.rowsetSize, r.stmt.faults, 0, 0)
    ensures forall i | 0 <= i < |texts| ::
      texts[i] == match r.stmt.table[i][column] case Null => fallback case Value(v) => v
    ensures r.stmt.faults == map[] ==> |texts| == |r.stmt.table|
    ensures forall f: nat | FirstFault(r.stmt.faults, f) :: |texts| == Min(|r.stmt.table|, f * r.rowsetSize)
  {
    AllReached(|r.stmt.table|, r.rowsetSize, r.stmt.faults);
    var raised;
    ghost var l;
    texts, raised, l := RangeForText(r, column, fallback);
    forall k | 0 <= k < |r.stmt.table|
      ensures TextAt(l, k) == Done(OrFallback(r.stmt.table[k][column], fallback))
    {
      FittingText(l, k);
    }
  }
}
