/**
 Where a scrollable ODBC cursor stands after SQLFetchScroll, from the positioning tables of
 the SQLFetchScroll reference page. Rows are counted from zero here and from one there. On
 an empty result, where the page is silent, a forward fetch ends after the end and a
 backward one before the start; every fetch reports no data either way.
 */
module Scrolling {

  datatype Place = BeforeStart | At(start: nat) | AfterEnd

  datatype Orientation = Next | Prior | First | Last | Absolute(row: int) | Relative(offset: int)

  function ScrollAbsolute(n: nat, size: nat, row: int): Place {
    if row > 0 then if row <= n then At(row - 1) else AfterEnd
    else if row == 0 then BeforeStart
    else if -row <= n then At(n + row)
    else if -row > size || n == 0 then BeforeStart
    else At(0)
  }

  function Scroll(p: Place, n: nat, size: nat, o: Orientation): (q: Place)
    requires size > 0 && (p.At? ==> p.start < n)
    ensures q.At? ==> q.start < n
  {
    match o
    case First => if n == 0 then AfterEnd else At(0)
    case Last => if n == 0 then BeforeStart else if size <= n then At(n - size) else At(0)
    case Absolute(row) => ScrollAbsolute(n, size, row)
    case Next =>
      (match p
       case BeforeStart => if n == 0 then AfterEnd else At(0)
       case At(k) => if k + size < n then At(k + size) else AfterEnd
       case AfterEnd => AfterEnd)
    case Prior =>
      (match p
       case BeforeStart => BeforeStart
       case At(k) => if k == 0 then BeforeStart else if k < size then At(0) else At(k - size)
       case AfterEnd => if n == 0 then BeforeStart else if n < size then At(0) else At(n - size))
    case Relative(d) =>
      (match p
       case BeforeStart => if d > 0 then ScrollAbsolute(n, size, d) else BeforeStart
       case AfterEnd => if d < 0 then ScrollAbsolute(n, size, d) else AfterEnd
       case At(k) =>
         if 0 <= k + d < n then At(k + d)
         else if k + d >= n then AfterEnd
         else if k == 0 || -d > size then BeforeStart
         else At(0))
  }

  /** The table of the reference page for the fetches the moves make: the first row of the new rowset, if there is one. */
  lemma ScrollTable(p: Place, n: nat, size: nat, offset: int)
    requires size > 0 && (p.At? ==> p.start < n)
    ensures n > 0 ==> Scroll(p, n, size, First).At? && Scroll(p, n, size, First).start == 0
    ensures n > 0 ==> Scroll(p, n, size, Last).At? && Scroll(p, n, size, Last).start == if n > size then n - size else 0
    ensures n == 0 ==> !Scroll(p, n, size, First).At? && !Scroll(p, n, size, Last).At? && !Scroll(p, n, size, Absolute(offset)).At?
    ensures p.At? && p.start + size < n ==> Scroll(p, n, size, Next).At? && Scroll(p, n, size, Next).start == p.start + size
    ensures p.At? && p.start + size >= n ==> Scroll(p, n, size, Next).AfterEnd?
    ensures p.At? && p.start > 0 ==>
      Scroll(p, n, size, Prior).At? && Scroll(p, n, size, Prior).start == if p.start > size then p.start - size else 0
    ensures p.At? && p.start == 0 ==> Scroll(p, n, size, Prior).BeforeStart?
    ensures p.At? && 0 <= p.start + offset < n ==>
      Scroll(p, n, size, Relative(offset)).At? && Scroll(p, n, size, Relative(offset)).start == p.start + offset
    ensures 0 < offset <= n ==> Scroll(p, n, size, Absolute(offset)).At? && Scroll(p, n, size, Absolute(offset)).start == offset - 1
    ensures 0 < -offset <= n ==> Scroll(p, n, size, Absolute(offset)).At? && Scroll(p, n, size, Absolute(offset)).start == n + offset
  {
  }
}

/**
 The six moves of a result over a rowset of `size` rows: what they do to the fields of
 `result_impl` and to the driver's own position.
 */
module RowsetCursor {
  import opened Base
  import opened Scrolling

  /**
   `rows` is row_count_, `position` rowset_position_, `unbound` has_unbound_, `atEnd` at_end_.
   `current` is the row of the rowset that the driver takes to be current, `fetches` counts
   SQLFetchScroll calls, and `faults` says which of them raise, and what each leaves in the
   row count.
   */
  datatype Cursor = Cursor(
    n: nat, size: nat, place: Place, rows: nat, position: int, current: int,
    unbound: bool, atEnd: bool, fetches: nat, faults: map<nat, nat>)

  datatype Move = MoveFirst | MoveLast | MoveNext | MovePrior | MoveTo(row: int) | Skip(count: int)

  function Fresh(n: nat, size: nat, unbound: bool, faults: map<nat, nat>): Cursor {
    Cursor(n, size, BeforeStart, 0, 0, 0, unbound, false, 0, faults)
  }

  /** What every call leaves true: the fields agree with the rowset the driver holds. */
  ghost predicate Ok(c: Cursor) {
    && c.size > 0 && 0 <= c.position < c.size
    && (c.place.At? ==>
          && c.place.start < c.n && c.rows == Min(c.size, c.n - c.place.start)
          && 0 <= c.current < c.rows)
    && (!c.place.At? ==> c.rows == 0)
  }

  /** What the driver itself keeps, even when a call raises. */
  predicate Placed(c: Cursor) { c.size > 0 && (c.place.At? ==> c.place.start < c.n) }

  /** The parts no call changes. */
  predicate SameResult(c: Cursor, d: Cursor) {
    d.n == c.n && d.size == c.size && d.unbound == c.unbound && d.faults == c.faults
  }

  predicate OnRow(c: Cursor) { 0 <= c.position < c.rows }

  /** The row of the result that the cursor is on. */
  function RowOf(c: Cursor): int {
    if c.place.At? then c.place.start + c.position else -1
  }

  function Fetch(c: Cursor, o: Orientation): (r: (Cursor, Outcome<bool>))
    requires Placed(c)
    ensures Placed(r.0) && SameResult(c, r.0) && r.0.position == c.position
    ensures r.1.Raised? <==> c.fetches in c.faults
    ensures !r.1.Raised? && c.position == 0 ==> Ok(r.0) && r.1 == Done(OnRow(r.0))
  {
    var called := c.(fetches := c.fetches + 1);
    if c.fetches in c.faults then (called.(rows := c.faults[c.fetches]), Raised)
    else
      var p := Scroll(c.place, c.n, c.size, o);
      if p.At? then
        (called.(place := p, rows := Min(c.size, c.n - p.start), current := 0), Done(true))
      else
        (called.(place := p, rows := 0, atEnd := true), Done(false))
  }

  function SetCurrent(c: Cursor): Cursor {
    if c.position < c.size && c.position < c.rows then c.(current := c.position) else c
  }

  function NextStep(c: Cursor): (r: (Cursor, Outcome<bool>))
    requires Placed(c)
    ensures Placed(r.0) && SameResult(c, r.0)
    ensures Ok(c) && !r.1.Raised? ==> Ok(r.0)
  {
    if c.rows > 0 && c.position + 1 < c.size then
      var d := c.(position := c.position + 1);
      (if c.unbound then SetCurrent(d) else d, Done(d.position < c.rows))
    else Fetch(c.(position := 0), Next)
  }

  function PriorStep(c: Cursor): (r: (Cursor, Outcome<bool>))
    requires Placed(c)
    ensures Placed(r.0) && SameResult(c, r.0)
    ensures Ok(c) && !r.1.Raised? ==> Ok(r.0)
  {
    if c.rows > 0 && c.position - 1 >= 0 then (SetCurrent(c.(position := c.position - 1)), Done(true))
    else Fetch(c.(position := 0), Prior)
  }

  function SkipStep(c: Cursor, count: int): (r: (Cursor, Outcome<bool>))
    requires Placed(c)
    ensures Placed(r.0) && SameResult(c, r.0)
    ensures Ok(c) && !(c.rows > 0 && c.position + count < 0) && !r.1.Raised? ==> Ok(r.0)
  {
    if c.rows > 0 && c.position + count < c.size then
      (c.(position := c.position + count), Done(c.position + count < c.rows))
    else Fetch(c.(position := 0), Relative(count))
  }

  function Step(c: Cursor, m: Move): (r: (Cursor, Outcome<bool>))
    requires Placed(c)
    ensures Placed(r.0) && SameResult(c, r.0)
  {
    match m
    case MoveFirst => Fetch(c.(position := 0), First)
    case MoveLast => Fetch(c.(position := 0), Last)
    case MoveTo(row) => Fetch(c.(position := 0), Absolute(row))
    case MoveNext => NextStep(c)
    case MovePrior => PriorStep(c)
    case Skip(k) => SkipStep(c, k)
  }

  // ---------------------------------------------------------------- where each move lands

  /** A rowset has been fetched from `row` on, and cursor and driver are on its first row. */
  predicate Fetched(c: Cursor, row: int) {
    c.place.At? && c.place.start == row && c.position == 0 && c.current == 0 && c.rows == Min(c.size, c.n - row) > 0
  }

  /** What an answered move says: whether there is a row to fetch from, and that it was fetched. */
  predicate AnswersFetch(e: (Cursor, Outcome<bool>), found: bool, row: int) {
    && e.1 == Done(found)
    && (found ==> Fetched(e.0, row))
  }

  lemma FirstLands(c: Cursor)
    requires Placed(c) && c.fetches !in c.faults
    ensures AnswersFetch(Step(c, MoveFirst), c.n > 0, 0)
  {
  }

  lemma LastLands(c: Cursor)
    requires Placed(c) && c.fetches !in c.faults
    ensures AnswersFetch(Step(c, MoveLast), c.n > 0, Max(c.n - c.size, 0))
  {
  }

  /** Rows from one up count from the first, negative ones from the last; past the front the first rowset still answers. */
  lemma MoveLands(c: Cursor, row: int)
    requires Placed(c) && c.fetches !in c.faults
    ensures row > 0 ==> AnswersFetch(Step(c, MoveTo(row)), row <= c.n, row - 1)
    ensures row == 0 ==> Step(c, MoveTo(row)).1 == Done(false)
    ensures row < 0 ==> AnswersFetch(Step(c, MoveTo(row)), c.n > 0 && (-row <= c.n || -row <= c.size), Max(c.n + row, 0))
  {
  }

  /** `next` where it fetches. */
  lemma NextLands(c: Cursor)
    requires Placed(c) && c.fetches !in c.faults && !(c.rows > 0 && c.position + 1 < c.size)
    ensures c.place.BeforeStart? ==> AnswersFetch(Step(c, MoveNext), c.n > 0, 0)
    ensures c.place.At? ==> AnswersFetch(Step(c, MoveNext), c.place.start + c.size < c.n, c.place.start + c.size)
    ensures c.place.AfterEnd? ==> Step(c, MoveNext).1 == Done(false)
  {
  }

  /** `prior` where it fetches: the rowset before this one, or the first when fewer rows than a rowset are left. */
  lemma PriorLands(c: Cursor)
    requires Placed(c) && c.fetches !in c.faults && !(c.rows > 0 && c.position > 0)
    ensures c.place.BeforeStart? ==> Step(c, MovePrior).1 == Done(false)
    ensures c.place.At? ==> AnswersFetch(Step(c, MovePrior), c.place.start > 0, Max(c.place.start - c.size, 0))
    ensures c.place.AfterEnd? ==> AnswersFetch(Step(c, MovePrior), c.n > 0, Max(c.n - c.size, 0))
  {
  }

  /** `skip` where it fetches: it counts from the first row of the rowset, or from outside the rows. */
  lemma SkipLands(c: Cursor, k: int)
    requires Ok(c) && c.fetches !in c.faults && !(c.rows > 0 && c.position + k < c.size)
    ensures c.place.BeforeStart? ==> AnswersFetch(Step(c, Skip(k)), 0 < k <= c.n, k - 1)
    ensures c.place.At? ==> AnswersFetch(Step(c, Skip(k)), c.place.start + k < c.n, c.place.start + k)
    ensures c.place.AfterEnd? ==>
      AnswersFetch(Step(c, Skip(k)), k < 0 && c.n > 0 && (-k <= c.n || -k <= c.size), Max(c.n + k, 0))
  {
  }

  // ---------------------------------------------------------------- safety over every run

  /** `prior` and `skip` are called on a current row, and `skip` goes forward. */
  predicate Guarded(c: Cursor, m: Move) {
    && (m.MovePrior? ==> OnRow(c))
    && (m.Skip? ==> OnRow(c) && m.count >= 0)
  }

  /** A guarded move that does not raise keeps the fields in order and answers whether it landed on a row. */
  lemma StepOk(c: Cursor, m: Move)
    requires Ok(c) && Guarded(c, m) && !Step(c, m).1.Raised?
    ensures Ok(Step(c, m).0)
    ensures Step(c, m).1 == Done(OnRow(Step(c, m).0))
  {
  }

  /** A run of guarded moves in which no fetch raises. */
  ghost predicate GuardedRun(c: Cursor, moves: seq<Move>)
    requires Ok(c)
    decreases |moves|
  {
    moves == []
    || (&& Guarded(c, moves[0]) && !Step(c, moves[0]).1.Raised?
        && (StepOk(c, moves[0]); GuardedRun(Step(c, moves[0]).0, moves[1..])))
  }

  ghost function Run(c: Cursor, moves: seq<Move>): (d: Cursor)
    requires Ok(c) && GuardedRun(c, moves)
    ensures Ok(d) && SameResult(c, d)
    decreases |moves|
  {
    if moves == [] then c
    else StepOk(c, moves[0]); Run(Step(c, moves[0]).0, moves[1..])
  }

  /**
   After every guarded run, a true answer means a fetched row: the position is inside the
   rowset, and its slot inside a buffer of `size` slots of any width.
   */
  lemma {:induction false} TrueMeansRow(c: Cursor, moves: seq<Move>, m: Move, clen: nat)
    requires Ok(c) && GuardedRun(c, moves)
    ensures Guarded(Run(c, moves), m) && Step(Run(c, moves), m).1 == Done(true) ==>
      var e := Step(Run(c, moves), m).0;
      && Ok(e) && OnRow(e) && e.position < Min(e.rows, e.size) && RowOf(e) < e.n
      && 0 <= e.position * clen <= e.position * clen + clen <= e.size * clen
    decreases |moves|
  {
    if moves == [] {
      if Guarded(c, m) && Step(c, m).1 == Done(true) {
        StepOk(c, m);
        SlotFits(Step(c, m).0.position, Step(c, m).0.size, clen);
      }
    } else {
      StepOk(c, moves[0]);
      assert Run(c, moves) == Run(Step(c, moves[0]).0, moves[1..]);
      TrueMeansRow(Step(c, moves[0]).0, moves[1..], m, clen);
    }
  }

  /** Without the guard, `prior` answers true off the fetched rows exactly when `next` has failed twice or more. */
  lemma PriorOffRowIff(c: Cursor)
    requires Ok(c) && !Step(c, MovePrior).1.Raised?
    ensures Step(c, MovePrior).1 == Done(true) && !OnRow(Step(c, MovePrior).0) <==> c.position > c.rows > 0
  {
  }

  /** A `skip` of any count answers truly exactly when it does not reach back before the rowset it is in. */
  lemma SkipTrueIff(c: Cursor, k: int)
    requires Ok(c) && !Step(c, Skip(k)).1.Raised?
    ensures Step(c, Skip(k)).1 == Done(OnRow(Step(c, Skip(k)).0)) <==> !(c.rows > 0 && c.position + k < 0)
  {
  }

  // ---------------------------------------------------------------- while (next())

  /** k calls of `next`, whatever they answer: where they lead and what the last one said. */
  function NextTimes(c: Cursor, k: nat): (r: (Cursor, Outcome<bool>))
    requires Placed(c)
    ensures Placed(r.0) && SameResult(c, r.0)
    decreases k
  {
    if k == 0 then (c, Done(false)) else Step(NextTimes(c, k - 1).0, MoveNext)
  }

  /** On row `row`, reached by `next` alone: every fetch so far brought one rowset of the rows before this one's, or this one. */
  ghost predicate Walking(c: Cursor, n: nat, size: nat, row: nat) {
    && Ok(c) && c.n == n && c.size == size && OnRow(c) && RowOf(c) == row
    && c.fetches >= 1 && c.place.start == (c.fetches - 1) * size
  }

  /** No row is left: after the end, or past the rows of a last rowset that is not full. */
  ghost predicate Finished(c: Cursor) {
    && Ok(c) && !OnRow(c)
    && (c.place.AfterEnd? || (c.place.At? && c.place.start + c.size > c.n))
  }

  lemma FinishedStays(c: Cursor)
    requires Finished(c) && c.fetches !in c.faults
    ensures Finished(Step(c, MoveNext).0) && Step(c, MoveNext).1 == Done(false)
  {
  }

  /** `next` inside a rowset, and `next` that fetches the following one. */
  lemma NextInside(c: Cursor)
    requires Ok(c) && OnRow(c) && c.position + 1 < c.size
    ensures var (d, r) := Step(c, MoveNext);
      && Ok(d) && d.place == c.place && d.position == c.position + 1 && d.fetches == c.fetches
      && d.rows == c.rows && r == Done(d.position < c.rows)
  {
  }

  lemma NextAcross(c: Cursor)
    requires Ok(c) && OnRow(c) && c.position + 1 == c.size && c.fetches !in c.faults
    ensures var (d, r) := Step(c, MoveNext);
      && Ok(d) && d.fetches == c.fetches + 1 && d.position == 0
      && (if c.place.start + c.size < c.n then d.place == At(c.place.start + c.size) && r == Done(true) && OnRow(d)
          else d.place == AfterEnd && r == Done(false))
  {
  }

  /** One `next` from a row: the following row, or the end after floor(n / size) + 1 fetches in all. */
  lemma WalkOn(c: Cursor, n: nat, size: nat, row: nat)
    requires Walking(c, n, size, row) && c.fetches !in c.faults
    ensures var (d, r) := Step(c, MoveNext);
      if row + 1 < n then r == Done(true) && Walking(d, n, size, row + 1)
      else r == Done(false) && Finished(d) && d.fetches == n / size + 1
  {
    var f, start := c.fetches, c.place.start;
    assert f * size == start + size by {
      assert f * size == (f - 1) * size + size;
    }
    if c.position + 1 < size {
      NextInside(c);
      if row + 1 == n {
        QuotientIs(n, size, f - 1);
      }
    } else {
      NextAcross(c);
      if row + 1 == n {
        QuotientIs(n, size, f);
      }
    }
  }

  lemma QuotientIs(n: nat, size: nat, q: nat)
    requires size > 0 && q * size <= n < q * size + size
    ensures n / size == q
  {
    var p := n / size;
    assert n == p * size + n % size;
    if p < q {
      ProductNat(q - p - 1, size);
      assert false;
    }
    if p > q {
      ProductNat(p - q - 1, size);
      assert false;
    }
  }

  /** Calls one to n of `next` on a fresh result: row after row. */
  lemma {:induction false} WalkTo(n: nat, size: nat, unbound: bool, row: nat)
    requires size > 0 && row < n
    ensures var (d, r) := NextTimes(Fresh(n, size, unbound, map[]), row + 1);
      r == Done(true) && Walking(d, n, size, row)
  {
    var c := Fresh(n, size, unbound, map[]);
    if row == 0 {
      assert NextTimes(c, 0).0 == c;
    } else {
      WalkTo(n, size, unbound, row - 1);
      WalkOn(NextTimes(c, row).0, n, size, row - 1);
    }
  }

  /** Call n + 1 answers false, after floor(n / size) + 1 fetches. */
  lemma FirstFalse(n: nat, size: nat, unbound: bool)
    requires size > 0
    ensures var (d, r) := NextTimes(Fresh(n, size, unbound, map[]), n + 1);
      Finished(d) && r == Done(false) && d.fetches == n / size + 1
  {
    var c := Fresh(n, size, unbound, map[]);
    if n == 0 {
      assert NextTimes(c, 0).0 == c;
      QuotientIs(0, size, 0);
    } else {
      WalkTo(n, size, unbound, n - 1);
      WalkOn(NextTimes(c, n).0, n, size, n - 1);
    }
  }

  /** And so does every later one. */
  lemma {:induction false} StaysFinished(n: nat, size: nat, unbound: bool, extra: nat)
    requires size > 0
    ensures var (d, r) := NextTimes(Fresh(n, size, unbound, map[]), n + 1 + extra);
      Finished(d) && r == Done(false)
  {
    FirstFalse(n, size, unbound);
    if extra > 0 {
      StaysFinished(n, size, unbound, extra - 1);
      FinishedStays(NextTimes(Fresh(n, size, unbound, map[]), n + extra).0);
    }
  }

  /**
   The block cursor refines the row-by-row one: call j + 1 of `next` lands on row j for every
   j below n, every later call answers false, and the first false has cost floor(n / size) + 1
   calls of SQLFetchScroll.
   */
  lemma NextVisitsEveryRow(n: nat, size: nat, unbound: bool, j: nat)
    requires size > 0
    ensures var (d, r) := NextTimes(Fresh(n, size, unbound, map[]), j + 1);
      && r == Done(j < n)
      && (j < n ==> OnRow(d) && RowOf(d) == j)
    ensures NextTimes(Fresh(n, size, unbound, map[]), n + 1).0.fetches == n / size + 1
  {
    if j < n {
      WalkTo(n, size, unbound, j);
    } else {
      StaysFinished(n, size, unbound, j - n);
    }
    FirstFalse(n, size, unbound);
  }

  // ---------------------------------------------------------------- the moves as a plain index

  /** One row at a time: -1 is before the start, n is after the end. */
  function PlainStep(n: nat, i: int, m: Move): int {
    match m
    case MoveFirst => 0
    case MoveLast => n - 1
    case MoveNext => Min(i + 1, n)
    case MovePrior => Max(i - 1, -1)
    case MoveTo(row) => if row > 0 then Min(row - 1, n) else if row == 0 then -1 else Max(n + row, -1)
    case Skip(k) => Min(i + k, n)
  }

  function Index(c: Cursor): int {
    match c.place
    case BeforeStart => -1
    case At(k) => k
    case AfterEnd => c.n
  }

  /** At rowset size one, every move is the plain index move, and answers whether the index is a row. */
  lemma PlainIndex(c: Cursor, m: Move)
    requires Ok(c) && c.size == 1 && c.fetches !in c.faults && (m.Skip? ==> m.count >= 0)
    ensures var (d, r) := Step(c, m);
      Ok(d) && Index(d) == PlainStep(c.n, Index(c), m) && r == Done(0 <= Index(d) < c.n)
  {
  }

  function StepAll(c: Cursor, moves: seq<Move>): Cursor
    requires Placed(c)
    decreases |moves|
  {
    if moves == [] then c else StepAll(Step(c, moves[0]).0, moves[1..])
  }

  function PlainStepAll(n: nat, i: int, moves: seq<Move>): int
    decreases |moves|
  {
    if moves == [] then i else PlainStepAll(n, PlainStep(n, i, moves[0]), moves[1..])
  }

  /** Over whole runs: at rowset size one the cursor, whatever it is asked, is where the plain index is. */
  lemma {:induction false} PlainRun(c: Cursor, moves: seq<Move>)
    requires Ok(c) && c.size == 1 && c.faults == map[]
    requires forall m | m in moves :: m.Skip? ==> m.count >= 0
    ensures var d := StepAll(c, moves);
      Ok(d) && Index(d) == PlainStepAll(c.n, Index(c), moves) && (OnRow(d) <==> 0 <= Index(d) < c.n)
    decreases |moves|
  {
    if moves != [] {
      assert moves[0] in moves;
      PlainIndex(c, moves[0]);
      PlainRun(Step(c, moves[0]).0, moves[1..]);
    }
  }

  /** What a move means for rows, whatever the rowset size: it answers for row `target` and lands there. */
  ghost predicate LandsOn(e: (Cursor, Outcome<bool>), n: nat, target: int) {
    && e.1 == Done(0 <= target < n)
    && (0 <= target < n ==> OnRow(e.0) && RowOf(e.0) == target)
  }

  /** `next` is exact at every rowset size. */
  lemma NextExact(c: Cursor)
    requires Ok(c) && OnRow(c) && c.fetches !in c.faults
    ensures LandsOn(Step(c, MoveNext), c.n, RowOf(c) + 1)
  {
  }

  /** `prior` is exact unless it crosses into a rowset that does not end just before this one. */
  lemma PriorExactIff(c: Cursor)
    requires Ok(c) && OnRow(c) && c.fetches !in c.faults
    ensures LandsOn(Step(c, MovePrior), c.n, RowOf(c) - 1)
      <==> c.position > 0 || c.place.start <= 1 || c.size == 1
  {
  }

  /** `last` lands on the last row exactly when that row is the first of its rowset. */
  lemma LastExactIff(c: Cursor)
    requires Ok(c) && c.fetches !in c.faults && c.n > 0
    ensures LandsOn(Step(c, MoveLast), c.n, c.n - 1) <==> c.size == 1 || c.n == 1
  {
  }

  /** `skip` is exact unless it leaves the rowset from a row other than its first and finds another row. */
  lemma SkipExactIff(c: Cursor, k: nat)
    requires Ok(c) && OnRow(c) && c.fetches !in c.faults
    ensures LandsOn(Step(c, Skip(k)), c.n, RowOf(c) + k)
      <==> c.position + k < c.size || c.position == 0 || c.place.start + k >= c.n
  {
  }

  /** Two rows in one rowset: `last` answers true on the first of them. */
  lemma LastMisses()
    ensures var (d, r) := Step(Fresh(2, 2, false, map[]), MoveLast);
      r == Done(true) && RowOf(d) == 0 != 2 - 1
  {
  }

  /** Four rows in rowsets of two: `move(3)` is on row 2, and `prior` from there on row 0. */
  lemma PriorMisses()
    ensures var c := Step(Fresh(4, 2, false, map[]), MoveTo(3)).0;
      var (d, r) := Step(c, MovePrior);
      RowOf(c) == 2 && r == Done(true) && RowOf(d) == 0 != 2 - 1
  {
  }

  /** And `skip(1)` from row 1, which `next` reached twice, is on row 1 again. */
  lemma SkipMisses()
    ensures var c := Step(Step(Fresh(4, 2, false, map[]), MoveNext).0, MoveNext).0;
      var (d, r) := Step(c, Skip(1));
      RowOf(c) == 1 && r == Done(true) && RowOf(d) == 1 != 1 + 1
  {
  }

  lemma FirstAndMoveExact(c: Cursor, row: int)
    requires Ok(c) && c.fetches !in c.faults
    ensures LandsOn(Step(c, MoveFirst), c.n, 0)
    ensures row >= 0 || -row <= c.n ==> LandsOn(Step(c, MoveTo(row)), c.n, if row > 0 then row - 1 else if row == 0 then -1 else c.n + row)
  {
  }

  /** `prior` undoes a `next` that stays inside the rowset. */
  lemma PriorUndoesNext(c: Cursor)
    requires Ok(c) && c.rows > 0 && c.position + 1 < c.size
    ensures var d := Step(Step(c, MoveNext).0, MovePrior);
      d.1 == Done(true) && d.0 == c.(current := d.0.current)
  {
  }

  /** And one that crosses to another row only at rowset size one. */
  lemma PriorUndoesNextIff(c: Cursor)
    requires Ok(c) && OnRow(c) && c.faults == map[] && Step(c, MoveNext).1 == Done(true)
    ensures RowOf(Step(Step(c, MoveNext).0, MovePrior).0) == RowOf(c) <==> c.position + 1 < c.size || c.size == 1
  {
    if c.position + 1 == c.size {
      NextAcross(c);
    }
  }

  // ---------------------------------------------------------------- the driver's current row

  /**
   SQLGetData reads the driver's current row. After a move that lands on a row it is the
   cursor's own row, except where the rowset was not left and nobody told the driver: `next`
   without an unbound column, and `skip` always.
   */
  lemma DriverFollowsIff(c: Cursor, m: Move)
    requires Ok(c) && c.current == c.position && Guarded(c, m) && Step(c, m).1 == Done(true)
    ensures var d := Step(c, m).0;
      d.current == d.position
      <==> d.fetches > c.fetches || m.MovePrior? || (m.MoveNext? && c.unbound) || (m.Skip? && m.count == 0)
  {
    StepOk(c, m);
  }

  /** `at_end_` is set by a fetch that finds nothing, and no move ever clears it. */
  lemma AtEndIsSticky(c: Cursor, m: Move)
    requires Ok(c) && !Step(c, m).1.Raised?
    ensures Step(c, m).0.atEnd <==> c.atEnd || !Step(c, m).0.place.At?
  {
  }
}
