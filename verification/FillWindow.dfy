/** Filling a cursor window from a query: `copyRow` and the loop of `nativeExecuteForCursorWindow`.
    The query is a stream of step results. */
module FillWindow {
  import opened Bytes
  import opened WindowLayout
  import opened CursorWindows

  /** Byte strings whose length SQLite can report. */
  type ShortBytes = b: seq<byte> | |b| < 0x8000_0000

  datatype ColumnValue =
    | IntegerValue(i: int64)
    | FloatValue(bits: seq<byte>)
    | TextValue(text: ShortBytes)
    | BlobValue(data: ShortBytes)
    | NullValue
    | UnknownValue

  type QueryRow = seq<ColumnValue>

  /** What one `sqlite3_step` returns; `Busy` stands for both the busy and the locked result. */
  datatype StepResult = Row(values: QueryRow) | Done | Busy | Failed

  datatype CopyRowResult = Copied | Full | Error

  // ---------- What a query row looks like in the window ----------

  /** The stored form: text gets its terminator. */
  function CellOf(v: ColumnValue): Cell {
    match v
    case IntegerValue(i) => Integer(i)
    case FloatValue(bits) => Float(bits)
    case TextValue(text) => String(text + [0])
    case BlobValue(data) => Blob(data)
    case _ => Null
  }

  /** The value that reading a cell back by its type gives. */
  function ValueOf(c: Cell): ColumnValue {
    match c
    case Integer(i) => IntegerValue(i)
    case Float(bits) => FloatValue(bits)
    case String(data) => if 0 < |data| <= 0x8000_0000 then TextValue(data[..|data| - 1]) else NullValue
    case Blob(data) => if |data| < 0x8000_0000 then BlobValue(data) else NullValue
    case Null => NullValue
  }

  /** The stored form keeps the value; a text's ends in a zero. */
  lemma ReadsBack(v: ColumnValue)
    requires v != UnknownValue
    ensures ValueOf(CellOf(v)) == v
    ensures v.TextValue? ==> CellOf(v) == String(v.text + [0])
  {
    if v.TextValue? {
      assert (v.text + [0])[..|v.text|] == v.text;
    }
  }

  /** Two rows of known values that are stored alike are alike. */
  lemma RowsReadBack(a: QueryRow, b: QueryRow)
    requires Known(a) && Known(b) && CellsOf(a) == CellsOf(b)
    ensures a == b
  {
    assert |a| == |CellsOf(a)| == |b|;
    forall i | 0 <= i < |a| ensures a[i] == b[i] {
      assert a[i] in a && b[i] in b && CellsOf(a)[i] == CellsOf(b)[i];
      ReadsBack(a[i]);
      ReadsBack(b[i]);
    }
  }

  function BytesOf(v: ColumnValue): nat {
    match v
    case TextValue(text) => |text| + 1
    case BlobValue(data) => |data|
    case _ => 0
  }

  function RowBytes(row: QueryRow): nat {
    if row == [] then 0 else RowBytes(row[..|row| - 1]) + BytesOf(row[|row| - 1])
  }

  ghost function CellsOf(row: QueryRow): (cells: seq<Cell>)
    ensures |cells| == |row|
  {
    seq(|row|, (i: nat) requires i < |row| => CellOf(row[i]))
  }

  ghost predicate Known(row: QueryRow) {
    UnknownValue !in row
  }

  ghost predicate WellFormed(row: QueryRow, columns: nat) {
    |row| == columns && forall v :: v in row && v.FloatValue? ==> |v.bits| == 8
  }

  /** The row is storable and fits a window of this capacity that holds no other row. */
  ghost predicate Fits(row: QueryRow, capacity: nat) {
    Known(row) && 16 + 404 + 12 * |row| + RowBytes(row) <= capacity
  }

  lemma {:induction false} PrefixBytes(row: QueryRow, i: nat)
    requires i <= |row|
    ensures RowBytes(row[..i]) <= RowBytes(row)
  {
    if i < |row| {
      assert row[..|row| - 1][..i] == row[..i];
      PrefixBytes(row[..|row| - 1], i);
    } else {
      assert row[..i] == row;
    }
  }

  /** The values in front of the first that is of no known type. */
  function KnownPart(row: QueryRow): (part: QueryRow)
    ensures part <= row && UnknownValue !in part && (|part| < |row| ==> row[|part|] == UnknownValue)
  {
    if row == [] then []
    else
      var part := KnownPart(row[..|row| - 1]);
      if part == row[..|row| - 1] && row[|row| - 1] != UnknownValue then row else part
  }

  /** The free offset of a window that holds these rows and nothing else. */
  function Space(rows: seq<QueryRow>): nat {
    if rows == [] then 16 + 404
    else
      var n := |rows| - 1;
      RowEnd(Space(rows[..n]), n, |rows[n]|) + RowBytes(rows[n])
  }

  /** What becomes of one more row behind these: it does not fit, or it does but for a value of unknown type. */
  ghost function Outcome(rows: seq<QueryRow>, row: QueryRow, capacity: nat): CopyRowResult {
    if RowEnd(Space(rows), |rows|, |row|) + RowBytes(KnownPart(row)) > capacity then Full
    else if Known(row) then Copied
    else Error
  }

  /** The row being packed: the first `i` cells are stored, the rest still null. */
  ghost function Partial(row: QueryRow, i: nat): seq<Cell>
    requires i <= |row|
  {
    CellsOf(row)[..i] + NullRow(|row| - i)
  }

  lemma PartialEnds(row: QueryRow)
    ensures Partial(row, 0) == NullRow(|row|) && Partial(row, |row|) == CellsOf(row)
    ensures RowBytes(row[..0]) == 0 && row[..|row|] == row
  {
    assert CellsOf(row)[..|row|] == CellsOf(row) && NullRow(0) == [];
  }

  lemma PackedPrefix(row: QueryRow, i: nat)
    requires i < |row|
    ensures Partial(row, i)[i := CellOf(row[i])] == Partial(row, i + 1)
    ensures RowBytes(row[..i + 1]) == RowBytes(row[..i]) + BytesOf(row[i])
  {
    assert row[..i + 1][..i] == row[..i];
  }

  /** The known part is the first `i` values if an unknown one is next, and has them and the next one otherwise. */
  lemma KnownPrefix(row: QueryRow, i: nat)
    requires i <= |row| && Known(row[..i])
    ensures i < |row| && row[i] == UnknownValue ==> KnownPart(row) == row[..i] && !Known(row)
    ensures i < |row| && row[i] != UnknownValue ==> RowBytes(row[..i + 1]) <= RowBytes(KnownPart(row))
    ensures i == |row| ==> KnownPart(row) == row && Known(row)
  {
    hide RowBytes, KnownPart;
    var part := KnownPart(row);
    assert forall j :: 0 <= j < i ==> row[j] == row[..i][j] && row[j] in row[..i];
    assert forall j :: 0 <= j < |part| ==> row[j] == part[j] && part[j] in part;
    if i < |row| && row[i] != UnknownValue {
      assert part[..i + 1] == row[..i + 1];
      PrefixBytes(part, i + 1);
    }
  }

  /** Stores one column value. Only text and blobs take space. */
  method PutValue(window: CursorWindow, row: nat, column: nat, v: ColumnValue) returns (status: Status)
    requires window.Valid() && !window.mReadOnly && window.HasCell(row, column)
    requires v != UnknownValue && (v.FloatValue? ==> |v.bits| == 8)
    modifies window.mData
    ensures window.Valid() && window.Columns() == old(window.Columns())
    ensures status == if old(window.Free()) + BytesOf(v) > window.mData.Length then NoMemory else OK
    ensures status == OK ==>
              && window.Table() == WithCell(old(window.Table()), row, column, CellOf(v))
              && window.Free() == old(window.Free()) + BytesOf(v)
    ensures status != OK ==> window.Table() == old(window.Table())
  {
    window.BlockFits(BytesOf(v));
    hide U32, Wf, TableOf;
    match v {
      case TextValue(text) => status := window.PutString(row, column, text + [0]);
      case IntegerValue(i) => status := window.PutLong(row, column, i);
      case FloatValue(bits) => status := window.PutDouble(row, column, bits);
      case BlobValue(data) => status := window.PutBlob(row, column, data);
      case NullValue => status := window.PutNull(row, column);
    }
  }

  /** Appends one query row, or leaves the table as it was. */
  method CopyRow(window: CursorWindow, values: QueryRow, addedRows: nat) returns (result: CopyRowResult)
    requires window.Valid() && !window.mReadOnly && addedRows == |window.Table()|
    requires WellFormed(values, window.Columns()) && 12 * |values| < 0x8000_0000
    modifies window, window.mData
    ensures window.Valid() && window.Columns() == old(window.Columns())
    ensures window.Table() == if result == Copied then old(window.Table()) + [CellsOf(values)] else old(window.Table())
    ensures result == if old(window.FreeAfterRow()) + RowBytes(KnownPart(values)) > window.mData.Length then Full
                      else if Known(values) then Copied else Error
    ensures result == Copied ==>
              window.Free() == old(window.FreeAfterRow()) + RowBytes(values) && (old(window.Tight()) ==> window.Tight())
  {
    window.RowFits();
    hide U32, Wf, TableOf, CursorWindow.NeedsChunk, RowBytes, CellsOf, NullRow, KnownPart;
    var status := window.AllocRow();
    if status != OK {
      return Full;
    }
    result := PackRow(window, values, addedRows, old(window.Table()));
    if result != Copied {
      status := window.FreeLastRow();
    }
  }

  /** Stores the values in the row just added, up to the first that is of no known type or does not fit. */
  method PackRow(window: CursorWindow, values: QueryRow, addedRows: nat, ghost base: Table)
    returns (result: CopyRowResult)
    requires window.Valid() && !window.mReadOnly && addedRows == |base| && WellFormed(values, window.Columns())
    requires window.Table() == base + [NullRow(|values|)]
    modifies window.mData
    ensures window.Valid() && window.Columns() == old(window.Columns())
    ensures |window.Table()| == |base| + 1 && window.Table()[..|base|] == base
    ensures result == Copied ==> window.Table() == base + [CellsOf(values)]
    ensures result == Copied ==> window.Free() == old(window.Free()) + RowBytes(values)
    ensures result == if old(window.Free()) + RowBytes(KnownPart(values)) > window.mData.Length then Full
                      else if Known(values) then Copied else Error
  {
    hide U32, Wf, TableOf, CursorWindow.NeedsChunk, RowBytes, CellsOf, Partial, NullRow, KnownPart;
    PartialEnds(values);
    var i := 0;
    while i < |values|
      invariant i <= |values| && window.Valid() && window.Columns() == |values|
      invariant window.Table() == base + [Partial(values, i)]
      invariant window.Free() == old(window.Free()) + RowBytes(values[..i]) <= window.mData.Length
      invariant Known(values[..i])
    {
      PackedPrefix(values, i);
      KnownPrefix(values, i);
      if values[i] == UnknownValue {
        return Error;
      }
      var status := PutValue(window, addedRows, i, values[i]);
      if status != OK {
        return Full;
      }
      i := i + 1;
    }
    KnownPrefix(values, |values|);
    return Copied;
  }

  // ---------- The stream of step results ----------

  type Stream = nat -> StepResult

  /** The rows among the first `k` results. */
  ghost function RowsOf(steps: Stream, k: nat): seq<QueryRow> {
    if k == 0 then []
    else if steps(k - 1).Row? then RowsOf(steps, k - 1) + [steps(k - 1).values]
    else RowsOf(steps, k - 1)
  }

  /** How many busy results in a row end the first `k` results. */
  ghost function BusyRun(steps: Stream, k: nat): (n: nat)
    ensures n <= k
  {
    if k > 0 && steps(k - 1).Busy? then BusyRun(steps, k - 1) + 1 else 0
  }

  datatype FillResult = FillResult(startPos: int, addedRows: nat, totalRows: nat, failed: bool, steps: nat)

  /** The loop stopped at `r.steps` results for a reason it should stop for, and no earlier result called for it. */
  ghost predicate StopsRight(steps: Stream, r: FillResult, countAllRows: bool) {
    && r.steps > 0
    && (forall k :: 0 <= k < r.steps - 1 ==> steps(k).Row? || steps(k).Busy?)
    && (forall k :: 0 <= k < r.steps ==> BusyRun(steps, k) <= 51)
    && var last := steps(r.steps - 1);
       if r.failed then last.Failed? || BusyRun(steps, r.steps) == 52 || (last.Row? && !Known(last.values))
       else last.Done? || (last.Row? && !countAllRows)
  }

  /** After `k` results the loop is still running, with `retryCount` busy results at the end. */
  ghost predicate Running(steps: Stream, k: nat, retryCount: nat) {
    && (forall j :: 0 <= j < k ==> steps(j).Row? || steps(j).Busy?)
    && (forall j :: 0 <= j < k ==> BusyRun(steps, j) <= 51)
    && retryCount == BusyRun(steps, k) <= 51
  }

  lemma NothingRun(steps: Stream)
    ensures Running(steps, 0, 0) && RowsOf(steps, 0) == []
  {
  }

  lemma RunOn(steps: Stream, k: nat, retryCount: nat)
    requires Running(steps, k, retryCount)
    requires steps(k).Row? || (steps(k).Busy? && retryCount <= 50)
    ensures Running(steps, k + 1, if steps(k).Row? then 0 else retryCount + 1)
    ensures RowsOf(steps, k + 1) == if steps(k).Row? then RowsOf(steps, k) + [steps(k).values] else RowsOf(steps, k)
  {
  }

  lemma Stop(steps: Stream, k: nat, retryCount: nat, r: FillResult, countAllRows: bool)
    requires Running(steps, k, retryCount) && r.steps == k + 1
    requires var s := steps(k);
             if r.failed then s.Failed? || (s.Busy? && retryCount > 50) || (s.Row? && !Known(s.values))
             else s.Done? || (s.Row? && !countAllRows)
    ensures StopsRight(steps, r, countAllRows)
    ensures RowsOf(steps, k + 1) == if steps(k).Row? then RowsOf(steps, k) + [steps(k).values] else RowsOf(steps, k)
  {
  }

  /** `table` is the stored form of `rows[first..first + |table|]`. */
  ghost predicate IsSlice(table: Table, rows: seq<QueryRow>, first: nat) {
    && (table != [] ==> first + |table| <= |rows|)
    && forall i :: 0 <= i < |table| ==> first + i < |rows| && table[i] == CellsOf(rows[first + i])
  }

  ghost predicate AllFit(rows: seq<QueryRow>, lo: nat, hi: int, capacity: nat) {
    forall i :: lo <= i < hi && i < |rows| ==> Fits(rows[i], capacity)
  }

  /** Where the copying starts: a negative start position skips nothing. */
  function FirstRow(startPos: int): nat {
    if startPos < 0 then 0 else startPos
  }

  // ---------- The pages of a query ----------

  /** The rows from `first` on fill a page up to the first row that is refused behind them. */
  ghost function PageEnd(rows: seq<QueryRow>, first: nat, capacity: nat): (e: nat)
    requires first <= |rows|
    ensures first <= e <= |rows|
  {
    PageFrom(rows, first, first, capacity)
  }

  ghost function PageFrom(rows: seq<QueryRow>, first: nat, e: nat, capacity: nat): (e': nat)
    requires first <= e <= |rows|
    ensures e <= e' <= |rows|
    decreases |rows| - e
  {
    if e == |rows| || Outcome(rows[first..e], rows[e], capacity) != Copied then e
    else PageFrom(rows, first, e + 1, capacity)
  }

  lemma {:induction false} PageMeans(rows: seq<QueryRow>, first: nat, e: nat, capacity: nat)
    requires first <= e <= |rows|
    ensures var e' := PageFrom(rows, first, e, capacity);
            && (e' < |rows| ==> Outcome(rows[first..e'], rows[e'], capacity) != Copied)
            && forall i :: e <= i < e' ==> Outcome(rows[first..i], rows[i], capacity) == Copied
    decreases |rows| - e
  {
    hide Outcome;
    if e < |rows| && Outcome(rows[first..e], rows[e], capacity) == Copied {
      PageMeans(rows, first, e + 1, capacity);
    }
  }

  /** The first row of the page that reaches past row `last`, or that is followed by no other. A page with rows in it is
      followed by one that starts with the row that did not fit. */
  ghost function PageStart(rows: seq<QueryRow>, first: nat, last: int, capacity: nat): (s: nat)
    requires first <= |rows|
    ensures first <= s <= |rows|
    decreases |rows| - first
  {
    var e := PageEnd(rows, first, capacity);
    if first < e < |rows| && e <= last && Outcome(rows[first..e], rows[e], capacity) == Full
    then PageStart(rows, e, last, capacity)
    else first
  }

  /** What the window holds after stepping over `rows`: the page of the required row, `addedRows` rows from `startPos`
      on. `stop` says whether the row behind it was refused, and why. */
  ghost predicate Paged(rows: seq<QueryRow>, startPos0: int, startPos: int, requiredPos: int, addedRows: nat,
                        stop: CopyRowResult, capacity: nat)
  {
    var first := FirstRow(startPos0);
    if |rows| <= first then startPos == startPos0 && addedRows == 0 && stop == Copied
    else
      var s := PageStart(rows, first, requiredPos + (first - startPos0), capacity);
      var e := PageEnd(rows, s, capacity);
      && startPos == startPos0 + (s - first) && addedRows == e - s
      && stop == if e == |rows| then Copied else Outcome(rows[s..e], rows[e], capacity)
  }

  /** One more row changes no page that ends before it, and the page that it comes behind gets it if it can. */
  lemma {:induction false} PageGrows(rows: seq<QueryRow>, row: QueryRow, first: nat, e: nat, capacity: nat)
    requires first <= e <= |rows|
    ensures PageFrom(rows + [row], first, e, capacity)
            == if PageFrom(rows, first, e, capacity) == |rows| && Outcome(rows[first..], row, capacity) == Copied
               then |rows| + 1 else PageFrom(rows, first, e, capacity)
    decreases |rows| - e
  {
    hide Outcome;
    assert (rows + [row])[first..e] == rows[first..e];
    if e < |rows| {
      PageGrows(rows, row, first, e + 1, capacity);
    } else {
      assert rows[first..e] == rows[first..];
    }
  }

  /** So the start stays where it is, unless the new row is refused by a page that does not reach past `last`: then
      it starts the next one. */
  lemma {:induction false} StartMoves(rows: seq<QueryRow>, row: QueryRow, first: nat, last: int, capacity: nat)
    requires first <= |rows|
    ensures var s := PageStart(rows, first, last, capacity);
            PageStart(rows + [row], first, last, capacity)
            == if s < |rows| == PageEnd(rows, s, capacity) && Outcome(rows[s..], row, capacity) == Full
                  && |rows| <= last
               then |rows| else s
    decreases |rows| - first
  {
    hide Outcome, PageFrom;
    var e := PageEnd(rows, first, capacity);
    PageGrows(rows, row, first, first, capacity);
    assert (rows + [row])[first..e] == rows[first..e];
    if first < e < |rows| && e <= last && Outcome(rows[first..e], rows[e], capacity) == Full {
      StartMoves(rows, row, e, last, capacity);
    } else if e == |rows| {
      assert rows[first..e] == rows[first..];
      PageGrows(rows, row, e, e, capacity);
    }
  }

  lemma NextRoom(slice: seq<QueryRow>, row: QueryRow)
    ensures Space(slice + [row]) == RowEnd(Space(slice), |slice|, |row|) + RowBytes(row)
  {
    hide RowBytes, RowEnd;
    assert (slice + [row])[..|slice|] == slice;
  }

  /** `n` rows from `first` on are stored and fit; a row behind them does not fit, or has a value of unknown type. */
  ghost predicate Longest(rows: seq<QueryRow>, first: nat, n: nat, capacity: nat) {
    && first + n <= |rows| && Space(rows[first..first + n]) <= capacity
    && (forall i :: first <= i < first + n ==> Known(rows[i]))
    && (first + n < |rows| ==> !Known(rows[first + n]) || Space(rows[first..first + n + 1]) > capacity)
  }

  /** A page is as long as the buffer lets it be. */
  lemma {:induction false} PageIsLongest(rows: seq<QueryRow>, first: nat, capacity: nat)
    requires first <= |rows| && 16 + 404 <= capacity
    ensures Longest(rows, first, PageEnd(rows, first, capacity) - first, capacity)
  {
    hide RowBytes, KnownPart, RowEnd, Space, Outcome, PageFrom;
    var e := PageEnd(rows, first, capacity);
    PageMeans(rows, first, first, capacity);
    forall i | first <= i < e ensures Known(rows[i]) {
      OutcomeMeans(rows[first..i], rows[i], capacity);
    }
    if e > first {
      OutcomeMeans(rows[first..e - 1], rows[e - 1], capacity);
      assert rows[first..e] == rows[first..e - 1] + [rows[e - 1]];
    } else {
      NoSpace();
      assert rows[first..e] == [];
    }
    if e < |rows| {
      OutcomeMeans(rows[first..e], rows[e], capacity);
      assert rows[first..e + 1] == rows[first..e] + [rows[e]];
    }
  }

  lemma NoSpace()
    ensures Space([]) == 16 + 404
  {
  }

  lemma OutcomeMeans(rows: seq<QueryRow>, row: QueryRow, capacity: nat)
    ensures Outcome(rows, row, capacity) == Copied <==> Known(row) && Space(rows + [row]) <= capacity
  {
    hide RowBytes, KnownPart, RowEnd, Space;
    KnownPrefix(row, |KnownPart(row)|);
    NextRoom(rows, row);
  }

  /** Rows from `first` on are left out only as far as a whole page ends before row `last` is there; and the page that
      is kept has row `last`, or there is no other behind it. */
  lemma {:induction false} PageIsRight(rows: seq<QueryRow>, first: nat, last: int, capacity: nat)
    requires first <= |rows|
    ensures var s := PageStart(rows, first, last, capacity);
            var e := PageEnd(rows, s, capacity);
            && (s == first || (s <= last && exists p :: first <= p < s == PageEnd(rows, p, capacity) < |rows|
                                                        && Outcome(rows[p..s], rows[s], capacity) == Full))
            && (last < e || e == s || e == |rows| || Outcome(rows[s..e], rows[e], capacity) == Error)
    decreases |rows| - first
  {
    hide Outcome, PageFrom;
    var e := PageEnd(rows, first, capacity);
    PageMeans(rows, first, first, capacity);
    if first < e < |rows| && e <= last && Outcome(rows[first..e], rows[e], capacity) == Full {
      PageIsRight(rows, e, last, capacity);
      if PageStart(rows, first, last, capacity) == e {
        assert first <= first < e == PageEnd(rows, first, capacity) < |rows|;
      }
    }
  }

  lemma NothingPaged(startPos0: int, requiredPos: int, capacity: nat)
    ensures Paged([], startPos0, startPos0, requiredPos, 0, Copied, capacity) && Space([]) == 16 + 404
  {
  }

  /** A row that comes too early, or behind a page that is closed, changes nothing. */
  lemma PageKept(rows: seq<QueryRow>, row: QueryRow, startPos0: int, startPos: int, requiredPos: int, addedRows: nat,
                 stop: CopyRowResult, capacity: nat)
    requires Paged(rows, startPos0, startPos, requiredPos, addedRows, stop, capacity)
    requires startPos >= |rows| + 1 || stop != Copied
    ensures Paged(rows + [row], startPos0, startPos, requiredPos, addedRows, stop, capacity)
  {
    hide Outcome, PageFrom, PageStart;
    var first := FirstRow(startPos0);
    if first < |rows| {
      var last := requiredPos + (first - startPos0);
      var s := PageStart(rows, first, last, capacity);
      StartMoves(rows, row, first, last, capacity);
      PageGrows(rows, row, s, s, capacity);
      var e := PageEnd(rows, s, capacity);
      assert (rows + [row])[s..e] == rows[s..e];
    }
  }

  /** A row behind an open page joins it, or closes it, or starts the next one. */
  lemma PageStep(rows: seq<QueryRow>, row: QueryRow, startPos0: int, startPos: int, requiredPos: int, addedRows: nat,
                 capacity: nat)
    requires Paged(rows, startPos0, startPos, requiredPos, addedRows, Copied, capacity) && startPos < |rows| + 1
    ensures addedRows <= |rows|
    ensures var here := Outcome(rows[|rows| - addedRows..], row, capacity);
            var next := Outcome([], row, capacity);
            if here == Full && addedRows > 0 && startPos + addedRows <= requiredPos
            then Paged(rows + [row], startPos0, startPos + addedRows, requiredPos, if next == Copied then 1 else 0,
                       next, capacity)
            else Paged(rows + [row], startPos0, startPos, requiredPos,
                       if here == Copied then addedRows + 1 else addedRows, here, capacity)
  {
    hide Outcome, PageFrom, PageStart;
    var first := FirstRow(startPos0);
    var last := requiredPos + (first - startPos0);
    if |rows| == first { NoRowsPaged(rows, last, capacity); }
    var s := PageStart(rows, first, last, capacity);
    PageMeans(rows, s, s, capacity);
    StartMoves(rows, row, first, last, capacity);
    PageGrows(rows, row, s, s, capacity);
    PageGrows(rows, row, |rows|, |rows|, capacity);
    assert rows[|rows|..] == [] && (rows + [row])[s..|rows|] == rows[s..];
    assert (rows + [row])[|rows|..|rows|] == [];
  }

  lemma NoRowsPaged(rows: seq<QueryRow>, last: int, capacity: nat)
    ensures PageFrom(rows, |rows|, |rows|, capacity) == |rows| == PageStart(rows, |rows|, last, capacity)
  {
  }

  /** A row that fits behind others fits an empty window; one that is alone fits exactly then. */
  lemma OutcomeFits(rows: seq<QueryRow>, row: QueryRow, capacity: nat)
    ensures Outcome(rows, row, capacity) == Copied ==> Fits(row, capacity)
    ensures Outcome([], row, capacity) == Copied <==> Fits(row, capacity)
  {
    KnownPrefix(row, |KnownPart(row)|);
    SpaceGrows(rows);
    hide RowBytes, KnownPart;
  }

  lemma {:induction false} SpaceGrows(rows: seq<QueryRow>)
    ensures Space(rows) >= 16 + 404
  {
    hide RowBytes;
    if rows != [] { SpaceGrows(rows[..|rows| - 1]); }
  }

  /** The state of the fill between two steps: `rows` were stepped over, `table` is in the window. */
  ghost predicate Filled(table: Table, rows: seq<QueryRow>, startPos0: int, startPos: int, requiredPos: int,
                         windowFull: bool, capacity: nat)
  {
    && startPos >= startPos0
    && var first0 := FirstRow(startPos0);
       var first := first0 + (startPos - startPos0);
       && IsSlice(table, rows, first)
       && (if |rows| <= first0 then table == [] && startPos == startPos0 && !windowFull
           else if windowFull then first + |table| < |rows|
           else first + |table| == |rows|)
       && AllFit(rows, first0, first + |table|, capacity)
       && (0 <= startPos0 <= requiredPos ==> startPos <= requiredPos)
       && (windowFull ==> startPos + |table| > requiredPos || (table == [] && !Fits(rows[first], capacity)))
  }

  lemma NothingFilled(startPos0: int, requiredPos: int, capacity: nat)
    ensures Filled([], [], startPos0, startPos0, requiredPos, false, capacity)
  {
  }

  lemma SliceFilled(table: Table, rows: seq<QueryRow>, startPos0: int, startPos: int, requiredPos: int,
                    windowFull: bool, capacity: nat)
    requires Filled(table, rows, startPos0, startPos, requiredPos, windowFull, capacity)
    ensures startPos >= startPos0 && IsSlice(table, rows, FirstRow(startPos0) + (startPos - startPos0))
  {
  }

  lemma SliceGrows(table: Table, rows: seq<QueryRow>, row: QueryRow, first: nat)
    requires IsSlice(table, rows, first)
    ensures IsSlice(table, rows + [row], first)
  {
  }

  /** A row that is only counted. */
  lemma CountOnly(table: Table, rows: seq<QueryRow>, row: QueryRow, startPos0: int, startPos: int, requiredPos: int,
                  windowFull: bool, capacity: nat)
    requires Filled(table, rows, startPos0, startPos, requiredPos, windowFull, capacity)
    requires startPos >= |rows| + 1 || windowFull
    ensures Filled(table, rows + [row], startPos0, startPos, requiredPos, windowFull, capacity)
  {
  }

  /** A row that is tried next follows the ones in the window. */
  lemma NextRow(table: Table, rows: seq<QueryRow>, startPos0: int, startPos: int, requiredPos: int, capacity: nat)
    requires Filled(table, rows, startPos0, startPos, requiredPos, false, capacity)
    requires startPos < |rows| + 1
    ensures |rows| == FirstRow(startPos0) + (startPos - startPos0) + |table|
  {
  }

  lemma RowCopied(table: Table, rows: seq<QueryRow>, row: QueryRow, startPos0: int, startPos: int, requiredPos: int,
                  capacity: nat)
    requires Filled(table, rows, startPos0, startPos, requiredPos, false, capacity)
    requires startPos < |rows| + 1 && Fits(row, capacity)
    ensures Filled(table + [CellsOf(row)], rows + [row], startPos0, startPos, requiredPos, false, capacity)
  {
    NextRow(table, rows, startPos0, startPos, requiredPos, capacity);
  }

  /** The window is emptied and starts again with the row at hand. */
  lemma Restarted(table: Table, rows: seq<QueryRow>, startPos0: int, startPos: int, requiredPos: int, capacity: nat)
    requires Filled(table, rows, startPos0, startPos, requiredPos, false, capacity)
    requires table != [] && startPos + |table| <= requiredPos
    ensures Filled([], rows, startPos0, startPos + |table|, requiredPos, false, capacity)
    ensures startPos + |table| < |rows| + 1
  {
  }

  lemma RowRefused(table: Table, rows: seq<QueryRow>, row: QueryRow, startPos0: int, startPos: int, requiredPos: int,
                   capacity: nat)
    requires Filled(table, rows, startPos0, startPos, requiredPos, false, capacity)
    requires startPos < |rows| + 1
    requires startPos + |table| > requiredPos || (table == [] && !Fits(row, capacity))
    ensures Filled(table, rows + [row], startPos0, startPos, requiredPos, true, capacity)
  {
    NextRow(table, rows, startPos0, startPos, requiredPos, capacity);
  }

  /** What a row's turn makes of the table, by what becomes of the row. */
  lemma RowTaken(table: Table, rows: seq<QueryRow>, row: QueryRow, startPos0: int, startPos: int, requiredPos: int,
                 cpr: CopyRowResult, capacity: nat)
    requires Filled(table, rows, startPos0, startPos, requiredPos, false, capacity) && startPos < |rows| + 1
    requires |table| <= |rows| && cpr == Outcome(rows[|rows| - |table|..], row, capacity)
    requires cpr == Full ==> table == [] || startPos + |table| > requiredPos
    ensures startPos >= startPos0
    ensures var after := if cpr == Copied then table + [CellsOf(row)] else table;
            && IsSlice(after, rows + [row], FirstRow(startPos0) + (startPos - startPos0))
            && (cpr != Error ==> Filled(after, rows + [row], startPos0, startPos, requiredPos, cpr == Full, capacity))
  {
    OutcomeFits(rows[|rows| - |table|..], row, capacity);
    assert rows[|rows| - 0..] == [];
    hide Filled, IsSlice, Outcome, Fits, CellsOf;
    SliceFilled(table, rows, startPos0, startPos, requiredPos, false, capacity);
    SliceGrows(table, rows, row, FirstRow(startPos0) + (startPos - startPos0));
    if cpr == Copied {
      RowCopied(table, rows, row, startPos0, startPos, requiredPos, capacity);
      SliceFilled(table + [CellsOf(row)], rows + [row], startPos0, startPos, requiredPos, false, capacity);
    } else if cpr == Full {
      RowRefused(table, rows, row, startPos0, startPos, requiredPos, capacity);
    }
  }

  /** What the window holds after stepping over `rows`: a slice of them, the page of the required row. `stop` says
      whether the row behind it was refused, and why. */
  ghost predicate Holds(table: Table, rows: seq<QueryRow>, startPos0: int, startPos: int, requiredPos: int,
                        stop: CopyRowResult, capacity: nat)
  {
    && startPos >= startPos0 && IsSlice(table, rows, FirstRow(startPos0) + (startPos - startPos0))
    && Paged(rows, startPos0, startPos, requiredPos, |table|, stop, capacity)
    && (stop != Error ==> Filled(table, rows, startPos0, startPos, requiredPos, stop == Full, capacity))
  }

  lemma NothingHeld(startPos0: int, requiredPos: int, capacity: nat)
    ensures Holds([], [], startPos0, startPos0, requiredPos, Copied, capacity)
  {
  }

  lemma TooEarly(table: Table, rows: seq<QueryRow>, startPos0: int, startPos: int, requiredPos: int, capacity: nat)
    ensures Filled(table, rows, startPos0, startPos, requiredPos, false, capacity) && startPos >= |rows| + 1 ==>
              table == []
  {
  }

  /** A row that is only counted. */
  lemma HeldOn(table: Table, rows: seq<QueryRow>, row: QueryRow, startPos0: int, startPos: int, requiredPos: int,
               stop: CopyRowResult, capacity: nat)
    requires Holds(table, rows, startPos0, startPos, requiredPos, stop, capacity)
    requires startPos >= |rows| + 1 || stop == Full
    ensures Holds(table, rows + [row], startPos0, startPos, requiredPos, stop, capacity)
    ensures stop == Copied ==> table == []
  {
    TooEarly(table, rows, startPos0, startPos, requiredPos, capacity);
    hide Filled, IsSlice, Paged, AllFit;
    PageKept(rows, row, startPos0, startPos, requiredPos, |table|, stop, capacity);
    SliceGrows(table, rows, row, FirstRow(startPos0) + (startPos - startPos0));
    if stop != Error {
      CountOnly(table, rows, row, startPos0, startPos, requiredPos, stop == Full, capacity);
    }
  }

  /** A row's turn: it goes behind the others if it can, or alone if the required row is still to come. */
  lemma Turn(table: Table, rows: seq<QueryRow>, row: QueryRow, startPos0: int, startPos: int, requiredPos: int,
             capacity: nat)
    requires Holds(table, rows, startPos0, startPos, requiredPos, Copied, capacity) && startPos < |rows| + 1
    ensures |table| <= |rows|
    ensures var here := Outcome(rows[|rows| - |table|..], row, capacity);
            var over := here == Full && |table| > 0 && startPos + |table| <= requiredPos;
            var cpr := if over then Outcome([], row, capacity) else here;
            var left := if over then [] else table;
            && |rows| == FirstRow(startPos0) + (startPos - startPos0) + |table|
            && Holds(if cpr == Copied then left + [CellsOf(row)] else left, rows + [row], startPos0,
                     if over then startPos + |table| else startPos, requiredPos, cpr, capacity)
  {
    hide Filled, IsSlice, Paged, AllFit, Outcome, CellsOf;
    PageStep(rows, row, startPos0, startPos, requiredPos, |table|, capacity);
    NextRow(table, rows, startPos0, startPos, requiredPos, capacity);
    assert rows[|rows| - 0..] == [];
    var here := Outcome(rows[|rows| - |table|..], row, capacity);
    if here == Full && |table| > 0 && startPos + |table| <= requiredPos {
      Restarted(table, rows, startPos0, startPos, requiredPos, capacity);
      RowTaken([], rows, row, startPos0, startPos + |table|, requiredPos, Outcome([], row, capacity), capacity);
    } else {
      RowTaken(table, rows, row, startPos0, startPos, requiredPos, here, capacity);
    }
  }

  /** In a filled state the required row is there exactly when it was reached and nothing up to it is too big. */
  lemma Delivered(table: Table, rows: seq<QueryRow>, startPos0: int, startPos: int, requiredPos: int,
                  windowFull: bool, capacity: nat)
    requires Filled(table, rows, startPos0, startPos, requiredPos, windowFull, capacity)
    requires 0 <= startPos0 <= requiredPos
    ensures startPos <= requiredPos < startPos + |table|
            <==> requiredPos < |rows| && AllFit(rows, startPos0, requiredPos + 1, capacity)
  {
  }

  /** A full window has refused a row, and no row up to the required one unless that one is too big. */
  lemma FullStop(table: Table, rows: seq<QueryRow>, startPos0: int, startPos: int, requiredPos: int, capacity: nat)
    requires Filled(table, rows, startPos0, startPos, requiredPos, true, capacity)
    ensures FirstRow(startPos0) + (startPos - startPos0) + |table| < |rows|
    ensures 0 <= startPos0 <= requiredPos ==>
              (startPos <= requiredPos < startPos + |table| <==> AllFit(rows, startPos0, requiredPos + 1, capacity))
  {
  }

  /** The window's free offset is the one that its rows take. */
  ghost predicate Packed(window: CursorWindow, rows: seq<QueryRow>, addedRows: nat)
    requires window.Valid()
    reads window, window.mData
  {
    window.Tight() && addedRows == |window.Table()| <= |rows| && window.Free() == Space(rows[|rows| - addedRows..])
  }

  lemma NothingPacked(window: CursorWindow, rows: seq<QueryRow>)
    requires window.Valid() && window.Tight() && window.Table() == [] && window.Free() == 16 + 404
    ensures Packed(window, rows, 0)
  {
    assert rows[|rows| - 0..] == [];
  }

  lemma StillPacked(window: CursorWindow, rows: seq<QueryRow>, row: QueryRow)
    requires window.Valid() && Packed(window, rows, 0)
    ensures Packed(window, rows + [row], 0)
  {
    assert rows[|rows| - 0..] == (rows + [row])[|rows| + 1 - 0..];
  }

  /** `CopyRow` behind rows that are in the window already: what becomes of the row depends on these rows only. */
  method CopyBehind(window: CursorWindow, values: QueryRow, ghost before: seq<QueryRow>, addedRows: nat)
    returns (result: CopyRowResult)
    requires window.Valid() && !window.mReadOnly && Packed(window, before, addedRows)
    requires WellFormed(values, window.Columns()) && 12 * |values| < 0x8000_0000
    modifies window, window.mData
    ensures window.Valid() && window.Columns() == old(window.Columns())
    ensures window.Table() == if result == Copied then old(window.Table()) + [CellsOf(values)] else old(window.Table())
    ensures result == Outcome(before[|before| - addedRows..], values, window.mData.Length)
    ensures result == Copied ==> Packed(window, before + [values], addedRows + 1)
    ensures result == Error ==> !Known(values)
  {
    hide U32, Wf, TableOf, RowBytes, KnownPart, Space, CellsOf, Known, RowEnd;
    ghost var slice := before[|before| - addedRows..];
    window.TightRow();
    NextRoom(slice, values);
    assert (before + [values])[|before| + 1 - (addedRows + 1)..] == slice + [values];
    result := CopyRow(window, values, addedRows);
  }

  /** Tries to store the row at hand; when the window is full before the required row it starts over with this one. */
  method TakeRow(window: CursorWindow, values: QueryRow, ghost before: seq<QueryRow>, ghost startPos0: int,
                 startPos: int, requiredPos: int, addedRows: nat)
    returns (startPos': int, addedRows': nat, cpr: CopyRowResult)
    requires window.Valid() && !window.mReadOnly && addedRows == |window.Table()|
    requires WellFormed(values, window.Columns()) && 12 * |values| < 0x8000_0000
    requires Holds(window.Table(), before, startPos0, startPos, requiredPos, Copied, window.mData.Length)
    requires startPos < |before| + 1 && addedRows == |window.Table()| && Packed(window, before, addedRows)
    modifies window, window.mData
    ensures window.Valid() && window.Columns() == old(window.Columns()) && addedRows' == |window.Table()|
    ensures Holds(window.Table(), before + [values], startPos0, startPos', requiredPos, cpr, window.mData.Length)
    ensures cpr == Error ==> !Known(values)
    ensures cpr == Copied ==> Packed(window, before + [values], addedRows')
    ensures cpr != Copied ==> FirstRow(startPos0) + (startPos' - startPos0) + addedRows' == |before|
  {
    hide U32, Wf, TableOf, CursorWindow.NeedsChunk, Holds, Packed, Outcome, CellsOf;
    Turn(window.Table(), before, values, startPos0, startPos, requiredPos, window.mData.Length);
    assert before[|before| - 0..] == [];
    startPos', addedRows' := startPos, addedRows;
    cpr := CopyBehind(window, values, before, addedRows);
    if cpr == Full && addedRows > 0 && startPos + addedRows <= requiredPos {
      StartOver(window, |values|, before);
      startPos', addedRows' := startPos + addedRows, 0;
      cpr := CopyBehind(window, values, before, 0);
    }
    if cpr == Copied {
      addedRows' := addedRows' + 1;
    }
  }

  /** Empties the window for the row at hand. */
  method StartOver(window: CursorWindow, numColumns: nat, ghost before: seq<QueryRow>)
    requires window.Valid() && !window.mReadOnly && 12 * numColumns < 0x8000_0000
    modifies window, window.mData
    ensures window.Valid() && window.Table() == [] && window.Columns() == numColumns && Packed(window, before, 0)
  {
    window.Bounds();
    hide U32, Wf, TableOf, CursorWindow.NeedsChunk, Packed;
    var status := window.Clear();
    status := window.SetNumColumns(numColumns);
    NothingPacked(window, before);
  }

  /** What follows when the loop ends without a failure. */
  lemma AtEnd(table: Table, rows: seq<QueryRow>, startPos0: int, startPos: int, requiredPos: int, stop: CopyRowResult,
              capacity: nat)
    requires Holds(table, rows, startPos0, startPos, requiredPos, stop, capacity) && 16 + 404 <= capacity
    ensures startPos >= startPos0 && IsSlice(table, rows, FirstRow(startPos0) + (startPos - startPos0))
    ensures Paged(rows, startPos0, startPos, requiredPos, |table|, stop, capacity)
    ensures stop == Full ==> FirstRow(startPos0) + (startPos - startPos0) + |table| < |rows|
    ensures |rows| > FirstRow(startPos0) ==>
              Longest(rows, FirstRow(startPos0) + (startPos - startPos0), |table|, capacity)
    ensures stop != Error && 0 <= startPos0 <= requiredPos ==>
              (startPos <= requiredPos < startPos + |table|
               <==> requiredPos < |rows| && AllFit(rows, startPos0, requiredPos + 1, capacity))
    ensures stop == Full && 0 <= startPos0 <= requiredPos ==>
              (startPos <= requiredPos < startPos + |table| <==> AllFit(rows, startPos0, requiredPos + 1, capacity))
  {
    hide Filled, IsSlice, AllFit, PageStart, PageFrom, Outcome;
    var first := FirstRow(startPos0);
    if |rows| > first {
      PageIsLongest(rows, PageStart(rows, first, requiredPos + (first - startPos0), capacity), capacity);
    }
    hide Paged, Longest;
    if stop == Full {
      FullStop(table, rows, startPos0, startPos, requiredPos, capacity);
    }
    if stop != Error && 0 <= startPos0 <= requiredPos {
      Delivered(table, rows, startPos0, startPos, requiredPos, stop == Full, capacity);
    }
  }

  /** `stop` says whether the row behind the slice was refused, and why. */
  method ExecuteForCursorWindow(window: CursorWindow, steps: Stream, ghost maxRows: nat, numColumns: nat,
                                startPos0: int, requiredPos: int, countAllRows: bool)
    returns (r: FillResult, ghost stop: CopyRowResult)
    requires 16 + 404 <= window.mData.Length < 0x8000_0000
    requires 12 * numColumns < 0x8000_0000
    requires forall k :: steps(k).Row? ==> WellFormed(steps(k).values, numColumns)
    requires forall k :: |RowsOf(steps, k)| <= maxRows
    modifies window, window.mData
    ensures window.mReadOnly ==>
              r == FillResult(0, 0, 0, true, 0) && window.mData[..] == old(window.mData[..])
    ensures !window.mReadOnly ==>
              && window.Valid() && StopsRight(steps, r, countAllRows)
              && r.totalRows == |RowsOf(steps, r.steps)|
              // The window holds a contiguous slice of the query.
              && |window.Table()| == r.addedRows && r.startPos >= startPos0
              && IsSlice(window.Table(), RowsOf(steps, r.steps), FirstRow(startPos0) + (r.startPos - startPos0))
              // It is the page that the required row is on, or the last one that was reached.
              && Paged(RowsOf(steps, r.steps), startPos0, r.startPos, requiredPos, r.addedRows, stop,
                       window.mData.Length)
              && (stop == Error ==> r.failed)
    // Every row behind the first that is kept is there, up to the last that was reached or one that does not fit.
    ensures !window.mReadOnly && r.totalRows > FirstRow(startPos0) ==>
              Longest(RowsOf(steps, r.steps), FirstRow(startPos0) + (r.startPos - startPos0), r.addedRows,
                      window.mData.Length)
    // Before the rows are done it stops only when a row was refused, and then, unless rows are counted, at once.
    ensures !window.mReadOnly && !r.failed && !steps(r.steps - 1).Done? ==> stop == Full
    ensures !window.mReadOnly && !countAllRows && stop == Full ==>
              FirstRow(startPos0) + (r.startPos - startPos0) + r.addedRows + 1 == r.totalRows
    // The slice holds the required row exactly when that row was reached and every row up to it can be stored.
    ensures !r.failed && 0 <= startPos0 <= requiredPos ==>
              (r.startPos <= requiredPos < r.startPos + r.addedRows
               <==> requiredPos < r.totalRows
                    && AllFit(RowsOf(steps, r.steps), startPos0, requiredPos + 1, window.mData.Length))
    // If a row was refused the required row is there if it can be.
    ensures !window.mReadOnly && !r.failed && !steps(r.steps - 1).Done? ==>
              && FirstRow(startPos0) + (r.startPos - startPos0) + r.addedRows < r.totalRows
              && (0 <= startPos0 <= requiredPos ==>
                    (r.startPos <= requiredPos < r.startPos + r.addedRows
                     <==> AllFit(RowsOf(steps, r.steps), startPos0, requiredPos + 1, window.mData.Length)))
  {
    hide U32, Wf, TableOf, CursorWindow.NeedsChunk, CursorWindow.Tight, AllFit, IsSlice, Running, StopsRight, BusyRun,
      RowsOf, FirstRow, Fits, Holds, Paged, Packed, Known, Longest;
    stop := Copied;
    var status := window.Clear();
    if status != OK {
      return FillResult(0, 0, 0, true, 0), Copied;
    }
    status := window.SetNumColumns(numColumns);
    ghost var capacity, rows, table: Table := window.mData.Length, [], [];
    var startPos, retryCount, totalRows, addedRows, k := startPos0, 0, 0, 0, 0;
    var windowFull, gotException := false, false;
    NothingHeld(startPos0, requiredPos, capacity);
    NothingPacked(window, []);
    NothingRun(steps);
    while !gotException && (!windowFull || countAllRows)
      invariant window.Valid() && window.Columns() == numColumns && window.Table() == table && |table| == addedRows
      invariant rows == RowsOf(steps, k) && |rows| == totalRows
      invariant Holds(table, rows, startPos0, startPos, requiredPos, stop, capacity)
      invariant (windowFull <==> stop == Full) && (stop == Error ==> gotException)
      invariant stop == Copied ==> Packed(window, rows, addedRows)
      invariant !countAllRows && windowFull ==>
                  FirstRow(startPos0) + (startPos - startPos0) + addedRows + 1 == totalRows
      invariant if gotException || (windowFull && !countAllRows)
                then StopsRight(steps, FillResult(startPos, addedRows, totalRows, gotException, k), countAllRows)
                else Running(steps, k, retryCount)
      decreases !gotException, maxRows - totalRows, 52 - retryCount
    {
      var step := steps(k);
      ghost var retries := retryCount;
      k := k + 1;
      match step {
        case Row(values) =>
          retryCount := 0;
          totalRows := totalRows + 1;
          ghost var before := rows;
          rows := rows + [values];
          if startPos >= totalRows || windowFull {
            HeldOn(table, before, values, startPos0, startPos, requiredPos, stop, capacity);
            if stop == Copied {
              StillPacked(window, before, values);
            }
            RunOn(steps, k - 1, retries);
            continue;
          }
          var cpr;
          startPos, addedRows, cpr := TakeRow(window, values, before, startPos0, startPos, requiredPos, addedRows);
          table, stop := window.Table(), cpr;
          if cpr == Full {
            windowFull := true;
          } else if cpr == Error {
            gotException := true;
          }
          if gotException || (windowFull && !countAllRows) {
            Stop(steps, k - 1, retries, FillResult(startPos, addedRows, totalRows, gotException, k), countAllRows);
          } else {
            RunOn(steps, k - 1, retries);
          }
        case Done =>
          Stop(steps, k - 1, retries, FillResult(startPos, addedRows, totalRows, false, k), countAllRows);
          break;
        case Busy =>
          if retryCount > 50 {
            Stop(steps, k - 1, retries, FillResult(startPos, addedRows, totalRows, true, k), countAllRows);
            gotException := true;
          } else {
            RunOn(steps, k - 1, retries);
            retryCount := retryCount + 1;
          }
        case Failed =>
          Stop(steps, k - 1, retries, FillResult(startPos, addedRows, totalRows, true, k), countAllRows);
          gotException := true;
      }
    }
    r := FillResult(startPos, addedRows, totalRows, gotException, k);
    AtEnd(table, rows, startPos0, startPos, requiredPos, stop, capacity);
  }
}
