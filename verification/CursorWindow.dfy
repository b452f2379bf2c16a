/** The cursor window: a bump allocator over one flat buffer that holds a table of cells. */
module CursorWindows {
  import opened Bytes
  import opened WindowLayout

  /** `Outside` is no status of the source's: it stands for a put or a row that writes past the end of the buffer,
      because the allocator's 32-bit end offset wrapped around. What the window is then is not said. */
  datatype Status = OK | NoMemory | InvalidOperation | BadValue | Outside

  // ---------- The allocator's arithmetic, in 32-bit unsigned numbers ----------

  /** `(~free + 1) & 3` when aligning, else 0. */
  function Padding(free: nat, aligned: bool): nat
    requires free < TWO_32
  {
    if aligned then (TWO_32 - free) % 4 else 0
  }

  function AllocStart(free: nat, aligned: bool): nat
    requires free < TWO_32
  {
    (free + Padding(free, aligned)) % TWO_32
  }

  function AllocEnd(free: nat, size: nat, aligned: bool): nat
    requires free < TWO_32
  {
    (AllocStart(free, aligned) + size) % TWO_32
  }

  /** What the allocator does with a request: refuses it, or grants a block inside the buffer or one that is not. */
  datatype Grant = Refused | Inside | Beyond

  function GrantOf(free: nat, size: nat, aligned: bool, capacity: nat): Grant
    requires free < TWO_32
  {
    if AllocEnd(free, size, aligned) > capacity then Refused
    else if AllocStart(free, aligned) + size <= capacity then Inside
    else Beyond
  }

  /** The next multiple of four. */
  function Align4(n: nat): (r: nat)
    ensures r % 4 == 0 && n <= r < n + 4
  {
    (n + 3) / 4 * 4
  }

  /** How many chunks `n` rows need. */
  function ChunksFor(n: nat): nat {
    if n == 0 then 1 else (n - 1) / 100 + 1
  }

  /** Where the directory of row `n` ends when the free offset is `free` before it: a chunk comes first if the ones
      there are full. */
  function RowEnd(free: nat, n: nat, columns: nat): nat {
    Align4(if n > 0 && n % 100 == 0 then Align4(free) + 404 else free) + 12 * columns
  }

  /** What the allocator grants lies between the free offset and the end of the buffer
      exactly when its 32-bit end offset did not wrap around. */
  lemma GrantExact(free: nat, size: nat, aligned: bool, capacity: nat)
    requires free <= capacity < 0x8000_0000
    requires AllocEnd(free, size, aligned) <= capacity
    ensures free <= AllocStart(free, aligned)
    ensures AllocStart(free, aligned) + size <= capacity <==> AllocStart(free, aligned) + size < TWO_32
    ensures aligned ==> AllocStart(free, aligned) == Align4(free)
  {
    var start := AllocStart(free, aligned);
    assert start == free + Padding(free, aligned);
  }

  /** Without wrap-around the arithmetic is the plain one. */
  lemma NoWrap(free: nat, size: nat, aligned: bool)
    requires free < 0x8000_0000 && size <= 0x8000_0000 && (aligned ==> size < 0x8000_0000)
    ensures AllocStart(free, aligned) == if aligned then Align4(free) else free
    ensures AllocEnd(free, size, aligned) == AllocStart(free, aligned) + size
    ensures forall capacity: nat ::
              GrantOf(free, size, aligned, capacity)
              == if AllocStart(free, aligned) + size > capacity then Refused else Inside
  {
  }

  /** A block is granted that does not lie in the buffer exactly when the end offset wraps around to one that does. */
  lemma BeyondExact(free: nat, size: nat, aligned: bool, capacity: nat)
    requires free <= capacity < 0x8000_0000
    ensures GrantOf(free, size, aligned, capacity) == Beyond <==>
              AllocStart(free, aligned) + size >= TWO_32 && (AllocStart(free, aligned) + size) % TWO_32 <= capacity
    ensures GrantOf(free, 0x1_0000_0000, false, capacity) == Beyond
  {
  }

  /** The table with one cell replaced. */
  ghost function WithCell(t: Table, row: nat, column: nat, cell: Cell): Table {
    if row < |t| && column < |t[row]| then t[row := t[row][column := cell]] else t
  }

  /** The outcome of a put that needs a block. */
  function PutStatus(readOnly: bool, hasCell: bool, grant: Grant): Status {
    if readOnly then InvalidOperation
    else if !hasCell then BadValue
    else match grant case Refused => NoMemory case Inside => OK case Beyond => Outside
  }

  class CursorWindow {
    const mData: array<byte>
    const mReadOnly: bool
    ghost var layout: Layout

    ghost predicate Valid()
      reads this, mData
    {
      Wf(mData[..], layout) && NumRows(mData[..]) == |layout.dirs|
    }

    /** The table that the buffer stands for. */
    ghost function Table(): (t: Table)
      requires Valid()
      reads this, mData
      ensures |t| == |layout.dirs| && forall r :: 0 <= r < |t| ==> |t[r]| == Columns()
    {
      TableOf(mData[..], layout)
    }

    ghost function Columns(): nat
      requires Valid()
      reads this, mData
    {
      NumColumns(mData[..])
    }

    ghost function Free(): (f: nat)
      requires Valid()
      reads this, mData
      ensures f <= mData.Length
    {
      FreeOffset(mData[..])
    }

    lemma Bounds()
      requires Valid()
      ensures 16 + 404 <= mData.Length < 0x8000_0000
    {
    }

    /** A block of up to 2^31 bytes is granted exactly when it fits. */
    lemma BlockFits(size: nat)
      requires Valid() && size <= 0x8000_0000
      ensures GrantOf(Free(), size, false, mData.Length) == if Free() + size > mData.Length then Refused else Inside
    {
      NoWrap(Free(), size, false);
    }

    /** The next row needs a chunk that is not linked yet. */
    ghost predicate NeedsChunk()
      requires Valid()
      reads this, mData
    {
      |layout.dirs| == 100 * |layout.chunks|
    }

    /** No chunk is linked before it is needed, so the number of rows says when the next one is. */
    ghost predicate Tight()
      requires Valid()
      reads this, mData
    {
      |layout.chunks| == ChunksFor(|layout.dirs|)
    }

    /** Where the free offset is when the next row has its slot. */
    ghost function FreeAfterSlot(): (f: nat)
      requires Valid()
      reads this, mData
      ensures 16 + 404 <= f <= mData.Length + 407
    {
      SlotInLive(mData[..], layout, 0);
      if NeedsChunk() then Align4(Free()) + 404 else Free()
    }

    /** Where the free offset would be after one more row with no buffers. */
    ghost function FreeAfterRow(): (r: nat)
      requires Valid()
      reads this, mData
      ensures r >= 16 + 404 + 12 * Columns()
    {
      Align4(FreeAfterSlot()) + 12 * Columns()
    }

    lemma TightRow()
      requires Valid() && Tight()
      ensures FreeAfterRow() == RowEnd(Free(), |Table()|, Columns())
    {
      var n, k := |layout.dirs|, |layout.chunks|;
      assert NeedsChunk() <==> n > 0 && n % 100 == 0;
    }

    // ---------- Access to the raw buffer ----------

    function Load(o: nat): (v: nat)
      requires o + 4 <= mData.Length
      reads mData
      ensures v == U32(mData[..], o)
    {
      U32(mData[..], o)
    }

    method Store(o: nat, b: seq<byte>)
      requires o + |b| <= mData.Length
      modifies mData
      ensures mData[..] == Splice(old(mData[..]), o, b)
    {
      forall i | 0 <= i < |b| {
        mData[o + i] := b[i];
      }
    }

    method StoreU32(o: nat, v: nat)
      requires o + 4 <= mData.Length && v < TWO_32
      modifies mData
      ensures U32(mData[..], o) == v
      ensures forall i :: 0 <= i < mData.Length && !(o <= i < o + 4) ==> mData[i] == old(mData[i])
      ensures forall x: nat :: x + 4 <= mData.Length && (x + 4 <= o || o + 4 <= x) ==>
                U32(mData[..], x) == old(U32(mData[..], x))
    {
      ghost var m := mData[..];
      SpliceWord(m, o, v);
      Store(o, Encode(v, 4));
      forall x: nat | x + 4 <= mData.Length && (x + 4 <= o || o + 4 <= x)
        ensures U32(mData[..], x) == U32(m, x)
      {
        SameWord(m, mData[..], x);
      }
    }

    // ---------- Operations ----------

    constructor (size: nat, readOnly: bool)
      requires 16 + 404 <= size < 0x8000_0000
      ensures mData.Length == size && mReadOnly == readOnly && fresh(mData)
    {
      mData := new byte[size];
      mReadOnly := readOnly;
    }

    /** Empties the window, whatever the buffer held before. */
    method Clear() returns (status: Status)
      requires 16 + 404 <= mData.Length < 0x8000_0000
      modifies this, mData
      ensures mReadOnly ==> status == InvalidOperation && layout == old(layout) && mData[..] == old(mData[..])
      ensures !mReadOnly ==>
                && status == OK && Valid() && Table() == [] && Columns() == 0
                && Free() == 16 + 404 && !NeedsChunk() && Tight()
    {
      if mReadOnly {
        return InvalidOperation;
      }
      hide U32, Wf;
      StoreU32(0, 16 + 404);
      StoreU32(4, 16);
      StoreU32(8, 0);
      StoreU32(12, 0);
      StoreU32(16 + 400, 0);
      layout := Layout([16], []);
      EmptyWindow(mData[..]);
      return OK;
    }

    method SetNumColumns(numColumns: nat) returns (status: Status)
      requires Valid() && numColumns < TWO_32
      modifies mData
      ensures Valid() && Table() == old(Table()) && Free() == old(Free()) && NeedsChunk() == old(NeedsChunk())
      ensures Tight() == old(Tight())
      ensures status == if mReadOnly
                          || ((old(Columns()) > 0 || |old(Table())| > 0) && old(Columns()) != numColumns)
                        then InvalidOperation else OK
      ensures Columns() == if status == OK then numColumns else old(Columns())
    {
      if mReadOnly {
        return InvalidOperation;
      }
      var cur := Load(12);
      if (cur > 0 || Load(8) > 0) && cur != numColumns {
        return InvalidOperation;
      }
      ghost var m := mData[..];
      StoreU32(12, numColumns);
      SetColumns(m, mData[..], layout);
      return OK;
    }

    method Alloc(size: nat, aligned: bool) returns (offset: nat)
      requires mData.Length >= 16
      modifies mData
      ensures var free := old(FreeOffset(mData[..]));
              if AllocEnd(free, size, aligned) > mData.Length
              then offset == 0 && mData[..] == old(mData[..])
              else offset == AllocStart(free, aligned) && FreeOffset(mData[..]) == AllocEnd(free, size, aligned)
      ensures forall i :: 4 <= i < mData.Length ==> mData[i] == old(mData[i])
      ensures forall x: nat :: 4 <= x && x + 4 <= mData.Length ==> U32(mData[..], x) == old(U32(mData[..], x))
    {
      var padding := Padding(Load(0), aligned);
      var start := (Load(0) + padding) % TWO_32;
      var nextFreeOffset := (start + size) % TWO_32;
      if nextFreeOffset > mData.Length {
        return 0;
      }
      StoreU32(0, nextFreeOffset);
      return start;
    }

    /** Links a fresh chunk behind the last one, if there is space for it. */
    method LinkChunk(chunk: nat) returns (next: nat)
      requires Valid() && chunk == layout.chunks[|layout.chunks| - 1]
      modifies this, mData
      ensures Valid() && layout.dirs == old(layout.dirs) && Columns() == old(Columns()) && Table() == old(Table())
      ensures if Align4(old(Free())) + 404 > mData.Length
              then next == 0 && layout == old(layout) && Free() == old(Free())
              else next != 0 && layout.chunks == old(layout.chunks) + [next]
                   && Free() == Align4(old(Free())) + 404
    {
      hide U32, Disjoint, Rows, TableOf;
      ghost var m := mData[..];
      SlotInLive(m, layout, |layout.chunks| - 1);
      NoWrap(Load(0), 404, true);
      next := Alloc(404, true);
      StoreU32(chunk + 400, next);
      if next == 0 {
        EqualWords(m, mData[..], chunk + 400);
        assert mData[..] == m;
        return;
      }
      StoreU32(next + 400, 0);
      AppendChunk(m, mData[..], layout, next);
      layout := layout.(chunks := layout.chunks + [next]);
    }

    /** Takes the linked chunk `j` into use again and cuts the list behind it. */
    method ReuseChunk(chunk: nat, ghost j: nat)
      requires Valid() && j < |layout.chunks| && chunk == layout.chunks[j] && |layout.dirs| <= 100 * (j + 1)
      modifies this, mData
      ensures Valid() && layout == old(layout).(chunks := old(layout.chunks)[..j + 1])
      ensures Columns() == old(Columns()) && Table() == old(Table()) && Free() == old(Free())
    {
      ghost var m := mData[..];
      SlotInLive(m, layout, j);
      StoreU32(chunk + 400, 0);
      CutChunks(m, mData[..], layout, j);
      layout := layout.(chunks := layout.chunks[..j + 1]);
    }

    /** The walk to the chunk whose slots precede the new row's: it stops one chunk early when that
        chunk is full, so as not to follow a link that may not be there. */
    method WalkToWrite() returns (chunk: nat, chunkPos: nat, ghost j: nat)
      requires Valid()
      ensures j < |layout.chunks| && chunk == layout.chunks[j]
      ensures chunkPos == |layout.dirs| - 100 * j && chunkPos <= 100 && (j > 0 ==> chunkPos > 0)
    {
      chunkPos := Load(8);
      chunk := Load(4);
      j := 0;
      while chunkPos > 100
        invariant j < |layout.chunks| && chunk == layout.chunks[j]
        invariant chunkPos == |layout.dirs| - 100 * j && (j > 0 ==> chunkPos > 0)
      {
        NextLink(mData[..], layout.chunks, j);
        chunk := Load(chunk + 400);
        chunkPos := chunkPos - 100;
        j := j + 1;
      }
    }

    /** Counts one more row, whose slot is still to be filled. */
    method CountRow()
      requires Valid() && |layout.dirs| < 100 * |layout.chunks|
      modifies mData
      ensures Wf(mData[..], layout) && NumRows(mData[..]) == |layout.dirs| + 1
      ensures NumColumns(mData[..]) == old(Columns()) && TableOf(mData[..], layout) == old(Table())
      ensures FreeOffset(mData[..]) == old(Free())
    {
      ghost var m := mData[..];
      ChunkPosition(m, layout.chunks, |layout.chunks| - 1);
      StoreU32(8, Load(8) + 1);
      Grow(m, mData[..], layout);
    }

    /** Finds the slot for a new row, linking or reusing a chunk where needed, and counts the row.
        The slot still has to be filled. */
    method AllocRowSlot() returns (slot: nat)
      requires Valid() && !mReadOnly
      modifies this, mData
      ensures Wf(mData[..], layout) && layout.dirs == old(layout.dirs)
      ensures NumColumns(mData[..]) == old(Columns()) && TableOf(mData[..], layout) == old(Table())
      ensures slot == 0 <==> old(NeedsChunk()) && Align4(old(Free())) + 404 > mData.Length
      ensures slot == 0 ==> Valid() && layout == old(layout) && Free() == old(Free())
      ensures slot != 0 ==>
                && NumRows(mData[..]) == |layout.dirs| + 1 && |layout.dirs| < 100 * |layout.chunks|
                && slot == SlotOf(layout.chunks, |layout.dirs|)
                && FreeOffset(mData[..]) == (if old(NeedsChunk()) then Align4(old(Free())) + 404 else old(Free()))
                && (old(Tight()) ==> |layout.chunks| == ChunksFor(|layout.dirs| + 1))
    {
      hide U32, Chain, Disjoint, TableOf, SlotOf;
      var chunk, chunkPos;
      ghost var j;
      chunk, chunkPos, j := WalkToWrite();
      if chunkPos == 100 {
        NextLink(mData[..], layout.chunks, j);
        if Load(chunk + 400) == 0 {
          chunk := LinkChunk(chunk);
          if chunk == 0 {
            return 0;
          }
        } else {
          chunk := Load(chunk + 400);
          ReuseChunk(chunk, j + 1);
        }
        chunkPos := 0;
        j := j + 1;
      }
      SlotInLive(mData[..], layout, j);
      CountRow();
      SlotInChunk(layout.chunks, |layout.dirs|, j);
      return chunk + 4 * chunkPos;
    }

    /** The outcome of adding a row: no space for its chunk, or what becomes of its directory. */
    ghost function RowStatus(): Status
      requires Valid()
      reads this, mData
    {
      if mReadOnly then InvalidOperation
      else if FreeAfterSlot() > mData.Length then NoMemory
      else PutStatus(false, true, GrantOf(FreeAfterSlot(), 12 * Columns(), true, mData.Length))
    }

    lemma RowFits()
      requires Valid() && 12 * Columns() < 0x8000_0000
      ensures RowStatus() == if mReadOnly then InvalidOperation
                             else if FreeAfterRow() > mData.Length then NoMemory else OK
    {
      if FreeAfterSlot() <= mData.Length {
        NoWrap(FreeAfterSlot(), 12 * Columns(), true);
      }
    }

    /** Adds a row of nulls, or leaves the table alone when there is no space. */
    method AllocRow() returns (status: Status)
      requires Valid()
      modifies this, mData
      ensures status == old(RowStatus())
      ensures status != Outside ==>
                && Valid() && Columns() == old(Columns())
                && Table() == if status == OK then old(Table()) + [NullRow(Columns())] else old(Table())
      ensures status == OK ==> Free() == old(FreeAfterRow()) && (old(Tight()) ==> Tight())
    {
      if mReadOnly {
        return InvalidOperation;
      }
      var rowSlot := AllocRowSlot();
      if rowSlot == 0 {
        return NoMemory;
      }
      var grant := AllocDirectory(rowSlot);
      return match grant case Inside => OK case Refused => NoMemory case Beyond => Outside;
    }

    /** Gives the row counted last its directory of nulls, or takes the count back when there is no space. */
    method AllocDirectory(rowSlot: nat) returns (grant: Grant)
      requires Wf(mData[..], layout) && NumRows(mData[..]) == |layout.dirs| + 1
      requires |layout.dirs| < 100 * |layout.chunks| && rowSlot == SlotOf(layout.chunks, |layout.dirs|)
      modifies this, mData
      ensures grant == old(GrantOf(FreeOffset(mData[..]), 12 * NumColumns(mData[..]), true, mData.Length))
      ensures grant != Beyond ==> Valid() && Columns() == old(NumColumns(mData[..]))
      ensures grant == Inside ==> && Free() == old(Align4(FreeOffset(mData[..]))) + 12 * Columns()
                                  && Table() == old(TableOf(mData[..], layout)) + [NullRow(Columns())]
                                  && layout.chunks == old(layout.chunks)
      ensures grant == Refused ==> Table() == old(TableOf(mData[..], layout))
    {
      hide U32, Chain, Rows, Disjoint, TableOf;
      var fieldDirSize := Load(12) * 12;
      ghost var m := mData[..];
      SlotInLive(m, layout, |layout.dirs| / 100);
      NoWrap(Load(0), 0, true);
      var fieldDirOffset := Alloc(fieldDirSize, true);
      if fieldDirOffset == 0 {
        StoreU32(8, Load(8) - 1);
        Grow(m, mData[..], layout);
        return Refused;
      }
      if fieldDirOffset + fieldDirSize > mData.Length {
        return Beyond;
      }
      FillDirectory(rowSlot, fieldDirOffset, fieldDirSize, m);
      return Inside;
    }

    /** Zeroes a directory that was just granted and points the row's slot to it. `m` is the buffer before the grant. */
    method FillDirectory(rowSlot: nat, fieldDirOffset: nat, fieldDirSize: nat, ghost m: seq<byte>)
      requires |m| == mData.Length && Wf(m, layout) && NumRows(m) == |layout.dirs| + 1
      requires |layout.dirs| < 100 * |layout.chunks| && rowSlot == SlotOf(layout.chunks, |layout.dirs|)
      requires 16 <= rowSlot && rowSlot + 4 <= FreeOffset(m) <= fieldDirOffset && fieldDirOffset % 4 == 0
      requires fieldDirSize == 12 * NumColumns(m) && fieldDirOffset < TWO_32
      requires FreeOffset(mData[..]) == fieldDirOffset + fieldDirSize <= mData.Length
      requires forall i :: 4 <= i < mData.Length ==> mData[i] == m[i]
      modifies this, mData
      ensures Valid() && Columns() == NumColumns(m) && Free() == fieldDirOffset + fieldDirSize
      ensures Table() == TableOf(m, old(layout)) + [NullRow(Columns())] && layout.chunks == old(layout.chunks)
    {
      hide U32, Chain, Rows, Disjoint, TableOf;
      ghost var a := mData[..];
      SameWord(m, a, 4);
      SameWord(m, a, 8);
      SameWord(m, a, 12);
      Store(fieldDirOffset, seq(fieldDirSize, _ => 0));
      SameWord(a, mData[..], 0);
      SameWord(a, mData[..], 4);
      SameWord(a, mData[..], 8);
      StoreU32(rowSlot, fieldDirOffset);
      AppendRow(m, mData[..], layout, fieldDirOffset);
      layout := layout.(dirs := layout.dirs + [fieldDirOffset]);
    }

    /** Drops the last row, if there is one. */
    method FreeLastRow() returns (status: Status)
      requires Valid()
      modifies this, mData
      ensures Valid() && Columns() == old(Columns()) && Free() == old(Free())
      ensures status == if mReadOnly then InvalidOperation else OK
      ensures Table() == if status == OK && |old(Table())| > 0
                         then old(Table())[..|old(Table())| - 1] else old(Table())
    {
      if mReadOnly {
        return InvalidOperation;
      }
      hide Wf, TableOf, U32;
      if Load(8) > 0 {
        UncountRow();
      }
      return OK;
    }

    method UncountRow()
      requires Valid() && |Table()| > 0
      modifies this, mData
      ensures Valid() && Columns() == old(Columns()) && Free() == old(Free())
      ensures Table() == old(Table())[..|old(Table())| - 1]
    {
      Bounds();
      hide Wf, TableOf, U32;
      ghost var m := mData[..];
      StoreU32(8, Load(8) - 1);
      DropRow(m, mData[..], layout);
      layout := layout.(dirs := layout.dirs[..|layout.dirs| - 1]);
    }

    /** The walk to an existing row's slot. It reaches the slot that `AllocRowSlot` gave the row. */
    method GetRowSlot(row: nat) returns (slot: nat)
      requires Valid() && row < |layout.dirs|
      ensures slot == SlotOf(layout.chunks, row) && slot + 4 <= mData.Length
    {
      hide U32, Disjoint, Chain, SlotOf;
      var chunkPos := row;
      var chunk := Load(4);
      ghost var j := 0;
      NextLink(mData[..], layout.chunks, j);
      while chunkPos >= 100
        invariant 0 <= j < |layout.chunks| && chunk == layout.chunks[j] && chunkPos == row - 100 * j
      {
        NextLink(mData[..], layout.chunks, j);
        chunk := Load(chunk + 400);
        chunkPos := chunkPos - 100;
        j := j + 1;
      }
      NextLink(mData[..], layout.chunks, j);
      SlotInChunk(layout.chunks, row, j);
      return chunk + 4 * chunkPos;
    }

    /** The offset of a field slot, or 0 when the window has no such cell. */
    method GetFieldSlot(row: nat, column: nat) returns (slot: nat)
      requires Valid()
      ensures if row < |layout.dirs| && column < Columns()
              then slot == FieldOf(layout, row, column) && slot > 0 && slot + 12 <= mData.Length
              else slot == 0
    {
      if row >= Load(8) || column >= Load(12) {
        return 0;
      }
      var rowSlot := GetRowSlot(row);
      slot := Load(rowSlot) + 12 * column;
      assert Live(mData[..], layout, DirRegion(row)) && Live(mData[..], layout, HeaderRegion);
    }

    /** Whether the window has such a cell. */
    ghost predicate HasCell(row: nat, column: nat)
      requires Valid()
      reads this, mData
    {
      row < |layout.dirs| && column < Columns()
    }

    /** The outcome of a put that needs no space. */
    twostate predicate PutDone(row: nat, column: nat, cell: Cell, status: Status)
      requires old(Valid())
      reads this, mData
    {
      && Valid() && Columns() == old(Columns()) && Free() == old(Free())
      && status == (if mReadOnly then InvalidOperation else if old(HasCell(row, column)) then OK else BadValue)
      && Table() == (if status == OK then WithCell(old(Table()), row, column, cell) else old(Table()))
    }

    method PutBlob(row: nat, column: nat, value: seq<byte>) returns (status: Status)
      requires Valid()
      modifies mData
      ensures status == PutStatus(mReadOnly, old(HasCell(row, column)),
                                  GrantOf(old(Free()), |value|, false, mData.Length))
      ensures status != Outside ==>
                && Valid() && Columns() == old(Columns())
                && Table() == (if status == OK then WithCell(old(Table()), row, column, Blob(value)) else old(Table()))
                && Free() == (if status == OK then old(Free()) + |value| else old(Free()))
    {
      status := PutBlobOrString(row, column, value, TYPE_BLOB);
    }

    method PutString(row: nat, column: nat, value: seq<byte>) returns (status: Status)
      requires Valid()
      modifies mData
      ensures status == PutStatus(mReadOnly, old(HasCell(row, column)),
                                  GrantOf(old(Free()), |value|, false, mData.Length))
      ensures status != Outside ==>
                && Valid() && Columns() == old(Columns())
                && Table() == (if status == OK then WithCell(old(Table()), row, column, String(value))
                               else old(Table()))
                && Free() == (if status == OK then old(Free()) + |value| else old(Free()))
    {
      status := PutBlobOrString(row, column, value, TYPE_STRING);
    }

    method PutBlobOrString(row: nat, column: nat, value: seq<byte>, kind: nat) returns (status: Status)
      requires Valid() && (kind == TYPE_STRING || kind == TYPE_BLOB)
      modifies mData
      ensures status == PutStatus(mReadOnly, old(HasCell(row, column)),
                                  GrantOf(old(Free()), |value|, false, mData.Length))
      ensures status != Outside ==>
                var cell := if kind == TYPE_STRING then String(value) else Blob(value);
                && Valid() && Columns() == old(Columns())
                && Table() == (if status == OK then WithCell(old(Table()), row, column, cell) else old(Table()))
                && Free() == (if status == OK then old(Free()) + |value| else old(Free()))
    {
      hide U32, Chain, Rows, Disjoint, TableOf, CellAt;
      if mReadOnly {
        return InvalidOperation;
      }
      var fieldSlot := GetFieldSlot(row, column);
      if fieldSlot == 0 {
        return BadValue;
      }
      ghost var m := mData[..];
      FieldBounds(m, layout, row, column);
      var offset := Alloc(|value|, false);
      if offset == 0 {
        return NoMemory;
      }
      if offset + |value| > mData.Length {
        return Outside;
      }
      StoreBuffer(row, column, fieldSlot, offset, value, kind, m);
      return OK;
    }

    /** Fills a block that was just granted and points the field slot to it. `m` is the buffer before the grant. */
    method StoreBuffer(row: nat, column: nat, fieldSlot: nat, offset: nat, value: seq<byte>, kind: nat,
                       ghost m: seq<byte>)
      requires |m| == mData.Length && Wf(m, layout) && NumRows(m) == |layout.dirs|
      requires row < |layout.dirs| && column < NumColumns(m) && fieldSlot == FieldOf(layout, row, column)
      requires kind == TYPE_STRING || kind == TYPE_BLOB
      requires offset == FreeOffset(m) && FreeOffset(mData[..]) == offset + |value| <= mData.Length
      requires forall i :: 4 <= i < mData.Length ==> mData[i] == m[i]
      modifies mData
      ensures Valid() && Columns() == NumColumns(m) && Free() == FreeOffset(m) + |value|
      ensures Table() == WithCell(TableOf(m, layout), row, column,
                                  if kind == TYPE_STRING then String(value) else Blob(value))
    {
      hide U32, Chain, Rows, Disjoint, TableOf, CellAt;
      FieldBounds(m, layout, row, column);
      ghost var a := mData[..];
      SameWord(m, a, 4);
      SameWord(m, a, 8);
      SameWord(m, a, 12);
      Store(offset, value);
      SameWord(a, mData[..], 0);
      SameWord(a, mData[..], 4);
      SameWord(a, mData[..], 8);
      StoreU32(fieldSlot, kind);
      StoreU32(fieldSlot + 4, offset);
      StoreU32(fieldSlot + 8, |value|);
      BufferCell(mData[..], fieldSlot, offset, value);
      WriteField(m, mData[..], layout, row, column);
    }

    /** Writes a slot that points to no buffer: its type and the eight bytes of its union. */
    method StoreScalar(row: nat, column: nat, fieldSlot: nat, kind: nat, data: seq<byte>)
      requires Valid() && HasCell(row, column) && fieldSlot == FieldOf(layout, row, column)
      requires kind < TYPE_STRING && |data| == 8
      modifies mData
      ensures Valid() && Columns() == old(Columns()) && Free() == old(Free())
      ensures Table() == WithCell(old(Table()), row, column,
                                  if kind == TYPE_INTEGER then Integer(DecodeInt64(data))
                                  else if kind == TYPE_FLOAT then Float(data) else Null)
    {
      hide U32, Chain, Rows, Disjoint, TableOf;
      ghost var m := mData[..];
      FieldBounds(m, layout, row, column);
      StoreU32(fieldSlot, kind);
      ghost var a := mData[..];
      Store(fieldSlot + 4, data);
      SameWord(a, mData[..], 0);
      SameWord(a, mData[..], 4);
      SameWord(a, mData[..], 8);
      SameWord(a, mData[..], fieldSlot);
      assert mData[fieldSlot + 4..fieldSlot + 12] == data;
      WriteField(m, mData[..], layout, row, column);
    }

    method PutLong(row: nat, column: nat, value: int64) returns (status: Status)
      requires Valid()
      modifies mData
      ensures PutDone(row, column, Integer(value), status)
    {
      if mReadOnly {
        return InvalidOperation;
      }
      var fieldSlot := GetFieldSlot(row, column);
      if fieldSlot == 0 {
        return BadValue;
      }
      Int64RoundTrip(value);
      StoreScalar(row, column, fieldSlot, TYPE_INTEGER, EncodeInt64(value));
      return OK;
    }

    method PutDouble(row: nat, column: nat, bits: seq<byte>) returns (status: Status)
      requires Valid() && |bits| == 8
      modifies mData
      ensures PutDone(row, column, Float(bits), status)
    {
      if mReadOnly {
        return InvalidOperation;
      }
      var fieldSlot := GetFieldSlot(row, column);
      if fieldSlot == 0 {
        return BadValue;
      }
      StoreScalar(row, column, fieldSlot, TYPE_FLOAT, bits);
      return OK;
    }

    method PutNull(row: nat, column: nat) returns (status: Status)
      requires Valid()
      modifies mData
      ensures PutDone(row, column, Null, status)
    {
      if mReadOnly {
        return InvalidOperation;
      }
      var fieldSlot := GetFieldSlot(row, column);
      if fieldSlot == 0 {
        return BadValue;
      }
      StoreScalar(row, column, fieldSlot, TYPE_NULL, Encode(0, 8));
      return OK;
    }

    /** Reads a cell back: looks up its slot, then its type and the value that the type calls for. */
    method Get(row: nat, column: nat) returns (found: bool, cell: Cell)
      requires Valid()
      ensures found <==> HasCell(row, column)
      ensures found ==> cell == Table()[row][column]
    {
      hide Chain, Disjoint;
      cell := Null;
      var fieldSlot := GetFieldSlot(row, column);
      if fieldSlot == 0 {
        return false, Null;
      }
      found := true;
      var kind := Load(fieldSlot);
      if kind == TYPE_INTEGER {
        cell := Integer(DecodeInt64(mData[fieldSlot + 4..fieldSlot + 12]));
      } else if kind == TYPE_FLOAT {
        cell := Float(mData[fieldSlot + 4..fieldSlot + 12]);
      } else if kind == TYPE_STRING || kind == TYPE_BLOB {
        BufferBounds(mData[..], layout, row, column);
        var offset, size := Load(fieldSlot + 4), Load(fieldSlot + 8);
        var data := mData[offset..offset + size];
        cell := if kind == TYPE_STRING then String(data) else Blob(data);
      }
    }
  }
}
