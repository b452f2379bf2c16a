/** The layout of a cursor window inside its one flat buffer, described on byte sequences:
    what is live where, the table of cells it stands for, and how each kind of write changes that table. */
module WindowLayout {
  import opened Bytes

  // Offsets and sizes of the structs at the start of, and inside, the buffer.

  const TYPE_NULL := 0
  const TYPE_INTEGER := 1
  const TYPE_FLOAT := 2
  const TYPE_STRING := 3
  const TYPE_BLOB := 4

  /** The content of one cell. A double is its eight bytes. */
  datatype Cell =
    | Null
    | Integer(value: int64)
    | Float(bits: seq<byte>)
    | String(text: seq<byte>)
    | Blob(data: seq<byte>)

  type Table = seq<seq<Cell>>

  /** Where the chunks of the row-slot list and the field directories of the rows are. */
  datatype Layout = Layout(chunks: seq<nat>, dirs: seq<nat>)

  // ---------- Reading the buffer ----------

  ghost function FreeOffset(m: seq<byte>): nat
    requires |m| >= 16
  {
    U32(m, 0)
  }

  ghost function NumRows(m: seq<byte>): nat
    requires |m| >= 16
  {
    U32(m, 8)
  }

  ghost function NumColumns(m: seq<byte>): nat
    requires |m| >= 16
  {
    U32(m, 12)
  }

  /** The slot that the chunk list gives to row `r`. */
  ghost function SlotOf(chunks: seq<nat>, r: nat): nat
    requires r < 100 * |chunks|
  {
    chunks[r / 100] + 4 * (r % 100)
  }

  /** The offset of the field slot of row `r` and column `c`. */
  ghost function FieldOf(l: Layout, r: nat, c: nat): nat
    requires r < |l.dirs|
  {
    l.dirs[r] + 12 * c
  }

  ghost predicate IsBuffer(m: seq<byte>, s: nat) {
    s + 12 <= |m| && (U32(m, s) == TYPE_STRING || U32(m, s) == TYPE_BLOB)
  }

  /** The cell described by the field slot at offset `s`. */
  ghost function CellAt(m: seq<byte>, s: nat): Cell {
    if s + 12 > |m| then Null
    else
      var t := U32(m, s);
      if t == TYPE_INTEGER then Integer(DecodeInt64(m[s + 4..s + 12]))
      else if t == TYPE_FLOAT then Float(m[s + 4..s + 12])
      else if (t == TYPE_STRING || t == TYPE_BLOB) && U32(m, s + 4) + U32(m, s + 8) <= |m| then
        var b := m[U32(m, s + 4)..U32(m, s + 4) + U32(m, s + 8)];
        if t == TYPE_STRING then String(b) else Blob(b)
      else Null
  }

  ghost function RowAt(m: seq<byte>, dir: nat, columns: nat): (row: seq<Cell>)
    ensures |row| == columns
  {
    seq(columns, (c: nat) => CellAt(m, dir + 12 * c))
  }

  ghost function TableOf(m: seq<byte>, l: Layout): (t: Table)
    requires |m| >= 16
    ensures |t| == |l.dirs| && forall r :: 0 <= r < |t| ==> |t[r]| == NumColumns(m)
  {
    seq(|l.dirs|, (r: nat) requires r < |l.dirs| => RowAt(m, l.dirs[r], NumColumns(m)))
  }

  function NullRow(columns: nat): seq<Cell> {
    seq(columns, _ => Null)
  }

  // ---------- What is live ----------

  /** The parts of the buffer that hold data. */
  datatype Region =
    | HeaderRegion
    | ChunkRegion(i: nat)
    | DirRegion(row: nat)
    | BufferRegion(r: nat, c: nat)

  ghost predicate Live(m: seq<byte>, l: Layout, x: Region)
    requires |m| >= 16
  {
    match x
    case HeaderRegion => true
    case ChunkRegion(i) => i < |l.chunks|
    case DirRegion(r) => r < |l.dirs|
    case BufferRegion(r, c) => r < |l.dirs| && c < NumColumns(m) && IsBuffer(m, FieldOf(l, r, c))
  }

  ghost function Start(m: seq<byte>, l: Layout, x: Region): nat
    requires |m| >= 16 && Live(m, l, x)
  {
    match x
    case HeaderRegion => 0
    case ChunkRegion(i) => l.chunks[i]
    case DirRegion(r) => l.dirs[r]
    case BufferRegion(r, c) => U32(m, FieldOf(l, r, c) + 4)
  }

  ghost function Length(m: seq<byte>, l: Layout, x: Region): nat
    requires |m| >= 16 && Live(m, l, x)
  {
    match x
    case HeaderRegion => 16
    case ChunkRegion(i) => 404
    case DirRegion(r) => 12 * NumColumns(m)
    case BufferRegion(r, c) => U32(m, FieldOf(l, r, c) + 8)
  }

  ghost predicate Apart(a: nat, aLength: nat, b: nat, bLength: nat) {
    a + aLength <= b || b + bLength <= a
  }

  /** Every live part lies below the free offset, and no two of them overlap. */
  ghost predicate Disjoint(m: seq<byte>, l: Layout)
    requires |m| >= 16
  {
    && (forall x :: Live(m, l, x) ==> Start(m, l, x) + Length(m, l, x) <= FreeOffset(m))
    && (forall x, y :: Live(m, l, x) && Live(m, l, y) && x != y
          ==> Apart(Start(m, l, x), Length(m, l, x), Start(m, l, y), Length(m, l, y)))
  }

  /** Chunk `i` points to the next one, which lies above it. */
  ghost predicate Link(m: seq<byte>, chunks: seq<nat>, i: nat) {
    && i + 1 < |chunks|
    && chunks[i] + 404 <= chunks[i + 1]
    && chunks[i] + 404 <= |m|
    && U32(m, chunks[i] + 400) == chunks[i + 1]
  }

  /** The chunk list as linked in memory: it starts right after the header, grows upwards and ends with 0. */
  ghost predicate Chain(m: seq<byte>, chunks: seq<nat>) {
    && |chunks| > 0 && chunks[0] == 16
    && (forall i :: 0 <= i < |chunks| ==> chunks[i] % 4 == 0 && 16 <= chunks[i] && chunks[i] + 404 <= |m|)
    && (forall i :: 0 <= i < |chunks| - 1 ==> Link(m, chunks, i))
    && U32(m, chunks[|chunks| - 1] + 400) == 0
  }

  /** Every row's slot holds the offset of its field directory, and every field has a known type. */
  ghost predicate Rows(m: seq<byte>, l: Layout)
    requires |m| >= 16 && Chain(m, l.chunks)
  {
    && |l.dirs| <= 100 * |l.chunks|
    && (forall r :: 0 <= r < |l.dirs| ==>
          && l.dirs[r] % 4 == 0
          && l.dirs[r] + 12 * NumColumns(m) <= |m|
          && U32(m, SlotOf(l.chunks, r)) == l.dirs[r])
    && (forall r: nat, c: nat :: r < |l.dirs| && c < NumColumns(m) ==>
          U32(m, FieldOf(l, r, c)) <= TYPE_BLOB)
  }

  /** The invariant of a window, except that the header's row count is left open. */
  ghost predicate Wf(m: seq<byte>, l: Layout) {
    && 16 + 404 <= |m| < 0x8000_0000
    && FreeOffset(m) <= |m|
    && U32(m, 4) == 16
    && Chain(m, l.chunks)
    && Rows(m, l)
    && Disjoint(m, l)
  }

  /** The chunks fit in the buffer, so the row count always fits its 32-bit field. */
  lemma {:induction false} ChunkPosition(m: seq<byte>, chunks: seq<nat>, i: nat)
    requires Chain(m, chunks) && i < |chunks|
    ensures chunks[i] >= 16 + 404 * i
  {
    if i > 0 {
      ChunkPosition(m, chunks, i - 1);
      assert Link(m, chunks, i - 1);
    }
  }

  lemma SlotInChunk(chunks: seq<nat>, r: nat, j: nat)
    requires j < |chunks| && 100 * j <= r < 100 * (j + 1)
    ensures SlotOf(chunks, r) == chunks[j] + 4 * (r - 100 * j)
  {
  }

  /** A link is 0 exactly at the end of the list. */
  lemma NextLink(m: seq<byte>, chunks: seq<nat>, j: nat)
    requires Chain(m, chunks) && j < |chunks|
    ensures chunks[0] == 16 && chunks[j] >= 16 && chunks[j] + 404 <= |m| && (j + 1 < |chunks| ==> chunks[j + 1] >= 16)
    ensures U32(m, chunks[j] + 400) == if j + 1 < |chunks| then chunks[j + 1] else 0
  {
    if j + 1 < |chunks| {
      assert Link(m, chunks, j);
    }
  }

  /** Two different rows never share a row slot, and all slots lie inside their chunk. */
  lemma SlotsDistinct(m: seq<byte>, chunks: seq<nat>, r: nat, s: nat)
    requires Chain(m, chunks) && r < s < 100 * |chunks|
    ensures SlotOf(chunks, r) + 4 <= SlotOf(chunks, s)
  {
    if r / 100 < s / 100 {
      ChunksApart(m, chunks, r / 100, s / 100);
    }
  }

  lemma {:induction false} ChunksApart(m: seq<byte>, chunks: seq<nat>, i: nat, j: nat)
    requires Chain(m, chunks) && i < j < |chunks|
    ensures chunks[i] + 404 <= chunks[j]
  {
    assert Link(m, chunks, j - 1);
    if i + 1 < j {
      ChunksApart(m, chunks, i, j - 1);
    }
  }

  // ---------- How writes change the table ----------

  /** `m` and `n` hold the same bytes from `lo` up to `hi`. */
  ghost predicate Same(m: seq<byte>, n: seq<byte>, lo: nat, hi: nat) {
    |m| == |n| && forall i :: lo <= i < hi && i < |m| ==> m[i] == n[i]
  }

  lemma SameWord(m: seq<byte>, n: seq<byte>, o: nat)
    requires o + 4 <= |m| && Same(m, n, o, o + 4)
    ensures U32(m, o) == U32(n, o)
  {
    assert m[o..o + 4] == n[o..o + 4];
  }

  /** A field slot, and the buffer it points to, are unchanged: so is the cell. */
  lemma SameCell(m: seq<byte>, n: seq<byte>, s: nat)
    requires s + 12 <= |m| && Same(m, n, s, s + 12)
    requires IsBuffer(m, s) ==> Same(m, n, U32(m, s + 4), U32(m, s + 4) + U32(m, s + 8))
    ensures CellAt(m, s) == CellAt(n, s) && U32(m, s) == U32(n, s)
    ensures U32(m, s + 4) == U32(n, s + 4) && U32(m, s + 8) == U32(n, s + 8)
  {
    SameWord(m, n, s);
    SameWord(m, n, s + 4);
    SameWord(m, n, s + 8);
    assert m[s + 4..s + 12] == n[s + 4..s + 12];
    var o, k := U32(m, s + 4), U32(m, s + 8);
    if IsBuffer(m, s) && o + k <= |m| {
      assert m[o..o + k] == n[o..o + k];
    }
  }

  /** `n` differs from `m` below the free offset only in the header's first words and in `[w, w + k)`. */
  ghost predicate SameExcept(m: seq<byte>, n: seq<byte>, w: nat, k: nat)
    requires |m| >= 16
  {
    && |m| == |n|
    && U32(n, 4) == 16
    && FreeOffset(m) <= FreeOffset(n) <= |n|
    && (forall i :: 12 <= i < FreeOffset(m) && i < |m| && !(w <= i < w + k) ==> m[i] == n[i])
  }

  ghost predicate SameSlot(m: seq<byte>, n: seq<byte>, s: nat)
    requires s + 12 <= |m| && s + 12 <= |n|
  {
    && CellAt(m, s) == CellAt(n, s)
    && U32(m, s) == U32(n, s) && U32(m, s + 4) == U32(n, s + 4) && U32(m, s + 8) == U32(n, s + 8)
  }

  lemma FieldKept(m: seq<byte>, n: seq<byte>, l: Layout, w: nat, k: nat, r: nat, c: nat)
    requires Wf(m, l) && SameExcept(m, n, w, k) && r < |l.dirs| && c < NumColumns(m)
    requires Apart(w, k, FieldOf(l, r, c), 12)
    requires IsBuffer(m, FieldOf(l, r, c)) ==>
               Apart(w, k, U32(m, FieldOf(l, r, c) + 4), U32(m, FieldOf(l, r, c) + 8))
    ensures SameSlot(m, n, FieldOf(l, r, c))
  {
    hide U32;
    var s := FieldOf(l, r, c);
    assert Live(m, l, DirRegion(r)) && Live(m, l, HeaderRegion);
    assert Apart(Start(m, l, DirRegion(r)), Length(m, l, DirRegion(r)), 0, 16);
    if IsBuffer(m, s) {
      var x := BufferRegion(r, c);
      assert Live(m, l, x);
      assert Apart(Start(m, l, x), Length(m, l, x), 0, 16);
    }
    SameCell(m, n, s);
  }

  /** What a write inside chunk `i` (or none at all, with `k == 0`) leaves alone: every field of every row. */
  lemma FieldsKept(m: seq<byte>, n: seq<byte>, l: Layout, i: nat, w: nat, k: nat)
    requires Wf(m, l) && SameExcept(m, n, w, k)
    requires i < |l.chunks| && l.chunks[i] <= w && w + k <= l.chunks[i] + 404
    ensures NumColumns(n) == NumColumns(m)
    ensures forall r: nat, c: nat :: r < |l.dirs| && c < NumColumns(m) ==> SameSlot(m, n, FieldOf(l, r, c))
    ensures forall x :: Live(m, l, x) <==> Live(n, l, x)
    ensures forall x :: Live(m, l, x) ==> Start(m, l, x) == Start(n, l, x) && Length(m, l, x) == Length(n, l, x)
    ensures TableOf(n, l) == TableOf(m, l)
  {
    hide U32;
    SlotInLive(m, l, i);
    SameWord(m, n, 12);
    forall r: nat, c: nat | r < |l.dirs| && c < NumColumns(m)
      ensures SameSlot(m, n, FieldOf(l, r, c))
    {
      assert Live(m, l, DirRegion(r));
      if IsBuffer(m, FieldOf(l, r, c)) {
        assert Live(m, l, BufferRegion(r, c));
      }
      FieldKept(m, n, l, w, k, r, c);
    }
    TableKept(m, n, l);
  }

  lemma SlotInLive(m: seq<byte>, l: Layout, i: nat)
    requires Wf(m, l) && i < |l.chunks|
    ensures Live(m, l, ChunkRegion(i)) && Live(m, l, HeaderRegion)
    ensures 16 <= l.chunks[i] && l.chunks[i] + 404 <= FreeOffset(m)
  {
    ChunkPosition(m, l.chunks, i);
    assert Start(m, l, ChunkRegion(i)) + Length(m, l, ChunkRegion(i)) <= FreeOffset(m);
  }

  lemma TableKept(m: seq<byte>, n: seq<byte>, l: Layout)
    requires |m| >= 16 && |n| >= 16 && NumColumns(n) == NumColumns(m)
    requires forall r: nat, c: nat :: r < |l.dirs| && c < NumColumns(m) ==>
               CellAt(m, FieldOf(l, r, c)) == CellAt(n, FieldOf(l, r, c))
    ensures TableOf(n, l) == TableOf(m, l)
  {
    forall r | 0 <= r < |l.dirs|
      ensures RowAt(m, l.dirs[r], NumColumns(m)) == RowAt(n, l.dirs[r], NumColumns(m))
    {
      forall c | 0 <= c < NumColumns(m)
        ensures RowAt(m, l.dirs[r], NumColumns(m))[c] == RowAt(n, l.dirs[r], NumColumns(m))[c]
      {
        assert CellAt(m, FieldOf(l, r, c)) == CellAt(n, FieldOf(l, r, c));
      }
    }
  }

  /** A word in a chunk outside `[w, w + k)` reads the same. */
  lemma ChunkWordKept(m: seq<byte>, n: seq<byte>, l: Layout, w: nat, k: nat, i: nat, d: nat)
    requires Wf(m, l) && SameExcept(m, n, w, k)
    requires i < |l.chunks| && d + 4 <= 404 && Apart(w, k, l.chunks[i] + d, 4)
    ensures U32(n, l.chunks[i] + d) == U32(m, l.chunks[i] + d)
  {
    hide U32, Disjoint, Rows;
    SlotInLive(m, l, i);
    SameWord(m, n, l.chunks[i] + d);
  }

  /** Links and slots outside `[w, w + k)` read the same. */
  lemma ChainKept(m: seq<byte>, n: seq<byte>, l: Layout, w: nat, k: nat)
    requires Wf(m, l) && SameExcept(m, n, w, k)
    ensures forall i :: 0 <= i < |l.chunks| - 1 && Apart(w, k, l.chunks[i] + 400, 4) ==> Link(n, l.chunks, i)
    ensures var e := l.chunks[|l.chunks| - 1] + 400; Apart(w, k, e, 4) ==> U32(n, e) == 0
    ensures forall r: nat :: r < |l.dirs| && Apart(w, k, SlotOf(l.chunks, r), 4) ==>
              U32(n, SlotOf(l.chunks, r)) == l.dirs[r]
  {
    hide U32, Disjoint, Rows;
    forall i | 0 <= i < |l.chunks| - 1 && Apart(w, k, l.chunks[i] + 400, 4)
      ensures Link(n, l.chunks, i)
    {
      assert Link(m, l.chunks, i);
      ChunkWordKept(m, n, l, w, k, i, 400);
    }
    var last := |l.chunks| - 1;
    if Apart(w, k, l.chunks[last] + 400, 4) {
      ChunkWordKept(m, n, l, w, k, last, 400);
    }
    SlotsKept(m, n, l, w, k);
  }

  lemma SlotsKept(m: seq<byte>, n: seq<byte>, l: Layout, w: nat, k: nat)
    requires Wf(m, l) && SameExcept(m, n, w, k)
    ensures forall r: nat :: r < |l.dirs| && Apart(w, k, SlotOf(l.chunks, r), 4) ==>
              U32(n, SlotOf(l.chunks, r)) == l.dirs[r]
  {
    hide U32, Disjoint;
    forall r: nat | r < |l.dirs| && Apart(w, k, SlotOf(l.chunks, r), 4)
      ensures U32(n, SlotOf(l.chunks, r)) == l.dirs[r]
    {
      ChunkWordKept(m, n, l, w, k, r / 100, 4 * (r % 100));
    }
  }

  /** `x` was live before at the same place. */
  ghost predicate Old(m: seq<byte>, l: Layout, n: seq<byte>, l': Layout, x: Region)
    requires |m| >= 16 && |n| >= 16 && Live(n, l', x)
  {
    Live(m, l, x) && Start(m, l, x) == Start(n, l', x) && Length(m, l, x) == Length(n, l', x)
  }

  /** If every live part but `added` was there before, and `added` was just allocated, all is still disjoint. */
  lemma StaysDisjoint(m: seq<byte>, l: Layout, n: seq<byte>, l': Layout, added: Region)
    requires |m| >= 16 && |n| >= 16 && Disjoint(m, l) && FreeOffset(m) <= FreeOffset(n)
    requires forall x :: Live(n, l', x) && x != added ==> Old(m, l, n, l', x)
    requires Live(n, l', added) ==>
               FreeOffset(m) <= Start(n, l', added) && Start(n, l', added) + Length(n, l', added) <= FreeOffset(n)
    ensures Disjoint(n, l')
  {
    forall x | Live(n, l', x)
      ensures Start(n, l', x) + Length(n, l', x) <= FreeOffset(n)
    {
      if x != added { assert Old(m, l, n, l', x); }
    }
    forall x, y | Live(n, l', x) && Live(n, l', y) && x != y
      ensures Apart(Start(n, l', x), Length(n, l', x), Start(n, l', y), Length(n, l', y))
    {
      assert x != added ==> Old(m, l, n, l', x);
      assert y != added ==> Old(m, l, n, l', y);
    }
  }

  /** Row slots and field types carry over to another chunk list that gives the rows the same slots. */
  lemma RowsCarry(m: seq<byte>, n: seq<byte>, l: Layout, chunks: seq<nat>)
    requires Wf(m, l) && |n| == |m| && NumColumns(n) == NumColumns(m) && Chain(n, chunks)
    requires |l.dirs| <= 100 * |chunks|
    requires forall r: nat :: r < |l.dirs| ==>
               SlotOf(chunks, r) == SlotOf(l.chunks, r) && U32(n, SlotOf(l.chunks, r)) == l.dirs[r]
    requires forall r: nat, c: nat :: r < |l.dirs| && c < NumColumns(m) ==> SameSlot(m, n, FieldOf(l, r, c))
    ensures Rows(n, l.(chunks := chunks))
  {
    var l' := l.(chunks := chunks);
    forall r: nat, c: nat | r < |l.dirs| && c < NumColumns(n)
      ensures U32(n, FieldOf(l', r, c)) <= TYPE_BLOB
    {
      assert SameSlot(m, n, FieldOf(l, r, c));
    }
  }

  /** Rows and disjointness survive a write to a word of the chunk list that is no live row's slot. */
  lemma Kept(m: seq<byte>, n: seq<byte>, l: Layout, i: nat, w: nat, k: nat)
    requires Wf(m, l) && SameExcept(m, n, w, k) && Chain(n, l.chunks)
    requires i < |l.chunks| && l.chunks[i] <= w && w + k <= l.chunks[i] + 404
    requires forall r: nat :: r < |l.dirs| ==> Apart(w, k, SlotOf(l.chunks, r), 4)
    ensures Wf(n, l) && TableOf(n, l) == TableOf(m, l) && NumColumns(n) == NumColumns(m)
    ensures forall x :: Live(n, l, x) ==> Old(m, l, n, l, x)
  {
    FieldsKept(m, n, l, i, w, k);
    assert Rows(n, l) by {
      ChainKept(m, n, l, w, k);
      RowsCarry(m, n, l, l.chunks);
    }
    assert Disjoint(n, l) by {
      forall x | Live(n, l, x) ensures Old(m, l, n, l, x) {}
      StaysDisjoint(m, l, n, l, ChunkRegion(|l.chunks|));
    }
  }

  /** Allocating, and writing only to what was allocated, changes nothing. */
  lemma Grow(m: seq<byte>, n: seq<byte>, l: Layout)
    requires Wf(m, l) && SameExcept(m, n, 16, 0)
    ensures Wf(n, l) && TableOf(n, l) == TableOf(m, l) && NumColumns(n) == NumColumns(m)
  {
    ChainKept(m, n, l, 16, 0);
    Kept(m, n, l, 0, 16, 0);
  }

  /** Linking a fresh chunk behind the last one changes no cell. */
  lemma AppendChunk(m: seq<byte>, n: seq<byte>, l: Layout, o: nat)
    requires Wf(m, l) && SameExcept(m, n, l.chunks[|l.chunks| - 1] + 400, 4)
    requires FreeOffset(m) <= o && o % 4 == 0 && o + 404 <= FreeOffset(n)
    requires U32(n, l.chunks[|l.chunks| - 1] + 400) == o && U32(n, o + 400) == 0
    ensures var l' := l.(chunks := l.chunks + [o]);
            Wf(n, l') && TableOf(n, l') == TableOf(m, l) && NumColumns(n) == NumColumns(m)
  {
    var last := |l.chunks| - 1;
    var w := l.chunks[last] + 400;
    var l' := l.(chunks := l.chunks + [o]);
    FieldsKept(m, n, l, last, w, 4);
    assert TableOf(n, l') == TableOf(n, l);
    AppendChunkChain(m, n, l, o);
    AppendChunkRows(m, n, l, o);
    assert Disjoint(n, l') by {
      forall x | Live(n, l', x) && x != ChunkRegion(last + 1) ensures Old(m, l, n, l', x) {
        assert Live(n, l, x);
      }
      StaysDisjoint(m, l, n, l', ChunkRegion(last + 1));
    }
  }

  lemma AppendChunkChain(m: seq<byte>, n: seq<byte>, l: Layout, o: nat)
    requires Wf(m, l) && SameExcept(m, n, l.chunks[|l.chunks| - 1] + 400, 4)
    requires FreeOffset(m) <= o && o % 4 == 0 && o + 404 <= FreeOffset(n)
    requires U32(n, l.chunks[|l.chunks| - 1] + 400) == o && U32(n, o + 400) == 0
    ensures Chain(n, l.chunks + [o])
  {
    hide U32, Disjoint, Rows, SlotOf;
    SlotInLive(m, l, |l.chunks| - 1);
    AppendedLinks(m, n, l, o);
  }

  lemma AppendedLinks(m: seq<byte>, n: seq<byte>, l: Layout, o: nat)
    requires Wf(m, l) && SameExcept(m, n, l.chunks[|l.chunks| - 1] + 400, 4)
    ensures forall i :: 0 <= i < |l.chunks| - 1 ==> Link(n, l.chunks + [o], i)
  {
    hide U32, Disjoint, Rows, SlotOf;
    var last := |l.chunks| - 1;
    ChainKept(m, n, l, l.chunks[last] + 400, 4);
    forall i | 0 <= i < last ensures Link(n, l.chunks + [o], i) {
      ChunksApart(m, l.chunks, i, last);
      assert Link(n, l.chunks, i);
    }
  }

  lemma AppendChunkRows(m: seq<byte>, n: seq<byte>, l: Layout, o: nat)
    requires Wf(m, l) && SameExcept(m, n, l.chunks[|l.chunks| - 1] + 400, 4)
    requires Chain(n, l.chunks + [o]) && NumColumns(n) == NumColumns(m)
    requires forall r: nat, c: nat :: r < |l.dirs| && c < NumColumns(m) ==> SameSlot(m, n, FieldOf(l, r, c))
    ensures Rows(n, l.(chunks := l.chunks + [o]))
  {
    hide U32, Disjoint;
    var last := |l.chunks| - 1;
    var w := l.chunks[last] + 400;
    var l' := l.(chunks := l.chunks + [o]);
    ChainKept(m, n, l, w, 4);
    forall r: nat | r < |l.dirs| ensures Apart(w, 4, SlotOf(l.chunks, r), 4) {
      if r / 100 < last { ChunksApart(m, l.chunks, r / 100, last); }
    }
    RowsCarry(m, n, l, l.chunks + [o]);
  }

  /** Cutting the chunk list after chunk `j`, when no row has its slot further on, changes no cell. */
  lemma CutChunks(m: seq<byte>, n: seq<byte>, l: Layout, j: nat)
    requires Wf(m, l) && j < |l.chunks| && |l.dirs| <= 100 * (j + 1)
    requires SameExcept(m, n, l.chunks[j] + 400, 4) && U32(n, l.chunks[j] + 400) == 0
    ensures var l' := l.(chunks := l.chunks[..j + 1]);
            Wf(n, l') && TableOf(n, l') == TableOf(m, l) && NumColumns(n) == NumColumns(m)
  {
    hide U32, Chain, Rows;
    var w := l.chunks[j] + 400;
    var l' := l.(chunks := l.chunks[..j + 1]);
    FieldsKept(m, n, l, j, w, 4);
    assert TableOf(n, l') == TableOf(n, l);
    CutChain(m, n, l, j);
    CutRows(m, n, l, j);
    assert Disjoint(n, l') by {
      forall x | Live(n, l', x) ensures Old(m, l, n, l', x) {
        assert Live(n, l, x);
      }
      StaysDisjoint(m, l, n, l', ChunkRegion(j + 1));
    }
  }

  lemma CutChain(m: seq<byte>, n: seq<byte>, l: Layout, j: nat)
    requires Wf(m, l) && j < |l.chunks|
    requires SameExcept(m, n, l.chunks[j] + 400, 4) && U32(n, l.chunks[j] + 400) == 0
    ensures Chain(n, l.chunks[..j + 1])
  {
    hide U32, Disjoint, Rows;
    ChainKept(m, n, l, l.chunks[j] + 400, 4);
    var chunks := l.chunks[..j + 1];
    forall i | 0 <= i < j ensures Link(n, chunks, i) {
      ChunksApart(m, l.chunks, i, j);
      assert Link(n, l.chunks, i);
    }
  }

  lemma CutRows(m: seq<byte>, n: seq<byte>, l: Layout, j: nat)
    requires Wf(m, l) && j < |l.chunks| && |l.dirs| <= 100 * (j + 1)
    requires SameExcept(m, n, l.chunks[j] + 400, 4) && NumColumns(n) == NumColumns(m)
    requires Chain(n, l.chunks[..j + 1])
    requires forall r: nat, c: nat :: r < |l.dirs| && c < NumColumns(m) ==> SameSlot(m, n, FieldOf(l, r, c))
    ensures Rows(n, l.(chunks := l.chunks[..j + 1]))
  {
    hide U32, Disjoint;
    var w := l.chunks[j] + 400;
    ChainKept(m, n, l, w, 4);
    forall r: nat | r < |l.dirs| ensures Apart(w, 4, SlotOf(l.chunks, r), 4) {
      if r / 100 < j { ChunksApart(m, l.chunks, r / 100, j); }
    }
    RowsCarry(m, n, l, l.chunks[..j + 1]);
  }

  /** Storing a fresh, zeroed directory in the next row slot adds a row of nulls. */
  lemma AppendRow(m: seq<byte>, n: seq<byte>, l: Layout, d: nat)
    requires Wf(m, l) && |l.dirs| < 100 * |l.chunks|
    requires SameExcept(m, n, SlotOf(l.chunks, |l.dirs|), 4) && U32(n, SlotOf(l.chunks, |l.dirs|)) == d
    requires FreeOffset(m) <= d && d % 4 == 0 && d + 12 * NumColumns(m) <= FreeOffset(n)
    requires forall i :: d <= i < d + 12 * NumColumns(m) && i < |n| ==> n[i] == 0
    ensures var l' := l.(dirs := l.dirs + [d]);
            && Wf(n, l') && TableOf(n, l') == TableOf(m, l) + [NullRow(NumColumns(m))]
            && NumColumns(n) == NumColumns(m)
  {
    hide U32;
    NextSlotIsFree(m, n, l);
    hide Chain, Rows, Disjoint, SlotOf, TableOf;
    Kept(m, n, l, |l.dirs| / 100, SlotOf(l.chunks, |l.dirs|), 4);
    forall x | Live(n, l, x) ensures Start(n, l, x) + Length(n, l, x) <= d {
      assert Old(m, l, n, l, x);
      BelowFree(m, l, x);
    }
    NewRow(n, l, d);
  }

  lemma BelowFree(m: seq<byte>, l: Layout, x: Region)
    requires Wf(m, l) && Live(m, l, x)
    ensures Start(m, l, x) + Length(m, l, x) <= FreeOffset(m)
  {
  }

  /** The next row's slot is no live row's, and writing it leaves the chunk list as it is. */
  lemma NextSlotIsFree(m: seq<byte>, n: seq<byte>, l: Layout)
    requires Wf(m, l) && |l.dirs| < 100 * |l.chunks| && SameExcept(m, n, SlotOf(l.chunks, |l.dirs|), 4)
    ensures var w := SlotOf(l.chunks, |l.dirs|);
            && Chain(n, l.chunks) && (forall r: nat :: r < |l.dirs| ==> Apart(w, 4, SlotOf(l.chunks, r), 4))
            && l.chunks[|l.dirs| / 100] <= w && w + 4 <= l.chunks[|l.dirs| / 100] + 404
  {
    hide U32, Rows, Disjoint, SlotOf, Apart;
    var k := |l.dirs|;
    SlotInChunk(l.chunks, k, k / 100);
    forall r: nat | r < k ensures Apart(SlotOf(l.chunks, k), 4, SlotOf(l.chunks, r), 4) {
      NextSlotApart(m, l, r);
    }
    NextSlotOffLinks(m, l);
    ChainKept(m, n, l, SlotOf(l.chunks, k), 4);
  }

  lemma NextSlotApart(m: seq<byte>, l: Layout, r: nat)
    requires Wf(m, l) && r < |l.dirs| < 100 * |l.chunks|
    ensures Apart(SlotOf(l.chunks, |l.dirs|), 4, SlotOf(l.chunks, r), 4)
  {
    SlotsDistinct(m, l.chunks, r, |l.dirs|);
  }

  lemma NextSlotOffLinks(m: seq<byte>, l: Layout)
    requires Wf(m, l) && |l.dirs| < 100 * |l.chunks|
    ensures forall i :: 0 <= i < |l.chunks| ==> Apart(SlotOf(l.chunks, |l.dirs|), 4, l.chunks[i] + 400, 4)
  {
    hide U32, Rows, Disjoint;
    var k := |l.dirs|;
    forall i | 0 <= i < |l.chunks| ensures Apart(SlotOf(l.chunks, k), 4, l.chunks[i] + 400, 4) {
      if i < k / 100 { ChunksApart(m, l.chunks, i, k / 100); }
      if i > k / 100 { ChunksApart(m, l.chunks, k / 100, i); }
    }
  }

  lemma ZeroSlot(n: seq<byte>, s: nat)
    requires s + 12 <= |n| && forall i :: s <= i < s + 12 ==> n[i] == 0
    ensures U32(n, s) == 0 && CellAt(n, s) == Null
  {
    assert n[s..s + 4] == [0, 0, 0, 0] == Encode(0, 4);
    Pow4();
    DecodeEncode(0, 4);
  }

  /** The directory half of `AppendRow`: the slot already points to the zeroed directory `d`. */
  lemma NewRow(n: seq<byte>, l: Layout, d: nat)
    requires Wf(n, l) && |l.dirs| < 100 * |l.chunks| && U32(n, SlotOf(l.chunks, |l.dirs|)) == d
    requires d % 4 == 0 && d + 12 * NumColumns(n) <= FreeOffset(n)
    requires forall i :: d <= i < d + 12 * NumColumns(n) && i < |n| ==> n[i] == 0
    requires forall x :: Live(n, l, x) ==> Start(n, l, x) + Length(n, l, x) <= d
    ensures var l' := l.(dirs := l.dirs + [d]);
            Wf(n, l') && TableOf(n, l') == TableOf(n, l) + [NullRow(NumColumns(n))]
  {
    hide U32;
    var k := |l.dirs|;
    var l' := l.(dirs := l.dirs + [d]);
    forall c: nat | c < NumColumns(n)
      ensures U32(n, FieldOf(l', k, c)) == 0 && CellAt(n, FieldOf(l', k, c)) == Null
    {
      ZeroSlot(n, FieldOf(l', k, c));
    }
    NewRowTable(n, l, d);
    forall r: nat, c: nat | r < |l'.dirs| && c < NumColumns(n)
      ensures U32(n, FieldOf(l', r, c)) <= TYPE_BLOB
    {
      if r < k { assert FieldOf(l', r, c) == FieldOf(l, r, c); }
    }
    forall x | Live(n, l', x) && x != DirRegion(k) ensures Old(n, l, n, l', x) {
      if x.BufferRegion? { assert x.r != k && FieldOf(l', x.r, x.c) == FieldOf(l, x.r, x.c); }
    }
    NewRowDisjoint(n, l, d);
  }

  lemma NewRowTable(n: seq<byte>, l: Layout, d: nat)
    requires |n| >= 16
    requires forall c: nat :: c < NumColumns(n) ==> CellAt(n, FieldOf(l.(dirs := l.dirs + [d]), |l.dirs|, c)) == Null
    ensures TableOf(n, l.(dirs := l.dirs + [d])) == TableOf(n, l) + [NullRow(NumColumns(n))]
  {
    var row := RowAt(n, d, NumColumns(n));
    forall c: nat | c < NumColumns(n) ensures row[c] == Null {
      assert CellAt(n, FieldOf(l.(dirs := l.dirs + [d]), |l.dirs|, c)) == Null;
    }
    assert row == NullRow(NumColumns(n));
  }

  lemma NewRowDisjoint(n: seq<byte>, l: Layout, d: nat)
    requires |n| >= 16 && Disjoint(n, l) && d + 12 * NumColumns(n) <= FreeOffset(n)
    requires forall x :: Live(n, l, x) ==> Start(n, l, x) + Length(n, l, x) <= d
    requires forall x :: Live(n, l.(dirs := l.dirs + [d]), x) && x != DirRegion(|l.dirs|) ==>
               Old(n, l, n, l.(dirs := l.dirs + [d]), x)
    ensures Disjoint(n, l.(dirs := l.dirs + [d]))
  {
    var l' := l.(dirs := l.dirs + [d]);
    var dir := DirRegion(|l.dirs|);
    forall x, y | Live(n, l', x) && Live(n, l', y) && x != y
      ensures Apart(Start(n, l', x), Length(n, l', x), Start(n, l', y), Length(n, l', y))
    {
      assert x != dir ==> Old(n, l, n, l', x);
      assert y != dir ==> Old(n, l, n, l', y);
    }
  }

  /** Dropping the last row leaves the others as they are. */
  lemma DropRow(m: seq<byte>, n: seq<byte>, l: Layout)
    requires Wf(m, l) && |l.dirs| > 0 && SameExcept(m, n, 16, 0)
    ensures var l' := l.(dirs := l.dirs[..|l.dirs| - 1]);
            && Wf(n, l') && TableOf(n, l') == TableOf(m, l)[..|l.dirs| - 1]
            && NumColumns(n) == NumColumns(m)
  {
    var l' := l.(dirs := l.dirs[..|l.dirs| - 1]);
    Grow(m, n, l);
    assert forall r: nat, c: nat :: r < |l'.dirs| ==> FieldOf(l', r, c) == FieldOf(l, r, c);
    forall x | Live(n, l', x) ensures Old(n, l, n, l', x) {
      if x.BufferRegion? { assert FieldOf(l', x.r, x.c) == FieldOf(l, x.r, x.c); }
    }
    StaysDisjoint(n, l, n, l', DirRegion(|l'.dirs|));
  }

  /** Every field but `(r, c)` is unchanged by a write to that field's slot. */
  lemma OtherFieldsKept(m: seq<byte>, n: seq<byte>, l: Layout, r: nat, c: nat)
    requires Wf(m, l) && r < |l.dirs| && c < NumColumns(m) && SameExcept(m, n, FieldOf(l, r, c), 12)
    ensures NumColumns(n) == NumColumns(m)
    ensures forall r': nat, c': nat :: r' < |l.dirs| && c' < NumColumns(m) && (r' != r || c' != c) ==>
              SameSlot(m, n, FieldOf(l, r', c'))
  {
    hide U32;
    assert Live(m, l, DirRegion(r)) && Live(m, l, HeaderRegion);
    SameWord(m, n, 12);
    forall r': nat, c': nat | r' < |l.dirs| && c' < NumColumns(m) && (r' != r || c' != c)
      ensures SameSlot(m, n, FieldOf(l, r', c'))
    {
      assert Live(m, l, DirRegion(r'));
      if IsBuffer(m, FieldOf(l, r', c')) {
        assert Live(m, l, BufferRegion(r', c'));
      }
      FieldKept(m, n, l, FieldOf(l, r, c), 12, r', c');
    }
  }

  /** The chunk list is unchanged by a write to a field slot. */
  lemma ChainUntouched(m: seq<byte>, n: seq<byte>, l: Layout, r: nat, c: nat)
    requires Wf(m, l) && r < |l.dirs| && c < NumColumns(m) && SameExcept(m, n, FieldOf(l, r, c), 12)
    ensures Chain(n, l.chunks)
    ensures forall k: nat :: k < |l.dirs| ==> U32(n, SlotOf(l.chunks, k)) == l.dirs[k]
  {
    var w := FieldOf(l, r, c);
    assert Live(m, l, DirRegion(r));
    forall i | 0 <= i < |l.chunks| ensures Apart(w, 12, l.chunks[i], 404) {
      assert Live(m, l, ChunkRegion(i));
    }
    ChainKept(m, n, l, w, 12);
    forall k: nat | k < |l.dirs| ensures Apart(w, 12, SlotOf(l.chunks, k), 4) {
      assert Live(m, l, ChunkRegion(k / 100));
    }
  }

  /** Writing a field slot, with its buffer if it has one freshly allocated, sets that cell and no other. */
  lemma WriteField(m: seq<byte>, n: seq<byte>, l: Layout, r: nat, c: nat)
    requires Wf(m, l) && r < |l.dirs| && c < NumColumns(m) && SameExcept(m, n, FieldOf(l, r, c), 12)
    requires U32(n, FieldOf(l, r, c)) <= TYPE_BLOB
    requires IsBuffer(n, FieldOf(l, r, c)) ==>
               && FreeOffset(m) <= U32(n, FieldOf(l, r, c) + 4)
               && U32(n, FieldOf(l, r, c) + 4) + U32(n, FieldOf(l, r, c) + 8) <= FreeOffset(n)
    ensures Wf(n, l) && NumColumns(n) == NumColumns(m)
    ensures TableOf(n, l) == TableOf(m, l)[r := TableOf(m, l)[r][c := CellAt(n, FieldOf(l, r, c))]]
  {
    WrittenRows(m, n, l, r, c);
    WrittenDisjoint(m, n, l, r, c);
    ChainUntouched(m, n, l, r, c);
    OtherFieldsKept(m, n, l, r, c);
    hide Chain, Rows, Disjoint, SameSlot;
    WrittenTable(m, n, l, r, c);
  }

  lemma WrittenRows(m: seq<byte>, n: seq<byte>, l: Layout, r: nat, c: nat)
    requires Wf(m, l) && r < |l.dirs| && c < NumColumns(m) && SameExcept(m, n, FieldOf(l, r, c), 12)
    requires U32(n, FieldOf(l, r, c)) <= TYPE_BLOB
    ensures Chain(n, l.chunks) && Rows(n, l)
  {
    hide Disjoint, Chain, U32, CellAt, SlotOf, FreeOffset;
    OtherFieldsKept(m, n, l, r, c);
    ChainUntouched(m, n, l, r, c);
    forall r': nat, c': nat | r' < |l.dirs| && c' < NumColumns(n)
      ensures U32(n, FieldOf(l, r', c')) <= TYPE_BLOB
    {
      if r' != r || c' != c { assert SameSlot(m, n, FieldOf(l, r', c')); }
    }
  }

  lemma WrittenDisjoint(m: seq<byte>, n: seq<byte>, l: Layout, r: nat, c: nat)
    requires Wf(m, l) && r < |l.dirs| && c < NumColumns(m) && SameExcept(m, n, FieldOf(l, r, c), 12)
    requires U32(n, FieldOf(l, r, c)) <= TYPE_BLOB
    requires IsBuffer(n, FieldOf(l, r, c)) ==>
               && FreeOffset(m) <= U32(n, FieldOf(l, r, c) + 4)
               && U32(n, FieldOf(l, r, c) + 4) + U32(n, FieldOf(l, r, c) + 8) <= FreeOffset(n)
    ensures Disjoint(n, l)
  {
    hide Chain, U32, CellAt, SlotOf, TableOf;
    WrittenRows(m, n, l, r, c);
    OtherFieldsKept(m, n, l, r, c);
    forall x | Live(n, l, x) && x != BufferRegion(r, c) ensures Old(m, l, n, l, x) {
      if x.BufferRegion? { assert SameSlot(m, n, FieldOf(l, x.r, x.c)); }
    }
    StaysDisjoint(m, l, n, l, BufferRegion(r, c));
  }

  lemma WrittenTable(m: seq<byte>, n: seq<byte>, l: Layout, r: nat, c: nat)
    requires |m| >= 16 && |n| == |m| && NumColumns(n) == NumColumns(m)
    requires r < |l.dirs| && c < NumColumns(m)
    requires forall r': nat, c': nat :: r' < |l.dirs| && c' < NumColumns(m) && (r' != r || c' != c) ==>
               CellAt(m, FieldOf(l, r', c')) == CellAt(n, FieldOf(l, r', c'))
    ensures TableOf(n, l) == TableOf(m, l)[r := TableOf(m, l)[r][c := CellAt(n, FieldOf(l, r, c))]]
  {
    var t := TableOf(m, l)[r := TableOf(m, l)[r][c := CellAt(n, FieldOf(l, r, c))]];
    forall r': nat | r' < |l.dirs| ensures TableOf(n, l)[r'] == t[r'] {
      forall c': nat | c' < NumColumns(m) ensures TableOf(n, l)[r'][c'] == t[r'][c'] {
        assert r' != r || c' != c ==> CellAt(m, FieldOf(l, r', c')) == CellAt(n, FieldOf(l, r', c'));
      }
      assert TableOf(n, l)[r'] == t[r'];
    }
  }

  /** The column count may be set while there is no row, or to the value it has. */
  lemma SetColumns(m: seq<byte>, n: seq<byte>, l: Layout)
    requires Wf(m, l) && |n| == |m| && forall i :: 0 <= i < |m| && !(12 <= i < 16) ==> m[i] == n[i]
    requires l.dirs == [] || NumColumns(m) == NumColumns(n)
    ensures Wf(n, l) && TableOf(n, l) == TableOf(m, l)
    ensures FreeOffset(n) == FreeOffset(m) && NumRows(n) == NumRows(m)
  {
    SameWord(m, n, 0);
    SameWord(m, n, 4);
    SameWord(m, n, 8);
    if l.dirs == [] {
      assert Chain(n, l.chunks) by {
        forall i | 0 <= i < |l.chunks| - 1 ensures Link(n, l.chunks, i) {
          assert Link(m, l.chunks, i);
          SameWord(m, n, l.chunks[i] + 400);
        }
        SameWord(m, n, l.chunks[|l.chunks| - 1] + 400);
      }
      forall x | Live(n, l, x) ensures Old(m, l, n, l, x) {}
      StaysDisjoint(m, l, n, l, ChunkRegion(|l.chunks|));
    } else {
      EqualWords(m, n, 12);
      assert m == n;
    }
  }

  /** A buffer whose header words are set like this holds the empty table. */
  lemma EmptyWindow(m: seq<byte>)
    requires 16 + 404 <= |m| < 0x8000_0000
    requires U32(m, 0) == 16 + 404 && U32(m, 4) == 16 && U32(m, 8) == 0 && U32(m, 12) == 0 && U32(m, 16 + 400) == 0
    ensures var l := Layout([16], []); Wf(m, l) && NumRows(m) == 0 && TableOf(m, l) == []
  {
  }

  /** A field slot lies in the used part of the buffer, behind the header. */
  lemma FieldBounds(m: seq<byte>, l: Layout, r: nat, c: nat)
    requires Wf(m, l) && r < |l.dirs| && c < NumColumns(m)
    ensures 16 <= FieldOf(l, r, c) && FieldOf(l, r, c) + 12 <= FreeOffset(m)
  {
    assert Live(m, l, DirRegion(r)) && Live(m, l, HeaderRegion);
  }

  lemma BufferCell(m: seq<byte>, s: nat, offset: nat, value: seq<byte>)
    requires s + 12 <= |m| && offset + |value| <= |m| && m[offset..offset + |value|] == value
    requires IsBuffer(m, s) && U32(m, s + 4) == offset && U32(m, s + 8) == |value|
    ensures CellAt(m, s) == if U32(m, s) == TYPE_STRING then String(value) else Blob(value)
  {
  }

  lemma BufferBounds(m: seq<byte>, l: Layout, r: nat, c: nat)
    requires Wf(m, l) && Live(m, l, BufferRegion(r, c))
    ensures U32(m, FieldOf(l, r, c) + 4) + U32(m, FieldOf(l, r, c) + 8) <= |m|
  {
    assert Start(m, l, BufferRegion(r, c)) + Length(m, l, BufferRegion(r, c)) <= FreeOffset(m);
  }
}
