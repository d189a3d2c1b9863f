/**
 * The block buffer behind libtiff's client procedures (tif_custom.c): a
 * forward-only descriptor is drained into 8192-byte blocks so that libtiff
 * can read, seek and size it like a file.
 */
module TiffBuffer {
  import opened DecodeImage
  import opened Common

  /** Bytes per block. */
  const BUF_SIZE: int := 8192

  /** One more than the largest descriptor the table can hold. */
  const MAX_FD: int := 1024

  function Max(a: int, b: int): int { if a < b then b else a }

  // ---------------------------------------------------------------------
  // Blocks and their contents
  // ---------------------------------------------------------------------

  /** Appending to the last block appends to the contents. */
  lemma {:induction false} ConcatGrowLast(rows: seq<seq<int>>, more: seq<int>)
    requires |rows| > 0
    ensures Concat(rows[..|rows| - 1] + [rows[|rows| - 1] + more]) == Concat(rows) + more
  {
    var init, last := rows[..|rows| - 1], rows[|rows| - 1];
    assert rows == init + [last];
    ConcatSnoc(init, last);
    ConcatSnoc(init, last + more);
    assert Concat(init) + (last + more) == (Concat(init) + last) + more;
  }

  /** Every block before index `n` is full. */
  ghost predicate FullBefore(rows: seq<seq<int>>, n: int)
  {
    forall k :: 0 <= k < n && k < |rows| ==> |rows[k]| == BUF_SIZE
  }

  /** Byte `j` of block `r` sits at offset `r * BUF_SIZE + j` of the contents. */
  lemma {:induction false} ConcatIndex(rows: seq<seq<int>>, r: nat, j: nat)
    requires r < |rows| && FullBefore(rows, r) && j < |rows[r]|
    ensures r * BUF_SIZE + j < |Concat(rows)|
    ensures Concat(rows)[r * BUF_SIZE + j] == rows[r][j]
  {
    if r > 0 {
      ConcatIndex(rows[1..], r - 1, j);
      assert rows[1..][r - 1] == rows[r];
    }
  }

  /** The contents of blocks that are full but for the last. */
  lemma {:induction false} ConcatLength(rows: seq<seq<int>>)
    requires |rows| > 0 && FullBefore(rows, |rows| - 1)
    ensures |Concat(rows)| == (|rows| - 1) * BUF_SIZE + |rows[|rows| - 1]|
  {
    if |rows| > 1 {
      ConcatLength(rows[1..]);
    }
  }

  /** A slice inside one block is the same slice of the contents. */
  lemma ConcatSlice(rows: seq<seq<int>>, r: nat, off: nat, len: nat)
    requires r < |rows| && FullBefore(rows, r) && off + len <= |rows[r]| && len > 0
    ensures r * BUF_SIZE + off + len <= |Concat(rows)|
    ensures Concat(rows)[r * BUF_SIZE + off .. r * BUF_SIZE + off + len] == rows[r][off .. off + len]
  {
    ConcatIndex(rows, r, off + len - 1);
    forall i | off <= i < off + len
      ensures Concat(rows)[r * BUF_SIZE + i] == rows[r][i]
    {
      ConcatIndex(rows, r, i);
    }
  }

  /** Blocks as a completed drain leaves them: all full but the last, which is not. */
  ghost predicate Shaped(rows: seq<seq<int>>)
  {
    && |rows| > 0
    && FullBefore(rows, |rows| - 1)
    && |rows[|rows| - 1]| < BUF_SIZE
  }

  /** A segment of the contents that starts and ends inside block `r` is that block's slice. */
  lemma SegmentInBlock(rows: seq<seq<int>>, r: int, off: int, len: int)
    requires Shaped(rows) && 0 <= r && 0 <= off && 0 < len && off + len <= BUF_SIZE
    requires r * BUF_SIZE + off + len <= |Concat(rows)|
    ensures r < |rows| && off + len <= |rows[r]|
    ensures Concat(rows)[r * BUF_SIZE + off .. r * BUF_SIZE + off + len] == rows[r][off .. off + len]
  {
    ConcatLength(rows);
    if r >= |rows| - 1 {
      assert r == |rows| - 1;
    }
    ConcatSlice(rows, r, off, len);
  }

  /** memcpy of `len` bytes from `src[from..]` to `buf[at..]`. */
  method CopyOut(src: seq<int>, from: int, buf: array<int>, at: int, len: int)
    requires 0 <= from && from + len <= |src| && 0 <= at && at + len <= buf.Length && 0 <= len
    modifies buf
    ensures buf[..at] == old(buf[..at])
    ensures buf[at..at + len] == src[from..from + len]
    ensures buf[at + len..] == old(buf[at + len..])
  {
    var k := 0;
    while k < len
      invariant 0 <= k <= len
      invariant buf[..at] == old(buf[..at])
      invariant buf[at..at + k] == src[from..from + k]
      invariant buf[at + len..] == old(buf[at + len..])
    {
      buf[at + k] := src[from + k];
      k := k + 1;
    }
  }

  // ---------------------------------------------------------------------
  // The descriptor being drained
  // ---------------------------------------------------------------------

  /**
   * A descriptor read with read(2): its remaining bytes are `data[pos..]`.
   * A read returns some of them, at least one, as a pipe may; once they are
   * exhausted it returns 0, or -1 when the descriptor fails at its end.
   */
  class Descriptor {
    const data: seq<int>
    var pos: int
    const failsAtEnd: bool

    ghost predicate Valid()
      reads this
    {
      0 <= pos <= |data| && AllBytes(data)
    }

    constructor (bytes: seq<int>, failing: bool)
      requires AllBytes(bytes)
      ensures Valid() && data == bytes && pos == 0 && failsAtEnd == failing
    {
      data := bytes;
      pos := 0;
      failsAtEnd := failing;
    }

    method Read(count: int) returns (got: seq<int>, n: int)
      requires Valid() && count > 0
      modifies this`pos
      ensures Valid()
      ensures old(pos) == |data| ==> got == [] && pos == old(pos) && n == (if failsAtEnd then -1 else 0)
      ensures old(pos) < |data| ==> 1 <= n <= count && pos == old(pos) + n && got == data[old(pos)..pos]
    {
      if pos == |data| {
        got := [];
        n := if failsAtEnd then -1 else 0;
      } else {
        var m :| 1 <= m && m <= count && m <= |data| - pos;
        got := data[pos..pos + m];
        pos := pos + m;
        n := m;
      }
    }
  }

  // ---------------------------------------------------------------------
  // The block buffer
  // ---------------------------------------------------------------------

  /** Where an lseek-style request points: absolute, relative to the cursor, or relative to the end. */
  function SeekTarget(off: int, whence: int, pos: int, size: int): int
  {
    if whence == 0 then off
    else if whence == 1 then pos + off
    else if whence == 2 then size + off
    else -1
  }

  /**
   * The count the read loop returns for a request of `n` bytes at `pos`
   * (the source's subtraction of only the last segment's excess).
   */
  function ReadCountAsWritten(pos: int, n: int, size: int): int
  {
    if pos + n <= size then n
    else n - (Min(pos + n, (size / BUF_SIZE + 1) * BUF_SIZE) - size)
  }

  class FileBuffer {
    /** Handle of the structure itself. */
    const id: nat
    /** The filled part of each block. */
    var rows: seq<seq<int>>
    /** The row pointers: the handle of each block. */
    var blocks: seq<Option<nat>>
    /** The array of row pointers. */
    var table: Option<nat>
    var numRows: int
    var bufferSize: int
    var currentRow: int
    var currentOffset: int
    /** free_buffer has run: the blocks are gone. */
    var released: bool
    /** Row-pointer arrays replaced on growth and never freed. */
    ghost var leaked: set<nat>

    function Pos(): int
      reads this
    {
      currentRow * BUF_SIZE + currentOffset
    }

    function Contents(): seq<int>
      reads this
    {
      Concat(rows)
    }

    ghost function Owned(): set<nat>
      reads this
    {
      OptionSet(table) + RowHandles(blocks)
    }

    /** What a completed drain leaves and every read and seek keeps. */
    ghost predicate Valid()
      reads this
    {
      && !released
      && Shaped(rows)
      && bufferSize == |Concat(rows)|
      && 0 <= currentRow && 0 <= currentOffset <= BUF_SIZE
      && Pos() <= bufferSize
      && numRows == |rows| == |blocks|
    }

    /** The structure, its table and its blocks are distinct live heap blocks. */
    ghost predicate HeapOk(live: set<nat>)
      reads this
    {
      && id in live
      && (table.Some? ==> table.value in live && table.value != id)
      && (forall i :: 0 <= i < |blocks| && blocks[i].Some? ==>
            blocks[i].value in live && blocks[i].value != id && blocks[i] != table)
      && (forall i, j :: 0 <= i < j < |blocks| && blocks[i].Some? ==> blocks[i] != blocks[j])
      && leaked <= live && id !in leaked && leaked !! Owned()
    }

    constructor (handle: nat)
      ensures id == handle && rows == [] && blocks == [] && table == None
      ensures numRows == 0 && bufferSize == 0 && currentRow == 0 && currentOffset == 0
      ensures !released && leaked == {}
    {
      id := handle;
      rows := [];
      blocks := [];
      table := None;
      numRows := 0;
      bufferSize := 0;
      currentRow := 0;
      currentOffset := 0;
      released := false;
      leaked := {};
    }

    /**
     * The read loop, segment by segment, exactly as the source runs it:
     * `total` is the count it reports, `copied` the bytes it moved.
     */
    method ReadSegments(buf: array<int>, size: int) returns (total: int, copied: int)
      requires Valid() && 0 <= size <= buf.Length
      modifies this`currentRow, this`currentOffset, buf
      ensures Valid()
      ensures copied == Min(size, bufferSize - old(Pos()))
      ensures total == ReadCountAsWritten(old(Pos()), size, bufferSize)
      ensures Pos() == old(Pos()) + copied
      ensures buf[..copied] == Contents()[old(Pos())..old(Pos()) + copied]
      ensures buf[copied..] == old(buf[copied..])
    {
      ghost var p0 := Pos();
      total := size;
      var bytesLeft := size;
      var out := 0;
      copied := 0;
      var first := true;
      while first || bytesLeft > 0
        invariant Valid()
        invariant 0 <= bytesLeft && 0 <= copied && Pos() == p0 + copied
        invariant first ==> copied == 0 && bytesLeft == size
        invariant first || bytesLeft > 0 ==> out == copied && total == size && copied + bytesLeft == size
        invariant !first && bytesLeft == 0 ==> copied == Min(size, bufferSize - p0)
                                               && total == ReadCountAsWritten(p0, size, bufferSize)
        invariant copied <= buf.Length
        invariant buf[..copied] == Contents()[p0..p0 + copied]
        invariant forall k :: copied <= k < buf.Length ==> buf[k] == old(buf[k])
        decreases (if first then 1 else 0), 2 * bytesLeft + (if currentOffset == BUF_SIZE then 1 else 0)
      {
        var bytesToRead, overflow;
        bytesToRead, overflow, bytesLeft := ReadPass(buf, out, bytesLeft, p0, size);
        if overflow > 0 {
          total := total - overflow;
        }
        copied := copied + bytesToRead;
        if bytesLeft > 0 {
          out := out + bytesToRead;
        }
        first := false;
      }
      assert buf[copied..] == old(buf[copied..]);
    }

    /**
     * One pass of the read loop: clamp the segment at the cursor to the
     * block and to the data, copy it out, and step to the next block when
     * bytes remain to be read.
     */
    method ReadPass(buf: array<int>, out: int, bytesLeft: int, ghost p0: int, ghost size: int)
      returns (bytesToRead: int, overflow: int, left: int)
      requires Valid() && 0 <= p0 && 0 <= out && 0 <= bytesLeft && out + bytesLeft == size <= buf.Length
      requires Pos() == p0 + out && buf[..out] == Contents()[p0..p0 + out]
      modifies this`currentRow, this`currentOffset, buf
      ensures Valid() && 0 <= bytesToRead <= bytesLeft && 0 <= left
      ensures Pos() == p0 + out + bytesToRead
      ensures buf[..out + bytesToRead] == Contents()[p0..p0 + out + bytesToRead]
      ensures forall k :: out + bytesToRead <= k < buf.Length ==> buf[k] == old(buf[k])
      ensures overflow > 0 ==> left == 0 && size - overflow == ReadCountAsWritten(p0, size, bufferSize)
                               && out + bytesToRead == Min(size, bufferSize - p0)
      ensures overflow <= 0 ==> left == bytesLeft - bytesToRead
      ensures overflow <= 0 && left == 0 ==> p0 + size <= bufferSize
      ensures left > 0 ==> 2 * left + (if currentOffset == BUF_SIZE then 1 else 0)
                           < 2 * bytesLeft + (if old(currentOffset) == BUF_SIZE then 1 else 0)
    {
      var bytesOnLine := BUF_SIZE - currentOffset;
      bytesToRead := Min(bytesLeft, bytesOnLine);
      left := bytesLeft;
      overflow := currentRow * BUF_SIZE + currentOffset + bytesToRead - bufferSize;
      if overflow > 0 {
        OverflowCount(p0, size, bufferSize, currentRow, currentOffset, bytesLeft);
        bytesToRead := bytesToRead - overflow;
        left := bytesToRead;
      }
      CopySegment(buf, out, bytesToRead, p0);
      assert forall k :: out + bytesToRead <= k < buf.Length ==> buf[k] == buf[out + bytesToRead..][k - out - bytesToRead];
      currentOffset := currentOffset + bytesToRead;
      left := left - bytesToRead;
      if left > 0 {
        currentRow := currentRow + 1;
        currentOffset := 0;
      }
    }

    /**
     * One memcpy of the loop: `len` bytes at the cursor, all inside the
     * current block, appended to the `at` bytes already copied from `p0`.
     */
    method CopySegment(buf: array<int>, at: int, len: int, ghost p0: int)
      requires Valid() && 0 <= len && currentOffset + len <= BUF_SIZE && Pos() + len <= bufferSize
      requires 0 <= at && at + len <= buf.Length && Pos() == p0 + at && 0 <= p0
      requires buf[..at] == Contents()[p0..p0 + at]
      modifies buf
      ensures buf[..at + len] == Contents()[p0..p0 + at + len]
      ensures buf[at + len..] == old(buf[at + len..])
    {
      if len == 0 {
        return;
      }
      SegmentInBlock(rows, currentRow, currentOffset, len);
      ghost var c := Contents();
      CopyOut(rows[currentRow], currentOffset, buf, at, len);
      assert buf[..at + len] == buf[..at] + buf[at..at + len];
      assert c[p0..p0 + at + len] == c[p0..p0 + at] + c[p0 + at..p0 + at + len];
    }

    /**
     * Reading `size` bytes at the cursor, counted as intended: the bytes
     * that remain, up to `size`, are copied out and their number returned.
     */
    method Read(buf: array<int>, size: int) returns (n: int)
      requires Valid() && 0 <= size <= buf.Length
      modifies this`currentRow, this`currentOffset, buf
      ensures Valid()
      ensures n == Min(size, bufferSize - old(Pos()))
      ensures 0 <= n <= size
      ensures Pos() == old(Pos()) + n
      ensures buf[..n] == Contents()[old(Pos())..old(Pos()) + n]
      ensures buf[n..] == old(buf[n..])
    {
      var total;
      total, n := ReadSegments(buf, size);
    }

    /** The read procedure as written: it reports `ReadCountAsWritten`, not the bytes it copied. */
    method ReadAsWritten(buf: array<int>, size: int) returns (total: int)
      requires Valid() && 0 <= size <= buf.Length
      modifies this`currentRow, this`currentOffset, buf
      ensures Valid()
      ensures total == ReadCountAsWritten(old(Pos()), size, bufferSize)
      ensures Pos() == old(Pos()) + Min(size, bufferSize - old(Pos()))
    {
      var copied;
      total, copied := ReadSegments(buf, size);
    }

    /**
     * The seek procedure: a target inside the buffer moves the cursor there
     * and is returned; anything else, including the end of the buffer
     * itself and an unknown `whence`, returns -1 and leaves the cursor.
     */
    method Seek(off: int, whence: int) returns (r: int)
      modifies this`currentRow, this`currentOffset
      ensures old(Valid()) ==> Valid()
      ensures var t := SeekTarget(off, whence, old(Pos()), bufferSize);
              if 0 <= t < bufferSize then r == t && Pos() == t && currentOffset < BUF_SIZE
              else r == -1 && currentRow == old(currentRow) && currentOffset == old(currentOffset)
    {
      var seekOff: int;
      if whence == 0 {
        seekOff := off;
      } else if whence == 1 {
        seekOff := currentRow * BUF_SIZE + currentOffset + off;
      } else if whence == 2 {
        seekOff := bufferSize + off;
      } else {
        seekOff := -1;
      }
      if seekOff < 0 || seekOff >= bufferSize {
        r := -1;
      } else {
        r := seekOff;
      }
      if r != -1 {
        currentRow := seekOff / BUF_SIZE;
        currentOffset := seekOff % BUF_SIZE;
      }
    }

    /**
     * The size procedure: the `buffer_size` field, which is the number of
     * bytes the drain collected when the buffer is valid.
     */
    function Size(): (r: int)
      reads this
      ensures Valid() ==> r == |Contents()|
    {
      bufferSize
    }

    /** free_buffer: every block, then the array of row pointers. */
    method FreeBuffer(heap: Heap)
      requires heap.Valid() && HeapOk(heap.live) && |blocks| == numRows
      modifies heap`live, this`released
      ensures heap.Valid() && released
      ensures heap.live == old(heap.live) - old(Owned())
    {
      var i := 0;
      while i < numRows
        invariant 0 <= i <= numRows && heap.Valid()
        invariant heap.live == old(heap.live) - RowHandles(blocks[..i])
      {
        RowHandlesSnoc(blocks[..i], blocks[i]);
        assert blocks[..i + 1] == blocks[..i] + [blocks[i]];
        assert blocks[i].Some? ==> blocks[i].value !in RowHandles(blocks[..i]);
        heap.Free(blocks[i]);
        i := i + 1;
      }
      assert blocks[..i] == blocks;
      heap.Free(table);
      released := true;
    }

    /** The close procedure: the blocks and the structure are freed, the descriptor is left open. */
    method Close(heap: Heap) returns (r: int)
      requires Valid() && heap.Valid() && HeapOk(heap.live)
      modifies heap`live, this`released
      ensures heap.Valid() && r == 0 && released
      ensures heap.live == old(heap.live) - old(Owned()) - {id}
    {
      FreeBuffer(heap);
      heap.Free(Some(id));
      r := 0;
    }

    /**
     * read_one_buffer: fill the current block from the descriptor.  True
     * means stop: the descriptor is exhausted, or failed and the blocks were
     * freed.
     */
    method ReadOneBuffer(src: Descriptor, heap: Heap) returns (done: bool)
      requires src.Valid() && heap.Valid() && HeapOk(heap.live) && !released
      requires |rows| == |blocks| == numRows && 0 <= currentRow == numRows - 1
      requires 0 <= currentOffset == |rows[currentRow]| < BUF_SIZE
      requires bufferSize == |Concat(rows)| && FullBefore(rows, |rows| - 1)
      modifies this`rows, this`bufferSize, this`currentRow, this`currentOffset, this`released
      modifies src`pos, heap`live
      ensures src.Valid() && heap.Valid()
      ensures !done ==> !released && src.pos > old(src.pos)
                        && Concat(rows) == old(Concat(rows)) + src.data[old(src.pos)..src.pos]
                        && bufferSize == |Concat(rows)| && |rows| == |old(rows)|
                        && FullBefore(rows, |rows| - 1)
                        && (0 < currentOffset < BUF_SIZE ==> currentRow == old(currentRow) && |rows[currentRow]| == currentOffset)
                        && (currentOffset == 0 ==> currentRow == old(currentRow) + 1 && |rows[|rows| - 1]| == BUF_SIZE)
                        && (0 <= currentOffset < BUF_SIZE)
                        && heap.live == old(heap.live)
      ensures done && !released ==> src.pos == |src.data| == old(src.pos) && !src.failsAtEnd
                                    && rows == old(rows) && currentRow == old(currentRow)
                                    && currentOffset == old(currentOffset) && bufferSize == old(bufferSize)
                                    && heap.live == old(heap.live)
      ensures done && released ==> src.failsAtEnd && heap.live == old(heap.live) - old(Owned())
      ensures blocks == old(blocks) && table == old(table) && leaked == old(leaked)
      ensures currentRow >= old(currentRow) && src.pos >= old(src.pos)
    {
      var got, numRead := src.Read(BUF_SIZE - currentOffset);
      done := false;
      if numRead == 0 {
        done := true;
      } else if numRead == -1 {
        FreeBuffer(heap);
        done := true;
      } else {
        ConcatGrowLast(rows, got);
        rows := rows[..currentRow] + [rows[currentRow] + got];
        bufferSize := bufferSize + numRead;
        currentOffset := currentOffset + numRead;
        if currentOffset >= BUF_SIZE {
          currentOffset := 0;
          currentRow := currentRow + 1;
        }
      }
    }
  }

  /** The drain invariant of buffer_file between two passes of its loop. */
  ghost predicate Draining(fb: FileBuffer, data: seq<int>, start: int, pos: int)
    reads fb
  {
    && |fb.rows| == |fb.blocks| == fb.numRows
    && (forall i :: 0 <= i < |fb.blocks| ==> fb.blocks[i].Some?)
    && FullBefore(fb.rows, |fb.rows| - 1)
    && 0 <= start <= pos <= |data|
    && Concat(fb.rows) == data[start..pos]
    && fb.bufferSize == |Concat(fb.rows)|
    && 0 <= fb.currentOffset < BUF_SIZE
    && (fb.currentOffset == 0 ==> fb.currentRow == fb.numRows
                                  && (fb.numRows > 0 ==> |fb.rows[fb.numRows - 1]| == BUF_SIZE))
    && (fb.currentOffset > 0 ==> fb.numRows > 0 && fb.currentRow == fb.numRows - 1
                                 && |fb.rows[fb.currentRow]| == fb.currentOffset)
  }

  /**
   * The heap during the drain: what was live before, plus the structure,
   * the arrays it leaked and the blocks it owns, all told apart.
   */
  ghost predicate Accounts(fb: FileBuffer, live: set<nat>, base: set<nat>)
    reads fb
  {
    live == base + {fb.id} + fb.leaked + (if fb.released then {} else fb.Owned())
    && base !! ({fb.id} + fb.leaked + fb.Owned())
  }

  /**
   * Growing the row-pointer array by one slot through a freshly allocated
   * array; when that allocation fails the blocks are freed.
   */
  method GrowTable(fb: FileBuffer, heap: Heap, freesOldTable: bool, ghost base: set<nat>) returns (ok: bool)
    requires heap.Valid() && !fb.released && fb.HeapOk(heap.live) && Accounts(fb, heap.live, base)
    requires |fb.blocks| == fb.numRows && fb.currentRow >= 0
    modifies fb`table, fb`numRows, fb`leaked, fb`released, heap`next, heap`live
    ensures heap.Valid() && heap.next == old(heap.next) + 1 && Accounts(fb, heap.live, base)
    ensures ok ==> !fb.released && fb.HeapOk(heap.live) && fb.numRows == fb.currentRow + 1
    ensures !ok ==> fb.released && heap.fails(old(heap.next))
    ensures freesOldTable ==> fb.leaked == old(fb.leaked)
  {
    var t := heap.Malloc((fb.currentRow + 1) * PTR_SIZE);
    if t.Some? {
      var oldTable := fb.table;
      assert t.value !in base + {fb.id} + fb.leaked + fb.Owned();
      if freesOldTable {
        heap.Free(oldTable);
      } else {
        fb.leaked := fb.leaked + OptionSet(oldTable);
      }
      fb.table := t;
      fb.numRows := fb.currentRow + 1;
      ok := true;
    } else {
      fb.FreeBuffer(heap);
      ok := false;
    }
  }

  /** Allocating the block for a new row; when that fails the blocks are freed. */
  method AddBlock(fb: FileBuffer, heap: Heap, ghost base: set<nat>) returns (ok: bool)
    requires heap.Valid() && !fb.released && fb.HeapOk(heap.live) && Accounts(fb, heap.live, base)
    requires |fb.blocks| == |fb.rows| == fb.numRows - 1
    modifies fb`blocks, fb`rows, fb`released, heap`next, heap`live
    ensures heap.Valid() && heap.next == old(heap.next) + 1 && Accounts(fb, heap.live, base)
    ensures fb.rows == old(fb.rows) + [[]] && Concat(fb.rows) == old(Concat(fb.rows))
    ensures |fb.blocks| == |fb.rows| == fb.numRows
    ensures ok ==> !fb.released && fb.HeapOk(heap.live) && fb.blocks == old(fb.blocks) + [Some(old(heap.next))]
    ensures !ok ==> fb.released && heap.fails(old(heap.next))
  {
    var b := heap.Malloc(BUF_SIZE);
    ConcatSnoc(fb.rows, []);
    RowHandlesSnoc(fb.blocks, b);
    assert b.Some? ==> b.value !in base + {fb.id} + fb.leaked + fb.Owned();
    fb.blocks := fb.blocks + [b];
    fb.rows := fb.rows + [[]];
    if b.None? {
      fb.FreeBuffer(heap);
      ok := false;
    } else {
      ok := true;
    }
  }

  /**
   * One pass of buffer_file's loop: top up the current block, or start a
   * new one (growing the row-pointer array first when it is full).
   */
  method DrainStep(fb: FileBuffer, src: Descriptor, heap: Heap, freesOldTable: bool,
                   ghost base: set<nat>, ghost start: int) returns (done: bool)
    requires src.Valid() && heap.Valid() && fb.currentRow >= 0 && !fb.released
    requires fb.HeapOk(heap.live) && Draining(fb, src.data, start, src.pos) && Accounts(fb, heap.live, base)
    modifies fb`table, fb`numRows, fb`leaked, fb`released, fb`blocks, fb`rows
    modifies fb`bufferSize, fb`currentRow, fb`currentOffset, src`pos, heap`next, heap`live
    ensures src.Valid() && heap.Valid() && fb.currentRow >= 0 && heap.next >= old(heap.next)
    ensures !fb.released ==> fb.HeapOk(heap.live)
    ensures !done ==> !fb.released && Draining(fb, src.data, start, src.pos) && src.pos > old(src.pos)
    ensures done && !fb.released ==> src.pos == |src.data| && Shaped(fb.rows)
                                     && Concat(fb.rows) == src.data[start..src.pos]
                                     && fb.bufferSize == |Concat(fb.rows)| && |fb.rows| == |fb.blocks| == fb.numRows
    ensures src.pos >= old(src.pos) && Accounts(fb, heap.live, base)
    ensures freesOldTable ==> fb.leaked == old(fb.leaked)
    ensures fb.released ==> src.failsAtEnd || exists k: nat :: old(heap.next) <= k < heap.next && heap.fails(k)
  {
    if fb.currentOffset != 0 {
      done := TopUp(fb, src, heap, freesOldTable, base, start);
    } else {
      done := NewRow(fb, src, heap, freesOldTable, base, start);
    }
  }

  /** The pass that continues the last block, which has room left. */
  method TopUp(fb: FileBuffer, src: Descriptor, heap: Heap, freesOldTable: bool,
               ghost base: set<nat>, ghost start: int) returns (done: bool)
    requires src.Valid() && heap.Valid() && !fb.released
    requires fb.HeapOk(heap.live) && Filling(fb, src.data, start, src.pos) && Accounts(fb, heap.live, base)
    modifies fb`table, fb`numRows, fb`leaked, fb`released, fb`blocks, fb`rows
    modifies fb`bufferSize, fb`currentRow, fb`currentOffset, src`pos, heap`next, heap`live
    ensures src.Valid() && heap.Valid() && fb.currentRow >= 0 && heap.next >= old(heap.next)
    ensures !fb.released ==> fb.HeapOk(heap.live)
    ensures !done ==> !fb.released && Draining(fb, src.data, start, src.pos) && src.pos > old(src.pos)
    ensures done && !fb.released ==> src.pos == |src.data| && Shaped(fb.rows)
                                     && Concat(fb.rows) == src.data[start..src.pos]
                                     && fb.bufferSize == |Concat(fb.rows)| && |fb.rows| == |fb.blocks| == fb.numRows
    ensures src.pos >= old(src.pos) && Accounts(fb, heap.live, base)
    ensures freesOldTable ==> fb.leaked == old(fb.leaked)
    ensures fb.released ==> src.failsAtEnd || exists k: nat :: old(heap.next) <= k < heap.next && heap.fails(k)
  {
    done := fb.ReadOneBuffer(src, heap);
  }

  /** Between allocating a block and filling it: the last block has room left. */
  ghost predicate Filling(fb: FileBuffer, data: seq<int>, start: int, pos: int)
    reads fb
  {
    && |fb.rows| == |fb.blocks| == fb.numRows > 0
    && (forall i :: 0 <= i < |fb.blocks| ==> fb.blocks[i].Some?)
    && FullBefore(fb.rows, |fb.rows| - 1)
    && 0 <= start <= pos <= |data|
    && Concat(fb.rows) == data[start..pos]
    && fb.bufferSize == |Concat(fb.rows)|
    && fb.currentRow == fb.numRows - 1
    && 0 <= fb.currentOffset == |fb.rows[fb.currentRow]| < BUF_SIZE
  }

  /** The pass that opens a new block, growing the row-pointer array when needed. */
  method NewRow(fb: FileBuffer, src: Descriptor, heap: Heap, freesOldTable: bool,
                ghost base: set<nat>, ghost start: int) returns (done: bool)
    requires fb.currentOffset == 0
    requires src.Valid() && heap.Valid() && fb.currentRow >= 0 && !fb.released
    requires fb.HeapOk(heap.live) && Draining(fb, src.data, start, src.pos) && Accounts(fb, heap.live, base)
    modifies fb`table, fb`numRows, fb`leaked, fb`released, fb`blocks, fb`rows
    modifies fb`bufferSize, fb`currentRow, fb`currentOffset, src`pos, heap`next, heap`live
    ensures src.Valid() && heap.Valid() && fb.currentRow >= 0 && heap.next >= old(heap.next)
    ensures !fb.released ==> fb.HeapOk(heap.live)
    ensures !done ==> !fb.released && Draining(fb, src.data, start, src.pos) && src.pos > old(src.pos)
    ensures done && !fb.released ==> src.pos == |src.data| && Shaped(fb.rows)
                                     && Concat(fb.rows) == src.data[start..src.pos]
                                     && fb.bufferSize == |Concat(fb.rows)| && |fb.rows| == |fb.blocks| == fb.numRows
    ensures src.pos >= old(src.pos) && Accounts(fb, heap.live, base)
    ensures freesOldTable ==> fb.leaked == old(fb.leaked)
    ensures fb.released ==> src.failsAtEnd || exists k: nat :: old(heap.next) <= k < heap.next && heap.fails(k)
  {
    assert FullBefore(fb.rows, |fb.rows|);
    var room := OpenBlock(fb, heap, freesOldTable, base);
    if !room {
      done := true;
    } else {
      done := TopUp(fb, src, heap, freesOldTable, base, start);
    }
  }

  /**
   * Making room for one more block: grow the row-pointer array when every
   * slot is taken, then allocate the block.  The source stores the new row
   * even after a failed growth; the model stops there.
   */
  method OpenBlock(fb: FileBuffer, heap: Heap, freesOldTable: bool, ghost base: set<nat>) returns (ok: bool)
    requires heap.Valid() && !fb.released && fb.HeapOk(heap.live) && Accounts(fb, heap.live, base)
    requires fb.currentOffset == 0 && fb.currentRow == fb.numRows == |fb.rows| == |fb.blocks|
    requires FullBefore(fb.rows, |fb.rows|)
    modifies fb`table, fb`numRows, fb`leaked, fb`released, fb`blocks, fb`rows, heap`next, heap`live
    ensures heap.Valid() && heap.next >= old(heap.next) && Accounts(fb, heap.live, base)
    ensures freesOldTable ==> fb.leaked == old(fb.leaked)
    ensures ok ==> !fb.released && fb.HeapOk(heap.live) && fb.rows == old(fb.rows) + [[]]
                   && Concat(fb.rows) == old(Concat(fb.rows)) && FullBefore(fb.rows, |fb.rows| - 1)
                   && |fb.blocks| == |fb.rows| == fb.numRows == fb.currentRow + 1
                   && fb.blocks == old(fb.blocks) + [Some(heap.next - 1)]
    ensures !ok ==> fb.released && exists k: nat :: old(heap.next) <= k < heap.next && heap.fails(k)
  {
    ghost var n1 := heap.next;
    ok := true;
    if fb.currentRow >= fb.numRows {
      ok := GrowTable(fb, heap, freesOldTable, base);
    }
    if ok {
      ghost var n2 := heap.next;
      ok := AddBlock(fb, heap, base);
      if !ok {
        assert heap.fails(n2);
      }
    } else {
      assert heap.fails(n1);
    }
  }

  /**
   * buffer_file: drain the descriptor into blocks.  The row-pointer array
   * grows by one slot per block, through a fresh array; `freesOldTable`
   * says whether the superseded array is freed (readtiff.c) or leaked
   * (tif_custom.c).  On success the cursor is at 0 and the contents are all
   * the bytes the descriptor had left.
   */
  method BufferFile(src: Descriptor, heap: Heap, freesOldTable: bool) returns (fb: FileBuffer?)
    requires src.Valid() && heap.Valid()
    modifies src`pos, heap`next, heap`live
    ensures src.Valid() && heap.Valid()
    ensures fb == null ==> heap.live == old(heap.live) && src.pos == old(src.pos)
    ensures fb != null ==> fresh(fb) && fb.currentRow == 0 && fb.currentOffset == 0
    ensures fb != null && !fb.released ==> fb.Valid() && fb.HeapOk(heap.live)
                                           && fb.Contents() == old(src.data[src.pos..])
                                           && src.pos == |src.data|
    ensures fb != null ==> heap.live == old(heap.live) + {fb.id} + fb.leaked
                                        + (if fb.released then {} else fb.Owned())
    ensures fb != null && freesOldTable ==> fb.leaked == {}
    ensures fb != null && fb.released ==> src.failsAtEnd || !AllGranted(heap.fails, old(heap.next), heap.next - old(heap.next))
  {
    ghost var start := src.pos;
    ghost var n0 := heap.next;
    ghost var base := heap.live;
    var p := heap.Malloc(40);
    if p.None? {
      return null;
    }
    fb := new FileBuffer(p.value);
    assert fb.Owned() == {};
    var done := false;
    while !done
      invariant src.Valid() && heap.Valid() && fb.currentRow >= 0
      invariant n0 <= heap.next && start <= src.pos
      invariant !fb.released ==> fb.HeapOk(heap.live)
      invariant !done ==> !fb.released && Draining(fb, src.data, start, src.pos)
      invariant done && !fb.released ==> src.pos == |src.data| && Shaped(fb.rows)
                                         && Concat(fb.rows) == src.data[start..src.pos]
                                         && fb.bufferSize == |Concat(fb.rows)| && |fb.rows| == |fb.blocks| == fb.numRows
      invariant Accounts(fb, heap.live, base)
      invariant freesOldTable ==> fb.leaked == {}
      invariant fb.released ==> src.failsAtEnd || exists k: nat :: n0 <= k < heap.next && heap.fails(k)
      decreases (if done then 0 else 1), |src.data| - src.pos
    {
      done := DrainStep(fb, src, heap, freesOldTable, base, start);
    }
    fb.currentRow := 0;
    fb.currentOffset := 0;
  }

  // ---------------------------------------------------------------------
  // The client procedures over the static table of buffers
  // ---------------------------------------------------------------------

  /** The static table of buffers, indexed by descriptor (zeroed like any C static). */
  class BufferTable {
    const buffers: array<FileBuffer?>

    constructor ()
      ensures fresh(buffers) && buffers.Length == MAX_FD
      ensures forall i :: 0 <= i < MAX_FD ==> buffers[i] == null
    {
      buffers := new FileBuffer?[MAX_FD](_ => null);
    }

    /**
     * TIFFFdOpen: a descriptor below MAX_FD is drained into a fresh buffer
     * stored at its slot; a larger one is refused before anything is read.
     */
    method FdOpen(fd: int, src: Descriptor, heap: Heap) returns (accepted: bool)
      requires buffers.Length == MAX_FD && 0 <= fd && src.Valid() && heap.Valid()
      modifies buffers, src`pos, heap`next, heap`live
      ensures src.Valid() && heap.Valid()
      ensures accepted <==> fd < MAX_FD
      ensures !accepted ==> src.pos == old(src.pos) && heap.live == old(heap.live)
                            && buffers[..] == old(buffers[..])
      ensures accepted ==> forall i :: 0 <= i < MAX_FD && i != fd ==> buffers[i] == old(buffers[i])
      ensures accepted && buffers[fd] != null && !buffers[fd].released ==>
                buffers[fd].Valid() && buffers[fd].Pos() == 0
                && buffers[fd].Contents() == old(src.data[src.pos..])
    {
      if fd >= MAX_FD {
        return false;
      }
      var fb := BufferFile(src, heap, false);
      buffers[fd] := fb;
      accepted := true;
    }

    /**
     * _tiffReadProc on descriptor `fd`.  The source copies out of the
     * slot's blocks whatever the drain left: with no structure (NULL) or
     * after free_buffer it reads through NULL or freed memory, which is
     * undefined behaviour; the model reports that as `defined == false` and
     * changes nothing.
     */
    method ReadProc(fd: int, buf: array<int>, size: int) returns (n: int, defined: bool)
      requires 0 <= fd < buffers.Length && Drained(buffers[fd])
      requires 0 <= size <= buf.Length
      modifies buffers[fd], buf
      ensures defined <==> Usable(buffers[fd])
      ensures !defined ==> buf[..] == old(buf[..])
                           && (buffers[fd] != null ==> unchanged(buffers[fd]))
      ensures defined ==>
                && old(buffers[fd].Valid()) && buffers[fd].Valid() && buffers[fd].Contents() == old(buffers[fd].Contents())
                && n == Min(size, buffers[fd].bufferSize - old(buffers[fd].Pos())) && 0 <= n <= size
                && buffers[fd].Pos() == old(buffers[fd].Pos()) + n
                && buf[..n] == buffers[fd].Contents()[old(buffers[fd].Pos())..old(buffers[fd].Pos()) + n]
    {
      var fb := buffers[fd];
      if fb == null || fb.released {
        return 0, false;
      }
      n := fb.Read(buf, size);
      defined := true;
    }

    /** _tiffWriteProc: the buffer is read-only, every write fails. */
    method WriteProc(fd: int, buf: array<int>, size: int) returns (r: int)
      ensures r == -1
    {
      r := -1;
    }

    /**
     * _tiffSeekProc on descriptor `fd`.  It touches only the structure's
     * own fields, so after a failed drain (blocks freed, structure kept) it
     * still seeks over the recorded size; a NULL slot or a structure already
     * closed is dereferenced, which is undefined (`defined == false`).
     */
    method SeekProc(fd: int, off: int, whence: int, heap: Heap) returns (r: int, defined: bool)
      requires 0 <= fd < buffers.Length
      modifies buffers[fd]
      ensures defined <==> Present(buffers[fd], heap.live)
      ensures !defined ==> buffers[fd] == null || unchanged(buffers[fd])
      ensures defined ==>
                && buffers[fd].Contents() == old(buffers[fd].Contents())
                && buffers[fd].released == old(buffers[fd].released)
                && (old(buffers[fd].Valid()) ==> buffers[fd].Valid())
                && var t := SeekTarget(off, whence, old(buffers[fd].Pos()), buffers[fd].bufferSize);
                   if 0 <= t < buffers[fd].bufferSize then r == t && buffers[fd].Pos() == t
                   else r == -1 && buffers[fd].Pos() == old(buffers[fd].Pos())
    {
      var fb := buffers[fd];
      if fb == null || fb.id !in heap.live {
        return 0, false;
      }
      r := fb.Seek(off, whence);
      defined := true;
    }

    /**
     * _tiffSizeProc on descriptor `fd`: the structure's recorded size, also
     * after a failed drain; NULL or a closed structure is undefined.
     */
    method SizeProc(fd: int, heap: Heap) returns (r: int, defined: bool)
      requires 0 <= fd < buffers.Length
      ensures defined <==> Present(buffers[fd], heap.live)
      ensures defined ==> r == buffers[fd].bufferSize
      ensures defined && buffers[fd].Valid() ==> r == |buffers[fd].Contents()|
    {
      var fb := buffers[fd];
      if fb == null || fb.id !in heap.live {
        return 0, false;
      }
      r := fb.Size();
      defined := true;
    }

    /**
     * _tiffCloseProc: frees the buffer; the slot keeps its now dangling
     * pointer.  After a failed drain the source frees the blocks a second
     * time, and with a NULL slot it dereferences NULL: both undefined
     * (`defined == false`, nothing changed).
     */
    method CloseProc(fd: int, heap: Heap) returns (r: int, defined: bool)
      requires 0 <= fd < buffers.Length && Drained(buffers[fd])
      requires heap.Valid() && (Usable(buffers[fd]) ==> buffers[fd].HeapOk(heap.live))
      modifies heap`live, buffers[fd]
      ensures heap.Valid() && buffers[fd] == old(buffers[fd])
      ensures defined <==> old(Usable(buffers[fd]))
      ensures !defined ==> heap.live == old(heap.live) && (buffers[fd] != null ==> unchanged(buffers[fd]))
      ensures defined ==> r == 0 && buffers[fd].released
                          && heap.live == old(heap.live) - old(buffers[fd].Owned()) - {buffers[fd].id}
    {
      var fb := buffers[fd];
      if fb == null || fb.released {
        return 0, false;
      }
      r := fb.Close(heap);
      defined := true;
    }
  }

  /**
   * A slot whose buffer the procedures can read: a structure whose blocks
   * were not freed.
   */
  predicate Usable(fb: FileBuffer?)
    reads fb
  {
    fb != null && !fb.released
  }

  /** A slot holding a structure that is still allocated. */
  predicate Present(fb: FileBuffer?, live: set<nat>)
    reads fb
  {
    fb != null && fb.id in live
  }

  /**
   * What buffer_file leaves in a slot: NULL, a structure whose blocks were
   * freed, or a valid drained buffer.
   */
  ghost predicate Drained(fb: FileBuffer?)
    reads fb
  {
    Usable(fb) ==> fb.Valid()
  }

  // ---------------------------------------------------------------------
  // Properties of the counts
  // ---------------------------------------------------------------------

  /**
   * The count the source reports exceeds the bytes it copies by exactly the
   * part of the request that lies beyond the first block boundary past the
   * end of the data.
   */
  lemma ReadCountOverstates(pos: int, n: int, size: int)
    requires 0 <= pos <= size && 0 <= n
    ensures ReadCountAsWritten(pos, n, size)
            == Min(n, size - pos) + Max(0, pos + n - (size / BUF_SIZE + 1) * BUF_SIZE)
  {
  }

  /**
   * The segment that first runs past the end ends at the block boundary
   * above the end or at the end of the request, whichever is first; the
   * count the loop then returns is `ReadCountAsWritten`.
   */
  lemma OverflowCount(p0: int, size: int, bs: int, row: int, off: int, left: int)
    requires 0 <= p0 && 0 <= row && 0 <= off <= BUF_SIZE && 0 <= left
    requires row * BUF_SIZE + off + left == p0 + size && p0 <= row * BUF_SIZE + off <= bs
    requires row * BUF_SIZE + off + Min(left, BUF_SIZE - off) > bs
    ensures size - (row * BUF_SIZE + off + Min(left, BUF_SIZE - off) - bs) == ReadCountAsWritten(p0, size, bs)
    ensures Min(left, BUF_SIZE - off) - (row * BUF_SIZE + off + Min(left, BUF_SIZE - off) - bs) >= 0
    ensures row * BUF_SIZE + off + Min(left, BUF_SIZE - off) - (row * BUF_SIZE + off + Min(left, BUF_SIZE - off) - bs) - p0
            == Min(size, bs - p0)
  {
    assert row * BUF_SIZE <= bs < row * BUF_SIZE + BUF_SIZE;
    assert bs / BUF_SIZE == row;
  }

  /** A 10000-byte request on a 100-byte buffer is reported as 1908 bytes read. */
  lemma ReadCountCounterexample()
    ensures ReadCountAsWritten(0, 10000, 100) == 1908
    ensures Min(10000, 100 - 0) == 100
  {
  }

  /** The end of the buffer is not a seek target, although lseek(2) would accept it. */
  lemma SeekToEndRefused(size: int, pos: int)
    ensures !(0 <= SeekTarget(0, 2, pos, size) < size)
  {
  }
}
