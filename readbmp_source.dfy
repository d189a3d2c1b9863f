/**
 * The BMP decoder object of readbmp.c: bmp_source_struct with its
 * routines start_input_bmp, read_colormap, preload_image,
 * extract_rle_data, get_nbit_row, get_24bit_row, finish_input_bmp and
 * bmp_init.  Each routine is proved against the value-level description
 * in module ReadBmp: start_input_bmp leaves the state StartOutcome
 * describes, the preload leaves the image Uncompressed or RleFrom
 * describes, and each row reader delivers NBitRow or Bit24Row of the
 * stored row it steps back to.
 */
module ReadBmpSource {
  import opened DecodeImage
  import opened Common
  import opened ReadBmp
  import opened BmpStages
  import opened BmpStart

  // ---------------------------------------------------------------------
  // The decoder object
  // ---------------------------------------------------------------------

  /**
   * bmp_source_struct.  `colormap` and `wholeImage` hold what the two
   * tables hold, `cmapTable` and `imageTable` their allocations (None for
   * NULL), `getPixelRow` what `pub.get_pixel_row` points to, and `block`
   * the heap block bmp_init allocated the structure itself in.
   */
  class BmpSource {
    const pub: Param
    const block: nat
    var colormap: seq<seq<int>>
    var cmapTable: Option<Table>
    var wholeImage: seq<seq<int>>
    var imageTable: Option<Table>
    var sourceRow: int
    var rowWidth: int
    var bitsPerPixel: int
    var compression: Option<int>
    var imageSize: Option<int>
    var getPixelRow: RowSource

    /**
     * The fields bmp_init sets.  The source leaves `bits_per_pixel` and
     * `compression` unset; here they start at 0 and None.
     */
    constructor (stream: seq<int>, self: nat)
      requires AllBytes(stream)
      ensures fresh(pub) && pub.Valid() && pub.input == stream && pub.pos == 0 && block == self
      ensures pub.width == -1 && pub.height == -1 && pub.rowNum == 0 && !pub.error && pub.errorMsg == ""
      ensures rowWidth == 0 && sourceRow == 0 && cmapTable.None? && imageTable.None? && imageSize == Some(0)
      ensures colormap == [] && wholeImage == [] && bitsPerPixel == 0 && compression.None? && getPixelRow == NoSource
    {
      pub := new Param(stream);
      block := self;
      colormap := [];
      cmapTable := None;
      wholeImage := [];
      imageTable := None;
      sourceRow := 0;
      rowWidth := 0;
      bitsPerPixel := 0;
      compression := None;
      imageSize := Some(0);
      getPixelRow := NoSource;
    }

    /** The fields start_input_bmp and preload_image change. */
    ghost function Snapshot(): Setup
      reads this, pub
      requires pub.Valid()
    {
      Setup(pub.pos, pub.error, pub.errorMsg, bitsPerPixel, cmapTable.Some?, colormap, rowWidth,
            imageTable.Some?, wholeImage, getPixelRow, compression, imageSize, pub.width, pub.height)
    }

    /** The two tables are whole, live and share no block. */
    ghost predicate Owns(live: set<nat>)
      reads this
    {
      && (imageTable.Some? ==> Whole(imageTable.value) && Blocks(imageTable.value) <= live)
      && (cmapTable.Some? ==> Whole(cmapTable.value) && Blocks(cmapTable.value) <= live)
      && TableBlocks(imageTable) !! TableBlocks(cmapTable)
    }

    /** read_byte: the next byte, or 0 with "Premature end of input file" raised at the end of the stream. */
    method ReadByte() returns (c: int)
      requires pub.Valid()
      modifies pub`pos, pub`error, pub`errorMsg
      ensures pub.Valid()
      ensures c == ReadByteAt(pub.input, old(pub.pos)) && pub.pos == Min(old(pub.pos) + 1, |pub.input|)
      ensures (pub.error, pub.errorMsg) == Raise(old(pub.error), old(pub.errorMsg), old(pub.pos) == |pub.input|, ERR_INPUT_EOF)
    {
      c := pub.Getc();
      if c == EOF {
        pub.ErrExit(ERR_INPUT_EOF);
        c := 0;
      }
    }

    /** `k` calls of read_byte since the stream stood at `p0` with error state `e0`, `m0`. */
    ghost predicate ReadsDone(p0: nat, e0: bool, m0: string, k: nat)
      reads pub`pos, pub`error, pub`errorMsg
    {
      && pub.pos == Min(p0 + k, |pub.input|)
      && (pub.error, pub.errorMsg) == Raise(e0, m0, p0 + k > |pub.input|, ERR_INPUT_EOF)
    }

    /** One read_byte, as the `k`-th since `p0`: the byte at `p0 + k`, or 0 past the end. */
    method ReadCounted(ghost p0: nat, ghost e0: bool, ghost m0: string, ghost k: nat) returns (b: int)
      requires pub.Valid() && p0 <= |pub.input| && ReadsDone(p0, e0, m0, k)
      modifies pub`pos, pub`error, pub`errorMsg
      ensures pub.Valid() && ReadsDone(p0, e0, m0, k + 1) && b == ReadByteAt(pub.input, p0 + k)
    {
      b := ReadByte();
    }

    // -------------------------------------------------------------------
    // read_colormap
    // -------------------------------------------------------------------

    /** Entries `0..i` of the channels hold red, green and blue as stored from `p0` in entries of `e` bytes. */
    ghost predicate MapPrefix(p0: nat, n: nat, e: int, i: nat)
      reads this`colormap
    {
      && |colormap| == 3 && |colormap[0]| == n && |colormap[1]| == n && |colormap[2]| == n && i <= n
      && forall k :: 0 <= k < i ==>
           && colormap[2][k] == ReadByteAt(pub.input, p0 + Stride(e, k))
           && colormap[1][k] == ReadByteAt(pub.input, p0 + Stride(e, k) + 1)
           && colormap[0][k] == ReadByteAt(pub.input, p0 + Stride(e, k) + 2)
    }

    /** Entry `i`, stored from the `k`-th byte on: blue, green, red into channels 2, 1 and 0. */
    method ReadEntry(i: nat, n: nat, e: int, k: nat, ghost p0: nat, ghost e0: bool, ghost m0: string)
      requires k == Stride(e, i)
      requires pub.Valid() && p0 <= |pub.input| && ReadsDone(p0, e0, m0, k) && MapPrefix(p0, n, e, i) && i < n
      modifies this`colormap, pub`pos, pub`error, pub`errorMsg
      ensures pub.Valid() && ReadsDone(p0, e0, m0, k + 3) && MapPrefix(p0, n, e, i + 1)
    {
      var b := ReadCounted(p0, e0, m0, k);
      colormap := colormap[2 := colormap[2][i := b]];
      b := ReadCounted(p0, e0, m0, k + 1);
      colormap := colormap[1 := colormap[1][i := b]];
      b := ReadCounted(p0, e0, m0, k + 2);
      colormap := colormap[0 := colormap[0][i := b]];
    }

    /** The loop of read_colormap over `n` entries of `e` bytes. */
    method ReadEntries(n: nat, e: int)
      requires e == 3 || e == 4
      requires pub.Valid() && |colormap| == 3 && |colormap[0]| == n && |colormap[1]| == n && |colormap[2]| == n
      modifies this`colormap, pub`pos, pub`error, pub`errorMsg
      ensures pub.Valid() && ReadsDone(old(pub.pos), old(pub.error), old(pub.errorMsg), Stride(e, n))
      ensures colormap == ColormapFrom(pub.input, old(pub.pos), n, e)
    {
      ghost var p0, e0, m0 := pub.pos, pub.error, pub.errorMsg;
      var i, k := 0, 0;
      while i < n
        invariant k == Stride(e, i)
        invariant pub.Valid() && ReadsDone(p0, e0, m0, k) && MapPrefix(p0, n, e, i)
      {
        ReadEntry(i, n, e, k, p0, e0, m0);
        if e == 4 {
          var unused := ReadCounted(p0, e0, m0, k + 3);
        }
        i, k := i + 1, k + e;
      }
      ColormapIsFrom(colormap, pub.input, p0, n, e);
    }

    /** read_colormap: `n` entries of 3 bytes (OS/2) or 4 bytes (Windows); any other size is refused. */
    method ReadColormap(n: nat, e: int)
      requires pub.Valid() && |colormap| == 3 && |colormap[0]| == n && |colormap[1]| == n && |colormap[2]| == n
      modifies this`colormap, pub`pos, pub`error, pub`errorMsg
      ensures pub.Valid() && Snapshot() == MapRead(pub.input, old(Snapshot()), n, e)
    {
      if e != 3 && e != 4 {
        pub.ErrExit(ERR_BMP_BADCMAP);
        return;
      }
      ReadEntries(n, e);
    }

    // -------------------------------------------------------------------
    // start_input_bmp
    // -------------------------------------------------------------------

    /** `while ((x & 3) != 0) x++;`: the next multiple of 4 from `x` on. */
    static method RoundUp(x: int) returns (r: int)
      ensures r == RoundUp4(x)
    {
      r := x;
      while r % 4 != 0
        invariant x <= r <= RoundUp4(x)
        decreases RoundUp4(x) - r
      {
        r := r + 1;
      }
    }

    /** The stored row width: 3 bytes a pixel at 24 bits, one at 8, the width plus 4 * 8 at packed depths, rounded up to 4. */
    static method ComputeRowWidth(w: int, bpp: int) returns (rw: int)
      ensures rw == RowWidth(w, bpp)
    {
      if bpp == 24 {
        rw := w * 3;
      } else if bpp == 8 {
        rw := w;
      } else {
        rw := w + 4 * 8;
      }
      rw := RoundUp(rw);
    }

    /** The colormap table: three rows of `n` bytes, or "Insufficient memory" when the allocator refuses it. */
    method AllocColormap(heap: Heap, n: nat) returns (ok: bool)
      requires pub.Valid() && heap.Valid() && cmapTable.None?
      modifies this`colormap, this`cmapTable, pub`error, pub`errorMsg, heap`next, heap`live
      ensures pub.Valid() && heap.Valid() && ok == cmapTable.Some?
      ensures ok <==> AllGranted(heap.fails, old(heap.next), 4)
      ensures ok ==> Snapshot() == old(Snapshot()).(cmap := true, colormap := [Zeros(n), Zeros(n), Zeros(n)])
      ensures !ok ==> Snapshot() == Raised(old(Snapshot()), ERR_OUT_OF_MEMORY)
      ensures cmapTable.Some? ==> WellFormed(cmapTable.value, 3)
      ensures heap.live == old(heap.live) + TableBlocks(cmapTable)
      ensures forall b :: b in TableBlocks(cmapTable) ==> old(heap.next) <= b < heap.next
    {
      var t := Alloc2DByteArray(heap, 3, n);
      if t.None? {
        pub.ErrExit(ERR_OUT_OF_MEMORY);
        return false;
      }
      cmapTable := t;
      colormap := [Zeros(n), Zeros(n), Zeros(n)];
      ok := true;
    }

    /** The row width, then `whole_image`: height rows of the row width, or "Insufficient memory". */
    method AllocImage(heap: Heap, i: Info)
      requires pub.Valid() && heap.Valid() && imageTable.None?
      modifies this`rowWidth, this`wholeImage, this`imageTable, this`getPixelRow, this`compression, this`imageSize
      modifies pub`error, pub`errorMsg, pub`width, pub`height, heap`next, heap`live
      ensures pub.Valid() && heap.Valid()
      ensures Snapshot() == ImageOutcome(i, old(Snapshot()), imageTable.Some?)
      ensures imageTable.Some? <==> i.height >= 0 && AllGranted(heap.fails, old(heap.next), i.height + 1)
                                    && (i.height == 0 || RowWidth(i.width, i.bpp) >= 0)
      ensures imageTable.Some? ==> WellFormed(imageTable.value, Nat(i.height))
      ensures heap.live == old(heap.live) + TableBlocks(imageTable)
      ensures forall b :: b in TableBlocks(imageTable) ==> old(heap.next) <= b
    {
      rowWidth := ComputeRowWidth(i.width, i.bpp);
      var t := Alloc2DByteArray(heap, i.height, rowWidth);
      if t.None? {
        pub.ErrExit(ERR_OUT_OF_MEMORY);
        return;
      }
      Install(t.value, i);
    }

    /**
     * The image table `t` stored; then preload_image is installed and the
     * compression, image size, width and height stored.
     */
    method Install(t: Table, i: Info)
      requires pub.Valid()
      modifies this`wholeImage, this`imageTable, this`getPixelRow, this`compression, this`imageSize, pub`width, pub`height
      ensures pub.Valid() && imageTable == Some(t)
      ensures Snapshot() == old(Snapshot()).(image := true, wholeImage := Blank(i.height, rowWidth), reader := RowSource.Preload,
                                             compression := i.compression, imageSize := i.sizeImage, width := i.width, height := i.height)
    {
      imageTable := Some(t);
      wholeImage := Blank(i.height, rowWidth);
      getPixelRow := RowSource.Preload;
      compression, imageSize := i.compression, i.sizeImage;
      pub.width, pub.height := i.width, i.height;
    }

    /** The `n` pad bytes before the pixels, each through read_byte. */
    method SkipPad(n: nat)
      requires pub.Valid()
      modifies pub`pos, pub`error, pub`errorMsg
      ensures pub.Valid() && Snapshot() == Skipped(pub.input, old(Snapshot()), n)
    {
      ghost var p0, e0, m0 := pub.pos, pub.error, pub.errorMsg;
      var k := 0;
      while k < n
        invariant k <= n && pub.Valid() && ReadsDone(p0, e0, m0, k)
      {
        var unused := ReadCounted(p0, e0, m0, k);
        k := k + 1;
      }
    }

    /** The pad before the pixels, then the image table. */
    method PadStage(heap: Heap, h: Headers)
      requires DepthOk(h.info.bpp)
      requires pub.Valid() && heap.Valid() && imageTable.None?
      modifies this`rowWidth, this`wholeImage, this`imageTable, this`getPixelRow, this`compression, this`imageSize
      modifies pub`pos, pub`error, pub`errorMsg, pub`width, pub`height, heap`next, heap`live
      ensures pub.Valid() && heap.Valid()
      ensures Snapshot() == PadOutcome(pub.input, h, old(Snapshot()), imageTable.Some?)
      ensures imageTable.Some? ==> Whole(imageTable.value)
      ensures heap.live == old(heap.live) + TableBlocks(imageTable)
      ensures forall b :: b in TableBlocks(imageTable) ==> old(heap.next) <= b
    {
      var pad := Pad(h);
      if pad < 0 {
        pub.ErrExit(ERR_BMP_BADHEADER);
        return;
      }
      SkipPad(pad);
      AllocImage(heap, h.info);
    }

    /**
     * The colormap of a colour-mapped image: more than 256 colours are
     * refused; otherwise it is allocated and read.  `ok` when
     * start_input_bmp goes on.
     */
    method ColormapStage(heap: Heap, i: Info) returns (ok: bool)
      requires DepthOk(i.bpp)
      requires pub.Valid() && heap.Valid() && cmapTable.None?
      modifies this`colormap, this`cmapTable, pub`pos, pub`error, pub`errorMsg, heap`next, heap`live
      ensures pub.Valid() && heap.Valid()
      ensures ok <==> !Indexed(i) || cmapTable.Some?
      ensures cmapTable.Some? <==> Indexed(i) && i.clrUsed <= 256 && AllGranted(heap.fails, old(heap.next), 4)
      ensures !ok ==> Snapshot() == Raised(old(Snapshot()), if i.clrUsed > 256 then ERR_BMP_BADCMAP else ERR_OUT_OF_MEMORY)
      ensures ok && !Indexed(i) ==> Snapshot() == old(Snapshot())
      ensures ok && Indexed(i) ==>
                var n := CmapLen(i);
                Snapshot() == MapRead(pub.input, old(Snapshot()).(cmap := true, colormap := [Zeros(n), Zeros(n), Zeros(n)]), n, MapEntrySize(i))
      ensures cmapTable.Some? ==> Whole(cmapTable.value)
      ensures heap.live == old(heap.live) + TableBlocks(cmapTable)
      ensures forall b :: b in TableBlocks(cmapTable) ==> old(heap.next) <= b < heap.next
    {
      if !Indexed(i) {
        return true;
      }
      if i.clrUsed > 256 {
        pub.ErrExit(ERR_BMP_BADCMAP);
        return false;
      }
      var n := CmapLen(i);
      ok := AllocColormap(heap, n);
      if ok {
        ReadColormap(n, MapEntrySize(i));
      }
    }

    /** The colormap of a colour-mapped image, then the pad and the image table. */
    method MapStage(heap: Heap, h: Headers)
      requires DepthOk(h.info.bpp)
      requires pub.Valid() && heap.Valid() && imageTable.None? && cmapTable.None?
      modifies this`colormap, this`cmapTable
      modifies this`rowWidth, this`wholeImage, this`imageTable, this`getPixelRow, this`compression, this`imageSize
      modifies pub`pos, pub`error, pub`errorMsg, pub`width, pub`height, heap`next, heap`live
      ensures pub.Valid() && heap.Valid()
      ensures Snapshot() == MapOutcome(pub.input, h, old(Snapshot()), cmapTable.Some?, imageTable.Some?)
      ensures heap.live == old(heap.live) + TableBlocks(imageTable) + TableBlocks(cmapTable)
      ensures Owns(heap.live)
    {
      var ok := ColormapStage(heap, h.info);
      if ok {
        PadStage(heap, h);
      }
    }

    /** The depth (1, 2, 4, 8 or 24), then the plane count (1); then the colormap, the pad and the image table. */
    method Check(heap: Heap, h: Headers)
      requires pub.Valid() && heap.Valid() && imageTable.None? && cmapTable.None?
      modifies this`colormap, this`cmapTable
      modifies this`rowWidth, this`wholeImage, this`imageTable, this`getPixelRow, this`compression, this`imageSize
      modifies pub`pos, pub`error, pub`errorMsg, pub`width, pub`height, heap`next, heap`live
      ensures pub.Valid() && heap.Valid()
      ensures Snapshot() == Checked(pub.input, h, old(Snapshot()), cmapTable.Some?, imageTable.Some?)
      ensures heap.live == old(heap.live) + TableBlocks(imageTable) + TableBlocks(cmapTable)
      ensures Owns(heap.live)
    {
      if !DepthOk(h.info.bpp) {
        pub.ErrExit(ERR_BMP_BADDEPTH);
        return;
      }
      if h.info.planes != 1 {
        pub.ErrExit(ERR_BMP_BADPLANES);
        return;
      }
      MapStage(heap, h);
    }

    /**
     * The info header: its first 4 bytes give its length, which must lie
     * in [12, 64]; then the rest of it, whose length must be 12, 40 or 64.
     * The header's bytes when they pass.
     */
    method ReadInfoHeader(ghost offBits: int) returns (b: Option<seq<int>>)
      requires pub.Valid()
      modifies pub`pos, pub`error, pub`errorMsg
      ensures pub.Valid()
      ensures b.None? ==> Snapshot() == InfoOutcome(pub.input, offBits, old(Snapshot()), false, false)
      ensures b.Some? ==> var p := old(pub.pos);
                          && KnownInfoSize(|b.value|) && p + |b.value| <= |pub.input| && LE32(pub.input, p) == |b.value|
                          && b.value == pub.input[p..p + |b.value|] && Snapshot() == old(Snapshot()).(pos := p + |b.value|)
    {
      var ok, first := pub.ReadOK(4);
      if !ok {
        pub.ErrExit(ERR_INPUT_EOF);
        return None;
      }
      SameLE(first, 0, pub.input, old(pub.pos));
      var headerSize := LE32(first, 0);
      if headerSize < 12 || headerSize > 64 {
        pub.ErrExit(ERR_BMP_BADHEADER);
        return None;
      }
      var rest;
      ok, rest := pub.ReadOK(headerSize - 4);
      if !ok {
        pub.ErrExit(ERR_INPUT_EOF);
        return None;
      }
      if !KnownInfoSize(headerSize) {
        pub.ErrExit(ERR_BMP_BADHEADER);
        return None;
      }
      b := Some(first + rest);
    }

    /** The info header, decoded; then the checks, the colormap, the pad and the image table. */
    method ReadInfo(heap: Heap, offBits: int)
      requires pub.Valid() && heap.Valid() && imageTable.None? && cmapTable.None?
      modifies this`bitsPerPixel, this`colormap, this`cmapTable
      modifies this`rowWidth, this`wholeImage, this`imageTable, this`getPixelRow, this`compression, this`imageSize
      modifies pub`pos, pub`error, pub`errorMsg, pub`width, pub`height, heap`next, heap`live
      ensures pub.Valid() && heap.Valid()
      ensures Snapshot() == InfoOutcome(pub.input, offBits, old(Snapshot()), cmapTable.Some?, imageTable.Some?)
      ensures heap.live == old(heap.live) + TableBlocks(imageTable) + TableBlocks(cmapTable)
      ensures Owns(heap.live)
    {
      var b := ReadInfoHeader(offBits);
      if b.Some? {
        var info := ParseInfo(b.value);
        bitsPerPixel := info.bpp;
        Check(heap, Headers(offBits, info));
      }
    }

    /**
     * start_input_bmp: StartOutcome, with the allocations granted as the
     * allocator grants them, both tables owned by the decoder.
     */
    method Start(heap: Heap)
      requires pub.Valid() && heap.Valid() && imageTable.None? && cmapTable.None?
      modifies this`bitsPerPixel, this`colormap, this`cmapTable
      modifies this`rowWidth, this`wholeImage, this`imageTable, this`getPixelRow, this`compression, this`imageSize
      modifies pub`pos, pub`error, pub`errorMsg, pub`width, pub`height, heap`next, heap`live
      ensures pub.Valid() && heap.Valid()
      ensures Snapshot() == StartOutcome(pub.input, old(Snapshot()), cmapTable.Some?, imageTable.Some?)
      ensures heap.live == old(heap.live) + TableBlocks(imageTable) + TableBlocks(cmapTable)
      ensures Owns(heap.live)
    {
      var ok, fileHeader := pub.ReadOK(FILE_HEADER_LEN);
      if !ok {
        pub.ErrExit(ERR_INPUT_EOF);
        return;
      }
      SameLE(fileHeader, 0, pub.input, old(pub.pos));
      SameLE(fileHeader, 10, pub.input, old(pub.pos) + 10);
      if LE16(fileHeader, 0) != BMP_MAGIC {
        pub.ErrExit(ERR_BMP_NOT);
        return;
      }
      ReadInfo(heap, LE32(fileHeader, 10));
    }

    // -------------------------------------------------------------------
    // get_nbit_row and get_24bit_row
    // -------------------------------------------------------------------

    /**
     * get_nbit_row: steps back one stored row and delivers its first
     * `width` indices looked up in the colormap; the rest of the buffer
     * is left as it was.
     */
    method GetNBitRow(data: array<int>)
      requires |colormap| == 3 && 1 <= sourceRow <= |wholeImage|
      requires Nat(pub.width) <= |wholeImage[sourceRow - 1]| && Nat(pub.width) <= data.Length
      modifies this`sourceRow, data
      ensures sourceRow == old(sourceRow) - 1
      ensures data[..Nat(pub.width)] == NBitRow(colormap, wholeImage[sourceRow], Nat(pub.width))
      ensures data[Nat(pub.width)..] == old(data[Nat(pub.width)..])
    {
      sourceRow := sourceRow - 1;
      var inRow := wholeImage[sourceRow];
      ghost var want := NBitRow(colormap, inRow, Nat(pub.width));
      var col := 0;
      while col < pub.width
        invariant 0 <= col <= Nat(pub.width) && sourceRow == old(sourceRow) - 1
        invariant forall k :: 0 <= k < col ==> data[k] == want[k]
        invariant forall k :: col <= k < data.Length ==> data[k] == old(data[k])
      {
        var t := inRow[col] % 256;
        var r := MapAt(colormap, 0, t) % 256;
        var g := MapAt(colormap, 1, t) % 256;
        var b := MapAt(colormap, 2, t) % 256;
        data[col] := Argb(255, r, g, b);
        col := col + 1;
      }
    }

    /**
     * get_24bit_row: steps back one stored row and delivers its first
     * `width` pixels, each from three bytes in blue, green, red order; the
     * rest of the buffer is left as it was.
     */
    method Get24BitRow(data: array<int>)
      requires 1 <= sourceRow <= |wholeImage|
      requires 3 * Nat(pub.width) <= |wholeImage[sourceRow - 1]| && Nat(pub.width) <= data.Length
      modifies this`sourceRow, data
      ensures sourceRow == old(sourceRow) - 1
      ensures data[..Nat(pub.width)] == Bit24Row(wholeImage[sourceRow], Nat(pub.width))
      ensures data[Nat(pub.width)..] == old(data[Nat(pub.width)..])
    {
      sourceRow := sourceRow - 1;
      var inRow := wholeImage[sourceRow];
      ghost var want := Bit24Row(inRow, Nat(pub.width));
      var col, at := 0, 0;
      while col < pub.width
        invariant 0 <= col <= Nat(pub.width) && at == 3 * col && sourceRow == old(sourceRow) - 1
        invariant forall k :: 0 <= k < col ==> data[k] == want[k]
        invariant forall k :: col <= k < data.Length ==> data[k] == old(data[k])
      {
        var b := inRow[at] % 256;
        var g := inRow[at + 1] % 256;
        var r := inRow[at + 2] % 256;
        at := at + 3;
        data[col] := Argb(255, r, g, b);
        col := col + 1;
      }
    }

    // -------------------------------------------------------------------
    // preload_image, uncompressed
    // -------------------------------------------------------------------

    /**
     * One byte `c` stored through `out_ptr`, at column `out` of the row
     * `line`: its `8 / bpp` indices at a packed depth, most significant
     * first, or the byte itself.  Stores past the end of the row are
     * dropped, so the row holds the expansion of one more byte.
     */
    static method StoreByte(line: seq<int>, out: int, c: int, bpp: int, ghost base: seq<int>, ghost done: seq<int>)
      returns (line': seq<int>, next: int)
      requires DepthOk(bpp) && IsByte(c) && AllBytes(done)
      requires line == Overlay(base, Expand(done, bpp)) && out == |Expand(done, bpp)|
      ensures line' == Overlay(base, Expand(done + [c], bpp)) && next == |Expand(done + [c], bpp)|
    {
      assert (done + [c])[..|done|] == done;
      if bpp < 8 {
        line', next := StoreIndices(line, out, c, bpp, base, Expand(done, bpp));
      } else {
        OverlaySnoc(base, done, c);
        line' := Poke(line, out, c);
        next := out + 1;
      }
    }

    /** The `8 / bpp` indices of byte `c`, most significant first, `(c >> shift) & ((1 << bpp) - 1)` each. */
    static method StoreIndices(line: seq<int>, out: int, c: int, bpp: int, ghost base: seq<int>, ghost e: seq<int>)
      returns (line': seq<int>, next: int)
      requires Packed(bpp) && IsByte(c) && line == Overlay(base, e) && out == |e|
      ensures line' == Overlay(base, e + Unpack(c, bpp)) && next == out + 8 / bpp
    {
      ghost var u := Unpack(c, bpp);
      var ppb := 8 / bpp;
      var shift := 8 - bpp;
      var i := 0;
      line', next := line, out;
      assert e + u[..0] == e;
      while i < ppb
        invariant 0 <= i <= ppb && shift == 8 - bpp * (i + 1) && next == out + i
        invariant line' == Overlay(base, e + u[..i])
      {
        OverlaySnoc(base, e + u[..i], u[i]);
        assert (e + u[..i]) + [u[i]] == e + u[..i + 1];
        line' := Poke(line', next, c / Pow2(shift) % Pow2(bpp));
        next := next + 1;
        shift := shift - bpp;
        i := i + 1;
      }
      assert u[..ppb] == u;
    }

    /** The byte loop of a row: `n` bytes read and stored into `line` from its start. */
    method FillLine(line: seq<int>, n: nat, bpp: int) returns (line': seq<int>, ok: bool)
      requires pub.Valid() && DepthOk(bpp)
      modifies pub`pos, pub`error, pub`errorMsg
      ensures pub.Valid() && ok == (old(pub.pos) + n <= |pub.input|)
      ensures line' == Overlay(line, Expand(Avail(pub.input, old(pub.pos), n), bpp))
      ensures pub.pos == Min(old(pub.pos) + n, |pub.input|)
      ensures (pub.error, pub.errorMsg) == Raise(old(pub.error), old(pub.errorMsg), !ok, ERR_INPUT_EOF)
    {
      ghost var p0, s := pub.pos, pub.input;
      line' := line;
      var out := 0;
      var col := n;
      assert Expand(s[p0..pub.pos], bpp) == [];
      assert Overlay(line, []) == line;
      ok := true;
      while col > 0
        invariant 0 <= col <= n && pub.pos == p0 + (n - col) <= |s| && pub.Valid()
        invariant line' == Overlay(line, Expand(s[p0..pub.pos], bpp))
        invariant out == |Expand(s[p0..pub.pos], bpp)|
        invariant pub.error == old(pub.error) && pub.errorMsg == old(pub.errorMsg) && ok
      {
        var c := pub.Getc();
        if c == EOF {
          pub.ErrExit(ERR_INPUT_EOF);
          ok := false;
          break;
        }
        assert s[p0..pub.pos] == s[p0..pub.pos - 1] + [c];
        line', out := StoreByte(line', out, c, bpp, line, s[p0..pub.pos - 1]);
        col := col - 1;
      }
      assert Avail(s, p0, n) == s[p0..pub.pos];
    }

    /**
     * The uncompressed pixels: `nc` bytes for each of the `height` rows, in
     * file order; `ok` unless the stream ends first, which raises "Premature
     * end of input file" and leaves the rows after that point as they were.
     */
    method LoadUncompressed(nc: int) returns (ok: bool)
      requires pub.Valid() && DepthOk(bitsPerPixel) && |wholeImage| == pub.height
      modifies this`wholeImage, pub`pos, pub`error, pub`errorMsg
      ensures pub.Valid() && (ok <==> old(pub.pos) + |wholeImage| * Nat(nc) <= |pub.input|)
      ensures wholeImage == Uncompressed(pub.input, old(pub.pos), old(wholeImage), nc, bitsPerPixel)
      ensures pub.pos == Min(old(pub.pos) + |wholeImage| * Nat(nc), |pub.input|)
      ensures (pub.error, pub.errorMsg) == Raise(old(pub.error), old(pub.errorMsg), !ok, ERR_INPUT_EOF)
    {
      wholeImage, ok := FillRows(wholeImage, nc, bitsPerPixel);
    }

    /** The row loop of the uncompressed pixels, over a copy of the rows. */
    method FillRows(img0: seq<seq<int>>, nc: int, bpp: int) returns (img: seq<seq<int>>, ok: bool)
      requires pub.Valid() && DepthOk(bpp)
      modifies pub`pos, pub`error, pub`errorMsg
      ensures pub.Valid() && img == Uncompressed(pub.input, old(pub.pos), img0, nc, bpp)
      ensures ok ==> pub.pos == old(pub.pos) + |img0| * Nat(nc) && pub.error == old(pub.error) && pub.errorMsg == old(pub.errorMsg)
      ensures !ok ==> pub.pos == |pub.input| < old(pub.pos) + |img0| * Nat(nc)
      ensures !ok ==> (pub.error, pub.errorMsg) == Raise(old(pub.error), old(pub.errorMsg), true, ERR_INPUT_EOF)
    {
      ghost var s, p0 := pub.input, pub.pos;
      var n := Nat(nc);
      var row := 0;
      img := img0;
      assert img == Uncompressed(s, p0, img0[..0], nc, bpp) + img0[0..];
      while row < |img|
        invariant 0 <= row <= |img0| && pub.Valid()
        invariant pub.pos == p0 + row * n <= |s|
        invariant img == Uncompressed(s, p0, img0[..row], nc, bpp) + img0[row..]
        invariant pub.error == old(pub.error) && pub.errorMsg == old(pub.errorMsg)
      {
        img, ok := NextRow(img, row, p0, img0, nc, bpp);
        if !ok {
          ShortRows(s, p0, img0, nc, bpp, row, img);
          return;
        }
        row := row + 1;
      }
      assert img0[..row] == img0 && img0[row..] == [];
      assert img == Uncompressed(s, p0, img0, nc, bpp) + [];
      ok := true;
    }

    /** Row `row` read over its copy in `img`, which then holds one more row of the result. */
    method NextRow(img: seq<seq<int>>, row: nat, ghost p0: nat, ghost img0: seq<seq<int>>, nc: int, bpp: int)
      returns (img': seq<seq<int>>, ok: bool)
      requires pub.Valid() && DepthOk(bpp) && row < |img0|
      requires img == Uncompressed(pub.input, p0, img0[..row], nc, bpp) + img0[row..]
      requires pub.pos == p0 + row * Nat(nc) <= |pub.input|
      modifies pub`pos, pub`error, pub`errorMsg
      ensures pub.Valid() && img' == Uncompressed(pub.input, p0, img0[..row + 1], nc, bpp) + img0[row + 1..]
      ensures ok ==> pub.pos == p0 + (row + 1) * Nat(nc) && pub.error == old(pub.error) && pub.errorMsg == old(pub.errorMsg)
      ensures !ok ==> p0 + (row + 1) * Nat(nc) > |pub.input| == pub.pos
      ensures !ok ==> (pub.error, pub.errorMsg) == Raise(old(pub.error), old(pub.errorMsg), true, ERR_INPUT_EOF)
    {
      assert img[row] == img0[row];
      var line;
      line, ok := FillLine(img[row], Nat(nc), bpp);
      img' := img[row := line];
      RowDone(pub.input, p0, img0, nc, bpp, row, img, line);
      MulSucc(row, Nat(nc));
    }

    // -------------------------------------------------------------------
    // extract_rle_data
    // -------------------------------------------------------------------

    /** extract_rle_data's state: `i` bytes counted and `out_ptr` at `row`, `col`. */
    ghost function At(i: int, row: int, col: int, stopped: bool): Rle
      reads this, pub
      requires pub.Valid()
    {
      Rle(pub.pos, i, row, col, wholeImage, pub.error, pub.errorMsg, stopped)
    }

    /**
     * An encoded run: `n` samples of the byte `b` (at 4 bits its high and
     * low nibbles in turn) stored from `row`, `col`, none from the width on.
     */
    method RunTurn(cfg: RleCfg, row: int, col: int, b: int, n: int, ghost st: Rle) returns (col': int)
      requires st.row == row && st.col == col && st.img == wholeImage
      modifies this`wholeImage
      ensures RunFrom(cfg, st, b, 0, n) == st.(img := wholeImage, col := col')
    {
      col' := col;
      var j := 0;
      while j < n
        invariant 0 <= j
        invariant RunFrom(cfg, st.(img := wholeImage, col := col'), b, j, n) == RunFrom(cfg, st, b, 0, n)
        decreases n - j
      {
        if col' < cfg.width {
          var v := if !cfg.nibbles then b else if j % 2 == 0 then b / 16 else b % 16;
          wholeImage := Put(wholeImage, row, col', v);
          col' := col' + 1;
        }
        j := j + 1;
      }
    }

    /**
     * An absolute-mode literal of `n` samples: a byte read for each sample
     * (two samples at 4 bits), dropped from the width on; the end of the
     * stream raises "Premature end of input file" and stops the routine.
     */
    method LiteralTurn(cfg: RleCfg, i: int, row: int, col: int, n: int) returns (i': int, col': int, stopped: bool)
      requires pub.Valid()
      modifies this`wholeImage, pub`pos, pub`error, pub`errorMsg
      ensures pub.Valid()
      ensures At(i', row, col', stopped) == LiteralFrom(pub.input, cfg, old(At(i, row, col, false)), 0, n)
    {
      ghost var st0 := At(i, row, col, false);
      i', col', stopped := i, col, false;
      var j := 0;
      while j < n
        invariant pub.Valid() && 0 <= j
        invariant LiteralFrom(pub.input, cfg, At(i', row, col', false), j, n) == LiteralFrom(pub.input, cfg, st0, 0, n)
        decreases n - j
      {
        i', col', j, stopped := LiteralSample(cfg, i', row, col', j, n);
        if stopped {
          return;
        }
      }
    }

    /**
     * One pass of a literal's loop: a byte read, dropped from the width
     * on, otherwise stored, or at 4 bits its high nibble and, when sample
     * `j + 1` is wanted, its low nibble; `j` moves past the samples used.
     */
    method LiteralSample(cfg: RleCfg, i: int, row: int, col: int, j: int, n: int) returns (i': int, col': int, j': int, stopped: bool)
      requires pub.Valid()
      modifies this`wholeImage, pub`pos, pub`error, pub`errorMsg
      ensures pub.Valid()
      ensures stopped <==> old(pub.pos) == |pub.input|
      ensures stopped ==> At(i', row, col', true) == RleStop(old(At(i, row, col, false)), ERR_INPUT_EOF)
      ensures !stopped ==> && j' == j + LiteralAdvance(cfg, old(At(i, row, col, false)))
                           && At(i', row, col', false) == LiteralByte(cfg, old(At(i, row, col, false)), pub.input[old(pub.pos)], j, n)
    {
      i', col', j', stopped := i, col, j, false;
      var c := pub.Getc();
      if c == EOF {
        pub.ErrExit(ERR_INPUT_EOF);
        return i, col, j, true;
      }
      i' := i' + 1;
      if col' < cfg.width {
        if cfg.nibbles {
          wholeImage := Put(wholeImage, row, col', c / 16);
          col' := col' + 1;
          j' := j' + 1;
          if j' < n {
            wholeImage := Put(wholeImage, row, col', c % 16);
            col' := col' + 1;
          }
        } else {
          wholeImage := Put(wholeImage, row, col', c);
          col' := col' + 1;
        }
      }
      j' := j' + 1;
    }

    /**
     * The command whose two bytes `b1`, `b2` were just read: a run, the end
     * of a row, the end of the bitmap, an offset, or a literal followed by
     * a pad byte when its bytes are odd in number.
     */
    method Command(cfg: RleCfg, i: int, row: int, col: int, b1: int, b2: int) returns (i': int, row': int, col': int, stopped: bool)
      requires pub.Valid() && IsByte(b1) && IsByte(b2)
      modifies this`wholeImage, pub`pos, pub`error, pub`errorMsg
      ensures pub.Valid()
      ensures At(i', row', col', stopped) == RleCommand(pub.input, cfg, true, old(At(i, row, col, false)), b1, b2)
    {
      i', row', col', stopped := i, row, col, false;
      if b1 != 0 {
        col' := RunTurn(cfg, row, col, b2, b1, At(i, row, col, false));
      } else if b2 == 0 {
        row', col' := row + 1, 0;
      } else if b2 == 1 {
        stopped := true;
      } else if b2 == 2 {
        var xoff := ReadByte();
        var yoff := ReadByte();
        i', col', row' := i + 2, col + xoff, row + yoff;
      } else {
        i', col', stopped := LiteralTurn(cfg, i, row, col, b2);
        var bytes := if cfg.nibbles then (b2 + 1) / 2 else b2;
        if !stopped && bytes % 2 == 1 {
          var c := pub.Getc();
          if c == EOF {
            pub.ErrExit(ERR_INPUT_EOF);
            stopped := true;
          } else {
            i' := i' + 1;
          }
        }
      }
    }

    /** One turn of extract_rle_data's loop: two bytes, then their command. */
    method RleTurn(cfg: RleCfg, i: int, row: int, col: int) returns (i': int, row': int, col': int, stopped: bool)
      requires pub.Valid()
      modifies this`wholeImage, pub`pos, pub`error, pub`errorMsg
      ensures pub.Valid()
      ensures At(i', row', col', stopped) == RleStep(pub.input, cfg, true, old(At(i, row, col, false)))
    {
      var b1 := pub.Getc();
      if b1 == EOF {
        pub.ErrExit(ERR_INPUT_EOF);
        return i, row, col, true;
      }
      var b2 := pub.Getc();
      if b2 == EOF {
        pub.ErrExit(ERR_INPUT_EOF);
        return i, row, col, true;
      }
      i', row', col', stopped := Command(cfg, i + 2, row, col, b1, b2);
    }

    /**
     * extract_rle_data: commands from the top left of `whole_image` until
     * `image_size` bytes are counted, the end of the bitmap, or an error
     * that stops it; the pad rule is the byte-count one.
     */
    method ExtractRleData()
      requires pub.Valid()
      modifies this`wholeImage, pub`pos, pub`error, pub`errorMsg
      ensures pub.Valid()
      ensures var r := RleFrom(pub.input, RleCfgOf(old(Snapshot())), true, RleStart(old(Snapshot())));
              Snapshot() == old(Snapshot()).(pos := r.pos, wholeImage := r.img, error := r.error, msg := r.msg)
    {
      var cfg := RleCfg(pub.width, compression != Some(1), SizeOf(imageSize));
      ghost var start := At(0, 0, 0, false);
      var i, row, col := 0, 0, 0;
      while i < cfg.imageSize
        invariant pub.Valid()
        invariant RleFrom(pub.input, cfg, true, At(i, row, col, false)) == RleFrom(pub.input, cfg, true, start)
        decreases cfg.imageSize - i
      {
        var stopped;
        ghost var here := At(i, row, col, false);
        i, row, col, stopped := RleTurn(cfg, i, row, col);
        assert RleOn(pub.input, cfg, true, here) == RleFrom(pub.input, cfg, true, At(i, row, col, stopped));
        if stopped {
          return;
        }
      }
    }

    // -------------------------------------------------------------------
    // preload_image
    // -------------------------------------------------------------------

    /** The state start_input_bmp leaves when it installs preload_image, with at least one row to deliver. */
    ghost predicate Loadable()
      reads this, pub
    {
      getPixelRow == RowSource.Preload && Shaped()
    }

    /** `whole_image` as start_input_bmp allocates it, with at least one row, and a colormap unless the depth is 24. */
    ghost predicate Shaped()
      reads this, pub
    {
      && pub.Valid() && DepthOk(bitsPerPixel) && pub.height >= 1
      && rowWidth == RowWidth(pub.width, bitsPerPixel)
      && |wholeImage| == pub.height && (forall r :: 0 <= r < |wholeImage| ==> |wholeImage[r]| == Nat(rowWidth))
      && (bitsPerPixel != 24 ==> |colormap| == 3)
    }

    /** The bytes read for each uncompressed row: the row width, or at a packed depth the width's bytes rounded up to 4. */
    method RowBytes() returns (nc: int)
      ensures nc == NumCols(pub.width, bitsPerPixel, rowWidth)
    {
      nc := rowWidth;
      if Packed(bitsPerPixel) {
        var ppb := 8 / bitsPerPixel;
        assert ppb == if bitsPerPixel == 1 then 8 else if bitsPerPixel == 2 then 4 else 2;
        nc := PackedBytes(pub.width, ppb);
      }
    }

    /** The `ppb`-pixels-per-byte count, one more for a partial byte, rounded up to 4. */
    static method PackedBytes(w: int, ppb: int) returns (nc: int)
      requires ppb > 0
      ensures nc == PackedCols(w, ppb)
    {
      nc := CDiv(w, ppb);
      if CRem(w, ppb) != 0 {
        nc := nc + 1;
      }
      nc := RoundUp(nc);
    }

    /**
     * The pixels of preload_image: uncompressed rows (also for an OS/2
     * 1.x header, which has no compression field), run-length coded rows
     * for compression 1 and 2, nothing for any other compression.  `ok`
     * unless the stream ran out inside the uncompressed rows.
     */
    method LoadPixels() returns (ok: bool)
      requires Loadable()
      modifies this`wholeImage, pub`pos, pub`error, pub`errorMsg
      ensures pub.Valid() && SameShape(wholeImage, old(wholeImage))
      ensures ok ==> Snapshot() == PreloadOutcome(pub.input, old(Snapshot())).(reader := RowSource.Preload)
      ensures !ok ==> Snapshot() == PreloadOutcome(pub.input, old(Snapshot()))
      ensures ok <==> PreloadOutcome(pub.input, old(Snapshot())).reader != RowSource.Preload
    {
      if compression == Some(1) || compression == Some(2) {
        LoadRle();
        ok := true;
      } else if compression.None? || compression == Some(0) {
        ok := LoadRaw();
      } else {
        ok := true;
      }
    }

    /** Run-length coded pixels. */
    method LoadRle()
      requires Loadable() && (compression == Some(1) || compression == Some(2))
      modifies this`wholeImage, pub`pos, pub`error, pub`errorMsg
      ensures pub.Valid() && SameShape(wholeImage, old(wholeImage))
      ensures Snapshot() == RlePreload(pub.input, old(Snapshot())).(reader := RowSource.Preload)
    {
      ExtractRleData();
    }

    /** Uncompressed pixels; `ok` unless the stream runs out inside them. */
    method LoadRaw() returns (ok: bool)
      requires Loadable() && (compression.None? || compression == Some(0))
      modifies this`wholeImage, pub`pos, pub`error, pub`errorMsg
      ensures pub.Valid() && SameShape(wholeImage, old(wholeImage))
      ensures ok ==> Snapshot() == PlainPreload(pub.input, old(Snapshot())).(reader := RowSource.Preload)
      ensures !ok ==> Snapshot() == PlainPreload(pub.input, old(Snapshot()))
      ensures ok <==> PlainPreload(pub.input, old(Snapshot())).reader != RowSource.Preload
    {
      ghost var st := Snapshot();
      var nc := RowBytes();
      ok := LoadUncompressed(nc);
      RawOutcome(pub.input, st, nc, ok);
      assert Snapshot() == st.(pos := pub.pos, wholeImage := wholeImage, error := pub.error, msg := pub.errorMsg);
    }

    /**
     * preload_image: the pixels loaded, then the row reader for the depth
     * installed, `source_row` set to the height and the first row (the
     * last stored) delivered into `data`.  When the stream runs out inside
     * uncompressed rows it returns before any of that.
     */
    method Preload(data: array<int>)
      requires Loadable() && Nat(pub.width) <= data.Length
      modifies this`wholeImage, this`getPixelRow, this`sourceRow, pub`pos, pub`error, pub`errorMsg, data
      ensures pub.Valid() && SameShape(wholeImage, old(wholeImage))
      ensures Snapshot() == PreloadOutcome(pub.input, old(Snapshot()))
      ensures getPixelRow == RowSource.Preload ==> sourceRow == old(sourceRow) && data[..] == old(data[..])
      ensures getPixelRow != RowSource.Preload ==>
                && sourceRow == pub.height - 1
                && data[..Nat(pub.width)] == (if bitsPerPixel == 24 then Bit24Row(wholeImage[sourceRow], Nat(pub.width))
                                              else NBitRow(colormap, wholeImage[sourceRow], Nat(pub.width)))
                && data[Nat(pub.width)..] == old(data[Nat(pub.width)..])
    {
      var ok := LoadPixels();
      if ok {
        FirstRow(data);
      }
    }

    /** The row reader for the depth installed, `source_row` set to height - 1, and that row delivered. */
    method FirstRow(data: array<int>)
      requires Shaped() && Nat(pub.width) <= data.Length
      modifies this`getPixelRow, this`sourceRow, data
      ensures getPixelRow == ReaderFor(bitsPerPixel) && sourceRow == pub.height - 1
      ensures data[..Nat(pub.width)] == (if bitsPerPixel == 24 then Bit24Row(wholeImage[sourceRow], Nat(pub.width))
                                         else NBitRow(colormap, wholeImage[sourceRow], Nat(pub.width)))
      ensures data[Nat(pub.width)..] == old(data[Nat(pub.width)..])
    {
      if bitsPerPixel == 24 {
        getPixelRow := Bit24;
      } else {
        getPixelRow := NBit;
      }
      sourceRow := pub.height;
      if getPixelRow == Bit24 {
        Get24BitRow(data);
      } else {
        GetNBitRow(data);
      }
    }

    /** finish_input_bmp: the colormap table, then `whole_image`, each freed when it is not NULL. */
    method Finish(heap: Heap)
      requires heap.Valid() && Owns(heap.live)
      requires block in heap.live && block !in TableBlocks(cmapTable) + TableBlocks(imageTable)
      modifies heap`live
      ensures heap.Valid() && heap.live == old(heap.live) - TableBlocks(cmapTable) - TableBlocks(imageTable) - {block}
    {
      if cmapTable.Some? {
        OwnedTableFreeable(cmapTable.value, |cmapTable.value.slots| - 1, heap.live);
      }
      Free2D(heap, cmapTable);
      if imageTable.Some? {
        OwnedTableFreeable(imageTable.value, |imageTable.value.slots| - 1, heap.live);
      }
      Free2D(heap, imageTable);
      heap.Free(Some(block));
    }
  }

  /** bmp_init: the decoder's state block, or NULL when the allocator refuses it. */
  method BmpInit(heap: Heap, stream: seq<int>) returns (src: BmpSource?)
    requires heap.Valid() && AllBytes(stream)
    modifies heap`next, heap`live
    ensures heap.Valid() && heap.next == old(heap.next) + 1
    ensures src == null <==> heap.fails(old(heap.next))
    ensures src != null ==>
              && fresh(src) && fresh(src.pub) && src.pub.Valid() && src.pub.input == stream && src.pub.pos == 0
              && src.pub.width == -1 && src.pub.height == -1 && src.pub.rowNum == 0 && !src.pub.error
              && src.rowWidth == 0 && src.sourceRow == 0 && src.imageTable.None? && src.cmapTable.None?
              && src.imageSize == Some(0) && src.getPixelRow == NoSource
              && src.block == old(heap.next) && heap.live == old(heap.live) + {src.block}
    ensures src == null ==> heap.live == old(heap.live)
  {
    var h := heap.Malloc(SOURCE_STRUCT_SIZE);
    if h.None? {
      return null;
    }
    src := new BmpSource(stream, h.value);
  }
}
