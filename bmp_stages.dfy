/**
 * What the BMP decoder object's routines promise, stated on values:
 * the pixel rows get_nbit_row and get_24bit_row deliver, the state
 * start_input_bmp leaves for preload_image, and the image preload_image
 * builds, with the lemmas the object's methods use to meet them.
 */
module BmpStages {
  import opened DecodeImage
  import opened Common
  import opened ReadBmp

  // ---------------------------------------------------------------------
  // What the row readers deliver
  // ---------------------------------------------------------------------

  /**
   * Entry `t` of colormap channel `j`.  An index past the colormap reads 0
   * here; the source reads past the end of the table then.
   */
  function MapAt(cmap: seq<seq<int>>, j: int, t: int): int
    requires 0 <= j < |cmap|
  {
    if 0 <= t < |cmap[j]| then cmap[j][t] else 0
  }

  /**
   * get_nbit_row: the first `w` indices of a stored row (each masked to a
   * byte) looked up in the colormap, channel 0 red, 1 green and 2 blue
   * (each masked to a byte), as opaque packed pixels.
   */
  function NBitRow(cmap: seq<seq<int>>, row: seq<int>, w: nat): (px: seq<int>)
    requires |cmap| == 3 && w <= |row|
    ensures |px| == w
  {
    seq(w, c requires 0 <= c < w =>
      var t := row[c] % 256;
      Argb(255, MapAt(cmap, 0, t) % 256, MapAt(cmap, 1, t) % 256, MapAt(cmap, 2, t) % 256))
  }

  /** get_24bit_row: pixel `c` from the bytes blue, green, red at `3 * c` of the stored row. */
  function Bit24Row(row: seq<int>, w: nat): (px: seq<int>)
    requires 3 * w <= |row|
    ensures |px| == w
  {
    seq(w, c requires 0 <= c < w => Argb(255, row[3 * c + 2] % 256, row[3 * c + 1] % 256, row[3 * c] % 256))
  }

  /** Every pixel of a colour-mapped row carries its entry's red, green and blue, fully opaque. */
  lemma NBitRowChannels(cmap: seq<seq<int>>, row: seq<int>, w: nat, c: nat)
    requires ColormapOk(cmap) && w <= |row| && c < w && IsByte(row[c]) && row[c] < |cmap[0]|
    ensures var t := row[c];
            Unpacks(NBitRow(cmap, row, w)[c], 255, cmap[0][t], cmap[1][t], cmap[2][t])
  {
    var t := row[c];
    assert t % 256 == t;
    assert cmap[0][t] % 256 == cmap[0][t] && cmap[1][t] % 256 == cmap[1][t] && cmap[2][t] % 256 == cmap[2][t];
    ArgbChannels(255, cmap[0][t], cmap[1][t], cmap[2][t]);
  }

  /** A 24-bit pixel is stored blue, green, red: the packed pixel carries red, green, blue in that order. */
  lemma Bit24RowChannels(row: seq<int>, w: nat, c: nat)
    requires 3 * w <= |row| && c < w && AllBytes(row)
    ensures Unpacks(Bit24Row(row, w)[c], 255, row[3 * c + 2], row[3 * c + 1], row[3 * c])
  {
    assert row[3 * c + 2] % 256 == row[3 * c + 2];
    assert row[3 * c + 1] % 256 == row[3 * c + 1];
    assert row[3 * c] % 256 == row[3 * c];
    ArgbChannels(255, row[3 * c + 2], row[3 * c + 1], row[3 * c]);
  }

  /**
   * A run-length coded bitmap of `rows` followed by its end-of-bitmap
   * escape, within the image size: preload_image paints every row, reads
   * exactly the bitmap, raises nothing and installs the row reader.
   */
  lemma PreloadRle(s: seq<int>, st: Setup, rows: seq<seq<Packet>>)
    requires AllBytes(s) && st.pos <= |s| && (st.compression == Some(1) || st.compression == Some(2))
    requires BitmapFits(RleCfgOf(st), st.wholeImage, rows)
    requires Holds(s, st.pos, EncodeBitmap(rows)) && |EncodeBitmap(rows)| <= SizeOf(st.imageSize)
    ensures var r := RlePreload(s, st);
            && r.pos == st.pos + |EncodeBitmap(rows)| && r.error == st.error && r.msg == st.msg
            && r.wholeImage == Painted(RleCfgOf(st), st.wholeImage, rows) && r.reader == ReaderFor(st.bpp)
  {
    RleRoundTrip(s, RleCfgOf(st), st.wholeImage, rows, st.pos, st.error, st.msg);
  }

  /**
   * Uncompressed rows with the stream long enough: every row read over
   * the old one, the stream just past them, nothing raised and the row
   * reader installed.
   */
  lemma PreloadRaw(s: seq<int>, st: Setup)
    requires AllBytes(s) && st.pos <= |s| && (st.compression.None? || st.compression == Some(0))
    requires st.pos + RawSpan(st) <= |s|
    ensures PlainPreload(s, st)
            == st.(pos := st.pos + RawSpan(st), reader := ReaderFor(st.bpp),
                   wholeImage := Uncompressed(s, st.pos, st.wholeImage, NumCols(st.width, st.bpp, st.rowWidth), st.bpp))
  {
  }

  /** With the stream long enough, row `r` of the uncompressed pixels is the whole `r`-th run of `nc` bytes, expanded. */
  lemma FullRow(s: seq<int>, p: nat, img: seq<seq<int>>, nc: nat, bpp: int, r: nat)
    requires AllBytes(s) && r < |img| && p + |img| * nc <= |s|
    ensures |Avail(s, p + r * nc, nc)| == nc
    ensures Uncompressed(s, p, img, nc, bpp)[r] == Overlay(img[r], Expand(Avail(s, p + r * nc, nc), bpp))
  {
    MulLe(r + 1, |img|, nc);
    MulSucc(r, nc);
    NatMul(r, nc);
    assert p + r * nc + nc <= |s|;
    UncompressedRow(s, p, img, nc, bpp, r);
  }


  /** Rows from `k` on start at or past the end of the stream: they read nothing and stay as they were. */
  lemma {:induction false} UncompressedShort(s: seq<int>, p: nat, img: seq<seq<int>>, nc: int, bpp: int, k: nat)
    requires AllBytes(s) && k <= |img| && p + k * Nat(nc) >= |s|
    ensures Uncompressed(s, p, img, nc, bpp) == Uncompressed(s, p, img[..k], nc, bpp) + img[k..]
    decreases |img|
  {
    if |img| > k {
      var last := |img| - 1;
      var init := img[..last];
      UncompressedShort(s, p, init, nc, bpp, k);
      MulLe(k, last, Nat(nc));
      assert Avail(s, p + last * Nat(nc), Nat(nc)) == [];
      assert Overlay(img[last], []) == img[last];
      assert init[..k] == img[..k] && init[k..] + [img[last]] == img[k..];
    } else {
      assert img[..k] == img && img[k..] == [];
    }
  }

  /** The stream ending inside row `row`: the rows read so far and the untouched rest are the whole result. */
  lemma ShortRows(s: seq<int>, p: nat, img0: seq<seq<int>>, nc: int, bpp: int, row: nat, img: seq<seq<int>>)
    requires AllBytes(s) && row < |img0| && p + (row + 1) * Nat(nc) > |s|
    requires img == Uncompressed(s, p, img0[..row + 1], nc, bpp) + img0[row + 1..]
    ensures img == Uncompressed(s, p, img0, nc, bpp) && p + |img0| * Nat(nc) > |s|
  {
    UncompressedShort(s, p, img0, nc, bpp, row + 1);
    MulLe(row + 1, |img0|, Nat(nc));
  }

  /** One more row stored: the rows before it are the result's, the rows after it untouched. */
  lemma RowDone(s: seq<int>, p: nat, img0: seq<seq<int>>, nc: int, bpp: int, row: nat, img: seq<seq<int>>, line: seq<int>)
    requires AllBytes(s) && row < |img0|
    requires img == Uncompressed(s, p, img0[..row], nc, bpp) + img0[row..]
    requires line == RawRow(s, p, img0[row], nc, bpp, row)
    ensures img[row := line] == Uncompressed(s, p, img0[..row + 1], nc, bpp) + img0[row + 1..]
  {
    var pre := img0[..row + 1];
    assert pre[..row] == img0[..row] && pre[row] == img0[row];
    assert img0[row..] == [img0[row]] + img0[row + 1..];
  }

  /** Row `row` of the uncompressed pixels is that row read over the old one. */
  lemma {:induction false} UncompressedRow(s: seq<int>, p: nat, img: seq<seq<int>>, nc: int, bpp: int, row: nat)
    requires AllBytes(s) && row < |img|
    ensures Uncompressed(s, p, img, nc, bpp)[row] == RawRow(s, p, img[row], nc, bpp, row)
    decreases |img|
  {
    var last := |img| - 1;
    if row < last {
      UncompressedRow(s, p, img[..last], nc, bpp, row);
    }
  }

  /** The image size field, 0 when the header has none. */
  function SizeOf(v: Option<int>): int
  {
    if v.Some? then v.value else 0
  }

  /** What extract_rle_data works with: the width, 4-bit samples unless the compression is 1, the image size. */
  function RleCfgOf(st: Setup): RleCfg
  {
    RleCfg(st.width, st.compression != Some(1), SizeOf(st.imageSize))
  }

  /** extract_rle_data's start: nothing counted, `out_ptr` at the first cell of `whole_image`. */
  function RleStart(st: Setup): Rle
  {
    Rle(st.pos, 0, 0, 0, st.wholeImage, st.error, st.msg, false)
  }

  /** The row reader preload_image installs for a depth. */
  function ReaderFor(bpp: int): RowSource
  {
    if bpp == 24 then Bit24 else NBit
  }

  /**
   * preload_image's effect on the decoder's state: the pixels loaded as
   * the compression says, then the row reader for the depth, unless the
   * stream ran out inside the uncompressed rows.
   */
  function PreloadOutcome(s: seq<int>, st: Setup): (r: Setup)
    requires AllBytes(s) && st.pos <= |s|
  {
    if RleCoded(st) then RlePreload(s, st) else PlainPreload(s, st)
  }

  /** Compression 1 (8-bit) or 2 (4-bit run-length coding). */
  predicate RleCoded(st: Setup)
  {
    st.compression == Some(1) || st.compression == Some(2)
  }

  /** preload_image on run-length coded pixels: extract_rle_data, then the row reader. */
  function RlePreload(s: seq<int>, st: Setup): (r: Setup)
    requires AllBytes(s) && st.pos <= |s|
  {
    var e := RleFrom(s, RleCfgOf(st), true, RleStart(st));
    st.(pos := e.pos, wholeImage := e.img, error := e.error, msg := e.msg, reader := ReaderFor(st.bpp))
  }

  /**
   * preload_image on any other compression: uncompressed rows when there
   * is no compression field or it is 0, then the row reader unless the
   * stream ran out inside them; nothing loaded for an unknown compression.
   */
  function PlainPreload(s: seq<int>, st: Setup): (r: Setup)
    requires AllBytes(s) && st.pos <= |s|
  {
    if st.compression.None? || st.compression == Some(0) then
      var nc := NumCols(st.width, st.bpp, st.rowWidth);
      var end := st.pos + RawSpan(st);
      var st1 := st.(pos := Min(end, |s|), wholeImage := Uncompressed(s, st.pos, st.wholeImage, nc, st.bpp));
      if end > |s| then Raised(st1, ERR_INPUT_EOF) else st1.(reader := ReaderFor(st.bpp))
    else st.(reader := ReaderFor(st.bpp))
  }

  /** The bytes of all the uncompressed rows. */
  function RawSpan(st: Setup): nat
  {
    var n := Nat(NumCols(st.width, st.bpp, st.rowWidth));
    NatMul(|st.wholeImage|, n);
    |st.wholeImage| * n
  }

  /** The uncompressed branch of preload_image: the rows read, the stream short or not, the row reader installed only when it was not. */
  lemma RawOutcome(s: seq<int>, st: Setup, nc: int, ok: bool)
    requires AllBytes(s) && st.pos <= |s| && (st.compression.None? || st.compression == Some(0))
    requires nc == NumCols(st.width, st.bpp, st.rowWidth) && st.reader == RowSource.Preload
    requires ok <==> st.pos + RawSpan(st) <= |s|
    ensures var raised := Raise(st.error, st.msg, !ok, ERR_INPUT_EOF);
            var r := st.(pos := Min(st.pos + RawSpan(st), |s|),
                         wholeImage := Uncompressed(s, st.pos, st.wholeImage, nc, st.bpp), error := raised.0, msg := raised.1);
            && (ok ==> r == PlainPreload(s, st).(reader := RowSource.Preload))
            && (!ok ==> r == PlainPreload(s, st))
            && (ok <==> PlainPreload(s, st).reader != RowSource.Preload)
  {
  }

  /** A store through `out_ptr` at column `k` of a row: dropped past the row's end. */
  function Poke(line: seq<int>, k: int, v: int): (r: seq<int>)
    ensures |r| == |line|
  {
    if 0 <= k < |line| then line[k := v] else line
  }

  /** A row holding `data` over `base` holds one more value once the next store is made. */
  lemma OverlaySnoc(base: seq<int>, data: seq<int>, v: int)
    ensures Poke(Overlay(base, data), |data|, v) == Overlay(base, data + [v])
  {
  }


  /** Little-endian fields read from a copy of the stream's bytes are the stream's own. */
  lemma SameLE(a: seq<int>, i: nat, b: seq<int>, j: nat)
    requires AllBytes(a) && AllBytes(b) && i + 4 <= |a| && j + 4 <= |b|
    requires a[i] == b[j] && a[i + 1] == b[j + 1] && a[i + 2] == b[j + 2] && a[i + 3] == b[j + 3]
    ensures LE16(a, i) == LE16(b, j) && LE32(a, i) == LE32(b, j)
  {
  }

  lemma ColormapIsFrom(cmap: seq<seq<int>>, s: seq<int>, p: nat, n: nat, e: int)
    requires |cmap| == 3 && |cmap[0]| == n && |cmap[1]| == n && |cmap[2]| == n
    requires forall k :: 0 <= k < n ==>
               && cmap[2][k] == ReadByteAt(s, p + Stride(e, k))
               && cmap[1][k] == ReadByteAt(s, p + Stride(e, k) + 1)
               && cmap[0][k] == ReadByteAt(s, p + Stride(e, k) + 2)
    ensures cmap == ColormapFrom(s, p, n, e)
  {
    var want := ColormapFrom(s, p, n, e);
    assert cmap[0] == want[0] && cmap[1] == want[1] && cmap[2] == want[2];
  }
}
