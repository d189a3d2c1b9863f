/**
 * The BMP decoder of readbmp.c: Windows 3.x and OS/2 1.x/2.x bitmaps of
 * 1, 2, 4, 8 and 24 bits per pixel, uncompressed or run-length encoded
 * (RLE8 and RLE4).  start_input_bmp reads the two headers, the colormap
 * and the pad before the pixels and allocates `whole_image`;
 * preload_image reads every row into it in file order (bottom row first);
 * get_nbit_row and get_24bit_row then hand the rows out top-down as
 * packed ARGB pixels.
 */
module ReadBmp {
  import opened DecodeImage
  import opened Common

  const ERR_BMP_BADCMAP: string := "Unsupported BMP colormap format"
  const ERR_BMP_BADDEPTH: string := "Only 8- and 24-bit BMP files are supported"
  const ERR_BMP_BADHEADER: string := "Invalid BMP file: bad header length"
  const ERR_BMP_BADPLANES: string := "Invalid BMP file: biPlanes not equal to 1"
  const ERR_BMP_NOT: string := "Is not a BMP file"

  /** Length of BITMAPFILEHEADER. */
  const FILE_HEADER_LEN: int := 14

  /** The file header's first two bytes, "BM", read little-endian. */
  const BMP_MAGIC: int := 0x4D42

  /** Bytes requested for the decoder's own state by bmp_init. */
  const SOURCE_STRUCT_SIZE: int := 256

  /** read_byte: the next byte, or 0 (with the error raised) at the end of the stream. */
  function ReadByteAt(s: seq<int>, k: int): (b: int)
    ensures AllBytes(s) ==> IsByte(b)
  {
    if 0 <= k < |s| then s[k] else 0
  }

  function Pow2(n: nat): (p: nat)
    ensures p >= 1
  {
    if n == 0 then 1 else 2 * Pow2(n - 1)
  }

  function Nat(x: int): nat { if x < 0 then 0 else x }

  // ---------------------------------------------------------------------
  // Arithmetic
  // ---------------------------------------------------------------------

  /** Division has a unique quotient and remainder. */
  lemma DivMod(q: int, r: int, d: int)
    requires 0 <= r < d
    ensures (q * d + r) / d == q && (q * d + r) % d == r
  {
    var x := q * d + r;
    var q', r' := x / d, x % d;
    assert x == q' * d + r' && 0 <= r' < d;
    if q' > q {
      MulLe(q + 1, q', d);
    } else if q' < q {
      MulLe(q' + 1, q, d);
    }
  }

  lemma MulPred(b: int, n: int)
    ensures b * n == b * (n - 1) + b
  {
  }

  lemma Pow2Add(a: nat, b: nat)
    ensures Pow2(a + b) == Pow2(a) * Pow2(b)
  {
    if a > 0 {
      Pow2Add(a - 1, b);
    }
  }

  /** Shifting right by `a` then by `b` bits is shifting right by `a + b`. */
  lemma DivDiv(x: int, a: int, b: int)
    requires x >= 0 && a > 0 && b > 0
    ensures x / (a * b) == x / a / b
  {
    var q := x / a / b;
    var r := x / a % b;
    var r0 := x % a;
    assert x == (q * b + r) * a + r0;
    assert x == q * (a * b) + (r * a + r0);
    assert r * a + r0 < a * b by {
      MulLe(r, b - 1, a);
    }
    DivMod(q, r * a + r0, a * b);
  }

  /** C's `/` on int, which truncates toward zero. */
  function CDiv(a: int, b: int): (q: int)
    requires b > 0
    ensures a >= 0 ==> q == a / b
  {
    if a >= 0 then a / b else -((-a) / b)
  }

  /** C's `%` on int: the remainder takes the sign of the dividend. */
  function CRem(a: int, b: int): int
    requires b > 0
  {
    a - b * CDiv(a, b)
  }

  /**
   * The count `while ((x & 3) != 0) x++;` stops at.  On a two's-complement
   * int `x & 3` is the Euclidean remainder `x % 4`, negative `x` included.
   */
  function RoundUp4(x: int): (r: int)
    ensures r % 4 == 0 && x <= r < x + 4
  {
    x + (4 - x % 4) % 4
  }

  // ---------------------------------------------------------------------
  // Row layout
  // ---------------------------------------------------------------------

  /** The depths start_input_bmp accepts. */
  predicate DepthOk(bpp: int)
  {
    bpp == 1 || bpp == 2 || bpp == 4 || bpp == 8 || bpp == 24
  }

  /** Depths below 8 pack several colormap indices into each byte. */
  predicate Packed(bpp: int)
  {
    bpp == 1 || bpp == 2 || bpp == 4
  }

  /**
   * The stored row width as start_input_bmp computes it: 3 bytes a pixel
   * at 24 bits, one at 8 bits, and otherwise the width plus 3 * 8 "extra
   * for safety", rounded up to a multiple of 4.
   */
  function RowWidthAsWritten(w: int, bpp: int): (rw: int)
    ensures rw % 4 == 0
  {
    RoundUp4(if bpp == 24 then w * 3 else if bpp == 8 then w else w + 3 * 8)
  }

  /**
   * The stored row width the decoder needs: as written, except that a
   * packed depth reserves 4 * 8 cells past the width, enough for every
   * index preload_image unpacks from a row.
   */
  function RowWidth(w: int, bpp: int): (rw: int)
    ensures rw % 4 == 0
    ensures bpp == 24 ==> w * 3 <= rw && (w >= 0 ==> rw >= 0)
    ensures bpp != 24 ==> w <= rw && (w >= 0 ==> rw >= 0)
  {
    RoundUp4(if bpp == 24 then w * 3 else if bpp == 8 then w else w + 4 * 8)
  }

  /**
   * The bytes preload_image reads for each uncompressed row: the stored
   * row width at 8 and 24 bits; at a packed depth the width divided by
   * the indices a byte holds, counted up when the division leaves a
   * remainder, then rounded up to a multiple of 4.
   */
  function NumCols(w: int, bpp: int, rowWidth: int): int
  {
    if bpp == 1 then PackedCols(w, 8)
    else if bpp == 2 then PackedCols(w, 4)
    else if bpp == 4 then PackedCols(w, 2)
    else rowWidth
  }

  /** The packed row's byte count at `ppb` pixels per byte, rounded up to a multiple of 4. */
  function PackedCols(w: int, ppb: int): int
    requires ppb > 0
  {
    RoundUp4(CDiv(w, ppb) + if CRem(w, ppb) != 0 then 1 else 0)
  }

  /** The bytes a row of `w` pixels needs at `ppb` pixels per byte. */
  function Ceil(w: nat, ppb: nat): nat
    requires ppb > 0
  {
    (w + ppb - 1) / ppb
  }

  /** A packed row is read as the bytes its pixels need, padded to a 4-byte boundary. */
  lemma PackedRowBytes(w: nat, bpp: int)
    requires Packed(bpp)
    ensures NumCols(w, bpp, RowWidth(w, bpp)) == RoundUp4(Ceil(w, 8 / bpp))
    ensures NumCols(w, bpp, RowWidth(w, bpp)) * (8 / bpp) >= w
  {
    var ppb := if bpp == 1 then 8 else if bpp == 2 then 4 else 2;
    assert 8 / bpp == ppb;
    assert NumCols(w, bpp, RowWidth(w, bpp)) == PackedCols(w, ppb);
    PackedColsCeil(w, ppb);
  }

  /** A packed row's byte count is the rounded-up count of bytes its pixels need. */
  lemma PackedColsCeil(w: nat, ppb: nat)
    requires ppb == 8 || ppb == 4 || ppb == 2
    ensures PackedCols(w, ppb) == RoundUp4(Ceil(w, ppb)) && PackedCols(w, ppb) * ppb >= w
  {
    var c := Ceil(w, ppb);
    CeilCounts(w, ppb);
    CRemIsMod(w, ppb);
    var r := RoundUp4(c);
    assert PackedCols(w, ppb) == r;
    MulLe(c, r, ppb);
  }

  lemma CRemIsMod(w: nat, d: nat)
    requires d > 0
    ensures CDiv(w, d) == w / d && CRem(w, d) == w % d
  {
  }

  lemma CeilCounts(w: nat, ppb: nat)
    requires ppb == 8 || ppb == 4 || ppb == 2
    ensures Ceil(w, ppb) == w / ppb + if w % ppb != 0 then 1 else 0
    ensures Ceil(w, ppb) * ppb >= w
  {
  }

  /**
   * Every index preload_image unpacks from a row of a non-negative width
   * lands inside the stored row.
   */
  lemma UnpackedRowFits(w: nat, bpp: int)
    requires DepthOk(bpp)
    ensures NumCols(w, bpp, RowWidth(w, bpp)) >= 0
    ensures NumCols(w, bpp, RowWidth(w, bpp)) * (if Packed(bpp) then 8 / bpp else 1) <= RowWidth(w, bpp)
  {
    if bpp == 1 {
      assert NumCols(w, 1, RowWidth(w, 1)) <= (w + 7) / 8 + 3;
    } else if bpp == 2 {
      assert NumCols(w, 2, RowWidth(w, 2)) <= (w + 3) / 4 + 3;
    } else if bpp == 4 {
      assert NumCols(w, 4, RowWidth(w, 4)) <= (w + 1) / 2 + 3;
    }
  }

  /**
   * As written, a 1-bit row one pixel wide is read as 4 bytes and unpacked
   * into 32 indices, but only 28 cells are stored for it.
   */
  lemma OneBitRowOverrun()
    ensures RowWidthAsWritten(1, 1) == 28
    ensures NumCols(1, 1, RowWidthAsWritten(1, 1)) * 8 == 32
  {
    OneBitStoredWidth();
    OneBitReadWidth();
  }

  lemma OneBitStoredWidth()
    ensures RowWidthAsWritten(1, 1) == 28
  {
    assert RowWidthAsWritten(1, 1) == RoundUp4(25);
    RoundUpAt(25, 28);
  }

  lemma OneBitReadWidth()
    ensures NumCols(1, 1, 28) == 4
  {
    var k := CDiv(1, 8) + if CRem(1, 8) != 0 then 1 else 0;
    assert k == 1;
    assert NumCols(1, 1, 28) == RoundUp4(k);
    RoundUpAt(k, 4);
  }

  /** `RoundUp4` of a value `r - 3 .. r` is `r` when `r` is a multiple of 4. */
  lemma RoundUpAt(x: int, r: int)
    requires r % 4 == 0 && r - 4 < x <= r
    ensures RoundUp4(x) == r
  {
  }

  // ---------------------------------------------------------------------
  // Unpacking colormap indices, most significant bits first
  // ---------------------------------------------------------------------

  /**
   * The `8 / bpp` indices of byte `c`: index `k` is
   * `(c >> (8 - bpp * (k + 1))) & ((1 << bpp) - 1)`.
   */
  function Unpack(c: int, bpp: int): (ids: seq<int>)
    requires Packed(bpp) && IsByte(c)
    ensures |ids| == 8 / bpp
    ensures forall k :: 0 <= k < |ids| ==> 0 <= ids[k] < Pow2(bpp)
  {
    seq(8 / bpp, k requires 0 <= k < 8 / bpp => Digit(c, bpp, k))
  }

  function Digit(c: int, bpp: int, k: int): (d: int)
    requires Packed(bpp) && 0 <= k < 8 / bpp
    ensures 0 <= d < Pow2(bpp)
  {
    c / Pow2(8 - bpp * (k + 1)) % Pow2(bpp)
  }

  /** Indices of `b` bits packed into one number, the first in the most significant place. */
  function Pack(ids: seq<int>, b: nat): nat
    requires forall k :: 0 <= k < |ids| ==> 0 <= ids[k]
  {
    if ids == [] then 0 else Pack(ids[..|ids| - 1], b) * Pow2(b) + ids[|ids| - 1]
  }

  /** Each index sits `b * (number of later indices)` bits up. */
  lemma {:induction false} PackDigit(ids: seq<int>, b: nat, k: nat)
    requires k < |ids| && forall j :: 0 <= j < |ids| ==> 0 <= ids[j] < Pow2(b)
    ensures Pack(ids, b) / Pow2(b * (|ids| - 1 - k)) % Pow2(b) == ids[k]
  {
    var n := |ids|;
    var init := ids[..n - 1];
    var B, P, x := Pow2(b), Pack(init, b), ids[n - 1];
    assert Pack(ids, b) == P * B + x;
    DivMod(P, x, B);
    if k == n - 1 {
      assert b * (n - 1 - k) == 0;
    } else {
      PackDigit(init, b, k);
      var j: nat := n - 2 - k;
      NatMul(b, j);
      var e: nat := b * j;
      assert P / Pow2(e) % B == ids[k];
      MulPred(b, j + 1);
      Pow2Add(b, e);
      DivDiv(P * B + x, B, Pow2(e));
    }
  }

  /** Unpacking gives back the indices a byte was packed from. */
  lemma PackUnpack(ids: seq<int>, bpp: int)
    requires Packed(bpp) && |ids| == 8 / bpp
    requires forall k :: 0 <= k < |ids| ==> 0 <= ids[k] < Pow2(bpp)
    ensures IsByte(Pack(ids, bpp)) && Unpack(Pack(ids, bpp), bpp) == ids
  {
    PackBound(ids, bpp);
    PerByte(bpp);
    Pow2Byte();
    var c := Pack(ids, bpp);
    forall k | 0 <= k < |ids|
      ensures Unpack(c, bpp)[k] == ids[k]
    {
      PackedDigit(ids, bpp, k);
    }
  }

  lemma PackedDigit(ids: seq<int>, bpp: int, k: nat)
    requires Packed(bpp) && |ids| == 8 / bpp && k < |ids|
    requires forall j :: 0 <= j < |ids| ==> 0 <= ids[j] < Pow2(bpp)
    ensures Digit(Pack(ids, bpp), bpp, k) == ids[k]
  {
    var n := |ids|;
    var e := if bpp == 1 then 7 - k else if bpp == 2 then 6 - 2 * k else 4 - 4 * k;
    if bpp == 1 {
      assert n == 8 && e == 1 * (n - 1 - k);
    } else if bpp == 2 {
      assert n == 4 && e == 2 * (n - 1 - k);
    } else {
      assert n == 2 && e == 4 * (n - 1 - k);
    }
    PackDigit(ids, bpp, k);
    DigitAt(Pack(ids, bpp), bpp, k, e);
  }

  /** Index `k` of a byte is the byte shifted down `e` bits, `e` being the bits after that index. */
  lemma DigitAt(c: int, bpp: int, k: int, e: int)
    requires Packed(bpp) && 0 <= k < 8 / bpp && e == 8 - bpp * (k + 1)
    ensures e >= 0 && Digit(c, bpp, k) == c / Pow2(e) % Pow2(bpp)
  {
  }

  /** The shift of digit `k` from the top of a byte of `n` digits. */
  lemma DigitShift(bpp: int, k: int, n: int)
    requires Packed(bpp) && n == 8 / bpp
    ensures 8 - bpp * (k + 1) == bpp * (n - 1 - k)
  {
    PerByte(bpp);
  }

  lemma {:induction false} PackBound(ids: seq<int>, b: nat)
    requires forall k :: 0 <= k < |ids| ==> 0 <= ids[k] < Pow2(b)
    ensures Pack(ids, b) < Pow2(b * |ids|)
  {
    if ids != [] {
      var n := |ids|;
      var B, P, x := Pow2(b), Pack(ids[..n - 1], b), ids[n - 1];
      var Q := Pow2(b * (n - 1));
      PackBound(ids[..n - 1], b);
      assert Pack(ids, b) == P * B + x;
      MulLe(P + 1, Q, B);
      MulSucc(P, B);
      MulPred(b, n);
      Pow2Add(b * (n - 1), b);
      assert Pow2(b * n) == Q * B;
    }
  }

  /** Packing the unpacked indices gives back the byte. */
  lemma UnpackPack(c: int, bpp: int)
    requires Packed(bpp) && IsByte(c)
    ensures Pack(Unpack(c, bpp), bpp) == c
  {
    var ids := Unpack(c, bpp);
    var n := |ids|;
    DigitShift(bpp, n - 1, n);
    assert 8 - bpp * n == 0 && Pow2(0) == 1;
    forall k | 0 <= k < n ensures ids[k] == Digit(c, bpp, k) && 0 <= ids[k] {
    }
    PackPrefix(c, bpp, ids, n);
    assert ids[..n] == ids;
  }

  /** The first `m` indices of byte `c` pack into `c` shifted right past the others. */
  lemma {:induction false} PackPrefix(c: int, bpp: int, ids: seq<int>, m: nat)
    requires Packed(bpp) && IsByte(c) && |ids| == 8 / bpp && m <= |ids|
    requires forall k :: 0 <= k < |ids| ==> ids[k] == Digit(c, bpp, k) && 0 <= ids[k]
    ensures Pack(ids[..m], bpp) == c / Pow2(8 - bpp * m)
  {
    if m == 0 {
      assert 8 - bpp * m == 8;
      ByteShiftedOut(c);
      assert ids[..0] == [];
    } else {
      PackPrefix(c, bpp, ids, m - 1);
      PackPrefixSucc(c, bpp, ids, m);
    }
  }

  lemma PackPrefixSucc(c: int, bpp: int, ids: seq<int>, m: nat)
    requires Packed(bpp) && IsByte(c) && |ids| == 8 / bpp && 0 < m <= |ids|
    requires forall k :: 0 <= k < |ids| ==> ids[k] == Digit(c, bpp, k) && 0 <= ids[k]
    requires Pack(ids[..m - 1], bpp) == c / Pow2(8 - bpp * (m - 1))
    ensures Pack(ids[..m], bpp) == c / Pow2(8 - bpp * m)
  {
    var e := PrefixShift(bpp, m);
    assert ids[m - 1] == Digit(c, bpp, m - 1);
    PackPrefixStep(c, bpp, ids, m, e);
  }

  /** The shift that leaves the first `m` indices of a byte, and the one that leaves `m - 1`. */
  lemma PrefixShift(bpp: int, m: nat) returns (e: nat)
    requires Packed(bpp) && 0 < m <= 8 / bpp
    ensures e == 8 - bpp * m && e + bpp == 8 - bpp * (m - 1) && e == 8 - bpp * ((m - 1) + 1)
  {
    PerByte(bpp);
    MulLe(m, 8 / bpp, bpp);
    MulPred(bpp, m);
    e := 8 - bpp * m;
  }

  lemma PackPrefixStep(c: int, bpp: nat, ids: seq<int>, m: nat, e: nat)
    requires 0 <= c && 0 < m <= |ids| && forall k :: 0 <= k < |ids| ==> 0 <= ids[k]
    requires Pack(ids[..m - 1], bpp) == c / Pow2(e + bpp)
    requires ids[m - 1] == c / Pow2(e) % Pow2(bpp)
    ensures Pack(ids[..m], bpp) == c / Pow2(e)
  {
    assert ids[..m][..m - 1] == ids[..m - 1];
    assert Pack(ids[..m], bpp) == Pack(ids[..m - 1], bpp) * Pow2(bpp) + ids[m - 1];
    ShiftStep(c, e, bpp);
  }

  /** Shifting right by `e` bits keeps the bits shifting by `e + b` keeps, and `b` more. */
  lemma ShiftStep(c: nat, e: nat, b: nat)
    ensures c / Pow2(e + b) * Pow2(b) + c / Pow2(e) % Pow2(b) == c / Pow2(e)
  {
    var y := c / Pow2(e);
    Pow2Add(e, b);
    DivDiv(c, Pow2(e), Pow2(b));
    DivModSplit(y, Pow2(b));
  }

  lemma ByteShiftedOut(c: int)
    requires IsByte(c)
    ensures c / Pow2(8) == 0
  {
    Pow2Byte();
  }

  lemma Pow2Byte()
    ensures Pow2(8) == 256
  {
  }

  lemma PerByte(bpp: int)
    requires Packed(bpp)
    ensures bpp * (8 / bpp) == 8
  {
  }

  lemma MulSub(b: int, n: int, m: int)
    ensures b * (n - m) == b * n - b * m
  {
  }

  lemma DivModSplit(y: int, d: int)
    requires d > 0
    ensures y == y / d * d + y % d
  {
  }

  /** A row's bytes as the colormap indices they hold: unpacked at packed depths, as read otherwise. */
  function Expand(bytes: seq<int>, bpp: int): (ids: seq<int>)
    requires AllBytes(bytes)
    ensures |ids| == |bytes| * (if Packed(bpp) then 8 / bpp else 1)
  {
    if !Packed(bpp) then bytes
    else if bytes == [] then []
    else
      var init := bytes[..|bytes| - 1];
      Expand(init, bpp) + Unpack(bytes[|bytes| - 1], bpp)
  }

  // ---------------------------------------------------------------------
  // Writing into whole_image
  // ---------------------------------------------------------------------

  /**
   * A store through `out_ptr` at row `row`, column `col`.  A store outside
   * the allocated rows or past the end of a row is dropped.
   */
  function Put(img: seq<seq<int>>, row: int, col: int, v: int): (r: seq<seq<int>>)
    ensures |r| == |img| && forall i :: 0 <= i < |img| ==> |r[i]| == |img[i]|
  {
    if 0 <= row < |img| && 0 <= col < |img[row]| then img[row := img[row][col := v]] else img
  }

  /** Row `row` with `data` stored from its start, cells past its end dropped. */
  function Overlay(row: seq<int>, data: seq<int>): (r: seq<int>)
    ensures |r| == |row|
  {
    seq(|row|, k requires 0 <= k < |row| => if k < |data| then data[k] else row[k])
  }

  lemma OverlayNext(img: seq<seq<int>>, r: int, base: seq<int>, data: seq<int>, v: int)
    requires 0 <= r < |img| && img[r] == Overlay(base, data)
    ensures Put(img, r, |data|, v)[r] == Overlay(base, data + [v])
  {
  }

  /** The bytes of the stream from `q`, up to `n` of them. */
  function Avail(s: seq<int>, q: int, n: int): (b: seq<int>)
    requires 0 <= q
    ensures |b| <= Nat(n) && (AllBytes(s) ==> AllBytes(b))
  {
    s[Min(q, |s|)..Min(q + Nat(n), |s|)]
  }

  /** Row `i` of the uncompressed pixels over `base`: the `i`-th run of `nc` bytes, expanded, as far as the stream reaches. */
  function RawRow(s: seq<int>, p: nat, base: seq<int>, nc: int, bpp: int, i: nat): (r: seq<int>)
    requires AllBytes(s)
    ensures |r| == |base|
  {
    Overlay(base, Expand(Avail(s, p + i * Nat(nc), Nat(nc)), bpp))
  }

  /**
   * The uncompressed pixels read into `img` from position `p`, row by
   * row in file order.
   */
  function Uncompressed(s: seq<int>, p: nat, img: seq<seq<int>>, nc: int, bpp: int): (r: seq<seq<int>>)
    requires AllBytes(s)
    ensures |r| == |img| && forall i :: 0 <= i < |img| ==> |r[i]| == |img[i]|
    decreases |img|
  {
    if img == [] then []
    else
      var k := |img| - 1;
      Uncompressed(s, p, img[..k], nc, bpp) + [RawRow(s, p, img[k], nc, bpp, k)]
  }

  // ---------------------------------------------------------------------
  // The colormap
  // ---------------------------------------------------------------------

  /** Offset of entry `i` in a colormap of `e`-byte entries (3 for OS/2, 4 for Windows). */
  function Stride(e: int, i: int): int
  {
    if e == 3 then 3 * i else 4 * i
  }

  /**
   * read_colormap of `n` entries of `e` bytes from position `p`: each entry
   * is stored blue, green, red (then a byte read and ignored when `e` is
   * 4), and channel row 0 gets red, 1 green and 2 blue.
   */
  function ColormapFrom(s: seq<int>, p: int, n: nat, e: int): (cmap: seq<seq<int>>)
    ensures |cmap| == 3 && |cmap[0]| == n && |cmap[1]| == n && |cmap[2]| == n
    ensures AllBytes(s) ==> ColormapOk(cmap)
  {
    seq(3, j => seq(n, i => ReadByteAt(s, p + Stride(e, i) + 2 - j)))
  }

  /** The entries of a colormap as a file stores them: blue, green, red and, in 4-byte entries, a zero. */
  function EncodeColormap(cmap: seq<seq<int>>, e: int): (b: seq<int>)
    requires ColormapOk(cmap) && (e == 3 || e == 4)
    ensures |b| == Stride(e, |cmap[0]|) && AllBytes(b)
  {
    if e == 3 then seq(3 * |cmap[0]|, k requires 0 <= k < 3 * |cmap[0]| => cmap[2 - k % 3][k / 3])
    else seq(4 * |cmap[0]|, k requires 0 <= k < 4 * |cmap[0]| => if k % 4 == 3 then 0 else cmap[2 - k % 4][k / 4])
  }

  /** Reading back the entries written for a colormap gives the colormap back. */
  lemma ColormapRoundTrip(cmap: seq<seq<int>>, e: int, s: seq<int>, p: nat)
    requires ColormapOk(cmap) && (e == 3 || e == 4)
    requires p + Stride(e, |cmap[0]|) <= |s| && s[p..p + Stride(e, |cmap[0]|)] == EncodeColormap(cmap, e)
    ensures ColormapFrom(s, p, |cmap[0]|, e) == cmap
  {
    var n := |cmap[0]|;
    var b := EncodeColormap(cmap, e);
    var c := ColormapFrom(s, p, n, e);
    forall j, i | 0 <= j < 3 && 0 <= i < n ensures c[j][i] == cmap[j][i] {
      var k := Stride(e, i) + 2 - j;
      if e == 3 {
        assert k / 3 == i && k % 3 == 2 - j;
      } else {
        assert k / 4 == i && k % 4 == 2 - j;
      }
      assert s[p + k] == b[k];
    }
    assert c[0] == cmap[0] && c[1] == cmap[1] && c[2] == cmap[2];
  }

  // ---------------------------------------------------------------------
  // The headers
  // ---------------------------------------------------------------------

  /**
   * The fields of the info header start_input_bmp uses.  A 12-byte OS/2
   * 1.x header has 16-bit sizes and no compression, image size or colour
   * count fields: the source leaves its compression and image size
   * variables unset then (None here) and counts no colours.
   */
  datatype Info = Info(headerSize: int, width: int, height: int, planes: int, bpp: int,
                       compression: Option<int>, sizeImage: Option<int>, clrUsed: int)

  /** Info header lengths the decoder knows: OS/2 1.x, Windows 3.x and OS/2 2.x. */
  predicate KnownInfoSize(n: int)
  {
    n == 12 || n == 40 || n == 64
  }

  /** The info header `b`, as long as its own size field says, decoded little-endian. */
  function ParseInfo(b: seq<int>): (i: Info)
    requires AllBytes(b) && KnownInfoSize(|b|)
    ensures i.headerSize == |b| && 0 <= i.bpp < 0x1_0000
    ensures i.compression.Some? <==> |b| != 12
  {
    if |b| == 12 then Info(12, LE16(b, 4), LE16(b, 6), LE16(b, 8), LE16(b, 10), None, None, 0)
    else Info(|b|, LE32(b, 4), LE32(b, 8), LE16(b, 12), LE16(b, 14), Some(LE32(b, 16)), Some(LE32(b, 20)), LE32(b, 32))
  }

  /** Colour-mapped depths carry a colormap; 24-bit pixels are stored as they are. */
  predicate Indexed(i: Info)
  {
    i.bpp != 24
  }

  /** Bytes per colormap entry: 3 (RGBTRIPLE) after an OS/2 1.x header, 4 (RGBQUAD) otherwise. */
  function MapEntrySize(i: Info): int
  {
    if i.headerSize == 12 then 3 else 4
  }

  /** The colormap length: the header's colour count, or 1 << bpp when that is not positive. */
  function CmapLen(i: Info): nat
    requires Packed(i.bpp) || i.bpp == 8
  {
    if i.clrUsed <= 0 then Pow2(i.bpp) else i.clrUsed
  }

  /** Both headers as start_input_bmp accepts them: the data offset and the decoded info header. */
  datatype Headers = Headers(offBits: int, info: Info)

  /**
   * The headers at `p` when start_input_bmp gets past all its header
   * checks: the stream holds the 14-byte file header, starting "BM", and
   * an info header of a known length, whose depth is 1, 2, 4, 8 or 24 and
   * whose plane count is 1.
   */
  function HeadersAt(s: seq<int>, p: nat): (r: Option<Headers>)
    requires AllBytes(s)
    ensures r.Some? ==> DepthOk(r.value.info.bpp) && r.value.info.planes == 1 && KnownInfoSize(r.value.info.headerSize)
  {
    if p + FILE_HEADER_LEN + 4 > |s| || LE16(s, p) != BMP_MAGIC then None
    else
      var hs := LE32(s, p + FILE_HEADER_LEN);
      if !KnownInfoSize(hs) || p + FILE_HEADER_LEN + hs > |s| then None
      else
        var i := ParseInfo(s[p + FILE_HEADER_LEN..p + FILE_HEADER_LEN + hs]);
        if DepthOk(i.bpp) && i.planes == 1 then Some(Headers(LE32(s, p + 10), i)) else None
  }

  /** The pad bytes between the colormap and the pixels: bfOffBits less the headers and the colormap. */
  function Pad(h: Headers): int
    requires DepthOk(h.info.bpp)
  {
    var i := h.info;
    h.offBits - (i.headerSize + FILE_HEADER_LEN) - if Indexed(i) then Stride(MapEntrySize(i), CmapLen(i)) else 0
  }

  // ---------------------------------------------------------------------
  // start_input_bmp
  // ---------------------------------------------------------------------

  /** The routine `pub.get_pixel_row` points to: not yet set, preload_image, get_nbit_row or get_24bit_row. */
  datatype RowSource = NoSource | Preload | NBit | Bit24

  /**
   * The decoder's state as start_input_bmp and preload_image change it:
   * stream position, error flag and message, bits per pixel, whether the
   * colormap is allocated and what it holds, the stored row width, whether
   * `whole_image` is allocated and what it holds, `pub.get_pixel_row`,
   * the compression and image size, and the image size in pixels.
   */
  datatype Setup = Setup(pos: nat, error: bool, msg: string, bpp: int,
                         cmap: bool, colormap: seq<seq<int>>, rowWidth: int,
                         image: bool, wholeImage: seq<seq<int>>, reader: RowSource,
                         compression: Option<int>, imageSize: Option<int>, width: int, height: int)

  /** An ERREXIT: the flag raised and the message kept. */
  function Raised(st: Setup, msg: string): Setup
  {
    st.(error := true, msg := ErrorText(msg))
  }

  /** `n` calls of read_byte from the current position (none when `n` is not positive). */
  function Skipped(s: seq<int>, st: Setup, n: int): (r: Setup)
    requires st.pos <= |s|
    ensures r.pos <= |s| && r == st.(pos := r.pos, error := r.error, msg := r.msg)
  {
    var r := st.(pos := Min(st.pos + Nat(n), |s|));
    if st.pos + Nat(n) > |s| then Raised(r, ERR_INPUT_EOF) else r
  }

  /** read_colormap: `n` entries of `e` bytes; any other entry size is refused. */
  function MapRead(s: seq<int>, st: Setup, n: nat, e: int): (r: Setup)
    requires st.pos <= |s|
    ensures r.pos <= |s|
  {
    if e != 3 && e != 4 then Raised(st, ERR_BMP_BADCMAP)
    else Skipped(s, st, Stride(e, n)).(colormap := ColormapFrom(s, st.pos, n, e))
  }

  /**
   * start_input_bmp from state `st`.  `cmapGranted` and `imageGranted`
   * say whether the allocations of the colormap and of `whole_image`
   * succeed.  A short file header raises "Premature end of input file", a
   * file header not starting "BM" "Is not a BMP file".
   */
  function StartOutcome(s: seq<int>, st: Setup, cmapGranted: bool, imageGranted: bool): (r: Setup)
    requires AllBytes(s) && st.pos <= |s|
    ensures r.pos <= |s|
  {
    var p := st.pos;
    if p + FILE_HEADER_LEN > |s| then Raised(st.(pos := |s|), ERR_INPUT_EOF)
    else if LE16(s, p) != BMP_MAGIC then Raised(st.(pos := p + FILE_HEADER_LEN), ERR_BMP_NOT)
    else InfoOutcome(s, LE32(s, p + 10), st.(pos := p + FILE_HEADER_LEN), cmapGranted, imageGranted)
  }

  /**
   * The info header: its 4-byte size must lie in [12, 64] and be one of
   * 12, 40 and 64, else "Invalid BMP file: bad header length"; a stream
   * ending inside it raises "Premature end of input file".
   */
  function InfoOutcome(s: seq<int>, offBits: int, st: Setup, cmapGranted: bool, imageGranted: bool): (r: Setup)
    requires AllBytes(s) && st.pos <= |s|
    ensures r.pos <= |s|
  {
    var p := st.pos;
    if p + 4 > |s| then Raised(st.(pos := |s|), ERR_INPUT_EOF)
    else
      var hs := LE32(s, p);
      if hs < 12 || hs > 64 then Raised(st.(pos := p + 4), ERR_BMP_BADHEADER)
      else if p + hs > |s| then Raised(st.(pos := |s|), ERR_INPUT_EOF)
      else if !KnownInfoSize(hs) then Raised(st.(pos := p + hs), ERR_BMP_BADHEADER)
      else
        var i := ParseInfo(s[p..p + hs]);
        Checked(s, Headers(offBits, i), st.(pos := p + hs, bpp := i.bpp), cmapGranted, imageGranted)
  }

  /** The depth, then the plane count. */
  function Checked(s: seq<int>, h: Headers, st: Setup, cmapGranted: bool, imageGranted: bool): (r: Setup)
    requires AllBytes(s) && st.pos <= |s|
    ensures r.pos <= |s|
  {
    if !DepthOk(h.info.bpp) then Raised(st, ERR_BMP_BADDEPTH)
    else if h.info.planes != 1 then Raised(st, ERR_BMP_BADPLANES)
    else MapOutcome(s, h, st, cmapGranted, imageGranted)
  }

  /**
   * The colormap of a colour-mapped image: more than 256 colours are
   * refused; otherwise it is allocated (three rows of CmapLen bytes) and
   * read.  A short stream does not stop start_input_bmp here.
   */
  function MapOutcome(s: seq<int>, h: Headers, st: Setup, cmapGranted: bool, imageGranted: bool): (r: Setup)
    requires AllBytes(s) && st.pos <= |s| && DepthOk(h.info.bpp)
    ensures r.pos <= |s|
  {
    var i := h.info;
    if !Indexed(i) then PadOutcome(s, h, st, imageGranted)
    else if i.clrUsed > 256 then Raised(st, ERR_BMP_BADCMAP)
    else if !cmapGranted then Raised(st, ERR_OUT_OF_MEMORY)
    else
      var n := CmapLen(i);
      PadOutcome(s, h, MapRead(s, st.(cmap := true, colormap := [Zeros(n), Zeros(n), Zeros(n)]), n, MapEntrySize(i)),
                 imageGranted)
  }

  /**
   * The pad before the pixels: a negative pad means bfOffBits points into
   * the headers or the colormap ("Invalid BMP file: bad header length");
   * otherwise that many bytes are read and dropped.
   */
  function PadOutcome(s: seq<int>, h: Headers, st: Setup, imageGranted: bool): (r: Setup)
    requires st.pos <= |s| && DepthOk(h.info.bpp)
    ensures r.pos <= |s|
  {
    if Pad(h) < 0 then Raised(st, ERR_BMP_BADHEADER)
    else ImageOutcome(h.info, Skipped(s, st, Pad(h)), imageGranted)
  }

  /** A freshly allocated `whole_image`: `rows` rows of `rw` zero bytes. */
  function Blank(rows: int, rw: int): (img: seq<seq<int>>)
    ensures |img| == Nat(rows) && forall r :: 0 <= r < |img| ==> img[r] == Zeros(Nat(rw))
  {
    seq(Nat(rows), _ => Zeros(Nat(rw)))
  }

  /**
   * The row width is stored, then `whole_image` allocated (height rows of
   * the row width); once it is, preload_image is installed and the
   * compression, image size, width and height stored.
   */
  function ImageOutcome(i: Info, st: Setup, imageGranted: bool): (r: Setup)
    ensures r.pos == st.pos
  {
    var st1 := st.(rowWidth := RowWidth(i.width, i.bpp));
    if !imageGranted then Raised(st1, ERR_OUT_OF_MEMORY)
    else st1.(image := true, wholeImage := Blank(i.height, st1.rowWidth), reader := Preload,
              compression := i.compression, imageSize := i.sizeImage, width := i.width, height := i.height)
  }

  // ---------------------------------------------------------------------
  // extract_rle_data
  // ---------------------------------------------------------------------

  /**
   * What extract_rle_data works with: the image width, whether samples
   * are 4-bit (compression 2) rather than 8-bit (compression 1), and the
   * byte count of the pixel data from the info header.
   */
  datatype RleCfg = RleCfg(width: int, nibbles: bool, imageSize: int)

  /**
   * The decoder's state during extract_rle_data: stream position, bytes
   * counted so far (`i`), the row and column `out_ptr` points at, the
   * image, the error flag and message, and whether the routine returned.
   */
  datatype Rle = Rle(pos: nat, count: int, row: int, col: int, img: seq<seq<int>>,
                     error: bool, msg: string, stopped: bool)

  /** An ERREXIT inside extract_rle_data: flag and message set, and the routine returns. */
  function RleStop(st: Rle, msg: string): Rle
  {
    st.(error := true, msg := ErrorText(msg), stopped := true)
  }

  /** The same stores, so the same shape. */
  predicate SameShape(a: seq<seq<int>>, b: seq<seq<int>>)
  {
    |a| == |b| && forall i :: 0 <= i < |a| ==> |a[i]| == |b[i]|
  }

  /** Sample `j` of a run of the byte `b`: the byte itself, or its high and low nibbles in turn. */
  function RunValue(cfg: RleCfg, b: int, j: int): int
  {
    if !cfg.nibbles then b else if j % 2 == 0 then b / 16 else b % 16
  }

  /**
   * Samples `j..n` of an encoded run of `b`: each is stored and the column
   * advanced, except that from the width on nothing is stored.
   */
  function RunFrom(cfg: RleCfg, st: Rle, b: int, j: nat, n: int): (r: Rle)
    decreases n - j
    ensures r == st.(img := r.img, col := r.col) && SameShape(r.img, st.img)
  {
    if j >= n then st else RunFrom(cfg, RunSample(cfg, st, b, j), b, j + 1, n)
  }

  /** Sample `j` of a run: stored and the column advanced, unless the column has reached the width. */
  function RunSample(cfg: RleCfg, st: Rle, b: int, j: int): (r: Rle)
    ensures r == st.(img := r.img, col := r.col) && SameShape(r.img, st.img)
  {
    if st.col >= cfg.width then st
    else st.(img := Put(st.img, st.row, st.col, RunValue(cfg, b, j)), col := st.col + 1)
  }

  /**
   * Samples `j..n` of an absolute-mode literal.  Each turn reads a byte (the
   * end of the stream stops the routine); from the width on it is
   * dropped; otherwise it is stored, or at 4 bits its high nibble and,
   * when sample `j + 1` is still wanted, its low nibble.
   */
  function LiteralFrom(s: seq<int>, cfg: RleCfg, st: Rle, j: nat, n: int): (r: Rle)
    requires AllBytes(s) && st.pos <= |s|
    decreases n - j
    ensures r.pos <= |s| && r.row == st.row && r.count >= st.count && SameShape(r.img, st.img)
  {
    if j >= n then st
    else if st.pos == |s| then RleStop(st, ERR_INPUT_EOF)
    else LiteralFrom(s, cfg, LiteralByte(cfg, st, s[st.pos], j, n), j + LiteralAdvance(cfg, st), n)
  }

  /** How far one byte of a literal moves the sample count: two samples at 4 bits, unless it is dropped. */
  function LiteralAdvance(cfg: RleCfg, st: Rle): nat
  {
    if st.col >= cfg.width || !cfg.nibbles then 1 else 2
  }

  /** The byte `c` read for sample `j` of a literal, and what is stored from it. */
  function LiteralByte(cfg: RleCfg, st: Rle, c: int, j: int, n: int): (r: Rle)
    ensures r.pos == st.pos + 1 && r.count == st.count + 1 && r.row == st.row && r.stopped == st.stopped
    ensures r.error == st.error && r.msg == st.msg && SameShape(r.img, st.img)
  {
    var st1 := st.(pos := st.pos + 1, count := st.count + 1);
    if st1.col >= cfg.width then st1
    else if !cfg.nibbles then st1.(img := Put(st1.img, st1.row, st1.col, c), col := st1.col + 1)
    else
      var st2 := st1.(img := Put(st1.img, st1.row, st1.col, c / 16), col := st1.col + 1);
      if j + 1 < n then st2.(img := Put(st2.img, st2.row, st2.col, c % 16), col := st2.col + 1) else st2
  }

  /** The bytes an absolute-mode literal of `n` samples occupies: `n`, or `n / 2` rounded up at 4 bits. */
  function LiteralBytes(cfg: RleCfg, n: int): int
  {
    if cfg.nibbles then (n + 1) / 2 else n
  }

  /**
   * Whether extract_rle_data reads a pad byte after a literal of `n`
   * samples, as written: it halves `n` at 4 bits, rounding down.
   */
  predicate PadAsWritten(cfg: RleCfg, n: int)
  {
    (if cfg.nibbles then n / 2 else n) % 2 == 1
  }

  /** Whether a pad byte follows a literal of `n` samples: the literal's bytes are odd in number. */
  predicate PadNeeded(cfg: RleCfg, n: int)
  {
    LiteralBytes(cfg, n) % 2 == 1
  }

  /** The pad byte after a literal, when one is due; the end of the stream stops the routine. */
  function PadFrom(s: seq<int>, pad: bool, st: Rle): (r: Rle)
    requires st.pos <= |s|
    ensures r.pos <= |s| && r.row == st.row && r.count >= st.count && r.img == st.img
  {
    if st.stopped || !pad then st
    else if st.pos == |s| then RleStop(st, ERR_INPUT_EOF)
    else st.(pos := st.pos + 1, count := st.count + 1)
  }

  /**
   * An escape of 0 then 2: two read_byte calls give the column and row
   * offsets (0, with the error raised, at the end of the stream).
   */
  function Delta(s: seq<int>, st: Rle): (r: Rle)
    requires st.pos <= |s|
    ensures r.pos <= |s| && r.count == st.count + 2 && r.img == st.img && !r.stopped == !st.stopped
  {
    var x := ReadByteAt(s, st.pos);
    var p1 := Min(st.pos + 1, |s|);
    var y := ReadByteAt(s, p1);
    var (e, m) := Raise(st.error, st.msg, st.pos + 2 > |s|, ERR_INPUT_EOF);
    st.(pos := Min(p1 + 1, |s|), count := st.count + 2, col := st.col + x, row := st.row + y, error := e, msg := m)
  }

  /**
   * One turn of extract_rle_data's loop: two bytes (the end of the stream
   * stops the routine).  A non-zero first byte is a run; a zero first
   * byte escapes: 0 ends the row, 1 ends the bitmap, 2 moves by an
   * offset, and any other count is a literal.  `fixedPad` selects the pad
   * rule: the byte-count rule if set, the one in the source otherwise.
   */
  function RleStep(s: seq<int>, cfg: RleCfg, fixedPad: bool, st: Rle): (r: Rle)
    requires AllBytes(s) && st.pos <= |s|
    ensures r.pos <= |s| && SameShape(r.img, st.img)
    ensures r.stopped || r.count >= st.count + 2
  {
    if st.pos + 2 > |s| then RleStop(st.(pos := |s|), ERR_INPUT_EOF)
    else RleCommand(s, cfg, fixedPad, st.(pos := st.pos + 2, count := st.count + 2), s[st.pos], s[st.pos + 1])
  }

  /** The command whose two bytes `b1`, `b2` were just read. */
  function RleCommand(s: seq<int>, cfg: RleCfg, fixedPad: bool, st1: Rle, b1: int, b2: int): (r: Rle)
    requires AllBytes(s) && st1.pos <= |s|
    ensures r.pos <= |s| && SameShape(r.img, st1.img)
    ensures r.stopped || r.count >= st1.count
  {
    if b1 != 0 then RunFrom(cfg, st1, b2, 0, b1)
    else if b2 == 0 then st1.(row := st1.row + 1, col := 0)
    else if b2 == 1 then st1.(stopped := true)
    else if b2 == 2 then Delta(s, st1)
    else
      var pad := if fixedPad then PadNeeded(cfg, b2) else PadAsWritten(cfg, b2);
      PadFrom(s, pad, LiteralFrom(s, cfg, st1, 0, b2))
  }

  /** extract_rle_data from state `st`: commands while fewer than `imageSize` bytes are counted. */
  function RleFrom(s: seq<int>, cfg: RleCfg, fixedPad: bool, st: Rle): (r: Rle)
    requires AllBytes(s) && st.pos <= |s|
    decreases if st.stopped then 0 else 1, cfg.imageSize - st.count, 1
    ensures r.pos <= |s| && SameShape(r.img, st.img)
    ensures r.stopped || r.count >= cfg.imageSize
  {
    if st.stopped || st.count >= cfg.imageSize then st
    else RleOn(s, cfg, fixedPad, st)
  }

  /** One pass of extract_rle_data's loop: a command read and decoded, then the loop goes on. */
  function RleOn(s: seq<int>, cfg: RleCfg, fixedPad: bool, st: Rle): (r: Rle)
    requires AllBytes(s) && st.pos <= |s| && !st.stopped && st.count < cfg.imageSize
    decreases 1, cfg.imageSize - st.count, 0
    ensures r.pos <= |s| && SameShape(r.img, st.img)
    ensures r.stopped || r.count >= cfg.imageSize
  {
    RleFrom(s, cfg, fixedPad, RleStep(s, cfg, fixedPad, st))
  }

  // ---------------------------------------------------------------------
  // Run-length coded rows read back
  // ---------------------------------------------------------------------

  /**
   * A command of a run-length coded row: `n` samples repeating the byte
   * `b` (at 4 bits its two nibbles alternate), or an absolute-mode literal
   * of `n` samples held in `bytes` (two to a byte at 4 bits).
   */
  datatype Packet = Run(n: int, b: int) | Literal(n: int, bytes: seq<int>)

  predicate PacketOk(cfg: RleCfg, p: Packet)
  {
    match p
    case Run(n, b) => 1 <= n <= 255 && IsByte(b)
    case Literal(n, bytes) => 3 <= n <= 255 && AllBytes(bytes) && |bytes| == LiteralBytes(cfg, n)
  }

  /** Sample `j` of the literal bytes: the byte, or at 4 bits one of its nibbles, high first. */
  function LiteralValue(cfg: RleCfg, bytes: seq<int>, j: nat): int
    requires (if cfg.nibbles then j / 2 else j) < |bytes|
  {
    if !cfg.nibbles then bytes[j] else if j % 2 == 0 then bytes[j / 2] / 16 else bytes[j / 2] % 16
  }

  /** The samples a command stands for. */
  function Samples(cfg: RleCfg, p: Packet): (v: seq<int>)
    requires PacketOk(cfg, p)
    ensures |v| == p.n
  {
    match p
    case Run(n, b) => seq(n, j => RunValue(cfg, b, j))
    case Literal(n, bytes) => seq(n, j requires 0 <= j < n => LiteralValue(cfg, bytes, j))
  }

  /** The bytes a command is written as; a literal of an odd number of bytes is padded to a word. */
  function EncodePacket(p: Packet): (e: seq<int>)
  {
    match p
    case Run(n, b) => [n, b]
    case Literal(n, bytes) => [0, n] + bytes + if |bytes| % 2 == 1 then [0] else []
  }

  predicate RowOk(cfg: RleCfg, ps: seq<Packet>)
  {
    forall k :: 0 <= k < |ps| ==> PacketOk(cfg, ps[k])
  }

  function EncodeRow(ps: seq<Packet>): seq<int>
  {
    if ps == [] then [] else EncodePacket(ps[0]) + EncodeRow(ps[1..])
  }

  function RowSamples(cfg: RleCfg, ps: seq<Packet>): seq<int>
    requires RowOk(cfg, ps)
  {
    if ps == [] then [] else Samples(cfg, ps[0]) + RowSamples(cfg, ps[1..])
  }

  /** The number of samples a row of commands stands for. */
  function RowLen(ps: seq<Packet>): nat
  {
    if ps == [] then 0 else Nat(ps[0].n) + RowLen(ps[1..])
  }

  lemma {:induction false} RowLenSamples(cfg: RleCfg, ps: seq<Packet>)
    requires RowOk(cfg, ps)
    ensures |RowSamples(cfg, ps)| == RowLen(ps)
    decreases |ps|
  {
    if ps != [] {
      RowLenSamples(cfg, ps[1..]);
    }
  }

  /** Rows of commands, each ended by the end-of-line escape 0, 0. */
  function EncodeRows(rows: seq<seq<Packet>>): seq<int>
  {
    if rows == [] then [] else EncodeRow(rows[0]) + [0, 0] + EncodeRows(rows[1..])
  }

  /** A bitmap: its rows, then the end-of-bitmap escape 0, 1. */
  function EncodeBitmap(rows: seq<seq<Packet>>): seq<int>
  {
    EncodeRows(rows) + [0, 1]
  }

  /** Image `img` with each row `i` of `rows` painted over its row `i`. */
  function Painted(cfg: RleCfg, img: seq<seq<int>>, rows: seq<seq<Packet>>): (r: seq<seq<int>>)
    requires forall i :: 0 <= i < |rows| ==> RowOk(cfg, rows[i])
    ensures |r| == |img|
  {
    PaintSpec(cfg, img, 0, rows)
  }

  /** Image `img` with each row `i` of `rows` painted over its row `r0 + i`. */
  function PaintSpec(cfg: RleCfg, img: seq<seq<int>>, r0: int, rows: seq<seq<Packet>>): (r: seq<seq<int>>)
    requires forall i :: 0 <= i < |rows| ==> RowOk(cfg, rows[i])
    ensures |r| == |img|
  {
    seq(|img|, i requires 0 <= i < |img| =>
      if r0 <= i < r0 + |rows| then Overlay(img[i], RowSamples(cfg, rows[i - r0])) else img[i])
  }

  /** Rows that fit: each row's samples within the width, the width within each stored row. */
  predicate BitmapFits(cfg: RleCfg, img: seq<seq<int>>, rows: seq<seq<Packet>>)
  {
    && |rows| <= |img|
    && forall i :: 0 <= i < |rows| ==>
         && RowOk(cfg, rows[i]) && RowLen(rows[i]) <= cfg.width <= |img[i]|
  }

  /** The stream holds `e` from position `q` on. */
  predicate Holds(s: seq<int>, q: int, e: seq<int>)
  {
    0 <= q && q + |e| <= |s| && s[q..q + |e|] == e
  }

  lemma HoldsSplit(s: seq<int>, q: int, a: seq<int>, b: seq<int>)
    requires Holds(s, q, a + b)
    ensures Holds(s, q, a) && Holds(s, q + |a|, b)
  {
    forall k | 0 <= k < |a| ensures s[q + k] == a[k] {
      assert (a + b)[k] == a[k];
    }
    forall k | 0 <= k < |b| ensures s[q + |a| + k] == b[k] {
      assert (a + b)[|a| + k] == b[k];
    }
  }

  /**
   * Samples `j..n` of a run painted from column `|pre|` of row `st.row`,
   * whose cells were `base` before the row was started.
   */
  lemma {:induction false} RunPaints(cfg: RleCfg, st: Rle, b: int, j: nat, n: int, base: seq<int>, pre: seq<int>, v: seq<int>)
    requires v == seq(Nat(n), k => RunValue(cfg, b, k)) && j <= n
    requires 0 <= st.row < |st.img| && |st.img[st.row]| == |base| && |pre| + n <= cfg.width <= |base|
    requires st.col == |pre| + j && st.img[st.row] == Overlay(base, pre + v[..j])
    ensures var r := RunFrom(cfg, st, b, j, n);
            r == st.(img := st.img[st.row := Overlay(base, pre + v)], col := |pre| + n)
    decreases n - j
  {
    if j == n {
      assert v[..j] == v;
      assert st.img[st.row := Overlay(base, pre + v)] == st.img;
    } else {
      OverlayNext(st.img, st.row, base, pre + v[..j], v[j]);
      assert pre + v[..j] + [v[j]] == pre + v[..j + 1];
      RunPaints(cfg, RunSample(cfg, st, b, j), b, j + 1, n, base, pre, v);
    }
  }

  /** Samples `j..n` of an 8-bit literal read from the stream and painted, one byte each. */
  lemma {:induction false} Literal8Paints(s: seq<int>, cfg: RleCfg, st: Rle, j: nat, n: int, base: seq<int>, pre: seq<int>,
                                          v: seq<int>, p0: nat)
    requires AllBytes(s) && !cfg.nibbles && |v| == n && Holds(s, p0, v) && j <= n && st.pos == p0 + j
    requires 0 <= st.row < |st.img| && |st.img[st.row]| == |base| && |pre| + n <= cfg.width <= |base|
    requires st.col == |pre| + j && st.img[st.row] == Overlay(base, pre + v[..j])
    ensures var r := LiteralFrom(s, cfg, st, j, n);
            r == st.(pos := p0 + n, count := st.count + n - j, img := st.img[st.row := Overlay(base, pre + v)], col := |pre| + n)
    decreases n - j
  {
    if j == n {
      assert v[..j] == v;
      assert st.img[st.row := Overlay(base, pre + v)] == st.img;
    } else {
      assert s[st.pos] == v[j];
      OverlayNext(st.img, st.row, base, pre + v[..j], v[j]);
      assert pre + v[..j] + [v[j]] == pre + v[..j + 1];
      Literal8Paints(s, cfg, LiteralByte(cfg, st, v[j], j, n), j + 1, n, base, pre, v, p0);
    }
  }

  /**
   * Samples `j..n` of a 4-bit literal: each byte read gives two samples,
   * high nibble first, and the last byte of an odd count only one.
   */
  lemma {:induction false} Literal4Paints(s: seq<int>, cfg: RleCfg, st: Rle, j: nat, n: nat, base: seq<int>, pre: seq<int>,
                                          bytes: seq<int>, v: seq<int>, p0: nat)
    requires AllBytes(s) && cfg.nibbles && |bytes| == (n + 1) / 2 && Holds(s, p0, bytes)
    requires |v| == n && NibbleSamples(cfg, bytes, v)
    requires j % 2 == 0 && j <= n + 1 && st.pos == p0 + j / 2
    requires 0 <= st.row < |st.img| && |st.img[st.row]| == |base| && |pre| + n <= cfg.width <= |base|
    requires st.col == |pre| + Min(j, n) && st.img[st.row] == Overlay(base, pre + v[..Min(j, n)])
    ensures var r := LiteralFrom(s, cfg, st, j, n);
            r == st.(pos := p0 + (n + 1) / 2, count := st.count + (n + 1) / 2 - j / 2,
                     img := st.img[st.row := Overlay(base, pre + v[..n])], col := |pre| + n)
    decreases n - j
  {
    if j >= n {
      Literal4Done(s, cfg, st, j, n);
      assert st.img[st.row := Overlay(base, pre + v[..n])] == st.img;
    } else {
      var b := Literal4Next(s, cfg, st, j, n, base, pre, bytes, v, p0);
      Literal4Paints(s, cfg, b, j + 2, n, base, pre, bytes, v, p0);
      Literal4Join(st, b, j, n, base, pre, v, p0);
    }
  }

  /** The state after one byte of a 4-bit literal, from which the rest of the literal reads on. */
  lemma Literal4Next(s: seq<int>, cfg: RleCfg, st: Rle, j: nat, n: nat, base: seq<int>, pre: seq<int>,
                     bytes: seq<int>, v: seq<int>, p0: nat) returns (b: Rle)
    requires AllBytes(s) && cfg.nibbles && |bytes| == (n + 1) / 2 && Holds(s, p0, bytes)
    requires |v| == n && NibbleSamples(cfg, bytes, v)
    requires j % 2 == 0 && j < n && st.pos == p0 + j / 2
    requires 0 <= st.row < |st.img| && |st.img[st.row]| == |base| && |pre| + n <= cfg.width <= |base|
    requires st.col == |pre| + j && st.img[st.row] == Overlay(base, pre + v[..j])
    ensures b == st.(pos := p0 + (j + 2) / 2, count := st.count + 1, col := |pre| + Min(j + 2, n),
                     img := st.img[st.row := Overlay(base, pre + v[..Min(j + 2, n)])])
    ensures b.pos <= |s| && LiteralFrom(s, cfg, st, j, n) == LiteralFrom(s, cfg, b, j + 2, n)
  {
    Literal4Step(s, cfg, st, j, n, base, pre, bytes, v, p0);
    b := st.(pos := p0 + (j + 2) / 2, count := st.count + 1, col := |pre| + Min(j + 2, n),
             img := st.img[st.row := Overlay(base, pre + v[..Min(j + 2, n)])]);
  }

  /** Finishing a 4-bit literal from the state after its next byte is finishing it from here. */
  lemma Literal4Join(st: Rle, b: Rle, j: nat, n: nat, base: seq<int>, pre: seq<int>, v: seq<int>, p0: nat)
    requires 0 <= st.row < |st.img| && j % 2 == 0 && j < n && |v| == n
    requires b == st.(pos := p0 + (j + 2) / 2, count := st.count + 1, col := |pre| + Min(j + 2, n),
                      img := st.img[st.row := Overlay(base, pre + v[..Min(j + 2, n)])])
    ensures b.(pos := p0 + (n + 1) / 2, count := b.count + (n + 1) / 2 - (j + 2) / 2,
               img := b.img[b.row := Overlay(base, pre + v[..n])], col := |pre| + n)
            == st.(pos := p0 + (n + 1) / 2, count := st.count + (n + 1) / 2 - j / 2,
                   img := st.img[st.row := Overlay(base, pre + v[..n])], col := |pre| + n)
  {
    assert (j + 2) / 2 == j / 2 + 1;
    assert b.img[b.row := Overlay(base, pre + v[..n])] == st.img[st.row := Overlay(base, pre + v[..n])];
  }

  lemma Literal4Done(s: seq<int>, cfg: RleCfg, st: Rle, j: nat, n: nat)
    requires AllBytes(s) && st.pos <= |s| && j % 2 == 0 && n <= j <= n + 1
    ensures LiteralFrom(s, cfg, st, j, n) == st && Min(j, n) == n && j / 2 == (n + 1) / 2
  {
  }

  /** `v` lists the nibbles of `bytes`, high first. */
  predicate NibbleSamples(cfg: RleCfg, bytes: seq<int>, v: seq<int>)
    requires cfg.nibbles && (|v| + 1) / 2 <= |bytes|
  {
    forall k :: 0 <= k < |v| ==> v[k] == LiteralValue(cfg, bytes, k)
  }

  /** One byte of a 4-bit literal: its nibbles are the next one or two samples. */
  lemma Literal4Step(s: seq<int>, cfg: RleCfg, st: Rle, j: nat, n: nat, base: seq<int>, pre: seq<int>,
                     bytes: seq<int>, v: seq<int>, p0: nat)
    requires AllBytes(s) && cfg.nibbles && |bytes| == (n + 1) / 2 && Holds(s, p0, bytes)
    requires |v| == n && NibbleSamples(cfg, bytes, v)
    requires j % 2 == 0 && j < n && st.pos == p0 + j / 2
    requires 0 <= st.row < |st.img| && |st.img[st.row]| == |base| && |pre| + n <= cfg.width <= |base|
    requires st.col == |pre| + j && st.img[st.row] == Overlay(base, pre + v[..j])
    ensures var m := Min(j + 2, n);
            LiteralFrom(s, cfg, st, j, n)
            == LiteralFrom(s, cfg, st.(pos := p0 + (j + 2) / 2, count := st.count + 1, col := |pre| + m,
                                       img := st.img[st.row := Overlay(base, pre + v[..m])]), j + 2, n)
  {
    var c := s[st.pos];
    assert c == bytes[j / 2];
    NibblesStored(cfg, st, c, j, n, base, pre + v[..j], v[j], if j + 1 < n then v[j + 1] else 0);
    if j + 1 < n {
      assert pre + v[..j] + [v[j], v[j + 1]] == pre + v[..j + 2];
    } else {
      assert pre + v[..j] + [v[j]] == pre + v[..n];
    }
  }

  /** The stores of one byte of a 4-bit literal inside the width: its high nibble, then its low one if wanted. */
  lemma NibblesStored(cfg: RleCfg, st: Rle, c: int, j: int, n: int, base: seq<int>, done: seq<int>, hi: int, lo: int)
    requires cfg.nibbles && 0 <= j < n && hi == c / 16 && lo == (if j + 1 < n then c % 16 else 0)
    requires 0 <= st.row < |st.img| && |st.img[st.row]| == |base| && st.col == |done| && st.col < cfg.width
    requires st.img[st.row] == Overlay(base, done)
    ensures var r := LiteralByte(cfg, st, c, j, n);
            var d := if j + 1 < n then done + [hi, lo] else done + [hi];
            r == st.(pos := st.pos + 1, count := st.count + 1, col := |d|, img := st.img[st.row := Overlay(base, d)])
  {
    OverlayNext(st.img, st.row, base, done, hi);
    if j + 1 < n {
      var img2 := Put(st.img, st.row, st.col, hi);
      OverlayNext(img2, st.row, base, done + [hi], lo);
      assert done + [hi] + [lo] == done + [hi, lo];
    }
  }

  /**
   * The state after bytes `e` are read and samples `v` painted after
   * `pre` in row `st.row`, whose cells were `base` before the row began.
   */
  function After(st: Rle, e: nat, v: seq<int>, base: seq<int>, pre: seq<int>): Rle
  {
    var img := if 0 <= st.row < |st.img| then st.img[st.row := Overlay(base, pre + v)] else st.img;
    st.(pos := st.pos + e, count := st.count + e, col := |pre| + |v|, img := img)
  }

  /** Two stretches of a row one after the other are one stretch. */
  lemma AfterAfter(st: Rle, e1: nat, v1: seq<int>, e2: nat, v2: seq<int>, base: seq<int>, pre: seq<int>, e: nat, v: seq<int>)
    requires e == e1 + e2 && v == v1 + v2
    ensures After(After(st, e1, v1, base, pre), e2, v2, base, pre + v1) == After(st, e, v, base, pre)
  {
    assert pre + v1 + v2 == pre + (v1 + v2);
    if 0 <= st.row < |st.img| {
      var img1 := st.img[st.row := Overlay(base, pre + v1)];
      assert img1[st.row := Overlay(base, pre + (v1 + v2))] == st.img[st.row := Overlay(base, pre + (v1 + v2))];
    }
  }

  lemma HoldsPair(s: seq<int>, q: int, x: int, y: int)
    requires Holds(s, q, [x, y])
    ensures q + 2 <= |s| && s[q] == x && s[q + 1] == y
  {
    assert s[q + 0] == [x, y][0];
    assert s[q + 1] == [x, y][1];
  }

  /** A prefix of what the stream holds is held too. */
  lemma HoldsPrefix(s: seq<int>, q: int, a: seq<int>, e: seq<int>)
    requires Holds(s, q, e) && a <= e
    ensures Holds(s, q, a)
  {
    forall k | 0 <= k < |a| ensures s[q + k] == a[k] {
      assert a[k] == e[k];
    }
  }

  /**
   * One command read from its bytes: the stream moves past them, the
   * column past its samples, and the samples land after `pre` in row
   * `st.row`.
   */
  lemma PacketStep(s: seq<int>, cfg: RleCfg, st: Rle, p: Packet, base: seq<int>, pre: seq<int>)
    requires AllBytes(s) && PacketOk(cfg, p) && Holds(s, st.pos, EncodePacket(p)) && !st.stopped
    requires 0 <= st.row < |st.img| && |st.img[st.row]| == |base| && |pre| + p.n <= cfg.width <= |base|
    requires st.col == |pre| && st.img[st.row] == Overlay(base, pre)
    ensures RleStep(s, cfg, true, st) == After(st, |EncodePacket(p)|, Samples(cfg, p), base, pre)
  {
    match p
    case Run(n, b) => RunPacket(s, cfg, st, n, b, base, pre);
    case Literal(n, bytes) => LiteralPacket(s, cfg, st, n, bytes, base, pre);
  }

  lemma AfterForm(st: Rle, e: nat, v: seq<int>, base: seq<int>, pre: seq<int>)
    requires 0 <= st.row < |st.img|
    ensures After(st, e, v, base, pre)
            == st.(pos := st.pos + e, count := st.count + e, col := |pre| + |v|, img := st.img[st.row := Overlay(base, pre + v)])
  {
  }

  lemma RunPacket(s: seq<int>, cfg: RleCfg, st: Rle, n: int, b: int, base: seq<int>, pre: seq<int>)
    requires AllBytes(s) && PacketOk(cfg, Run(n, b)) && Holds(s, st.pos, EncodePacket(Run(n, b))) && !st.stopped
    requires 0 <= st.row < |st.img| && |st.img[st.row]| == |base| && |pre| + n <= cfg.width <= |base|
    requires st.col == |pre| && st.img[st.row] == Overlay(base, pre)
    ensures RleStep(s, cfg, true, st) == After(st, |EncodePacket(Run(n, b))|, Samples(cfg, Run(n, b)), base, pre)
  {
    var v := Samples(cfg, Run(n, b));
    HoldsPair(s, st.pos, n, b);
    RunStep(s, cfg, st, n, b, base, pre, v);
    AfterForm(st, 2, v, base, pre);
  }

  lemma LiteralPacket(s: seq<int>, cfg: RleCfg, st: Rle, n: int, bytes: seq<int>, base: seq<int>, pre: seq<int>)
    requires AllBytes(s) && PacketOk(cfg, Literal(n, bytes)) && Holds(s, st.pos, EncodePacket(Literal(n, bytes))) && !st.stopped
    requires 0 <= st.row < |st.img| && |st.img[st.row]| == |base| && |pre| + n <= cfg.width <= |base|
    requires st.col == |pre| && st.img[st.row] == Overlay(base, pre)
    ensures RleStep(s, cfg, true, st) == After(st, |EncodePacket(Literal(n, bytes))|, Samples(cfg, Literal(n, bytes)), base, pre)
  {
    var pad := if |bytes| % 2 == 1 then [0] else [];
    LiteralHeld(s, st.pos, n, bytes, pad);
    var st1 := st.(pos := st.pos + 2, count := st.count + 2);
    var v := Samples(cfg, Literal(n, bytes));
    LiteralAfter(st, |bytes| + |pad|, n, v, base, pre);
    LiteralBody(s, cfg, st1, n, bytes, base, pre, v);
    LiteralCommand(s, cfg, st, n, bytes, pad);
  }

  /** The bytes of an encoded literal as they lie in the stream. */
  lemma LiteralHeld(s: seq<int>, q: int, n: int, bytes: seq<int>, pad: seq<int>)
    requires pad == (if |bytes| % 2 == 1 then [0] else []) && Holds(s, q, EncodePacket(Literal(n, bytes)))
    ensures q + 2 <= |s| && s[q] == 0 && s[q + 1] == n && Holds(s, q + 2, bytes)
    ensures q + 2 + |bytes| + |pad| <= |s| && |EncodePacket(Literal(n, bytes))| == 2 + |bytes| + |pad|
  {
    assert EncodePacket(Literal(n, bytes)) == [0, n] + bytes + pad;
    HoldsSplit(s, q, [0, n] + bytes, pad);
    HoldsSplit(s, q, [0, n], bytes);
    HoldsPair(s, q, 0, n);
  }

  /** The state after a literal's escape and then its `e` bytes is the state after all `2 + e`. */
  lemma LiteralAfter(st: Rle, e: nat, n: int, v: seq<int>, base: seq<int>, pre: seq<int>)
    requires 0 <= st.row < |st.img| && |v| == n
    ensures var st1 := st.(pos := st.pos + 2, count := st.count + 2);
            st1.(pos := st1.pos + e, count := st1.count + e, col := |pre| + n, img := st1.img[st1.row := Overlay(base, pre + v)])
            == After(st, 2 + e, v, base, pre)
  {
    AfterForm(st, 2 + e, v, base, pre);
    var st1 := st.(pos := st.pos + 2, count := st.count + 2);
    var r := st1.(pos := st1.pos + e, count := st1.count + e, col := |pre| + n, img := st1.img[st1.row := Overlay(base, pre + v)]);
    assert r.pos == st.pos + (2 + e) && r.count == st.count + (2 + e) && r.col == |pre| + |v|;
    assert r.img == st.img[st.row := Overlay(base, pre + v)];
  }

  /** An encoded run: its two bytes, then its samples painted. */
  lemma RunStep(s: seq<int>, cfg: RleCfg, st: Rle, n: int, b: int, base: seq<int>, pre: seq<int>, v: seq<int>)
    requires AllBytes(s) && 1 <= n <= 255 && st.pos + 2 <= |s| && s[st.pos] == n && s[st.pos + 1] == b && !st.stopped
    requires v == seq(n, j => RunValue(cfg, b, j))
    requires 0 <= st.row < |st.img| && |st.img[st.row]| == |base| && |pre| + n <= cfg.width <= |base|
    requires st.col == |pre| && st.img[st.row] == Overlay(base, pre)
    ensures RleStep(s, cfg, true, st)
            == st.(pos := st.pos + 2, count := st.count + 2, col := |pre| + n, img := st.img[st.row := Overlay(base, pre + v)])
  {
    assert pre + v[..0] == pre;
    RunPaints(cfg, st.(pos := st.pos + 2, count := st.count + 2), b, 0, n, base, pre, v);
  }

  /** A literal's escape: the samples are read from the bytes after it, and then a pad byte if one is due. */
  lemma LiteralCommand(s: seq<int>, cfg: RleCfg, st: Rle, n: int, bytes: seq<int>, pad: seq<int>)
    requires AllBytes(s) && 3 <= n <= 255 && st.pos + 2 <= |s| && s[st.pos] == 0 && s[st.pos + 1] == n
    requires |bytes| == LiteralBytes(cfg, n) && pad == (if |bytes| % 2 == 1 then [0] else [])
    ensures var st1 := st.(pos := st.pos + 2, count := st.count + 2);
            RleStep(s, cfg, true, st) == PadFrom(s, |pad| == 1, LiteralFrom(s, cfg, st1, 0, n))
  {
  }

  /** The samples of a literal painted from its bytes, and the pad byte after them when one is due. */
  lemma LiteralBody(s: seq<int>, cfg: RleCfg, st1: Rle, n: int, bytes: seq<int>, base: seq<int>, pre: seq<int>, v: seq<int>)
    requires AllBytes(s) && PacketOk(cfg, Literal(n, bytes)) && v == Samples(cfg, Literal(n, bytes))
    requires Holds(s, st1.pos, bytes) && st1.pos + |bytes| + (if |bytes| % 2 == 1 then 1 else 0) <= |s| && !st1.stopped
    requires 0 <= st1.row < |st1.img| && |st1.img[st1.row]| == |base| && |pre| + n <= cfg.width <= |base|
    requires st1.col == |pre| && st1.img[st1.row] == Overlay(base, pre)
    ensures var e := |bytes| + if |bytes| % 2 == 1 then 1 else 0;
            PadFrom(s, |bytes| % 2 == 1, LiteralFrom(s, cfg, st1, 0, n))
            == st1.(pos := st1.pos + e, count := st1.count + e, col := |pre| + n,
                    img := st1.img[st1.row := Overlay(base, pre + v)])
  {
    assert pre + v[..0] == pre;
    if cfg.nibbles {
      assert |v| == n && NibbleSamples(cfg, bytes, v);
      assert v[..n] == v;
      Literal4Paints(s, cfg, st1, 0, n, base, pre, bytes, v, st1.pos);
    } else {
      assert v == bytes;
      Literal8Paints(s, cfg, st1, 0, n, base, pre, v, st1.pos);
    }
  }

  /**
   * A row whose commands are ahead of the reader at `st`: they are valid,
   * their samples fit after `pre` within the width and the stored row,
   * their bytes are next in the stream, and the byte count stays below
   * `imageSize` until they are read.
   */
  predicate RowAhead(s: seq<int>, cfg: RleCfg, st: Rle, ps: seq<Packet>, base: seq<int>, pre: seq<int>)
  {
    && AllBytes(s) && RowOk(cfg, ps) && !st.stopped
    && 0 <= st.row < |st.img| && |st.img[st.row]| == |base| && |pre| + |RowSamples(cfg, ps)| <= cfg.width <= |base|
    && st.col == |pre| && st.img[st.row] == Overlay(base, pre)
    && Holds(s, st.pos, EncodeRow(ps)) && st.count + |EncodeRow(ps)| < cfg.imageSize
  }

  /**
   * The commands of a row read one after another, while fewer than
   * `imageSize` bytes are counted, paint the row's samples after `pre`.
   */
  lemma {:induction false} RowDecodes(s: seq<int>, cfg: RleCfg, st: Rle, ps: seq<Packet>, base: seq<int>, pre: seq<int>)
    requires RowAhead(s, cfg, st, ps, base, pre)
    ensures var r := After(st, |EncodeRow(ps)|, RowSamples(cfg, ps), base, pre);
            r.pos <= |s| && RleFrom(s, cfg, true, st) == RleFrom(s, cfg, true, r)
    decreases |ps|
  {
    if ps == [] {
      assert pre + [] == pre;
      assert st.img[st.row := Overlay(base, pre)] == st.img;
    } else {
      var p, rest := ps[0], ps[1..];
      var v0 := Samples(cfg, p);
      var st1 := RowHead(s, cfg, st, ps, base, pre);
      RowDecodes(s, cfg, st1, rest, base, pre + v0);
      AfterAfter(st, |EncodePacket(p)|, v0, |EncodeRow(rest)|, RowSamples(cfg, rest), base, pre,
                 |EncodeRow(ps)|, RowSamples(cfg, ps));
    }
  }

  /** The first command of a row: one step, after which the rest of the row is ahead. */
  lemma RowHead(s: seq<int>, cfg: RleCfg, st: Rle, ps: seq<Packet>, base: seq<int>, pre: seq<int>) returns (st1: Rle)
    requires RowAhead(s, cfg, st, ps, base, pre) && ps != []
    ensures PacketOk(cfg, ps[0]) && RowOk(cfg, ps[1..])
    ensures st1 == After(st, |EncodePacket(ps[0])|, Samples(cfg, ps[0]), base, pre)
    ensures st.pos <= |s| && st1.pos <= |s| && RleFrom(s, cfg, true, st) == RleFrom(s, cfg, true, st1)
    ensures RowAhead(s, cfg, st1, ps[1..], base, pre + Samples(cfg, ps[0]))
  {
    st1 := After(st, |EncodePacket(ps[0])|, Samples(cfg, ps[0]), base, pre);
    HeadLeads(s, cfg, st, ps, base, pre);
    RestAhead(s, cfg, st, ps, base, pre);
  }

  /** Reading on from before a row's first command is reading on from after it. */
  lemma HeadLeads(s: seq<int>, cfg: RleCfg, st: Rle, ps: seq<Packet>, base: seq<int>, pre: seq<int>)
    requires RowAhead(s, cfg, st, ps, base, pre) && ps != []
    ensures PacketOk(cfg, ps[0])
    ensures var st1 := After(st, |EncodePacket(ps[0])|, Samples(cfg, ps[0]), base, pre);
            st.pos <= |s| && st1.pos <= |s| && RleFrom(s, cfg, true, st) == RleFrom(s, cfg, true, st1)
  {
    RowFirst(s, cfg, st, ps, base, pre);
    PacketLeads(s, cfg, st, ps[0], base, pre);
  }

  /** After a row's first command, the rest of the row is ahead. */
  lemma RestAhead(s: seq<int>, cfg: RleCfg, st: Rle, ps: seq<Packet>, base: seq<int>, pre: seq<int>)
    requires RowAhead(s, cfg, st, ps, base, pre) && ps != []
    ensures PacketOk(cfg, ps[0]) && RowOk(cfg, ps[1..])
    ensures RowAhead(s, cfg, After(st, |EncodePacket(ps[0])|, Samples(cfg, ps[0]), base, pre), ps[1..], base, pre + Samples(cfg, ps[0]))
  {
    RowOkRest(cfg, ps);
    RestFacts(s, cfg, st, ps, base, pre);
    AheadAfter(s, cfg, st, ps[1..], base, pre, |EncodePacket(ps[0])|, Samples(cfg, ps[0]));
  }

  /** With a row ahead, the rest of it is held past its first command and fits after that command's samples. */
  lemma RestFacts(s: seq<int>, cfg: RleCfg, st: Rle, ps: seq<Packet>, base: seq<int>, pre: seq<int>)
    requires ps != [] && RowOk(cfg, ps) && PacketOk(cfg, ps[0]) && RowOk(cfg, ps[1..])
    requires |pre| + |RowSamples(cfg, ps)| <= cfg.width
    requires Holds(s, st.pos, EncodeRow(ps)) && st.count + |EncodeRow(ps)| < cfg.imageSize
    ensures |pre| + |Samples(cfg, ps[0])| + |RowSamples(cfg, ps[1..])| <= cfg.width
    ensures Holds(s, st.pos + |EncodePacket(ps[0])|, EncodeRow(ps[1..]))
    ensures st.count + |EncodePacket(ps[0])| + |EncodeRow(ps[1..])| < cfg.imageSize
  {
    RowCons(cfg, ps);
    HoldsSplit(s, st.pos, EncodePacket(ps[0]), EncodeRow(ps[1..]));
  }

  /** With a row ahead, its first command is next in the stream, fits the width, and is read below `imageSize`. */
  lemma RowFirst(s: seq<int>, cfg: RleCfg, st: Rle, ps: seq<Packet>, base: seq<int>, pre: seq<int>)
    requires RowAhead(s, cfg, st, ps, base, pre) && ps != []
    ensures PacketOk(cfg, ps[0]) && Holds(s, st.pos, EncodePacket(ps[0]))
    ensures |pre| + ps[0].n <= cfg.width && st.count < cfg.imageSize
  {
    RowOkRest(cfg, ps);
    RowCons(cfg, ps);
    HoldsSplit(s, st.pos, EncodePacket(ps[0]), EncodeRow(ps[1..]));
  }

  /** The state after `e` bytes and samples `v` has the rest of the row ahead once its bytes follow. */
  lemma AheadAfter(s: seq<int>, cfg: RleCfg, st: Rle, rest: seq<Packet>, base: seq<int>, pre: seq<int>, e: nat, v: seq<int>)
    requires AllBytes(s) && RowOk(cfg, rest) && !st.stopped
    requires 0 <= st.row < |st.img| && |st.img[st.row]| == |base| && |pre| + |v| + |RowSamples(cfg, rest)| <= cfg.width <= |base|
    requires Holds(s, st.pos + e, EncodeRow(rest)) && st.count + e + |EncodeRow(rest)| < cfg.imageSize
    ensures RowAhead(s, cfg, After(st, e, v, base, pre), rest, base, pre + v)
  {
    AfterForm(st, e, v, base, pre);
  }

  /** A row's encoding and samples: its first command's, then the rest's. */
  lemma RowCons(cfg: RleCfg, ps: seq<Packet>)
    requires RowOk(cfg, ps) && ps != []
    ensures EncodeRow(ps) == EncodePacket(ps[0]) + EncodeRow(ps[1..])
    ensures RowSamples(cfg, ps) == Samples(cfg, ps[0]) + RowSamples(cfg, ps[1..])
  {
  }

  /** A well-formed row's first command and remaining commands are well formed. */
  lemma RowOkRest(cfg: RleCfg, ps: seq<Packet>)
    requires RowOk(cfg, ps) && ps != []
    ensures PacketOk(cfg, ps[0]) && RowOk(cfg, ps[1..])
  {
    forall k | 0 <= k < |ps| - 1 ensures PacketOk(cfg, ps[1..][k]) {
      assert ps[1..][k] == ps[k + 1];
    }
  }

  /** Reading on from before a command, below `imageSize`, is reading on from after it. */
  lemma PacketLeads(s: seq<int>, cfg: RleCfg, st: Rle, p: Packet, base: seq<int>, pre: seq<int>)
    requires AllBytes(s) && PacketOk(cfg, p) && Holds(s, st.pos, EncodePacket(p)) && !st.stopped
    requires 0 <= st.row < |st.img| && |st.img[st.row]| == |base| && |pre| + p.n <= cfg.width <= |base|
    requires st.col == |pre| && st.img[st.row] == Overlay(base, pre) && st.count < cfg.imageSize
    ensures var st1 := After(st, |EncodePacket(p)|, Samples(cfg, p), base, pre);
            st.pos <= |s| && st1.pos <= |s| && RleFrom(s, cfg, true, st) == RleFrom(s, cfg, true, st1)
  {
    PacketStep(s, cfg, st, p, base, pre);
  }

  /** The state after whole rows: the stream past them, the next row started, each row painted. */
  function AfterRows(cfg: RleCfg, st: Rle, rows: seq<seq<Packet>>): Rle
    requires forall i :: 0 <= i < |rows| ==> RowOk(cfg, rows[i])
  {
    var e := |EncodeRows(rows)|;
    st.(pos := st.pos + e, count := st.count + e, row := st.row + |rows|, col := 0,
        img := PaintRows(cfg, st.img, st.row, rows))
  }

  /** Rows ahead of the reader at `st`, to be painted from row `st.row` on. */
  predicate RowsAhead(s: seq<int>, cfg: RleCfg, st: Rle, rows: seq<seq<Packet>>)
  {
    && AllBytes(s) && RowsFit(cfg, st, rows)
    && Holds(s, st.pos, EncodeRows(rows)) && st.count + |EncodeRows(rows)| < cfg.imageSize
  }

  /** Each of `rows` is well formed and fits its image row, from the reader's row down. */
  predicate RowsFit(cfg: RleCfg, st: Rle, rows: seq<seq<Packet>>)
  {
    && !st.stopped && st.col == 0 && 0 <= st.row && st.row + |rows| <= |st.img|
    && (forall i {:trigger rows[i]} :: 0 <= i < |rows| ==>
          RowOk(cfg, rows[i]) && RowLen(rows[i]) <= cfg.width <= |st.img[st.row + i]|)
  }

  /** Whole rows, each ended by 0, 0, read one after another. */
  lemma {:induction false} RowsDecode(s: seq<int>, cfg: RleCfg, st: Rle, rows: seq<seq<Packet>>)
    requires RowsAhead(s, cfg, st, rows)
    ensures var r := AfterRows(cfg, st, rows);
            r.pos <= |s| && RleFrom(s, cfg, true, st) == RleFrom(s, cfg, true, r)
    decreases |rows|
  {
    if rows == [] {
      assert PaintRows(cfg, st.img, st.row, rows) == st.img;
    } else {
      var b := RowsStep(s, cfg, st, rows);
      AfterRowsStep(cfg, st, rows);
      RowsDecode(s, cfg, b, rows[1..]);
    }
  }

  /** The state once row `ps` and its end-of-line escape are read from `st`. */
  function LineNext(cfg: RleCfg, st: Rle, ps: seq<Packet>): Rle
    requires RowOk(cfg, ps) && 0 <= st.row < |st.img|
  {
    var e := |EncodeRow(ps)| + 2;
    st.(pos := st.pos + e, count := st.count + e, row := st.row + 1, col := 0,
        img := st.img[st.row := Overlay(st.img[st.row], RowSamples(cfg, ps))])
  }

  /** One row and its end-of-line escape read from the rows ahead. */
  lemma RowsStep(s: seq<int>, cfg: RleCfg, st: Rle, rows: seq<seq<Packet>>) returns (b: Rle)
    requires RowsAhead(s, cfg, st, rows) && rows != []
    ensures RowOk(cfg, rows[0]) && 0 <= st.row < |st.img| && b == LineNext(cfg, st, rows[0])
    ensures st.pos <= |s| && b.pos <= |s| && RleFrom(s, cfg, true, st) == RleFrom(s, cfg, true, b)
    ensures RowsAhead(s, cfg, b, rows[1..])
    ensures forall i :: 0 <= i < |rows| ==> RowOk(cfg, rows[i])
    ensures |EncodeRows(rows)| == |EncodeRow(rows[0])| + 2 + |EncodeRows(rows[1..])|
  {
    var q := RowsSplit(s, cfg, st, rows);
    b := LineDecodes(s, cfg, st, rows[0], q);
    assert b.img == st.img[st.row := Overlay(st.img[st.row], RowSamples(cfg, rows[0]))];
    RowsRest(cfg, st, rows, b);
    RowsLen(rows);
  }

  /**
   * The first of the rows ahead is a row ahead from column 0 of its
   * stored row, followed by 0, 0 and then the other rows.
   */
  lemma RowsSplit(s: seq<int>, cfg: RleCfg, st: Rle, rows: seq<seq<Packet>>) returns (q: int)
    requires RowsAhead(s, cfg, st, rows) && rows != []
    ensures RowAhead(s, cfg, st, rows[0], st.img[st.row], [])
    ensures q == st.pos + |EncodeRow(rows[0])| && q + 2 <= |s| && s[q] == 0 && s[q + 1] == 0
    ensures st.count + |EncodeRow(rows[0])| + 2 < cfg.imageSize
    ensures Holds(s, q + 2, EncodeRows(rows[1..]))
  {
    var ps := rows[0];
    var base := st.img[st.row];
    q := RowsBytes(s, st.pos, rows);
    RowLenSamples(cfg, ps);
    assert Overlay(base, []) == base;
  }

  /** The bytes of the first row, its end-of-line escape and the other rows, as they lie in the stream. */
  lemma RowsBytes(s: seq<int>, p: int, rows: seq<seq<Packet>>) returns (q: int)
    requires Holds(s, p, EncodeRows(rows)) && rows != []
    ensures q == p + |EncodeRow(rows[0])| && q + 2 <= |s| && s[q] == 0 && s[q + 1] == 0
    ensures Holds(s, p, EncodeRow(rows[0])) && Holds(s, q + 2, EncodeRows(rows[1..]))
    ensures |EncodeRows(rows)| == |EncodeRow(rows[0])| + 2 + |EncodeRows(rows[1..])|
  {
    RowsCons(rows);
    var q2 := HoldsLine(s, p, EncodeRow(rows[0]), EncodeRows(rows[1..]));
    q := p + |EncodeRow(rows[0])|;
  }

  /** The encoding of several rows: the first row, its end-of-line escape, then the rest. */
  lemma RowsCons(rows: seq<seq<Packet>>)
    requires rows != []
    ensures EncodeRows(rows) == EncodeRow(rows[0]) + [0, 0] + EncodeRows(rows[1..])
  {
  }

  /** A row and its end-of-line escape: afterwards the next row is started at column 0. */
  lemma LineDecodes(s: seq<int>, cfg: RleCfg, st: Rle, ps: seq<Packet>, q: int) returns (b: Rle)
    requires 0 <= st.row < |st.img| && RowAhead(s, cfg, st, ps, st.img[st.row], [])
    requires q == st.pos + |EncodeRow(ps)| && q + 2 <= |s| && s[q] == 0 && s[q + 1] == 0
    requires st.count + |EncodeRow(ps)| + 2 < cfg.imageSize
    ensures b == LineNext(cfg, st, ps) && b.pos == q + 2
    ensures st.pos <= |s| && b.pos <= |s| && RleFrom(s, cfg, true, st) == RleFrom(s, cfg, true, b)
  {
    var base := st.img[st.row];
    var a := After(st, |EncodeRow(ps)|, RowSamples(cfg, ps), base, []);
    assert a.pos == q && a.pos + 1 == q + 1 && !a.stopped && a.count == st.count + |EncodeRow(ps)|;
    b := EndOfLine(s, cfg, a);
    LineState(cfg, st, ps, a, b);
    RowDecodes(s, cfg, st, ps, base, []);
  }

  /** The state after a row read from column 0, then the end-of-line escape, is LineNext's. */
  lemma LineState(cfg: RleCfg, st: Rle, ps: seq<Packet>, a: Rle, b: Rle)
    requires RowOk(cfg, ps) && 0 <= st.row < |st.img|
    requires a == After(st, |EncodeRow(ps)|, RowSamples(cfg, ps), st.img[st.row], [])
    requires b == a.(pos := a.pos + 2, count := a.count + 2, row := a.row + 1, col := 0)
    ensures b == LineNext(cfg, st, ps)
  {
    assert [] + RowSamples(cfg, ps) == RowSamples(cfg, ps);
  }

  /** A row's bytes, then 0, 0, then the rest, each held in turn. */
  lemma HoldsLine(s: seq<int>, q: int, a: seq<int>, rest: seq<int>) returns (q2: int)
    requires Holds(s, q, a + [0, 0] + rest)
    ensures Holds(s, q, a) && q + |a| + 2 <= |s| && s[q + |a|] == 0 && s[q + |a| + 1] == 0
    ensures q2 == q + |a| + 2 && Holds(s, q2, rest)
  {
    q2 := q + |a| + 2;
    HoldsSplit(s, q, a + [0, 0], rest);
    HoldsSplit(s, q, a, [0, 0]);
    HoldsPair(s, q + |a|, 0, 0);
  }

  /** The end-of-line escape 0, 0 starts the next row at column 0. */
  lemma EndOfLine(s: seq<int>, cfg: RleCfg, a: Rle) returns (b: Rle)
    requires AllBytes(s) && !a.stopped && a.count + 2 < cfg.imageSize
    requires a.pos + 2 <= |s| && s[a.pos] == 0 && s[a.pos + 1] == 0
    ensures b == a.(pos := a.pos + 2, count := a.count + 2, row := a.row + 1, col := 0)
    ensures b.pos <= |s| && RleFrom(s, cfg, true, a) == RleFrom(s, cfg, true, b)
  {
    b := a.(pos := a.pos + 2, count := a.count + 2, row := a.row + 1, col := 0);
    assert RleStep(s, cfg, true, a) == b;
  }

  /** The rows after the first fit from the next image row once the first is read. */
  lemma RowsRest(cfg: RleCfg, st: Rle, rows: seq<seq<Packet>>, b: Rle)
    requires RowsFit(cfg, st, rows) && rows != []
    requires b.stopped == st.stopped && b.col == 0 && b.row == st.row + 1 && |b.img| == |st.img|
    requires 0 <= st.row < |b.img| && b.img == st.img[st.row := b.img[st.row]]
    ensures RowsFit(cfg, b, rows[1..])
  {
    forall i | 0 <= i < |rows| - 1
      ensures RowOk(cfg, rows[1..][i]) && RowLen(rows[1..][i]) <= cfg.width <= |b.img[b.row + i]|
    {
      assert rows[1..][i] == rows[i + 1];
    }
  }

  /** The length of several rows' encoding: the first row's, its end-of-line escape, then the rest's. */
  lemma RowsLen(rows: seq<seq<Packet>>)
    requires rows != []
    ensures |EncodeRows(rows)| == |EncodeRow(rows[0])| + 2 + |EncodeRows(rows[1..])|
  {
    RowsCons(rows);
  }

  /** Reading the first row, then the others, ends where reading all the rows ends. */
  lemma AfterRowsStep(cfg: RleCfg, st: Rle, rows: seq<seq<Packet>>)
    requires rows != [] && 0 <= st.row < |st.img| && forall i :: 0 <= i < |rows| ==> RowOk(cfg, rows[i])
    requires |EncodeRows(rows)| == |EncodeRow(rows[0])| + 2 + |EncodeRows(rows[1..])|
    ensures AfterRows(cfg, LineNext(cfg, st, rows[0]), rows[1..]) == AfterRows(cfg, st, rows)
  {
    AfterRowsPos(cfg, st, rows);
    AfterRowsImg(cfg, st, rows);
    SameRle(AfterRows(cfg, LineNext(cfg, st, rows[0]), rows[1..]), AfterRows(cfg, st, rows));
  }

  lemma AfterRowsImg(cfg: RleCfg, st: Rle, rows: seq<seq<Packet>>)
    requires rows != [] && 0 <= st.row < |st.img| && forall i :: 0 <= i < |rows| ==> RowOk(cfg, rows[i])
    ensures AfterRows(cfg, LineNext(cfg, st, rows[0]), rows[1..]).img == AfterRows(cfg, st, rows).img
  {
    var b := LineNext(cfg, st, rows[0]);
    var img1 := st.img[st.row := Overlay(st.img[st.row], RowSamples(cfg, rows[0]))];
    assert b.row == st.row + 1 && b.img == img1;
    assert PaintRows(cfg, st.img, st.row, rows) == PaintRows(cfg, img1, st.row + 1, rows[1..]);
  }

  /** Two reader states that agree field by field are the same. */
  lemma SameRle(x: Rle, y: Rle)
    requires x.pos == y.pos && x.count == y.count && x.row == y.row && x.col == y.col
    requires x.img == y.img && x.error == y.error && x.msg == y.msg && x.stopped == y.stopped
    ensures x == y
  {
  }

  lemma AfterRowsPos(cfg: RleCfg, st: Rle, rows: seq<seq<Packet>>)
    requires rows != [] && 0 <= st.row < |st.img| && forall i :: 0 <= i < |rows| ==> RowOk(cfg, rows[i])
    requires |EncodeRows(rows)| == |EncodeRow(rows[0])| + 2 + |EncodeRows(rows[1..])|
    ensures var x, y := AfterRows(cfg, LineNext(cfg, st, rows[0]), rows[1..]), AfterRows(cfg, st, rows);
            x.pos == y.pos && x.count == y.count && x.row == y.row && x.col == y.col
            && x.error == y.error && x.msg == y.msg && x.stopped == y.stopped
  {
  }

  /** Rows painted one after another, from row `r0` on. */
  function PaintRows(cfg: RleCfg, img: seq<seq<int>>, r0: int, rows: seq<seq<Packet>>): (r: seq<seq<int>>)
    requires forall i :: 0 <= i < |rows| ==> RowOk(cfg, rows[i])
    decreases |rows|
  {
    if rows == [] then img
    else
      var img1 := if 0 <= r0 < |img| then img[r0 := Overlay(img[r0], RowSamples(cfg, rows[0]))] else img;
      PaintRows(cfg, img1, r0 + 1, rows[1..])
  }

  /** Painting rows one after another paints each over its own row. */
  lemma {:induction false} PaintRowsIs(cfg: RleCfg, img: seq<seq<int>>, r0: int, rows: seq<seq<Packet>>)
    requires 0 <= r0 && r0 + |rows| <= |img| && forall i :: 0 <= i < |rows| ==> RowOk(cfg, rows[i])
    ensures PaintRows(cfg, img, r0, rows) == PaintSpec(cfg, img, r0, rows)
    decreases |rows|
  {
    if rows == [] {
      assert PaintSpec(cfg, img, r0, rows) == img;
    } else {
      var img1 := img[r0 := Overlay(img[r0], RowSamples(cfg, rows[0]))];
      PaintRowsIs(cfg, img1, r0 + 1, rows[1..]);
      PaintStep(cfg, img, r0, rows);
    }
  }

  /** Painting the first row, then the rest from the next row on, paints them all. */
  lemma PaintStep(cfg: RleCfg, img: seq<seq<int>>, r0: int, rows: seq<seq<Packet>>)
    requires rows != [] && 0 <= r0 < |img| && forall i :: 0 <= i < |rows| ==> RowOk(cfg, rows[i])
    ensures PaintSpec(cfg, img[r0 := Overlay(img[r0], RowSamples(cfg, rows[0]))], r0 + 1, rows[1..])
            == PaintSpec(cfg, img, r0, rows)
  {
  }

  // ---------------------------------------------------------------------
  // The pad rule after a 4-bit literal
  // ---------------------------------------------------------------------

  /** One row holding a 4-bit literal of three samples, 1, 2, 3, then the end of the bitmap. */
  function OddLiteralBitmap(): seq<int>
  {
    [0, 3, 0x12, 0x30, 0, 0, 0, 1]
  }

  function OddLiteralCfg(): RleCfg
  {
    RleCfg(4, true, 8)
  }

  function OddLiteralStart(): Rle
  {
    Rle(0, 0, 0, 0, [Zeros(8)], false, "", false)
  }

  /**
   * As written, the 3-sample literal (two bytes) is taken to need a pad
   * byte, so the end-of-row escape is read one byte late and the routine
   * runs into the end of the stream with the error raised.
   */
  lemma OddLiteralMisread()
    ensures PadAsWritten(OddLiteralCfg(), 3) && !PadNeeded(OddLiteralCfg(), 3)
    ensures var r := RleFrom(OddLiteralBitmap(), OddLiteralCfg(), false, OddLiteralStart());
            r.error && r.msg == ErrorText(ERR_INPUT_EOF)
  {
    assert LiteralBytes(OddLiteralCfg(), 3) == 2;
    var a := OddLiteralMisreadRow();
    OddLiteralEnd(a);
  }

  /** One byte short of a command: the end of the stream stops the routine with the error. */
  lemma OddLiteralEnd(a: Rle)
    requires a.pos == 7 && a.count == 7 && !a.stopped
    ensures RleFrom(OddLiteralBitmap(), OddLiteralCfg(), false, a) == RleStop(a.(pos := 8), ERR_INPUT_EOF)
  {
    var s, cfg := OddLiteralBitmap(), OddLiteralCfg();
    var b := RleStep(s, cfg, false, a);
    assert b == RleStop(a.(pos := 8), ERR_INPUT_EOF);
    assert RleFrom(s, cfg, false, a) == RleFrom(s, cfg, false, b);
  }

  /** The literal, the misread pad and the end-of-row escape, as the source reads them. */
  lemma OddLiteralMisreadRow() returns (a: Rle)
    ensures a.pos == 7 && a.count == 7 && !a.stopped
    ensures RleFrom(OddLiteralBitmap(), OddLiteralCfg(), false, OddLiteralStart())
            == RleFrom(OddLiteralBitmap(), OddLiteralCfg(), false, a)
  {
    var s, cfg, st := OddLiteralBitmap(), OddLiteralCfg(), OddLiteralStart();
    var st1 := st.(pos := 2, count := 2);
    var lit := LiteralFrom(s, cfg, st1, 0, 3);
    var l1 := LiteralByte(cfg, st1, 0x12, 0, 3);
    assert LiteralFrom(s, cfg, st1, 0, 3) == LiteralFrom(s, cfg, l1, 2, 3);
    var l2 := LiteralByte(cfg, l1, 0x30, 2, 3);
    assert l1.col == 2 && l1.pos == 3;
    assert LiteralFrom(s, cfg, l1, 2, 3) == LiteralFrom(s, cfg, l2, 4, 3) == l2;
    assert l2.pos == 4 && l2.count == 4 && !l2.stopped;
    var padded := l2.(pos := 5, count := 5);
    assert RleStep(s, cfg, false, st) == padded;
    a := padded.(pos := 7, count := 7, row := 1, col := 0);
    assert RleStep(s, cfg, false, padded) == a;
  }

  /** With the byte-count rule the same bitmap is read to its end with no error. */
  lemma OddLiteralRead()
    ensures var r := RleFrom(OddLiteralBitmap(), OddLiteralCfg(), true, OddLiteralStart());
            !r.error && r.stopped && r.pos == 8 && r.row == 1
  {
    var cfg := OddLiteralCfg();
    var p := Literal(3, [0x12, 0x30]);
    var rows := [[p]];
    assert PacketOk(cfg, p) && RowOk(cfg, rows[0]) && RowLen(rows[0]) == 3;
    assert EncodeRow(rows[0]) == EncodePacket(p) + EncodeRow([]);
    assert EncodeRows(rows) == EncodeRow(rows[0]) + [0, 0] + EncodeRows([]);
    assert EncodeBitmap(rows) == OddLiteralBitmap();
    assert Holds(OddLiteralBitmap(), 0, EncodeBitmap(rows));
    RleRoundTrip(OddLiteralBitmap(), cfg, [Zeros(8)], rows, 0, false, "");
  }

  /**
   * A run-length coded bitmap read back: each row of commands, ended by
   * 0, 0, and the bitmap ended by 0, 1, paints its samples over the
   * stored rows from the first on, and extract_rle_data returns at the
   * end of the bitmap with the stream just past it and no error raised.
   */
  lemma RleRoundTrip(s: seq<int>, cfg: RleCfg, img: seq<seq<int>>, rows: seq<seq<Packet>>, p0: nat, e: bool, m: string)
    requires AllBytes(s) && BitmapFits(cfg, img, rows)
    requires Holds(s, p0, EncodeBitmap(rows)) && |EncodeBitmap(rows)| <= cfg.imageSize
    ensures var n := |EncodeBitmap(rows)|;
            p0 <= |s| && RleFrom(s, cfg, true, Rle(p0, 0, 0, 0, img, e, m, false))
                         == Rle(p0 + n, n, |rows|, 0, Painted(cfg, img, rows), e, m, true)
  {
    var q := BitmapStart(s, cfg, img, rows, p0, e, m);
    var c := RowsDone(cfg, img, rows, p0, e, m);
    assert c.pos == q && c.count < cfg.imageSize;
    BitmapEnd(s, cfg, c);
    RowsDecode(s, cfg, Rle(p0, 0, 0, 0, img, e, m, false), rows);
  }

  /** After all the rows of a bitmap: the stream past them, each row painted, the row count at their number. */
  lemma RowsDone(cfg: RleCfg, img: seq<seq<int>>, rows: seq<seq<Packet>>, p0: nat, e: bool, m: string) returns (c: Rle)
    requires |rows| <= |img| && forall i :: 0 <= i < |rows| ==> RowOk(cfg, rows[i])
    ensures c == AfterRows(cfg, Rle(p0, 0, 0, 0, img, e, m, false), rows)
    ensures c == Rle(p0 + |EncodeRows(rows)|, |EncodeRows(rows)|, |rows|, 0, Painted(cfg, img, rows), e, m, false)
  {
    c := AfterRows(cfg, Rle(p0, 0, 0, 0, img, e, m, false), rows);
    assert c.pos == p0 + |EncodeRows(rows)| && c.count == |EncodeRows(rows)|;
    assert c.row == |rows| && c.col == 0 && c.error == e && c.msg == m && !c.stopped;
    PaintRowsIs(cfg, img, 0, rows);
    assert c.img == Painted(cfg, img, rows);
  }

  /** At the start of a bitmap its rows are ahead, then 0, 1. */
  lemma BitmapStart(s: seq<int>, cfg: RleCfg, img: seq<seq<int>>, rows: seq<seq<Packet>>, p0: nat, e: bool, m: string) returns (q: int)
    requires AllBytes(s) && BitmapFits(cfg, img, rows)
    requires Holds(s, p0, EncodeBitmap(rows)) && |EncodeBitmap(rows)| <= cfg.imageSize
    ensures RowsAhead(s, cfg, Rle(p0, 0, 0, 0, img, e, m, false), rows)
    ensures q == p0 + |EncodeRows(rows)| && q + 2 <= |s| && s[q] == 0 && s[q + 1] == 1
    ensures |EncodeBitmap(rows)| == |EncodeRows(rows)| + 2
  {
    q := p0 + |EncodeRows(rows)|;
    HoldsSplit(s, p0, EncodeRows(rows), [0, 1]);
    HoldsPair(s, q, 0, 1);
  }

  /** The end-of-bitmap escape 0, 1 stops the reader just past it. */
  lemma BitmapEnd(s: seq<int>, cfg: RleCfg, c: Rle)
    requires AllBytes(s) && !c.stopped && c.count < cfg.imageSize
    requires c.pos + 2 <= |s| && s[c.pos] == 0 && s[c.pos + 1] == 1
    ensures RleFrom(s, cfg, true, c) == c.(pos := c.pos + 2, count := c.count + 2, stopped := true)
  {
    var d := c.(pos := c.pos + 2, count := c.count + 2, stopped := true);
    assert RleStep(s, cfg, true, c) == d;
    assert RleOn(s, cfg, true, c) == RleFrom(s, cfg, true, d) == d;
  }
}
