/**
 * The Truevision Targa decoder of readtarga.c: the 18-byte header, the
 * colour-mapped, true-colour and grey-scale image types, optionally
 * run-length encoded, and a preload that turns a bottom-up image into
 * top-down rows.
 *
 * The pixel reader is a small state machine over the stream: the byte
 * position, the two run-length counters and the four-byte pixel buffer
 * `tga_pixel`.  `Cursor` is that state together with the error flag and
 * message, and `PixelStep` is one call of the reader; everything the row
 * readers deliver is stated through `Walk`, the sequence of pixels a run
 * of calls produces.
 */
module ReadTarga {
  import opened DecodeImage
  import opened Common

  const ERR_TGA_BADCMAP: string := "Unsupported Targa colormap format"
  const ERR_TGA_BADPARMS: string := "Invalid or unsupported Targa file"

  const HEADER_LEN: int := 18

  /** Bytes requested for the decoder's own state by targa_init. */
  const SOURCE_STRUCT_SIZE: int := 256

  // ---------------------------------------------------------------------
  // Expanding 5-bit channels
  // ---------------------------------------------------------------------

  const C5TO8: seq<int> := [
      0,   8,  16,  25,  33,  41,  49,  58,
     66,  74,  82,  90,  99, 107, 115, 123,
    132, 140, 148, 156, 165, 173, 181, 189,
    197, 206, 214, 222, 230, 239, 247, 255]

  /** The 8-bit value nearest to `k * 255 / 31`. */
  function Nearest8(k: int): int { (k * 255 + 15) / 31 }

  /** Every entry of the table is the best rounding of the 5-bit value it expands. */
  lemma C5to8Rounds()
    ensures |C5TO8| == 32
    ensures forall k :: 0 <= k < 32 ==> C5TO8[k] == Nearest8(k)
  {
    forall k | 0 <= k < 32 ensures C5TO8[k] == Nearest8(k) {
      if k < 8 {
        assert k in {0, 1, 2, 3, 4, 5, 6, 7};
      } else if k < 16 {
        assert k in {8, 9, 10, 11, 12, 13, 14, 15};
      } else if k < 24 {
        assert k in {16, 17, 18, 19, 20, 21, 22, 23};
      } else {
        assert k in {24, 25, 26, 27, 28, 29, 30, 31};
      }
    }
  }

  /** Consecutive 5-bit values expand at least 8 apart. */
  lemma NearestStep(k: int)
    requires 0 <= k
    ensures Nearest8(k) + 8 <= Nearest8(k + 1)
  {
    var x := k * 255 + 15;
    assert (k + 1) * 255 + 15 == x + 8 * 31 + 7;
    assert (x + 8 * 31 + 7) / 31 >= x / 31 + 8;
  }

  /** The table runs from 0 to 255, strictly increasing, and every entry is a byte. */
  lemma C5to8Spans()
    ensures |C5TO8| == 32 && C5TO8[0] == 0 && C5TO8[31] == 255
    ensures forall i, j :: 0 <= i < j < 32 ==> C5TO8[i] < C5TO8[j]
    ensures forall k :: 0 <= k < 32 ==> IsByte(C5TO8[k])
  {
    C5to8Rounds();
    forall i, j | 0 <= i < j < 32 ensures C5TO8[i] < C5TO8[j] {
      NearestIncreasing(i, j);
    }
  }

  /** The 8-bit expansion of a 5-bit channel value: the table entry, which is the nearest byte. */
  function Expand5(k: int): (e: int)
    requires 0 <= k < 32
    ensures IsByte(e) && e == Nearest8(k)
  {
    C5to8Rounds();
    C5to8Spans();
    C5TO8[k]
  }

  lemma {:induction false} NearestIncreasing(i: int, j: int)
    requires 0 <= i < j
    ensures Nearest8(i) < Nearest8(j)
    decreases j - i
  {
    NearestStep(i);
    if i + 1 < j {
      NearestIncreasing(i + 1, j);
    }
  }

  // ---------------------------------------------------------------------
  // Pixels
  // ---------------------------------------------------------------------

  /** The row readers get_8bit_gray_row, get_8bit_row, get_16bit_row, get_24bit_row and get_32bit_row. */
  datatype RowKind = NoRow | Gray8 | Mapped8 | Rgb16 | Rgb24 | Rgb32

  /** The pixel size, in bytes, each row reader is installed for. */
  function PixelSizeOf(kind: RowKind): int
  {
    match kind
    case NoRow => 0
    case Gray8 => 1
    case Mapped8 => 1
    case Rgb16 => 2
    case Rgb24 => 3
    case Rgb32 => 4
  }

  /**
   * What a pixel needs to be converted: four bytes and, for a colour-mapped
   * row, an index within the colormap (the source indexes it unchecked).
   */
  predicate Convertible(kind: RowKind, cmap: seq<seq<int>>, px: seq<int>)
  {
    && kind != NoRow && |px| == 4 && AllBytes(px)
    && (kind == Mapped8 ==> ColormapOk(cmap) && px[0] < |cmap[0]|)
  }

  /** A 16-bit pixel, least significant byte first, as xRRRRRGGGGGBBBBB. */
  function Pixel16(lo: int, hi: int): (p: int)
    requires IsByte(lo) && IsByte(hi)
  {
    var t := lo + hi * 0x100;
    Argb(255, Expand5(t / 0x400 % 32), Expand5(t / 0x20 % 32), Expand5(t % 32))
  }

  /** The packed ARGB word a row reader stores for the pixel in `tga_pixel`. */
  function Convert(kind: RowKind, cmap: seq<seq<int>>, px: seq<int>): (p: int)
    requires Convertible(kind, cmap, px)
    ensures 0 <= p < 0x1_0000_0000
  {
    match kind
    case Gray8 => Grey(px[0])
    case Mapped8 => Argb(255, cmap[0][px[0]], cmap[1][px[0]], cmap[2][px[0]])
    case Rgb16 => Pixel16(px[0], px[1])
    case Rgb24 => Argb(255, px[2], px[1], px[0])
    case Rgb32 => Argb(255, px[2], px[1], px[0])
  }

  /** The 16-bit word with attribute bit `x` and 5-bit channels `r`, `g`, `b`. */
  function Word16(x: int, r: int, g: int, b: int): int
  {
    ((x * 32 + r) * 32 + g) * 32 + b
  }

  /** Division by 32 recovers quotient and remainder. */
  lemma Split32(q: int, r: int)
    requires 0 <= r < 32
    ensures (q * 32 + r) / 32 == q && (q * 32 + r) % 32 == r
  {
  }

  /** A 16-bit pixel unpacks to the expansions of the three 5-bit channels it was packed from. */
  lemma Pixel16Unpacks(x: int, r: int, g: int, b: int, lo: int, hi: int)
    requires 0 <= x < 2 && 0 <= r < 32 && 0 <= g < 32 && 0 <= b < 32
    requires IsByte(lo) && IsByte(hi) && lo + hi * 0x100 == Word16(x, r, g, b)
    ensures Pixel16(lo, hi) == Argb(255, Expand5(r), Expand5(g), Expand5(b))
  {
    Word16Fields(x, r, g, b, lo + hi * 0x100);
  }

  /** The three 5-bit fields of a 16-bit word are the channels it was packed from. */
  lemma Word16Fields(x: int, r: int, g: int, b: int, t: int)
    requires 0 <= x < 2 && 0 <= r < 32 && 0 <= g < 32 && 0 <= b < 32 && t == Word16(x, r, g, b)
    ensures t / 0x400 % 32 == r && t / 0x20 % 32 == g && t % 32 == b
  {
    var q := (x * 32 + r) * 32 + g;
    Split32(q, b);
    Split32(x * 32 + r, g);
    Split32(x, r);
    assert t == q * 32 + b;
    assert t / 0x20 == q && t % 32 == b;
    assert t / 0x400 == q / 32;
  }

  /** Every 5-bit channel triple has a 16-bit word, so the lemma above covers all such pixels. */
  lemma Word16Fits(x: int, r: int, g: int, b: int)
    requires 0 <= x < 2 && 0 <= r < 32 && 0 <= g < 32 && 0 <= b < 32
    ensures 0 <= Word16(x, r, g, b) < 0x1_0000
    ensures IsByte(Word16(x, r, g, b) % 0x100) && IsByte(Word16(x, r, g, b) / 0x100)
  {
  }

  /**
   * A 16-bit pixel is opaque and carries the expansions of its three 5-bit
   * fields, red in bits 10-14, green in bits 5-9 and blue in bits 0-4 of
   * the little-endian word.
   */
  lemma Pixel16Channels(cmap: seq<seq<int>>, px: seq<int>)
    requires Convertible(Rgb16, cmap, px)
    ensures var t := px[0] + px[1] * 0x100;
            Unpacks(Convert(Rgb16, cmap, px), 255, Expand5(t / 0x400 % 32), Expand5(t / 0x20 % 32), Expand5(t % 32))
  {
    var t := px[0] + px[1] * 0x100;
    var r, g, b := Expand5(t / 0x400 % 32), Expand5(t / 0x20 % 32), Expand5(t % 32);
    assert Convert(Rgb16, cmap, px) == Argb(255, r, g, b);
    ArgbChannels(255, r, g, b);
  }

  /**
   * Every other reader delivers an opaque pixel too: grey repeats its byte,
   * a mapped pixel takes the three map entries at its index, and 24- and
   * 32-bit read blue, green, red in that order and ignore the fourth byte.
   */
  lemma ConvertChannels(kind: RowKind, cmap: seq<seq<int>>, px: seq<int>)
    requires Convertible(kind, cmap, px) && kind != Rgb16
    ensures var p := Convert(kind, cmap, px);
            && (kind == Gray8 ==> Unpacks(p, 255, px[0], px[0], px[0]))
            && (kind == Mapped8 ==> Unpacks(p, 255, cmap[0][px[0]], cmap[1][px[0]], cmap[2][px[0]]))
            && (kind == Rgb24 || kind == Rgb32 ==> Unpacks(p, 255, px[2], px[1], px[0]))
  {
    match kind
    case Gray8 => ArgbChannels(255, px[0], px[0], px[0]);
    case Mapped8 => ArgbChannels(255, cmap[0][px[0]], cmap[1][px[0]], cmap[2][px[0]]);
    case Rgb24 => ArgbChannels(255, px[2], px[1], px[0]);
    case Rgb32 => ArgbChannels(255, px[2], px[1], px[0]);
  }

  // ---------------------------------------------------------------------
  // The pixel reader as a state machine
  // ---------------------------------------------------------------------

  /**
   * The state read_pixel works on: the stream position, `block_count`,
   * `dup_pixel_count`, the four bytes of `tga_pixel`, and the error flag
   * and message.
   */
  datatype Cursor = Cursor(pos: nat, block: int, dup: int, pixel: seq<int>, error: bool, msg: string)

  predicate Fits(s: seq<int>, size: int, c: Cursor)
  {
    1 <= size <= 4 && AllBytes(s) && c.pos <= |s| && |c.pixel| == 4 && AllBytes(c.pixel)
  }

  /** getc cast to an unsigned char: EOF (-1) becomes 0xFF. */
  function ByteOrFF(s: seq<int>, k: int): (b: int)
    ensures AllBytes(s) ==> IsByte(b)
  {
    if 0 <= k < |s| then s[k] else 0xFF
  }

  /** read_byte: the next byte, or 1 (with the error raised) at the end of the stream. */
  function ReadByteAt(s: seq<int>, k: int): int
  {
    if 0 <= k < |s| then s[k] else 1
  }

  /** read_non_rle_pixel: `size` getc's into the first bytes of `tga_pixel`. */
  function Fetch(s: seq<int>, size: int, c: Cursor): (d: Cursor)
    requires Fits(s, size, c)
    ensures Fits(s, size, d)
    ensures d.pos == Min(c.pos + size, |s|) && d.block == c.block && d.dup == c.dup
    ensures d.error == c.error && d.msg == c.msg && d.pixel[size..] == c.pixel[size..]
    ensures forall i :: 0 <= i < size ==> d.pixel[i] == ByteOrFF(s, c.pos + i)
  {
    var fetched := seq(size, i => ByteOrFF(s, c.pos + i));
    var d := c.(pos := Min(c.pos + size, |s|), pixel := fetched + c.pixel[size..]);
    assert AllBytes(d.pixel) by {
      forall i | 0 <= i < 4 ensures IsByte(d.pixel[i]) {
        if i < size {
          assert d.pixel[i] == ByteOrFF(s, c.pos + i);
        } else {
          assert d.pixel[i] == c.pixel[i];
        }
      }
    }
    d
  }

  /**
   * One call of read_pixel.  Without run-length coding it fetches a pixel.
   * With it, a pending duplicate only decrements its count; otherwise the
   * block count is decremented and, when it drops below zero, a packet
   * header is read: bit 7 set starts a run whose pixel is repeated `h & 0x7F`
   * more times, clear starts `h & 0x7F` more literal pixels.  The pixel
   * after the header is fetched in both cases.
   */
  function PixelStep(s: seq<int>, rle: bool, size: int, c: Cursor): (d: Cursor)
    requires Fits(s, size, c)
    ensures Fits(s, size, d)
  {
    if !rle then Fetch(s, size, c)
    else if c.dup > 0 then c.(dup := c.dup - 1)
    else if c.block - 1 >= 0 then Fetch(s, size, c.(block := c.block - 1))
    else if c.pos == |s| then Fetch(s, size, c.(block := 1, error := true, msg := ErrorText(ERR_INPUT_EOF)))
    else
      var h := s[c.pos];
      if h >= 0x80 then Fetch(s, size, c.(pos := c.pos + 1, dup := h - 0x80, block := 0))
      else Fetch(s, size, c.(pos := c.pos + 1, block := h))
  }

  /** The pixels `n` calls of read_pixel leave in `tga_pixel`, in order, and the state after them. */
  datatype Trace = Trace(pixels: seq<seq<int>>, end: Cursor)

  function Walk(s: seq<int>, rle: bool, size: int, c: Cursor, n: nat): (t: Trace)
    requires Fits(s, size, c)
    ensures |t.pixels| == n && Fits(s, size, t.end)
    decreases n
  {
    if n == 0 then Trace([], c)
    else
      var d := PixelStep(s, rle, size, c);
      var t := Walk(s, rle, size, d, n - 1);
      Trace([d.pixel] + t.pixels, t.end)
  }

  /** Walking `a + b` pixels is walking `a`, then `b` from where the first walk ended. */
  lemma {:induction false} WalkAppend(s: seq<int>, rle: bool, size: int, c: Cursor, a: nat, b: nat)
    requires Fits(s, size, c)
    ensures Walk(s, rle, size, c, a + b).pixels
            == Walk(s, rle, size, c, a).pixels + Walk(s, rle, size, Walk(s, rle, size, c, a).end, b).pixels
    ensures Walk(s, rle, size, c, a + b).end == Walk(s, rle, size, Walk(s, rle, size, c, a).end, b).end
    decreases a
  {
    if a > 0 {
      var d := PixelStep(s, rle, size, c);
      WalkAppend(s, rle, size, d, a - 1, b);
      WalkCons(s, rle, size, c, a, d);
      WalkCons(s, rle, size, c, a + b, d);
      var t1 := Walk(s, rle, size, d, a - 1);
      var t2 := Walk(s, rle, size, t1.end, b);
      assert a - 1 + b == a + b - 1;
      assert [d.pixel] + (t1.pixels + t2.pixels) == ([d.pixel] + t1.pixels) + t2.pixels;
    }
  }

  /** A walk of `n > 0` steps is one step followed by a walk of `n - 1` from the state `d` it reaches. */
  lemma WalkCons(s: seq<int>, rle: bool, size: int, c: Cursor, n: nat, d: Cursor)
    requires Fits(s, size, c) && 0 < n && d == PixelStep(s, rle, size, c)
    ensures Fits(s, size, d)
    ensures Walk(s, rle, size, c, n) == Trace([d.pixel] + Walk(s, rle, size, d, n - 1).pixels, Walk(s, rle, size, d, n - 1).end)
  {
  }

  // ---------------------------------------------------------------------
  // Run-length packets
  // ---------------------------------------------------------------------

  /** A run-length packet: one pixel repeated `count` times, or literal pixels. */
  datatype Packet = Run(count: int, pixel: seq<int>) | Raw(pixels: seq<seq<int>>)

  predicate PixelsOk(pxs: seq<seq<int>>, size: int)
  {
    forall k :: 0 <= k < |pxs| ==> |pxs[k]| == size && AllBytes(pxs[k])
  }

  /** Both kinds carry 1 to 128 pixels of `size` bytes. */
  predicate PacketOk(p: Packet, size: int)
  {
    match p
    case Run(n, px) => 1 <= n <= 128 && |px| == size && AllBytes(px)
    case Raw(pxs) => 1 <= |pxs| <= 128 && PixelsOk(pxs, size)
  }

  predicate PacketsOk(ps: seq<Packet>, size: int)
  {
    forall k :: 0 <= k < |ps| ==> PacketOk(ps[k], size)
  }

  function Flatten(pxs: seq<seq<int>>): seq<int>
  {
    if pxs == [] then [] else pxs[0] + Flatten(pxs[1..])
  }

  /** A packet as the file stores it: the header byte, then one pixel or all of them. */
  function EncodePacket(p: Packet): seq<int>
  {
    match p
    case Run(n, px) => [0x80 + n - 1] + px
    case Raw(pxs) => [|pxs| - 1] + Flatten(pxs)
  }

  /** The pixels a packet stands for. */
  function ExpandPacket(p: Packet): seq<seq<int>>
  {
    match p
    case Run(n, px) => seq(if n < 0 then 0 else n, _ => px)
    case Raw(pxs) => pxs
  }

  function Encode(ps: seq<Packet>): seq<int>
  {
    if ps == [] then [] else EncodePacket(ps[0]) + Encode(ps[1..])
  }

  function Expand(ps: seq<Packet>): seq<seq<int>>
  {
    if ps == [] then [] else ExpandPacket(ps[0]) + Expand(ps[1..])
  }

  /** Each pixel followed by the bytes of `tga_pixel` a read of `|px|` bytes leaves alone. */
  function Padded(pxs: seq<seq<int>>, tail: seq<int>): seq<seq<int>>
  {
    seq(|pxs|, k requires 0 <= k < |pxs| => pxs[k] + tail)
  }

  /** A state between packets: nothing pending, at `pos`, with the error and the unread pixel bytes of `c`. */
  predicate Between(c: Cursor, d: Cursor, pos: int, size: int)
  {
    && d.pos == pos && d.block == 0 && d.dup == 0 && d.error == c.error && d.msg == c.msg
    && 1 <= size <= 4 && |d.pixel| == 4 && |c.pixel| == 4 && d.pixel[size..] == c.pixel[size..]
  }

  /** Pending duplicates repeat the pixel in `tga_pixel` without reading. */
  lemma {:induction false} Duplicates(s: seq<int>, size: int, c: Cursor, k: nat)
    requires Fits(s, size, c) && c.dup == k
    ensures Walk(s, true, size, c, k) == Trace(seq(k, _ => c.pixel), c.(dup := 0))
    decreases k
  {
    if k > 0 {
      var d := c.(dup := k - 1);
      assert PixelStep(s, true, size, c) == d;
      Duplicates(s, size, d, k - 1);
      assert [c.pixel] + seq(k - 1, _ => c.pixel) == seq(k, _ => c.pixel);
    }
  }

  /**
   * Literal pixels: with run-length coding and `block` equal to their
   * number, or without it, each call fetches the next `size` bytes.
   */
  lemma {:induction false} Literals(s: seq<int>, rle: bool, size: int, c: Cursor, pxs: seq<seq<int>>, n: nat)
    requires Fits(s, size, c) && PixelsOk(pxs, size) && n == |pxs|
    requires rle ==> c.dup == 0 && c.block == |pxs|
    requires c.pos + |Flatten(pxs)| <= |s| && s[c.pos..c.pos + |Flatten(pxs)|] == Flatten(pxs)
    ensures var t := Walk(s, rle, size, c, n);
            && t.pixels == Padded(pxs, c.pixel[size..])
            && t.end.pos == c.pos + |Flatten(pxs)| && t.end.error == c.error && t.end.msg == c.msg
            && t.end.pixel[size..] == c.pixel[size..]
            && (rle ==> t.end.block == 0 && t.end.dup == 0)
            && (!rle ==> t.end.block == c.block && t.end.dup == c.dup)
    decreases |pxs|
  {
    if pxs != [] {
      var c1 := if rle then c.(block := c.block - 1) else c;
      StepFetches(s, rle, size, c, c1);
      var d := Fetch(s, size, c1);
      LiteralStep(s, size, c1, pxs);
      Literals(s, rle, size, d, pxs[1..], n - 1);
      WalkCons(s, rle, size, c, n, d);
      assert [d.pixel] + Padded(pxs[1..], c.pixel[size..]) == Padded(pxs, c.pixel[size..]);
    }
  }

  /** Inside a literal block, or without run-length coding, a call is a plain fetch. */
  lemma StepFetches(s: seq<int>, rle: bool, size: int, c: Cursor, c1: Cursor)
    requires Fits(s, size, c) && (rle ==> c.dup == 0 && c.block > 0)
    requires c1 == if rle then c.(block := c.block - 1) else c
    ensures Fits(s, size, c1) && PixelStep(s, rle, size, c) == Fetch(s, size, c1)
  {
  }

  /** One literal pixel: a fetch reads the first pixel's bytes and leaves the rest of them just ahead. */
  lemma LiteralStep(s: seq<int>, size: int, c: Cursor, pxs: seq<seq<int>>)
    requires Fits(s, size, c) && PixelsOk(pxs, size) && pxs != []
    requires c.pos + |Flatten(pxs)| <= |s| && s[c.pos..c.pos + |Flatten(pxs)|] == Flatten(pxs)
    ensures var d := Fetch(s, size, c);
            && d.pixel == pxs[0] + c.pixel[size..]
            && |Flatten(pxs)| == size + |Flatten(pxs[1..])| && d.pos == c.pos + size
            && d.pos + |Flatten(pxs[1..])| <= |s| && s[d.pos..d.pos + |Flatten(pxs[1..])|] == Flatten(pxs[1..])
  {
    var rest := Flatten(pxs[1..]);
    assert Flatten(pxs) == pxs[0] + rest;
    SplitAt(s, c.pos, pxs[0], rest);
    FetchWhole(s, size, c, pxs[0]);
    SliceAt(s, Fetch(s, size, c).pos, c.pos + size, rest);
  }

  /** A fetch of `size` bytes that are all in the file loads exactly those bytes. */
  lemma FetchWhole(s: seq<int>, size: int, c: Cursor, px: seq<int>)
    requires Fits(s, size, c) && |px| == size && c.pos + size <= |s| && s[c.pos..c.pos + size] == px
    ensures Fetch(s, size, c).pixel == px + c.pixel[size..] && Fetch(s, size, c).pos == c.pos + size
  {
    var d := Fetch(s, size, c);
    forall i | 0 <= i < size ensures d.pixel[i] == px[i] {
      assert s[c.pos..c.pos + size][i] == s[c.pos + i];
    }
  }

  /** The first byte of a packet is its header and the bytes after it its pixel data. */
  lemma PacketBytes(s: seq<int>, pos: nat, e: seq<int>, k: nat)
    requires 0 < |e| && pos + |e| <= |s| && s[pos..pos + |e|] == e && 1 + k <= |e|
    ensures s[pos] == e[0] && s[pos + 1..pos + 1 + k] == e[1..1 + k]
  {
    assert s[pos..pos + |e|][0] == s[pos];
    forall i | 1 <= i < 1 + k ensures s[pos + i] == e[i] {
      assert s[pos..pos + |e|][i] == s[pos + i];
    }
  }

  /** A run packet: the header, one pixel, then its repeats. */
  lemma RunRoundTrip(s: seq<int>, size: int, c: Cursor, n: int, px: seq<int>)
    requires Fits(s, size, c) && c.block == 0 && c.dup == 0 && PacketOk(Run(n, px), size)
    requires c.pos + 1 + size <= |s| && s[c.pos] == 0x80 + n - 1 && s[c.pos + 1..c.pos + 1 + size] == px
    ensures var t := Walk(s, true, size, c, n);
            t.pixels == Padded(seq(n, _ => px), c.pixel[size..]) && Between(c, t.end, c.pos + 1 + size, size)
  {
    var c1 := c.(pos := c.pos + 1, dup := n - 1, block := 0);
    var d := PixelStep(s, true, size, c);
    assert d == Fetch(s, size, c1);
    FetchWhole(s, size, c1, px);
    var t1 := Walk(s, true, size, d, n - 1);
    assert Walk(s, true, size, c, n) == Trace([d.pixel] + t1.pixels, t1.end);
    Duplicates(s, size, d, n - 1);
    var padded := Padded(seq(n, _ => px), c.pixel[size..]);
    assert [d.pixel] + seq(n - 1, _ => d.pixel) == padded by {
      forall k | 0 <= k < n ensures ([d.pixel] + seq(n - 1, _ => d.pixel))[k] == padded[k] {
      }
    }
  }

  /** Two states whose next call leaves the same state walk alike. */
  lemma SameStep(s: seq<int>, rle: bool, size: int, c: Cursor, c2: Cursor, n: nat)
    requires Fits(s, size, c) && Fits(s, size, c2) && 1 <= n
    requires PixelStep(s, rle, size, c) == PixelStep(s, rle, size, c2)
    ensures Walk(s, rle, size, c, n) == Walk(s, rle, size, c2, n)
  {
  }

  /** The header of a raw packet leaves the state a literal block of its length would. */
  lemma RawHeader(s: seq<int>, size: int, c: Cursor, n: int)
    requires Fits(s, size, c) && c.block == 0 && c.dup == 0 && 1 <= n <= 128
    requires c.pos < |s| && s[c.pos] == n - 1
    ensures PixelStep(s, true, size, c) == PixelStep(s, true, size, c.(pos := c.pos + 1, block := n))
  {
  }

  /** A raw packet: the header, then its literal pixels. */
  lemma RawRoundTrip(s: seq<int>, size: int, c: Cursor, pxs: seq<seq<int>>, n: nat)
    requires Fits(s, size, c) && c.block == 0 && c.dup == 0 && 1 <= n <= 128 && n == |pxs| && PixelsOk(pxs, size)
    requires c.pos + 1 + |Flatten(pxs)| <= |s| && s[c.pos] == |pxs| - 1
    requires s[c.pos + 1..c.pos + 1 + |Flatten(pxs)|] == Flatten(pxs)
    ensures var t := Walk(s, true, size, c, n);
            t.pixels == Padded(pxs, c.pixel[size..]) && Between(c, t.end, c.pos + 1 + |Flatten(pxs)|, size)
  {
    var c2 := c.(pos := c.pos + 1, block := n);
    RawHeader(s, size, c, n);
    SameStep(s, true, size, c, c2, n);
    Literals(s, true, size, c2, pxs, n);
  }

  /** From a state between packets, one encoded packet yields its `n` pixels and ends between packets again. */
  lemma PacketRoundTrip(s: seq<int>, size: int, c: Cursor, p: Packet, n: nat)
    requires Fits(s, size, c) && c.block == 0 && c.dup == 0 && PacketOk(p, size) && n == |ExpandPacket(p)|
    requires c.pos + |EncodePacket(p)| <= |s| && s[c.pos..c.pos + |EncodePacket(p)|] == EncodePacket(p)
    ensures var t := Walk(s, true, size, c, n);
            t.pixels == Padded(ExpandPacket(p), c.pixel[size..]) && Between(c, t.end, c.pos + |EncodePacket(p)|, size)
  {
    var e := EncodePacket(p);
    match p
    case Run(k, px) =>
      assert |e| == 1 + size && ExpandPacket(p) == seq(k, _ => px);
      PacketBytes(s, c.pos, e, size);
      RunRoundTrip(s, size, c, k, px);
    case Raw(pxs) =>
      assert |e| == 1 + |Flatten(pxs)| && ExpandPacket(p) == pxs;
      PacketBytes(s, c.pos, e, |Flatten(pxs)|);
      RawRoundTrip(s, size, c, pxs, n);
  }

  /**
   * Run-length decoding inverts run-length encoding: reading the `n`
   * pixels the encoded packets stand for, from a state between packets,
   * gives back exactly those pixels, and leaves a state between packets
   * just after the packets.
   */
  lemma {:induction false} RleRoundTrip(s: seq<int>, size: int, c: Cursor, ps: seq<Packet>, n: nat)
    requires Fits(s, size, c) && c.block == 0 && c.dup == 0 && PacketsOk(ps, size) && n == |Expand(ps)|
    requires c.pos + |Encode(ps)| <= |s| && s[c.pos..c.pos + |Encode(ps)|] == Encode(ps)
    ensures var t := Walk(s, true, size, c, n);
            t.pixels == Padded(Expand(ps), c.pixel[size..]) && Between(c, t.end, c.pos + |Encode(ps)|, size)
    decreases |ps|
  {
    if ps != [] {
      var n0, n1 := |ExpandPacket(ps[0])|, |Expand(ps[1..])|;
      RleHead(s, size, c, ps, n0);
      RleRoundTrip(s, size, Walk(s, true, size, c, n0).end, ps[1..], n1);
      RleCons(s, size, c, ps, n0, n1, n);
    } else {
      assert Walk(s, true, size, c, 0).end == c;
    }
  }

  /** The first packet decodes, and the encoded packets after it follow where it ends. */
  lemma RleHead(s: seq<int>, size: int, c: Cursor, ps: seq<Packet>, n0: nat)
    requires Fits(s, size, c) && c.block == 0 && c.dup == 0 && PacketsOk(ps, size) && ps != []
    requires n0 == |ExpandPacket(ps[0])|
    requires c.pos + |Encode(ps)| <= |s| && s[c.pos..c.pos + |Encode(ps)|] == Encode(ps)
    ensures var t := Walk(s, true, size, c, n0);
            t.pixels == Padded(ExpandPacket(ps[0]), c.pixel[size..])
            && Between(c, t.end, c.pos + |EncodePacket(ps[0])|, size)
    ensures var d := Walk(s, true, size, c, n0).end;
            Fits(s, size, d) && d.block == 0 && d.dup == 0 && PacketsOk(ps[1..], size)
            && d.pos + |Encode(ps[1..])| <= |s| && s[d.pos..d.pos + |Encode(ps[1..])|] == Encode(ps[1..])
  {
    assert Encode(ps) == EncodePacket(ps[0]) + Encode(ps[1..]);
    assert PacketOk(ps[0], size) && PacketsOk(ps[1..], size);
    HeadStep(s, size, c, ps[0], Encode(ps[1..]), Encode(ps), n0);
  }

  /** One packet at the front of encoded bytes `e` decodes and leaves the rest `e1` of them just ahead. */
  lemma HeadStep(s: seq<int>, size: int, c: Cursor, p: Packet, e1: seq<int>, e: seq<int>, n0: nat)
    requires Fits(s, size, c) && c.block == 0 && c.dup == 0 && PacketOk(p, size) && n0 == |ExpandPacket(p)|
    requires e == EncodePacket(p) + e1 && c.pos + |e| <= |s| && s[c.pos..c.pos + |e|] == e
    ensures var t := Walk(s, true, size, c, n0);
            t.pixels == Padded(ExpandPacket(p), c.pixel[size..]) && Between(c, t.end, c.pos + |EncodePacket(p)|, size)
    ensures var d := Walk(s, true, size, c, n0).end;
            d.pos + |e1| <= |s| && s[d.pos..d.pos + |e1|] == e1
  {
    var e0 := EncodePacket(p);
    SplitAt(s, c.pos, e0, e1);
    PacketRoundTrip(s, size, c, p, n0);
    SliceAt(s, Walk(s, true, size, c, n0).end.pos, c.pos + |e0|, e1);
  }

  lemma SliceAt(s: seq<int>, p: int, q: int, e: seq<int>)
    requires p == q && 0 <= q && q + |e| <= |s| && s[q..q + |e|] == e
    ensures 0 <= p && p + |e| <= |s| && s[p..p + |e|] == e
  {
  }

  /** The first packet's walk followed by the walk of the packets after it is the walk of them all. */
  lemma RleCons(s: seq<int>, size: int, c: Cursor, ps: seq<Packet>, n0: nat, n1: nat, n: nat)
    requires Fits(s, size, c) && ps != [] && n0 == |ExpandPacket(ps[0])| && n1 == |Expand(ps[1..])| && n == |Expand(ps)|
    requires var t := Walk(s, true, size, c, n0);
             t.pixels == Padded(ExpandPacket(ps[0]), c.pixel[size..])
             && Between(c, t.end, c.pos + |EncodePacket(ps[0])|, size)
    requires var d := Walk(s, true, size, c, n0).end;
             var t := Walk(s, true, size, d, n1);
             t.pixels == Padded(Expand(ps[1..]), d.pixel[size..]) && Between(d, t.end, d.pos + |Encode(ps[1..])|, size)
    ensures var t := Walk(s, true, size, c, n);
            t.pixels == Padded(Expand(ps), c.pixel[size..]) && Between(c, t.end, c.pos + |Encode(ps)|, size)
  {
    var x0, x1 := ExpandPacket(ps[0]), Expand(ps[1..]);
    var e0, e1 := EncodePacket(ps[0]), Encode(ps[1..]);
    assert Expand(ps) == x0 + x1 && Encode(ps) == e0 + e1;
    RleJoin(s, size, c, x0, x1, Expand(ps), e0, e1, Encode(ps), n0, n1, n);
  }

  /** Two decoded stretches, one after the other, decode as one. */
  lemma RleJoin(s: seq<int>, size: int, c: Cursor, x0: seq<seq<int>>, x1: seq<seq<int>>, x: seq<seq<int>>,
                e0: seq<int>, e1: seq<int>, e: seq<int>, n0: nat, n1: nat, n: nat)
    requires Fits(s, size, c) && n0 == |x0| && n1 == |x1| && n == n0 + n1 && x == x0 + x1 && e == e0 + e1
    requires var t := Walk(s, true, size, c, n0);
             t.pixels == Padded(x0, c.pixel[size..]) && Between(c, t.end, c.pos + |e0|, size)
    requires var d := Walk(s, true, size, c, n0).end;
             var t := Walk(s, true, size, d, n1);
             t.pixels == Padded(x1, d.pixel[size..]) && Between(d, t.end, d.pos + |e1|, size)
    ensures var t := Walk(s, true, size, c, n);
            t.pixels == Padded(x, c.pixel[size..]) && Between(c, t.end, c.pos + |e|, size)
  {
    var d := Walk(s, true, size, c, n0).end;
    WalkConcat(s, size, c, x0, x1, c.pixel[size..], n0, n1);
    BetweenChain(c, d, Walk(s, true, size, d, n1).end, Walk(s, true, size, c, n).end, |e0|, |e1|, |e|, size);
  }

  lemma BetweenChain(c: Cursor, d: Cursor, f: Cursor, g: Cursor, a: int, b: int, ab: int, size: int)
    requires Between(c, d, c.pos + a, size) && Between(d, f, d.pos + b, size) && g == f && ab == a + b
    ensures Between(c, g, c.pos + ab, size)
  {
  }

  /** Two walks of `a` and `b` steps that each give padded pixels compose into one over both. */
  lemma WalkConcat(s: seq<int>, size: int, c: Cursor, x0: seq<seq<int>>, x1: seq<seq<int>>, tail: seq<int>, a: nat, b: nat)
    requires Fits(s, size, c) && a == |x0| && b == |x1|
    requires Walk(s, true, size, c, a).pixels == Padded(x0, tail)
    requires Walk(s, true, size, Walk(s, true, size, c, a).end, b).pixels == Padded(x1, tail)
    ensures Walk(s, true, size, c, a + b).pixels == Padded(x0 + x1, tail)
    ensures Walk(s, true, size, c, a + b).end == Walk(s, true, size, Walk(s, true, size, c, a).end, b).end
  {
    WalkAppend(s, true, size, c, a, b);
    PaddedAppend(x0, x1, tail);
  }

  /** Bytes found at `pos` that are `a + b` are `a` at `pos` and `b` right after it. */
  lemma SplitAt(s: seq<int>, pos: int, a: seq<int>, b: seq<int>)
    requires 0 <= pos && pos + |a + b| <= |s| && s[pos..pos + |a + b|] == a + b
    ensures s[pos..pos + |a|] == a && s[pos + |a|..pos + |a| + |b|] == b
  {
    assert s[pos..pos + |a + b|][..|a|] == s[pos..pos + |a|];
    assert s[pos..pos + |a + b|][|a|..] == s[pos + |a|..pos + |a| + |b|];
  }

  lemma PaddedAppend(a: seq<seq<int>>, b: seq<seq<int>>, tail: seq<int>)
    ensures Padded(a, tail) + Padded(b, tail) == Padded(a + b, tail)
  {
  }

  /** Without run-length coding, consecutive pixels of the file come back one per call. */
  lemma PlainRoundTrip(s: seq<int>, size: int, c: Cursor, pxs: seq<seq<int>>)
    requires Fits(s, size, c) && PixelsOk(pxs, size)
    requires c.pos + |Flatten(pxs)| <= |s| && s[c.pos..c.pos + |Flatten(pxs)|] == Flatten(pxs)
    ensures Walk(s, false, size, c, |pxs|).pixels == Padded(pxs, c.pixel[size..])
  {
    Literals(s, false, size, c, pxs, |pxs|);
  }

  /** A pixel cut short by the end of the file reads as 0xFF bytes, without an error. */
  lemma PlainPixelAtEnd(s: seq<int>, size: int, c: Cursor)
    requires Fits(s, size, c) && c.pos == |s|
    ensures var d := PixelStep(s, false, size, c);
            d.pixel == seq(size, _ => 0xFF) + c.pixel[size..] && d.pos == |s| && d.error == c.error
  {
    var d := PixelStep(s, false, size, c);
    assert d.pixel == seq(size, _ => 0xFF) + c.pixel[size..];
  }

  // ---------------------------------------------------------------------
  // The header
  // ---------------------------------------------------------------------

  /**
   * The fields start_input_tga takes from the 18-byte header: the length
   * of the ID field, the colormap type, the image type, the first colormap
   * entry and the number of entries, the bits per colormap entry, width,
   * height, bits per pixel (a depth of 15 is read as 16) and the image
   * descriptor.
   */
  datatype TgaHeader = TgaHeader(idLen: int, cmapType: int, subtype: int, mapStart: int, mapLen: int,
                                 entrySize: int, width: int, height: int, bits: int, flags: int)

  function ParseTgaHeader(b: seq<int>): (h: TgaHeader)
    requires |b| == HEADER_LEN && AllBytes(b)
  {
    TgaHeader(b[0], b[1], b[2], LE16(b, 3), LE16(b, 5), b[7], LE16(b, 12), LE16(b, 14),
              if b[16] == 15 then 16 else b[16], b[17])
  }

  /** Every field within its byte or 16-bit word, and a depth other than the alias 15. */
  predicate HeaderFieldsOk(h: TgaHeader)
  {
    && IsByte(h.idLen) && IsByte(h.cmapType) && IsByte(h.subtype) && IsByte(h.entrySize)
    && 0 <= h.mapStart < 0x1_0000 && 0 <= h.mapLen < 0x1_0000
    && 0 <= h.width < 0x1_0000 && 0 <= h.height < 0x1_0000
    && IsByte(h.bits) && h.bits != 15 && IsByte(h.flags)
  }

  /** The header a writer lays down for `h`, with the image origin (bytes 8 to 11) zero. */
  function EncodeTgaHeader(h: TgaHeader): (b: seq<int>)
    requires HeaderFieldsOk(h)
    ensures |b| == HEADER_LEN && AllBytes(b)
  {
    [h.idLen, h.cmapType, h.subtype, h.mapStart % 0x100, h.mapStart / 0x100, h.mapLen % 0x100, h.mapLen / 0x100,
     h.entrySize, 0, 0, 0, 0, h.width % 0x100, h.width / 0x100, h.height % 0x100, h.height / 0x100, h.bits, h.flags]
  }

  /** Reading back a written header gives every field back. */
  lemma HeaderRoundTrip(h: TgaHeader)
    requires HeaderFieldsOk(h)
    ensures ParseTgaHeader(EncodeTgaHeader(h)) == h
  {
    var b := EncodeTgaHeader(h);
    assert LE16(b, 3) == h.mapStart && LE16(b, 5) == h.mapLen;
    assert LE16(b, 12) == h.width && LE16(b, 14) == h.height;
  }

  /** Any header parses to fields within their bytes and words. */
  lemma ParsedFieldsOk(b: seq<int>)
    requires |b| == HEADER_LEN && AllBytes(b)
    ensures HeaderFieldsOk(ParseTgaHeader(b))
  {
  }

  /** Bit 5 of the image descriptor clear: the rows are stored bottom row first. */
  predicate BottomUp(h: TgaHeader)
  {
    h.flags / 0x20 % 2 == 0
  }

  /**
   * The checks start_input_tga makes before it looks at the image type:
   * a colormap type of 0 or 1, one to four whole bytes per pixel, and no
   * interlacing (descriptor bits 6 and 7 clear).
   */
  predicate Plausible(h: TgaHeader)
  {
    && h.cmapType <= 1
    && 1 <= h.bits / 8 <= 4
    && h.bits % 8 == 0
    && h.flags / 0x40 == 0
  }

  /** The switch on the image type (run-length flag removed): the row reader, or NoRow for a rejection. */
  function ReaderFor(subtype: int, size: int, cmapType: int): (k: RowKind)
    ensures k != NoRow ==> PixelSizeOf(k) == size
  {
    if subtype == 1 then (if size == 1 && cmapType == 1 then Mapped8 else NoRow)
    else if subtype == 2 then (if size == 2 then Rgb16 else if size == 3 then Rgb24 else if size == 4 then Rgb32 else NoRow)
    else if subtype == 3 then (if size == 1 then Gray8 else NoRow)
    else NoRow
  }

  /** How the pixels of an accepted file are read: run-length coded or not, and by which row reader. */
  datatype Format = Format(rle: bool, kind: RowKind)

  /** What start_input_tga makes of the header's image description; every rejection is the same message. */
  function Classify(h: TgaHeader): (r: Result<Format, string>)
    ensures r.Failure? ==> r.error == ERR_TGA_BADPARMS
  {
    var rle := h.subtype > 8;
    var k := ReaderFor(if rle then h.subtype - 8 else h.subtype, h.bits / 8, h.cmapType);
    if !Plausible(h) || k == NoRow then Failure(ERR_TGA_BADPARMS) else Success(Format(rle, k))
  }

  /**
   * The image types the decoder accepts, listed by bits per pixel: a
   * colour-mapped image of 8 bits with a colormap, a true-colour image of
   * 16, 24 or 32 bits, and a grey-scale image of 8 bits, each plain (1, 2,
   * 3) or run-length coded (9, 10, 11).
   */
  predicate Supported(h: TgaHeader)
  {
    && h.cmapType in {0, 1}
    && 0 <= h.flags < 0x40
    && ((h.subtype in {1, 9} && h.cmapType == 1 && h.bits == 8)
        || (h.subtype in {2, 10} && h.bits in {16, 24, 32})
        || (h.subtype in {3, 11} && h.bits == 8))
  }

  /** A header is accepted exactly when it describes a supported image, read by the reader its depth calls for. */
  lemma ClassifyAccepts(h: TgaHeader)
    requires HeaderFieldsOk(h)
    ensures Classify(h).Success? <==> Supported(h)
    ensures Classify(h).Success? ==>
              && Classify(h).value.rle == (h.subtype > 8)
              && PixelSizeOf(Classify(h).value.kind) * 8 == h.bits
              && (Classify(h).value.kind == Mapped8 <==> h.subtype in {1, 9})
              && (Classify(h).value.kind == Gray8 <==> h.subtype in {3, 11})
  {
    var rle := h.subtype > 8;
    var t := if rle then h.subtype - 8 else h.subtype;
    var size := h.bits / 8;
    if Supported(h) {
      assert h.bits == 8 * size;
    }
  }

  // ---------------------------------------------------------------------
  // The colormap
  // ---------------------------------------------------------------------

  /**
   * The colormap read_colormap builds from `n` entries stored blue, green,
   * red from position `p`: row 0 red, row 1 green, row 2 blue.  read_byte
   * gives 1 for a byte past the end of the stream.
   */
  function ColormapFrom(s: seq<int>, p: int, n: nat): (cmap: seq<seq<int>>)
    ensures |cmap| == 3 && |cmap[0]| == n && |cmap[1]| == n && |cmap[2]| == n
    ensures AllBytes(s) ==> ColormapOk(cmap)
  {
    seq(3, j => seq(n, i => ReadByteAt(s, p + 3 * i + 2 - j)))
  }

  /** The entries of a colormap as a file stores them: blue, green, red for each entry in turn. */
  function EncodeColormap(cmap: seq<seq<int>>): (e: seq<int>)
    requires ColormapOk(cmap)
    ensures |e| == 3 * |cmap[0]| && AllBytes(e)
  {
    seq(3 * |cmap[0]|, k requires 0 <= k < 3 * |cmap[0]| => cmap[2 - k % 3][k / 3])
  }

  lemma Split3(i: int, r: int)
    requires 0 <= i && 0 <= r < 3
    ensures (3 * i + r) / 3 == i && (3 * i + r) % 3 == r
  {
  }

  /** Reading back the entries written for a colormap gives the colormap back. */
  lemma ColormapRoundTrip(cmap: seq<seq<int>>, s: seq<int>, p: nat)
    requires ColormapOk(cmap)
    requires p + 3 * |cmap[0]| <= |s| && s[p..p + 3 * |cmap[0]|] == EncodeColormap(cmap)
    ensures ColormapFrom(s, p, |cmap[0]|) == cmap
  {
    var n := |cmap[0]|;
    var e := EncodeColormap(cmap);
    var c := ColormapFrom(s, p, n);
    forall j, i | 0 <= j < 3 && 0 <= i < n ensures c[j][i] == cmap[j][i] {
      Split3(i, 2 - j);
      assert s[p + 3 * i + 2 - j] == e[3 * i + 2 - j];
    }
    assert c[0] == cmap[0] && c[1] == cmap[1] && c[2] == cmap[2];
  }

  /** The colormap of a stream that ends early: every entry cut off reads as 1 in each channel. */
  lemma ColormapPastEnd(s: seq<int>, p: nat, n: nat, i: nat)
    requires i < n && |s| <= p + 3 * i
    ensures ColormapFrom(s, p, n)[0][i] == 1 && ColormapFrom(s, p, n)[1][i] == 1 && ColormapFrom(s, p, n)[2][i] == 1
  {
  }

  // ---------------------------------------------------------------------
  // What start_input_tga leaves behind
  // ---------------------------------------------------------------------

  /** The routine `pub.get_pixel_row` points to: not yet set, a row reader, preload_image or get_memory_row. */
  datatype RowSource = NoSource | Direct | Preload | Memory

  /**
   * The decoder's state as start_input_tga changes it: stream position,
   * error flag and message, pixel size, the reader's run-length mode and
   * counters, the row reader, `pub.get_pixel_row`, whether `whole_image`
   * and `colormap` are allocated and what they hold, and the image size.
   */
  datatype Setup = Setup(pos: nat, error: bool, msg: string, pixelSize: int, rle: bool, block: int, dup: int,
                         kind: RowKind, reader: RowSource, image: bool, wholeImage: seq<seq<int>>,
                         cmap: bool, colormap: seq<seq<int>>, width: int, height: int)

  /** An ERREXIT: the flag raised and the message kept. */
  function Raised(st: Setup, msg: string): Setup
  {
    st.(error := true, msg := ErrorText(msg))
  }

  /** The decisions before any allocation: the pixel size, the checks, the run-length mode and the row reader. */
  function Configure(h: TgaHeader, st: Setup): (r: Setup)
    ensures r.pos == st.pos && r.reader == st.reader && r.image == st.image && r.cmap == st.cmap
    ensures r.width == st.width && r.height == st.height
  {
    var st1 := st.(pixelSize := h.bits / 8);
    if !Plausible(h) then Raised(st1, ERR_TGA_BADPARMS)
    else
      var rle := h.subtype > 8;
      var st2 := if rle then st1.(rle := true, block := 0, dup := 0) else st1.(rle := false);
      var k := ReaderFor(if rle then h.subtype - 8 else h.subtype, h.bits / 8, h.cmapType);
      if k == NoRow then Raised(st2, ERR_TGA_BADPARMS) else st2.(kind := k)
  }

  /** A bottom-up image is buffered whole and read through preload_image; a top-down one row by row. */
  function Install(h: TgaHeader, st: Setup): (r: Setup)
    requires HeaderFieldsOk(h)
    ensures r.pos == st.pos && r.error == st.error && r.msg == st.msg && r.kind == st.kind && r.rle == st.rle
    ensures r.reader == (if BottomUp(h) then Preload else Direct) && r.image == BottomUp(h)
  {
    if BottomUp(h) then st.(image := true, wholeImage := seq(h.height, _ => Zeros(h.width)), reader := Preload)
    else st.(image := false, reader := Direct)
  }

  /** `n` calls of read_byte from the current position. */
  function Skipped(s: seq<int>, st: Setup, n: nat): (r: Setup)
    requires st.pos <= |s|
    ensures r.pos <= |s| && r == st.(pos := r.pos, error := r.error, msg := r.msg)
  {
    var r := st.(pos := Min(st.pos + n, |s|));
    if st.pos + n > |s| then Raised(r, ERR_INPUT_EOF) else r
  }

  /** A colormap holding, entry by entry, the bytes stored from `p` on is the one read_colormap reads there. */
  lemma ColormapIsFrom(cmap: seq<seq<int>>, s: seq<int>, p: nat, n: nat)
    requires |cmap| == 3 && |cmap[0]| == n && |cmap[1]| == n && |cmap[2]| == n
    requires forall k :: 0 <= k < n ==>
               && cmap[2][k] == ReadByteAt(s, p + 3 * k)
               && cmap[1][k] == ReadByteAt(s, p + 3 * k + 1)
               && cmap[0][k] == ReadByteAt(s, p + 3 * k + 2)
    ensures cmap == ColormapFrom(s, p, n)
  {
    var want := ColormapFrom(s, p, n);
    assert cmap[0] == want[0] && cmap[1] == want[1] && cmap[2] == want[2];
  }

  /** read_colormap of `n` entries of `entrySize` bits into the allocated colormap. */
  function MapRead(s: seq<int>, st: Setup, n: nat, entrySize: int): (r: Setup)
    requires st.pos <= |s|
  {
    if entrySize != 24 then Raised(st, ERR_TGA_BADCMAP)
    else Skipped(s, st, 3 * n).(colormap := ColormapFrom(s, st.pos, n))
  }

  /** The image size, stored last. */
  function Sized(h: TgaHeader, st: Setup): Setup
  {
    st.(width := h.width, height := h.height)
  }

  /**
   * The ID field and the colormap, then the size.  A colormap of more than
   * 256 entries or not starting at entry 0 is rejected, a colormap type of
   * 1 without entries too; an entry size other than 24 bits raises its
   * error but the size is still stored.  `granted` says whether the
   * colormap's allocation succeeds.
   */
  function Describe(s: seq<int>, h: TgaHeader, st: Setup, granted: bool): (r: Setup)
    requires st.pos <= |s| && HeaderFieldsOk(h)
    ensures r.pixelSize == st.pixelSize && r.rle == st.rle && r.block == st.block && r.dup == st.dup
    ensures r.kind == st.kind && r.reader == st.reader && r.image == st.image && r.wholeImage == st.wholeImage
  {
    MapStage(s, h, Skipped(s, st, h.idLen), granted)
  }

  /** Describe after the ID field: the colormap checks, its allocation and reading, and the size. */
  function MapStage(s: seq<int>, h: TgaHeader, st: Setup, granted: bool): (r: Setup)
    requires st.pos <= |s| && HeaderFieldsOk(h)
    ensures r.pixelSize == st.pixelSize && r.rle == st.rle && r.block == st.block && r.dup == st.dup
    ensures r.kind == st.kind && r.reader == st.reader && r.image == st.image && r.wholeImage == st.wholeImage
  {
    if h.mapLen > 0 then
      if h.mapLen > 256 || h.mapStart != 0 then Raised(st, ERR_TGA_BADCMAP)
      else if !granted then Raised(st, ERR_OUT_OF_MEMORY)
      else Sized(h, MapRead(s, st.(cmap := true, colormap := [Zeros(h.mapLen), Zeros(h.mapLen), Zeros(h.mapLen)]),
                            h.mapLen, h.entrySize))
    else if h.cmapType != 0 then Raised(st, ERR_TGA_BADPARMS)
    else Sized(h, st.(cmap := false, colormap := []))
  }

  /** The header at `p`, when the stream holds all of it. */
  function HeaderAt(s: seq<int>, p: int): (r: Option<TgaHeader>)
    requires AllBytes(s) && 0 <= p
    ensures r.Some? ==> HeaderFieldsOk(r.value)
  {
    if p + HEADER_LEN <= |s| then
      ParsedFieldsOk(s[p..p + HEADER_LEN]);
      Some(ParseTgaHeader(s[p..p + HEADER_LEN]))
    else None
  }

  /**
   * start_input_tga from state `st`: a short header raises "Premature end
   * of input file"; then the checks, the allocation of `whole_image` for
   * a bottom-up image (`imageGranted`: it succeeds), the ID field, the
   * colormap (`cmapGranted`: its allocation succeeds) and the size.  A
   * refused allocation raises "Insufficient memory".
   */
  function StartOutcome(s: seq<int>, st: Setup, imageGranted: bool, cmapGranted: bool): (r: Setup)
    requires AllBytes(s) && st.pos <= |s|
  {
    var hd := HeaderAt(s, st.pos);
    if hd.None? then Raised(st.(pos := |s|), ERR_INPUT_EOF)
    else AfterHeader(s, hd.value, st.(pos := st.pos + HEADER_LEN), imageGranted, cmapGranted)
  }

  /** start_input_tga once the header `h` is read. */
  function AfterHeader(s: seq<int>, h: TgaHeader, st: Setup, imageGranted: bool, cmapGranted: bool): (r: Setup)
    requires st.pos <= |s| && HeaderFieldsOk(h)
  {
    var st1 := Configure(h, st);
    if Classify(h).Failure? then st1
    else if BottomUp(h) && !imageGranted then Raised(st1, ERR_OUT_OF_MEMORY)
    else Describe(s, h, Install(h, st1), cmapGranted)
  }

  /** A header that is rejected leaves the size and `get_pixel_row` as they were, and raises "Invalid or unsupported Targa file". */
  lemma StartRejects(s: seq<int>, st: Setup, ig: bool, cg: bool)
    requires AllBytes(s) && st.pos <= |s| && st.pos + HEADER_LEN <= |s|
    requires Classify(ParseTgaHeader(s[st.pos..st.pos + HEADER_LEN])).Failure?
    ensures var r := StartOutcome(s, st, ig, cg);
            && r.error && r.msg == ErrorText(ERR_TGA_BADPARMS)
            && r.width == st.width && r.height == st.height && r.reader == st.reader
            && r.image == st.image && r.cmap == st.cmap && r.pos == st.pos + HEADER_LEN
  {
    var h := ParseTgaHeader(s[st.pos..st.pos + HEADER_LEN]);
    var r0 := st.(pos := st.pos + HEADER_LEN);
    var rle := h.subtype > 8;
    var r1 := r0.(pixelSize := h.bits / 8);
    var r2 := if rle then r1.(rle := true, block := 0, dup := 0) else r1.(rle := false);
    assert Configure(h, r0) == if Plausible(h) then Raised(r2, ERR_TGA_BADPARMS) else Raised(r1, ERR_TGA_BADPARMS);
  }

  /**
   * A start that raises no error leaves everything the rows need: a
   * reader, a `whole_image` of `height` rows of `width` pixels behind
   * preload_image, and a colormap of three rows behind a colour-mapped
   * reader.
   */
  lemma StartLeavesReader(s: seq<int>, st: Setup, ig: bool, cg: bool)
    requires AllBytes(s) && st.pos <= |s| && !st.error
    requires st.reader == NoSource && st.kind == NoRow
    ensures var r := StartOutcome(s, st, ig, cg);
            !r.error ==> ReaderLeft(r)
  {
    var hd := HeaderAt(s, st.pos);
    if hd.Some? {
      AfterHeaderLeaves(s, hd.value, st.(pos := st.pos + HEADER_LEN), ig, cg);
    }
  }

  /** StartLeavesReader once the header is read. */
  lemma AfterHeaderLeaves(s: seq<int>, h: TgaHeader, st: Setup, ig: bool, cg: bool)
    requires AllBytes(s) && st.pos <= |s| && HeaderFieldsOk(h) && !st.error
    requires st.reader == NoSource && st.kind == NoRow
    ensures var r := AfterHeader(s, h, st, ig, cg);
            !r.error ==> ReaderLeft(r)
  {
    if Classify(h).Success? {
      ConfigureAccepts(h, st);
      DescribeLeaves(s, h, Install(h, Configure(h, st)), cg);
    } else {
      assert Configure(h, st).error;
    }
  }

  /**
   * The tables start_input_tga leaves as written, for an accepted header:
   * the allocation results are not checked, so a refused `whole_image`
   * stays NULL behind preload_image, and a refused colormap stays NULL
   * while read_colormap stores into it.
   */
  datatype Tables = Tables(preload: bool, image: bool, mapRead: bool, colormap: bool)

  function TablesAsWritten(h: TgaHeader, imageGranted: bool, cmapGranted: bool): (t: Tables)
    ensures t.preload == BottomUp(h) && t.mapRead == (0 < h.mapLen <= 256 && h.mapStart == 0 && h.entrySize == 24)
  {
    var wanted := 0 < h.mapLen <= 256 && h.mapStart == 0;
    Tables(BottomUp(h), BottomUp(h) && imageGranted, wanted && h.entrySize == 24, wanted && cmapGranted)
  }

  /** Every table the decoder goes on to use is allocated. */
  predicate Backed(t: Tables)
  {
    (t.preload ==> t.image) && (t.mapRead ==> t.colormap)
  }

  /** As written, a refused `whole_image` of a bottom-up image is left behind preload_image. */
  lemma RefusedImageStillUsed(h: TgaHeader)
    requires Classify(h).Success? && BottomUp(h)
    ensures !Backed(TablesAsWritten(h, false, true))
  {
  }

  /** As written, a refused colormap of a 24-bit colormap is still read into. */
  lemma RefusedColormapStillRead(h: TgaHeader)
    requires 0 < h.mapLen <= 256 && h.mapStart == 0 && h.entrySize == 24
    ensures !Backed(TablesAsWritten(h, true, false))
  {
  }

  /**
   * As corrected, a refused table raises "Insufficient memory" instead:
   * a start that raises nothing had every table it needs granted.
   */
  lemma StartRefusalRaises(s: seq<int>, st: Setup, ig: bool, cg: bool)
    requires AllBytes(s) && st.pos <= |s| && !st.error
    ensures var r := StartOutcome(s, st, ig, cg);
            var hd := HeaderAt(s, st.pos);
            !r.error ==> hd.Some? && Backed(TablesAsWritten(hd.value, ig, cg))
  {
    var r := StartOutcome(s, st, ig, cg);
    var hd := HeaderAt(s, st.pos);
    if hd.Some? && !r.error {
      RefusalRaisesAfterHeader(s, hd.value, st.(pos := st.pos + HEADER_LEN), ig, cg);
    }
  }

  /** StartRefusalRaises once the header is read. */
  lemma RefusalRaisesAfterHeader(s: seq<int>, h: TgaHeader, st: Setup, ig: bool, cg: bool)
    requires AllBytes(s) && st.pos <= |s| && HeaderFieldsOk(h) && !st.error
    requires !AfterHeader(s, h, st, ig, cg).error
    ensures Backed(TablesAsWritten(h, ig, cg))
  {
    if Classify(h).Success? {
      ConfigureAccepts(h, st);
    }
  }

  /** What the rows need from the state start_input_tga leaves. */
  predicate ReaderLeft(r: Setup)
  {
    && r.reader in {Direct, Preload} && r.kind != NoRow && PixelSizeOf(r.kind) == r.pixelSize
    && (r.reader == Preload ==> r.image && |r.wholeImage| == r.height
                                && forall k :: 0 <= k < r.height ==> |r.wholeImage[k]| == r.width)
    && (r.kind == Mapped8 ==> r.cmap && ColormapOk(r.colormap) && |r.colormap[0]| > 0)
  }

  /** An accepted header raises nothing and installs the row reader it classifies to. */
  lemma ConfigureAccepts(h: TgaHeader, st: Setup)
    requires Classify(h).Success?
    ensures var r := Configure(h, st);
            && r.error == st.error && r.msg == st.msg
            && r.kind == Classify(h).value.kind && r.rle == Classify(h).value.rle
            && PixelSizeOf(r.kind) == r.pixelSize && (r.kind == Mapped8 ==> h.cmapType == 1)
            && r.wholeImage == st.wholeImage && r.colormap == st.colormap
  {
  }

  /** The ID field, colormap and size stages raise an error unless they leave a reader the rows can use. */
  lemma DescribeLeaves(s: seq<int>, h: TgaHeader, st: Setup, cg: bool)
    requires AllBytes(s) && st.pos <= |s| && HeaderFieldsOk(h)
    requires st.reader in {Direct, Preload} && st.kind != NoRow && PixelSizeOf(st.kind) == st.pixelSize
    requires st.reader == Preload ==> st.image && |st.wholeImage| == h.height
                                      && forall k :: 0 <= k < h.height ==> |st.wholeImage[k]| == h.width
    requires st.kind == Mapped8 ==> h.cmapType == 1
    ensures var r := Describe(s, h, st, cg);
            !r.error ==> ReaderLeft(r)
  {
    var r := Describe(s, h, st, cg);
    if !r.error {
      assert r.width == h.width && r.height == h.height by {
        MapStageSizes(s, h, st, cg);
      }
      if st.kind == Mapped8 {
        MapStageColormap(s, h, st, cg);
      }
    }
  }

  /** A colormap stage that raises nothing stores the size. */
  lemma MapStageSizes(s: seq<int>, h: TgaHeader, st: Setup, cg: bool)
    requires st.pos <= |s| && HeaderFieldsOk(h) && !Describe(s, h, st, cg).error
    ensures Describe(s, h, st, cg).width == h.width && Describe(s, h, st, cg).height == h.height
  {
  }

  /** A colormap stage that raises nothing with a colormap type of 1 leaves a colormap of three rows. */
  lemma MapStageColormap(s: seq<int>, h: TgaHeader, st: Setup, cg: bool)
    requires AllBytes(s) && st.pos <= |s| && HeaderFieldsOk(h) && h.cmapType == 1
    requires !Describe(s, h, st, cg).error
    ensures var r := Describe(s, h, st, cg);
            r.cmap && ColormapOk(r.colormap) && |r.colormap[0]| > 0
  {
    var st1 := Skipped(s, st, h.idLen);
    var z := [Zeros(h.mapLen), Zeros(h.mapLen), Zeros(h.mapLen)];
    assert Describe(s, h, st, cg) == Sized(h, MapRead(s, st1.(cmap := true, colormap := z), h.mapLen, h.entrySize));
  }

  /** The stream a writer produces: the header, the ID field, the colormap entries (when there are any), the pixels. */
  function TgaFile(h: TgaHeader, id: seq<int>, cmap: seq<seq<int>>, rest: seq<int>): (f: seq<int>)
    requires HeaderFieldsOk(h) && (h.mapLen > 0 ==> ColormapOk(cmap))
    requires AllBytes(id) && AllBytes(rest)
    ensures AllBytes(f)
  {
    EncodeTgaHeader(h) + id + (if h.mapLen > 0 then EncodeColormap(cmap) else []) + rest
  }

  /** What a writer of a supported image keeps to: a colormap of 24-bit entries from entry 0, present exactly for colour-mapped images' colormap type. */
  predicate WellWritten(h: TgaHeader, id: seq<int>, cmap: seq<seq<int>>)
  {
    && HeaderFieldsOk(h) && Supported(h) && |id| == h.idLen && AllBytes(id)
    && (h.mapLen == 0 ==> h.cmapType == 0 && cmap == [])
    && (h.mapLen > 0 ==> h.mapLen <= 256 && h.mapStart == 0 && h.entrySize == 24
                         && ColormapOk(cmap) && |cmap[0]| == h.mapLen)
  }

  /** The state a start from `st` leaves for header `h` and colormap `cmap` when it goes through without a new error. */
  predicate StartedAs(r: Setup, st: Setup, h: TgaHeader, cmap: seq<seq<int>>)
  {
    && r.error == st.error && r.msg == st.msg
    && r.width == h.width && r.height == h.height
    && Classify(h).Success? && r.kind == Classify(h).value.kind && r.rle == (h.subtype > 8)
    && r.reader == (if BottomUp(h) then Preload else Direct)
    && r.cmap == (h.mapLen > 0) && r.colormap == cmap
    && r.pos == HEADER_LEN + h.idLen + 3 * h.mapLen
  }

  /**
   * A well-written file starts without a new error when both allocations
   * succeed: the size, the run-length mode, the reader and the colormap
   * are those written, and the stream is left at the first pixel.
   */
  lemma StartRoundTrip(h: TgaHeader, id: seq<int>, cmap: seq<seq<int>>, rest: seq<int>, st: Setup)
    requires WellWritten(h, id, cmap) && AllBytes(rest) && st.pos == 0
    ensures StartedAs(StartOutcome(TgaFile(h, id, cmap, rest), st, true, true), st, h, cmap)
  {
    var f := TgaFile(h, id, cmap, rest);
    HeaderInFile(h, id, cmap, rest);
    ClassifyAccepts(h);
    StartAfterHeader(f, st, true, true, h);
    DescribeInFile(h, id, cmap, rest, st);
  }

  /** Past an accepted header and a granted `whole_image`, start_input_tga goes on to the ID field and the colormap. */
  lemma StartAfterHeader(s: seq<int>, st: Setup, ig: bool, cg: bool, h: TgaHeader)
    requires AllBytes(s) && st.pos <= |s| && HeaderAt(s, st.pos) == Some(h)
    requires Classify(h).Success? && (BottomUp(h) ==> ig)
    ensures StartOutcome(s, st, ig, cg) == Describe(s, h, Install(h, Configure(h, st.(pos := st.pos + HEADER_LEN))), cg)
  {
  }

  lemma HeaderInFile(h: TgaHeader, id: seq<int>, cmap: seq<seq<int>>, rest: seq<int>)
    requires WellWritten(h, id, cmap) && AllBytes(rest)
    ensures HeaderAt(TgaFile(h, id, cmap, rest), 0) == Some(h)
  {
    var e := EncodeTgaHeader(h);
    var tail := id + (if h.mapLen > 0 then EncodeColormap(cmap) else []) + rest;
    assert TgaFile(h, id, cmap, rest) == e + tail;
    assert (e + tail)[0..|e|] == e;
    HeaderRoundTrip(h);
  }

  /** The ID field and colormap of a well-written file read back as written. */
  lemma DescribeInFile(h: TgaHeader, id: seq<int>, cmap: seq<seq<int>>, rest: seq<int>, st: Setup)
    requires WellWritten(h, id, cmap) && AllBytes(rest) && st.pos == 0
    ensures var st0 := st.(pos := HEADER_LEN);
            StartedAs(Describe(TgaFile(h, id, cmap, rest), h, Install(h, Configure(h, st0)), true), st, h, cmap)
  {
    ClassifyAccepts(h);
    ConfigureAccepts(h, st.(pos := HEADER_LEN));
    var f := TgaFile(h, id, cmap, rest);
    var p := HEADER_LEN + h.idLen;
    if h.mapLen > 0 {
      var e := EncodeColormap(cmap);
      assert f == EncodeTgaHeader(h) + id + e + rest;
      assert f[p..p + 3 * h.mapLen] == e;
      ColormapRoundTrip(cmap, f, p);
    }
  }

  // ---------------------------------------------------------------------
  // Rows
  // ---------------------------------------------------------------------

  /** Row `out` is the row reader's conversion of the pixels `pxs`, one word per pixel. */
  predicate RowOf(kind: RowKind, cmap: seq<seq<int>>, pxs: seq<seq<int>>, out: seq<int>)
  {
    && |out| == |pxs|
    && forall k :: 0 <= k < |pxs| ==> Convertible(kind, cmap, pxs[k]) && out[k] == Convert(kind, cmap, pxs[k])
  }

  /** A colour-mapped row's indexes all fall within the colormap (the source does not check them). */
  predicate MapFits(kind: RowKind, cmap: seq<seq<int>>, pxs: seq<seq<int>>)
  {
    kind == Mapped8 ==> ColormapOk(cmap) && forall k :: 0 <= k < |pxs| ==> |pxs[k]| > 0 && pxs[k][0] < |cmap[0]|
  }

  /** The pixels of `h` rows of `w` read one after the other, in file order, and the reader's state after them. */
  datatype Sweep = Sweep(rows: seq<seq<seq<int>>>, end: Cursor)

  function Scan(s: seq<int>, rle: bool, size: int, c: Cursor, w: nat, h: nat): (r: Sweep)
    requires Fits(s, size, c)
    ensures |r.rows| == h && Fits(s, size, r.end)
    ensures forall j :: 0 <= j < h ==> |r.rows[j]| == w
    decreases h
  {
    if h == 0 then Sweep([], c)
    else
      var t := Walk(s, rle, size, c, w);
      var rest := Scan(s, rle, size, t.end, w, h - 1);
      Sweep([t.pixels] + rest.rows, rest.end)
  }

  /** Every row of a sweep fits the colormap. */
  predicate ImageMapFits(kind: RowKind, cmap: seq<seq<int>>, rows: seq<seq<seq<int>>>)
  {
    forall j :: 0 <= j < |rows| ==> MapFits(kind, cmap, rows[j])
  }

  /** Reading `h` rows of `w` pixels reads the same pixels, and ends in the same state, as `w * h` calls of read_pixel. */
  lemma {:induction false} ScanIsWalk(s: seq<int>, rle: bool, size: int, c: Cursor, w: nat, h: nat)
    requires Fits(s, size, c)
    ensures Concat(Scan(s, rle, size, c, w, h).rows) == Walk(s, rle, size, c, w * h).pixels
    ensures Scan(s, rle, size, c, w, h).end == Walk(s, rle, size, c, w * h).end
    decreases h
  {
    if h > 0 {
      var t := Walk(s, rle, size, c, w);
      ScanIsWalk(s, rle, size, t.end, w, h - 1);
      var sc := Scan(s, rle, size, c, w, h);
      assert sc.rows[0] == t.pixels && sc.rows[1..] == Scan(s, rle, size, t.end, w, h - 1).rows;
      assert w * h == w + w * (h - 1);
      WalkAppend(s, rle, size, c, w, w * (h - 1));
    }
  }

  /** Reading the first row of a sweep leaves the rest of it. */
  lemma ScanCons(s: seq<int>, rle: bool, size: int, c: Cursor, w: nat, h: nat)
    requires Fits(s, size, c) && h > 0
    ensures var t := Walk(s, rle, size, c, w);
            && Scan(s, rle, size, c, w, h).rows == [t.pixels] + Scan(s, rle, size, t.end, w, h - 1).rows
            && Scan(s, rle, size, c, w, h).end == Scan(s, rle, size, t.end, w, h - 1).end
  {
  }

  /** The suffix of a sequence that starts with `y` followed by `ys`. */
  lemma SuffixCons<T>(xs: seq<T>, i: int, y: T, ys: seq<T>)
    requires 0 <= i < |xs| && xs[i..] == [y] + ys
    ensures xs[i] == y && xs[i + 1..] == ys
  {
    assert xs[i] == xs[i..][0];
    assert xs[i + 1..] == xs[i..][1..];
  }

  // ---------------------------------------------------------------------
  // The decoder object
  // ---------------------------------------------------------------------

  /**
   * tga_source_struct.  `tgaPixel` is the four-byte buffer read_pixel
   * fills; `colormap` and `wholeImage` hold what the two tables hold, and
   * `cmapTable` and `imageTable` their allocations (None for NULL); `rle`
   * says read_pixel is read_rle_pixel, `rowKind` which row reader
   * get_pixel_row is, and `getPixelRow` what `pub.get_pixel_row` points
   * to.
   */
  class TgaSource {
    const pub: Param
    const tgaPixel: array<int>
    var colormap: seq<seq<int>>
    var cmapTable: Option<Table>
    var wholeImage: seq<seq<int>>
    var imageTable: Option<Table>
    var currentRow: int
    var rle: bool
    var pixelSize: int
    var blockCount: int
    var dupPixelCount: int
    var rowKind: RowKind
    var getPixelRow: RowSource

    /**
     * The fields targa_init sets.  The source leaves `block_count` and
     * the pixel buffer unset; they start at 0 here.
     */
    constructor (stream: seq<int>)
      requires AllBytes(stream)
      ensures fresh(pub) && fresh(tgaPixel) && pub.Valid() && pub.input == stream && pub.pos == 0
      ensures pub.width == -1 && pub.height == -1 && pub.rowNum == 0 && !pub.error && pub.errorMsg == ""
      ensures tgaPixel.Length == 4 && AllBytes(tgaPixel[..])
      ensures currentRow == 0 && cmapTable.None? && imageTable.None? && colormap == [] && wholeImage == []
      ensures pixelSize == 0 && dupPixelCount == 0 && blockCount == 0 && !rle
      ensures rowKind == NoRow && getPixelRow == NoSource
    {
      pub := new Param(stream);
      tgaPixel := new int[4](_ => 0);
      colormap := [];
      cmapTable := None;
      wholeImage := [];
      imageTable := None;
      currentRow := 0;
      rle := false;
      pixelSize := 0;
      blockCount := 0;
      dupPixelCount := 0;
      rowKind := NoRow;
      getPixelRow := NoSource;
    }

    /** The pixel reader's state: stream position, counters, pixel buffer, error. */
    ghost function Here(): Cursor
      reads this`blockCount, this`dupPixelCount, pub`pos, pub`error, pub`errorMsg, tgaPixel
      requires pub.Valid()
    {
      Cursor(pub.pos, blockCount, dupPixelCount, tgaPixel[..], pub.error, pub.errorMsg)
    }

    /** What read_pixel needs: a four-byte buffer of bytes and a pixel size of one to four. */
    ghost predicate PixelReady()
      reads this`pixelSize, pub`pos, tgaPixel
    {
      pub.Valid() && tgaPixel.Length == 4 && AllBytes(tgaPixel[..]) && 1 <= pixelSize <= 4
    }

    /** The fields start_input_tga changes. */
    ghost function Snapshot(): Setup
      reads this, pub
      requires pub.Valid()
    {
      Setup(pub.pos, pub.error, pub.errorMsg, pixelSize, rle, blockCount, dupPixelCount, rowKind, getPixelRow,
            imageTable.Some?, wholeImage, cmapTable.Some?, colormap, pub.width, pub.height)
    }

    /** The two tables are whole, live and share no block. */
    ghost predicate Owns(live: set<nat>)
      reads this
    {
      && (imageTable.Some? ==> Whole(imageTable.value) && Blocks(imageTable.value) <= live)
      && (cmapTable.Some? ==> Whole(cmapTable.value) && Blocks(cmapTable.value) <= live)
      && TableBlocks(imageTable) !! TableBlocks(cmapTable)
    }

    /** read_byte: the next byte, or 1 with "Premature end of input file" raised at the end of the stream. */
    method ReadByte() returns (c: int)
      requires pub.Valid()
      modifies pub`pos, pub`error, pub`errorMsg
      ensures pub.Valid()
      ensures c == ReadByteAt(pub.input, old(pub.pos)) && pub.pos == Min(old(pub.pos) + 1, |pub.input|)
      ensures (pub.error, pub.errorMsg) == Raise(old(pub.error), old(pub.errorMsg), old(pub.pos) == |pub.input|, ERR_INPUT_EOF)
    {
      c := pub.Getc();
      if c == EOF {
        pub.ErrExit(ERR_INPUT_EOF);
        c := 1;
      }
    }

    /** read_non_rle_pixel: `pixel_size` getc's, EOF stored as 0xFF. */
    method ReadNonRlePixel()
      requires PixelReady()
      modifies pub`pos, tgaPixel
      ensures PixelReady() && Here() == Fetch(pub.input, pixelSize, old(Here()))
    {
      ghost var c := Here();
      var i := 0;
      while i < pixelSize
        invariant 0 <= i <= pixelSize && pub.Valid()
        invariant pub.pos == Min(c.pos + i, |pub.input|)
        invariant forall k :: 0 <= k < i ==> tgaPixel[k] == ByteOrFF(pub.input, c.pos + k)
        invariant forall k :: i <= k < 4 ==> tgaPixel[k] == c.pixel[k]
      {
        var b := pub.Getc();
        tgaPixel[i] := if b == EOF then 0xFF else b;
        i := i + 1;
      }
      ghost var d := Fetch(pub.input, pixelSize, c);
      assert tgaPixel[..] == d.pixel by {
        forall k | 0 <= k < 4 ensures tgaPixel[k] == d.pixel[k] {
          if k >= pixelSize {
            assert d.pixel[k] == d.pixel[pixelSize..][k - pixelSize];
          }
        }
      }
    }

    /**
     * read_rle_pixel: a pending duplicate repeats the buffer; otherwise a
     * packet header is read when the block is used up, and then a pixel.
     */
    method ReadRlePixel()
      requires PixelReady()
      modifies pub`pos, pub`error, pub`errorMsg, this`blockCount, this`dupPixelCount, tgaPixel
      ensures PixelReady() && Here() == PixelStep(pub.input, true, pixelSize, old(Here()))
    {
      if dupPixelCount > 0 {
        dupPixelCount := dupPixelCount - 1;
        return;
      }
      blockCount := blockCount - 1;
      if blockCount < 0 {
        var i := ReadByte();
        if i >= 0x80 {
          dupPixelCount := i - 0x80;
          blockCount := 0;
        } else {
          blockCount := i;
        }
      }
      ReadNonRlePixel();
    }

    /** read_pixel, whichever of the two start_input_tga installed. */
    method ReadPixel()
      requires PixelReady()
      modifies pub`pos, pub`error, pub`errorMsg, this`blockCount, this`dupPixelCount, tgaPixel
      ensures PixelReady() && Here() == PixelStep(pub.input, rle, pixelSize, old(Here()))
    {
      if rle {
        ReadRlePixel();
      } else {
        ReadNonRlePixel();
      }
    }

    /** From pixel `i` on, the `n` pixels of `t` are what read_pixel delivers from here, and `t` ends where they end. */
    ghost predicate Ahead(t: Trace, n: nat, i: nat)
      reads this`blockCount, this`dupPixelCount, this`pixelSize, this`rle, pub`pos, pub`error, pub`errorMsg, tgaPixel
    {
      && PixelReady() && |t.pixels| == n && i <= n
      && var rest := Walk(pub.input, rle, pixelSize, Here(), n - i);
         t.pixels[i..] == rest.pixels && t.end == rest.end
    }

    /** The first `i` entries of `data` hold the first `i` pixels of `t`, converted. */
    ghost predicate Stored(data: array<int>, t: Trace, i: nat)
      reads data, this`rowKind, this`colormap
    {
      i <= |t.pixels| && i <= data.Length
      && forall k :: 0 <= k < i ==> Convertible(rowKind, colormap, t.pixels[k])
                                    && data[k] == Convert(rowKind, colormap, t.pixels[k])
    }

    /** One turn of a row reader's loop: read_pixel, then the converted pixel stored at `i`. */
    method StoreNext(data: array<int>, i: nat, ghost t: Trace, ghost n: nat)
      requires Ahead(t, n, i) && Stored(data, t, i) && i < n && i < data.Length && rowKind != NoRow && data != tgaPixel
      requires MapFits(rowKind, colormap, t.pixels)
      modifies pub`pos, pub`error, pub`errorMsg, this`blockCount, this`dupPixelCount, tgaPixel, data
      ensures Ahead(t, n, i + 1) && Stored(data, t, i + 1)
      ensures forall k :: 0 <= k < data.Length && k != i ==> data[k] == old(data[k])
    {
      ghost var here := Here();
      ReadPixel();
      WalkCons(pub.input, rle, pixelSize, here, n - i, Here());
      SuffixCons(t.pixels, i, Here().pixel, Walk(pub.input, rle, pixelSize, Here(), n - i - 1).pixels);
      ghost var px := tgaPixel[..];
      assert px == t.pixels[i];
      assert Convertible(rowKind, colormap, px);
      data[i] := Convert(rowKind, colormap, tgaPixel[..]);
    }

    /**
     * The loop every row reader runs: `pub.width` calls of read_pixel,
     * each pixel converted and stored into `data` in turn; `t` is what
     * those calls read.
     */
    method FillRow(data: array<int>, ghost t: Trace)
      requires PixelReady() && rowKind != NoRow && data != tgaPixel && 0 <= pub.width <= data.Length
      requires t == Walk(pub.input, rle, pixelSize, Here(), pub.width)
      requires MapFits(rowKind, colormap, t.pixels)
      modifies pub`pos, pub`error, pub`errorMsg, this`blockCount, this`dupPixelCount, tgaPixel, data
      ensures PixelReady() && Here() == t.end
      ensures RowOf(rowKind, colormap, t.pixels, data[..pub.width])
      ensures data[pub.width..] == old(data[pub.width..])
    {
      var w := pub.width;
      var i := 0;
      while i < w
        invariant 0 <= i <= w && Ahead(t, w, i) && Stored(data, t, i)
        invariant forall k :: w <= k < data.Length ==> data[k] == old(data[k])
      {
        StoreNext(data, i, t, w);
        i := i + 1;
      }
    }

    /**
     * get_8bit_gray_row, get_8bit_row, get_16bit_row, get_24bit_row and
     * get_32bit_row: one row into `whole_image[current_row]` when the
     * whole image is buffered, into the caller's buffer otherwise.
     */
    method GetReaderRow(data: array<int>, ghost t: Trace)
      requires PixelReady() && rowKind != NoRow && data != tgaPixel && 0 <= pub.width <= data.Length
      requires imageTable.Some? ==> 0 <= currentRow < |wholeImage|
      requires t == Walk(pub.input, rle, pixelSize, Here(), pub.width)
      requires MapFits(rowKind, colormap, t.pixels)
      modifies pub`pos, pub`error, pub`errorMsg, this`blockCount, this`dupPixelCount, tgaPixel, data, this`wholeImage
      ensures PixelReady() && Here() == t.end
      ensures imageTable.Some? ==>
                && |wholeImage| == |old(wholeImage)|
                && wholeImage == old(wholeImage)[currentRow := wholeImage[currentRow]]
                && RowOf(rowKind, colormap, t.pixels, wholeImage[currentRow])
                && unchanged(data)
      ensures imageTable.None? ==>
                && wholeImage == old(wholeImage)
                && RowOf(rowKind, colormap, t.pixels, data[..pub.width])
                && data[pub.width..] == old(data[pub.width..])
    {
      if imageTable.Some? {
        var row := new int[pub.width];
        FillRow(row, t);
        wholeImage := wholeImage[currentRow := row[..]];
      } else {
        FillRow(data, t);
      }
    }

    /** Rows `row..h` of the sweep `sc` are still ahead of the reader. */
    ghost predicate AheadRows(sc: Sweep, h: nat, row: nat)
      reads this`blockCount, this`dupPixelCount, this`pixelSize, this`rle, pub`pos, pub`error, pub`errorMsg, pub`width, tgaPixel
    {
      && PixelReady() && 0 <= pub.width && |sc.rows| == h && row <= h
      && sc.rows[row..] == Scan(pub.input, rle, pixelSize, Here(), pub.width, h - row).rows
      && sc.end == Scan(pub.input, rle, pixelSize, Here(), pub.width, h - row).end
    }

    /** The first `row` rows of the sweep `sc` are in the image, bottom-up. */
    ghost predicate Loaded(sc: Sweep, h: nat, row: nat)
      reads this`wholeImage, this`rowKind, this`colormap
    {
      |wholeImage| == h && |sc.rows| == h && row <= h
      && forall j :: 0 <= j < row ==> RowOf(rowKind, colormap, sc.rows[j], wholeImage[h - 1 - j])
    }

    /** One pass of the preload loop: file row `row` lands in image row `h - 1 - row`. */
    method LoadNextRow(data: array<int>, ghost sc: Sweep, ghost h: nat, ghost row: nat)
      requires AheadRows(sc, h, row) && Loaded(sc, h, row) && row < h && currentRow == h - row
      requires rowKind != NoRow && imageTable.Some? && data != tgaPixel && pub.width <= data.Length
      requires MapFits(rowKind, colormap, sc.rows[row])
      modifies pub`pos, pub`error, pub`errorMsg, this`blockCount, this`dupPixelCount, tgaPixel, data
      modifies this`wholeImage, this`currentRow
      ensures AheadRows(sc, h, row + 1) && Loaded(sc, h, row + 1) && currentRow == h - row - 1
      ensures unchanged(data)
    {
      currentRow := currentRow - 1;
      ghost var here := Here();
      ScanCons(pub.input, rle, pixelSize, here, pub.width, h - row);
      ghost var t := Walk(pub.input, rle, pixelSize, here, pub.width);
      SuffixCons(sc.rows, row, t.pixels, Scan(pub.input, rle, pixelSize, t.end, pub.width, h - row - 1).rows);
      GetReaderRow(data, t);
    }

    /**
     * The loop of preload_image: `current_row` counts down from `height`,
     * so row `j` of the file becomes row `height - 1 - j` of the image.
     */
    method LoadImage(data: array<int>, ghost sc: Sweep)
      requires PixelReady() && rowKind != NoRow && imageTable.Some? && data != tgaPixel
      requires 0 <= pub.width <= data.Length && 0 <= pub.height == |wholeImage|
      requires AheadRows(sc, pub.height, 0)
      requires ImageMapFits(rowKind, colormap, sc.rows)
      modifies pub`pos, pub`error, pub`errorMsg, this`blockCount, this`dupPixelCount, tgaPixel, data
      modifies this`wholeImage, this`currentRow
      ensures PixelReady() && currentRow == 0 && unchanged(data)
      ensures Here() == sc.end && Loaded(sc, pub.height, pub.height)
    {
      var h := pub.height;
      currentRow := h;
      var row := 0;
      while row < h
        invariant AheadRows(sc, h, row) && Loaded(sc, h, row) && currentRow == h - row
        invariant unchanged(data)
      {
        LoadNextRow(data, sc, h, row);
        row := row + 1;
      }
    }

    /**
     * preload_image as written: the whole image is read and
     * `get_pixel_row` switched to get_memory_row, but nothing is copied to
     * the caller's buffer, so the first call delivers no row.
     */
    method PreloadAsWritten(data: array<int>, ghost sc: Sweep)
      requires PixelReady() && rowKind != NoRow && imageTable.Some? && data != tgaPixel
      requires 0 <= pub.width <= data.Length && 0 <= pub.height == |wholeImage|
      requires sc == Scan(pub.input, rle, pixelSize, Here(), pub.width, pub.height)
      requires ImageMapFits(rowKind, colormap, sc.rows)
      modifies pub`pos, pub`error, pub`errorMsg, this`blockCount, this`dupPixelCount, tgaPixel, data
      modifies this`wholeImage, this`currentRow, this`getPixelRow
      ensures PixelReady() && getPixelRow == Memory && currentRow == 0 && |wholeImage| == pub.height
      ensures unchanged(data)
      ensures Here() == sc.end
              && forall j :: 0 <= j < pub.height ==> RowOf(rowKind, colormap, sc.rows[j], wholeImage[pub.height - 1 - j])
    {
      LoadImage(data, sc);
      getPixelRow := Memory;
      currentRow := 0;
    }

    /**
     * preload_image as evidently intended: after the load, the first call
     * delivers the top row as every later call of get_memory_row delivers
     * the next one.
     */
    method Preload(data: array<int>, ghost sc: Sweep)
      requires PixelReady() && rowKind != NoRow && imageTable.Some? && data != tgaPixel
      requires 0 <= pub.width <= data.Length && 0 < pub.height == |wholeImage|
      requires sc == Scan(pub.input, rle, pixelSize, Here(), pub.width, pub.height)
      requires ImageMapFits(rowKind, colormap, sc.rows)
      modifies pub`pos, pub`error, pub`errorMsg, this`blockCount, this`dupPixelCount, tgaPixel, data
      modifies this`wholeImage, this`currentRow, this`getPixelRow
      ensures PixelReady() && getPixelRow == Memory && currentRow == 1 && |wholeImage| == pub.height
      ensures Here() == sc.end
              && (forall j :: 0 <= j < pub.height ==> RowOf(rowKind, colormap, sc.rows[j], wholeImage[pub.height - 1 - j]))
              && data[..pub.width] == wholeImage[0] && data[pub.width..] == old(data[pub.width..])
    {
      LoadImage(data, sc);
      getPixelRow := Memory;
      currentRow := 0;
      assert RowOf(rowKind, colormap, sc.rows[pub.height - 1], wholeImage[0]);
      GetMemoryRow(data);
    }

    /** get_memory_row: the memcpy of row `current_row` of the image, then the next row. */
    method GetMemoryRow(data: array<int>)
      requires 0 <= currentRow < |wholeImage| && 0 <= pub.width <= data.Length && |wholeImage[currentRow]| == pub.width
      modifies data, this`currentRow
      ensures currentRow == old(currentRow) + 1
      ensures data[..pub.width] == wholeImage[old(currentRow)] && data[pub.width..] == old(data[pub.width..])
    {
      var row := wholeImage[currentRow];
      forall k | 0 <= k < pub.width {
        data[k] := row[k];
      }
      currentRow := currentRow + 1;
    }

    // -------------------------------------------------------------------
    // start_input_tga and finish_input_tga
    // -------------------------------------------------------------------

    /** The 18-byte header, or "Premature end of input file" when the stream holds less. */
    method ReadHeader() returns (hd: Option<TgaHeader>)
      requires pub.Valid()
      modifies pub`pos, pub`error, pub`errorMsg
      ensures pub.Valid() && hd == HeaderAt(pub.input, old(pub.pos))
      ensures hd.None? ==> Snapshot() == Raised(old(Snapshot()).(pos := |pub.input|), ERR_INPUT_EOF)
      ensures hd.Some? ==> Snapshot() == old(Snapshot()).(pos := old(pub.pos) + HEADER_LEN)
    {
      var ok, got := pub.ReadOK(HEADER_LEN);
      if !ok {
        pub.ErrExit(ERR_INPUT_EOF);
        return None;
      }
      hd := Some(ParseTgaHeader(got));
    }

    /** The pixel size, the checks, the run-length mode and the row reader; `ok` when the header is accepted. */
    method ApplyHeader(h: TgaHeader) returns (ok: bool)
      requires pub.Valid()
      modifies this`pixelSize, this`rle, this`blockCount, this`dupPixelCount, this`rowKind, pub`error, pub`errorMsg
      ensures pub.Valid() && (ok <==> Classify(h).Success?)
      ensures Snapshot() == Configure(h, old(Snapshot()))
    {
      pixelSize := h.bits / 8;
      if h.cmapType > 1 || pixelSize < 1 || pixelSize > 4 || h.bits % 8 != 0 || h.flags / 0x40 != 0 {
        pub.ErrExit(ERR_TGA_BADPARMS);
        return false;
      }
      var subtype := h.subtype;
      if subtype > 8 {
        rle := true;
        blockCount, dupPixelCount := 0, 0;
        subtype := subtype - 8;
      } else {
        rle := false;
      }
      var k := ReaderFor(subtype, pixelSize, h.cmapType);
      if k == NoRow {
        pub.ErrExit(ERR_TGA_BADPARMS);
        return false;
      }
      rowKind := k;
      ok := true;
    }

    /**
     * A bottom-up image gets `whole_image` and preload_image; a top-down
     * one neither.  A refused table raises "Insufficient memory" (`ok`
     * false), where the source goes on with a NULL table.
     */
    method AllocImage(heap: Heap, h: TgaHeader) returns (ok: bool)
      requires pub.Valid() && heap.Valid() && HeaderFieldsOk(h) && imageTable.None?
      modifies this`imageTable, this`wholeImage, this`getPixelRow, pub`error, pub`errorMsg, heap`next, heap`live
      ensures pub.Valid() && heap.Valid()
      ensures ok <==> !BottomUp(h) || AllGranted(heap.fails, old(heap.next), h.height + 1)
      ensures ok ==> Snapshot() == Install(h, old(Snapshot()))
      ensures !ok ==> Snapshot() == Raised(old(Snapshot()), ERR_OUT_OF_MEMORY)
      ensures imageTable.Some? <==> ok && BottomUp(h)
      ensures imageTable.Some? ==> WellFormed(imageTable.value, h.height)
      ensures heap.live == old(heap.live) + TableBlocks(imageTable)
      ensures forall b :: b in TableBlocks(imageTable) ==> old(heap.next) <= b < heap.next
      ensures ok ==> heap.next == old(heap.next) + (if BottomUp(h) then h.height + 1 else 0)
    {
      if BottomUp(h) {
        var t := Alloc2DJIntArray(heap, h.height, h.width);
        if t.None? {
          pub.ErrExit(ERR_OUT_OF_MEMORY);
          return false;
        }
        imageTable := t;
        wholeImage := seq(h.height, _ => Zeros(h.width));
        getPixelRow := RowSource.Preload;
      } else {
        getPixelRow := Direct;
      }
      ok := true;
    }

    /** `k` calls of read_byte since the stream stood at `p0` with error state `e0`, `m0`. */
    ghost predicate ReadsDone(p0: nat, e0: bool, m0: string, k: nat)
      reads pub`pos, pub`error, pub`errorMsg
    {
      && pub.pos == Min(p0 + k, |pub.input|)
      && (pub.error, pub.errorMsg) == Raise(e0, m0, p0 + k > |pub.input|, ERR_INPUT_EOF)
    }

    /** One read_byte, as the `k`-th since `p0`: the byte at `p0 + k`, or 1 past the end. */
    method ReadCounted(ghost p0: nat, ghost e0: bool, ghost m0: string, ghost k: nat) returns (b: int)
      requires pub.Valid() && p0 <= |pub.input| && ReadsDone(p0, e0, m0, k)
      modifies pub`pos, pub`error, pub`errorMsg
      ensures pub.Valid() && ReadsDone(p0, e0, m0, k + 1) && b == ReadByteAt(pub.input, p0 + k)
    {
      b := ReadByte();
    }

    /** `while (idlen--) read_byte()`: the ID field thrown away. */
    method SkipId(n: nat)
      requires pub.Valid()
      modifies pub`pos, pub`error, pub`errorMsg
      ensures pub.Valid() && Snapshot() == Skipped(pub.input, old(Snapshot()), n)
    {
      ghost var p0, e0, m0 := pub.pos, pub.error, pub.errorMsg;
      var k := 0;
      while k < n
        invariant pub.Valid() && k <= n && ReadsDone(p0, e0, m0, k)
      {
        var _ := ReadCounted(p0, e0, m0, k);
        k := k + 1;
      }
    }

    /** Entries `0..i` of the channels hold blue, green and red as stored from `p0` on. */
    ghost predicate MapPrefix(p0: nat, n: nat, i: nat)
      reads this`colormap
    {
      && |colormap| == 3 && |colormap[0]| == n && |colormap[1]| == n && |colormap[2]| == n && i <= n
      && forall k :: 0 <= k < i ==>
           && colormap[2][k] == ReadByteAt(pub.input, p0 + 3 * k)
           && colormap[1][k] == ReadByteAt(pub.input, p0 + 3 * k + 1)
           && colormap[0][k] == ReadByteAt(pub.input, p0 + 3 * k + 2)
    }

    /** The blue, green and red bytes of colormap entry `i`, stored in channels 2, 1 and 0. */
    method ReadEntry(i: nat, n: nat, ghost p0: nat, ghost e0: bool, ghost m0: string)
      requires pub.Valid() && p0 <= |pub.input| && ReadsDone(p0, e0, m0, 3 * i) && MapPrefix(p0, n, i) && i < n
      modifies this`colormap, pub`pos, pub`error, pub`errorMsg
      ensures pub.Valid() && ReadsDone(p0, e0, m0, 3 * i + 3) && MapPrefix(p0, n, i + 1)
    {
      var b := ReadCounted(p0, e0, m0, 3 * i);
      colormap := colormap[2 := colormap[2][i := b]];
      b := ReadCounted(p0, e0, m0, 3 * i + 1);
      colormap := colormap[1 := colormap[1][i := b]];
      b := ReadCounted(p0, e0, m0, 3 * i + 2);
      colormap := colormap[0 := colormap[0][i := b]];
    }

    /** read_colormap: blue, green and red of each of `n` entries, or "Unsupported Targa colormap format" unless they are 24 bits. */
    method ReadColormap(n: nat, entrySize: int)
      requires pub.Valid() && |colormap| == 3 && |colormap[0]| == n && |colormap[1]| == n && |colormap[2]| == n
      modifies this`colormap, pub`pos, pub`error, pub`errorMsg
      ensures pub.Valid() && Snapshot() == MapRead(pub.input, old(Snapshot()), n, entrySize)
    {
      if entrySize != 24 {
        pub.ErrExit(ERR_TGA_BADCMAP);
        return;
      }
      ghost var p0, e0, m0 := pub.pos, pub.error, pub.errorMsg;
      var i := 0;
      while i < n
        invariant pub.Valid() && ReadsDone(p0, e0, m0, 3 * i) && MapPrefix(p0, n, i)
      {
        ReadEntry(i, n, p0, e0, m0);
        i := i + 1;
      }
      ColormapIsFrom(colormap, pub.input, p0, n);
    }

    /**
     * The rest of start_input_tga: the ID field, the colormap and the
     * size.
     */
    method ReadDescription(heap: Heap, h: TgaHeader)
      requires pub.Valid() && heap.Valid() && HeaderFieldsOk(h) && cmapTable.None?
      modifies this`colormap, this`cmapTable, pub`pos, pub`error, pub`errorMsg, pub`width, pub`height
      modifies heap`next, heap`live
      ensures pub.Valid() && heap.Valid()
      ensures Snapshot() == Describe(pub.input, h, old(Snapshot()), cmapTable.Some?)
      ensures cmapTable.Some? <==> 0 < h.mapLen <= 256 && h.mapStart == 0 && AllGranted(heap.fails, old(heap.next), 4)
      ensures cmapTable.Some? ==> WellFormed(cmapTable.value, 3)
      ensures heap.live == old(heap.live) + TableBlocks(cmapTable)
      ensures forall b :: b in TableBlocks(cmapTable) ==> old(heap.next) <= b
    {
      SkipId(h.idLen);
      ReadMapStage(heap, h);
    }

    /** alloc2DByteArray(3, n) for the colormap; a refusal raises "Insufficient memory". */
    method AllocColormap(heap: Heap, n: nat) returns (ok: bool)
      requires pub.Valid() && heap.Valid() && cmapTable.None?
      modifies this`colormap, this`cmapTable, pub`error, pub`errorMsg, heap`next, heap`live
      ensures pub.Valid() && heap.Valid() && ok == cmapTable.Some?
      ensures ok <==> AllGranted(heap.fails, old(heap.next), 4)
      ensures ok ==> Snapshot() == old(Snapshot()).(cmap := true, colormap := [Zeros(n), Zeros(n), Zeros(n)])
      ensures !ok ==> Snapshot() == Raised(old(Snapshot()), ERR_OUT_OF_MEMORY)
      ensures cmapTable.Some? ==> WellFormed(cmapTable.value, 3)
      ensures heap.live == old(heap.live) + TableBlocks(cmapTable)
      ensures forall b :: b in TableBlocks(cmapTable) ==> old(heap.next) <= b
    {
      var t := Alloc2DByteArray(heap, 3, n);
      if t.None? {
        pub.ErrExit(ERR_OUT_OF_MEMORY);
        return false;
      }
      cmapTable := t;
      colormap := [Zeros(n), Zeros(n), Zeros(n)];
      ok := true;
    }

    /**
     * The colormap and the size.  A refused colormap table raises
     * "Insufficient memory", where the source reads the colormap through
     * a NULL table.
     */
    method ReadMapStage(heap: Heap, h: TgaHeader)
      requires pub.Valid() && heap.Valid() && HeaderFieldsOk(h) && cmapTable.None?
      modifies this`colormap, this`cmapTable, pub`pos, pub`error, pub`errorMsg, pub`width, pub`height
      modifies heap`next, heap`live
      ensures pub.Valid() && heap.Valid()
      ensures Snapshot() == MapStage(pub.input, h, old(Snapshot()), cmapTable.Some?)
      ensures cmapTable.Some? <==> 0 < h.mapLen <= 256 && h.mapStart == 0 && AllGranted(heap.fails, old(heap.next), 4)
      ensures cmapTable.Some? ==> WellFormed(cmapTable.value, 3)
      ensures heap.live == old(heap.live) + TableBlocks(cmapTable)
      ensures forall b :: b in TableBlocks(cmapTable) ==> old(heap.next) <= b
    {
      if h.mapLen > 0 {
        if h.mapLen > 256 || h.mapStart != 0 {
          pub.ErrExit(ERR_TGA_BADCMAP);
          return;
        }
        var ok := AllocColormap(heap, h.mapLen);
        if !ok {
          return;
        }
        ReadColormap(h.mapLen, h.entrySize);
      } else {
        if h.cmapType != 0 {
          pub.ErrExit(ERR_TGA_BADPARMS);
          return;
        }
        colormap := [];
      }
      pub.width, pub.height := h.width, h.height;
    }

    /**
     * start_input_tga after the header `h`: the state it leaves is
     * AfterHeader's, with the allocations granted exactly when the
     * allocator grants every block they ask for.
     */
    method Begin(heap: Heap, h: TgaHeader)
      requires pub.Valid() && heap.Valid() && HeaderFieldsOk(h) && imageTable.None? && cmapTable.None?
      modifies this`pixelSize, this`rle, this`blockCount, this`dupPixelCount, this`rowKind
      modifies this`imageTable, this`wholeImage, this`getPixelRow, this`colormap, this`cmapTable
      modifies pub`pos, pub`error, pub`errorMsg, pub`width, pub`height, heap`next, heap`live
      ensures pub.Valid() && heap.Valid()
      ensures Snapshot() == AfterHeader(pub.input, h, old(Snapshot()), imageTable.Some?, cmapTable.Some?)
      ensures var accepted := Classify(h).Success?;
              var n1 := old(heap.next) + if accepted && BottomUp(h) then h.height + 1 else 0;
              && (imageTable.Some? <==> accepted && BottomUp(h) && AllGranted(heap.fails, old(heap.next), h.height + 1))
              && (cmapTable.Some? <==>
                    && accepted && (BottomUp(h) ==> imageTable.Some?)
                    && 0 < h.mapLen <= 256 && h.mapStart == 0 && AllGranted(heap.fails, n1, 4))
      ensures heap.live == old(heap.live) + TableBlocks(imageTable) + TableBlocks(cmapTable)
      ensures Owns(heap.live)
    {
      var ok := ApplyHeader(h);
      if ok {
        ok := AllocImage(heap, h);
        if ok {
          ReadDescription(heap, h);
        }
      }
    }

    /** start_input_tga: StartOutcome, with the allocations as the allocator grants them. */
    method Start(heap: Heap)
      requires pub.Valid() && heap.Valid() && imageTable.None? && cmapTable.None?
      modifies this`pixelSize, this`rle, this`blockCount, this`dupPixelCount, this`rowKind
      modifies this`imageTable, this`wholeImage, this`getPixelRow, this`colormap, this`cmapTable
      modifies pub`pos, pub`error, pub`errorMsg, pub`width, pub`height, heap`next, heap`live
      ensures pub.Valid() && heap.Valid()
      ensures Snapshot() == StartOutcome(pub.input, old(Snapshot()), imageTable.Some?, cmapTable.Some?)
      ensures var hd := HeaderAt(pub.input, old(pub.pos));
              var accepted := hd.Some? && Classify(hd.value).Success?;
              var n1 := old(heap.next) + if accepted && BottomUp(hd.value) then hd.value.height + 1 else 0;
              && (imageTable.Some? <==> accepted && BottomUp(hd.value) && AllGranted(heap.fails, old(heap.next), hd.value.height + 1))
              && (cmapTable.Some? <==>
                    && accepted && (BottomUp(hd.value) ==> imageTable.Some?)
                    && 0 < hd.value.mapLen <= 256 && hd.value.mapStart == 0 && AllGranted(heap.fails, n1, 4))
      ensures heap.live == old(heap.live) + TableBlocks(imageTable) + TableBlocks(cmapTable)
      ensures Owns(heap.live)
    {
      var hd := ReadHeader();
      if hd.Some? {
        Begin(heap, hd.value);
      }
    }

    /** finish_input_tga: the colormap table, then the image table, each freed when it is not NULL. */
    method Finish(heap: Heap)
      requires heap.Valid() && Owns(heap.live)
      modifies heap`live
      ensures heap.Valid() && heap.live == old(heap.live) - TableBlocks(cmapTable) - TableBlocks(imageTable)
    {
      if cmapTable.Some? {
        OwnedTableFreeable(cmapTable.value, |cmapTable.value.slots| - 1, heap.live);
      }
      Free2D(heap, cmapTable);
      if imageTable.Some? {
        OwnedTableFreeable(imageTable.value, |imageTable.value.slots| - 1, heap.live);
      }
      Free2D(heap, imageTable);
    }
  }

  /** targa_init: the decoder's state block, or NULL when the allocator refuses it. */
  method TargaInit(heap: Heap, stream: seq<int>) returns (src: TgaSource?)
    requires heap.Valid() && AllBytes(stream)
    modifies heap`next, heap`live
    ensures heap.Valid() && heap.next == old(heap.next) + 1
    ensures src == null <==> heap.fails(old(heap.next))
    ensures src != null ==>
              && fresh(src) && fresh(src.pub) && src.pub.Valid() && src.pub.input == stream && src.pub.pos == 0
              && src.pub.width == -1 && src.pub.height == -1 && src.pub.rowNum == 0 && !src.pub.error
              && src.imageTable.None? && src.cmapTable.None? && src.currentRow == 0 && src.getPixelRow == NoSource
  {
    var h := heap.Malloc(SOURCE_STRUCT_SIZE);
    if h.None? {
      return null;
    }
    src := new TgaSource(stream);
  }
}
