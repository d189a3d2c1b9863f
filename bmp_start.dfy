/**
 * What start_input_bmp promises, stated on values: the header checks
 * that decide whether the preload reader is installed, and the state
 * it is installed over.
 */
module BmpStart {
  import opened DecodeImage
  import opened Common
  import opened ReadBmp

  // ---------------------------------------------------------------------
  // What start_input_bmp and preload_image promise
  // ---------------------------------------------------------------------

  /** The state preload_image expects: its reader installed over a blank image of the depth's row width. */
  predicate Ready(r: Setup)
  {
    && r.reader == RowSource.Preload && DepthOk(r.bpp) && r.image
    && r.rowWidth == RowWidth(r.width, r.bpp) && r.wholeImage == Blank(r.height, r.rowWidth)
    && (r.bpp != 24 ==> r.cmap && |r.colormap| == 3)
  }

  /**
   * start_input_bmp installs preload_image exactly when the headers pass
   * every check, a colormap (when the depth has one) has at most 256
   * entries and is granted, bfOffBits lies past the headers and the
   * colormap, and `whole_image` is granted; the state is then Ready.
   */
  lemma StartReady(s: seq<int>, st: Setup, cmapGranted: bool, imageGranted: bool)
    requires AllBytes(s) && st.pos <= |s| && st.reader != RowSource.Preload
    ensures var r := StartOutcome(s, st, cmapGranted, imageGranted);
            var h := HeadersAt(s, st.pos);
            && (r.reader == RowSource.Preload <==> h.Some? && Accepted(h.value, cmapGranted, imageGranted))
            && (r.reader == RowSource.Preload ==> ReadyFor(r, h.value))
  {
    HeadersThen(s, st, cmapGranted, imageGranted);
    var h := HeadersAt(s, st.pos);
    if h.Some? {
      MapReady(s, h.value, st.(pos := st.pos + FILE_HEADER_LEN + h.value.info.headerSize, bpp := h.value.info.bpp),
               cmapGranted, imageGranted);
    }
  }

  /**
   * The header checks of start_input_bmp: headers that pass lead to the
   * colormap stage just past them; any that fail leave the reader as it was.
   */
  lemma HeadersThen(s: seq<int>, st: Setup, cmapGranted: bool, imageGranted: bool)
    requires AllBytes(s) && st.pos <= |s|
    ensures var h := HeadersAt(s, st.pos);
            h.Some? ==>
              && st.pos + FILE_HEADER_LEN + h.value.info.headerSize <= |s|
              && StartOutcome(s, st, cmapGranted, imageGranted)
                 == MapOutcome(s, h.value, st.(pos := st.pos + FILE_HEADER_LEN + h.value.info.headerSize, bpp := h.value.info.bpp),
                               cmapGranted, imageGranted)
    ensures HeadersAt(s, st.pos).None? ==> StartOutcome(s, st, cmapGranted, imageGranted).reader == st.reader
  {
    HeadersFound(s, st, cmapGranted, imageGranted);
    HeadersMissing(s, st, cmapGranted, imageGranted);
  }

  /** Headers that pass lead to the colormap stage just past them. */
  lemma HeadersFound(s: seq<int>, st: Setup, cmapGranted: bool, imageGranted: bool)
    requires AllBytes(s) && st.pos <= |s|
    ensures var h := HeadersAt(s, st.pos);
            h.Some? ==>
              && st.pos + FILE_HEADER_LEN + h.value.info.headerSize <= |s|
              && StartOutcome(s, st, cmapGranted, imageGranted)
                 == MapOutcome(s, h.value, st.(pos := st.pos + FILE_HEADER_LEN + h.value.info.headerSize, bpp := h.value.info.bpp),
                               cmapGranted, imageGranted)
  {
    var p := st.pos;
    var q := p + FILE_HEADER_LEN;
    if q + 4 <= |s| && LE16(s, p) == BMP_MAGIC && KnownInfoSize(LE32(s, q)) && q + LE32(s, q) <= |s| {
      var hs := LE32(s, q);
      var i := ParseInfo(s[q..q + hs]);
      HeadersRead(s, p, hs, i);
      if DepthOk(i.bpp) && i.planes == 1 {
        HeadersPassed(s, st, cmapGranted, imageGranted, hs, i);
      }
    } else {
      HeadersShort(s, p);
    }
  }

  /** A file header that is short or lacks "BM", or an info header that is short or of an unknown size, gives no headers. */
  lemma HeadersShort(s: seq<int>, p: nat)
    requires AllBytes(s) && p <= |s|
    requires var q := p + FILE_HEADER_LEN;
             !(q + 4 <= |s| && LE16(s, p) == BMP_MAGIC && KnownInfoSize(LE32(s, q)) && q + LE32(s, q) <= |s|)
    ensures HeadersAt(s, p).None?
  {
  }

  /** Headers that fail leave the reader as it was. */
  lemma HeadersMissing(s: seq<int>, st: Setup, cmapGranted: bool, imageGranted: bool)
    requires AllBytes(s) && st.pos <= |s|
    ensures HeadersAt(s, st.pos).None? ==> StartOutcome(s, st, cmapGranted, imageGranted).reader == st.reader
  {
    var p := st.pos;
    var q := p + FILE_HEADER_LEN;
    if q + 4 <= |s| && LE16(s, p) == BMP_MAGIC && KnownInfoSize(LE32(s, q)) && q + LE32(s, q) <= |s| {
      var hs := LE32(s, q);
      var i := ParseInfo(s[q..q + hs]);
      HeadersRead(s, p, hs, i);
      if !(DepthOk(i.bpp) && i.planes == 1) {
        HeadersBadDepth(s, st, cmapGranted, imageGranted, hs, i);
      }
    } else {
      HeadersRefused(s, st, cmapGranted, imageGranted);
    }
  }

  /** Both headers within the stream: HeadersAt gives them exactly when depth and plane count are accepted. */
  lemma HeadersRead(s: seq<int>, p: nat, hs: int, i: Info)
    requires AllBytes(s) && p + FILE_HEADER_LEN + 4 <= |s| && LE16(s, p) == BMP_MAGIC
    requires hs == LE32(s, p + FILE_HEADER_LEN) && KnownInfoSize(hs) && p + FILE_HEADER_LEN + hs <= |s|
    requires i == ParseInfo(s[p + FILE_HEADER_LEN..p + FILE_HEADER_LEN + hs])
    ensures HeadersAt(s, p) == if DepthOk(i.bpp) && i.planes == 1 then Some(Headers(LE32(s, p + 10), i)) else None
  {
  }

  /** Both headers read and of an accepted depth and plane count: the colormap stage follows, just past them. */
  lemma HeadersPassed(s: seq<int>, st: Setup, cmapGranted: bool, imageGranted: bool, hs: int, i: Info)
    requires AllBytes(s) && st.pos + FILE_HEADER_LEN + 4 <= |s| && LE16(s, st.pos) == BMP_MAGIC
    requires hs == LE32(s, st.pos + FILE_HEADER_LEN) && KnownInfoSize(hs) && st.pos + FILE_HEADER_LEN + hs <= |s|
    requires i == ParseInfo(s[st.pos + FILE_HEADER_LEN..st.pos + FILE_HEADER_LEN + hs]) && DepthOk(i.bpp) && i.planes == 1
    ensures StartOutcome(s, st, cmapGranted, imageGranted)
            == MapOutcome(s, Headers(LE32(s, st.pos + 10), i), st.(pos := st.pos + FILE_HEADER_LEN + i.headerSize, bpp := i.bpp),
                          cmapGranted, imageGranted)
  {
    var h := Headers(LE32(s, st.pos + 10), i);
    var st1 := st.(pos := st.pos + FILE_HEADER_LEN);
    var st2 := st.(pos := st.pos + FILE_HEADER_LEN + hs, bpp := i.bpp);
    FileHeaderPassed(s, st, cmapGranted, imageGranted);
    assert st1.(pos := st1.pos + hs, bpp := i.bpp) == st2;
    InfoPassed(s, LE32(s, st.pos + 10), st1, cmapGranted, imageGranted, hs, i, st2);
    CheckedPassed(s, h, st2, cmapGranted, imageGranted);
  }

  /** An accepted depth and plane count lead to the colormap stage. */
  lemma CheckedPassed(s: seq<int>, h: Headers, st: Setup, cmapGranted: bool, imageGranted: bool)
    requires AllBytes(s) && st.pos <= |s| && DepthOk(h.info.bpp) && h.info.planes == 1
    ensures Checked(s, h, st, cmapGranted, imageGranted) == MapOutcome(s, h, st, cmapGranted, imageGranted)
  {
  }

  /** Both headers read but the depth or the plane count refused: the reader is left as it was. */
  lemma HeadersBadDepth(s: seq<int>, st: Setup, cmapGranted: bool, imageGranted: bool, hs: int, i: Info)
    requires AllBytes(s) && st.pos + FILE_HEADER_LEN + 4 <= |s| && LE16(s, st.pos) == BMP_MAGIC
    requires hs == LE32(s, st.pos + FILE_HEADER_LEN) && KnownInfoSize(hs) && st.pos + FILE_HEADER_LEN + hs <= |s|
    requires i == ParseInfo(s[st.pos + FILE_HEADER_LEN..st.pos + FILE_HEADER_LEN + hs]) && !(DepthOk(i.bpp) && i.planes == 1)
    ensures StartOutcome(s, st, cmapGranted, imageGranted).reader == st.reader
  {
    var q := st.pos + FILE_HEADER_LEN;
    FileHeaderPassed(s, st, cmapGranted, imageGranted);
    InfoBadDepth(s, LE32(s, st.pos + 10), st.(pos := q), cmapGranted, imageGranted, hs, i);
  }

  /** An info header whose depth or plane count is refused leaves the reader as it was. */
  lemma InfoBadDepth(s: seq<int>, offBits: int, st: Setup, cmapGranted: bool, imageGranted: bool, hs: int, i: Info)
    requires AllBytes(s) && st.pos + 4 <= |s| && hs == LE32(s, st.pos) && KnownInfoSize(hs) && st.pos + hs <= |s|
    requires i == ParseInfo(s[st.pos..st.pos + hs]) && !(DepthOk(i.bpp) && i.planes == 1)
    ensures InfoOutcome(s, offBits, st, cmapGranted, imageGranted).reader == st.reader
  {
    var st2 := st.(pos := st.pos + hs, bpp := i.bpp);
    InfoPassed(s, offBits, st, cmapGranted, imageGranted, hs, i, st2);
    CheckedRefused(s, Headers(offBits, i), st2, cmapGranted, imageGranted);
  }

  /** A refused depth or plane count stops start_input_bmp with the reader unchanged. */
  lemma CheckedRefused(s: seq<int>, h: Headers, st: Setup, cmapGranted: bool, imageGranted: bool)
    requires AllBytes(s) && st.pos <= |s| && !(DepthOk(h.info.bpp) && h.info.planes == 1)
    ensures Checked(s, h, st, cmapGranted, imageGranted).reader == st.reader
  {
  }

  /** A file header that is short or lacks "BM", or an info header that is short or of an unknown size, leaves the reader as it was. */
  lemma HeadersRefused(s: seq<int>, st: Setup, cmapGranted: bool, imageGranted: bool)
    requires AllBytes(s) && st.pos <= |s|
    requires var q := st.pos + FILE_HEADER_LEN;
             q + 4 > |s| || LE16(s, st.pos) != BMP_MAGIC || !KnownInfoSize(LE32(s, q)) || q + LE32(s, q) > |s|
    ensures StartOutcome(s, st, cmapGranted, imageGranted).reader == st.reader
  {
    var p := st.pos;
    var q := p + FILE_HEADER_LEN;
    if q <= |s| && LE16(s, p) == BMP_MAGIC {
      FileHeaderPassed(s, st, cmapGranted, imageGranted);
      InfoRefused(s, LE32(s, p + 10), st.(pos := q), cmapGranted, imageGranted);
    }
  }

  /** A whole file header starting "BM" hands over to the info header just past it. */
  lemma FileHeaderPassed(s: seq<int>, st: Setup, cmapGranted: bool, imageGranted: bool)
    requires AllBytes(s) && st.pos + FILE_HEADER_LEN <= |s| && LE16(s, st.pos) == BMP_MAGIC
    ensures StartOutcome(s, st, cmapGranted, imageGranted)
            == InfoOutcome(s, LE32(s, st.pos + 10), st.(pos := st.pos + FILE_HEADER_LEN), cmapGranted, imageGranted)
  {
    var st1 := st.(pos := st.pos + FILE_HEADER_LEN);
    var r := InfoOutcome(s, LE32(s, st.pos + 10), st1, cmapGranted, imageGranted);
    assert StartOutcome(s, st, cmapGranted, imageGranted) == r;
  }

  /** An info header of a known size within the stream is decoded and checked. */
  lemma InfoPassed(s: seq<int>, offBits: int, st: Setup, cmapGranted: bool, imageGranted: bool, hs: int, i: Info, st2: Setup)
    requires AllBytes(s) && st.pos + 4 <= |s| && hs == LE32(s, st.pos) && KnownInfoSize(hs) && st.pos + hs <= |s|
    requires i == ParseInfo(s[st.pos..st.pos + hs]) && st2 == st.(pos := st.pos + hs, bpp := i.bpp)
    ensures InfoOutcome(s, offBits, st, cmapGranted, imageGranted) == Checked(s, Headers(offBits, i), st2, cmapGranted, imageGranted)
  {
  }

  /** A short stream or an info header size other than 12, 40 and 64 stops start_input_bmp with the reader unchanged. */
  lemma InfoRefused(s: seq<int>, offBits: int, st: Setup, cmapGranted: bool, imageGranted: bool)
    requires AllBytes(s) && st.pos <= |s|
    requires st.pos + 4 > |s| || !KnownInfoSize(LE32(s, st.pos)) || st.pos + LE32(s, st.pos) > |s|
    ensures InfoOutcome(s, offBits, st, cmapGranted, imageGranted).reader == st.reader
  {
  }


  /** What start_input_bmp demands past the header checks: the colormap's size and memory, the pad, the image's memory. */
  predicate Accepted(h: Headers, cmapGranted: bool, imageGranted: bool)
    requires DepthOk(h.info.bpp)
  {
    (Indexed(h.info) ==> h.info.clrUsed <= 256 && cmapGranted) && Pad(h) >= 0 && imageGranted
  }

  /** Ready, with the depth and the height the headers give. */
  predicate ReadyFor(r: Setup, h: Headers)
  {
    Ready(r) && r.bpp == h.info.bpp && r.height == h.info.height
  }

  /** From the colormap on: the reader is installed exactly when the colormap, the pad and the image pass. */
  lemma MapReady(s: seq<int>, h: Headers, st: Setup, cmapGranted: bool, imageGranted: bool)
    requires AllBytes(s) && st.pos <= |s| && DepthOk(h.info.bpp) && st.bpp == h.info.bpp && st.reader != RowSource.Preload
    ensures var r := MapOutcome(s, h, st, cmapGranted, imageGranted);
            && (r.reader == RowSource.Preload <==> Accepted(h, cmapGranted, imageGranted))
            && (r.reader == RowSource.Preload ==> ReadyFor(r, h))
  {
    var i := h.info;
    if !Indexed(i) {
      PadReady(s, h, st, imageGranted);
    } else if i.clrUsed <= 256 && cmapGranted {
      var n := CmapLen(i);
      var st1 := MapRead(s, st.(cmap := true, colormap := [Zeros(n), Zeros(n), Zeros(n)]), n, MapEntrySize(i));
      assert st1.cmap && |st1.colormap| == 3 && st1.bpp == st.bpp && st1.reader == st.reader;
      PadReady(s, h, st1, imageGranted);
    }
  }

  /** The pad and the image: the reader is installed exactly when the pad is not negative and the image is granted. */
  lemma PadReady(s: seq<int>, h: Headers, st: Setup, imageGranted: bool)
    requires st.pos <= |s| && DepthOk(h.info.bpp) && st.bpp == h.info.bpp && st.reader != RowSource.Preload
    ensures var r := PadOutcome(s, h, st, imageGranted);
            && (r.reader == RowSource.Preload <==> Pad(h) >= 0 && imageGranted)
            && (r.reader == RowSource.Preload ==>
                  && r.image && r.rowWidth == RowWidth(r.width, r.bpp) && r.wholeImage == Blank(r.height, r.rowWidth)
                  && r.bpp == st.bpp && r.height == h.info.height && r.cmap == st.cmap && r.colormap == st.colormap)
  {
  }

}
