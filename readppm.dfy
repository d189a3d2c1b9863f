/**
 * The Netpbm decoder (readppm.c): plain (P2, P3) and raw (P5, P6) grey and
 * colour maps.  The header is three decimal integers after the two-byte
 * magic number, separated by blanks and `#` comments; each sample is
 * rescaled from 0..maxval to 0..255 through a table, and raw files carry
 * one byte per sample up to maxval 255 and two little-endian bytes beyond.
 */
module ReadPpm {
  import opened DecodeImage
  import opened Common

  const ERR_PPM_NONNUMERIC: string := "Nonnumeric data in PPM file"
  const ERR_PPM_NOT: string := "Not a PPM file"

  const NEWLINE: int := 10
  const HASH: int := 35
  const DIGIT_ZERO: int := 48
  const LETTER_P: int := 80

  /** Range of the C `unsigned int` the integers accumulate in. */
  const UINT_MOD: int := 0x1_0000_0000

  /** Bytes asked of malloc for the decoder's source structure. */
  const SOURCE_STRUCT_SIZE: int := 256

  predicate IsBlank(c: int) { c == 32 || c == 9 || c == NEWLINE || c == 13 }

  predicate IsDigit(c: int) { DIGIT_ZERO <= c <= DIGIT_ZERO + 9 }

  /** A character delivered by a read and the stream position after it. */
  datatype Got = Got(ch: int, next: nat)

  // ---------------------------------------------------------------------
  // pbm_getc: comments read as the newline that ends them
  // ---------------------------------------------------------------------

  /** The first newline at or after `i`, or the end of the stream. */
  function CommentEnd(s: seq<int>, i: nat): (e: nat)
    requires i <= |s|
    decreases |s| - i
    ensures i <= e <= |s| && (e < |s| ==> s[e] == NEWLINE)
  {
    if i == |s| then i else if s[i] == NEWLINE then i else CommentEnd(s, i + 1)
  }

  /**
   * The character pbm_getc delivers at `pos`: a `#` and everything up to
   * the next newline collapse into that newline (or EOF when the stream
   * ends first); every other byte passes through unchanged.
   */
  function PbmChar(s: seq<int>, pos: nat): (g: Got)
    requires pos <= |s|
    ensures pos <= g.next <= |s|
    ensures pos < |s| && s[pos] != HASH ==> g == Got(s[pos], pos + 1)
    ensures pos < |s| && s[pos] == HASH ==> g.ch == NEWLINE || (g.ch == EOF && g.next == |s|)
    ensures g.ch != EOF ==> pos < g.next && s[g.next - 1] == g.ch
    ensures pos == |s| ==> g == Got(EOF, pos)
  {
    if pos == |s| then Got(EOF, pos)
    else if s[pos] != HASH then Got(s[pos], pos + 1)
    else
      var e := CommentEnd(s, pos + 1);
      if e == |s| then Got(EOF, e) else Got(NEWLINE, e + 1)
  }

  /** No newline lies between `i` and the end of the comment. */
  lemma {:induction false} CommentHasNoNewline(s: seq<int>, i: nat)
    requires i <= |s|
    ensures forall k :: i <= k < CommentEnd(s, i) ==> s[k] != NEWLINE
    decreases |s| - i
  {
    if i < |s| && s[i] != NEWLINE {
      CommentHasNoNewline(s, i + 1);
    }
  }

  /**
   * A comment is swallowed whole: everything from `#` to the first newline
   * is consumed and that newline (or EOF when the stream ends first) is
   * delivered in its place.
   */
  lemma CommentReadsAsNewline(s: seq<int>, pos: nat)
    requires pos < |s| && s[pos] == HASH
    ensures var g := PbmChar(s, pos);
            && (g.ch == NEWLINE <==> exists k :: pos < k < |s| && s[k] == NEWLINE)
            && (forall k :: pos < k < g.next - 1 ==> s[k] != NEWLINE)
            && (g.ch == NEWLINE ==> s[g.next - 1] == NEWLINE)
  {
    CommentHasNoNewline(s, pos + 1);
  }

  // ---------------------------------------------------------------------
  // read_pbm_integer
  // ---------------------------------------------------------------------

  /** The first character pbm_getc delivers that is not a blank, or EOF. */
  function SkipBlanks(s: seq<int>, pos: nat): (g: Got)
    requires pos <= |s|
    decreases |s| - pos
    ensures g.ch == EOF || !IsBlank(g.ch)
    ensures pos <= g.next <= |s|
    ensures g.ch != EOF ==> pos < g.next && s[g.next - 1] == g.ch
  {
    var g := PbmChar(s, pos);
    if g.ch != EOF && IsBlank(g.ch) then SkipBlanks(s, g.next) else g
  }

  /** The end of the run of digits starting at `i`. */
  function DigitRunEnd(s: seq<int>, i: nat): (e: nat)
    requires i <= |s|
    decreases |s| - i
    ensures i <= e <= |s| && (e < |s| ==> !IsDigit(s[e]))
  {
    if i < |s| && IsDigit(s[i]) then DigitRunEnd(s, i + 1) else i
  }

  /** Everything before the end of the run is a digit. */
  lemma {:induction false} DigitRunIsDigits(s: seq<int>, i: nat)
    requires i <= |s|
    ensures forall k :: i <= k < DigitRunEnd(s, i) ==> IsDigit(s[k])
    decreases |s| - i
  {
    if i < |s| && IsDigit(s[i]) {
      DigitRunIsDigits(s, i + 1);
    }
  }

  /** The decimal number written by the digits `s[lo..hi]`. */
  function DecimalValue(s: seq<int>, lo: nat, hi: nat): int
    requires lo <= hi <= |s|
    decreases hi
  {
    if hi == lo then 0 else DecimalValue(s, lo, hi - 1) * 10 + (s[hi - 1] - DIGIT_ZERO)
  }

  /** One integer of the header or of a plain-format raster. */
  datatype Token = Token(value: nat, next: nat, err: Option<string>)

  /**
   * What read_pbm_integer returns and where it leaves the stream: blanks
   * (and comments) are skipped, then the run of digits is read as an
   * unsigned 32-bit value and the character after it swallowed.  EOF before
   * the number and a non-digit in its place are errors; the function then
   * returns 1.
   */
  function IntegerToken(s: seq<int>, pos: nat): (t: Token)
    requires pos <= |s|
    ensures pos <= t.next <= |s| && 0 <= t.value < UINT_MOD
    ensures t.err.Some? ==> t.value == 1
  {
    var g := SkipBlanks(s, pos);
    if g.ch == EOF then Token(1, g.next, Some(ERR_INPUT_EOF))
    else if !IsDigit(g.ch) then Token(1, g.next, Some(ERR_PPM_NONNUMERIC))
    else
      var e := DigitRunEnd(s, g.next);
      Token(DecimalValue(s, g.next - 1, e) % UINT_MOD, PbmChar(s, e).next, None)
  }

  /** The first `n` integers read from `pos` on. */
  function Tokens(s: seq<int>, pos: nat, n: nat): (ts: seq<Token>)
    requires pos <= |s|
    decreases n
    ensures |ts| == n
  {
    if n == 0 then [] else Tokens(s, pos, n - 1) + [IntegerToken(s, TokensEnd(s, pos, n - 1))]
  }

  /** Where the stream stands after the first `n` integers from `pos`. */
  function TokensEnd(s: seq<int>, pos: nat, n: nat): (e: nat)
    requires pos <= |s|
    decreases n
    ensures pos <= e <= |s|
  {
    if n == 0 then pos else IntegerToken(s, TokensEnd(s, pos, n - 1)).next
  }

  /** The error flag and message after the integers `ts`: each failed read overwrites the message. */
  function ErrorsAfter(error: bool, msg: string, ts: seq<Token>): (bool, string)
  {
    if |ts| == 0 then (error, msg)
    else if ts[|ts| - 1].err.Some? then (true, ErrorText(ts[|ts| - 1].err.value))
    else ErrorsAfter(error, msg, ts[..|ts| - 1])
  }

  /** Reads without error leave the flag and message alone; any failed read raises the flag. */
  lemma {:induction false} ErrorsAfterReads(error: bool, msg: string, ts: seq<Token>)
    ensures (forall k :: 0 <= k < |ts| ==> ts[k].err.None?) ==> ErrorsAfter(error, msg, ts) == (error, msg)
    ensures (exists k :: 0 <= k < |ts| && ts[k].err.Some?) ==> ErrorsAfter(error, msg, ts).0
    decreases |ts|
  {
    if |ts| > 0 {
      var init := ts[..|ts| - 1];
      assert forall k :: 0 <= k < |ts| - 1 ==> init[k] == ts[k];
      ErrorsAfterReads(error, msg, init);
    }
  }

  // ---------------------------------------------------------------------
  // The decimal writer read_pbm_integer inverts
  // ---------------------------------------------------------------------

  /** The shortest decimal spelling of `n`. */
  function Decimal(n: nat): (d: seq<int>)
    ensures |d| > 0 && forall k :: 0 <= k < |d| ==> IsDigit(d[k])
  {
    if n < 10 then [DIGIT_ZERO + n] else Decimal(n / 10) + [DIGIT_ZERO + n % 10]
  }

  /** `k` spaces. */
  function Spaces(k: nat): (r: seq<int>)
    ensures |r| == k && forall i :: 0 <= i < k ==> r[i] == 32
  {
    if k == 0 then [] else [32] + Spaces(k - 1)
  }

  lemma {:induction false} DecimalValueOfDecimal(n: nat, s: seq<int>, at: nat)
    requires at + |Decimal(n)| <= |s| && s[at..at + |Decimal(n)|] == Decimal(n)
    ensures forall k :: at <= k < at + |Decimal(n)| ==> IsDigit(s[k])
    ensures DecimalValue(s, at, at + |Decimal(n)|) == n
    decreases n
  {
    var d := Decimal(n);
    forall k | at <= k < at + |d|
      ensures IsDigit(s[k])
    {
      assert s[k] == s[at..at + |d|][k - at];
    }
    if n >= 10 {
      var d0 := Decimal(n / 10);
      assert d == d0 + [DIGIT_ZERO + n % 10];
      assert s[at..at + |d0|] == s[at..at + |d|][..|d0|];
      DecimalValueOfDecimal(n / 10, s, at);
      assert s[at + |d| - 1] == s[at..at + |d|][|d| - 1];
    } else {
      assert s[at] == s[at..at + 1][0];
    }
  }

  lemma {:induction false} DigitRunEndAt(s: seq<int>, i: nat, e: nat)
    requires i <= e <= |s| && (e < |s| ==> !IsDigit(s[e]))
    requires forall k :: i <= k < e ==> IsDigit(s[k])
    ensures DigitRunEnd(s, i) == e
    decreases e - i
  {
    if i < e {
      DigitRunEndAt(s, i + 1, e);
    }
  }

  lemma {:induction false} SkipSpaces(s: seq<int>, pos: nat, k: nat)
    requires pos + k <= |s|
    requires forall i :: pos <= i < pos + k ==> s[i] == 32
    requires pos + k < |s| && !IsBlank(s[pos + k]) && s[pos + k] != HASH
    ensures SkipBlanks(s, pos) == Got(s[pos + k], pos + k + 1)
    decreases k
  {
    if k > 0 {
      SkipSpaces(s, pos + 1, k - 1);
    }
  }

  /**
   * Reading back a written number: after any run of spaces, the decimal
   * spelling of `n` followed by a blank reads as `n` modulo 2^32, and the
   * blank is swallowed.
   */
  lemma IntegerRoundTrip(k: nat, n: nat, rest: seq<int>)
    ensures var s := Spaces(k) + Decimal(n) + [32] + rest;
            IntegerToken(s, 0) == Token(n % UINT_MOD, k + |Decimal(n)| + 1, None)
  {
    var d := Decimal(n);
    var s := Spaces(k) + d + [32] + rest;
    assert s[k..k + |d|] == d;
    IntegerAt(s, 0, k, n);
  }

  /** The same, for a number written anywhere in the stream. */
  lemma IntegerAt(s: seq<int>, pos: nat, k: nat, n: nat)
    requires pos + k + |Decimal(n)| < |s|
    requires forall i :: pos <= i < pos + k ==> s[i] == 32
    requires s[pos + k..pos + k + |Decimal(n)|] == Decimal(n) && IsBlank(s[pos + k + |Decimal(n)|])
    ensures IntegerToken(s, pos) == Token(n % UINT_MOD, pos + k + |Decimal(n)| + 1, None)
  {
    var d := Decimal(n);
    assert s[pos + k] == d[0];
    SkipSpaces(s, pos, k);
    DecimalValueOfDecimal(n, s, pos + k);
    DigitRunEndAt(s, pos + k + 1, pos + k + |d|);
  }

  /** A letter where a number belongs is "Nonnumeric data"; an exhausted stream is a premature EOF. */
  lemma IntegerErrors()
    ensures IntegerToken([32, 120], 0) == Token(1, 2, Some(ERR_PPM_NONNUMERIC))
    ensures IntegerToken([32, 9, 10], 0) == Token(1, 3, Some(ERR_INPUT_EOF))
    ensures IntegerToken([HASH, 49, 50], 0) == Token(1, 3, Some(ERR_INPUT_EOF))
  {
  }

  /** A comment between two numbers reads as a blank, and one right after the digits ends the number. */
  lemma CommentIsBlank()
    ensures IntegerToken([HASH, 55, NEWLINE, 52, 50, HASH, 57, NEWLINE], 0)
            == Token(42, 8, None)
  {
    var s := [HASH, 55, NEWLINE, 52, 50, HASH, 57, NEWLINE];
    assert CommentEnd(s, 1) == 2;
    assert PbmChar(s, 0) == Got(NEWLINE, 3);
    assert SkipBlanks(s, 3) == Got(52, 4);
    DigitRunEndAt(s, 4, 5);
    assert DecimalValue(s, 3, 5) == 42;
  }

  // ---------------------------------------------------------------------
  // The header
  // ---------------------------------------------------------------------

  /** The C `int` an `unsigned int` converts to. */
  function ToInt32(u: int): (i: int)
    requires 0 <= u < UINT_MOD
    ensures -0x8000_0000 <= i < 0x8000_0000 && (i - u) % UINT_MOD == 0
  {
    if u < 0x8000_0000 then u else u - UINT_MOD
  }

  /** What start_input_ppm reads before it checks anything but the first byte. */
  datatype PpmHeader =
    | NotPpm(next: nat)
    | Header(kind: int, w: int, h: int, maxval: int, next: nat, tokens: seq<Token>)

  function ParseHeader(s: seq<int>, pos: nat): (r: PpmHeader)
    requires pos <= |s|
    ensures pos <= r.next <= |s|
    ensures r.NotPpm? <==> pos == |s| || s[pos] != LETTER_P
    ensures r.Header? ==> |r.tokens| == 3
  {
    if pos == |s| || s[pos] != LETTER_P then NotPpm(if pos < |s| then pos + 1 else pos)
    else
      var kind := if pos + 1 < |s| then s[pos + 1] else EOF;
      var p := if pos + 1 < |s| then pos + 2 else pos + 1;
      HeaderAfter(s, kind, p)
  }

  /** The header with discriminator `kind` whose three integers start at `p`. */
  function HeaderAfter(s: seq<int>, kind: int, p: nat): (r: PpmHeader)
    requires p <= |s|
    ensures r.Header? && p <= r.next <= |s| && |r.tokens| == 3
  {
    var ts := Tokens(s, p, 3);
    Header(kind, ToInt32(ts[0].value), ToInt32(ts[1].value), ToInt32(ts[2].value), TokensEnd(s, p, 3), ts)
  }

  /** A header starting with 'P': the discriminator (or EOF), then three integers. */
  lemma ParseHeaderAt(s: seq<int>, pos: nat, kind: int, p: nat)
    requires pos < |s| && s[pos] == LETTER_P
    requires if pos + 1 < |s| then kind == s[pos + 1] && p == pos + 2 else kind == EOF && p == pos + 1
    ensures ParseHeader(s, pos) == HeaderAfter(s, kind, p)
  {
  }

  lemma SmallMod(n: nat)
    requires n < 0x8000_0000
    ensures n % UINT_MOD == n
  {
  }

  /**
   * A stream starting with 'P' whose three integers after the
   * discriminator read without error as `t1`, `t2`, `t3` has exactly those
   * as its width, height and maxval.
   */
  lemma HeaderFields(s: seq<int>, t1: Token, t2: Token, t3: Token)
    requires |s| >= 2 && s[0] == LETTER_P
    requires IntegerToken(s, 2) == t1 && IntegerToken(s, t1.next) == t2 && IntegerToken(s, t2.next) == t3
    requires 0 <= t1.value < 0x8000_0000 && 0 <= t2.value < 0x8000_0000 && 0 <= t3.value < 0x8000_0000
    ensures ParseHeader(s, 0) == Header(s[1], t1.value, t2.value, t3.value, t3.next, [t1, t2, t3])
  {
    assert Tokens(s, 2, 1) == [t1] && TokensEnd(s, 2, 1) == t1.next;
    assert Tokens(s, 2, 2) == [t1, t2] && TokensEnd(s, 2, 2) == t2.next;
  }

  // ---------------------------------------------------------------------
  // The rescale table
  // ---------------------------------------------------------------------

  /** Entry `v` of the table that maps 0..maxval onto 0..255, rounding to nearest. */
  function Rescale(v: int, maxval: int): int
    requires 0 <= v && 0 < maxval
  {
    (v * 255 + maxval / 2) / maxval
  }

  lemma DivMonotone(a: int, b: int, d: int)
    requires 0 <= a <= b && 0 < d
    ensures a / d <= b / d
  {
    assert d * (a / d) <= a;
    assert b < d * (b / d) + d == d * (b / d + 1);
    MulCancel(d, a / d, b / d + 1);
  }

  lemma MulCancel(d: int, x: int, y: int)
    requires 0 < d && d * x < d * y
    ensures x < y
  {
  }

  /** The table starts at 0, ends at 255, never decreases and stays within a byte. */
  lemma RescaleEnds(maxval: int)
    requires 0 < maxval
    ensures Rescale(0, maxval) == 0
    ensures Rescale(maxval, maxval) == 255
  {
    assert maxval * 255 + maxval / 2 == 255 * maxval + maxval / 2;
    assert 0 <= maxval / 2 < maxval;
  }

  lemma RescaleMonotone(v: int, w: int, maxval: int)
    requires 0 <= v <= w && 0 < maxval
    ensures Rescale(v, maxval) <= Rescale(w, maxval)
  {
    assert v * 255 <= w * 255;
    DivMonotone(v * 255 + maxval / 2, w * 255 + maxval / 2, maxval);
  }

  lemma RescaleInByte(v: int, maxval: int)
    requires 0 <= v <= maxval && 0 < maxval
    ensures IsByte(Rescale(v, maxval))
  {
    RescaleMonotone(v, maxval, maxval);
    RescaleEnds(maxval);
  }

  /** With maxval 255 the table is the identity. */
  lemma RescaleIdentityAt255(v: int)
    requires 0 <= v <= 255
    ensures Rescale(v, 255) == v
  {
    assert v * 255 + 127 == 255 * v + 127;
  }

  /** Every entry of the table is a byte: a valid index into the pixel packers. */
  lemma {:induction false} RescaleTableBytes(maxval: int)
    requires 0 < maxval
    ensures forall v :: 0 <= v <= maxval ==> IsByte(Rescale(v, maxval))
  {
    forall v | 0 <= v <= maxval
      ensures IsByte(Rescale(v, maxval))
    {
      RescaleInByte(v, maxval);
    }
  }

  // ---------------------------------------------------------------------
  // The table entry as the source computes it
  // ---------------------------------------------------------------------

  /** A C `int` result: the value taken modulo 2^32 into -2^31 .. 2^31-1. */
  function Wrap32(x: int): (r: int)
    ensures -0x8000_0000 <= r < 0x8000_0000 && (r - x) % UINT_MOD == 0
  {
    (x + 0x8000_0000) % UINT_MOD - 0x8000_0000
  }

  /** C's `/` on `int`: the quotient truncated toward zero. */
  function TruncDiv(n: int, d: int): (q: int)
    requires 0 < d
    ensures n >= 0 ==> q == n / d
    ensures n < 0 ==> q == -((-n) / d)
  {
    if n >= 0 then n / d else -((-n) / d)
  }

  /**
   * `(U_CHAR) ((val*255 + half_maxval)/maxval)` as written: the product
   * and sum are taken in 32-bit `int`, the quotient truncates toward zero
   * and the cast keeps its low byte.
   */
  function RescaleAsWritten(v: int, maxval: int): (b: int)
    requires 0 <= v && 0 < maxval
    ensures IsByte(b)
  {
    TruncDiv(Wrap32(v * 255 + maxval / 2), maxval) % 256
  }

  /** While the products fit in an `int`, the written entry is the intended one. */
  lemma RescaleAsWrittenAgrees(v: int, maxval: int)
    requires 0 <= v <= maxval && 0 < maxval && maxval * 255 + maxval / 2 < 0x8000_0000
    ensures RescaleAsWritten(v, maxval) == Rescale(v, maxval)
  {
    assert v * 255 <= maxval * 255;
    RescaleInByte(v, maxval);
  }

  /** Every maxval the Netpbm formats allow (at most 65535) stays within that range. */
  lemma RescaleExactForNetpbm(v: int, maxval: int)
    requires 0 <= v <= maxval && 0 < maxval < 0x1_0000
    ensures RescaleAsWritten(v, maxval) == Rescale(v, maxval)
  {
    assert maxval * 255 < 0x1_0000 * 255;
    RescaleAsWrittenAgrees(v, maxval);
  }

  /**
   * The header accepts any positive `int` maxval; for maxval 2^24 - 1 the
   * top sample's product wraps negative and the brightest value maps to 0
   * instead of 255.
   */
  lemma RescaleOverflowCounterexample()
    ensures RescaleAsWritten(0xFF_FFFF, 0xFF_FFFF) == 0
    ensures Rescale(0xFF_FFFF, 0xFF_FFFF) == 255
  {
    assert Wrap32(0xFF_FFFF * 255 + 0xFF_FFFF / 2) == -8388864;
    RescaleEnds(0xFF_FFFF);
  }

  // ---------------------------------------------------------------------
  // Row readers and the samples they decode
  // ---------------------------------------------------------------------

  /** The reader start_input_ppm installs as get_pixel_row. */
  datatype RowReader = Unset | TextGray | TextRgb | ScaledGray | ScaledRgb | WordGray | WordRgb

  /** Samples per pixel. */
  function Components(r: RowReader): int
  {
    if r == TextRgb || r == ScaledRgb || r == WordRgb then 3 else 1
  }

  /** Raw readers read a row into the I/O buffer before unpacking it. */
  predicate IsRaw(r: RowReader)
  {
    r == ScaledGray || r == ScaledRgb || r == WordGray || r == WordRgb
  }

  /** Raw readers whose samples are two bytes. */
  predicate IsWide(r: RowReader)
  {
    r == WordGray || r == WordRgb
  }

  /**
   * The discriminator switch: '2' and '3' are the plain formats, '5' and
   * '6' the raw ones, which take two-byte samples exactly when maxval
   * exceeds 255; any other byte is not a Netpbm file.
   */
  function SelectReader(kind: int, maxval: int): (r: Option<RowReader>)
  {
    if kind == DIGIT_ZERO + 2 then Some(TextGray)
    else if kind == DIGIT_ZERO + 3 then Some(TextRgb)
    else if kind == DIGIT_ZERO + 5 then Some(if maxval > 255 then WordGray else ScaledGray)
    else if kind == DIGIT_ZERO + 6 then Some(if maxval > 255 then WordRgb else ScaledRgb)
    else None
  }

  /** Bytes per raw row: width times components, times two for wide samples. */
  function BufferWidth(w: int, r: RowReader): (n: int)
    requires w >= 0
    ensures n >= 0
  {
    w * Components(r) * (if IsWide(r) then 2 else 1)
  }

  /**
   * The formats the discriminator selects: exactly '2', '3', '5', '6' are
   * accepted; '2' and '5' are grey; '5' and '6' are raw; raw samples are
   * two bytes exactly when maxval exceeds 255.
   */
  lemma SelectReaderFormats(kind: int, maxval: int)
    ensures SelectReader(kind, maxval).Some? <==> kind in {DIGIT_ZERO + 2, DIGIT_ZERO + 3, DIGIT_ZERO + 5, DIGIT_ZERO + 6}
    ensures SelectReader(kind, maxval).Some? ==>
              var r := SelectReader(kind, maxval).value;
              && r != Unset
              && (Components(r) == 1 <==> kind in {DIGIT_ZERO + 2, DIGIT_ZERO + 5})
              && (Components(r) != 1 ==> Components(r) == 3)
              && (IsRaw(r) <==> kind in {DIGIT_ZERO + 5, DIGIT_ZERO + 6})
              && (IsWide(r) <==> IsRaw(r) && maxval > 255)
  {
  }

  /** Sample `k` of a raw row: one byte, or two bytes least significant first. */
  function Sample(buf: seq<int>, k: int, wide: bool): (x: int)
    requires 0 <= k && (if wide then 2 * k + 2 else k + 1) <= |buf| && AllBytes(buf)
    ensures wide ==> x == LE16(buf, 2 * k) && 0 <= x < 0x1_0000
    ensures !wide ==> x == buf[k] && IsByte(x)
  {
    if wide then buf[2 * k] + buf[2 * k + 1] * 0x100 else buf[k]
  }

  /** The samples of a raw row, as a Netpbm writer lays them out. */
  function EncodeSamples(xs: seq<int>, wide: bool): (buf: seq<int>)
    requires forall k :: 0 <= k < |xs| ==> 0 <= xs[k] < (if wide then 0x1_0000 else 0x100)
    ensures |buf| == |xs| * (if wide then 2 else 1) && AllBytes(buf)
  {
    if |xs| == 0 then []
    else
      var last := xs[|xs| - 1];
      EncodeSamples(xs[..|xs| - 1], wide) + (if wide then [last % 0x100, last / 0x100] else [last])
  }

  /** Unpacking a raw row gives back every sample that was written into it. */
  lemma {:induction false} SampleRoundTrip(xs: seq<int>, wide: bool, k: int)
    requires forall j :: 0 <= j < |xs| ==> 0 <= xs[j] < (if wide then 0x1_0000 else 0x100)
    requires 0 <= k < |xs|
    ensures Sample(EncodeSamples(xs, wide), k, wide) == xs[k]
    decreases |xs|
  {
    var init := xs[..|xs| - 1];
    var buf := EncodeSamples(xs, wide);
    var pre := EncodeSamples(init, wide);
    if k < |xs| - 1 {
      SampleRoundTrip(init, wide, k);
      if wide {
        assert buf[2 * k] == pre[2 * k] && buf[2 * k + 1] == pre[2 * k + 1];
      } else {
        assert buf[k] == pre[k];
      }
    }
  }

  /** The first `n` samples of a raw row: `n` bytes, or `2n` for the word formats. */
  predicate RowBytes(buf: seq<int>, n: int, wide: bool)
  {
    |buf| == n * (if wide then 2 else 1) && AllBytes(buf)
  }

  /**
   * `rescale[v]` as the row readers evaluate it.  Nothing checks the index
   * against maxval: a sample within the table reads its entry, a larger one
   * reads the byte `v` places from the table's start, which `past` stands for.
   */
  function Lookup(table: seq<int>, past: int -> int, v: nat): (b: int)
    requires forall u :: 0 <= u < |table| ==> IsByte(table[u])
    ensures IsByte(b)
    ensures v < |table| ==> b == table[v]
  {
    if v < |table| then table[v] else past(v) % 256
  }

  /** Pixel `i` of a row of raw samples has its samples inside the row, and the table holds bytes. */
  predicate RawPixelDefined(buf: seq<int>, table: seq<int>, i: int, comps: int, wide: bool)
  {
    && (comps == 1 || comps == 3)
    && 0 <= i && (if wide then 2 * (comps * i + comps) else comps * i + comps) <= |buf| && AllBytes(buf)
    && (forall v :: 0 <= v < |table| ==> IsByte(table[v]))
  }

  lemma SampleBounds(buf: seq<int>, width: int, i: int, comps: int, wide: bool)
    requires (comps == 1 || comps == 3) && 0 <= i < width
    requires RowBytes(buf, width * comps, wide)
    ensures (if wide then 2 * (comps * i + comps) else comps * i + comps) <= |buf|
  {
    assert comps * i + comps <= width * comps;
  }

  /** Pixel `i` of a raw row: grey from one sample, or opaque RGB from three, each looked up in the table. */
  function RawPixel(buf: seq<int>, table: seq<int>, past: int -> int, i: int, comps: int, wide: bool): int
    requires RawPixelDefined(buf, table, i, comps, wide)
  {
    if comps == 1 then Grey(Lookup(table, past, Sample(buf, i, wide)))
    else Argb(255, Lookup(table, past, Sample(buf, 3 * i, wide)), Lookup(table, past, Sample(buf, 3 * i + 1, wide)),
              Lookup(table, past, Sample(buf, 3 * i + 2, wide)))
  }

  /**
   * A raw row a Netpbm writer lays out, with every sample at most maxval,
   * reads back through the table start_input_ppm builds as the rescaled
   * samples: nothing past the table is read.
   */
  lemma RawRowReadsBack(xs: seq<int>, wide: bool, maxval: int, table: seq<int>, past: int -> int, i: int, comps: int)
    requires 0 < maxval && maxval < (if wide then 0x1_0000 else 0x100)
    requires forall k :: 0 <= k < |xs| ==> 0 <= xs[k] <= maxval
    requires |table| == maxval + 1 && forall v :: 0 <= v < |table| ==> table[v] == Rescale(v, maxval)
    requires (comps == 1 || comps == 3) && 0 <= i && comps * i + comps <= |xs|
    ensures RawPixelDefined(EncodeSamples(xs, wide), table, i, comps, wide)
    ensures comps == 1 ==> RawPixel(EncodeSamples(xs, wide), table, past, i, comps, wide) == Grey(Rescale(xs[i], maxval))
    ensures comps == 3 ==> RawPixel(EncodeSamples(xs, wide), table, past, i, comps, wide)
                           == Argb(255, Rescale(xs[3 * i], maxval), Rescale(xs[3 * i + 1], maxval), Rescale(xs[3 * i + 2], maxval))
  {
    RescaleTableBytes(maxval);
    var buf := EncodeSamples(xs, wide);
    assert (if wide then 2 * (comps * i + comps) else comps * i + comps) <= |buf|;
    if comps == 1 {
      SampleRoundTrip(xs, wide, i);
    } else {
      SampleRoundTrip(xs, wide, 3 * i);
      SampleRoundTrip(xs, wide, 3 * i + 1);
      SampleRoundTrip(xs, wide, 3 * i + 2);
    }
  }

  /** A sample above maxval reads memory past the table: the pixel then depends on that memory, not on the file. */
  lemma SampleAboveMaxvalReadsPast()
    ensures var table := [Rescale(0, 1), Rescale(1, 1)];
            RawPixel([2], table, _ => 0, 0, 1, false) != RawPixel([2], table, _ => 1, 0, 1, false)
  {
    RescaleEnds(1);
    var table := [Rescale(0, 1), Rescale(1, 1)];
    assert Lookup(table, _ => 0, 2) == 0 && Lookup(table, _ => 1, 2) == 1;
  }

  /** One digit more, accumulated in `unsigned int` arithmetic, is the wider number modulo 2^32. */
  lemma AccumulateDigit(d: int, c: int)
    requires 0 <= c < 10
    ensures ((d % UINT_MOD) * 10 % UINT_MOD + c) % UINT_MOD == (d * 10 + c) % UINT_MOD
  {
    var q := d / UINT_MOD;
    var r := d % UINT_MOD;
    assert d * 10 + c == (q * 10) * UINT_MOD + (r * 10 + c);
    var q2 := r * 10 / UINT_MOD;
    assert r * 10 + c == q2 * UINT_MOD + (r * 10 % UINT_MOD + c);
  }

  /** The error state after one more integer is the error state of the longer run. */
  lemma ErrorsAfterSnoc(error: bool, msg: string, ts: seq<Token>, t: Token)
    ensures ErrorsAfter(error, msg, ts + [t])
            == ErrorsAfter(ErrorsAfter(error, msg, ts).0, ErrorsAfter(error, msg, ts).1, [t])
  {
    assert (ts + [t])[..|ts|] == ts;
  }

  /** Where each of the first `n` integers from `pos` is read from, and where the last one ends. */
  function TokenStarts(s: seq<int>, pos: nat, n: nat): (ends: seq<nat>)
    requires pos <= |s|
    decreases n
    ensures |ends| == n + 1
  {
    if n == 0 then [pos] else TokenStarts(s, pos, n - 1) + [TokensEnd(s, pos, n)]
  }

  /** `ts` is a run of integers read back to back, the k-th from `ends[k]` to `ends[k + 1]`. */
  ghost predicate IsTokenRun(s: seq<int>, ts: seq<Token>, ends: seq<nat>)
  {
    && |ends| == |ts| + 1
    && forall k {:trigger ts[k], ends[k]} :: 0 <= k < |ts| ==>
         ends[k] <= |s| && ts[k] == IntegerToken(s, ends[k]) && ends[k + 1] == ts[k].next
  }

  /** The first `n` integers from `pos` form such a run, from `pos` to where they end. */
  lemma {:induction false} TokensAreRun(s: seq<int>, pos: nat, n: nat)
    requires pos <= |s|
    ensures var ends := TokenStarts(s, pos, n);
            IsTokenRun(s, Tokens(s, pos, n), ends) && ends[0] == pos && ends[n] == TokensEnd(s, pos, n)
    decreases n
  {
    if n > 0 {
      TokensAreRun(s, pos, n - 1);
      var prev := Tokens(s, pos, n - 1);
      var pends := TokenStarts(s, pos, n - 1);
      var ts := Tokens(s, pos, n);
      var ends := TokenStarts(s, pos, n);
      assert ts == prev + [IntegerToken(s, TokensEnd(s, pos, n - 1))];
      assert ends == pends + [TokensEnd(s, pos, n)];
      forall k | 0 <= k < n
        ensures ends[k] <= |s| && ts[k] == IntegerToken(s, ends[k]) && ends[k + 1] == ts[k].next
      {
        if k < n - 1 {
          assert ts[k] == prev[k] && ends[k] == pends[k] && ends[k + 1] == pends[k + 1];
        }
      }
    }
  }

  // ---------------------------------------------------------------------
  // The decoder
  // ---------------------------------------------------------------------

  /**
   * ppm_source_struct: the parameter block, the installed row reader, the
   * raw-row I/O buffer (its bytes and its heap block) and the rescale table
   * (an array, and its heap block).
   */
  class PpmSource {
    const pub: Param
    var reader: RowReader
    var iobuffer: seq<int>
    var ioHandle: Option<nat>
    var bufferWidth: int
    var rescale: array?<int>
    var rescaleHandle: Option<nat>

    /** The state ppm_init leaves: nothing read, no buffers, no reader. */
    constructor (stream: seq<int>)
      requires AllBytes(stream)
      ensures fresh(pub) && pub.Valid() && pub.input == stream && pub.pos == 0
      ensures pub.width == -1 && pub.height == -1 && pub.rowNum == 0 && !pub.error && pub.errorMsg == ""
      ensures reader == Unset && ioHandle.None? && bufferWidth == 0 && rescale == null && rescaleHandle.None?
    {
      pub := new Param(stream);
      reader := Unset;
      iobuffer := [];
      ioHandle := None;
      bufferWidth := 0;
      rescale := null;
      rescaleHandle := None;
    }

    /**
     * The state start_input_ppm leaves when it succeeds: a reader is
     * installed, the table maps 0..maxval through Rescale, and a raw reader
     * has a buffer of exactly one row.
     */
    ghost predicate Ready()
      reads this, pub, rescale
    {
      && pub.Valid() && pub.width > 0 && pub.height > 0 && reader != Unset
      && TableReady() && rescaleHandle.Some?
      && (IsWide(reader) <==> IsRaw(reader) && rescale.Length > 256)
      && (IsRaw(reader) <==> ioHandle.Some?)
      && (IsRaw(reader) ==> bufferWidth == BufferWidth(pub.width, reader) && |iobuffer| == bufferWidth)
      && (ioHandle.Some? ==> ioHandle.value != rescaleHandle.value)
    }

    /** The rescale table maps every sample 0..maxval, maxval >= 1, to its byte. */
    ghost predicate TableReady()
      reads this, rescale
    {
      && rescale != null && rescale.Length >= 2
      && (forall v :: 0 <= v < rescale.Length ==> rescale[v] == Rescale(v, rescale.Length - 1))
      && (forall v :: 0 <= v < rescale.Length ==> IsByte(rescale[v]))
    }

    /** pbm_getc. */
    method PbmGetc() returns (ch: int)
      requires pub.Valid()
      modifies pub`pos
      ensures pub.Valid() && Got(ch, pub.pos) == PbmChar(pub.input, old(pub.pos))
    {
      ghost var p0 := pub.pos;
      ch := pub.Getc();
      if ch == HASH {
        ch := pub.Getc();
        while ch != NEWLINE && ch != EOF
          invariant pub.Valid() && p0 + 1 <= pub.pos
          invariant ch == EOF ==> pub.pos == |pub.input| && CommentEnd(pub.input, p0 + 1) == |pub.input|
          invariant ch != EOF ==> p0 + 1 < pub.pos && ch == pub.input[pub.pos - 1]
                                  && CommentEnd(pub.input, p0 + 1) == CommentEnd(pub.input, pub.pos - 1)
          decreases |pub.input| - pub.pos, if ch == EOF then 0 else 1
        {
          ch := pub.Getc();
        }
      }
    }

    /** The leading-blank loop of read_pbm_integer: the first character that is not a blank, or EOF. */
    method SkipToNumber() returns (ch: int)
      requires pub.Valid()
      modifies pub`pos
      ensures pub.Valid() && Got(ch, pub.pos) == SkipBlanks(pub.input, old(pub.pos))
    {
      ghost var s := pub.input;
      ghost var p0 := pub.pos;
      ch := PbmGetc();
      while ch != EOF && IsBlank(ch)
        invariant pub.Valid() && p0 <= pub.pos
        invariant SkipBlanks(s, p0) == if ch != EOF && IsBlank(ch) then SkipBlanks(s, pub.pos) else Got(ch, pub.pos)
        decreases |s| - pub.pos, if ch == EOF then 0 else 1
      {
        ch := PbmGetc();
      }
    }

    /**
     * The digit loop of read_pbm_integer, entered with the first digit
     * `first` already read at `pub.pos - 1`: the run's value modulo 2^32,
     * with the character after the run swallowed.
     */
    method ReadDigits(first: int) returns (v: int)
      requires pub.Valid() && 0 < pub.pos && IsDigit(first) && pub.input[pub.pos - 1] == first
      modifies pub`pos
      ensures pub.Valid()
      ensures var e := DigitRunEnd(pub.input, old(pub.pos));
              v == DecimalValue(pub.input, old(pub.pos) - 1, e) % UINT_MOD && pub.pos == PbmChar(pub.input, e).next
    {
      ghost var s := pub.input;
      ghost var start := pub.pos - 1;
      v := first - DIGIT_ZERO;
      ghost var at := pub.pos;
      var ch := PbmGetc();
      while IsDigit(ch)
        invariant pub.Valid() && start < at <= |s|
        invariant forall k :: start <= k < at ==> IsDigit(s[k])
        invariant v == DecimalValue(s, start, at) % UINT_MOD
        invariant Got(ch, pub.pos) == PbmChar(s, at)
        invariant DigitRunEnd(s, start + 1) == DigitRunEnd(s, at)
        decreases |s| - at
      {
        AccumulateDigit(DecimalValue(s, start, at), ch - DIGIT_ZERO);
        v := (v * 10) % UINT_MOD;
        v := (v + (ch - DIGIT_ZERO)) % UINT_MOD;
        at := pub.pos;
        ch := PbmGetc();
      }
    }

    /** read_pbm_integer: the value is accumulated as an `unsigned int`. */
    method ReadPbmInteger() returns (v: int)
      requires pub.Valid()
      modifies pub`pos, pub`error, pub`errorMsg
      ensures pub.Valid()
      ensures var t := IntegerToken(pub.input, old(pub.pos));
              v == t.value && pub.pos == t.next
              && (pub.error, pub.errorMsg) == ErrorsAfter(old(pub.error), old(pub.errorMsg), [t])
    {
      var ch := SkipToNumber();
      if ch == EOF {
        pub.ErrExit(ERR_INPUT_EOF);
        return 1;
      }
      if !IsDigit(ch) {
        pub.ErrExit(ERR_PPM_NONNUMERIC);
        return 1;
      }
      v := ReadDigits(ch);
    }

    /**
     * get_text_gray_row: one integer per pixel, looked up in the table.  The
     * source indexes the table unchecked, so an integer above maxval reads
     * the memory `past` stands for.
     */
    method GetTextGrayRow(data: array<int>, past: int -> int)
      requires pub.Valid() && rescale != null && data != rescale && 0 <= pub.width <= data.Length
      requires forall v :: 0 <= v < rescale.Length ==> IsByte(rescale[v])
      modifies pub`pos, pub`error, pub`errorMsg, data
      ensures pub.Valid()
      ensures var ts := Tokens(pub.input, old(pub.pos), pub.width);
              && pub.pos == TokensEnd(pub.input, old(pub.pos), pub.width)
              && (pub.error, pub.errorMsg) == ErrorsAfter(old(pub.error), old(pub.errorMsg), ts)
              && (forall k :: 0 <= k < pub.width ==> data[k] == Grey(Lookup(rescale[..], past, ts[k].value)))
              && data[pub.width..] == old(data[pub.width..])
    {
      ghost var s := pub.input;
      ghost var p0 := pub.pos;
      ghost var e0, m0 := pub.error, pub.errorMsg;
      ghost var ts := Tokens(s, p0, pub.width);
      ghost var ends := TokenStarts(s, p0, pub.width);
      TokensAreRun(s, p0, pub.width);
      FillGrayRow(data, past, ends, ts, e0, m0);
    }

    /** The loop of get_text_gray_row over the run `ts` of the row's integers. */
    method FillGrayRow(data: array<int>, past: int -> int, ghost ends: seq<nat>, ghost ts: seq<Token>, ghost e0: bool, ghost m0: string)
      requires pub.Valid() && rescale != null && data != rescale && 0 <= pub.width <= data.Length
      requires forall v :: 0 <= v < rescale.Length ==> IsByte(rescale[v])
      requires |ts| == pub.width && IsTokenRun(pub.input, ts, ends)
      requires pub.pos == ends[0] && (pub.error, pub.errorMsg) == (e0, m0)
      modifies pub`pos, pub`error, pub`errorMsg, data
      ensures pub.Valid() && pub.pos == ends[pub.width]
      ensures (pub.error, pub.errorMsg) == ErrorsAfter(e0, m0, ts)
      ensures forall k :: 0 <= k < pub.width ==> data[k] == Grey(Lookup(rescale[..], past, ts[k].value))
      ensures data[pub.width..] == old(data[pub.width..])
    {
      var width, table := pub.width, rescale;
      assert ts[..0] == [];
      var i := 0;
      while i < width
        invariant pub.Valid() && 0 <= i <= width
        invariant pub.pos == ends[i]
        invariant (pub.error, pub.errorMsg) == ErrorsAfter(e0, m0, ts[..i])
        invariant forall k :: 0 <= k < i ==> data[k] == Grey(Lookup(table[..], past, ts[k].value))
        invariant data[width..] == old(data[width..])
      {
        var v := ReadRunInteger(i, ends, ts, e0, m0);
        var b := TableByte(v, past);
        data[i] := Grey(b);
        i := i + 1;
      }
      assert ts[..width] == ts;
    }

    /** `rescale[v]`: the entry within the table, the memory `past` stands for beyond it. */
    method TableByte(v: nat, past: int -> int) returns (b: int)
      requires rescale != null && forall u :: 0 <= u < rescale.Length ==> IsByte(rescale[u])
      ensures b == Lookup(rescale[..], past, v)
    {
      if v < rescale.Length {
        b := rescale[v];
      } else {
        b := past(v) % 256;
      }
    }

    /**
     * get_text_rgb_row: three integers per pixel.  The alpha channel packs
     * a variable the source never assigns; `alpha` stands for its low byte.
     * As in the grey reader, an integer above maxval reads `past`.
     */
    method GetTextRgbRow(data: array<int>, alpha: int, past: int -> int)
      requires pub.Valid() && rescale != null && data != rescale && 0 <= pub.width <= data.Length
      requires IsByte(alpha)
      requires forall v :: 0 <= v < rescale.Length ==> IsByte(rescale[v])
      modifies pub`pos, pub`error, pub`errorMsg, data
      ensures pub.Valid()
      ensures var ts := Tokens(pub.input, old(pub.pos), 3 * pub.width);
              && pub.pos == TokensEnd(pub.input, old(pub.pos), 3 * pub.width)
              && (pub.error, pub.errorMsg) == ErrorsAfter(old(pub.error), old(pub.errorMsg), ts)
              && (forall k :: 0 <= k < pub.width ==>
                    data[k] == Argb(alpha, Lookup(rescale[..], past, ts[3 * k].value), Lookup(rescale[..], past, ts[3 * k + 1].value),
                                    Lookup(rescale[..], past, ts[3 * k + 2].value)))
              && data[pub.width..] == old(data[pub.width..])
    {
      ghost var s := pub.input;
      ghost var p0 := pub.pos;
      ghost var e0, m0 := pub.error, pub.errorMsg;
      ghost var ts := Tokens(s, p0, 3 * pub.width);
      ghost var ends := TokenStarts(s, p0, 3 * pub.width);
      TokensAreRun(s, p0, 3 * pub.width);
      FillRgbRow(data, alpha, past, ends, ts, e0, m0);
    }

    /** The loop of get_text_rgb_row over the run `ts` of the row's integers, three per pixel. */
    method FillRgbRow(data: array<int>, alpha: int, past: int -> int, ghost ends: seq<nat>, ghost ts: seq<Token>,
                      ghost e0: bool, ghost m0: string)
      requires pub.Valid() && rescale != null && data != rescale && 0 <= pub.width <= data.Length
      requires IsByte(alpha)
      requires forall v :: 0 <= v < rescale.Length ==> IsByte(rescale[v])
      requires |ts| == 3 * pub.width && IsTokenRun(pub.input, ts, ends)
      requires pub.pos == ends[0] && (pub.error, pub.errorMsg) == (e0, m0)
      modifies pub`pos, pub`error, pub`errorMsg, data
      ensures pub.Valid() && pub.pos == ends[3 * pub.width]
      ensures (pub.error, pub.errorMsg) == ErrorsAfter(e0, m0, ts)
      ensures forall k :: 0 <= k < pub.width ==>
                data[k] == Argb(alpha, Lookup(rescale[..], past, ts[3 * k].value), Lookup(rescale[..], past, ts[3 * k + 1].value),
                                Lookup(rescale[..], past, ts[3 * k + 2].value))
      ensures data[pub.width..] == old(data[pub.width..])
    {
      var width, table := pub.width, rescale;
      assert ts[..0] == [];
      var i := 0;
      while i < width
        invariant pub.Valid() && 0 <= i <= width
        invariant pub.pos == ends[3 * i]
        invariant (pub.error, pub.errorMsg) == ErrorsAfter(e0, m0, ts[..3 * i])
        invariant forall k :: 0 <= k < i ==>
                    data[k] == Argb(alpha, Lookup(table[..], past, ts[3 * k].value), Lookup(table[..], past, ts[3 * k + 1].value),
                                    Lookup(table[..], past, ts[3 * k + 2].value))
        invariant data[width..] == old(data[width..])
      {
        var r, g, b := ReadRgbSamples(i, past, ends, ts, e0, m0);
        data[i] := Argb(alpha, r, g, b);
        i := i + 1;
      }
      assert ts[..3 * width] == ts;
    }

    /** Integer `n` of a run whose first `n` integers have been read. */
    method ReadRunInteger(n: nat, ghost ends: seq<nat>, ghost ts: seq<Token>, ghost e0: bool, ghost m0: string)
        returns (v: int)
      requires pub.Valid()
      requires n < |ts| && IsTokenRun(pub.input, ts, ends)
      requires pub.pos == ends[n]
      requires (pub.error, pub.errorMsg) == ErrorsAfter(e0, m0, ts[..n])
      modifies pub`pos, pub`error, pub`errorMsg
      ensures pub.Valid() && v == ts[n].value
      ensures pub.pos == ends[n + 1]
      ensures (pub.error, pub.errorMsg) == ErrorsAfter(e0, m0, ts[..n + 1])
    {
      ErrorsAfterSnoc(e0, m0, ts[..n], ts[n]);
      assert ts[..n] + [ts[n]] == ts[..n + 1];
      v := ReadPbmInteger();
    }

    /** The three integers of pixel `i` of a text colour row, each looked up in the table. */
    method ReadRgbSamples(i: nat, past: int -> int, ghost ends: seq<nat>, ghost ts: seq<Token>, ghost e0: bool, ghost m0: string)
        returns (r: int, g: int, b: int)
      requires pub.Valid() && rescale != null
      requires forall v :: 0 <= v < rescale.Length ==> IsByte(rescale[v])
      requires 3 * i + 3 <= |ts| && IsTokenRun(pub.input, ts, ends)
      requires pub.pos == ends[3 * i]
      requires (pub.error, pub.errorMsg) == ErrorsAfter(e0, m0, ts[..3 * i])
      modifies pub`pos, pub`error, pub`errorMsg
      ensures pub.Valid() && r == Lookup(rescale[..], past, ts[3 * i].value)
      ensures g == Lookup(rescale[..], past, ts[3 * i + 1].value) && b == Lookup(rescale[..], past, ts[3 * i + 2].value)
      ensures pub.pos == ends[3 * i + 3]
      ensures (pub.error, pub.errorMsg) == ErrorsAfter(e0, m0, ts[..3 * i + 3])
    {
      var v := ReadRunInteger(3 * i, ends, ts, e0, m0);
      r := TableByte(v, past);
      v := ReadRunInteger(3 * i + 1, ends, ts, e0, m0);
      g := TableByte(v, past);
      v := ReadRunInteger(3 * i + 2, ends, ts, e0, m0);
      b := TableByte(v, past);
    }
  
    /**
     * The body the four raw readers share: one ReadOK of a whole row into
     * the I/O buffer, then `comps` samples per pixel, each one byte or two
     * bytes least significant first, looked up in the table.  A short read
     * raises "Premature end of input file" and writes no pixel.  The source
     * indexes the table unchecked, so a sample above maxval reads `past`.
     */
    method GetRawRow(data: array<int>, comps: int, wide: bool, past: int -> int)
      requires pub.Valid() && rescale != null && data != rescale && 0 <= pub.width <= data.Length
      requires comps == 1 || comps == 3
      requires bufferWidth == pub.width * comps * (if wide then 2 else 1) && |iobuffer| == bufferWidth
      requires forall v :: 0 <= v < rescale.Length ==> IsByte(rescale[v])
      modifies this`iobuffer, pub`pos, pub`error, pub`errorMsg, data
      ensures pub.Valid() && |iobuffer| == bufferWidth
      ensures var ok := old(pub.pos) + bufferWidth <= |pub.input|;
              && pub.pos == (if ok then old(pub.pos) + bufferWidth else |pub.input|)
              && iobuffer[..pub.pos - old(pub.pos)] == pub.input[old(pub.pos)..pub.pos]
              && (ok ==> pub.error == old(pub.error) && pub.errorMsg == old(pub.errorMsg)
                         && forall k :: 0 <= k < pub.width ==>
                              RawPixelDefined(iobuffer, rescale[..], k, comps, wide)
                              && data[k] == RawPixel(iobuffer, rescale[..], past, k, comps, wide))
              && (!ok ==> pub.error && pub.errorMsg == ErrorText(ERR_INPUT_EOF) && data[..] == old(data[..]))
              && data[pub.width..] == old(data[pub.width..])
    {
      var ok, got := pub.ReadOK(bufferWidth);
      if !ok {
        iobuffer := got + iobuffer[|got|..];
        pub.ErrExit(ERR_INPUT_EOF);
        return;
      }
      iobuffer := got;
      FillRawRow(data, comps, wide, past);
    }

    /** The pixel loop of the raw readers, over the row just read into the I/O buffer. */
    method FillRawRow(data: array<int>, comps: int, wide: bool, past: int -> int)
      requires rescale != null && data != rescale && 0 <= pub.width <= data.Length
      requires comps == 1 || comps == 3
      requires forall v :: 0 <= v < rescale.Length ==> IsByte(rescale[v])
      requires RowBytes(iobuffer, pub.width * comps, wide)
      modifies data
      ensures forall k :: 0 <= k < pub.width ==>
                RawPixelDefined(iobuffer, rescale[..], k, comps, wide)
                && data[k] == RawPixel(iobuffer, rescale[..], past, k, comps, wide)
      ensures data[pub.width..] == old(data[pub.width..])
    {
      var i := 0;
      while i < pub.width
        invariant 0 <= i <= pub.width
        invariant forall k :: 0 <= k < i ==>
                    RawPixelDefined(iobuffer, rescale[..], k, comps, wide)
                    && data[k] == RawPixel(iobuffer, rescale[..], past, k, comps, wide)
        invariant data[pub.width..] == old(data[pub.width..])
      {
        data[i] := RawPixelAt(i, comps, wide, past);
        i := i + 1;
      }
    }

    /** Pixel `i` of the row in the I/O buffer. */
    method RawPixelAt(i: int, comps: int, wide: bool, past: int -> int) returns (p: int)
      requires rescale != null && (comps == 1 || comps == 3) && 0 <= i < pub.width
      requires forall v :: 0 <= v < rescale.Length ==> IsByte(rescale[v])
      requires RowBytes(iobuffer, pub.width * comps, wide)
      ensures RawPixelDefined(iobuffer, rescale[..], i, comps, wide)
      ensures p == RawPixel(iobuffer, rescale[..], past, i, comps, wide)
    {
      SampleBounds(iobuffer, pub.width, i, comps, wide);
      if comps == 1 {
        var v := TableByte(Sample(iobuffer, i, wide), past);
        p := Grey(v);
      } else {
        var r := TableByte(Sample(iobuffer, 3 * i, wide), past);
        var g := TableByte(Sample(iobuffer, 3 * i + 1, wide), past);
        var b := TableByte(Sample(iobuffer, 3 * i + 2, wide), past);
        p := Argb(255, r, g, b);
      }
    }

    /** The I/O buffer of a raw format: one row of samples, one or two bytes each. */
    method AllocIoBuffer(heap: Heap) returns (ok: bool)
      requires heap.Valid() && pub.width > 0 && IsRaw(reader) && ioHandle.None?
      modifies this`bufferWidth, this`iobuffer, this`ioHandle, heap`next, heap`live
      ensures heap.Valid() && heap.next == old(heap.next) + 1
      ensures bufferWidth == BufferWidth(pub.width, reader)
      ensures ok <==> !heap.fails(old(heap.next))
      ensures ok ==> ioHandle == Some(old(heap.next)) && |iobuffer| == bufferWidth
                     && heap.live == old(heap.live) + {old(heap.next)}
      ensures !ok ==> ioHandle.None? && heap.live == old(heap.live)
    {
      bufferWidth := BufferWidth(pub.width, reader);
      ioHandle := heap.Malloc(bufferWidth);
      if ioHandle.Some? {
        iobuffer := seq(bufferWidth, _ => 0);
      }
      ok := ioHandle.Some?;
    }

    /** The rescale part of start_input_ppm: malloc of maxval + 1 bytes, then the fill loop. */
    method AllocRescale(heap: Heap, maxval: int) returns (ok: bool)
      requires heap.Valid() && 0 < maxval < 0x8000_0000
      modifies this`rescale, this`rescaleHandle, heap`next, heap`live
      ensures heap.Valid() && heap.next == old(heap.next) + 1
      ensures ok <==> !heap.fails(old(heap.next))
      ensures ok ==> rescaleHandle == Some(old(heap.next)) && heap.live == old(heap.live) + {old(heap.next)}
                     && TableReady() && fresh(rescale) && rescale.Length == maxval + 1
      ensures !ok ==> heap.live == old(heap.live) && rescale == old(rescale) && rescaleHandle == old(rescaleHandle)
    {
      // `maxval+1 * sizeof (U_CHAR)` is `maxval + 1` in `size_t` arithmetic: no wrap below 2^31.
      var h := heap.Malloc(maxval + 1);
      if h.None? {
        return false;
      }
      var table := new int[maxval + 1];
      var half := maxval / 2;
      var v := 0;
      while v <= maxval
        invariant 0 <= v <= maxval + 1
        invariant forall k :: 0 <= k < v ==> table[k] == Rescale(k, maxval)
        invariant forall k :: 0 <= k < v ==> IsByte(table[k])
        modifies table
      {
        RescaleInByte(v, maxval);
        table[v] := (v * 255 + half) / maxval;
        v := v + 1;
      }
      rescale := table;
      rescaleHandle := h;
      ok := true;
    }
  
    /**
     * The reads start_input_ppm makes before its first check: the 'P', the
     * discriminator, then width, height and maxval as read_pbm_integer
     * returns them, converted to `int`.
     */
    method ReadHeader() returns (isP: bool, c: int, w: int, h: int, maxval: int)
      requires pub.Valid()
      modifies pub`pos, pub`error, pub`errorMsg
      ensures pub.Valid()
      ensures var hd := ParseHeader(pub.input, old(pub.pos));
              && pub.pos == hd.next && (isP <==> hd.Header?)
              && (hd.NotPpm? ==> pub.error && pub.errorMsg == ErrorText(ERR_PPM_NOT))
              && (hd.Header? ==> c == hd.kind && w == hd.w && h == hd.h && maxval == hd.maxval
                                 && (pub.error, pub.errorMsg) == ErrorsAfter(old(pub.error), old(pub.errorMsg), hd.tokens))
    {
      ghost var s, p0, e0, m0 := pub.input, pub.pos, pub.error, pub.errorMsg;
      var first := pub.Getc();
      if first != LETTER_P {
        pub.ErrExit(ERR_PPM_NOT);
        return false, 0, 0, 0, 0;
      }
      isP := true;
      c := pub.Getc();
      ghost var p := pub.pos;
      w, h, maxval := ReadFields(c);
      ParseHeaderAt(s, p0, c, p);
    }

    /** Width, height and maxval: the three integers after the discriminator, as `int`s. */
    method ReadFields(ghost kind: int) returns (w: int, h: int, maxval: int)
      requires pub.Valid()
      modifies pub`pos, pub`error, pub`errorMsg
      ensures pub.Valid()
      ensures var hd := HeaderAfter(pub.input, kind, old(pub.pos));
              && w == hd.w && h == hd.h && maxval == hd.maxval && pub.pos == hd.next
              && (pub.error, pub.errorMsg) == ErrorsAfter(old(pub.error), old(pub.errorMsg), hd.tokens)
    {
      ghost var s, p, e0, m0 := pub.input, pub.pos, pub.error, pub.errorMsg;
      ghost var ts, ends := Tokens(s, p, 3), TokenStarts(s, p, 3);
      TokensAreRun(s, p, 3);
      var u1, u2, u3 := ReadThree(ends, ts, e0, m0);
      w, h, maxval := ToInt32(u1), ToInt32(u2), ToInt32(u3);
    }

    /** Three integers read back to back: the run `ts`. */
    method ReadThree(ghost ends: seq<nat>, ghost ts: seq<Token>, ghost e0: bool, ghost m0: string)
        returns (u1: int, u2: int, u3: int)
      requires pub.Valid() && |ts| == 3 && IsTokenRun(pub.input, ts, ends)
      requires pub.pos == ends[0] && (pub.error, pub.errorMsg) == (e0, m0)
      modifies pub`pos, pub`error, pub`errorMsg
      ensures pub.Valid() && u1 == ts[0].value && u2 == ts[1].value && u3 == ts[2].value
      ensures pub.pos == ends[3] && (pub.error, pub.errorMsg) == ErrorsAfter(e0, m0, ts)
    {
      assert ts[..0] == [] && ts[..3] == ts;
      u1 := ReadRunInteger(0, ends, ts, e0, m0);
      u2 := ReadRunInteger(1, ends, ts, e0, m0);
      u3 := ReadRunInteger(2, ends, ts, e0, m0);
    }

    /**
     * start_input_ppm.  A stream not starting with 'P' and a width, height
     * or maxval that is not positive raise "Not a PPM file"; an unknown
     * discriminator raises it too, after the size is stored.  Otherwise the
     * reader is installed, a raw format gets a one-row I/O buffer and every
     * format a rescale table of maxval + 1 entries; a refused allocation
     * raises "Insufficient memory" and leaves no block behind.
     */
    method Start(heap: Heap)
      requires pub.Valid() && heap.Valid()
      requires reader == Unset && ioHandle.None? && rescaleHandle.None? && rescale == null
      modifies this`reader, this`iobuffer, this`ioHandle, this`bufferWidth, this`rescale, this`rescaleHandle
      modifies pub`pos, pub`width, pub`height, pub`error, pub`errorMsg, heap`next, heap`live
      ensures pub.Valid() && heap.Valid()
      ensures OptionSet(rescaleHandle) + OptionSet(ioHandle) <= heap.live
      ensures rescaleHandle.Some? && ioHandle.Some? ==> rescaleHandle.value != ioHandle.value
      ensures var hd := ParseHeader(pub.input, old(pub.pos));
              var accepted := hd.Header? && hd.w > 0 && hd.h > 0 && hd.maxval > 0;
              var r := if accepted then SelectReader(hd.kind, hd.maxval) else None;
              && pub.pos == hd.next
              && (!accepted || r.None? ==>
                    && pub.error && pub.errorMsg == ErrorText(ERR_PPM_NOT) && reader == Unset
                    && ioHandle.None? && rescaleHandle.None? && heap.next == old(heap.next) && heap.live == old(heap.live))
              && (!accepted ==> pub.width == old(pub.width) && pub.height == old(pub.height))
              && (accepted ==> pub.width == hd.w && pub.height == hd.h)
              && (r.Some? ==>
                    var raw := IsRaw(r.value);
                    var granted := AllGranted(heap.fails, old(heap.next), if raw then 2 else 1);
                    && reader == r.value
                    && (granted ==>
                          && Ready() && fresh(rescale) && rescale.Length == hd.maxval + 1
                          && (pub.error, pub.errorMsg) == ErrorsAfter(old(pub.error), old(pub.errorMsg), hd.tokens)
                          && heap.live == old(heap.live) + OptionSet(rescaleHandle) + OptionSet(ioHandle))
                    && (!granted ==>
                          && pub.error && pub.errorMsg == ErrorText(ERR_OUT_OF_MEMORY)
                          && ioHandle.None? && rescaleHandle.None? && heap.live == old(heap.live)))
    {
      var isP, c, w, h, maxval := ReadHeader();
      if !isP {
        return;
      }
      if w <= 0 || h <= 0 || maxval <= 0 {
        pub.ErrExit(ERR_PPM_NOT);
        return;
      }
      pub.width := w;
      pub.height := h;
      Install(heap, c, maxval);
    }

    /**
     * The part of start_input_ppm after the size is stored: the
     * discriminator switch and the two allocations.
     */
    method Install(heap: Heap, c: int, maxval: int)
      requires pub.Valid() && heap.Valid() && pub.width > 0 && pub.height > 0 && 0 < maxval < 0x8000_0000
      requires reader == Unset && ioHandle.None? && rescaleHandle.None? && rescale == null
      modifies this`reader, this`iobuffer, this`ioHandle, this`bufferWidth, this`rescale, this`rescaleHandle
      modifies pub`error, pub`errorMsg, heap`next, heap`live
      ensures pub.Valid() && heap.Valid()
      ensures OptionSet(rescaleHandle) + OptionSet(ioHandle) <= heap.live
      ensures rescaleHandle.Some? && ioHandle.Some? ==> rescaleHandle.value != ioHandle.value
      ensures var r := SelectReader(c, maxval);
              && (r.None? ==>
                    && pub.error && pub.errorMsg == ErrorText(ERR_PPM_NOT) && reader == Unset
                    && ioHandle.None? && rescaleHandle.None? && heap.next == old(heap.next) && heap.live == old(heap.live))
              && (r.Some? ==>
                    var raw := IsRaw(r.value);
                    var granted := AllGranted(heap.fails, old(heap.next), if raw then 2 else 1);
                    && reader == r.value
                    && (granted ==>
                          && Ready() && fresh(rescale) && rescale.Length == maxval + 1
                          && pub.error == old(pub.error) && pub.errorMsg == old(pub.errorMsg)
                          && heap.live == old(heap.live) + OptionSet(rescaleHandle) + OptionSet(ioHandle))
                    && (!granted ==>
                          && pub.error && pub.errorMsg == ErrorText(ERR_OUT_OF_MEMORY)
                          && ioHandle.None? && rescaleHandle.None? && heap.live == old(heap.live)))
    {
      SelectReaderFormats(c, maxval);
      var r := SelectReader(c, maxval);
      if r.None? {
        pub.ErrExit(ERR_PPM_NOT);
        return;
      }
      reader := r.value;
      Allocate(heap, maxval);
    }

    /**
     * The two allocations of start_input_ppm once a reader is installed:
     * the I/O buffer for a raw format, then the rescale table.
     */
    method Allocate(heap: Heap, maxval: int)
      requires pub.Valid() && heap.Valid() && pub.width > 0 && pub.height > 0 && 0 < maxval < 0x8000_0000
      requires reader != Unset && (IsWide(reader) <==> IsRaw(reader) && maxval > 255)
      requires ioHandle.None? && rescaleHandle.None? && rescale == null
      modifies this`iobuffer, this`ioHandle, this`bufferWidth, this`rescale, this`rescaleHandle
      modifies pub`error, pub`errorMsg, heap`next, heap`live
      ensures pub.Valid() && heap.Valid()
      ensures OptionSet(rescaleHandle) + OptionSet(ioHandle) <= heap.live
      ensures rescaleHandle.Some? && ioHandle.Some? ==> rescaleHandle.value != ioHandle.value
      ensures var granted := AllGranted(heap.fails, old(heap.next), if IsRaw(reader) then 2 else 1);
              && (granted ==>
                    && Ready() && fresh(rescale) && rescale.Length == maxval + 1
                    && pub.error == old(pub.error) && pub.errorMsg == old(pub.errorMsg)
                    && heap.live == old(heap.live) + OptionSet(rescaleHandle) + OptionSet(ioHandle))
              && (!granted ==>
                    && pub.error && pub.errorMsg == ErrorText(ERR_OUT_OF_MEMORY)
                    && ioHandle.None? && rescaleHandle.None? && heap.live == old(heap.live))
    {
      if IsRaw(reader) {
        var granted := AllocIoBuffer(heap);
        if !granted {
          pub.ErrExit(ERR_OUT_OF_MEMORY);
          return;
        }
      }
      var ok := AllocRescale(heap, maxval);
      if !ok {
        // The source frees the I/O buffer here but keeps the pointer to it.
        heap.Free(ioHandle);
        ioHandle := None;
        pub.ErrExit(ERR_OUT_OF_MEMORY);
      }
    }

    /** finish_input_ppm: frees the rescale table and the I/O buffer, whichever exist. */
    method Finish(heap: Heap)
      requires heap.Valid() && OptionSet(rescaleHandle) + OptionSet(ioHandle) <= heap.live
      requires rescaleHandle.Some? && ioHandle.Some? ==> rescaleHandle.value != ioHandle.value
      modifies heap`live
      ensures heap.Valid()
      ensures heap.live == old(heap.live) - OptionSet(rescaleHandle) - OptionSet(ioHandle)
    {
      heap.Free(rescaleHandle);
      heap.Free(ioHandle);
    }
  }

  /**
   * The blocks start_input_ppm leaves as written: the handles its two
   * pointers hold and the blocks still live.  When the table is refused
   * after the I/O buffer was granted, the buffer is freed but its pointer
   * kept, and finish_input_ppm frees it a second time.
   */
  datatype Blocks = Blocks(io: Option<nat>, table: Option<nat>, live: set<nat>)

  function StartBlocksAsWritten(raw: bool, fails: nat -> bool, n0: nat, live: set<nat>): Blocks
  {
    if raw && fails(n0) then Blocks(None, None, live)
    else
      var io := if raw then Some(n0) else None;
      var n1 := if raw then n0 + 1 else n0;
      if fails(n1) then Blocks(io, None, live)
      else Blocks(io, Some(n1), live + OptionSet(io) + {n1})
  }

  /** What finish_input_ppm needs: each block it frees is live, and the two are distinct. */
  ghost predicate FinishFreesLiveBlocks(b: Blocks)
  {
    && OptionSet(b.io) + OptionSet(b.table) <= b.live
    && (b.io.Some? && b.table.Some? ==> b.io.value != b.table.value)
  }

  /** A raw file whose I/O buffer is granted and whose table is refused: the buffer is freed twice. */
  lemma IoBufferFreedTwice()
    ensures StartBlocksAsWritten(true, k => k == 1, 0, {}) == Blocks(Some(0), None, {})
    ensures !FinishFreesLiveBlocks(StartBlocksAsWritten(true, k => k == 1, 0, {}))
  {
  }

  /** ppm_init: a fresh source in its initial state, or null when its allocation is refused. */
  method PpmInit(heap: Heap, stream: seq<int>) returns (src: PpmSource?)
    requires heap.Valid() && AllBytes(stream)
    modifies heap`next, heap`live
    ensures heap.Valid() && heap.next == old(heap.next) + 1
    ensures src == null <==> heap.fails(old(heap.next))
    ensures src != null ==>
              && fresh(src) && fresh(src.pub) && src.pub.Valid() && src.pub.input == stream && src.pub.pos == 0
              && src.pub.width == -1 && src.pub.height == -1 && src.pub.rowNum == 0 && !src.pub.error
              && src.reader == Unset && src.ioHandle.None? && src.rescale == null && src.rescaleHandle.None?
  {
    var h := heap.Malloc(SOURCE_STRUCT_SIZE);
    if h.None? {
      return null;
    }
    src := new PpmSource(stream);
  }
}
