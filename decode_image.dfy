/**
 * The interface shared by the native decoders (decode_image.h): the table of
 * known image types, the parameter block every decoder fills in, the error
 * channel, and the packed ARGB pixel each decoder hands back to Java.
 */
module DecodeImage {

  datatype Option<T> = None | Some(value: T)

  /** Size of the error message buffer of the parameter block. */
  const ERROR_LEN: int := 200

  /** Number of image formats in the registry. */
  const NUM_KNOWN_TYPES: int := 7

  const ERR_OUT_OF_MEMORY: string := "Insufficient memory"
  const ERR_INPUT_EOF: string := "Premature end of input file"

  /** What getc returns at the end of the stream. */
  const EOF: int := -1

  predicate IsByte(x: int) { 0 <= x < 256 }

  function Min(a: int, b: int): int { if a < b then a else b }

  function Zeros(n: nat): (z: seq<int>)
    ensures |z| == n && AllBytes(z)
  {
    seq(n, _ => 0)
  }

  predicate AllBytes(s: seq<int>) { forall i :: 0 <= i < |s| ==> IsByte(s[i]) }

  // ---------------------------------------------------------------------
  // Little-endian fields of a header read into a byte buffer
  // ---------------------------------------------------------------------

  function LE16(s: seq<int>, at: int): (v: int)
    requires 0 <= at && at + 2 <= |s| && AllBytes(s)
    ensures 0 <= v < 0x1_0000
  {
    s[at] + s[at + 1] * 0x100
  }

  /** The two bytes of a 16-bit field are its low and high byte. */
  lemma LE16Bytes(s: seq<int>, at: int)
    requires 0 <= at && at + 2 <= |s| && AllBytes(s)
    ensures LE16(s, at) % 0x100 == s[at] && LE16(s, at) / 0x100 == s[at + 1]
  {
  }

  /** A 32-bit little-endian field read into a C `long` (signed 32 bits). */
  function LE32(s: seq<int>, at: int): (v: int)
    requires 0 <= at && at + 4 <= |s| && AllBytes(s)
    ensures -0x8000_0000 <= v < 0x8000_0000
    ensures s[at + 3] < 0x80 <==> v >= 0
  {
    var u := LE16(s, at) + LE16(s, at + 2) * 0x1_0000;
    if u < 0x8000_0000 then u else u - 0x1_0000_0000
  }

  /** The low half of a 32-bit field, taken modulo 2^16 after wrapping to unsigned, is its first 16-bit field. */
  lemma LE32Low(s: seq<int>, at: int)
    requires 0 <= at && at + 4 <= |s| && AllBytes(s)
    ensures (LE32(s, at) + 0x1_0000_0000) % 0x1_0000 == LE16(s, at)
  {
  }

  // ---------------------------------------------------------------------
  // Packed pixels
  // ---------------------------------------------------------------------

  /**
   * The pixel word `(a << 24) + (r << 16) + (g << 8) + b` that every decoder
   * stores into a jint, taken as its 32-bit pattern.
   */
  function Argb(a: int, r: int, g: int, b: int): (p: int)
    requires IsByte(a) && IsByte(r) && IsByte(g) && IsByte(b)
    ensures 0 <= p < 0x1_0000_0000
  {
    ((a * 0x100 + r) * 0x100 + g) * 0x100 + b
  }

  /** Java's default colour model reads alpha `a`, red `r`, green `g` and blue `b` from the word `p`. */
  predicate Unpacks(p: int, a: int, r: int, g: int, b: int)
  {
    && p / 0x100_0000 == a
    && p / 0x1_0000 % 0x100 == r
    && p / 0x100 % 0x100 == g
    && p % 0x100 == b
  }

  /** The channel extraction Java's default colour model performs gives back each channel. */
  lemma ArgbChannels(a: int, r: int, g: int, b: int)
    requires IsByte(a) && IsByte(r) && IsByte(g) && IsByte(b)
    ensures Unpacks(Argb(a, r, g, b), a, r, g, b)
  {
    var hi := a * 0x100 + r;
    var mid := hi * 0x100 + g;
    var p := mid * 0x100 + b;
    ByteSplit(mid, b, 0x100);
    ByteSplit(hi, g, 0x100);
    ByteSplit(a, r, 0x100);
    assert p == hi * 0x1_0000 + (g * 0x100 + b);
    ByteSplit(hi, g * 0x100 + b, 0x1_0000);
    assert p == a * 0x100_0000 + (r * 0x1_0000 + g * 0x100 + b);
    ByteSplit(a, r * 0x1_0000 + g * 0x100 + b, 0x100_0000);
  }

  /** Dividing `q * d + r` by `d` gives back `q` and `r` when `r` is a remainder. */
  lemma ByteSplit(q: int, r: int, d: int)
    requires 0 <= r < d && d in {0x100, 0x1_0000, 0x100_0000}
    ensures (q * d + r) / d == q && (q * d + r) % d == r
  {
    if d == 0x100 {
      assert q * d + r == q * 0x100 + r;
    } else if d == 0x1_0000 {
      assert q * d + r == q * 0x1_0000 + r;
    } else {
      assert q * d + r == q * 0x100_0000 + r;
    }
  }

  /** An opaque grey pixel: all three colour channels carry the same sample. */
  function Grey(v: int): (p: int)
    requires IsByte(v)
    ensures 0 <= p < 0x1_0000_0000
  {
    Argb(255, v, v, v)
  }

  lemma GreyChannels(v: int)
    requires IsByte(v)
    ensures Unpacks(Grey(v), 255, v, v, v)
  {
    ArgbChannels(255, v, v, v);
  }

  /** A decoder's colormap: three channel rows (red, green, blue) of equally many bytes. */
  predicate ColormapOk(cmap: seq<seq<int>>)
  {
    && |cmap| == 3
    && |cmap[1]| == |cmap[0]| && |cmap[2]| == |cmap[0]|
    && AllBytes(cmap[0]) && AllBytes(cmap[1]) && AllBytes(cmap[2])
  }

  // ---------------------------------------------------------------------
  // Error channel
  // ---------------------------------------------------------------------

  /**
   * What the fixed-size message buffer holds after a decoder copies `msg`
   * into it with strncpy and forces a terminator into its last byte.
   */
  function ErrorText(msg: string): (r: string)
    ensures |r| < ERROR_LEN
    ensures r <= msg
    ensures |msg| < ERROR_LEN ==> r == msg
  {
    if |msg| < ERROR_LEN then msg else msg[..ERROR_LEN - 1]
  }

  /** The error flag and message after an ERREXIT that happens exactly when `cond` holds. */
  function Raise(e: bool, m: string, cond: bool, msg: string): (bool, string)
  {
    if cond then (true, ErrorText(msg)) else (e, m)
  }

  // ---------------------------------------------------------------------
  // The registry of known image types
  // ---------------------------------------------------------------------

  /** The decoder initialisation functions the registry can name. */
  datatype InitFunc = PngInit | BmpInit | JpegInit | TargaInit | PpmInit | TiffInit

  datatype KnownImageType = KnownImageType(initFunc: InitFunc, typeString: string)

  const AvailableTypes: seq<KnownImageType> := [
    KnownImageType(PngInit, "png"),
    KnownImageType(BmpInit, "bmp"),
    KnownImageType(JpegInit, "jpeg"),
    KnownImageType(TargaInit, "targa"),
    KnownImageType(PpmInit, "x-portable-pixmap"),
    KnownImageType(PpmInit, "x-portable-graymap"),
    KnownImageType(TiffInit, "tiff")
  ]

  /**
   * The exact-match scan of the registry from entry `i` on: the first entry
   * whose type string equals `name`, or None when no later entry does.
   */
  function FindTypeFrom(name: string, i: nat): (r: Option<nat>)
    requires i <= |AvailableTypes|
    decreases |AvailableTypes| - i
    ensures r.Some? ==> i <= r.value < |AvailableTypes| && AvailableTypes[r.value].typeString == name
    ensures r.Some? ==> forall j :: i <= j < r.value ==> AvailableTypes[j].typeString != name
    ensures r.None? <==> forall j :: i <= j < |AvailableTypes| ==> AvailableTypes[j].typeString != name
  {
    if i == |AvailableTypes| then None
    else if AvailableTypes[i].typeString == name then Some(i)
    else FindTypeFrom(name, i + 1)
  }

  /**
   * Selecting the decoder for a MIME subtype: the first registry entry whose
   * type string is byte-for-byte equal to it, or the "Unknown file type"
   * message naming the subtype.
   */
  function LookupDecoder(name: string): (r: Result<InitFunc, string>)
    ensures r.Success? <==> exists j :: 0 <= j < |AvailableTypes| && AvailableTypes[j].typeString == name
    ensures r.Success? ==> exists j :: 0 <= j < |AvailableTypes| && AvailableTypes[j].typeString == name
                                       && AvailableTypes[j].initFunc == r.value
    ensures r.Failure? ==> r.error == "Unknown file type: '" + name + "'"
  {
    match FindTypeFrom(name, 0)
    case Some(j) => Success(AvailableTypes[j].initFunc)
    case None => Failure("Unknown file type: '" + name + "'")
  }

  datatype Result<T, E> = Success(value: T) | Failure(error: E)

  /** Every registered subtype selects its own entry: no two entries share a type string. */
  lemma {:induction false} RegisteredTypesFindThemselves(i: nat)
    requires i < |AvailableTypes|
    ensures FindTypeFrom(AvailableTypes[i].typeString, 0) == Some(i)
    ensures LookupDecoder(AvailableTypes[i].typeString) == Success(AvailableTypes[i].initFunc)
  {
    var name := AvailableTypes[i].typeString;
    forall j | 0 <= j < i
      ensures AvailableTypes[j].typeString != name
    {
      assert AvailableTypes[j].typeString[..] != name by {
        DistinctTypeStrings(i, j);
      }
    }
  }

  lemma DistinctTypeStrings(i: nat, j: nat)
    requires i < |AvailableTypes| && j < i
    ensures AvailableTypes[j].typeString != AvailableTypes[i].typeString
  {
  }

  /** Both portable-map subtypes select the PPM decoder; every other decoder has exactly one subtype. */
  lemma PortableMapsShareDecoder()
    ensures LookupDecoder("x-portable-pixmap") == Success(PpmInit)
    ensures LookupDecoder("x-portable-graymap") == Success(PpmInit)
    ensures forall i, j :: 0 <= i < j < |AvailableTypes| && AvailableTypes[i].initFunc == AvailableTypes[j].initFunc
              ==> i == 4 && j == 5
  {
    RegisteredTypesFindThemselves(4);
    RegisteredTypesFindThemselves(5);
    forall i, j | 0 <= i < j < |AvailableTypes| && !(i == 4 && j == 5)
      ensures AvailableTypes[i].initFunc != AvailableTypes[j].initFunc
    {
      DistinctDecoders(i, j);
    }
  }

  lemma DistinctDecoders(i: int, j: int)
    requires 0 <= i < j < |AvailableTypes| && !(i == 4 && j == 5)
    ensures AvailableTypes[i].initFunc != AvailableTypes[j].initFunc
  {
    if i == 0 { } else if i == 1 { } else if i == 2 { } else if i == 3 { } else if i == 4 { } else { }
  }

  /** The match is case sensitive: an upper-case subtype is unknown. */
  lemma LookupIsCaseSensitive()
    ensures LookupDecoder("PNG").Failure?
    ensures LookupDecoder("BMP").Failure?
  {
    assert "PNG"[0] != "png"[0];
    assert "BMP"[0] != "bmp"[0];
  }

  // ---------------------------------------------------------------------
  // The parameter block
  // ---------------------------------------------------------------------

  /**
   * The public part of every decoder's state: the input stream (the bytes
   * of the encoded image and the read position of its FILE), the image
   * dimensions the start function fills in, and the error flag and message.
   */
  class Param {
    const input: seq<int>
    var pos: int
    var width: int
    var height: int
    var rowNum: int
    var error: bool
    var errorMsg: string

    ghost predicate Valid()
      reads this`pos
    {
      0 <= pos <= |input| && AllBytes(input)
    }

    /** The fields every init function sets before the stream is attached. */
    constructor (stream: seq<int>)
      requires AllBytes(stream)
      ensures Valid() && input == stream && pos == 0
      ensures width == -1 && height == -1 && rowNum == 0 && !error && errorMsg == ""
    {
      input := stream;
      pos := 0;
      width := -1;
      height := -1;
      rowNum := 0;
      error := false;
      errorMsg := "";
    }

    /** getc: the next byte, or -1 (EOF) once the stream is exhausted. */
    method Getc() returns (c: int)
      requires Valid()
      modifies this`pos
      ensures Valid()
      ensures old(pos) < |input| ==> c == input[old(pos)] && pos == old(pos) + 1
      ensures old(pos) == |input| ==> c == -1 && pos == old(pos)
    {
      if pos < |input| {
        c := input[pos];
        pos := pos + 1;
      } else {
        c := -1;
      }
    }

    /** fread of `len` single bytes: as many as remain, up to `len`. */
    method Fread(len: int) returns (got: seq<int>)
      requires Valid() && len >= 0
      modifies this`pos
      ensures Valid()
      ensures pos == old(if pos + len <= |input| then pos + len else |input|)
      ensures got == input[old(pos)..pos]
    {
      var end := if pos + len <= |input| then pos + len else |input|;
      got := input[pos..end];
      pos := end;
    }

    /** ReadOK: an fread that delivered every byte asked for. */
    method ReadOK(len: int) returns (ok: bool, got: seq<int>)
      requires Valid() && len >= 0
      modifies this`pos
      ensures Valid()
      ensures ok <==> old(pos) + len <= |input|
      ensures pos == old(if pos + len <= |input| then pos + len else |input|)
      ensures ok ==> |got| == len
      ensures got == input[old(pos)..pos]
    {
      got := Fread(len);
      ok := |got| == len;
    }

    /** The ERREXIT macro's effect on the block: raise the flag and keep the message. */
    method ErrExit(msg: string)
      modifies this`error, this`errorMsg
      ensures error && errorMsg == ErrorText(msg)
    {
      errorMsg := ErrorText(msg);
      error := true;
    }
  }
}
