/**
 * ByteBufferImage: an image of `width` by `height` pixels of `type`
 * components each (1 intensity, 2 intensity and alpha, 3 RGB, 4 RGBA), held
 * in one or more byte buffers (the levels), the first of which is always
 * there and always large enough for the image.
 *
 * A Java constructor that throws is modelled as a method returning
 * `Result`; a method that throws returns the exception it ends with.
 */
module ByteBufferImage {
  import opened DecodeImage
  import opened JavaLang

  const INTENSITY: int := 1
  const INTENSITY_ALPHA: int := 2
  const RGB: int := 3
  const RGBA: int := 4

  const INVALID_WIDTH_PARAMETER: string := "image width must be a positive integer"
  const INVALID_HEIGHT_PARAMETER: string := "image height must be a positive integer"
  const INVALID_TYPE_PARAMETER: string := "image type unknown"
  const BUFFER_IS_NULL: string := "image buffer must be non-null"
  const BUFFER_INSUFFICIENT: string := "image buffer must be sufficiently sized to contain image"

  /**
   * Stands for the message of the IllegalArgumentException allocateDirect
   * throws for a negative capacity.  The JDK's own text differs between
   * versions and is not modelled.
   */
  const NEGATIVE_CAPACITY: string := "capacity < 0"

  /** A java.nio.ByteBuffer, as far as the image uses it: its limit and its position. */
  class ByteBuffer {
    const limit: int
    var position: int

    constructor (capacity: int)
      requires 0 <= capacity <= INT_MAX
      ensures limit == capacity && position == 0
    {
      limit := capacity;
      position := 0;
    }

    /** Buffer.rewind: the position goes back to the start. */
    method Rewind()
      modifies this
      ensures position == 0
    {
      position := 0;
    }
  }

  /** ByteBuffer.allocateDirect: a new buffer of that capacity; a negative capacity is refused. */
  method AllocateDirect(capacity: int) returns (r: Result<ByteBuffer, Exception>)
    requires IsInt(capacity)
    ensures r.Failure? <==> capacity < 0
    ensures r.Failure? ==> r.error == IllegalArgument(NEGATIVE_CAPACITY)
    ensures r.Success? ==> fresh(r.value) && r.value.limit == capacity && r.value.position == 0
  {
    if capacity < 0 {
      return Failure(IllegalArgument(NEGATIVE_CAPACITY));
    }
    var b := new ByteBuffer(capacity);
    return Success(b);
  }

  /** The number of bytes an image of these dimensions takes. */
  function ImageSize(width: int, height: int, imageType: int): int
  {
    width * height * imageType
  }

  /**
   * The constructor's checks, in order, against a buffer of limit `limit`
   * (None for a null buffer) and a needed size `size`.
   */
  function Rejection(width: int, height: int, imageType: int, limit: Option<int>, size: int): Option<Exception>
  {
    if width < 1 then Some(IllegalArgument(INVALID_WIDTH_PARAMETER))
    else if height < 1 then Some(IllegalArgument(INVALID_HEIGHT_PARAMETER))
    else if imageType < INTENSITY || imageType > RGBA then Some(IllegalArgument(INVALID_TYPE_PARAMETER))
    else if limit.None? then Some(NullPointer(BUFFER_IS_NULL))
    else if limit.value < size then Some(IllegalArgument(BUFFER_INSUFFICIENT))
    else None
  }

  /** The constructor's checks as written: the size is the Java `int` product, which wraps. */
  function RejectionAsWritten(width: int, height: int, imageType: int, limit: Option<int>): Option<Exception>
  {
    Rejection(width, height, imageType, limit, Int32(ImageSize(width, height, imageType)))
  }

  /** The constructor's checks against the true number of bytes the image takes. */
  function ConstructorRejection(width: int, height: int, imageType: int, limit: Option<int>): Option<Exception>
  {
    Rejection(width, height, imageType, limit, ImageSize(width, height, imageType))
  }

  /** A product of positive numbers is at least each of them. */
  lemma SizeBounds(width: int, height: int, imageType: int)
    requires width >= 1 && height >= 1 && imageType >= 1
    ensures ImageSize(width, height, imageType) >= width * height >= width
    ensures width * height >= height
  {
    MulGrows(width, height);
    MulGrows(height, width);
    MulGrows(width * height, imageType);
  }

  lemma MulGrows(a: int, b: int)
    requires a >= 1 && b >= 1
    ensures a * b >= a
  {
    assert a * b == a * (b - 1) + a;
    assert a * (b - 1) >= 0;
  }

  /**
   * An image the checks accept has positive dimensions, a known type, and
   * a buffer that holds every byte of it; so its size fits a Java `int`.
   */
  lemma AcceptedFits(width: int, height: int, imageType: int, limit: Option<int>)
    requires limit.Some? ==> IsInt(limit.value)
    requires ConstructorRejection(width, height, imageType, limit) == None
    ensures width >= 1 && height >= 1 && INTENSITY <= imageType <= RGBA && limit.Some?
    ensures width <= ImageSize(width, height, imageType) <= limit.value <= INT_MAX
    ensures height <= ImageSize(width, height, imageType)
  {
    SizeBounds(width, height, imageType);
  }

  /** Where the product does not wrap, the checks as written and the corrected checks agree. */
  lemma AsWrittenAgreesWhenFits(width: int, height: int, imageType: int, limit: Option<int>)
    requires ImageSize(width, height, imageType) <= INT_MAX
    ensures RejectionAsWritten(width, height, imageType, limit) == ConstructorRejection(width, height, imageType, limit)
  {
    if width >= 1 && height >= 1 && INTENSITY <= imageType <= RGBA {
      SizeBounds(width, height, imageType);
      assert IsInt(ImageSize(width, height, imageType));
    }
  }

  /**
   * A 65536 by 65536 intensity image: the product wraps to 0, so the checks
   * as written accept an empty buffer for an image of 4 GiB; the corrected
   * checks refuse it.
   */
  lemma WrappedSizeAccepted()
    ensures ImageSize(65536, 65536, INTENSITY) == 0x1_0000_0000
    ensures Int32(ImageSize(65536, 65536, INTENSITY)) == 0
    ensures RejectionAsWritten(65536, 65536, INTENSITY, Some(0)) == None
    ensures ConstructorRejection(65536, 65536, INTENSITY, Some(0)) == Some(IllegalArgument(BUFFER_INSUFFICIENT))
  {
    assert ImageSize(65536, 65536, INTENSITY) == 0x1_0000_0000;
  }

  /** The grey-scale flag the constructors without one choose: one- and two-component images. */
  function DefaultGrayScale(imageType: int): bool
  {
    imageType == INTENSITY || imageType == INTENSITY_ALPHA
  }

  /** getTypeDescription. */
  function TypeDescription(imageType: int): string
  {
    if imageType == INTENSITY then "INTENSITY"
    else if imageType == INTENSITY_ALPHA then "INTENSITY_ALPHA"
    else if imageType == RGB then "RGB"
    else if imageType == RGBA then "RGBA"
    else "UNKNOWN"
  }

  /** The four known types have four different descriptions, none of them "UNKNOWN"; any other type is "UNKNOWN". */
  lemma DescriptionsDistinct(s: int, t: int)
    ensures INTENSITY <= t <= RGBA ==> TypeDescription(t) != "UNKNOWN"
    ensures !(INTENSITY <= t <= RGBA) ==> TypeDescription(t) == "UNKNOWN"
    ensures INTENSITY <= s <= RGBA && INTENSITY <= t <= RGBA && s != t ==> TypeDescription(s) != TypeDescription(t)
  {
    if INTENSITY <= s <= RGBA && INTENSITY <= t <= RGBA && s != t {
      var a, b := TypeDescription(s), TypeDescription(t);
      if |a| == |b| {
        // "INTENSITY" has 9 characters, "RGB" 3, "RGBA" 4, "INTENSITY_ALPHA" 15
        assert a == b ==> s == t;
      }
    }
    if INTENSITY <= t <= RGBA {
      assert TypeDescription(t)[0] != 'U';
    }
  }

  class ByteBufferImage {
    const width: int
    const height: int
    const imageType: int
    const isGrayScale: bool
    /** The levels; the first is the image itself. */
    var buffer: seq<ByteBuffer?>

    /** What every constructed image keeps: the constructor's checks hold of its first buffer. */
    predicate Valid()
      reads this
    {
      IsInt(width) && IsInt(height) && |buffer| >= 1 && buffer[0] != null && buffer[0].limit <= INT_MAX
      && ConstructorRejection(width, height, imageType, Some(buffer[0].limit)) == None
    }

    /** The object the constructors build once their checks have passed. */
    constructor (width: int, height: int, imageType: int, isGrayScale: bool, buffer: ByteBuffer)
      requires IsInt(width) && IsInt(height) && buffer.limit <= INT_MAX
      requires ConstructorRejection(width, height, imageType, Some(buffer.limit)) == None
      ensures this.width == width && this.height == height && this.imageType == imageType
      ensures this.isGrayScale == isGrayScale && this.buffer == [buffer]
      ensures Valid()
    {
      this.width := width;
      this.height := height;
      this.imageType := imageType;
      this.isGrayScale := isGrayScale;
      this.buffer := [buffer];
    }

    /** getLevels: the number of buffers; a valid image has at least one. */
    function Levels(): (n: int)
      reads this
      ensures Valid() ==> n >= 1
    {
      |buffer|
    }

    /** getBuffer(): the first buffer, rewound. */
    method GetBuffer() returns (b: ByteBuffer)
      requires Valid()
      modifies buffer[0]
      ensures b == buffer[0] && b.position == 0
    {
      b := buffer[0];
      b.Rewind();
    }

    /**
     * getBuffer(ret_buf): every level, rewound, copied into `retBuf` when it
     * is long enough, else into a new array; a null level ends it with a
     * NullPointerException, the levels before it already rewound and copied.
     */
    method GetBuffers(retBuf: array?<ByteBuffer?>) returns (r: Result<array<ByteBuffer?>, Exception>)
      modifies retBuf, set i | 0 <= i < |buffer| && buffer[i] != null :: buffer[i]
      ensures r.Failure? <==> null in buffer
      ensures r.Failure? ==> r.error == NullPointer(NO_MESSAGE)
      ensures r.Success? ==> r.value.Length >= |buffer| && r.value[..|buffer|] == buffer
      ensures r.Success? ==> forall i | 0 <= i < |buffer| :: buffer[i].position == 0
      ensures r.Success? && retBuf != null && retBuf.Length >= |buffer| ==>
                r.value == retBuf && r.value[|buffer|..] == old(retBuf[|buffer|..])
      ensures r.Success? && (retBuf == null || retBuf.Length < |buffer|) ==>
                fresh(r.value) && r.value.Length == |buffer|
    {
      var size := |buffer|;
      var ret: array<ByteBuffer?>;
      if retBuf == null || retBuf.Length < size {
        ret := new ByteBuffer?[size];
      } else {
        ret := retBuf;
      }
      for i := 0 to size
        invariant ret.Length >= size && ret[..i] == buffer[..i]
        invariant ret == retBuf ==> ret[size..] == old(retBuf[size..])
        invariant ret != retBuf ==> fresh(ret) && ret.Length == size
        invariant null !in buffer[..i]
        invariant forall j | 0 <= j < i :: buffer[j].position == 0
      {
        if buffer[i] == null {
          assert null in buffer;
          return Failure(NullPointer(NO_MESSAGE));
        }
        buffer[i].Rewind();
        ret[i] := buffer[i];
        assert ret[..i + 1] == ret[..i] + [ret[i]];
        assert buffer[..i + 1] == buffer[..i] + [buffer[i]];
      }
      assert buffer[..size] == buffer;
      return Success(ret);
    }

    /** setBuffer(ByteBuffer): the image's only level becomes `b`, if it is there and large enough. */
    method SetBuffer(b: ByteBuffer?) returns (e: Option<Exception>)
      requires Valid() && (b != null ==> b.limit <= INT_MAX)
      modifies this
      ensures b == null ==> e == Some(NullPointer(BUFFER_IS_NULL))
      ensures b != null ==> (e.Some? <==> b.limit < ImageSize(width, height, imageType))
      ensures b != null && e.Some? ==> e.value == IllegalArgument(BUFFER_INSUFFICIENT)
      ensures if e.None? then buffer == [b] else buffer == old(buffer)
      ensures Valid()
    {
      if b == null {
        return Some(NullPointer(BUFFER_IS_NULL));
      } else if b.limit < ImageSize(width, height, imageType) {
        return Some(IllegalArgument(BUFFER_INSUFFICIENT));
      }
      buffer := [b];
      return None;
    }

    /**
     * setBuffer(ByteBuffer[]): the levels become a copy of `arr`, if it is
     * there and its first buffer's limit is exactly the image's size.
     */
    method SetBuffers(arr: array?<ByteBuffer?>) returns (e: Option<Exception>)
      requires Valid() && (arr != null && arr.Length > 0 && arr[0] != null ==> arr[0].limit <= INT_MAX)
      modifies this
      ensures arr == null ==> e == Some(NullPointer(BUFFER_IS_NULL))
      ensures arr != null && arr.Length == 0 ==> e == Some(ArrayIndexOutOfBounds)
      ensures arr != null && arr.Length > 0 && arr[0] == null ==> e == Some(NullPointer(NO_MESSAGE))
      ensures arr != null && arr.Length > 0 && arr[0] != null ==>
                (e.Some? <==> arr[0].limit != ImageSize(width, height, imageType))
      ensures arr != null && arr.Length > 0 && arr[0] != null && e.Some? ==> e.value == IllegalArgument(BUFFER_INSUFFICIENT)
      ensures if e.None? then arr != null && buffer == arr[..] else buffer == old(buffer)
      ensures Valid()
    {
      if arr == null {
        return Some(NullPointer(BUFFER_IS_NULL));
      } else if arr.Length == 0 {
        return Some(ArrayIndexOutOfBounds);
      } else if arr[0] == null {
        return Some(NullPointer(NO_MESSAGE));
      } else if arr[0].limit != ImageSize(width, height, imageType) {
        return Some(IllegalArgument(BUFFER_INSUFFICIENT));
      }
      var copy: seq<ByteBuffer?> := [];
      for i := 0 to arr.Length
        invariant copy == arr[..i]
      {
        copy := copy + [arr[i]];
      }
      buffer := copy;
      return None;
    }
  }

  /** A valid image's size is a Java `int`, so the `int` products setBuffer compares with do not wrap. */
  lemma ValidSizeIsInt(img: ByteBufferImage)
    requires img.Valid()
    ensures 1 <= ImageSize(img.width, img.height, img.imageType) <= INT_MAX
    ensures Int32(ImageSize(img.width, img.height, img.imageType)) == ImageSize(img.width, img.height, img.imageType)
    ensures TypeDescription(img.imageType) != "UNKNOWN"
  {
    AcceptedFits(img.width, img.height, img.imageType, Some(img.buffer[0].limit));
    DescriptionsDistinct(img.imageType, img.imageType);
  }

  /** The five-argument constructor: its checks in order, then the image over `buffer`. */
  method NewImageGray(width: int, height: int, imageType: int, isGrayScale: bool, buffer: ByteBuffer?)
    returns (r: Result<ByteBufferImage, Exception>)
    requires IsInt(width) && IsInt(height) && IsInt(imageType) && (buffer != null ==> IsInt(buffer.limit))
    ensures var limit := if buffer == null then None else Some(buffer.limit);
            r.Failure? <==> ConstructorRejection(width, height, imageType, limit).Some?
    ensures r.Failure? ==> Some(r.error) == ConstructorRejection(width, height, imageType, if buffer == null then None else Some(buffer.limit))
    ensures r.Success? ==> fresh(r.value) && r.value.Valid() && r.value.buffer == [buffer]
    ensures r.Success? ==> r.value.width == width && r.value.height == height && r.value.imageType == imageType
    ensures r.Success? ==> r.value.isGrayScale == isGrayScale
  {
    var limit := if buffer == null then None else Some(buffer.limit);
    var rejection := ConstructorRejection(width, height, imageType, limit);
    if rejection.Some? {
      return Failure(rejection.value);
    }
    var img := new ByteBufferImage(width, height, imageType, isGrayScale, buffer);
    return Success(img);
  }

  /** The four-argument constructor: grey-scale for one- and two-component types. */
  method NewImageWithBuffer(width: int, height: int, imageType: int, buffer: ByteBuffer?)
    returns (r: Result<ByteBufferImage, Exception>)
    requires IsInt(width) && IsInt(height) && IsInt(imageType) && (buffer != null ==> IsInt(buffer.limit))
    ensures r.Failure? <==> ConstructorRejection(width, height, imageType, if buffer == null then None else Some(buffer.limit)).Some?
    ensures r.Success? ==> fresh(r.value) && r.value.Valid() && r.value.buffer == [buffer]
    ensures r.Success? ==> r.value.width == width && r.value.height == height && r.value.imageType == imageType
    ensures r.Success? ==> r.value.isGrayScale == DefaultGrayScale(imageType)
  {
    r := NewImageGray(width, height, imageType, DefaultGrayScale(imageType), buffer);
  }

  /**
   * The three-argument constructor: a direct buffer of the `int` product
   * of the dimensions (negative when it wraps that far, which
   * allocateDirect refuses before any check runs), then the checks.
   */
  method NewImage(width: int, height: int, imageType: int) returns (r: Result<ByteBufferImage, Exception>)
    requires IsInt(width) && IsInt(height) && IsInt(imageType)
    ensures Int32(ImageSize(width, height, imageType)) < 0 ==> r == Failure(IllegalArgument(NEGATIVE_CAPACITY))
    ensures Int32(ImageSize(width, height, imageType)) >= 0 ==>
              (r.Failure? <==> ConstructorRejection(width, height, imageType, Some(Int32(ImageSize(width, height, imageType)))).Some?)
    ensures r.Success? ==> fresh(r.value) && r.value.Valid() && |r.value.buffer| == 1
    ensures r.Success? ==> r.value.buffer[0].limit == ImageSize(width, height, imageType) && r.value.buffer[0].position == 0
    ensures r.Success? ==> r.value.width == width && r.value.height == height && r.value.imageType == imageType
    ensures r.Success? ==> r.value.isGrayScale == DefaultGrayScale(imageType)
  {
    var size := Int32(ImageSize(width, height, imageType));
    var direct := AllocateDirect(size);
    if direct.Failure? {
      return Failure(direct.error);
    }
    r := NewImageWithBuffer(width, height, imageType, direct.value);
    if r.Success? {
      AcceptedFits(width, height, imageType, Some(size));
    }
  }
}
