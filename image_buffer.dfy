/**
 * ImageBuffer: a decoded image held as ARGB ints in chunks of whole rows,
 * each chunk at most MEM_LIMIT ints where it can be, and an image producer
 * that delivers the image to its registered consumers.
 *
 * The chunks are the `int[]` arrays the class fills in place; the consumer
 * list is the array it grows and shifts. A consumer is an object known only
 * by its identity; what the class asks of its consumers is returned as the
 * sequence of calls it makes on them.
 */
module ImageBuffer {
  import opened DecodeImage
  import opened Common
  import opened JavaLang

  /** Ints per chunk the allocator aims for. */
  const MEM_LIMIT: int := 3000000
  /** Initial size of the consumer array, and what it grows by. */
  const MAX_CONSUMERS: int := 20

  // The java.awt.image.ImageConsumer hints and status the class sends.
  const TOPDOWNLEFTRIGHT: int := 2
  const SINGLEFRAME: int := 16
  const SINGLEFRAMEDONE: int := 2

  const INVALID_ROW: string := "ImageBuffer.setImageRow(): invalid row: "
  const NOT_ENOUGH_DATA: string := "ImageBuffer.setImageRow(): not enough data"

  /** A java.awt.image.DirectColorModel: bits per pixel and the four channel masks (as Java ints). */
  datatype ColorModel = DirectColorModel(bits: int, redMask: int, greenMask: int, blueMask: int, alphaMask: int)

  /** The colour model the constructor picks for a number of components; null (None) for any other count. */
  function DefaultColorModel(numComponents: int): (m: Option<ColorModel>)
    ensures m.Some? <==> 1 <= numComponents <= 4
    ensures m.Some? ==> m.value.bits == 8 * numComponents && m.value.blueMask == 0xFF
    ensures m.Some? ==> (m.value.alphaMask != 0 <==> numComponents == 4)
    ensures m.Some? ==> (m.value.redMask != 0 <==> numComponents >= 3)
  {
    if numComponents == 1 then Some(DirectColorModel(8, 0, 0, 0xFF, 0))
    else if numComponents == 2 then Some(DirectColorModel(16, 0, 0xFF00, 0xFF, 0))
    else if numComponents == 3 then Some(DirectColorModel(24, 0xFF0000, 0xFF00, 0xFF, 0))
    else if numComponents == 4 then Some(DirectColorModel(32, 0xFF0000, 0xFF00, 0xFF, Int32(0xFF00_0000)))
    else None
  }

  /** An image consumer, known by its identity. */
  class ImageConsumer {
    constructor ()
    {
    }
  }

  /** A call on an ImageConsumer, with its arguments. */
  datatype Event =
    | SetDimensions(width: int, height: int)
    | SetColorModel(model: Option<ColorModel>)
    | SetHints(hints: int)
    | SetPixels(x: int, y: int, w: int, h: int, model: Option<ColorModel>, pixels: seq<int>, off: int, scansize: int)
    | ImageComplete(status: int)

  datatype Call = Call(consumer: ImageConsumer?, event: Event)

  predicate NoDup<T(==)>(s: seq<T>)
  {
    forall i, j | 0 <= i < j < |s| :: s[i] != s[j]
  }

  predicate AllZero(s: seq<int>)
  {
    forall k | 0 <= k < |s| :: s[k] == 0
  }

  function Sum(s: seq<int>): int
  {
    if s == [] then 0 else s[0] + Sum(s[1..])
  }

  lemma {:induction false} SumSnoc(s: seq<int>, x: int)
    ensures Sum(s + [x]) == Sum(s) + x
  {
    if s != [] {
      assert (s + [x])[1..] == s[1..] + [x];
      SumSnoc(s[1..], x);
    }
  }

  lemma SumPrefixStep(s: seq<int>, i: nat)
    requires i < |s|
    ensures Sum(s[..i + 1]) == Sum(s[..i]) + s[i]
  {
    assert s[..i + 1] == s[..i] + [s[i]];
    SumSnoc(s[..i], s[i]);
  }

  /** With no negative entries, prefix sums only grow. */
  lemma {:induction false} SumPrefixGrows(s: seq<int>, i: nat, j: nat)
    requires i <= j <= |s| && forall k | 0 <= k < |s| :: s[k] >= 0
    ensures Sum(s[..i]) <= Sum(s[..j])
    decreases j - i
  {
    if i < j {
      SumPrefixStep(s, i);
      SumPrefixGrows(s, i + 1, j);
    }
  }

  // ---------------------------------------------------------------------
  // allocateBuffer: how the image is cut into chunks
  // ---------------------------------------------------------------------

  /** The memory limit after `attempts` requests ran out of memory: two thirds each time. */
  function Shrunk(attempts: nat): (limit: int)
    ensures 0 <= limit <= MEM_LIMIT
  {
    if attempts == 0 then MEM_LIMIT else Shrunk(attempts - 1) * 2 / 3
  }

  /** The rows the source puts in the next chunk, as written: as many whole rows as the limit holds. */
  function ChunkRowsAsWritten(width: int, rowsLeft: int, limit: int): int
    requires width >= 1
  {
    if width * rowsLeft > limit then limit / width else rowsLeft
  }

  /**
   * The rows of the next chunk: all that are left if they fit the limit,
   * else as many whole rows as fit, but never fewer than one.
   */
  function ChunkRows(width: int, rowsLeft: int, limit: int): (r: int)
    requires width >= 1 && rowsLeft >= 0 && limit >= 0
    ensures rowsLeft == 0 ==> r == 0
    ensures rowsLeft >= 1 ==> 1 <= r <= rowsLeft
  {
    if width * rowsLeft > limit then
      var q := limit / width;
      if q >= 1 then
        (if q > rowsLeft then MulLe(rowsLeft, q, width); q else q)
      else 1
    else rowsLeft
  }

  /** The chunk fits the limit unless it is one row wider than the limit, and takes every row left when they fit. */
  lemma ChunkRowsFit(width: int, rowsLeft: int, limit: int)
    requires width >= 1 && rowsLeft >= 0 && limit >= 0
    ensures var r := ChunkRows(width, rowsLeft, limit);
      (r * width <= limit || r == 1) && (width * rowsLeft <= limit ==> r == rowsLeft)
  {
    if width * rowsLeft > limit {
      var q := limit / width;
      assert q * width <= limit;
      if q > rowsLeft {
        MulLe(rowsLeft, q, width);
      }
    }
  }

  /** The rows of each chunk, in order, when the k-th chunk's first `failures(k)` requests run out of memory. */
  function Plan(width: int, rowsLeft: int, failures: nat -> nat, k: nat): (p: seq<int>)
    requires width >= 1 && rowsLeft >= 0
    decreases rowsLeft
  {
    var r := ChunkRows(width, rowsLeft, Shrunk(failures(k)));
    if rowsLeft - r > 0 then [r] + Plan(width, rowsLeft - r, failures, k + 1) else [r]
  }

  /**
   * The chunks hold all the rows, each chunk at least one row (none only
   * for an empty image), and each within the memory limit unless it is a
   * single row wider than the limit.
   */
  lemma {:induction false} PlanCoversImage(width: int, rowsLeft: int, failures: nat -> nat, k: nat)
    requires width >= 1 && rowsLeft >= 0
    ensures var p := Plan(width, rowsLeft, failures, k);
      |p| >= 1 && Sum(p) == rowsLeft
      && (forall i | 0 <= i < |p| :: p[i] >= 0 && (p[i] * width <= MEM_LIMIT || p[i] == 1))
      && (rowsLeft >= 1 ==> forall i | 0 <= i < |p| :: p[i] >= 1)
    decreases rowsLeft
  {
    var p := Plan(width, rowsLeft, failures, k);
    var r := ChunkRows(width, rowsLeft, Shrunk(failures(k)));
    ChunkRowsFit(width, rowsLeft, Shrunk(failures(k)));
    if rowsLeft - r > 0 {
      PlanCoversImage(width, rowsLeft - r, failures, k + 1);
      var rest := Plan(width, rowsLeft - r, failures, k + 1);
      assert p == [r] + rest && p[1..] == rest;
      forall i | 0 <= i < |p|
        ensures p[i] >= 0 && (p[i] * width <= MEM_LIMIT || p[i] == 1)
        ensures rowsLeft >= 1 ==> p[i] >= 1
      {
        if i > 0 {
          assert p[i] == rest[i - 1];
        }
      }
    } else {
      assert p == [r];
    }
  }

  /** An image of at most MEM_LIMIT ints, allocated on the first try, is one chunk. */
  lemma OneChunk(width: int, height: int, failures: nat -> nat)
    requires width >= 1 && height >= 0 && width * height <= MEM_LIMIT && failures(0) == 0
    ensures Plan(width, height, failures, 0) == [height]
  {
    assert Shrunk(failures(0)) == MEM_LIMIT;
    ChunkRowsFit(width, height, MEM_LIMIT);
  }

  /**
   * A row wider than the limit: the source's next chunk takes no rows, so
   * its allocation loop goes round with the same rows left for ever; the
   * corrected chunk takes the one row.
   */
  lemma WideRowNeverAllocated()
    ensures Shrunk(0) == MEM_LIMIT
    ensures ChunkRowsAsWritten(MEM_LIMIT + 1, 1, Shrunk(0)) == 0
    ensures ChunkRows(MEM_LIMIT + 1, 1, Shrunk(0)) == 1
  {
    assert MEM_LIMIT / (MEM_LIMIT + 1) == 0;
  }

  /**
   * The exception allocateBuffer ends with: a zero width divides by zero
   * when the rows of the (empty) chunk are counted, and a negative
   * `width * height` is the size of the first chunk requested.
   */
  function AllocationFailure(width: int, height: int): Option<Exception>
  {
    if width == 0 then Some(Arithmetic)
    else if width * height < 0 then Some(NegativeArraySize)
    else None
  }

  /**
   * The rows allocateBuffer records for its one chunk when the width is
   * negative and the height is not positive: the height, or when
   * `width * height` exceeds the limit, the limit over the width as Java's
   * `/` truncates it.
   */
  function NegativeWidthRows(width: int, height: int, limit: int): int
    requires width < 0 && height <= 0 && limit >= 0
  {
    if width * height > limit then -(limit / -width) else height
  }

  /**
   * With a negative width and a height that is not positive, the one chunk
   * leaves no rows over (`rowsLeft - rowsAllocated <= 0`), so the loop of
   * allocateBuffer ends after it; the chunk's size is not negative.
   */
  /** Java's `/` of a multiple of a negative width by that width gives back the multiple. */
  lemma NegatedDivision(r: int, width: int)
    requires width < 0
    ensures -((width * r) / -width) == r
  {
    assert width * r == (-r) * (-width);
    MulDiv(-r, -width);
  }

  lemma NegativeWidthOneChunk(width: int, height: int, limit: int)
    requires width < 0 && height <= 0 && limit >= 0
    ensures var r := NegativeWidthRows(width, height, limit);
      height <= r <= 0 && height - r <= 0 && width * r >= 0
  {
    var r := NegativeWidthRows(width, height, limit);
    if width * height > limit {
      var q := limit / -width;
      assert q * -width <= limit;
      assert (-height) * -width == width * height;
      if q >= -height {
        MulLe(-height, q, -width);
        assert false;
      }
    }
    MulLe(0, -r, -width);
  }

  // ---------------------------------------------------------------------
  // setImageRow: finding the chunk of a row
  // ---------------------------------------------------------------------

  /** The chunk holding `row`, as the search loop finds it: the first whose rows reach past it. */
  function Locate(rows: seq<int>, row: int): (c: Option<nat>)
    ensures c.Some? ==> c.value < |rows| && Sum(rows[..c.value]) <= row < Sum(rows[..c.value]) + rows[c.value]
  {
    if rows == [] then None
    else if 0 <= row < rows[0] then Some(0)
    else match Locate(rows[1..], row - rows[0])
      case None => None
      case Some(i) =>
        assert rows[..i + 1] == [rows[0]] + rows[1..][..i];
        assert Sum(rows[..i + 1]) == rows[0] + Sum(rows[1..][..i]);
        Some(i + 1)
  }

  /** Every row of the image is in some chunk. */
  lemma {:induction false} RowFound(rows: seq<int>, row: int)
    requires 0 <= row < Sum(rows)
    ensures Locate(rows, row).Some?
  {
    if !(row < rows[0]) {
      RowFound(rows[1..], row - rows[0]);
    }
  }

  /** The row just past the image is in no chunk, so the search runs off the chunk array. */
  lemma {:induction false} PastEndNotFound(rows: seq<int>, row: int)
    requires row >= Sum(rows) && forall k | 0 <= k < |rows| :: rows[k] >= 0
    ensures Locate(rows, row).None?
  {
    if rows != [] {
      assert forall k | 0 <= k < |rows[1..]| :: rows[1..][k] == rows[k + 1];
      assert rows[0] >= 0;
      SumNonNegative(rows[1..]);
      PastEndNotFound(rows[1..], row - rows[0]);
    }
  }

  /** setImageRow's checks, in order, on a row, the length of its data (None for null) and the image's size. */
  function RowRejection(row: int, dataLength: Option<int>, width: int, height: int): Option<Exception>
  {
    if row < 0 || row >= height then Some(IllegalArgument(INVALID_ROW + DecimalString(row)))
    else if dataLength.None? then Some(NullPointer(NO_MESSAGE))
    else if dataLength.value < width then Some(IllegalArgument(NOT_ENOUGH_DATA))
    else None
  }

  /**
   * setImageRow as written: its row check lets `row == height` through, and
   * a row no chunk holds then ends the search with an index past the chunk
   * array.
   */
  function RowRejectionAsWritten(row: int, dataLength: Option<int>, width: int, height: int, rows: seq<int>): Option<Exception>
  {
    if row < 0 || row > height then Some(IllegalArgument(INVALID_ROW + DecimalString(row)))
    else if dataLength.None? then Some(NullPointer(NO_MESSAGE))
    else if dataLength.value < width then Some(IllegalArgument(NOT_ENOUGH_DATA))
    else if Locate(rows, row).None? then Some(ArrayIndexOutOfBounds)
    else None
  }

  /**
   * For chunks holding the whole image, the row `height` passes the check as
   * written and fails with ArrayIndexOutOfBoundsException; the corrected
   * check refuses it as an invalid row.
   */
  lemma RowAtHeightOverruns(rows: seq<int>, dataLength: int, width: int)
    requires forall k | 0 <= k < |rows| :: rows[k] >= 0
    requires dataLength >= width
    ensures RowRejectionAsWritten(Sum(rows), Some(dataLength), width, Sum(rows), rows) == Some(ArrayIndexOutOfBounds)
    ensures RowRejection(Sum(rows), Some(dataLength), width, Sum(rows)).Some?
    ensures RowRejection(Sum(rows), Some(dataLength), width, Sum(rows)).value.IllegalArgument?
  {
    PastEndNotFound(rows, Sum(rows));
    SumNonNegative(rows);
  }

  /** On every other row the check as written and the corrected check agree. */
  lemma RowCheckAgrees(rows: seq<int>, row: int, dataLength: Option<int>, width: int)
    requires row != Sum(rows)
    ensures RowRejectionAsWritten(row, dataLength, width, Sum(rows), rows) == RowRejection(row, dataLength, width, Sum(rows))
  {
    if 0 <= row < Sum(rows) {
      RowFound(rows, row);
    }
  }

  lemma {:induction false} SumNonNegative(s: seq<int>)
    requires forall k | 0 <= k < |s| :: s[k] >= 0
    ensures Sum(s) >= 0
  {
    if s != [] {
      assert forall k | 0 <= k < |s[1..]| :: s[1..][k] == s[k + 1];
      SumNonNegative(s[1..]);
    }
  }

  /** Chunks of whole rows join into the image: `rows` rows of `width` ints each. */
  lemma {:induction false} JoinedLength(chunks: seq<seq<int>>, rows: seq<int>, width: int)
    requires |chunks| == |rows| && forall i | 0 <= i < |rows| :: |chunks[i]| == rows[i] * width
    ensures |Concat(chunks)| == Sum(rows) * width
  {
    if chunks != [] {
      JoinedLength(chunks[1..], rows[1..], width);
      assert (rows[0] + Sum(rows[1..])) * width == rows[0] * width + Sum(rows[1..]) * width;
    }
  }

  // ---------------------------------------------------------------------
  // The consumer list
  // ---------------------------------------------------------------------

  /** The list without the first occurrence of `x`; the list itself when `x` is not in it. */
  function Removed<T(==)>(s: seq<T>, x: T): seq<T>
  {
    if s == [] then []
    else if s[0] == x then s[1..]
    else [s[0]] + Removed(s[1..], x)
  }

  /** Removing from a list without repeats drops `x` and keeps every other entry, in order and still without repeats. */
  lemma {:induction false} RemovedKeepsOthers<T>(s: seq<T>, x: T)
    requires NoDup(s)
    ensures x !in Removed(s, x) && NoDup(Removed(s, x))
    ensures forall y :: y != x ==> (y in Removed(s, x) <==> y in s)
    ensures |Removed(s, x)| == if x in s then |s| - 1 else |s|
  {
    if s != [] {
      assert NoDup(s[1..]) by {
        forall i, j | 0 <= i < j < |s[1..]| ensures s[1..][i] != s[1..][j] {
          assert s[1..][i] == s[i + 1] && s[1..][j] == s[j + 1];
        }
      }
      if s[0] == x {
        assert x !in s[1..] by {
          forall i | 0 <= i < |s[1..]| ensures s[1..][i] != x {
            assert s[1..][i] == s[i + 1];
          }
        }
        assert s == [s[0]] + s[1..];
      } else {
        RemovedKeepsOthers(s[1..], x);
        var r := Removed(s[1..], x);
        assert s[0] !in s[1..] by {
          forall i | 0 <= i < |s[1..]| ensures s[1..][i] != s[0] {
            assert s[1..][i] == s[i + 1];
          }
        }
        assert s[0] !in r;
        assert s == [s[0]] + s[1..];
        assert NoDup([s[0]] + r) by {
          forall i, j | 0 <= i < j < |[s[0]] + r| ensures ([s[0]] + r)[i] != ([s[0]] + r)[j] {
            if i == 0 {
              assert ([s[0]] + r)[j] == r[j - 1];
            } else {
              assert ([s[0]] + r)[i] == r[i - 1] && ([s[0]] + r)[j] == r[j - 1];
            }
          }
        }
      }
    }
  }

  /** Removing what was just added gives back the list it was added to. */
  lemma {:induction false} RemoveUndoesAdd<T>(s: seq<T>, x: T)
    requires x !in s
    ensures Removed(s + [x], x) == s
  {
    if s != [] {
      assert (s + [x])[1..] == s[1..] + [x];
      RemoveUndoesAdd(s[1..], x);
      assert s == [s[0]] + s[1..];
    }
  }

  /** The removal `Removed` describes: the entries before `x`, then those after it. */
  lemma {:induction false} RemovedAt<T>(s: seq<T>, x: T, i: nat)
    requires i < |s| && s[i] == x && x !in s[..i]
    ensures Removed(s, x) == s[..i] + s[i + 1..]
  {
    if i > 0 {
      assert s[1..][..i - 1] == s[..i][1..];
      RemovedAt(s[1..], x, i - 1);
      assert s[..i] == [s[0]] + s[1..][..i - 1];
    }
  }

  lemma {:induction false} RemovedAbsent<T>(s: seq<T>, x: T)
    requires x !in s
    ensures Removed(s, x) == s
  {
    if s != [] {
      RemovedAbsent(s[1..], x);
      assert s == [s[0]] + s[1..];
    }
  }

  /** The index of the first `x` in `s`, or `|s|` when there is none, as removeConsumer's search leaves it. */
  function IndexOf<T(==)>(s: seq<T>, x: T): (i: nat)
    ensures i <= |s| && x !in s[..i] && (i < |s| ==> s[i] == x)
  {
    if s == [] then 0
    else if s[0] == x then 0
    else
      var j := IndexOf(s[1..], x);
      assert s[..j + 1] == [s[0]] + s[1..][..j];
      j + 1
  }

  /**
   * removeConsumer as written: the consumers it leaves registered, or None
   * when the count drops below zero. Its shift copies `consumers[i + 1]`
   * over `consumers[i]` again and again instead of moving each entry down,
   * and it decrements the count even when the consumer was not found.
   */
  function RemovedAsWritten<T(==)>(s: seq<T>, x: T): Option<seq<T>>
  {
    var i := IndexOf(s, x);
    if s == [] then None
    else if i < |s| - 1 then Some(s[..i] + [s[i + 1]] + s[i + 1..|s| - 1])
    else Some(s[..|s| - 1])
  }

  /**
   * Removing the first of three consumers leaves the second one twice and
   * loses the third; removing one that is not registered drops the last
   * one; removing from none leaves a count of -1.
   */
  lemma RemoveShiftDefect()
    ensures RemovedAsWritten([1, 2, 3], 1) == Some([2, 2]) && Removed([1, 2, 3], 1) == [2, 3]
    ensures RemovedAsWritten([1, 2], 3) == Some([1]) && Removed([1, 2], 3) == [1, 2]
    ensures RemovedAsWritten([], 1) == None && Removed([], 1) == []
  {
    assert IndexOf([1, 2, 3], 1) == 0;
    assert [1, 2, 3][1..] == [2, 3];
    assert [1, 2, 3][..0] + [[1, 2, 3][1]] + [1, 2, 3][1..2] == [2, 2];
    assert [1, 2][1..] == [2] && [2][1..] == [];
    assert IndexOf([2], 3) == 1;
    assert IndexOf([1, 2], 3) == 2;
    assert [1, 2][..1] == [1];
    assert Removed([2], 3) == [2];
    assert Removed([1, 2], 3) == [1] + Removed([2], 3);
  }

  // ---------------------------------------------------------------------
  // startProduction: what the consumers are sent
  // ---------------------------------------------------------------------

  /** The same call made on each consumer in turn. */
  function Each(cs: seq<ImageConsumer?>, e: Event): (calls: seq<Call>)
    ensures |calls| == |cs| && forall i | 0 <= i < |cs| :: calls[i] == Call(cs[i], e)
  {
    seq(|cs|, i requires 0 <= i < |cs| => Call(cs[i], e))
  }

  /** The first `n` chunks sent to each consumer, chunk `i` at the row where it starts, `Sum(rows[..i])`. */
  function Runs(cs: seq<ImageConsumer?>, width: int, model: Option<ColorModel>, chunks: seq<seq<int>>, rows: seq<int>, n: nat): seq<Call>
    requires n <= |rows| == |chunks|
  {
    if n == 0 then []
    else Runs(cs, width, model, chunks, rows, n - 1)
         + Each(cs, SetPixels(0, Sum(rows[..n - 1]), width, rows[n - 1], model, chunks[n - 1], 0, width))
  }

  /**
   * The calls a production run makes on the consumers `cs`, in order: the
   * dimensions, the colour model and the hints to each, then each chunk to
   * each, then the completion status to each.
   */
  function Production(cs: seq<ImageConsumer?>, hints: int, width: int, height: int, model: Option<ColorModel>, chunks: seq<seq<int>>, rows: seq<int>): seq<Call>
    requires |rows| == |chunks|
  {
    Each(cs, SetDimensions(width, height)) + Each(cs, SetColorModel(model)) + Each(cs, SetHints(hints))
    + Runs(cs, width, model, chunks, rows, |rows|) + Each(cs, ImageComplete(SINGLEFRAMEDONE))
  }

  /** The pixels a consumer is sent, in the order the calls send them. */
  function PixelsFor(calls: seq<Call>, c: ImageConsumer?): seq<int>
  {
    if calls == [] then []
    else
      var last := calls[|calls| - 1];
      PixelsFor(calls[..|calls| - 1], c) + (if last.consumer == c && last.event.SetPixels? then last.event.pixels else [])
  }

  lemma {:induction false} PixelsForAppend(a: seq<Call>, b: seq<Call>, c: ImageConsumer?)
    ensures PixelsFor(a + b, c) == PixelsFor(a, c) + PixelsFor(b, c)
    decreases |b|
  {
    if b != [] {
      var n := |b| - 1;
      assert (a + b)[..|a + b| - 1] == a + b[..n];
      assert (a + b)[|a + b| - 1] == b[n];
      PixelsForAppend(a, b[..n], c);
    } else {
      assert a + b == a;
    }
  }

  /** A call made on each consumer of a list without repeats sends its pixels to each of them once. */
  lemma {:induction false} PixelsForEach(cs: seq<ImageConsumer?>, e: Event, c: ImageConsumer?)
    requires NoDup(cs)
    ensures PixelsFor(Each(cs, e), c) == if c in cs && e.SetPixels? then e.pixels else []
    decreases |cs|
  {
    if cs != [] {
      var n := |cs| - 1;
      var init := cs[..n];
      EachSnoc(cs, e);
      PixelsForSnoc(Each(init, e), Call(cs[n], e), c);
      NoDupInit(cs);
      PixelsForEach(init, e, c);
      assert cs == init + [cs[n]];
    }
  }

  /** The calls on a list are the calls on all but its last consumer, then the call on the last. */
  lemma EachSnoc(cs: seq<ImageConsumer?>, e: Event)
    requires cs != []
    ensures Each(cs, e) == Each(cs[..|cs| - 1], e) + [Call(cs[|cs| - 1], e)]
  {
    assert Each(cs, e)[..|cs| - 1] == Each(cs[..|cs| - 1], e);
  }

  /** One more call adds its pixels when it is a SetPixels call on `c`. */
  lemma PixelsForSnoc(calls: seq<Call>, x: Call, c: ImageConsumer?)
    ensures PixelsFor(calls + [x], c) == PixelsFor(calls, c) + (if x.consumer == c && x.event.SetPixels? then x.event.pixels else [])
  {
    assert (calls + [x])[..|calls|] == calls;
  }

  /** A list without repeats: so is its prefix, and its last element is not in that prefix. */
  lemma NoDupInit<T>(s: seq<T>)
    requires s != [] && NoDup(s)
    ensures NoDup(s[..|s| - 1]) && s[|s| - 1] !in s[..|s| - 1]
  {
  }

  /** A call made on each consumer after `before` adds its pixels, once, for a consumer in the list. */
  lemma PixelsForThenEach(before: seq<Call>, cs: seq<ImageConsumer?>, e: Event, c: ImageConsumer?)
    requires NoDup(cs)
    ensures PixelsFor(before + Each(cs, e), c) == PixelsFor(before, c) + (if c in cs && e.SetPixels? then e.pixels else [])
  {
    PixelsForAppend(before, Each(cs, e), c);
    PixelsForEach(cs, e, c);
  }

  /** Each consumer is sent the first `n` chunks, in order, and no one else is sent any. */
  lemma {:induction false} PixelsForRuns(cs: seq<ImageConsumer?>, width: int, model: Option<ColorModel>, chunks: seq<seq<int>>, rows: seq<int>, n: nat, c: ImageConsumer?)
    requires NoDup(cs) && n <= |rows| == |chunks|
    ensures PixelsFor(Runs(cs, width, model, chunks, rows, n), c) == if c in cs then Concat(chunks[..n]) else []
  {
    if n > 0 {
      var e := SetPixels(0, Sum(rows[..n - 1]), width, rows[n - 1], model, chunks[n - 1], 0, width);
      var before := Runs(cs, width, model, chunks, rows, n - 1);
      assert Runs(cs, width, model, chunks, rows, n) == before + Each(cs, e);
      PixelsForRuns(cs, width, model, chunks, rows, n - 1, c);
      PixelsForThenEach(before, cs, e, c);
      if c in cs {
        assert chunks[..n] == chunks[..n - 1] + [chunks[n - 1]];
        ConcatSnoc(chunks[..n - 1], chunks[n - 1]);
      }
    }
  }

  /** The dimensions, the colour model and the hints, sent to each consumer, carry no pixels. */
  lemma PreludeSendsNoPixels(cs: seq<ImageConsumer?>, hints: int, width: int, height: int, model: Option<ColorModel>, c: ImageConsumer?)
    requires NoDup(cs)
    ensures PixelsFor(Each(cs, SetDimensions(width, height)) + Each(cs, SetColorModel(model)) + Each(cs, SetHints(hints)), c) == []
  {
    var a := Each(cs, SetDimensions(width, height));
    var b := Each(cs, SetColorModel(model));
    var h := Each(cs, SetHints(hints));
    PixelsForEach(cs, SetDimensions(width, height), c);
    PixelsForEach(cs, SetColorModel(model), c);
    PixelsForAppend(a, b, c);
    PixelsForEach(cs, SetHints(hints), c);
    PixelsForAppend(a + b, h, c);
  }

  /** A production run sends every consumer the whole image, chunk after chunk, and no one else any of it. */
  lemma ProductionDeliversImage(cs: seq<ImageConsumer?>, hints: int, width: int, height: int, model: Option<ColorModel>, chunks: seq<seq<int>>, rows: seq<int>, c: ImageConsumer?)
    requires NoDup(cs) && |rows| == |chunks|
    ensures PixelsFor(Production(cs, hints, width, height, model, chunks, rows), c) == if c in cs then Concat(chunks) else []
  {
    var p := Each(cs, SetDimensions(width, height)) + Each(cs, SetColorModel(model)) + Each(cs, SetHints(hints));
    var r := Runs(cs, width, model, chunks, rows, |rows|);
    var z := Each(cs, ImageComplete(SINGLEFRAMEDONE));
    assert Production(cs, hints, width, height, model, chunks, rows) == p + r + z;
    PreludeSendsNoPixels(cs, hints, width, height, model, c);
    PixelsForEach(cs, ImageComplete(SINGLEFRAMEDONE), c);
    PixelsForBetween(p, r, z, c);
    PixelsForRuns(cs, width, model, chunks, rows, |rows|, c);
    assert chunks[..|rows|] == chunks;
  }

  /** Calls around `r` that send `c` no pixels leave `c` exactly the pixels of `r`. */
  lemma PixelsForBetween(p: seq<Call>, r: seq<Call>, z: seq<Call>, c: ImageConsumer?)
    requires PixelsFor(p, c) == [] && PixelsFor(z, c) == []
    ensures PixelsFor(p + r + z, c) == PixelsFor(r, c)
  {
    PixelsForAppend(p, r, c);
    PixelsForAppend(p + r, z, c);
  }

  // ---------------------------------------------------------------------
  // The class
  // ---------------------------------------------------------------------

  class ImageBuffer {
    const width: int
    const height: int
    const colorModel: Option<ColorModel>
    var consumers: array<ImageConsumer?>
    var count: int
    /** The chunks, each `rowsForChunk[i]` whole rows. */
    var data: seq<array<int>>
    var rowsForChunk: seq<int>

    /**
     * The registered consumers are the first `count` entries, none null and
     * none twice, with room for one more; the chunks are distinct arrays of
     * whole rows that together hold the image's `height` rows.
     */
    predicate Valid()
      reads this, consumers
    {
      width >= 1 && height >= 0 && IsInt(width * height)
      && 0 <= count < consumers.Length
      && null !in consumers[..count] && NoDup(consumers[..count])
      && |data| == |rowsForChunk| >= 1 && Sum(rowsForChunk) == height
      && ChunksOf(data, rowsForChunk, width)
    }

    /** The registered consumers, in the order they were added. */
    function Consumers(): seq<ImageConsumer?>
      reads this, consumers
      requires 0 <= count <= consumers.Length
    {
      consumers[..count]
    }

    /** The contents of the chunks. */
    function Chunks(): (cs: seq<seq<int>>)
      reads this, data
      ensures |cs| == |data| && forall i | 0 <= i < |data| :: cs[i] == data[i][..]
    {
      seq(|data|, i requires 0 <= i < |data| reads this, data => data[i][..])
    }

    /** The image, row after row. */
    function Pixels(): seq<int>
      reads this, data
    {
      Concat(Chunks())
    }

    /**
     * The constructor's own statements: the colour model for the number of
     * components, the dimensions, and room for MAX_CONSUMERS consumers.  Its
     * last statement, allocateBuffer, is `NewImageBuffer`'s second step.
     */
    constructor (width: int, height: int, numComponents: int)
      ensures this.width == width && this.height == height && colorModel == DefaultColorModel(numComponents)
      ensures fresh(consumers) && consumers.Length == MAX_CONSUMERS && count == 0 && Consumers() == []
      ensures data == [] && rowsForChunk == []
    {
      this.width := width;
      this.height := height;
      colorModel := DefaultColorModel(numComponents);
      consumers := new ImageConsumer?[MAX_CONSUMERS](_ => null);
      count := 0;
      data := [];
      rowsForChunk := [];
    }

    /**
     * allocateBuffer: chunk after chunk, each as many whole rows as the
     * memory limit allows, the limit cut to two thirds after each request
     * that runs out of memory; then the rows of each chunk from its length.
     * A zero width divides by zero in that last step, and a negative
     * `width * height` is a negative array size in the first request.
     */
    method AllocateBuffer(failures: nat -> nat) returns (e: Option<Exception>)
      requires IsInt(width * height)
      modifies this
      ensures consumers == old(consumers) && count == old(count)
      ensures e == AllocationFailure(width, height)
      ensures width >= 1 && height >= 0 ==>
                && rowsForChunk == Plan(width, height, failures, 0) && ChunksOf(data, rowsForChunk, width)
                && forall i | 0 <= i < |data| :: fresh(data[i]) && AllZero(data[i][..])
      ensures width < 0 && height <= 0 ==>
                && rowsForChunk == [NegativeWidthRows(width, height, Shrunk(failures(0)))] && |data| == 1
                && fresh(data[0]) && data[0].Length == width * rowsForChunk[0] && AllZero(data[0][..])
    {
      if width == 0 {
        // one empty chunk, then `data[i].length / width` throws
        return Some(Arithmetic);
      }
      if width * height < 0 {
        // the first request is `new int[memNeeded]` with `memNeeded` negative
        return Some(NegativeArraySize);
      }
      if width < 0 {
        var chunk, rows := NegativeWidthChunk(width, height, failures(0));
        data := [chunk];
        rowsForChunk := [rows];
        return None;
      }
      var chunks, rows := AllocateChunks(width, height, failures);
      data := chunks;
      rowsForChunk := RowCounts(chunks, rows, width);
      return None;
    }

    /**
     * The only chunk allocateBuffer makes when the width is negative and the
     * height is not positive: `memNeeded` is not negative, and the rows the
     * chunk takes leave none over, so the loop stops after it.
     */
    static method NegativeWidthChunk(width: int, height: int, failures: nat) returns (chunk: array<int>, rows: int)
      requires width < 0 && height <= 0 && IsInt(width * height)
      ensures rows == NegativeWidthRows(width, height, Shrunk(failures))
      ensures fresh(chunk) && chunk.Length == width * rows && AllZero(chunk[..])
    {
      var memNeeded := width * height;
      var memoryLimit := MEM_LIMIT;
      var attempt: nat := 0;
      while attempt < failures
        invariant attempt <= failures && memoryLimit == Shrunk(attempt)
      {
        // this request runs out of memory
        memoryLimit := memoryLimit * 2 / 3;
        attempt := attempt + 1;
      }
      ghost var r := NegativeWidthRows(width, height, memoryLimit);
      NegativeWidthOneChunk(width, height, memoryLimit);
      if memNeeded > memoryLimit {
        // Java's `/` truncates toward zero
        var rowsAllocated := -(memoryLimit / -width);
        assert rowsAllocated == r;
        chunk := new int[rowsAllocated * width](_ => 0);
      } else {
        assert height == r;
        chunk := new int[memNeeded](_ => 0);
      }
      assert chunk.Length == width * r;
      NegatedDivision(r, width);
      // `data[0].length / width`, truncated toward zero
      rows := -(chunk.Length / -width);
    }

    /** The allocation loop of allocateBuffer: the chunks, and (as a ghost) the rows each holds. */
    static method AllocateChunks(width: int, height: int, failures: nat -> nat) returns (chunks: seq<array<int>>, ghost rows: seq<int>)
      requires width >= 1 && height >= 0 && IsInt(width * height)
      ensures rows == Plan(width, height, failures, 0) && ChunksOf(chunks, rows, width)
      ensures forall i | 0 <= i < |chunks| :: fresh(chunks[i]) && AllZero(chunks[i][..])
    {
      chunks := [];
      rows := [];
      var rowsLeft := height;
      var numChunks: nat := 0;
      var done := false;
      ghost var whole := Plan(width, height, failures, 0);
      assert rows + whole == whole;
      while !done
        invariant 0 <= rowsLeft <= height && (done ==> rowsLeft == 0)
        invariant |rows| == numChunks
        invariant done ==> rows == whole
        invariant !done ==> rows + Plan(width, rowsLeft, failures, numChunks) == whole
        invariant ChunksOf(chunks, rows, width)
        invariant forall i | 0 <= i < |chunks| :: fresh(chunks[i]) && AllZero(chunks[i][..])
        decreases rowsLeft, !done
      {
        var chunk, rowsAllocated := NextChunk(width, height, failures, chunks, rows, rowsLeft, numChunks, whole);
        chunks := chunks + [chunk];
        rows := rows + [rowsAllocated];
        numChunks := numChunks + 1;
        rowsLeft := rowsLeft - rowsAllocated;
        done := rowsLeft <= 0;
      }
    }

    /**
     * One turn of the allocation loop: the next chunk, fresh and zeroed,
     * joins the others, and the rows allocated so far together with the
     * plan for the rows left still make up the whole plan.
     */
    static method NextChunk(width: int, height: int, failures: nat -> nat, chunks: seq<array<int>>, ghost rows: seq<int>,
                            rowsLeft: int, numChunks: nat, ghost whole: seq<int>)
        returns (chunk: array<int>, rowsAllocated: int)
      requires width >= 1 && IsInt(width * height) && 0 <= rowsLeft <= height
      requires rows + Plan(width, rowsLeft, failures, numChunks) == whole && ChunksOf(chunks, rows, width)
      ensures fresh(chunk) && AllZero(chunk[..]) && ChunksOf(chunks + [chunk], rows + [rowsAllocated], width)
      ensures 0 <= rowsAllocated <= rowsLeft && (rowsLeft >= 1 ==> rowsAllocated >= 1)
      ensures rowsLeft - rowsAllocated > 0 ==>
                (rows + [rowsAllocated]) + Plan(width, rowsLeft - rowsAllocated, failures, numChunks + 1) == whole
      ensures rowsLeft - rowsAllocated <= 0 ==> rows + [rowsAllocated] == whole
    {
      MulLe(rowsLeft, height, width);
      chunk, rowsAllocated := AllocateChunk(width, rowsLeft, failures(numChunks));
      PlanAdvance(rows, whole, width, rowsLeft, failures, numChunks, rowsAllocated);
      assert chunk !in chunks;
      ChunksOfSnoc(chunks, rows, width, chunk, rowsAllocated);
    }

    /** The end of allocateBuffer: the rows of each chunk, its length divided by the width. */
    static method RowCounts(chunks: seq<array<int>>, ghost rows: seq<int>, width: int) returns (perChunk: seq<int>)
      requires width >= 1 && ChunksOf(chunks, rows, width)
      ensures perChunk == rows
    {
      perChunk := [];
      for i := 0 to |chunks|
        invariant perChunk == rows[..i]
      {
        MulDiv(rows[i], width);
        perChunk := perChunk + [chunks[i].Length / width];
      }
      assert rows[..|chunks|] == rows;
    }

    /**
     * One chunk of allocateBuffer: the request is retried with two thirds of
     * the limit as long as it runs out of memory, which the first `failures`
     * requests do.
     */
    static method AllocateChunk(width: int, rowsLeft: int, failures: nat) returns (chunk: array<int>, rowsAllocated: int)
      requires width >= 1 && rowsLeft >= 0 && IsInt(width * rowsLeft)
      ensures rowsAllocated == ChunkRows(width, rowsLeft, Shrunk(failures))
      ensures fresh(chunk) && chunk.Length == rowsAllocated * width && AllZero(chunk[..])
    {
      var memNeeded := width * rowsLeft;
      var memoryLimit := MEM_LIMIT;
      var attempt: nat := 0;
      while attempt < failures
        invariant attempt <= failures && memoryLimit == Shrunk(attempt)
      {
        // this request runs out of memory
        memoryLimit := memoryLimit * 2 / 3;
        attempt := attempt + 1;
      }
      chunk, rowsAllocated := TryAllocate(width, rowsLeft, memNeeded, memoryLimit);
    }

    /** The request that succeeds: whole rows within the limit, at least one. */
    static method TryAllocate(width: int, rowsLeft: int, memNeeded: int, memoryLimit: int) returns (chunk: array<int>, rowsAllocated: int)
      requires width >= 1 && rowsLeft >= 0 && memNeeded == width * rowsLeft && memoryLimit >= 0
      ensures rowsAllocated == ChunkRows(width, rowsLeft, memoryLimit)
      ensures fresh(chunk) && chunk.Length == rowsAllocated * width && AllZero(chunk[..])
    {
      if memNeeded > memoryLimit {
        rowsAllocated := if memoryLimit / width >= 1 then memoryLimit / width else 1;
        chunk := new int[rowsAllocated * width](_ => 0);
      } else {
        rowsAllocated := rowsLeft;
        assert memNeeded == rowsAllocated * width;
        chunk := new int[memNeeded](_ => 0);
      }
    }

    /** isConsumer: whether `ic` is registered. */
    method IsConsumer(ic: ImageConsumer?) returns (b: bool)
      requires Valid()
      ensures b <==> ic in Consumers()
    {
      for i := 0 to count
        invariant ic !in consumers[..i]
      {
        if consumers[i] == ic {
          return true;
        }
        assert consumers[..i + 1] == consumers[..i] + [consumers[i]];
      }
      assert consumers[..count] == Consumers();
      return false;
    }

    /**
     * addConsumer: `ic` joins the end of the list unless it is there already;
     * a full array is first replaced by one MAX_CONSUMERS longer holding the
     * same consumers.
     */
    method AddConsumer(ic: ImageConsumer)
      requires Valid()
      modifies this, consumers
      ensures Valid() && data == old(data) && rowsForChunk == old(rowsForChunk)
      ensures Consumers() == if ic in old(Consumers()) then old(Consumers()) else old(Consumers()) + [ic]
    {
      var present := IsConsumer(ic);
      if present {
        return;
      }
      ghost var before := Consumers();
      if count >= consumers.Length - 1 {
        var tmp := Grown(consumers, count);
        consumers := tmp;
      }
      consumers[count] := ic;
      count := count + 1;
      assert Consumers() == before + [ic];
    }

    /** The new consumer array of addConsumer: MAX_CONSUMERS more places, the first `n` copied. */
    static method Grown(a: array<ImageConsumer?>, n: int) returns (b: array<ImageConsumer?>)
      requires 0 <= n <= a.Length
      ensures fresh(b) && b.Length == n + MAX_CONSUMERS && b[..n] == a[..n]
    {
      b := new ImageConsumer?[n + MAX_CONSUMERS](_ => null);
      for i := 0 to n
        invariant b[..i] == a[..i]
      {
        b[i] := a[i];
      }
    }

    /**
     * removeConsumer: `ic` leaves the list and the consumers after it move
     * down one place, the place they leave emptied; removing one that is not
     * registered changes nothing.
     */
    method RemoveConsumer(ic: ImageConsumer)
      requires Valid()
      modifies this, consumers
      ensures Valid() && data == old(data) && rowsForChunk == old(rowsForChunk) && consumers == old(consumers)
      ensures Consumers() == Removed(old(Consumers()), ic)
    {
      ghost var s := Consumers();
      var i := FindConsumer(ic);
      if i == count {
        assert s[..i] == s;
        RemovedAbsent(s, ic);
        return;
      }
      RemovedAt(s, ic, i);
      ShiftDown(i);
      consumers[count - 1] := null;
      count := count - 1;
      assert Consumers() == s[..i] + s[i + 1..];
      RemovedKeepsOthers(s, ic);
    }

    /** removeConsumer's search: the place of `ic`, or `count` when it is not registered. */
    method FindConsumer(ic: ImageConsumer) returns (i: int)
      requires Valid()
      ensures 0 <= i <= count && ic !in Consumers()[..i] && (i < count ==> consumers[i] == ic)
    {
      i := 0;
      while i < count && consumers[i] != ic
        invariant 0 <= i <= count && ic !in consumers[..i]
      {
        assert consumers[..i + 1] == consumers[..i] + [consumers[i]];
        i := i + 1;
      }
    }

    /** removeConsumer's shift: each consumer after place `i` moves down one place. */
    method ShiftDown(i: int)
      requires 0 <= i < count <= consumers.Length
      modifies consumers
      ensures consumers[..count - 1] == old(consumers[..i]) + old(consumers[i + 1..count])
      ensures consumers[count - 1..] == old(consumers[count - 1..])
    {
      ghost var s := consumers[..];
      for j := i to count - 1
        invariant consumers[..j] == s[..i] + s[i + 1..j + 1]
        invariant consumers[j..] == s[j..]
      {
        consumers[j] := consumers[j + 1];
        assert consumers[..j + 1] == consumers[..j] + [s[j + 1]];
        assert s[i + 1..j + 2] == s[i + 1..j + 1] + [s[j + 1]];
      }
    }

    /** The same call made on each consumer of `cs` in turn. */
    static method Broadcast(cs: seq<ImageConsumer?>, e: Event) returns (sent: seq<Call>)
      ensures sent == Each(cs, e)
    {
      sent := [];
      for i := 0 to |cs|
        invariant sent == Each(cs[..i], e)
      {
        sent := sent + [Call(cs[i], e)];
      }
      assert cs[..|cs|] == cs;
    }

    /**
     * A production run to the consumers `cs`: the dimensions, the colour
     * model and `hints` to each, then the chunks in order, each to each,
     * then the completion status.
     */
    method Deliver(cs: seq<ImageConsumer?>, hints: int) returns (calls: seq<Call>)
      requires Valid()
      ensures calls == Production(cs, hints, width, height, colorModel, Chunks(), rowsForChunk)
    {
      var dims := Broadcast(cs, SetDimensions(width, height));
      var model := Broadcast(cs, SetColorModel(colorModel));
      var hinted := Broadcast(cs, SetHints(hints));
      var pixels := SendChunks(cs);
      var complete := Broadcast(cs, ImageComplete(SINGLEFRAMEDONE));
      calls := dims + model + hinted + pixels + complete;
    }

    /** The chunks in order, each to each consumer of `cs`, at the row where it starts. */
    method SendChunks(cs: seq<ImageConsumer?>) returns (calls: seq<Call>)
      requires |data| == |rowsForChunk|
      ensures calls == Runs(cs, width, colorModel, Chunks(), rowsForChunk, |rowsForChunk|)
    {
      calls := [];
      var thisRow := 0;
      for i := 0 to |rowsForChunk|
        invariant calls == Runs(cs, width, colorModel, Chunks(), rowsForChunk, i)
        invariant thisRow == Sum(rowsForChunk[..i])
      {
        var sent := Broadcast(cs, SetPixels(0, thisRow, width, rowsForChunk[i], colorModel, data[i][..], 0, width));
        calls := calls + sent;
        SumPrefixStep(rowsForChunk, i);
        thisRow := thisRow + rowsForChunk[i];
      }
    }

    /**
     * startProduction: `ic` is added, then every registered consumer is sent
     * the image with the single-frame hint.
     */
    method StartProduction(ic: ImageConsumer) returns (calls: seq<Call>)
      requires Valid()
      modifies this, consumers
      ensures Valid() && data == old(data) && rowsForChunk == old(rowsForChunk)
      ensures Consumers() == if ic in old(Consumers()) then old(Consumers()) else old(Consumers()) + [ic]
      ensures calls == Production(Consumers(), SINGLEFRAME, width, height, colorModel, Chunks(), rowsForChunk)
    {
      AddConsumer(ic);
      calls := Deliver(Consumers(), SINGLEFRAME);
    }

    /** requestTopDownLeftRightResend: `ic` alone is sent the image with the top-down-left-right hint. */
    method RequestTopDownLeftRightResend(ic: ImageConsumer) returns (calls: seq<Call>)
      requires Valid()
      ensures calls == Production([ic], TOPDOWNLEFTRIGHT, width, height, colorModel, Chunks(), rowsForChunk)
    {
      calls := Deliver([ic], TOPDOWNLEFTRIGHT);
    }

    /**
     * setImageRow: the first `width` ints of `rowData` become row `row` of
     * the image, every other row staying as it was; an invalid row, a null
     * array or one shorter than a row is refused.
     */
    method SetImageRow(row: int, rowData: array?<int>) returns (e: Option<Exception>)
      requires Valid()
      modifies set i | 0 <= i < |data| :: data[i]
      ensures Valid()
      ensures e == RowRejection(row, if rowData == null then None else Some(rowData.Length), width, height)
      ensures |old(Pixels())| == width * height
      ensures e.Some? ==> Pixels() == old(Pixels())
      ensures e.None? ==> 0 <= row * width && (row + 1) * width <= width * height
      ensures e.None? ==> Pixels() == old(Pixels()[..row * width]) + old(rowData[..width]) + old(Pixels()[(row + 1) * width..])
    {
      JoinedLength(Chunks(), rowsForChunk, width);
      e := RowRejection(row, if rowData == null then None else Some(rowData.Length), width, height);
      if e.Some? {
        return;
      }
      MulLe(row + 1, height, width);
      var currentChunk, offset := FindRow(row);
      CopyRow(rowData, currentChunk, offset, row);
    }

    /** setImageRow's search: the chunk holding `row`, and where the row starts in it. */
    method FindRow(row: int) returns (currentChunk: nat, offset: int)
      requires Valid() && 0 <= row < height
      ensures currentChunk < |data| && Sum(rowsForChunk[..currentChunk]) <= row < Sum(rowsForChunk[..currentChunk]) + rowsForChunk[currentChunk]
      ensures offset == (row - Sum(rowsForChunk[..currentChunk])) * width
    {
      RowFound(rowsForChunk, row);
      ghost var c := Locate(rowsForChunk, row).value;
      currentChunk := 0;
      offset := 0;
      var minRows := 0;
      var maxRows := 0;
      var found := false;
      while !found
        invariant 0 <= currentChunk <= c
        invariant !found ==> maxRows == Sum(rowsForChunk[..currentChunk])
        invariant found ==> currentChunk == c && minRows == Sum(rowsForChunk[..c]) && offset == (row - minRows) * width
        decreases c - currentChunk, !found
      {
        minRows := maxRows;
        SumPrefixStep(rowsForChunk, currentChunk);
        maxRows := maxRows + rowsForChunk[currentChunk];
        if row >= minRows && row < maxRows {
          found := true;
          offset := (row - minRows) * width;
          if currentChunk < c {
            SumPrefixGrows(rowsForChunk, currentChunk + 1, c);
          }
        } else {
          SumPrefixGrows(rowsForChunk, currentChunk, c);
          currentChunk := currentChunk + 1;
        }
      }
    }

    /** The System.arraycopy of setImageRow, and what it does to the image. */
    method CopyRow(rowData: array<int>, c: nat, offset: int, row: int)
      requires Valid() && c < |data| && rowData.Length >= width
      requires Sum(rowsForChunk[..c]) <= row < Sum(rowsForChunk[..c]) + rowsForChunk[c]
      requires offset == (row - Sum(rowsForChunk[..c])) * width
      modifies data[c]
      ensures Valid()
      ensures |old(Pixels())| == width * height && 0 <= row * width && (row + 1) * width <= width * height
      ensures Pixels() == old(Pixels()[..row * width]) + old(rowData[..width]) + old(Pixels()[(row + 1) * width..])
    {
      ghost var before := Chunks();
      RowBounds(before, rowsForChunk, width, c, row, offset);
      var src := rowData[..width];
      var dst := data[c];
      WriteRow(dst, offset, src);
      assert Chunks() == before[c := dst[..]] by {
        forall i | 0 <= i < |data|
          ensures Chunks()[i] == before[c := dst[..]][i]
        {
          if i != c {
            assert data[i] != data[c];
          }
        }
      }
      RowSpliced(before, rowsForChunk, width, c, row, offset, src);
    }

    /** The copy itself: `src` over the ints of `dst` from `offset` on. */
    static method WriteRow(dst: array<int>, offset: int, src: seq<int>)
      requires 0 <= offset && offset + |src| <= dst.Length
      modifies dst
      ensures dst[..] == old(dst[..offset]) + src + old(dst[offset + |src|..])
    {
      forall k | 0 <= k < |src| {
        dst[offset + k] := src[k];
      }
    }

    /** Where CopyRow writes: within chunk `c`, and within the image. */
    static lemma RowBounds(chunks: seq<seq<int>>, rows: seq<int>, width: int, c: nat, row: int, offset: int)
      requires |chunks| == |rows| && c < |rows| && width >= 1
      requires forall i | 0 <= i < |rows| :: rows[i] >= 0 && |chunks[i]| == rows[i] * width
      requires Sum(rows[..c]) <= row < Sum(rows[..c]) + rows[c]
      requires offset == (row - Sum(rows[..c])) * width
      ensures 0 <= offset && offset + width <= |chunks[c]|
      ensures |Concat(chunks)| == width * Sum(rows)
      ensures 0 <= row * width && (row + 1) * width <= width * Sum(rows)
    {
      RowInChunk(rows, width, c, row, offset);
      RowInImage(rows, width, c, row);
      JoinedLength(chunks, rows, width);
      assert Sum(rows) * width == width * Sum(rows);
    }

    /** A row of chunk `c` starts `offset` cells into it and ends within it. */
    static lemma RowInChunk(rows: seq<int>, width: int, c: nat, row: int, offset: int)
      requires c < |rows| && width >= 1
      requires Sum(rows[..c]) <= row < Sum(rows[..c]) + rows[c]
      requires offset == (row - Sum(rows[..c])) * width
      ensures 0 <= offset && offset + width <= rows[c] * width
    {
      var lo := Sum(rows[..c]);
      MulSucc(row - lo, width);
      MulLe(row - lo + 1, rows[c], width);
      MulLe(0, row - lo, width);
    }

    /** A row of chunk `c` lies within the whole image. */
    static lemma RowInImage(rows: seq<int>, width: int, c: nat, row: int)
      requires c < |rows| && width >= 1 && forall i | 0 <= i < |rows| :: rows[i] >= 0
      requires Sum(rows[..c]) <= row < Sum(rows[..c]) + rows[c]
      ensures 0 <= row * width && (row + 1) * width <= width * Sum(rows)
    {
      SumPrefixGrows(rows, 0, c);
      SumPrefixGrows(rows, c + 1, |rows|);
      SumPrefixStep(rows, c);
      assert rows[..|rows|] == rows;
      MulLe(0, row, width);
      MulLe(row + 1, Sum(rows), width);
    }

    /** What CopyRow's write into one chunk does to the joined image. */
    static lemma RowSpliced(before: seq<seq<int>>, rows: seq<int>, width: int, c: nat, row: int, offset: int, src: seq<int>)
      requires |before| == |rows| && c < |rows| && width >= 1 && |src| == width
      requires forall i | 0 <= i < |rows| :: |before[i]| == rows[i] * width
      requires Sum(rows[..c]) <= row && offset == (row - Sum(rows[..c])) * width && 0 <= offset && offset + width <= |before[c]|
      requires 0 <= row * width && (row + 1) * width <= |Concat(before)|
      ensures Concat(before[c := before[c][..offset] + src + before[c][offset + width..]])
              == Concat(before)[..row * width] + src + Concat(before)[(row + 1) * width..]
    {
      var after := before[c := before[c][..offset] + src + before[c][offset + width..]];
      ConcatAround(before, c);
      ConcatAround(after, c);
      assert after[..c] == before[..c] && after[c + 1..] == before[c + 1..];
      var head, tail := Concat(before[..c]), Concat(before[c + 1..]);
      JoinedLength(before[..c], rows[..c], width);
      Distrib(Sum(rows[..c]), row, width);
      MulSucc(row, width);
      assert |head| + offset == row * width && |head| + offset + |src| == (row + 1) * width;
      SpliceSeq(head, before[c], tail, offset, src);
    }
  }

  /**
   * `new ImageBuffer(width, height, numComponents)`: the constructor's
   * fields, then allocateBuffer, whose exception ends the construction.  A
   * positive width and a height that is not negative give a buffer holding
   * `width * height` zeros in the chunks `Plan` lays out; a negative width
   * and a height that is not positive give one chunk of
   * `NegativeWidthRows` rows.
   */
  method NewImageBuffer(width: int, height: int, numComponents: int, failures: nat -> nat)
      returns (r: Result<ImageBuffer, Exception>)
    requires IsInt(width * height)
    ensures r.Failure? <==> width == 0 || width * height < 0
    ensures r.Failure? ==> r.error == (if width == 0 then Arithmetic else NegativeArraySize)
    ensures r.Success? ==>
              var b := r.value;
              && fresh(b) && fresh(b.consumers) && (forall i | 0 <= i < |b.data| :: fresh(b.data[i]))
              && b.width == width && b.height == height && b.colorModel == DefaultColorModel(numComponents)
              && b.consumers.Length == MAX_CONSUMERS && b.count == 0 && b.Consumers() == []
    ensures r.Success? && width >= 1 ==>
              var b := r.value;
              && b.Valid() && b.rowsForChunk == Plan(width, height, failures, 0)
              && |b.Pixels()| == width * height && AllZero(b.Pixels())
    ensures r.Success? && width < 0 ==>
              var b := r.value;
              && b.rowsForChunk == [NegativeWidthRows(width, height, Shrunk(failures(0)))] && |b.data| == 1
              && b.data[0].Length == width * b.rowsForChunk[0] && AllZero(b.data[0][..])
  {
    var b := new ImageBuffer(width, height, numComponents);
    var e := b.AllocateBuffer(failures);
    if e.Some? {
      return Failure(e.value);
    }
    if width >= 1 {
      PlanCoversImage(width, height, failures, 0);
      var cs := b.Chunks();
      JoinedLength(cs, b.rowsForChunk, width);
      ZeroChunks(cs);
    }
    r := Success(b);
  }

  /** The chunk arrays: distinct, each `rows[i]` whole rows. */
  predicate ChunksOf(chunks: seq<array<int>>, rows: seq<int>, width: int)
  {
    |chunks| == |rows|
    && (forall i | 0 <= i < |chunks| :: rows[i] >= 0 && chunks[i].Length == rows[i] * width)
    && (forall i, j | 0 <= i < j < |chunks| :: chunks[i] != chunks[j])
  }

  /** One more chunk, new and distinct from the others. */
  lemma ChunksOfSnoc(chunks: seq<array<int>>, rows: seq<int>, width: int, chunk: array<int>, r: int)
    requires ChunksOf(chunks, rows, width) && chunk !in chunks && r >= 0 && chunk.Length == r * width
    ensures ChunksOf(chunks + [chunk], rows + [r], width)
  {
  }

  lemma SnocAssoc<T>(a: seq<T>, x: T, b: seq<T>)
    ensures a + [x] + b == a + ([x] + b)
  {
  }

  /** One step of Plan: the next chunk's rows, then the plan for the rest. */
  lemma PlanStep(width: int, rowsLeft: int, failures: nat -> nat, k: nat)
    requires width >= 1 && rowsLeft >= 0
    ensures var r := ChunkRows(width, rowsLeft, Shrunk(failures(k)));
      Plan(width, rowsLeft, failures, k)
      == [r] + (if rowsLeft - r > 0 then Plan(width, rowsLeft - r, failures, k + 1) else [])
  {
  }

  /** One more chunk: the rows allocated so far and the plan for the rows left still make up the whole plan. */
  lemma PlanAdvance(rows: seq<int>, whole: seq<int>, width: int, rowsLeft: int, failures: nat -> nat, k: nat, r: int)
    requires width >= 1 && rowsLeft >= 0 && r == ChunkRows(width, rowsLeft, Shrunk(failures(k)))
    requires rows + Plan(width, rowsLeft, failures, k) == whole
    ensures rowsLeft - r > 0 ==> (rows + [r]) + Plan(width, rowsLeft - r, failures, k + 1) == whole
    ensures rowsLeft - r <= 0 ==> rows + [r] == whole
  {
    PlanStep(width, rowsLeft, failures, k);
    var rest := if rowsLeft - r > 0 then Plan(width, rowsLeft - r, failures, k + 1) else [];
    SnocAssoc(rows, r, rest);
  }

  /** The rows before a chunk and the rows into it add up to the row. */
  lemma Distrib(before: int, row: int, width: int)
    ensures before * width + (row - before) * width == row * width
  {
  }

  /** Writing `src` at `o` inside the middle part of a joined sequence writes it at `|head| + o` of the whole. */
  lemma SpliceSeq<T>(head: seq<T>, mid: seq<T>, tail: seq<T>, o: int, src: seq<T>)
    requires 0 <= o && o + |src| <= |mid|
    ensures head + (mid[..o] + src + mid[o + |src|..]) + tail
            == (head + mid + tail)[..|head| + o] + src + (head + mid + tail)[|head| + o + |src|..]
  {
    assert (head + mid + tail)[..|head| + o] == head + mid[..o];
    assert (head + mid + tail)[|head| + o + |src|..] == mid[o + |src|..] + tail;
  }

  /** Chunks of zeros join into an image of zeros. */
  lemma {:induction false} ZeroChunks(cs: seq<seq<int>>)
    requires forall i | 0 <= i < |cs| :: AllZero(cs[i])
    ensures AllZero(Concat(cs))
  {
    if cs != [] {
      ZeroChunks(cs[1..]);
      var rest := Concat(cs[1..]);
      assert Concat(cs) == cs[0] + rest;
      forall k | 0 <= k < |Concat(cs)|
        ensures Concat(cs)[k] == 0
      {
        if k >= |cs[0]| {
          assert Concat(cs)[k] == rest[k - |cs[0]|];
        }
      }
    }
  }
}
