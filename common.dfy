/**
 * The 2-D allocator of common.c: a table of row pointers ending in a NULL
 * sentinel, built all-or-nothing and freed by walking to the sentinel.
 *
 * The C heap is modelled by `Heap`: every malloc is a numbered request, an
 * oracle says which requests fail, a successful request's number is the
 * block's handle, and `live` holds the handles not yet freed.
 */
module Common {
  import opened DecodeImage

  /** Rows joined end to end, in order. */
  function Concat<T>(rows: seq<seq<T>>): seq<T>
  {
    if rows == [] then [] else rows[0] + Concat(rows[1..])
  }

  /** Joining one more row appends it. */
  lemma {:induction false} ConcatSnoc<T>(rows: seq<seq<T>>, x: seq<T>)
    ensures Concat(rows + [x]) == Concat(rows) + x
  {
    if rows != [] {
      assert (rows + [x])[1..] == rows[1..] + [x];
      ConcatSnoc(rows[1..], x);
    }
  }

  /** Joining splits around any row. */
  lemma {:induction false} ConcatAround<T>(rows: seq<seq<T>>, c: nat)
    requires c < |rows|
    ensures Concat(rows) == Concat(rows[..c]) + rows[c] + Concat(rows[c + 1..])
  {
    if c > 0 {
      ConcatAround(rows[1..], c - 1);
      assert rows[1..][..c - 1] == rows[..c][1..];
      assert rows[1..][c - 1 + 1..] == rows[c + 1..];
    }
  }

  /** A product divided by one factor gives back the other. */
  lemma MulDiv(r: int, w: int)
    requires w >= 1
    ensures (r * w) / w == r && (r * w) % w == 0
  {
    var q, m := (r * w) / w, (r * w) % w;
    assert (r - q) * w == m;
    if r - q >= 1 {
      MulLe(1, r - q, w);
    } else if r - q <= -1 {
      MulLe(r - q, -1, w);
    }
  }

  /** Multiplying by a non-negative factor keeps the order. */
  lemma MulLe(a: int, b: int, d: int)
    requires a <= b && d >= 0
    ensures a * d <= b * d
  {
    assert b * d - a * d == (b - a) * d;
  }

  /** One more factor adds the multiplicand. */
  lemma MulSucc(p: int, d: int)
    ensures (p + 1) * d == p * d + d
  {
  }

  /** A product of naturals is a natural. */
  lemma NatMul(a: nat, b: nat)
    ensures a * b >= 0
  {
  }

  /** Size of a row pointer and of a jint, in bytes. */
  const PTR_SIZE: int := 8
  const JINT_SIZE: int := 4

  class Heap {
    const fails: nat -> bool
    var next: nat
    var live: set<nat>

    ghost predicate Valid()
      reads this
    {
      forall h :: h in live ==> h < next
    }

    constructor (oracle: nat -> bool)
      ensures Valid() && fails == oracle && next == 0 && live == {}
    {
      fails := oracle;
      next := 0;
      live := {};
    }

    /**
     * malloc(size): a fresh block, or NULL when the oracle refuses the
     * request or the size is negative (no allocator satisfies the size_t a
     * negative int converts to).
     */
    method Malloc(size: int) returns (p: Option<nat>)
      requires Valid()
      modifies this`next, this`live
      ensures Valid() && next == old(next) + 1
      ensures p.Some? <==> size >= 0 && !fails(old(next))
      ensures p.Some? ==> p.value == old(next) && live == old(live) + {p.value}
      ensures p.None? ==> live == old(live)
    {
      if size >= 0 && !fails(next) {
        p := Some(next);
        live := live + {next};
      } else {
        p := None;
      }
      next := next + 1;
    }

    /** free(p): releases a live block; free(NULL) does nothing. */
    method Free(p: Option<nat>)
      requires Valid() && (p.Some? ==> p.value in live)
      modifies this`live
      ensures Valid()
      ensures live == if p.Some? then old(live) - {p.value} else old(live)
    {
      if p.Some? {
        live := live - {p.value};
      }
    }
  }

  /** No request numbered `from` .. `from + n - 1` fails. */
  ghost predicate AllGranted(fails: nat -> bool, from: nat, n: int)
  {
    forall k: nat :: from <= k < from + n ==> !fails(k)
  }

  /** The handles held by the non-NULL slots. */
  ghost function RowHandles(slots: seq<Option<nat>>): set<nat>
  {
    set i | 0 <= i < |slots| && slots[i].Some? :: slots[i].value
  }

  function OptionSet(x: Option<nat>): set<nat>
  {
    if x.Some? then {x.value} else {}
  }

  lemma RowHandlesCons(s: seq<Option<nat>>)
    requires |s| > 0
    ensures RowHandles(s) == OptionSet(s[0]) + RowHandles(s[1..])
  {
    forall h | h in RowHandles(s) ensures h in OptionSet(s[0]) + RowHandles(s[1..]) {
      var i :| 0 <= i < |s| && s[i].Some? && s[i].value == h;
      if i > 0 {
        assert s[1..][i - 1] == s[i];
      }
    }
    forall h | h in RowHandles(s[1..]) ensures h in RowHandles(s) {
      var i :| 0 <= i < |s[1..]| && s[1..][i].Some? && s[1..][i].value == h;
      assert s[i + 1] == s[1..][i];
    }
  }

  lemma RowHandlesSnoc(s: seq<Option<nat>>, x: Option<nat>)
    ensures RowHandles(s + [x]) == RowHandles(s) + OptionSet(x)
  {
    var t := s + [x];
    forall h | h in RowHandles(t) ensures h in RowHandles(s) + OptionSet(x) {
      var i :| 0 <= i < |t| && t[i].Some? && t[i].value == h;
      if i < |s| {
        assert t[i] == s[i];
      }
    }
    forall h | h in RowHandles(s) ensures h in RowHandles(t) {
      var i :| 0 <= i < |s| && s[i].Some? && s[i].value == h;
      assert t[i] == s[i];
    }
    if x.Some? {
      assert t[|s|] == x;
    }
  }

  /** A row-pointer table: the handle of the pointer array and its slots. */
  datatype Table = Table(id: nat, slots: seq<Option<nat>>)

  /**
   * The shape alloc2D*Array returns for `rows` rows: `rows` non-NULL slots
   * followed by the NULL sentinel, the table and rows all distinct.
   */
  ghost predicate WellFormed(t: Table, rows: nat)
  {
    && |t.slots| == rows + 1
    && t.slots[rows].None?
    && (forall i :: 0 <= i < rows ==> t.slots[i].Some? && t.slots[i].value != t.id)
    && (forall i, j :: 0 <= i < j < rows ==> t.slots[i] != t.slots[j])
  }

  /** The handles of a well-formed table: the pointer array and every row. */
  ghost function Blocks(t: Table): set<nat>
  {
    {t.id} + RowHandles(t.slots)
  }

  /** The blocks of a table that may be NULL. */
  ghost function TableBlocks(t: Option<Table>): set<nat>
  {
    if t.Some? then Blocks(t.value) else {}
  }

  /** A table as alloc2D*Array returns it: some number of rows and the sentinel. */
  ghost predicate Whole(t: Table)
  {
    |t.slots| >= 1 && WellFormed(t, |t.slots| - 1)
  }

  /** The rows free2D*Array releases: the slots before the first NULL. */
  function RowsBeforeSentinel(slots: seq<Option<nat>>): (r: seq<nat>)
    ensures |r| <= |slots|
    ensures forall i :: 0 <= i < |r| ==> slots[i] == Some(r[i])
    ensures |r| < |slots| ==> slots[|r|].None?
  {
    if slots == [] || slots[0].None? then []
    else [slots[0].value] + RowsBeforeSentinel(slots[1..])
  }

  /** The sentinel stops the walk exactly after the allocated rows. */
  lemma {:induction false} SentinelEndsWalk(t: Table, rows: nat)
    requires WellFormed(t, rows)
    ensures |RowsBeforeSentinel(t.slots)| == rows
    ensures (set h | h in RowsBeforeSentinel(t.slots)) + {t.id} == Blocks(t)
  {
    var r := RowsBeforeSentinel(t.slots);
    FirstNoneAt(t.slots, rows);
    assert |r| == rows;
    forall h | h in Blocks(t) ensures h in (set h | h in r) + {t.id} {
      if h != t.id {
        var i :| 0 <= i < |t.slots| && t.slots[i].Some? && t.slots[i].value == h;
        assert i < rows;
        assert r[i] == h;
      }
    }
    forall h | h in (set h | h in r) + {t.id} ensures h in Blocks(t) {
      if h != t.id {
        var i :| 0 <= i < |r| && r[i] == h;
        assert t.slots[i] == Some(h);
      }
    }
  }

  lemma {:induction false} FirstNoneAt(slots: seq<Option<nat>>, n: nat)
    requires n < |slots| && slots[n].None?
    requires forall i :: 0 <= i < n ==> slots[i].Some?
    ensures |RowsBeforeSentinel(slots)| == n
  {
    if n > 0 {
      FirstNoneAt(slots[1..], n - 1);
    }
  }

  /**
   * The common body of alloc2DByteArray and alloc2DJIntArray: a table of
   * `rows + 1` pointers, then one block of `rowBytes` per row.  When any
   * request fails, every block obtained so far is freed and NULL returned.
   */
  method Alloc2D(heap: Heap, rows: int, rowBytes: int) returns (arr: Option<Table>)
    requires heap.Valid()
    modifies heap`next, heap`live
    ensures heap.Valid()
    ensures arr.Some? <==> rows >= 0 && AllGranted(heap.fails, old(heap.next), rows + 1)
                                      && (rows == 0 || rowBytes >= 0)
    ensures arr.None? ==> heap.live == old(heap.live)
    ensures arr.Some? ==> WellFormed(arr.value, rows)
    ensures arr.Some? ==> heap.live == old(heap.live) + Blocks(arr.value)
    ensures arr.Some? ==> forall h :: h in Blocks(arr.value) ==> old(heap.next) <= h < heap.next
    ensures arr.Some? ==> heap.next == old(heap.next) + rows + 1
  {
    if rows < 0 {
      // The source would store the sentinel before the start of the table.
      return None;
    }
    var base := heap.next;
    var t := heap.Malloc((rows + 1) * PTR_SIZE);
    if t.None? {
      // The source stores the sentinel through the NULL pointer first.
      assert heap.fails(base);
      return None;
    }
    var slots: seq<Option<nat>> := [];
    var row := 0;
    var fail := false;
    while !fail && row < rows
      invariant heap.Valid() && 0 <= row <= rows && |slots| == row
      invariant heap.next == base + 1 + row + (if fail then 1 else 0)
      invariant forall i :: 0 <= i < row ==> slots[i] == Some(base + 1 + i)
      invariant AllGranted(heap.fails, base, row + 1)
      invariant row > 0 ==> rowBytes >= 0
      invariant !fail ==> heap.live == old(heap.live) + {base} + RowHandles(slots)
      invariant fail ==> heap.live == old(heap.live) && row < rows && (heap.fails(base + 1 + row) || rowBytes < 0)
      decreases rows - row, if fail then 0 else 1
    {
      var r := heap.Malloc(rowBytes);
      if r.None? {
        var i := 0;
        while i < row
          invariant 0 <= i <= row && heap.Valid() && heap.next == base + 2 + row
          invariant heap.live == old(heap.live) + {base} + RowHandles(slots[i..])
        {
          RowHandlesCons(slots[i..]);
          assert slots[i..][0] == slots[i];
          assert slots[i..][1..] == slots[i + 1..];
          assert base + 1 + i !in RowHandles(slots[i + 1..]);
          heap.Free(slots[i]);
          i := i + 1;
        }
        assert RowHandles(slots[row..]) == {};
        assert base !in old(heap.live);
        heap.Free(t);
        fail := true;
      } else {
        RowHandlesSnoc(slots, r);
        slots := slots + [r];
        row := row + 1;
      }
    }
    if fail {
      arr := None;
      assert heap.fails(base + 1 + row) ==> !AllGranted(heap.fails, base, rows + 1);
    } else {
      arr := Some(Table(base, slots + [None]));
      RowHandlesSnoc(slots, None);
    }
  }

  /** alloc2DByteArray(rows, cols): rows of `cols` bytes. */
  method Alloc2DByteArray(heap: Heap, rows: int, cols: int) returns (arr: Option<Table>)
    requires heap.Valid()
    modifies heap`next, heap`live
    ensures heap.Valid()
    ensures arr.Some? <==> rows >= 0 && AllGranted(heap.fails, old(heap.next), rows + 1)
                                      && (rows == 0 || cols >= 0)
    ensures arr.None? ==> heap.live == old(heap.live)
    ensures arr.Some? ==> WellFormed(arr.value, rows)
    ensures arr.Some? ==> heap.live == old(heap.live) + Blocks(arr.value)
    ensures arr.Some? ==> forall h :: h in Blocks(arr.value) ==> old(heap.next) <= h < heap.next
    ensures arr.Some? ==> heap.next == old(heap.next) + rows + 1
  {
    arr := Alloc2D(heap, rows, cols);
  }

  /** alloc2DJIntArray(rows, cols): rows of `cols` jints. */
  method Alloc2DJIntArray(heap: Heap, rows: int, cols: int) returns (arr: Option<Table>)
    requires heap.Valid()
    modifies heap`next, heap`live
    ensures heap.Valid()
    ensures arr.Some? <==> rows >= 0 && AllGranted(heap.fails, old(heap.next), rows + 1)
                                      && (rows == 0 || cols >= 0)
    ensures arr.None? ==> heap.live == old(heap.live)
    ensures arr.Some? ==> WellFormed(arr.value, rows)
    ensures arr.Some? ==> heap.live == old(heap.live) + Blocks(arr.value)
    ensures arr.Some? ==> forall h :: h in Blocks(arr.value) ==> old(heap.next) <= h < heap.next
    ensures arr.Some? ==> heap.next == old(heap.next) + rows + 1
  {
    arr := Alloc2D(heap, rows, cols * JINT_SIZE);
  }

  /** A table free2D*Array may release: a live pointer array and distinct live rows up to the sentinel. */
  ghost predicate Freeable(live: set<nat>, t: Table)
  {
    var r := RowsBeforeSentinel(t.slots);
    && |r| < |t.slots|
    && t.id in live
    && (forall i :: 0 <= i < |r| ==> r[i] in live && r[i] != t.id)
    && (forall i, j :: 0 <= i < j < |r| ==> r[i] != r[j])
  }

  /** free2DByteArray / free2DJIntArray: free each row up to the sentinel, then the table; NULL is ignored. */
  method Free2D(heap: Heap, arr: Option<Table>)
    requires heap.Valid()
    requires arr.Some? ==> Freeable(heap.live, arr.value)
    modifies heap`live
    ensures heap.Valid()
    ensures arr.None? ==> heap.live == old(heap.live)
    ensures arr.Some? ==> heap.live == old(heap.live) - (set h | h in RowsBeforeSentinel(arr.value.slots)) - {arr.value.id}
  {
    if arr.Some? {
      var t := arr.value;
      ghost var r := RowsBeforeSentinel(t.slots);
      var k := 0;
      while t.slots[k].Some?
        invariant 0 <= k <= |r|
        invariant heap.Valid()
        invariant heap.live == old(heap.live) - (set i | 0 <= i < k :: r[i])
        decreases |r| - k
      {
        assert k < |r|;
        heap.Free(t.slots[k]);
        assert (set i | 0 <= i < k + 1 :: r[i]) == (set i | 0 <= i < k :: r[i]) + {r[k]};
        k := k + 1;
      }
      assert k == |r|;
      assert (set i | 0 <= i < k :: r[i]) == (set h | h in r);
      heap.Free(Some(t.id));
    }
  }

  /** What a successful allocation adds, a free of the same table takes away again. */
  method AllocThenFree(heap: Heap, rows: int, cols: int)
    requires heap.Valid()
    modifies heap`next, heap`live
    ensures heap.Valid() && heap.live == old(heap.live)
  {
    var arr := Alloc2DByteArray(heap, rows, cols);
    if arr.Some? {
      SentinelEndsWalk(arr.value, rows);
      Free2D(heap, arr);
    }
  }

  /** A well-formed table whose blocks are all live may be freed, and freeing it releases exactly its blocks. */
  lemma OwnedTableFreeable(t: Table, rows: nat, live: set<nat>)
    requires WellFormed(t, rows) && Blocks(t) <= live
    ensures Freeable(live, t)
    ensures (set h | h in RowsBeforeSentinel(t.slots)) + {t.id} == Blocks(t)
  {
    SentinelEndsWalk(t, rows);
    var r := RowsBeforeSentinel(t.slots);
    forall i | 0 <= i < |r| ensures r[i] in live && r[i] != t.id {
      assert t.slots[i] == Some(r[i]);
      assert r[i] in RowHandles(t.slots);
    }
    forall i, j | 0 <= i < j < |r| ensures r[i] != r[j] {
      assert t.slots[i] == Some(r[i]) && t.slots[j] == Some(r[j]);
    }
  }
}
