/**
 * The TIFF decoder's side of the block-buffering adapter
 * (image_decode/readtiff.c): the process-wide table of drained descriptors,
 * its one-time reset in tiff_init, the descriptor bound checked by
 * start_input_tiff, and the pipe procedures libtiff is handed.  The buffer
 * itself is the one of TiffBuffer; this copy of the adapter frees the
 * superseded row-pointer array when it grows, and its close procedure also
 * clears the table slot.
 */
module ReadTiff {
  import opened DecodeImage
  import opened Common
  import opened TiffBuffer

  const ERR_FD_SIZE: string := "File descriptor is too large"

  /** Bytes asked of malloc for the decoder's source structure. */
  const SOURCE_STRUCT_SIZE: int := 256

  /** The static `buffers` table and the `initialized` flag guarding its reset. */
  class Pipes {
    const buffers: array<FileBuffer?>
    var initialized: bool

    /** Program start: the table is whatever static storage holds, not yet reset. */
    constructor (initial: seq<FileBuffer?>)
      requires |initial| == MAX_FD
      ensures fresh(buffers) && buffers.Length == MAX_FD && buffers[..] == initial
      ensures !initialized
    {
      buffers := new FileBuffer?[MAX_FD](i requires 0 <= i < MAX_FD => initial[i]);
      initialized := false;
    }

    /**
     * tiff_init: on the first call every slot is cleared and the flag set;
     * later calls leave the table alone.  The source structure is allocated
     * and its public part set to the "nothing read yet" state, or NULL is
     * returned when the allocation fails.
     */
    method TiffInit(heap: Heap) returns (src: Param?)
      requires heap.Valid() && buffers.Length == MAX_FD
      modifies this`initialized, buffers, heap`next, heap`live
      ensures heap.Valid() && initialized
      ensures !old(initialized) ==> forall i :: 0 <= i < MAX_FD ==> buffers[i] == null
      ensures old(initialized) ==> buffers[..] == old(buffers[..])
      ensures src == null <==> heap.fails(old(heap.next))
      ensures src != null ==> fresh(src) && src.Valid() && src.width == -1 && src.height == -1
                              && src.rowNum == 0 && !src.error && src.errorMsg == ""
    {
      if !initialized {
        var i := 0;
        while i < MAX_FD
          invariant 0 <= i <= MAX_FD
          invariant forall k :: 0 <= k < i ==> buffers[k] == null
          modifies buffers
        {
          buffers[i] := null;
          i := i + 1;
        }
        initialized := true;
      }
      var h := heap.Malloc(SOURCE_STRUCT_SIZE);
      if h.None? {
        return null;
      }
      src := new Param([]);
    }

    /**
     * The adapter part of start_input_tiff: a descriptor of MAX_FD or more
     * raises "File descriptor is too large" before anything is read;
     * otherwise the stream is drained into a fresh buffer at its slot.
     */
    method StartInputTiff(fd: int, p: Param, stream: Descriptor, heap: Heap)
      requires buffers.Length == MAX_FD && 0 <= fd && stream.Valid() && heap.Valid()
      modifies p`error, p`errorMsg, buffers, stream`pos, heap`next, heap`live
      ensures stream.Valid() && heap.Valid()
      ensures fd >= MAX_FD ==> p.error && p.errorMsg == ErrorText(ERR_FD_SIZE)
                               && stream.pos == old(stream.pos) && heap.live == old(heap.live)
                               && buffers[..] == old(buffers[..])
      ensures fd < MAX_FD ==> p.error == old(p.error) && p.errorMsg == old(p.errorMsg)
                              && forall i :: 0 <= i < MAX_FD && i != fd ==> buffers[i] == old(buffers[i])
      ensures fd < MAX_FD && buffers[fd] != null ==> buffers[fd].leaked == {}
      ensures fd < MAX_FD && buffers[fd] != null && !buffers[fd].released ==>
                buffers[fd].Valid() && buffers[fd].Pos() == 0 && buffers[fd].HeapOk(heap.live)
                && buffers[fd].Contents() == old(stream.data[stream.pos..])
    {
      if fd >= MAX_FD {
        p.ErrExit(ERR_FD_SIZE);
        return;
      }
      // A slot still holding a buffer is reported on stdout and overwritten.
      var fb := BufferFile(stream, heap, true);
      buffers[fd] := fb;
    }

    /**
     * pipeRead on descriptor `fd`.  start_input_tiff hands the procedures
     * to libtiff whatever the drain did: with a NULL slot, or after
     * free_buffer, the source reads through NULL or freed memory, which is
     * undefined behaviour; the model reports it as `defined == false` and
     * changes nothing.
     */
    method PipeRead(fd: int, buf: array<int>, size: int) returns (n: int, defined: bool)
      requires 0 <= fd < buffers.Length && Drained(buffers[fd])
      requires 0 <= size <= buf.Length
      modifies buffers[fd], buf
      ensures defined <==> Usable(buffers[fd])
      ensures !defined ==> buf[..] == old(buf[..])
                           && (buffers[fd] != null ==> unchanged(buffers[fd]))
      ensures defined ==>
                && old(buffers[fd].Valid()) && buffers[fd].Valid() && buffers[fd].Contents() == old(buffers[fd].Contents())
                && n == Min(size, buffers[fd].bufferSize - old(buffers[fd].Pos())) && 0 <= n <= size
                && buffers[fd].Pos() == old(buffers[fd].Pos()) + n
                && buf[..n] == buffers[fd].Contents()[old(buffers[fd].Pos())..old(buffers[fd].Pos()) + n]
                && buf[n..] == old(buf[n..])
    {
      var fb := buffers[fd];
      if fb == null || fb.released {
        return 0, false;
      }
      n := fb.Read(buf, size);
      defined := true;
    }

    /** pipeWrite: writing is not supported and always fails. */
    method PipeWrite(fd: int, buf: array<int>, size: int) returns (r: int)
      ensures r == -1
    {
      r := -1;
    }

    /**
     * pipeSeek on descriptor `fd`.  Only the structure's own fields are
     * used, so after a failed drain it still seeks over the recorded size;
     * a NULL slot is dereferenced, which is undefined (`defined == false`).
     */
    method PipeSeek(fd: int, off: int, whence: int, heap: Heap) returns (r: int, defined: bool)
      requires 0 <= fd < buffers.Length
      modifies buffers[fd]
      ensures defined <==> Present(buffers[fd], heap.live)
      ensures !defined ==> buffers[fd] == null || unchanged(buffers[fd])
      ensures defined ==>
                && buffers[fd].Contents() == old(buffers[fd].Contents())
                && buffers[fd].released == old(buffers[fd].released)
                && (old(buffers[fd].Valid()) ==> buffers[fd].Valid())
                && var t := SeekTarget(off, whence, old(buffers[fd].Pos()), buffers[fd].bufferSize);
                   if 0 <= t < buffers[fd].bufferSize then r == t && buffers[fd].Pos() == t
                   else r == -1 && buffers[fd].Pos() == old(buffers[fd].Pos())
    {
      var fb := buffers[fd];
      if fb == null || fb.id !in heap.live {
        return 0, false;
      }
      r := fb.Seek(off, whence);
      defined := true;
    }

    /**
     * pipeSize: the structure's recorded size, the number of bytes drained
     * when the drain succeeded; a NULL slot is undefined.
     */
    method PipeSize(fd: int, heap: Heap) returns (r: int, defined: bool)
      requires 0 <= fd < buffers.Length
      ensures defined <==> Present(buffers[fd], heap.live)
      ensures defined ==> r == buffers[fd].bufferSize
      ensures defined && buffers[fd].Valid() ==> r == |buffers[fd].Contents()|
    {
      var fb := buffers[fd];
      if fb == null || fb.id !in heap.live {
        return 0, false;
      }
      r := fb.Size();
      defined := true;
    }

    /**
     * pipeClose: frees the blocks, the row-pointer array and the structure,
     * clears the slot and returns 0; the descriptor itself stays open.
     * After a failed drain free_buffer runs a second time over the freed
     * rows, and a NULL slot is dereferenced: both undefined
     * (`defined == false`, nothing changed).
     */
    method PipeClose(fd: int, heap: Heap) returns (r: int, defined: bool)
      requires 0 <= fd < buffers.Length && Drained(buffers[fd])
      requires heap.Valid() && (Usable(buffers[fd]) ==> buffers[fd].HeapOk(heap.live))
      modifies heap`live, buffers, buffers[fd]
      ensures heap.Valid()
      ensures defined <==> old(Usable(buffers[fd]))
      ensures !defined ==> heap.live == old(heap.live) && buffers[..] == old(buffers[..])
                           && (buffers[fd] != null ==> unchanged(buffers[fd]))
      ensures defined ==> r == 0 && buffers[fd] == null
                          && heap.live == old(heap.live) - old(buffers[fd].Owned()) - {old(buffers[fd]).id}
                          && forall i :: 0 <= i < buffers.Length && i != fd ==> buffers[i] == old(buffers[i])
    {
      var fb := buffers[fd];
      if fb == null || fb.released {
        return 0, false;
      }
      r := fb.Close(heap);
      buffers[fd] := null;
      defined := true;
    }
  }
}
