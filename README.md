# ImageLoader core, modelled in Dafny

ImageLoader decodes image files for Java programs. A native half (C, called through JNI) decodes BMP, Targa, PPM/PGM and TIFF files row by row into packed 32-bit ARGB pixels. A Java half keeps decoded images and hands them to AWT image consumers, and maps file names and MIME types to the decoders.

This project models that core:

- **DecodeImage** (`decode_image.h`) holds the shared definitions:
  - the per-decoder parameter block `struct param`, with its stream, size, error flag and bounded message buffer;
  - the `ReadOK` / `JFREAD` macros;
  - the `available_types` registry and the exact-match lookup that selects a decoder;
  - the ARGB pixel word every decoder stores.

  A `FILE *` stream is modelled as the file's byte sequence plus a position. `getc` gives -1 at the end.
- **Common** (`common.c`) models the 2-D allocators.
  - `alloc2DByteArray` and `alloc2DJIntArray` build a NULL-terminated table of row pointers. On failure they free everything allocated so far.
  - `free2D*Array` frees the rows up to the sentinel, then the table.
  - `malloc` and `free` are a `Heap` class. An oracle decides which requests fail. The heap's `live` set is the set of blocks not yet freed.
- **ReadBmp**, **BmpStages**, **BmpStart** and **ReadBmpSource** (`readbmp.c`) model the BMP decoder. Functions specify each stage of `start_input_bmp` and `preload_image`:
  - the file and info headers;
  - the colormap;
  - the pad before the pixels;
  - the row width and `whole_image`;
  - the uncompressed rows;
  - `extract_rle_data`'s RLE8/RLE4 commands.

  The `BmpSource` class carries out each stage imperatively and is proved equal to its function. Lemmas prove:
  - the bit-unpacking round trip (pack then unpack, unpack then pack);
  - the colormap round trip;
  - the RLE round trip, where encoding a bitmap and reading it back paints every row;
  - exactly when `start_input_bmp` installs the row reader.
- **ReadTarga** (`readtarga.c`) models the Targa decoder:
  - its 18-byte header and the image-type classification;
  - the colormap;
  - `read_non_rle_pixel` and `read_rle_pixel` as steps of one `PixelStep` function, whose walk is proved to invert run-length encoding;
  - the five row readers;
  - the bottom-up `preload_image` and `get_memory_row`.
- **ReadPpm** (`readppm.c`) models the PPM/PGM decoder:
  - `pbm_getc` with comments;
  - `read_pbm_integer` as unsigned 32-bit accumulation, with its errors;
  - the header and the discriminator switch;
  - the rescale table;
  - the text and raw row readers, one or two bytes per sample;
  - the allocations and frees.
- **TiffBuffer** (`tif_custom.c`) and **ReadTiff** (`image_decode/readtiff.c`) model the TIFF I/O adapter. It drains a file descriptor into a list of 8192-byte blocks (`buffer_file` / `read_one_buffer`), then serves libtiff's read, write, seek, size and close procedures from them. A table indexed by the descriptor holds one buffer per descriptor, below `MAX_FD` (1024).
- **ImageBuffer** (`ImageBuffer.java`) models the image producer:
  - the image stored as chunks of whole rows within a memory limit, with the limit cut to two thirds after each `OutOfMemoryError`;
  - `setImageRow`;
  - the consumer list;
  - the production run sent to consumers.
- **ByteBufferImage** (`ByteBufferImage.java`) models an image over one or more `ByteBuffer` levels, with its constructor checks, getters and setters.
- **ImageFileNameMap** and **ImageContentHandlerFactory** (`ImageFileNameMap.java`, `ImageContentHandlerFactory.java`) model the map from file-name extension to MIME type and the map from MIME type to content handler. Each answers locally first, then asks the map or factory it was chained to.
- **JavaLang** models the Java semantics these classes use:
  - `int` wrap-around;
  - `String.toUpperCase`, `endsWith` and `equalsIgnoreCase`, with case folded over ASCII letters only.

Errors are modelled as the decoders raise them. `ERREXIT` sets the flag and copies the message into the 200-byte buffer (`ErrorText`). A Java exception is a `Failure` or an error value carrying the exception's class and message.

## Model

| member | source | states |
|---|---|---|
| DecodeImage.LE16Bytes | src/native/readbmp.c:81-93 | A little-endian 16-bit field's low byte is its first byte and its high byte its second. |
| DecodeImage.LE32 | src/native/readbmp.c:490-505 | A 32-bit little-endian field read into a signed 32-bit `long` lies in [-2^31, 2^31) and is negative exactly when its top byte has bit 7 set. |
| DecodeImage.LE32Low | src/native/readbmp.c:490-505 | The low 16 bits of a 32-bit field, taken unsigned, are its first 16-bit field. |
| DecodeImage.Argb | src/native/readbmp.c:319 | The word `(a << 24) + (r << 16) + (g << 8) + b` is a 32-bit pattern. |
| DecodeImage.ArgbChannels | src/native/readbmp.c:319 | Extracting the channels of a packed pixel, as Java's default colour model does, gives back a, r, g and b. |
| DecodeImage.GreyChannels | src/native/readtarga.c:170-202 | A grey pixel is opaque and carries the same sample in red, green and blue. |
| DecodeImage.ErrorText | src/native/decode_image.h:86 | The copied message is shorter than ERROR_LEN and is a prefix of the message. It is the whole message when the message fits. |
| DecodeImage.FindTypeFrom | src/native/decode_image.h:42-50 | The scan finds the first registry entry at or after `i` whose type string equals the name. It gives None exactly when no later entry matches. |
| DecodeImage.LookupDecoder | src/native/image_decode/decode_image.c:224-252 | Lookup succeeds exactly when some registry entry has that type string. Otherwise it fails with "Unknown file type: '<name>'". |
| DecodeImage.RegisteredTypesFindThemselves | src/native/decode_image.h:42-50 | Every registered subtype selects its own entry and its own init function: no two type strings are equal. |
| DecodeImage.PortableMapsShareDecoder | src/native/decode_image.h:42-50 | "x-portable-pixmap" and "x-portable-graymap" both select ppm_init. Those two are the only entries sharing an init function. |
| DecodeImage.DistinctDecoders | src/native/decode_image.h:42-50 | Any other two entries have different init functions. |
| DecodeImage.LookupIsCaseSensitive | src/native/decode_image.h:81 | STRSAME is case sensitive: "PNG" and "BMP" are unknown. |
| DecodeImage.Param.constructor | src/native/decode_image.h:95-106 | The block an init function prepares: width and height -1, row 0, no error, empty message, the stream at its start. |
| DecodeImage.Param.Getc | src/native/readbmp.c:68-76 | `getc` gives the next byte and advances, or gives -1 and stays at the end. |
| DecodeImage.Param.Fread | src/native/decode_image.h:82-83 | `fread` of `len` bytes delivers as many as remain, up to `len`, and advances past them. |
| DecodeImage.Param.ReadOK | src/native/decode_image.h:84 | `ReadOK` is true exactly when all `len` bytes remained. The bytes read and the new position are as `fread` leaves them. |
| DecodeImage.Param.ErrExit | src/native/readbmp.c:34-38 | ERREXIT raises the flag and stores the bounded copy of the message. |
| DecodeImage.LE16 | src/native/readbmp.c:81-93 | A little-endian 16-bit read is below 0x10000. |
| DecodeImage.Zeros | src/native/readbmp.c:608-610 | `n` zero bytes. |
| DecodeImage.DistinctTypeStrings | src/native/decode_image.h:42-50 | No two entries of the registry share a type string. |
| Common.Heap.Malloc | src/native/image_decode/common.c:30 | `malloc` gives a fresh block, which becomes live, or NULL when the oracle refuses the request or the size is negative. Nothing else changes. |
| Common.Heap.Free | src/native/image_decode/common.c:72-75 | `free` releases exactly that live block. `free(NULL)` does nothing. |
| Common.Heap.constructor | src/native/image_decode/common.c:24-30 | A heap with nothing allocated yet, whose requests fail as the oracle says. |
| Common.Alloc2D | src/native/image_decode/common.c:24-60 | A table is returned exactly when rows >= 0, all `rows + 1` requests are granted, and cols >= 0 when rows > 0. It is well formed: `rows` row blocks, then the NULL sentinel. Its blocks are exactly the newly live ones. On failure the live set is unchanged: all or nothing. |
| Common.Alloc2DByteArray | src/native/image_decode/common.c:24-60 | The same for rows of bytes. |
| Common.Alloc2DJIntArray | src/native/image_decode/common.c:81-117 | The same for rows of jints. |
| Common.Free2D | src/native/image_decode/common.c:65-76 | Frees every row before the first NULL, then the table. NULL is ignored. |
| Common.RowsBeforeSentinel | src/native/image_decode/common.c:70-71 | The rows freed are the non-NULL slots before the first NULL. |
| Common.SentinelEndsWalk | src/native/image_decode/common.c:70-74 | On a well-formed table the free walk stops exactly after the allocated rows. Together with the table, it covers exactly the table's blocks. |
| Common.OwnedTableFreeable | src/native/image_decode/common.c:65-76 | A well-formed table whose blocks are live can be freed, and freeing it releases exactly its blocks. |
| Common.AllocThenFree | src/native/image_decode/common.c:24-76 | Allocating a table and then freeing it leaves the live set as it was. |
| JavaLang.Int32 | src/java/vlc/image/ByteBufferImage.java:93 | Java `int` arithmetic gives a value in [-2^31, 2^31) congruent to the exact one modulo 2^32, and equal to it when it fits. |
| JavaLang.ToUpperCase | src/java/vlc/net/content/ImageFileNameMap.java:77 | The ASCII fold keeps the length and upper-cases each ASCII letter. |
| JavaLang.UpperConcat | src/java/vlc/net/content/ImageFileNameMap.java:77-85 | Upper-casing distributes over concatenation. |
| JavaLang.IgnoreCaseIsUpperEquality | src/java/vlc/net/content/ImageContentHandlerFactory.java:79 | Under the ASCII fold, `equalsIgnoreCase` holds exactly when the upper-cased strings are equal. |
| JavaLang.EndsWithAppended | src/java/vlc/net/content/ImageFileNameMap.java:77-86 | A string ends with any string appended to it. |
| ReadBmp.ReadByteAt | src/native/readbmp.c:68-76 | `read_byte` gives a byte, or 0 at the end of the stream. |
| ReadBmp.RoundUp4 | src/native/readbmp.c:401-402 | `while ((x & 3) != 0) x++` stops at the least multiple of 4 that is at least `x`, negative `x` included. |
| ReadBmp.RowWidthAsWritten | src/native/readbmp.c:597-606 | The row width as written is a multiple of 4. |
| ReadBmp.RowWidth | src/native/readbmp.c:597-606 | The corrected row width is a multiple of 4. It holds 3 bytes per pixel at 24 bits and at least one cell per pixel otherwise. |
| ReadBmp.PackedRowBytes | src/native/readbmp.c:396-407 | A packed row is read as `ceil(width / pixels-per-byte)` bytes rounded up to 4, which hold every pixel. |
| ReadBmp.UnpackedRowFits | src/native/readbmp.c:396-429 | With the corrected width, every index unpacked from a row lands inside the stored row. |
| ReadBmp.OneBitRowOverrun | src/native/readbmp.c:396-429 | As written, a 1-pixel 1-bit row is read as 4 bytes and unpacked into 32 cells, but only 28 are stored. |
| ReadBmp.Unpack | src/native/readbmp.c:408-427 | A byte unpacks into `8 / bpp` indices, each below 2^bpp. |
| ReadBmp.PackUnpack | src/native/readbmp.c:408-427 | Unpacking a byte packed from indices gives back the indices. |
| ReadBmp.UnpackPack | src/native/readbmp.c:408-427 | Packing a byte's unpacked indices gives back the byte. |
| ReadBmp.Expand | src/native/readbmp.c:408-429 | A row's bytes expand to `8 / bpp` indices per byte at packed depths, one per byte otherwise. |
| ReadBmp.Put | src/native/readbmp.c:218-267 | A store through `out_ptr` keeps the image's shape. |
| ReadBmp.ColormapFrom | src/native/readbmp.c:99-125 | The colormap read from `n` entries has three channels of `n` bytes each. |
| ReadBmp.ColormapRoundTrip | src/native/readbmp.c:99-125 | Reading back the entries written for a colormap, 3 or 4 bytes each, gives the colormap back. |
| ReadBmp.ParseInfo | src/native/readbmp.c:507-566 | The decoded info header records its own length and a 16-bit depth. It has a compression field exactly when it is not the 12-byte OS/2 header. |
| ReadBmp.HeadersAt | src/native/readbmp.c:486-566 | Headers are found only with a depth of 1, 2, 4, 8 or 24, one plane and an info header of a known size. |
| ReadBmp.StartOutcome | src/native/readbmp.c:464-620 | `start_input_bmp` never moves past the end of the stream. |
| ReadBmp.ImageOutcome | src/native/readbmp.c:597-619 | Storing the row width and allocating `whole_image` reads nothing. |
| ReadBmp.RleStep | src/native/readbmp.c:164-272 | Each turn of `extract_rle_data` keeps the image's shape. It either stops the routine or counts at least its two bytes. |
| ReadBmp.RleFrom | src/native/readbmp.c:135-273 | `extract_rle_data` ends stopped or with at least `image_size` bytes counted, the image's shape kept. |
| ReadBmp.OddLiteralMisread | src/native/readbmp.c:237-244 | As written, the pad rule wants a pad byte after a 3-sample RLE4 literal of 2 bytes. The end-of-row escape is then read one byte late and the routine runs off the stream with the error raised. |
| ReadBmp.OddLiteralRead | src/native/readbmp.c:237-244 | With the byte-count pad rule, the same bitmap is read to its end with no error. |
| ReadBmp.RleRoundTrip | src/native/readbmp.c:135-273 | For any bitmap of row commands that fits the image: encoding it and reading it back paints each row over its stored row. The stream ends just past the end-of-bitmap escape, and the error flag and message are kept. |
| ReadBmp.RunFrom | src/native/readbmp.c:250-270 | An encoded run changes only the image and the column. The image keeps its shape. |
| ReadBmp.Delta | src/native/readbmp.c:188-198 | A delta escape counts two bytes and leaves the image and the stop flag as they were. |
| ReadBmp.Skipped | src/native/readbmp.c:586-595 | Skipping `n` bytes through read_byte changes only the position and, at the end of the stream, the error flag and message. |
| ReadBmp.RowDecodes | src/native/readbmp.c:135-273 | Reading one row's commands, while fewer than `imageSize` bytes are counted, paints that row's samples. Decoding then goes on from the state the row leaves. |
| ReadBmp.RowsDecode | src/native/readbmp.c:135-273 | Reading whole rows, each ended by 0, 0, gives the state after those rows. Decoding then goes on from there. |
| ReadBmp.Blank | src/native/readbmp.c:608-619 | A freshly allocated `whole_image` has `rows` rows, each of `row_width` zero bytes. |
| ReadBmp.CDiv | src/native/readbmp.c:401 | C's truncating division agrees with Dafny's on a non-negative dividend. |
| BmpStages.NBitRow | src/native/readbmp.c:281-324 | `get_nbit_row` delivers `width` pixels. |
| BmpStages.NBitRowChannels | src/native/readbmp.c:281-324 | Each colour-mapped pixel is opaque and carries its colormap entry's red, green and blue. |
| BmpStages.Bit24Row | src/native/readbmp.c:330-370 | `get_24bit_row` delivers `width` pixels. |
| BmpStages.Bit24RowChannels | src/native/readbmp.c:330-370 | A 24-bit pixel stored blue, green, red is delivered opaque with red, green, blue in that order. |
| BmpStages.PreloadRle | src/native/readbmp.c:432-457 | For an RLE bitmap within the image size, `preload_image` paints every row, reads exactly the bitmap, raises nothing and installs the row reader. |
| BmpStages.PreloadRaw | src/native/readbmp.c:392-431 | For uncompressed rows with a long enough stream, every row is read and the row reader installed. |
| BmpStages.RawOutcome | src/native/readbmp.c:392-431 | In the uncompressed branch, a short stream raises "Premature end of input file" and leaves the reader uninstalled. |
| BmpStages.Poke | src/native/readbmp.c:218-267 | A store at one column keeps the row's length. |
| BmpStages.UncompressedRow | src/native/readbmp.c:392-431 | Row `row` of the uncompressed pixels is that row read over its old contents. |
| BmpStages.FullRow | src/native/readbmp.c:392-431 | When the stream holds every row, row `r` is the whole `r`-th run of `nc` bytes, expanded and stored over the old row. |
| BmpStages.UncompressedShort | src/native/readbmp.c:392-431 | Rows that start at or past the end of the stream read nothing and keep their contents. |
| BmpStages.ShortRows | src/native/readbmp.c:392-431 | When the stream ends inside row `row`, the rows read so far and the untouched rest are the whole result. |
| BmpStages.RowDone | src/native/readbmp.c:392-431 | Storing one more row extends the result by that row and leaves the later rows untouched. |
| BmpStages.ColormapIsFrom | src/native/readbmp.c:99-125 | A colormap that holds, entry by entry, the blue, green and red bytes stored from `p` with stride `e` is the one read_colormap reads there. |
| BmpStart.StartReady | src/native/readbmp.c:464-620 | `start_input_bmp` installs preload_image exactly when all of these hold: the headers pass; a colormap, where the depth has one, has at most 256 entries and is granted; bfOffBits lies past the headers and the colormap; `whole_image` is granted. The installed state has the headers' depth and height. |
| BmpStart.HeadersThen | src/native/readbmp.c:486-566 | Headers that pass lead to the colormap stage just past them. Headers that fail leave the reader unset. |
| BmpStart.HeadersFound | src/native/readbmp.c:486-566 | Passing headers lead to the colormap stage at the end of the info header, with the depth stored. |
| BmpStart.HeadersMissing | src/native/readbmp.c:486-566 | Failing headers leave the reader unset. |
| BmpStart.HeadersRefused | src/native/readbmp.c:486-505 | A short or non-"BM" file header, or an info header that is short or of unknown size, stops the start. |
| BmpStart.InfoRefused | src/native/readbmp.c:501-505 | An info header size other than 12, 40 or 64, or a stream ending inside it, stops the start. |
| BmpStart.InfoBadDepth | src/native/readbmp.c:562-566 | A depth other than 1, 2, 4, 8 or 24, or a plane count other than 1, stops the start. |
| BmpStart.CheckedRefused | src/native/readbmp.c:562-566 | The same, once the header is decoded. |
| BmpStart.MapReady | src/native/readbmp.c:571-619 | From the colormap on, the reader is installed exactly when the colormap, the pad and the image all pass. |
| BmpStart.PadReady | src/native/readbmp.c:586-619 | The reader is installed exactly when the pad is not negative and the image is granted. |
| BmpStart.FileHeaderPassed | src/native/readbmp.c:488-494 | A whole file header starting "BM" hands over to the info header just past it, with bfOffBits from bytes 10-13. |
| BmpStart.InfoPassed | src/native/readbmp.c:496-568 | An info header of a known size within the stream is decoded, then its depth and plane count are checked. |
| BmpStart.CheckedPassed | src/native/readbmp.c:515-564 | An accepted depth and a plane count of 1 lead to the colormap stage. |
| BmpStart.HeadersShort | src/native/readbmp.c:488-505 | A short file header, one without "BM", or an info header that is short or of an unknown size gives no headers. |
| BmpStart.HeadersRead | src/native/readbmp.c:488-568 | With both headers in the stream, headers are found exactly when the depth is accepted and there is one plane. |
| BmpStart.HeadersPassed | src/native/readbmp.c:488-587 | Both headers read, with an accepted depth and plane count: start_input_bmp goes on to the colormap stage just past them. |
| BmpStart.HeadersBadDepth | src/native/readbmp.c:515-562 | Both headers read but the depth or the plane count refused: start_input_bmp leaves the reader as it was. |
| ReadBmpSource.BmpSource.constructor | src/native/readbmp.c:644-674 | The fields `bmp_init` sets. |
| ReadBmpSource.BmpSource.ReadByte | src/native/readbmp.c:68-76 | `read_byte` gives `ReadByteAt` and advances. At the end it raises "Premature end of input file". |
| ReadBmpSource.BmpSource.ReadColormap | src/native/readbmp.c:99-125 | `read_colormap` leaves exactly the state `MapRead` specifies: `n` entries of 3 or 4 bytes, any other size refused. |
| ReadBmpSource.BmpSource.AllocColormap | src/native/readbmp.c:574-587 | The colormap table is granted and zeroed, or "Insufficient memory" is raised. The heap gains exactly the table's blocks. |
| ReadBmpSource.BmpSource.AllocImage | src/native/readbmp.c:597-619 | Stores the row width, then `whole_image`, leaving `ImageOutcome`'s state. The table exists exactly when all `height + 1` requests are granted. |
| ReadBmpSource.BmpSource.PadStage | src/native/readbmp.c:586-619 | The pad, then the image table, leaving `PadOutcome`'s state. |
| ReadBmpSource.BmpSource.ColormapStage | src/native/readbmp.c:571-587 | More than 256 colours raises the colormap error. A refused table raises "Insufficient memory". Otherwise the colormap is read as `ColormapFrom`. |
| ReadBmpSource.BmpSource.Check | src/native/readbmp.c:562-619 | The depth and plane checks, then the rest, leaving `Checked`'s state. The heap gains exactly the tables. |
| ReadBmpSource.BmpSource.ReadInfoHeader | src/native/readbmp.c:495-505 | The info header is read when its size field is 12, 40 or 64 and the stream holds it. Otherwise the state is `InfoOutcome`'s refusal. |
| ReadBmpSource.BmpSource.ReadInfo | src/native/readbmp.c:495-619 | Leaves `InfoOutcome`'s state. |
| ReadBmpSource.BmpSource.Start | src/native/readbmp.c:464-620 | `start_input_bmp` leaves exactly the state `StartOutcome` specifies, with the allocations as granted. The decoder owns both tables. |
| ReadBmpSource.BmpSource.GetNBitRow | src/native/readbmp.c:281-324 | Steps back one stored row and delivers `NBitRow` of it. The rest of the buffer is unchanged. |
| ReadBmpSource.BmpSource.Get24BitRow | src/native/readbmp.c:330-370 | Steps back one stored row and delivers `Bit24Row` of it. The rest of the buffer is unchanged. |
| ReadBmpSource.BmpSource.LoadUncompressed | src/native/readbmp.c:392-431 | The image is `Uncompressed` of the stream, read row by row. `ok` holds exactly when the stream held every row. Otherwise "Premature end of input file" is raised. |
| ReadBmpSource.BmpSource.RunTurn | src/native/readbmp.c:250-270 | An encoded run paints as `RunFrom` specifies. |
| ReadBmpSource.BmpSource.LiteralTurn | src/native/readbmp.c:202-245 | An absolute-mode literal paints and reads as `LiteralFrom` specifies. |
| ReadBmpSource.BmpSource.Command | src/native/readbmp.c:170-270 | A command's effect is `RleCommand`'s. |
| ReadBmpSource.BmpSource.RleTurn | src/native/readbmp.c:164-272 | One loop turn is `RleStep`. |
| ReadBmpSource.BmpSource.ExtractRleData | src/native/readbmp.c:135-273 | `extract_rle_data` leaves exactly `RleFrom`'s state. |
| ReadBmpSource.BmpSource.RowBytes | src/native/readbmp.c:392-407 | The bytes per uncompressed row are `NumCols`. |
| ReadBmpSource.BmpSource.LoadPixels | src/native/readbmp.c:392-435 | The pixels loaded are `PreloadOutcome`'s. `ok` holds exactly when the stream did not run out inside uncompressed rows. |
| ReadBmpSource.BmpSource.Preload | src/native/readbmp.c:378-458 | `preload_image` leaves `PreloadOutcome`'s state. If not stopped, it installs the depth's reader, sets `source_row` to height - 1 and delivers that row. Otherwise the buffer is unchanged. |
| ReadBmpSource.BmpSource.Finish | src/native/readbmp.c:626-636 | `finish_input_bmp` frees the colormap table, `whole_image` and the decoder's own block. Nothing else. |
| ReadBmpSource.BmpSource.ReadCounted | src/native/readbmp.c:68-76 | The `k`-th read_byte since `p0` returns the byte at `p0 + k`, or 0 past the end. It raises the end-of-file error there. |
| ReadBmpSource.BmpSource.ReadEntry | src/native/readbmp.c:99-125 | Entry `i` stores its blue, green and red bytes into channels 2, 1 and 0. The entries before it are kept. |
| ReadBmpSource.BmpSource.ReadEntries | src/native/readbmp.c:99-125 | read_colormap's loop leaves exactly `ColormapFrom` of the stream and reads `n * e` bytes. |
| ReadBmpSource.BmpSource.SkipPad | src/native/readbmp.c:589-595 | The pad loop leaves `Skipped`'s state: the position moves on and only the error flag and message change. |
| ReadBmpSource.BmpSource.MapStage | src/native/readbmp.c:571-619 | The colormap stage leaves `MapOutcome`'s state. The heap gains exactly the blocks of the tables it allocated. |
| ReadBmpSource.BmpSource.Install | src/native/readbmp.c:608-619 | The image table is stored and is blank. Then preload_image is installed and the compression, image size, width and height are copied from the info header. Nothing else changes. |
| ReadBmpSource.BmpSource.RoundUp | src/native/readbmp.c:605 | The loop ends at the least multiple of 4 that is at least `x`. |
| ReadBmpSource.BmpSource.ComputeRowWidth | src/native/readbmp.c:597-606 | The stored row width is `RowWidth`. |
| ReadBmpSource.BmpSource.PackedBytes | src/native/readbmp.c:396-402 | The bytes a packed row reads are `PackedCols`: the width over the indices per byte, counted up, then rounded up to 4. |
| ReadBmpSource.BmpSource.FillLine | src/native/readbmp.c:403-427 | `n` bytes are read and expanded over the row from its start. It succeeds exactly when `n` bytes remained. Otherwise it reads what there is and raises the end-of-file error. |
| ReadBmpSource.BmpSource.NextRow | src/native/readbmp.c:392-431 | Reading row `row` extends the uncompressed result by one row. A short stream stops at its end with the end-of-file error. |
| ReadBmpSource.BmpSource.FillRows | src/native/readbmp.c:392-431 | The row loop leaves exactly `Uncompressed` of the stream. It succeeds exactly when the stream holds every row, and raises the end-of-file error otherwise. |
| ReadBmpSource.BmpSource.LoadRaw | src/native/readbmp.c:392-431 | Uncompressed pixels leave `PlainPreload`'s state. It succeeds exactly when that state keeps preload_image. |
| ReadBmpSource.BmpSource.LoadRle | src/native/readbmp.c:432-435 | Run-length coded pixels leave `RlePreload`'s state. |
| ReadBmpSource.BmpSource.LiteralSample | src/native/readbmp.c:202-245 | One pass of a literal's loop stops exactly at the end of the stream. Otherwise it stores the byte, or its nibbles, as `LiteralByte` says. |
| ReadBmpSource.BmpSource.FirstRow | src/native/readbmp.c:441-457 | The depth's reader is installed and `source_row` is height - 1. That row is delivered as a 24-bit or colour-mapped row. The rest of the buffer is unchanged. |
| ReadBmpSource.BmpInit | src/native/readbmp.c:644-674 | `bmp_init` returns NULL exactly when the allocation is refused. Otherwise it returns the initial state, owning its block. |
| ReadTarga.C5to8Rounds | src/native/readtarga.c:72-77 | Every entry of `c5to8bits` is the nearest byte to `k * 255 / 31`. |
| ReadTarga.C5to8Spans | src/native/readtarga.c:72-77 | The table runs from 0 to 255, strictly increasing, all bytes. |
| ReadTarga.Expand5 | src/native/readtarga.c:277-281 | A 5-bit channel expands to a byte, the nearest one. |
| ReadTarga.Pixel16Unpacks | src/native/readtarga.c:247-287 | A 16-bit pixel packed from 5-bit red, green and blue reads back as the opaque pixel of their expansions. |
| ReadTarga.Pixel16Channels | src/native/readtarga.c:270-281 | A 16-bit pixel is opaque. Its red, green and blue are the expansions of bits 10-14, 5-9 and 0-4 of its little-endian word. |
| ReadTarga.ConvertChannels | src/native/readtarga.c:170-328 | Grey repeats its byte. A mapped pixel takes its entry. 24- and 32-bit pixels are read blue, green, red. All are opaque. |
| ReadTarga.Fetch | src/native/readtarga.c:117-125 | `read_non_rle_pixel` loads `size` getc results, EOF as 0xFF, and leaves everything else. |
| ReadTarga.WalkAppend | src/native/readtarga.c:131-157 | Reading `a + b` pixels is reading `a`, then `b` more. |
| ReadTarga.Duplicates | src/native/readtarga.c:137-140 | Pending duplicates repeat the buffered pixel without reading. |
| ReadTarga.Literals | src/native/readtarga.c:117-157 | Inside a raw block, or without RLE, each call fetches the next `size` bytes. |
| ReadTarga.RunRoundTrip | src/native/readtarga.c:142-156 | A run packet yields its pixel `n` times. |
| ReadTarga.RawRoundTrip | src/native/readtarga.c:142-156 | A raw packet yields its literal pixels. |
| ReadTarga.PacketRoundTrip | src/native/readtarga.c:131-157 | Any encoded packet yields its pixels and ends between packets. |
| ReadTarga.RleRoundTrip | src/native/readtarga.c:131-157 | RLE decoding inverts RLE encoding: any packet list reads back as its pixels, ending just past it. |
| ReadTarga.PlainRoundTrip | src/native/readtarga.c:117-125 | Without RLE, consecutive file pixels come back one per call. |
| ReadTarga.PlainPixelAtEnd | src/native/readtarga.c:117-125 | A pixel cut short by the end of the file reads as 0xFF bytes, without an error. |
| ReadTarga.EncodeTgaHeader | src/native/readtarga.c:398-413 | A written header is 18 bytes. |
| ReadTarga.HeaderRoundTrip | src/native/readtarga.c:398-413 | Parsing a written header gives every field back. |
| ReadTarga.ParsedFieldsOk | src/native/readtarga.c:404-413 | Every parsed field lies within its byte or word. |
| ReadTarga.Classify | src/native/readtarga.c:415-466 | Every rejection is "Invalid or unsupported Targa file". |
| ReadTarga.ClassifyAccepts | src/native/readtarga.c:415-466 | A header is accepted exactly when it describes a supported image: colormap type 0 or 1, 1-4 bytes per pixel, not interlaced, a known subtype. It gets the reader its depth calls for. |
| ReadTarga.ColormapFrom | src/native/readtarga.c:97-110 | The colormap has three channels of `n` bytes each. |
| ReadTarga.ColormapRoundTrip | src/native/readtarga.c:97-110 | Reading back written colormap entries gives the colormap. |
| ReadTarga.ColormapPastEnd | src/native/readtarga.c:83-110 | Entries cut off by the end of the stream read as 1 in each channel. |
| ReadTarga.Configure | src/native/readtarga.c:404-466 | The header decisions touch neither the position, the reader, the tables nor the size. |
| ReadTarga.Install | src/native/readtarga.c:468-478 | A bottom-up image uses preload_image and `whole_image`. A top-down one is read row by row. |
| ReadTarga.Describe | src/native/readtarga.c:481-499 | The ID field and colormap stages keep the pixel, RLE and reader state. |
| ReadTarga.HeaderAt | src/native/readtarga.c:396-413 | A header found in the stream has fields within their bytes. |
| ReadTarga.StartRejects | src/native/readtarga.c:415-421 | A rejected header leaves the size and the reader, and raises the Targa error. |
| ReadTarga.StartLeavesReader | src/native/readtarga.c:386-499 | A start that raises nothing leaves a reader, a `whole_image` of `height` rows of `width` pixels behind preload_image, and a colormap behind a mapped reader. |
| ReadTarga.RefusedImageStillUsed | src/native/readtarga.c:470-478 | As written, a refused `whole_image` of a bottom-up image is left behind preload_image. |
| ReadTarga.RefusedColormapStillRead | src/native/readtarga.c:486-490 | As written, a refused colormap table is still read into. |
| ReadTarga.StartRefusalRaises | src/native/readtarga.c:470-490 | As corrected, a start that raises nothing had every table it needs granted. |
| ReadTarga.StartRoundTrip | src/native/readtarga.c:386-499 | A well-written file starts with no new error when both allocations succeed. Its size, RLE mode, reader and colormap are those written, and the stream stops at the first pixel. |
| ReadTarga.Scan | src/native/readtarga.c:363-380 | Scanning reads `h` rows of `w` pixels. |
| ReadTarga.ScanIsWalk | src/native/readtarga.c:363-380 | Reading `h` rows of `w` pixels reads what `w * h` calls of read_pixel read. |
| ReadTarga.TgaSource.constructor | src/native/readtarga.c:524-554 | The fields `targa_init` sets. |
| ReadTarga.TgaSource.ReadByte | src/native/readtarga.c:83-91 | `read_byte` gives the next byte, or 1 with "Premature end of input file" raised. |
| ReadTarga.TgaSource.ReadNonRlePixel | src/native/readtarga.c:117-125 | The new pixel state is `Fetch` of the old. |
| ReadTarga.TgaSource.ReadRlePixel | src/native/readtarga.c:131-157 | The new pixel state is `PixelStep` of the old, with RLE. |
| ReadTarga.TgaSource.ReadPixel | src/native/readtarga.c:117-157 | Whichever reader was installed: `PixelStep`. |
| ReadTarga.TgaSource.FillRow | src/native/readtarga.c:170-328 | A row reader's loop stores the converted pixels of the walk, and leaves the rest of the buffer. |
| ReadTarga.TgaSource.GetReaderRow | src/native/readtarga.c:170-328 | One row goes into `whole_image[current_row]` when buffered, else into the caller's buffer. |
| ReadTarga.TgaSource.LoadImage | src/native/readtarga.c:370-376 | The preload loop puts file row `j` at image row `height - 1 - j`. |
| ReadTarga.TgaSource.PreloadAsWritten | src/native/readtarga.c:363-380 | As written, preload loads the image and switches to get_memory_row but leaves the caller's buffer unchanged. |
| ReadTarga.TgaSource.Preload | src/native/readtarga.c:363-380 | As corrected, the first call also delivers the top row, and `current_row` is 1. |
| ReadTarga.TgaSource.GetMemoryRow | src/native/readtarga.c:345-355 | Delivers row `current_row` of the image, then moves to the next. |
| ReadTarga.TgaSource.ReadHeader | src/native/readtarga.c:396-400 | The 18-byte header is read, or "Premature end of input file" is raised. |
| ReadTarga.TgaSource.ApplyHeader | src/native/readtarga.c:404-466 | `ok` holds exactly when `Classify` accepts, and the state is `Configure`'s. |
| ReadTarga.TgaSource.AllocImage | src/native/readtarga.c:470-478 | A bottom-up image gets `whole_image` when all rows are granted. Otherwise "Insufficient memory" is raised. |
| ReadTarga.TgaSource.SkipId | src/native/readtarga.c:481-482 | The ID field is thrown away byte by byte. |
| ReadTarga.TgaSource.ReadColormap | src/native/readtarga.c:97-110 | Leaves `MapRead`'s state: 24-bit entries read, any other size refused. |
| ReadTarga.TgaSource.ReadDescription | src/native/readtarga.c:481-499 | Leaves `Describe`'s state. The colormap table exists exactly when 0 < maplen <= 256, the map starts at 0 and the table is granted. |
| ReadTarga.TgaSource.AllocColormap | src/native/readtarga.c:488-489 | A granted, zeroed colormap table, or "Insufficient memory". |
| ReadTarga.TgaSource.Begin | src/native/readtarga.c:404-499 | After the header, leaves `AfterHeader`'s state, with both tables owned. |
| ReadTarga.TgaSource.Start | src/native/readtarga.c:386-499 | `start_input_tga` leaves exactly `StartOutcome`'s state. |
| ReadTarga.TgaSource.Finish | src/native/readtarga.c:505-516 | Frees the colormap and image tables, nothing else. |
| ReadTarga.TgaSource.ReadCounted | src/native/readtarga.c:83-91 | The `k`-th read_byte since `p0` returns the byte at `p0 + k`, or 1 past the end. It raises the end-of-file error there. |
| ReadTarga.TgaSource.ReadEntry | src/native/readtarga.c:97-110 | Entry `i` stores its blue, green and red bytes into channels 2, 1 and 0. The entries before it are kept. |
| ReadTarga.TgaSource.ReadMapStage | src/native/readtarga.c:484-499 | The colormap stage leaves `MapStage`'s state. The colormap table exists exactly when 0 < maplen <= 256, the map start is 0 and its allocation is granted. The heap gains exactly its blocks. |
| ReadTarga.TgaSource.StoreNext | src/native/readtarga.c:170-328 | One turn of a row reader reads the next pixel and stores its converted word at `i`. The other cells are unchanged. |
| ReadTarga.TgaSource.LoadNextRow | src/native/readtarga.c:370-376 | One pass of the preload loop stores file row `row` into image row `height - 1 - row`. `current_row` steps down. |
| ReadTarga.TargaInit | src/native/readtarga.c:524-554 | NULL exactly when refused, else the initial state. |
| ReadTarga.PixelStep | src/native/readtarga.c:117-157 | One call of read_pixel keeps the reader's state consistent with the stream. |
| ReadTarga.Skipped | src/native/readtarga.c:481-482 | Throwing away the ID field changes only the position, the error flag and the message. |
| ReadTarga.ColormapIsFrom | src/native/readtarga.c:97-110 | A colormap that holds, entry by entry, the blue, green and red bytes stored from `p` is the one read_colormap reads there. |
| ReadTarga.ConfigureAccepts | src/native/readtarga.c:404-466 | An accepted header raises nothing. It installs the row reader and run-length flag it classifies to, with a matching pixel size. A colour-mapped reader needs a colormap type of 1. The image and colormap are kept. |
| ReadTarga.TablesAsWritten | src/native/readtarga.c:470-493 | As written, preload is chosen exactly for a bottom-up image. The colormap is read exactly when 0 < maplen <= 256, the map start is 0 and entries are 24 bits. |
| ReadTarga.DescribeLeaves | src/native/readtarga.c:481-499 | The ID field, colormap and size stages raise an error unless they leave a reader that the rows can use. |
| ReadTarga.StartAfterHeader | src/native/readtarga.c:386-499 | Past an accepted header and a granted `whole_image`, start_input_tga goes on to the ID field and the colormap. |
| ReadPpm.PbmChar | src/native/readppm.c:72-84 | `pbm_getc` passes bytes through. A `#` comment collapses into its newline, or EOF. |
| ReadPpm.CommentReadsAsNewline | src/native/readppm.c:72-84 | A comment is consumed up to its newline, which is delivered. |
| ReadPpm.SkipBlanks | src/native/readppm.c:99-103 | The leading-blank loop stops at a non-blank or EOF. |
| ReadPpm.IntegerToken | src/native/readppm.c:93-115 | `read_pbm_integer` gives an unsigned 32-bit value, and 1 with an error. |
| ReadPpm.IntegerRoundTrip | src/native/readppm.c:93-115 | A written decimal after spaces reads back as itself modulo 2^32, and its trailing blank is swallowed. |
| ReadPpm.IntegerAt | src/native/readppm.c:93-115 | The same anywhere in the stream. |
| ReadPpm.IntegerErrors | src/native/readppm.c:99-108 | A letter is "Nonnumeric data in PPM file". An exhausted stream or comment is a premature EOF. |
| ReadPpm.CommentIsBlank | src/native/readppm.c:72-115 | A comment between numbers reads as a blank and ends a number. |
| ReadPpm.ErrorsAfterReads | src/native/readppm.c:342-347 | Reads without error leave the flag. Any failed read raises it. |
| ReadPpm.ToInt32 | src/native/readppm.c:344-347 | The unsigned-to-int conversion is congruent modulo 2^32 and within int. |
| ReadPpm.ParseHeader | src/native/readppm.c:339-347 | Refused as "not a PPM file" exactly when the stream does not start with 'P'. Otherwise three integers are read. |
| ReadPpm.ParseHeaderAt | src/native/readppm.c:339-347 | After 'P' and the discriminator come the three integers. |
| ReadPpm.HeaderFields | src/native/readppm.c:339-353 | Three error-free integers after 'P' and the discriminator are the width, height and maxval. |
| ReadPpm.RescaleEnds | src/native/readppm.c:421-425 | The rescale table maps 0 to 0 and maxval to 255. |
| ReadPpm.RescaleMonotone | src/native/readppm.c:421-425 | The table never decreases. |
| ReadPpm.RescaleInByte | src/native/readppm.c:421-425 | Every entry is a byte. |
| ReadPpm.RescaleIdentityAt255 | src/native/readppm.c:421-425 | With maxval 255 the table is the identity. |
| ReadPpm.RescaleTableBytes | src/native/readppm.c:421-425 | Every table entry is a byte, a valid channel value. |
| ReadPpm.Wrap32 | src/native/readppm.c:424 | C `int` results wrap modulo 2^32. |
| ReadPpm.TruncDiv | src/native/readppm.c:424 | C `/` truncates toward zero. |
| ReadPpm.RescaleAsWritten | src/native/readppm.c:421-425 | The entry as written, in 32-bit int arithmetic, cast to a byte, is a byte. |
| ReadPpm.RescaleAsWrittenAgrees | src/native/readppm.c:421-425 | While `val * 255 + half` fits an int, the written entry is the exact one. |
| ReadPpm.RescaleExactForNetpbm | src/native/readppm.c:421-425 | For every maxval up to 65535 the written table is exact. |
| ReadPpm.RescaleOverflowCounterexample | src/native/readppm.c:421-425 | For maxval 2^24 - 1 the brightest sample maps to 0, not 255. |
| ReadPpm.BufferWidth | src/native/readppm.c:396-404 | The raw row buffer size is not negative. |
| ReadPpm.SelectReaderFormats | src/native/readppm.c:359-393 | Exactly '2', '3', '5' and '6' are accepted. '2' and '5' are grey, '5' and '6' raw, and raw samples are 2 bytes exactly when maxval > 255. |
| ReadPpm.Sample | src/native/readppm.c:254-325 | A raw sample is one byte, or two little-endian. |
| ReadPpm.SampleRoundTrip | src/native/readppm.c:254-325 | Unpacking a written raw row gives back each sample. |
| ReadPpm.PpmSource.PbmGetc | src/native/readppm.c:72-84 | `pbm_getc` gives `PbmChar`. |
| ReadPpm.PpmSource.SkipToNumber | src/native/readppm.c:99-103 | The blank loop gives `SkipBlanks`. |
| ReadPpm.PpmSource.ReadDigits | src/native/readppm.c:108-114 | The digit loop accumulates the run's value modulo 2^32. |
| ReadPpm.PpmSource.ReadPbmInteger | src/native/readppm.c:93-115 | `read_pbm_integer` gives `IntegerToken`, and raises its error. |
| ReadPpm.PpmSource.GetTextGrayRow | src/native/readppm.c:127-152 | Each pixel is the grey of `Lookup` of the integer read for it: its table entry, or the memory past the table when it exceeds maxval. The position and errors are the ones those integers leave. The rest of the buffer is unchanged. |
| ReadPpm.PpmSource.GetTextRgbRow | src/native/readppm.c:158-181 | Each pixel packs `Lookup` of the three integers read for it, with no range check. The rest of the buffer is unchanged. |
| ReadPpm.PpmSource.GetRawRow | src/native/readppm.c:187-325 | One ReadOK of a row, then each pixel is `RawPixel` of its samples, looked up with no range check. A short read raises "Premature end of input file" and writes no pixel. |
| ReadPpm.PpmSource.AllocIoBuffer | src/native/readppm.c:396-404 | The I/O buffer is one raw row, granted or not. |
| ReadPpm.PpmSource.AllocRescale | src/native/readppm.c:407-426 | The table is granted exactly when the request for `maxval + 1` bytes is granted. Then it has `maxval + 1` entries, filled with `Rescale`. |
| ReadPpm.PpmSource.ReadHeader | src/native/readppm.c:337-347 | The header reads give `ParseHeader` and its errors. |
| ReadPpm.PpmSource.Start | src/native/readppm.c:331-427 | `start_input_ppm`: "Not a PPM file" for a bad header or discriminator, else the reader, the buffers and the table. Every buffer it keeps is live and distinct. |
| ReadPpm.PpmSource.Install | src/native/readppm.c:355-426 | The discriminator switch and the allocations. |
| ReadPpm.PpmSource.Allocate | src/native/readppm.c:396-426 | Both allocations. A refused table frees the I/O buffer and forgets its handle. |
| ReadPpm.PpmSource.Finish | src/native/readppm.c:433-444 | Frees exactly the table and the I/O buffer that are held. |
| ReadPpm.PpmSource.constructor | src/native/readppm.c:452-480 | ppm_init's state: nothing read, a width and height of -1, no error, no buffers and no reader. |
| ReadPpm.PpmSource.ReadThree | src/native/readppm.c:342-347 | Three integers read back to back are the run of the next three tokens. The position and errors are the ones that run leaves. |
| ReadPpm.PpmSource.ReadFields | src/native/readppm.c:342-347 | Width, height and maxval are `HeaderAfter`'s three integers. The position and errors are the ones those tokens leave. |
| ReadPpm.PpmSource.ReadRunInteger | src/native/readppm.c:127-181 | Integer `n` of a run is token `n`. The position and errors advance past it. |
| ReadPpm.PpmSource.ReadRgbSamples | src/native/readppm.c:158-181 | The three channels of pixel `i` are `Lookup` of tokens `3i`, `3i + 1` and `3i + 2`. |
| ReadPpm.PpmSource.TableByte | src/native/readppm.c:127-325 | `rescale[v]` is `Lookup`: the entry when `v` is within the table, else the memory past it. |
| ReadPpm.Lookup | src/native/readppm.c:142 | An index within the table reads its entry; any read gives a byte. |
| ReadPpm.RawRowReadsBack | src/native/readppm.c:187-325 | A raw row whose samples are at most maxval reads back, through the table start_input_ppm builds, as the rescaled samples, whatever lies past the table. |
| ReadPpm.SampleAboveMaxvalReadsPast | src/native/readppm.c:206 | A sample above maxval makes the pixel depend on the memory past the table. |
| ReadPpm.PpmSource.FillGrayRow | src/native/readppm.c:127-152 | get_text_gray_row stores at each pixel `k` the grey of `Lookup` of the `k`-th integer. The cells past the width are unchanged. |
| ReadPpm.PpmSource.FillRgbRow | src/native/readppm.c:158-181 | get_text_rgb_row stores at each pixel the ARGB word of `Lookup` of its three integers. The cells past the width are unchanged. |
| ReadPpm.PpmSource.RawPixelAt | src/native/readppm.c:187-325 | Pixel `i` of the row in the I/O buffer is `RawPixel`: one or three samples of one or two bytes, each through `Lookup`. |
| ReadPpm.PpmSource.FillRawRow | src/native/readppm.c:187-325 | The raw readers store `RawPixel` at each pixel of the row. The cells past the width are unchanged. |
| ReadPpm.IoBufferFreedTwice | src/native/readppm.c:414-419 | As written, a raw file whose I/O buffer is granted but whose table is refused frees the I/O buffer twice. |
| ReadPpm.PpmInit | src/native/readppm.c:452-480 | NULL exactly when refused, else the initial state. |
| ReadPpm.CommentEnd | src/native/readppm.c:72-84 | A comment ends at the first newline at or after `i`, or at the end of the stream. |
| ReadPpm.DigitRunEnd | src/native/readppm.c:108-114 | A run of digits ends at the first non-digit, or at the end of the stream. |
| TiffBuffer.Descriptor.Read | src/native/archive/tiff/tif_custom.c:280-281 | `read(2)` gives 1 to `count` bytes, or 0 at EOF, or -1 on failure. |
| TiffBuffer.Descriptor.constructor | src/native/archive/tiff/tif_custom.c:280-281 | A descriptor over the given bytes, at position 0. |
| TiffBuffer.FileBuffer.ReadSegments | src/native/archive/tiff/tif_custom.c:107-149 | The read loop copies `min(size, remaining)` bytes and reports `ReadCountAsWritten`. |
| TiffBuffer.FileBuffer.Read | src/native/archive/tiff/tif_custom.c:107-149 | As corrected, the count is the bytes copied, `min(size, remaining)`. They are the buffer's contents at the cursor, which moves past them. |
| TiffBuffer.FileBuffer.ReadAsWritten | src/native/archive/tiff/tif_custom.c:107-149 | As written, the count is `ReadCountAsWritten`. |
| TiffBuffer.FileBuffer.Seek | src/native/archive/tiff/tif_custom.c:168-201 | A target inside the recorded size moves the cursor there and is returned. Anything else returns -1 and leaves the cursor. A valid buffer stays valid. |
| TiffBuffer.FileBuffer.Size | src/native/archive/tiff/tif_custom.c:245-250 | The recorded size, which for a valid buffer is the number of bytes drained. |
| TiffBuffer.FileBuffer.FreeBuffer | src/native/archive/tiff/tif_custom.c:207-218 | Every block and the row array are freed. |
| TiffBuffer.FileBuffer.Close | src/native/archive/tiff/tif_custom.c:226-239 | The blocks, the row array and the structure are freed, and nothing else. It returns 0. |
| TiffBuffer.FileBuffer.ReadOneBuffer | src/native/archive/tiff/tif_custom.c:271-305 | It fills the current block. It stops at EOF, or frees the blocks on a read failure. |
| TiffBuffer.FileBuffer.constructor | src/native/archive/tiff/tif_custom.c:316-331 | A new file_buffer: no blocks, no row table, size 0, cursor at 0, nothing leaked. |
| TiffBuffer.FileBuffer.CopySegment | src/native/archive/tiff/tif_custom.c:130-140 | One memcpy appends the `len` contents bytes at the cursor to the bytes already copied. The rest of `buf` is unchanged. |
| TiffBuffer.FileBuffer.ReadPass | src/native/archive/tiff/tif_custom.c:115-147 | One pass copies the segment at the cursor. On overflow, the count returned is `ReadCountAsWritten` and every byte within the data has been copied. Otherwise the bytes left drop by the segment, and the loop's measure decreases while bytes remain. |
| TiffBuffer.GrowTable | src/native/archive/tiff/tif_custom.c:343-356 | The row array grows by one. On failure the blocks are freed. |
| TiffBuffer.AddBlock | src/native/archive/tiff/tif_custom.c:359-365 | A new empty block. On failure the blocks are freed. |
| TiffBuffer.OpenBlock | src/native/archive/tiff/tif_custom.c:340-365 | Grows if needed, then adds a block. Failure means released. |
| TiffBuffer.DrainStep | src/native/archive/tiff/tif_custom.c:333-370 | One loop turn keeps the drain invariant, or ends drained or released. |
| TiffBuffer.BufferFile | src/native/archive/tiff/tif_custom.c:312-382 | `buffer_file` drains the descriptor. On success the contents are the descriptor's remaining bytes, the descriptor is at its end and the cursor is at 0. The heap gains exactly the structure, its blocks and any leaked row arrays. Release means a failed read or a refused allocation. |
| TiffBuffer.BufferTable.FdOpen | src/native/archive/tiff/tif_custom.c:388-408 | A descriptor below MAX_FD is drained into its slot. A larger one is refused before reading. |
| TiffBuffer.BufferTable.ReadProc | src/native/archive/tiff/tif_custom.c:107-149 | Defined exactly when the slot holds a structure whose blocks were not freed. Then it copies and reports as `Read`. A NULL slot or freed blocks are reported as undefined and change nothing. |
| TiffBuffer.BufferTable.WriteProc | src/native/archive/tiff/tif_custom.c:156-161 | Every write fails with -1. |
| TiffBuffer.BufferTable.SeekProc | src/native/archive/tiff/tif_custom.c:168-201 | Defined exactly when the slot holds a structure still allocated, also after a failed drain. Then it behaves as `Seek` over the recorded size. A NULL slot or a closed structure is reported as undefined. |
| TiffBuffer.BufferTable.SizeProc | src/native/archive/tiff/tif_custom.c:245-250 | Defined exactly when the slot holds a structure still allocated. Then it is the recorded size, the bytes drained for a valid buffer. |
| TiffBuffer.BufferTable.CloseProc | src/native/archive/tiff/tif_custom.c:226-239 | Defined exactly when the slot's blocks were not freed. Then it frees the blocks, the row array and the structure, and the slot keeps its pointer. The double free after a failed drain and a NULL slot are reported as undefined. |
| TiffBuffer.BufferTable.constructor | src/native/archive/tiff/tif_custom.c:77 | The table of buffers has MAX_FD slots, all NULL. |
| TiffBuffer.ReadCountOverstates | src/native/archive/tiff/tif_custom.c:107-149 | The reported count exceeds the bytes copied by the part of the request beyond the first block boundary past the end. |
| TiffBuffer.ReadCountCounterexample | src/native/archive/tiff/tif_custom.c:107-149 | A 10000-byte read of a 100-byte buffer reports 1908. |
| TiffBuffer.SeekToEndRefused | src/native/archive/tiff/tif_custom.c:168-201 | The end of the buffer is not a seek target. |
| TiffBuffer.ConcatIndex | src/native/archive/tiff/tif_custom.c:107-149 | Byte `j` of block `r` is at offset `r * BUF_SIZE + j`. |
| TiffBuffer.ConcatLength | src/native/archive/tiff/tif_custom.c:245-250 | Full blocks but the last: the size is `(n - 1) * BUF_SIZE` plus the last block's length. |
| TiffBuffer.CopyOut | src/native/archive/tiff/tif_custom.c:135 | memcpy copies `len` bytes into `buf` at `at`. The rest of `buf` is unchanged. |
| TiffBuffer.ConcatGrowLast | src/native/archive/tiff/tif_custom.c:278-300 | Appending to the last block appends to the contents. |
| TiffBuffer.ConcatSlice | src/native/archive/tiff/tif_custom.c:107-149 | A slice inside one block is the same slice of the contents. |
| TiffBuffer.SegmentInBlock | src/native/archive/tiff/tif_custom.c:107-149 | A segment of the contents that starts and ends inside block `r` is that block's slice. |
| TiffBuffer.OverflowCount | src/native/archive/tiff/tif_custom.c:107-149 | When a segment first runs past the data, the count the loop returns is `ReadCountAsWritten`. The bytes copied are those up to the end of the data. |
| TiffBuffer.TopUp | src/native/archive/tiff/tif_custom.c:333-370 | A pass that fills the open block keeps the blocks equal to the bytes read. At the end of the stream they hold all of them. A release means a failed read or a refused allocation. |
| TiffBuffer.NewRow | src/native/archive/tiff/tif_custom.c:333-370 | A pass that opens a new block, growing the row table when needed, keeps the blocks equal to the bytes read. A release means a failed read or a refused allocation. |
| ReadTiff.Pipes.TiffInit | src/native/image_decode/readtiff.c:297-336 | The first call clears every slot. Later calls leave them. The source block is NULL exactly when refused. |
| ReadTiff.Pipes.StartInputTiff | src/native/image_decode/readtiff.c:185-278 | A descriptor at or above MAX_FD raises "File descriptor is too large". Otherwise it drains into its slot, leaking nothing. |
| ReadTiff.Pipes.PipeRead | src/native/image_decode/readtiff.c:360-405 | Defined exactly when the slot holds a structure whose rows were not freed. Then it copies and reports as `Read`. A NULL slot or freed rows are reported as undefined and change nothing. |
| ReadTiff.Pipes.PipeWrite | src/native/image_decode/readtiff.c:411-416 | Writing fails with -1. |
| ReadTiff.Pipes.PipeSeek | src/native/image_decode/readtiff.c:422-457 | Defined exactly when the slot holds a structure still allocated, also after a failed drain. Then it behaves as `Seek` over the recorded size. A NULL slot is reported as undefined. |
| ReadTiff.Pipes.PipeSize | src/native/image_decode/readtiff.c:498-502 | Defined exactly when the slot holds a structure still allocated. Then it is the recorded size, the bytes drained for a valid buffer. |
| ReadTiff.Pipes.PipeClose | src/native/image_decode/readtiff.c:480-493 | Defined exactly when the slot's rows were not freed. Then it frees the rows, the row array and the structure, clears only its slot, and returns 0. The second free_buffer after a failed drain and a NULL slot are reported as undefined. |
| ReadTiff.Pipes.constructor | src/native/image_decode/readtiff.c:79-81 | At program start the buffer table holds its static contents and is not yet initialized. |
| ImageBuffer.DefaultColorModel | src/java/vlc/net/content/image/ImageBuffer.java:71-90 | A model exists exactly for 1-4 components. It has 8 bits per component, alpha exactly at 4 components and red from 3. |
| ImageBuffer.Shrunk | src/java/vlc/net/content/image/ImageBuffer.java:385-389 | The limit after failures is within [0, MEM_LIMIT]. |
| ImageBuffer.ChunkRows | src/java/vlc/net/content/image/ImageBuffer.java:370-381 | The next chunk takes at least one row and no more than remain. |
| ImageBuffer.ChunkRowsFit | src/java/vlc/net/content/image/ImageBuffer.java:370-381 | It fits the limit unless it is a single over-wide row, and takes all remaining rows when they fit. |
| ImageBuffer.PlanCoversImage | src/java/vlc/net/content/image/ImageBuffer.java:348-430 | The chunks hold all the rows, at least one each for a non-empty image, each within the limit unless a single row. |
| ImageBuffer.OneChunk | src/java/vlc/net/content/image/ImageBuffer.java:366-381 | An image within MEM_LIMIT, granted at once, is one chunk. |
| ImageBuffer.WideRowNeverAllocated | src/java/vlc/net/content/image/ImageBuffer.java:372-376 | As written, a row wider than the limit gives a chunk of 0 rows, so the loop never ends. The corrected chunk takes the row. |
| ImageBuffer.Locate | src/java/vlc/net/content/image/ImageBuffer.java:133-146 | The chunk found is the one whose rows contain `row`. |
| ImageBuffer.RowFound | src/java/vlc/net/content/image/ImageBuffer.java:133-146 | Every image row is in some chunk. |
| ImageBuffer.PastEndNotFound | src/java/vlc/net/content/image/ImageBuffer.java:133-146 | The row just past the image is in none. |
| ImageBuffer.RowAtHeightOverruns | src/java/vlc/net/content/image/ImageBuffer.java:117 | As written, row == height passes the guard and fails with ArrayIndexOutOfBoundsException. The corrected guard refuses it. |
| ImageBuffer.RowCheckAgrees | src/java/vlc/net/content/image/ImageBuffer.java:117-124 | On every other row the two guards agree. |
| ImageBuffer.JoinedLength | src/java/vlc/net/content/image/ImageBuffer.java:421-429 | The chunks join into `rows * width` ints. |
| ImageBuffer.RemovedKeepsOthers | src/java/vlc/net/content/image/ImageBuffer.java:210-230 | Removal drops `x`, keeps every other consumer and keeps the list free of repeats. |
| ImageBuffer.RemoveUndoesAdd | src/java/vlc/net/content/image/ImageBuffer.java:161-230 | Removing what was just added restores the list. |
| ImageBuffer.RemovedAt | src/java/vlc/net/content/image/ImageBuffer.java:210-230 | Removal keeps the entries before and after `x`. |
| ImageBuffer.IndexOf | src/java/vlc/net/content/image/ImageBuffer.java:215-222 | The search finds the first `x`, or `count`. |
| ImageBuffer.RemoveShiftDefect | src/java/vlc/net/content/image/ImageBuffer.java:224-229 | As written, [1,2,3] minus 1 is [2,2]. [1,2] minus 3 is [1]. Removing from an empty list leaves count -1. |
| ImageBuffer.Each | src/java/vlc/net/content/image/ImageBuffer.java:249-286 | The same call goes to each consumer in order. |
| ImageBuffer.PixelsForEach | src/java/vlc/net/content/image/ImageBuffer.java:267-272 | Each registered consumer gets the pixels once. Others get none. |
| ImageBuffer.PixelsForRuns | src/java/vlc/net/content/image/ImageBuffer.java:267-272 | Each consumer gets the first `n` chunks in order. |
| ImageBuffer.ProductionDeliversImage | src/java/vlc/net/content/image/ImageBuffer.java:241-286 | A production run sends every consumer the whole image and no one else any of it. |
| ImageBuffer.ImageBuffer.constructor | src/java/vlc/net/content/image/ImageBuffer.java:68-98 | The colour model for the component count, the dimensions, and room for MAX_CONSUMERS with none registered. |
| ImageBuffer.NewImageBuffer | src/java/vlc/net/content/image/ImageBuffer.java:68-102 | `new ImageBuffer` fails with ArithmeticException for width 0 and NegativeArraySizeException for a negative `width * height`. Otherwise it succeeds. With a positive width the buffer is valid and holds `width * height` zeros in `Plan`'s chunks. With a negative width it is one chunk of `NegativeWidthRows` rows. |
| ImageBuffer.ImageBuffer.AllocateBuffer | src/java/vlc/net/content/image/ImageBuffer.java:348-430 | The exception is `AllocationFailure`. Without one, the chunks follow `Plan` for a positive width, or are the one chunk of `NegativeWidthRows` rows for a negative width, fresh and zeroed. |
| ImageBuffer.ImageBuffer.NegativeWidthChunk | src/java/vlc/net/content/image/ImageBuffer.java:364-429 | With a negative width and a height that is not positive, the one chunk has `NegativeWidthRows` rows, counted back from its length by truncating division. |
| ImageBuffer.NegativeWidthOneChunk | src/java/vlc/net/content/image/ImageBuffer.java:364-416 | That chunk's rows are between the height and 0. It leaves no rows over, so the allocation loop ends after it, and its size is not negative. |
| ImageBuffer.NegatedDivision | src/java/vlc/net/content/image/ImageBuffer.java:429 | Java's truncating `/` of a multiple of a negative width by that width gives back the multiple. |
| ImageBuffer.ImageBuffer.IsConsumer | src/java/vlc/net/content/image/ImageBuffer.java:191-200 | True exactly when `ic` is registered. |
| ImageBuffer.ImageBuffer.AddConsumer | src/java/vlc/net/content/image/ImageBuffer.java:161-183 | Appends `ic` unless present, growing the array. |
| ImageBuffer.ImageBuffer.RemoveConsumer | src/java/vlc/net/content/image/ImageBuffer.java:210-230 | As corrected, the list becomes `Removed(old, ic)`. |
| ImageBuffer.ImageBuffer.Deliver | src/java/vlc/net/content/image/ImageBuffer.java:249-286 | The calls are `Production` of the chunks. |
| ImageBuffer.ImageBuffer.StartProduction | src/java/vlc/net/content/image/ImageBuffer.java:241-286 | Adds `ic`, then sends every consumer the image with the single-frame hint. |
| ImageBuffer.ImageBuffer.RequestTopDownLeftRightResend | src/java/vlc/net/content/image/ImageBuffer.java:302-335 | Sends `ic` alone the image with the top-down-left-right hint. |
| ImageBuffer.ImageBuffer.SetImageRow | src/java/vlc/net/content/image/ImageBuffer.java:114-150 | The error is `RowRejection`. Otherwise row `row` becomes `rowData[..width]` and every other pixel is unchanged. |
| ImageBuffer.ImageBuffer.FindRow | src/java/vlc/net/content/image/ImageBuffer.java:126-146 | Finds the chunk holding the row, and the row's offset in it. |
| ImageBuffer.ImageBuffer.CopyRow | src/java/vlc/net/content/image/ImageBuffer.java:149 | The arraycopy writes the row into the image. |
| ImageBuffer.ImageBuffer.FindConsumer | src/java/vlc/net/content/image/ImageBuffer.java:215-222 | The search finds the first place of `ic`, or `count` when it is not registered. |
| ImageBuffer.ImageBuffer.ShiftDown | src/java/vlc/net/content/image/ImageBuffer.java:224-226 | Each consumer after place `i` moves down one place. The slots from `count - 1` on are unchanged. |
| ImageBuffer.ImageBuffer.SendChunks | src/java/vlc/net/content/image/ImageBuffer.java:267-272 | The calls made are `Runs`: the chunks in order, each to each consumer, at the row where it starts. |
| ImageBuffer.ImageBuffer.Chunks | src/java/vlc/net/content/image/ImageBuffer.java:421-429 | The contents of the chunks, one per chunk. |
| ImageBuffer.ImageBuffer.AllocateChunks | src/java/vlc/net/content/image/ImageBuffer.java:348-430 | The chunks allocated follow `Plan`. Each is fresh and all zeros. |
| ImageBuffer.ImageBuffer.AllocateChunk | src/java/vlc/net/content/image/ImageBuffer.java:365-392 | A chunk of `ChunkRows` rows for the shrunk memory limit, fresh and all zeros. |
| ImageBuffer.ImageBuffer.TryAllocate | src/java/vlc/net/content/image/ImageBuffer.java:370-381 | A chunk of `ChunkRows` rows for the given limit, fresh and all zeros. |
| ImageBuffer.PlanStep | src/java/vlc/net/content/image/ImageBuffer.java:348-430 | The plan is the next chunk's rows, then the plan for the rows left. |
| ImageBuffer.ZeroChunks | src/java/vlc/net/content/image/ImageBuffer.java:421-429 | Chunks of zeros join into an image of zeros. |
| ImageBuffer.RemovedAbsent | src/java/vlc/net/content/image/ImageBuffer.java:210-230 | Removing a consumer that is not registered leaves the list unchanged. |
| ImageBuffer.PixelsForAppend | src/java/vlc/net/content/image/ImageBuffer.java:249-286 | Delivering two runs of chunks sends the pixels of the first, then those of the second. |
| ByteBufferImage.AllocateDirect | src/java/vlc/image/ByteBufferImage.java:93 | `allocateDirect` refuses exactly a negative capacity. Otherwise it gives a fresh buffer of that limit. |
| ByteBufferImage.AcceptedFits | src/java/vlc/image/ByteBufferImage.java:132-155 | An accepted image has positive dimensions, a known type, and a buffer holding its whole int-sized size. |
| ByteBufferImage.AsWrittenAgreesWhenFits | src/java/vlc/image/ByteBufferImage.java:135-148 | Without int wrap, the checks as written equal the corrected ones. |
| ByteBufferImage.WrappedSizeAccepted | src/java/vlc/image/ByteBufferImage.java:147 | 65536 x 65536 wraps to 0, so as written an empty buffer is accepted. The corrected check refuses it. |
| ByteBufferImage.DescriptionsDistinct | src/java/vlc/image/ByteBufferImage.java:285-298 | The four types have distinct descriptions. Any other type is "UNKNOWN". |
| ByteBufferImage.ValidSizeIsInt | src/java/vlc/image/ByteBufferImage.java:236-265 | A valid image's size fits an int. |
| ByteBufferImage.ByteBufferImage.constructor | src/java/vlc/image/ByteBufferImage.java:149-155 | The fields are stored, one level. |
| ByteBufferImage.ByteBufferImage.Levels | src/java/vlc/image/ByteBufferImage.java:198-200 | A valid image has at least one level. |
| ByteBufferImage.ByteBufferImage.GetBuffer | src/java/vlc/image/ByteBufferImage.java:207-210 | The first buffer, rewound. |
| ByteBufferImage.ByteBufferImage.GetBuffers | src/java/vlc/image/ByteBufferImage.java:217-227 | Every level rewound and copied into `ret_buf`, or a new array. A null level gives NullPointerException. |
| ByteBufferImage.ByteBufferImage.SetBuffer | src/java/vlc/image/ByteBufferImage.java:236-245 | Null gives NullPointerException, too small gives IllegalArgumentException, else the only level. |
| ByteBufferImage.ByteBufferImage.SetBuffers | src/java/vlc/image/ByteBufferImage.java:253-265 | Null, empty, a null first element, or a first limit other than the size are each refused. Otherwise the levels are the array. |
| ByteBufferImage.NewImageGray | src/java/vlc/image/ByteBufferImage.java:132-155 | Rejections in the source's order. Otherwise the image. |
| ByteBufferImage.NewImageWithBuffer | src/java/vlc/image/ByteBufferImage.java:109-115 | The same corrected checks as `NewImageGray`, grey for one and two components. |
| ByteBufferImage.NewImage | src/java/vlc/image/ByteBufferImage.java:87-94 | A negative int product is refused by `allocateDirect`. Otherwise the corrected checks of `NewImageGray` run over a fresh buffer of the int product. |
| ByteBufferImage.ByteBuffer.constructor | src/java/vlc/image/ByteBufferImage.java:93 | A new buffer's limit is its capacity and its position is 0. |
| ByteBufferImage.ByteBuffer.Rewind | src/java/vlc/image/ByteBufferImage.java:207-210 | Rewinding puts the position back at 0. |
| ByteBufferImage.SizeBounds | src/java/vlc/image/ByteBufferImage.java:135-148 | An image's size is at least its width times its height, and that is at least each of them. |
| ImageFileNameMap.LocalIsFirstMatch | src/java/vlc/net/content/ImageFileNameMap.java:77-86 | The local answer is the first extension, in order, that the upper-cased name ends with. |
| ImageFileNameMap.UpperEnding | src/java/vlc/net/content/ImageFileNameMap.java:77-86 | An upper-cased name ending in a known extension gets its type. |
| ImageFileNameMap.KnownExtension | src/java/vlc/net/content/ImageFileNameMap.java:75-94 | Any name ending in a known extension, in any case, gets its type. |
| ImageFileNameMap.UnknownDelegated | src/java/vlc/net/content/ImageFileNameMap.java:88-93 | An unknown ending goes to the previous map, or null. |
| ImageFileNameMap.CaseBlind | src/java/vlc/net/content/ImageFileNameMap.java:75-94 | Along a chain, the answer depends only on the upper-cased name. |
| ImageFileNameMap.LocalFirst | src/java/vlc/net/content/ImageFileNameMap.java:75-94 | A local answer never reaches the previous map. Otherwise the previous map answers. |
| ImageFileNameMap.EndingDecides | src/java/vlc/net/content/ImageFileNameMap.java:77-86 | A known longer ending settles whether a name ends with a shorter suffix. A known shorter ending must itself end the longer suffix. |
| ImageFileNameMap.ExtensionEndings | src/java/vlc/net/content/ImageFileNameMap.java:77-86 | No known extension ends with one checked before it (.TIFF does not end with .TIF), so each name matches one branch only. |
| ImageContentHandlerFactory.TypesDistinct | src/java/vlc/net/content/ImageContentHandlerFactory.java:79-94 | No two handler types are equal ignoring case. |
| ImageContentHandlerFactory.LocalHandlerIff | src/java/vlc/net/content/ImageContentHandlerFactory.java:79-94 | The local tests pick `h` exactly when the type is `h`'s, ignoring case. |
| ImageContentHandlerFactory.HandlerForOwnType | src/java/vlc/net/content/ImageContentHandlerFactory.java:77-102 | Every handler is made for its own type, in any case. |
| ImageContentHandlerFactory.UnknownDelegated | src/java/vlc/net/content/ImageContentHandlerFactory.java:96-101 | An unknown type goes to the previous factory, or null. |
| ImageContentHandlerFactory.KnownNotDelegated | src/java/vlc/net/content/ImageContentHandlerFactory.java:77-102 | A known type never reaches the previous factory. |
| ImageContentHandlerFactory.LocalCaseBlind | src/java/vlc/net/content/ImageContentHandlerFactory.java:79-94 | Types equal ignoring case get the same local handler. |
| ImageContentHandlerFactory.CaseBlind | src/java/vlc/net/content/ImageContentHandlerFactory.java:77-102 | Along a chain, types equal ignoring case get the same answer. |
| ImageContentHandlerFactory.IgnoreCaseEquivalence | src/java/vlc/net/content/ImageContentHandlerFactory.java:79 | Comparing without regard to case is symmetric and transitive. |

## Left out

- ReadBmp.RowWidth: reserves `width + 4 * 8` cells at packed depths, where readbmp.c:603 has `width + 3 * 8`. ReadBmpSource.BmpSource.ComputeRowWidth and ReadBmp.ImageOutcome use this corrected width. The written width is `ReadBmp.RowWidthAsWritten` (see Findings).
- ReadBmpSource.BmpSource.ExtractRleData: uses the byte-count pad rule after an RLE4 literal, not the rule written at readbmp.c:237-244. The written rule is `RleFrom(…, false, …)` (see Findings).
- BmpStages.RlePreload: uses the same corrected pad rule.
- ReadBmp.Put: a store past the end of a row, or outside the rows, is dropped. The source's `*out_ptr++` writes past the row into neighbouring memory, which the model does not represent.
- BmpStages.Poke: drops stores past the row in the same way.
- ReadBmp.Blank: rows of a freshly allocated `whole_image` start as zeros. The source's malloc'd rows are uninitialised.
- BmpStages.MapAt: an index past the colormap reads 0. The source reads past the allocated row.
- ReadBmp.ParseInfo: a 12-byte OS/2 header gets no compression (None), which preload treats as uncompressed. The source reads `compression`, `image_size` and `clrUsed` from locals it never initialises on that path.
- ReadTarga.TgaSource.AllocImage: a refused `whole_image` raises "Insufficient memory". The source goes on with a NULL table. The written behaviour is `ReadTarga.TablesAsWritten` (see Findings).
- ReadTarga.TgaSource.AllocColormap: a refused colormap table raises "Insufficient memory". The source reads into a NULL table.
- ReadTarga.TgaSource.FillRow: requires every colormap index read to lie inside the colormap. The source indexes the colormap unchecked.
- ReadTarga.TgaSource.GetReaderRow: the same colormap-index requirement.
- ReadTarga.TgaSource.Preload: the same colormap-index requirement. It also delivers the first row, which the source omits (see Findings).
- TiffBuffer.BufferTable.ReadProc: returns the corrected count of bytes copied. The source's count is `TiffBuffer.FileBuffer.ReadAsWritten` (see Findings).
- ReadTiff.Pipes.PipeRead: returns the corrected count in the same way.
- TiffBuffer.BufferTable.ReadProc: TIFFFdOpen (tif_custom.c:388-408) hands the procedures to libtiff even after a failed drain. Reading then goes through freed blocks or a NULL slot. That is undefined behaviour, which the model reports as `defined == false` without saying what happens.
- TiffBuffer.BufferTable.SeekProc: a NULL slot, or a structure that `CloseProc` has freed, is dereferenced. The model reports it as undefined without saying what happens.
- TiffBuffer.BufferTable.SizeProc: the same NULL or freed structure is reported as undefined.
- TiffBuffer.BufferTable.CloseProc: after a failed drain the source frees the blocks and the row array a second time, and it dereferences a NULL slot. Both are reported as undefined, and the model leaves the heap as it was.
- ReadTiff.Pipes.PipeRead: start_input_tiff (readtiff.c:200-211) passes the procedures to TIFFClientOpen whatever the drain did. Reading freed rows or a NULL slot is reported as undefined without saying what happens.
- ReadTiff.Pipes.PipeSeek: a NULL slot, left by a refused structure (readtiff.c:634-638), is reported as undefined.
- ReadTiff.Pipes.PipeSize: a NULL slot is reported as undefined.
- ReadTiff.Pipes.PipeClose: after free_buffer (readtiff.c:463-473) the source frees the rows and the row array a second time, and it dereferences a NULL slot. Both are reported as undefined, and the model leaves the heap and the table as they were.
- TiffBuffer.OpenBlock: stops after a failed growth of the row-pointer array. The source frees the blocks and then stores the new row through the freed array anyway (tif_custom.c:343-365, readtiff.c:556-639), a use-after-free the model does not represent.
- ReadPpm.PpmSource.AllocRescale: fills the table with the exact `Rescale`, not the 32-bit `RescaleAsWritten`. The two agree for every maxval up to 65535 (`ReadPpm.RescaleExactForNetpbm`; see Findings). At maxval 2^31 - 1 the source's fill loop `val <= maxval; val++` (readppm.c:422) overflows its `int val`, which is undefined behaviour. The model fills all `maxval + 1` entries and stops.
- ReadPpm.PpmSource.Allocate: forgets the I/O buffer's handle when freeing it after a refused table. The source keeps the dangling pointer and frees it again in finish (see Findings).
- ReadPpm.PpmSource.GetTextGrayRow: an integer above maxval indexes `rescale` unchecked (readppm.c:142) and reads memory past the table, which is undefined behaviour. The model reads it through `Lookup`, where the parameter `past` stands for that memory. Which bytes lie there is not modelled.
- ReadPpm.PpmSource.GetTextRgbRow: the alpha channel packs a local the source never assigns. Here it is a parameter standing for its low byte. An integer above maxval reads past the table as in the grey reader (readppm.c:174-176).
- ReadPpm.PpmSource.GetRawRow: a raw sample above maxval reads past the table in the same way (readppm.c:206, 241-243, 277, 314-320). The parameter `past` stands for that memory.
- Common.Alloc2D: a negative row count fails without a request. A refused table is returned as None without touching it. The source's `malloc` of a negative size and its stores through a NULL table are not represented.
- DecodeImage.Argb: the pixel word is its unsigned 32-bit pattern. The source stores it into a signed `jint`, whose bit pattern is the same.
- ReadBmpSource.BmpSource.ComputeRowWidth: uses mathematical integers for `bPad` and `row_width`. Overflow of C `int` for absurd header values is not modelled.
- DecodeImage.LookupDecoder: models the search of `available_types` and the "Unknown file type" message. It leaves out the retry loop in decode_image.c:224-252, which calls a matching init function again and again while it returns NULL. It also leaves out the store through the unset `params` when nothing matches. Neither has a well-defined result to state. The `sprintf` of the message into `char buf[100]` (decode_image.c:214, 245) overflows for a type name longer than 78 bytes. The model's message is the whole text.
- JNI, the Java-side pixel buffers, `setjmp`-free error propagation back into Java and the decode loop of decode_image.c are not part of this model. A decoder's row reader is modelled on the row buffer it fills.
- libtiff itself is not part of this model: `TIFFClientOpen`, the TIFF row getters of readtiff.c, the memory-map procedures and the error and warning handlers. Only the block-buffer adapter is modelled. Windows-only macros are left out.
- Descriptor I/O (`read(2)`) is a `Descriptor` object over a fixed byte sequence that may fail at its end.
- Memory exhaustion is an oracle on request numbers, both for `malloc` and for Java's `OutOfMemoryError` in `allocateBuffer`.
- ImageBuffer.ChunkRows: takes at least one row even when a row is wider than the limit. As written the chunk takes 0 rows and `allocateBuffer` never ends (see Findings).
- ImageBuffer.ImageBuffer.AllocateBuffer: the growable `chunkPtrs` array (100 more slots at a time) is a sequence. Overflow of `width * rowsLeft` in int is excluded by requiring `width * height` to fit an int. After an exception the fields are not stated, since `NewImageBuffer` discards the object.
- ImageBuffer.NewImageBuffer: a buffer with a negative width and a height that is not positive is built as the source builds it, but it is not `Valid()`. The class's other methods are modelled for a positive width only.
- ImageBuffer.ImageBuffer.RemoveConsumer: follows the corrected removal. The written shift is `ImageBuffer.RemovedAsWritten` (see Findings).
- ImageBuffer.ImageBuffer.SetImageRow: follows the corrected guard `row >= height`. The written guard is `ImageBuffer.RowRejectionAsWritten` (see Findings).
- ImageBuffer.ImageBuffer.Deliver: consumers are identities and their calls a recorded sequence. A consumer that re-enters the producer during a call is not modelled. The chunks a consumer receives are recorded as snapshots, not live arrays.
- ByteBufferImage.NewImageGray: follows the corrected size check, where `width * height * type` does not wrap. The written check is `ByteBufferImage.RejectionAsWritten` (see Findings).
- ByteBufferImage.NewImageWithBuffer: inherits the corrected check from `NewImageGray`. The source's four-argument constructor runs the wrapping check `ByteBufferImage.RejectionAsWritten`. For 65536 × 65536 INTENSITY over a buffer of limit 0 the source accepts and the model refuses.
- ByteBufferImage.NewImage: inherits the corrected check in the same way. For 65536 × 65536 INTENSITY the int product is 0, `allocateDirect(0)` succeeds and the source builds a zero-byte image. The model gives a Failure.
- ByteBufferImage.ByteBufferImage.SetBuffers: keeps the source's `!=` comparison of the first limit with the image size.
- `toString`, the trivial getters other than `getLevels`, and the exceptions' message texts produced by the JDK are left out.
- String case folding is over ASCII letters only. Java also folds some non-ASCII characters onto ASCII letters: 'ı' (U+0131) upper-cases to 'I', 'ﬀ' (U+FB00) to "FF" and 'ß' to "SS". `toUpperCase()` without an argument also follows the default locale, and under a Turkish locale 'i' becomes 'İ'. None of this is modelled.
- JavaLang.ToUpperCase: folds ASCII letters only and keeps the length. Java's `toUpperCase` can change the length ('ß' becomes "SS") and maps some non-ASCII characters onto ASCII letters.
- JavaLang.IgnoreCaseIsUpperEquality: holds for the ASCII fold only. Java's `equalsIgnoreCase` also matches 'ı' with 'i'.
- ImageFileNameMap.LocalIsFirstMatch: the first match is over the ASCII-folded name. Java answers image/tiff for "photo.tıf", which has no local match here.
- ImageFileNameMap.UnknownDelegated: a name such as "photo.tıf" or "photo.tiﬀ" is delegated here, but Java answers it locally.
- ImageContentHandlerFactory.LocalHandlerIff: the iff is over the ASCII fold. Java's `equalsIgnoreCase` also picks the PNG handler for "ımage/png".
- ImageContentHandlerFactory.UnknownDelegated: a type such as "ımage/png" is delegated here, but Java handles it locally.
- The previous `FileNameMap` and `ContentHandlerFactory` a map or factory chains to are data: another image map or factory, or a fixed table.
- Null arguments to `getContentTypeFor` and `createContentHandler`, which throw NullPointerException in the source, are left out.
- ImageBuffer.ImageBuffer.AddConsumer: takes a non-null consumer. Java's `addConsumer(null)` registers null, and the next production run throws NullPointerException.
- ImageBuffer.ImageBuffer.RemoveConsumer: takes a non-null consumer, like `AddConsumer`.
- ReadBmpSource.BmpSource.Preload: requires at least one row. A zero-height BMP gets no rows from the JNI row loop, which is not part of this model.
- ReadBmpSource.BmpSource.FirstRow: requires at least one row, as `Preload` does.

## Findings

| source | as written | input that shows it | evidently intended | confidence | as-written member | corrected member |
|---|---|---|---|---|---|---|
| src/native/archive/tiff/tif_custom.c:107-149 (also src/native/image_decode/readtiff.c:360-405) | the read count subtracts only the overshoot of the last segment past the end of the data | a 100-byte buffer, cursor 0, request 10000: 100 bytes copied, 1908 reported | report the bytes copied, `min(size, remaining)` | not executed | TiffBuffer.ReadCountCounterexample | TiffBuffer.FileBuffer.Read |
| src/native/readppm.c:421-425 | `(val*255 + half_maxval)/maxval` in 32-bit `int` | maxval 16777215: the brightest sample maps to 0 | the exact rescale, 0..maxval onto 0..255 | not executed | ReadPpm.RescaleOverflowCounterexample | ReadPpm.RescaleEnds |
| src/native/readppm.c:414-419 | a refused rescale table frees `iobuffer` without clearing it, and finish_input_ppm (442-443) frees it again | a raw PPM whose I/O buffer is granted and whose table is refused | clear the pointer after freeing it | not executed | ReadPpm.IoBufferFreedTwice | ReadPpm.PpmSource.Allocate |
| src/native/readtarga.c:363-380 | preload_image loads the image but does not fill the caller's row | any bottom-up Targa file: the first row the caller gets is the buffer's old contents, and every row after it is one row late | deliver the top row on the first call, as readbmp.c's preload_image does | not executed | ReadTarga.TgaSource.PreloadAsWritten | ReadTarga.TgaSource.Preload |
| src/native/readtarga.c:470-490 | a refused `whole_image` or colormap table is used anyway | a bottom-up image whose table allocation fails; a 24-bit colormap whose table allocation fails | raise "Insufficient memory" | not executed | ReadTarga.RefusedImageStillUsed | ReadTarga.StartRefusalRaises |
| src/native/readbmp.c:597-606 | the packed-depth row width is `width + 3 * 8`, rounded up to 4 | a 1-bit image 1 pixel wide: 32 cells unpacked into a 28-cell row | room for every index unpacked from the padded row | not executed | ReadBmp.OneBitRowOverrun | ReadBmp.UnpackedRowFits |
| src/native/readbmp.c:237-244 | the RLE4 literal pad rule `((n >> 1) & 1)` counts samples, not bytes | a 3-sample literal (2 bytes): a pad byte is skipped that is not there | pad when the literal's byte count is odd | not executed | ReadBmp.OddLiteralMisread | ReadBmp.RleRoundTrip |
| src/java/vlc/net/content/image/ImageBuffer.java:224-229 | the shift copies `consumers[i + 1]` to `consumers[i]` repeatedly, and `count` drops even when nothing was found | remove 1 from [1, 2, 3]: [2, 2]; remove 3 from [1, 2]: [1]; remove from an empty list: count -1 | shift every later consumer down one place, and change `count` only when found | not executed | ImageBuffer.RemoveShiftDefect | ImageBuffer.RemovedKeepsOthers |
| src/java/vlc/net/content/image/ImageBuffer.java:117 | the guard is `row > height` | row == height: ArrayIndexOutOfBoundsException instead of IllegalArgumentException | `row >= height` | not executed | ImageBuffer.RowAtHeightOverruns | ImageBuffer.ImageBuffer.SetImageRow |
| src/java/vlc/net/content/image/ImageBuffer.java:372-376 | `memory_limit / width` rows, which is 0 for a row wider than the limit | width 3000001: every chunk takes 0 rows and the loop never ends | at least one row per chunk | not executed | ImageBuffer.WideRowNeverAllocated | ImageBuffer.PlanCoversImage |
| src/java/vlc/image/ByteBufferImage.java:147 | `width * height * type` in `int` wraps | 65536 x 65536 intensity with an empty buffer: accepted | compare against the true size | not executed | ByteBufferImage.WrappedSizeAccepted | ByteBufferImage.AcceptedFits |
