# Chunked file upload service — a Dafny model

This project models the core of a small HTTP file-upload service
(`server/file_upload_service.py`). The model has three parts:

- **Extension validator.** The extension of a filename is `filename.split(".")[-1]`.
  An upload is accepted only if that string is exactly one of
  `txt, pdf, png, jpg, jpeg, gif, mp4, mkv`. Case matters.
- **Chunked upload handler.** A refused name is answered with 400
  `"File type not allowed"` before anything is opened. An accepted name opens
  `uploads/<filename>` in truncate mode. The handler then reads the request
  body in chunks of at most 10 MiB and appends each chunk to the file. It stops
  at the first empty read. Any exception while opening, reading, writing or
  closing is answered with 500 `"Error saving file: <cause>"`, and the
  partially written file stays where it is. On success the handler answers
  `{filename, location}`.
- **Listing.** It reports one `{name, size, location}` record per file in the
  upload directory. It changes nothing.

Layout:

- `names.dfy` (module `Names`): Python's `str.split` for one separator, its
  inverse `Join`, the last segment of a split, `Extension`, `IsAllowed`, and
  the path helpers `PathJoin` (`str(directory / name)`) and `PathName`
  (`Path(p).name`).
- `chunking.dfy` (module `Chunking`): bytes; `Chunks(s, n)`, the pieces a reader
  gets when it asks for `n` bytes at a time; `Flatten`, their concatenation.
- `upload_service.dfy` (module `UploadService`):
  - the request body as a `Source` class, a stream with a cursor that is
    consumed once;
  - the upload directory as an `UploadStore` class with
    `files: map<string, seq<byte>>`;
  - the handler `Upload` and its copy loop `CopyChunks`, a `while` loop,
    both proved against pure specification functions (`ResponseTo`,
    `FilesAfter`, `ChunksWritten`, `ChunksRead`);
  - the listing `ListFiles`;
  - lemmas about the specification functions.

I/O failures are an input to the model. A `Fault` value says which call
raises: the open, the read after `k` successful reads, the write after `k`
successful writes, the close, or none. It also carries the exception text.
"Exactly the first k chunks", "a prefix of the body" and "the file is left in
place" are stated as properties of this input.

Two points about what the code does not do:

- The handler reports no size. Only the listing reports sizes
  (server/file_upload_service.py:46, :62).
- The code has no separate check for an empty filename. Its extension `""` is
  not on the whitelist, so it is refused with 400.

## Model

| member | source | states |
|---|---|---|
| Names.Split | server/file_upload_service.py:33 | `split(".")` always yields at least one piece, so `[-1]` never fails |
| Names.SplitPiecesLackSeparator | server/file_upload_service.py:33 | no piece of a split contains the separator |
| Names.SplitAt | server/file_upload_service.py:33 | splitting at any occurrence of the separator gives the pieces of the text before it followed by the pieces of the text after it |
| Names.SplitThenJoin | server/file_upload_service.py:33 | joining the pieces of a split with the separator gives back the original string |
| Names.JoinThenSplit | server/file_upload_service.py:33 | splitting a join of separator-free pieces gives back exactly those pieces, so `Split` and `Join` are inverse |
| Names.LastSegmentIsAfterFinalSeparator | server/file_upload_service.py:33 | `split(sep)[-1]` is the text after the final separator: it contains no separator and ends the string; it is the whole string exactly when there is no separator, and otherwise a separator precedes it |
| Names.LastSegmentAfter | server/file_upload_service.py:33 | whatever comes before the final separator, the last segment is exactly what follows it |
| Names.ExtensionWithoutDot | server/file_upload_service.py:33 | a filename without a dot is its own extension |
| Names.TrailingDotRejected | server/file_upload_service.py:33-34 | a filename ending in `.` has extension `""` and is always refused |
| Names.AllowedIff | server/file_upload_service.py:13 | a filename is accepted iff it is a dot-free allowed token, or the text after some dot with no dot after it is an allowed token; the test is exact, with no case folding |
| Names.AcceptedJpeg | server/tests.py:91-101 | `file7.jpeg` is accepted |
| Names.AcceptedAfterLastDot | server/file_upload_service.py:33-34 | only the text after the last dot is tested, so `archive.old.pdf` is accepted |
| Names.RejectedUnknownExtension | server/tests.py:50-64 | `test_invalid.extension` is refused |
| Names.RejectedUpperCase | server/file_upload_service.py:13 | `photo.PNG` is refused; there is no case folding |
| Names.DotlessNames | server/file_upload_service.py:33-34 | `noext` is refused and `txt` is accepted: a dotless name is tested as a whole |
| Names.PathNameOfJoin | server/file_upload_service.py:37 | for a name without `/` other than `""` and `"."` (which `directory / name` drops), the final component of `directory / name` is `name` |
| Chunking.FlattenChunks | server/file_upload_service.py:41-42 | the chunks read, concatenated, are the whole body, for every chunk size |
| Chunking.FlattenConcat | server/file_upload_service.py:42 | concatenating two runs of chunks concatenates their bytes |
| Chunking.FlattenSnoc | server/file_upload_service.py:42 | writing one more chunk appends exactly that chunk |
| Chunking.FirstChunksArePrefix | server/file_upload_service.py:41-42 | the bytes of the first `k` chunks are a prefix of the body |
| Chunking.ChunkSizes | server/file_upload_service.py:16 | every chunk holds between 1 and `n` bytes, and every chunk but the last holds exactly `n` |
| Chunking.ChunkCount | server/file_upload_service.py:41 | an empty body gives no chunk; otherwise the number of chunks `c` satisfies `(c-1)*n < size <= c*n`, i.e. it is `ceil(size / n)` |
| UploadService.WritesCompleted | server/file_upload_service.py:41-44 | at most as many writes complete as there are chunks, and all of them complete when no call raises |
| UploadService.ReadAtMostOneAhead | server/file_upload_service.py:41-42 | the handler holds at most one chunk it has read but not written; the bytes taken from the body are a prefix of it, and the whole body when no read or write raises |
| UploadService.RejectedUploadChangesNothing | server/file_upload_service.py:34-35 | a refused name answers 400 `"File type not allowed"`, writes no chunk and leaves the directory unchanged |
| UploadService.SuccessStoresBody | server/file_upload_service.py:40-46 | the answer is a success iff the name is allowed and no I/O call raises; a success returns the filename unchanged and `directory / filename`, and the stored file equals the body |
| UploadService.SavedLocationNamesFile | server/file_upload_service.py:46 | the final path component of a successful upload's location is its filename, as `server/tests.py:37-39` checks |
| UploadService.FailedUploadKeepsPrefix | server/file_upload_service.py:39-44 | a failure after opening answers 500 `"Error saving file: " + cause`; the file stays, holding the first chunks written, a prefix of the body |
| UploadService.FailedWriteKeepsFullChunks | server/file_upload_service.py:41-44 | when the write after `k` successful ones raises, the file holds exactly the first `k` chunks, `k * n` bytes |
| UploadService.FullChunksLength | server/file_upload_service.py:16 | `k` full chunks hold `k * n` bytes |
| UploadService.UploadTouchesOnlyItsFile | server/file_upload_service.py:37-40 | an upload adds at most its own name; every other file is unchanged; once the file is opened, its new content does not depend on what was stored there before (truncation) |
| UploadService.ChunkSizeInvisible | server/file_upload_service.py:16 | without faults, the directory and the answer are the same for every chunk size |
| UploadService.WrittenChunksBounded | server/file_upload_service.py:41-42 | every chunk handed to the file holds between 1 and `n` bytes; without faults there are `ceil(size / n)` writes |
| UploadService.Source.Read | server/file_upload_service.py:41 | a read returns the next `min(n, remaining)` bytes and advances past them |
| UploadService.UploadStore.Open | server/file_upload_service.py:40 | opening in `"wb"` mode leaves the file present and empty, and no other file changes |
| UploadService.UploadStore.Write | server/file_upload_service.py:42 | a write appends the chunk to the open file, and no other file changes |
| UploadService.UploadStore.Upload | server/file_upload_service.py:33-46 | the answer is `ResponseTo`, the new directory is `FilesAfter` of the old one, and the chunks written are `ChunksWritten`; the body stream advances by exactly the bytes of `ChunksRead`: nothing for a refused name or a failed open, and to its end, through the first empty read, when no read or write raises |
| UploadService.UploadStore.CopyChunks | server/file_upload_service.py:40-44 | the copy loop, started on a freshly truncated file: it raises exactly when a read or write fault falls within the body's chunks; the file ends up holding the chunks of `ChunksWritten`, and the body stream advances by the bytes of `ChunksRead`, which is the whole body when nothing raises |
| UploadService.UploadStore.ListFiles | server/file_upload_service.py:58-65 | the listing changes nothing; it has one entry per stored file, with no name repeated, each with size equal to the content length and location `directory / name`; files with disallowed names are listed too |
| UploadService.UploadTwoThenList | server/file_upload_service.py:33-65 | whatever the directory held before, after two successful uploads under different allowed names the listing holds both, each with the size of its body |
| UploadService.ListAfterDirectWrites | server/tests.py:68-83 | two files written straight into the directory with `"wb"` (`file1.txt` and `file2.jpg`, 13 bytes each) are both listed with that size, and the listing has at least two entries whatever the directory held before |

## Left out

- FastAPI routing, multipart parsing of `UploadFile`, and the conversion of
  `HTTPException` into an HTTP response are framework code. The answer is the
  `Response` datatype.
- `async`/`await` and `aiofiles` are left out. The loop is modelled sequentially.
  Concurrent uploads and listings are left out as well. This covers same-name
  write interleaving and listing a half-written file.
- The `mkdir` at import time (line 10) is left out. The directory is assumed to
  exist, and `uploads` stands for `str(Path("./uploads"))`.
- Path semantics are left out:
  - `PathJoin` is plain concatenation with `/`;
  - there is no normalisation;
  - a filename that contains `/` (path traversal, or a subdirectory) is not
    modelled as a path;
  - `UploadService.SavedLocationNamesFile` requires a name without `/` for this
    reason.
- File sizes come from content length, not from `stat`. The order of the
  listing is left unspecified, as `iterdir` leaves it.
- UploadService.FailedUploadKeepsPrefix, UploadService.FailedWriteKeepsFullChunks:
  every write and the close are modelled as atomic and unbuffered. A raising
  write adds none of its chunk, and a raising close loses nothing, so under
  `CloseFails` the file holds the whole body. The source writes through a
  buffered `"wb"` file (server/file_upload_service.py:40-42): a write that
  raises part-way (disk full) may leave part of its chunk, and a close that
  raises while flushing may leave the buffered tail unwritten.
- The text of `str(e)` is foreign. It is the `cause` carried by a `Fault`.
- A source stream that returns fewer bytes than requested before its end is not
  modelled. `Source.Read` returns `min(n, remaining)` bytes, as a file-backed
  `UploadFile` does.
- `client/client.py` is a network client that generates test data, polls with
  sleeps and performs the HTTP upload. It has no core logic.
- `server/tests.py` drives the service through a test client. It is used only
  as the source of the example lemmas.
