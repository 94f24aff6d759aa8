/** The upload service: an upload directory holding flat files, the chunked
    upload handler that validates a filename and copies a request body into
    the directory, and the listing of what the directory holds. */
module UploadService {
  import opened Chunking
  import opened Names

  /** The upload directory, as `str()` prints it. */
  const UploadDir: string := "uploads"

  /** Bytes asked for by each read of the request body: 10 MiB. */
  const DefaultChunkSize: ChunkSize := 10 * 1024 * 1024

  const NotAllowedDetail: string := "File type not allowed"
  const SaveErrorPrefix: string := "Error saving file: "

  /** What the handler answers: the stored name and its location, or an HTTP
      error status with its detail text. */
  datatype Response =
    | Saved(filename: string, location: string)
    | Failed(status: nat, detail: string)

  /** One entry of the listing. */
  datatype FileInfo = FileInfo(name: string, size: nat, location: string)

  /** Where, if anywhere, an I/O operation of one upload raises. `at` counts
      the calls of that kind that succeed before the failing one; `cause` is
      the text of the exception. */
  datatype Fault =
    | NoFault
    | OpenFails(cause: string)
    | ReadFails(at: nat, cause: string)
    | WriteFails(at: nat, cause: string)
    | CloseFails(cause: string)

  /** Whether an upload of `count` chunks meets its fault. The body is read
      `count + 1` times (the last read returns nothing) and written `count` times. */
  predicate Raises(count: nat, fault: Fault)
  {
    match fault
    case NoFault => false
    case OpenFails(_) => true
    case ReadFails(at, _) => at <= count
    case WriteFails(at, _) => at < count
    case CloseFails(_) => true
  }

  /** How many chunk writes complete before the fault, for an upload of `count` chunks. */
  function WritesCompleted(count: nat, fault: Fault): (k: nat)
    ensures k <= count
    ensures !Raises(count, fault) ==> k == count
  {
    match fault
    case OpenFails(_) => 0
    case ReadFails(at, _) => Min(at, count)
    case WriteFails(at, _) => Min(at, count)
    case _ => count
  }

  /** Whether the handler gets as far as opening the destination. */
  predicate Opens(filename: string, fault: Fault)
  {
    IsAllowed(filename) && !fault.OpenFails?
  }

  /** The chunks an upload writes to its destination, in order. */
  function ChunksWritten(filename: string, body: seq<byte>, n: ChunkSize, fault: Fault): seq<seq<byte>>
  {
    if !Opens(filename, fault) then []
    else
      var all := Chunks(body, n);
      all[..WritesCompleted(|all|, fault)]
  }

  /** The non-empty chunks an upload takes from the body, in order: those
      before a failing read, up to and including the one whose write fails,
      and otherwise all of them. */
  function ChunksRead(filename: string, body: seq<byte>, n: ChunkSize, fault: Fault): seq<seq<byte>>
  {
    if !Opens(filename, fault) then []
    else
      var all := Chunks(body, n);
      match fault
      case ReadFails(at, _) => all[..Min(at, |all|)]
      case WriteFails(at, _) => all[..Min(at + 1, |all|)]
      case _ => all
  }

  /** The handler holds at most one chunk it has read but not written: the
      chunks written are the chunks read, less at most the last one. The
      bytes taken are a prefix of the body, and the whole body when neither
      a read nor a write raises. */
  lemma ReadAtMostOneAhead(filename: string, body: seq<byte>, n: ChunkSize, fault: Fault)
    ensures var rd, wr := ChunksRead(filename, body, n, fault), ChunksWritten(filename, body, n, fault);
      && |wr| <= |rd| <= |wr| + 1
      && wr == rd[..|wr|]
    ensures var taken := Flatten(ChunksRead(filename, body, n, fault));
      |taken| <= |body| && body[..|taken|] == taken
    ensures Opens(filename, fault) && !fault.ReadFails? && !fault.WriteFails? ==>
      Flatten(ChunksRead(filename, body, n, fault)) == body
  {
    var all := Chunks(body, n);
    var rd := ChunksRead(filename, body, n, fault);
    assert rd == all[..|rd|];
    FirstChunksArePrefix(body, n, |rd|);
    if Opens(filename, fault) && !fault.ReadFails? && !fault.WriteFails? {
      FlattenChunks(body, n);
      assert all[..|all|] == all;
    }
  }

  /** Where the reading stops: after `m` chunks when the next read raises,
      when the write of chunk `m` raises, or when the body is exhausted. */
  lemma ReadStop(filename: string, body: seq<byte>, n: ChunkSize, fault: Fault, m: nat)
    requires Opens(filename, fault) && m <= |Chunks(body, n)|
    requires || (fault.ReadFails? && fault.at == m)
             || (fault.WriteFails? && fault.at + 1 == m)
             || (&& m == |Chunks(body, n)|
                 && (fault.ReadFails? ==> fault.at >= m)
                 && (fault.WriteFails? ==> fault.at + 1 >= m))
    ensures ChunksRead(filename, body, n, fault) == Chunks(body, n)[..m]
  {
  }

  /** The upload directory after one upload attempt. */
  function FilesAfter(files: map<string, seq<byte>>, filename: string, body: seq<byte>,
                      n: ChunkSize, fault: Fault): map<string, seq<byte>>
  {
    if !Opens(filename, fault) then files
    else files[filename := Flatten(ChunksWritten(filename, body, n, fault))]
  }

  /** The answer to one upload attempt. */
  function ResponseTo(directory: string, filename: string, body: seq<byte>,
                      n: ChunkSize, fault: Fault): Response
  {
    if !IsAllowed(filename) then Failed(400, NotAllowedDetail)
    else if Raises(|Chunks(body, n)|, fault) then Failed(500, SaveErrorPrefix + fault.cause)
    else Saved(filename, PathJoin(directory, filename))
  }

  /** A refused filename gets 400 with its fixed detail, and nothing is
      opened, written or changed in the directory. */
  lemma RejectedUploadChangesNothing(files: map<string, seq<byte>>, directory: string,
                                     filename: string, body: seq<byte>, n: ChunkSize, fault: Fault)
    requires !IsAllowed(filename)
    ensures ResponseTo(directory, filename, body, n, fault) == Failed(400, NotAllowedDetail)
    ensures ChunksWritten(filename, body, n, fault) == []
    ensures FilesAfter(files, filename, body, n, fault) == files
  {
  }

  /** An upload succeeds exactly when the name is allowed and no I/O call
      raises; then the response carries the unchanged filename and its
      location, and the stored file is exactly the body. */
  lemma SuccessStoresBody(files: map<string, seq<byte>>, directory: string,
                          filename: string, body: seq<byte>, n: ChunkSize, fault: Fault)
    ensures var r := ResponseTo(directory, filename, body, n, fault);
      r.Saved? <==> IsAllowed(filename) && !Raises(|Chunks(body, n)|, fault)
    ensures var r := ResponseTo(directory, filename, body, n, fault);
      r.Saved? ==>
        && r.filename == filename
        && r.location == PathJoin(directory, filename)
        && filename in FilesAfter(files, filename, body, n, fault)
        && FilesAfter(files, filename, body, n, fault)[filename] == body
  {
    FlattenChunks(body, n);
    assert Chunks(body, n)[..|Chunks(body, n)|] == Chunks(body, n);
  }

  /** The location of a saved file names that file as its final component. */
  lemma SavedLocationNamesFile(directory: string, filename: string, body: seq<byte>,
                               n: ChunkSize, fault: Fault)
    requires '/' !in filename
    ensures var r := ResponseTo(directory, filename, body, n, fault);
      r.Saved? ==> PathName(r.location) == r.filename == filename
  {
    if filename == "." {
      TrailingDotRejected(filename);
    } else if filename != "" {
      PathNameOfJoin(directory, filename);
    }
  }

  /** A storage failure after the file is opened answers 500 with the fixed
      prefix and the cause, and leaves the file in place holding the chunks
      written so far: a prefix of the body. */
  lemma FailedUploadKeepsPrefix(files: map<string, seq<byte>>, directory: string,
                                filename: string, body: seq<byte>, n: ChunkSize, fault: Fault)
    requires Opens(filename, fault) && Raises(|Chunks(body, n)|, fault)
    ensures ResponseTo(directory, filename, body, n, fault) == Failed(500, SaveErrorPrefix + fault.cause)
    ensures var after := FilesAfter(files, filename, body, n, fault);
      && filename in after
      && after[filename] == Flatten(Chunks(body, n)[..WritesCompleted(|Chunks(body, n)|, fault)])
      && |after[filename]| <= |body|
      && body[..|after[filename]|] == after[filename]
  {
    FirstChunksArePrefix(body, n, WritesCompleted(|Chunks(body, n)|, fault));
  }

  /** A write that fails after `k` successful ones leaves exactly the first
      `k` chunks, which are full ones. */
  lemma FailedWriteKeepsFullChunks(files: map<string, seq<byte>>, filename: string,
                                   body: seq<byte>, n: ChunkSize, k: nat, cause: string)
    requires IsAllowed(filename) && k < |Chunks(body, n)|
    ensures var stored := FilesAfter(files, filename, body, n, WriteFails(k, cause))[filename];
      stored == Flatten(Chunks(body, n)[..k]) && |stored| == k * n
  {
    ChunkSizes(body, n);
    FullChunksLength(Chunks(body, n)[..k], n);
  }

  /** Chunks of exactly `n` bytes flatten to `n` bytes each. */
  lemma {:induction false} FullChunksLength(cs: seq<seq<byte>>, n: ChunkSize)
    requires forall i :: 0 <= i < |cs| ==> |cs[i]| == n
    ensures |Flatten(cs)| == |cs| * n
  {
    if |cs| > 0 {
      FullChunksLength(cs[1..], n);
      MulSucc(|cs| - 1, n);
    }
  }

  /** Once the destination is opened its old content is gone (the result
      does not depend on it), and no other file changes. */
  lemma UploadTouchesOnlyItsFile(files: map<string, seq<byte>>, other: map<string, seq<byte>>,
                                 filename: string, body: seq<byte>, n: ChunkSize, fault: Fault)
    ensures var after := FilesAfter(files, filename, body, n, fault);
      && after.Keys == files.Keys + (if Opens(filename, fault) then {filename} else {})
      && (forall f :: f in files && f != filename ==> after[f] == files[f])
    ensures Opens(filename, fault) ==>
      FilesAfter(files, filename, body, n, fault)[filename] == FilesAfter(other, filename, body, n, fault)[filename]
  {
  }

  /** The chunk size does not show in the outcome of an upload without faults. */
  lemma ChunkSizeInvisible(files: map<string, seq<byte>>, directory: string,
                           filename: string, body: seq<byte>, n1: ChunkSize, n2: ChunkSize)
    ensures FilesAfter(files, filename, body, n1, NoFault) == FilesAfter(files, filename, body, n2, NoFault)
    ensures ResponseTo(directory, filename, body, n1, NoFault) == ResponseTo(directory, filename, body, n2, NoFault)
  {
    FlattenChunks(body, n1);
    FlattenChunks(body, n2);
    assert Chunks(body, n1)[..|Chunks(body, n1)|] == Chunks(body, n1);
    assert Chunks(body, n2)[..|Chunks(body, n2)|] == Chunks(body, n2);
  }

  /** Every chunk handed to the destination holds between 1 and `n` bytes;
      without faults there are `ceil(|body| / n)` of them. */
  lemma WrittenChunksBounded(filename: string, body: seq<byte>, n: ChunkSize, fault: Fault)
    ensures var w := ChunksWritten(filename, body, n, fault);
      forall i :: 0 <= i < |w| ==> 1 <= |w[i]| <= n
    ensures var w := ChunksWritten(filename, body, n, fault);
      IsAllowed(filename) && fault == NoFault ==>
        && (|body| == 0 ==> |w| == 0)
        && (|body| > 0 ==> (|w| - 1) * n < |body| <= |w| * n)
  {
    ChunkSizes(body, n);
    ChunkCount(body, n);
    var w := ChunksWritten(filename, body, n, fault);
    forall i | 0 <= i < |w|
      ensures 1 <= |w[i]| <= n
    {
      assert w[i] == Chunks(body, n)[i];
    }
  }

  /** The request body: a byte stream that is consumed once, front to back. */
  class Source {
    const data: seq<byte>
    var pos: nat

    ghost predicate Valid()
      reads this
    {
      pos <= |data|
    }

    /** The bytes not yet read. */
    ghost function Remaining(): seq<byte>
      reads this
      requires Valid()
    {
      data[pos..]
    }

    constructor (data: seq<byte>)
      ensures Valid() && this.data == data && pos == 0
    {
      this.data := data;
      pos := 0;
    }

    /** Returns the next `min(n, remaining)` bytes and moves past them. */
    method Read(n: nat) returns (chunk: seq<byte>)
      requires Valid()
      modifies this
      ensures Valid()
      ensures pos == old(pos) + |chunk|
      ensures chunk == old(Remaining())[..Min(n, |old(Remaining())|)]
      ensures Remaining() == old(Remaining())[|chunk|..]
    {
      var m := Min(n, |data| - pos);
      chunk := data[pos..pos + m];
      pos := pos + m;
    }
  }

  /** The upload directory: a flat map from filename to content. */
  class UploadStore {
    const directory: string
    const chunkSize: ChunkSize
    var files: map<string, seq<byte>>

    /** A directory that may already hold files put there by other means. */
    constructor (directory: string, chunkSize: ChunkSize, existing: map<string, seq<byte>>)
      ensures this.directory == directory && this.chunkSize == chunkSize
      ensures files == existing
    {
      this.directory := directory;
      this.chunkSize := chunkSize;
      files := existing;
    }

    /** The service's own configuration: `uploads`, read in 10 MiB chunks. */
    constructor Default(existing: map<string, seq<byte>>)
      ensures directory == UploadDir && chunkSize == DefaultChunkSize
      ensures files == existing
    {
      directory := UploadDir;
      chunkSize := DefaultChunkSize;
      files := existing;
    }

    /** Opens `filename` for writing in truncate mode: it now exists and is empty. */
    method Open(filename: string)
      modifies this
      ensures files == old(files)[filename := []]
    {
      files := files[filename := []];
    }

    /** Appends one chunk to an open file. */
    method Write(filename: string, chunk: seq<byte>)
      requires filename in files
      modifies this
      ensures files == old(files)[filename := old(files[filename]) + chunk]
    {
      files := files[filename := files[filename] + chunk];
    }

    /** Handles one upload of the rest of `src` under `filename`, with the
        I/O failure, if any, that `fault` places. `written` is the sequence
        of chunks handed to the destination. */
    method Upload(filename: string, src: Source, fault: Fault)
      returns (r: Response, ghost written: seq<seq<byte>>)
      requires src.Valid()
      modifies this, src
      ensures src.Valid()
      ensures r == ResponseTo(directory, filename, old(src.Remaining()), chunkSize, fault)
      ensures files == FilesAfter(old(files), filename, old(src.Remaining()), chunkSize, fault)
      ensures written == ChunksWritten(filename, old(src.Remaining()), chunkSize, fault)
      ensures src.pos == old(src.pos) + |Flatten(ChunksRead(filename, old(src.Remaining()), chunkSize, fault))|
      ensures Opens(filename, fault) && !fault.ReadFails? && !fault.WriteFails? ==> src.pos == |src.data|
    {
      ghost var body := src.Remaining();
      written := [];
      if !IsAllowed(filename) {
        r := Failed(400, NotAllowedDetail);
        return;
      }
      if fault.OpenFails? {
        r := Failed(500, SaveErrorPrefix + fault.cause);
        return;
      }
      Open(filename);
      var raised;
      raised, written := CopyChunks(filename, src, fault);
      if fault.CloseFails? {
        raised := true;
      }
      ReadAtMostOneAhead(filename, body, chunkSize, fault);
      r := if raised then Failed(500, SaveErrorPrefix + fault.cause) else Saved(filename, PathJoin(directory, filename));
    }

    /** The copy loop of an opened upload: reads up to `chunkSize` bytes at a
        time and appends each chunk to `filename`, until a read returns
        nothing or the read or write that `fault` names raises. `raised`
        says whether the loop ended with an exception. */
    method CopyChunks(filename: string, src: Source, fault: Fault)
      returns (raised: bool, ghost written: seq<seq<byte>>)
      requires src.Valid() && Opens(filename, fault)
      requires filename in files && files[filename] == []
      modifies this, src
      ensures src.Valid()
      ensures raised == (Raises(|Chunks(old(src.Remaining()), chunkSize)|, fault) && !fault.CloseFails?)
      ensures written == ChunksWritten(filename, old(src.Remaining()), chunkSize, fault)
      ensures files == old(files)[filename := Flatten(written)]
      ensures src.pos == old(src.pos) + |Flatten(ChunksRead(filename, old(src.Remaining()), chunkSize, fault))|
    {
      ghost var body := src.Remaining();
      ghost var all := Chunks(body, chunkSize);
      written := [];
      var readsDone, writesDone := 0, 0;
      raised := false;
      ghost var taken := 0;
      while true
        invariant src.Valid()
        invariant readsDone == writesDone == taken == |written| <= |all|
        invariant written == all[..writesDone]
        invariant Chunks(src.Remaining(), chunkSize) == all[writesDone..]
        invariant files == old(files)[filename := Flatten(written)]
        invariant fault.ReadFails? ==> fault.at >= readsDone
        invariant fault.WriteFails? ==> fault.at >= writesDone
        invariant !raised
        invariant src.pos == old(src.pos) + |Flatten(written)|
        decreases |src.data| - src.pos
      {
        if fault.ReadFails? && fault.at == readsDone {
          raised := true;
          break;
        }
        ghost var before := src.Remaining();
        var chunk := src.Read(chunkSize);
        readsDone := readsDone + 1;
        ReadStep(all, writesDone, before, chunkSize, chunk);
        if chunk == [] {
          break;
        }
        if fault.WriteFails? && fault.at == writesDone {
          FlattenSnoc(written, chunk);
          taken := taken + 1;
          raised := true;
          break;
        }
        Write(filename, chunk);
        FlattenSnoc(written, chunk);
        written := written + [chunk];
        writesDone := writesDone + 1;
        taken := taken + 1;
      }
      ReadStop(filename, body, chunkSize, fault, taken);
      assert written == all[..WritesCompleted(|all|, fault)];
    }

    /** One entry per stored file, with its size and location, in no
        particular order; nothing is changed. */
    method ListFiles() returns (entries: seq<FileInfo>)
      ensures |entries| == |files|
      ensures forall i :: 0 <= i < |entries| ==>
        && entries[i].name in files
        && entries[i].size == |files[entries[i].name]|
        && entries[i].location == PathJoin(directory, entries[i].name)
      ensures forall i, j :: 0 <= i < j < |entries| ==> entries[i].name != entries[j].name
      ensures forall name :: name in files ==> exists i :: 0 <= i < |entries| && entries[i].name == name
    {
      entries := [];
      var pending := files.Keys;
      while pending != {}
        invariant pending <= files.Keys
        invariant |entries| + |pending| == |files|
        invariant forall i :: 0 <= i < |entries| ==>
          && entries[i].name in files && entries[i].name !in pending
          && entries[i].size == |files[entries[i].name]|
          && entries[i].location == PathJoin(directory, entries[i].name)
        invariant forall i, j :: 0 <= i < j < |entries| ==> entries[i].name != entries[j].name
        invariant forall name :: name in files && name !in pending ==>
          exists i :: 0 <= i < |entries| && entries[i].name == name
        decreases pending
      {
        var name :| name in pending;
        ghost var done := entries;
        entries := entries + [FileInfo(name, |files[name]|, PathJoin(directory, name))];
        assert entries[|done|].name == name;
        assert forall i :: 0 <= i < |done| ==> entries[i] == done[i];
        pending := pending - {name};
      }
    }
  }

  /** Two uploads under different allowed names, then a listing: whatever the
      directory held before, both files are listed, each with the size of its body. */
  method UploadTwoThenList(existing: map<string, seq<byte>>, name1: string, body1: seq<byte>,
                           name2: string, body2: seq<byte>)
    returns (entries: seq<FileInfo>)
    requires IsAllowed(name1) && IsAllowed(name2) && name1 != name2
    ensures exists i :: 0 <= i < |entries| && entries[i].name == name1 && entries[i].size == |body1|
    ensures exists i :: 0 <= i < |entries| && entries[i].name == name2 && entries[i].size == |body2|
  {
    var store := new UploadStore.Default(existing);
    var src1 := new Source(body1);
    ghost var before := store.files;
    var r1, w1 := store.Upload(name1, src1, NoFault);
    SuccessStoresBody(before, UploadDir, name1, body1, DefaultChunkSize, NoFault);
    assert store.files[name1] == body1;
    var src2 := new Source(body2);
    ghost var between := store.files;
    var r2, w2 := store.Upload(name2, src2, NoFault);
    SuccessStoresBody(between, UploadDir, name2, body2, DefaultChunkSize, NoFault);
    assert store.files[name1] == body1 && store.files[name2] == body2;
    entries := store.ListFiles();
  }

  /** The bytes `b"dummy content"`. */
  const DummyContent: seq<byte> := [100, 117, 109, 109, 121, 32, 99, 111, 110, 116, 101, 110, 116]

  /** Two files written straight into the upload directory, each opened in
      `"wb"` mode and given one write, and then listed: whatever the directory
      held before, the listing has at least two entries and names both files
      with the size of what was written. */
  method ListAfterDirectWrites(existing: map<string, seq<byte>>) returns (entries: seq<FileInfo>)
    ensures |entries| >= 2
    ensures exists i :: 0 <= i < |entries| && entries[i].name == "file1.txt" && entries[i].size == 13
    ensures exists i :: 0 <= i < |entries| && entries[i].name == "file2.jpg" && entries[i].size == 13
  {
    var store := new UploadStore.Default(existing);
    var first, second := "file1.txt", "file2.jpg";
    store.Open(first);
    store.Write(first, DummyContent);
    store.Open(second);
    store.Write(second, DummyContent);
    assert first[4] != second[4];
    assert store.files[first] == DummyContent && store.files[second] == DummyContent;
    TwoNamesTwoFiles(store.files, first, second);
    entries := store.ListFiles();
  }

  /** A directory holding two different names holds at least two files. */
  lemma TwoNamesTwoFiles(files: map<string, seq<byte>>, a: string, b: string)
    requires a != b && a in files && b in files
    ensures |files| >= 2
  {
    var rest := files.Keys - {a, b};
    assert files.Keys == {a, b} + rest;
    assert |{a, b}| == 2;
    assert |files.Keys| == |files|;
  }
}
