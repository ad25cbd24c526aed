/** File contents of the RAM file system and the file control block above them. */
module FileData {

  type Byte = b: nat | b < 256

  const FILE_SIZE_MAX: nat := 0x7fff_ffff
  const BUFFER_SIZE: nat := 0x10000
  const USIZE: nat := 0x1_0000_0000_0000_0000

  datatype Error = FilesystemQuotaExceeded | StorageFull | InvalidInput

  datatype Result<T> = Ok(value: T) | Err(error: Error)

  function Min(a: nat, b: nat): nat { if a < b then a else b }

  type OffsetType = x: int | -0x8000_0000_0000_0000 <= x < 0x8000_0000_0000_0000

  /** A signed file position cast to a machine word. */
  function AsUsize(pos: OffsetType): nat { pos % USIZE }

  function Concat(chunks: seq<seq<Byte>>): seq<Byte> {
    if chunks == [] then [] else Concat(chunks[..|chunks| - 1]) + chunks[|chunks| - 1]
  }

  /** The bytes after a write: everything past the write position is lost, and a gap before
      it shows whatever the vector's spare memory `stale` held. */
  function Written(content: seq<Byte>, offset: nat, buf: seq<Byte>, stale: seq<Byte>): seq<Byte>
    requires |stale| >= offset
  {
    var kept := content[..Min(offset, |content|)];
    if buf == [] then kept else kept + stale[|kept|..offset] + buf
  }

  class RamFile {
    var content: seq<Byte>

    ghost predicate Valid()
      reads this
    {
      |content| <= FILE_SIZE_MAX
    }

    constructor ()
      ensures content == [] && Valid()
    {
      content := [];
    }

    method Read(offset: nat, size: nat) returns (buf: seq<Byte>)
      ensures buf == if offset >= |content| then [] else content[offset..offset + Min(size, |content| - offset)]
    {
      if offset >= |content| { return []; }
      var count := Min(size, |content| - offset);
      return content[offset..offset + count];
    }

    /** `storage` is false when the vector cannot be enlarged. */
    method Write(offset: nat, buf: seq<Byte>, stale: seq<Byte>, storage: bool) returns (r: Result<nat>)
      requires Valid() && |stale| >= offset
      modifies this
      ensures Valid()
      ensures r.Ok? ==> r.value == |buf| && content == Written(old(content), offset, buf, stale)
      ensures r.Err? ==> content == old(content)
      ensures r == Err(FilesystemQuotaExceeded) <==> offset + |buf| > FILE_SIZE_MAX
      ensures r == Err(StorageFull) <==> !storage && offset + |buf| <= FILE_SIZE_MAX
      ensures storage ==> (r.Ok? <==> offset + |buf| <= FILE_SIZE_MAX)
    {
      var newSize := offset + |buf|;
      if newSize >= USIZE { return Err(FilesystemQuotaExceeded); }
      if newSize > FILE_SIZE_MAX { return Err(FilesystemQuotaExceeded); }
      if !storage { return Err(StorageFull); }
      if offset < |content| { content := content[..offset]; }
      if |buf| > 0 { content := content + stale[|content|..offset] + buf; }
      return Ok(|buf|);
    }
  }

  class FileControlBlock {
    const file: RamFile
    const readable: bool
    const writable: bool
    var filePos: OffsetType

    constructor (file: RamFile, readable: bool, writable: bool)
      ensures this.file == file && this.readable == readable && this.writable == writable && filePos == 0
    {
      this.file, this.readable, this.writable, filePos := file, readable, writable, 0;
    }

    method SeekSet(offset: OffsetType)
      modifies this
      ensures filePos == offset
    {
      filePos := offset;
    }

    method Write(buf: seq<Byte>, stale: seq<Byte>, storage: bool) returns (r: Result<nat>)
      requires file.Valid() && |stale| >= AsUsize(filePos)
      modifies this, file
      ensures file.Valid()
      ensures r.Ok? ==> writable && file.content == Written(old(file.content), AsUsize(old(filePos)), buf, stale)
      ensures r.Ok? ==> filePos == old(filePos) + |buf| && r.value == |buf|
      ensures r.Err? ==> file.content == old(file.content) && filePos == old(filePos)
      ensures r.Ok? <==> writable && storage && AsUsize(old(filePos)) + |buf| <= FILE_SIZE_MAX
      ensures r == Err(InvalidInput) <==> !writable
      ensures r == Err(FilesystemQuotaExceeded) <==> writable && AsUsize(old(filePos)) + |buf| > FILE_SIZE_MAX
      ensures r == Err(StorageFull) <==> writable && !storage && AsUsize(old(filePos)) + |buf| <= FILE_SIZE_MAX
    {
      if !writable { return Err(InvalidInput); }
      r := file.Write(AsUsize(filePos), buf, stale, storage);
      if r.Ok? { filePos := filePos + r.value; }
    }

    method Read(size: nat) returns (r: Result<seq<Byte>>)
      requires file.Valid()
      modifies this
      ensures r.Err? <==> !readable
      ensures r.Err? ==> filePos == old(filePos)
      ensures r.Ok? ==> filePos == old(filePos) + |r.value|
      ensures r.Ok? ==> var p, n := AsUsize(old(filePos)), |file.content|;
        r.value == if p >= n then [] else file.content[p..p + Min(size, n - p)]
    {
      if !readable { return Err(InvalidInput); }
      var buf := file.Read(AsUsize(filePos), size);
      filePos := filePos + |buf|;
      return Ok(buf);
    }

    /** Reads through a fixed buffer until nothing is left; from a position outside the file,
        a negative one among them, that is nothing. */
    method ReadToEnd(vec: seq<Byte>) returns (r: Result<nat>, out: seq<Byte>)
      requires file.Valid()
      modifies this
      ensures r.Err? <==> !readable
      ensures r.Ok? ==> out == vec + file.content[Min(AsUsize(old(filePos)), |file.content|)..]
      ensures r.Ok? ==> r.value == |out| - |vec| && AsUsize(filePos) >= |file.content|
      ensures r.Ok? ==> filePos == old(filePos) + r.value
    {
      out := vec;
      var count := 0;
      ghost var start, n := AsUsize(filePos), |file.content|;
      while true
        invariant filePos == old(filePos) + count && count == |out| - |vec| && 0 <= count && (count > 0 ==> readable)
        invariant if start >= n then count == 0 && out == vec
                  else start == old(filePos) && filePos <= n && out == vec + file.content[start..filePos]
        decreases n - count
      {
        var chunk := Read(BUFFER_SIZE);
        if chunk.Err? { return Err(chunk.error), out; }
        if chunk.value == [] { return Ok(count), out; }
        out := out + chunk.value;
        count := count + |chunk.value|;
      }
    }
  }

  /** Appending the next chunk at the end of what is there. */
  lemma AppendChunk(chunks: seq<seq<Byte>>, k: nat, stale: seq<Byte>)
    requires k < |chunks| && |stale| >= |Concat(chunks[..k])|
    ensures Written(Concat(chunks[..k]), |Concat(chunks[..k])|, chunks[k], stale) == Concat(chunks[..k + 1])
    ensures |Concat(chunks[..k + 1])| == |Concat(chunks[..k])| + |chunks[k]|
  {
    assert chunks[..k + 1][..k] == chunks[..k];
  }

  lemma {:induction false} ConcatGrows(chunks: seq<seq<Byte>>, k: nat)
    requires k <= |chunks|
    ensures |Concat(chunks[..k])| <= |Concat(chunks)|
    decreases |chunks| - k
  {
    if k < |chunks| {
      assert chunks[..k + 1][..k] == chunks[..k];
      ConcatGrows(chunks, k + 1);
    } else {
      assert chunks[..k] == chunks;
    }
  }

  /** Writing one more chunk behind the ones before it. */
  method WriteNext(fcb: FileControlBlock, chunks: seq<seq<Byte>>, k: nat, stale: seq<Byte>)
    requires fcb.file.Valid() && fcb.writable && k < |chunks|
    requires |Concat(chunks)| <= FILE_SIZE_MAX && |stale| >= |Concat(chunks)|
    requires fcb.file.content == Concat(chunks[..k]) && fcb.filePos == |fcb.file.content|
    modifies fcb, fcb.file
    ensures fcb.file.Valid()
    ensures fcb.file.content == Concat(chunks[..k + 1]) && fcb.filePos == |fcb.file.content|
  {
    hide Concat, Written;
    ConcatGrows(chunks, k);
    ConcatGrows(chunks, k + 1);
    AppendChunk(chunks, k, stale);
    var r := fcb.Write(chunks[k], stale, true);
  }

  /** However the data is cut into chunks, writing them in order to a new file, seeking to the
      start and reading to the end gives the data back. */
  method WriteThenRead(chunks: seq<seq<Byte>>, stale: seq<Byte>) returns (data: seq<Byte>)
    requires |Concat(chunks)| <= FILE_SIZE_MAX && |stale| >= |Concat(chunks)|
    ensures data == Concat(chunks)
  {
    assert Concat(chunks[..0]) == [];
    hide Concat, Written;
    var file := new RamFile();
    var fcb := new FileControlBlock(file, true, true);
    for k := 0 to |chunks|
      invariant fcb.file == file && fcb.readable && fcb.writable && file.Valid()
      invariant file.content == Concat(chunks[..k]) && fcb.filePos == |file.content|
    {
      WriteNext(fcb, chunks, k, stale);
    }
    assert chunks[..|chunks|] == chunks;
    fcb.SeekSet(0);
    var count;
    count, data := fcb.ReadToEnd([]);
  }

  /** Writing anywhere but at the end is not an overwrite: what followed is lost, even when
      nothing is written. */
  lemma WriteTruncates(content: seq<Byte>, offset: nat, buf: seq<Byte>, stale: seq<Byte>)
    requires offset <= |content| && |stale| >= offset
    ensures Written(content, offset, buf, stale) == content[..offset] + buf
    ensures |Written(content, offset, buf, stale)| < |content| <==> offset + |buf| < |content|
  {
  }
}
