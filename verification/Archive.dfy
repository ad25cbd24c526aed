/** The MAR archive: a header, an optional prefix, and tagged entries ended by a tag. */
module Archive {
  import opened Wrappers
  import opened Leb128
  import opened Utf8Text

  const MAGIC: nat := 0x0002_beef
  const HEADER_SIZE: nat := 16
  const TWO32: nat := 0x1_0000_0000
  const TAG_END: Byte := 1
  const TAG_NAMESPACE: Byte := 2
  const TAG_FILE: Byte := 3

  datatype Entry = End | Namespace(name: Bytes, xattr: Bytes) | File(name: Bytes, xattr: Bytes, content: Bytes)

  /** Names are strings. */
  predicate Named(e: Entry) {
    match e case End => true case Namespace(n, _) => Utf8(n) case File(n, _, _) => Utf8(n)
  }

  // ---- writing ----

  function Blob(b: Bytes): Bytes { Encode(|b|) + b }

  function EntryBytes(e: Entry): Bytes {
    match e
    case End => [TAG_END] + Blob([])
    case Namespace(name, xattr) => [TAG_NAMESPACE] + Blob(Blob(name) + Blob(xattr))
    case File(name, xattr, content) => [TAG_FILE] + Blob(Blob(name) + Blob(xattr) + Blob(content))
  }

  function Body(es: seq<Entry>): Bytes { if es == [] then [] else Body(es[..|es| - 1]) + EntryBytes(es[|es| - 1]) }

  function U32Bytes(v: nat): Bytes { [v % 256, v / 256 % 256, v / 65536 % 256, v / 16777216 % 256] }

  function HeaderBytes(offset: nat, size: nat): Bytes {
    U32Bytes(MAGIC) + U32Bytes(0) + U32Bytes(offset) + U32Bytes(size)
  }

  class Writer {
    var inner: Bytes

    constructor ()
      ensures inner == []
    {
      inner := [];
    }

    method WriteBytes(bytes: Bytes)
      modifies this
      ensures inner == old(inner) + bytes
    {
      inner := inner + bytes;
    }

    /** The unrolled encoder writes the bytes of the simple one. */
    method WriteUnsigned(value: U64)
      modifies this
      ensures inner == old(inner) + Encode(value)
    {
      var n := Groups(BitLength(value));
      GroupsFit(value);
      UnrolledIsEncode(value, n);
      WriteBytes(Unrolled(value, n));
    }

    method WriteSigned(value: I64)
      modifies this
      ensures inner == old(inner) + EncodeSigned(value)
    {
      var n := SignedGroups(SignedBits(value));
      SignedGroupsFit(value);
      UnrolledIsEncodeSigned(value, n);
      WriteBytes(UnrolledSigned(value, n));
    }

    method WriteBlob(payload: Bytes)
      requires |payload| < TWO64
      modifies this
      ensures inner == old(inner) + Blob(payload)
    {
      WriteUnsigned(|payload|);
      WriteBytes(payload);
    }

    method WriteTaggedPayload(tag: Byte, payload: Bytes)
      requires |payload| < TWO64
      modifies this
      ensures inner == old(inner) + ([tag] + Blob(payload))
    {
      WriteBytes([tag]);
      WriteBlob(payload);
    }

    /** `Entry::_write_to`. */
    method WriteEntry(e: Entry)
      requires |EntryBytes(e)| < TWO64
      modifies this
      ensures inner == old(inner) + EntryBytes(e)
    {
      hide Encode, Blob;
      BlobGrows(e);
      match e {
        case End => WriteTaggedPayload(TAG_END, []);
        case Namespace(name, xattr) =>
          var w := new Writer();
          w.WriteBlob(name);
          w.WriteBlob(xattr);
          assert w.inner == Blob(name) + Blob(xattr);
          WriteTaggedPayload(TAG_NAMESPACE, w.inner);
        case File(name, xattr, content) =>
          WriteFile(name, xattr, content);
      }
    }

    /** A file's content is not copied into its leading part. */
    method WriteFile(name: Bytes, xattr: Bytes, content: Bytes)
      requires |Blob(name) + Blob(xattr) + Blob(content)| < TWO64
      requires |name| < TWO64 && |xattr| < TWO64 && |content| < TWO64
      modifies this
      ensures inner == old(inner) + EntryBytes(File(name, xattr, content))
    {
      hide Encode;
      var w := new Writer();
      w.WriteBlob(name);
      w.WriteBlob(xattr);
      w.WriteUnsigned(|content|);
      var leading := w.inner;
      assert leading + content == Blob(name) + Blob(xattr) + Blob(content);
      hide Blob;
      WriteBytes([TAG_FILE]);
      WriteUnsigned(|leading| + |content|);
      WriteBytes(leading);
      WriteBytes(content);
      FileBytes(name, xattr, content, leading);
    }
  }

  lemma FileBytes(name: Bytes, xattr: Bytes, content: Bytes, leading: Bytes)
    requires leading + content == Blob(name) + Blob(xattr) + Blob(content)
    ensures EntryBytes(File(name, xattr, content))
         == [TAG_FILE] + Encode(|leading| + |content|) + leading + content
  {
    hide Encode;
    assert |leading + content| == |leading| + |content|;
  }

  lemma BlobGrows(e: Entry)
    ensures match e
      case End => true
      case Namespace(n, x) => |n| + |x| <= |Blob(n) + Blob(x)| < |EntryBytes(e)|
      case File(n, x, c) => |n| + |x| + |c| <= |Blob(n) + Blob(x) + Blob(c)| < |EntryBytes(e)|
  {
    hide Encode;
  }

  datatype WriteError = OutOfMemory

  datatype WriteResult = Finalised(bytes: Bytes) | Failed(error: WriteError)

  /** Writing the entries and finalising; fails only if the header cannot hold the sizes. */
  method WriteArchive(es: seq<Entry>, additional: Bytes) returns (r: WriteResult)
    requires |Body(es + [End])| < TWO64
    ensures r.Finalised? <==> HEADER_SIZE + |additional| < TWO32 && |Body(es + [End])| < TWO32
    ensures r.Finalised? ==>
      r.bytes == HeaderBytes(HEADER_SIZE + |additional|, |Body(es + [End])|) + additional + Body(es + [End])
  {
    var w := new Writer();
    for k := 0 to |es|
      invariant w.inner == Body(es[..k])
    {
      BodyStep(es + [End], k);
      BodyGrows(es + [End], k + 1);
      assert (es + [End])[..k] == es[..k] && (es + [End])[..k + 1] == es[..k + 1];
      w.WriteEntry(es[k]);
    }
    BodyStep(es + [End], |es|);
    assert (es + [End])[..|es|] == es[..|es|] && (es + [End])[..|es| + 1] == es + [End];
    w.WriteEntry(End);
    var offset, size := HEADER_SIZE + |additional|, |w.inner|;
    if offset >= TWO32 || size >= TWO32 { return Failed(OutOfMemory); }
    return Finalised(HeaderBytes(offset, size) + additional + w.inner);
  }

  lemma BodyStep(es: seq<Entry>, k: nat)
    requires k < |es|
    ensures Body(es[..k + 1]) == Body(es[..k]) + EntryBytes(es[k])
  {
    assert es[..k + 1][..k] == es[..k];
  }

  lemma {:induction false} BodyGrows(es: seq<Entry>, k: nat)
    requires k <= |es|
    ensures |Body(es[..k])| <= |Body(es)|
    decreases |es| - k
  {
    if k < |es| {
      BodyStep(es, k);
      BodyGrows(es, k + 1);
    } else {
      assert es[..k] == es;
    }
  }

  // ---- reading ----

  /** `read_bytes`: the bytes and the position behind them. */
  function TakeBytes(s: Bytes, pos: nat, size: nat): Result<(Bytes, nat)> {
    if pos + size <= |s| then Ok((s[pos..pos + size], pos + size)) else Err(UnexpectedEof)
  }

  function TakeBlob(s: Bytes, pos: nat): Result<(Bytes, nat)> {
    match Decode(s, pos, 0, 0)
    case Ok((size, pos')) => TakeBytes(s, pos', size)
    case Err(e) => Err(e)
  }

  function TakeString(s: Bytes, pos: nat): Result<(Bytes, nat)> {
    match TakeBlob(s, pos)
    case Ok((b, pos')) => if Utf8(b) then Ok((b, pos')) else Err(InvalidData)
    case Err(e) => Err(e)
  }

  /** The fields inside an entry's payload. */
  function TakeFields(blob: Bytes, isFile: bool): Option<Entry> {
    match TakeString(blob, 0)
    case Err(_) => None
    case Ok((name, p)) =>
      match TakeBlob(blob, p)
      case Err(_) => None
      case Ok((xattr, q)) =>
        if !isFile then Some(Namespace(name, xattr))
        else
          match TakeBlob(blob, q)
          case Err(_) => None
          case Ok((content, _)) => Some(File(name, xattr, content))
  }

  /** Where an attempt to take a blob leaves the position: behind the blob, behind a length
      whose bytes are missing, or where it was. */
  function AfterBlob(s: Bytes, pos: nat): nat {
    match Decode(s, pos, 0, 0)
    case Ok((size, pos')) => if pos' + size <= |s| then pos' + size else pos'
    case Err(_) => pos
  }

  /** What one call of the iterator does, and the position it leaves. Reading past the last
      byte is a panic. */
  datatype Next = Item(entry: Entry) | Nothing | Panic

  function NextEntry(s: Bytes, pos: nat): (Next, nat) {
    if pos >= |s| then (Panic, pos)
    else if s[pos] != TAG_NAMESPACE && s[pos] != TAG_FILE && s[pos] != TAG_END then (Nothing, pos + 1)
    else
      match TakeBlob(s, pos + 1)
      case Err(_) => (Nothing, AfterBlob(s, pos + 1))
      case Ok((blob, pos')) =>
        if s[pos] == TAG_END then (Item(End), pos')
        else
          match TakeFields(blob, s[pos] == TAG_FILE)
          case Some(e) => (Item(e), pos')
          case None => (Nothing, pos')
  }

  lemma BlobEnds(s: Bytes, pos: nat)
    ensures TakeBlob(s, pos).Ok? ==> TakeBlob(s, pos).value.1 == AfterBlob(s, pos)
  {
    hide Decode;
  }

  class Reader {
    const slice: Bytes
    var position: nat

    constructor (slice: Bytes)
      ensures this.slice == slice && position == 0
    {
      this.slice := slice;
      position := 0;
    }

    /** The position moves only on success. */
    method ReadUnsigned() returns (r: Result<U64>)
      modifies this
      ensures match Decode(slice, old(position), 0, 0)
        case Ok((v, p)) => r == Ok(v) && position == p
        case Err(e) => r == Err(e) && position == old(position)
    {
      hide OrGroup;
      var value: U64, scale, cursor := 0, 0, position;
      while true
        invariant Decode(slice, cursor, scale, value) == Decode(slice, position, 0, 0) && position == old(position)
        decreases |slice| - cursor
      {
        if cursor >= |slice| { return Err(UnexpectedEof); }
        var d := slice[cursor];
        cursor := cursor + 1;
        value := OrGroup(value, d, scale);
        scale := scale + 7;
        if d < 128 { break; }
      }
      position := cursor;
      return Ok(value);
    }

    method ReadSigned() returns (r: Result<I64>)
      modifies this
      ensures match DecodeSigned(slice, old(position), 0, 0)
        case Ok((v, p)) => r == Ok(v) && position == p
        case Err(e) => r == Err(e) && position == old(position)
    {
      hide OrGroup, Extend;
      var value: U64, scale, cursor := 0, 0, position;
      while true
        invariant DecodeSigned(slice, cursor, scale, value) == DecodeSigned(slice, position, 0, 0)
        invariant position == old(position)
        decreases |slice| - cursor
      {
        if cursor >= |slice| { return Err(UnexpectedEof); }
        var d := slice[cursor];
        cursor := cursor + 1;
        value := OrGroup(value, d, scale);
        if d < 128 {
          position := cursor;
          return Ok(if d >= 64 then AsI64(Extend(value, scale)) else AsI64(value));
        }
        scale := scale + 7;
      }
    }

    method ReadBlob() returns (r: Result<Bytes>)
      modifies this
      ensures match TakeBlob(slice, old(position))
        case Ok((b, p)) => r == Ok(b) && position == p
        case Err(e) => r == Err(e)
      ensures position == AfterBlob(slice, old(position))
    {
      hide Decode;
      var size := ReadUnsigned();
      if size.Err? { return Err(size.error); }
      if position + size.value > |slice| { return Err(UnexpectedEof); }
      r := Ok(slice[position..position + size.value]);
      position := position + size.value;
    }

    /** The iterator's `next`. */
    method Next() returns (r: Next)
      modifies this
      ensures (r, position) == NextEntry(slice, old(position))
    {
      hide TakeBlob, TakeFields, AfterBlob;
      BlobEnds(slice, position + 1);
      if position >= |slice| { return Panic; }
      var tag := slice[position];
      position := position + 1;
      if tag == TAG_NAMESPACE || tag == TAG_FILE {
        var blob := ReadBlob();
        if blob.Err? { return Nothing; }
        var e := ReadFields(blob.value, tag == TAG_FILE);
        return if e.Some? then Item(e.value) else Nothing;
      } else if tag == TAG_END {
        var blob := ReadBlob();
        return if blob.Ok? then Item(End) else Nothing;
      } else {
        return Nothing;
      }
    }

    /** A reader of its own over the payload. */
    method ReadFields(blob: Bytes, isFile: bool) returns (r: Option<Entry>)
      ensures r == TakeFields(blob, isFile)
    {
      hide TakeBlob;
      var reader := new Reader(blob);
      var name := reader.ReadBlob();
      if name.Err? || !Utf8(name.value) { return None; }
      var xattr := reader.ReadBlob();
      if xattr.Err? { return None; }
      if !isFile { return Some(Namespace(name.value, xattr.value)); }
      var content := reader.ReadBlob();
      if content.Err? { return None; }
      return Some(File(name.value, xattr.value, content.value));
    }
  }

  function U32At(s: Bytes, i: nat): nat
    requires i + 4 <= |s|
  {
    var a: nat, b: nat, c: nat, d: nat := s[i], s[i + 1], s[i + 2], s[i + 3];
    a + 256 * b + 65536 * c + 16777216 * d
  }

  /** `ArchiveReader::from_slice`: the part of the bytes that holds the entries. */
  function Open(s: Bytes): Result<Bytes> {
    if |s| < HEADER_SIZE then Err(UnexpectedEof)
    else if U32At(s, 0) != MAGIC then Err(InvalidData)
    else
      var offset, size := U32At(s, 8), U32At(s, 12);
      if offset + size <= |s| then Ok(s[offset..offset + size]) else Err(InvalidData)
  }

  /** Taking entries until the end tag. */
  function ReadAll(s: Bytes, pos: nat): Option<seq<Entry>>
    decreases |s| - pos
  {
    match NextEntry(s, pos)
    case (Item(e), pos') =>
      if e.End? then Some([])
      else if pos' <= pos || pos >= |s| then None
      else (
        match ReadAll(s, pos')
        case Some(es) => Some([e] + es)
        case None => None)
    case _ => None
  }

  // ---- the round trip ----

  lemma BlobRoundTrip(before: Bytes, b: Bytes, after: Bytes)
    requires |b| < TWO64
    ensures TakeBlob(before + Blob(b) + after, |before|) == Ok((b, |before| + |Blob(b)|))
  {
    hide Decode, Encode;
    var s := before + Blob(b) + after;
    UnsignedRoundTrip(before, |b|, b + after);
    assert s == before + Encode(|b|) + (b + after);
    var p := |before| + |Encode(|b|)|;
    assert s[p..p + |b|] == b;
  }

  lemma NamespaceRoundTrip(name: Bytes, xattr: Bytes)
    requires Utf8(name) && |name| < TWO64 && |xattr| < TWO64
    ensures TakeFields(Blob(name) + Blob(xattr), false) == Some(Namespace(name, xattr))
  {
    hide TakeBlob, Blob, Utf8;
    var a, b := Blob(name), Blob(xattr);
    BlobRoundTrip([], name, b);
    BlobRoundTrip(a, xattr, []);
    assert [] + a + b == a + b && a + b + [] == a + b;
  }

  lemma FileRoundTrip(name: Bytes, xattr: Bytes, content: Bytes)
    requires Utf8(name) && |name| < TWO64 && |xattr| < TWO64 && |content| < TWO64
    ensures TakeFields(Blob(name) + Blob(xattr) + Blob(content), true) == Some(File(name, xattr, content))
  {
    hide TakeBlob, Blob, Utf8;
    var a, b, c := Blob(name), Blob(xattr), Blob(content);
    BlobRoundTrip([], name, b + c);
    BlobRoundTrip(a, xattr, c);
    BlobRoundTrip(a + b, content, []);
    assert [] + a + (b + c) == a + b + c && a + b + c + [] == a + b + c;
  }

  function Tag(e: Entry): Byte {
    match e case End => TAG_END case Namespace(_, _) => TAG_NAMESPACE case File(_, _, _) => TAG_FILE
  }

  function Payload(e: Entry): Bytes {
    match e
    case End => []
    case Namespace(name, xattr) => Blob(name) + Blob(xattr)
    case File(name, xattr, content) => Blob(name) + Blob(xattr) + Blob(content)
  }

  lemma PayloadParses(e: Entry)
    requires Named(e) && !e.End? && |EntryBytes(e)| < TWO64
    ensures TakeFields(Payload(e), e.File?) == Some(e)
  {
    hide Blob, TakeFields;
    BlobGrows(e);
    match e
    case Namespace(name, xattr) => NamespaceRoundTrip(name, xattr);
    case File(name, xattr, content) => FileRoundTrip(name, xattr, content);
  }

  lemma TagPayload(e: Entry)
    ensures EntryBytes(e) == [Tag(e)] + Blob(Payload(e)) && |Payload(e)| < |EntryBytes(e)|
  {
    hide Encode;
  }

  lemma NextIs(s: Bytes, pos: nat, e: Entry, end: nat)
    requires pos < |s| && s[pos] == Tag(e) && TakeBlob(s, pos + 1) == Ok((Payload(e), end))
    requires !e.End? ==> TakeFields(Payload(e), e.File?) == Some(e)
    ensures NextEntry(s, pos) == (Item(e), end)
  {
    hide TakeBlob, TakeFields, Blob;
  }

  lemma EntryRoundTrip(before: Bytes, e: Entry, after: Bytes)
    requires Named(e) && |EntryBytes(e)| < TWO64
    ensures NextEntry(before + EntryBytes(e) + after, |before|) == (Item(e), |before| + |EntryBytes(e)|)
  {
    hide TakeBlob, TakeFields, Utf8, NextEntry, Blob, EntryBytes, Payload, Tag;
    var s := before + EntryBytes(e) + after;
    TagPayload(e);
    BlobRoundTrip(before + [Tag(e)], Payload(e), after);
    assert s == before + [Tag(e)] + Blob(Payload(e)) + after;
    if !e.End? { PayloadParses(e); }
    NextIs(s, |before|, e, |before| + |EntryBytes(e)|);
  }

  /** Reading the body from any entry on gives the rest of the entries. */
  lemma {:induction false} BodyReads(es: seq<Entry>, k: nat)
    requires k <= |es| && |Body(es + [End])| < TWO64
    requires forall i :: 0 <= i < |es| ==> Named(es[i]) && !es[i].End?
    ensures ReadAll(Body(es + [End]), |Body(es[..k])|) == Some(es[k..])
    decreases |es| - k
  {
    hide NextEntry, EntryBytes;
    var all := es + [End];
    var s, e := Body(all), all[k];
    var rest := BodySplit(all, k);
    assert all[..k] == es[..k];
    BodyStep(all, k);
    BodyGrows(all, k + 1);
    EntryRoundTrip(Body(es[..k]), e, rest);
    if k < |es| {
      assert all[..k + 1] == es[..k + 1];
      BodyReads(es, k + 1);
      assert es[k..] == [e] + es[k + 1..];
      EntryNotEmpty(e);
    }
  }

  lemma EntryNotEmpty(e: Entry)
    ensures |EntryBytes(e)| > 0
  {
  }

  lemma {:induction false} BodySplit(es: seq<Entry>, k: nat) returns (rest: Bytes)
    requires k < |es|
    ensures Body(es) == Body(es[..k]) + EntryBytes(es[k]) + rest
    decreases |es| - k
  {
    hide EntryBytes;
    BodyStep(es, k);
    if k + 1 == |es| {
      assert es[..k + 1] == es;
      rest := [];
      assert Body(es) + rest == Body(es);
    } else {
      var more := BodySplit(es, k + 1);
      rest := EntryBytes(es[k + 1]) + more;
      assert Body(es) == Body(es[..k]) + EntryBytes(es[k]) + EntryBytes(es[k + 1]) + more;
    }
  }

  lemma U32RoundTrip(before: Bytes, v: nat, after: Bytes)
    requires v < TWO32
    ensures U32At(before + U32Bytes(v) + after, |before|) == v
  {
    var s := before + U32Bytes(v) + after;
    assert s[|before|..|before| + 4] == U32Bytes(v);
  }

  lemma OpenFinalised(additional: Bytes, body: Bytes)
    requires HEADER_SIZE + |additional| < TWO32 && |body| < TWO32
    ensures Open(HeaderBytes(HEADER_SIZE + |additional|, |body|) + additional + body) == Ok(body)
  {
    var offset, size := HEADER_SIZE + |additional|, |body|;
    var a, b, c, d := U32Bytes(MAGIC), U32Bytes(0), U32Bytes(offset), U32Bytes(size);
    var s := HeaderBytes(offset, size) + additional + body;
    assert s == [] + a + (b + c + d + additional + body);
    U32RoundTrip([], MAGIC, b + c + d + additional + body);
    assert s == (a + b) + c + (d + additional + body);
    U32RoundTrip(a + b, offset, d + additional + body);
    assert s == (a + b + c) + d + (additional + body);
    U32RoundTrip(a + b + c, size, additional + body);
    hide U32Bytes, U32At;
    assert s[offset..offset + size] == body;
  }

  /** Every archive reads back as the entries it was made from, in order, then the end. */
  lemma ArchiveRoundTrip(es: seq<Entry>, additional: Bytes)
    requires HEADER_SIZE + |additional| < TWO32 && |Body(es + [End])| < TWO32
    requires forall i :: 0 <= i < |es| ==> Named(es[i]) && !es[i].End?
    ensures var s := HeaderBytes(HEADER_SIZE + |additional|, |Body(es + [End])|) + additional + Body(es + [End]);
      Open(s).Ok? && ReadAll(Open(s).value, 0) == Some(es)
  {
    hide Open, HeaderBytes, NextEntry;
    OpenFinalised(additional, Body(es + [End]));
    BodyReads(es, 0);
    assert es[0..] == es && es[..0] == [];
  }

  /** The iterator panics exactly when no byte is left. */
  lemma PanicsExactlyPastTheEnd(s: Bytes, pos: nat)
    ensures NextEntry(s, pos).0.Panic? <==> pos >= |s|
  {
    hide TakeBlob, TakeFields, AfterBlob;
  }

  /** In every finalised archive the end entry is the last of the bytes, so one call more is
      a panic. */
  lemma CallAfterEndPanics(es: seq<Entry>, additional: Bytes)
    requires HEADER_SIZE + |additional| < TWO32 && |Body(es + [End])| < TWO32
    ensures var s := HeaderBytes(HEADER_SIZE + |additional|, |Body(es + [End])|) + additional + Body(es + [End]);
      && Open(s).Ok?
      && var body := Open(s).value;
         NextEntry(body, |Body(es)|) == (Item(End), |body|) && NextEntry(body, |body|).0.Panic?
  {
    hide Open, HeaderBytes, NextEntry, EntryBytes;
    var body := Body(es + [End]);
    OpenFinalised(additional, body);
    BodyStep(es + [End], |es|);
    assert (es + [End])[..|es|] == es && (es + [End])[..|es| + 1] == es + [End];
    EntryRoundTrip(Body(es), End, []);
    assert Body(es) + EntryBytes(End) + [] == body;
    PanicsExactlyPastTheEnd(body, |body|);
  }

  // ---- the format, byte by byte ----

  lemma ShortBlob(b: Bytes)
    requires |b| < 128
    ensures Blob(b) == [|b|] + b
  {
  }

  /** Entries of less than 128 bytes, whose every length is one byte. */
  lemma ShortEntryBytes(name: Bytes, xattr: Bytes, content: Bytes)
    requires |name| + |xattr| + |content| + 3 < 128
    ensures EntryBytes(End) == [0x01, 0x00]
    ensures EntryBytes(Namespace(name, xattr))
         == [0x02, |name| + |xattr| + 2, |name|] + name + [|xattr|] + xattr
    ensures EntryBytes(File(name, xattr, content))
         == [0x03, |name| + |xattr| + |content| + 3, |name|] + name + [|xattr|] + xattr + [|content|] + content
  {
    hide Blob;
    ShortBlob([]);
    ShortNamespace(name, xattr);
    ShortFile(name, xattr, content);
  }

  lemma ShortNamespace(name: Bytes, xattr: Bytes)
    requires |name| + |xattr| + 2 < 128
    ensures [TAG_NAMESPACE] + Blob(Blob(name) + Blob(xattr))
         == [0x02, |name| + |xattr| + 2, |name|] + name + [|xattr|] + xattr
  {
    hide Blob;
    ShortBlob(name);
    ShortBlob(xattr);
    ShortBlob(Blob(name) + Blob(xattr));
  }

  lemma ShortFile(name: Bytes, xattr: Bytes, content: Bytes)
    requires |name| + |xattr| + |content| + 3 < 128
    ensures [TAG_FILE] + Blob(Blob(name) + Blob(xattr) + Blob(content))
         == [0x03, |name| + |xattr| + |content| + 3, |name|] + name + [|xattr|] + xattr + [|content|] + content
  {
    hide Blob;
    ShortBlob(name);
    ShortBlob(xattr);
    ShortBlob(content);
    ShortBlob(Blob(name) + Blob(xattr) + Blob(content));
  }

  /** The header of a finalised archive, and what stands behind it. */
  lemma FinalisedBytes(es: seq<Entry>, additional: Bytes)
    requires HEADER_SIZE + |additional| < TWO32 && |Body(es + [End])| < TWO32
    ensures var offset, size := 16 + |additional|, |Body(es + [End])|;
      var s := HeaderBytes(HEADER_SIZE + |additional|, size) + additional + Body(es + [End]);
      && |s| == offset + size && s[..8] == [0xEF, 0xBE, 0x02, 0x00, 0x00, 0x00, 0x00, 0x00]
      && U32At(s, 8) == offset && U32At(s, 12) == size
      && s[16..offset] == additional && s[offset..] == Body(es) + [0x01, 0x00]
  {
    hide HeaderBytes, U32At, Body, EntryBytes;
    BodyLast(es);
    Laid(HEADER_SIZE + |additional|, |Body(es + [End])|, additional, Body(es + [End]));
  }

  lemma BodyLast(es: seq<Entry>)
    ensures Body(es + [End]) == Body(es) + [0x01, 0x00]
  {
    ShortEntryBytes([], [], []);
    assert (es + [End])[..|es|] == es;
    hide EntryBytes;
  }

  lemma Laid(offset: nat, size: nat, additional: Bytes, body: Bytes)
    requires offset == 16 + |additional| < TWO32 && size == |body| < TWO32
    ensures var s := HeaderBytes(offset, size) + additional + body;
      && |s| == offset + size && s[..8] == [0xEF, 0xBE, 0x02, 0x00, 0x00, 0x00, 0x00, 0x00]
      && U32At(s, 8) == offset && U32At(s, 12) == size
      && s[16..offset] == additional && s[offset..] == body
  {
    hide HeaderBytes, U32At;
    HeaderIs(offset, size, additional + body);
    assert HeaderBytes(offset, size) + additional + body == HeaderBytes(offset, size) + (additional + body);
  }

  lemma HeaderIs(offset: nat, size: nat, rest: Bytes)
    requires offset < TWO32 && size < TWO32
    ensures var h := HeaderBytes(offset, size); var s := h + rest;
      && |h| == 16 && s[..8] == [0xEF, 0xBE, 0x02, 0x00, 0x00, 0x00, 0x00, 0x00]
      && U32At(s, 8) == offset && U32At(s, 12) == size
  {
    var a, b, c, d := U32Bytes(MAGIC), U32Bytes(0), U32Bytes(offset), U32Bytes(size);
    assert a == [0xEF, 0xBE, 0x02, 0x00] && b == [0x00, 0x00, 0x00, 0x00];
    var s := HeaderBytes(offset, size) + rest;
    assert s == (a + b) + c + (d + rest);
    U32RoundTrip(a + b, offset, d + rest);
    assert s == (a + b + c) + d + rest;
    U32RoundTrip(a + b + c, size, rest);
    hide U32Bytes, U32At;
  }

  /** Bytes are opened exactly if they begin with the magic number and the body that the header
      names lies inside them; the error tells bytes that are too few from the rest. */
  lemma OpenIsExact(s: Bytes)
    ensures Open(s) == Err(UnexpectedEof) <==> |s| < 16
    ensures |s| >= 16 ==>
      var offset, size := U32At(s, 8), U32At(s, 12);
      if s[..4] == [0xEF, 0xBE, 0x02, 0x00] && offset + size <= |s| then Open(s) == Ok(s[offset..offset + size])
      else Open(s) == Err(InvalidData)
  {
    if |s| >= 16 {
      assert s[..4] == [s[0], s[1], s[2], s[3]];
      var a: nat, b: nat, c: nat, d: nat := s[0], s[1], s[2], s[3];
      assert a + 256 * b + 65536 * c + 16777216 * d == MAGIC <==> a == 0xEF && b == 0xBE && c == 0x02 && d == 0x00;
    }
  }
}
