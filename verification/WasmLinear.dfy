/** Linear memory as the object the interpreter shares: scalar access, bulk operations and
    growth on one byte vector, against a map from addresses to bytes. */
module WasmLinear {
  import opened WasmMemory

  // ---- scalars ----

  function Power256(n: nat): nat { if n == 0 then 1 else 256 * Power256(n - 1) }

  lemma {:induction false} LittleEndianRoundTrip(v: nat, width: nat)
    requires v < Power256(width)
    ensures FromLittleEndian(ToLittleEndian(v, width)) == v
  {
    if width > 0 {
      LittleEndianRoundTrip(v / 256, width - 1);
      var bs := ToLittleEndian(v, width);
      assert bs[1..] == ToLittleEndian(v / 256, width - 1);
    }
  }

  lemma {:induction false} BytesRoundTrip(bs: seq<Byte>)
    ensures FromLittleEndian(bs) < Power256(|bs|) && ToLittleEndian(FromLittleEndian(bs), |bs|) == bs
  {
    if bs != [] { BytesRoundTrip(bs[1..]); }
  }

  /** With at least one page, the wrapped limit test is the test the specification asks for
      (section 4.4.7), and no access leaves the vector. */
  lemma AccessIsExact(data: seq<Byte>, offset: nat, index: nat, width: nat)
    requires 1 <= width <= 8 && |data| >= PAGE_SIZE
    ensures Read(data, offset, index, width).Ok? <==> offset + index + width <= |data|
    ensures Read(data, offset, index, width).OutOfBounds? <==> offset + index + width > |data|
    ensures forall v :: Write(data, offset, index, width, v).Ok? <==> offset + index + width <= |data|
    ensures forall v :: !Write(data, offset, index, width, v).Undefined?
  {
  }

  /** Without a page the subtraction wraps, and every multi-byte access passes the test. */
  lemma EmptyMemoryIsWild(offset: nat, index: nat, width: nat, v: nat)
    requires offset < 0x1_0000_0000 && index < 0x1_0000_0000 && 2 <= width <= 8
    ensures Read([], offset, index, width).Undefined? && Write([], offset, index, width, v).Undefined?
  {
  }

  /** With whole pages, scalar access is defined for every operand exactly if there is one. */
  lemma DefinedExactlyWithPages(data: seq<Byte>)
    requires |data| % PAGE_SIZE == 0
    ensures data != [] <==> forall o, i, w :: 1 <= w <= 8 ==> !Read(data, o, i, w).Undefined?
    ensures data != [] <==> forall o, i, w, v :: 1 <= w <= 8 ==> !Write(data, o, i, w, v).Undefined?
  {
    assert data == [] ==> Read(data, 0, 0, 8).Undefined? && Write(data, 0, 0, 8, 0).Undefined?;
  }

  /** A store is visible to a load of the same width and to no byte outside its own. */
  lemma StoreThenLoad(data: seq<Byte>, offset: nat, index: nat, width: nat, v: nat)
    requires 1 <= width <= 8 && v < Power256(width) && Write(data, offset, index, width, v).Ok?
    ensures var data', ea := Write(data, offset, index, width, v).value, offset + index;
      && |data'| == |data| && Read(data', offset, index, width) == Ok(v)
      && (forall a :: 0 <= a < |data| && !(ea <= a < ea + width) ==> data'[a] == data[a])
  {
    hide FromLittleEndian, ToLittleEndian, Power256;
    var data', ea := Write(data, offset, index, width, v).value, offset + index;
    LittleEndianRoundTrip(v, width);
    assert data'[ea..ea + width] == ToLittleEndian(v, width);
  }

  /** Storing back what was loaded changes nothing. */
  lemma LoadThenStore(data: seq<Byte>, offset: nat, index: nat, width: nat)
    requires 1 <= width <= 8 && Read(data, offset, index, width).Ok?
    ensures Write(data, offset, index, width, Read(data, offset, index, width).value) == Ok(data)
  {
    var ea := offset + index;
    BytesRoundTrip(data[ea..ea + width]);
    assert data[..ea] + data[ea..ea + width] + data[ea + width..] == data;
  }

  // ---- bulk ----

  /** The test shared by `slice`, `write_slice`, `write_bytes` and `copy`. */
  predicate InLimit(offset: nat, count: nat, limit: nat) { offset < limit && count < limit && offset + count < limit }

  /** It admits no range that leaves the memory, and refuses one the specification allows:
      the range that ends with the last byte, or is empty and starts there. */
  lemma LimitIsStrict(offset: nat, count: nat, limit: nat)
    ensures InLimit(offset, count, limit) <==> offset + count <= limit && offset + count != limit
  {
  }

  class LinearMemory {
    var data: seq<Byte>

    ghost predicate Valid()
      reads this
    {
      |data| % PAGE_SIZE == 0
    }

    constructor (pages: nat)
      ensures Valid() && |data| == pages * PAGE_SIZE && forall a :: 0 <= a < |data| ==> data[a] == 0
    {
      data := seq(pages * PAGE_SIZE, _ => 0);
    }

    method Size() returns (pages: nat)
      requires Valid()
      ensures pages * PAGE_SIZE == |data|
    {
      pages := |data| / PAGE_SIZE;
    }

    /** `available` says how many bytes the host can still reserve. */
    method Grow(delta: int, available: nat) returns (r: int)
      requires Valid()
      modifies this
      ensures Valid() && old(data) <= data
      ensures forall a :: |old(data)| <= a < |data| ==> data[a] == 0
      ensures if 0 <= delta && delta * PAGE_SIZE <= available
              then r * PAGE_SIZE == |old(data)| && |data| == |old(data)| + delta * PAGE_SIZE
              else r == -1 && data == old(data)
      ensures (data, r) == WasmMemory.Grow(old(data), delta, |old(data)| + available)
    {
      var oldSize := |data|;
      if delta > 0 {
        var additional := delta * PAGE_SIZE;
        if additional > available { return -1; }
        data := data + seq(additional, _ => 0);
        return oldSize / PAGE_SIZE;
      } else if delta == 0 {
        return oldSize / PAGE_SIZE;
      } else {
        return -1;
      }
    }

    method Load(offset: nat, index: nat, width: nat) returns (r: Access<nat>)
      requires Valid() && 1 <= width <= 8
      ensures r == Read(data, offset, index, width)
      ensures data != [] ==> (r.Ok? <==> offset + index + width <= |data|) && !r.Undefined?
    {
      r := Read(data, offset, index, width);
    }

    method Store(offset: nat, index: nat, width: nat, v: nat) returns (r: Access<()>)
      requires Valid() && 1 <= width <= 8 && v < Power256(width) && data != []
      modifies this
      ensures Valid() && |data| == |old(data)| && !r.Undefined?
      ensures r.Ok? <==> offset + index + width <= |data|
      ensures r.Ok? ==> Read(data, offset, index, width) == Ok(v)
      ensures forall a :: 0 <= a < |data| && (r.Ok? ==> !(offset + index <= a < offset + index + width)) ==>
        data[a] == old(data)[a]
    {
      match Write(data, offset, index, width, v) {
        case Ok(d) =>
          StoreThenLoad(data, offset, index, width, v);
          data := d;
          r := Ok(());
        case OutOfBounds => r := OutOfBounds;
        case Undefined => assert false;
      }
    }

    method WriteSlice(offset: nat, src: seq<Byte>) returns (ok: bool)
      requires Valid()
      modifies this
      ensures Valid() && |data| == |old(data)| && ok == InLimit(offset, |src|, |data|)
      ensures ok ==> data[offset..offset + |src|] == src
      ensures forall a :: 0 <= a < |data| && (ok ==> !(offset <= a < offset + |src|)) ==> data[a] == old(data)[a]
    {
      var limit := |data|;
      ok := offset < limit && |src| < limit && offset + |src| < limit;
      if ok { data := data[..offset] + src + data[offset + |src|..]; }
    }

    method WriteBytes(offset: nat, val: Byte, count: nat) returns (ok: bool)
      requires Valid()
      modifies this
      ensures Valid() && |data| == |old(data)| && ok == InLimit(offset, count, |data|)
      ensures forall a :: 0 <= a < |data| ==>
        data[a] == if ok && offset <= a < offset + count then val else old(data)[a]
    {
      ok := WriteSlice(offset, seq(count, _ => val));
      assert ok ==> forall a :: offset <= a < offset + count ==> data[a] == data[offset..offset + count][a - offset];
    }

    /** `memmove`: the source range is read before any byte is written. */
    method Copy(dest: nat, src: nat, count: nat) returns (ok: bool)
      requires Valid()
      modifies this
      ensures Valid() && |data| == |old(data)| && ok == (InLimit(dest, count, |data|) && InLimit(src, count, |data|))
      ensures forall a :: 0 <= a < |data| ==>
        data[a] == if ok && dest <= a < dest + count then old(data)[src + (a - dest)] else old(data)[a]
    {
      var limit := |data|;
      ok := dest < limit && src < limit && count < limit && dest + count < limit && src + count < limit;
      if ok { data := data[..dest] + data[src..src + count] + data[dest + count..]; }
    }
  }

  /** Growth never disturbs what was stored: a load that succeeded before returns the same
      after, whatever the request and whether or not it is granted. */
  lemma GrowKeepsLoads(data: seq<Byte>, delta: int, capacity: nat, offset: nat, index: nat, width: nat)
    requires 1 <= width <= 8 && |data| >= PAGE_SIZE
    requires Read(data, offset, index, width).Ok?
    ensures Read(Grow(data, delta, capacity).0, offset, index, width) == Read(data, offset, index, width)
  {
    var data', ea := Grow(data, delta, capacity).0, offset + index;
    assert data'[ea..ea + width] == data[ea..ea + width];
  }
}
