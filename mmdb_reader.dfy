/**
 * The seekable byte source of src/mmdb.rs and the imperative `read_type`:
 * a cursor over a fixed buffer, moved by reads and seeks, and the decoder that
 * drives it. Each method is proved to leave the cursor where the functions of
 * MmdbDecode say, with the value they compute.
 */
module MmdbReader {
  import opened Base
  import opened MmdbValue
  import opened MmdbDecode

  /**
   * A `Read + Seek` source over bytes that are never written (a `Cursor`
   * over the file's contents): the bytes are fixed, the position moves.
   */
  class Reader {
    const data: seq<byte>
    var pos: nat

    constructor (data: seq<byte>)
      ensures this.data == data && pos == 0
    {
      this.data := data;
      pos := 0;
    }

    /** `seek(SeekFrom::Start(p))`: any position, also past the end. */
    method Seek(p: nat)
      modifies this
      ensures pos == p
    {
      pos := p;
    }

    /** `read_exact` of n bytes. */
    method ReadExact(n: nat) returns (r: Result<seq<byte>, MmdbError>)
      modifies this
      ensures Step(r, pos) == ReadBytes(data, old(pos), n)
    {
      if n == 0 {
        r := Ok([]);
      } else if pos + n <= |data| {
        r := Ok(data[pos..pos + n]);
        pos := pos + n;
      } else {
        r := Err(BadIo);
        pos := |data|;
      }
    }
  }

  /** The control byte, the extended-type byte and the size extension. */
  method ReadControl(reader: Reader) returns (r: Result<Header, MmdbError>)
    modifies reader
    ensures Step(r, reader.pos) == ReadHeader(reader.data, old(reader.pos))
  {
    var c := reader.ReadExact(1);
    if c.Err? {
      return Err(c.error);
    }
    var control := c.value[0];
    var tag := control / 32;
    var hint := control % 32;
    if tag == 0 {
      var e := reader.ReadExact(1);
      if e.Err? {
        return Err(e.error);
      }
      tag := ExtendedTag(e.value[0]);
    }
    if tag == 1 {
      return Ok(Header(1, hint));
    }
    var f := reader.ReadExact(SizeFieldLength(hint));
    if f.Err? {
      return Err(f.error);
    }
    r := Ok(Header(tag, ResolveSize(hint, f.value)));
  }

  /** Reads `size` bytes as an unsigned number of at most `maxBytes` bytes. */
  method ReadUnsigned(reader: Reader, size: nat, maxBytes: nat) returns (r: Result<nat, MmdbError>)
    modifies reader
    ensures Step(r, reader.pos) == DecodeUnsigned(reader.data, size, old(reader.pos), maxBytes)
  {
    if size == 0 {
      return Ok(0);
    }
    if size > maxBytes {
      return Err(Panicked("read_uint byte count out of range"));
    }
    var b := reader.ReadExact(size);
    if b.Err? {
      return Err(b.error);
    }
    r := Ok(BigEndian(b.value));
  }

  /** The scalar cases of `read_type`. */
  method ReadScalar(reader: Reader, tag: nat, size: nat) returns (r: Result<Type, MmdbError>)
    modifies reader
    ensures Step(r, reader.pos) == DecodeScalar(reader.data, tag, size, old(reader.pos))
  {
    Pow256Values();
    if tag == 2 || tag == 4 {
      var b := reader.ReadExact(size);
      if b.Err? {
        return Err(b.error);
      }
      r := if tag == 2 then Ok(Utf8String(b.value)) else Ok(Bytes(b.value));
    } else if tag == 3 || tag == 15 {
      var b := reader.ReadExact(if tag == 3 then 8 else 4);
      if b.Err? {
        return Err(b.error);
      }
      r := if tag == 3 then Ok(Double(BigEndian(b.value))) else Ok(Float(BigEndian(b.value)));
    } else if tag == 5 || tag == 6 {
      var width := if tag == 5 then 2 else 4;
      var u := ReadUnsigned(reader, size, 8);
      if u.Err? {
        return Err(u.error);
      }
      if u.value >= Pow256(width) {
        return Err(BadConversion);
      }
      r := if tag == 5 then Ok(U16(u.value)) else Ok(U32(u.value));
    } else if tag == 9 || tag == 10 {
      var u := ReadUnsigned(reader, size, if tag == 9 then 8 else 16);
      if u.Err? {
        return Err(u.error);
      }
      r := if tag == 9 then Ok(U64(u.value)) else Ok(U128(u.value));
    } else if tag == 8 {
      if size == 4 {
        var b := reader.ReadExact(4);
        if b.Err? {
          return Err(b.error);
        }
        r := Ok(S32(ToSigned32(BigEndian(b.value))));
      } else if size <= 3 {
        var u := ReadUnsigned(reader, size, 8);
        if u.Err? {
          return Err(u.error);
        }
        Pow256Monotonic(size, 3);
        r := Ok(S32(u.value));
      } else {
        r := Err(InvalidData("bad s32 size"));
      }
    } else if tag == 12 {
      r := Err(NotImplemented("data cache container"));
    } else if tag == 13 {
      r := Err(NotImplemented("end marker"));
    } else if tag == 14 {
      r := if size == 0 then Ok(Boolean(false))
           else if size == 1 then Ok(Boolean(true))
           else Err(InvalidData("invalid boolean"));
    } else {
      r := Err(InvalidData("invalid data type specifier"));
    }
  }

  /**
   * `read_type`: decodes one value at the cursor. With metadata, a pointer is
   * followed by saving the cursor, seeking to the target, decoding there and
   * seeking back; maps and arrays decode their elements in a loop.
   */
  method ReadType(reader: Reader, meta: Option<Metadata>, fuel: nat) returns (r: Result<Type, MmdbError>)
    modifies reader
    decreases fuel, Remaining(reader.data, reader.pos), 0
    ensures Step(r, reader.pos) == Decode(reader.data, old(reader.pos), meta, fuel)
  {
    ghost var data := reader.data;
    ghost var p0 := reader.pos;
    var h := ReadControl(reader);
    if h.Err? {
      return Err(h.error);
    }
    var tag, size := h.value.tag, h.value.size;
    assert Decode(data, p0, meta, fuel) == DecodePayload(data, h.value, reader.pos, meta, fuel);
    if tag == 1 {
      r := ReadPointer(reader, size, meta, fuel);
    } else if tag == 7 {
      r := ReadMap(reader, size, meta, fuel);
    } else if tag == 11 {
      r := ReadArray(reader, size, meta, fuel);
    } else {
      r := ReadScalar(reader, tag, size);
    }
  }

  /** The pointer case: read the pointer bytes, check for metadata, then follow the pointer. */
  method ReadPointer(reader: Reader, hint: nat, meta: Option<Metadata>, fuel: nat) returns (r: Result<Type, MmdbError>)
    modifies reader
    decreases fuel, Remaining(reader.data, reader.pos), 1
    ensures Step(r, reader.pos) == DecodePointer(reader.data, hint, old(reader.pos), meta, fuel)
  {
    ghost var p0 := reader.pos;
    var width := hint / 8;
    if width > 3 {
      return Err(InvalidData("invalid pointer size"));
    }
    var e := reader.ReadExact(width + 1);
    if e.Err? {
      return Err(e.error);
    }
    if meta.None? {
      return Err(InvalidData("pointer addressed before metadata parsed"));
    }
    var bpn := BytesPerNode(meta.value.recordSize);
    if bpn.Err? {
      return Err(bpn.error);
    }
    if fuel == 0 {
      return Err(PointerChainTooDeep);
    }
    var target := DataSectionOffset(bpn.value, meta.value.nodeCount, PointerValue(width, hint % 8, e.value));
    assert e.value == reader.data[p0..p0 + width + 1];
    PointerTarget(reader.data, hint, p0, meta.value, fuel);
    PointerRestoresCursor(reader.data, hint, p0, meta, fuel);
    r := FollowPointer(reader, target, meta, fuel);
  }

  /** Save the position, seek to the target, decode there with one pointer less, seek back. */
  method FollowPointer(reader: Reader, target: nat, meta: Option<Metadata>, fuel: nat) returns (r: Result<Type, MmdbError>)
    requires fuel > 0
    modifies reader
    decreases fuel, 0, 0
    ensures r == Decode(reader.data, target, meta, fuel - 1).result && reader.pos == old(reader.pos)
  {
    var saved := reader.pos;
    reader.Seek(target);
    r := ReadType(reader, meta, fuel - 1);
    reader.Seek(saved);
  }

  /** One map entry: a key that must be a string, then its value. */
  method ReadEntry(reader: Reader, meta: Option<Metadata>, fuel: nat) returns (r: Result<(seq<byte>, Type), MmdbError>)
    modifies reader
    decreases fuel, Remaining(reader.data, reader.pos), 1
    ensures Step(r, reader.pos) == DecodeEntry(reader.data, old(reader.pos), meta, fuel)
  {
    var key := ReadType(reader, meta, fuel);
    if key.Err? {
      return Err(key.error);
    }
    if !key.value.Utf8String? {
      return Err(InvalidData("key field for map is not string"));
    }
    var value := ReadType(reader, meta, fuel);
    if value.Err? {
      return Err(value.error);
    }
    r := Ok((key.value.text, value.value));
  }

  /** The map case: `size` key/value pairs inserted into a map, later keys overwriting. */
  method ReadMap(reader: Reader, size: nat, meta: Option<Metadata>, fuel: nat) returns (r: Result<Type, MmdbError>)
    modifies reader
    decreases fuel, Remaining(reader.data, reader.pos), 2
    ensures Step(r, reader.pos) == DecodeEntries(reader.data, old(reader.pos), size, map[], meta, fuel)
  {
    ghost var data := reader.data;
    ghost var start := reader.pos;
    var items: map<seq<byte>, Type> := map[];
    var i := 0;
    while i < size
      invariant i <= size && start <= reader.pos
      invariant DecodeEntries(data, start, size, map[], meta, fuel)
             == DecodeEntries(data, reader.pos, size - i, items, meta, fuel)
    {
      ghost var e := DecodeEntry(data, reader.pos, meta, fuel);
      EntriesStep(data, reader.pos, size - i, items, meta, fuel);
      var entry := ReadEntry(reader, meta, fuel);
      assert Step(entry, reader.pos) == e;
      if entry.Err? {
        return Err(entry.error);
      }
      items := items[entry.value.0 := entry.value.1];
      i := i + 1;
    }
    r := Ok(Map(items));
  }

  /** The array case: `size` elements in order. */
  method ReadArray(reader: Reader, size: nat, meta: Option<Metadata>, fuel: nat) returns (r: Result<Type, MmdbError>)
    modifies reader
    decreases fuel, Remaining(reader.data, reader.pos), 1
    ensures Step(r, reader.pos) == DecodeItems(reader.data, old(reader.pos), size, [], meta, fuel)
  {
    ghost var data := reader.data;
    ghost var start := reader.pos;
    var items: seq<Type> := [];
    var i := 0;
    while i < size
      invariant i <= size && start <= reader.pos
      invariant DecodeItems(data, start, size, [], meta, fuel)
             == DecodeItems(data, reader.pos, size - i, items, meta, fuel)
    {
      ghost var p := reader.pos;
      var item := ReadType(reader, meta, fuel);
      ItemsStep(data, p, size - i, items, meta, fuel);
      if item.Err? {
        return Err(item.error);
      }
      var rest := items + [item.value];
      assert DecodeItems(data, p, size - i, items, meta, fuel)
          == DecodeItems(data, reader.pos, size - (i + 1), rest, meta, fuel);
      items := rest;
      i := i + 1;
    }
    r := Ok(Array(items));
  }
}
