/**
 * The value decoder of src/mmdb.rs (`read_type`) as functions of the file's
 * bytes and a cursor position. Each function returns the decoded value or the
 * error, together with the position the cursor is left at, so that the
 * imperative reader in MmdbReader can be proved to compute exactly this.
 *
 * The decoder follows pointers without limit in the source; here every pointer
 * followed spends one unit of `fuel`, and an exhausted budget is the error
 * PointerChainTooDeep. Maps and arrays need no fuel: every element consumes at
 * least one byte.
 */
module MmdbDecode {
  import opened Base
  import opened MmdbValue

  /** Bytes left after a cursor position: the decoder's progress measure. */
  function Remaining(data: seq<byte>, pos: nat): nat
  {
    if pos < |data| then |data| - pos else 0
  }

  /**
   * `read_exact` of n bytes on an in-memory cursor: it fails when fewer than n
   * bytes are left, and a failed read leaves the cursor at the end.
   */
  function ReadBytes(data: seq<byte>, pos: nat, n: nat): (s: Step<seq<byte>>)
    ensures s.result.Ok? <==> n == 0 || pos + n <= |data|
    ensures s.result.Ok? ==> |s.result.value| == n && s.next == pos + n
    ensures s.result.Ok? && n > 0 ==> s.result.value == data[pos..pos + n]
    ensures s.result.Err? ==> s.result.error == BadIo && s.next == |data|
  {
    if n == 0 then Step(Ok([]), pos)
    else if pos + n <= |data| then Step(Ok(data[pos..pos + n]), pos + n)
    else Step(Err(BadIo), |data|)
  }

  // ---------------------------------------------------------------------------
  // Control byte: type tag and payload size
  // ---------------------------------------------------------------------------

  /** A decoded control byte: the type tag and the size (for a pointer, the raw 5-bit hint). */
  datatype Header = Header(tag: nat, size: nat)

  /** How many bytes follow the control byte to extend the size. */
  function SizeFieldLength(hint: nat): nat
  {
    if hint < 29 then 0 else hint - 28
  }

  /** The largest size a control byte can express, plus one. */
  const SizeLimit: nat := 65821 + 0x100_0000

  /**
   * The payload size for a 5-bit hint and its extension bytes, computed in
   * unbounded arithmetic (the source adds in u8/u16 first: see
   * ResolveSizeAsWritten). The four hint classes cover disjoint,
   * consecutive ranges of sizes.
   */
  function ResolveSize(hint: nat, field: seq<byte>): (size: nat)
    requires hint < 32 && |field| == SizeFieldLength(hint)
    ensures hint < 29 ==> size == hint
    ensures hint == 29 ==> 29 <= size < 285 && size - 29 == BigEndian(field)
    ensures hint == 30 ==> 285 <= size < 65821 && size - 285 == BigEndian(field)
    ensures hint == 31 ==> 65821 <= size < SizeLimit && size - 65821 == BigEndian(field)
  {
    Pow256Values();
    if hint < 29 then hint
    else if hint == 29 then 29 + BigEndian(field)
    else if hint == 30 then 285 + BigEndian(field)
    else 65821 + BigEndian(field)
  }

  /** The tag an extended-type byte stands for (type 0 escapes to 7 + next byte), widened. */
  function ExtendedTag(next: byte): nat
  {
    7 + next
  }

  /** Reads the size extension for a non-pointer tag. */
  function ReadSize(data: seq<byte>, tag: nat, hint: nat, pos: nat): (h: Step<Header>)
    requires hint < 32 && pos <= |data|
    ensures h.result.Ok? ==> pos <= h.next <= |data| && h.result.value.tag == tag
  {
    var f := ReadBytes(data, pos, SizeFieldLength(hint));
    if f.result.Err? then Step(Err(f.result.error), f.next)
    else Step(Ok(Header(tag, ResolveSize(hint, f.result.value))), f.next)
  }

  /**
   * The control byte at `pos`: top three bits the tag (0 escapes to an extended
   * tag in the next byte), low five bits the size hint, which is resolved for
   * every tag but the pointer's.
   */
  function ReadHeader(data: seq<byte>, pos: nat): (h: Step<Header>)
    ensures h.result.Ok? ==> pos < |data| && pos < h.next <= |data|
    ensures h.result.Ok? && h.result.value.tag == 1 ==> h.result.value.size < 32
    ensures pos >= |data| ==> h == Step(Err(BadIo), |data|)
  {
    var c := ReadBytes(data, pos, 1);
    if c.result.Err? then Step(Err(c.result.error), c.next)
    else
      var control := c.result.value[0];
      var hint := control % 32;
      var t :=
        if control / 32 == 0 then
          var e := ReadBytes(data, c.next, 1);
          if e.result.Err? then Step(Err(e.result.error), e.next)
          else Step(Ok(ExtendedTag(e.result.value[0])), e.next)
        else Step(Ok(control / 32), c.next);
      if t.result.Err? then Step(Err(t.result.error), t.next)
      else if t.result.value == 1 then Step(Ok(Header(1, hint)), t.next)
      else ReadSize(data, t.result.value, hint, t.next)
  }

  // ---------------------------------------------------------------------------
  // Scalars
  // ---------------------------------------------------------------------------

  /**
   * An unsigned number of `size` bytes: 0 without reading when the size is 0
   * (the source's guard), else byteorder's `read_uint`, which takes 1 to
   * `maxBytes` bytes and panics on more.
   */
  function DecodeUnsigned(data: seq<byte>, size: nat, start: nat, maxBytes: nat): (s: Step<nat>)
    ensures s.result.Ok? ==> s.result.value < Pow256(size) && s.result.value < Pow256(maxBytes)
    ensures s.result.Ok? ==> size <= maxBytes || size == 0
    ensures s.result.Ok? ==> s.next == start + size
    ensures s.result.Ok? && size > 0 ==> start + size <= |data| && s.result.value == BigEndian(data[start..start + size])
    ensures size == 0 ==> s == Step(Ok(0), start)
    ensures size > maxBytes && size > 0 ==> s == Step(Err(Panicked("read_uint byte count out of range")), start)
    ensures 0 < size <= maxBytes ==> (s.result.Ok? <==> start + size <= |data|)
    ensures 0 < size <= maxBytes && start + size > |data| ==> s == Step(Err(BadIo), |data|)
  {
    if size == 0 then Step(Ok(0), start)
    else if size > maxBytes then Step(Err(Panicked("read_uint byte count out of range")), start)
    else
      var b := ReadBytes(data, start, size);
      if b.result.Err? then Step(Err(b.result.error), b.next)
      else
        Pow256Monotonic(size, maxBytes);
        Step(Ok(BigEndian(b.result.value)), b.next)
  }

  /** A 32-bit pattern read as a two's-complement `i32` (`read_i32`). */
  function ToSigned32(v: u32): (s: i32)
    ensures s >= 0 ==> s == v
    ensures s < 0 ==> s + 0x1_0000_0000 == v
  {
    if v < 0x8000_0000 then v else v - 0x1_0000_0000
  }

  /**
   * The signed 32-bit type (tag 8): four bytes two's complement, zero to three
   * bytes unsigned (a number below 2^24, so non-negative), more is an error.
   * A size of 0 gives 0: see DecodeS32AsWritten for the source's behaviour.
   */
  function DecodeS32(data: seq<byte>, size: nat, start: nat): (s: Step<Type>)
    ensures s.result.Ok? ==> s.result.value.S32? && s.next == start + size
    ensures s.result.Ok? && size < 4 ==> 0 <= s.result.value.s32 < Pow256(size)
    ensures size > 4 ==> s == Step(Err(InvalidData("bad s32 size")), start)
    ensures s.result.Ok? <==> size == 0 || (size <= 4 && start + size <= |data|)
    ensures size == 0 ==> s == Step(Ok(S32(0)), start)
    ensures 0 < size <= 3 && start + size <= |data| ==> s.result.Ok? && s.result.value.s32 == BigEndian(data[start..start + size])
    ensures size == 4 && start + 4 <= |data| ==>
              s.result.Ok? && s.result.value.s32 % 0x1_0000_0000 == BigEndian(data[start..start + 4])
    ensures 0 < size <= 4 && start + size > |data| ==> s == Step(Err(BadIo), |data|)
  {
    Pow256Values();
    if size == 4 then
      var b := ReadBytes(data, start, 4);
      if b.result.Err? then Step(Err(b.result.error), b.next)
      else Step(Ok(S32(ToSigned32(BigEndian(b.result.value)))), b.next)
    else if size <= 3 then
      var u := DecodeUnsigned(data, size, start, 8);
      if u.result.Err? then Step(Err(u.result.error), u.next)
      else
        Pow256Monotonic(size, 3);
        Step(Ok(S32(u.result.value)), u.next)
    else Step(Err(InvalidData("bad s32 size")), start)
  }

  /** The unsigned types: `read_uint` then a checked narrowing (`try_into`) to the width. */
  function DecodeNarrowed(data: seq<byte>, size: nat, start: nat, width: nat): (s: Step<nat>)
    ensures s.result.Ok? ==> s.result.value < Pow256(width) && s.next == start + size
    ensures size == 0 ==> s == Step(Ok(0), start)
    ensures 0 < size <= 8 && start + size <= |data| ==>
              var v := BigEndian(data[start..start + size]);
              s == if v < Pow256(width) then Step(Ok(v), start + size) else Step(Err(BadConversion), start + size)
    ensures 0 < size <= 8 && start + size > |data| ==> s == Step(Err(BadIo), |data|)
    ensures size > 8 ==> s == Step(Err(Panicked("read_uint byte count out of range")), start)
  {
    var u := DecodeUnsigned(data, size, start, 8);
    if u.result.Err? then u
    else if u.result.value >= Pow256(width) then Step(Err(BadConversion), u.next)
    else u
  }

  /** Every tag that is not a pointer, map or array: strings, numbers, booleans, floats, and the unsupported ones. */
  function DecodeScalar(data: seq<byte>, tag: nat, size: nat, start: nat): (s: Step<Type>)
    ensures s.result.Ok? ==> start <= s.next
  {
    Pow256Values();
    match tag
    case 2 =>
      var b := ReadBytes(data, start, size);
      if b.result.Err? then Step(Err(b.result.error), b.next)
      else Step(Ok(Utf8String(b.result.value)), b.next)
    case 3 =>
      var b := ReadBytes(data, start, 8);
      if b.result.Err? then Step(Err(b.result.error), b.next)
      else Step(Ok(Double(BigEndian(b.result.value))), b.next)
    case 4 =>
      var b := ReadBytes(data, start, size);
      if b.result.Err? then Step(Err(b.result.error), b.next)
      else Step(Ok(Bytes(b.result.value)), b.next)
    case 5 =>
      var u := DecodeNarrowed(data, size, start, 2);
      if u.result.Err? then Step(Err(u.result.error), u.next)
      else Step(Ok(U16(u.result.value)), u.next)
    case 6 =>
      var u := DecodeNarrowed(data, size, start, 4);
      if u.result.Err? then Step(Err(u.result.error), u.next)
      else Step(Ok(U32(u.result.value)), u.next)
    case 8 => DecodeS32(data, size, start)
    case 9 =>
      var u := DecodeUnsigned(data, size, start, 8);
      if u.result.Err? then Step(Err(u.result.error), u.next)
      else Step(Ok(U64(u.result.value)), u.next)
    case 10 =>
      var u := DecodeUnsigned(data, size, start, 16);
      if u.result.Err? then Step(Err(u.result.error), u.next)
      else Step(Ok(U128(u.result.value)), u.next)
    case 12 => Step(Err(NotImplemented("data cache container")), start)
    case 13 => Step(Err(NotImplemented("end marker")), start)
    case 14 =>
      if size == 0 then Step(Ok(Boolean(false)), start)
      else if size == 1 then Step(Ok(Boolean(true)), start)
      else Step(Err(InvalidData("invalid boolean")), start)
    case 15 =>
      var b := ReadBytes(data, start, 4);
      if b.result.Err? then Step(Err(b.result.error), b.next)
      else Step(Ok(Float(BigEndian(b.result.value))), b.next)
    case _ => Step(Err(InvalidData("invalid data type specifier")), start)
  }

  // ---------------------------------------------------------------------------
  // Pointers
  // ---------------------------------------------------------------------------

  /** The bias a pointer of each width adds, so that each width starts where the previous one ends. */
  function PointerBias(width: nat): (b: nat)
    requires width < 4
    ensures width == 0 || width == 3 ==> b == 0
    ensures width == 1 ==> b == 8 * Pow256(1)
    ensures width == 2 ==> b == 8 * Pow256(1) + 8 * Pow256(2)
  {
    Pow256Values();
    if width == 1 then 2048 else if width == 2 then 526336 else 0
  }

  /**
   * The data-section offset a pointer names: its `width + 1` following bytes,
   * big-endian, with the three value bits of the hint above them, plus the bias.
   * The 4-byte form is an absolute 32-bit offset without value bits or bias.
   */
  function PointerValue(width: nat, valueBits: nat, extra: seq<byte>): (v: nat)
    requires width < 4 && valueBits < 8 && |extra| == width + 1
    ensures width == 0 ==> v < 2048
    ensures width == 1 ==> 2048 <= v < 526336
    ensures width == 2 ==> 526336 <= v < 526336 + 0x800_0000
    ensures width == 3 ==> v < 0x1_0000_0000
  {
    Pow256Values();
    if width == 3 then BigEndian(extra)
    else BigEndian(extra) + valueBits * Pow256(width + 1) + PointerBias(width)
  }

  /** The file offset of a data-section offset: past the search tree and the 16-byte separator. */
  function DataSectionOffset(bytesPerNode: nat, nodeCount: nat, offset: nat): nat
  {
    bytesPerNode * nodeCount + offset + 16
  }

  // ---------------------------------------------------------------------------
  // The recursive decoder
  // ---------------------------------------------------------------------------

  /** `read_type`: one value at `pos`. */
  function Decode(data: seq<byte>, pos: nat, meta: Option<Metadata>, fuel: nat): (d: Step<Type>)
    decreases fuel, Remaining(data, pos), 0
    ensures d.result.Ok? ==> pos < |data| && pos < d.next
  {
    var h := ReadHeader(data, pos);
    if h.result.Err? then Step(Err(h.result.error), h.next)
    else DecodePayload(data, h.result.value, h.next, meta, fuel)
  }

  /** What follows a control byte, by tag. */
  function DecodePayload(data: seq<byte>, h: Header, start: nat, meta: Option<Metadata>, fuel: nat): (d: Step<Type>)
    decreases fuel, Remaining(data, start), 3
    ensures d.result.Ok? ==> start <= d.next
  {
    if h.tag == 1 then DecodePointer(data, h.size, start, meta, fuel)
    else if h.tag == 7 then DecodeEntries(data, start, h.size, map[], meta, fuel)
    else if h.tag == 11 then DecodeItems(data, start, h.size, [], meta, fuel)
    else DecodeScalar(data, h.tag, h.size, start)
  }

  /**
   * A pointer: read its bytes, then (with metadata) decode the value at the
   * target and leave the cursor just after the pointer bytes, whatever the
   * outcome of the decode there.
   */
  function DecodePointer(data: seq<byte>, hint: nat, start: nat, meta: Option<Metadata>, fuel: nat): (d: Step<Type>)
    decreases fuel, Remaining(data, start), 1
    ensures d.result.Ok? ==> start <= d.next
  {
    var width := hint / 8;
    if width > 3 then Step(Err(InvalidData("invalid pointer size")), start)
    else
      var e := ReadBytes(data, start, width + 1);
      if e.result.Err? then Step(Err(e.result.error), e.next)
      else if meta.None? then Step(Err(InvalidData("pointer addressed before metadata parsed")), e.next)
      else
        var bpn := BytesPerNode(meta.value.recordSize);
        if bpn.Err? then Step(Err(bpn.error), e.next)
        else if fuel == 0 then Step(Err(PointerChainTooDeep), e.next)
        else
          var target := DataSectionOffset(bpn.value, meta.value.nodeCount, PointerValue(width, hint % 8, e.result.value));
          Step(Decode(data, target, meta, fuel - 1).result, e.next)
  }

  /** One key/value pair of a map: a string key, then any value. */
  function DecodeEntry(data: seq<byte>, pos: nat, meta: Option<Metadata>, fuel: nat): (d: Step<(seq<byte>, Type)>)
    decreases fuel, Remaining(data, pos), 1
    ensures d.result.Ok? ==> pos < |data| && pos < d.next
  {
    var k := Decode(data, pos, meta, fuel);
    if k.result.Err? then Step(Err(k.result.error), k.next)
    else if !k.result.value.Utf8String? then Step(Err(InvalidData("key field for map is not string")), k.next)
    else
      var v := Decode(data, k.next, meta, fuel);
      if v.result.Err? then Step(Err(v.result.error), v.next)
      else Step(Ok((k.result.value.text, v.result.value)), v.next)
  }

  /**
   * `count` more key/value pairs of a map, inserted into `acc`; a later
   * duplicate key overwrites the earlier value (`BTreeMap::insert`).
   */
  function DecodeEntries(data: seq<byte>, pos: nat, count: nat, acc: map<seq<byte>, Type>,
                         meta: Option<Metadata>, fuel: nat): (d: Step<Type>)
    decreases fuel, Remaining(data, pos), 2
    ensures d.result.Ok? ==> pos <= d.next && d.result.value.Map?
  {
    if count == 0 then Step(Ok(Map(acc)), pos)
    else
      var e := DecodeEntry(data, pos, meta, fuel);
      if e.result.Err? then Step(Err(e.result.error), e.next)
      else DecodeEntries(data, e.next, count - 1, acc[e.result.value.0 := e.result.value.1], meta, fuel)
  }

  /** `count` more elements of an array, appended to `acc` in order. */
  function DecodeItems(data: seq<byte>, pos: nat, count: nat, acc: seq<Type>,
                       meta: Option<Metadata>, fuel: nat): (d: Step<Type>)
    decreases fuel, Remaining(data, pos), 1
    ensures d.result.Ok? ==> pos <= d.next && d.result.value.Array?
  {
    if count == 0 then Step(Ok(Array(acc)), pos)
    else
      var e := Decode(data, pos, meta, fuel);
      if e.result.Err? then e
      else DecodeItems(data, e.next, count - 1, acc + [e.result.value], meta, fuel)
  }
  /** One step of the map loop: decode an entry, insert it, then the rest after it. */
  lemma EntriesStep(data: seq<byte>, pos: nat, count: nat, acc: map<seq<byte>, Type>, meta: Option<Metadata>, fuel: nat)
    requires count > 0
    ensures var e := DecodeEntry(data, pos, meta, fuel);
            DecodeEntries(data, pos, count, acc, meta, fuel)
            == if e.result.Err? then Step(Err(e.result.error), e.next)
               else DecodeEntries(data, e.next, count - 1, acc[e.result.value.0 := e.result.value.1], meta, fuel)
  {
  }

  /** One step of the array loop: decode an element, then the rest after it. */
  lemma ItemsStep(data: seq<byte>, pos: nat, count: nat, acc: seq<Type>, meta: Option<Metadata>, fuel: nat)
    requires count > 0
    ensures var e := Decode(data, pos, meta, fuel);
            DecodeItems(data, pos, count, acc, meta, fuel)
            == if e.result.Err? then e else DecodeItems(data, e.next, count - 1, acc + [e.result.value], meta, fuel)
  {
  }

  /** The array case yields exactly `count` elements after those already read, which it keeps in order. */
  lemma {:induction false} ItemsKeepPrefix(data: seq<byte>, pos: nat, count: nat, acc: seq<Type>,
                                           meta: Option<Metadata>, fuel: nat)
    decreases count
    ensures var d := DecodeItems(data, pos, count, acc, meta, fuel);
            d.result.Ok? ==> |d.result.value.items| == |acc| + count && d.result.value.items[..|acc|] == acc
  {
    if count > 0 {
      var e := Decode(data, pos, meta, fuel);
      if e.result.Ok? {
        var rest := acc + [e.result.value];
        ItemsKeepPrefix(data, e.next, count - 1, rest, meta, fuel);
        var d := DecodeItems(data, e.next, count - 1, rest, meta, fuel);
        if d.result.Ok? {
          assert d.result.value.items[..|acc|] == rest[..|acc|];
        }
      }
    }
  }

  /** Decoding after some elements already read gives those elements followed by what decoding from none gives. */
  lemma {:induction false} ItemsAfterPrefix(data: seq<byte>, pos: nat, count: nat, acc: seq<Type>,
                                            meta: Option<Metadata>, fuel: nat)
    decreases count
    ensures var d0 := DecodeItems(data, pos, count, [], meta, fuel);
            DecodeItems(data, pos, count, acc, meta, fuel)
            == if d0.result.Ok? then Step(Ok(Array(acc + d0.result.value.items)), d0.next) else d0
  {
    if count == 0 {
      assert acc + [] == acc;
    } else {
      ItemsStep(data, pos, count, acc, meta, fuel);
      ItemsStep(data, pos, count, [], meta, fuel);
      var e := Decode(data, pos, meta, fuel);
      if e.result.Ok? {
        var v := e.result.value;
        assert [] + [v] == [v];
        ItemsAfterPrefix(data, e.next, count - 1, acc + [v], meta, fuel);
        ItemsAfterPrefix(data, e.next, count - 1, [v], meta, fuel);
        var x := DecodeItems(data, e.next, count - 1, [], meta, fuel);
        if x.result.Ok? {
          assert (acc + [v]) + x.result.value.items == acc + ([v] + x.result.value.items);
        }
      }
    }
  }

  /**
   * The elements of an array are the values decoded one after another: the
   * first at the array's start, the others from where the first one ends.
   */
  lemma ItemsAreDecodedValues(data: seq<byte>, pos: nat, count: nat, meta: Option<Metadata>, fuel: nat)
    requires count > 0
    ensures var d := DecodeItems(data, pos, count, [], meta, fuel);
            var e := Decode(data, pos, meta, fuel);
            var rest := DecodeItems(data, e.next, count - 1, [], meta, fuel);
            d.result.Ok? <==> e.result.Ok? && rest.result.Ok?
    ensures var d := DecodeItems(data, pos, count, [], meta, fuel);
            var e := Decode(data, pos, meta, fuel);
            var rest := DecodeItems(data, e.next, count - 1, [], meta, fuel);
            d.result.Ok? ==> d.result.value.items == [e.result.value] + rest.result.value.items && d.next == rest.next
  {
    ItemsStep(data, pos, count, [], meta, fuel);
    var e := Decode(data, pos, meta, fuel);
    if e.result.Ok? {
      assert [] + [e.result.value] == [e.result.value];
      ItemsAfterPrefix(data, e.next, count - 1, [e.result.value], meta, fuel);
    }
  }

  // ---------------------------------------------------------------------------
  // Properties of the decoder
  // ---------------------------------------------------------------------------

  /** The hint and extension bytes that express a size: the smallest class that holds it. */
  function EncodeSize(size: nat): (e: (nat, seq<byte>))
    requires size < SizeLimit
    ensures e.0 < 32 && |e.1| == SizeFieldLength(e.0)
  {
    Pow256Values();
    if size < 29 then (size, [])
    else if size < 285 then (29, ToBigEndian(size - 29, 1))
    else if size < 65821 then (30, ToBigEndian(size - 285, 2))
    else (31, ToBigEndian(size - 65821, 3))
  }

  /** Every size a control byte can express is decoded back exactly. */
  lemma SizeRoundTrip(size: nat)
    requires size < SizeLimit
    ensures ResolveSize(EncodeSize(size).0, EncodeSize(size).1) == size
  {
  }

  /** The control byte (and extended-type byte) for a tag other than the pointer's, then the size extension. */
  function EncodeHeader(tag: nat, size: nat): (bs: seq<byte>)
    requires 2 <= tag < 263 && size < SizeLimit
    ensures 1 <= |bs| <= 5
  {
    var e := EncodeSize(size);
    if tag < 8 then [tag * 32 + e.0] + e.1 else [e.0, tag - 7] + e.1
  }

  /** The size extension at `pos` is read as the size it expresses. */
  lemma SizeFieldRead(data: seq<byte>, tag: nat, hint: nat, field: seq<byte>, pos: nat)
    requires hint < 32 && |field| == SizeFieldLength(hint)
    requires pos + |field| <= |data| && data[pos..pos + |field|] == field
    ensures ReadSize(data, tag, hint, pos) == Step(Ok(Header(tag, ResolveSize(hint, field))), pos + |field|)
  {
  }

  /** A header whose tag fits the control byte's three bits. */
  lemma ShortHeaderRoundTrip(tag: nat, size: nat, rest: seq<byte>)
    requires 2 <= tag < 8 && size < SizeLimit
    ensures var bs := EncodeHeader(tag, size);
            ReadHeader(bs + rest, 0) == Step(Ok(Header(tag, size)), |bs|)
  {
    var e := EncodeSize(size);
    var data := EncodeHeader(tag, size) + rest;
    SizeRoundTrip(size);
    assert data[0..1] == [tag * 32 + e.0];
    assert data[0] / 32 == tag && data[0] % 32 == e.0;
    assert data[1..1 + |e.1|] == e.1;
    SizeFieldRead(data, tag, e.0, e.1, 1);
  }

  /** A control byte with tag 0 takes its tag from the next byte and then reads the size extension. */
  lemma ExtendedControl(data: seq<byte>, pos: nat)
    requires pos + 2 <= |data| && data[pos] / 32 == 0
    ensures ReadHeader(data, pos) == ReadSize(data, ExtendedTag(data[pos + 1]), data[pos] % 32, pos + 2)
  {
    assert data[pos..pos + 1] == [data[pos]] && data[pos + 1..pos + 2] == [data[pos + 1]];
  }

  /** A header whose tag is extended: control tag 0, then the tag less 7. */
  lemma ExtendedHeaderRoundTrip(tag: nat, size: nat, rest: seq<byte>)
    requires 8 <= tag < 263 && size < SizeLimit
    ensures var bs := EncodeHeader(tag, size);
            ReadHeader(bs + rest, 0) == Step(Ok(Header(tag, size)), |bs|)
  {
    var e := EncodeSize(size);
    var data := EncodeHeader(tag, size) + rest;
    SizeRoundTrip(size);
    assert data[0] == e.0 && data[1] == tag - 7;
    ExtendedControl(data, 0);
    assert data[2..2 + |e.1|] == e.1;
    SizeFieldRead(data, tag, e.0, e.1, 2);
  }

  /**
   * A header written for any non-pointer tag and any expressible size reads
   * back as that tag and size, with the cursor just past it.
   */
  lemma HeaderRoundTrip(tag: nat, size: nat, rest: seq<byte>)
    requires 2 <= tag < 263 && size < SizeLimit
    ensures var bs := EncodeHeader(tag, size);
            ReadHeader(bs + rest, 0) == Step(Ok(Header(tag, size)), |bs|)
  {
    if tag < 8 {
      ShortHeaderRoundTrip(tag, size, rest);
    } else {
      ExtendedHeaderRoundTrip(tag, size, rest);
    }
  }

  /**
   * Decoding a pointer leaves the cursor right after the pointer's own bytes,
   * whether or not the value at the target decodes: the next value of a map
   * or array is read from there.
   */
  lemma PointerRestoresCursor(data: seq<byte>, hint: nat, start: nat, meta: Option<Metadata>, fuel: nat)
    requires hint < 32 && start + hint / 8 + 1 <= |data|
    ensures DecodePointer(data, hint, start, meta, fuel).next == start + hint / 8 + 1
  {
  }

  /** A pointer with metadata and budget left: the value at its target, the cursor after its bytes. */
  lemma PointerFollowed(data: seq<byte>, hint: nat, start: nat, meta: Metadata, fuel: nat)
    requires hint < 32 && start + hint / 8 + 1 <= |data| && fuel > 0
    requires meta.recordSize in {24, 28, 32}
    ensures var width := hint / 8;
            var offset := PointerValue(width, hint % 8, data[start..start + width + 1]);
            var target := DataSectionOffset(BytesPerNode(meta.recordSize).value, meta.nodeCount, offset);
            DecodePointer(data, hint, start, Some(meta), fuel)
              == Step(Decode(data, target, Some(meta), fuel - 1).result, start + width + 1)
  {
    var width := hint / 8;
    assert ReadBytes(data, start, width + 1) == Step(Ok(data[start..start + width + 1]), start + width + 1);
  }

  /**
   * With metadata, a pointer decodes to the value at `bytes_per_node *
   * node_count + 16` plus its biased offset; the decode there may follow one
   * pointer less.
   */
  lemma PointerTarget(data: seq<byte>, hint: nat, start: nat, meta: Metadata, fuel: nat)
    requires hint < 32 && start + hint / 8 + 1 <= |data| && fuel > 0
    requires meta.recordSize in {24, 28, 32}
    ensures var width := hint / 8;
            var offset := PointerValue(width, hint % 8, data[start..start + width + 1]);
            DecodePointer(data, hint, start, Some(meta), fuel).result
              == Decode(data, DataSectionOffset(BytesPerNode(meta.recordSize).value, meta.nodeCount, offset), Some(meta), fuel - 1).result
  {
    PointerFollowed(data, hint, start, meta, fuel);
  }

  /** With no metadata a pointer is an error, and the cursor is not moved to any target. */
  lemma PointerWithoutMetadata(data: seq<byte>, hint: nat, start: nat, fuel: nat)
    requires hint < 32 && start + hint / 8 + 1 <= |data|
    ensures DecodePointer(data, hint, start, None, fuel)
            == Step(Err(InvalidData("pointer addressed before metadata parsed")), start + hint / 8 + 1)
  {
  }

  /** A pointer's control byte is its whole header: tag 1 and the raw five low bits, one byte long. */
  lemma PointerHeader(data: seq<byte>, pos: nat)
    requires pos < |data| && data[pos] / 32 == 1
    ensures ReadHeader(data, pos) == Step(Ok(Header(1, data[pos] % 32)), pos + 1)
  {
    assert data[pos..pos + 1] == [data[pos]];
  }

  /** The header of an extended type whose control byte has a size hint below 29. */
  lemma ExtendedHeader(data: seq<byte>, pos: nat)
    requires pos + 2 <= |data| && data[pos] < 29
    ensures ReadHeader(data, pos) == Step(Ok(Header(ExtendedTag(data[pos + 1]), data[pos])), pos + 2)
  {
    assert data[pos..pos + 1] == [data[pos]] && data[pos + 1..pos + 2] == [data[pos + 1]];
  }

  /** A control byte with top bits 2 to 7 is the tag itself, followed by the size extension. */
  lemma ShortControl(data: seq<byte>, pos: nat)
    requires pos < |data| && 2 <= data[pos] / 32
    ensures ReadHeader(data, pos) == ReadSize(data, data[pos] / 32, data[pos] % 32, pos + 1)
  {
    assert data[pos..pos + 1] == [data[pos]];
  }

  /** After a header with any scalar tag, the value is what DecodeScalar reads after the header. */
  lemma ScalarAfterHeader(data: seq<byte>, pos: nat, meta: Option<Metadata>, fuel: nat)
    requires ReadHeader(data, pos).result.Ok? && ReadHeader(data, pos).result.value.tag !in {1, 7, 11}
    ensures var h := ReadHeader(data, pos);
            Decode(data, pos, meta, fuel) == DecodeScalar(data, h.result.value.tag, h.result.value.size, h.next)
  {
  }

  /**
   * A boolean (type 14) is false for size 0, true for size 1, and an error
   * for any other size, however the size is encoded; nothing follows the header.
   */
  lemma BooleanSizes(data: seq<byte>, pos: nat, meta: Option<Metadata>, fuel: nat)
    requires ReadHeader(data, pos).result.Ok? && ReadHeader(data, pos).result.value.tag == 14
    ensures var h := ReadHeader(data, pos);
            var size := h.result.value.size;
            Decode(data, pos, meta, fuel)
            == if size == 0 then Step(Ok(Boolean(false)), h.next)
               else if size == 1 then Step(Ok(Boolean(true)), h.next)
               else Step(Err(InvalidData("invalid boolean")), h.next)
  {
    ScalarAfterHeader(data, pos, meta, fuel);
  }

  /** The data cache container (type 12) and the end marker (type 13) are never decoded, whatever their size. */
  lemma UnsupportedTypes(data: seq<byte>, pos: nat, meta: Option<Metadata>, fuel: nat)
    requires ReadHeader(data, pos).result.Ok? && ReadHeader(data, pos).result.value.tag in {12, 13}
    ensures var h := ReadHeader(data, pos);
            Decode(data, pos, meta, fuel)
            == Step(Err(NotImplemented(if h.result.value.tag == 12 then "data cache container" else "end marker")), h.next)
  {
    ScalarAfterHeader(data, pos, meta, fuel);
  }

  /** Tag 0 and the tags above 15 name no type: the decode fails without reading. */
  lemma InvalidTags(data: seq<byte>, tag: nat, size: nat, start: nat)
    requires tag == 0 || tag >= 16
    ensures DecodeScalar(data, tag, size, start) == Step(Err(InvalidData("invalid data type specifier")), start)
  {
  }

  /** An extended tag above 15 (type byte 9 or more) is rejected right after its header. */
  lemma InvalidTagsAfterHeader(data: seq<byte>, pos: nat, meta: Option<Metadata>, fuel: nat)
    requires ReadHeader(data, pos).result.Ok? && ReadHeader(data, pos).result.value.tag >= 16
    ensures Decode(data, pos, meta, fuel) == Step(Err(InvalidData("invalid data type specifier")), ReadHeader(data, pos).next)
  {
    ScalarAfterHeader(data, pos, meta, fuel);
  }

  /** Tag 8 is the signed 32-bit type, for every size. */
  lemma S32Scalar(data: seq<byte>, size: nat, start: nat)
    ensures DecodeScalar(data, 8, size, start) == DecodeS32(data, size, start)
  {
  }

  /** A string (type 2) and a byte string (type 4) are the next `size` bytes verbatim; too few left is `BadIo`. */
  lemma RawScalars(data: seq<byte>, size: nat, start: nat)
    ensures DecodeScalar(data, 2, size, start)
            == if size == 0 then Step(Ok(Utf8String([])), start)
               else if start + size <= |data| then Step(Ok(Utf8String(data[start..start + size])), start + size)
               else Step(Err(BadIo), |data|)
    ensures DecodeScalar(data, 4, size, start)
            == if size == 0 then Step(Ok(Bytes([])), start)
               else if start + size <= |data| then Step(Ok(Bytes(data[start..start + size])), start + size)
               else Step(Err(BadIo), |data|)
  {
  }

  /**
   * A double (type 3) is always the next 8 bytes and a float (type 15) the
   * next 4, as big-endian bit patterns, whatever size the header gives.
   */
  lemma FloatScalars(data: seq<byte>, size: nat, start: nat)
    ensures var d := DecodeScalar(data, 3, size, start);
            if start + 8 <= |data|
            then d.result.Ok? && d.result.value.Double? && d.result.value.doubleBits == BigEndian(data[start..start + 8])
                 && d.next == start + 8
            else d == Step(Err(BadIo), |data|)
    ensures var d := DecodeScalar(data, 15, size, start);
            if start + 4 <= |data|
            then d.result.Ok? && d.result.value.Float? && d.result.value.floatBits == BigEndian(data[start..start + 4])
                 && d.next == start + 4
            else d == Step(Err(BadIo), |data|)
  {
  }

  /**
   * The unsigned types: size 0 is 0 without a read; otherwise the next `size`
   * bytes big-endian, where U16 and U32 reject a number too wide for them
   * (`try_into`); U64 takes at most 8 bytes and U128 at most 16 (more panics).
   */
  lemma UnsignedScalars(data: seq<byte>, size: nat, start: nat)
    ensures size == 0 ==> DecodeScalar(data, 5, size, start) == Step(Ok(U16(0)), start)
                          && DecodeScalar(data, 6, size, start) == Step(Ok(U32(0)), start)
                          && DecodeScalar(data, 9, size, start) == Step(Ok(U64(0)), start)
                          && DecodeScalar(data, 10, size, start) == Step(Ok(U128(0)), start)
    ensures 0 < size <= 8 && start + size <= |data| ==>
              var v := BigEndian(data[start..start + size]);
              var d := DecodeScalar(data, 9, size, start);
              d.result.Ok? && d.result.value.U64? && d.result.value.v64 == v && d.next == start + size
              && DecodeScalar(data, 5, size, start)
                 == (if v < 0x1_0000 then Step(Ok(U16(v)), start + size) else Step(Err(BadConversion), start + size))
              && DecodeScalar(data, 6, size, start)
                 == (if v < 0x1_0000_0000 then Step(Ok(U32(v)), start + size) else Step(Err(BadConversion), start + size))
    ensures 0 < size <= 16 && start + size <= |data| ==>
              var d := DecodeScalar(data, 10, size, start);
              d.result.Ok? && d.result.value.U128? && d.result.value.v128 == BigEndian(data[start..start + size])
              && d.next == start + size
    ensures 0 < size <= 16 && start + size > |data| ==> DecodeScalar(data, 10, size, start) == Step(Err(BadIo), |data|)
    ensures 0 < size <= 8 && start + size > |data| ==>
              DecodeScalar(data, 5, size, start) == Step(Err(BadIo), |data|)
              && DecodeScalar(data, 6, size, start) == Step(Err(BadIo), |data|)
              && DecodeScalar(data, 9, size, start) == Step(Err(BadIo), |data|)
    ensures size > 8 ==> DecodeScalar(data, 5, size, start) == Step(Err(Panicked("read_uint byte count out of range")), start)
                         && DecodeScalar(data, 6, size, start) == Step(Err(Panicked("read_uint byte count out of range")), start)
                         && DecodeScalar(data, 9, size, start) == Step(Err(Panicked("read_uint byte count out of range")), start)
    ensures size > 16 ==> DecodeScalar(data, 10, size, start) == Step(Err(Panicked("read_uint byte count out of range")), start)
  {
    Pow256Values();
  }

  /** Writing a number in `n` big-endian bytes and decoding it as U64 or U128 of that size gives the number back. */
  lemma UnsignedRoundTrip(v: nat, n: nat, rest: seq<byte>)
    requires 0 < n <= 16 && v < Pow256(n)
    ensures var d := DecodeScalar(ToBigEndian(v, n) + rest, 10, n, 0);
            d.result.Ok? && d.result.value.U128? && d.result.value.v128 == v && d.next == n
    ensures n <= 8 ==> var d := DecodeScalar(ToBigEndian(v, n) + rest, 9, n, 0);
                       d.result.Ok? && d.result.value.U64? && d.result.value.v64 == v && d.next == n
  {
    var bs := ToBigEndian(v, n) + rest;
    assert bs[0..n] == ToBigEndian(v, n);
    UnsignedScalars(bs, n, 0);
  }

  /** The same for U16 and U32: a number written in at most 2 or 4 bytes decodes back to itself. */
  lemma NarrowedRoundTrip(v: nat, n: nat, rest: seq<byte>)
    requires 0 < n <= 4 && v < Pow256(n)
    ensures var d := DecodeScalar(ToBigEndian(v, n) + rest, 6, n, 0);
            d.result.Ok? && d.result.value.U32? && d.result.value.v32 == v && d.next == n
    ensures n <= 2 ==> var d := DecodeScalar(ToBigEndian(v, n) + rest, 5, n, 0);
                       d.result.Ok? && d.result.value.U16? && d.result.value.v16 == v && d.next == n
  {
    var bs := ToBigEndian(v, n) + rest;
    assert bs[0..n] == ToBigEndian(v, n);
    Pow256Values();
    Pow256Monotonic(n, 4);
    if n <= 2 {
      Pow256Monotonic(n, 2);
    }
    UnsignedScalars(bs, n, 0);
  }

  /** A signed 32-bit value whose four two's-complement bytes lead the data decodes back to itself. */
  lemma S32RoundTrip(x: i32, bs: seq<byte>)
    requires 4 <= |bs| && BigEndian(bs[..4]) == x % 0x1_0000_0000
    ensures DecodeScalar(bs, 8, 4, 0) == Step(Ok(S32(x)), 4)
  {
    assert bs[0..4] == bs[..4];
    var d := DecodeScalar(bs, 8, 4, 0);
    assert d.result.value.s32 % 0x1_0000_0000 == x % 0x1_0000_0000;
  }

  /** Decoding the rest of a map never loses a key already inserted. */
  lemma {:induction false} EntriesKeepKeys(data: seq<byte>, pos: nat, count: nat, acc: map<seq<byte>, Type>,
                                           meta: Option<Metadata>, fuel: nat)
    requires DecodeEntries(data, pos, count, acc, meta, fuel).result.Ok?
    ensures acc.Keys <= DecodeEntries(data, pos, count, acc, meta, fuel).result.value.entries.Keys
    decreases count
  {
    if count > 0 {
      var e := DecodeEntry(data, pos, meta, fuel);
      EntriesKeepKeys(data, e.next, count - 1, acc[e.result.value.0 := e.result.value.1], meta, fuel);
    }
  }

  /** The entries of a map in the order they are decoded, before any is inserted. */
  function DecodeEntryList(data: seq<byte>, pos: nat, count: nat, meta: Option<Metadata>, fuel: nat)
    : (d: Step<seq<(seq<byte>, Type)>>)
    decreases count
    ensures d.result.Ok? ==> |d.result.value| == count
  {
    if count == 0 then Step(Ok([]), pos)
    else
      var e := DecodeEntry(data, pos, meta, fuel);
      if e.result.Err? then Step(Err(e.result.error), e.next)
      else
        var r := DecodeEntryList(data, e.next, count - 1, meta, fuel);
        if r.result.Err? then r else Step(Ok([e.result.value] + r.result.value), r.next)
  }

  /** `BTreeMap::insert` of each entry in turn. */
  function InsertAll(acc: map<seq<byte>, Type>, entries: seq<(seq<byte>, Type)>): map<seq<byte>, Type>
    decreases |entries|
  {
    if entries == [] then acc else InsertAll(acc[entries[0].0 := entries[0].1], entries[1..])
  }

  /** The map loop inserts the decoded entries in order, and fails with the first entry that fails. */
  lemma {:induction false} EntriesAsList(data: seq<byte>, pos: nat, count: nat, acc: map<seq<byte>, Type>,
                                         meta: Option<Metadata>, fuel: nat)
    decreases count
    ensures var l := DecodeEntryList(data, pos, count, meta, fuel);
            DecodeEntries(data, pos, count, acc, meta, fuel)
            == if l.result.Ok? then Step(Ok(Map(InsertAll(acc, l.result.value))), l.next)
               else Step(Err(l.result.error), l.next)
  {
    if count > 0 {
      EntriesStep(data, pos, count, acc, meta, fuel);
      var e := DecodeEntry(data, pos, meta, fuel);
      if e.result.Ok? {
        EntriesAsList(data, e.next, count - 1, acc[e.result.value.0 := e.result.value.1], meta, fuel);
        var r := DecodeEntryList(data, e.next, count - 1, meta, fuel);
        if r.result.Ok? {
          assert ([e.result.value] + r.result.value)[1..] == r.result.value;
        }
      }
    }
  }

  /** A key that no entry carries keeps its presence and value from before. */
  lemma {:induction false} InsertAllKeeps(acc: map<seq<byte>, Type>, entries: seq<(seq<byte>, Type)>, k: seq<byte>)
    requires forall j :: 0 <= j < |entries| ==> entries[j].0 != k
    decreases |entries|
    ensures k in InsertAll(acc, entries) <==> k in acc
    ensures k in acc ==> InsertAll(acc, entries)[k] == acc[k]
  {
    if entries != [] {
      InsertAllKeeps(acc[entries[0].0 := entries[0].1], entries[1..], k);
    }
  }

  /** The last entry carrying a key decides its value: a later insertion overwrites an earlier one. */
  lemma {:induction false} LastEntryWins(acc: map<seq<byte>, Type>, entries: seq<(seq<byte>, Type)>, i: nat)
    requires i < |entries| && forall j :: i < j < |entries| ==> entries[j].0 != entries[i].0
    decreases |entries|
    ensures entries[i].0 in InsertAll(acc, entries) && InsertAll(acc, entries)[entries[i].0] == entries[i].1
  {
    var next := acc[entries[0].0 := entries[0].1];
    if i == 0 {
      InsertAllKeeps(next, entries[1..], entries[0].0);
    } else {
      LastEntryWins(next, entries[1..], i - 1);
    }
  }

  /** The keys after the insertions: those before and every key an entry carries. */
  lemma {:induction false} InsertAllKeys(acc: map<seq<byte>, Type>, entries: seq<(seq<byte>, Type)>, k: seq<byte>)
    decreases |entries|
    ensures k in InsertAll(acc, entries) <==> k in acc || exists j :: 0 <= j < |entries| && entries[j].0 == k
  {
    if entries != [] {
      var tail := entries[1..];
      InsertAllKeys(acc[entries[0].0 := entries[0].1], tail, k);
      if exists j :: 0 <= j < |entries| && entries[j].0 == k {
        var j :| 0 <= j < |entries| && entries[j].0 == k;
        if j > 0 {
          assert tail[j - 1].0 == k;
        }
      }
      if exists j :: 0 <= j < |tail| && tail[j].0 == k {
        var j :| 0 <= j < |tail| && tail[j].0 == k;
        assert entries[j + 1].0 == k;
      }
    }
  }

  /**
   * A decoded map holds exactly the keys of its entries, each with the value
   * of the last entry that carries it; a failing entry fails the map.
   */
  lemma MapHoldsLastEntries(data: seq<byte>, pos: nat, count: nat, meta: Option<Metadata>, fuel: nat)
    ensures var l := DecodeEntryList(data, pos, count, meta, fuel);
            var d := DecodeEntries(data, pos, count, map[], meta, fuel);
            l.result.Err? ==> d == Step(Err(l.result.error), l.next)
    ensures var l := DecodeEntryList(data, pos, count, meta, fuel);
            var d := DecodeEntries(data, pos, count, map[], meta, fuel);
            l.result.Ok? ==>
              d.result.Ok? && d.next == l.next
              && (forall k :: k in d.result.value.entries <==> exists j :: 0 <= j < |l.result.value| && l.result.value[j].0 == k)
              && (forall i :: 0 <= i < |l.result.value| && (forall j :: i < j < |l.result.value| ==> l.result.value[j].0 != l.result.value[i].0)
                    ==> d.result.value.entries[l.result.value[i].0] == l.result.value[i].1)
  {
    EntriesAsList(data, pos, count, map[], meta, fuel);
    var l := DecodeEntryList(data, pos, count, meta, fuel);
    if l.result.Ok? {
      var es := l.result.value;
      forall k ensures k in InsertAll(map[], es) <==> exists j :: 0 <= j < |es| && es[j].0 == k {
        InsertAllKeys(map[], es, k);
      }
      forall i | 0 <= i < |es| && (forall j :: i < j < |es| ==> es[j].0 != es[i].0)
        ensures InsertAll(map[], es)[es[i].0] == es[i].1
      {
        LastEntryWins(map[], es, i);
      }
    }
  }

  // ---------------------------------------------------------------------------
  // The header arithmetic as written, in u8 and u16
  // ---------------------------------------------------------------------------

  /**
   * `7u8 + read_u8()`: the extended tag in u8 arithmetic, wrapping as a
   * release build does (a debug build panics instead).
   */
  function ExtendedTagAsWritten(next: byte): (tag: byte)
    ensures next < 249 ==> tag == ExtendedTag(next)
  {
    (7 + next) % 0x100
  }

  /** An extended-type byte of 250 wraps to tag 1: malformed data is followed as a pointer. */
  lemma ExtendedTagWraps()
    ensures ExtendedTagAsWritten(250) == 1 && ExtendedTag(250) == 257
  {
  }

  /**
   * The size as the source computes it: `29 + read_u8()` in u8 and
   * `285 + read_u16()` in u16, both wrapping, and only the 3-byte class
   * widened to u32 first.
   */
  function ResolveSizeAsWritten(hint: nat, field: seq<byte>): (size: nat)
    requires hint < 32 && |field| == SizeFieldLength(hint)
    ensures hint != 29 && hint != 30 ==> size == ResolveSize(hint, field)
  {
    Pow256Values();
    if hint < 29 then hint
    else if hint == 29 then (29 + BigEndian(field)) % 0x100
    else if hint == 30 then (285 + BigEndian(field)) % 0x1_0000
    else 65821 + BigEndian(field)
  }

  /**
   * A 256-byte string, which the format writes with hint 29 and extension
   * byte 227, is read as an empty string by the code as written; likewise a
   * size of 65536 written with hint 30.
   */
  lemma SizeOverflows()
    ensures ResolveSizeAsWritten(29, EncodeSize(256).1) == 0 && ResolveSize(29, EncodeSize(256).1) == 256
    ensures ResolveSizeAsWritten(30, EncodeSize(65536).1) == 0 && ResolveSize(30, EncodeSize(65536).1) == 65536
  {
    SizeRoundTrip(256);
    SizeRoundTrip(65536);
  }

  /**
   * The sizes 0 to 3 of the signed type as written: `read_uint(size)` is
   * reached for size 0 too, and byteorder's `read_uint` panics on 0 bytes.
   */
  function DecodeS32AsWritten(data: seq<byte>, size: nat, start: nat): (s: Step<Type>)
    ensures size != 0 ==> s == DecodeS32(data, size, start)
  {
    if size == 0 then Step(Err(Panicked("read_uint byte count out of range")), start)
    else DecodeS32(data, size, start)
  }

  /** A zero-size signed 32-bit value, 0 in the format, aborts the code as written. */
  lemma ZeroSizeS32(data: seq<byte>, start: nat)
    ensures DecodeS32AsWritten(data, 0, start).result.Err?
    ensures DecodeS32(data, 0, start) == Step(Ok(S32(0)), start)
  {
  }
}
