/**
 * The data model of the MaxMind DB decoder in src/mmdb.rs: decoded values,
 * the error kinds, the three metadata fields the reader needs, and the node
 * size that follows from the record size.
 */
module MmdbValue {
  import opened Base

  type u16 = x: nat | x < 0x1_0000
  type u32 = x: nat | x < 0x1_0000_0000
  type u64 = x: nat | x < 0x1_0000_0000_0000_0000
  type u128 = x: nat | x < 0x1_0000_0000_0000_0000_0000_0000_0000_0000
  type i32 = x: int | -0x8000_0000 <= x < 0x8000_0000

  /**
   * One decoded value (`Type` in src/mmdb.rs). Text is kept as the UTF-8 bytes
   * read from the file; floating-point values are kept as their IEEE-754 bit
   * patterns, read big-endian.
   */
  datatype Type =
    | Utf8String(text: seq<byte>)
    | Double(doubleBits: u64)
    | Bytes(bytes: seq<byte>)
    | U16(v16: u16)
    | U32(v32: u32)
    | S32(s32: i32)
    | U64(v64: u64)
    | U128(v128: u128)
    | Map(entries: map<seq<byte>, Type>)
    | Array(items: seq<Type>)
    | DataCacheContainer
    | EndMarker
    | Boolean(b: bool)
    | Float(floatBits: u32)

  /**
   * `MmdbError`. The last two kinds exist only in the model: `Panicked` stands for
   * a Rust panic (a thread abort, not a returned error) and `PointerChainTooDeep`
   * for running out of the pointer-depth budget the model adds.
   */
  datatype MmdbError =
    | MetadataNotFound
    | InvalidMetadata(what: string)
    | InvalidData(reason: string)
    | WrongDatabaseType
    | BadIo
    | BadConversion
    | NotImplemented(feature: string)
    | Panicked(cause: string)
    | PointerChainTooDeep

  /** `MmdbMetadata`: the fields the reader needs, with their declared widths. */
  datatype Metadata = Metadata(nodeCount: u32, recordSize: u16, ipVersion: u16)

  /** The outcome of reading at a cursor position, with the position the cursor is left at. */
  datatype Step<T> = Step(result: Result<T, MmdbError>, next: nat)

  /** `bytes_per_node`: two records per node, 24, 28 or 32 bits each. */
  function BytesPerNode(recordSize: nat): (r: Result<nat, MmdbError>)
    ensures r.Ok? <==> recordSize in {24, 28, 32}
    ensures r.Ok? ==> r.value * 4 == recordSize
    ensures r.Err? ==> r.error == InvalidMetadata("unsupported record_size")
  {
    match recordSize
    case 24 => Ok(6)
    case 28 => Ok(7)
    case 32 => Ok(8)
    case _ => Err(InvalidMetadata("unsupported record_size"))
  }
}
