/**
 * The database handle of src/mmdb.rs (`Mmdb`): opening locates the metadata,
 * and each query rewinds the reader, dispatches on the address family and
 * walks the search tree.
 */
module Mmdb {
  import opened Base
  import opened MmdbValue
  import opened MmdbDecode
  import opened MmdbReader
  import opened MmdbTrie
  import opened MmdbMetadata

  /** `IpAddr`: an IPv4 or an IPv6 address, as its bits. */
  datatype IpAddr = V4(v4: u32) | V6(v6: u128)

  /** `Ipv4Addr::to_ipv6_compatible`: the IPv6 address ::a.b.c.d, whose top 96 bits are zero. */
  function Ipv4Compatible(ip: u32): u128
  {
    ip
  }

  /** `query_ip_uint`: the walk over the `numBits` low bits of `ip`, from the root node at offset 0. */
  function Lookup(data: seq<byte>, meta: Metadata, ip: nat, numBits: nat, fuel: nat): (s: Step<Option<Type>>)
    ensures numBits == 0 ==> s == Step(Ok(None), 0)
    ensures s.result.Ok? && s.result.value.Some? ==>
              exists p: nat :: Decode(data, p, Some(meta), fuel) == Step(Ok(s.result.value.value), s.next)
  {
    WalkFrom(data, meta, ip, numBits, 0, fuel)
  }

  /**
   * `query_ipv6`: a 128-bit walk on an IPv6 database; an IPv4 database has no
   * IPv6 part, and any other version is invalid metadata. Neither error
   * touches the reader.
   */
  function LookupV6(data: seq<byte>, pos: nat, meta: Metadata, ip: u128, fuel: nat): (s: Step<Option<Type>>)
    ensures meta.ipVersion == 4 ==> s == Step(Err(WrongDatabaseType), pos)
    ensures meta.ipVersion == 6 ==> s == Lookup(data, meta, ip, 128, fuel)
    ensures meta.ipVersion !in {4, 6} ==> s == Step(Err(InvalidMetadata("database has invalid ip version")), pos)
  {
    match meta.ipVersion
    case 4 => Step(Err(WrongDatabaseType), pos)
    case 6 => Lookup(data, meta, ip, 128, fuel)
    case _ => Step(Err(InvalidMetadata("database has invalid ip version")), pos)
  }

  /**
   * `query_ipv4`: a 32-bit walk on an IPv4 database; on an IPv6 database the
   * IPv4-compatible IPv6 address is looked up instead.
   */
  function LookupV4(data: seq<byte>, pos: nat, meta: Metadata, ip: u32, fuel: nat): (s: Step<Option<Type>>)
    ensures meta.ipVersion == 4 ==> s == Lookup(data, meta, ip, 32, fuel)
    ensures meta.ipVersion == 6 ==> s == LookupV6(data, pos, meta, Ipv4Compatible(ip), fuel)
    ensures meta.ipVersion !in {4, 6} ==> s == Step(Err(InvalidMetadata("database has invalid ip version")), pos)
  {
    match meta.ipVersion
    case 4 => Lookup(data, meta, ip, 32, fuel)
    case 6 => LookupV6(data, pos, meta, Ipv4Compatible(ip), fuel)
    case _ => Step(Err(InvalidMetadata("database has invalid ip version")), pos)
  }

  /** `query_ip`: dispatch on the address family. */
  function LookupIp(data: seq<byte>, pos: nat, meta: Metadata, ip: IpAddr, fuel: nat): (s: Step<Option<Type>>)
    ensures ip.V4? && meta.ipVersion == 4 ==> s == Lookup(data, meta, ip.v4, 32, fuel)
    ensures ip.V4? && meta.ipVersion == 6 ==> s == Lookup(data, meta, Ipv4Compatible(ip.v4), 128, fuel)
    ensures ip.V6? && meta.ipVersion == 4 ==> s == Step(Err(WrongDatabaseType), pos)
    ensures ip.V6? && meta.ipVersion == 6 ==> s == Lookup(data, meta, ip.v6, 128, fuel)
    ensures meta.ipVersion !in {4, 6} ==> s == Step(Err(InvalidMetadata("database has invalid ip version")), pos)
  {
    match ip
    case V4(a) => LookupV4(data, pos, meta, a, fuel)
    case V6(a) => LookupV6(data, pos, meta, a, fuel)
  }

  /**
   * Bits 32 to 127 of the IPv4-compatible address are zero; the walk over
   * them is stated by CompatibleWalkGoesLeft.
   */
  lemma CompatibleAddressTopBitsZero(ip: u32, j: nat)
    requires 32 <= j < 128
    ensures !Bit(Ipv4Compatible(ip), j)
  {
    Pow2Bytes(4);
    Pow256Values();
    Pow2Monotonic(32, j);
    assert ip / Pow2(j) == 0;
  }

  /**
   * Each of the first 96 steps of the 128-bit walk for a compatible address,
   * with bits 127 down to 32 left, reads the left record of its node.
   */
  lemma CompatibleWalkGoesLeft(data: seq<byte>, meta: Metadata, ip: u32, i: nat, pos: nat, fuel: nat)
    requires 32 < i <= 128
    ensures var rec := RecordAt(data, pos, meta, false);
            WalkFrom(data, meta, Ipv4Compatible(ip), i, pos, fuel)
            == if rec.result.Err? then Step(Err(rec.result.error), rec.next)
               else match rec.result.value
                    case TraverseTreeTo(p) => WalkFrom(data, meta, Ipv4Compatible(ip), i - 1, p, fuel)
                    case NoData => Step(Ok(None), rec.next)
                    case Data(p) =>
                      var d := Decode(data, p, Some(meta), fuel);
                      if d.result.Err? then Step(Err(d.result.error), d.next) else Step(Ok(Some(d.result.value)), d.next)
  {
    CompatibleAddressTopBitsZero(ip, i - 1);
    WalkStep(data, meta, Ipv4Compatible(ip), i, pos, fuel);
  }

  /**
   * Walks over the same number of bits for two addresses that agree on the
   * bits the walk consumed give the same answer: every address in the network
   * a record stands for gets that record's answer.
   */
  lemma SameNetworkSameLookup(data: seq<byte>, meta: Metadata, ip1: nat, ip2: nat, numBits: nat, fuel: nat)
    requires forall j :: numBits - WalkDepth(data, meta, ip1, numBits, 0) <= j < numBits ==> Bit(ip1, j) == Bit(ip2, j)
    ensures Lookup(data, meta, ip1, numBits, fuel) == Lookup(data, meta, ip2, numBits, fuel)
  {
    SameNetworkSameAnswer(data, meta, ip1, ip2, numBits, 0, fuel);
  }

  /**
   * The smallest database: one 24-bit node whose left record is the node
   * count (no data) and whose right record is 17, the data-section offset 0,
   * where the string "hit" is stored after the 16-byte separator.
   */
  const TinyTree: seq<byte> :=
    [0, 0, 1, 0, 0, 17, 0, 0, 0, 0, 0, 0, 0, 0, 0, 0, 0, 0, 0, 0, 0, 0, 0x43, 0x68, 0x69, 0x74]
  const TinyMetadata: Metadata := Metadata(1, 24, 4)

  /** The ASCII bytes of "hit". */
  const Hit: seq<byte> := [0x68, 0x69, 0x74]

  /** Bit 31 of an IPv4 address is its top bit. */
  lemma TopBit(ip: u32)
    ensures Bit(ip, 31) <==> ip >= 0x8000_0000
  {
    Pow2Bytes(4);
    Pow256Values();
    assert Pow2(32) == 2 * Pow2(31);
  }

  /** The root node of the smallest database: no data on the left, offset 22 of the file on the right. */
  lemma TinyRoot(bit: bool)
    ensures RecordAt(TinyTree, 0, TinyMetadata, bit).result == Ok(if bit then Data(22) else NoData)
  {
    Pow256Values();
    var node := TinyTree[0..6];
    assert node == [0, 0, 1, 0, 0, 17];
    assert ReadBytes(TinyTree, 0, 6).result == Ok(node);
    assert BigEndian([0]) == 0 by {
      assert [0][..0] == [];
    }
    assert BigEndian([0, 0]) == 0 by {
      assert [0, 0][..1] == [0];
    }
    assert BigEndian(node[..3]) == 1 by {
      assert node[..3] == [0, 0, 1] && node[..3][..2] == [0, 0];
    }
    assert BigEndian(node[3..]) == 17 by {
      assert node[3..] == [0, 0, 17] && node[3..][..2] == [0, 0];
    }
  }

  /** The value stored at file offset 22 of the smallest database: the string "hit". */
  lemma TinyValue(fuel: nat)
    ensures Decode(TinyTree, 22, Some(TinyMetadata), fuel).result == Ok(Utf8String(Hit))
  {
    var data := TinyTree;
    assert data[22..23] == [0x43] && data[23..26] == [0x68, 0x69, 0x74];
    assert ReadBytes(data, 22, 1) == Step(Ok([0x43]), 23);
    assert ReadBytes(data, 23, 0) == Step(Ok([]), 23);
    assert ReadHeader(data, 22) == Step(Ok(Header(2, 3)), 23);
    assert ReadBytes(data, 23, 3) == Step(Ok([0x68, 0x69, 0x74]), 26);
  }

  /** In the smallest database the top bit alone decides: 0 finds nothing, 1 finds "hit". */
  lemma TinyDatabaseLookup(ip: u32, fuel: nat)
    ensures Lookup(TinyTree, TinyMetadata, ip, 32, fuel).result
            == if ip < 0x8000_0000 then Ok(None) else Ok(Some(Utf8String(Hit)))
  {
    TopBit(ip);
    TinyRoot(Bit(ip, 31));
    TinyValue(fuel);
  }

  /** `Mmdb`: a reader over the whole database file and the metadata found in it. */
  class Database {
    const reader: Reader
    const metadata: Metadata

    constructor (reader: Reader, metadata: Metadata)
      ensures this.reader == reader && this.metadata == metadata
    {
      this.reader := reader;
      this.metadata := metadata;
    }

    /**
     * `Mmdb::new`: reads the tail window, finds the rightmost marker in it,
     * decodes and checks the metadata after it, and rewinds the reader. The
     * outcome is LocateMetadata of the file; on failure the reader is left at
     * the end of the file, where reading the tail put it.
     */
    static method New(reader: Reader) returns (r: Result<Database, MmdbError>)
      modifies reader
      ensures r.Ok? ==> fresh(r.value) && r.value.reader == reader && reader.pos == 0
      ensures r.Ok? ==> LocateMetadata(reader.data) == Ok(r.value.metadata)
      ensures r.Err? ==> LocateMetadata(reader.data) == Err(r.error) && reader.pos == |reader.data|
    {
      ghost var file := reader.data;
      reader.Seek(|reader.data|);
      var fileSize := reader.pos;
      var startByte := TailStart(fileSize);
      reader.Seek(startByte);
      // The window lies inside the file, so this read cannot fail.
      var contents := reader.ReadExact(fileSize - startByte);
      var tailBytes := contents.value;
      assert tailBytes == Tail(file);
      var tail := new byte[|tailBytes|](i requires 0 <= i < |tailBytes| => tailBytes[i]);
      assert tail[..] == tailBytes;
      var meta := ReadMetadata(tail);
      if meta.Err? {
        return Err(meta.error);
      }
      reader.Seek(0);
      var db := new Database(reader, meta.value);
      r := Ok(db);
    }

    /** `query_ip_uint`: rewinds, then follows one record per bit from the most significant down. */
    method QueryIpUint(ip: u128, numBits: nat, fuel: nat) returns (r: Result<Option<Type>, MmdbError>)
      requires numBits <= 128
      modifies reader
      ensures Step(r, reader.pos) == Lookup(reader.data, metadata, ip, numBits, fuel)
    {
      reader.Seek(0);
      var i: nat := numBits;
      while i > 0
        invariant i <= numBits
        invariant Lookup(reader.data, metadata, ip, numBits, fuel) == WalkFrom(reader.data, metadata, ip, i, reader.pos, fuel)
      {
        i := i - 1;
        var done, res := VisitNode(ip, i, fuel);
        if done {
          return res;
        }
      }
      r := Ok(None);
    }

    /**
     * One pass of the bit loop: the record bit `i` selects at the cursor,
     * then a seek to the next node, or the end of the walk with its answer.
     */
    method VisitNode(ip: u128, i: nat, fuel: nat) returns (done: bool, r: Result<Option<Type>, MmdbError>)
      modifies reader
      ensures var w := WalkFrom(reader.data, metadata, ip, i + 1, old(reader.pos), fuel);
              if done then Step(r, reader.pos) == w else w == WalkFrom(reader.data, metadata, ip, i, reader.pos, fuel)
    {
      var bit := (ip / Pow2(i)) % 2 == 1;
      WalkStep(reader.data, metadata, ip, i + 1, reader.pos, fuel);
      var rec := ReadRecord(reader, metadata, bit);
      if rec.Err? {
        return true, Err(rec.error);
      }
      match rec.value
      case TraverseTreeTo(p) =>
        reader.Seek(p);
        done, r := false, Ok(None);
      case Data(p) =>
        reader.Seek(p);
        var typ := ReadType(reader, Some(metadata), fuel);
        if typ.Err? {
          return true, Err(typ.error);
        }
        done, r := true, Ok(Some(typ.value));
      case NoData =>
        done, r := true, Ok(None);
    }

    /** `query_ipv6`. */
    method QueryIpv6(ip: u128, fuel: nat) returns (r: Result<Option<Type>, MmdbError>)
      modifies reader
      ensures Step(r, reader.pos) == LookupV6(reader.data, old(reader.pos), metadata, ip, fuel)
    {
      if metadata.ipVersion == 4 {
        r := Err(WrongDatabaseType);
      } else if metadata.ipVersion == 6 {
        r := QueryIpUint(ip, 128, fuel);
      } else {
        r := Err(InvalidMetadata("database has invalid ip version"));
      }
    }

    /** `query_ipv4`. */
    method QueryIpv4(ip: u32, fuel: nat) returns (r: Result<Option<Type>, MmdbError>)
      modifies reader
      ensures Step(r, reader.pos) == LookupV4(reader.data, old(reader.pos), metadata, ip, fuel)
    {
      if metadata.ipVersion == 4 {
        r := QueryIpUint(ip, 32, fuel);
      } else if metadata.ipVersion == 6 {
        r := QueryIpv6(Ipv4Compatible(ip), fuel);
      } else {
        r := Err(InvalidMetadata("database has invalid ip version"));
      }
    }

    /** `query_ip`. */
    method QueryIp(ip: IpAddr, fuel: nat) returns (r: Result<Option<Type>, MmdbError>)
      modifies reader
      ensures Step(r, reader.pos) == LookupIp(reader.data, old(reader.pos), metadata, ip, fuel)
    {
      match ip
      case V4(a) =>
        r := QueryIpv4(a, fuel);
      case V6(a) =>
        r := QueryIpv6(a, fuel);
    }
  }
}
