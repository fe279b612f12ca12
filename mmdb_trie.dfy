/**
 * The search tree of src/mmdb.rs: node records (`read_record`), their
 * classification against the node count, and the walk from the root down
 * the address bits (`query_ip_uint`), as functions of the file's bytes.
 */
module MmdbTrie {
  import opened Base
  import opened MmdbValue
  import opened MmdbDecode
  import opened MmdbReader

  /** `RecordReadResult`: where a record sends the walk. */
  datatype RecordReadResult = TraverseTreeTo(offset: nat) | NoData | Data(offset: nat)

  /** One more than the largest record of a node of `bpn` bytes (two records of 4 * bpn bits). */
  function RecordLimit(bpn: nat): nat
  {
    if bpn == 6 then 0x100_0000 else if bpn == 7 then 0x1000_0000 else 0x1_0000_0000
  }

  /** A nibble above three big-endian bytes: the nibble is the quotient by 2^24, the bytes the remainder. */
  lemma Nibble24(hi: nat, bs: seq<byte>)
    requires hi < 16 && |bs| == 3
    ensures var r := hi * 0x100_0000 + (bs[0] as nat) * 0x1_0000 + (bs[1] as nat) * 0x100 + bs[2] as nat;
            r < 0x1000_0000 && r / 0x100_0000 == hi && r % 0x100_0000 == BigEndian(bs)
  {
    var b0, b1, b2 := bs[..1], bs[..2], bs[..3];
    assert b1[..1] == b0 && b2[..2] == b1 && b2 == bs && b0[..0] == [];
    assert BigEndian(b0) == bs[0] as nat;
    assert BigEndian(b1) == (bs[0] as nat) * 0x100 + bs[1] as nat;
    var lo := BigEndian(bs);
    assert lo == (bs[0] as nat) * 0x1_0000 + (bs[1] as nat) * 0x100 + bs[2] as nat;
    DivModUnique(hi * 0x100_0000 + lo, 0x100_0000, hi, lo);
  }

  /**
   * The left record of a 7-byte node: `(buf[3] & 0xf0) << 20 | buf[0] << 16 |
   * buf[1] << 8 | buf[2]`. The fields OR-ed together occupy disjoint bits, so
   * the OR is their sum, and `b & 0xf0` shifted left by 20 is `b / 16` times 2^24.
   */
  function Left28(node: seq<byte>): (r: nat)
    requires |node| == 7
    ensures r < 0x1000_0000 && r / 0x100_0000 == node[3] / 16 && r % 0x100_0000 == BigEndian(node[..3])
  {
    Nibble24(node[3] / 16, node[..3]);
    var b0: nat, b1: nat, b2: nat, b3: nat := node[0], node[1], node[2], node[3];
    (b3 / 16) * 0x100_0000 + b0 * 0x1_0000 + b1 * 0x100 + b2
  }

  /** The right record of a 7-byte node: `(buf[3] & 0x0f) << 24 | buf[4] << 16 | buf[5] << 8 | buf[6]`. */
  function Right28(node: seq<byte>): (r: nat)
    requires |node| == 7
    ensures r < 0x1000_0000 && r / 0x100_0000 == node[3] % 16 && r % 0x100_0000 == BigEndian(node[4..])
  {
    Nibble24(node[3] % 16, node[4..]);
    var b3: nat, b4: nat, b5: nat, b6: nat := node[3], node[4], node[5], node[6];
    (b3 % 16) * 0x100_0000 + b4 * 0x1_0000 + b5 * 0x100 + b6
  }

  /**
   * The (left, right) records of a node: two big-endian 24-bit or 32-bit
   * numbers, or the 28-bit pair whose top nibbles share the middle byte.
   */
  function NodeRecords(bpn: nat, node: seq<byte>): (records: (nat, nat))
    requires bpn in {6, 7, 8} && |node| == bpn
    ensures records.0 < RecordLimit(bpn) && records.1 < RecordLimit(bpn)
  {
    Pow256Values();
    if bpn == 6 then (BigEndian(node[..3]), BigEndian(node[3..]))
    else if bpn == 7 then (Left28(node), Right28(node))
    else (BigEndian(node[..4]), BigEndian(node[4..]))
  }

  /** The bytes of a node holding two given records: the layout NodeRecords reads. */
  function PackNode(bpn: nat, left: nat, right: nat): (node: seq<byte>)
    requires bpn in {6, 7, 8} && left < RecordLimit(bpn) && right < RecordLimit(bpn)
    ensures |node| == bpn
  {
    Pow256Values();
    if bpn == 6 then ToBigEndian(left, 3) + ToBigEndian(right, 3)
    else if bpn == 7 then
      [(left / 0x1_0000) % 0x100, (left / 0x100) % 0x100, left % 0x100,
       (left / 0x100_0000) * 16 + right / 0x100_0000,
       (right / 0x1_0000) % 0x100, (right / 0x100) % 0x100, right % 0x100]
    else ToBigEndian(left, 4) + ToBigEndian(right, 4)
  }

  /** A number below 2^32 is the sum of its four base-256 digits. */
  lemma Digits(x: nat)
    ensures x == (x / 0x100_0000) * 0x100_0000 + ((x / 0x1_0000) % 0x100) * 0x1_0000
                 + ((x / 0x100) % 0x100) * 0x100 + x % 0x100
  {
    var q1 := x / 0x100;
    var q2 := q1 / 0x100;
    assert x == q1 * 0x100 + x % 0x100;
    assert q1 == q2 * 0x100 + q1 % 0x100;
    assert q2 == (q2 / 0x100) * 0x100 + q2 % 0x100;
    assert q2 == x / 0x1_0000 && q2 / 0x100 == x / 0x100_0000;
  }

  /** The shared middle byte of a 7-byte node splits back into both top nibbles. */
  lemma Node28RoundTrip(left: nat, right: nat)
    requires left < 0x1000_0000 && right < 0x1000_0000
    ensures NodeRecords(7, PackNode(7, left, right)) == (left, right)
  {
    var node := PackNode(7, left, right);
    var hl, hr := left / 0x100_0000, right / 0x100_0000;
    assert node[3] == hl * 16 + hr && hr < 16;
    assert node[3] / 16 == hl && node[3] % 16 == hr;
    Digits(left);
    Digits(right);
  }

  /** Unpacking a packed node gives back both records, for every node size. */
  lemma NodeRecordsRoundTrip(bpn: nat, left: nat, right: nat)
    requires bpn in {6, 7, 8} && left < RecordLimit(bpn) && right < RecordLimit(bpn)
    ensures NodeRecords(bpn, PackNode(bpn, left, right)) == (left, right)
  {
    Pow256Values();
    var node := PackNode(bpn, left, right);
    if bpn == 6 {
      assert node[..3] == ToBigEndian(left, 3) && node[3..] == ToBigEndian(right, 3);
    } else if bpn == 7 {
      Node28RoundTrip(left, right);
    } else {
      assert node[..4] == ToBigEndian(left, 4) && node[4..] == ToBigEndian(right, 4);
    }
  }

  /**
   * The classification in `read_record`: below the node count a record is the
   * index of the next node, equal to it means no data, above it the record is
   * `node_count + 16` more than an offset into the data section, which starts
   * after the search tree and the 16-byte separator.
   */
  function Classify(record: nat, nodeCount: nat, bpn: nat): (c: RecordReadResult)
    ensures c.TraverseTreeTo? <==> record < nodeCount
    ensures c.NoData? <==> record == nodeCount
    ensures c.Data? <==> record > nodeCount
    ensures c.TraverseTreeTo? ==> c.offset == record * bpn
    ensures c.Data? ==> c.offset == bpn * nodeCount + 16 + (record - nodeCount - 16)
  {
    if record < nodeCount then TraverseTreeTo(record * bpn)
    else if record == nodeCount then NoData
    else
      // `selected_record - node_count - 16` is done in u128: for a record
      // within 16 of the node count it wraps, and adding the search-tree size
      // and 16 wraps back, so the unbounded sum below is what the source gets.
      Data(record - nodeCount - 16 + bpn * nodeCount + 16)
  }

  /**
   * A record and a pointer that name the same data-section offset name the
   * same file position: both are measured from the end of the separator.
   */
  lemma RecordAndPointerAgree(nodeCount: nat, bpn: nat, offset: nat)
    ensures Classify(nodeCount + 16 + offset, nodeCount, bpn) == Data(DataSectionOffset(bpn, nodeCount, offset))
  {
  }

  /**
   * `read_record`: the node at `pos` is read with the width the record size
   * gives, and the record the bit selects (right when set) is classified.
   */
  function RecordAt(data: seq<byte>, pos: nat, meta: Metadata, bit: bool): (s: Step<RecordReadResult>)
    ensures s.result.Ok? ==> meta.recordSize in {24, 28, 32}
    ensures s.result.Ok? ==> s.next == pos + meta.recordSize / 4 <= |data|
  {
    var bpn := BytesPerNode(meta.recordSize);
    if bpn.Err? then Step(Err(bpn.error), pos)
    else
      var b := ReadBytes(data, pos, bpn.value);
      if b.result.Err? then Step(Err(b.result.error), b.next)
      else
        var records := NodeRecords(bpn.value, b.result.value);
        Step(Ok(Classify(if bit then records.1 else records.0, meta.nodeCount, bpn.value)), b.next)
  }

  /** Shifting right by i and keeping the low bit tests whether the remainder by 2^(i+1) reaches 2^i. */
  lemma BitRemainder(ip: nat, i: nat)
    ensures (ip / Pow2(i)) % 2 == 1 <==> ip % Pow2(i + 1) >= Pow2(i)
  {
    var p := Pow2(i);
    var q := ip / p;
    var r := ip % p;
    assert Pow2(i + 1) == 2 * p;
    var m := (q % 2) * p + r;
    assert q == 2 * (q / 2) + q % 2;
    assert ip == q * p + r;
    assert q * p == (q / 2) * (2 * p) + (q % 2) * p;
    assert m < 2 * p;
    assert ip == (q / 2) * (2 * p) + m;
    DivModUnique(ip, 2 * p, q / 2, m);
  }

  /**
   * Bit i of an address (`(ip >> i) & 1`), counting from the least
   * significant: set exactly when the low i + 1 bits are at least 2^i.
   */
  function Bit(ip: nat, i: nat): (b: bool)
    ensures b <==> ip % Pow2(i + 1) >= Pow2(i)
  {
    BitRemainder(ip, i);
    (ip / Pow2(i)) % 2 == 1
  }

  /**
   * The walk with `i` address bits left to consume, at the node at `pos`: the
   * next bit (the most significant left) picks a record; a traversal moves to
   * another node, no data ends in None, a data offset ends in the value decoded
   * there. Running out of bits ends in None.
   */
  function WalkFrom(data: seq<byte>, meta: Metadata, ip: nat, i: nat, pos: nat, fuel: nat): (s: Step<Option<Type>>)
    decreases i
    ensures i == 0 ==> s == Step(Ok(None), pos)
    ensures s.result.Ok? && s.result.value.Some? ==>
              exists p: nat :: Decode(data, p, Some(meta), fuel) == Step(Ok(s.result.value.value), s.next)
  {
    if i == 0 then Step(Ok(None), pos)
    else
      var rec := RecordAt(data, pos, meta, Bit(ip, i - 1));
      if rec.result.Err? then Step(Err(rec.result.error), rec.next)
      else
        match rec.result.value
        case TraverseTreeTo(p) => WalkFrom(data, meta, ip, i - 1, p, fuel)
        case NoData => Step(Ok(None), rec.next)
        case Data(p) =>
          var d := Decode(data, p, Some(meta), fuel);
          if d.result.Err? then Step(Err(d.result.error), d.next)
          else Step(Ok(Some(d.result.value)), d.next)
  }

  /** One step of the walk: read the record the next bit selects and act on it. */
  lemma WalkStep(data: seq<byte>, meta: Metadata, ip: nat, i: nat, pos: nat, fuel: nat)
    requires i > 0
    ensures var rec := RecordAt(data, pos, meta, Bit(ip, i - 1));
            WalkFrom(data, meta, ip, i, pos, fuel)
            == if rec.result.Err? then Step(Err(rec.result.error), rec.next)
               else match rec.result.value
                    case TraverseTreeTo(p) => WalkFrom(data, meta, ip, i - 1, p, fuel)
                    case NoData => Step(Ok(None), rec.next)
                    case Data(p) =>
                      var d := Decode(data, p, Some(meta), fuel);
                      if d.result.Err? then Step(Err(d.result.error), d.next) else Step(Ok(Some(d.result.value)), d.next)
  {
  }

  /** The number of nodes the walk reads before it ends. */
  function WalkDepth(data: seq<byte>, meta: Metadata, ip: nat, i: nat, pos: nat): (d: nat)
    ensures d <= i
    decreases i
  {
    if i == 0 then 0
    else
      var rec := RecordAt(data, pos, meta, Bit(ip, i - 1));
      if rec.result.Ok? && rec.result.value.TraverseTreeTo? then
        1 + WalkDepth(data, meta, ip, i - 1, rec.result.value.offset)
      else 1
  }

  /**
   * The answer for an address is the answer for its whole network: any address
   * that agrees with it on the bits the walk consumed gets the same result and
   * reads the same nodes.
   */
  lemma {:induction false} SameNetworkSameAnswer(data: seq<byte>, meta: Metadata, ip1: nat, ip2: nat,
                                                 i: nat, pos: nat, fuel: nat)
    requires forall j :: i - WalkDepth(data, meta, ip1, i, pos) <= j < i ==> Bit(ip1, j) == Bit(ip2, j)
    ensures WalkFrom(data, meta, ip1, i, pos, fuel) == WalkFrom(data, meta, ip2, i, pos, fuel)
    ensures WalkDepth(data, meta, ip1, i, pos) == WalkDepth(data, meta, ip2, i, pos)
  {
    if i > 0 {
      assert Bit(ip1, i - 1) == Bit(ip2, i - 1);
      var rec := RecordAt(data, pos, meta, Bit(ip1, i - 1));
      if rec.result.Ok? && rec.result.value.TraverseTreeTo? {
        SameNetworkSameAnswer(data, meta, ip1, ip2, i - 1, rec.result.value.offset, fuel);
      }
    }
  }

  /** `read_record` on the reader: reads one node and classifies the selected record. */
  method ReadRecord(reader: Reader, meta: Metadata, bit: bool) returns (r: Result<RecordReadResult, MmdbError>)
    modifies reader
    ensures Step(r, reader.pos) == RecordAt(reader.data, old(reader.pos), meta, bit)
  {
    var bpn := BytesPerNode(meta.recordSize);
    if bpn.Err? {
      return Err(bpn.error);
    }
    var left, right;
    if bpn.value == 7 {
      var node := reader.ReadExact(7);
      if node.Err? {
        return Err(node.error);
      }
      left, right := Left28(node.value), Right28(node.value);
    } else {
      // 24-bit and 32-bit records are read one after the other.
      ghost var data, p0 := reader.data, reader.pos;
      var half := bpn.value / 2;
      var l := reader.ReadExact(half);
      if l.Err? {
        assert ReadBytes(data, p0, bpn.value) == Step(Err(BadIo), |data|);
        return Err(l.error);
      }
      var rr := reader.ReadExact(half);
      if rr.Err? {
        assert ReadBytes(data, p0, bpn.value) == Step(Err(BadIo), |data|);
        return Err(rr.error);
      }
      ghost var node := data[p0..p0 + bpn.value];
      assert node[..half] == l.value && node[half..] == rr.value;
      left, right := BigEndian(l.value), BigEndian(rr.value);
    }
    r := Ok(Classify(if bit then right else left, meta.nodeCount, bpn.value));
  }
}
