/**
 * The DNS lookup of src/mmdb/dns.rs without its socket: building the query
 * packet for a domain (RFC 1035 section 4.1.1 header, section 4.1.2 question,
 * section 3.1 length-prefixed labels) and checking the reply. The domain is
 * handled as its UTF-8 bytes; splitting those bytes at 0x2E is splitting the
 * text at '.', since no multi-byte UTF-8 sequence contains that byte.
 */
module Dns {
  import opened Base

  /** `DnsError`. The socket failures carry an I/O error in the source; here they are bare kinds. */
  datatype DnsError =
    | BindFailed
    | ConnectFailed
    | WriteFailed
    | SendFailed
    | RecvFailed
    | DomainPartTooLong
    | ResponseTooShort
    | DnsErrorCode(code: byte)
    | NoRecordFound(domain: seq<byte>)

  /** `Ipv4Addr::new(a, b, c, d)`. */
  datatype Ipv4Addr = Ipv4Addr(a: byte, b: byte, c: byte, d: byte)

  const Dot: byte := 0x2E

  // ---------------------------------------------------------------------------
  // Splitting the domain
  // ---------------------------------------------------------------------------

  /**
   * `str::split('.')`: the pieces between dots, in order, empty pieces kept;
   * there is always one more piece than there are dots.
   */
  function Split(s: seq<byte>): (parts: seq<seq<byte>>)
    ensures |parts| >= 1
    ensures forall i :: 0 <= i < |parts| ==> Dot !in parts[i]
  {
    if s == [] then [[]]
    else
      var init := Split(s[..|s| - 1]);
      var c := s[|s| - 1];
      if c == Dot then init + [[]]
      else init[..|init| - 1] + [init[|init| - 1] + [c]]
  }

  /** The number of dots in a domain. */
  function Dots(s: seq<byte>): nat
  {
    if s == [] then 0 else Dots(s[..|s| - 1]) + (if s[|s| - 1] == Dot then 1 else 0)
  }

  /** Splitting gives one more piece than there are dots. */
  lemma {:induction false} SplitPieces(s: seq<byte>)
    ensures |Split(s)| == Dots(s) + 1
  {
    if s != [] {
      SplitPieces(s[..|s| - 1]);
    }
  }

  /** The pieces glued back together with a dot between each two. */
  function Join(parts: seq<seq<byte>>): seq<byte>
    requires |parts| >= 1
  {
    if |parts| == 1 then parts[0]
    else Join(parts[..|parts| - 1]) + [Dot] + parts[|parts| - 1]
  }

  lemma {:induction false} JoinExtendLast(parts: seq<seq<byte>>, c: byte)
    requires |parts| >= 1
    ensures Join(parts[..|parts| - 1] + [parts[|parts| - 1] + [c]]) == Join(parts) + [c]
  {
    var n := |parts|;
    var ext := parts[..n - 1] + [parts[n - 1] + [c]];
    assert ext[..n - 1] == parts[..n - 1];
  }

  /** Splitting loses nothing: joining the pieces gives back the domain. */
  lemma {:induction false} JoinSplit(s: seq<byte>)
    ensures Join(Split(s)) == s
  {
    if s != [] {
      var t := s[..|s| - 1];
      var c := s[|s| - 1];
      JoinSplit(t);
      assert s == t + [c];
      if c == Dot {
        var parts := Split(t) + [[]];
        assert parts[..|parts| - 1] == Split(t);
      } else {
        JoinExtendLast(Split(t), c);
      }
    }
  }

  lemma {:induction false} SplitAfterDot(x: seq<byte>, q: seq<byte>)
    requires Dot !in q
    ensures Split(x + [Dot] + q) == Split(x) + [q]
  {
    if q == [] {
      assert (x + [Dot] + q)[..|x + [Dot] + q| - 1] == x;
    } else {
      var q' := q[..|q| - 1];
      var s := x + [Dot] + q;
      assert s[..|s| - 1] == x + [Dot] + q';
      SplitAfterDot(x, q');
      assert q == q' + [q[|q| - 1]];
    }
  }

  lemma {:induction false} SplitNoDot(q: seq<byte>)
    requires Dot !in q
    ensures Split(q) == [q]
  {
    if q != [] {
      SplitNoDot(q[..|q| - 1]);
      assert q == q[..|q| - 1] + [q[|q| - 1]];
    }
  }

  /** Pieces without dots are exactly what splitting their join gives. */
  lemma {:induction false} SplitJoin(parts: seq<seq<byte>>)
    requires |parts| >= 1 && forall i :: 0 <= i < |parts| ==> Dot !in parts[i]
    ensures Split(Join(parts)) == parts
  {
    var n := |parts|;
    if n == 1 {
      SplitNoDot(parts[0]);
    } else {
      SplitJoin(parts[..n - 1]);
      SplitAfterDot(Join(parts[..n - 1]), parts[n - 1]);
      assert parts == parts[..n - 1] + [parts[n - 1]];
    }
  }

  // ---------------------------------------------------------------------------
  // The query packet
  // ---------------------------------------------------------------------------

  /** `write_u16::<BigEndian>`. */
  function U16Bytes(v: nat): (bs: seq<byte>)
    requires v < 0x1_0000
    ensures |bs| == 2 && bs[0] as int * 256 + bs[1] == v
  {
    [v / 256, v % 256]
  }

  /** ID 0x1234, flags 0x0100 (recursion desired), QDCOUNT 1, ANCOUNT, NSCOUNT and ARCOUNT 0. */
  const QueryHeader: seq<byte> := [0x12, 0x34, 0x01, 0x00, 0x00, 0x01, 0x00, 0x00, 0x00, 0x00, 0x00, 0x00]

  /** The zero length that ends QNAME, then QTYPE 1 (A) and QCLASS 1 (IN). */
  const QuestionTrailer: seq<byte> := [0x00, 0x00, 0x01, 0x00, 0x01]

  /** Every piece fits the one-byte length of a label. */
  predicate AllFit(parts: seq<seq<byte>>)
  {
    forall i :: 0 <= i < |parts| ==> |parts[i]| <= 255
  }

  /** Each piece as a length byte followed by its bytes. */
  function Labels(parts: seq<seq<byte>>): seq<byte>
    requires AllFit(parts)
  {
    if parts == [] then [] else [|parts[0]|] + parts[0] + Labels(parts[1..])
  }

  lemma {:induction false} LabelsAppend(parts: seq<seq<byte>>, p: seq<byte>)
    requires AllFit(parts) && |p| <= 255
    ensures AllFit(parts + [p]) && Labels(parts + [p]) == Labels(parts) + [|p|] + p
  {
    assert AllFit(parts + [p]);
    if parts != [] {
      assert (parts + [p])[1..] == parts[1..] + [p];
      LabelsAppend(parts[1..], p);
    }
  }

  /** One length byte per piece plus the piece: the size of the encoded name without its terminator. */
  function LabelBytes(parts: seq<seq<byte>>): nat
  {
    if parts == [] then 0 else 1 + |parts[0]| + LabelBytes(parts[1..])
  }

  lemma {:induction false} LabelsLength(parts: seq<seq<byte>>)
    requires AllFit(parts)
    ensures |Labels(parts)| == LabelBytes(parts)
  {
    if parts != [] {
      LabelsLength(parts[1..]);
    }
  }

  /**
   * The query for a domain: header, the pieces as labels, the terminator and
   * the question type and class. A piece longer than 255 bytes has no label
   * length and fails the whole query.
   */
  function QueryPacket(domain: seq<byte>): (r: Result<seq<byte>, DnsError>)
    ensures r.Err? <==> exists i :: 0 <= i < |Split(domain)| && |Split(domain)[i]| > 255
    ensures r.Err? ==> r.error == DomainPartTooLong
    ensures r.Ok? ==> |r.value| == 12 + LabelBytes(Split(domain)) + 1 + 4
    ensures r.Ok? ==> r.value[..12] == QueryHeader && r.value[|r.value| - 5..] == QuestionTrailer
  {
    var parts := Split(domain);
    if AllFit(parts) then
      LabelsLength(parts);
      var packet := QueryHeader + Labels(parts) + QuestionTrailer;
      assert packet[..12] == QueryHeader;
      Ok(packet)
    else Err(DomainPartTooLong)
  }

  /** A domain whose pieces all fit is sent as the header, its labels and the trailer. */
  lemma QueryPacketFits(domain: seq<byte>)
    requires AllFit(Split(domain))
    ensures QueryPacket(domain) == Ok(QueryHeader + Labels(Split(domain)) + QuestionTrailer)
  {
  }

  /** Between the header and the 5-byte trailer, a query holds exactly the labels of the domain's pieces, empty ones included. */
  lemma QueryLabels(domain: seq<byte>)
    requires QueryPacket(domain).Ok?
    ensures AllFit(Split(domain))
    ensures var q := QueryPacket(domain).value; q[12..|q| - 5] == Labels(Split(domain))
  {
  }

  /** The packet-building part of `query_dns_for_domain`: fixed writes, then a loop over the pieces. */
  method EncodeQuery(domain: seq<byte>) returns (r: Result<seq<byte>, DnsError>)
    ensures r == QueryPacket(domain)
  {
    var packet: seq<byte> := [];
    packet := packet + U16Bytes(0x1234);
    packet := packet + U16Bytes(0x0100);
    packet := packet + U16Bytes(1);
    packet := packet + U16Bytes(0);
    packet := packet + U16Bytes(0);
    packet := packet + U16Bytes(0);
    assert packet == QueryHeader;
    var parts := Split(domain);
    for i := 0 to |parts|
      invariant AllFit(parts[..i])
      invariant packet == QueryHeader + Labels(parts[..i])
    {
      var part := parts[i];
      if |part| > 255 {
        assert !AllFit(parts);
        return Err(DomainPartTooLong);
      }
      LabelsAppend(parts[..i], part);
      assert parts[..i + 1] == parts[..i] + [part];
      packet := packet + [|part|];
      packet := packet + part;
    }
    assert parts[..|parts|] == parts;
    packet := packet + [0];
    packet := packet + U16Bytes(1);
    packet := packet + U16Bytes(1);
    assert packet == QueryHeader + Labels(parts) + QuestionTrailer;
    r := Ok(packet);
  }

  /**
   * A reference reader for the encoded name: labels up to the zero length.
   * It inverts Labels for pieces that are not empty (an empty piece encodes
   * as a zero length, which ends the name).
   */
  function ReadLabels(bs: seq<byte>): (r: Option<(seq<seq<byte>>, seq<byte>)>)
    decreases |bs|
  {
    if bs == [] then None
    else if bs[0] == 0 then Some(([], bs[1..]))
    else if 1 + bs[0] > |bs| then None
    else
      match ReadLabels(bs[1 + bs[0]..])
      case None => None
      case Some(tail) => Some(([bs[1..1 + bs[0]]] + tail.0, tail.1))
  }

  /** Non-empty pieces read back from their labels, followed by whatever came after the name. */
  lemma {:induction false} LabelsRoundTrip(parts: seq<seq<byte>>, rest: seq<byte>)
    requires AllFit(parts) && forall i :: 0 <= i < |parts| ==> parts[i] != []
    ensures ReadLabels(Labels(parts) + [0] + rest) == Some((parts, rest))
  {
    var bs := Labels(parts) + [0] + rest;
    if parts == [] {
      assert bs[1..] == rest;
    } else {
      var p := parts[0];
      assert bs == [|p|] + p + (Labels(parts[1..]) + [0] + rest);
      assert bs[1..1 + |p|] == p;
      assert bs[1 + |p|..] == Labels(parts[1..]) + [0] + rest;
      LabelsRoundTrip(parts[1..], rest);
      assert [p] + parts[1..] == parts;
    }
  }

  /**
   * The domain can be read back from a query: the header, then labels that
   * join to the domain, then the question type and class; this holds whenever
   * no piece is empty.
   */
  lemma QueryNamesDomain(domain: seq<byte>)
    requires QueryPacket(domain).Ok?
    requires forall i :: 0 <= i < |Split(domain)| ==> Split(domain)[i] != []
    ensures var q := QueryPacket(domain).value;
            q[..12] == QueryHeader &&
            ReadLabels(q[12..]) == Some((Split(domain), [0, 1, 0, 1])) &&
            Join(ReadLabels(q[12..]).value.0) == domain
  {
    var parts := Split(domain);
    var q := QueryPacket(domain).value;
    assert q[12..] == Labels(parts) + [0] + [0, 1, 0, 1];
    LabelsRoundTrip(parts, [0, 1, 0, 1]);
    JoinSplit(domain);
  }

  /** The ASCII bytes of "example" and "com". */
  const Example: seq<byte> := [0x65, 0x78, 0x61, 0x6D, 0x70, 0x6C, 0x65]
  const Com: seq<byte> := [0x63, 0x6F, 0x6D]

  /** "example.com" is sent as 7 "example" 3 "com" 0 after the header. */
  lemma ExampleQuery()
    ensures QueryPacket(Example + [Dot] + Com) == Ok(QueryHeader + [7] + Example + [3] + Com + [0, 0, 1, 0, 1])
  {
    var parts: seq<seq<byte>> := [Example, Com];
    assert Join(parts) == Example + [Dot] + Com by {
      assert parts[..1] == [Example];
    }
    SplitJoin(parts);
    assert AllFit(parts);
    var last: seq<seq<byte>> := parts[1..];
    assert last == [Com] && last[1..] == [];
    assert Labels(last) == [3] + Com + Labels([]);
    assert Labels(parts) == [7] + Example + Labels(last);
    assert Labels(parts) == [7] + Example + [3] + Com;
    var domain := Example + [Dot] + Com;
    assert Split(domain) == parts;
    assert QueryPacket(domain) == Ok(QueryHeader + Labels(parts) + QuestionTrailer);
    assert QueryHeader + Labels(parts) + QuestionTrailer
        == QueryHeader + [7] + Example + [3] + Com + [0, 0, 1, 0, 1];
  }

  /**
   * A trailing dot leaves an empty last piece, written as a second zero
   * length after the name's labels.
   */
  lemma TrailingDotQuery()
    ensures QueryPacket(Com + [Dot]) == Ok(QueryHeader + [3] + Com + [0] + [0, 0, 1, 0, 1])
  {
    var parts: seq<seq<byte>> := [Com, []];
    TrailingDotPieces();
    TrailingDotLabels();
    QueryPacketFits(Com + [Dot]);
    var labels: seq<byte> := [3] + Com + [0];
    assert QueryHeader + labels + QuestionTrailer == QueryHeader + [3] + Com + [0] + [0, 0, 1, 0, 1];
  }

  /** "com." splits into "com" and an empty last piece. */
  lemma TrailingDotPieces()
    ensures Split(Com + [Dot]) == [Com, []]
  {
    assert Dot !in Com;
    SplitNoDot(Com);
    SplitAfterDot(Com, []);
    assert Com + [Dot] + [] == Com + [Dot];
  }

  /** The empty last piece is written as a zero length. */
  lemma TrailingDotLabels()
    ensures AllFit([Com, []]) && Labels([Com, []]) == [3] + Com + [0]
  {
    var parts: seq<seq<byte>> := [Com, []];
    var last: seq<seq<byte>> := parts[1..];
    assert last == [[]] && last[1..] == [];
    assert Labels(last) == [0];
  }

  /**
   * A reader of that query takes the first zero as the end of the name, so
   * the second zero starts QTYPE: QTYPE reads as 0 and QCLASS as 0x0100.
   */
  lemma TrailingDotMisread()
    ensures ReadLabels([3] + Com + [0] + QuestionTrailer) == Some(([Com], [0, 0, 1, 0, 1]))
  {
    var bs: seq<byte> := [3] + Com + [0] + QuestionTrailer;
    assert bs[1 + bs[0]..] == [0] + QuestionTrailer;
    assert bs[1..1 + bs[0]] == Com;
    var tail: seq<byte> := [0] + QuestionTrailer;
    assert tail[1..] == QuestionTrailer;
    assert ReadLabels(tail) == Some(([], QuestionTrailer));
    assert [Com] + [] == [Com];
  }

  // ---------------------------------------------------------------------------
  // The reply
  // ---------------------------------------------------------------------------

  /** The RCODE nibble of the second flags byte, as a remainder by 16. */
  function Rcode(flags: byte): byte
  {
    flags % 16
  }

  /**
   * `resp[3] & 0x0F`: masking the low four bits of a byte is its remainder by
   * 16, so the RCODE is below 16 and the high nibble is untouched by it.
   */
  lemma RcodeIsMask(flags: byte)
    ensures Rcode(flags) == ((flags as bv8) & 0x0F) as int
    ensures Rcode(flags) < 16
  {
  }

  /**
   * `(resp[6] as u16) << 8 | resp[7] as u16`: ANCOUNT. The shifted high byte
   * and the low byte occupy disjoint bits, so the OR is their sum.
   */
  function AnswerCount(resp: seq<byte>): (n: nat)
    requires |resp| >= 8
    ensures n < 0x1_0000 && (n == 0 <==> resp[6] == 0 && resp[7] == 0)
  {
    resp[6] as int * 256 + resp[7]
  }

  /**
   * The checks on the reply, in order: at least 30 bytes, a zero RCODE, a
   * non-zero answer count; the address is then the last four bytes of the
   * whole reply.
   */
  function ParseResponse(resp: seq<byte>, domain: seq<byte>): (r: Result<Ipv4Addr, DnsError>)
    ensures |resp| < 30 ==> r == Err(ResponseTooShort)
    ensures |resp| >= 30 && resp[3] % 16 != 0 ==> r == Err(DnsErrorCode(resp[3] % 16))
    ensures |resp| >= 30 && resp[3] % 16 == 0 && resp[6] == 0 && resp[7] == 0 ==> r == Err(NoRecordFound(domain))
    ensures r.Ok? <==> |resp| >= 30 && resp[3] % 16 == 0 && (resp[6] != 0 || resp[7] != 0)
    ensures r.Ok? ==> [r.value.a, r.value.b, r.value.c, r.value.d] == resp[|resp| - 4..]
  {
    if |resp| < 30 then Err(ResponseTooShort)
    else
      var rcode := Rcode(resp[3]);
      if rcode != 0 then Err(DnsErrorCode(rcode))
      else if AnswerCount(resp) == 0 then Err(NoRecordFound(domain))
      else
        var n := |resp|;
        Ok(Ipv4Addr(resp[n - 4], resp[n - 3], resp[n - 2], resp[n - 1]))
  }

  /**
   * A server's answer to a query: its ID, flags 0x8180 (a response, recursion
   * desired and available, RCODE 0), one question and one answer, the
   * question copied, then an A record whose name points at offset 12, with a
   * TTL and the four address bytes.
   */
  function AnswerResponse(query: seq<byte>, ttl: seq<byte>, addr: Ipv4Addr): (resp: seq<byte>)
    requires |query| >= 12 && |ttl| == 4
    ensures |resp| == |query| + 16
  {
    query[..2] + [0x81, 0x80, 0x00, 0x01, 0x00, 0x01, 0x00, 0x00, 0x00, 0x00] + query[12..]
    + [0xC0, 0x0C, 0x00, 0x01, 0x00, 0x01] + ttl + [0x00, 0x04, addr.a, addr.b, addr.c, addr.d]
  }

  /** A server's reply to a query with no answers and a given RCODE (3 is a name error). */
  function EmptyResponse(query: seq<byte>, rcode: nat): (resp: seq<byte>)
    requires |query| >= 12 && rcode < 16
    ensures |resp| == |query|
  {
    query[..2] + [0x81, 0x80 + rcode, 0x00, 0x01, 0x00, 0x00, 0x00, 0x00, 0x00, 0x00] + query[12..]
  }

  /** Any query answered with one A record resolves to that record's address. */
  lemma AnswerResolves(domain: seq<byte>, ttl: seq<byte>, addr: Ipv4Addr)
    requires QueryPacket(domain).Ok? && |ttl| == 4
    ensures ParseResponse(AnswerResponse(QueryPacket(domain).value, ttl, addr), domain) == Ok(addr)
  {
    var q := QueryPacket(domain).value;
    var header := q[..2] + [0x81, 0x80, 0x00, 0x01, 0x00, 0x01, 0x00, 0x00, 0x00, 0x00];
    var resp := AnswerResponse(q, ttl, addr);
    assert resp == header + (q[12..] + [0xC0, 0x0C, 0x00, 0x01, 0x00, 0x01] + ttl + [0x00, 0x04, addr.a, addr.b, addr.c, addr.d]);
    assert resp[3] == header[3] == 0x80 && resp[6] == header[6] == 0 && resp[7] == header[7] == 1;
    var n := |resp|;
    assert resp[n - 4..] == [addr.a, addr.b, addr.c, addr.d];
  }

  /**
   * A reply without answers is reported by its RCODE, or as no record when the
   * RCODE is 0, once it reaches 30 bytes; a shorter one (the query of a short
   * domain echoed back) is reported as too short.
   */
  lemma EmptyResponseRejected(domain: seq<byte>, rcode: nat)
    requires QueryPacket(domain).Ok? && rcode < 16
    ensures var q := QueryPacket(domain).value;
            ParseResponse(EmptyResponse(q, rcode), domain)
            == if |q| < 30 then Err(ResponseTooShort)
               else if rcode != 0 then Err(DnsErrorCode(rcode))
               else Err(NoRecordFound(domain))
  {
    var q := QueryPacket(domain).value;
    var header := q[..2] + [0x81, 0x80 + rcode, 0x00, 0x01, 0x00, 0x00, 0x00, 0x00, 0x00, 0x00];
    var resp := EmptyResponse(q, rcode);
    assert resp == header + q[12..];
    assert resp[3] == header[3] == 0x80 + rcode && resp[6] == header[6] == 0 && resp[7] == header[7] == 0;
    assert (0x80 + rcode) % 16 == rcode;
  }
}
