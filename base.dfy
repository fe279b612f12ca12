/** Bytes, big-endian integers and the Option/Result wrappers shared by the model. */
module Base {

  /** An octet, as read from the database file or a DNS packet. */
  type byte = x: int | 0 <= x < 0x100

  datatype Option<T> = None | Some(value: T)

  datatype Result<T, E> = Ok(value: T) | Err(error: E)

  /** 256 to the power n: one more of every byte of a big-endian number. */
  function Pow256(n: nat): (r: nat)
    ensures r > 0
  {
    if n == 0 then 1 else 256 * Pow256(n - 1)
  }

  /** 2 to the power n, for shifting bits out of an address. */
  function Pow2(n: nat): (r: nat)
    ensures r > 0
  {
    if n == 0 then 1 else 2 * Pow2(n - 1)
  }

  lemma Pow256Values()
    ensures Pow256(1) == 0x100 && Pow256(2) == 0x1_0000 && Pow256(3) == 0x100_0000
    ensures Pow256(4) == 0x1_0000_0000
    ensures Pow256(8) == 0x1_0000_0000_0000_0000
    ensures Pow256(16) == 0x1_0000_0000_0000_0000_0000_0000_0000_0000
  {
    assert Pow256(1) == 0x100;
    assert Pow256(2) == 0x1_0000;
    assert Pow256(3) == 0x100_0000;
    assert Pow256(4) == 0x1_0000_0000;
    assert Pow256(5) == 0x100_0000_0000;
    assert Pow256(6) == 0x1_0000_0000_0000;
    assert Pow256(7) == 0x100_0000_0000_0000;
    assert Pow256(8) == 0x1_0000_0000_0000_0000;
    assert Pow256(12) == 0x1_0000_0000_0000_0000_0000_0000 by {
      assert Pow256(9) == 0x100 * Pow256(8);
      assert Pow256(10) == 0x100 * Pow256(9);
      assert Pow256(11) == 0x100 * Pow256(10);
    }
    assert Pow256(16) == 0x1_0000_0000_0000_0000_0000_0000_0000_0000 by {
      assert Pow256(13) == 0x100 * Pow256(12);
      assert Pow256(14) == 0x100 * Pow256(13);
      assert Pow256(15) == 0x100 * Pow256(14);
    }
  }

  lemma {:induction false} Pow256Monotonic(a: nat, b: nat)
    requires a <= b
    ensures Pow256(a) <= Pow256(b)
  {
    if a < b {
      Pow256Monotonic(a, b - 1);
    }
  }

  lemma {:induction false} Pow2Monotonic(a: nat, b: nat)
    requires a <= b
    ensures Pow2(a) <= Pow2(b)
  {
    if a < b {
      Pow2Monotonic(a, b - 1);
    }
  }

  lemma MulMonotonic(a: nat, b: nat, d: nat)
    requires a <= b
    ensures a * d <= b * d
  {
  }

  /** Division with remainder has one answer: a quotient and remainder that rebuild x are x / d and x % d. */
  lemma DivModUnique(x: nat, d: nat, q: nat, r: nat)
    requires r < d && x == q * d + r
    ensures x / d == q && x % d == r
  {
    if x / d > q {
      MulMonotonic(q + 1, x / d, d);
      assert false;
    } else if x / d < q {
      MulMonotonic(x / d + 1, q, d);
      assert false;
    }
  }

  /** Eight bits make a byte: 2^(8n) == 256^n. */
  lemma {:induction false} Pow2Bytes(n: nat)
    ensures Pow2(8 * n) == Pow256(n)
  {
    if n > 0 {
      Pow2Bytes(n - 1);
      var k := 8 * (n - 1);
      assert Pow2(k + 8) == 2 * Pow2(k + 7) == 4 * Pow2(k + 6) == 8 * Pow2(k + 5) == 16 * Pow2(k + 4);
      assert Pow2(k + 4) == 2 * Pow2(k + 3) == 4 * Pow2(k + 2) == 8 * Pow2(k + 1) == 16 * Pow2(k);
    }
  }

  /**
   * The unsigned value of a byte string read most significant byte first,
   * as byteorder's `read_uint::<BigEndian>` and `read_u16/u24/u32` assemble it.
   */
  function BigEndian(bs: seq<byte>): (v: nat)
    ensures v < Pow256(|bs|)
  {
    if bs == [] then 0 else BigEndian(bs[..|bs| - 1]) * 256 + bs[|bs| - 1]
  }

  /** The n-byte big-endian encoding of v: the inverse of BigEndian. */
  function ToBigEndian(v: nat, n: nat): (bs: seq<byte>)
    requires v < Pow256(n)
    ensures |bs| == n && BigEndian(bs) == v
  {
    if n == 0 then []
    else
      var bs := ToBigEndian(v / 256, n - 1) + [v % 256];
      assert bs[..|bs| - 1] == ToBigEndian(v / 256, n - 1);
      bs
  }

  /** Reading back a big-endian number determines its bytes: BigEndian is injective per length. */
  lemma {:induction false} BigEndianInjective(a: seq<byte>, b: seq<byte>)
    requires |a| == |b| && BigEndian(a) == BigEndian(b)
    ensures a == b
  {
    if a != [] {
      var n := |a|;
      assert BigEndian(a[..n - 1]) == BigEndian(b[..n - 1]) && a[n - 1] == b[n - 1];
      BigEndianInjective(a[..n - 1], b[..n - 1]);
      assert a == a[..n - 1] + [a[n - 1]];
      assert b == b[..n - 1] + [b[n - 1]];
    }
  }
}
