/** Bytes and the little-endian integer layout that BitConverter uses on a
    little-endian machine, for length headers and primitive payloads. */
module LittleEndian {

  type byte = b: int | 0 <= b < 256

  /** 256 to the power w: the number of values w bytes can hold. */
  function Pow256(w: nat): (r: nat)
    ensures r >= 1
  {
    if w == 0 then 1 else 256 * Pow256(w - 1)
  }

  lemma Pow256Values()
    ensures Pow256(1) == 0x100
    ensures Pow256(2) == 0x1_0000
    ensures Pow256(4) == 0x1_0000_0000
    ensures Pow256(8) == 0x1_0000_0000_0000_0000
  {
    assert Pow256(1) == 256 * Pow256(0);
    assert Pow256(2) == 256 * Pow256(1);
    assert Pow256(3) == 256 * Pow256(2);
    assert Pow256(4) == 256 * Pow256(3);
    assert Pow256(5) == 256 * Pow256(4);
    assert Pow256(6) == 256 * Pow256(5);
    assert Pow256(7) == 256 * Pow256(6);
    assert Pow256(8) == 256 * Pow256(7);
  }

  /** The unsigned value of a little-endian byte string. */
  function FromLE(bs: seq<byte>): (n: nat)
    ensures n < Pow256(|bs|)
  {
    if |bs| == 0 then 0 else bs[0] + 256 * FromLE(bs[1..])
  }

  /** The low w bytes of n, least significant first; this is also what a
      narrowing cast followed by BitConverter.GetBytes produces. */
  function ToLE(n: nat, w: nat): (bs: seq<byte>)
    ensures |bs| == w
  {
    if w == 0 then [] else [n % 256] + ToLE(n / 256, w - 1)
  }

  /** Writing then reading w bytes keeps exactly n modulo 256^w: the
      narrowing cast truncates, and nothing else is lost. */
  lemma {:induction false} ToLETruncates(n: nat, w: nat)
    ensures FromLE(ToLE(n, w)) == n % Pow256(w)
  {
    if w > 0 {
      var bs := ToLE(n, w);
      assert bs[1..] == ToLE(n / 256, w - 1);
      ToLETruncates(n / 256, w - 1);
      DivModStep(n, Pow256(w - 1));
    }
  }

  lemma DivModStep(n: nat, p: nat)
    requires p >= 1
    ensures n % 256 + 256 * ((n / 256) % p) == n % (256 * p)
  {
    var q := n / 256;
    var r := n % 256;
    var q2 := q / p;
    var r2 := q % p;
    calc {
      n;
      256 * q + r;
      256 * (p * q2 + r2) + r;
      { assert 256 * (p * q2) == (256 * p) * q2; }
      (256 * p) * q2 + (256 * r2 + r);
    }
    assert 256 * r2 <= 256 * (p - 1) by { MulMono(r2, p - 1); }
    ModUnique(n, 256 * p, q2, 256 * r2 + r);
  }

  lemma MulMono(a: nat, b: nat)
    requires a <= b
    ensures 256 * a <= 256 * b
  {
  }

  /** Euclidean division has a unique remainder. */
  lemma ModUnique(n: nat, d: nat, q: nat, r: nat)
    requires d > 0 && r < d && n == d * q + r
    ensures n % d == r
  {
    var q' := n / d;
    var r' := n % d;
    assert d * q' + r' == d * q + r;
    if q' < q {
      MulGap(d, q, q');
    } else if q' > q {
      MulGap(d, q', q);
    }
  }

  lemma MulGap(d: nat, a: nat, b: nat)
    requires a > b
    ensures d * a >= d * b + d
  {
    assert d * a == d * b + d * (a - b);
    assert d * (a - b) == d * (a - b - 1) + d;
  }

  /** A value that fits in w bytes survives the round trip unchanged. */
  lemma LERoundTrip(n: nat, w: nat)
    requires n < Pow256(w)
    ensures FromLE(ToLE(n, w)) == n
  {
    ToLETruncates(n, w);
  }

  /** Reading then writing a byte string gives it back. */
  lemma {:induction false} LEBytesRoundTrip(bs: seq<byte>)
    ensures ToLE(FromLE(bs), |bs|) == bs
  {
    if |bs| > 0 {
      var n := FromLE(bs);
      assert n % 256 == bs[0];
      assert n / 256 == FromLE(bs[1..]);
      LEBytesRoundTrip(bs[1..]);
    }
  }
}
