/** Packing of 32-bit integers into four bytes, least significant byte first,
    the way the encoder splits a value with shifts and `(char)` casts. */
module LittleEndian {
  import opened Colors

  const Two32: int := 0x1_0000_0000

  /** The byte `(unsigned char)(n >> (8 * k))`. An arithmetic right shift is
      division rounding down, which is what Dafny's `/` does for a positive
      divisor, and the cast keeps the remainder modulo 256. */
  function ByteOf(n: int, k: nat): (b: byte)
    requires k < 4
  {
    if k == 0 then n % 0x100
    else if k == 1 then (n / 0x100) % 0x100
    else if k == 2 then (n / 0x1_0000) % 0x100
    else (n / 0x100_0000) % 0x100
  }

  /** The four bytes of `n`, least significant first. */
  function LE32(n: int): (bs: seq<byte>)
    ensures |bs| == 4
  {
    [ByteOf(n, 0), ByteOf(n, 1), ByteOf(n, 2), ByteOf(n, 3)]
  }

  /** Reads four bytes, least significant first, as an unsigned number. */
  function DecodeLE32(bs: seq<byte>): (n: int)
    requires |bs| == 4
    ensures 0 <= n < Two32
  {
    bs[0] as int + 0x100 * (bs[1] as int + 0x100 * (bs[2] as int + 0x100 * bs[3] as int))
  }

  /** Reading back the four bytes written for `n` gives `n` modulo 2^32:
      exactly `n` for every value that fits in 32 unsigned bits. */
  lemma LE32RoundTrip(n: int)
    ensures DecodeLE32(LE32(n)) == n % Two32
    ensures 0 <= n < Two32 ==> DecodeLE32(LE32(n)) == n
  {
    var q1 := n / 0x100;
    var q2 := q1 / 0x100;
    var q3 := q2 / 0x100;
    DivDiv(n, 0x100, 0x100);
    DivDiv(n, 0x1_0000, 0x100);
    assert n / 0x1_0000 == q2;
    assert n / 0x100_0000 == q3;
    assert n == n % 0x100 + 0x100 * q1;
    assert q1 == q1 % 0x100 + 0x100 * q2;
    assert q2 == q2 % 0x100 + 0x100 * q3;
    assert q3 == q3 % 0x100 + 0x100 * (q3 / 0x100);
    DivDiv(n, 0x100_0000, 0x100);
    assert n == DecodeLE32(LE32(n)) + Two32 * (q3 / 0x100);
  }

  /** Writing back the value read from four bytes gives the same four
      bytes: a four-byte field holds exactly one value in 0 .. 2^32-1. */
  lemma DecodeLE32RoundTrip(bs: seq<byte>)
    requires |bs| == 4
    ensures LE32(DecodeLE32(bs)) == bs
  {
    var n := DecodeLE32(bs);
    var t2 := bs[2] as int + 0x100 * bs[3] as int;
    var t1 := bs[1] as int + 0x100 * t2;
    DivUnique(n, 0x100, t1, bs[0] as int);
    DivUnique(t1, 0x100, t2, bs[1] as int);
    DivUnique(t2, 0x100, bs[3] as int, bs[2] as int);
    DivDiv(n, 0x100, 0x100);
    DivDiv(n, 0x1_0000, 0x100);
    assert n / 0x1_0000 == t2;
    assert n / 0x100_0000 == bs[3] as int;
  }

  /** Dividing twice is dividing by the product. */
  lemma DivDiv(n: int, a: int, b: int)
    requires 0 < a && 0 < b
    ensures n / a / b == n / (a * b)
  {
    var q := n / a / b;
    var r := n / a % b;
    var s := n % a;
    assert n == a * (n / a) + s;
    assert n / a == b * q + r;
    assert n == (a * b) * q + (a * r + s) by {
      assert a * (b * q + r) == (a * b) * q + a * r;
    }
    assert 0 <= a * r + s < a * b by {
      assert a * r <= a * (b - 1);
    }
    DivUnique(n, a * b, q, a * r + s);
  }

  /** The quotient is fixed by `n == d * q + r` with `0 <= r < d`. */
  lemma DivUnique(n: int, d: int, q: int, r: int)
    requires 0 < d && 0 <= r < d && n == d * q + r
    ensures n / d == q
  {
    var q' := n / d;
    var r' := n % d;
    assert d * q + r == d * q' + r';
    if q < q' {
      assert d * (q' - q) == d * q' - d * q;
      MulAtLeast(d, q' - q);
    } else if q > q' {
      assert d * (q - q') == d * q - d * q';
      MulAtLeast(d, q - q');
    }
  }

  lemma MulAtLeast(d: int, k: int)
    requires 0 < d && 1 <= k
    ensures d * k >= d
  {
    assert d * k == d * (k - 1) + d;
  }
}
