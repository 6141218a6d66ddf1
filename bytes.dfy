/**
  Byte-level building blocks shared by Uuid7.cs and UuidGenerator.cs: the
  integer types of the C# code, the network (big-endian) byte order that
  `IPAddress.HostToNetworkOrder` + `BitConverter.GetBytes` produce and that
  `MemoryMarshal.Read` + `IPAddress.NetworkToHostOrder` consume,
  `Buffer.BlockCopy`, and LINQ's `SequenceEqual` on byte arrays.
 */
module Bytes {

  /** A C# `byte`. */
  type byte = bv8

  /** The byte whose unsigned value is `n`, built bit by bit. */
  function ToByte(n: int): (b: byte)
    requires 0 <= n < 256
    ensures b as int == n
  {
    if n == 0 then 0
    else
      var high := ToByte(n / 2);
      var low: byte := if n % 2 == 1 then 1 else 0;
      ShiftInBit(high, low);
      (high << 1) | low
  }

  lemma ShiftInBit(high: byte, low: byte)
    requires high < 128 && low < 2
    ensures ((high << 1) | low) as int == 2 * high as int + low as int
  {
  }

  /** A byte is determined by its unsigned value. */
  lemma ByteValueInjective(a: byte, b: byte)
    requires a as int == b as int
    ensures a == b
  {
  }

  const TWO_16: nat := 0x1_0000
  const TWO_32: nat := 0x1_0000_0000
  const TWO_47: nat := 0x8000_0000_0000
  const TWO_48: nat := 0x1_0000_0000_0000
  const TWO_64: nat := 0x1_0000_0000_0000_0000

  /** A C# `ulong`. */
  type u64 = x: int | 0 <= x < 0x1_0000_0000_0000_0000

  /** A C# `long`. */
  type i64 = x: int | -0x8000_0000_0000_0000 <= x < 0x8000_0000_0000_0000

  function Pow256(w: nat): (p: nat)
    ensures p > 0
  {
    if w == 0 then 1 else 256 * Pow256(w - 1)
  }

  /** The `w` low-order bytes of `v`, most significant first (network order). */
  function BigEndian(v: nat, w: nat): (s: seq<byte>)
    ensures |s| == w
  {
    if w == 0 then [] else BigEndian(v / 256, w - 1) + [ToByte(v % 256)]
  }

  /** The unsigned number that a network-order byte sequence denotes. */
  function BeValue(s: seq<byte>): nat
  {
    if s == [] then 0 else BeValue(s[..|s| - 1]) * 256 + s[|s| - 1] as nat
  }

  /** A value of `w` bytes is below `256^w`. */
  lemma {:induction false} BeValueBound(s: seq<byte>)
    ensures BeValue(s) < Pow256(|s|)
  {
    if s != [] {
      var n := |s|;
      BeValueBound(s[..n - 1]);
      ShiftByte(1, Pow256(n - 1), 0, 0);
      assert BeValue(s) <= (Pow256(n - 1) - 1) * 256 + 255;
    }
  }

  /** Reinterprets the bits of a 16-bit value as a C# `short`. */
  function Int16(v: nat): (r: int)
    requires v < TWO_16
    ensures -0x8000 <= r < 0x8000
    ensures (r - v) % TWO_16 == 0
    ensures v < 0x8000 ==> r == v
  {
    if v < 0x8000 then v else v - TWO_16
  }

  /** The six bytes 0-5 of a UUID: `(short)(t >> 32)` then `(int)t`, each in network order. */
  function TimeBytes(t: int): (s: seq<byte>)
    ensures |s| == 6
  {
    BigEndian(t / TWO_32 % TWO_16, 2) + BigEndian(t % TWO_32, 4)
  }

  lemma {:induction false} MulAtLeast(d: int, n: int)
    requires d > 0 && n >= 1
    ensures d * n >= d
  {
    if n > 1 {
      MulAtLeast(d, n - 1);
      assert d * n == d * (n - 1) + d;
    }
  }

  /** Euclidean division is determined by its defining equation. */
  lemma ModOfMultiple(x: int, d: int, k: int, m: int)
    requires d > 0 && 0 <= m < d && x == d * k + m
    ensures x / d == k && x % d == m
  {
    var q, r := x / d, x % d;
    assert x == d * q + r;
    if k > q {
      assert d * (k - q) == d * k - d * q;
      MulAtLeast(d, k - q);
    } else if k < q {
      assert d * (q - k) == d * q - d * k;
      MulAtLeast(d, q - k);
    }
  }

  /** Taking `v` modulo `d * p` keeps the low digit `v % d` and the next `p` digits `v / d % p`. */
  lemma DivModNest(v: int, d: nat, p: nat)
    requires d > 0 && p > 0
    ensures (v / d % p) * d + v % d == v % (d * p)
  {
    var q := v / d;
    assert v == d * q + v % d;
    assert q == p * (q / p) + q % p;
    assert v == (d * p) * (q / p) + ((q % p) * d + v % d) by {
      assert d * q == d * (p * (q / p)) + d * (q % p);
    }
    assert 0 <= (q % p) * d + v % d < d * p by {
      assert (q % p) * d <= (p - 1) * d;
    }
    ModOfMultiple(v, d * p, q / p, (q % p) * d + v % d);
  }

  /** Decoding the network-order encoding gives back `v` modulo `256^w`. */
  lemma {:induction false} BeValueOfBigEndian(v: nat, w: nat)
    ensures BeValue(BigEndian(v, w)) == v % Pow256(w)
  {
    if w > 0 {
      var s := BigEndian(v, w);
      assert s[..w - 1] == BigEndian(v / 256, w - 1);
      BeValueOfBigEndian(v / 256, w - 1);
      DivModNest(v, 256, Pow256(w - 1));
    }
  }

  /** Encoding the value of a byte sequence in as many bytes gives back the sequence. */
  lemma {:induction false} BigEndianOfBeValue(s: seq<byte>)
    ensures BigEndian(BeValue(s), |s|) == s
  {
    if s != [] {
      var n := |s|;
      var init, last := s[..n - 1], s[n - 1];
      var v := BeValue(s);
      ModOfMultiple(v, 256, BeValue(init), last as int);
      ByteValueInjective(ToByte(v % 256), last);
      BigEndianOfBeValue(init);
      assert s == init + [last];
    }
  }

  lemma ShiftByte(x: int, p: int, y: int, l: int)
    ensures (x * p + y) * 256 + l == x * (256 * p) + (y * 256 + l)
  {
  }

  /** A network-order value splits at any byte boundary. */
  lemma {:induction false} BeValueAppend(a: seq<byte>, b: seq<byte>)
    ensures BeValue(a + b) == BeValue(a) * Pow256(|b|) + BeValue(b)
  {
    if b == [] {
      assert a + b == a;
    } else {
      var n := |b|;
      var init, last := b[..n - 1], b[n - 1];
      assert (a + b)[..|a + b| - 1] == a + init;
      BeValueAppend(a, init);
      ShiftByte(BeValue(a), Pow256(n - 1), BeValue(init), last as int);
    }
  }

  lemma Pow256Values()
    ensures Pow256(2) == TWO_16 && Pow256(4) == TWO_32
  {
  }

  /** Bytes 0-5 are the 48-bit network-order encoding of the timestamp. */
  lemma TimeBytesValue(t: int)
    ensures BeValue(TimeBytes(t)) == t % TWO_48
  {
    var hi, lo := t / TWO_32 % TWO_16, t % TWO_32;
    var high, low := BigEndian(hi, 2), BigEndian(lo, 4);
    assert TimeBytes(t) == high + low;
    BigEndianExact(hi, 2);
    BigEndianExact(lo, 4);
    HighLowValue(high, low);
    DivModNest(t, TWO_32, TWO_16);
  }

  /** A value that fits in `w` bytes is encoded without loss. */
  lemma BigEndianExact(v: nat, w: nat)
    requires v < Pow256(w)
    ensures BeValue(BigEndian(v, w)) == v
  {
    BeValueOfBigEndian(v, w);
  }

  lemma HighLowValue(high: seq<byte>, low: seq<byte>)
    requires |low| == 4
    ensures BeValue(high + low) == BeValue(high) * TWO_32 + BeValue(low)
  {
    Pow256Values();
    BeValueAppend(high, low);
  }

  /** The high and low parts of `TimeBytes`, read back as the parser reads them. */
  lemma TimeBytesParts(t: int)
    ensures BeValue(TimeBytes(t)[..2]) == t / TWO_32 % TWO_16
    ensures BeValue(TimeBytes(t)[2..]) == t % TWO_32
  {
    var hi, lo := t / TWO_32 % TWO_16, t % TWO_32;
    assert TimeBytes(t)[..2] == BigEndian(hi, 2);
    assert TimeBytes(t)[2..] == BigEndian(lo, 4);
    Pow256Values();
    BigEndianExact(hi, 2);
    BigEndianExact(lo, 4);
  }

  /** LINQ `SequenceEqual` on two byte arrays: same length, same bytes in order. */
  function SequenceEqual(a: seq<byte>, b: seq<byte>): (r: bool)
    ensures r <==> |a| == |b| && forall i :: 0 <= i < |a| ==> a[i] == b[i]
  {
    if |a| != |b| then false
    else if a == [] then true
    else a[0] == b[0] && SequenceEqual(a[1..], b[1..])
  }

  /**
    `Buffer.BlockCopy(src, srcOffset, dst, dstOffset, count)`: copies `count`
    bytes of `src` into `dst` from `dstOffset` on and leaves the rest of `dst` alone.
   */
  method BlockCopy(src: seq<byte>, srcOffset: nat, dst: array<byte>, dstOffset: nat, count: nat)
    requires srcOffset + count <= |src| && dstOffset + count <= dst.Length
    modifies dst
    ensures dst[..] == old(dst[..dstOffset]) + src[srcOffset..srcOffset + count] + old(dst[dstOffset + count..])
  {
    ghost var before := dst[..];
    var k := 0;
    while k < count
      invariant 0 <= k <= count
      invariant forall j :: 0 <= j < dst.Length ==>
        dst[j] == if dstOffset <= j < dstOffset + k then src[srcOffset + j - dstOffset] else before[j]
    {
      dst[dstOffset + k] := src[srcOffset + k];
      k := k + 1;
    }
    assert dst[..] == before[..dstOffset] + src[srcOffset..srcOffset + count] + before[dstOffset + count..];
  }
}
