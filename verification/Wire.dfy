// Fixed-width integers as bytes: big-endian on the network and in the allocation file (Appendix B
// of RFC 791), host order in the metadata file.
module Wire {
  import opened Bytes

  const U32: nat := 0x1_0000_0000
  const U64: nat := 0x1_0000_0000_0000_0000

  function Pow256(n: nat): (p: nat)
    ensures p > 0
  {
    if n == 0 then 1 else 256 * Pow256(n - 1)
  }

  lemma Widths()
    ensures Pow256(4) == U32 && Pow256(8) == U64
  {
    assert Pow256(2) == 0x1_0000;
    assert Pow256(4) == U32;
    assert Pow256(6) == 0x1_0000_0000_0000;
  }

  /** The low `width` bytes of v, most significant first. */
  function BigEndian(v: nat, width: nat): (s: seq<byte>)
    ensures |s| == width
  {
    if width == 0 then [] else BigEndian(v / 256, width - 1) + [v % 256]
  }

  function FromBigEndian(s: seq<byte>): nat {
    if s == [] then 0 else FromBigEndian(s[..|s| - 1]) * 256 + s[|s| - 1]
  }

  lemma {:induction false} BigEndianRoundTrip(v: nat, width: nat)
    requires v < Pow256(width)
    ensures FromBigEndian(BigEndian(v, width)) == v
  {
    if width > 0 {
      BigEndianRoundTrip(v / 256, width - 1);
      assert BigEndian(v, width)[..width - 1] == BigEndian(v / 256, width - 1);
    }
  }

  /** Byte i of an integer on the wire: the most significant one comes first. */
  lemma {:induction false} BigEndianDigit(v: nat, width: nat, i: nat)
    requires i < width
    ensures BigEndian(v, width)[i] == v / Pow256(width - 1 - i) % 256
  {
    if i < width - 1 {
      BigEndianDigit(v / 256, width - 1, i);
      DivideTwice(v, Pow256(width - 2 - i));
    }
  }

  lemma DivideTwice(v: nat, p: nat)
    requires p > 0
    ensures v / 256 / p == v / (256 * p)
  {
    var q := v / 256;
    var k, j := q / p, q % p;
    assert v == 256 * p * k + (256 * j + v % 256) by {
      assert q == p * k + j;
    }
    assert 256 * j + v % 256 < 256 * p;
    QuotientOf(v, 256 * p, k, 256 * j + v % 256);
  }

  lemma QuotientOf(v: nat, d: nat, k: nat, r: nat)
    requires r < d && v == d * k + r
    ensures v / d == k
  {
    var q := v / d;
    if q < k {
      TimesMonotone(d, q + 1, k);
    } else if q > k {
      TimesMonotone(d, k + 1, q);
    }
  }

  lemma TimesMonotone(d: nat, a: nat, b: nat)
    requires a <= b
    ensures d * a <= d * b
  {
  }

  /** Its value: the first byte weighs most. */
  lemma {:induction false} FromBigEndianFirst(s: seq<byte>)
    requires s != []
    ensures FromBigEndian(s) == s[0] * Pow256(|s| - 1) + FromBigEndian(s[1..])
  {
    var n := |s| - 1;
    if n > 0 {
      var t, p := s[..n], Pow256(n - 1);
      FromBigEndianFirst(t);
      assert s[1..][..n - 1] == t[1..];
      FirstTimes256(s[0], p, FromBigEndian(t[1..]));
    }
  }

  lemma FirstTimes256(first: nat, p: nat, rest: nat)
    ensures (first * p + rest) * 256 == first * (256 * p) + rest * 256
  {
  }

  /** s is v, most significant byte first. */
  ghost predicate MostSignificantFirst(s: seq<byte>, v: nat) {
    forall i | 0 <= i < |s| :: s[i] == v / Pow256(|s| - 1 - i) % 256
  }

  /** s is v, least significant byte first. */
  ghost predicate LeastSignificantFirst(s: seq<byte>, v: nat) {
    forall i | 0 <= i < |s| :: s[i] == v / Pow256(i) % 256
  }

  lemma BigEndianDigits(v: nat, width: nat)
    ensures MostSignificantFirst(BigEndian(v, width), v)
  {
    forall i | 0 <= i < width
      ensures BigEndian(v, width)[i] == v / Pow256(width - 1 - i) % 256
    {
      BigEndianDigit(v, width, i);
    }
  }

  datatype ByteOrder = Big | Little

  /** An integer of `width` bytes as the host lays it out in memory. */
  function HostBytes(order: ByteOrder, v: nat, width: nat): (s: seq<byte>)
    ensures |s| == width
  {
    if order == Big then BigEndian(v, width) else Reversed(BigEndian(v, width))
  }

  function FromHostBytes(order: ByteOrder, s: seq<byte>): nat {
    if order == Big then FromBigEndian(s) else FromBigEndian(Reversed(s))
  }

  function Reversed(s: seq<byte>): (r: seq<byte>)
    ensures |r| == |s| && forall i | 0 <= i < |s| :: r[i] == s[|s| - 1 - i]
  {
    seq(|s|, i requires 0 <= i < |s| => s[|s| - 1 - i])
  }

  /** An integer in memory: a little-endian host has the least significant byte first. */
  lemma HostDigits(order: ByteOrder, v: nat, width: nat)
    ensures var s := HostBytes(order, v, width);
            if order == Little then LeastSignificantFirst(s, v) else MostSignificantFirst(s, v)
  {
    BigEndianDigits(v, width);
    hide BigEndian;
  }

  lemma HostRoundTrip(order: ByteOrder, v: nat, width: nat)
    requires v < Pow256(width)
    ensures FromHostBytes(order, HostBytes(order, v, width)) == v
  {
    BigEndianRoundTrip(v, width);
    assert Reversed(Reversed(BigEndian(v, width))) == BigEndian(v, width);
  }
}
