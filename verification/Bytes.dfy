// Byte sequences, and the three vector operations the storage code applies to them.
module Bytes {

  type byte = b: int | 0 <= b < 256

  function Min(a: nat, b: nat): nat {
    if a <= b then a else b
  }

  /** A value-initialised std::vector<char> of n bytes. */
  function Zeros(n: nat): (z: seq<byte>)
    ensures |z| == n
    ensures forall i | 0 <= i < n :: z[i] == 0
  {
    seq(n, _ => 0)
  }

  /** s with the bytes of b copied over it, starting at position at. */
  function Splice(s: seq<byte>, at: nat, b: seq<byte>): (r: seq<byte>)
    requires at + |b| <= |s|
    ensures |r| == |s|
    ensures forall i | 0 <= i < |s| :: r[i] == if at <= i < at + |b| then b[i - at] else s[i]
  {
    s[..at] + b + s[at + |b|..]
  }

  /** s with the part of b that fits copied over it; nothing is copied past the end. */
  function Overlay(s: seq<byte>, at: nat, b: seq<byte>): (r: seq<byte>)
    ensures |r| == |s|
    ensures forall i | 0 <= i < |s| :: r[i] == if at <= i < at + |b| then b[i - at] else s[i]
  {
    if at >= |s| then s else Splice(s, at, b[..Min(|b|, |s| - at)])
  }

  /** std::vector::resize: truncates, or pads with zeros. */
  function Resize(s: seq<byte>, n: nat): (r: seq<byte>)
    ensures |r| == n
    ensures forall i | 0 <= i < n :: r[i] == if i < |s| then s[i] else 0
  {
    if n <= |s| then s[..n] else s + Zeros(n - |s|)
  }

  lemma AddAssociates(a: seq<byte>, b: seq<byte>, c: seq<byte>)
    ensures (a + b) + c == a + (b + c)
  {
  }

  /** The parts of a concatenation, found again by their lengths. */
  lemma Parts(a: seq<byte>, b: seq<byte>, c: seq<byte>)
    ensures var s := a + b + c;
            s[..|a|] == a && s[|a|..|a| + |b|] == b && s[|a| + |b|..] == c
  {
  }
}
