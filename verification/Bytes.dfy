/** Bytes, little-endian integers and in-place splices, shared by every module. */
module Bytes {

  type byte = x: int | 0 <= x < 256

  const U32_LIMIT: int := 0x1_0000_0000
  const U64_LIMIT: int := 0x1_0000_0000_0000_0000
  const I64_MAX: int := 0x7FFF_FFFF_FFFF_FFFF

  type u64 = x: int | 0 <= x < U64_LIMIT
  type i64 = x: int | -I64_MAX - 1 <= x <= I64_MAX

  datatype Option<+T> = None | Some(value: T)

  function Min(a: int, b: int): int {
    if a < b then a else b
  }

  function Max(a: int, b: int): int {
    if a < b then b else a
  }

  function Zeros(n: nat): (z: seq<byte>)
    ensures |z| == n && forall i :: 0 <= i < n ==> z[i] == 0
  {
    seq(n, _ => 0)
  }

  function Pow256(w: nat): (p: nat)
    ensures p > 0
  {
    if w == 0 then 1 else 256 * Pow256(w - 1)
  }

  /** The `w` low-order bytes of `n`, least significant first. */
  function ToLe(n: nat, w: nat): (s: seq<byte>)
    ensures |s| == w
  {
    if w == 0 then [] else [n % 256] + ToLe(n / 256, w - 1)
  }

  function FromLe(s: seq<byte>): nat {
    if s == [] then 0 else s[0] + 256 * FromLe(s[1..])
  }

  lemma {:induction false} LeRoundTrip(n: nat, w: nat)
    requires n < Pow256(w)
    ensures FromLe(ToLe(n, w)) == n
  {
    if w > 0 {
      LeRoundTrip(n / 256, w - 1);
      assert ToLe(n, w)[1..] == ToLe(n / 256, w - 1);
    }
  }

  lemma PowValues()
    ensures Pow256(4) == U32_LIMIT && Pow256(8) == U64_LIMIT
  {
    assert Pow256(1) == 256;
    assert Pow256(2) == 65536;
    assert Pow256(3) == 0x100_0000;
    assert Pow256(4) == U32_LIMIT;
    assert Pow256(5) == 256 * U32_LIMIT;
    assert Pow256(6) == 65536 * U32_LIMIT;
    assert Pow256(7) == 0x100_0000 * U32_LIMIT;
  }

  lemma Le64RoundTrip(n: nat)
    requires n < U64_LIMIT
    ensures FromLe(ToLe(n, 8)) == n
  {
    PowValues();
    LeRoundTrip(n, 8);
  }

  lemma Le32RoundTrip(n: nat)
    requires n < U32_LIMIT
    ensures FromLe(ToLe(n, 4)) == n
  {
    PowValues();
    LeRoundTrip(n, 4);
  }

  /** The first byte counts least. */
  lemma LeBytes(s: seq<byte>)
    ensures |s| == 4 ==> FromLe(s) == s[0] as int + 0x100 * s[1] as int + 0x1_0000 * s[2] as int + 0x100_0000 * s[3] as int
    ensures |s| == 8 ==> FromLe(s) == FromLe(s[..4]) + 0x1_0000_0000 * FromLe(s[4..])
  {
    if |s| == 4 {
      FourBytes(s, []);
      assert s == s + [];
    } else if |s| == 8 {
      assert s == s[..4] + s[4..];
      FourBytes(s[..4], s[4..]);
      FourBytes(s[..4], []);
      assert s[..4] == s[..4] + [];
    }
  }

  lemma FourBytes(s: seq<byte>, t: seq<byte>)
    requires |s| == 4
    ensures FromLe(s + t) == s[0] + 0x100 * s[1] + 0x1_0000 * s[2] + 0x100_0000 * s[3] + 0x1_0000_0000 * FromLe(t)
  {
    var u := s + t;
    assert u[1..][1..][1..][1..] == t;
    assert FromLe(u) == u[0] + 256 * FromLe(u[1..]);
    assert FromLe(u[1..]) == u[1] + 256 * FromLe(u[1..][1..]);
    assert FromLe(u[1..][1..]) == u[2] + 256 * FromLe(u[1..][1..][1..]);
    assert FromLe(u[1..][1..][1..]) == u[3] + 256 * FromLe(t);
  }

  /** `s` with `src` copied over the elements starting at `off`. */
  function Splice<T>(s: seq<T>, off: nat, src: seq<T>): (r: seq<T>)
    requires off + |src| <= |s|
    ensures |r| == |s|
    ensures forall i :: 0 <= i < |s| ==> r[i] == if off <= i < off + |src| then src[i - off] else s[i]
  {
    s[..off] + src + s[off + |src|..]
  }

  /** `dst[at..at + src.len()].copy_from_slice(src)`. */
  method CopyInto(dst: array<byte>, at: nat, src: seq<byte>)
    requires at + |src| <= dst.Length
    modifies dst
    ensures forall i :: 0 <= i < dst.Length ==> dst[i] == if at <= i < at + |src| then src[i - at] else old(dst[i])
  {
    forall i | 0 <= i < |src| {
      dst[at + i] := src[i];
    }
  }
}
