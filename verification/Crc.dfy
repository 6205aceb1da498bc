/**
 The reflected CRC-32 of kernel/src/fs/gpt.rs. A 32-bit register is a natural number below
 2^32; exclusive or is defined bit by bit, so no machine words are needed in the proofs.
 */
module Crc {
  import opened Bytes

  const POLY: nat := 0xEDB8_8320
  const ONES: nat := 0xFFFF_FFFF

  // ---------- Exclusive or ----------

  function Xor(a: nat, b: nat): nat
    decreases a + b
  {
    if a == 0 && b == 0 then 0 else (if a % 2 == b % 2 then 0 else 1) + 2 * Xor(a / 2, b / 2)
  }

  lemma {:induction false} XorZero(a: nat)
    ensures Xor(a, 0) == a && Xor(0, a) == a
    decreases a
  {
    if a > 0 {
      XorZero(a / 2);
    }
  }

  lemma {:induction false} XorComm(a: nat, b: nat)
    ensures Xor(a, b) == Xor(b, a)
    decreases a + b
  {
    if a > 0 || b > 0 {
      XorComm(a / 2, b / 2);
    }
  }

  lemma {:induction false} XorAssoc(a: nat, b: nat, c: nat)
    ensures Xor(Xor(a, b), c) == Xor(a, Xor(b, c))
    decreases a + b + c
  {
    if a > 0 || b > 0 || c > 0 {
      XorAssoc(a / 2, b / 2, c / 2);
      XorHalves(a, b);
      XorHalves(b, c);
      XorHalves(Xor(a, b), c);
      XorHalves(a, Xor(b, c));
      var x, y := Xor(Xor(a, b), c), Xor(a, Xor(b, c));
      assert x / 2 == y / 2 && x % 2 == y % 2;
    }
  }

  lemma XorHalves(a: nat, b: nat)
    ensures Xor(a, b) % 2 == if a % 2 == b % 2 then 0 else 1
    ensures Xor(a, b) / 2 == Xor(a / 2, b / 2)
  {
  }

  lemma {:induction false} XorSelf(a: nat)
    ensures Xor(a, a) == 0
    decreases a
  {
    if a > 0 {
      XorSelf(a / 2);
    }
  }

  lemma XorCancel(a: nat, b: nat, c: nat)
    requires Xor(a, c) == Xor(b, c)
    ensures a == b
  {
    XorAssoc(a, c, c);
    XorAssoc(b, c, c);
    XorSelf(c);
    XorZero(a);
    XorZero(b);
  }

  function Pow2(k: nat): (p: nat)
    ensures p > 0
  {
    if k == 0 then 1 else 2 * Pow2(k - 1)
  }

  lemma {:induction false} XorBound(a: nat, b: nat, k: nat)
    requires a < Pow2(k) && b < Pow2(k)
    ensures Xor(a, b) < Pow2(k)
    decreases k
  {
    if k > 0 {
      XorBound(a / 2, b / 2, k - 1);
    }
  }

  lemma PowHalf(k: nat)
    requires k > 0
    ensures Pow2(k) == 2 * Pow2(k - 1)
  {
  }

  /** Below a shifted word there is nothing to carry: exclusive or is addition. */
  lemma {:induction false} XorDisjoint(a: nat, w: nat, k: nat)
    requires a < Pow2(k)
    ensures Xor(a, Pow2(k) * w) == a + Pow2(k) * w
    decreases k
  {
    hide Xor;
    if k == 0 {
      XorZero(w);
    } else {
      PowHalf(k);
      XorDisjoint(a / 2, w, k - 1);
      XorDoubled(a, Pow2(k - 1) * w);
      assert Pow2(k) * w == 2 * (Pow2(k - 1) * w);
    }
  }

  lemma XorDoubled(a: nat, p: nat)
    requires Xor(a / 2, p) == a / 2 + p
    ensures Xor(a, 2 * p) == a + 2 * p
  {
    hide Xor;
    XorHalves(a, 2 * p);
    assert 2 * p / 2 == p && 2 * p % 2 == 0;
  }

  // ---------- The register ----------

  /** One turn of the inner loop. */
  function BitStep(crc: nat): nat {
    if crc % 2 != 0 then Xor(crc / 2, POLY) else crc / 2
  }

  function Steps(crc: nat, n: nat): nat
    decreases n
  {
    if n == 0 then crc else Steps(BitStep(crc), n - 1)
  }

  /** One turn of the outer loop: fold a byte in, then eight bit steps. */
  function ByteStep(crc: nat, b: byte): nat {
    Steps(Xor(crc, b), 8)
  }

  function Update(crc: nat, data: seq<byte>): nat
    decreases |data|
  {
    if data == [] then crc else Update(ByteStep(crc, data[0]), data[1..])
  }

  function Crc32(data: seq<byte>): (c: nat)
    ensures c < U32_LIMIT
  {
    UpdateRange(ONES, data);
    ONES - Update(ONES, data)
  }

  lemma PolyRange()
    ensures Pow2(31) <= POLY < Pow2(32) && Pow2(32) == ONES + 1
  {
    assert Pow2(8) == 256;
    assert Pow2(16) == 0x1_0000 by { StepPow(8, 8); }
    assert Pow2(24) == 0x100_0000 by { StepPow(16, 8); }
    assert Pow2(31) == 0x8000_0000 by { assert Pow2(7) == 128; StepPow(24, 7); }
  }

  lemma {:induction false} StepPow(a: nat, b: nat)
    ensures Pow2(a + b) == Pow2(a) * Pow2(b)
    decreases b
  {
    if b > 0 {
      StepPow(a, b - 1);
      assert Pow2(a + b) == 2 * Pow2(a + (b - 1));
    }
  }

  lemma BitStepRange(crc: nat)
    requires crc <= ONES
    ensures BitStep(crc) <= ONES
  {
    PolyRange();
    XorBound(crc / 2, POLY, 32);
  }

  lemma {:induction false} StepsRange(crc: nat, n: nat)
    requires crc <= ONES
    ensures Steps(crc, n) <= ONES
    decreases n
  {
    if n > 0 {
      BitStepRange(crc);
      StepsRange(BitStep(crc), n - 1);
    }
  }

  lemma ByteStepRange(crc: nat, b: byte)
    requires crc <= ONES
    ensures Xor(crc, b) <= ONES && ByteStep(crc, b) <= ONES
  {
    PolyRange();
    XorBound(crc, b, 32);
    StepsRange(Xor(crc, b), 8);
  }

  lemma {:induction false} UpdateRange(crc: nat, data: seq<byte>)
    requires crc <= ONES
    ensures Update(crc, data) <= ONES
    decreases |data|
  {
    if data != [] {
      ByteStepRange(crc, data[0]);
      UpdateRange(ByteStep(crc, data[0]), data[1..]);
    }
  }

  /** `crc32_update`: the two nested loops compute `Update`. */
  method UpdateLoop(start: nat, data: seq<byte>) returns (crc: nat)
    ensures crc == Update(start, data)
  {
    crc := start;
    for i := 0 to |data|
      invariant Update(start, data) == Update(crc, data[i..])
    {
      ghost var before := crc;
      crc := Xor(crc, data[i]);
      for k := 0 to 8
        invariant Steps(Xor(before, data[i]), 8) == Steps(crc, 8 - k)
      {
        crc := if crc % 2 != 0 then Xor(crc / 2, POLY) else crc / 2;
      }
      assert data[i..][1..] == data[i + 1..];
    }
  }

  /** Streaming: feeding `a` and then `b` is feeding `a + b`. */
  lemma {:induction false} UpdateStreams(crc: nat, a: seq<byte>, b: seq<byte>)
    ensures Update(Update(crc, a), b) == Update(crc, a + b)
    decreases |a|
  {
    if a == [] {
      assert a + b == b;
    } else {
      UpdateStreams(ByteStep(crc, a[0]), a[1..], b);
      assert (a + b)[1..] == a[1..] + b;
    }
  }

  // ---------- Error detection ----------

  /** The polynomial's top bit marks which branch was taken, so a bit step can be undone. */
  lemma BitStepInjective(x: nat, y: nat)
    requires x <= ONES && y <= ONES && BitStep(x) == BitStep(y)
    ensures x == y
  {
    PolyRange();
    var a, b := x / 2, y / 2;
    if x % 2 == y % 2 {
      if x % 2 != 0 {
        XorCancel(a, b, POLY);
      }
    } else {
      assert Pow2(32) == 2 * Pow2(31);
      XorBound(a, b, 31);
      var lo, hi := if x % 2 != 0 then b else a, if x % 2 != 0 then a else b;
      XorAssoc(hi, hi, POLY);
      XorSelf(hi);
      XorZero(POLY);
      XorComm(a, b);
      assert Xor(hi, lo) == POLY;
      assert false;
    }
  }

  lemma {:induction false} StepsInjective(x: nat, y: nat, n: nat)
    requires x <= ONES && y <= ONES && Steps(x, n) == Steps(y, n)
    ensures x == y
    decreases n
  {
    if n > 0 {
      BitStepRange(x);
      BitStepRange(y);
      StepsInjective(BitStep(x), BitStep(y), n - 1);
      BitStepInjective(x, y);
    }
  }

  /** A bit step only shifts what was folded in above the lowest bit. */
  lemma BitStepShifts(x: nat, w: nat)
    ensures BitStep(Xor(x, 2 * w)) == Xor(BitStep(x), w)
  {
    XorHalves(x, 2 * w);
    assert (2 * w) % 2 == 0 && (2 * w) / 2 == w;
    if x % 2 != 0 {
      assert BitStep(Xor(x, 2 * w)) == Xor(Xor(x / 2, w), POLY);
      XorAssoc(x / 2, w, POLY);
      XorComm(w, POLY);
      XorAssoc(x / 2, POLY, w);
    }
  }

  lemma {:induction false} StepsShift(x: nat, w: nat, k: nat)
    ensures Steps(Xor(x, Pow2(k) * w), k) == Xor(Steps(x, k), w)
    decreases k
  {
    if k > 0 {
      assert Pow2(k) * w == 2 * (Pow2(k - 1) * w);
      BitStepShifts(x, Pow2(k - 1) * w);
      StepsShift(BitStep(x), w, k - 1);
    } else {
      assert Pow2(0) * w == w;
    }
  }

  lemma {:induction false} StepsAdd(x: nat, m: nat, n: nat)
    ensures Steps(Steps(x, m), n) == Steps(x, m + n)
    decreases m
  {
    if m > 0 {
      StepsAdd(BitStep(x), m - 1, n);
    }
  }

  lemma FoldByte(crc: nat, b: byte, w: nat, n: nat)
    ensures Steps(Xor(crc, b + 256 * w), 8 + n) == Steps(Xor(ByteStep(crc, b), w), n)
  {
    assert Pow2(8) == 256;
    XorDisjoint(b, w, 8);
    XorAssoc(crc, b, 256 * w);
    StepsShift(Xor(crc, b), w, 8);
    StepsAdd(Xor(crc, b + 256 * w), 8, n);
  }

  /** Consecutive bytes enter the register as a single exclusive or with their little-endian value. */
  lemma {:induction false} UpdateFolds(crc: nat, s: seq<byte>)
    ensures Update(crc, s) == Steps(Xor(crc, FromLe(s)), 8 * |s|)
    decreases |s|
  {
    hide Xor, BitStep;
    if s == [] {
      XorZero(crc);
    } else {
      var b, w := s[0], FromLe(s[1..]);
      var n := 8 * |s[1..]|;
      FoldByte(crc, b, w, n);
      UpdateFolds(ByteStep(crc, b), s[1..]);
      assert FromLe(s) == b + 256 * w && 8 * |s| == 8 + n;
    }
  }

  lemma {:induction false} FromLeInjective(s: seq<byte>, t: seq<byte>)
    requires |s| == |t| && FromLe(s) == FromLe(t)
    ensures s == t
    decreases |s|
  {
    if s != [] {
      FromLeInjective(s[1..], t[1..]);
      assert s == [s[0]] + s[1..] && t == [t[0]] + t[1..];
    }
  }

  lemma {:induction false} FromLeBound(s: seq<byte>)
    ensures FromLe(s) < Pow256(|s|)
    decreases |s|
  {
    if s != [] {
      FromLeBound(s[1..]);
    }
  }

  lemma WindowFits(s: seq<byte>)
    requires |s| <= 4
    ensures FromLe(s) <= ONES
  {
    FromLeBound(s);
    assert Pow256(0) == 1 && Pow256(1) == 256 && Pow256(2) == 65536 && Pow256(3) == 0x100_0000;
    PowValues();
  }

  /** Once two registers differ, common bytes cannot make them equal again. */
  lemma {:induction false} UpdateInjective(x: nat, y: nat, s: seq<byte>)
    requires x <= ONES && y <= ONES && Update(x, s) == Update(y, s)
    ensures x == y
    decreases |s|
  {
    if s != [] {
      ByteStepRange(x, s[0]);
      ByteStepRange(y, s[0]);
      UpdateInjective(ByteStep(x, s[0]), ByteStep(y, s[0]), s[1..]);
      StepsInjective(Xor(x, s[0]), Xor(y, s[0]), 8);
      XorCancel(x, y, s[0]);
    }
  }

  /** Two messages that differ, but only inside four consecutive bytes, never share a checksum. */
  lemma BurstDetected(prefix: seq<byte>, a: seq<byte>, b: seq<byte>, suffix: seq<byte>)
    requires |a| == |b| <= 4 && a != b
    ensures Crc32(prefix + a + suffix) != Crc32(prefix + b + suffix)
  {
    var r := Update(ONES, prefix);
    UpdateRange(ONES, prefix);
    UpdateRange(r, a);
    UpdateRange(r, b);
    UpdateStreams(ONES, prefix, a);
    UpdateStreams(ONES, prefix, b);
    UpdateStreams(ONES, prefix + a, suffix);
    UpdateStreams(ONES, prefix + b, suffix);
    if Crc32(prefix + a + suffix) == Crc32(prefix + b + suffix) {
      UpdateInjective(Update(r, a), Update(r, b), suffix);
      SameWindow(r, a, b);
      assert false;
    }
  }

  lemma SameWindow(r: nat, a: seq<byte>, b: seq<byte>)
    requires r <= ONES && |a| == |b| <= 4 && Update(r, a) == Update(r, b)
    ensures a == b
  {
    UpdateFolds(r, a);
    UpdateFolds(r, b);
    WindowFits(a);
    WindowFits(b);
    PolyRange();
    XorBound(r, FromLe(a), 32);
    XorBound(r, FromLe(b), 32);
    StepsInjective(Xor(r, FromLe(a)), Xor(r, FromLe(b)), 8 * |a|);
    XorComm(r, FromLe(a));
    XorComm(r, FromLe(b));
    XorCancel(FromLe(a), FromLe(b), r);
    FromLeInjective(a, b);
  }
}
