/**
 The checksum of kernel/src/fs/gpt.rs as polynomial division: with the bits of a number as coefficients over the
 field of two elements, highest power
 in bit 0, the register is the remainder by the generator of IEEE 802.3, whose 33 coefficients are 0x1_DB71_0641.
 */
module CrcRemainder {
  import opened Bytes
  import opened Crc

  /** Multiplication without carries: exclusive or of `g` shifted to every set bit of `q`. */
  function Times(q: nat, g: nat): nat {
    if q == 0 then 0 else Xor(if q % 2 == 1 then g else 0, 2 * Times(q / 2, g))
  }

  lemma XorDouble(a: nat, b: nat)
    ensures Xor(2 * a, 2 * b) == 2 * Xor(a, b)
  {
    hide Xor;
    XorHalves(2 * a, 2 * b);
    assert 2 * a / 2 == a && 2 * b / 2 == b;
  }

  /** One bit step divides by two what is left after the generator is taken off an odd number. */
  lemma StepMeaning(n: nat)
    ensures n == Xor(if n % 2 == 1 then 0x1_DB71_0641 else 0, 2 * BitStep(n))
  {
    hide Xor;
    if n % 2 == 1 {
      XorDouble(n / 2, POLY);
      GeneratorBits();
      XorAssoc(0x1_DB71_0641, 2 * POLY, 2 * (n / 2));
      XorComm(2 * POLY, 2 * (n / 2));
      XorOne(n / 2);
    } else {
      XorZero(n);
    }
  }

  lemma GeneratorBits()
    ensures Xor(0x1_DB71_0641, 2 * POLY) == 1
  {
    var k := POLY;
    assert 0x1_DB71_0641 == 2 * k + 1;
    XorComm(2 * k + 1, 2 * k);
    XorHalves(2 * k + 1, 2 * k);
    XorSelf(k);
  }

  lemma XorOne(k: nat)
    ensures Xor(1, 2 * k) == 2 * k + 1
  {
    XorHalves(1, 2 * k);
    XorZero(k);
  }

  /** Division: `r` is what remains of `n` after `k` steps, and `q` holds the steps that took the generator off. */
  ghost predicate Divides(n: nat, k: nat, q: nat, r: nat) {
    q < Pow2(k) && n == Xor(Times(q, 0x1_DB71_0641), Pow2(k) * r)
  }

  ghost predicate IsRemainder(n: nat, k: nat, r: nat) {
    exists q: nat :: Divides(n, k, q, r)
  }

  lemma {:induction false} StepsDivide(n: nat, k: nat) returns (q: nat)
    ensures Divides(n, k, q, Steps(n, k))
    decreases k
  {
    hide Xor, BitStep;
    if k == 0 {
      q := 0;
      XorZero(n);
    } else {
      var m := BitStep(n);
      var r := Steps(n, k);
      var p := StepsDivide(m, k - 1);
      q := 2 * p + n % 2;
      StepMeaning(n);
      var g, t, s := if n % 2 == 1 then 0x1_DB71_0641 else 0, Times(p, 0x1_DB71_0641), Pow2(k - 1) * r;
      XorDouble(t, s);
      XorAssoc(g, 2 * t, 2 * s);
      assert 2 * s == Pow2(k) * r;
      TimesNext(p, n % 2);
    }
  }

  lemma TimesNext(p: nat, b: nat)
    requires b < 2
    ensures Times(2 * p + b, 0x1_DB71_0641) == Xor(if b == 1 then 0x1_DB71_0641 else 0, 2 * Times(p, 0x1_DB71_0641))
  {
    hide Xor;
    assert (2 * p + b) / 2 == p && (2 * p + b) % 2 == b;
    if p == 0 && b == 0 {
      XorZero(0);
    }
  }

  /** There is one remainder only. */
  lemma {:induction false} OneRemainder(n: nat, k: nat, q: nat, r: nat)
    requires Divides(n, k, q, r)
    ensures r == Steps(n, k)
    decreases k
  {
    hide Xor, BitStep;
    if k == 0 {
      XorZero(r);
    } else {
      var p, b := q / 2, q % 2;
      TimesNext(p, b);
      var g, t, s := if b == 1 then 0x1_DB71_0641 else 0, Times(p, 0x1_DB71_0641), Pow2(k - 1) * r;
      assert Pow2(k) * r == 2 * s;
      XorAssoc(g, 2 * t, 2 * s);
      XorDouble(t, s);
      XorHalves(g, 2 * Xor(t, s));
      StepMeaning(n);
      XorComm(g, 2 * Xor(t, s));
      XorComm(g, 2 * BitStep(n));
      XorCancel(2 * Xor(t, s), 2 * BitStep(n), g);
      OneRemainder(BitStep(n), k - 1, p, r);
    }
  }

  /** A number is the checksum of a message exactly when its complement is the remainder of the message's bits,
      the first 32 of them complemented, by the generator. */
  lemma ChecksumIff(data: seq<byte>, c: nat)
    requires c <= 0xFFFF_FFFF
    ensures c == Crc32(data) <==> IsRemainder(Xor(0xFFFF_FFFF, FromLe(data)), 8 * |data|, 0xFFFF_FFFF - c)
  {
    hide Xor, Times, Steps, Update;
    var n, k := Xor(0xFFFF_FFFF, FromLe(data)), 8 * |data|;
    UpdateFolds(0xFFFF_FFFF, data);
    UpdateRange(ONES, data);
    var q := StepsDivide(n, k);
    var r: nat := 0xFFFF_FFFF - c;
    if IsRemainder(n, k, r) {
      var p: nat :| Divides(n, k, p, r);
      OneRemainder(n, k, p, r);
    }
  }
}
