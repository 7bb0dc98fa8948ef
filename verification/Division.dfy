/** 64-bit long division (sw/device/lib/base/math.c). */
module Division {
  import opened Words

  /** `(a >> k) & 1` */
  function Bit(a: nat, k: nat): (b: nat)
    ensures b < 2
  {
    Shr(a, k) % 2
  }

  /** `udiv64_slow`: schoolbook long division in wrapping 64-bit words. After i rounds the first i
      bits of the dividend have been divided; the remainder never outgrows that prefix, so
      doubling it loses no bit even when b exceeds 2^63. */
  method Udiv64Slow(a: u64, b: u64) returns (quot: u64, rem: u64)
    ensures b > 0 ==> a == quot * b + rem && rem < b
    ensures b == 0 ==> quot == TWO_64 - 1 && rem == a
  {
    quot, rem := 0, 0;
    NothingDivided(a, b);
    hide Shr, Pow2, Bit, Divided;
    for i := 0 to 64
      invariant Divided(Shr(a, 64 - i), Pow2(i), b, quot, rem)
    {
      var bit := Bit(a, 63 - i);
      NextBit(a, i);
      RoundKeepsDivided(Shr(a, 64 - i), Pow2(i), b, quot, rem, bit);
      NothingLost(Shr(a, 64 - i), Pow2(i), b, quot, rem, bit);
      rem := rem * 2 % TWO_64;
      quot := quot * 2 % TWO_64;
      rem := rem + bit;
      if rem >= b {
        rem := rem - b;
        quot := quot + 1;
      }
    }
    AllDivided(a, b, quot, rem);
  }

  lemma {:induction false} NothingDivided(a: u64, b: u64)
    ensures Divided(Shr(a, 64), Pow2(0), b, 0, 0)
  {
    Pow2At64();
    ShrBound(a, 64, 0);
  }

  /** The prefix grows by one bit, and doubling a number below it stays within 64 bits. */
  lemma {:induction false} NextBit(a: u64, i: nat)
    requires i < 64
    ensures Shr(a, 64 - (i + 1)) == 2 * Shr(a, 64 - i) + Bit(a, 63 - i)
    ensures Pow2(i + 1) == 2 * Pow2(i) <= TWO_64
  {
    Pow2At64();
    Pow2Mono(i, 63);
    ShrNext(a, 63 - i);
  }

  /** Doubling quotient and remainder within the words loses no bit. */
  lemma {:induction false} NothingLost(prefix: nat, n: nat, b: nat, quot: nat, rem: nat, bit: nat)
    requires Divided(prefix, n, b, quot, rem) && bit < 2 && 2 * n <= TWO_64
    ensures rem * 2 % TWO_64 == 2 * rem && quot * 2 % TWO_64 == 2 * quot
    ensures 2 * rem + bit < TWO_64 && 2 * quot + 1 < TWO_64
  {
  }

  lemma {:induction false} AllDivided(a: u64, b: u64, quot: u64, rem: u64)
    requires Divided(Shr(a, 0), Pow2(64), b, quot, rem)
    ensures b > 0 ==> a == quot * b + rem && rem < b
    ensures b == 0 ==> quot == TWO_64 - 1 && rem == a
  {
    Pow2At64();
  }

  /** quot and rem divide the dividend's prefix, a number below n. */
  ghost predicate Divided(prefix: nat, n: nat, b: nat, quot: nat, rem: nat) {
    && quot < n
    && rem <= prefix < n
    && (b > 0 ==> prefix == quot * b + rem && rem < b)
    && (b == 0 ==> quot == n - 1 && rem == prefix)
  }

  lemma {:induction false} RoundKeepsDivided(prefix: nat, n: nat, b: nat, quot: nat, rem: nat, bit: nat)
    requires Divided(prefix, n, b, quot, rem) && bit < 2
    ensures 2 * rem + bit >= b ==> Divided(2 * prefix + bit, 2 * n, b, 2 * quot + 1, 2 * rem + bit - b)
    ensures 2 * rem + bit < b ==> Divided(2 * prefix + bit, 2 * n, b, 2 * quot, 2 * rem + bit)
  {
    assert 2 * (quot * b) == (2 * quot) * b;
    assert (2 * quot) * b + b == (2 * quot + 1) * b;
  }

  /** Division has one answer: the quotient and remainder returned are the mathematical ones. */
  lemma {:induction false} DivisionIsExact(a: u64, b: u64, quot: u64, rem: u64)
    requires b > 0 && a == quot * b + rem && rem < b
    ensures quot == a / b && rem == a % b
  {
    DivModUnique(a, b, quot, rem);
  }

  lemma {:induction false} Pow2Mono(i: nat, j: nat)
    requires i <= j
    ensures Pow2(i) <= Pow2(j)
  {
    if i < j {
      Pow2Mono(i, j - 1);
    }
  }

  lemma {:induction false} Pow2At64()
    ensures Pow2(63) == 0x8000_0000_0000_0000 && Pow2(64) == TWO_64
  {
    Pow2At32();
    Pow2Add(32, 32);
  }

  lemma {:induction false} ShrBound(n: nat, k: nat, w: nat)
    requires n < Pow2(k + w)
    ensures Shr(n, k) < Pow2(w)
  {
    if k != 0 {
      ShrBound(n / 2, k - 1, w);
    }
  }
}
