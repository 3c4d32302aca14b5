/** Key hashing of the YCSB benchmark on 64-bit words. */
module KeyHash {
  import opened Numbers

  type Word = x: int | 0 <= x < 0x1_0000_0000_0000_0000

  function Shr(x: nat, n: nat): nat {
    if n == 0 then x else Shr(x / 2, n - 1)
  }

  /** Exclusive or, bit by bit. */
  function Xor(a: nat, b: nat): nat {
    if a == 0 && b == 0 then 0 else (a % 2 + b % 2) % 2 + 2 * Xor(a / 2, b / 2)
  }

  lemma Pow2Of64()
    ensures Pow2(64) == 0x1_0000_0000_0000_0000
  {
    assert Pow2(8) == 256;
    assert Pow2(16) == 0x1_0000;
    assert Pow2(24) == 0x100_0000;
    assert Pow2(32) == 0x1_0000_0000;
    assert Pow2(40) == 0x100_0000_0000;
    assert Pow2(48) == 0x1_0000_0000_0000;
    assert Pow2(56) == 0x100_0000_0000_0000;
  }

  lemma {:induction false} XorBound(a: nat, b: nat, n: nat)
    requires a < Pow2(n) && b < Pow2(n)
    ensures Xor(a, b) < Pow2(n)
  {
    if n > 0 && (a > 0 || b > 0) {
      XorBound(a / 2, b / 2, n - 1);
    }
  }

  lemma {:induction false} XorZero(a: nat)
    ensures Xor(a, 0) == a == Xor(0, a)
  {
    if a > 0 {
      XorZero(a / 2);
    }
  }

  lemma {:induction false} XorSelf(a: nat)
    ensures Xor(a, a) == 0
  {
    if a > 0 {
      XorSelf(a / 2);
    }
  }

  lemma {:induction false} XorHalves(a: nat, b: nat)
    ensures Xor(a, b) % 2 == (a % 2 + b % 2) % 2 && Xor(a, b) / 2 == Xor(a / 2, b / 2)
  {
    var bit, rest := (a % 2 + b % 2) % 2, Xor(a / 2, b / 2);
    assert Xor(a, b) == bit + 2 * rest;
    OneBit(bit, rest);
  }

  lemma OneBit(bit: nat, rest: nat)
    requires bit < 2
    ensures (bit + 2 * rest) % 2 == bit && (bit + 2 * rest) / 2 == rest
  {
  }

  lemma {:induction false} XorAssoc(a: nat, b: nat, c: nat)
    ensures Xor(Xor(a, b), c) == Xor(a, Xor(b, c))
    decreases a + b + c
  {
    hide Xor;
    if a + b + c == 0 {
      XorZero(0);
    } else {
      XorHalves(a, b);
      XorHalves(b, c);
      XorHalves(Xor(a, b), c);
      XorHalves(a, Xor(b, c));
      XorAssoc(a / 2, b / 2, c / 2);
      BitAssoc(a % 2, b % 2, c % 2);
    }
  }

  lemma BitAssoc(a: nat, b: nat, c: nat)
    ensures ((a + b) % 2 + c) % 2 == (a + (b + c) % 2) % 2
  {
  }

  lemma {:induction false} ShrXor(a: nat, b: nat, n: nat)
    ensures Shr(Xor(a, b), n) == Xor(Shr(a, n), Shr(b, n))
    decreases n
  {
    if n > 0 {
      XorHalves(a, b);
      ShrXor(a / 2, b / 2, n - 1);
    }
  }

  lemma {:induction false} ShrShr(x: nat, m: nat, n: nat)
    ensures Shr(Shr(x, m), n) == Shr(x, m + n)
    decreases m
  {
    if m > 0 {
      ShrShr(x / 2, m - 1, n);
    }
  }

  lemma {:induction false} ShrOut(x: nat, n: nat, w: nat)
    requires x < Pow2(w) && w <= n
    ensures Shr(x, n) == 0
    decreases n
  {
    if n > 0 {
      if w == 0 {
        assert x == 0;
        ShrOut(0, n - 1, 0);
      } else {
        ShrOut(x / 2, n - 1, w - 1);
      }
    }
  }

  lemma {:induction false} ShrBound(x: nat, n: nat)
    ensures Shr(x, n) <= x
  {
    if n > 0 {
      ShrBound(x / 2, n - 1);
    }
  }

  /** `x ^= x >> n`. */
  function Fold(x: Word, n: nat): Word {
    FoldFits(x, n);
    Xor(x, Shr(x, n))
  }

  lemma FoldFits(x: Word, n: nat)
    ensures Xor(x, Shr(x, n)) < 0x1_0000_0000_0000_0000
  {
    Pow2Of64();
    ShrBound(x, n);
    XorBound(x, Shr(x, n), 64);
  }

  /** Undoes an xor-shift by more than a third of the word. */
  function Unfold(y: Word, n: nat): Word {
    FoldFits(y, n);
    UnfoldFits(y, n);
    Xor(Xor(y, Shr(y, n)), Shr(y, 2 * n))
  }

  lemma UnfoldFits(y: Word, n: nat)
    ensures Xor(Xor(y, Shr(y, n)), Shr(y, 2 * n)) < 0x1_0000_0000_0000_0000
  {
    FoldFits(y, n);
    Pow2Of64();
    ShrBound(y, 2 * n);
    XorBound(Xor(y, Shr(y, n)), Shr(y, 2 * n), 64);
  }

  /** a ^ b ^ b ^ c ^ c == a. */
  lemma Cancel(a: nat, b: nat, c: nat)
    ensures Xor(Xor(Xor(a, b), Xor(b, c)), c) == a
  {
    XorAssoc(a, b, Xor(b, c));
    XorAssoc(b, b, c);
    XorSelf(b);
    XorZero(c);
    XorAssoc(a, c, c);
    XorSelf(c);
    XorZero(a);
  }

  lemma FoldRoundTrip(x: Word, n: nat)
    requires 3 * n >= 64
    ensures Unfold(Fold(x, n), n) == x && Fold(Unfold(x, n), n) == x
  {
    hide Xor, Shr;
    var b, c := Shr(x, n), Shr(x, 2 * n);
    Pow2Of64();
    ShrOut(x, 3 * n, 64);
    ShrXor(x, b, n);
    ShrXor(x, b, 2 * n);
    ShrShr(x, n, n);
    ShrShr(x, n, 2 * n);
    ShrShr(x, 2 * n, n);
    XorZero(c);
    Cancel(x, b, c);
    ShrXor(Xor(x, b), c, n);
    assert Unfold(Fold(x, n), n) == x;
    XorZero(Xor(b, c));
    XorAssoc(Xor(x, b), c, Xor(b, c));
    XorSwap(c, b);
    XorAssoc(Xor(x, b), Xor(b, c), c);
  }

  lemma XorSwap(c: nat, b: nat)
    ensures Xor(c, Xor(b, c)) == Xor(Xor(b, c), c)
  {
    XorComm(c, Xor(b, c));
  }

  lemma {:induction false} XorComm(a: nat, b: nat)
    ensures Xor(a, b) == Xor(b, a)
  {
    if a > 0 || b > 0 {
      XorComm(a / 2, b / 2);
    }
  }

  /** `x *= c`. */
  function Times(x: Word, c: nat): Word {
    x * c % 0x1_0000_0000_0000_0000
  }

  lemma TimesRoundTrip(x: Word, c: nat, d: nat)
    requires c * d % 0x1_0000_0000_0000_0000 == 1
    ensures Times(Times(x, c), d) == x
  {
    var r := Times(x, c);
    var q, e := x * c / 0x1_0000_0000_0000_0000, c * d / 0x1_0000_0000_0000_0000;
    Regroup(x, c, d, q, r, e, 0x1_0000_0000_0000_0000);
    Residue(r * d, x * e - q * d, 0x1_0000_0000_0000_0000, x);
  }

  lemma Regroup(x: int, c: int, d: int, q: int, r: int, e: int, m: int)
    requires x * c == q * m + r && c * d == e * m + 1
    ensures r * d == (x * e - q * d) * m + x
  {
    calc {
      r * d;
      (x * c - q * m) * d;
      x * (c * d) - q * m * d;
      x * (e * m + 1) - q * m * d;
      (x * e - q * d) * m + x;
    }
  }

  /** `mix64`. */
  function Mix(x: Word): Word {
    Fold(Times(Fold(Times(Fold(x, 30), 0xbf58476d1ce4e5b9), 27), 0x94d049bb133111eb), 31)
  }

  function Unmix(y: Word): Word {
    Unfold(Times(Unfold(Times(Unfold(y, 31), 0x319642b2d24d8ec3), 27), 0x96de1b173f119089), 30)
  }

  lemma {:induction false} ShrDivides(x: nat, n: nat)
    ensures Pow2(n) > 0 && Shr(x, n) == x / Pow2(n)
    decreases n
  {
    if n > 0 {
      ShrDivides(x / 2, n - 1);
      Halved(x, Pow2(n - 1), Pow2(n));
    }
  }

  lemma Pow2Of30()
    ensures Pow2(27) == 0x800_0000 && Pow2(30) == 0x4000_0000 && Pow2(31) == 0x8000_0000
  {
    assert Pow2(8) == 256;
    assert Pow2(16) == 0x1_0000;
    assert Pow2(24) == 0x100_0000;
  }

  /** The formula of splitmix64: shifts are divisions by 2^30, 2^27 and 2^31. */
  lemma MixFormula(x: Word, a: nat, b: nat, c: nat, d: nat)
    requires a == Xor(x, x / 0x4000_0000) && b == a * 0xbf58476d1ce4e5b9 % 0x1_0000_0000_0000_0000
    requires c == Xor(b, b / 0x800_0000) && d == c * 0x94d049bb133111eb % 0x1_0000_0000_0000_0000
    ensures Mix(x) == Xor(d, d / 0x8000_0000)
  {
    hide Xor, Shr;
    Pow2Of30();
    ShrDivides(x, 30);
    ShrDivides(b, 27);
    ShrDivides(d, 31);
  }

  /** `mix64` is a bijection. */
  lemma MixRoundTrip(x: Word)
    ensures Unmix(Mix(x)) == x && Mix(Unmix(x)) == x
  {
    hide Fold, Unfold, Times;
    var a := Fold(x, 30);
    var b := Times(a, 0xbf58476d1ce4e5b9);
    var c := Fold(b, 27);
    FoldRoundTrip(x, 30);
    TimesRoundTrip(a, 0xbf58476d1ce4e5b9, 0x96de1b173f119089);
    FoldRoundTrip(b, 27);
    TimesRoundTrip(c, 0x94d049bb133111eb, 0x319642b2d24d8ec3);
    FoldRoundTrip(Times(c, 0x94d049bb133111eb), 31);
    var d := Unfold(x, 31);
    var e := Times(d, 0x319642b2d24d8ec3);
    var f := Unfold(e, 27);
    FoldRoundTrip(x, 31);
    TimesRoundTrip(d, 0x319642b2d24d8ec3, 0x94d049bb133111eb);
    FoldRoundTrip(e, 27);
    TimesRoundTrip(f, 0x96de1b173f119089, 0xbf58476d1ce4e5b9);
    FoldRoundTrip(Times(f, 0x96de1b173f119089), 30);
  }

  function Byte(k: Word, i: nat): nat {
    Shr(k, 8 * i) % 256
  }

  /** 5381, times 33 plus the next byte for each of the first n bytes, the lowest first. */
  function Djb2(k: Word, n: nat): nat {
    if n == 0 then 5381 else 33 * Djb2(k, n - 1) + Byte(k, n - 1)
  }

  /** Bytes are digits to the base 256. */
  lemma {:induction false} NextByte(k: Word, i: nat)
    ensures Byte(k, 0) == k % 256 && Byte(k, i + 1) == Byte(k / 256, i)
  {
    ShrBits(k);
    ShrShr(k, 8, 8 * i);
  }

  /** The polynomial written out: the start value times 33^8, and each byte with its power of 33. */
  lemma Djb2Polynomial(k: Word)
    ensures Djb2(k, 8) == 5381 * 1406408618241 + 42618442977 * Byte(k, 0) + 1291467969 * Byte(k, 1) + 39135393 * Byte(k, 2)
                          + 1185921 * Byte(k, 3) + 35937 * Byte(k, 4) + 1089 * Byte(k, 5) + 33 * Byte(k, 6) + Byte(k, 7)
  {
    hide Byte;
    assert Djb2(k, 1) == 33 * 5381 + Byte(k, 0);
    assert Djb2(k, 2) == 33 * Djb2(k, 1) + Byte(k, 1);
    assert Djb2(k, 3) == 33 * Djb2(k, 2) + Byte(k, 2);
    assert Djb2(k, 4) == 33 * Djb2(k, 3) + Byte(k, 3);
    assert Djb2(k, 5) == 33 * Djb2(k, 4) + Byte(k, 4);
    assert Djb2(k, 6) == 33 * Djb2(k, 5) + Byte(k, 5);
    assert Djb2(k, 7) == 33 * Djb2(k, 6) + Byte(k, 6);
  }

  lemma {:induction false} Djb2Fits(k: Word, n: nat)
    requires n <= 8
    ensures Djb2(k, n) + 8 <= 5389 * Pow33(n) && 33 * Djb2(k, n) + 255 < 0x1_0000_0000_0000_0000
  {
    if n > 0 {
      Djb2Fits(k, n - 1);
    }
    Pow33Grows(n, 8);
    assert Pow33(4) == 1185921 && Pow33(8) == 1406408618241;
  }

  function Pow33(n: nat): nat {
    if n == 0 then 1 else 33 * Pow33(n - 1)
  }

  lemma {:induction false} Pow33Grows(n: nat, m: nat)
    requires n <= m
    ensures Pow33(n) <= Pow33(m)
  {
    if n < m {
      Pow33Grows(n, m - 1);
    }
  }

  /** `djb2_hash_u64`: a wrapping shift and add for each byte; it never wraps. */
  method Djb2Hash(key: Word) returns (h: Word)
    ensures h == Djb2(key, 8)
  {
    hide Shr;
    h := 5381;
    var k: Word := key;
    ShrBits(key);
    for i := 0 to 8
      invariant h == Djb2(key, i) && k == Shr(key, 8 * i)
    {
      Djb2Fits(key, i);
      h := (h * 32 % 0x1_0000_0000_0000_0000 + h + k % 256) % 0x1_0000_0000_0000_0000;
      ShrShr(key, 8 * i, 8);
      ShrBits(k);
      k := k / 256;
    }
  }

  lemma ShrBits(x: nat)
    ensures Shr(x, 0) == x && Shr(x, 8) == x / 256
  {
    var y := x / 2 / 2 / 2 / 2;
    assert Shr(x, 8) == Shr(x / 2, 7) == Shr(x / 2 / 2, 6) == Shr(x / 2 / 2 / 2, 5) == Shr(y, 4);
    assert Shr(y, 4) == Shr(y / 2, 3) == Shr(y / 2 / 2, 2) == Shr(y / 2 / 2 / 2, 1) == y / 2 / 2 / 2 / 2;
  }

  /** `key_hash`. */
  function HashOf(mixing: bool, k: Word): nat {
    if mixing then Mix(k) else Djb2(k, 8)
  }

  /** Distinct keys never collide in mix mode. */
  lemma MixNeverCollides(a: Word, b: Word)
    ensures HashOf(true, a) == HashOf(true, b) <==> a == b
  {
    hide Mix, Unmix;
    MixRoundTrip(a);
    MixRoundTrip(b);
  }

  /** In djb2 mode they may: one in a byte is worth 33 in the next. */
  lemma Djb2Collides()
    ensures HashOf(false, 0x2100) == HashOf(false, 1)
  {
    hide Byte;
    HighBytes(0x2100);
    HighBytes(1);
    assert Djb2(0x2100, 2) == Djb2(1, 2);
    assert Djb2(0x2100, 5) == Djb2(1, 5);
  }

  /** A key below 2^16 has two bytes. */
  lemma HighBytes(k: Word)
    requires k < 0x1_0000
    ensures Byte(k, 0) == k % 256 && Byte(k, 1) == k / 256 && forall i: nat :: i >= 2 ==> Byte(k, i) == 0
  {
    hide Shr;
    ShrBits(k);
    forall i: nat | i >= 2 ensures Byte(k, i) == 0 {
      assert Pow2(8) == 256 && Pow2(16) == 0x1_0000;
      ShrOut(k, 8 * i, 16);
    }
  }
}
