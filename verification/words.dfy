/** Machine words as bounded naturals, their byte layouts, and the bit operations the capture
    path performs on them. */
module Words {
  type byte = x: int | 0 <= x < 256
  type u16 = x: int | 0 <= x < 0x1_0000
  type u32 = x: int | 0 <= x < 0x1_0000_0000
  type u64 = x: int | 0 <= x < 0x1_0000_0000_0000_0000

  const TWO32: nat := 0x1_0000_0000
  const TWO64: nat := 0x1_0000_0000_0000_0000

  datatype Option<+T> = None | Some(value: T)

  /** The value a 32-bit unsigned variable ends up with. */
  function Wrap32(x: nat): u32 {
    if x < 0x1_0000_0000 then x else Wrap32(x - 0x1_0000_0000)
  }

  /** The value a 64-bit unsigned variable ends up with. */
  function Wrap64(x: nat): u64 {
    if x < 0x1_0000_0000_0000_0000 then x else Wrap64(x - 0x1_0000_0000_0000_0000)
  }

  lemma {:induction false} WrapsOnce(x: nat)
    ensures Wrap32(Wrap32(x) + 1) == Wrap32(x + 1)
    ensures Wrap64(Wrap64(x) + 1) == Wrap64(x + 1)
  {
    if x < TWO32 {
    } else {
      WrapsOnce(x - TWO32);
    }
    if x < TWO64 {
    } else {
      WrapsOnce(x - TWO64);
    }
  }

  /** Wrapping is reduction modulo the size of the word. */
  lemma {:induction false} WrapIsMod(x: nat)
    ensures Wrap32(x) == x % 0x1_0000_0000 && Wrap64(x) == x % 0x1_0000_0000_0000_0000
    decreases x
  {
    if x < 0x1_0000_0000 {
    } else {
      WrapIsMod(x - 0x1_0000_0000);
      assert x % 0x1_0000_0000 == (x - 0x1_0000_0000) % 0x1_0000_0000;
    }
    if x < 0x1_0000_0000_0000_0000 {
    } else {
      WrapIsMod(x - 0x1_0000_0000_0000_0000);
      assert x % 0x1_0000_0000_0000_0000 == (x - 0x1_0000_0000_0000_0000) % 0x1_0000_0000_0000_0000;
    }
  }

  function Min(a: int, b: int): int { if a <= b then a else b }

  function Max(a: int, b: int): int { if a <= b then b else a }

  function Pow2(n: nat): (p: nat)
    ensures 0 < p
  {
    if n == 0 then 1 else 2 * Pow2(n - 1)
  }

  lemma {:induction false} Pow2Adds(a: nat, b: nat)
    ensures Pow2(a + b) == Pow2(a) * Pow2(b)
  {
    if a == 0 {
    } else {
      Pow2Adds(a - 1, b);
    }
  }

  lemma {:induction false} Pow2Grows(a: nat, b: nat)
    requires a <= b
    ensures Pow2(a) <= Pow2(b)
  {
    if a == b {
    } else {
      Pow2Grows(a, b - 1);
    }
  }

  lemma Pow2OfTableBits()
    ensures Pow2(4) == 16 && Pow2(8) == 256 && Pow2(16) == 0x1_0000 && Pow2(24) == 0x100_0000
    ensures Pow2(31) == 0x8000_0000 && Pow2(32) == TWO32
  {
    Pow2Adds(8, 8);
    Pow2Adds(16, 8);
    Pow2Adds(24, 7);
  }

  // ---- bitwise operators on naturals, one bit at a time ----

  function Xor(a: nat, b: nat): nat
    decreases a + b
  {
    if a == 0 && b == 0 then 0 else (a + b) % 2 + 2 * Xor(a / 2, b / 2)
  }

  function And(a: nat, b: nat): nat
    decreases a + b
  {
    if a == 0 || b == 0 then 0 else (a % 2) * (b % 2) + 2 * And(a / 2, b / 2)
  }

  function Shr(a: nat, k: nat): (r: nat)
    ensures r <= a
    decreases k
  {
    if k == 0 then a else Shr(a / 2, k - 1)
  }

  lemma {:induction false} ShrIsQuotient(a: nat, k: nat)
    ensures Shr(a, k) == a / Pow2(k)
    decreases k
  {
    if k == 0 {
    } else {
      ShrIsQuotient(a / 2, k - 1);
      HalveFirst(a, Pow2(k - 1));
    }
  }

  lemma HalveFirst(a: nat, h: nat)
    requires h > 0
    ensures a / (2 * h) == (a / 2) / h
  {
    var q, r := (a / 2) / h, (a / 2) % h;
    DoubleSplits(a, h, q, r);
    DivModUnique(a, 2 * h, q, a % 2 + 2 * r);
  }

  lemma AndZero(x: nat)
    ensures And(x, 0) == 0
  {
  }

  lemma {:induction false} AndMaskIsMod(x: nat, bits: nat)
    ensures And(x, Pow2(bits) - 1) == x % Pow2(bits)
  {
    hide And;
    if bits > 0 {
      AndMaskIsMod(x / 2, bits - 1);
      ModOfDouble(x, Pow2(bits - 1));
      AndMaskStep(x, Pow2(bits - 1));
    } else {
      AndZero(x);
    }
  }

  lemma AndMaskStep(x: nat, half: nat)
    requires half > 0
    ensures And(x, 2 * half - 1) == x % 2 + 2 * And(x / 2, half - 1)
  {
    assert (2 * half - 1) / 2 == half - 1 && (2 * half - 1) % 2 == 1;
  }

  lemma DoubleSplits(x: int, m: int, q: int, r: int)
    requires x / 2 == q * m + r
    ensures x == q * (2 * m) + (x % 2 + 2 * r)
  {
    assert x == 2 * (q * m + r) + x % 2;
    assert 2 * (q * m) == q * (2 * m);
  }

  lemma ModOfDouble(x: nat, m: nat)
    requires m > 0
    ensures x % (2 * m) == x % 2 + 2 * ((x / 2) % m)
  {
    var q, r := (x / 2) / m, (x / 2) % m;
    DoubleSplits(x, m, q, r);
    DivModUnique(x, 2 * m, q, x % 2 + 2 * r);
  }

  lemma DivModUnique(x: int, d: int, q: int, r: int)
    requires 0 <= r < d && x == q * d + r
    ensures x / d == q && x % d == r
  {
    SmallMultipleIsZero(x / d - q, d);
  }

  lemma SmallMultipleIsZero(e: int, d: int)
    requires 0 < d
    ensures -d < e * d < d ==> e == 0
  {
    if e > 0 {
      assert e * d >= d;
    } else if e < 0 {
      assert e * d <= -d;
    }
  }

  lemma CancelFactor(q: nat, b: nat, a: nat)
    requires a > 0
    ensures q * a < a * b ==> q < b
  {
    if q >= b {
      assert q * a >= b * a;
    }
  }

  lemma MulMonotone(a: nat, b: nat, s: nat)
    requires a <= b
    ensures a * s <= b * s && s * a <= s * b && (0 < a ==> a * s == (a - 1) * s + s)
  {
  }

  lemma DivMonotone(x: nat, y: nat, d: nat)
    requires x <= y && d > 0
    ensures x / d <= y / d
  {
    assert (x / d) * d <= x && y < d * (y / d + 1);
    CancelFactor(x / d, y / d + 1, d);
  }

  // ---- byte layouts ----

  function Le32(b0: byte, b1: byte, b2: byte, b3: byte): u32 {
    b0 as int + 0x100 * (b1 as int + 0x100 * (b2 as int + 0x100 * (b3 as int)))
  }

  /** memcpy of four bytes into a 32-bit word on a little-endian host */
  function Le32At(s: seq<byte>, i: nat): u32
    requires i + 4 <= |s|
  {
    Le32(s[i], s[i + 1], s[i + 2], s[i + 3])
  }

  function Join(high: byte, low: byte): u16 { 0x100 * (high as int) + low as int }

  function Be16At(s: seq<byte>, i: nat): u16
    requires i + 2 <= |s|
  {
    Join(s[i], s[i + 1])
  }

  function Be32At(s: seq<byte>, i: nat): u32
    requires i + 4 <= |s|
  {
    Le32(s[i + 3], s[i + 2], s[i + 1], s[i])
  }

  function Be16(x: u16): (s: seq<byte>)
    ensures |s| == 2
  {
    [x / 0x100, x % 0x100]
  }

  lemma Be16RoundTrip(x: u16)
    ensures Be16At(Be16(x), 0) == x
  {
  }

  function Be32(x: u32): (s: seq<byte>)
    ensures |s| == 4
  {
    Be16(x / 0x1_0000) + Be16(x % 0x1_0000)
  }

  /** The n low bytes of x, least significant first. */
  function LeBytes(x: nat, n: nat): (s: seq<byte>)
    ensures |s| == n
    decreases n
  {
    if n == 0 then [] else [x % 0x100] + LeBytes(x / 0x100, n - 1)
  }

  lemma LeBytesOf32(x: u32)
    ensures LeBytes(x, 4) == [x % 0x100, (x / 0x100) % 0x100, (x / 0x1_0000) % 0x100, x / 0x100_0000]
    ensures Le32At(LeBytes(x, 4), 0) == x
  {
    var x1, x2, x3 := x / 0x100, x / 0x1_0000, x / 0x100_0000;
    assert x1 / 0x100 == x2 && x2 / 0x100 == x3;
    assert LeBytes(x3, 1) == [x3] + LeBytes(0, 0);
    assert LeBytes(x2, 2) == [x2 % 0x100] + LeBytes(x3, 1);
    assert LeBytes(x1, 3) == [x1 % 0x100] + LeBytes(x2, 2);
    assert LeBytes(x, 4) == [x % 0x100] + LeBytes(x1, 3);
  }

  lemma LowByteSplits(a: byte, r: int, b: byte, q: int)
    requires a as int + 0x100 * r == b as int + 0x100 * q
    ensures a == b && r == q
  {
  }

  lemma Le32Injective(a0: byte, a1: byte, a2: byte, a3: byte, b0: byte, b1: byte, b2: byte, b3: byte)
    requires Le32(a0, a1, a2, a3) == Le32(b0, b1, b2, b3)
    ensures a0 == b0 && a1 == b1 && a2 == b2 && a3 == b3
  {
    var a, b := a2 as int + 0x100 * (a3 as int), b2 as int + 0x100 * (b3 as int);
    LowByteSplits(a0, a1 as int + 0x100 * a, b0, b1 as int + 0x100 * b);
    LowByteSplits(a1, a, b1, b);
    LowByteSplits(a2, a3 as int, b2, b3 as int);
  }

  /** The word the C code hashes for a dotted-quad value: its network-order bytes, read little-endian. */
  function ToWord(ip: u32): u32 {
    Le32(ip / 0x100_0000, (ip / 0x1_0000) % 0x100, (ip / 0x100) % 0x100, ip % 0x100)
  }

  lemma ToWordReverses(b0: byte, b1: byte, b2: byte, b3: byte)
    ensures ToWord(Le32(b0, b1, b2, b3)) == Le32(b3, b2, b1, b0)
  {
    var ip := Le32(b0, b1, b2, b3) as int;
    var x1 := b1 as int + 0x100 * (b2 as int + 0x100 * (b3 as int));
    var x2 := b2 as int + 0x100 * (b3 as int);
    DivModUnique(ip, 0x100, x1, b0 as int);
    DivModUnique(x1, 0x100, x2, b1 as int);
    DivModUnique(x2, 0x100, b3 as int, b2 as int);
    DivModUnique(ip, 0x1_0000, x2, b0 as int + 0x100 * (b1 as int));
    DivModUnique(ip, 0x100_0000, b3 as int, b0 as int + 0x100 * (b1 as int + 0x100 * (b2 as int)));
  }

  lemma ToWordInvolutive(x: u32)
    ensures ToWord(ToWord(x)) == x
  {
    var b0, b1, b2, b3 := x % 0x100, (x / 0x100) % 0x100, (x / 0x1_0000) % 0x100, x / 0x100_0000;
    Le32OfBytes(x);
    ToWordReverses(b0, b1, b2, b3);
    ToWordReverses(b3, b2, b1, b0);
  }

  lemma Le32OfBytes(x: u32)
    ensures Le32(x % 0x100, (x / 0x100) % 0x100, (x / 0x1_0000) % 0x100, x / 0x100_0000) == x
  {
    assert (x / 0x100) / 0x100 == x / 0x1_0000 && (x / 0x1_0000) / 0x100 == x / 0x100_0000;
  }

  lemma AddressReadsBack(f: seq<byte>, i: nat, a: u32)
    requires i + 4 <= |f| && f[i..i + 4] == Be32(a)
    ensures Le32At(f, i) == ToWord(a)
  {
    var s := f[i..i + 4];
    assert f[i] == s[0] && f[i + 1] == s[1] && f[i + 2] == s[2] && f[i + 3] == s[3];
    Be32IsWordBytes(a);
  }

  lemma Be32IsWordBytes(a: u32)
    ensures Be32(a) == [a / 0x100_0000, (a / 0x1_0000) % 0x100, (a / 0x100) % 0x100, a % 0x100]
  {
    var b0, b1, b2, b3 := a % 0x100, (a / 0x100) % 0x100, (a / 0x1_0000) % 0x100, a / 0x100_0000;
    Le32OfBytes(a);
    DivModUnique(a, 0x1_0000, b2 as int + 0x100 * (b3 as int), b0 as int + 0x100 * (b1 as int));
    DivModUnique(a / 0x1_0000, 0x100, b3, b2);
    DivModUnique(a % 0x1_0000, 0x100, b1, b0);
  }

  lemma SubSlice<T>(s: seq<T>, lo: nat, hi: nat, i: nat, j: nat)
    requires i <= j && lo + j <= hi <= |s|
    ensures s[lo..hi][i..j] == s[lo + i..lo + j]
  {
    var a, b := s[lo..hi][i..j], s[lo + i..lo + j];
    assert |a| == |b|;
    forall k | 0 <= k < |a|
      ensures a[k] == b[k]
    {
      assert a[k] == s[lo..hi][i + k] == s[lo + (i + k)];
    }
  }

  /** The bytes s lie at position p of b. */
  predicate At(b: seq<byte>, p: nat, s: seq<byte>) {
    p + |s| <= |b| && b[p..p + |s|] == s
  }

  lemma AtSplits(b: seq<byte>, p: nat, s: seq<byte>, t: seq<byte>)
    ensures At(b, p, s + t) <==> At(b, p, s) && At(b, p + |s|, t)
  {
    if At(b, p, s + t) {
      SubSlice(b, p, p + |s + t|, 0, |s|);
      SubSlice(b, p, p + |s + t|, |s|, |s + t|);
    }
    if At(b, p, s) && At(b, p + |s|, t) {
      assert b[p..p + |s + t|] == b[p..p + |s|] + b[p + |s|..p + |s + t|];
    }
  }

  lemma AtReads(b: seq<byte>, p: nat, s: seq<byte>, k: nat)
    requires At(b, p, s) && k < |s|
    ensures p + k < |b| && b[p + k] == s[k]
  {
    assert b[p..p + |s|][k] == b[p + k];
  }
}
