/** The two slot indexes the address table has had: the low bits of a multiplicative hash (old)
    and its high bits (Fibonacci hashing, current). */
module SlotIndex {
  import opened Words
  import opened SlotTable

  /** The multiplicative hash, modulo 2^32. */
  function Mix(w: u32): u32 { (w as int * 2654435761) % 0x1_0000_0000 }

  /** Its inverse: the two factors multiply to 1 modulo 2^32. */
  function Unmix(y: u32): u32 { (y as int * 244002641) % 0x1_0000_0000 }

  function Slot(shift: nat, w: u32): nat { Shr(Mix(w), shift) }

  function OldSlot(mask: nat, w: u32): nat { And(Mix(w), mask) }

  /** The current index of a table of 2^bits slots, as a home-slot function. */
  function HighBits(bits: nat): Home
    requires bits <= 32
  {
    w => Slot(32 - bits, w)
  }

  /** The original index of a table of 2^bits slots. */
  function LowBits(bits: nat): Home {
    w => OldSlot(Pow2(bits) - 1, w)
  }

  /** Both builders grow the table until it has 2n+1 slots, from 16 up to 2^31. */
  function GrowBits(n: nat, bits: nat): nat
    decreases 31 - bits
  {
    if Pow2(bits) < 2 * n + 1 && bits < 31 then GrowBits(n, bits + 1) else bits
  }

  /** Below 2^30 entries the table has more than twice as many slots, and no smaller size would do;
      from there on it has 2^31. */
  lemma {:induction false} GrowBitsFits(n: nat, bits: nat)
    requires 4 <= bits <= 31
    ensures bits <= GrowBits(n, bits) <= 31
    ensures n < 0x4000_0000 ==> 2 * n < Pow2(GrowBits(n, bits))
    ensures n >= 0x4000_0000 ==> Pow2(GrowBits(n, bits)) == 0x8000_0000
    ensures GrowBits(n, bits) > bits ==> Pow2(GrowBits(n, bits) - 1) <= 2 * n
    decreases 31 - bits
  {
    Pow2OfTableBits();
    Pow2Grows(bits, 31);
    if bits == 31 || Pow2(bits) >= 2 * n + 1 {
    } else {
      GrowBitsFits(n, bits + 1);
    }
  }

  // ---- the multiplication permutes the words ----

  lemma MixIsBijective(w: u32)
    ensures Unmix(Mix(w)) == w && Mix(Unmix(w)) == w
  {
    var p, q := w as int * 2654435761, w as int * 244002641;
    DivModUnique(Mix(w) as int * 244002641, 0x1_0000_0000, w * 150801925 - (p / 0x1_0000_0000) * 244002641, w);
    DivModUnique(Unmix(w) as int * 2654435761, 0x1_0000_0000, w * 150801925 - (q / 0x1_0000_0000) * 2654435761, w);
  }

  // ---- ranges ----

  lemma DivBelow(x: nat, a: nat, b: nat)
    requires a > 0 && x < a * b
    ensures x / a < b
  {
    CancelFactor(x / a, b, a);
  }

  lemma HomesInRange(bits: nat)
    requires bits <= 32
    ensures InRange(Pow2(bits), HighBits(bits)) && InRange(Pow2(bits), LowBits(bits))
  {
    hide Mix, And, Pow2;
    Pow2Adds(32 - bits, bits);
    Pow2OfTableBits();
    forall w: u32
      ensures HighBits(bits)(w) < Pow2(bits) && LowBits(bits)(w) < Pow2(bits)
    {
      ShrIsQuotient(Mix(w), 32 - bits);
      DivBelow(Mix(w), Pow2(32 - bits), Pow2(bits));
      AndMaskIsMod(Mix(w), bits);
    }
  }

  /** The lookup rebuilds the probe mask from the shift alone. */
  lemma MaskFromShift(bits: nat)
    requires bits <= 32
    ensures 0xffff_ffff / Pow2(32 - bits) == Pow2(bits) - 1
  {
    Pow2Adds(32 - bits, bits);
    Pow2OfTableBits();
    AllOnesQuotient(Pow2(32 - bits), Pow2(bits));
  }

  lemma AllOnesQuotient(s: nat, c: nat)
    requires s > 0 && c > 0
    ensures (s * c - 1) / s == c - 1
  {
    assert (c - 1) * s == c * s - s;
    DivModUnique(s * c - 1, s, c - 1, s - 1);
  }

  /** The probe step of the C code is the wrap-around successor. */
  lemma MaskedStep(bits: nat, j: nat)
    requires j < Pow2(bits)
    ensures And(j + 1, Pow2(bits) - 1) == Next(Pow2(bits), j)
  {
    AndMaskIsMod(j + 1, bits);
    if j + 1 == Pow2(bits) {
      DivModUnique(j + 1, Pow2(bits), 1, 0);
    } else {
      DivModUnique(j + 1, Pow2(bits), 0, j + 1);
    }
  }

  lemma MaskedProbeStep(slots: seq<u32>, home: Home, bits: nat, w: u32, j: nat, e: nat)
    requires Searching(slots, home, w, j, e) && slots[j] != 0 && slots[j] != w
    requires |slots| == Pow2(bits)
    ensures var n := And(j + 1, |slots| - 1);
            n < |slots| && Searching(slots, home, w, n, e) && Dist(|slots|, n, e) < Dist(|slots|, j, e)
  {
    MaskedStep(bits, j);
    ProbeStep(slots, home, w, j, e);
  }

  /** A search starts at the home slot. */
  lemma SearchStarts(slots: seq<u32>, home: Home, w: u32) returns (e: nat)
    requires Sound(slots, home) && |SlotTable.Members(slots)| < |slots|
    ensures Searching(slots, home, w, home(w), e)
  {
    OccupiedCountsMembers(slots);
    e := EmptySlotExists(slots);
  }

  // ---- balance: every slot is home to equally many words ----

  ghost function Homed(shift: nat, j: nat): set<int> {
    set w: int | 0 <= w < TWO32 && Slot(shift, w) == j
  }

  ghost function Unmixed(lo: nat, hi: nat): set<int>
    requires lo <= hi <= TWO32
  {
    set y: int | lo <= y < hi :: Unmix(y) as int
  }

  lemma {:induction false} UnmixedSize(lo: nat, hi: nat)
    requires lo <= hi <= TWO32
    ensures |Unmixed(lo, hi)| == hi - lo
    decreases hi - lo
  {
    hide Mix, Unmix;
    if lo == hi {
    } else {
      UnmixedSize(lo, hi - 1);
      assert Unmixed(lo, hi) == Unmixed(lo, hi - 1) + {Unmix(hi - 1) as int};
      forall y: int | lo <= y < hi - 1
        ensures Unmix(y) != Unmix(hi - 1)
      {
        MixIsBijective(y);
        MixIsBijective(hi - 1);
      }
    }
  }

  /** Each of the 2^bits slots is home to exactly 2^(32-bits) of the 2^32 words. */
  lemma SlotsAreBalanced(bits: nat, j: nat)
    requires bits <= 32 && j < Pow2(bits)
    ensures |Homed(32 - bits, j)| == Pow2(32 - bits)
  {
    var s := Pow2(32 - bits);
    SlotEndsInRange(bits, j);
    HomedIsUnmixed(32 - bits, j, j * s, (j + 1) * s);
    UnmixedSize(j * s, (j + 1) * s);
  }

  lemma SlotEndsInRange(bits: nat, j: nat)
    requires bits <= 32 && j < Pow2(bits)
    ensures var s := Pow2(32 - bits); (j + 1) * s == j * s + s <= TWO32
  {
    Pow2Adds(bits, 32 - bits);
    Pow2OfTableBits();
    MulMonotone(j + 1, Pow2(bits), Pow2(32 - bits));
  }

  lemma HomedIsUnmixed(shift: nat, j: nat, lo: nat, hi: nat)
    requires lo == j * Pow2(shift) && hi == (j + 1) * Pow2(shift) && lo <= hi <= TWO32
    ensures Homed(shift, j) == Unmixed(lo, hi)
  {
    forall w: int | 0 <= w < TWO32
      ensures w in Homed(shift, j) <==> w in Unmixed(lo, hi)
    {
      MixIsBijective(w);
      ShrIsQuotient(Mix(w), shift);
      QuotientInterval(Mix(w), Pow2(shift), j);
      if w in Unmixed(lo, hi) {
        var y: int :| lo <= y < hi && Unmix(y) as int == w;
        MixIsBijective(y);
      }
    }
  }

  lemma QuotientInterval(x: nat, s: nat, j: nat)
    requires s > 0
    ensures x / s == j <==> j * s <= x < (j + 1) * s
  {
    assert (j + 1) * s == j * s + s;
    if j * s <= x < (j + 1) * s {
      DivModUnique(x, s, j, x - j * s);
    }
  }

  // ---- consecutive addresses ----

  /** The word of address a.b.c.d: on a little-endian host the last octet is the top byte. */
  function AddressWord(a: byte, b: byte, c: byte, d: byte): u32 { Le32(a, b, c, d) }

  ghost function Slash24(a: byte, b: byte, c: byte): set<u32> {
    set d: byte :: AddressWord(a, b, c, d)
  }

  lemma TopByteOfMix(a: byte, b: byte, c: byte, d: byte)
    ensures Mix(AddressWord(a, b, c, d)) / 0x100_0000
         == (Mix(AddressWord(a, b, c, 0)) / 0x100_0000 + (177 * (d as int)) % 0x100) % 0x100
  {
    assert AddressWord(a, b, c, d) == AddressWord(a, b, c, 0) as int + 0x100_0000 * (d as int);
    TopByteOfProduct(AddressWord(a, b, c, 0), d);
  }

  lemma TopByteOfProduct(base: int, n: int)
    ensures ((base + 0x100_0000 * n) * 2654435761) % 0x1_0000_0000 / 0x100_0000
         == ((base * 2654435761) % 0x1_0000_0000 / 0x100_0000 + (177 * n) % 0x100) % 0x100
  {
    var p := base * 2654435761;
    ProductSplits(base, n, p % 0x1_0000_0000, p / 0x1_0000_0000, (177 * n) % 0x100, (177 * n) / 0x100);
  }

  lemma ProductSplits(base: int, n: int, x: int, q: int, t: int, u: int)
    requires base * 2654435761 == q * 0x1_0000_0000 + x && 0 <= x < 0x1_0000_0000
    requires 177 * n == 0x100 * u + t
    ensures ((base + 0x100_0000 * n) * 2654435761) % 0x1_0000_0000 / 0x100_0000 == (x / 0x100_0000 + t) % 0x100
  {
    var v, l := x / 0x100_0000 + t, x % 0x100_0000;
    DivModUnique((base + 0x100_0000 * n) * 2654435761, 0x1_0000_0000,
                 q + u + n * 10368889 + v / 0x100, 0x100_0000 * (v % 0x100) + l);
    DivModUnique(0x100_0000 * (v % 0x100) + l, 0x100_0000, v % 0x100, l);
  }

  lemma TopByteSeparates(m: nat, d: byte, e: byte)
    requires (m + (177 * (d as int)) % 0x100) % 0x100 == (m + (177 * (e as int)) % 0x100) % 0x100
    ensures d == e
  {
    var t, u := (177 * (d as int)) % 0x100, (177 * (e as int)) % 0x100;
    ShiftIsInjective(m, t, u);
    OddMultipleIsInjective(d as int, e as int, (177 * (d as int)) / 0x100, (177 * (e as int)) / 0x100, t);
  }

  lemma ShiftIsInjective(m: int, t: int, u: int)
    requires 0 <= t < 0x100 && 0 <= u < 0x100 && (m + t) % 0x100 == (m + u) % 0x100
    ensures t == u
  {
    assert t - u == 0x100 * ((m + t) / 0x100 - (m + u) / 0x100);
  }

  lemma OddMultipleIsInjective(d: int, e: int, a: int, b: int, t: int)
    requires 0 <= d < 0x100 && 0 <= e < 0x100 && 177 * d == 0x100 * a + t && 177 * e == 0x100 * b + t
    ensures d == e
  {
    assert d - e == 0x100 * (81 * (a - b) - 56 * (d - e));
  }

  lemma CoarserQuotient(x: nat, y: nat, s: nat, k: nat)
    requires s <= k && Shr(x, s) == Shr(y, s)
    ensures x / Pow2(k) == y / Pow2(k)
  {
    ShrIsQuotient(x, s);
    ShrIsQuotient(y, s);
    Pow2Adds(s, k - s);
    QuotientOfQuotient(x, Pow2(s), Pow2(k - s));
    QuotientOfQuotient(y, Pow2(s), Pow2(k - s));
  }

  lemma QuotientOfQuotient(x: nat, a: nat, b: nat)
    requires a > 0 && b > 0
    ensures a * b > 0 && x / (a * b) == (x / a) / b
  {
    var y := x / a;
    NestedQuotient(x, a, b, y / b, y % b, x % a);
    DivModUnique(x, a * b, y / b, (y % b) * a + x % a);
  }

  lemma NestedQuotient(x: int, a: nat, b: nat, q: int, s: int, r: int)
    requires x == (q * b + s) * a + r && 0 <= s < b && 0 <= r < a
    ensures 0 < a * b && x == q * (a * b) + (s * a + r) && 0 <= s * a + r < a * b
  {
    MulMonotone(s + 1, b, a);
    MulMonotone(0, s, a);
    assert (q * b) * a == q * (a * b);
  }

  /** The current index sends the 256 addresses of a /24 to 256 different slots. */
  lemma Slash24Spreads(bits: nat, a: byte, b: byte, c: byte)
    requires 8 <= bits <= 32
    ensures HomesDistinct(Slash24(a, b, c), HighBits(bits))
  {
    hide AddressWord, HighBits;
    forall x, y | x in Slash24(a, b, c) && y in Slash24(a, b, c) && HighBits(bits)(x) == HighBits(bits)(y)
      ensures x == y
    {
      var d: byte :| x == AddressWord(a, b, c, d);
      var e: byte :| y == AddressWord(a, b, c, e);
      TopBytesApart(bits, a, b, c, d, e);
    }
  }

  lemma TopBytesApart(bits: nat, a: byte, b: byte, c: byte, d: byte, e: byte)
    requires 8 <= bits <= 32
    requires HighBits(bits)(AddressWord(a, b, c, d)) == HighBits(bits)(AddressWord(a, b, c, e))
    ensures d == e
  {
    hide Mix, AddressWord;
    CoarserQuotient(Mix(AddressWord(a, b, c, d)), Mix(AddressWord(a, b, c, e)), 32 - bits, 24);
    Pow2OfTableBits();
    TopByteOfMix(a, b, c, d);
    TopByteOfMix(a, b, c, e);
    TopByteSeparates(Mix(AddressWord(a, b, c, 0)) / 0x100_0000, d, e);
  }

  ghost function Slash16(a: byte, b: byte): set<u32> {
    set c: byte, d: byte :: AddressWord(a, b, c, d)
  }

  /** The last two octets of an address, in the order in which they form the top half of its word. */
  function TopHalf(c: byte, d: byte): u16 { c as int + 0x100 * (d as int) }

  lemma TopHalfOfMix(a: byte, b: byte, c: byte, d: byte)
    ensures Mix(AddressWord(a, b, c, d)) / 0x1_0000
         == (Mix(AddressWord(a, b, 0, 0)) / 0x1_0000 + (31153 * (TopHalf(c, d) as int)) % 0x1_0000) % 0x1_0000
  {
    assert AddressWord(a, b, c, d) == AddressWord(a, b, 0, 0) as int + 0x1_0000 * (TopHalf(c, d) as int);
    TopHalfOfProduct(AddressWord(a, b, 0, 0), TopHalf(c, d));
  }

  lemma TopHalfOfProduct(base: int, n: int)
    ensures ((base + 0x1_0000 * n) * 2654435761) % 0x1_0000_0000 / 0x1_0000
         == ((base * 2654435761) % 0x1_0000_0000 / 0x1_0000 + (31153 * n) % 0x1_0000) % 0x1_0000
  {
    var p := base * 2654435761;
    HalfProductSplits(base, n, p % 0x1_0000_0000, p / 0x1_0000_0000, (31153 * n) % 0x1_0000, (31153 * n) / 0x1_0000);
  }

  lemma HalfProductSplits(base: int, n: int, x: int, q: int, t: int, u: int)
    requires base * 2654435761 == q * 0x1_0000_0000 + x && 0 <= x < 0x1_0000_0000
    requires 31153 * n == 0x1_0000 * u + t
    ensures ((base + 0x1_0000 * n) * 2654435761) % 0x1_0000_0000 / 0x1_0000 == (x / 0x1_0000 + t) % 0x1_0000
  {
    var v, l := x / 0x1_0000 + t, x % 0x1_0000;
    DivModUnique((base + 0x1_0000 * n) * 2654435761, 0x1_0000_0000,
                 q + u + n * 40503 + v / 0x1_0000, 0x1_0000 * (v % 0x1_0000) + l);
    DivModUnique(0x1_0000 * (v % 0x1_0000) + l, 0x1_0000, v % 0x1_0000, l);
  }

  lemma TopHalfSeparates(m: nat, d: u16, e: u16)
    requires (m + (31153 * (d as int)) % 0x1_0000) % 0x1_0000 == (m + (31153 * (e as int)) % 0x1_0000) % 0x1_0000
    ensures d == e
  {
    var t, u := (31153 * (d as int)) % 0x1_0000, (31153 * (e as int)) % 0x1_0000;
    assert t - u == 0x1_0000 * ((m + t) / 0x1_0000 - (m + u) / 0x1_0000);
    OddHalfMultipleIsInjective(d as int, e as int, (31153 * (d as int)) / 0x1_0000, (31153 * (e as int)) / 0x1_0000, t);
  }

  lemma OddHalfMultipleIsInjective(d: int, e: int, a: int, b: int, t: int)
    requires 0 <= d < 0x1_0000 && 0 <= e < 0x1_0000 && 31153 * d == 0x1_0000 * a + t && 31153 * e == 0x1_0000 * b + t
    ensures d == e
  {
    assert d - e == 0x1_0000 * (12113 * (a - b) - 5758 * (d - e));
  }

  /** From 16 bits on, the current index sends the 65536 addresses of a /16 to different slots. */
  lemma Slash16Spreads(bits: nat, a: byte, b: byte)
    requires 16 <= bits <= 32
    ensures HomesDistinct(Slash16(a, b), HighBits(bits))
  {
    hide AddressWord, HighBits;
    forall x, y | x in Slash16(a, b) && y in Slash16(a, b) && HighBits(bits)(x) == HighBits(bits)(y)
      ensures x == y
    {
      var c: byte, d: byte :| x == AddressWord(a, b, c, d);
      var e: byte, f: byte :| y == AddressWord(a, b, e, f);
      TopHalvesApart(bits, a, b, c, d, e, f);
    }
  }

  lemma TopHalvesApart(bits: nat, a: byte, b: byte, c: byte, d: byte, e: byte, f: byte)
    requires 16 <= bits <= 32
    requires HighBits(bits)(AddressWord(a, b, c, d)) == HighBits(bits)(AddressWord(a, b, e, f))
    ensures c == e && d == f
  {
    hide Mix, AddressWord, TopHalf;
    CoarserQuotient(Mix(AddressWord(a, b, c, d)), Mix(AddressWord(a, b, e, f)), 32 - bits, 16);
    Pow2OfTableBits();
    TopHalfOfMix(a, b, c, d);
    TopHalfOfMix(a, b, e, f);
    TopHalfSeparates(Mix(AddressWord(a, b, 0, 0)) / 0x1_0000, TopHalf(c, d), TopHalf(e, f));
    TopHalfInjective(c, d, e, f);
  }

  lemma TopHalfInjective(c: byte, d: byte, e: byte, f: byte)
    requires TopHalf(c, d) == TopHalf(e, f)
    ensures c == e && d == f
  {
  }

  /** The original index sends a whole /24 to one slot. */
  lemma Slash24Collapses(bits: nat, a: byte, b: byte, c: byte)
    requires bits <= 24
    ensures forall w :: w in Slash24(a, b, c) ==> LowBits(bits)(w) == LowBits(bits)(AddressWord(a, b, c, 0))
  {
    forall w | w in Slash24(a, b, c)
      ensures LowBits(bits)(w) == LowBits(bits)(AddressWord(a, b, c, 0))
    {
      var d: byte :| w == AddressWord(a, b, c, d);
      LowBitsIgnoreTopByte(AddressWord(a, b, c, 0), d, bits);
    }
  }

  lemma LowBitsIgnoreTopByte(base: u32, d: byte, bits: nat)
    requires bits <= 24 && base as int + 0x100_0000 * (d as int) < TWO32
    ensures LowBits(bits)(base) == LowBits(bits)(base as int + 0x100_0000 * (d as int))
  {
    var w := base as int + 0x100_0000 * (d as int);
    AndMaskIsMod(Mix(w), bits);
    AndMaskIsMod(Mix(base), bits);
    LowBitsOfMix(w, bits);
    LowBitsOfMix(base, bits);
    Pow2Adds(bits, 24 - bits);
    Pow2OfTableBits();
    var k := d as int * 2654435761;
    assert w * 2654435761 == base as int * 2654435761 + 0x100_0000 * k;
    ModAddProduct(base as int * 2654435761, k, Pow2(bits), Pow2(24 - bits));
  }

  lemma ModAddProduct(x: int, k: int, d: nat, e: nat)
    requires d > 0
    ensures (x + (d * e) * k) % d == x % d
  {
    assert (d * e) * k == (e * k) * d;
    ModAddMultiple(x, e * k, d);
  }

  lemma ModAddMultiple(x: int, k: int, d: nat)
    requires d > 0
    ensures (x + k * d) % d == x % d
  {
    var q := x / d;
    assert (q + k) * d == q * d + k * d;
    DivModUnique(x + k * d, d, q + k, x % d);
  }

  lemma LowBitsOfMix(w: u32, bits: nat)
    requires bits <= 32
    ensures Mix(w) % Pow2(bits) == (w as int * 2654435761) % Pow2(bits)
  {
    Pow2Adds(bits, 32 - bits);
    Pow2OfTableBits();
    var p := w as int * 2654435761;
    assert p == p % TWO32 + (Pow2(bits) * Pow2(32 - bits)) * (p / TWO32);
    ModAddProduct(p % TWO32, p / TWO32, Pow2(bits), Pow2(32 - bits));
  }
}
