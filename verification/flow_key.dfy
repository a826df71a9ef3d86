/** The 64-bit key of a directional 5-tuple and exactly when two 5-tuples share one. */
module FlowKey {
  import opened Words
  import opened Bitwise

  datatype Flow = Flow(sip: u32, dip: u32, sport: u16, dport: u16, proto: byte)

  /** Product of 64-bit words, modulo 2^64. */
  function TimesGolden(b: u64): u64 { (b as int * 0x9E3779B97F4A7C15) % 0x1_0000_0000_0000_0000 }

  function TimesMix1(b: u64): u64 { (b as int * 0xBF58476D1CE4E5B9) % 0x1_0000_0000_0000_0000 }

  function TimesMix2(b: u64): u64 { (b as int * 0x94D049BB133111EB) % 0x1_0000_0000_0000_0000 }

  function OverGolden(b: u64): u64 { (b as int * 0xF1DE83E19937733D) % 0x1_0000_0000_0000_0000 }

  function OverMix1(b: u64): u64 { (b as int * 0x96DE1B173F119089) % 0x1_0000_0000_0000_0000 }

  function OverMix2(b: u64): u64 { (b as int * 0x319642B2D24D8EC3) % 0x1_0000_0000_0000_0000 }

  /** The shifted fields do not overlap, so combining them with | is adding them. */
  function Addresses(f: Flow): u64 { 0x1_0000_0000 * f.sip + f.dip }

  function Ports(f: Flow): u64 { 0x1_0000_0000_0000 * f.sport + 0x1_0000_0000 * f.dport + f.proto }

  function Folded(f: Flow): (a: u64) {
    XorBelow64(Addresses(f), TimesGolden(Ports(f)));
    Xor(Addresses(f), TimesGolden(Ports(f)))
  }

  function Finalise(a: u64): u64 {
    XorShiftsStayBelow64(a, 30);
    var b := TimesMix1(XorShift(a, 30));
    XorShiftsStayBelow64(b, 27);
    var c := TimesMix2(XorShift(b, 27));
    XorShiftsStayBelow64(c, 31);
    XorShift(c, 31)
  }

  function Unfinalise(y: u64): u64 {
    XorShiftsStayBelow64(y, 31);
    var c := OverMix2(UnXorShift(y, 31));
    XorShiftsStayBelow64(c, 27);
    var b := OverMix1(UnXorShift(c, 27));
    XorShiftsStayBelow64(b, 30);
    UnXorShift(b, 30)
  }

  function Key(f: Flow): u64 { Finalise(Folded(f)) }

  // ---- the multipliers are odd, hence invertible modulo 2^64 ----

  lemma GoldenInverts(b: u64)
    ensures OverGolden(TimesGolden(b)) == b
  {
    ProductInverts(b, 0x9E3779B97F4A7C15, 0xF1DE83E19937733D);
  }

  lemma Mix1Inverts(b: u64)
    ensures OverMix1(TimesMix1(b)) == b && TimesMix1(OverMix1(b)) == b
  {
    ProductInverts(b, 0xBF58476D1CE4E5B9, 0x96DE1B173F119089);
    ProductInverts(b, 0x96DE1B173F119089, 0xBF58476D1CE4E5B9);
  }

  lemma Mix2Inverts(b: u64)
    ensures OverMix2(TimesMix2(b)) == b && TimesMix2(OverMix2(b)) == b
  {
    ProductInverts(b, 0x94D049BB133111EB, 0x319642B2D24D8EC3);
    ProductInverts(b, 0x319642B2D24D8EC3, 0x94D049BB133111EB);
  }

  lemma ProductInverts(b: u64, m: nat, n: nat)
    requires (m * n) % TWO64 == 1
    ensures (((b * m) % TWO64) * n) % TWO64 == b
  {
    var q, k := (b * m) / TWO64, (m * n) / TWO64;
    ProductSplits(b, m, n, q, k, TWO64, (b * m) % TWO64);
    DivModUnique(((b * m) % TWO64) * n, TWO64, b * k - q * n, b);
  }

  lemma ProductSplits(b: int, m: int, n: int, q: int, k: int, t: int, r: int)
    requires b * m == q * t + r && m * n == k * t + 1
    ensures r * n == (b * k - q * n) * t + b
  {
    assert (b * m) * n == b * (m * n) == (b * k) * t + b;
    assert (q * t + r) * n == (q * n) * t + r * n;
    assert (b * k - q * n) * t == (b * k) * t - (q * n) * t;
  }

  /** The finaliser is a permutation of the 64-bit words. */
  lemma FinaliseIsBijective(a: u64)
    ensures Unfinalise(Finalise(a)) == a && Finalise(Unfinalise(a)) == a
  {
    XorShiftsStayBelow64(a, 30);
    var b := TimesMix1(XorShift(a, 30));
    XorShiftsStayBelow64(b, 27);
    var c := TimesMix2(XorShift(b, 27));
    XorShiftInverts(a, 30);
    Mix1Inverts(XorShift(a, 30));
    XorShiftInverts(b, 27);
    Mix2Inverts(XorShift(b, 27));
    XorShiftInverts(c, 31);

    XorShiftsStayBelow64(a, 31);
    var c' := OverMix2(UnXorShift(a, 31));
    XorShiftsStayBelow64(c', 27);
    var b' := OverMix1(UnXorShift(c', 27));
    XorShiftsStayBelow64(b', 30);
    XorShiftInverts(a, 31);
    Mix2Inverts(UnXorShift(a, 31));
    XorShiftInverts(c', 27);
    Mix1Inverts(UnXorShift(c', 27));
    XorShiftInverts(b', 30);
  }

  /** The key in 64-bit arithmetic: shifts right are quotients, products are taken modulo 2^64. */
  lemma KeyArithmetic(f: Flow)
    ensures var fields := (0x1_0000_0000_0000 * f.sport + 0x1_0000_0000 * f.dport + f.proto) * 0x9E3779B97F4A7C15;
            var a := Xor(0x1_0000_0000 * f.sip + f.dip, fields % 0x1_0000_0000_0000_0000);
            var b := (Xor(a, a / 0x4000_0000) * 0xBF58476D1CE4E5B9) % 0x1_0000_0000_0000_0000;
            var c := (Xor(b, b / 0x800_0000) * 0x94D049BB133111EB) % 0x1_0000_0000_0000_0000;
            Key(f) == Xor(c, c / 0x8000_0000)
  {
    hide Xor;
    assert Pow2(30) == 0x4000_0000 && Pow2(27) == 0x800_0000 && Pow2(31) == 0x8000_0000 by {
      Pow2OfTableBits();
      assert Pow2(27) == 8 * Pow2(24) && Pow2(31) == 2 * Pow2(30);
    }
    var a := Folded(f);
    ShrIsQuotient(a, 30);
    XorShiftsStayBelow64(a, 30);
    var b := TimesMix1(XorShift(a, 30));
    ShrIsQuotient(b, 27);
    XorShiftsStayBelow64(b, 27);
    var c := TimesMix2(XorShift(b, 27));
    ShrIsQuotient(c, 31);
  }

  lemma AddressesInjective(f: Flow, g: Flow)
    ensures Addresses(f) == Addresses(g) <==> f.sip == g.sip && f.dip == g.dip
  {
  }

  lemma PortsInjective(f: Flow, g: Flow)
    ensures Ports(f) == Ports(g) <==> f.sport == g.sport && f.dport == g.dport && f.proto == g.proto
  {
    if Ports(f) == Ports(g) {
      DivModUnique(Ports(f), 0x1_0000_0000, 0x1_0000 * f.sport + f.dport, f.proto);
      DivModUnique(Ports(g), 0x1_0000_0000, 0x1_0000 * g.sport + g.dport, g.proto);
      DivModUnique(Ports(f) / 0x1_0000_0000, 0x1_0000, f.sport, f.dport);
      DivModUnique(Ports(g) / 0x1_0000_0000, 0x1_0000, g.sport, g.dport);
    }
  }

  /** Two flows share a key exactly when the difference of their address words is the difference
      of their multiplied port words; nothing is lost after the fold. */
  lemma KeysCollideIff(f: Flow, g: Flow)
    ensures Key(f) == Key(g) <==> Folded(f) == Folded(g)
    ensures Key(f) == Key(g) <==>
            Xor(Addresses(f), Addresses(g)) == Xor(TimesGolden(Ports(f)), TimesGolden(Ports(g)))
  {
    FinaliseIsBijective(Folded(f));
    FinaliseIsBijective(Folded(g));
    var a, b, p, q := Addresses(f), Addresses(g), TimesGolden(Ports(f)), TimesGolden(Ports(g));
    if Xor(a, p) == Xor(b, q) {
      XorRearranges(a, p, b, q);
    }
    if Xor(a, b) == Xor(p, q) {
      XorRearranges(a, b, p, q);
    }
  }

  lemma XorRearranges(a: nat, p: nat, b: nat, q: nat)
    requires Xor(a, p) == Xor(b, q)
    ensures Xor(a, b) == Xor(p, q)
  {
    XorCancels(a, p);
    XorCommutes(b, q);
    XorAssociates(q, b, p);
    XorCommutes(b, p);
    XorAssociates(q, p, b);
    XorCancels(Xor(q, p), b);
    XorCommutes(q, p);
    assert a == Xor(Xor(q, p), b);
  }

  /** Flows between the same two addresses never share a key. */
  lemma SameAddressesSeparate(f: Flow, g: Flow)
    requires f.sip == g.sip && f.dip == g.dip && f != g
    ensures Key(f) != Key(g)
  {
    hide Key, Finalise;
    KeysCollideIff(f, g);
    XorSelf(Addresses(f));
    PortsInjective(f, g);
    if Key(f) == Key(g) {
      XorCancels(TimesGolden(Ports(f)), TimesGolden(Ports(g)));
      XorCommutes(0, TimesGolden(Ports(g)));
      XorZero(TimesGolden(Ports(g)));
      GoldenInverts(Ports(f));
      GoldenInverts(Ports(g));
    }
  }

  /** Flows with the same ports and protocol never share a key. */
  lemma SamePortsSeparate(f: Flow, g: Flow)
    requires f.sport == g.sport && f.dport == g.dport && f.proto == g.proto && f != g
    ensures Key(f) != Key(g)
  {
    hide Key, Finalise, Xor, TimesGolden;
    KeysCollideIff(f, g);
    AddressesInjective(f, g);
    XorCancels(Addresses(f), TimesGolden(Ports(f)));
    XorCancels(Addresses(g), TimesGolden(Ports(g)));
  }

  /** The flow with the given ports and protocol that shares the key of f. */
  function Collider(f: Flow, sport: u16, dport: u16, proto: byte): Flow {
    var p := TimesGolden(Ports(Flow(0, 0, sport, dport, proto)));
    XorBelow64(Folded(f), p);
    var a: u64 := Xor(Folded(f), p);
    Flow(a / 0x1_0000_0000, a % 0x1_0000_0000, sport, dport, proto)
  }

  /** For every flow and every choice of ports and protocol exactly one address pair collides. */
  lemma ExactlyOneCollider(f: Flow, g: Flow)
    ensures Key(g) == Key(f) <==> g == Collider(f, g.sport, g.dport, g.proto)
  {
    var c := Collider(f, g.sport, g.dport, g.proto);
    ColliderCollides(f, g.sport, g.dport, g.proto);
    if g != c {
      SamePortsSeparate(g, c);
    }
  }

  lemma ColliderCollides(f: Flow, sport: u16, dport: u16, proto: byte)
    ensures Key(Collider(f, sport, dport, proto)) == Key(f)
  {
    var c := Collider(f, sport, dport, proto);
    var p := TimesGolden(Ports(c));
    assert Ports(c) == Ports(Flow(0, 0, sport, dport, proto));
    assert Addresses(c) == Xor(Folded(f), p);
    XorCancels(Folded(f), p);
  }
}
