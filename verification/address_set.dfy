/** The IPv4 address set of the capture path: a linear-probing table built from packed bytes. */
module AddressSet {
  import opened Words
  import opened SlotTable
  import opened SlotIndex

  /** The 32-bit words of a packed address list; one to three trailing bytes are ignored. */
  function WordsOf(data: seq<byte>): (ws: seq<u32>)
    ensures |ws| == |data| / 4
  {
    seq(|data| / 4, i requires 0 <= i < |data| / 4 => Le32At(data, 4 * i))
  }

  /** The byte offsets of the words are computed in 32 bits, so only the first 2^30 words are read;
      every later round of the build loop reads one of them again. */
  const READABLE: nat := 0x4000_0000

  function ReadWords(data: seq<byte>): (ws: seq<u32>)
    ensures |ws| == if |data| / 4 < READABLE then |data| / 4 else READABLE
  {
    if |data| / 4 < READABLE then WordsOf(data) else WordsOf(data)[..READABLE]
  }

  ghost function NonZero(ws: seq<u32>): set<u32> {
    set w | w in ws && w != 0
  }

  /** The addresses a set built from the data holds. */
  ghost function Addresses(data: seq<byte>): set<u32> {
    NonZero(ReadWords(data))
  }

  /** The set holds every listed address exactly when each word after the first 2^30 is zero or also
      occurs among them; in particular whenever the list is not longer than that. */
  lemma EveryAddressReadIff(data: seq<byte>)
    ensures Addresses(data) == NonZero(WordsOf(data)) <==>
            forall i :: READABLE <= i < |WordsOf(data)| ==> WordsOf(data)[i] == 0 || WordsOf(data)[i] in ReadWords(data)
  {
    var ws := WordsOf(data);
    hide WordsOf;
    if forall i :: READABLE <= i < |ws| ==> ws[i] == 0 || ws[i] in ReadWords(data) {
      forall w | w in NonZero(ws)
        ensures w in Addresses(data)
      {
        var i :| 0 <= i < |ws| && ws[i] == w;
        assert i < READABLE ==> ReadWords(data)[i] == w;
      }
      assert Addresses(data) == NonZero(ws);
    }
    if Addresses(data) == NonZero(ws) {
      forall i | READABLE <= i < |ws|
        ensures ws[i] == 0 || ws[i] in ReadWords(data)
      {
        assert ws[i] != 0 ==> ws[i] in NonZero(ws);
      }
    }
  }

  /** An address that follows 2^30 zero words is listed and not in the set. */
  lemma LateAddressUnread(data: seq<byte>, address: u32)
    requires |data| == 4 * READABLE + 4 && address != 0
    requires (forall i :: 0 <= i < 4 * READABLE ==> data[i] == 0) && data[4 * READABLE..] == LeBytes(address, 4)
    ensures address in NonZero(WordsOf(data)) && Addresses(data) == {}
  {
    LeBytesOf32(address);
    assert WordsOf(data)[READABLE] == Le32At(data, 4 * READABLE) == Le32At(data[4 * READABLE..], 0) == address;
    forall i | 0 <= i < READABLE
      ensures ReadWords(data)[i] == 0
    {
      assert ReadWords(data)[i] == Le32At(data, 4 * i);
    }
  }

  lemma NonZeroGrows(ws: seq<u32>, i: nat)
    requires i < |ws|
    ensures ws[i] == 0 ==> NonZero(ws[..i + 1]) == NonZero(ws[..i])
    ensures ws[i] != 0 ==> NonZero(ws[..i + 1]) == NonZero(ws[..i]) + {ws[i]}
  {
    assert ws[..i + 1] == ws[..i] + [ws[i]];
  }

  // ---- lists of dotted-quad addresses ----

  /** The addresses packed as callers do: four bytes each, network order. */
  function Packed(addresses: seq<u32>): (data: seq<byte>)
    ensures |data| == 4 * |addresses|
  {
    if addresses == [] then [] else Packed(addresses[..|addresses| - 1]) + Be32(addresses[|addresses| - 1])
  }

  lemma {:induction false} PackedWordAt(addresses: seq<u32>, i: nat)
    requires i < |addresses|
    ensures WordsOf(Packed(addresses))[i] == ToWord(addresses[i])
  {
    var m := |addresses| - 1;
    var before, last := Packed(addresses[..m]), Be32(addresses[m]);
    assert Packed(addresses) == before + last;
    if i == m {
      assert Packed(addresses)[4 * m..4 * m + 4] == last;
      AddressReadsBack(Packed(addresses), 4 * m, addresses[m]);
    } else {
      PackedWordAt(addresses[..m], i);
      assert Packed(addresses)[4 * i..4 * i + 4] == before[4 * i..4 * i + 4];
      SameFour(Packed(addresses), before, 4 * i);
    }
  }

  lemma SameFour(a: seq<byte>, b: seq<byte>, i: nat)
    requires i + 4 <= |a| && i + 4 <= |b| && a[i..i + 4] == b[i..i + 4]
    ensures Le32At(a, i) == Le32At(b, i)
  {
    var s := a[i..i + 4];
    assert a[i] == s[0] && a[i + 1] == s[1] && a[i + 2] == s[2] && a[i + 3] == s[3];
    assert b[i] == s[0] && b[i + 1] == s[1] && b[i + 2] == s[2] && b[i + 3] == s[3];
  }

  /** A set built from a packed list of up to 2^30 addresses holds the word of an address exactly when it is
      listed and not 0.0.0.0. */
  lemma PackedAddresses(addresses: seq<u32>, a: u32)
    requires |addresses| <= READABLE
    ensures ToWord(a) in Addresses(Packed(addresses)) <==> a != 0 && a in addresses
  {
    hide ToWord, Packed;
    ZeroWord(a);
    var ws := WordsOf(Packed(addresses));
    assert ReadWords(Packed(addresses)) == ws;
    if a in addresses {
      var i :| 0 <= i < |addresses| && addresses[i] == a;
      PackedWordAt(addresses, i);
    }
    if ToWord(a) in ws {
      var i :| 0 <= i < |ws| && ws[i] == ToWord(a);
      PackedWordAt(addresses, i);
      ToWordInvolutive(a);
      ToWordInvolutive(addresses[i]);
    }
  }

  lemma ZeroWord(a: u32)
    ensures ToWord(a) == 0 <==> a == 0
  {
    hide ToWord;
    WordOfZero();
    ToWordInvolutive(a);
  }

  lemma WordOfZero()
    ensures ToWord(0) == 0
  {
  }

  /** The word read in round i of the build loop. */
  lemma WordRead(data: seq<byte>, i: nat)
    requires i < |data| / 4 < 0x8000_0000
    ensures Wrap32(i * 4) + 4 <= |data|
    ensures Le32At(data, Wrap32(i * 4)) == ReadWords(data)[if i < READABLE then i else i - READABLE]
  {
    assert i >= READABLE ==> Wrap32(i * 4) == 4 * (i - READABLE);
  }

  lemma {:induction false} NonZeroSize(ws: seq<u32>)
    ensures |NonZero(ws)| <= |ws|
  {
    if ws == [] {
      assert NonZero(ws) == {};
    } else {
      var m := |ws| - 1;
      NonZeroSize(ws[..m]);
      NonZeroGrows(ws, m);
      assert ws[..m + 1] == ws;
    }
  }

  /** The words the first i rounds of the build loop have read. */
  ghost function WordsBefore(data: seq<byte>, i: nat): seq<u32> {
    ReadWords(data)[..Min(i, |ReadWords(data)|)]
  }

  lemma WordsBeforeGrow(data: seq<byte>, i: nat)
    requires i < |data| / 4 < 0x8000_0000
    ensures var ip := Le32At(data, Wrap32(i * 4));
            NonZero(WordsBefore(data, i + 1)) == NonZero(WordsBefore(data, i)) + if ip == 0 then {} else {ip}
    ensures |NonZero(WordsBefore(data, i + 1))| <= Min(|data| / 4, READABLE)
  {
    var ws := ReadWords(data);
    WordRead(data, i);
    NonZeroSize(WordsBefore(data, i + 1));
    if i < |ws| {
      NonZeroGrows(ws, i);
    } else {
      assert ws[i - READABLE] in ws[..|ws|];
    }
  }

  class IpSet {
    const slots: array<u32>
    const shift: nat

    ghost predicate Valid()
      reads slots
    {
      && 1 <= shift <= 28
      && slots.Length == Pow2(32 - shift)
      && Sound(slots[..], HighBits(32 - shift))
      && 2 * |SlotTable.Members(slots[..])| <= slots.Length
    }

    ghost function Members(): set<u32>
      reads slots
    {
      SlotTable.Members(slots[..])
    }

    constructor (bits: nat)
      requires 4 <= bits <= 31
      ensures fresh(slots) && shift == 32 - bits && slots.Length == Pow2(bits)
      ensures slots[..] == seq(Pow2(bits), _ => 0)
      ensures Valid() && Members() == {}
    {
      slots := new u32[Pow2(bits)](_ => 0);
      shift := 32 - bits;
      new;
      assert slots[..] == seq(Pow2(bits), _ => 0);
      HomesInRange(bits);
      EmptyTableIsSound(Pow2(bits), HighBits(bits));
      Pow2Grows(1, bits);
    }

    /** Insertion of one word by the build loop. */
    method Insert(ip: u32, mask: nat)
      requires Valid() && mask + 1 == slots.Length && ip != 0
      requires 2 * |Members() + {ip}| <= slots.Length
      modifies slots
      ensures Valid() && Members() == old(Members()) + {ip}
    {
      hide Sound, Probed, Mix, Pow2;
      ghost var bits, view, home := 32 - shift, slots[..], HighBits(32 - shift);
      ghost var e := SearchStarts(view, home, ip);
      var j: nat := Slot(shift, ip);
      while slots[j] != 0 && slots[j] != ip
        invariant j < |view| == slots.Length && view == slots[..] && Searching(view, home, ip, j, e)
        decreases Dist(|view|, j, e)
      {
        MaskedProbeStep(view, home, bits, ip, j, e);
        j := And(j + 1, mask);
      }
      PlaceKeepsSound(view, home, ip, j);
      slots[j] := ip;
      assert slots[..] == view[j := ip];
    }

    /** The build loop: inserts the n words of the data one after the other. */
    method Fill(data: seq<byte>, n: nat, mask: nat)
      requires Valid() && Members() == {} && mask + 1 == slots.Length
      requires n == |data| / 4 < 0x8000_0000 && 2 * Min(n, READABLE) <= slots.Length
      modifies slots
      ensures Valid() && Members() == Addresses(data)
    {
      assert NonZero(WordsBefore(data, 0)) == {} && WordsBefore(data, n) == ReadWords(data);
      hide ReadWords, WordsBefore, NonZero, SlotTable.Members, HighBits, Sound;
      for i := 0 to n
        invariant Valid() && Members() == NonZero(WordsBefore(data, i))
      {
        WordsBeforeGrow(data, i);
        var ip := Le32At(data, Wrap32(i * 4));
        if ip != 0 {
          Insert(ip, mask);
        }
      }
    }

    /** The table holds exactly the non-zero words read from the packed list, however often and in
        whatever order they occur. `granted` is the outcome of the two allocations. */
    static method Build(data: seq<byte>, granted: bool) returns (s: IpSet?)
      requires |data| / 4 < 0x8000_0000
      ensures s == null <==> !granted
      ensures s != null ==> fresh(s) && fresh(s.slots) && s.Valid() && s.Members() == Addresses(data)
      ensures s != null ==> s.shift == 32 - GrowBits(|data| / 4, 4)
    {
      var n: nat := Wrap32(|data| / 4);
      var cap, bits := 16, 4;
      while cap < Wrap32(n * 2 + 1) && bits < 31
        invariant 4 <= bits <= 31 && cap == Pow2(bits)
        invariant GrowBits(n, 4) == GrowBits(n, bits)
        decreases 31 - bits
      {
        cap, bits := 2 * cap, bits + 1;
      }
      GrowBitsFits(n, bits);
      if !granted {
        return null;
      }
      var t := new IpSet(bits);
      t.Fill(data, n, cap - 1);
      s := t;
    }

    /** Membership test of the capture path; an absent set contains nothing. */
    static method Has(s: IpSet?, ip: u32) returns (found: bool)
      requires s != null ==> s.Valid()
      ensures found <==> s != null && ip in s.Members()
    {
      if s == null || ip == 0 {
        return false;
      }
      var shift := s.shift;
      var mask := 0xffff_ffff / Pow2(shift);
      ghost var bits, view, home := 32 - shift, s.slots[..], HighBits(32 - shift);
      MaskFromShift(bits);
      ghost var e := SearchStarts(view, home, ip);
      var j: nat := Slot(shift, ip);
      while s.slots[j] != 0
        invariant j < |view| == s.slots.Length && view == s.slots[..] && Searching(view, home, ip, j, e)
        decreases Dist(|view|, j, e)
      {
        if s.slots[j] == ip {
          assert view[j] == ip;
          return true;
        }
        MaskedProbeStep(view, home, bits, ip, j, e);
        j := And(j + 1, mask);
      }
      AbsentAtHole(view, home, ip, j);
      return false;
    }
  }

  /** Building and then searching agrees with the mathematical set of the words read, which up to
      2^30 words is the set of the listed addresses. */
  method BuildThenHas(data: seq<byte>, ip: u32) returns (found: bool)
    requires |data| / 4 < 0x8000_0000
    ensures found <==> ip != 0 && ip in ReadWords(data)
    ensures |data| / 4 <= READABLE ==> (found <==> ip != 0 && ip in WordsOf(data))
  {
    var s := IpSet.Build(data, true);
    found := IpSet.Has(s, ip);
    EveryAddressReadIff(data);
    assert ip in NonZero(WordsOf(data)) <==> ip != 0 && ip in WordsOf(data);
  }

  /** Two sets of one size built from the same addresses occupy the same slots, one per address. */
  lemma SameAddressesSameSlots(s: IpSet, t: IpSet)
    requires s.Valid() && t.Valid() && s.shift == t.shift && s.Members() == t.Members()
    ensures Occupied(s.slots[..]) == Occupied(t.slots[..]) && |Occupied(s.slots[..])| == |s.Members()|
  {
    LayoutIndependentOfOrder(s.slots[..], t.slots[..], HighBits(32 - s.shift));
  }

  /** Reordering, repeating or zeroing entries of a list of fixed length does not change which slots
      the built table occupies. */
  method BuildReordered(data: seq<byte>, reordered: seq<byte>) returns (s: IpSet, t: IpSet)
    requires |data| / 4 < 0x8000_0000 && |data| / 4 == |reordered| / 4
    requires Addresses(data) == Addresses(reordered)
    ensures Occupied(s.slots[..]) == Occupied(t.slots[..]) && |Occupied(s.slots[..])| == |Addresses(data)|
  {
    var a := IpSet.Build(data, true);
    var b := IpSet.Build(reordered, true);
    SameAddressesSameSlots(a, b);
    s, t := a, b;
  }

  /** A set holding addresses of one /24 finds each of them on the first probe. */
  lemma Slash24FirstProbe(s: IpSet, a: byte, b: byte, c: byte)
    requires s.Valid() && s.shift <= 24 && s.Members() <= Slash24(a, b, c)
    ensures AtHome(s.slots[..], HighBits(32 - s.shift))
  {
    Slash24Spreads(32 - s.shift, a, b, c);
    FirstProbeIffHomesDistinct(s.slots[..], HighBits(32 - s.shift));
  }

  /** So does a set of 2^16 slots or more holding addresses of one /16. */
  lemma Slash16FirstProbe(s: IpSet, a: byte, b: byte)
    requires s.Valid() && s.shift <= 16 && s.Members() <= Slash16(a, b)
    ensures AtHome(s.slots[..], HighBits(32 - s.shift))
  {
    Slash16Spreads(32 - s.shift, a, b);
    FirstProbeIffHomesDistinct(s.slots[..], HighBits(32 - s.shift));
  }

  /** A list as long as a /16 builds a table large enough for that. */
  method BuildSlash16(data: seq<byte>, a: byte, b: byte) returns (s: IpSet)
    requires |data| == 4 * 0x1_0000 && Addresses(data) <= Slash16(a, b)
    ensures s.Valid() && s.Members() == Addresses(data) && AtHome(s.slots[..], HighBits(32 - s.shift))
  {
    var t := IpSet.Build(data, true);
    GrowBitsFits(0x1_0000, 4);
    Pow2OfTableBits();
    Pow2Grows(Min(32 - t.shift, 16), 16);
    Slash16FirstProbe(t, a, b);
    s := t;
  }
}
