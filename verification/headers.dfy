/** Locating and reading the IPv4 and transport headers of a captured frame. A frame is the
    sequence of its captured bytes, so every index below is a read below caplen. */
module Headers {
  import opened Words
  import opened FlowKey

  type Packet = seq<byte>

  // ---- what it means for an IPv4 header to be found ----

  predicate HeaderAt(p: Packet, o: nat) {
    o + 20 <= |p| && p[o] / 16 == 4
  }

  /** Tag protocol identifier 0x8100 or 0x88a8 in the two bytes before o. */
  predicate TagBefore(p: Packet, o: nat) {
    2 <= o <= |p| && ((p[o - 2] == 0x81 && p[o - 1] == 0x00) || (p[o - 2] == 0x88 && p[o - 1] == 0xa8))
  }

  /** The four bytes at o are skipped as a VLAN tag; the version nibble is looked at first. */
  predicate SkippedAt(p: Packet, o: nat) {
    o + 20 <= |p| && p[o] / 16 != 4 && TagBefore(p, o)
  }

  /** The header starts after t skipped tags. */
  predicate AfterTags(l2: nat, p: Packet, t: nat) {
    && t <= 2
    && (forall s: nat :: s < t ==> SkippedAt(p, l2 + 4 * s))
    && HeaderAt(p, l2 + 4 * t)
  }

  function Located(l2: nat, p: Packet): Option<nat> {
    if AfterTags(l2, p, 0) then Some(l2)
    else if AfterTags(l2, p, 1) then Some(l2 + 4)
    else if AfterTags(l2, p, 2) then Some(l2 + 8)
    else None
  }

  /** The offset is unique: Located finds the header after t tags for exactly one t, if any. */
  lemma LocatedIff(l2: nat, p: Packet, o: nat)
    ensures Located(l2, p) == Some(o) ==> o + 20 <= |p| && p[o] / 16 == 4
    ensures Located(l2, p) == Some(o) <==> exists t: nat :: AfterTags(l2, p, t) && o == l2 + 4 * t
  {
    forall s: nat, t: nat | AfterTags(l2, p, t) && s < t
      ensures !AfterTags(l2, p, s)
    {
      NoHeaderAmongTags(l2, p, s, t);
    }
    if Located(l2, p) == Some(o) {
      var t := (o - l2) / 4;
      assert AfterTags(l2, p, t);
    }
  }

  lemma NoHeaderAmongTags(l2: nat, p: Packet, s: nat, t: nat)
    requires AfterTags(l2, p, t) && s < t
    ensures !AfterTags(l2, p, s)
  {
    assert SkippedAt(p, l2 + 4 * s);
  }

  /** locate_ipv4: the header offset, or -1. */
  method LocateIpv4(l2_: nat, p: Packet) returns (off: int)
    ensures off >= 0 ==> Located(l2_, p) == Some(off)
    ensures off < 0 ==> off == -1 && Located(l2_, p) == None
  {
    var l2, vguard: nat := l2_, 0;
    while true
      invariant vguard <= 2 && l2 == l2_ + 4 * vguard
      invariant forall s: nat :: s < vguard ==> SkippedAt(p, l2_ + 4 * s)
      decreases 2 - vguard
    {
      if |p| < l2 + 20 {
        return -1;
      }
      if p[l2] / 16 == 4 {
        assert AfterTags(l2_, p, vguard);
        return l2;
      }
      if vguard >= 2 || l2 < 2 {
        return -1;
      }
      vguard := vguard + 1;
      if (p[l2 - 2] == 0x81 && p[l2 - 1] == 0x00) || (p[l2 - 2] == 0x88 && p[l2 - 1] == 0xa8) {
        l2 := l2 + 4;
      } else {
        return -1;
      }
    }
  }

  // ---- reading a located header ----

  function HeaderLength(p: Packet, l3: nat): nat
    requires l3 < |p|
  {
    (p[l3] % 16) * 4
  }

  /** TCP or UDP with a plausible header length and both ports captured. */
  predicate HasPorts(p: Packet, l3: nat) {
    && l3 + 20 <= |p|
    && HeaderLength(p, l3) >= 20
    && (p[l3 + 9] == 17 || p[l3 + 9] == 6)
    && l3 + HeaderLength(p, l3) + 4 <= |p|
  }

  function Source(p: Packet, l3: nat): u32
    requires l3 + 20 <= |p|
  {
    Le32At(p, l3 + 12)
  }

  function Destination(p: Packet, l3: nat): u32
    requires l3 + 20 <= |p|
  {
    Le32At(p, l3 + 16)
  }

  function SourcePort(p: Packet, l3: nat): u16
    requires HasPorts(p, l3)
  {
    Be16At(p, l3 + HeaderLength(p, l3))
  }

  function DestinationPort(p: Packet, l3: nat): u16
    requires HasPorts(p, l3)
  {
    Be16At(p, l3 + HeaderLength(p, l3) + 2)
  }

  function FlowAt(p: Packet, l3: nat): Flow
    requires HasPorts(p, l3)
  {
    Flow(Source(p, l3), Destination(p, l3), SourcePort(p, l3), DestinationPort(p, l3), p[l3 + 9])
  }
}
