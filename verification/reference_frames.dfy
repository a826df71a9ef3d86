/** What the Python reference reads from the frames the builders print. */
module ReferenceFrames {
  import opened Words
  import opened FlowKey
  import opened Headers
  import opened Classifier
  import opened Frames
  import opened FrameClasses
  import opened Reference

  lemma EtherTypeAt(vid: u16, inner: u16, tags: nat, rest: seq<byte>, s: nat)
    requires s <= tags
    ensures var f := EthernetHeader(vid, inner, tags) + rest;
            |f| == 14 + 4 * tags + |rest| && f[14 + 4 * tags..] == rest
            && Be16At(f, 12 + 4 * s) == if s < tags then 0x8100 else inner
  {
    var f := EthernetHeader(vid, inner, tags) + rest;
    if s < tags {
      TagBytesAt(vid, inner, tags, rest, s);
    } else {
      assert f[12 + 4 * tags..14 + 4 * tags] == Be16(inner);
      assert f[12 + 4 * tags] == Be16(inner)[0] && f[13 + 4 * tags] == Be16(inner)[1];
      Be16RoundTrip(inner);
    }
  }

  /** The ethertype walk passes every tag. */
  lemma {:induction false} WalkPassesTags(vid: u16, inner: u16, tags: nat, rest: seq<byte>, s: nat)
    requires s <= tags && !IsTag(inner)
    ensures TagWalk(EthernetHeader(vid, inner, tags) + rest, 14 + 4 * s, if s < tags then 0x8100 else inner)
         == Some((14 + 4 * tags, inner))
    decreases tags - s
  {
    if s == tags {
    } else {
      hide EthernetHeader;
      WalkPassesTags(vid, inner, tags, rest, s + 1);
      EtherTypeAt(vid, inner, tags, rest, s + 1);
    }
  }

  /** The payload of a built frame, behind any number of tags. */
  lemma BuiltPayload(vid: u16, inner: u16, tags: nat, rest: seq<byte>)
    requires !IsTag(inner)
    ensures EtherPayload(EthernetHeader(vid, inner, tags) + rest) == Some((14 + 4 * tags, inner))
  {
    EtherTypeAt(vid, inner, tags, rest, 0);
    WalkPassesTags(vid, inner, tags, rest, 0);
    hide EthernetHeader, TagWalk;
  }

  /** A frame that is not IPv4 by its ethertype is not parsed. */
  lemma OtherTypeNotParsed(vid: u16, inner: u16, tags: nat, rest: seq<byte>)
    requires !IsTag(inner) && inner != 0x0800
    ensures Parse(EthernetHeader(vid, inner, tags) + rest) == None
  {
    BuiltPayload(vid, inner, tags, rest);
  }

  /** What lies where in a written frame. */
  lemma WrittenHeader(vid: u16, tags: nat, proto: byte, src: u32, dst: u32, ihl: nat, body: seq<byte>)
    requires ihl < 16 && 4 * ihl + |body| < 0x1_0000
    ensures var f, off := EthernetHeader(vid, 0x0800, tags) + Ipv4Packet(proto, src, dst, body, ihl), 14 + 4 * tags;
            && EtherPayload(f) == Some((off, 0x0800)) && |f| == off + 20 + |body|
            && f[off] / 16 == 4 && HeaderLength(f, off) == 4 * ihl && f[off + 9] == proto
            && Be32At(f, off + 12) == src && Be32At(f, off + 16) == dst
            && (5 <= ihl && 4 * ihl - 20 <= |body| ==> f[off + 4 * ihl..] == body[4 * ihl - 20..])
  {
    var ip := Ipv4Packet(proto, src, dst, body, ihl);
    var f, off := EthernetHeader(vid, 0x0800, tags) + ip, 14 + 4 * tags;
    BuiltPayload(vid, 0x0800, tags, ip);
    EtherTypeAt(vid, 0x0800, tags, ip, 0);
    Ipv4Fields(proto, src, dst, body, ihl);
    assert f[off] == f[off..][0];
    hide EthernetHeader, Ipv4Packet, EtherPayload;
    SegmentLies(f, off, proto, src, dst, ihl, body);
    AddressesRead(f, off, src, dst);
  }

  /** Every written IPv4 frame, behind any number of tags: nothing when the claimed header is shorter than 20 bytes
      or not all there; otherwise the protocol and addresses written, with the ports in the first four bytes of a TCP
      or UDP segment, and ports 0 when the protocol has none or fewer than four bytes are there. */
  lemma BuildThenParseReference(vid: u16, tags: nat, proto: byte, src: u32, dst: u32, ihl: nat, body: seq<byte>)
    requires ihl < 16 && 4 * ihl + |body| < 0x1_0000
    ensures Parse(EthernetHeader(vid, 0x0800, tags) + Ipv4Packet(proto, src, dst, body, ihl)) ==
            if ihl < 5 || 4 * ihl - 20 > |body| then None
            else
              var s := body[4 * ihl - 20..];
              if (proto == 6 || proto == 17) && |s| >= 4
              then Some(Parsed(proto, src, dst, 0x100 * (s[0] as int) + s[1] as int, 0x100 * (s[2] as int) + s[3] as int))
              else Some(Parsed(proto, src, dst, 0, 0))
  {
    var f, off := EthernetHeader(vid, 0x0800, tags) + Ipv4Packet(proto, src, dst, body, ihl), 14 + 4 * tags;
    WrittenHeader(vid, tags, proto, src, dst, ihl, body);
    hide EthernetHeader, Ipv4Packet, EtherPayload, HeaderLength, FieldsAt, Be32At;
    if 5 <= ihl && 4 * ihl - 20 <= |body| {
      FieldsRead(f, off, body[4 * ihl - 20..]);
    }
  }

  lemma AddressesRead(f: Packet, off: nat, src: u32, dst: u32)
    requires off + 20 <= |f| && Source(f, off) == ToWord(src) && Destination(f, off) == ToWord(dst)
    ensures Be32At(f, off + 12) == src && Be32At(f, off + 16) == dst
  {
    hide ToWord, Le32;
    WordsReverse(f, off + 12);
    WordsReverse(f, off + 16);
    ToWordInvolutive(src);
    ToWordInvolutive(dst);
    ToWordInvolutive(Be32At(f, off + 12));
    ToWordInvolutive(Be32At(f, off + 16));
  }

  lemma FieldsRead(f: Packet, off: nat, s: seq<byte>)
    requires CompleteHeader(f, off) && f[off + HeaderLength(f, off)..] == s
    ensures var q := FieldsAt(f, off);
            && q.proto == f[off + 9] && q.src == Be32At(f, off + 12) && q.dst == Be32At(f, off + 16)
            && if (f[off + 9] == 6 || f[off + 9] == 17) && |s| >= 4
               then q.sport == 0x100 * (s[0] as int) + s[1] as int && q.dport == 0x100 * (s[2] as int) + s[3] as int
               else q.sport == q.dport == 0
  {
    var l4 := off + HeaderLength(f, off);
    assert |s| == |f| - l4;
    if |s| >= 4 {
      assert f[l4] == f[l4..][0] && f[l4 + 1] == f[l4..][1] && f[l4 + 2] == f[l4..][2] && f[l4 + 3] == f[l4..][3];
    }
    hide HeaderLength, Le32;
  }

  /** An ICMP frame is parsed with ports 0, and so is a TCP or UDP frame cut before its ports. */
  lemma NoPortsRead(vid: u16, tags: nat, proto: byte, src: u32, dst: u32, segment: seq<byte>)
    requires 20 + |segment| < 0x1_0000 && ((proto != 6 && proto != 17) || |segment| < 4)
    ensures Parse(EthernetHeader(vid, 0x0800, tags) + Ipv4Packet(proto, src, dst, segment, 5))
         == Some(Parsed(proto, src, dst, 0, 0))
  {
    hide Parse, EthernetHeader, Ipv4Packet;
    assert segment[0..] == segment;
    BuildThenParseReference(vid, tags, proto, src, dst, 5, segment);
  }

  /** The frames on which the two parsers are compared include every written frame with up to two tags, control words
      that do not start with nibble 4, a complete header, and ports where the protocol has them. */
  lemma BuiltIsRegular(vid: u16, tags: nat, proto: byte, src: u32, dst: u32, ihl: nat, body: seq<byte>)
    requires 5 <= ihl < 16 && 4 * ihl + |body| < 0x1_0000 && 4 * ihl - 20 <= |body|
    requires tags <= 2 && (tags > 0 ==> vid / 0x1000 != 4)
    requires proto == 6 || proto == 17 ==> |body| - (4 * ihl - 20) >= 4
    ensures Regular(EthernetHeader(vid, 0x0800, tags) + Ipv4Packet(proto, src, dst, body, ihl))
  {
    var ip := Ipv4Packet(proto, src, dst, body, ihl);
    var f := EthernetHeader(vid, 0x0800, tags) + ip;
    WrittenHeader(vid, tags, proto, src, dst, ihl, body);
    TagsUnlikeBuilt(vid, tags, ip);
    hide EthernetHeader, Ipv4Packet, EtherPayload, HeaderLength, TagsUnlikeIpv4;
    assert RegularAfter(f, tags);
  }

  lemma TagsUnlikeBuilt(vid: u16, tags: nat, rest: seq<byte>)
    requires tags > 0 ==> vid / 0x1000 != 4
    ensures TagsUnlikeIpv4(EthernetHeader(vid, 0x0800, tags) + rest, tags)
  {
    var f := EthernetHeader(vid, 0x0800, tags) + rest;
    hide EthernetHeader;
    forall s: nat | s < tags && 14 + 4 * s < |f|
      ensures f[14 + 4 * s] / 16 != 4
    {
      TagBytesAt(vid, 0x0800, tags, rest, s);
      assert (vid / 0x100) / 16 == vid / 0x1000;
    }
  }

  /** Both tag protocol identifiers are skipped: a frame with one tag of either kind, whose control word does not
      start with nibble 4, has its IPv4 header found behind the tag, by both parsers. */
  lemma EitherTagSkipped(f: Packet)
    requires 38 <= |f| && ((f[12] == 0x81 && f[13] == 0x00) || (f[12] == 0x88 && f[13] == 0xa8))
    requires f[14] / 16 != 4 && f[16] == 0x08 && f[17] == 0x00 && f[18] / 16 == 4
    ensures Located(14, f) == Some(18) && EtherPayload(f) == Some((18, 0x0800))
  {
    LocateByPosition(f);
    assert Be16At(f, 16) == 0x0800 && IsTag(Be16At(f, 12));
    assert TagWalk(f, 18, 0x0800) == Some((18, 0x0800));
  }
}
