/** The ClientHello builder of the test suite and the server-name walker of the flow-head example. */
module Tls {
  import opened Words
  import opened Headers
  import opened Frames

  // ---- the walker ----

  /** bytes.decode("ascii", "replace"): bytes above 127 become the replacement character. */
  function DecodeAscii(bs: seq<byte>): (s: string)
    ensures |s| == |bs|
  {
    seq(|bs|, i requires 0 <= i < |bs| => if bs[i] < 128 then bs[i] as char else '\U{FFFD}')
  }

  /** Position behind a length-prefixed field with a one-byte length; None if the length is not captured. */
  function Skip1(b: seq<byte>, p: nat): Option<nat> {
    if p < |b| then Some(p + 1 + b[p]) else None
  }

  function Skip2(b: seq<byte>, p: nat): Option<nat> {
    if p + 2 <= |b| then Some(p + 2 + Be16At(b, p)) else None
  }

  /** Start of the TCP payload of a TCP packet. */
  function TcpPayload(b: seq<byte>, ipOff: nat): Option<nat> {
    if ipOff + 9 >= |b| || b[ipOff + 9] != 6 then None
    else
      var l4 := ipOff + HeaderLength(b, ipOff);
      if l4 + 12 < |b| then Some(l4 + (b[l4 + 12] / 16) * 4) else None
  }

  /** Position of the extension block of a ClientHello that starts at rec, past the random bytes
      and three length-prefixed fields. */
  function ExtensionBlock(b: seq<byte>, rec: nat): Option<nat> {
    if |b| < rec + 43 || b[rec] != 0x16 || b[rec + 5] != 0x01 then None
    else
      match Skip1(b, rec + 43)
      case None => None
      case Some(p) =>
        match Skip2(b, p)
        case None => None
        case Some(q) => Skip1(b, q)
  }

  /** The extension walk from p up to end. */
  function FindName(b: seq<byte>, p: nat, end: nat): Option<seq<byte>>
    decreases end - p
  {
    if p + 4 > end || p + 4 > |b| then None
    else if Be16At(b, p) == 0 then
      if p + 9 <= |b| then
        var length := Be16At(b, p + 7);
        Some(if p + 9 + length <= |b| then b[p + 9..p + 9 + length] else b[p + 9..])
      else None
    else FindName(b, p + 4 + Be16At(b, p + 2), end)
  }

  function NameAt(b: seq<byte>, rec: nat): Option<seq<byte>> {
    match ExtensionBlock(b, rec)
    case None => None
    case Some(p) => if p + 2 <= |b| then FindName(b, p + 2, p + 2 + Be16At(b, p)) else None
  }

  function ServerName(b: seq<byte>, ipOff: nat): Option<string> {
    match TcpPayload(b, ipOff)
    case None => None
    case Some(rec) =>
      match NameAt(b, rec)
      case None => None
      case Some(bs) => Some(DecodeAscii(bs))
  }

  /** The cursor steps of the walker up to the extension block. */
  method SkipHello(b: seq<byte>, rec: nat) returns (block: Option<nat>)
    ensures block == ExtensionBlock(b, rec)
  {
    if |b| < rec + 43 || b[rec] != 0x16 || b[rec + 5] != 0x01 {
      return None;
    }
    var p: nat := rec + 5 + 4 + 2 + 32;
    if p >= |b| {
      return None;
    }
    p := p + 1 + b[p];
    if p + 2 > |b| {
      return None;
    }
    p := p + 2 + Be16At(b, p);
    if p >= |b| {
      return None;
    }
    p := p + 1 + b[p];
    return Some(p);
  }

  /** The walker's loop over the extensions. */
  method WalkExtensions(b: seq<byte>, block: nat) returns (name: Option<seq<byte>>)
    requires block + 2 <= |b|
    ensures name == FindName(b, block + 2, block + 2 + Be16At(b, block))
  {
    hide Be16At;
    var p: nat := block;
    var end := p + 2 + Be16At(b, p);
    p := p + 2;
    while p + 4 <= end && p + 4 <= |b|
      invariant FindName(b, block + 2, end) == FindName(b, p, end)
      decreases end - p
    {
      var etype, elen := Be16At(b, p), Be16At(b, p + 2);
      p := p + 4;
      if etype == 0x0000 {
        var np := p + 2 + 1;
        if np + 2 > |b| {
          return None;
        }
        var nlen := Be16At(b, np);
        if np + 2 + nlen <= |b| {
          return Some(b[np + 2..np + 2 + nlen]);
        }
        return Some(b[np + 2..]);
      }
      p := p + elen;
    }
    return None;
  }

  /** tls_server_name. An index error anywhere is caught and gives None. */
  method TlsServerName(b: seq<byte>, ipOff: nat) returns (name: Option<string>)
    ensures name == ServerName(b, ipOff)
  {
    hide ExtensionBlock, FindName, Join, DecodeAscii;
    if ipOff + 9 >= |b| {
      return None;
    }
    var ihl := (b[ipOff] % 16) * 4;
    var l4 := ipOff + ihl;
    if b[ipOff + 9] != 6 {
      return None;
    }
    if l4 + 12 >= |b| {
      return None;
    }
    var rec := l4 + (b[l4 + 12] / 16) * 4;
    var block := SkipHello(b, rec);
    if block.None? || block.value + 2 > |b| {
      return None;
    }
    var bytes := WalkExtensions(b, block.value);
    if bytes.None? {
      return None;
    }
    return Some(DecodeAscii(bytes.value));
  }

  // ---- the builder ----

  type Block = s: seq<byte> | |s| < 0x1_0000 witness []

  function Prefixed(s: Block): (r: seq<byte>)
    ensures |r| == 2 + |s|
  {
    Be16(|s|) + s
  }

  datatype Extension = Extension(kind: u16, data: Block)

  function Print(e: Extension): (s: seq<byte>)
    ensures |s| == 4 + |e.data|
  {
    Be16(e.kind) + Prefixed(e.data)
  }

  function PrintAll(es: seq<Extension>): seq<byte> {
    if es == [] then [] else Print(es[0]) + PrintAll(es[1..])
  }

  /** The server_name extension with one host name. */
  function NameData(name: seq<byte>): (s: Block)
    requires |name| < 0xfffb
    ensures |s| == 5 + |name|
  {
    Prefixed([0x00] + Prefixed(name))
  }

  /** A ClientHello record: record header, handshake header, version, random, session id, cipher
      suites, compression methods, extension block. The extension block must fit its length field,
      and so must what contains it. */
  function Hello(random: seq<byte>, session: seq<byte>, ciphers: Block, compression: seq<byte>, extensions: Block): (s: seq<byte>)
    requires |random| == 32 && |session| < 256 && |compression| < 256
    requires 44 + |session| + |ciphers| + |compression| + |extensions| < 0x1_0000
  {
    var body := [0x03, 0x03] + random + [|session|] + session + Prefixed(ciphers)
                + [|compression|] + compression + Prefixed(extensions);
    var handshake := [0x01] + Be32(|body|)[1..] + body;
    [0x16, 0x03, 0x03] + Prefixed(handshake)
  }

  // ---- round trip ----

  lemma Be16Reads(b: seq<byte>, p: nat, x: u16)
    requires At(b, p, Be16(x))
    ensures Be16At(b, p) == x
  {
    AtReads(b, p, Be16(x), 0);
    AtReads(b, p, Be16(x), 1);
    Be16RoundTrip(x);
  }

  lemma PrefixedReads(b: seq<byte>, p: nat, s: Block)
    requires At(b, p, Prefixed(s))
    ensures p + 2 <= |b| && Be16At(b, p) == |s| && At(b, p + 2, s)
  {
    hide At, Join;
    AtSplits(b, p, Be16(|s|), s);
    Be16Reads(b, p, |s|);
    AtIsInside(b, p + 2, s);
  }

  lemma AtIsInside(b: seq<byte>, p: nat, s: seq<byte>)
    requires At(b, p, s)
    ensures p + |s| <= |b|
  {
  }

  lemma ExtensionReads(b: seq<byte>, p: nat, e: Extension)
    requires At(b, p, Print(e))
    ensures p + 4 + |e.data| <= |b| && Be16At(b, p) == e.kind && Be16At(b, p + 2) == |e.data|
    ensures At(b, p + 4, e.data)
  {
    hide At, Join;
    AtSplits(b, p, Be16(e.kind), Prefixed(e.data));
    AtIsInside(b, p, Be16(e.kind));
    Be16Reads(b, p, e.kind);
    PrefixedReads(b, p + 2, e.data);
    AtIsInside(b, p + 4, e.data);
  }

  lemma PrintAllSplits(es: seq<Extension>)
    requires es != []
    ensures PrintAll(es) == Print(es[0]) + PrintAll(es[1..])
  {
  }

  lemma WalkStep(b: seq<byte>, p: nat, end: nat, e: Extension)
    requires At(b, p, Print(e)) && e.kind != 0 && p + |Print(e)| <= end
    ensures FindName(b, p, end) == FindName(b, p + |Print(e)|, end)
  {
    hide Print, Be16At, At;
    ExtensionReads(b, p, e);
  }

  /** The walk skips any list of other extensions. */
  lemma {:induction false} WalkSkips(b: seq<byte>, p: nat, end: nat, es: seq<Extension>)
    requires At(b, p, PrintAll(es)) && p + |PrintAll(es)| <= end
    requires forall e :: e in es ==> e.kind != 0
    ensures FindName(b, p, end) == FindName(b, p + |PrintAll(es)|, end)
    decreases |es|
  {
    hide Print, At, FindName;
    if es != [] {
      PrintAllSplits(es);
      hide PrintAll;
      AtSplits(b, p, Print(es[0]), PrintAll(es[1..]));
      WalkStep(b, p, end, es[0]);
      WalkSkips(b, p + |Print(es[0])|, end, es[1..]);
    } else {
      assert PrintAll(es) == [];
    }
  }

  lemma NameReads(b: seq<byte>, p: nat, end: nat, name: seq<byte>)
    requires |name| < 0xfffb
    requires At(b, p, Print(Extension(0, NameData(name)))) && p + 9 + |name| <= end
    ensures FindName(b, p, end) == Some(name)
  {
    hide Print, Join, At;
    ExtensionReads(b, p, Extension(0, NameData(name)));
    PrefixedReads(b, p + 4, [0x00] + Prefixed(name));
    AtSplits(b, p + 6, [0x00], Prefixed(name));
    PrefixedReads(b, p + 7, name);
    assert At(b, p + 9, name);
    SliceReads(b, p + 9, name);
  }

  lemma SliceReads(b: seq<byte>, p: nat, s: seq<byte>)
    requires At(b, p, s)
    ensures p + |s| <= |b| && b[p..p + |s|] == s
  {
  }

  /** The server name is found behind any list of other extensions, whatever follows it. */
  lemma NameFound(b: seq<byte>, p: nat, end: nat, es: seq<Extension>, name: seq<byte>)
    requires |name| < 0xfffb && forall e :: e in es ==> e.kind != 0
    requires At(b, p, PrintAll(es) + Print(Extension(0, NameData(name)))) && p + |PrintAll(es)| + 9 + |name| <= end
    ensures FindName(b, p, end) == Some(name)
  {
    hide PrintAll, Print, NameData, FindName, At;
    AtSplits(b, p, PrintAll(es), Print(Extension(0, NameData(name))));
    WalkSkips(b, p, end, es);
    NameReads(b, p + |PrintAll(es)|, end, name);
  }

  /** A block without a server_name extension has no server name. */
  lemma NoNameNotFound(b: seq<byte>, p: nat, es: seq<Extension>)
    requires forall e :: e in es ==> e.kind != 0
    requires At(b, p, PrintAll(es))
    ensures FindName(b, p, p + |PrintAll(es)|) == None
  {
    WalkSkips(b, p, p + |PrintAll(es)|, es);
  }

  /** The fixed part of a ClientHello leads the walker to its extension block. */
  lemma BlockReached(b: seq<byte>, rec: nat, random: seq<byte>, session: seq<byte>, ciphers: Block, compression: seq<byte>, extensions: Block)
    requires |random| == 32 && |session| < 256 && |compression| < 256
    requires 44 + |session| + |ciphers| + |compression| + |extensions| < 0x1_0000
    requires At(b, rec, Hello(random, session, ciphers, compression, extensions))
    ensures var p := rec + 47 + |session| + |ciphers| + |compression|;
            && ExtensionBlock(b, rec) == Some(p)
            && p + 2 + |extensions| <= |b| && Be16At(b, p) == |extensions| && At(b, p + 2, extensions)
  {
    hide Hello, Join, At, Prefixed, Be16At;
    BlockPieces(b, rec, random, session, ciphers, compression, extensions);
    var p1 := rec + 44 + |session|;
    var p2 := p1 + 2 + |ciphers|;
    assert Skip1(b, rec + 43) == Some(p1);
    assert Skip2(b, p1) == Some(p2);
    assert Skip1(b, p2) == Some(p2 + 1 + |compression|);
  }

  lemma AtSplitsFive(b: seq<byte>, p: nat, s0: seq<byte>, s1: seq<byte>, s2: seq<byte>, s3: seq<byte>, s4: seq<byte>)
    requires At(b, p, s0 + (s1 + (s2 + (s3 + s4))))
    ensures At(b, p, s0) && At(b, p + |s0| + |s1|, s2) && At(b, p + |s0| + |s1| + |s2|, s3)
    ensures At(b, p + |s0| + |s1| + |s2| + |s3|, s4)
  {
    hide At;
    AtSplits(b, p, s0, s1 + (s2 + (s3 + s4)));
    AtSplits(b, p + |s0|, s1, s2 + (s3 + s4));
    AtSplits(b, p + |s0| + |s1|, s2, s3 + s4);
    AtSplits(b, p + |s0| + |s1| + |s2|, s3, s4);
  }

  /** What the walker reads on its way to the extension block. */
  lemma BlockPieces(b: seq<byte>, rec: nat, random: seq<byte>, session: seq<byte>, ciphers: Block, compression: seq<byte>, extensions: Block)
    requires |random| == 32 && |session| < 256 && |compression| < 256
    requires 44 + |session| + |ciphers| + |compression| + |extensions| < 0x1_0000
    requires At(b, rec, Hello(random, session, ciphers, compression, extensions))
    ensures var p1 := rec + 44 + |session|; var p2 := p1 + 2 + |ciphers|; var p3 := p2 + 1 + |compression|;
            && p3 + 2 + |extensions| <= |b|
            && b[rec] == 0x16 && b[rec + 5] == 0x01 && b[rec + 43] == |session| && b[p2] == |compression|
            && Be16At(b, p1) == |ciphers| && Be16At(b, p3) == |extensions| && At(b, p3 + 2, extensions)
  {
    var h := Hello(random, session, ciphers, compression, extensions);
    HelloLayout(random, session, ciphers, compression, extensions);
    hide Hello, Join, At, Prefixed, Be16At;
    var head := h[..44];
    var p1 := rec + 44 + |session|;
    var p2 := p1 + 2 + |ciphers|;
    var r3 := Prefixed(extensions);
    var r2 := [|compression|] + compression;
    var r1 := Prefixed(ciphers);
    assert h == head + (session + (r1 + (r2 + r3)));
    AtSplitsFive(b, rec, head, session, r1, r2, r3);
    PrefixedReads(b, p1, ciphers);
    PrefixedReads(b, p2 + 1 + |compression|, extensions);
    AtIsInside(b, p2 + 3 + |compression|, extensions);
    AtReads(b, rec, head, 0);
    AtReads(b, rec, head, 5);
    AtReads(b, rec, head, 43);
    AtReads(b, p2, r2, 0);
  }

  lemma HelloLayout(random: seq<byte>, session: seq<byte>, ciphers: Block, compression: seq<byte>, extensions: Block)
    requires |random| == 32 && |session| < 256 && |compression| < 256
    requires 44 + |session| + |ciphers| + |compression| + |extensions| < 0x1_0000
    ensures var h := Hello(random, session, ciphers, compression, extensions);
            && |h| == 49 + |session| + |ciphers| + |compression| + |extensions|
            && h[0] == 0x16 && h[5] == 0x01 && h[43] == |session|
            && h == h[..44] + (session + (Prefixed(ciphers) + (([|compression|] + compression) + Prefixed(extensions))))
  {
  }

  // ---- the test packets ----

  predicate IsAscii(name: string) { forall i :: 0 <= i < |name| ==> name[i] < 128 as char }

  /** str.encode of an ASCII name. */
  function EncodeAscii(name: string): (bs: seq<byte>)
    requires IsAscii(name)
    ensures |bs| == |name|
  {
    seq(|name|, i requires 0 <= i < |name| => name[i] as int)
  }

  lemma AsciiRoundTrip(name: string)
    requires IsAscii(name)
    ensures DecodeAscii(EncodeAscii(name)) == name
  {
  }

  /** tls_client_hello, with any other extensions before and after the server name. */
  function TestHello(before: seq<Extension>, name: seq<byte>, after: seq<byte>): seq<byte>
    requires |PrintAll(before)| + 9 + |name| + |after| < 65489
  {
    Hello(seq(32, _ => 0x11), [], [0x13, 0x01], [0x00],
          PrintAll(before) + Print(Extension(0, NameData(name))) + after)
  }

  /** The record carries its server name wherever it lies in the captured bytes. */
  lemma HelloCarriesName(b: seq<byte>, rec: nat, before: seq<Extension>, name: seq<byte>, after: seq<byte>)
    requires |PrintAll(before)| + 9 + |name| + |after| < 65489
    requires forall e :: e in before ==> e.kind != 0
    requires At(b, rec, TestHello(before, name, after))
    ensures NameAt(b, rec) == Some(name)
  {
    hide Hello, PrintAll, Print, NameData, FindName, ExtensionBlock, Join, At, Prefixed;
    var named := PrintAll(before) + Print(Extension(0, NameData(name)));
    BlockReached(b, rec, seq(32, _ => 0x11), [], [0x13, 0x01], [0x00], named + after);
    AtSplits(b, rec + 52, named, after);
    NameFound(b, rec + 52, rec + 52 + |named + after|, before, name);
  }

  /** tls_packet: the record in a TCP segment to port 443 over IPv4 and Ethernet. */
  function TlsPacket(src: u32, dst: u32, sport: u16, flags: byte, before: seq<Extension>, name: seq<byte>, after: seq<byte>): seq<byte>
    requires |PrintAll(before)| + 9 + |name| + |after| < 65444
  {
    HelloSize(before, name, after);
    EthernetHeader(0, 0x0800, 0) + Ipv4Packet(6, src, dst, Tcp(sport, 443, flags, TestHello(before, name, after), 5), 5)
  }

  lemma HelloSize(before: seq<Extension>, name: seq<byte>, after: seq<byte>)
    requires |PrintAll(before)| + 9 + |name| + |after| < 65489
    ensures |TestHello(before, name, after)| == 52 + |PrintAll(before)| + 9 + |name| + |after|
  {
    HelloLayout(seq(32, _ => 0x11), [], [0x13, 0x01], [0x00], PrintAll(before) + Print(Extension(0, NameData(name))) + after);
  }

  /** Round trip: the walker returns the ASCII name the packet was built with, for every name that
      fits the length fields, behind any other extensions and before any further bytes. */
  lemma ServerNameRoundTrip(src: u32, dst: u32, sport: u16, flags: byte, before: seq<Extension>, name: string, after: seq<byte>)
    requires IsAscii(name) && |PrintAll(before)| + 9 + |name| + |after| < 65444
    requires forall e :: e in before ==> e.kind != 0
    ensures ServerName(TlsPacket(src, dst, sport, flags, before, EncodeAscii(name), after), 14) == Some(name)
  {
    hide TlsPacket, TestHello, At, TcpPayload, HeaderLength, NameAt, PrintAll, EncodeAscii, DecodeAscii, IsAscii;
    var bytes := EncodeAscii(name);
    var b := TlsPacket(src, dst, sport, flags, before, bytes, after);
    TlsPacketReadsBack(src, dst, sport, flags, before, bytes, after);
    HelloCarriesName(b, 54, before, bytes, after);
    AsciiRoundTrip(name);
  }

  lemma PayloadReached(b: seq<byte>, src: u32, dst: u32, segment: seq<byte>, payload: seq<byte>)
    requires 20 <= |segment| < 0x1_0000 - 20 && segment[12] == 80 && segment[20..] == payload
    requires b == EthernetHeader(0, 0x0800, 0) + Ipv4Packet(6, src, dst, segment, 5)
    ensures TcpPayload(b, 14) == Some(54) && 54 <= |b| && b[54..] == payload && HeaderLength(b, 14) == 20
  {
    Ipv4Fields(6, src, dst, segment, 5);
    assert b[14..] == Ipv4Packet(6, src, dst, segment, 5);
    HeaderReadsBack(b, 14, 6, src, dst, segment, 5);
    assert b[34..] == segment;
    assert b[46] == b[34..][12] && b[54..] == b[34..][20..];
  }

  // ---- packets without a name, and names cut off ----

  /** A packet that is not TCP, or whose segment does not hold a ClientHello record of 43 bytes, has no name. */
  lemma NoNameWithoutHello(link: seq<byte>, proto: byte, src: u32, dst: u32, ihl: nat, options: seq<byte>, segment: seq<byte>)
    requires |link| == 14 && 5 <= ihl < 16 && |options| == 4 * ihl - 20 && 4 * ihl + |options| + |segment| < 0x1_0000
    ensures var b := link + Ipv4Packet(proto, src, dst, options + segment, ihl);
            && (proto != 6 ==> ServerName(b, 14) == None)
            && (|segment| <= 12 ==> ServerName(b, 14) == None)
            && (|segment| > 12 ==>
                  var h := 4 * (segment[12] / 16);
                  |segment| < h + 43 || segment[h] != 0x16 || segment[h + 5] != 0x01 ==> ServerName(b, 14) == None)
  {
    var ip := Ipv4Packet(proto, src, dst, options + segment, ihl);
    var b := link + ip;
    assert b[14..] == ip;
    HeaderReadsBack(b, 14, proto, src, dst, options + segment, ihl);
    var l4 := 14 + 4 * ihl;
    assert b[l4..] == b[34..][|options|..] == segment;
    hide Ipv4Packet, HeaderLength;
    SegmentWithoutHello(b, l4, segment);
  }

  lemma SegmentWithoutHello(b: seq<byte>, l4: nat, segment: seq<byte>)
    requires 24 <= l4 <= |b| && b[l4..] == segment && HeaderLength(b, 14) == l4 - 14
    ensures b[23] != 6 || |segment| <= 12 ==> ServerName(b, 14) == None
    ensures |segment| > 12 ==>
              var h := 4 * (segment[12] / 16);
              |segment| < h + 43 || segment[h] != 0x16 || segment[h + 5] != 0x01 ==> ServerName(b, 14) == None
  {
    assert |segment| == |b| - l4;
    assert forall i :: 0 <= i < |segment| ==> b[l4 + i] == segment[i];
    hide HeaderLength, FindName, Skip1, Skip2;
    if |segment| > 12 {
      var h := 4 * (segment[12] / 16);
      if h + 43 <= |segment| {
        assert b[l4 + h] == segment[h] && b[l4 + (h + 5)] == segment[h + 5];
      }
    }
  }

  /** The common case: a TCP packet with a plain header has no name unless its payload starts a ClientHello. */
  lemma PlainTcpHasNoName(src: u32, dst: u32, sport: u16, dport: u16, flags: byte, payload: seq<byte>)
    requires 40 + |payload| < 0x1_0000
    requires |payload| < 43 || payload[0] != 0x16 || payload[5] != 0x01
    ensures ServerName(EthernetHeader(0, 0x0800, 0) + Ipv4Packet(6, src, dst, Tcp(sport, dport, flags, payload, 5), 5), 14) == None
  {
    var s := Tcp(sport, dport, flags, payload, 5);
    var b := EthernetHeader(0, 0x0800, 0) + Ipv4Packet(6, src, dst, s, 5);
    TcpIsPorted(sport, dport, flags, payload, 5);
    PayloadReached(b, src, dst, s, payload);
    hide Tcp, EthernetHeader, Ipv4Packet, TcpPayload;
    NoHelloNoBlock(b, 54, payload);
  }

  lemma NoHelloNoBlock(b: seq<byte>, rec: nat, payload: seq<byte>)
    requires rec <= |b| && b[rec..] == payload
    requires |payload| < 43 || payload[0] != 0x16 || payload[5] != 0x01
    ensures NameAt(b, rec) == None
  {
    assert |payload| == |b| - rec;
    assert |payload| >= 43 ==> b[rec] == b[rec..][0] && b[rec + 5] == b[rec..][5];
  }

  /** A ClientHello without a server_name extension has no name. */
  lemma HelloWithoutName(b: seq<byte>, rec: nat, random: seq<byte>, session: seq<byte>, ciphers: Block, compression: seq<byte>,
                         es: seq<Extension>)
    requires |random| == 32 && |session| < 256 && |compression| < 256
    requires 44 + |session| + |ciphers| + |compression| + |PrintAll(es)| < 0x1_0000
    requires forall e :: e in es ==> e.kind != 0
    requires At(b, rec, Hello(random, session, ciphers, compression, PrintAll(es)))
    ensures NameAt(b, rec) == None
  {
    hide Hello, PrintAll, FindName, ExtensionBlock, Be16At, At;
    BlockReached(b, rec, random, session, ciphers, compression, PrintAll(es));
    NoNameNotFound(b, rec + 49 + |session| + |ciphers| + |compression|, es);
  }

  /** The packet with such a ClientHello has none either. */
  lemma PacketWithoutName(src: u32, dst: u32, sport: u16, dport: u16, flags: byte, random: seq<byte>, session: seq<byte>,
                          ciphers: Block, compression: seq<byte>, es: seq<Extension>)
    requires |random| == 32 && |session| < 256 && |compression| < 256
    requires 89 + |session| + |ciphers| + |compression| + |PrintAll(es)| < 0x1_0000
    requires forall e :: e in es ==> e.kind != 0
    ensures var hello := Hello(random, session, ciphers, compression, PrintAll(es));
            |hello| == 49 + |session| + |ciphers| + |compression| + |PrintAll(es)|
            && ServerName(EthernetHeader(0, 0x0800, 0) + Ipv4Packet(6, src, dst, Tcp(sport, dport, flags, hello, 5), 5), 14) == None
  {
    HelloLayout(random, session, ciphers, compression, PrintAll(es));
    var hello := Hello(random, session, ciphers, compression, PrintAll(es));
    hide Hello, PrintAll, NameAt;
    var segment := Tcp(sport, dport, flags, hello, 5);
    var b := EthernetHeader(0, 0x0800, 0) + Ipv4Packet(6, src, dst, segment, 5);
    TcpIsPorted(sport, dport, flags, hello, 5);
    PayloadReached(b, src, dst, segment, hello);
    assert At(b, 54, hello);
    HelloWithoutName(b, 54, random, session, ciphers, compression, es);
  }

  lemma CutReads(b: seq<byte>, m: nat, p: nat)
    requires p + 2 <= m <= |b|
    ensures Be16At(b[..m], p) == Be16At(b, p)
  {
  }

  /** The walk over captured bytes that end at m finds the captured part of the name, if the capture reaches it. */
  lemma {:induction false} CutNameFound(b: seq<byte>, m: nat, p: nat, end: nat, es: seq<Extension>, name: seq<byte>)
    requires |name| < 0xfffb && m <= |b| && forall e :: e in es ==> e.kind != 0
    requires At(b, p, PrintAll(es)) && At(b, p + |PrintAll(es)|, Print(Extension(0, NameData(name))))
    requires p + |PrintAll(es)| + 9 + |name| <= end
    ensures var start := p + |PrintAll(es)| + 9;
            FindName(b[..m], p, end) == if m < start then None else Some(name[..Min(m - start, |name|)])
    decreases |es|
  {
    hide Print, At, FindName;
    if es == [] {
      CutNameRead(b, m, p, end, name);
    } else {
      PrintAllSplits(es);
      hide PrintAll, NameData;
      AtSplits(b, p, Print(es[0]), PrintAll(es[1..]));
      CutNameFound(b, m, p + |Print(es[0])|, end, es[1..], name);
      CutWalkStep(b, m, p, end, es[0]);
    }
  }

  lemma CutWalkStep(b: seq<byte>, m: nat, p: nat, end: nat, e: Extension)
    requires At(b, p, Print(e)) && e.kind != 0 && p + |Print(e)| <= end && m <= |b|
    ensures FindName(b[..m], p, end) == if m < p + 4 then None else FindName(b[..m], p + |Print(e)|, end)
  {
    hide Print, At, Be16At;
    ExtensionReads(b, p, e);
    if p + 4 <= m {
      CutReads(b, m, p);
      CutReads(b, m, p + 2);
    }
  }

  lemma CutNameRead(b: seq<byte>, m: nat, p: nat, end: nat, name: seq<byte>)
    requires |name| < 0xfffb && m <= |b| && p + 9 + |name| <= end
    requires At(b, p, Print(Extension(0, NameData(name))))
    ensures FindName(b[..m], p, end) == if m < p + 9 then None else Some(name[..Min(m - (p + 9), |name|)])
  {
    hide Print, Join, At;
    ExtensionReads(b, p, Extension(0, NameData(name)));
    PrefixedReads(b, p + 4, [0x00] + Prefixed(name));
    AtSplits(b, p + 6, [0x00], Prefixed(name));
    PrefixedReads(b, p + 7, name);
    SliceReads(b, p + 9, name);
    hide Be16At;
    if p + 4 <= m {
      CutReads(b, m, p);
    }
    if p + 9 <= m {
      CutReads(b, m, p + 7);
      if p + 9 + |name| <= m {
        assert b[..m][p + 9..p + 9 + |name|] == name == name[..|name|];
      } else {
        assert b[..m][p + 9..] == b[p + 9..p + 9 + |name|][..m - (p + 9)];
      }
    }
  }

  /** The fixed part of a ClientHello, of which the first m bytes of b are captured. */
  lemma CutBlockReached(b: seq<byte>, m: nat, rec: nat, p: nat)
    requires ExtensionBlock(b, rec) == Some(p) && m <= |b|
    ensures ExtensionBlock(b[..m], rec) == None || ExtensionBlock(b[..m], rec) == Some(p)
    ensures p <= m ==> ExtensionBlock(b[..m], rec) == Some(p)
  {
    var q1 := rec + 44 + b[rec + 43];
    if q1 + 2 <= m {
      CutReads(b, m, q1);
    }
  }

  /** Whatever part of the packet was captured: there is no name unless the capture reaches it, and then the
      captured part of it is returned. */
  lemma CutServerName(src: u32, dst: u32, sport: u16, flags: byte, before: seq<Extension>, name: string, after: seq<byte>, m: nat)
    requires IsAscii(name) && |PrintAll(before)| + 9 + |name| + |after| < 65444
    requires forall e :: e in before ==> e.kind != 0
    requires m <= |TlsPacket(src, dst, sport, flags, before, EncodeAscii(name), after)|
    ensures var start := 115 + |PrintAll(before)|;
            ServerName(TlsPacket(src, dst, sport, flags, before, EncodeAscii(name), after)[..m], 14)
            == if m < start then None else Some(name[..Min(m - start, |name|)])
  {
    hide TlsPacket, TestHello, At, TcpPayload, HeaderLength, ServerName, PrintAll, EncodeAscii, DecodeAscii, IsAscii;
    var bytes := EncodeAscii(name);
    var b := TlsPacket(src, dst, sport, flags, before, bytes, after);
    TlsPacketReadsBack(src, dst, sport, flags, before, bytes, after);
    CutPacketName(b, m, before, bytes, after);
    var start := 115 + |PrintAll(before)|;
    if start <= m {
      CutAscii(name, Min(m - start, |name|));
    }
  }

  lemma CutPacketName(b: seq<byte>, m: nat, before: seq<Extension>, name: seq<byte>, after: seq<byte>)
    requires |PrintAll(before)| + 9 + |name| + |after| < 65489 && m <= |b|
    requires forall e :: e in before ==> e.kind != 0
    requires |b| > 14 && TcpPayload(b, 14) == Some(54) && HeaderLength(b, 14) == 20
    requires At(b, 54, TestHello(before, name, after))
    ensures var start := 115 + |PrintAll(before)|;
            ServerName(b[..m], 14) == if m < start then None else Some(DecodeAscii(name[..Min(m - start, |name|)]))
  {
    hide TestHello, At, TcpPayload, HeaderLength, NameAt, PrintAll, DecodeAscii;
    CutPayload(b, m);
    CutName(b, m, 54, before, name, after);
  }

  lemma TlsPacketReadsBack(src: u32, dst: u32, sport: u16, flags: byte, before: seq<Extension>, name: seq<byte>, after: seq<byte>)
    requires |PrintAll(before)| + 9 + |name| + |after| < 65444
    ensures var b := TlsPacket(src, dst, sport, flags, before, name, after);
            && |b| > 14 && TcpPayload(b, 14) == Some(54) && HeaderLength(b, 14) == 20
            && At(b, 54, TestHello(before, name, after))
  {
    HelloSize(before, name, after);
    var hello := TestHello(before, name, after);
    hide TestHello, TcpPayload;
    var segment := Tcp(sport, 443, flags, hello, 5);
    var b := EthernetHeader(0, 0x0800, 0) + Ipv4Packet(6, src, dst, segment, 5);
    TcpIsPorted(sport, 443, flags, hello, 5);
    PayloadReached(b, src, dst, segment, hello);
  }

  lemma CutPayload(b: seq<byte>, m: nat)
    requires m <= |b| && TcpPayload(b, 14) == Some(54) && |b| > 14 && HeaderLength(b, 14) == 20
    ensures TcpPayload(b[..m], 14) == if m <= 46 then None else Some(54)
  {
  }

  lemma CutName(b: seq<byte>, m: nat, rec: nat, before: seq<Extension>, name: seq<byte>, after: seq<byte>)
    requires |PrintAll(before)| + 9 + |name| + |after| < 65489 && m <= |b|
    requires forall e :: e in before ==> e.kind != 0
    requires At(b, rec, TestHello(before, name, after))
    ensures var start := rec + 61 + |PrintAll(before)|;
            NameAt(b[..m], rec) == if m < start then None else Some(name[..Min(m - start, |name|)])
  {
    hide Hello, PrintAll, Print, NameData, FindName, ExtensionBlock, Join, At, Prefixed;
    var named := PrintAll(before) + Print(Extension(0, NameData(name)));
    BlockReached(b, rec, seq(32, _ => 0x11), [], [0x13, 0x01], [0x00], named + after);
    AtSplits(b, rec + 52, named, after);
    AtSplits(b, rec + 52, PrintAll(before), Print(Extension(0, NameData(name))));
    CutBlockReached(b, m, rec, rec + 50);
    CutNameFound(b, m, rec + 52, rec + 52 + |named + after|, before, name);
    if rec + 52 <= m {
      CutReads(b, m, rec + 50);
    }
  }

  lemma CutAscii(name: string, k: nat)
    requires IsAscii(name) && k <= |name|
    ensures DecodeAscii(EncodeAscii(name)[..k]) == name[..k]
  {
  }

  /** The record of tls_client_hello for a name alone, byte by byte. */
  lemma HelloBytes(name: seq<byte>)
    requires |name| < 65480
    ensures TestHello([], name, []) ==
            [0x16, 0x03, 0x03] + Be16(56 + |name|) + [0x01, 0x00] + Be16(52 + |name|) + [0x03, 0x03] + seq(32, _ => 0x11)
            + [0x00, 0x00, 0x02, 0x13, 0x01, 0x01, 0x00] + Be16(9 + |name|) + [0x00, 0x00] + Be16(5 + |name|)
            + Be16(3 + |name|) + [0x00] + Be16(|name|) + name
  {
  }
}
