/** The capture generator: header checksums and the ground truth it writes next to a capture. */
module Generator {
  import opened Words
  import opened Counting

  // ---- the internet checksum ----

  /** Sum of the big-endian 16-bit words of an even number of bytes. */
  function WordSum(data: seq<byte>): nat
    requires |data| % 2 == 0
  {
    if data == [] then 0 else WordSum(data[..|data| - 2]) + Be16At(data, |data| - 2)
  }

  function Padded(data: seq<byte>): (d: seq<byte>)
    ensures |d| % 2 == 0
  {
    if |data| % 2 != 0 then data + [0] else data
  }

  /** End-around carry: 0 stays 0, everything else becomes the representative in 1 .. 65535 of its
      class modulo 65535. */
  function Carried(s: nat): u16 {
    if s == 0 then 0 else 1 + (s - 1) % 65535
  }

  /** checksum: the complement of the one's complement sum of the data. */
  method Checksum(data_: seq<byte>) returns (c: u16)
    ensures c as int == 65535 - Carried(WordSum(Padded(data_))) as int
  {
    var data := Padded(data_);
    var s: nat := 0;
    for i := 0 to |data| / 2
      invariant s == WordSum(data[..2 * i])
    {
      assert data[..2 * (i + 1)][..2 * i] == data[..2 * i];
      s := s + Be16At(data, 2 * i);
    }
    assert data[..2 * (|data| / 2)] == data;
    ghost var total := s;
    while s / 0x1_0000 != 0
      invariant Carried(s) == Carried(total)
      decreases s
    {
      CarryStep(s);
      s := s % 0x1_0000 + s / 0x1_0000;
    }
    SettledSum(s);
    c := 65535 - s;
  }

  /** Folding the carry preserves the value modulo 65535, and never turns non-zero into zero. */
  lemma CarryStep(s: nat)
    requires s >= 0x1_0000
    ensures Carried(s % 0x1_0000 + s / 0x1_0000) == Carried(s)
    ensures s % 0x1_0000 + s / 0x1_0000 < s
  {
    var q, r := s / 0x1_0000, s % 0x1_0000;
    assert s - 1 == (r + q - 1) + 65535 * q;
    assert (s - 1) % 65535 == (r + q - 1) % 65535;
  }

  /** End-around carry keeps the value modulo 65535 and tells zero from everything else. */
  lemma CarriedIsRemainder(s: nat)
    ensures Carried(s) % 65535 == s % 65535 && (Carried(s) == 0 <==> s == 0)
  {
    if s > 0 {
      assert s == 65535 * ((s - 1) / 65535) + Carried(s);
    }
  }

  /** An odd number of bytes is summed as if a zero byte followed. */
  lemma OddByteIsHigh(data: seq<byte>)
    requires |data| % 2 == 1
    ensures WordSum(Padded(data)) == WordSum(data[..|data| - 1]) + 0x100 * (data[|data| - 1] as int)
  {
    PadOdd(data);
    WordSumSnoc(data[..|data| - 1], data[|data| - 1], 0);
    hide WordSum, Padded;
    assert data + [0] == data[..|data| - 1] + [data[|data| - 1], 0];
  }

  lemma PadOdd(data: seq<byte>)
    requires |data| % 2 == 1
    ensures Padded(data) == data + [0]
  {
  }

  lemma WordSumSnoc(data: seq<byte>, high: byte, low: byte)
    requires |data| % 2 == 0
    ensures WordSum(data + [high, low]) == WordSum(data) + 0x100 * (high as int) + low as int
  {
    assert (data + [high, low])[..|data|] == data;
  }

  lemma SettledSum(s: nat)
    requires s < 0x1_0000
    ensures Carried(s) == s
  {
  }

  lemma {:induction false} WordSumConcat(a: seq<byte>, b: seq<byte>)
    requires |a| % 2 == 0 && |b| % 2 == 0
    ensures WordSum(a + b) == WordSum(a) + WordSum(b)
    decreases |b|
  {
    if b == [] {
      assert a + b == a;
    } else {
      WordSumConcat(a, b[..|b| - 2]);
      assert (a + b)[..|a + b| - 2] == a + b[..|b| - 2];
      assert Be16At(a + b, |a + b| - 2) == Be16At(b, |b| - 2);
    }
  }

  lemma WordSumOf16(x: u16)
    ensures WordSum(Be16(x)) == x as int
  {
    Be16RoundTrip(x);
    assert Be16(x)[..0] == [];
    assert WordSum([]) == 0;
  }

  /** Adding the complement of a carried sum gives a multiple of 65535 other than 0. */
  lemma ComplementCompletes(s: nat)
    ensures Carried(s + (65535 - Carried(s) as int)) == 65535
  {
    if s > 0 {
      assert s - 1 == 65535 * ((s - 1) / 65535) + (s - 1) % 65535;
      assert s + (65535 - Carried(s) as int) - 1 == 65535 * ((s - 1) / 65535) + 65534;
    }
  }

  /** Whatever the rest of a header is, storing its checksum in a zeroed, aligned field makes the
      checksum of the completed header 0. */
  method CompletedHeaderChecks(before: seq<byte>, after: seq<byte>) returns (header: seq<byte>, check: u16)
    requires |before| % 2 == 0 && |after| % 2 == 0
    ensures |header| == |before| + 2 + |after| && header[..|before|] == before && header[|before| + 2..] == after
    ensures check == 0
  {
    hide WordSum, Carried;
    var blank := before + [0, 0] + after;
    var c := Checksum(blank);
    header := before + Be16(c) + after;
    check := Checksum(header);
    SumWithField(before, 0, after);
    SumWithField(before, c, after);
    assert Be16(0) == [0, 0];
    ComplementCompletes(WordSum(blank));
  }

  lemma SumWithField(before: seq<byte>, x: u16, after: seq<byte>)
    requires |before| % 2 == 0 && |after| % 2 == 0
    ensures WordSum(before + Be16(x) + after) == WordSum(before) + x as int + WordSum(after)
  {
    hide WordSum, Be16;
    WordSumConcat(before + Be16(x), after);
    WordSumConcat(before, Be16(x));
    WordSumOf16(x);
  }

  /** ipv4: a header with its checksum filled in, followed by the payload. The total length must
      fit its 16-bit field. */
  method Ipv4(proto: byte, src: u32, dst: u32, payload: seq<byte>) returns (packet: seq<byte>)
    requires 20 + |payload| < 0x1_0000
    ensures |packet| == 20 + |payload| && packet[20..] == payload
    ensures packet[..10] == [0x45, 0] + Be16(|packet|) + Be16(0x1234) + Be16(0x4000) + [64, proto]
    ensures packet[12..16] == Be32(src) && packet[16..20] == Be32(dst)
    // that is, the checksum of the completed header is 0
    ensures Carried(WordSum(packet[..20])) == 65535
  {
    hide WordSum, Carried, Be32;
    var before := [0x45, 0] + Be16(20 + |payload|) + Be16(0x1234) + Be16(0x4000) + [64, proto];
    var after := Be32(src) + Be32(dst);
    var blank := before + [0, 0] + after;
    var c := Checksum(blank);
    var header := blank[..10] + Be16(c) + blank[12..];
    assert header == before + Be16(c) + after;
    SumWithField(before, 0, after);
    SumWithField(before, c, after);
    assert Be16(0) == [0, 0];
    ComplementCompletes(WordSum(blank));
    packet := header + payload;
    assert packet[..20] == header;
    assert packet[..10] == before;
    assert packet[12..16] == after[..4] && packet[16..20] == after[4..];
  }

  // ---- flow counts ----

  /** build_flows: packet counts are drawn until they reach n packets, the last one cut short.
      `draw` is the random stream of counts, each at least 2. */
  method BuildFlows(n: nat, draw: nat -> nat) returns (counts: seq<nat>)
    requires forall k :: draw(k) >= 2
    ensures Sum(counts) == n
    ensures forall i :: 0 <= i < |counts| ==> 1 <= counts[i] <= draw(i)
    ensures forall i :: 0 <= i < |counts| - 1 ==> counts[i] == draw(i)
  {
    hide Sum;
    counts := [];
    var total := 0;
    SumAddsUp([], [], 0);
    while total < n
      invariant total == Sum(counts) <= n
      invariant forall i :: 0 <= i < |counts| ==> 1 <= counts[i] <= draw(i)
      invariant forall i :: 0 <= i < |counts| - 1 ==> counts[i] == draw(i)
      invariant counts != [] && total < n ==> counts[|counts| - 1] == draw(|counts| - 1)
      decreases n - total
    {
      var count := Min(draw(|counts|), n - total);
      SumAddsUp(counts, [count], count);
      counts := counts + [count];
      total := total + count;
    }
  }

  /** The online ground truth: one dictionary of counters, one total per cutoff. */
  method HeadCounts<K(==, !new)>(keys: seq<K>, cutoffs: set<nat>) returns (heads: map<nat, nat>)
    ensures heads.Keys == cutoffs
    ensures forall c :: c in cutoffs ==> heads[c] == SumOfMinima(c, keys)
  {
    heads := map c | c in cutoffs :: 0;
    var seen: map<K, nat> := map[];
    assert keys[..0] == [];
    for i := 0 to |keys|
      invariant heads.Keys == cutoffs
      invariant forall k :: (if k in seen then seen[k] else 0) == Occ(keys[..i], k)
      invariant forall c :: c in cutoffs ==> heads[c] == |FirstCopies(c, keys[..i])|
    {
      var key := keys[i];
      assert keys[..i + 1] == keys[..i] + [key];
      var n := (if key in seen then seen[key] else 0) + 1;
      forall k
        ensures Occ(keys[..i + 1], k) == Occ(keys[..i], k) + if k == key then 1 else 0
      {
        OccSnoc(keys[..i], key, k);
      }
      forall c | c in cutoffs
        ensures FirstCopies(c, keys[..i + 1]) == FirstCopies(c, keys[..i]) + (if Occ(keys[..i], key) < c then [key] else [])
      {
        FirstCopiesSnoc(c, keys[..i], key);
      }
      seen := seen[key := n];
      heads := map c | c in cutoffs :: heads[c] + if n <= c then 1 else 0;
    }
    assert keys[..|keys|] == keys;
    forall c | c in cutoffs
      ensures heads[c] == SumOfMinima(c, keys)
    {
      ExactHeadTotal(c, keys);
    }
  }

  /** set_for_fraction: addresses are taken from the front of the ranking until they cover `want`
      packets; the choice is the shortest prefix that does, or everything. */
  method SetForFraction(ranked: seq<(u32, nat)>, want: nat) returns (chosen: seq<u32>, got: nat)
    ensures |chosen| <= |ranked| && forall i :: 0 <= i < |chosen| ==> chosen[i] == ranked[i].0
    ensures got == Sum(CountsOf(ranked[..|chosen|]))
    ensures got >= want || |chosen| == |ranked|
    ensures forall k :: 0 <= k < |chosen| ==> Sum(CountsOf(ranked[..k])) < want
  {
    chosen, got := [], 0;
    assert ranked[..0] == [];
    for i := 0 to |ranked|
      invariant |chosen| == i && forall k :: 0 <= k < i ==> chosen[k] == ranked[k].0
      invariant got == Sum(CountsOf(ranked[..i]))
      invariant forall k :: 0 <= k < i ==> Sum(CountsOf(ranked[..k])) < want
    {
      if got >= want {
        break;
      }
      var (ip, c) := ranked[i];
      assert CountsOf(ranked[..i + 1])[..i] == CountsOf(ranked[..i]);
      chosen := chosen + [ip];
      got := got + c;
    }
  }

  function CountsOf(ranked: seq<(u32, nat)>): (cs: seq<nat>)
    ensures |cs| == |ranked|
  {
    seq(|ranked|, i requires 0 <= i < |ranked| => ranked[i].1)
  }
}
