/**
 * The Internet checksum of the network layer: the folded 32-bit sum against the ones'
 * complement sum of section 1 of RFC 1071, the IP header of section 3.1 of RFC 791, and
 * the checksum of TCP segments of section 3.1 of RFC 9293.
 */
module Checksum {
  import opened Common

  // ---------------------------------------------------------------------------------
  // Sums of 16-bit words
  // ---------------------------------------------------------------------------------

  /** The big-endian word at `j`; a last odd byte is padded with zero. */
  function WordAt(d: seq<Byte>, j: nat): (w: nat)
    requires j < |d|
    ensures w < 65536
  {
    256 * d[j] as nat + if j + 1 < |d| then d[j + 1] as nat else 0
  }

  /** The plain sum of the words from `j` on. */
  function Sum(d: seq<Byte>, j: nat): nat
    decreases |d| - j
  {
    if j < |d| then WordAt(d, j) + Sum(d, j + 2) else 0
  }

  /** Addition with the carry taken round to the low end. */
  function AddRound(a: nat, b: nat): nat {
    if a + b < 65536 then a + b else a + b - 65535
  }

  /** The ones' complement sum of the words from `j` on. */
  function OnesSum(d: seq<Byte>, j: nat): nat
    decreases |d| - j
  {
    if j < |d| then AddRound(WordAt(d, j), OnesSum(d, j + 2)) else 0
  }

  /** The carries folded in until none is left. */
  function Fold(n: nat): (r: nat)
    ensures r < 65536
    decreases n
  {
    if n < 65536 then n else Fold(n % 65536 + n / 65536)
  }

  /** The number from 1 to 65535 that is congruent to `n` modulo 65535; 0 for 0. */
  function Rep(n: nat): nat {
    if n == 0 then 0 else (n - 1) % 65535 + 1
  }

  lemma {:induction false} ModShift(x: nat, q: nat)
    ensures (x + 65535 * q) % 65535 == x % 65535
    decreases q
  {
    if q > 0 {
      ModShift(x, q - 1);
    }
  }

  /** Folding keeps the value modulo 65535 and turns only 0 into 0. */
  lemma {:induction false} FoldIsRep(n: nat)
    ensures Fold(n) == Rep(n)
    decreases n
  {
    if n >= 65536 {
      var q, r := n / 65536, n % 65536;
      FoldIsRep(r + q);
      ModShift(q + r - 1, q);
    }
  }

  lemma RepAdds(a: nat, b: nat)
    requires a < 65536
    ensures AddRound(a, Rep(b)) == Rep(a + b)
  {
    if b > 0 {
      var q := (b - 1) / 65535;
      ModShift(a + Rep(b) - 1, q);
    }
  }

  /** The folded plain sum is the ones' complement sum. */
  lemma {:induction false} FoldIsOnesSum(d: seq<Byte>, j: nat)
    ensures Fold(Sum(d, j)) == OnesSum(d, j) == Rep(Sum(d, j))
    decreases |d| - j
  {
    FoldIsRep(Sum(d, j));
    if j < |d| {
      FoldIsOnesSum(d, j + 2);
      RepAdds(WordAt(d, j), Sum(d, j + 2));
    }
  }

  // ---------------------------------------------------------------------------------
  // Changing one word
  // ---------------------------------------------------------------------------------

  /** `d` with the word at `j` replaced. */
  function SetWord(d: seq<Byte>, j: nat, w: nat): (r: seq<Byte>)
    requires j < |d| && w < 65536 && (j + 1 == |d| ==> w % 256 == 0)
    ensures |r| == |d| && WordAt(r, j) == w
  {
    var hi := d[j := (w / 256) as Byte];
    if j + 1 < |d| then hi[j + 1 := (w % 256) as Byte] else hi
  }

  lemma {:induction false} SumOfSet(d: seq<Byte>, j: nat, w: nat, i: nat)
    requires j < |d| && w < 65536 && (j + 1 == |d| ==> w % 256 == 0)
    requires i % 2 == j % 2
    ensures Sum(SetWord(d, j, w), i) == if i <= j then Sum(d, i) - WordAt(d, j) + w else Sum(d, i)
    decreases |d| - i
  {
    if i < |d| {
      SumOfSet(d, j, w, i + 2);
    }
  }

  lemma {:induction false} SumHasWord(d: seq<Byte>, j: nat, i: nat)
    requires i <= j < |d| && i % 2 == j % 2
    ensures WordAt(d, j) <= Sum(d, i)
    decreases j - i
  {
    if i < j {
      SumHasWord(d, j, i + 2);
    }
  }

  /** Two words can stand for each other in a nonzero sum only if they are equal or are the
      two zeros, 0x0000 and 0xFFFF. */
  lemma SameRep(s: nat, v: nat, w: nat)
    requires v < 65536 && w < 65536 && v <= s && s != 0 && s - v + w != 0
    ensures Rep(s) == Rep(s - v + w) <==> v == w || (v == 0 && w == 65535) || (v == 65535 && w == 0)
  {
  }

  // ---------------------------------------------------------------------------------
  // The checksum loop
  // ---------------------------------------------------------------------------------

  lemma {:induction false} SumBound(d: seq<Byte>, j: nat)
    requires j <= |d| + 1
    ensures Sum(d, j) <= 65535 * ((|d| + 1 - j) / 2)
    decreases |d| - j
  {
    if j < |d| {
      SumBound(d, j + 2);
    }
  }

  lemma {:induction false} Low32Adds(a: nat, b: nat)
    ensures Low32(Low32(a) + b) == Low32(a + b)
  {
    if a >= 0x1_0000_0000 {
      Low32Adds(a - 0x1_0000_0000, b);
    }
  }

  /** 32 bits hold the sum of up to 131074 bytes. */
  lemma NoWrap(d: seq<Byte>)
    ensures |d| <= 131074 ==> Fold(Low32(Sum(d, 0))) == OnesSum(d, 0)
  {
    SumBound(d, 0);
    FoldIsOnesSum(d, 0);
  }

  /** One word added in 32 bits. */
  lemma AddWord(data: seq<Byte>, i: nat, total: nat, sum: nat)
    requires i < |data| && sum == Low32(total) && total + Sum(data, i) == Sum(data, 0)
    ensures Low32(sum + WordAt(data, i)) == Low32(total + WordAt(data, i))
    ensures total + WordAt(data, i) + Sum(data, i + 2) == Sum(data, 0)
  {
    Low32Adds(total, WordAt(data, i));
  }

  method FoldCarries(n: nat) returns (sum: nat)
    ensures sum == Fold(n)
  {
    sum := n;
    while sum / 65536 != 0
      invariant Fold(sum) == Fold(n)
      decreases sum
    {
      sum := sum % 65536 + sum / 65536;
    }
  }

  /** The checksum: the complement of the sum taken in 32 bits and folded.  As long as 32
      bits hold the sum it is the complement of the ones' complement sum; 0 for no data. */
  method NetChecksum(data: seq<Byte>) returns (c: nat)
    ensures c < 65536
    ensures data == [] ==> c == 0
    ensures data != [] ==> c == 65535 - Fold(Low32(Sum(data, 0)))
    ensures 0 < |data| <= 131074 ==> c == 65535 - OnesSum(data, 0)
  {
    if |data| == 0 {
      return 0;
    }
    var sum, i := 0, 0;
    ghost var total: nat := 0;
    while i < |data| - 1
      invariant 0 <= i <= |data| && i % 2 == 0
      invariant sum == Low32(total) && total + Sum(data, i) == Sum(data, 0)
    {
      AddWord(data, i, total, sum);
      total := total + WordAt(data, i);
      sum := Low32(sum + (256 * data[i] as nat + data[i + 1] as nat));
      i := i + 2;
    }
    if |data| % 2 == 1 {
      AddWord(data, i, total, sum);
      sum := Low32(sum + 256 * data[|data| - 1] as nat);
    }
    sum := FoldCarries(sum);
    c := 65535 - sum;
    NoWrap(data);
  }

  /** What the checksum comes to for data of any length a packet has. */
  function Complement(d: seq<Byte>): (c: nat)
    ensures c < 65536 && Rep(Sum(d, 0)) + c == 65535
  {
    FoldIsOnesSum(d, 0);
    65535 - OnesSum(d, 0)
  }

  /** Data whose checksum was put into a zero word sums to all ones, so its checksum is 0. */
  lemma Resums(d: seq<Byte>, j: nat)
    requires j % 2 == 0 && j + 1 < |d| && WordAt(d, j) == 0
    ensures Complement(SetWord(d, j, Complement(d))) == 0
  {
    var c := Complement(d);
    SumOfSet(d, j, c, 0);
    RepAdds(c, Sum(d, 0));
  }

  // ---------------------------------------------------------------------------------
  // Packets
  // ---------------------------------------------------------------------------------

  method CopyInto(a: array<Byte>, at: nat, src: seq<Byte>)
    requires at + |src| <= a.Length
    modifies a
    ensures a[at..at + |src|] == src
    ensures a[..at] == old(a[..at]) && a[at + |src|..] == old(a[at + |src|..])
    ensures a[..at + |src|] == old(a[..at]) + src
  {
    for i := 0 to |src|
      invariant forall x :: at <= x < at + i ==> a[x] == src[x - at]
      invariant forall x :: 0 <= x < a.Length && !(at <= x < at + i) ==> a[x] == old(a[x])
    {
      a[at + i] := src[i];
    }
    assert a[..at + |src|] == old(a[..at]) + src;
  }

  /** The 20 header bytes before the checksum is filled in. */
  function IpHeader(localIp: seq<Byte>, destIp: seq<Byte>, proto: Byte, payLen: nat): seq<Byte>
    requires |localIp| == 4 && |destIp| == 4 && payLen <= 2014
  {
    [0x45, 0, ((20 + payLen) / 256) as Byte, ((20 + payLen) % 256) as Byte, 0, 0, 0, 0, 0x40, proto, 0, 0]
    + localIp + destIp
  }

  /** An IP packet: Ethernet addresses, a header that sums to all ones, and the payload cut
      to 2014 bytes. */
  method IpSend(destMac: seq<Byte>, localMac: seq<Byte>, localIp: seq<Byte>, destIp: seq<Byte>, proto: Byte,
                payload: seq<Byte>) returns (pkt: array<Byte>, total: nat)
    requires |destMac| == 6 && |localMac| == 6 && |localIp| == 4 && |destIp| == 4
    ensures fresh(pkt) && pkt.Length == 2048 && total == 34 + if |payload| > 2014 then 2014 else |payload|
    ensures pkt[..14] == destMac + localMac + [8, 0]
    ensures var h := IpHeader(localIp, destIp, proto, total - 34);
            pkt[14..34] == SetWord(h, 10, Complement(h)) && Complement(pkt[14..34]) == 0
    ensures pkt[14] == 0x45 && pkt[15] == 0 && 256 * pkt[16] as nat + pkt[17] as nat == total - 14
    ensures pkt[18..22] == [0, 0, 0, 0] && pkt[22] == 0x40 && pkt[23] == proto
    ensures pkt[26..30] == localIp && pkt[30..34] == destIp
    ensures Sum(pkt[14..34], 0) % 65535 == 0
    ensures pkt[34..total] == payload[..total - 34]
  {
    var payLen := if |payload| > 2014 then 2014 else |payload|;
    pkt := new Byte[2048](_ => 0);
    total := 14 + 20 + payLen;
    CopyInto(pkt, 0, destMac + localMac + [8, 0]);
    PutIpHeader(pkt, localIp, destIp, proto, payLen);
    ghost var front := pkt[..34];
    CopyInto(pkt, 34, payload[..payLen]);
    assert pkt[..34] == front;
    assert pkt[..14] == front[..14] && pkt[14..34] == front[14..34];
    ghost var h := IpHeader(localIp, destIp, proto, payLen);
    IpFields(localIp, destIp, proto, payLen, Complement(h));
    HeaderPlaces(pkt[..], SetWord(h, 10, Complement(h)));
    ZeroIff(pkt[14..34]);
  }

  /** What each byte of the header means, wherever the checksum is. */
  lemma IpFields(localIp: seq<Byte>, destIp: seq<Byte>, proto: Byte, payLen: nat, c: nat)
    requires |localIp| == 4 && |destIp| == 4 && payLen <= 2014 && c < 65536
    ensures var h := SetWord(IpHeader(localIp, destIp, proto, payLen), 10, c);
            && |h| == 20 && h[0] == 0x45 && h[1] == 0 && 256 * h[2] as nat + h[3] as nat == 20 + payLen
            && h[4..8] == [0, 0, 0, 0] && h[8] == 0x40 && h[9] == proto && h[12..16] == localIp && h[16..20] == destIp
  {
  }

  /** Where the bytes of the header lie in the packet. */
  lemma HeaderPlaces(pkt: seq<Byte>, h: seq<Byte>)
    requires |pkt| >= 34 && |h| == 20 && pkt[14..34] == h
    ensures pkt[14] == h[0] && pkt[15] == h[1] && pkt[16] == h[2] && pkt[17] == h[3]
    ensures pkt[18..22] == h[4..8] && pkt[22] == h[8] && pkt[23] == h[9]
    ensures pkt[26..30] == h[12..16] && pkt[30..34] == h[16..20]
  {
    forall i: nat | i < 20 ensures pkt[14 + i] == h[i] {
      assert pkt[14..34][i] == pkt[14 + i];
    }
    assert pkt[14 + 0] == h[0] && pkt[14 + 1] == h[1] && pkt[14 + 2] == h[2] && pkt[14 + 3] == h[3];
    assert pkt[14 + 8] == h[8] && pkt[14 + 9] == h[9];
    assert pkt[18..22] == pkt[14..34][4..8];
    assert pkt[26..30] == pkt[14..34][12..16];
    assert pkt[30..34] == pkt[14..34][16..20];
  }

  /** A checksum of 0 says that the words sum to a multiple of 65535, but not to nought. */
  lemma ZeroIff(d: seq<Byte>)
    ensures Complement(d) == 0 <==> Sum(d, 0) > 0 && Sum(d, 0) % 65535 == 0
  {
    if Sum(d, 0) > 0 {
      var q, r := (Sum(d, 0) - 1) / 65535, (Sum(d, 0) - 1) % 65535;
      ModShift(r + 1, q);
    }
  }

  method PutIpHeader(pkt: array<Byte>, localIp: seq<Byte>, destIp: seq<Byte>, proto: Byte, payLen: nat)
    requires pkt.Length == 2048 && |localIp| == 4 && |destIp| == 4 && payLen <= 2014
    modifies pkt
    ensures pkt[..14] == old(pkt[..14])
    ensures var h := IpHeader(localIp, destIp, proto, payLen);
            pkt[14..34] == SetWord(h, 10, Complement(h)) && Complement(pkt[14..34]) == 0
  {
    var h := IpHeader(localIp, destIp, proto, payLen);
    CopyInto(pkt, 14, h);
    var cksum := NetChecksum(pkt[14..34]);
    assert pkt[14..34] == h;
    pkt[24] := (cksum / 256) as Byte;
    pkt[25] := (cksum % 256) as Byte;
    assert pkt[14..34] == SetWord(h, 10, cksum);
    Resums(h, 10);
  }

  /** What a TCP checksum covers: the pseudo header and the segment. */
  function Pseudo(src: seq<Byte>, dst: seq<Byte>, seg: seq<Byte>): (p: seq<Byte>)
    requires |src| == 4 && |dst| == 4 && |seg| < 65536
    ensures |p| == 12 + |seg| && WordAt(p, 8) == 6 && p[12..] == seg
  {
    src + dst + [0, 6, (|seg| / 256) as Byte, (|seg| % 256) as Byte] + seg
  }

  /** The checksum over the pseudo header and the segment in a buffer of 2048 bytes; `over` says
      that the copy passes the end of the buffer, and the model stops there. */
  method TcpChecksum(src: seq<Byte>, dst: seq<Byte>, seg: seq<Byte>) returns (over: bool, c: nat)
    requires |src| == 4 && |dst| == 4 && |seg| < 65536
    ensures over <==> |seg| > 2036
    ensures !over ==> c == Complement(Pseudo(src, dst, seg))
  {
    var pseudo := new Byte[2048](_ => 0);
    CopyInto(pseudo, 0, src);
    assert pseudo[..4] == src;
    CopyInto(pseudo, 4, dst);
    assert pseudo[..8] == src + dst;
    CopyInto(pseudo, 8, [0, 6, (|seg| / 256) as Byte, (|seg| % 256) as Byte]);
    var room := pseudo.Length - 12;
    if |seg| > room {
      CopyInto(pseudo, 12, seg[..room]);
      return true, 0;
    }
    CopyInto(pseudo, 12, seg);
    assert pseudo[..12 + |seg|] == Pseudo(src, dst, seg);
    c := NetChecksum(pseudo[..12 + |seg|]);
    over := false;
  }

  /** When a received segment is accepted. */
  ghost predicate Verifies(src: seq<Byte>, dst: seq<Byte>, seg: seq<Byte>)
    requires |src| == 4 && |dst| == 4 && 18 <= |seg| < 65536
  {
    var c := Complement(Pseudo(src, dst, SetWord(seg, 16, 0)));
    WordAt(seg, 16) == if c == 0 then 65535 else c
  }

  /** The sum a segment's checksum covers: both addresses, the protocol number, the length and
      the segment. */
  ghost function Covered(src: seq<Byte>, dst: seq<Byte>, seg: seq<Byte>): nat
  {
    Sum(src, 0) + Sum(dst, 0) + 6 + |seg| + Sum(seg, 0)
  }

  lemma PseudoSum(src: seq<Byte>, dst: seq<Byte>, seg: seq<Byte>)
    requires |src| == 4 && |dst| == 4 && |seg| < 65536
    ensures Sum(Pseudo(src, dst, seg), 0) == Covered(src, dst, seg)
  {
    var tail: seq<Byte> := [0, 6, (|seg| / 256) as Byte, (|seg| % 256) as Byte];
    SumConcat(src + dst + tail, seg, 0);
    SumConcat(src + dst, tail, 0);
    SumConcat(src, dst, 0);
    assert Sum(tail, 2) == |seg|;
    assert Sum(tail, 0) == 6 + Sum(tail, 2);
  }

  /** A received segment is accepted if and only if its checksum field is not 0 and what the
      checksum covers, the field included, sums to a multiple of 65535. */
  lemma AcceptedIff(src: seq<Byte>, dst: seq<Byte>, seg: seq<Byte>)
    requires |src| == 4 && |dst| == 4 && 18 <= |seg| < 65536
    ensures Verifies(src, dst, seg) <==> WordAt(seg, 16) != 0 && Covered(src, dst, seg) % 65535 == 0
  {
    var w, cleared := WordAt(seg, 16), SetWord(seg, 16, 0);
    SumOfSet(seg, 16, 0, 0);
    SumHasWord(seg, 16, 0);
    PseudoSum(src, dst, cleared);
    PseudoPositive(src, dst, cleared);
    Fills(Covered(src, dst, cleared), w);
  }

  /** Exactly one nonzero word fills a nonzero sum up to a multiple of 65535. */
  lemma Fills(n: nat, w: nat)
    requires n > 0 && w < 65536
    ensures w == (if Rep(n) == 65535 then 65535 else 65535 - Rep(n)) <==> w != 0 && (n + w) % 65535 == 0
  {
    var q, r := (n - 1) / 65535, Rep(n);
    assert n + w == r + w + 65535 * q;
    ModShift(r + w, q);
  }

  /** Clears the checksum field, computes, restores the field and compares. */
  method TcpVerify(src: seq<Byte>, dst: seq<Byte>, seg: array<Byte>) returns (over: bool, ok: bool)
    requires |src| == 4 && |dst| == 4 && 18 <= seg.Length < 65536
    modifies seg
    ensures seg[..] == old(seg[..])
    ensures over <==> seg.Length > 2036
    ensures !over ==> (ok <==> Verifies(src, dst, seg[..]))
    ensures !over ==> (ok <==> (seg[16] != 0 || seg[17] != 0) && Covered(src, dst, seg[..]) % 65535 == 0)
  {
    var received := 256 * seg[16] as nat + seg[17] as nat;
    var hi, lo := seg[16], seg[17];
    seg[16], seg[17] := 0, 0;
    assert seg[..] == SetWord(old(seg[..]), 16, 0);
    var computed;
    over, computed := TcpChecksum(src, dst, seg[..]);
    seg[16], seg[17] := hi, lo;
    assert seg[..] == old(seg[..]);
    if computed == 0 {
      computed := 0xFFFF;
    }
    ok := received == computed;
    AcceptedIff(src, dst, seg[..]);
  }

  /** The bytes of a big-endian 32-bit field. */
  function Be32(v: nat): seq<Byte>
    requires v < 0x1_0000_0000
  {
    [(v / 0x100_0000) as Byte, (v / 0x1_0000 % 256) as Byte, (v / 256 % 256) as Byte, (v % 256) as Byte]
  }

  /** A segment before its checksum is filled in. */
  function TcpRaw(sport: nat, dport: nat, seqLocal: nat, seqRemote: nat, flags: nat, data: seq<Byte>): (s: seq<Byte>)
    requires sport < 65536 && dport < 65536 && seqLocal < 0x1_0000_0000 && seqRemote < 0x1_0000_0000
    ensures |s| == 20 + |data| && WordAt(s, 16) == 0
  {
    [(sport / 256) as Byte, (sport % 256) as Byte, (dport / 256) as Byte, (dport % 256) as Byte]
    + Be32(seqLocal) + Be32(seqRemote) + [0x50, (flags % 256) as Byte, 0x20, 0, 0, 0, 0, 0] + data
  }

  /** Builds a segment with its checksum, of at most 2028 data bytes; the receiver's check accepts
      it exactly when the checksum put in is not 0.  From 2017 data bytes on the checksum passes
      the end of its buffer. */
  method TcpBuild(localIp: seq<Byte>, remoteIp: seq<Byte>, sport: nat, dport: nat, seqLocal: nat, seqRemote: nat,
                  flags: nat, data: seq<Byte>) returns (over: bool, seg: array<Byte>, len: nat)
    requires |localIp| == 4 && |remoteIp| == 4
    requires sport < 65536 && dport < 65536 && seqLocal < 0x1_0000_0000 && seqRemote < 0x1_0000_0000
    ensures fresh(seg) && seg.Length == 2048 && len == 20 + Min(|data|, 2028)
    ensures over <==> |data| > 2016
    ensures !over ==>
              var raw := TcpRaw(sport, dport, seqLocal, seqRemote, flags, data);
              var c := Complement(Pseudo(localIp, remoteIp, raw));
              |raw| == len && seg[..len] == SetWord(raw, 16, c) && (Verifies(localIp, remoteIp, seg[..len]) <==> c != 0)
    ensures !over ==> SegmentFields(seg[..len], sport, dport, seqLocal, seqRemote, flags, data)
  {
    seg := new Byte[2048](_ => 0);
    var sent := if |data| > 2028 then data[..2028] else data;
    len := 20 + |sent|;
    var raw := TcpRaw(sport, dport, seqLocal, seqRemote, flags, sent);
    CopyInto(seg, 0, raw);
    assert seg[..len] == raw;
    var cksum;
    over, cksum := TcpChecksum(localIp, remoteIp, seg[..len]);
    if over {
      return;
    }
    seg[16] := (cksum / 256) as Byte;
    seg[17] := (cksum % 256) as Byte;
    assert seg[..len] == SetWord(raw, 16, cksum);
    BuiltVerifies(localIp, remoteIp, raw);
    TcpFields(sport, dport, seqLocal, seqRemote, flags, sent, cksum);
  }

  /** The four bytes at `i` as a big-endian number. */
  ghost function Be32At(s: seq<Byte>, i: nat): nat
    requires i + 3 < |s|
  {
    0x100_0000 * s[i] as nat + 0x1_0000 * s[i + 1] as nat + 0x100 * s[i + 2] as nat + s[i + 3] as nat
  }

  /** What each field of a segment holds, the checksum aside. */
  ghost predicate SegmentFields(s: seq<Byte>, sport: nat, dport: nat, seqLocal: nat, seqRemote: nat, flags: nat, data: seq<Byte>)
  {
    && |s| == 20 + |data| && s[20..] == data
    && 256 * s[0] as nat + s[1] as nat == sport && 256 * s[2] as nat + s[3] as nat == dport
    && Be32At(s, 4) == seqLocal && Be32At(s, 8) == seqRemote
    && s[12] == 0x50 && s[13] as nat == flags % 256
    && s[14] == 0x20 && s[15] == 0 && s[18] == 0 && s[19] == 0
  }

  lemma TcpFields(sport: nat, dport: nat, seqLocal: nat, seqRemote: nat, flags: nat, data: seq<Byte>, c: nat)
    requires sport < 65536 && dport < 65536 && seqLocal < 0x1_0000_0000 && seqRemote < 0x1_0000_0000 && c < 65536
    ensures SegmentFields(SetWord(TcpRaw(sport, dport, seqLocal, seqRemote, flags, data), 16, c),
                          sport, dport, seqLocal, seqRemote, flags, data)
  {
    var raw := TcpRaw(sport, dport, seqLocal, seqRemote, flags, data);
    Be32Is(seqLocal);
    Be32Is(seqRemote);
    assert raw[4..8] == Be32(seqLocal) && raw[8..12] == Be32(seqRemote);
    assert Be32At(raw, 4) == Be32At(raw[4..8], 0) && Be32At(raw, 8) == Be32At(raw[8..12], 0);
    assert SetWord(raw, 16, c)[20..] == raw[20..] == data;
  }

  lemma Be32Is(v: nat)
    requires v < 0x1_0000_0000
    ensures |Be32(v)| == 4 && Be32At(Be32(v), 0) == v
  {
    var a, b, c := v / 0x100_0000, v / 0x1_0000, v / 0x100;
    assert c == b * 256 + c % 256;
    assert b == a * 256 + b % 256;
    assert v == c * 256 + v % 256;
  }

  /** A segment whose checksum was put into the zero field is accepted exactly when that
      checksum is not 0: the receiver, but not the sender, writes 0 as 0xFFFF. */
  lemma BuiltVerifies(src: seq<Byte>, dst: seq<Byte>, raw: seq<Byte>)
    requires |src| == 4 && |dst| == 4 && 18 <= |raw| < 65536 && WordAt(raw, 16) == 0
    ensures var c := Complement(Pseudo(src, dst, raw));
            Verifies(src, dst, SetWord(raw, 16, c)) <==> c != 0
  {
    var c := Complement(Pseudo(src, dst, raw));
    assert SetWord(SetWord(raw, 16, c), 16, 0) == raw;
    PseudoPositive(src, dst, raw);
  }

  /** The protocol number keeps the sum above zero. */
  lemma PseudoPositive(src: seq<Byte>, dst: seq<Byte>, seg: seq<Byte>)
    requires |src| == 4 && |dst| == 4 && |seg| < 65536
    ensures 0 < Sum(Pseudo(src, dst, seg), 0) && Complement(Pseudo(src, dst, seg)) < 65535
  {
    SumHasWord(Pseudo(src, dst, seg), 8, 0);
  }

  lemma {:induction false} NoSum(d: seq<Byte>, j: nat)
    requires forall i: nat | j <= i < |d| :: d[i] == 0
    ensures Sum(d, j) == 0
    decreases |d| - j
  {
    if j < |d| {
      NoSum(d, j + 2);
    }
  }

  /** The sum of a header that holds nothing but a port, the offset and the window. */
  lemma HeaderSum(h: seq<Byte>)
    requires |h| == 20 && h[12] == 0x50 && h[14] == 0x20
    requires forall i: nat | 2 <= i < 20 && i != 12 && i != 14 :: h[i] == 0
    ensures Sum(h, 0) == WordAt(h, 0) + 0x5000 + 0x2000
  {
    NoSum(h, 16);
    assert Sum(h, 12) == 0x5000 + (0x2000 + Sum(h, 16));
    assert Sum(h, 4) == Sum(h, 8) && Sum(h, 8) == Sum(h, 12);
    assert Sum(h, 0) == WordAt(h, 0) + Sum(h, 4);
  }

  /** A segment that the sender builds and the receiver's check refuses: its sum is all ones
      before the checksum is filled in. */
  lemma ZeroChecksumRefused(ip: seq<Byte>, raw: seq<Byte>)
    requires ip == [0, 0, 0, 0] && raw == TcpRaw(36837, 0, 0, 0, 0, [])
    ensures !Verifies(ip, ip, SetWord(raw, 16, Complement(Pseudo(ip, ip, raw))))
  {
    PseudoSum(ip, ip, raw);
    NoSum(ip, 0);
    HeaderSum(raw);
    BuiltVerifies(ip, ip, raw);
  }

  /** After one covered word of an accepted segment changes (in the addresses, the header or
      the data), the segment is accepted again exactly when the word goes between 0x0000 and
      0xFFFF outside the checksum field. */
  lemma OneWordChange(src: seq<Byte>, dst: seq<Byte>, seg: seq<Byte>,
                      src2: seq<Byte>, dst2: seq<Byte>, seg2: seq<Byte>, j: nat, w: nat)
    requires |src| == 4 && |dst| == 4 && 18 <= |seg| < 65536
    requires |src2| == 4 && |dst2| == 4 && |seg2| == |seg|
    requires j % 2 == 0 && j < 12 + |seg| && j != 8 && j != 10
    requires w < 65536 && (j + 1 == 12 + |seg| ==> w % 256 == 0)
    requires Pseudo(src2, dst2, seg2) == SetWord(Pseudo(src, dst, seg), j, w)
    requires Verifies(src, dst, seg) && w != WordAt(Pseudo(src, dst, seg), j)
    ensures Verifies(src2, dst2, seg2) <==>
              var v := WordAt(Pseudo(src, dst, seg), j);
              j != 28 && ((v == 0 && w == 65535) || (v == 65535 && w == 0))
  {
    var p, p2 := Pseudo(src, dst, seg), Pseudo(src2, dst2, seg2);
    var z, z2 := Pseudo(src, dst, SetWord(seg, 16, 0)), Pseudo(src2, dst2, SetWord(seg2, 16, 0));
    ClearedPseudo(src, dst, seg);
    ClearedPseudo(src2, dst2, seg2);
    PseudoPositive(src, dst, SetWord(seg, 16, 0));
    PseudoPositive(src2, dst2, SetWord(seg2, 16, 0));
    if j == 28 {
      assert z2 == z;
    } else {
      var v := WordAt(p, j);
      SetsCommute(p, j, w);
      SumOfSet(z, j, w, 0);
      SumHasWord(z, j, 0);
      SameRep(Sum(z, 0), v, w);
    }
  }

  /** Two different words can be replaced in either order. */
  lemma SetsCommute(p: seq<Byte>, j: nat, w: nat)
    requires 29 < |p| && j < |p| && w < 65536 && (j + 1 == |p| ==> w % 256 == 0) && j % 2 == 0 && j != 28
    ensures SetWord(SetWord(p, j, w), 28, 0) == SetWord(SetWord(p, 28, 0), j, w)
    ensures WordAt(SetWord(p, 28, 0), j) == WordAt(p, j)
  {
  }

  /** The checksum field of the segment is word 28 of what is summed. */
  lemma ClearedPseudo(src: seq<Byte>, dst: seq<Byte>, seg: seq<Byte>)
    requires |src| == 4 && |dst| == 4 && 18 <= |seg| < 65536
    ensures Pseudo(src, dst, SetWord(seg, 16, 0)) == SetWord(Pseudo(src, dst, seg), 28, 0)
    ensures WordAt(Pseudo(src, dst, seg), 28) == WordAt(seg, 16)
  {
  }

  // ---------------------------------------------------------------------------------
  // Segments that do not fit a packet
  // ---------------------------------------------------------------------------------

  lemma {:induction false} SumShift(a: seq<Byte>, b: seq<Byte>, j: nat)
    ensures Sum(a + b, |a| + j) == Sum(b, j)
    decreases |b| - j
  {
    if j < |b| {
      SumShift(a, b, j + 2);
    }
  }

  /** The sum of two pieces, when the first has whole words. */
  lemma {:induction false} SumConcat(a: seq<Byte>, b: seq<Byte>, i: nat)
    requires i <= |a| && i % 2 == 0 && |a| % 2 == 0
    ensures Sum(a + b, i) == Sum(a, i) + Sum(b, 0)
    decreases |a| - i
  {
    if i < |a| {
      SumConcat(a, b, i + 2);
    } else {
      SumShift(a, b, 0);
    }
  }

  lemma RepDiff(a: nat, d: nat)
    requires a > 0
    ensures Rep(a + d) == Rep(a) <==> d % 65535 == 0
  {
    var q, r := (a - 1) / 65535, (a - 1) % 65535;
    var k, e := d / 65535, d % 65535;
    assert a + d - 1 == r + e + 65535 * (q + k);
    ModShift(r + e, q + k);
    SmallMod(r, e);
  }

  lemma SmallMod(r: nat, e: nat)
    requires r < 65535 && e < 65535
    ensures (r + e) % 65535 == r <==> e == 0
  {
  }

  /** What cutting a segment takes out of the sum: the difference of the lengths in the pseudo
      header, and the words cut off. */
  lemma CutSum(src: seq<Byte>, dst: seq<Byte>, raw: seq<Byte>, n: nat)
    requires |src| == 4 && |dst| == 4 && n <= |raw| < 65536 && n % 2 == 0
    ensures Sum(Pseudo(src, dst, raw), 0) == Sum(Pseudo(src, dst, raw[..n]), 0) + (|raw| - n) + Sum(raw[n..], 0)
  {
    var cut := Pseudo(src, dst, raw[..n]);
    CutPseudo(src, dst, raw, n);
    SumOfSet(cut, 10, |raw|, 0);
    SumConcat(SetWord(cut, 10, |raw|), raw[n..], 0);
  }

  lemma CutPseudo(src: seq<Byte>, dst: seq<Byte>, raw: seq<Byte>, n: nat)
    requires |src| == 4 && |dst| == 4 && n <= |raw| < 65536
    ensures WordAt(Pseudo(src, dst, raw[..n]), 10) == n
    ensures Pseudo(src, dst, raw) == SetWord(Pseudo(src, dst, raw[..n]), 10, |raw|) + raw[n..]
  {
  }

  /** A built segment that is cut to `n` bytes on its way is accepted if and only if its checksum
      is not 0 and what was cut off, lengths included, sums to a multiple of 65535. */
  lemma CutVerifies(src: seq<Byte>, dst: seq<Byte>, raw: seq<Byte>, n: nat)
    requires |src| == 4 && |dst| == 4 && 18 <= n <= |raw| < 65536 && n % 2 == 0 && WordAt(raw, 16) == 0
    ensures var c := Complement(Pseudo(src, dst, raw));
            Verifies(src, dst, SetWord(raw, 16, c)[..n]) <==> c != 0 && (|raw| - n + Sum(raw[n..], 0)) % 65535 == 0
  {
    var c, cut := Complement(Pseudo(src, dst, raw)), raw[..n];
    assert SetWord(raw, 16, c)[..n] == SetWord(cut, 16, c);
    assert SetWord(SetWord(cut, 16, c), 16, 0) == cut;
    PseudoPositive(src, dst, raw);
    PseudoPositive(src, dst, cut);
    CutSum(src, dst, raw, n);
    RepDiff(Sum(Pseudo(src, dst, cut), 0), |raw| - n + Sum(raw[n..], 0));
  }

  /** Builds a segment and sends it, unless its checksum passes the end of its buffer.  The packet
      carries at most 2014 bytes of it; what arrives is accepted exactly when the checksum is not 0
      and nothing was cut off that counts. */
  method TcpSend(destMac: seq<Byte>, localMac: seq<Byte>, localIp: seq<Byte>, remoteIp: seq<Byte>, sport: nat, dport: nat,
                 seqLocal: nat, seqRemote: nat, flags: nat, data: seq<Byte>) 
    returns (over: bool, pkt: array<Byte>, total: nat)
    requires |destMac| == 6 && |localMac| == 6 && |localIp| == 4 && |remoteIp| == 4
    requires sport < 65536 && dport < 65536 && seqLocal < 0x1_0000_0000 && seqRemote < 0x1_0000_0000
    ensures fresh(pkt) && pkt.Length == 2048
    ensures over <==> |data| > 2016
    ensures !over ==> total == 34 + if |data| > 1994 then 2014 else 20 + |data|
    ensures !over ==>
              var raw := TcpRaw(sport, dport, seqLocal, seqRemote, flags, data);
              var c := Complement(Pseudo(localIp, remoteIp, raw));
              && pkt[34..total] == SetWord(raw, 16, c)[..total - 34]
              && (Verifies(localIp, remoteIp, pkt[34..total]) <==>
                    c != 0 && (|raw| <= 2014 || (|raw| - 2014 + Sum(raw[2014..], 0)) % 65535 == 0))
  {
    var seg, len;
    over, seg, len := TcpBuild(localIp, remoteIp, sport, dport, seqLocal, seqRemote, flags, data);
    if over {
      pkt, total := new Byte[2048](_ => 0), 0;
      return;
    }
    ghost var raw := TcpRaw(sport, dport, seqLocal, seqRemote, flags, data);
    ghost var c := Complement(Pseudo(localIp, remoteIp, raw));
    pkt, total := IpSend(destMac, localMac, localIp, remoteIp, 6, seg[..len]);
    if |raw| > 2014 {
      CutVerifies(localIp, remoteIp, raw, 2014);
    } else {
      assert SetWord(raw, 16, c)[..|raw|] == SetWord(raw, 16, c);
    }
  }
}
