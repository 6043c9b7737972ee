/** Echo request building and reply checking of send_ping_wait_reply
    (applications/modem_shell/src/ping/icmp_ping.c).

    The ICMPv6 checksum is computed there from five separately complemented partial
    sums. The reference is the one range that section 8.1 of RFC 2460 and section 2.3 of
    RFC 4443 define: the pseudo-header followed by the whole ICMPv6 message. */
module Ping {
  import opened Bytes
  import opened Checksum

  const MTU: nat := 1500
  const IPV4_HDR: nat := 20
  const IPV6_HDR: nat := 40
  const ICMP_HDR: nat := 8
  const ICMP: byte := 1
  const ICMPV6: byte := 58
  const ECHO_REQUEST: byte := 8
  const ECHO_REQUEST6: byte := 128

  // ---------------------------------------------------------------- reference

  /** Section 8.1 of RFC 2460: source, destination, 32-bit length, three zero bytes, next header. */
  function PseudoHeader(src: seq<byte>, dst: seq<byte>, length: nat, next: byte): seq<byte>
    requires length < 0x1_0000
  {
    src + dst + [0, 0, length / 256, length % 256] + [0, 0, 0, next]
  }

  /** The range an ICMPv6 checksum covers for the n message bytes at the end of an IPv6
      header, with the length taken from the header's payload length field. */
  function Cover(b: seq<byte>, n: nat): seq<byte>
    requires IPV6_HDR + n <= |b|
  {
    PseudoHeader(b[8..24], b[24..40], 256 * (b[4] as int) + b[5], b[6]) + b[IPV6_HDR..IPV6_HDR + n]
  }

  /** Section 2.3 of RFC 4443 for a whole packet without extension headers: the
      pseudo-header carries the length of the message actually received. */
  predicate Rfc4443Valid(packet: seq<byte>) {
    && IPV6_HDR + 4 <= |packet| < 0x1_0000
    && RfcValid(PseudoHeader(packet[8..24], packet[24..40], |packet| - IPV6_HDR, packet[6])
                + packet[IPV6_HDR..])
  }

  /** The big-endian word at i. */
  function Word(b: seq<byte>, i: nat): (w: nat)
    requires i + 2 <= |b|
    ensures w <= 0xFFFF
  {
    256 * (b[i] as int) + b[i + 1]
  }

  // ------------------------------------------- five complemented partial sums

  /** Complements of partial sums add up to the negated sum. */
  lemma ComplementTotal(s: seq<byte>) returns (k: int)
    ensures Ics(s) * 256 + BeTotal(s) == 0xFFFF * k
  {
    RfcSumRepresents(s);
    var j := Quotient(RfcSum(s) - BeTotal(s));
    var c := RfcChecksum(s);
    var lo, hi := c % 256, c / 256;
    assert c == 256 * hi + lo && Ics(s) == 256 * lo + hi;
    assert 256 * Ics(s) == 0xFFFF * lo + c;
    k := lo + 1 - j;
  }

  /** What the five-part fold F is, byte for byte, in terms of the RFC checksum of a range with
      the same total: the checksum itself, except that a zero checksum comes out as 0xFFFF. */
  lemma FoldedParts(p1: seq<byte>, p2: seq<byte>, p3: seq<byte>, p4: seq<byte>, p5: seq<byte>,
                    f: nat, whole: seq<byte>)
    requires f <= 0xFFFF && Represents(f, Ics(p1) + Ics(p2) + Ics(p3) + Ics(p4) + Ics(p5))
    requires BeTotal(whole) == BeTotal(p1) + BeTotal(p2) + BeTotal(p3) + BeTotal(p4) + BeTotal(p5)
    requires Ics(p3) > 0
    ensures Swap16(f) == if RfcChecksum(whole) == 0 then 0xFFFF else RfcChecksum(whole)
  {
    hide Ics, RfcSum, BeTotal, RfcChecksum, Swap16, Represents;
    var sum := Ics(p1) + Ics(p2) + Ics(p3) + Ics(p4) + Ics(p5);
    var k1 := ComplementTotal(p1);
    var k2 := ComplementTotal(p2);
    var k3 := ComplementTotal(p3);
    var k4 := ComplementTotal(p4);
    var k5 := ComplementTotal(p5);
    assert 256 * sum + BeTotal(whole) == 0xFFFF * (k1 + k2 + k3 + k4 + k5);
    Closing(f, sum, k1 + k2 + k3 + k4 + k5, whole);
  }

  lemma Closing(f: nat, sum: nat, k: int, whole: seq<byte>)
    requires f <= 0xFFFF && sum > 0 && Represents(f, sum)
    requires 256 * sum + BeTotal(whole) == 0xFFFF * k
    ensures Swap16(f) == if RfcChecksum(whole) == 0 then 0xFFFF else RfcChecksum(whole)
  {
    hide RfcSum, BeTotal;
    RfcSumRepresents(whole);
    var j := Quotient(RfcSum(whole) - BeTotal(whole));
    var i := Quotient(f - sum);
    var lo, hi := f % 256, f / 256;
    assert f == 256 * hi + lo && Swap16(f) == 256 * lo + hi;
    assert 256 * f == Swap16(f) + 0xFFFF * hi;
    assert Swap16(f) - RfcChecksum(whole) == 0xFFFF * (256 * i + k + j - hi - 1);
    assert lo > 0 || hi > 0;
  }

  lemma NextHeaderNonZero(next: byte)
    ensures Ics([0, next]) > 0
  {
    var s: seq<byte> := [0, next];
    assert s[2..] == [];
    assert RfcSum(s) == next;
    var c := 0xFFFF - next;
    assert c / 256 == 255;
    assert Ics(s) == Swap16(c);
  }

  lemma Total2(a: byte, b: byte)
    ensures BeTotal([a, b]) == 256 * (a as int) + b
  {
    assert [a, b][2..] == [];
  }

  lemma Total4(a: byte, b: byte)
    ensures BeTotal([0, 0, a, b]) == 256 * (a as int) + b
    ensures BeTotal([0, 0, 0, b]) == b
  {
    assert [0, 0, a, b] == [0, 0] + [a, b] && [0, 0, 0, b] == [0, 0] + [0, b];
    BeTotalAppend([0, 0], [a, b]);
    BeTotalAppend([0, 0], [0, b]);
    Total2(0, 0);
    Total2(a, b);
    Total2(0, b);
  }

  /** The covered range, checksum field at zero, has the total of the five parts. */
  lemma CoverTotal(b: seq<byte>, n: nat)
    requires 4 <= n && IPV6_HDR + n <= |b|
    ensures |Cover(b, n)| == 40 + n
    ensures BeTotal(WithField(Cover(b, n), 42, 0))
         == BeTotal(b[8..40]) + BeTotal(b[4..6]) + BeTotal([0, b[6]]) + BeTotal(b[40..42]) + BeTotal(b[44..40 + n])
  {
    hide BeTotal;
    var addr, len4, next4 := b[8..24] + b[24..40], [0, 0, b[4], b[5]], [0, 0, 0, b[6]];
    var field: seq<byte> := [0, 0];
    var tail := b[44..40 + n];
    var z := WithField(Cover(b, n), 42, 0);
    var length := 256 * (b[4] as int) + b[5];
    assert length / 256 == b[4] && length % 256 == b[5];
    assert addr == b[8..40];
    assert z == addr + (len4 + (next4 + (b[40..42] + (field + tail))));
    BeTotalAppend(addr, len4 + (next4 + (b[40..42] + (field + tail))));
    BeTotalAppend(len4, next4 + (b[40..42] + (field + tail)));
    BeTotalAppend(next4, b[40..42] + (field + tail));
    BeTotalAppend(b[40..42], field + tail);
    BeTotalAppend(field, tail);
    assert b[4..6] == [b[4], b[5]];
    Total2(0, 0);
    Total2(b[4], b[5]);
    Total2(0, b[6]);
    Total4(b[4], b[5]);
    Total4(0, b[6]);
  }

  /** The checksum word the code computes for the message, as the big-endian word it stores
      and compares: the RFC checksum, but 0xFFFF in place of a zero one. */
  function Expected6(b: seq<byte>, n: nat): (c: nat)
    requires 4 <= n && IPV6_HDR + n <= |b|
    ensures 0 < c <= 0xFFFF
  {
    var range := Cover(b, n);
    var c := RfcChecksum(WithField(range, 42, 0));
    if c == 0 then 0xFFFF else c
  }

  /** Comparing with that word accepts exactly the valid messages whose field is not zero. */
  lemma ExpectedIffValid(b: seq<byte>, n: nat)
    requires 4 <= n && IPV6_HDR + n <= |b|
    ensures Word(b, 42) == Expected6(b, n) <==> RfcValid(Cover(b, n)) && Word(b, 42) != 0
  {
    hide RfcSum, BeTotal;
    var range := Cover(b, n);
    var z := WithField(range, 42, 0);
    var w := Word(b, 42);
    assert range[42] == b[42] && range[43] == b[43];
    assert w / 256 == b[42] && w % 256 == b[43];
    assert range == WithField(range, 42, w);
    FieldTotal(range, 42, w);
    ValidIff(range);
    RfcSumRepresents(z);
    var j := Quotient(RfcSum(z) - BeTotal(z));
    var c := RfcChecksum(z);
    // BeTotal(range) == BeTotal(z) + w, and BeTotal(z) + c == 0xFFFF * (1 - j)
    if w != 0 && BeTotal(range) % 0xFFFF == 0 {
      var k := Quotient(BeTotal(range));
      assert w - c == 0xFFFF * (k - 1 + j);
    }
    if w == Expected6(b, n) {
      Multiple(BeTotal(range), if c == 0 then 2 - j else 1 - j);
    }
  }

  /** Both the sender and the receiver compute this. */
  method Hcs6(buf: array<byte>, rest: int) returns (hcs: nat)
    requires 44 + SummedLen(rest) <= buf.Length
    ensures hcs <= 0xFFFF
    ensures Swap16(hcs) == Expected6(buf[..], 4 + SummedLen(rest))
  {
    hide Ics, RfcSum, BeTotal, Represents;
    var tbuf := new byte[2];
    var c1 := CheckIcs(buf, 8, 32);
    var c2 := CheckIcs(buf, 4, 2);
    tbuf[0] := 0;
    tbuf[1] := buf[6];
    var c3 := CheckIcs(tbuf, 0, 2);
    var c4 := CheckIcs(buf, 40, 2);
    var c5 := CheckIcs(buf, 44, rest);
    hcs := Fold(c1 + c2 + c3 + c4 + c5);
    ghost var b := buf[..];
    ghost var n := 4 + SummedLen(rest);
    assert tbuf[0..2] == [0, b[6]];
    assert buf[8..40] == b[8..40] && buf[4..6] == b[4..6] && buf[40..42] == b[40..42] && buf[44..40 + n] == b[44..40 + n];
    NextHeaderNonZero(b[6]);
    CoverTotal(b, n);
    FoldedParts(b[8..40], b[4..6], [0, b[6]], b[40..42], b[44..40 + n], hcs, WithField(Cover(b, n), 42, 0));
  }

  // ------------------------------------------------------------ reply checking

  /** The ways the reply check ends once an ICMP or ICMPv6 packet has been received. */
  datatype Verdict = HcsError | OtherReply | LengthError | Accepted

  /** Lines 440-449 and 482-499: the IPv4 reply check on the receive buffer. */
  method CheckReply4(buf: array<byte>, len: int, seqnr: byte) returns (v: Verdict)
    requires buf.Length == MTU && len <= MTU
    ensures v != HcsError <==> RfcValid(buf[20..20 + SummedLen(len - 20)])
    ensures v == Accepted <==>
            && RfcValid(buf[20..20 + SummedLen(len - 20)]) && buf[27] == seqnr && Word(buf[..], 2) == len
    ensures v == OtherReply <==> RfcValid(buf[20..20 + SummedLen(len - 20)]) && buf[27] != seqnr
  {
    hide RfcSum;
    var hcs := CheckIcs(buf, 20, len - 20);
    IcsZeroIff(buf[20..20 + SummedLen(len - 20)]);
    if hcs != 0 {
      return HcsError;
    }
    var pllen: int := 256 * (buf[2] as int) + buf[3];
    if buf[27] != seqnr {
      return OtherReply;
    }
    v := if pllen != len then LengthError else Accepted;
  }

  /** Lines 450-499: the IPv6 reply check on the receive buffer. */
  method CheckReply6(buf: array<byte>, len: int, seqnr: byte) returns (v: Verdict)
    requires buf.Length == MTU && len <= MTU
    ensures v != HcsError <==> ChecksumAccepted6(buf[..], len)
    ensures v == Accepted <==> Accepted6(buf[..], len, seqnr)
    ensures v == OtherReply <==> ChecksumAccepted6(buf[..], len) && buf[47] != seqnr
  {
    hide RfcSum;
    var hcs := Hcs6(buf, len - 44);
    ExpectedIffValid(buf[..], 4 + SummedLen(len - 44));
    var plhcs := buf[42] + 256 * (buf[43] as int);
    FieldCompare(buf[42], buf[43], hcs);
    if plhcs != hcs {
      return HcsError;
    }
    var pllen := 256 * (buf[4] as int) + buf[5] + IPV6_HDR;
    if buf[47] != seqnr {
      return OtherReply;
    }
    v := if pllen != len then LengthError else Accepted;
  }

  lemma FieldCompare(lo: byte, hi: byte, h: nat)
    requires h <= 0xFFFF
    ensures lo + 256 * (hi as int) == h <==> 256 * (lo as int) + hi == Swap16(h)
  {
    assert h == 256 * (h / 256) + h % 256;
  }

  /** The receive check passes: the bytes it sums (SummedLen(len - 44) of them after the
      field, even when len is too short) are valid and the field is not zero. */
  predicate ChecksumAccepted6(b: seq<byte>, len: int)
    requires |b| == MTU && len <= MTU
  {
    && RfcValid(Cover(b, 4 + SummedLen(len - 44)))
    && Word(b, 42) != 0
  }

  predicate Accepted6(b: seq<byte>, len: int, seqnr: byte)
    requires |b| == MTU && len <= MTU
  {
    ChecksumAccepted6(b, len) && b[47] == seqnr && Word(b, 4) + IPV6_HDR == len
  }

  lemma CoverIsPacket(b: seq<byte>, len: nat)
    requires 44 <= len <= |b| && len < 0x1_0000 && Word(b, 4) == len - IPV6_HDR
    ensures Rfc4443Valid(b[..len]) <==> RfcValid(Cover(b, len - 40))
  {
    hide RfcSum;
    var p := b[..len];
    assert p[8..24] == b[8..24] && p[24..40] == b[24..40] && p[40..] == b[40..len];
  }

  /** For every received packet with a whole checksum field, the reply is accepted exactly when
      section 2.3 of RFC 4443 accepts it, its field is not 0x0000, and length and sequence
      number match. */
  lemma AcceptedIffRfc4443(b: seq<byte>, len: int, seqnr: byte)
    requires |b| == MTU && 44 <= len <= MTU
    ensures Accepted6(b, len, seqnr) <==>
            && Rfc4443Valid(b[..len]) && Word(b, 42) != 0
            && b[47] == seqnr && Word(b, 4) == len - IPV6_HDR
  {
    hide RfcSum;
    assert 4 + SummedLen(len - 44) == len - 40;
    if Word(b, 4) == len - IPV6_HDR {
      CoverIsPacket(b, len);
    }
  }

  /** Both exceptions happen. A valid packet whose checksum is 0x0000 is refused... */
  lemma ZeroChecksumRefused(seqnr: byte) returns (b: seq<byte>)
    ensures |b| == MTU && b[6] == ICMPV6 && b[47] == seqnr && Word(b, 4) == 8
    ensures Rfc4443Valid(b[..48]) && Word(b, 42) == 0
    ensures !Accepted6(b, 48, seqnr)
  {
    // Any packet whose first source address word is the checksum of everything else.
    var base: seq<byte> := seq(MTU, i => 0)[5 := 8][6 := ICMPV6][47 := seqnr];
    var range := Cover(base, 8);
    var c := RfcChecksum(WithField(range, 0, 0));
    b := WithField(base, 8, c);
    ChecksumCloses(range, 0);
    hide RfcSum;
    SourceWord(base, 8, c);
    CoverIsPacket(b, 48);
  }

  lemma SourceWord(base: seq<byte>, n: nat, c: nat)
    requires IPV6_HDR + n <= |base| && c <= 0xFFFF
    ensures Cover(WithField(base, 8, c), n) == WithField(Cover(base, n), 0, c)
  {
    var b := WithField(base, 8, c);
    assert b[8..24] == WithField(base[8..24], 0, c);
    assert b[24..40] == base[24..40] && b[40..40 + n] == base[40..40 + n];
  }

  /** The rest of the covered range does not depend on the stored field. */
  lemma CoverField(b: seq<byte>, n: nat, c: nat)
    requires 4 <= n && IPV6_HDR + n <= |b| && c <= 0xFFFF
    ensures WithField(Cover(WithField(b, 42, c), n), 42, 0) == WithField(Cover(b, n), 42, 0)
    ensures Word(WithField(b, 42, c), 42) == c
  {
  }

  /** ...and a packet that ends before or inside the checksum field, which holds no whole ICMPv6
      message, is accepted when the buffer still holds a matching rest from before. */
  lemma ShortReplyAccepted(len: nat, seqnr: byte) returns (b: seq<byte>)
    requires IPV6_HDR <= len < IPV6_HDR + 4
    ensures |b| == MTU && b[6] == ICMPV6 && Accepted6(b, len, seqnr) && !Rfc4443Valid(b[..len])
  {
    hide RfcSum;
    var base: seq<byte> := seq(MTU, i => 0)[5 := len - IPV6_HDR][6 := ICMPV6][47 := seqnr];
    var n := 4 + SummedLen(len - 44);
    var c := Expected6(base, n);
    b := WithField(base, 42, c);
    CoverField(base, n, c);
    ExpectedIffValid(b, n);
  }

  /** Only packets valid under RFC 4443 are accepted, for exactly the lengths below the IPv6 header,
      where nothing is accepted, and those from a whole checksum field up. */
  lemma OnlyValidAcceptedIff(len: int)
    requires len <= MTU
    ensures (forall b: seq<byte>, seqnr: byte ::
               |b| == MTU && Accepted6(b, len, seqnr) ==> len >= 0 && Rfc4443Valid(b[..len]))
            <==> len < IPV6_HDR || IPV6_HDR + 4 <= len
  {
    hide ChecksumAccepted6, Rfc4443Valid;
    if IPV6_HDR <= len < IPV6_HDR + 4 {
      var b := ShortReplyAccepted(len, 0);
    } else if IPV6_HDR + 4 <= len {
      forall b: seq<byte>, seqnr: byte | |b| == MTU && Accepted6(b, len, seqnr) ensures Rfc4443Valid(b[..len]) {
        AcceptedIffRfc4443(b, len, seqnr);
      }
    }
  }

  // --------------------------------------------------------- packet building

  /** Payload byte for counter value n: a decimal digit character. */
  function Digit(n: nat): byte {
    n % 10 + 48
  }

  /** setip: the four bytes of a 32-bit address, lowest first. */
  function AddressBytes(ip: nat): (b: seq<byte>)
    requires ip < 0x1_0000_0000
    ensures |b| == 4 && Load32(b[0], b[1], b[2], b[3]) == ip
  {
    var q := ip / 0x100;
    var r := q / 0x100;
    [ip % 0x100, q % 0x100, r % 0x100, r / 0x100]
  }

  method SetIp(buf: array<byte>, at: nat, ip: nat)
    requires at + 4 <= buf.Length && ip < 0x1_0000_0000
    modifies buf
    ensures buf[..] == old(buf[..at]) + AddressBytes(ip) + old(buf[at + 4..])
  {
    hide AddressBytes;
    var b := AddressBytes(ip);
    buf[at], buf[at + 1], buf[at + 2], buf[at + 3] := b[0], b[1], b[2], b[3];
  }

  function Payload(len: nat, first: nat): (p: seq<byte>)
    ensures |p| == len
  {
    seq<byte>(len, (k: nat) => Digit(k + first))
  }

  method FillPayload(buf: array<byte>, at: nat, len: nat, first: nat)
    requires at + len <= buf.Length
    modifies buf
    ensures buf[..] == old(buf[..at]) + Payload(len, first) + old(buf[at + len..])
  {
    hide Digit;
    ghost var was := buf[..];
    var p := Payload(len, first);
    assert was == was[..at] + p[..0] + was[at..];
    for k := 0 to len
      invariant buf[..] == was[..at] + p[..k] + was[at + k..]
    {
      buf[at + k] := Digit(k + first);
      assert p[..k + 1] == p[..k] + [Digit(k + first)];
    }
  }

  /** s with the checksum of the whole of s stored at pos. */
  function Checksummed(s: seq<byte>, pos: nat): (r: seq<byte>)
    requires pos + 2 <= |s|
    ensures |r| == |s|
  {
    WithField(s, pos, RfcChecksum(WithField(s, pos, 0)))
  }

  /** IPv4 header of an echo request, its checksum field still zero. */
  function Header4(total: nat, src: nat, dst: nat): (h: seq<byte>)
    requires total < 0x1_0000 && src < 0x1_0000_0000 && dst < 0x1_0000_0000
    ensures |h| == IPV4_HDR
  {
    [0x45, 0, total / 256, total % 256, 0, 0, 0, 0, 64, ICMP, 0, 0] + AddressBytes(src) + AddressBytes(dst)
  }

  /** IPv6 header of an echo request. */
  function Header6(payload: nat, src: seq<byte>, dst: seq<byte>): (h: seq<byte>)
    requires payload < 0x1_0000 && |src| == 16 && |dst| == 16
    ensures |h| == IPV6_HDR
  {
    [0x60, 0, 0, 0, payload / 256, payload % 256, ICMPV6, 64] + src + dst
  }

  /** Echo message: type, code, checksum (zero here), identifier, sequence number, payload. */
  function Message(kind: byte, seqnr: byte, payload: seq<byte>): (m: seq<byte>)
    ensures |m| == ICMP_HDR + |payload|
  {
    [kind, 0, 0, 0, 0, 0, 0, seqnr] + payload
  }

  function Zeros(n: nat): (z: seq<byte>)
    ensures |z| == n
  {
    seq(n, _ => 0)
  }

  /** calc_ics replaces one stretch of the buffer. */
  method CalcAt(buf: array<byte>, at: nat, len: nat, pos: nat,
                ghost a: seq<byte>, ghost s: seq<byte>, ghost b: seq<byte>)
    requires |a| == at && |s| == len
    requires buf[..] == a + s + b && pos + 2 <= |s| && pos % 2 == 0
    modifies buf
    ensures buf[..] == a + Checksummed(s, pos) + b
    ensures RfcValid(Checksummed(s, pos))
  {
    hide RfcSum;
    assert buf[|a|..|a| + |s|] == s;
    CalcIcs(buf, at, len, pos);
    assert buf[|a|..|a| + |s|] == Checksummed(s, pos);
    assert buf[..] == buf[..|a|] + buf[|a|..|a| + |s|] + buf[|a| + |s|..];
    assert buf[..|a|] == a && buf[|a| + |s|..] == b;
  }

  method WriteHeader4(buf: array<byte>, total: nat, src: nat, dst: nat)
    requires total < 0x1_0000 && src < 0x1_0000_0000 && dst < 0x1_0000_0000
    requires buf.Length == MTU && buf[..] == Zeros(MTU)
    modifies buf
    ensures buf[..] == Header4(total, src, dst) + Zeros(MTU - IPV4_HDR)
  {
    hide AddressBytes;
    buf[0] := 0x45;
    buf[2] := total / 256;
    buf[3] := total % 256;
    buf[8] := 64;
    buf[9] := ICMP;
    assert buf[..12] == [0x45, 0, total / 256, total % 256, 0, 0, 0, 0, 64, ICMP, 0, 0];
    SetIp(buf, 12, src);
    SetIp(buf, 16, dst);
  }

  method WriteHeader6(buf: array<byte>, payload: nat, src: seq<byte>, dst: seq<byte>)
    requires payload < 0x1_0000 && |src| == 16 && |dst| == 16
    requires buf.Length == MTU && buf[..] == Zeros(MTU)
    modifies buf
    ensures buf[..] == Header6(payload, src, dst) + Zeros(MTU - IPV6_HDR)
  {
    buf[0] := 0x60;
    buf[4] := payload / 256;
    buf[5] := payload % 256;
    buf[6] := ICMPV6;
    buf[7] := 64;
    forall i | 0 <= i < 16 {
      buf[8 + i] := src[i];
    }
    forall i | 0 <= i < 16 {
      buf[24 + i] := dst[i];
    }
  }

  method WriteMessage(buf: array<byte>, at: nat, kind: byte, seqnr: byte, len: nat, first: nat, ghost header: seq<byte>)
    requires buf.Length == MTU && at + ICMP_HDR + len <= MTU && |header| == at
    requires buf[..] == header + Zeros(MTU - at)
    modifies buf
    ensures buf[..] == header + Message(kind, seqnr, Payload(len, first)) + Zeros(MTU - at - ICMP_HDR - len)
  {
    hide Payload;
    buf[at] := kind;
    buf[at + 7] := seqnr;
    ghost var m := [kind, 0, 0, 0, 0, 0, 0, seqnr];
    assert buf[..] == header + m + Zeros(MTU - at - 8);
    FillPayload(buf, at + 8, len, first);
    assert buf[..] == (header + m) + Payload(len, first) + Zeros(MTU - at - ICMP_HDR - len);
  }

  /** An IPv4 echo request of section 3.1 of RFC 791 and of RFC 792, byte by byte, with len
      digits for payload; the two checksums are stated apart. */
  predicate EchoRequest4(b: seq<byte>, src: nat, dst: nat, len: nat, seqnr: byte)
    requires 28 + len <= |b|
  {
    && b[0] == 0x45 && b[1] == 0 && Word(b, 2) == 28 + len && Word(b, 4) == 0 && Word(b, 6) == 0
    && b[8] == 64 && b[9] == 1
    && Load32(b[12], b[13], b[14], b[15]) == src && Load32(b[16], b[17], b[18], b[19]) == dst
    && b[20] == 8 && b[21] == 0 && Word(b, 24) == 0 && b[26] == 0 && b[27] == seqnr
    && (forall k :: 28 <= k < 28 + len ==> b[k] == (k - 20 + seqnr) % 10 + 48)
    && (forall k :: 28 + len <= k < |b| ==> b[k] == 0)
  }

  /** An IPv6 echo request of section 3 of RFC 2460 and section 4.1 of RFC 4443 in the same way. */
  predicate EchoRequest6(b: seq<byte>, src: seq<byte>, dst: seq<byte>, len: nat, seqnr: byte)
    requires 48 + len <= |b|
  {
    && b[0] == 0x60 && b[1] == 0 && Word(b, 2) == 0 && Word(b, 4) == 8 + len && b[6] == 58 && b[7] == 64
    && b[8..24] == src && b[24..40] == dst
    && b[40] == 128 && b[41] == 0 && Word(b, 44) == 0 && b[46] == 0 && b[47] == seqnr
    && (forall k :: 48 <= k < 48 + len ==> b[k] == (k - 48 + seqnr) % 10 + 48)
    && (forall k :: 48 + len <= k < |b| ==> b[k] == 0)
  }

  lemma Bytes4(b: seq<byte>, src: nat, dst: nat, len: nat, seqnr: byte)
    requires src < 0x1_0000_0000 && dst < 0x1_0000_0000 && IPV4_HDR + ICMP_HDR + len <= MTU
    requires b == Checksummed(Header4(28 + len, src, dst), 10)
                  + Checksummed(Message(ECHO_REQUEST, seqnr, Payload(len, 8 + seqnr)), 2)
                  + Zeros(MTU - 28 - len)
    ensures EchoRequest4(b, src, dst, len, seqnr)
  {
    hide Checksummed, Header4, Message, Payload, Load32;
    var h := Checksummed(Header4(28 + len, src, dst), 10);
    var m := Checksummed(Message(ECHO_REQUEST, seqnr, Payload(len, 8 + seqnr)), 2);
    Header4Bytes(28 + len, src, dst);
    MessageBytes(ECHO_REQUEST, seqnr, Payload(len, 8 + seqnr));
    assert forall i :: 0 <= i < 20 ==> b[i] == h[i];
    assert forall i :: 20 <= i < 28 + len ==> b[i] == m[i - 20];
    PayloadDigits(len, 8 + seqnr);
    forall k | 28 <= k < 28 + len ensures b[k] == (k - 20 + seqnr) % 10 + 48 {
      assert b[k] == m[8..][k - 28] == Payload(len, 8 + seqnr)[k - 28];
    }
  }

  lemma Header4Bytes(total: nat, src: nat, dst: nat)
    requires total < 0x1_0000 && src < 0x1_0000_0000 && dst < 0x1_0000_0000
    ensures var h := Checksummed(Header4(total, src, dst), 10);
      && h[0] == 0x45 && h[1] == 0 && Word(h, 2) == total && Word(h, 4) == 0 && Word(h, 6) == 0 && h[8] == 64 && h[9] == 1
      && Load32(h[12], h[13], h[14], h[15]) == src && Load32(h[16], h[17], h[18], h[19]) == dst
  {
    hide AddressBytes, RfcChecksum, Load32;
  }

  lemma MessageBytes(kind: byte, seqnr: byte, payload: seq<byte>)
    ensures var m := Checksummed(Message(kind, seqnr, payload), 2);
      m[0] == kind && m[1] == 0 && Word(m, 4) == 0 && m[6] == 0 && m[7] == seqnr && m[8..] == payload
  {
    hide RfcChecksum;
  }

  lemma PayloadDigits(len: nat, first: nat)
    ensures forall k :: 0 <= k < len ==> Payload(len, first)[k] == (k + first) % 10 + 48
  {
    forall k | 0 <= k < len ensures Payload(len, first)[k] == (k + first) % 10 + 48 {
      assert Payload(len, first)[k] == Digit(k + first);
    }
  }

  lemma Bytes6(b: seq<byte>, src: seq<byte>, dst: seq<byte>, len: nat, seqnr: byte)
    requires |src| == 16 && |dst| == 16 && IPV6_HDR + ICMP_HDR + len <= MTU && |b| == MTU
    requires WithField(b, 42, 0) == Header6(ICMP_HDR + len, src, dst)
                  + Message(ECHO_REQUEST6, seqnr, Payload(len, seqnr))
                  + Zeros(MTU - 48 - len)
    ensures EchoRequest6(b, src, dst, len, seqnr)
  {
    hide Payload;
    var h, m := Header6(8 + len, src, dst), Message(ECHO_REQUEST6, seqnr, Payload(len, seqnr));
    var z := WithField(b, 42, 0);
    assert forall i :: 0 <= i < MTU && i != 42 && i != 43 ==> b[i] == z[i];
    assert forall i :: 0 <= i < 40 ==> z[i] == h[i];
    assert forall i :: 40 <= i < 48 + len ==> z[i] == m[i - 40];
    assert b[8..24] == h[8..24] == src && b[24..40] == h[24..40] == dst;
    PayloadDigits(len, seqnr);
    forall k | 48 <= k < 48 + len ensures b[k] == (k - 48 + seqnr) % 10 + 48 {
      assert b[k] == m[8..][k - 48] == Payload(len, seqnr)[k - 48];
    }
  }

  /** The static sequence number survives from one request to the next. */
  class Pinger {
    var seqnr: byte

    constructor ()
      ensures seqnr == 0
    {
      seqnr := 0;
    }

    /** Lines 157-208. Addresses are the 32-bit values whose bytes, lowest first, are in
        network order; len is a payload that fits the buffer. */
    method BuildEchoRequest4(src: nat, dst: nat, len: nat) returns (buf: array<byte>)
      requires src < 0x1_0000_0000 && dst < 0x1_0000_0000
      requires IPV4_HDR + ICMP_HDR + len <= MTU
      modifies this
      ensures fresh(buf) && buf.Length == MTU
      ensures seqnr == if old(seqnr) == 255 then 1 else old(seqnr) + 1
      ensures var total := IPV4_HDR + ICMP_HDR + len;
        && buf[..] == Checksummed(Header4(total, src, dst), 10)
                      + Checksummed(Message(ECHO_REQUEST, seqnr, Payload(len, 8 + seqnr)), 2)
                      + Zeros(MTU - total)
        && RfcValid(buf[..IPV4_HDR])
        && RfcValid(buf[IPV4_HDR..total])
      ensures EchoRequest4(buf[..], src, dst, len, seqnr)
    {
      hide RfcSum, EchoRequest4, AddressBytes, Payload, Checksummed, Header4, Message;
      var total := len + IPV4_HDR + ICMP_HDR;
      buf := new byte[MTU](_ => 0);
      WriteHeader4(buf, total, src, dst);
      ghost var h := Header4(total, src, dst);
      assert buf[..] == [] + h + Zeros(MTU - IPV4_HDR);
      CalcAt(buf, 0, IPV4_HDR, 10, [], h, Zeros(MTU - IPV4_HDR));
      ghost var header := Checksummed(h, 10);
      assert buf[..] == header + Zeros(MTU - IPV4_HDR);
      if seqnr == 255 {
        seqnr := 0;
      }
      seqnr := seqnr + 1;
      WriteMessage(buf, IPV4_HDR, ECHO_REQUEST, seqnr, len, 8 + seqnr, header);
      ghost var m := Message(ECHO_REQUEST, seqnr, Payload(len, 8 + seqnr));
      CalcAt(buf, IPV4_HDR, total - IPV4_HDR, 2, header, m, Zeros(MTU - total));
      assert buf[..IPV4_HDR] == header && buf[IPV4_HDR..total] == Checksummed(m, 2);
      Bytes4(buf[..], src, dst, len, seqnr);
    }

    /** Lines 212-279. */
    method BuildEchoRequest6(src: seq<byte>, dst: seq<byte>, len: nat) returns (buf: array<byte>)
      requires |src| == 16 && |dst| == 16
      requires IPV6_HDR + ICMP_HDR + len <= MTU
      modifies this
      ensures fresh(buf) && buf.Length == MTU
      ensures seqnr == (old(seqnr) + 1) % 256
      ensures var total := IPV6_HDR + ICMP_HDR + len;
        && WithField(buf[..], 42, 0) == Header6(ICMP_HDR + len, src, dst)
                      + Message(ECHO_REQUEST6, seqnr, Payload(len, seqnr))
                      + Zeros(MTU - total)
        && Rfc4443Valid(buf[..total])
        && Accepted6(buf[..], total, seqnr)
      ensures EchoRequest6(buf[..], src, dst, len, seqnr)
    {
      hide RfcSum, EchoRequest6, Payload, Rfc4443Valid, Accepted6, Message, Header6;
      var payload := len + ICMP_HDR;
      Header6Length(payload, src, dst);
      buf := new byte[MTU](_ => 0);
      WriteHeader6(buf, payload, src, dst);
      seqnr := (seqnr + 1) % 256;
      WriteMessage(buf, IPV6_HDR, ECHO_REQUEST6, seqnr, len, seqnr, Header6(payload, src, dst));
      MessageFields(ECHO_REQUEST6, seqnr, Payload(len, seqnr));
      FinishRequest6(buf, payload, seqnr, Header6(payload, src, dst),
                     Message(ECHO_REQUEST6, seqnr, Payload(len, seqnr)));
      Bytes6(buf[..], src, dst, len, seqnr);
    }
  }

  lemma Header6Length(payload: nat, src: seq<byte>, dst: seq<byte>)
    requires payload < 0x1_0000 && |src| == 16 && |dst| == 16
    ensures Word(Header6(payload, src, dst), 4) == payload
  {
  }

  lemma MessageFields(kind: byte, seqnr: byte, payload: seq<byte>)
    ensures var m := Message(kind, seqnr, payload); m[2] == m[3] == 0 && m[7] == seqnr
  {
  }

  method FinishRequest6(buf: array<byte>, payload: nat, seqnr: byte, ghost header: seq<byte>, ghost m: seq<byte>)
    requires ICMP_HDR <= payload && IPV6_HDR + payload <= MTU
    requires |header| == IPV6_HDR && Word(header, 4) == payload
    requires |m| == payload && m[2] == m[3] == 0 && m[7] == seqnr
    requires buf.Length == MTU && buf[..] == header + m + Zeros(MTU - IPV6_HDR - payload)
    modifies buf
    ensures WithField(buf[..], 42, 0) == header + m + Zeros(MTU - IPV6_HDR - payload)
    ensures Rfc4443Valid(buf[..IPV6_HDR + payload])
    ensures Accepted6(buf[..], IPV6_HDR + payload, seqnr)
  {
    hide RfcSum;
    ghost var b := buf[..];
    assert b[42] == m[2] && b[43] == m[3] && b[47] == m[7];
    assert WithField(b, 42, 0) == b;
    StoreChecksum6(buf, payload);
    ghost var r := buf[..];
    assert forall i :: 0 <= i < MTU && i != 42 && i != 43 ==> r[i] == WithField(r, 42, 0)[i];
    assert Word(r, 4) == payload && r[47] == seqnr;
    CoverIsPacket(r, IPV6_HDR + payload);
  }

  /** Lines 258-279: compute the checksum of an n-byte ICMPv6 message and store it. */
  method StoreChecksum6(buf: array<byte>, n: nat)
    requires buf.Length == MTU && 4 <= n && IPV6_HDR + n <= MTU
    modifies buf
    ensures WithField(buf[..], 42, 0) == old(WithField(buf[..], 42, 0))
    ensures RfcValid(Cover(buf[..], n)) && Word(buf[..], 42) != 0
  {
    hide RfcSum;
    assert 4 + SummedLen(n - 4) == n;
    ghost var b := buf[..];
    var hcs := Hcs6(buf, n - 4);
    buf[42] := hcs % 256;
    buf[43] := hcs / 256;
    SwapBytes(hcs);
    assert buf[..] == WithField(b, 42, Swap16(hcs));
    CoverField(b, n, Swap16(hcs));
    ExpectedIffValid(buf[..], n);
  }
}
