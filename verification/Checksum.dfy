/** The Internet checksum of applications/modem_shell/src/ping/icmp_ping.c.

    The reference is sections 1 and 2 of RFC 1071: adjacent bytes paired into
    big-endian 16-bit words, added in one's complement arithmetic. The code adds
    little-endian 32-bit words with an end-around carry and folds afterwards. Both
    represent the same integer total modulo 65535, up to a byte swap. */
module Checksum {
  import opened Bytes

  // ---------------------------------------------------------------- reference

  /** One's complement addition of 16-bit words: the carry comes back in at the low end. */
  function OnesAdd(a: nat, b: nat): nat {
    if a + b > 0xFFFF then a + b - 0xFFFF else a + b
  }

  /** The first 16-bit word in network order; an odd last byte is padded with a zero byte. */
  function FirstWord(s: seq<byte>): nat
    requires s != []
  {
    var low: nat := if |s| == 1 then 0 else s[1];
    256 * s[0] + low
  }

  function Rest(s: seq<byte>): (r: seq<byte>)
    requires s != []
    ensures |r| < |s|
  {
    if |s| == 1 then [] else s[2..]
  }

  function RfcSum(s: seq<byte>): (r: nat)
    ensures r <= 0xFFFF
    decreases |s|
  {
    if s == [] then 0 else OnesAdd(FirstWord(s), RfcSum(Rest(s)))
  }

  /** The checksum a sender stores, as a big-endian word. */
  function RfcChecksum(s: seq<byte>): nat {
    0xFFFF - RfcSum(s)
  }

  /** A receiver accepts when the sum over the range, checksum field included, is all ones. */
  predicate RfcValid(s: seq<byte>) {
    RfcSum(s) == 0xFFFF
  }

  function Swap16(x: nat): (r: nat)
    requires x <= 0xFFFF
    ensures r <= 0xFFFF
  {
    (x % 256) * 256 + x / 256
  }

  // ---------------------------------------------------- totals and residues

  /** Integer total of the big-endian words. */
  ghost function BeTotal(s: seq<byte>): nat
    decreases |s|
  {
    if s == [] then 0 else FirstWord(s) + BeTotal(Rest(s))
  }

  /** Integer total of the little-endian words. */
  ghost function LeTotal(s: seq<byte>): nat
    decreases |s|
  {
    if s == [] then 0
    else
      var high: nat := if |s| == 1 then 0 else s[1];
      s[0] + 256 * high + LeTotal(Rest(s))
  }

  /** h stands for the total n: congruent modulo 65535, and zero only for zero
      (0 and 65535 are the two one's complement zeros and must not be confused). */
  ghost predicate Represents(h: nat, n: nat) {
    (h - n) % 0xFFFF == 0 && (h == 0 <==> n == 0)
  }

  /** 65535 divides x, by an explicit quotient. */
  lemma Multiple(x: int, k: int)
    requires x == 0xFFFF * k
    ensures x % 0xFFFF == 0
  {
  }

  lemma Quotient(x: int) returns (k: int)
    requires x % 0xFFFF == 0
    ensures x == 0xFFFF * k
  {
    k := x / 0xFFFF;
  }

  lemma RepresentsUnique(a: nat, b: nat, n: nat)
    requires a <= 0xFFFF && b <= 0xFFFF
    requires Represents(a, n) && Represents(b, n)
    ensures a == b
  {
    var j := Quotient(a - n);
    var k := Quotient(b - n);
    assert a - b == 0xFFFF * (j - k);
  }

  lemma OnesAddRepresents(a: nat, b: nat, m: nat, n: nat)
    requires Represents(a, m) && Represents(b, n)
    ensures Represents(OnesAdd(a, b), m + n)
  {
    var j := Quotient(a - m);
    var k := Quotient(b - n);
    var carry := if a + b > 0xFFFF then 1 else 0;
    Multiple(OnesAdd(a, b) - (m + n), j + k - carry);
  }

  lemma {:induction false} RfcSumRepresents(s: seq<byte>)
    ensures Represents(RfcSum(s), BeTotal(s))
    decreases |s|
  {
    if s != [] {
      RfcSumRepresents(Rest(s));
      OnesAddRepresents(FirstWord(s), RfcSum(Rest(s)), FirstWord(s), BeTotal(Rest(s)));
    }
  }

  /** Reading the words the other way round multiplies the total by 256 modulo 65535. */
  lemma {:induction false} SwapTotals(s: seq<byte>)
    ensures (256 * LeTotal(s) - BeTotal(s)) % 0xFFFF == 0
    ensures LeTotal(s) == 0 <==> BeTotal(s) == 0
    decreases |s|
  {
    if s != [] {
      SwapTotals(Rest(s));
      var r := Rest(s);
      var b: nat := if |s| == 1 then 0 else s[1];
      var k := Quotient(256 * LeTotal(r) - BeTotal(r));
      Multiple(256 * LeTotal(s) - BeTotal(s), b + k);
    }
  }

  lemma Swap16Represents(h: nat, n: nat, m: nat)
    requires h <= 0xFFFF && Represents(h, n)
    requires (256 * n - m) % 0xFFFF == 0 && (n == 0 <==> m == 0)
    ensures Represents(Swap16(h), m)
  {
    var lo, hi := h % 256, h / 256;
    var j := Quotient(h - n);
    var k := Quotient(256 * n - m);
    assert h == 256 * hi + lo && Swap16(h) == 256 * lo + hi;
    Multiple(Swap16(h) - m, 256 * j + k - hi);
  }

  /** A folded little-endian sum is the byte swap of the RFC 1071 sum. */
  lemma FoldedIsRfc(h: nat, s: seq<byte>)
    requires h <= 0xFFFF && Represents(h, LeTotal(s))
    ensures Swap16(h) == RfcSum(s)
    ensures Swap16(0xFFFF - h) == RfcChecksum(s)
    ensures 0xFFFF - h == Swap16(RfcChecksum(s))
  {
    Swap16Laws(h);
    Swap16Laws(0xFFFF - h);
    SwapTotals(s);
    Swap16Represents(h, LeTotal(s), BeTotal(s));
    RfcSumRepresents(s);
    RepresentsUnique(Swap16(h), RfcSum(s), BeTotal(s));
  }

  lemma Swap16Laws(h: nat)
    requires h <= 0xFFFF
    ensures Swap16(0xFFFF - h) == 0xFFFF - Swap16(h)
    ensures Swap16(Swap16(h)) == h
  {
    var lo, hi := h % 256, h / 256;
    assert 0xFFFF - h == 256 * (255 - hi) + (255 - lo);
    assert (0xFFFF - h) / 256 == 255 - hi && (0xFFFF - h) % 256 == 255 - lo;
    assert Swap16(h) / 256 == lo && Swap16(h) % 256 == hi;
  }

  lemma {:induction false} LeTotalAppend(a: seq<byte>, b: seq<byte>)
    requires |a| % 2 == 0
    ensures LeTotal(a + b) == LeTotal(a) + LeTotal(b)
  {
    if a == [] {
      assert a + b == b;
    } else {
      assert (a + b)[2..] == a[2..] + b;
      LeTotalAppend(a[2..], b);
    }
  }

  // ------------------------------------------------------------ the code

  /** Little-endian 32-bit load. */
  function Load32(a: byte, b: byte, c: byte, d: byte): (r: nat)
    ensures r < 0x1_0000_0000
  {
    a + 0x100 * b + 0x1_0000 * c + 0x100_0000 * d
  }

  /** 32-bit addition with end-around carry: a carry out of the top is added at the bottom. */
  function AddCarry32(h: nat, s: nat): (r: nat)
    requires h < 0x1_0000_0000 && s < 0x1_0000_0000
    ensures r < 0x1_0000_0000
  {
    var t := (h + s) % 0x1_0000_0000;
    if t < s then t + 1 else t
  }

  lemma AddCarryRepresents(h: nat, s: nat, n: nat, w: nat)
    requires h < 0x1_0000_0000 && s < 0x1_0000_0000
    requires Represents(h, n) && Represents(s, w)
    ensures Represents(AddCarry32(h, s), n + w)
  {
    var j := Quotient(h - n);
    var k := Quotient(s - w);
    var t := h + s;
    if t < 0x1_0000_0000 {
      assert AddCarry32(h, s) == t;
      Multiple(AddCarry32(h, s) - (n + w), j + k);
    } else {
      assert t % 0x1_0000_0000 == t - 0x1_0000_0000;
      assert AddCarry32(h, s) == t - 0xFFFF * 0x1_0001;
      Multiple(AddCarry32(h, s) - (n + w), j + k - 0x1_0001);
    }
  }

  lemma Load32Represents(a: byte, b: byte, c: byte, d: byte)
    ensures Represents(Load32(a, b, c, d), LeTotal([a, b, c, d]))
  {
    assert [a, b, c, d][2..] == [c, d];
    assert [c, d][2..] == [];
    assert LeTotal([c, d]) == c + 256 * d;
    Multiple(Load32(a, b, c, d) - LeTotal([a, b, c, d]), c + 256 * (d as int));
  }

  lemma FoldStep(h: nat, n: nat)
    requires h > 0xFFFF && Represents(h, n)
    ensures Represents(h % 0x1_0000 + h / 0x1_0000, n)
  {
    var lo, hi := h % 0x1_0000, h / 0x1_0000;
    assert h == 0x1_0000 * hi + lo;
    var j := Quotient(h - n);
    Multiple(lo + hi - n, j - hi);
  }

  /** Fold the high half into the low half until 16 bits hold the sum. */
  method Fold(hcs: nat) returns (h: nat)
    ensures h <= 0xFFFF && Represents(h, hcs)
  {
    h := hcs;
    while h > 0xFFFF
      invariant Represents(h, hcs)
      decreases h
    {
      FoldStep(h, hcs);
      h := h % 0x1_0000 + h / 0x1_0000;
    }
  }

  /** The bytes check_ics reads: len itself, or the low two bits of a negative len, for
      which len / 4 gives no word and len & 2, len & 1 still select the tails. */
  function SummedLen(len: int): nat {
    if len >= 0 then len else len % 4
  }

  /** What check_ics returns over the bytes s: the RFC 1071 checksum as a little-endian word. */
  function Ics(s: seq<byte>): (r: nat)
    ensures r <= 0xFFFF
  {
    Swap16(RfcChecksum(s))
  }

  lemma FoldedIsIcs(h: nat, s: seq<byte>)
    requires h <= 0xFFFF && Represents(h, LeTotal(s))
    ensures 0xFFFF - h == Ics(s)
  {
    FoldedIsRfc(h, s);
  }

  /** Adding one more piece w (an even number of bytes precede it) whose value s is in range. */
  lemma AddPiece(hcs: nat, s: nat, done: seq<byte>, w: seq<byte>)
    requires hcs < 0x1_0000_0000 && s < 0x1_0000_0000 && |done| % 2 == 0
    requires Represents(hcs, LeTotal(done)) && Represents(s, LeTotal(w))
    ensures Represents(AddCarry32(hcs, s), LeTotal(done + w))
  {
    AddCarryRepresents(hcs, s, LeTotal(done), LeTotal(w));
    LeTotalAppend(done, w);
  }

  lemma ShortTotals(a: byte, b: byte)
    ensures LeTotal([a]) == a && LeTotal([a, b]) == a + 256 * b
  {
    assert LeTotal([a, b][2..]) == 0;
  }

  /** One 32-bit word. */
  method AddWord(buffer: array<byte>, start: nat, p: nat, hcs: nat) returns (r: nat)
    requires start <= p && p + 4 <= buffer.Length && (p - start) % 2 == 0
    requires hcs < 0x1_0000_0000 && Represents(hcs, LeTotal(buffer[start..p]))
    ensures r < 0x1_0000_0000 && Represents(r, LeTotal(buffer[start..p + 4]))
  {
    hide Represents, LeTotal, AddCarry32, Load32;
    ghost var w := [buffer[p], buffer[p + 1], buffer[p + 2], buffer[p + 3]];
    var s := Load32(buffer[p], buffer[p + 1], buffer[p + 2], buffer[p + 3]);
    Load32Represents(w[0], w[1], w[2], w[3]);
    AddPiece(hcs, s, buffer[start..p], w);
    assert buffer[start..p + 4] == buffer[start..p] + w;
    r := AddCarry32(hcs, s);
  }

  /** The running sum over the first len / 4 words. */
  method SumWords(buffer: array<byte>, start: nat, words: nat) returns (hcs: nat)
    requires start + 4 * words <= buffer.Length
    ensures hcs < 0x1_0000_0000
    ensures Represents(hcs, LeTotal(buffer[start..start + 4 * words]))
  {
    hide Represents, LeTotal;
    hcs := 0;
    EmptyRepresents();
    assert buffer[start..start] == [];
    for i := words downto 0
      invariant hcs < 0x1_0000_0000
      invariant Represents(hcs, LeTotal(buffer[start..start + 4 * (words - i)]))
    {
      hcs := AddWord(buffer, start, start + 4 * (words - i - 1), hcs);
    }
  }

  /** The 16-bit tail. */
  method AddHalfword(buffer: array<byte>, start: nat, p: nat, hcs: nat) returns (r: nat)
    requires start <= p && p + 2 <= buffer.Length && (p - start) % 2 == 0
    requires hcs < 0x1_0000_0000 && Represents(hcs, LeTotal(buffer[start..p]))
    ensures r < 0x1_0000_0000 && Represents(r, LeTotal(buffer[start..p + 2]))
  {
    hide Represents, LeTotal, AddCarry32;
    var s: nat := 256 * (buffer[p + 1] as int) + buffer[p];
    RepresentsSelf(s);
    ShortTotals(buffer[p], buffer[p + 1]);
    AddPiece(hcs, s, buffer[start..p], [buffer[p], buffer[p + 1]]);
    assert buffer[start..p + 2] == buffer[start..p] + [buffer[p], buffer[p + 1]];
    r := AddCarry32(hcs, s);
  }

  /** The 8-bit tail. */
  method AddByte(buffer: array<byte>, start: nat, p: nat, hcs: nat) returns (r: nat)
    requires start <= p && p + 1 <= buffer.Length && (p - start) % 2 == 0
    requires hcs < 0x1_0000_0000 && Represents(hcs, LeTotal(buffer[start..p]))
    ensures r < 0x1_0000_0000 && Represents(r, LeTotal(buffer[start..p + 1]))
  {
    hide Represents, LeTotal, AddCarry32;
    var s := buffer[p];
    RepresentsSelf(s);
    ShortTotals(s, s);
    AddPiece(hcs, s, buffer[start..p], [s]);
    assert buffer[start..p + 1] == buffer[start..p] + [s];
    r := AddCarry32(hcs, s);
  }

  /** check_ics: 32-bit words, then a 16-bit tail for len & 2 and an 8-bit tail for len & 1
      (both read off the low two bits of len), each added with an end-around carry. */
  method CheckIcs(buffer: array<byte>, start: nat, len: int) returns (r: nat)
    requires start + SummedLen(len) <= buffer.Length
    ensures r == Ics(buffer[start..start + SummedLen(len)])
  {
    hide Represents, LeTotal, Ics;
    var low := len % 4;
    var words: nat := if len > 0 then len / 4 else 0;
    var half: nat := if low >= 2 then 2 else 0;
    var odd: nat := if low == 1 || low == 3 then 1 else 0;
    assert SummedLen(len) == 4 * words + half + odd;
    r := CheckPieces(buffer, start, words, half, odd);
  }

  method CheckPieces(buffer: array<byte>, start: nat, words: nat, half: nat, odd: nat) returns (r: nat)
    requires half == 0 || half == 2
    requires odd == 0 || odd == 1
    requires start + 4 * words + half + odd <= buffer.Length
    ensures r == Ics(buffer[start..start + (4 * words + half + odd)])
  {
    hide Represents, LeTotal, Ics;
    var hcs := SumWords(buffer, start, words);
    var p := start + 4 * words;
    if half != 0 {
      hcs := AddHalfword(buffer, start, p, hcs);
      p := p + 2;
    }
    if odd != 0 {
      hcs := AddByte(buffer, start, p, hcs);
      p := p + 1;
    }
    var h := Fold(hcs);
    RepresentsTrans(h, hcs, LeTotal(buffer[start..p]));
    FoldedIsIcs(h, buffer[start..p]);
    r := 0xFFFF - h;
  }

  lemma RepresentsSelf(n: nat)
    ensures Represents(n, n)
  {
  }

  lemma EmptyRepresents()
    ensures Represents(0, LeTotal([]))
  {
  }

  lemma RepresentsTrans(a: nat, b: nat, n: nat)
    requires Represents(a, b) && Represents(b, n)
    ensures Represents(a, n)
  {
    var j := Quotient(a - b);
    var k := Quotient(b - n);
    Multiple(a - n, j + k);
  }

  // -------------------------------------------- storing and verifying a checksum

  lemma {:induction false} BeTotalAppend(a: seq<byte>, b: seq<byte>)
    requires |a| % 2 == 0
    ensures BeTotal(a + b) == BeTotal(a) + BeTotal(b)
  {
    if a == [] {
      assert a + b == b;
    } else {
      assert (a + b)[2..] == a[2..] + b;
      BeTotalAppend(a[2..], b);
    }
  }

  /** A range is valid exactly when its total is a non-zero multiple of 65535. */
  lemma ValidIff(s: seq<byte>)
    ensures RfcValid(s) <==> BeTotal(s) > 0 && BeTotal(s) % 0xFFFF == 0
  {
    RfcSumRepresents(s);
    var j := Quotient(RfcSum(s) - BeTotal(s));
    if RfcValid(s) {
      Multiple(BeTotal(s), 1 - j);
    } else if BeTotal(s) > 0 && BeTotal(s) % 0xFFFF == 0 {
      var k := Quotient(BeTotal(s));
      Multiple(0xFFFF - BeTotal(s), 1 - k);
      RepresentsUnique(0xFFFF, RfcSum(s), BeTotal(s));
    }
  }

  /** check_ics over a range that includes its checksum is zero exactly for a valid range. */
  lemma IcsZeroIff(s: seq<byte>)
    ensures Ics(s) == 0 <==> RfcValid(s)
  {
    Swap16Laws(RfcChecksum(s));
  }

  /** s with the 16-bit field at pos replaced by the big-endian word c. */
  function WithField(s: seq<byte>, pos: nat, c: nat): (r: seq<byte>)
    requires pos + 2 <= |s| && c <= 0xFFFF
    ensures |r| == |s|
  {
    s[pos := c / 256][pos + 1 := c % 256]
  }

  lemma FieldTotal(s: seq<byte>, pos: nat, c: nat)
    requires pos % 2 == 0 && pos + 2 <= |s| && c <= 0xFFFF
    ensures BeTotal(WithField(s, pos, c)) == BeTotal(WithField(s, pos, 0)) + c
  {
    var a, b := s[..pos], s[pos + 2..];
    forall w: nat | w <= 0xFFFF
      ensures BeTotal(WithField(s, pos, w)) == BeTotal(a) + w + BeTotal(b)
    {
      var f: seq<byte> := [w / 256, w % 256];
      assert WithField(s, pos, w) == a + (f + b);
      BeTotalAppend(a, f + b);
      BeTotalAppend(f, b);
      assert f[2..] == [];
      assert BeTotal(f) == w;
    }
  }

  /** Storing the checksum of the zeroed range at an even position makes the range valid. */
  lemma ChecksumCloses(s: seq<byte>, pos: nat)
    requires pos % 2 == 0 && pos + 2 <= |s|
    ensures RfcValid(WithField(s, pos, RfcChecksum(WithField(s, pos, 0))))
  {
    var z := WithField(s, pos, 0);
    var c := RfcChecksum(z);
    FieldTotal(s, pos, c);
    RfcSumRepresents(z);
    var j := Quotient(RfcSum(z) - BeTotal(z));
    Multiple(BeTotal(z) + c, 1 - j);
    ValidIff(WithField(s, pos, c));
  }

  /** calc_ics: clear the field, sum, store the result as a little-endian word. */
  method CalcIcs(buffer: array<byte>, start: nat, len: nat, pos: nat)
    requires start + len <= buffer.Length && pos + 2 <= len
    modifies buffer
    ensures forall i :: 0 <= i < buffer.Length && i != start + pos && i != start + pos + 1 ==> buffer[i] == old(buffer[i])
    ensures var range := old(buffer[start..start + len]);
      buffer[start..start + len] == WithField(range, pos, RfcChecksum(WithField(range, pos, 0)))
    ensures pos % 2 == 0 ==> RfcValid(buffer[start..start + len])
  {
    hide RfcSum;
    ghost var range := buffer[start..start + len];
    buffer[start + pos] := 0;
    buffer[start + pos + 1] := 0;
    assert buffer[start..start + len] == WithField(range, pos, 0);
    var hcs := CheckIcs(buffer, start, len);
    Swap16Laws(RfcChecksum(WithField(range, pos, 0)));
    SwapBytes(RfcChecksum(WithField(range, pos, 0)));
    buffer[start + pos] := hcs % 256;
    buffer[start + pos + 1] := hcs / 256;
    assert buffer[start..start + len] == WithField(range, pos, RfcChecksum(WithField(range, pos, 0)));
    if pos % 2 == 0 {
      ChecksumCloses(range, pos);
    }
  }

  lemma SwapBytes(c: nat)
    requires c <= 0xFFFF
    ensures Swap16(c) % 256 == c / 256 && Swap16(c) / 256 == c % 256
  {
  }

  /** calc_ics and then check_ics over the same range gives zero, whatever the buffer held. */
  method CalcThenCheck(buffer: array<byte>, start: nat, len: nat, pos: nat) returns (r: nat)
    requires start + len <= buffer.Length && pos + 2 <= len && pos % 2 == 0
    modifies buffer
    ensures r == 0
    ensures forall i :: 0 <= i < buffer.Length && i != start + pos && i != start + pos + 1 ==> buffer[i] == old(buffer[i])
  {
    CalcIcs(buffer, start, len, pos);
    r := CheckIcs(buffer, start, len);
    IcsZeroIff(buffer[start..start + len]);
  }
}
