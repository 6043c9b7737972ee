/** The in-place PLMN list parser of applications/modem_shell/src/link/link_shell.c. */
module Plmn {
  import opened Wrappers
  import opened Decimal
  import opened CStrings

  const EINVAL: int := 22
  const EBADMSG: int := 77
  const NUL: char := '\0'

  datatype PlmnId = PlmnId(mcc: int, mnc: int)

  datatype Outcome = Ok(plmns: seq<PlmnId>) | Err(code: int)

  // ---------------------------------------------------------------- reference

  /** Commas replaced by terminators. */
  function Cut(s: string): (r: string)
    ensures |r| == |s|
  {
    seq(|s|, i requires 0 <= i < |s| => if s[i] == ',' then NUL else s[i])
  }

  /** One PLMN: the MNC from the fourth character on, the MCC in the first three. */
  function ParseOne(c: string): Option<PlmnId>
    requires |c| >= 5
  {
    var mnc, mcc := StringToInt(c[3..]), StringToInt(c[..3]);
    if mnc.None? || mcc.None? || mcc.value == 0 || mnc.value == 0 then None
    else Some(PlmnId(mcc.value, mnc.value))
  }

  /** The parse of the rest u of the cut buffer (its last terminator included). */
  function Parse(u: string, max: nat, done: seq<PlmnId>): Outcome
    requires u != [] ==> u[|u| - 1] == NUL
    decreases |u|
  {
    if |u| <= 1 then Ok(done)
    else if |done| >= max then Err(EINVAL)
    else
      var c := CStr(u, NUL);
      if |c| < 5 then Err(EBADMSG)
      else
        var p := ParseOne(c);
        if p.None? then Err(EBADMSG)
        else Parse(u[Advance(u)..], max, done + [p.value])
  }

  /** Past five digits, a sixth if there is one, and the terminator. */
  function Advance(u: string): (n: nat)
    requires |CStr(u, NUL)| >= 5 && u[|u| - 1] == NUL
    ensures 5 < n <= |u|
  {
    CStrShort(u, NUL);
    if u[5] != NUL then 7 else 6
  }

  // ------------------------------------------------------------- round trip

  /** A PLMN as operators write it: three MCC digits and two or three MNC digits. */
  datatype Entry = Entry(mcc: nat, mnc: nat, threeDigits: bool)

  predicate WellFormed(e: Entry) {
    1 <= e.mcc <= 999 && 1 <= e.mnc <= if e.threeDigits then 999 else 99
  }

  function EntryText(e: Entry): (s: string)
    ensures |s| == if e.threeDigits then 6 else 5
    ensures AllDigits(s)
  {
    Padded(e.mcc, 3) + Padded(e.mnc, if e.threeDigits then 3 else 2)
  }

  function Joined(list: seq<Entry>): string {
    if list == [] then ""
    else if |list| == 1 then EntryText(list[0])
    else EntryText(list[0]) + "," + Joined(list[1..])
  }

  function Ids(list: seq<Entry>): (r: seq<PlmnId>)
    ensures |r| == |list|
  {
    if list == [] then [] else [PlmnId(list[0].mcc, list[0].mnc)] + Ids(list[1..])
  }

  lemma ParseOneEntry(e: Entry)
    requires WellFormed(e)
    ensures ParseOne(EntryText(e)) == Some(PlmnId(e.mcc, e.mnc))
  {
    var k := if e.threeDigits then 3 else 2;
    var s := EntryText(e);
    assert s[..3] == Padded(e.mcc, 3) && s[3..] == Padded(e.mnc, k);
    assert Pow10(2) == 100 && Pow10(3) == 1000;
    ValuePadded(e.mcc, 3);
    ValuePadded(e.mnc, k);
    PlainDigits(s[..3]);
    PlainDigits(s[3..]);
  }

  lemma CutDigits(s: string)
    requires AllDigits(s)
    ensures Cut(s) == s && NUL !in s
  {
  }

  lemma CutEntry(s: string, j: string)
    requires AllDigits(s)
    ensures Cut(s + "," + j) == s + [NUL] + Cut(j)
  {
  }

  /** An entry's text, its terminator and the rest of the buffer: one turn of the parser. */
  lemma OneEntry(e: Entry, rest: string, max: nat, done: seq<PlmnId>)
    requires WellFormed(e) && (rest != [] ==> rest[|rest| - 1] == NUL)
    ensures Parse(EntryText(e) + [NUL] + rest, max, done)
         == if |done| >= max then Err(EINVAL) else Parse(rest, max, done + [PlmnId(e.mcc, e.mnc)])
  {
    var t := EntryText(e);
    var u := t + [NUL] + rest;
    assert u[|t|] == NUL && u[..|t|] == t;
    CutDigits(t);
    CStrIs(u, NUL, |t|);
    ParseOneEntry(e);
    if e.threeDigits {
      assert IsDigit(t[5]) && u[5] == t[5];
    }
    assert u[|t| + 1..] == rest;
  }

  lemma CutJoined(list: seq<Entry>)
    requires list != []
    ensures var rest := if |list| == 1 then [] else Cut(Joined(list[1..])) + [NUL];
      Cut(Joined(list)) + [NUL] == EntryText(list[0]) + [NUL] + rest
  {
    hide EntryText, Cut;
    CutDigits(EntryText(list[0]));
    if |list| > 1 {
      CutEntry(EntryText(list[0]), Joined(list[1..]));
    }
  }

  lemma ParseEnd(u: string, max: nat, done: seq<PlmnId>)
    requires |u| <= 1 && (u != [] ==> u[0] == NUL)
    ensures Parse(u, max, done) == Ok(done)
  {
  }

  lemma JoinedTurn(list: seq<Entry>, max: nat, done: seq<PlmnId>)
    requires list != [] && WellFormed(list[0])
    ensures Parse(Cut(Joined(list)) + [NUL], max, done)
         == if |done| >= max then Err(EINVAL)
            else Parse(Cut(Joined(list[1..])) + [NUL], max, done + [PlmnId(list[0].mcc, list[0].mnc)])
  {
    hide EntryText, WellFormed, Parse;
    CutJoined(list);
    var next := done + [PlmnId(list[0].mcc, list[0].mnc)];
    if |list| == 1 {
      OneEntry(list[0], [], max, done);
      ParseEnd([], max, next);
      ParseEnd(Cut(Joined(list[1..])) + [NUL], max, next);
    } else {
      OneEntry(list[0], Cut(Joined(list[1..])) + [NUL], max, done);
    }
  }

  lemma {:induction false} ParseJoined(list: seq<Entry>, max: nat, done: seq<PlmnId>)
    requires forall i :: 0 <= i < |list| ==> WellFormed(list[i])
    requires |done| <= max
    ensures Parse(Cut(Joined(list)) + [NUL], max, done)
         == if |done| + |list| <= max then Ok(done + Ids(list)) else Err(EINVAL)
    decreases |list|
  {
    hide WellFormed, Parse, Joined, Cut, Ids;
    DoneIds(list, done);
    if list == [] {
      ParseEmpty(max, done);
    } else {
      var next := done + [PlmnId(list[0].mcc, list[0].mnc)];
      JoinedTurn(list, max, done);
      if |done| < max {
        ParseJoined(list[1..], max, next);
      }
    }
  }

  lemma DoneIds(list: seq<Entry>, done: seq<PlmnId>)
    ensures done + Ids(list)
         == if list == [] then done else done + [PlmnId(list[0].mcc, list[0].mnc)] + Ids(list[1..])
  {
  }

  lemma ParseEmpty(max: nat, done: seq<PlmnId>)
    ensures Parse(Cut(Joined([])) + [NUL], max, done) == Ok(done)
  {
  }

  /** Every list of PLMNs reads back as itself, up to the maximum length; a longer one is refused. */
  lemma RoundTrip(list: seq<Entry>, max: nat)
    requires forall i :: 0 <= i < |list| ==> WellFormed(list[i])
    ensures Parse(Cut(Joined(list)) + [NUL], max, [])
         == if |list| <= max then Ok(Ids(list)) else Err(EINVAL)
  {
    ParseJoined(list, max, []);
    assert [] + Ids(list) == Ids(list);
  }

  // ------------------------------------------------------- the accepted texts

  /** The items of a comma-separated text. */
  function Items(text: string): (r: seq<string>)
    ensures r != [] && r[0] == CStr(text, ',')
    decreases |text|
  {
    var t := CStr(text, ',');
    if |t| == |text| then [t] else [t] + Items(text[|t| + 1..])
  }

  /** What one item reads as. The parser steps over five or six characters and one more, which it
      takes for the separator: a longer item is read again from its eighth character on. Only the
      text's last item may run out there, or be empty. */
  function ReadItem(t: string, last: bool): Option<seq<PlmnId>> {
    if t == "" then (if last then Some([]) else None)
    else if |t| < 5 || ParseOne(t).None? then None
    else if |t| <= 6 then Some([ParseOne(t).value])
    else
      var more := ReadItem(t[7..], last);
      if more.None? then None else Some([ParseOne(t).value] + more.value)
  }

  function ReadItems(items: seq<string>): Option<seq<PlmnId>> {
    if items == [] then Some([]) else
      var first, more := ReadItem(items[0], |items| == 1), ReadItems(items[1..]);
      Both(first, more)
  }

  function Both(first: Option<seq<PlmnId>>, more: Option<seq<PlmnId>>): Option<seq<PlmnId>> {
    if first.None? || more.None? then None else Some(first.value + more.value)
  }

  /** The rest of a text behind its first PLMN, with the items that are left. */
  lemma ItemsRest(text: string)
    requires |CStr(text, ',')| > 6
    ensures var t := CStr(text, ',');
      CStr(text[7..], ',') == t[7..] && Items(text[7..]) == [t[7..]] + Items(text)[1..]
  {
    var t := CStr(text, ',');
    var rest := text[7..];
    if |t| == |text| {
      assert ',' !in rest;
      assert CStr(rest, ',') == rest;
    } else {
      assert rest[..|t| - 7] == t[7..];
      CStrIs(rest, ',', |t| - 7);
      assert rest[|t| - 7 + 1..] == text[|t| + 1..];
    }
  }

  /** Cutting turns the first separator into the terminator of the first item. */
  lemma CutText(text: string)
    requires NUL !in text
    ensures CStr(Cut(text) + [NUL], NUL) == CStr(text, ',')
    ensures |Cut(text) + [NUL]| == |text| + 1
  {
    var u, t := Cut(text) + [NUL], CStr(text, ',');
    assert u[..|t|] == t;
    CStrIs(u, NUL, |t|);
  }

  lemma CutFrom(text: string, k: nat)
    requires k <= |text|
    ensures (Cut(text) + [NUL])[k..] == Cut(text[k..]) + [NUL]
  {
  }

  /** Characters of the text that one turn of the parser steps over, a final separator included. */
  function Step(text: string): nat {
    var k := |CStr(text, ',')|;
    if k > 6 then 7 else k + 1
  }

  /** One turn of the parser on a text whose first item is long enough. */
  lemma TextTurn(text: string, max: nat, done: seq<PlmnId>)
    requires NUL !in text && |done| < max
    requires |CStr(text, ',')| >= 5 && ParseOne(CStr(text, ',')).Some?
    ensures var next := done + [ParseOne(CStr(text, ',')).value];
      Parse(Cut(text) + [NUL], max, done)
      == if Step(text) > |text| then Ok(next) else Parse(Cut(text[Step(text)..]) + [NUL], max, next)
  {
    hide Parse, ParseOne, Cut;
    var t, u := CStr(text, ','), Cut(text) + [NUL];
    CutText(text);
    ParseTurn(u, max, done);
    assert u[..|t|] == t && (|t| > 5 ==> u[5] == t[5]);
    assert Advance(u) == Step(text);
    if Step(text) <= |text| {
      CutFrom(text, Step(text));
    } else {
      ParseEnd(u[Step(text)..], max, done + [ParseOne(t).value]);
    }
  }

  lemma ReadFirst(text: string)
    ensures var t := CStr(text, ',');
      ReadItems(Items(text)) == if |t| == |text| then ReadItem(t, true)
                                else Both(ReadItem(t, false), ReadItems(Items(text[|t| + 1..])))
  {
    hide ReadItem, CStr;
    var t := CStr(text, ',');
    if |t| == |text| {
      assert Items(text) == [t] && [t][1..] == [];
      var first := ReadItem(t, true);
      assert first.Some? ==> first.value + [] == first.value;
    } else {
      assert Items(text)[1..] == Items(text[|t| + 1..]);
    }
  }

  /** What that turn leaves of the reading. */
  lemma ReadTurn(text: string)
    requires |CStr(text, ',')| >= 5 && ParseOne(CStr(text, ',')).Some?
    ensures var p, r := ParseOne(CStr(text, ',')).value, ReadItems(Items(text));
      if Step(text) > |text| then r == Some([p])
      else
        var more := ReadItems(Items(text[Step(text)..]));
        if more.None? then r == None else r == Some([p] + more.value)
  {
    hide ParseOne, CStr, ReadItems, Both, Items;
    var t, p := CStr(text, ','), ParseOne(CStr(text, ',')).value;
    ReadFirst(text);
    if |t| > 6 {
      LongTurn(text);
    } else if |t| < |text| {
      BothCons(p, Some([]), ReadItems(Items(text[|t| + 1..])));
      assert [p] + [] == [p];
    }
  }

  lemma LongTurn(text: string)
    requires |CStr(text, ',')| > 6 && ParseOne(CStr(text, ',')).Some?
    ensures var p, r, more := ParseOne(CStr(text, ',')).value, ReadItems(Items(text)), ReadItems(Items(text[7..]));
      if more.None? then r == None else r == Some([p] + more.value)
  {
    hide ParseOne, CStr, ReadItems, Both, Items;
    var t, p, rest := CStr(text, ','), ParseOne(CStr(text, ',')).value, text[7..];
    ItemsRest(text);
    ReadFirst(text);
    ReadFirst(rest);
    if |t| < |text| {
      assert rest[|t| - 7 + 1..] == text[|t| + 1..];
      BothCons(p, ReadItem(t[7..], false), ReadItems(Items(text[|t| + 1..])));
    }
  }

  lemma BothCons(p: PlmnId, inner: Option<seq<PlmnId>>, more: Option<seq<PlmnId>>)
    ensures var b := Both(inner, more);
      Both(if inner.None? then None else Some([p] + inner.value), more)
      == if b.None? then None else Some([p] + b.value)
    ensures inner == Some([]) ==> Both(inner, more) == more
  {
    if inner.Some? && more.Some? {
      assert [] + more.value == more.value;
      assert ([p] + inner.value) + more.value == [p] + (inner.value + more.value);
    }
  }

  /** A text that does not start with an item the parser can read. */
  lemma ReadNone(text: string)
    requires text != "" && (|CStr(text, ',')| < 5 || ParseOne(CStr(text, ',')).None?)
    ensures ReadItems(Items(text)) == None
  {
    ReadFirst(text);
  }

  lemma {:induction false} ParseText(text: string, max: nat, done: seq<PlmnId>)
    requires NUL !in text && |done| <= max
    ensures var p, r := Parse(Cut(text) + [NUL], max, done), ReadItems(Items(text));
      if r.Some? then p == if |done| + |r.value| <= max then Ok(done + r.value) else Err(22)
      else p.Err? && (p.code == 22 || p.code == 77) && (p.code == 22 ==> |done| + |text| > max)
    decreases |text|
  {
    hide Parse, ParseOne, CStr, Items, ReadItems;
    var t, u := CStr(text, ','), Cut(text) + [NUL];
    CutText(text);
    if text == "" {
      ReadEmpty();
      ParseEnd(u, max, done);
      assert done + [] == done;
    } else {
      ParseTurn(u, max, done);
      if |t| < 5 || ParseOne(t).None? {
        ReadNone(text);
      } else {
        ReadTurn(text);
        if |done| < max {
          TextTurn(text, max, done);
          var p := ParseOne(t).value;
          if Step(text) <= |text| {
            ParseText(text[Step(text)..], max, done + [p]);
            var more := ReadItems(Items(text[Step(text)..]));
            assert more.Some? ==> done + [p] + more.value == done + ([p] + more.value);
          }
        }
      }
    }
  }

  lemma ReadEmpty()
    ensures ReadItems(Items("")) == Some([])
  {
    ReadFirst("");
  }

  lemma {:induction false} ReadNonZero(items: seq<string>, p: PlmnId)
    ensures ReadItems(items).Some? && p in ReadItems(items).value ==> p.mcc != 0 && p.mnc != 0
  {
    if items != [] {
      ItemNonZero(items[0], |items| == 1, p);
      ReadNonZero(items[1..], p);
    }
  }

  lemma {:induction false} ItemNonZero(t: string, last: bool, p: PlmnId)
    ensures ReadItem(t, last).Some? && p in ReadItem(t, last).value ==> p.mcc != 0 && p.mnc != 0
    decreases |t|
  {
    if |t| > 6 {
      ItemNonZero(t[7..], last, p);
    }
  }

  /** For every text: it is accepted exactly when all its items can be read and are not more than
      the maximum, and then as what they read as; never with a zero code. Too many are EINVAL (22),
      unreadable ones EBADMSG (77) unless too many come before. */
  lemma AcceptedIff(text: string, max: nat)
    requires NUL !in text
    ensures var p, r := Parse(Cut(text) + [NUL], max, []), ReadItems(Items(text));
      && (p.Ok? <==> r.Some? && |r.value| <= max)
      && (p.Ok? ==> p.plmns == r.value && forall id <- p.plmns :: id.mcc != 0 && id.mnc != 0)
      && (r.Some? && p.Err? ==> p.code == 22)
      && (r.None? ==> p == Err(77) || (p == Err(22) && |text| > max))
  {
    hide Parse, ReadItems;
    ParseText(text, max, []);
    forall p ensures ReadItems(Items(text)).Some? && p in ReadItems(Items(text)).value ==> p.mcc != 0 && p.mnc != 0 {
      ReadNonZero(Items(text), p);
    }
  }

  /** A sign counts as an MNC digit, a seventh character is read as part of the MNC, and a trailing
      comma does no harm. */
  lemma UnexpectedTexts(max: nat)
    requires max >= 1
    ensures Parse(Cut("310-41") + [NUL], max, []) == Ok([PlmnId(310, -41)])
    ensures Parse(Cut("1234567") + [NUL], max, []) == Ok([PlmnId(123, 4567)])
    ensures Parse(Cut("31041,") + [NUL], max, []) == Ok([PlmnId(310, 41)])
  {
    hide Parse, ParseOne, Cut;
    SignRead();
    SeventhRead();
    OneText("310-41", PlmnId(310, -41), max);
    OneText("1234567", PlmnId(123, 4567), max);
    TrailingComma(max);
  }

  lemma TrailingComma(max: nat)
    requires max >= 1
    ensures Parse(Cut("31041,") + [NUL], max, []) == Ok([PlmnId(310, 41)])
  {
    hide Parse, ParseOne, CStr, ReadItems, Items, Cut;
    var text := "31041,";
    assert text[..5] == "31041" && ',' !in text[..5];
    CStrIs(text, ',', 5);
    DigitsRead();
    ReadTurn(text);
    assert text[6..] == "" && [PlmnId(310, 41)] + [] == [PlmnId(310, 41)];
    ReadEmpty();
    ParseText(text, max, []);
    assert [] + [PlmnId(310, 41)] == [PlmnId(310, 41)];
  }

  lemma DigitsRead()
    ensures ParseOne("31041") == Some(PlmnId(310, 41))
  {
    hide StringToInt;
    SmallValue("310");
    SmallValue("41");
    assert "31041"[3..] == "41" && "31041"[..3] == "310";
    PlainDigits("310");
    PlainDigits("41");
  }

  lemma SignRead()
    ensures ParseOne("310-41") == Some(PlmnId(310, -41))
  {
    hide StringToInt;
    SmallValue("310");
    SmallValue("41");
    ReadNumeral(Numeral("", "-", "41"), -41);
    assert NumeralText(Numeral("", "-", "41")) == "-41" == "310-41"[3..];
    assert "310-41"[..3] == "310";
    PlainDigits("310");
  }

  lemma SeventhRead()
    ensures ParseOne("1234567") == Some(PlmnId(123, 4567))
  {
    hide StringToInt;
    SmallValue("123");
    SmallValue("4567");
    assert "1234567"[3..] == "4567" && "1234567"[..3] == "123";
    PlainDigits("123");
    PlainDigits("4567");
  }

  /** The value of up to four digits, spelled out. */
  lemma SmallValue(s: string)
    requires 2 <= |s| <= 4 && AllDigits(s)
    ensures |s| == 2 ==> Value(s) == 10 * ValueOf(s[0]) + ValueOf(s[1])
    ensures |s| == 3 ==> Value(s) == 100 * ValueOf(s[0]) + 10 * ValueOf(s[1]) + ValueOf(s[2])
    ensures |s| == 4 ==> Value(s) == 1000 * ValueOf(s[0]) + 100 * ValueOf(s[1]) + 10 * ValueOf(s[2]) + ValueOf(s[3])
  {
    Leading(s, 1);
    Leading(s, 2);
    if |s| > 2 { Leading(s, 3); }
    if |s| > 3 { Leading(s, 4); }
    assert s[..|s|] == s;
  }

  lemma Leading(s: string, k: nat)
    requires 1 <= k <= |s| && AllDigits(s)
    ensures Value(s[..k]) == 10 * Value(s[..k - 1]) + ValueOf(s[k - 1])
    ensures k == 1 ==> Value(s[..k]) == ValueOf(s[0])
  {
    assert s[..k][..k - 1] == s[..k - 1];
  }

  lemma OneText(text: string, p: PlmnId, max: nat)
    requires NUL !in text && ',' !in text && 5 <= |text| <= 7 && ParseOne(text) == Some(p) && max >= 1
    ensures Parse(Cut(text) + [NUL], max, []) == Ok([p])
  {
    hide Parse, ParseOne, CStr, ReadItems, Items, Cut;
    assert |CStr(text, ',')| == |text| && CStr(text, ',') == text;
    ReadTurn(text);
    if |text| == 7 {
      assert text[7..] == "" && [p] + [] == [p];
      ReadEmpty();
    }
    assert ReadItems(Items(text)) == Some([p]) && [] + [p] == [p];
    ParseText(text, max, []);
  }

  // ------------------------------------------------------------------ code

  /** The C string at index p as a number. */
  method StringToIntAt(buf: array<char>, p: nat) returns (r: Option<int>)
    requires p <= buf.Length
    ensures r == StringToInt(CStr(buf[p..], NUL))
  {
    r := StringToInt(CStr(buf[p..], NUL));
  }

  /** Replace commas with terminators. */
  method CutCommas(buf: array<char>, len: nat)
    requires len <= buf.Length
    modifies buf
    ensures buf[..] == Cut(old(buf[..len])) + old(buf[len..])
  {
    for i := 0 to len
      invariant buf[..i] == Cut(old(buf[..len]))[..i]
      invariant buf[i..] == old(buf[i..])
    {
      if buf[i] == ',' {
        buf[i] := NUL;
      }
    }
  }

  /** One turn of the parser on its own. */
  lemma ParseTurn(u: string, max: nat, done: seq<PlmnId>)
    requires |u| > 1 && u[|u| - 1] == NUL
    ensures |done| >= max ==> Parse(u, max, done) == Err(EINVAL)
    ensures |done| < max && |CStr(u, NUL)| < 5 ==> Parse(u, max, done) == Err(EBADMSG)
    ensures |done| < max && |CStr(u, NUL)| >= 5 ==>
              && |u| > 5
              && var p := ParseOne(CStr(u, NUL));
                 Parse(u, max, done) == if p.None? then Err(EBADMSG) else Parse(u[Advance(u)..], max, done + [p.value])
  {
    if |CStr(u, NUL)| >= 5 {
      CStrShort(u, NUL);
    }
  }

  /** Lines 944-963: the MNC, then the MCC once terminated. */
  method ReadPlmn(buf: array<char>, p: nat, len: nat, ghost rest: string) returns (ok: bool, id: PlmnId)
    requires p <= len < buf.Length && buf[p..len + 1] == rest && buf[len] == NUL
    requires |CStr(rest, NUL)| >= 5
    modifies buf
    ensures p + 5 <= len && buf[p + 4..len + 1] == rest[4..]
    ensures var r := ParseOne(CStr(rest, NUL)); if ok then r == Some(id) else r == None
  {
    hide StringToInt;
    ghost var c := CStr(rest, NUL);
    assert buf[p + 4..len + 1] == rest[4..];
    var k := Strlen(buf, p, NUL, len);
    id := PlmnId(0, 0);
    assert buf[p + 3..][..k - 3] == c[3..];
    CStrIs(buf[p + 3..], NUL, k - 3);
    var mnc := StringToIntAt(buf, p + 3);
    if mnc.None? {
      return false, id;
    }
    buf[p + 3] := NUL;
    assert c == rest[..k] && forall i :: 0 <= i < 3 ==> buf[p + i] == rest[i];
    assert buf[p..][..3] == c[..3];
    CStrIs(buf[p..], NUL, 3);
    var mcc := StringToIntAt(buf, p);
    if mcc.None? {
      return false, id;
    }
    if mcc.value == 0 || mnc.value == 0 {
      return false, id;
    }
    ok, id := true, PlmnId(mcc.value, mnc.value);
  }

  /** link_shell_string_to_env_eval_plmn_list on the string of length len in buf. */
  method StringToPlmnList(buf: array<char>, len: nat, plmnList: array<PlmnId>) returns (ret: int, count: nat)
    requires len < buf.Length && buf[len] == NUL && NUL !in buf[..len]
    modifies buf, plmnList
    ensures var r := Parse(Cut(old(buf[..len])) + [NUL], plmnList.Length, []);
      match r
      case Ok(plmns) => ret == 0 && count == |plmns| <= plmnList.Length && plmnList[..count] == plmns
      case Err(code) => ret == -code && count == 0
  {
    hide Parse, Cut;
    CutCommas(buf, len);
    ghost var u := Cut(old(buf[..len])) + [NUL];
    assert buf[..len + 1] == u;
    var p := 0;
    var n := 0;
    ghost var done: seq<PlmnId> := [];
    assert u[0..] == u;
    ret := 0;
    while p < len
      invariant p <= |u| == len + 1 && buf[len] == NUL
      invariant n == |done| <= plmnList.Length && plmnList[..n] == done
      invariant buf[p..len + 1] == u[p..]
      invariant Parse(u, plmnList.Length, []) == Parse(u[p..], plmnList.Length, done)
      decreases len - p
    {
      ret, p, done := OnePlmn(buf, p, len, plmnList, n, u[p..], done);
      if ret != 0 {
        return ret, 0;
      }
      n := n + 1;
    }
    ParseEnd(u[p..], plmnList.Length, done);
    count := n;
  }

  lemma SuffixOfSuffix(s: string, i: nat, k: nat)
    requires i <= k <= |s|
    ensures s[i..][k - i..] == s[k..]
  {
  }

  /** Lines 932-975: one turn of the loop, at index p with n entries read. */
  method OnePlmn(buf: array<char>, p: nat, len: nat, plmnList: array<PlmnId>, n: nat, ghost rest: string, ghost done: seq<PlmnId>)
    returns (ret: int, p': nat, ghost done': seq<PlmnId>)
    requires p < len < buf.Length && buf[p..len + 1] == rest && buf[len] == NUL
    requires n == |done| <= plmnList.Length && plmnList[..n] == done
    modifies buf, plmnList
    ensures ret != 0 ==> Parse(rest, plmnList.Length, done) == Err(-ret)
    ensures ret == 0 ==>
              && p < p' <= len + 1 && buf[len] == NUL
              && buf[p'..len + 1] == rest[p' - p..]
              && |done'| == n + 1 <= plmnList.Length && plmnList[..n + 1] == done'
              && Parse(rest, plmnList.Length, done) == Parse(rest[p' - p..], plmnList.Length, done')
  {
    hide Parse, CStr, ParseOne;
    p', done' := p, done;
    assert rest[|rest| - 1] == buf[len];
    ParseTurn(rest, plmnList.Length, done);
    if n >= plmnList.Length {
      return -EINVAL, p', done';
    }
    var k := Strlen(buf, p, NUL, len);
    if k < 5 {
      return -EBADMSG, p', done';
    }
    var ok, id := ReadPlmn(buf, p, len, rest);
    if !ok {
      return -EBADMSG, p', done';
    }
    assert buf[p + 5] == buf[p + 4..len + 1][1] == rest[4..][1];
    plmnList[n] := id;
    done' := done + [id];
    p' := p + 5;
    if buf[p'] != NUL {
      p' := p' + 1;
    }
    p' := p' + 1;
    assert p' - p == Advance(rest);
    SuffixOfSuffix(rest, 4, p' - p);
    assert buf[p'..len + 1] == buf[p + 4..len + 1][p' - p - 4..];
    ret := 0;
  }
}
