/** Reading the answer to AT+CGACT? by substring search, as
    applications/modem_shell/src/link/link.c does. */
module Cgact {
  import opened Wrappers
  import opened Decimal

  /** A context and whether it is active: one line of the answer, section 10.1.10 of 3GPP TS 27.007. */
  datatype Status = Status(cid: nat, active: bool)

  const HEADER: string := "+CGACT: "

  function StateText(active: bool): string {
    if active then "1" else "0"
  }

  function Line(l: Status): string {
    HEADER + Dec(l.cid) + "," + StateText(l.active) + "\r\n"
  }

  function Answer(lines: seq<Status>): string {
    if lines == [] then "OK\r\n" else Line(lines[0]) + Answer(lines[1..])
  }

  /** What the code looks for. */
  function Pattern(c: nat): string {
    HEADER + Dec(c) + ",1"
  }

  /** p occurs in t at index i. */
  predicate At(t: string, i: nat, p: string) {
    i + |p| <= |t| && t[i..i + |p|] == p
  }

  /** strstr finds p in t. */
  predicate Occurs(t: string, p: string) {
    exists i :: 0 <= i <= |t| && At(t, i, p)
  }

  // ------------------------------------------------------------------ proof

  /** Digit strings followed by commas agree when one such text is a prefix of the other. */
  lemma {:induction false} DigitsAgree(a: string, b: string, s: string, t: string)
    requires AllDigits(a) && AllDigits(b)
    requires |a + "," + s| <= |b + "," + t| && (b + "," + t)[..|a + "," + s|] == a + "," + s
    ensures a == b && |s| <= |t| && t[..|s|] == s
    decreases |a|
  {
    var x, y := a + "," + s, b + "," + t;
    assert x[0] == y[0];
    assert x[0] == if a == [] then ',' else a[0];
    assert y[0] == if b == [] then ',' else b[0];
    if a == [] {
      assert y[1..] == t && x[1..] == s;
      assert y[..|x|][1..] == y[1..|x|];
    } else {
      assert x[1..] == a[1..] + "," + s && y[1..] == b[1..] + "," + t;
      assert y[..|x|][1..] == y[1..][..|x| - 1];
      DigitsAgree(a[1..], b[1..], s, t);
    }
  }

  /** At the start of a line the pattern matches exactly the line it was made for. */
  lemma AtLineStart(l: Status, rest: string, c: nat)
    ensures At(Line(l) + rest, 0, Pattern(c)) <==> l == Status(c, true)
  {
    hide Dec;
    var t, p := Line(l) + rest, Pattern(c);
    var tail := StateText(l.active) + "\r\n" + rest;
    var body, want := Dec(l.cid) + "," + tail, Dec(c) + "," + "1";
    assert t == HEADER + body && p == HEADER + want;
    if At(t, 0, p) {
      assert t[..|p|][|HEADER|..] == want && t[|HEADER|..] == body;
      assert t[..|p|][|HEADER|..] == t[|HEADER|..][..|p| - |HEADER|];
      DigitsAgree(Dec(c), Dec(l.cid), "1", tail);
      ValueDec(c);
      ValueDec(l.cid);
      assert tail[0] == '1';
    }
    if l == Status(c, true) {
      assert body[..|want|] == want;
      assert t[0..|p|] == p;
    }
  }

  lemma PlusOnlyAtStart(l: Status)
    ensures forall k :: 0 < k < |Line(l)| ==> Line(l)[k] != '+'
    ensures Line(l)[0] == '+'
  {
    hide Dec;
    var d := Dec(l.cid);
    assert forall k :: 0 <= k < |d| ==> IsDigit(d[k]);
    var t := Line(l);
    forall k | 0 < k < |t| ensures t[k] != '+' {
      if |HEADER| <= k < |HEADER| + |d| {
        assert t[k] == d[k - |HEADER|];
      }
    }
  }

  /** Behind a text a, whatever matches matches in what follows. */
  lemma MatchShift(a: string, b: string, p: string, i: nat)
    ensures At(a + b, |a| + i, p) <==> At(b, i, p)
  {
    if |a| + i + |p| <= |a + b| {
      assert (a + b)[|a| + i..|a| + i + |p|] == b[i..i + |p|];
    }
  }

  /** A match that is not at a line's start is behind the line. */
  lemma MatchBehind(l: Status, rest: string, c: nat, i: nat)
    requires 0 < i && At(Line(l) + rest, i, Pattern(c))
    ensures i >= |Line(l)|
  {
    hide Line, Pattern;
    var t, p := Line(l) + rest, Pattern(c);
    PatternStart(c);
    PlusOnlyAtStart(l);
    assert forall k :: 0 < k < |Line(l)| ==> t[k] == Line(l)[k];
    assert t[i..i + |p|][0] == '+';
  }

  /** No match starts inside a line: it is at the line's start or in the rest. */
  lemma MatchPosition(l: Status, rest: string, c: nat)
    ensures Occurs(Line(l) + rest, Pattern(c)) <==> At(Line(l) + rest, 0, Pattern(c)) || Occurs(rest, Pattern(c))
  {
    var t, p, n := Line(l) + rest, Pattern(c), |Line(l)|;
    hide Line, Pattern, At;
    if Occurs(t, p) && !At(t, 0, p) {
      var i :| 0 <= i <= |t| && At(t, i, p);
      MatchBehind(l, rest, c, i);
      MatchShift(Line(l), rest, p, i - n);
    }
    if Occurs(rest, p) {
      var i :| 0 <= i <= |rest| && At(rest, i, p);
      MatchShift(Line(l), rest, p, i);
    }
  }

  lemma PatternStart(c: nat)
    ensures |Pattern(c)| > 4 && Pattern(c)[0] == '+'
  {
  }

  /** The substring search succeeds exactly when the context is reported active: no match crosses
      lines and no decimal prefix is taken for another context. */
  lemma {:induction false} SearchIffReported(lines: seq<Status>, c: nat)
    ensures Occurs(Answer(lines), Pattern(c)) <==> Status(c, true) in lines
    decreases |lines|
  {
    hide Pattern, Line;
    if lines == [] {
      PatternStart(c);
    } else {
      MatchPosition(lines[0], Answer(lines[1..]), c);
      AtLineStart(lines[0], Answer(lines[1..]), c);
      SearchIffReported(lines[1..], c);
      assert lines == [lines[0]] + lines[1..];
    }
  }

  /** The text of an answer, and what is looked for in it, at one and two digits. */
  lemma AnswerText()
    ensures Answer([Status(1, true), Status(10, false)]) == "+CGACT: 1,1\r\n" + ("+CGACT: 10,0\r\n" + "OK\r\n")
    ensures Pattern(1) == "+CGACT: 1,1" && Pattern(10) == "+CGACT: 10,1"
  {
    hide Line;
    var lines := [Status(1, true), Status(10, false)];
    assert lines[1..] == [Status(10, false)] && lines[1..][1..] == [];
    Digits();
    LineText(Status(1, true));
    LineText(Status(10, false));
  }

  lemma Digits()
    ensures Dec(1) == "1" && Dec(10) == "10"
  {
  }

  lemma LineText(l: Status)
    requires l == Status(1, true) || l == Status(10, false)
    ensures Line(l) == if l.active then "+CGACT: 1,1\r\n" else "+CGACT: 10,0\r\n"
  {
    hide Dec;
    Digits();
  }

  // ------------------------------------------------------------------ code

  const PDN_CONTEXTS_MAX: nat := 11

  datatype ActivationInfo = ActivationInfo(activated: bool, cid: nat)

  /** snprintf into buf[16]: at most fifteen characters. */
  function Truncated(s: string): string {
    if |s| <= 15 then s else s[..15]
  }

  lemma PatternFits(c: nat)
    requires c < PDN_CONTEXTS_MAX
    ensures Truncated(Pattern(c)) == Pattern(c)
  {
    if c >= 10 {
      assert Dec(c) == Dec(c / 10) + [DigitOf(c % 10)];
      assert |Dec(c / 10)| == 1;
    }
    assert |Dec(c)| <= 2;
  }

  /** link_api_get_pdn_activation_status; the answer is None when the query fails, which leaves the
      array as it was cleared. */
  method GetPdnActivationStatus(status: array<ActivationInfo>, answer: Option<string>)
    requires status.Length == PDN_CONTEXTS_MAX
    requires forall i :: 0 <= i < PDN_CONTEXTS_MAX ==> status[i] == ActivationInfo(false, 0)
    modifies status
    ensures answer.None? ==> status[..] == old(status[..])
    ensures answer.Some? ==> forall i :: 0 <= i < PDN_CONTEXTS_MAX ==>
              status[i] == ActivationInfo(Occurs(answer.value, Pattern(i)), i)
  {
    hide Pattern, Occurs;
    if answer.None? {
      return;
    }
    for i := 0 to PDN_CONTEXTS_MAX
      invariant forall j :: 0 <= j < i ==> status[j] == ActivationInfo(Occurs(answer.value, Pattern(j)), j)
      invariant forall j :: i <= j < PDN_CONTEXTS_MAX ==> status[j] == ActivationInfo(false, 0)
    {
      PatternFits(i);
      var buf := Truncated(Pattern(i));
      status[i] := status[i].(cid := i);
      var p := Occurs(answer.value, buf);
      if p {
        status[i] := status[i].(activated := true);
      }
    }
  }
}
