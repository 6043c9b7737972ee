/** What a dispatched AT command line asks the modem for, and the C string routine that cuts it:
    strtok_r as applications/modem_shell/src/at/at_cmd_mode.c uses them. */
module AtPipeline {
  import opened Bytes
  import opened AtEditor
  import opened CStrings

  const MAX_PIPELINED: nat := 10
  const MAX_LEN: nat := 1023

  // ---------------------------------------------------------------- reference

  /** Index of the first '|', or the length. */
  function FirstPipe(t: seq<byte>): (i: nat)
    ensures i <= |t| && PIPE !in t[..i] && (i < |t| ==> t[i] == PIPE)
  {
    if t == [] || t[0] == PIPE then 0 else
      var i := 1 + FirstPipe(t[1..]);
      assert t[..i] == [t[0]] + t[1..][..i - 1];
      i
  }

  /** The fields between '|' characters. */
  function Fields(t: seq<byte>): seq<seq<byte>>
    decreases |t|
  {
    var i := FirstPipe(t);
    if i == |t| then [t] else [t[..i]] + Fields(t[i + 1..])
  }

  function NonEmpty(fields: seq<seq<byte>>): seq<seq<byte>> {
    if fields == [] then []
    else (if fields[0] == [] then [] else [fields[0]]) + NonEmpty(fields[1..])
  }

  function Segments(t: seq<byte>): seq<seq<byte>> {
    NonEmpty(Fields(t))
  }

  /** Segments short enough to be pipelined. */
  function Fitting(segments: seq<seq<byte>>): seq<seq<byte>> {
    if segments == [] then [] else
      var last := segments[|segments| - 1];
      Fitting(segments[..|segments| - 1]) + if |last| <= MAX_LEN then [last] else []
  }

  function Take(s: seq<seq<byte>>, n: nat): seq<seq<byte>> {
    if |s| <= n then s else s[..n]
  }

  /** The first ten non-empty segments of at most 1023 bytes. */
  function Pipelined(t: seq<byte>): seq<seq<byte>> {
    Take(Fitting(Segments(t)), MAX_PIPELINED)
  }

  function LeadingPipes(t: seq<byte>): (n: nat)
    ensures n <= |t| && (n < |t| ==> t[n] != PIPE)
  {
    if t == [] || t[0] != PIPE then 0 else 1 + LeadingPipes(t[1..])
  }

  /** What is left as the buffer's C string when no segment qualifies. */
  function Leftover(t: seq<byte>): seq<byte> {
    t[..LeadingPipes(t) + FirstPipe(t[LeadingPipes(t)..])]
  }

  /** The commands a line makes the modem run, in order. */
  function Commands(t: seq<byte>): seq<seq<byte>> {
    if PIPE !in t then [t]
    else if Pipelined(t) == [] then [Leftover(t)]
    else Pipelined(t)
  }

  /** Everything a sequence of lines makes the modem run. */
  function AllCommands(lines: seq<seq<byte>>): seq<seq<byte>> {
    if lines == [] then []
    else AllCommands(lines[..|lines| - 1]) + Commands(CStr(lines[|lines| - 1], NUL))
  }

  // ------------------------------------------------------------------- laws

  lemma AllCommandsSnoc(lines: seq<seq<byte>>, line: seq<byte>)
    ensures AllCommands(lines + [line]) == AllCommands(lines) + Commands(CStr(line, NUL))
  {
    assert (lines + [line])[..|lines|] == lines;
  }

  /** Where the C string of a line ends once the line is NUL-terminated in its buffer. */
  lemma {:induction false} CStrTerminated(line: seq<byte>, buffer: seq<byte>)
    requires |line| < |buffer| && buffer[..|line|] == line && buffer[|line|] == NUL
    ensures CStr(buffer, NUL) == CStr(line, NUL)
    ensures buffer[|CStr(line, NUL)|] == NUL
  {
    if line != [] {
      assert buffer[0] == line[0];
      if line[0] != NUL {
        assert buffer[1..][..|line| - 1] == line[1..];
        CStrTerminated(line[1..], buffer[1..]);
      }
    }
  }

  lemma SegmentsSkip(t: seq<byte>)
    requires t != [] && t[0] == PIPE
    ensures Segments(t) == Segments(t[1..])
  {
    assert FirstPipe(t) == 0;
    var f := Fields(t[1..]);
    assert Fields(t) == [t[..0]] + f;
    assert ([t[..0]] + f)[1..] == f;
  }

  lemma SegmentsToken(t: seq<byte>, i: nat)
    requires t != [] && t[0] != PIPE && i == FirstPipe(t)
    ensures i > 0
    ensures Segments(t) == [t[..i]] + if i == |t| then [] else Segments(t[i + 1..])
  {
    if i == |t| {
      assert t[..i] == t;
      assert Fields(t)[1..] == [];
      assert NonEmpty(Fields(t)[1..]) == [];
    } else {
      var f := Fields(t[i + 1..]);
      assert ([t[..i]] + f)[1..] == f;
    }
  }

  lemma SegmentsNone(t: seq<byte>)
    requires LeadingPipes(t) == |t|
    ensures Segments(t) == []
    decreases |t|
  {
    if t == [] {
      assert Fields(t) == [[]] && Fields(t)[1..] == [];
      assert NonEmpty(Fields(t)[1..]) == [];
    } else {
      SegmentsSkip(t);
      SegmentsNone(t[1..]);
    }
  }

  lemma {:induction false} SegmentsLead(t: seq<byte>)
    ensures Segments(t) == Segments(t[LeadingPipes(t)..])
    decreases |t|
  {
    if t != [] && t[0] == PIPE {
      SegmentsSkip(t);
      SegmentsLead(t[1..]);
      assert t[LeadingPipes(t)..] == t[1..][LeadingPipes(t[1..])..];
    } else {
      assert t[0..] == t;
    }
  }

  lemma FittingSnoc(done: seq<seq<byte>>, s: seq<byte>)
    ensures Fitting(done + [s]) == Fitting(done) + if |s| <= MAX_LEN then [s] else []
  {
    assert (done + [s])[..|done|] == done;
  }

  /** A slot is taken for one more segment when it is short enough and fewer than ten are in use. */
  lemma TakeSnoc(done: seq<seq<byte>>, s: seq<byte>)
    ensures var k := Take(Fitting(done), MAX_PIPELINED);
      Take(Fitting(done + [s]), MAX_PIPELINED) == if |k| >= MAX_PIPELINED || |s| > MAX_LEN then k else k + [s]
  {
    FittingSnoc(done, s);
  }

  lemma {:induction false} FittingConcat(a: seq<seq<byte>>, b: seq<seq<byte>>)
    ensures Fitting(a + b) == Fitting(a) + Fitting(b)
    decreases |b|
  {
    if b == [] {
      assert a + b == a;
    } else {
      var init, last := b[..|b| - 1], b[|b| - 1];
      FittingConcat(a, init);
      assert a + b == (a + init) + [last] && b == init + [last];
      FittingSnoc(a + init, last);
    }
  }

  lemma {:induction false} NonEmptyConcat(a: seq<seq<byte>>, b: seq<seq<byte>>)
    ensures NonEmpty(a + b) == NonEmpty(a) + NonEmpty(b)
  {
    hide NonEmpty;
    NonEmptyCons(a);
    if a == [] {
      assert a + b == b;
    } else {
      NonEmptyCons(a + b);
      assert (a + b)[1..] == a[1..] + b;
      NonEmptyConcat(a[1..], b);
    }
  }

  lemma NonEmptyCons(fields: seq<seq<byte>>)
    ensures fields == [] ==> NonEmpty(fields) == []
    ensures fields != [] && fields[0] == [] ==> NonEmpty(fields) == NonEmpty(fields[1..])
    ensures fields != [] && fields[0] != [] ==> NonEmpty(fields) == [fields[0]] + NonEmpty(fields[1..])
  {
  }

  lemma NonEmptyOne(x: seq<byte>)
    ensures NonEmpty([x]) == if x == [] then [] else [x]
  {
    var tail: seq<seq<byte>> := [x][1..];
    assert tail == [];
  }

  /** Segments that can be sent. */
  predicate Sendable(s: seq<byte>) {
    1 <= |s| <= 1023 && 0x7C !in s && 0x00 !in s
  }

  predicate AllSendable(segments: seq<seq<byte>>) {
    forall i :: 0 <= i < |segments| ==> Sendable(segments[i])
  }

  lemma {:induction false} SendableKept(segments: seq<seq<byte>>)
    requires AllSendable(segments)
    ensures NonEmpty(segments) == segments && Fitting(segments) == segments
    decreases |segments|
  {
    if segments != [] {
      var init, last := segments[..|segments| - 1], segments[|segments| - 1];
      SendableKept(init);
      assert segments == init + [last];
      FittingSnoc(init, last);
      NonEmptyConcat(init, [last]);
      NonEmptyOne(last);
    }
  }

  /** Fields joined by '|' are split back into exactly those, empty ones included. */
  lemma {:induction false} FieldsRoundTrip(fields: seq<seq<byte>>)
    requires fields != [] && forall i :: 0 <= i < |fields| ==> PIPE !in fields[i]
    ensures Fields(Join(fields)) == fields
    decreases |fields|
  {
    var t, s := Join(fields), fields[0];
    FirstPipeAt(t, |s|);
    assert t[..|s|] == s;
    if |fields| > 1 {
      assert t[|s| + 1..] == Join(fields[1..]);
      FieldsRoundTrip(fields[1..]);
    }
  }

  lemma {:induction false} JoinBytes(fields: seq<seq<byte>>, b: byte)
    requires b != PIPE && forall i :: 0 <= i < |fields| ==> b !in fields[i]
    ensures b !in Join(fields)
    decreases |fields|
  {
    if |fields| > 1 {
      JoinBytes(fields[1..], b);
    }
  }

  /** A line of fields that are sent as they are, but for one that is empty or too long: exactly the
      others are run, in order. */
  lemma UnfitDropped(a: seq<seq<byte>>, x: seq<byte>, b: seq<seq<byte>>)
    requires AllSendable(a) && AllSendable(b) && 1 <= |a| + |b| <= 10
    requires x == [] || (|x| > 1023 && 0x7C !in x && 0x00 !in x)
    ensures AllCommands([Join(a + [x] + b)]) == a + b
  {
    hide Fields, NonEmpty, Fitting, AllCommands, Commands, Join;
    var fields := a + [x] + b;
    FieldsClean(a, x, b);
    FieldsRoundTrip(fields);
    JoinBytes(fields, NUL);
    JoinHasPipe(fields);
    SendableKept(a);
    SendableKept(b);
    UnfitField(a, x, b);
    OneLine(Join(fields), a + b);
  }

  lemma FieldsClean(a: seq<seq<byte>>, x: seq<byte>, b: seq<seq<byte>>)
    requires AllSendable(a) && AllSendable(b) && 0x7C !in x && 0x00 !in x
    ensures var fields := a + [x] + b;
      forall i :: 0 <= i < |fields| ==> PIPE !in fields[i] && NUL !in fields[i]
  {
    var fields := a + [x] + b;
    forall i | 0 <= i < |fields| ensures PIPE !in fields[i] && NUL !in fields[i] {
      assert fields[i] == if i < |a| then a[i] else if i == |a| then x else b[i - |a| - 1];
    }
  }

  lemma UnfitField(a: seq<seq<byte>>, x: seq<byte>, b: seq<seq<byte>>)
    requires NonEmpty(a) == a && NonEmpty(b) == b && Fitting(a) == a && Fitting(b) == b
    requires x == [] || |x| > 1023
    ensures Fitting(NonEmpty(a + [x] + b)) == a + b
  {
    hide Fitting;
    NonEmptyConcat(a + [x], b);
    NonEmptyConcat(a, [x]);
    NonEmptyOne(x);
    var n := NonEmpty([x]);
    FittingConcat(a + n, b);
    FittingConcat(a, n);
    FittingSnoc([], x);
    FittingNone();
    var none: seq<seq<byte>> := [];
    assert none + [x] == [x] && a + none == a;
  }

  lemma FittingNone()
    ensures Fitting([]) == []
  {
  }

  lemma JoinHasPipe(fields: seq<seq<byte>>)
    requires |fields| >= 2
    ensures PIPE in Join(fields)
  {
    var s := fields[0];
    assert Join(fields)[|s|] == PIPE;
  }

  /** A line with a '|' whose first ten fitting segments are known. */
  lemma OneLine(t: seq<byte>, commands: seq<seq<byte>>)
    requires NUL !in t && PIPE in t && commands != [] && |commands| <= 10 && Fitting(Segments(t)) == commands
    ensures AllCommands([t]) == commands
  {
    hide Segments, Fitting, AllCommands;
    SingleLine(t);
  }

  /** Segments that can be sent, joined by '|', are run exactly as they are, up to the first ten. */
  lemma SegmentsAreCommands(segments: seq<seq<byte>>)
    requires |segments| >= 2 && AllSendable(segments)
    ensures AllCommands([Join(segments)]) == if |segments| <= 10 then segments else segments[..10]
  {
    hide Fields, NonEmpty, Fitting, AllCommands;
    forall i | 0 <= i < |segments| ensures PIPE !in segments[i] && NUL !in segments[i] {
      assert Sendable(segments[i]);
    }
    FieldsRoundTrip(segments);
    JoinBytes(segments, NUL);
    JoinHasPipe(segments);
    SendableKept(segments);
    var t := Join(segments);
    assert Pipelined(t) == Take(segments, 10);
    assert Commands(t) == Take(segments, 10);
    SingleLine(t);
  }

  lemma SingleLine(t: seq<byte>)
    requires NUL !in t
    ensures AllCommands([t]) == Commands(t)
  {
    hide Commands;
    Whole(t);
    var none: seq<seq<byte>> := [t][..0];
    assert none == [];
    assert AllCommands([t]) == [] + Commands(t);
  }

  /** Lines without '|' are run exactly as they are, one command each; a NUL cuts a line short. */
  lemma {:induction false} PlainLinesAreCommands(lines: seq<seq<byte>>)
    requires forall i :: 0 <= i < |lines| ==> 0x7C !in CStr(lines[i], 0x00)
    ensures |AllCommands(lines)| == |lines|
    ensures forall i :: 0 <= i < |lines| ==> AllCommands(lines)[i] == CStr(lines[i], 0x00)
    ensures (forall i :: 0 <= i < |lines| ==> 0x00 !in lines[i]) ==> AllCommands(lines) == lines
    decreases |lines|
  {
    hide CStr, AllCommands;
    if lines == [] {
      NoCommands();
    } else {
      var init, last := lines[..|lines| - 1], lines[|lines| - 1];
      assert forall i :: 0 <= i < |init| ==> init[i] == lines[i];
      PlainLinesAreCommands(init);
      PlainLast(init, last);
      LastOff(lines);
    }
    forall i | 0 <= i < |lines| && 0x00 !in lines[i] ensures CStr(lines[i], 0x00) == lines[i] {
      Whole(lines[i]);
    }
  }

  lemma NoCommands()
    ensures AllCommands([]) == []
  {
  }

  lemma LastOff(lines: seq<seq<byte>>)
    requires lines != []
    ensures lines[..|lines| - 1] + [lines[|lines| - 1]] == lines
  {
  }

  lemma Whole(line: seq<byte>)
    requires 0x00 !in line
    ensures CStr(line, 0x00) == line
  {
    assert |CStr(line, 0x00)| == |line|;
  }

  lemma PlainLast(init: seq<seq<byte>>, last: seq<byte>)
    requires 0x7C !in CStr(last, 0x00)
    ensures AllCommands(init + [last]) == AllCommands(init) + [CStr(last, 0x00)]
  {
    hide CStr, AllCommands;
    AllCommandsSnoc(init, last);
  }

  /** When no segment can be sent, the C string strtok_r leaves in the buffer is: for a line of '|'
      alone the line, otherwise its first segment and the '|' before it. */
  lemma {:induction false} UnfitLineSent(pipes: seq<byte>, long: seq<seq<byte>>)
    requires forall i :: 0 <= i < |pipes| ==> pipes[i] == 0x7C
    requires forall i :: 0 <= i < |long| ==> |long[i]| > 1023 && 0x7C !in long[i] && 0x00 !in long[i]
    requires |pipes| + |long| >= 1 && (pipes == [] ==> |long| >= 2)
    ensures AllCommands([pipes + Join(long)]) == [if long == [] then pipes else pipes + long[0]]
  {
    hide AllCommands, Segments, Fitting;
    var t, u := pipes + Join(long), Join(long);
    JoinBytes(long, NUL);
    SingleLine(t);
    PipesLead(pipes, u);
    SegmentsLead(t);
    assert t[|pipes|..] == u;
    if long == [] {
      assert pipes[0] == PIPE && t == pipes;
      SegmentsNone(u);
      FittingNone();
      assert Leftover(t) == t;
    } else {
      assert long[0] != [] && u[0] == long[0][0] && u[0] in long[0];
      if pipes == [] { JoinHasPipe(long); } else { assert t[0] == PIPE; }
      JoinRoundTrip(long);
      FittingLong(long);
      FirstPipeAt(u, |long[0]|);
      assert u[..|long[0]|] == long[0];
      assert Leftover(t) == pipes + long[0];
    }
  }

  lemma {:induction false} PipesLead(pipes: seq<byte>, u: seq<byte>)
    requires forall i :: 0 <= i < |pipes| ==> pipes[i] == PIPE
    requires u != [] ==> u[0] != PIPE
    ensures LeadingPipes(pipes + u) == |pipes|
  {
    if pipes == [] {
      assert pipes + u == u;
    } else {
      PipesLead(pipes[1..], u);
      assert (pipes + u)[1..] == pipes[1..] + u;
    }
  }

  lemma {:induction false} FittingLong(long: seq<seq<byte>>)
    requires forall i :: 0 <= i < |long| ==> |long[i]| > MAX_LEN
    ensures Fitting(long) == []
    decreases |long|
  {
    if long != [] {
      FittingLong(long[..|long| - 1]);
    }
  }

  /** Non-empty segments joined by '|' are split back into exactly those. */
  lemma {:induction false} JoinRoundTrip(segments: seq<seq<byte>>)
    requires segments != []
    requires forall i :: 0 <= i < |segments| ==> segments[i] != [] && PIPE !in segments[i]
    ensures Segments(Join(segments)) == segments
    decreases |segments|
  {
    var s := segments[0];
    var t := Join(segments);
    if |segments| == 1 {
      FirstPipeAt(t, |t|);
      SegmentsToken(t, |t|);
      assert t[..|t|] == t;
    } else {
      var rest := Join(segments[1..]);
      FirstPipeAt(t, |s|);
      assert t[0] == s[0];
      SegmentsToken(t, |s|);
      assert t[..|s|] == s && t[|s| + 1..] == rest;
      JoinRoundTrip(segments[1..]);
    }
  }

  function Join(segments: seq<seq<byte>>): seq<byte> {
    if segments == [] then []
    else if |segments| == 1 then segments[0]
    else segments[0] + [PIPE] + Join(segments[1..])
  }

  /** An index before which there is no '|', and at which there is one or the text ends. */
  lemma {:induction false} FirstPipeAt(t: seq<byte>, i: nat)
    requires i <= |t| && (i < |t| ==> t[i] == PIPE)
    requires forall k :: 0 <= k < i ==> t[k] != PIPE
    ensures FirstPipe(t) == i
  {
    if i > 0 {
      FirstPipeAt(t[1..], i - 1);
    }
  }

  // ------------------------------------------------------------ C routines

  /** Past leading delimiters. */
  method SkipPipes(buf: array<byte>, p: nat, ghost end: nat) returns (start: nat)
    requires p <= end < buf.Length && buf[end] == NUL
    ensures p <= start <= end && start == p + LeadingPipes(buf[p..end])
    ensures buf[start] != PIPE
  {
    start := p;
    while buf[start] == PIPE
      invariant p <= start <= end
      invariant LeadingPipes(buf[p..end]) == start - p + LeadingPipes(buf[start..end])
      decreases end - start
    {
      assert buf[start..end][1..] == buf[start + 1..end];
      start := start + 1;
    }
  }

  /** To the end of a token. */
  method TokenEnd(buf: array<byte>, start: nat, ghost end: nat) returns (q: nat)
    requires start <= end < buf.Length && buf[end] == NUL
    requires forall k :: start <= k < end ==> buf[k] != NUL
    ensures start <= q <= end && q == start + FirstPipe(buf[start..end])
    ensures buf[q] == NUL <==> q == end
  {
    q := start;
    while buf[q] != PIPE && buf[q] != NUL
      invariant start <= q <= end
      invariant forall k :: start <= k < q ==> buf[k] != PIPE
      decreases end - q
    {
      q := q + 1;
    }
    FirstPipeAt(buf[start..end], q - start);
  }

  /** strtok_r(.., "|", ..) from p in the C string that ends at index end. */
  method StrtokR(buf: array<byte>, p: nat, ghost end: nat) returns (found: bool, start: nat, next: nat, ghost stop: nat)
    requires p <= end < buf.Length && buf[end] == NUL
    requires forall k :: p <= k < end ==> buf[k] != NUL
    modifies buf
    ensures var t := old(buf[p..end]);
      if !found then buf[..] == old(buf[..]) && LeadingPipes(t) == |t| && Segments(t) == []
      else
        && start == p + LeadingPipes(t) && stop == start + FirstPipe(t[LeadingPipes(t)..])
        && p <= start < stop <= end
        && next == (if stop == end then end else stop + 1)
        && buf[..] == old(buf[..])[stop := NUL]
        && Segments(t) == [old(buf[start..stop])] + Segments(old(buf[next..end]))
  {
    hide Segments, FirstPipe, LeadingPipes;
    ghost var t := buf[p..end];
    start := SkipPipes(buf, p, end);
    SegmentsLead(t);
    ghost var u := buf[start..end];
    assert u == t[start - p..];
    next, stop := start, start;
    if buf[start] == NUL {
      SegmentsNone(t);
      return false, start, next, stop;
    }
    var q := TokenEnd(buf, start, end);
    stop := q;
    SegmentsToken(u, q - start);
    assert u[..q - start] == buf[start..stop];
    SegmentsEmpty();
    found := true;
    next := if buf[q] == NUL then q else q + 1;
    assert Segments(t) == [buf[start..stop]] + Segments(buf[next..end]) by {
      assert buf[next..end] == if q == end then [] else u[q - start + 1..];
    }
    if buf[q] != NUL {
      buf[q] := NUL;
    }
  }

  lemma SegmentsEmpty()
    ensures Segments([]) == []
  {
    SegmentsNone([]);
  }
}
