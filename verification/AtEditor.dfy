/** Reference for the AT command line editor of
    applications/modem_shell/src/at/at_cmd_mode.c: a list of pending bytes, from which quoting
    is recomputed at every byte, and what it means to run a stream through it. */
module AtEditor {
  import opened Bytes

  const NUL: byte := 0x00
  const BACKSPACE: byte := 0x08
  const LF: byte := 0x0A
  const CR: byte := 0x0D
  const DC1: byte := 0x11
  const CAN: byte := 0x18
  const QUOTE: byte := 0x22
  const PIPE: byte := 0x7C
  const DEL: byte := 0x7F

  datatype Mode = NullTerm | CrTerm | LfTerm | CrLfTerm

  /** The pending bytes and the lines dispatched so far. */
  datatype Editor = Editor(pending: seq<byte>, lines: seq<seq<byte>>)

  function Quotes(s: seq<byte>): nat {
    if s == [] then 0 else Quotes(s[..|s| - 1]) + if s[|s| - 1] == QUOTE then 1 else 0
  }

  predicate InsideQuotes(s: seq<byte>) {
    Quotes(s) % 2 == 1
  }

  predicate IsErase(c: byte) {
    c == BACKSPACE || c == DEL
  }

  /** The byte that ends a line; in CR+LF mode the CR before it is part of the line. */
  function Terminator(mode: Mode): byte {
    match mode
    case NullTerm => NUL
    case CrTerm => CR
    case LfTerm => LF
    case CrLfTerm => LF
  }

  predicate Terminates(mode: Mode, pending: seq<byte>, c: byte) {
    && c == Terminator(mode)
    && (mode == CrLfTerm ==> pending != [] && pending[|pending| - 1] == CR)
    && !InsideQuotes(pending)
  }

  function Edit(cap: nat, mode: Mode, e: Editor, c: byte): Editor {
    if IsErase(c) then
      if e.pending == [] then e else e.(pending := e.pending[..|e.pending| - 1])
    else if Terminates(mode, e.pending, c) then
      Editor([], e.lines + [e.pending])
    else if |e.pending| >= cap then
      e
    else
      e.(pending := e.pending + [c])
  }

  function EditAll(cap: nat, mode: Mode, e: Editor, stream: seq<byte>): Editor
    decreases |stream|
  {
    if stream == [] then e else EditAll(cap, mode, Edit(cap, mode, e, stream[0]), stream[1..])
  }

  lemma {:induction false} EditAllConcat(cap: nat, mode: Mode, e: Editor, a: seq<byte>, b: seq<byte>)
    ensures EditAll(cap, mode, e, a + b) == EditAll(cap, mode, EditAll(cap, mode, e, a), b)
    decreases |a|
  {
    if a == [] {
      assert a + b == b;
    } else {
      assert (a + b)[1..] == a[1..] + b;
      EditAllConcat(cap, mode, Edit(cap, mode, e, a[0]), a[1..], b);
    }
  }

  // --------------------------------------------------------- properties of the reference

  predicate Balanced(cap: nat, e: Editor) {
    && |e.pending| <= cap
    && forall i :: 0 <= i < |e.lines| ==> |e.lines[i]| <= cap && !InsideQuotes(e.lines[i])
  }

  /** Every dispatched line has all its quotes closed and fits the buffer. */
  lemma {:induction false} LinesBalanced(cap: nat, mode: Mode, e: Editor, stream: seq<byte>)
    requires Balanced(cap, e)
    ensures Balanced(cap, EditAll(cap, mode, e, stream))
    decreases |stream|
  {
    if stream != [] {
      LinesBalanced(cap, mode, Edit(cap, mode, e, stream[0]), stream[1..]);
    }
  }

  /** Lines, each followed by the terminator. */
  function Joined(lines: seq<seq<byte>>, t: byte): seq<byte> {
    if lines == [] then [] else Joined(lines[..|lines| - 1], t) + lines[|lines| - 1] + [t]
  }

  /** All the text an editor stands for. */
  function Text(mode: Mode, e: Editor): seq<byte> {
    Joined(e.lines, Terminator(mode)) + e.pending
  }

  /** Bytes refused because the buffer was full. */
  function Dropped(cap: nat, mode: Mode, e: Editor, stream: seq<byte>): nat
    decreases |stream|
  {
    if stream == [] then 0 else
      var full := !IsErase(stream[0]) && !Terminates(mode, e.pending, stream[0]) && |e.pending| >= cap;
      (if full then 1 else 0) + Dropped(cap, mode, Edit(cap, mode, e, stream[0]), stream[1..])
  }

  lemma TextStep(cap: nat, mode: Mode, e: Editor, c: byte)
    requires !IsErase(c)
    ensures var e1 := Edit(cap, mode, e, c);
      Text(mode, e1) == if Terminates(mode, e.pending, c) || |e.pending| < cap then Text(mode, e) + [c] else Text(mode, e)
  {
    var e1 := Edit(cap, mode, e, c);
    if Terminates(mode, e.pending, c) {
      assert e1.lines[..|e1.lines| - 1] == e.lines;
    }
  }

  lemma HeadFirst(t: seq<byte>, s: seq<byte>)
    ensures if s == [] then t + s == t else (t + [s[0]]) + s[1..] == t + s
  {
  }

  lemma FirstByte(cap: nat, mode: Mode, e: Editor, stream: seq<byte>)
    requires stream != [] && !IsErase(stream[0])
    ensures EditAll(cap, mode, e, stream) == EditAll(cap, mode, Edit(cap, mode, e, stream[0]), stream[1..])
    ensures Dropped(cap, mode, e, stream)
         == (if Terminates(mode, e.pending, stream[0]) || |e.pending| < cap then 0 else 1)
            + Dropped(cap, mode, Edit(cap, mode, e, stream[0]), stream[1..])
  {
    hide Edit, Terminates;
  }

  lemma {:induction false} TextGrows(cap: nat, mode: Mode, e: Editor, stream: seq<byte>)
    requires forall i :: 0 <= i < |stream| ==> !IsErase(stream[i])
    ensures |Text(mode, EditAll(cap, mode, e, stream))| == |Text(mode, e)| + |stream| - Dropped(cap, mode, e, stream)
    ensures Dropped(cap, mode, e, stream) == 0 ==> Text(mode, EditAll(cap, mode, e, stream)) == Text(mode, e) + stream
    decreases |stream|
  {
    HeadFirst(Text(mode, e), stream);
    if stream != [] {
      hide Text, Edit, Terminates, EditAll, Dropped;
      var c, rest := stream[0], stream[1..];
      FirstByte(cap, mode, e, stream);
      TextStep(cap, mode, e, c);
      TextGrows(cap, mode, Edit(cap, mode, e, c), rest);
    }
  }

  /** A stream without erasures is exactly the dispatched lines with their terminators and the
      pending text, if and only if no byte was refused by a full buffer. */
  lemma StreamIsLinesIff(cap: nat, mode: Mode, stream: seq<byte>)
    requires forall i :: 0 <= i < |stream| ==> !IsErase(stream[i])
    ensures var e := EditAll(cap, mode, Editor([], []), stream);
      (Joined(e.lines, Terminator(mode)) + e.pending == stream)
      <==> (Dropped(cap, mode, Editor([], []), stream) == 0)
  {
    TextGrows(cap, mode, Editor([], []), stream);
    assert Text(mode, Editor([], [])) + stream == stream;
  }

  lemma QuotesAppend(s: seq<byte>, c: byte)
    ensures Quotes(s + [c]) == Quotes(s) + if c == QUOTE then 1 else 0
  {
    assert (s + [c])[..|s|] == s;
  }

  /** Inside quotes means an odd number of '"' bytes. */
  lemma {:induction false} QuotesCounted(s: seq<byte>)
    ensures Quotes(s) == multiset(s)[0x22]
  {
    if s != [] {
      var init, last := s[..|s| - 1], s[|s| - 1];
      QuotesCounted(init);
      assert s == init + [last];
    }
  }

  /** Outside an odd number of quotes, c ends the line in its mode: NUL, CR, LF, or LF behind CR. */
  predicate LineEnd(mode: Mode, pending: seq<byte>, c: byte) {
    && multiset(pending)[0x22] % 2 == 0
    && ((mode == NullTerm && c == 0x00)
        || (mode == CrTerm && c == 0x0D)
        || (mode == LfTerm && c == 0x0A)
        || (mode == CrLfTerm && c == 0x0A && pending != [] && pending[|pending| - 1] == 0x0D))
  }

  /** What one byte does to the pending text and to the lines: backspace and delete take the last byte
      back, a line end dispatches exactly the pending text, and any other byte is appended unless the
      pending text fills the buffer. */
  lemma EditMeans(cap: nat, mode: Mode, e: Editor, c: byte)
    ensures var e1 := Edit(cap, mode, e, c);
      var erases := c == 0x08 || c == 0x7F;
      && (erases && e.pending != [] ==> e1.pending + [e.pending[|e.pending| - 1]] == e.pending)
      && (erases && e.pending == [] ==> e1.pending == [])
      && (e1.lines != e.lines <==> !erases && LineEnd(mode, e.pending, c))
      && (e1.lines != e.lines ==> e1.lines == e.lines + [e.pending] && e1.pending == [])
      && (!erases && e1.lines == e.lines ==> e1.pending == if |e.pending| < cap then e.pending + [c] else e.pending)
  {
    hide Quotes;
    QuotesCounted(e.pending);
  }

  // ------------------------------------------------------------- escape sequence

  /** CAN immediately followed by DC1. */
  predicate HasEscape(s: seq<byte>) {
    exists i :: 0 <= i < |s| - 1 && s[i] == CAN && s[i + 1] == DC1
  }

  /** The test of at_cmd_mode_bypass_cb on one chunk, given the last byte of the one before. */
  predicate EscapeHere(tail: byte, chunk: seq<byte>)
    requires chunk != []
  {
    (tail == CAN && chunk[0] == DC1) || HasEscape(chunk)
  }

  function Concat(chunks: seq<seq<byte>>): seq<byte> {
    if chunks == [] then [] else Concat(chunks[..|chunks| - 1]) + chunks[|chunks| - 1]
  }

  function LastByte(s: seq<byte>): byte {
    if s == [] then NUL else s[|s| - 1]
  }

  lemma EscapeAcross(seen: seq<byte>, chunk: seq<byte>)
    requires chunk != []
    ensures HasEscape(seen + chunk) <==> HasEscape(seen) || EscapeHere(LastByte(seen), chunk)
  {
    var s := seen + chunk;
    if HasEscape(seen) {
      var i :| 0 <= i < |seen| - 1 && seen[i] == CAN && seen[i + 1] == DC1;
      assert s[i] == CAN && s[i + 1] == DC1;
    }
    if seen != [] && LastByte(seen) == CAN && chunk[0] == DC1 {
      assert s[|seen| - 1] == CAN && s[|seen| - 1 + 1] == DC1;
    }
    if HasEscape(chunk) {
      var i :| 0 <= i < |chunk| - 1 && chunk[i] == CAN && chunk[i + 1] == DC1;
      assert s[|seen| + i] == CAN && s[|seen| + i + 1] == DC1;
    }
    if HasEscape(s) {
      var i :| 0 <= i < |s| - 1 && s[i] == CAN && s[i + 1] == DC1;
      if i + 1 < |seen| {
        assert seen[i] == CAN && seen[i + 1] == DC1;
      } else if i >= |seen| {
        var j := i - |seen|;
        assert chunk[j] == CAN && chunk[j + 1] == DC1;
      }
    }
  }

  /** The escape sequence is Ctrl-X, Ctrl-Q in adjacent bytes. */
  lemma EscapeMeans(s: seq<byte>)
    ensures HasEscape(s) <==> exists before, after :: s == before + [0x18, 0x11] + after
  {
    if HasEscape(s) {
      var i :| 0 <= i < |s| - 1 && s[i] == CAN && s[i + 1] == DC1;
      assert s == s[..i] + [0x18, 0x11] + s[i + 2..];
    }
    forall before, after | s == before + [0x18, 0x11] + after ensures HasEscape(s) {
      assert s[|before|] == CAN && s[|before| + 1] == DC1;
    }
  }

  /** AT command mode as a whole. */
  datatype Session = Session(editor: Editor, tail: byte, active: bool)

  /** One call of at_cmd_mode_bypass_cb; once the mode is left, it is not called any more. */
  function Bypass(cap: nat, mode: Mode, s: Session, chunk: seq<byte>): Session
    requires chunk != []
  {
    if !s.active then s
    else if EscapeHere(s.tail, chunk) then Session(s.editor.(pending := []), NUL, false)
    else Session(EditAll(cap, mode, s.editor, chunk), chunk[|chunk| - 1], true)
  }

  predicate NonEmptyChunks(chunks: seq<seq<byte>>) {
    forall i :: 0 <= i < |chunks| ==> chunks[i] != []
  }

  function Feed(cap: nat, mode: Mode, s: Session, chunks: seq<seq<byte>>): Session
    requires NonEmptyChunks(chunks)
  {
    if chunks == [] then s
    else Bypass(cap, mode, Feed(cap, mode, s, chunks[..|chunks| - 1]), chunks[|chunks| - 1])
  }

  function Started(lines: seq<seq<byte>>): Session {
    Session(Editor([], lines), NUL, true)
  }

  /** However the input is cut: the mode is still on exactly when the whole input holds no escape
      sequence, and then the editor is the reference editor on the whole input. */
  lemma {:induction false} ChunkingIrrelevant(cap: nat, mode: Mode, lines: seq<seq<byte>>, chunks: seq<seq<byte>>)
    requires NonEmptyChunks(chunks)
    ensures var s := Feed(cap, mode, Started(lines), chunks);
      && (s.active <==> !HasEscape(Concat(chunks)))
      && (s.active ==> s.tail == LastByte(Concat(chunks))
                       && s.editor == EditAll(cap, mode, Editor([], lines), Concat(chunks)))
    decreases |chunks|
  {
    if chunks != [] {
      var init, last := chunks[..|chunks| - 1], chunks[|chunks| - 1];
      ChunkingIrrelevant(cap, mode, lines, init);
      EscapeAcross(Concat(init), last);
      EditAllConcat(cap, mode, Editor([], lines), Concat(init), last);
    }
  }

  /** The mode is left on the first chunk that completes an escape sequence: nothing of that
      chunk or of later ones is edited, and everything before it has been. */
  lemma {:induction false} ExitsOnFirstEscape(cap: nat, mode: Mode, lines: seq<seq<byte>>, chunks: seq<seq<byte>>, k: nat)
    requires NonEmptyChunks(chunks) && k < |chunks|
    requires !HasEscape(Concat(chunks[..k])) && HasEscape(Concat(chunks[..k + 1]))
    ensures Feed(cap, mode, Started(lines), chunks)
         == Session(EditAll(cap, mode, Editor([], lines), Concat(chunks[..k])).(pending := []), NUL, false)
    decreases |chunks|
  {
    var init := chunks[..|chunks| - 1];
    if k == |chunks| - 1 {
      assert chunks[..k + 1] == chunks;
      ChunkingIrrelevant(cap, mode, lines, init);
      EscapeAcross(Concat(init), chunks[k]);
    } else {
      assert init[..k] == chunks[..k] && init[..k + 1] == chunks[..k + 1];
      ExitsOnFirstEscape(cap, mode, lines, init, k);
    }
  }
}
