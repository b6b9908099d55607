/** Whole interactions from boot: a line typed and read back, end of file
    with ^D, and recalling the first line with the up arrow. */
module Scenarios {
  import opened Ascii
  import opened InputRing
  import opened HistoryStore
  import opened Console

  /** A first line a user can type at boot: plain bytes that fit in the ring,
      not starting with `history`. */
  predicate Typable(line: seq<Byte>)
  {
    && 0 < |line| < Size
    && (forall i :: 0 <= i < |line| ==> Plain(line[i]))
    && !IsHistoryCommand(line + [NL])
  }

  lemma PlainNoStop(line: seq<Byte>)
    requires forall i :: 0 <= i < |line| ==> Plain(line[i])
    ensures NoStop(line) && ESC !in line
  {
    assert forall i :: 0 <= i < |line| ==> line[i] != ESC;
  }

  /** Before any ESC, a line of plain bytes and its terminator go straight
      through the switch. */
  lemma IdleTyping(s: State, line: seq<Byte>, t: Byte)
    requires Console.Valid(s) && s.arrows.esc == Idle
    requires forall i :: 0 <= i < |line| ==> Plain(line[i])
    requires t == NL || t == CtrlD
    ensures IntrAll(s, line + [t]) == Replay(s, line + [t])
  {
    PlainNoStop(line);
    assert ESC !in line + [t];
    IntrAllIdle(s, line + [t]);
  }

  /** Before any ESC, typing `line` and the terminator `t` into a console
      with an empty line under edit hands both to readers. */
  lemma TypingWhileIdle(s: State, line: seq<Byte>, t: Byte)
    requires Console.Valid(s) && s.arrows.esc == Idle && s.input.w == s.input.e
    requires forall i :: 0 <= i < |line| ==> Plain(line[i])
    requires s.input.e - s.input.r + |line| < Size
    requires t == NL || t == CtrlD
    ensures var st := Replay(s, line + [t]);
      && Pending(st.con.input) == Pending(s.input) + line + [t]
      && st.con.input.w == st.con.input.e
      && st.out == Echoes(line) + [Echo(t)]
  {
    assert EditRegion(s.input) + line + [t] == line + [t];
    TypeLine(s, line, t, line + [t]);
  }

  /** The same typing records the line, unless it starts with `history`,
      as the newest history entry, with the recall cursor on it. */
  lemma TypingWhileIdleRecords(s: State, line: seq<Byte>, t: Byte)
    requires Console.Valid(s) && s.arrows.esc == Idle && s.input.w == s.input.e
    requires forall i :: 0 <= i < |line| ==> Plain(line[i])
    requires s.input.e - s.input.r + |line| < Size
    requires t == NL || t == CtrlD
    requires !IsHistoryCommand(line + [t])
    ensures var h := Replay(s, line + [t]).con.hist;
      && Entry(h, s.hist.last) == line + [t]
      && h.current == s.hist.last
      && h.count == (if s.hist.count < Slots then s.hist.count + 1 else Slots)
    ensures Replay(s, line + [t]).con.arrows == s.arrows.(countUp := 0)
  {
    assert EditRegion(s.input) + line + [t] == line + [t];
    TypeLine(s, line, t, line + [t]);
  }

  /** A console as it stands at boot: nothing typed, nothing stored, no
      escape seen. */
  predicate Booted(s: State)
  {
    && Console.Valid(s)
    && s.input.r == s.input.w == s.input.e
    && s.arrows == Arrows(Idle, 0, 0)
    && s.hist.count == 0 && s.hist.last == 0
  }

  lemma InitBooted()
    ensures Booted(Init)
  {
    InitValid();
  }

  /** At boot, typing `line` and the terminator `t` commits both. */
  lemma BootTyping(s: State, line: seq<Byte>, t: Byte)
    requires Booted(s)
    requires forall i :: 0 <= i < |line| ==> Plain(line[i])
    requires |line| < Size && (t == NL || t == CtrlD)
    ensures var st := IntrAll(s, line + [t]);
      && Pending(st.con.input) == line + [t]
      && st.con.input.w == st.con.input.e
  {
    IdleTyping(s, line, t);
    TypingWhileIdle(s, line, t);
  }

  /** The console after the first line has been typed at boot. */
  function FirstLine(s: State, line: seq<Byte>): (s': State)
    requires Booted(s) && Typable(line)
    ensures Console.Valid(s')
  {
    IntrAll(s, line + [NL]).con
  }

  /** The reader gets back exactly the line that was typed, newline
      included. */
  lemma FirstLineIsRead(s: State, line: seq<Byte>, n: int, killed: bool)
    requires Booted(s) && Typable(line) && |line| < n
    ensures var c := FirstLine(s, line).input;
      Read(c, n, killed) == Returned(c.(r := c.w), line + [NL], |line| + 1)
  {
    BootTyping(s, line, NL);
    PlainNoStop(line);
    var c := FirstLine(s, line).input;
    ReadWholeLine(c, n, killed, line);
  }

  /** A line ended by ^D is handed to the reader without the ^D, and the
      read after it returns 0: end of file. */
  lemma EndOfFile(s: State, line: seq<Byte>, n: int, m: int, killed: bool)
    requires Booted(s)
    requires 0 < |line| < Size && forall i :: 0 <= i < |line| ==> Plain(line[i])
    requires |line| < n && 0 < m
    ensures var c := IntrAll(s, line + [CtrlD]).con.input;
      var first := Read(c, n, killed);
      && first == Returned(c.(r := c.r + |line|), line, |line|)
      && Read(first.cons, m, killed) == Returned(c.(r := c.w), [], 0)
  {
    BootTyping(s, line, CtrlD);
    PlainNoStop(line);
    EofHandshake(IntrAll(s, line + [CtrlD]).con.input, line, n, m, killed);
  }

  /** The console once the reader has taken the first line and the user
      has pressed ESC `[`, the start of an arrow key. */
  function AtArrow(s: State, line: seq<Byte>): (s': State)
    requires Booted(s) && Typable(line)
    ensures Console.Valid(s')
  {
    var s1 := FirstLine(s, line);
    BootTyping(s, line, NL);
    var s2 := s1.(input := s1.input.(r := s1.input.w));
    IntrAll(s2, [ESC, LBracket]).con
  }

  /** What `AtArrow` holds: an empty ring, the line stored in slot 0 with
      the recall cursor on it, and the escape state ready for `A`/`B`. */
  lemma AtArrowState(s: State, line: seq<Byte>)
    requires Booted(s) && Typable(line)
    ensures var s' := AtArrow(s, line);
      && s'.input.r == s'.input.w == s'.input.e
      && s'.arrows == Arrows(SawBracket, 0, 0)
      && s'.hist.count == 1 && s'.hist.current == 0
      && Entry(s'.hist, 0) == line + [NL]
  {
    BootTyping(s, line, NL);
    IdleTyping(s, line, NL);
    TypingWhileIdleRecords(s, line, NL);
    var s1 := FirstLine(s, line);
    var s2 := s1.(input := s1.input.(r := s1.input.w));
    var s3 := s2.(arrows := s2.arrows.(esc := SawEscape));
    var s4 := s3.(arrows := s3.arrows.(esc := SawBracket));
    assert Intr(s2, ESC) == Step(s3, []);
    assert Intr(s3, LBracket) == Step(s4, []);
    assert IntrAll(s3, [LBracket]) == Step(s4, []);
    assert IntrAll(s2, [ESC, LBracket]) == Step(s4, []);
  }

  /** Up recalls the first line: it is echoed and typed in as the line
      under edit, with nothing committed; the recall cursor moves below the
      store and one down press is allowed. */
  lemma RecallFirstLine(s: State, line: seq<Byte>)
    requires Booted(s) && Typable(line)
    ensures var st := Intr(AtArrow(s, line), KeyUp);
      && st.out == Echoes(line)
      && EditRegion(st.con.input) == line
      && Pending(st.con.input) == []
      && st.con.hist.current == -1
      && DownAllowed(st.con)
  {
    AtArrowState(s, line);
    var s' := AtArrow(s, line);
    assert |ReplayLine(s'.hist)| == |line|;
    assert ReplayLine(s'.hist) == (line + [NL])[..|line|] == line;
    ArrowKeyRecalls(s', true);
  }
}
