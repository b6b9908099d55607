/** The console interrupt handler `consoleintr` and the history recall
    `arrowKey` (console.c:150-234, 261-306): every input byte moves the
    console from one state to the next and emits events towards the UART. */
module Console {
  import opened Ascii
  import opened InputRing
  import opened HistoryStore

  /** `arrowUpDown.arrowIndex`: 0, 1 after ESC, 2 after ESC `[`. Nothing
      ever sets it back to 0. */
  datatype Esc = Idle | SawEscape | SawBracket

  /** `arrowUpDown`: the escape state and the two recall counters. */
  datatype Arrows = Arrows(esc: Esc, countUp: int, countDown: int)

  /** The whole console: input ring, command history and arrow state. */
  datatype State = State(input: Cons, hist: Store, arrows: Arrows)

  /** A state together with what the step echoed. */
  datatype Step = Step(con: State, out: seq<Event>)

  /** A state, what was echoed and the value `arrowKey` returns. */
  datatype KeyResult = KeyResult(con: State, out: seq<Event>, result: int)

  /** Both buffers are well formed. */
  predicate Valid(s: State)
  {
    InputRing.Valid(s.input) && HistoryStore.Valid(s.hist)
  }

  /** Neither recall counter is negative. */
  predicate CountersOk(s: State)
  {
    s.arrows.countUp >= 0 && s.arrows.countDown >= 0
  }

  /** The zero-initialised console of a freshly booted kernel. */
  const Init: State := State(InputRing.Empty, HistoryStore.Empty, Arrows(Idle, 0, 0))

  lemma InitValid()
    ensures Valid(Init)
    ensures Pending(Init.input) == [] && EditRegion(Init.input) == []
  {
  }

  /** The bytes of the line under edit of a valid console may be stored. */
  lemma EditRegionStorable(c: Cons, b: Byte)
    requires InputRing.Valid(c) && c.e < c.r + Size
    ensures StorableLine(EditRegion(c) + [b])
  {
    var line := EditRegion(c) + [b];
    forall i | 0 <= i < |line| - 1
      ensures Plain(line[i])
    {
      SliceIndex(c.buf, c.w, c.e, i);
      assert line[i] == At(c, c.w + i);
    }
  }

  /** Committing the line under edit (console.c:194-227): unless it starts
      with `history`, it is stored in the history and `countUp` is reset;
      in every case the commit cursor moves up to the edit cursor, which
      hands the line to readers. */
  function Commit(s: State): (s': State)
    requires s.input.r <= s.input.w <= s.input.e <= s.input.r + Size
    requires HistoryStore.Valid(s.hist) && StorableLine(EditRegion(s.input))
    ensures s'.input == s.input.(w := s.input.e)
    ensures Pending(s'.input) == Pending(s.input) + EditRegion(s.input)
    ensures HistoryStore.Valid(s'.hist)
    ensures s'.arrows.esc == s.arrows.esc && s'.arrows.countDown == s.arrows.countDown
  {
    var line := EditRegion(s.input);
    SliceConcat(s.input.buf, s.input.r, s.input.w, s.input.e);
    var s1 := if IsHistoryCommand(line) then s
              else s.(hist := Append(s.hist, line), arrows := s.arrows.(countUp := 0));
    s1.(input := s1.input.(w := s.input.e))
  }

  /** The history side of a commit: a line that does not start with
      `history` becomes the newest entry and every older one ages by one
      place; a `history` line leaves the store and `countUp` as they were. */
  lemma CommitRecords(s: State)
    requires s.input.r <= s.input.w <= s.input.e <= s.input.r + Size
    requires HistoryStore.Valid(s.hist) && StorableLine(EditRegion(s.input))
    ensures var s' := Commit(s);
      if IsHistoryCommand(EditRegion(s.input)) then
        s'.hist == s.hist && s'.arrows == s.arrows
      else
        && Recent(s'.hist, 0) == EditRegion(s.input)
        && (forall j :: 0 < j < Slots ==> Recent(s'.hist, j) == Recent(s.hist, j - 1))
        && s'.hist.current == s.hist.last
        && s'.hist.current == (s'.hist.last + Slots - 1) % Slots
        && s'.arrows.countUp == 0
  {
    if !IsHistoryCommand(EditRegion(s.input)) {
      AppendShiftsRecent(s.hist, EditRegion(s.input));
    }
  }

  /** Whether the default branch of the switch stores byte `c`: it is not
      NUL and the ring has room. */
  predicate Stores(s: State, c: Byte)
  {
    c !in {ESC, CtrlP, CtrlU, CtrlH, DEL} && c != NUL && s.input.e - s.input.r < Size
  }

  /** The byte actually stored for `c`: carriage return becomes newline. */
  function Normal(c: Byte): Byte
  {
    if c == CR then NL else c
  }

  /** Whether storing `c` commits the line: a terminator, or a full ring. */
  predicate Commits(s: State, c: Byte)
  {
    Stores(s, c) && (Normal(c) in {NL, CtrlD} || s.input.e + 1 - s.input.r == Size)
  }

  /** The `switch (c)` of `consoleintr` (console.c:165-231). */
  function Dispatch(s: State, c: Byte): (st: Step)
    requires Valid(s)
    ensures Valid(st.con)
    ensures st.con.input.r == s.input.r
    ensures st.con.arrows.esc == (if c == ESC then SawEscape else s.arrows.esc)
    ensures st.con.arrows.countDown == s.arrows.countDown
    ensures !Commits(s, c) ==> st.con.hist == s.hist && st.con.arrows.countUp == s.arrows.countUp
    ensures CountersOk(s) ==> CountersOk(st.con)
  {
    var i := s.input;
    if c == ESC then
      Step(s.(arrows := s.arrows.(esc := SawEscape)), [])
    else if c == CtrlP then
      Step(s, [ProcDump])
    else if c == CtrlU then
      var x := EraseLine(i);
      Step(s.(input := x.cons), x.out)
    else if c == CtrlH || c == DEL then
      var x := EraseOne(i);
      Step(s.(input := x.cons), x.out)
    else if c != NUL && i.e - i.r < Size then
      var b := Normal(c);
      EditRegionStorable(i, b);
      var s1 := s.(input := Put(i, b));
      if b == NL || b == CtrlD || s1.input.e - s1.input.r == Size then
        Step(Commit(s1), [Echo(b)])
      else
        Step(s1, [Echo(b)])
    else
      Step(s, [])
  }

  /** Committed input is never altered by the line editor: what readers
      have not consumed yet stays a prefix of what they will find. The
      line under edit moves to the committed side exactly when `c`
      commits it. */
  lemma DispatchKeepsPending(s: State, c: Byte)
    requires Valid(s)
    ensures var s' := Dispatch(s, c).con;
      && Pending(s.input) <= Pending(s'.input)
      && (Commits(s, c) <==> s'.input.w != s.input.w)
      && (Commits(s, c) ==> Pending(s'.input) == Pending(s.input) + EditRegion(s.input) + [Normal(c)]
                            && EditRegion(s'.input) == [])
      && (!Commits(s, c) ==> Pending(s'.input) == Pending(s.input))
  {
  }

  /** A byte that neither commits nor edits (a plain byte with room) is
      echoed and appended to the line under edit; nothing else changes. */
  lemma DispatchAppends(s: State, c: Byte)
    requires Valid(s)
    requires Stores(s, c) && !Commits(s, c) && c != CR
    ensures var st := Dispatch(s, c);
      && st.out == [Echo(c)]
      && EditRegion(st.con.input) == EditRegion(s.input) + [c]
      && st.con.input.w == s.input.w
      && st.con.hist == s.hist && st.con.arrows == s.arrows
  {
  }

  /** With a full ring the default branch drops the byte without echo. */
  lemma DispatchDropsWhenFull(s: State, c: Byte)
    requires Valid(s) && s.input.e - s.input.r == Size
    requires c !in {ESC, CtrlP, CtrlU, CtrlH, DEL}
    ensures Dispatch(s, c) == Step(s, [])
  {
  }

  /** Kill-line empties the line under edit, echoing one erase per byte. */
  lemma DispatchKillsLine(s: State)
    requires Valid(s)
    ensures var st := Dispatch(s, CtrlU);
      && st.con == s.(input := s.input.(e := s.input.w))
      && st.out == Erasures(s.input.e - s.input.w)
  {
    EraseLineEmptiesLine(s.input);
  }

  /** Backspace and delete drop the last byte of the line under edit and
      echo one erase; on an empty line they do nothing. */
  lemma DispatchErasesOne(s: State, c: Byte)
    requires Valid(s) && (c == CtrlH || c == DEL)
    ensures var st := Dispatch(s, c);
      && st.con.input.w == s.input.w && st.con.hist == s.hist && st.con.arrows == s.arrows
      && (s.input.e == s.input.w ==> st == Step(s, []))
      && (s.input.e != s.input.w ==>
            && st.out == [Erase]
            && EditRegion(st.con.input) == EditRegion(s.input)[..|EditRegion(s.input)| - 1])
  {
  }

  /** The bytes `arrowKey` feeds back through the switch: the stored line
      in slot `current` without its last byte (the `strncpy` of
      `lenghtsArr[current] - 1` bytes). For a line committed by newline or
      ^D that byte is the terminator; for one committed because the ring
      filled it is an ordinary byte, which a recall drops. A slot index outside the store, or
      an empty slot, yields nothing. */
  function ReplayLine(h: Store): (bs: seq<Byte>)
    requires HistoryStore.Valid(h)
    ensures |bs| < Size
    ensures forall i :: 0 <= i < |bs| ==> Plain(bs[i])
    ensures 0 <= h.current < Slots && 0 < h.lens[h.current] ==> bs + [h.rows[h.current][|bs|]] == Entry(h, h.current)
    ensures !(0 <= h.current < Slots && 0 < h.lens[h.current]) ==> bs == []
  {
    if 0 <= h.current < Slots && 0 < h.lens[h.current] then
      var row := h.rows[h.current];
      assert EntryOk(row, h.lens[h.current]);
      row[..h.lens[h.current] - 1]
    else
      []
  }

  /** A recall drops the last byte of the stored line: the terminator of a
      line committed by newline or ^D, but a typed byte of a line committed
      because the ring filled. */
  lemma RecallDropsLastByte(h: Store, line: seq<Byte>)
    requires HistoryStore.Valid(h) && StorableLine(line) && line != []
    ensures ReplayLine(Append(h, line)) == line[..|line| - 1]
  {
  }

  /** The recall loop `for (i ...) consoleintr(commandToPrint[i])`, each
      byte through the switch of `consoleintr`. */
  function Replay(s: State, bytes: seq<Byte>): (st: Step)
    requires Valid(s)
    ensures Valid(st.con)
    ensures st.con.input.r == s.input.r
    ensures ESC !in bytes ==> st.con.arrows.esc == s.arrows.esc
    ensures st.con.arrows.countDown == s.arrows.countDown
    ensures CountersOk(s) ==> CountersOk(st.con)
    decreases |bytes|
  {
    if bytes == [] then Step(s, [])
    else
      var first := Dispatch(s, bytes[0]);
      var rest := Replay(first.con, bytes[1..]);
      assert ESC !in bytes ==> ESC !in bytes[1..];
      Step(rest.con, first.out + rest.out)
  }

  /** A plain byte typed into a ring with room to spare is stored by `Put`
      and echoed, and nothing else happens. */
  lemma TypeStep(s: State, c: Byte)
    requires Valid(s) && Plain(c) && s.input.e - s.input.r + 1 < Size
    ensures Dispatch(s, c) == Step(s.(input := Put(s.input, c)), [Echo(c)])
  {
  }

  /** What typing `bytes` in does: they are echoed and appended to the line
      under edit, and nothing is committed. */
  ghost predicate TypedIn(s: State, st: Step, bytes: seq<Byte>)
    requires s.input.r <= s.input.w <= s.input.e && st.con.input.r <= st.con.input.w <= st.con.input.e
  {
    && st.out == Echoes(bytes)
    && EditRegion(st.con.input) == EditRegion(s.input) + bytes
    && st.con == s.(input := st.con.input)
    && st.con.input.r == s.input.r && st.con.input.w == s.input.w
    && Pending(st.con.input) == Pending(s.input)
  }

  /** Plain bytes that fit without filling the ring are typed in. */
  lemma {:induction false} ReplayTypes(s: State, bytes: seq<Byte>)
    requires Valid(s)
    requires forall i :: 0 <= i < |bytes| ==> Plain(bytes[i])
    requires s.input.e - s.input.r + |bytes| < Size
    ensures TypedIn(s, Replay(s, bytes), bytes)
    decreases |bytes|
  {
    if bytes != [] {
      var c := bytes[0];
      TypeStep(s, c);
      var s1 := s.(input := Put(s.input, c));
      ReplayTypes(s1, bytes[1..]);
      assert EditRegion(s.input) + [c] + bytes[1..] == EditRegion(s.input) + bytes;
    }
  }

  /** The guards of `arrowKey` (console.c:270-271, 289). */
  predicate UpAllowed(s: State)
  {
    var h := s.hist;
    h.count > 0 && ((h.count < Slots && h.current > -1) || (h.count == Slots && s.arrows.countUp < h.count))
  }

  predicate DownAllowed(s: State)
  {
    s.arrows.countDown > 0
  }

  /** The recall cursor after an up press (console.c:281-284): one slot
      older, wrapping to slot 15 only once the store is full. */
  function Older(h: Store): int
  {
    if h.count == Slots && h.current - 1 < 0 then 15 else h.current - 1
  }

  /** The recall cursor after a down press (console.c:298-301): one slot
      newer, wrapping to slot 0 only once the store is full. */
  function Newer(h: Store): int
  {
    if h.count == Slots && h.current + 1 > 15 then 0 else h.current + 1
  }

  /** `arrowKey(isUp)` (console.c:261-306): erase the line under edit, then,
      if the guard allows, type the recalled line back in and move the
      recall cursor: up towards older lines (wrapping to slot 15 once the
      store is full), down towards newer ones (wrapping to slot 0). It
      returns 0 on a recall and -1 when the guard refuses, in which case
      only the erase has happened. */
  function ArrowKey(s: State, isUp: bool): (k: KeyResult)
    requires Valid(s)
    ensures Valid(k.con)
    ensures k.con.input.r == s.input.r
    ensures k.con.arrows.esc == s.arrows.esc
    ensures k.result == 0 || k.result == -1
    ensures CountersOk(s) ==> CountersOk(k.con)
    ensures k.result == 0 <==> (if isUp then UpAllowed(s) else DownAllowed(s))
    ensures k.result == -1 ==> k.con == s.(input := EraseLine(s.input).cons) && k.out == EraseLine(s.input).out
  {
    var er := EraseLine(s.input);
    var s0 := s.(input := er.cons);
    if isUp && UpAllowed(s0) then
      var rp := Replay(s0, ReplayLine(s0.hist));
      var s1 := rp.con;
      var s2 := s1.(hist := s1.hist.(current := Older(s1.hist)),
                    arrows := s1.arrows.(countUp := s1.arrows.countUp + 1, countDown := s1.arrows.countUp + 1));
      KeyResult(s2, er.out + rp.out, 0)
    else if !isUp && DownAllowed(s0) then
      var rp := Replay(s0, ReplayLine(s0.hist));
      var s1 := rp.con;
      var s2 := s1.(hist := s1.hist.(current := Newer(s1.hist)),
                    arrows := s1.arrows.(countDown := s1.arrows.countDown - 1));
      KeyResult(s2, er.out + rp.out, 0)
    else
      KeyResult(s0, er.out, -1)
  }

  /** A recall whose line fits in the ring erases the line under edit and
      types the recalled line in its place; committed input, the stored
      lines and the count are untouched, and the counters move as the
      key says. */
  lemma ArrowKeyRecalls(s: State, isUp: bool)
    requires Valid(s)
    requires if isUp then UpAllowed(s) else DownAllowed(s)
    requires s.input.w - s.input.r + |ReplayLine(s.hist)| < Size
    ensures var k := ArrowKey(s, isUp);
      && k.result == 0
      && k.out == Erasures(s.input.e - s.input.w) + Echoes(ReplayLine(s.hist))
      && EditRegion(k.con.input) == ReplayLine(s.hist)
      && k.con.input.w == s.input.w && Pending(k.con.input) == Pending(s.input)
      && k.con.hist == s.hist.(current := if isUp then Older(s.hist) else Newer(s.hist))
      && (isUp ==> k.con.arrows.countUp == s.arrows.countUp + 1 && k.con.arrows.countDown == s.arrows.countUp + 1)
      && (!isUp ==> k.con.arrows.countUp == s.arrows.countUp && k.con.arrows.countDown == s.arrows.countDown - 1)
  {
    EraseLineEmptiesLine(s.input);
    var s0 := s.(input := EraseLine(s.input).cons);
    ReplayTypes(s0, ReplayLine(s0.hist));
  }

  /** Down undoes up: the recall cursor comes back to the slot it started
      from, and the up leaves a down to spend. */
  lemma DownUndoesUp(s: State)
    requires Valid(s) && CountersOk(s) && UpAllowed(s)
    requires 0 <= s.hist.current < Slots
    requires s.input.w - s.input.r + |ReplayLine(s.hist)| < Size
    ensures var s1 := ArrowKey(s, true).con;
      && DownAllowed(s1)
      && (s1.input.w - s1.input.r + |ReplayLine(s1.hist)| < Size ==>
            ArrowKey(s1, false).con.hist == s.hist)
  {
    ArrowKeyRecalls(s, true);
    var s1 := ArrowKey(s, true).con;
    if s1.input.w - s1.input.r + |ReplayLine(s1.hist)| < Size {
      ArrowKeyRecalls(s1, false);
    }
  }

  /** Up walks the history from the newest line back: with the cursor on
      the `j`-th newest line, up types that line (without its last byte)
      in place of the line under edit and moves the cursor to the
      `j + 1`-th newest. Before the store has filled, the cursor leaves the
      store after the oldest line; once it is full it wraps round. */
  lemma UpWalksBack(s: State, j: nat)
    requires Valid(s) && UpAllowed(s) && j < s.hist.count
    requires s.hist.current == (s.hist.last + Slots - 1 - j) % Slots
    requires s.input.w - s.input.r + |ReplayLine(s.hist)| < Size
    ensures var k := ArrowKey(s, true);
      && EditRegion(k.con.input) == DropLast(Recent(s.hist, j))
      && k.con.hist.current ==
           if j + 1 < s.hist.count || s.hist.count == Slots
           then (s.hist.last + Slots - 2 - j) % Slots
           else -1
  {
    ArrowKeyRecalls(s, true);
    ReplayLineIsRecent(s.hist, j);
    OlderIsNextRecent(s.hist, j);
  }

  /** With the cursor on the `j`-th newest line, a recall replays it
      without its last byte. */
  lemma ReplayLineIsRecent(h: Store, j: nat)
    requires HistoryStore.Valid(h) && j < Slots
    requires h.current == (h.last + Slots - 1 - j) % Slots
    ensures ReplayLine(h) == DropLast(Recent(h, j))
  {
    if 0 < h.lens[h.current] {
      var bs := ReplayLine(h);
      assert Recent(h, j) == bs + [h.rows[h.current][|bs|]];
    }
  }

  /** One step older from the `j`-th newest line is the `j + 1`-th newest,
      or, before the store has filled, off the store past the oldest. */
  lemma OlderIsNextRecent(h: Store, j: nat)
    requires HistoryStore.Valid(h) && j < h.count
    requires h.current == (h.last + Slots - 1 - j) % Slots
    ensures Older(h) ==
      if j + 1 < h.count || h.count == Slots then (h.last + Slots - 2 - j) % Slots else -1
  {
  }

  /** `consoleintr(c)` (console.c:150-234): `[` after ESC and `A`/`B` after
      ESC `[` are taken by the escape state machine; every other byte goes
      through the switch. */
  function Intr(s: State, c: Byte): (st: Step)
    requires Valid(s)
    ensures Valid(st.con)
    ensures st.con.input.r == s.input.r
    ensures CountersOk(s) ==> CountersOk(st.con)
  {
    if c == LBracket && s.arrows.esc == SawEscape then
      Step(s.(arrows := s.arrows.(esc := SawBracket)), [])
    else if (c == KeyUp || c == KeyDown) && s.arrows.esc == SawBracket then
      var k := ArrowKey(s, c == KeyUp);
      Step(k.con, k.out)
    else
      Dispatch(s, c)
  }

  /** ESC leads to `SawEscape` from anywhere, `[` leads from there to
      `SawBracket`, and nothing leads back to `Idle`. Once an arrow key has
      been seen, every later `A` or `B` is taken as one until the next ESC;
      after a lone ESC they are typed (see `LoneEscapeDisarms`). */
  lemma IntrEscape(s: State, c: Byte)
    requires Valid(s)
    ensures var e' := Intr(s, c).con.arrows.esc;
      && (c == ESC ==> e' == SawEscape)
      && (c != ESC ==> e' == (if c == LBracket && s.arrows.esc == SawEscape then SawBracket else s.arrows.esc))
      && (e' == Idle <==> s.arrows.esc == Idle && c != ESC)
  {
  }

  /** A lone ESC disarms a pending arrow key: whatever the escape state
      was, an `A` or `B` that follows ESC directly is typed like any other
      byte. */
  lemma LoneEscapeDisarms(s: State, c: Byte)
    requires Valid(s) && (c == KeyUp || c == KeyDown)
    ensures var s1 := Intr(s, ESC).con;
      s1.arrows.esc == SawEscape && Intr(s1, c) == Dispatch(s1, c)
  {
  }

  /** Typed input never alters committed input: the pending bytes only
      grow, and they grow by whole lines. */
  lemma {:induction false} ReplayKeepsPending(s: State, bytes: seq<Byte>)
    requires Valid(s)
    ensures Pending(s.input) <= Pending(Replay(s, bytes).con.input)
    decreases |bytes|
  {
    if bytes != [] {
      DispatchKeepsPending(s, bytes[0]);
      ReplayKeepsPending(Dispatch(s, bytes[0]).con, bytes[1..]);
    }
  }

  lemma IntrKeepsPending(s: State, c: Byte)
    requires Valid(s)
    ensures Pending(s.input) <= Pending(Intr(s, c).con.input)
  {
    if c == LBracket && s.arrows.esc == SawEscape {
    } else if (c == KeyUp || c == KeyDown) && s.arrows.esc == SawBracket {
      EraseLineEmptiesLine(s.input);
      var s0 := s.(input := EraseLine(s.input).cons);
      ReplayKeepsPending(s0, ReplayLine(s0.hist));
    } else {
      DispatchKeepsPending(s, c);
    }
  }

  /** The console fed a sequence of bytes, one interrupt each. */
  function IntrAll(s: State, bytes: seq<Byte>): (st: Step)
    requires Valid(s)
    ensures Valid(st.con)
    ensures st.con.input.r == s.input.r
    decreases |bytes|
  {
    if bytes == [] then Step(s, [])
    else
      var first := Intr(s, bytes[0]);
      var rest := IntrAll(first.con, bytes[1..]);
      Step(rest.con, first.out + rest.out)
  }

  /** Whatever is typed, committed input is only ever added to. */
  lemma {:induction false} IntrAllKeepsPending(s: State, bytes: seq<Byte>)
    requires Valid(s)
    ensures Pending(s.input) <= Pending(IntrAll(s, bytes).con.input)
    decreases |bytes|
  {
    if bytes != [] {
      IntrKeepsPending(s, bytes[0]);
      IntrAllKeepsPending(Intr(s, bytes[0]).con, bytes[1..]);
    }
  }

  /** Before the first ESC every byte goes straight to the switch. */
  lemma {:induction false} IntrAllIdle(s: State, bytes: seq<Byte>)
    requires Valid(s) && s.arrows.esc == Idle && ESC !in bytes
    ensures IntrAll(s, bytes) == Replay(s, bytes)
    decreases |bytes|
  {
    if bytes != [] {
      assert bytes[0] in bytes;
      IntrAllIdle(Dispatch(s, bytes[0]).con, bytes[1..]);
    }
  }

  /** Feeding `a + b` is feeding `a`, then `b`. */
  lemma {:induction false} ReplayConcat(s: State, a: seq<Byte>, b: seq<Byte>)
    requires Valid(s)
    ensures var x := Replay(s, a);
      var y := Replay(x.con, b);
      Replay(s, a + b) == Step(y.con, x.out + y.out)
    decreases |a|
  {
    if a == [] {
      assert a + b == b;
    } else {
      var first := Dispatch(s, a[0]);
      var x := Replay(first.con, a[1..]);
      var y := Replay(x.con, b);
      ReplayConcat(first.con, a[1..], b);
      assert (a + b)[0] == a[0] && (a + b)[1..] == a[1..] + b;
      assert Replay(s, a + b) == Step(y.con, first.out + (x.out + y.out));
      assert Replay(s, a) == Step(x.con, first.out + x.out);
      assert first.out + (x.out + y.out) == (first.out + x.out) + y.out;
    }
  }

  /** What committing a line does to the console. */
  ghost predicate Committed(s: State, st: Step, all: seq<Byte>, t: Byte)
    requires Valid(s) && Valid(st.con)
  {
    && st.out == [Echo(t)]
    && Pending(st.con.input) == Pending(s.input) + all
    && st.con.input.w == st.con.input.e
    && st.con.arrows.esc == s.arrows.esc
    && (IsHistoryCommand(all) ==> st.con.hist == s.hist)
    && (!IsHistoryCommand(all) ==>
          && Entry(st.con.hist, s.hist.last) == all
          && st.con.hist.current == s.hist.last
          && st.con.hist.count == (if s.hist.count < Slots then s.hist.count + 1 else Slots)
          && st.con.arrows.countUp == 0)
  }

  /** A newline or ^D typed with room in the ring commits the line under
      edit together with the terminator. */
  lemma TerminateLine(s: State, t: Byte)
    requires Valid(s) && (t == NL || t == CtrlD) && s.input.e - s.input.r < Size
    ensures Committed(s, Dispatch(s, t), EditRegion(s.input) + [t], t)
  {
    DispatchKeepsPending(s, t);
  }

  /** Typing plain bytes and a terminator (newline or ^D) commits the line
      under edit with them: the whole line `all`, terminator included,
      joins the committed input, and, unless it starts with `history`,
      becomes the newest entry of the history with the recall cursor on
      it. */
  lemma TypeLine(s: State, line: seq<Byte>, t: Byte, all: seq<Byte>)
    requires Valid(s) && (t == NL || t == CtrlD)
    requires forall i :: 0 <= i < |line| ==> Plain(line[i])
    requires s.input.e - s.input.r + |line| < Size
    requires all == EditRegion(s.input) + line + [t]
    ensures var st := Replay(s, line + [t]);
      && Committed(s, Step(st.con, [Echo(t)]), all, t)
      && st.out == Echoes(line) + [Echo(t)]
      && st.con.arrows.countDown == s.arrows.countDown
  {
    ReplayConcat(s, line, [t]);
    ReplayTypes(s, line);
    var x := Replay(s, line).con;
    TerminateLine(x, t);
    var d := Dispatch(x, t);
    assert Replay(x, [t]) == Step(d.con, d.out + []);
    assert EditRegion(x.input) + [t] == EditRegion(s.input) + line + [t];
  }
}
