/** Three places where console.c, read literally, leaves its arrays or
    never returns. The rest of the model uses the intended behaviour; each
    member here models the code as written, says where it agrees with that
    intended behaviour, and exhibits an input on which it does not. */
module AsWritten {
  import opened Ascii
  import opened InputRing
  import opened HistoryStore
  import opened Console
  import opened Scenarios

  /** `None`: the C code reads or writes outside an array, or overflows
      its stack, at this point. */
  datatype Option<T> = None | Some(value: T)

  /** The copy of the line under edit at commit time (console.c:199-203):
      `commandString[j] = cons.buf[i]` for `i` from `w` up to `e`, with no
      `% INPUT_BUF_SIZE`, then a terminating NUL at `commandString[j]`. It
      stays inside both arrays only while the edit cursor is in the first
      lap of the ring and the line is shorter than the ring; there it copies
      exactly the line under edit. */
  function CopyLineAsWritten(c: Cons): (r: Option<seq<Byte>>)
    requires c.w <= c.e
    ensures r.Some? <==> c.e <= Size && c.e - c.w < Size
    ensures r.Some? ==> r.value == EditRegion(c)
  {
    if c.e <= Size && c.e - c.w < Size then
      SliceInFirstLap(c.buf, c.w, c.e);
      Some(c.buf[c.w..c.e])
    else
      None
  }

  /** Within the first lap a slice of the ring is a slice of the array. */
  lemma {:induction false} SliceInFirstLap(buf: Ring, from: nat, to: nat)
    requires from <= to <= Size
    ensures Slice(buf, from, to) == buf[from..to]
    decreases (to as int) - (from as int)
  {
    if from < to {
      SliceInFirstLap(buf, from + 1, to);
      assert buf[from..to] == [buf[from]] + buf[from + 1..to];
    }
  }

  /** Every line committed once 128 bytes have gone through the ring is
      copied from outside `cons.buf`, although the line under edit is well
      defined; so is every 128-byte line, whose terminator lands outside
      `commandString`. */
  lemma CopyLeavesRing(c: Cons)
    requires InputRing.Valid(c) && c.w < c.e
    requires Size <= c.w || c.e - c.w == Size
    ensures CopyLineAsWritten(c) == None
    ensures |EditRegion(c)| == c.e - c.w > 0
  {
  }

  /** The slot `arrowKey` copies from, as written (console.c:273, 291):
      `bufferArr[currentHistory]` with no bound check, and
      `lenghtsArr[currentHistory] - 1` as an unsigned count, which for an
      empty slot is 2^32 - 1 and overruns `commandToPrint`. Where it is
      defined it copies what `ReplayLine` yields. */
  function ReplayLineAsWritten(h: Store): (r: Option<seq<Byte>>)
    requires HistoryStore.Valid(h)
    ensures r.Some? <==> 0 <= h.current < Slots && 0 < h.lens[h.current]
    ensures r.Some? ==> r.value == ReplayLine(h)
  {
    if 0 <= h.current < Slots then
      if h.lens[h.current] == 0 then None
      else Some(h.rows[h.current][..h.lens[h.current] - 1])
    else
      None
  }

  /** One line typed at boot, then up, then down: the down is allowed and
      copies from `bufferArr[-1]`. */
  lemma DownReadsBelowStore(s: State, line: seq<Byte>)
    requires Booted(s) && Typable(line)
    ensures var s' := Intr(AtArrow(s, line), KeyUp).con;
      && s'.arrows.esc == SawBracket
      && DownAllowed(s')
      && s'.hist.current == -1
      && ReplayLineAsWritten(s'.hist) == None
  {
    RecallFirstLine(s, line);
    AtArrowState(s, line);
  }

  /** `arrowKey` as written (console.c:261-306): the recalled bytes go back
      through the whole of `consoleintr`, and the escape state is still
      `SawBracket` there, so a recalled `A` or `B` is itself taken as an
      arrow key and calls `arrowKey` again before the recall cursor has
      moved. `depth` bounds how deep these calls may nest (the kernel stack
      is finite); `None` means the recall needs deeper nesting. */
  function ArrowKeyAsWritten(s: State, isUp: bool, depth: nat): (k: Option<KeyResult>)
    requires Console.Valid(s)
    ensures k.Some? ==> Console.Valid(k.value.con)
    decreases depth, 1, 0
  {
    var er := EraseLine(s.input);
    var s0 := s.(input := er.cons);
    if (isUp && UpAllowed(s0)) || (!isUp && DownAllowed(s0)) then
      var rp := ReplayAsWritten(s0, ReplayLine(s0.hist), depth);
      if rp.None? then None
      else
        var s1 := rp.value.con;
        var s2 :=
          if isUp then
            s1.(hist := s1.hist.(current := Older(s1.hist)),
                arrows := s1.arrows.(countUp := s1.arrows.countUp + 1, countDown := s1.arrows.countUp + 1))
          else
            s1.(hist := s1.hist.(current := Newer(s1.hist)),
                arrows := s1.arrows.(countDown := s1.arrows.countDown - 1));
        Some(KeyResult(s2, er.out + rp.value.out, 0))
    else
      Some(KeyResult(s0, er.out, -1))
  }

  /** The recall loop as written: each byte through all of `consoleintr`. */
  function ReplayAsWritten(s: State, bytes: seq<Byte>, depth: nat): (r: Option<Step>)
    requires Console.Valid(s)
    ensures r.Some? ==> Console.Valid(r.value.con)
    decreases depth, 0, |bytes|
  {
    if bytes == [] then Some(Step(s, []))
    else
      var c := bytes[0];
      var first :=
        if c == LBracket && s.arrows.esc == SawEscape then
          Some(Step(s.(arrows := s.arrows.(esc := SawBracket)), []))
        else if (c == KeyUp || c == KeyDown) && s.arrows.esc == SawBracket then
          if depth == 0 then None
          else
            var k := ArrowKeyAsWritten(s, c == KeyUp, depth - 1);
            if k.None? then None else Some(Step(k.value.con, k.value.out))
        else
          Some(Dispatch(s, c));
      if first.None? then None
      else
        var rest := ReplayAsWritten(first.value.con, bytes[1..], depth);
        if rest.None? then None
        else Some(Step(rest.value.con, first.value.out + rest.value.out))
  }

  /** No arrow letters and no ESC among the bytes. */
  predicate NoArrowLetters(bytes: seq<Byte>)
  {
    forall i :: 0 <= i < |bytes| ==> bytes[i] != KeyUp && bytes[i] != KeyDown && bytes[i] != ESC
  }

  lemma {:induction false} ReplayAsWrittenAgrees(s: State, bytes: seq<Byte>, depth: nat)
    requires Console.Valid(s) && s.arrows.esc == SawBracket && NoArrowLetters(bytes)
    ensures ReplayAsWritten(s, bytes, depth) == Some(Replay(s, bytes))
    decreases |bytes|
  {
    if bytes != [] {
      ReplayAsWrittenAgrees(Dispatch(s, bytes[0]).con, bytes[1..], depth);
    }
  }

  /** A recalled line without `A` or `B` is recalled as intended, at any
      nesting bound. */
  lemma ArrowKeyAsWrittenAgrees(s: State, isUp: bool, depth: nat)
    requires Console.Valid(s) && s.arrows.esc == SawBracket
    requires KeyUp !in ReplayLine(s.hist) && KeyDown !in ReplayLine(s.hist)
    ensures ArrowKeyAsWritten(s, isUp, depth) == Some(ArrowKey(s, isUp))
  {
    var bs := ReplayLine(s.hist);
    assert NoArrowLetters(bs) by {
      forall i | 0 <= i < |bs|
        ensures bs[i] != KeyUp && bs[i] != KeyDown && bs[i] != ESC
      {
        assert bs[i] in bs && Plain(bs[i]);
      }
    }
    var s0 := s.(input := EraseLine(s.input).cons);
    ReplayAsWrittenAgrees(s0, bs, depth);
    assert ReplayAsWritten(s0, ReplayLine(s0.hist), depth) == Some(Replay(s0, ReplayLine(s0.hist)));
  }

  /** A recall of the line `A` from an empty line under edit never ends: the
      recalled `A` starts the same recall again, at every depth. */
  lemma {:induction false} RecallOfArrowLetterNeverEnds(s: State, depth: nat)
    requires Console.Valid(s) && s.arrows.esc == SawBracket && s.input.e == s.input.w
    requires UpAllowed(s) && ReplayLine(s.hist) == [KeyUp]
    ensures ArrowKeyAsWritten(s, true, depth) == None
    decreases depth
  {
    assert EraseLine(s.input) == Echoed(s.input, []);
    assert s.(input := s.input) == s;
    if depth > 0 {
      RecallOfArrowLetterNeverEnds(s, depth - 1);
    }
  }

  /** Reached from boot: type `A` and a newline, let the reader take the
      line, press up. The code as written never returns, while the recall as
      intended types the `A` back in. */
  lemma UpOnArrowLetterLine(s: State, depth: nat)
    requires Booted(s)
    ensures Typable([KeyUp])
    ensures ArrowKeyAsWritten(AtArrow(s, [KeyUp]), true, depth) == None
    ensures EditRegion(Intr(AtArrow(s, [KeyUp]), KeyUp).con.input) == [KeyUp]
  {
    HistoryCommandIsPrefix([KeyUp, NL]);
    AtArrowState(s, [KeyUp]);
    RecallFirstLine(s, [KeyUp]);
    var s' := AtArrow(s, [KeyUp]);
    assert ReplayLine(s'.hist) == ([KeyUp] + [NL])[..1] == [KeyUp];
    RecallOfArrowLetterNeverEnds(s', depth);
  }
}
