/** The console input buffer `cons` (console.c:45-54): a 128-byte ring with a
    read cursor `r`, a commit cursor `w` and an edit cursor `e`, the erase
    operations of the line editor, and the reader `consoleread`. */
module InputRing {
  import opened Ascii

  /** INPUT_BUF_SIZE. */
  const Size: nat := 128

  /** A fixed array of `Size` bytes. */
  type Ring = s: seq<Byte> | |s| == Size witness Repeat(0, 128)

  /** The cursors only grow; a cursor `k` names ring cell `k % Size`. */
  datatype Cons = Cons(buf: Ring, r: nat, w: nat, e: nat)

  /** The byte in the ring cell that cursor `k` names. */
  function Cell(buf: Ring, k: nat): Byte
  {
    buf[k % Size]
  }

  function At(c: Cons, k: nat): Byte
  {
    Cell(c.buf, k)
  }

  /** The buffer with nothing typed. */
  const Empty: Cons := Cons(Repeat(0, Size), 0, 0, 0)

  /** The invariant every console step keeps: the cursors are ordered, the
      edit cursor leads the read cursor by at most `Size`, and the line under
      edit holds only plain bytes (a terminator commits at once). */
  predicate Valid(c: Cons)
  {
    && c.r <= c.w <= c.e <= c.r + Size
    && forall k :: c.w <= k < c.e ==> Plain(At(c, k))
  }

  /** The bytes between two cursors, oldest first. */
  function Slice(buf: Ring, from: nat, to: nat): (s: seq<Byte>)
    requires from <= to
    ensures |s| == to - from
    decreases (to as int) - (from as int)
  {
    if from == to then [] else [Cell(buf, from)] + Slice(buf, from + 1, to)
  }

  /** Committed bytes not yet consumed by a reader. */
  function Pending(c: Cons): seq<Byte>
    requires c.r <= c.w
  {
    Slice(c.buf, c.r, c.w)
  }

  /** The line under edit, from the commit cursor to the edit cursor. */
  function EditRegion(c: Cons): seq<Byte>
    requires c.w <= c.e
  {
    Slice(c.buf, c.w, c.e)
  }

  lemma {:induction false} SliceIndex(buf: Ring, from: nat, to: nat, i: nat)
    requires from + i < to
    ensures Slice(buf, from, to)[i] == Cell(buf, from + i)
    decreases i
  {
    if i > 0 {
      SliceIndex(buf, from + 1, to, i - 1);
    }
  }

  /** A slice grows at its end by the byte under its end cursor. */
  lemma {:induction false} SliceSnoc(buf: Ring, from: nat, to: nat)
    requires from <= to
    ensures Slice(buf, from, to + 1) == Slice(buf, from, to) + [Cell(buf, to)]
    decreases (to as int) - (from as int)
  {
    if from < to {
      SliceSnoc(buf, from + 1, to);
    }
  }

  /** A slice reads only the cells between its cursors. */
  lemma {:induction false} SliceFrame(buf: Ring, buf': Ring, from: nat, to: nat)
    requires from <= to
    requires forall k :: from <= k < to ==> Cell(buf', k) == Cell(buf, k)
    ensures Slice(buf', from, to) == Slice(buf, from, to)
    decreases (to as int) - (from as int)
  {
    if from < to {
      SliceFrame(buf, buf', from + 1, to);
    }
  }

  /** Adjacent slices join. */
  lemma {:induction false} SliceConcat(buf: Ring, from: nat, mid: nat, to: nat)
    requires from <= mid <= to
    ensures Slice(buf, from, to) == Slice(buf, from, mid) + Slice(buf, mid, to)
    decreases (mid as int) - (from as int)
  {
    if from < mid {
      SliceConcat(buf, from + 1, mid, to);
      assert [Cell(buf, from)] + (Slice(buf, from + 1, mid) + Slice(buf, mid, to))
          == ([Cell(buf, from)] + Slice(buf, from + 1, mid)) + Slice(buf, mid, to);
    }
  }

  /** Two cursors less than `Size` apart name different ring cells. */
  lemma CellsDistinct(a: nat, b: nat)
    requires a < b < a + Size
    ensures a % Size != b % Size
  {
  }

  datatype Echoed = Echoed(cons: Cons, out: seq<Event>)

  /** The kill-line loop (also the first step of `arrowKey`): step the edit
      cursor back, echoing one erase per byte, until it meets the commit
      cursor or the byte before it is a newline. */
  function EraseLine(c: Cons): (res: Echoed)
    requires c.w <= c.e
    ensures res.cons.buf == c.buf && res.cons.r == c.r && res.cons.w == c.w
    ensures c.w <= res.cons.e <= c.e
    ensures res.out == Erasures(c.e - res.cons.e)
    ensures res.cons.e == c.w || At(c, res.cons.e - 1) == NL
    ensures forall k :: res.cons.e <= k < c.e ==> At(c, k) != NL
    decreases c.e - c.w
  {
    if c.e != c.w && At(c, c.e - 1) != NL then
      var c' := c.(e := c.e - 1);
      var rest := EraseLine(c');
      assert forall k :: At(c', k) == At(c, k);
      assert [Erase] + Erasures(c.e - 1 - rest.cons.e) == Erasures(c.e - rest.cons.e);
      Echoed(rest.cons, [Erase] + rest.out)
    else
      Echoed(c, [])
  }

  /** On a valid buffer the kill-line loop empties the line under edit and
      touches nothing else: the line never holds a newline. */
  lemma EraseLineEmptiesLine(c: Cons)
    requires Valid(c)
    ensures EraseLine(c).cons == c.(e := c.w)
    ensures EraseLine(c).out == Erasures(c.e - c.w)
  {
    assert forall k :: c.w <= k < c.e ==> At(c, k) != NL;
  }

  /** Backspace / delete: drop the last byte of the line under edit, if any. */
  function EraseOne(c: Cons): (res: Echoed)
    requires c.w <= c.e
    ensures res.cons.buf == c.buf && res.cons.r == c.r && res.cons.w == c.w
    ensures c.w <= res.cons.e <= c.e
    ensures Valid(c) ==> Valid(res.cons)
    ensures c.e == c.w ==> res == Echoed(c, [])
    ensures c.e != c.w ==>
      res.out == [Erase] && EditRegion(res.cons) == EditRegion(c)[..c.e - c.w - 1]
  {
    if c.e != c.w then
      var c' := c.(e := c.e - 1);
      SliceSnoc(c.buf, c.w, c.e - 1);
      assert forall k :: At(c', k) == At(c, k);
      Echoed(c', [Erase])
    else
      Echoed(c, [])
  }

  /** Store `b` at the edit cursor and advance it (`cons.buf[cons.e++ % ...] = c`).
      The committed bytes are untouched and the line under edit grows by `b`. */
  function Put(c: Cons, b: Byte): (c': Cons)
    requires c.r <= c.w <= c.e < c.r + Size
    ensures c'.r == c.r && c'.w == c.w && c'.e == c.e + 1
    ensures Pending(c') == Pending(c)
    ensures EditRegion(c') == EditRegion(c) + [b]
    ensures forall k :: c.r <= k < c.e ==> At(c', k) == At(c, k)
  {
    PutKeepsOthers(c, b);
    c.(buf := c.buf[c.e % Size := b], e := c.e + 1)
  }

  lemma PutKeepsOthers(c: Cons, b: Byte)
    requires c.r <= c.w <= c.e < c.r + Size
    ensures var buf' := c.buf[c.e % Size := b];
      && (forall k :: c.r <= k < c.e ==> Cell(buf', k) == Cell(c.buf, k))
      && Slice(buf', c.r, c.w) == Slice(c.buf, c.r, c.w)
      && Slice(buf', c.w, c.e + 1) == Slice(c.buf, c.w, c.e) + [b]
  {
    var buf' := c.buf[c.e % Size := b];
    forall k | c.r <= k < c.e
      ensures Cell(buf', k) == Cell(c.buf, k)
    {
      CellsDistinct(k, c.e);
    }
    SliceFrame(c.buf, buf', c.r, c.w);
    SliceFrame(c.buf, buf', c.w, c.e);
    SliceSnoc(buf', c.w, c.e);
  }

  /** Where a read stands when it returns or has to sleep; `data` is what
      it handed to the caller. `Sleeping` is the `sleep(&cons.r, ...)` of
      the wait loop: the reader still wants `n` bytes and, once woken, goes
      on with `ReadLoop` from the state it then finds. */
  datatype ReadStep =
    | Returned(cons: Cons, data: seq<Byte>, result: int)
    | Sleeping(cons: Cons, data: seq<Byte>, n: int)

  /** The rest of a read that had already handed `b` to the caller. */
  function After(b: Byte, rest: ReadStep): ReadStep
  {
    rest.(data := [b] + rest.data)
  }

  /** The body of `consoleread` from its outer `while (n > 0)` on: `target`
      is the byte count first asked for, `n` what is still wanted, and
      `killed` what `killed(myproc())` answers while the reader would wait.
      It moves only the read cursor, and a count it returns (unless it
      fails) adds the bytes it handed over to those handed over before. */
  function ReadLoop(c: Cons, target: int, n: int, killed: bool): (res: ReadStep)
    requires c.r <= c.w
    ensures res.cons.buf == c.buf && res.cons.w == c.w && res.cons.e == c.e
    ensures res.Returned? && res.result != -1 ==> res.result == target - n + |res.data|
    decreases if n > 0 then n else 0
  {
    if n <= 0 then
      Returned(c, [], target - n)
    else if c.r == c.w then
      if killed then Returned(c, [], -1) else Sleeping(c, [], n)
    else
      var b := At(c, c.r);
      var c1 := c.(r := c.r + 1);
      if b == CtrlD then
        // push the ^D back when bytes were copied, so the next read returns 0
        Returned(if n < target then c else c1, [], target - n)
      else if b == NL then
        Returned(c1, [b], target - (n - 1))
      else
        After(b, ReadLoop(c1, target, n - 1, killed))
  }

  /** The bytes a read hands over are the oldest committed ones, in order. */
  lemma {:induction false} ReadLoopTakesOldest(c: Cons, target: int, n: int, killed: bool)
    requires c.r <= c.w
    ensures var d := ReadLoop(c, target, n, killed).data;
      c.r + |d| <= c.w && d == Slice(c.buf, c.r, c.r + |d|)
    decreases if n > 0 then n else 0
  {
    if n > 0 && c.r < c.w && At(c, c.r) != CtrlD && At(c, c.r) != NL {
      ReadLoopTakesOldest(c.(r := c.r + 1), target, n - 1, killed);
    }
  }

  /** What a read hands over holds no ^D, a newline only as its last byte,
      and never more than was asked for. */
  lemma {:induction false} ReadLoopContent(c: Cons, target: int, n: int, killed: bool)
    requires c.r <= c.w
    ensures var d := ReadLoop(c, target, n, killed).data;
      && CtrlD !in d
      && (forall i :: 0 <= i < |d| - 1 ==> d[i] != NL)
      && |d| <= (if n > 0 then n else 0)
    decreases if n > 0 then n else 0
  {
    if n > 0 && c.r < c.w && At(c, c.r) != CtrlD && At(c, c.r) != NL {
      ReadLoopContent(c.(r := c.r + 1), target, n - 1, killed);
    }
  }

  /** A successful return of a read that wanted `n > 0` bytes comes after
      `n` bytes, after a newline, or in front of a committed ^D. */
  ghost predicate ReturnsAtStop(c: Cons, res: ReadStep, n: int)
  {
    res.Returned? && res.result != -1 ==>
      || |res.data| == n
      || (0 < |res.data| && res.data[|res.data| - 1] == NL)
      || (c.r + |res.data| < c.w && At(c, c.r + |res.data|) == CtrlD)
  }

  lemma {:induction false} ReadLoopReturns(c: Cons, target: int, n: int, killed: bool)
    requires c.r <= c.w
    requires n > 0
    ensures ReturnsAtStop(c, ReadLoop(c, target, n, killed), n)
    decreases n
  {
    if c.r < c.w && At(c, c.r) != CtrlD && At(c, c.r) != NL && n > 1 {
      ReadLoopReturns(c.(r := c.r + 1), target, n - 1, killed);
    }
  }

  /** A read fails (-1, only when killed) or goes to sleep only once every
      committed byte is taken; a sleeping reader still wants the rest. */
  ghost predicate WaitsWhenDrained(c: Cons, res: ReadStep, n: int, killed: bool)
  {
    && (res.Returned? && res.result == -1 ==> killed && c.r + |res.data| == c.w)
    && (res.Sleeping? ==> !killed && c.r + |res.data| == c.w && 0 < res.n == n - |res.data|)
  }

  lemma {:induction false} ReadLoopWaits(c: Cons, target: int, n: int, killed: bool)
    requires c.r <= c.w
    requires 0 < n <= target
    ensures WaitsWhenDrained(c, ReadLoop(c, target, n, killed), n, killed)
    decreases n
  {
    if c.r < c.w && At(c, c.r) != CtrlD && At(c, c.r) != NL && n > 1 {
      ReadLoopWaits(c.(r := c.r + 1), target, n - 1, killed);
    }
  }

  /** Where the read cursor ends: past every byte handed over, and past a ^D
      only when it is the first byte met by a read that has copied nothing
      (which then returns 0); a ^D met later is left for the next read. */
  lemma {:induction false} ReadLoopCursor(c: Cons, target: int, n: int, killed: bool)
    requires c.r <= c.w
    requires n <= target
    ensures var res := ReadLoop(c, target, n, killed);
      res.cons.r == c.r + |res.data|
        + (if n == target && 0 < n && c.r < c.w && At(c, c.r) == CtrlD then 1 else 0)
    decreases if n > 0 then n else 0
  {
    if n > 0 && c.r < c.w && At(c, c.r) != CtrlD && At(c, c.r) != NL {
      ReadLoopCursor(c.(r := c.r + 1), target, n - 1, killed);
    }
  }

  /** No ^D and no newline among the `k` bytes from cursor `from` on. */
  ghost predicate NoStopBefore(buf: Ring, from: nat, k: nat)
  {
    forall i :: from <= i < from + k ==> Cell(buf, i) != NL && Cell(buf, i) != CtrlD
  }

  /** A read with room for the whole next committed line returns exactly
      that line, newline included, and moves past it. */
  lemma {:induction false} ReadLoopLine(c: Cons, target: int, n: int, killed: bool, k: nat)
    requires c.r + k < c.w && k < n
    requires At(c, c.r + k) == NL && NoStopBefore(c.buf, c.r, k)
    ensures ReadLoop(c, target, n, killed)
      == Returned(c.(r := c.r + k + 1), Slice(c.buf, c.r, c.r + k + 1), target - n + k + 1)
    decreases k
  {
    if k > 0 {
      assert At(c, c.r) != NL && At(c, c.r) != CtrlD;
      ReadLoopLine(c.(r := c.r + 1), target, n - 1, killed, k - 1);
    }
  }

  /** A read that meets a committed ^D after copying `k > 0` bytes returns
      those bytes and leaves the ^D unread. */
  lemma {:induction false} ReadLoopEof(c: Cons, target: int, n: int, killed: bool, k: nat)
    requires c.r + k < c.w && k < n <= target && 0 < k + (target - n)
    requires At(c, c.r + k) == CtrlD && NoStopBefore(c.buf, c.r, k)
    ensures ReadLoop(c, target, n, killed)
      == Returned(c.(r := c.r + k), Slice(c.buf, c.r, c.r + k), target - n + k)
    decreases k
  {
    if k > 0 {
      assert At(c, c.r) != NL && At(c, c.r) != CtrlD;
      ReadLoopEof(c.(r := c.r + 1), target, n - 1, killed, k - 1);
    }
  }

  /** `consoleread(dst, n)` as a caller sees it on entry: the count returned
      is the number of bytes handed over, and they are the oldest committed
      bytes in order. */
  function Read(c: Cons, n: int, killed: bool): (res: ReadStep)
    requires c.r <= c.w
    ensures res.Returned? && res.result != -1 ==> res.result == |res.data|
    ensures c.r + |res.data| <= c.w && res.data == Slice(c.buf, c.r, c.r + |res.data|)
  {
    ReadLoopTakesOldest(c, n, n, killed);
    ReadLoop(c, n, n, killed)
  }

  /** A read keeps the buffer invariant: the read cursor only moves forward
      and never passes the commit cursor; nothing else changes. */
  lemma ReadKeepsValid(c: Cons, n: int, killed: bool)
    requires Valid(c)
    ensures var c' := Read(c, n, killed).cons;
      && Valid(c') && c.r <= c'.r <= c.w
      && c' == c.(r := c'.r)
  {
    ReadLoopCursor(c, n, n, killed);
    var c' := Read(c, n, killed).cons;
    assert forall k :: At(c', k) == At(c, k);
  }

  /** Neither a newline nor a ^D occurs in `line`. */
  predicate NoStop(line: seq<Byte>)
  {
    forall i :: 0 <= i < |line| ==> line[i] != NL && line[i] != CtrlD
  }

  /** The committed bytes from the read cursor on begin with `prefix`: the
      `i`-th of them is the `i`-th byte of `prefix`. */
  lemma PendingStartsWith(c: Cons, prefix: seq<Byte>, i: nat)
    requires c.r <= c.w && prefix <= Pending(c) && i < |prefix|
    ensures c.r + i < c.w && At(c, c.r + i) == prefix[i]
  {
    SliceIndex(c.buf, c.r, c.w, i);
  }

  /** When the committed input starts with a whole line, a read with room
      for it returns exactly that line, newline included, and leaves the
      read cursor just past it. */
  lemma ReadWholeLine(c: Cons, n: int, killed: bool, line: seq<Byte>)
    requires c.r <= c.w && line + [NL] <= Pending(c)
    requires NoStop(line) && |line| < n
    ensures Read(c, n, killed) == Returned(c.(r := c.r + |line| + 1), line + [NL], |line| + 1)
  {
    var k := |line|;
    PendingStartsWith(c, line + [NL], k);
    forall i | c.r <= i < c.r + k
      ensures Cell(c.buf, i) != NL && Cell(c.buf, i) != CtrlD
    {
      PendingStartsWith(c, line + [NL], i - c.r);
    }
    ReadLoopLine(c, n, n, killed, k);
    SliceConcat(c.buf, c.r, c.r + k + 1, c.w);
  }

  /** When the committed input starts with some bytes and a ^D, a read with
      room for them returns those bytes and leaves the ^D in place. */
  lemma ReadUpToEof(c: Cons, n: int, killed: bool, line: seq<Byte>)
    requires c.r <= c.w && line + [CtrlD] <= Pending(c)
    requires NoStop(line) && 0 < |line| < n
    ensures Read(c, n, killed) == Returned(c.(r := c.r + |line|), line, |line|)
  {
    var k := |line|;
    PendingStartsWith(c, line + [CtrlD], k);
    forall i | c.r <= i < c.r + k
      ensures Cell(c.buf, i) != NL && Cell(c.buf, i) != CtrlD
    {
      PendingStartsWith(c, line + [CtrlD], i - c.r);
    }
    ReadLoopEof(c, n, n, killed, k);
    SliceConcat(c.buf, c.r, c.r + k, c.w);
    assert Slice(c.buf, c.r, c.r + k) == Pending(c)[..k] == line;
  }

  /** A read that meets a ^D first returns 0 bytes and consumes it: the
      caller sees end of file. */
  lemma ReadAtEof(c: Cons, n: int, killed: bool)
    requires c.r < c.w && At(c, c.r) == CtrlD && 0 < n
    ensures Read(c, n, killed) == Returned(c.(r := c.r + 1), [], 0)
  {
  }

  /** The end-of-file handshake: when the committed input is some bytes and
      a ^D, a read returns the bytes, and the read after it returns 0 and
      leaves nothing pending. */
  lemma EofHandshake(c: Cons, line: seq<Byte>, n: int, m: int, killed: bool)
    requires c.r <= c.w && Pending(c) == line + [CtrlD]
    requires NoStop(line) && 0 < |line| < n && 0 < m
    ensures var first := Read(c, n, killed);
      && first == Returned(c.(r := c.r + |line|), line, |line|)
      && Read(first.cons, m, killed) == Returned(c.(r := c.w), [], 0)
  {
    ReadUpToEof(c, n, killed, line);
    PendingStartsWith(c, line + [CtrlD], |line|);
    ReadAtEof(c.(r := c.r + |line|), m, killed);
  }
}
