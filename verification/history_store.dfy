/** The command history `historyBufferArray` (console.c:56-62): sixteen rows
    of 128 bytes with their stored lengths, the next slot to write, the number
    of lines held (saturating at sixteen) and the recall cursor; the commit-time
    filter that keeps `history` invocations out; and the `history(id)` query. */
module HistoryStore {
  import opened Ascii
  import opened InputRing

  /** MAX_HISTORY; console.c also writes the literal 16 and 15 against it. */
  const Slots: nat := 16

  /** `rows` is `bufferArr`, `lens` is `lenghtsArr`, `last` is
      `lastCommandIndex`, `count` is `numOfCommandsInMem` and `current` is
      `currentHistory`. */
  datatype Store = Store(rows: seq<Ring>, lens: seq<Len>, last: nat, count: int, current: int)

  /** A stored length never exceeds a row. */
  type Len = n: nat | n <= Size

  /** Sixteen rows and sixteen lengths. */
  predicate Shaped(h: Store)
  {
    |h.rows| == Slots && |h.lens| == Slots
  }

  /** A row holds a stored line whose bytes, all but the last, are plain. The
      last byte is the newline or ^D that committed the line, or, for a line
      committed because the ring filled, an ordinary byte. */
  predicate EntryOk(row: Ring, len: Len)
  {
    forall i :: 0 <= i < len - 1 ==> Plain(row[i])
  }

  /** The store as appends leave it: until it first fills, the lines held
      are those of slots `0 .. count - 1`, so the write slot is `count`. */
  predicate Valid(h: Store)
  {
    && Shaped(h)
    && h.last < Slots
    && 0 <= h.count <= Slots
    && (h.count < Slots ==> h.last == h.count)
    && forall j :: 0 <= j < Slots ==> EntryOk(h.rows[j], h.lens[j])
  }

  /** The zero-initialised store of a freshly booted kernel. */
  const Empty: Store := Store(Repeat(InputRing.Empty.buf, Slots), Repeat(0, Slots), 0, 0, 0)

  /** The line stored in slot `j`. */
  function Entry(h: Store, j: nat): seq<Byte>
    requires Shaped(h) && j < Slots
  {
    h.rows[j][..h.lens[j]]
  }

  /** Byte `i` of the C string holding `s`: past its end, the terminating NUL. */
  function CharAt(s: seq<Byte>, i: nat): Byte
  {
    if i < |s| then s[i] else NUL
  }

  /** `strncmp(a + i, b + i, n - i) == 0` on C strings: the bytes agree up to
      position `n`, or up to a NUL both strings hold at the same place. */
  function StrnEqFrom(a: seq<Byte>, b: seq<Byte>, n: nat, i: nat): bool
    decreases n - i
  {
    i >= n || (CharAt(a, i) == CharAt(b, i) && (CharAt(a, i) == NUL || StrnEqFrom(a, b, n, i + 1)))
  }

  /** The commit-time filter: `strncmp(commandString, "history", 7) == 0`
      (console.c:195, 204). */
  function IsHistoryCommand(line: seq<Byte>): bool
  {
    StrnEqFrom(line, HistoryWord, 7, 0)
  }

  lemma {:induction false} StrnEqFromIsSlice(line: seq<Byte>, i: nat)
    requires i <= 7
    requires NUL !in line
    ensures StrnEqFrom(line, HistoryWord, 7, i) <==>
      i == 7 || (|line| >= 7 && line[i..7] == HistoryWord[i..])
    decreases 7 - i
  {
    if i < 7 {
      StrnEqFromIsSlice(line, i + 1);
      assert NUL !in HistoryWord;
      assert HistoryWord[i] in HistoryWord;
      if i < |line| {
        assert line[i] in line;
      }
      if |line| >= 7 {
        assert line[i..7] == [line[i]] + line[i + 1..7];
        assert HistoryWord[i..] == [HistoryWord[i]] + HistoryWord[i + 1..];
      }
    }
  }

  /** On a committed line (which never holds NUL) the filter is a prefix
      test: the line is kept out of the history exactly when its first seven
      bytes are `history`, whatever follows them. */
  lemma HistoryCommandIsPrefix(line: seq<Byte>)
    requires NUL !in line
    ensures IsHistoryCommand(line) <==> |line| >= 7 && line[..7] == HistoryWord
  {
    StrnEqFromIsSlice(line, 0);
  }

  /** Storing a committed line (console.c:206-220): the line, last byte
      included, goes over the front of row `last` with its length; the
      recall cursor moves to that slot, `last` moves on round the ring, and
      the count grows up to `Slots`. Every other slot is untouched. */
  function Append(h: Store, line: seq<Byte>): (h': Store)
    requires Valid(h)
    requires StorableLine(line)
    ensures Valid(h')
    ensures h'.lens[h.last] == |line| && Entry(h', h.last) == line
    ensures h'.rows[h.last][|line|..] == h.rows[h.last][|line|..]
    ensures forall j :: 0 <= j < Slots && j != h.last ==> h'.rows[j] == h.rows[j] && h'.lens[j] == h.lens[j]
    ensures h'.current == h.last
    ensures h'.last == (h.last + 1) % Slots
    ensures h'.count == if h.count + 1 <= Slots then h.count + 1 else Slots
  {
    var row: Ring := line + h.rows[h.last][|line|..];
    var next := h.last + 1;
    Store(h.rows[h.last := row],
          h.lens[h.last := |line|],
          if next == Slots then 0 else next,
          if h.count < Slots then h.count + 1 else h.count,
          next - 1)
  }

  /** `history(id)` (console.c:249-259): 0, or -1 for an id past the store.
      The listing it prints is not modelled. */
  function Query(id: int): (r: int)
    ensures r == 0 || r == -1
    ensures r == -1 <==> id >= Slots
  {
    if id < Slots then 0 else -1
  }

  /** `Query` lets a negative id through, and console.c:254 then indexes
      `bufferArr[id]` below the array. */
  lemma QueryAcceptsNegative()
    ensures Query(-1) == 0
  {
  }

  /** The bound `history` evidently means: only ids naming a slot succeed. */
  function QueryChecked(id: int): (r: int)
    ensures r == 0 || r == -1
    ensures r == 0 <==> 0 <= id < Slots
  {
    if 0 <= id < Slots then 0 else -1
  }

  /** A line the commit path can store: at most `Size` bytes, all but the
      last plain. */
  predicate StorableLine(line: seq<Byte>)
  {
    |line| <= Size && forall i :: 0 <= i < |line| - 1 ==> Plain(line[i])
  }

  predicate Storable(lines: seq<seq<Byte>>)
  {
    forall k :: 0 <= k < |lines| ==> StorableLine(lines[k])
  }

  /** The store after `lines` are committed in order. */
  function AppendAll(h: Store, lines: seq<seq<Byte>>): (h': Store)
    requires Valid(h) && Storable(lines)
    ensures Valid(h')
    decreases |lines|
  {
    if lines == [] then h
    else Append(AppendAll(h, lines[..|lines| - 1]), lines[|lines| - 1])
  }

  lemma ModSucc(a: nat)
    ensures (a % Slots + 1) % Slots == (a + 1) % Slots
  {
  }

  /** `line` without its last byte, if it has one. */
  function DropLast(line: seq<Byte>): seq<Byte>
  {
    if line == [] then [] else line[..|line| - 1]
  }

  /** The `j`-th newest line: the one `j + 1` slots behind the write slot. */
  function Recent(h: Store, j: nat): seq<Byte>
    requires Shaped(h) && h.last < Slots && j < Slots
  {
    Entry(h, (h.last + Slots - 1 - j) % Slots)
  }

  /** One append makes the new line the newest and ages every other line by
      one place. */
  lemma AppendShiftsRecent(h: Store, line: seq<Byte>)
    requires Valid(h)
    requires StorableLine(line)
    ensures Recent(Append(h, line), 0) == line
    ensures forall j :: 0 < j < Slots ==> Recent(Append(h, line), j) == Recent(h, j - 1)
  {
    var h' := Append(h, line);
    forall j | 0 < j < Slots
      ensures Recent(h', j) == Recent(h, j - 1)
    {
      var s := (h'.last + Slots - 1 - j) % Slots;
      assert s == (h.last + Slots - j) % Slots;
      assert s != h.last;
    }
  }

  /** After `k` appends the write slot has moved `k` places round the ring
      and the count has grown by `k`, up to `Slots`. */
  lemma {:induction false} AppendAllCounts(h: Store, lines: seq<seq<Byte>>)
    requires Valid(h) && Storable(lines)
    ensures AppendAll(h, lines).last == (h.last + |lines|) % Slots
    ensures AppendAll(h, lines).count == if h.count + |lines| <= Slots then h.count + |lines| else Slots
    decreases |lines|
  {
    if lines != [] {
      var init := lines[..|lines| - 1];
      AppendAllCounts(h, init);
      ModSucc(h.last + |init|);
    }
  }

  /** The history is a ring of the latest `Slots` lines: the `j`-th newest
      line is the `j`-th from the end of what was appended, for every `j`
      below `Slots`; anything older has been overwritten. */
  lemma {:induction false} AppendAllKeepsLatest(h: Store, lines: seq<seq<Byte>>)
    requires Valid(h) && Storable(lines)
    ensures forall j :: 0 <= j < |lines| && j < Slots ==> Recent(AppendAll(h, lines), j) == lines[|lines| - 1 - j]
    decreases |lines|
  {
    if lines != [] {
      var k := |lines|;
      var init := lines[..k - 1];
      AppendAllKeepsLatest(h, init);
      var h1 := AppendAll(h, init);
      var h' := Append(h1, lines[k - 1]);
      assert AppendAll(h, lines) == h';
      AppendShiftsRecent(h1, lines[k - 1]);
      forall j | 0 < j < k && j < Slots
        ensures Recent(h', j) == lines[k - 1 - j]
      {
        assert Recent(h', j) == Recent(h1, j - 1);
        assert lines[k - 1 - j] == init[k - 2 - (j - 1)];
      }
    }
  }
}
