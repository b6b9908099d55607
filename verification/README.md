# Console line discipline with command history, in Dafny

This project models the console input path of an xv6-riscv kernel that has
been extended with a command history (`phase1/kernel/console.c`). The model
has three parts:

- the **input ring** `cons`: 128 bytes with a read cursor `r`, a commit
  cursor `w` and an edit cursor `e`;
- the **line editor** `consoleintr`: append, kill-line, backspace,
  carriage-return normalisation, and commit on newline, ^D or a full ring.
  A committed line is also stored in a 16-slot **history ring** unless it
  starts with `history`;
- the **arrow-key recall**: `arrowKey`, fed by a three-state escape
  recogniser (ESC, `[`, `A`/`B`). It erases the line under edit and types a
  stored line back in.

The reader `consoleread` drains committed input. `history(id)` queries the
store.

The whole console is one immutable value, `Console.State`, and every entry
point is a pure function on it:

- `Console.Intr(state, byte)` gives the next state and the echo events;
- `InputRing.Read(cons, n, killed)` gives `Returned(cons, data, result)`, or
  `Sleeping(...)` where the C code would block;
- `Console.ArrowKey(state, isUp)` gives the state, the echo events and 0 or
  -1.

Cursors are unbounded naturals, and cursor `k` names ring cell `k % 128`.
The echo is a sequence of abstract events: `Echo(b)`, `Erase` (the visual
backspace) and `ProcDump`.

Files:

- `ascii.dfy`: bytes, control characters, echo events.
- `input_ring.dfy`: the ring, the erase loops and the reader.
- `history_store.dfy`: the history ring, the `history` filter and
  `history(id)`.
- `console.dfy`: the switch of `consoleintr`, commit, recall, the escape
  recogniser.
- `scenarios.dfy`: whole interactions from boot.
- `as_written.dfy`: the code as written where it leaves its arrays or never
  returns (see Findings).

The model follows the code as written, including these behaviours a reader
might not expect:

- The escape state is never reset to idle. Once an arrow key has been seen,
  every later `A` or `B` is taken as an arrow key until the next ESC; after
  a lone ESC, `A` and `B` are typed.
- The history filter is a 7-byte prefix test (`strncmp(..., 7)`), not a
  test for the exact word.
- A stored history line includes its last byte: the newline or ^D that
  committed it, or an ordinary byte when the line was committed because the
  ring filled.
- A recall types the stored line without its last byte. For a line
  committed because the ring filled, that drops a byte the user typed.
- A refused recall is not a no-op: the line under edit has already been
  erased.
- `history(id)` accepts negative ids.
- `countDown` is not reset by a commit.

## Model

| member | source | states |
|---|---|---|
| InputRing.Put | phase1/kernel/console.c:193 | storing a byte at the edit cursor leaves the committed bytes and every cell in use as they were, and grows the line under edit by exactly that byte |
| InputRing.EraseLine | phase1/kernel/console.c:173-179 | the kill loop moves only the edit cursor, never below the commit cursor, echoes one erase per byte removed, and stops at the commit cursor or just after a newline, with no newline among the removed bytes |
| InputRing.EraseLineEmptiesLine | phase1/kernel/console.c:173-179 | on a well-formed ring, kill-line always ends with `e == w`, echoing `e - w` erases |
| InputRing.EraseOne | phase1/kernel/console.c:180-186 | backspace/delete removes exactly the last byte of a non-empty line under edit, with one erase echoed; on an empty line it changes nothing and echoes nothing; `r` and `w` never move |
| InputRing.ReadLoop | phase1/kernel/console.c:103-141 | a read moves only the read cursor, and a count it returns (other than -1) is `target - n` plus the bytes it copied |
| InputRing.ReadLoopTakesOldest | phase1/kernel/console.c:103-138 | the bytes handed to the caller are the oldest committed bytes, in ring order |
| InputRing.ReadLoopContent | phase1/kernel/console.c:116-137 | the copied bytes never contain ^D, contain a newline only as the last byte, and number at most `n` |
| InputRing.ReadLoopReturns | phase1/kernel/console.c:103-138 | a read that succeeds stops after `n` bytes, after a newline, or in front of a committed ^D |
| InputRing.ReadLoopWaits | phase1/kernel/console.c:106-112 | -1 is returned only when killed and every committed byte is taken; a read sleeps only when not killed and drained, still wanting the rest of `n` |
| InputRing.ReadLoopCursor | phase1/kernel/console.c:114-123 | the read cursor ends past every copied byte, and past a ^D only when the ^D is the first byte of the read (pushed back otherwise) |
| InputRing.ReadLoopLine | phase1/kernel/console.c:103-141 | with a newline `k` bytes ahead and no stop byte before it, the read returns exactly those `k + 1` bytes and moves past them |
| InputRing.ReadLoopEof | phase1/kernel/console.c:116-122 | a ^D met after some bytes ends the read with those bytes and stays unread |
| InputRing.Read | phase1/kernel/console.c:94-142 | `consoleread` returns the number of bytes it handed over, and they are the oldest committed bytes |
| InputRing.ReadKeepsValid | phase1/kernel/console.c:103-139 | a read keeps `r <= w <= e <= r + 128`: the read cursor moves forward, never past `w`, and nothing else changes |
| InputRing.ReadWholeLine | phase1/kernel/console.c:94-142 | when committed input starts with a whole line that fits, a read returns that line with its newline and leaves `r` just past it |
| InputRing.ReadUpToEof | phase1/kernel/console.c:116-122 | when committed input starts with bytes and a ^D, a read returns the bytes and leaves the ^D in place |
| InputRing.ReadAtEof | phase1/kernel/console.c:116-122 | a read that meets a ^D first returns 0 and consumes the ^D |
| InputRing.EofHandshake | phase1/kernel/console.c:116-122 | bytes ended by ^D give one read of the bytes, then one read of 0, after which nothing is pending |
| HistoryStore.StrnEqFromIsSlice | phase1/kernel/console.c:204 | `strncmp` against `history` from position `i` holds exactly when the line's bytes `i..7` equal the word's |
| HistoryStore.HistoryCommandIsPrefix | phase1/kernel/console.c:195-204 | the commit filter is a prefix test: a line is kept out exactly when its first seven bytes are `history` |
| HistoryStore.Append | phase1/kernel/console.c:206-220 | the line, last byte included, goes into slot `lastCommandIndex` with its length; the recall cursor moves to that slot; the index advances mod 16; the count grows but never past 16, and until the store first fills the write slot equals the count; every other slot is unchanged |
| HistoryStore.AppendShiftsRecent | phase1/kernel/console.c:206-216 | after an append the new line is the newest entry and every other entry is one place older |
| HistoryStore.AppendAllCounts | phase1/kernel/console.c:210-220 | after `k` appends the write slot has moved `k` places mod 16 and the count has grown by `k`, saturating at 16 |
| HistoryStore.AppendAllKeepsLatest | phase1/kernel/console.c:206-216 | the store holds the latest 16 appended lines: the `j`-th newest entry is the `j`-th line from the end |
| HistoryStore.Query | phase1/kernel/console.c:249-259 | `history(id)` returns -1 exactly when `id >= 16`, and 0 otherwise |
| HistoryStore.QueryAcceptsNegative | phase1/kernel/console.c:250-254 | a negative id passes the check and succeeds |
| HistoryStore.QueryChecked | phase1/kernel/console.c:249-259 | the intended query succeeds exactly for ids naming a slot, `0 <= id < 16` |
| Console.InitValid | phase1/kernel/console.c:45-68 | the zero-initialised console is well formed, with nothing committed and an empty line under edit |
| Console.EditRegionStorable | phase1/kernel/console.c:199-209 | the line under edit, with the byte that commits it, always fits a history row, and all its bytes but that last one are plain |
| Console.Commit | phase1/kernel/console.c:194-227 | a commit sets `w = e`, so the committed input grows by exactly the line under edit; the escape state and `countDown` are untouched |
| Console.CommitRecords | phase1/kernel/console.c:204-223 | a line not starting with `history` becomes the newest entry, the others age by one place, the cursor moves to it (one slot behind the write slot) and `countUp` resets to 0; a `history` line leaves store and counters unchanged |
| Console.Dispatch | phase1/kernel/console.c:165-231 | every switch step keeps `r <= w <= e <= r + 128` with only plain bytes under edit; `r` never moves; ESC alone changes the escape state; `countDown` never changes; without a commit the store and `countUp` are unchanged |
| Console.DispatchKeepsPending | phase1/kernel/console.c:187-228 | committed input is never altered; `w` moves exactly when the byte commits (newline, ^D, or the ring becoming full), and then the whole line under edit plus the stored byte joins the committed input |
| Console.DispatchAppends | phase1/kernel/console.c:187-193 | an ordinary byte with room is echoed and appended to the line under edit, and nothing else changes |
| Console.DispatchDropsWhenFull | phase1/kernel/console.c:188 | with `e - r == 128` an ordinary byte is dropped silently |
| Console.DispatchKillsLine | phase1/kernel/console.c:173-179 | ^U empties the line under edit with one erase echoed per byte, and changes nothing else |
| Console.DispatchErasesOne | phase1/kernel/console.c:180-186 | backspace/delete drop exactly one byte of a non-empty line and echo one erase, and do nothing on an empty line |
| Console.ReplayLine | phase1/kernel/console.c:273 | the recalled bytes are the stored entry at the cursor without its last byte (the terminator, or a typed byte for a line committed by a full ring), all plain and fewer than 128; an out-of-range cursor or an empty slot yields nothing |
| Console.RecallDropsLastByte | phase1/kernel/console.c:273 | the line just stored is recalled without its last byte, whichever byte that is |
| Console.Replay | phase1/kernel/console.c:275-278 | replaying bytes through the switch keeps the console well formed, never moves `r`, keeps the escape state when no ESC is among them, and keeps `countDown` |
| Console.TypeStep | phase1/kernel/console.c:187-193 | a plain byte with room to spare is stored and echoed, and nothing else happens |
| Console.ReplayTypes | phase1/kernel/console.c:275-278 | plain bytes that fit are echoed in order and appended to the line under edit; nothing is committed and the store and counters are untouched |
| Console.ArrowKey | phase1/kernel/console.c:261-306 | `arrowKey` returns 0 exactly when its guard holds (up: a line is stored and either the store is not full and the cursor is not below 0, or the store is full and `countUp < 16`; down: `countDown > 0`), and -1 otherwise, having only erased the line under edit |
| Console.ArrowKeyRecalls | phase1/kernel/console.c:268-303 | when the recalled line fits beside the committed bytes, a successful recall echoes the erasures then the recalled bytes, leaves exactly the recalled line under edit, commits nothing and moves the cursor (older wraps to 15, newer wraps to 0 when full); up sets `countDown` to the new `countUp`, down decrements `countDown` |
| Console.DownUndoesUp | phase1/kernel/console.c:279-301 | with the cursor on a slot, a down after an up is allowed and, when both recalled lines fit in the ring, brings the history back exactly to where it was |
| Console.ReplayLineIsRecent | phase1/kernel/console.c:273 | with the cursor on the `j`-th newest line, a recall replays that line without its last byte |
| Console.OlderIsNextRecent | phase1/kernel/console.c:281-284 | one up moves the cursor from the `j`-th newest line to the `j + 1`-th; before the store fills it leaves the store (-1) after the oldest line, once full it wraps round |
| Console.UpWalksBack | phase1/kernel/console.c:268-287 | up walks the history from newest to oldest: with the cursor on the `j`-th newest line, up puts that line (without its last byte) under edit and moves the cursor to the `j + 1`-th newest |
| Console.Intr | phase1/kernel/console.c:150-234 | every interrupt keeps `r <= w <= e <= r + 128` and never moves `r` |
| Console.IntrEscape | phase1/kernel/console.c:153-168 | ESC always leads to state 1, `[` in state 1 leads to state 2, any other byte leaves the state alone, and the state is idle afterwards exactly when it was idle and the byte was not ESC |
| Console.LoneEscapeDisarms | phase1/kernel/console.c:153-168 | after a lone ESC the state is 1, so a following `A` or `B` misses the arrow test and is typed like any other byte |
| Console.ReplayKeepsPending | phase1/kernel/console.c:275-278 | a replay only adds to the committed input |
| Console.IntrKeepsPending | phase1/kernel/console.c:150-234 | no interrupt alters committed input that readers have not consumed |
| Console.IntrAll | phase1/kernel/console.c:150-234 | any sequence of interrupts keeps the ring well formed and never moves `r` |
| Console.IntrAllKeepsPending | phase1/kernel/console.c:150-234 | whatever is typed, committed input is only ever added to |
| Console.IntrAllIdle | phase1/kernel/console.c:153-165 | before the first ESC every byte goes straight to the switch |
| Console.ReplayConcat | phase1/kernel/console.c:275-278 | replaying `a + b` is replaying `a` and then `b`, with the echoes concatenated |
| Console.TerminateLine | phase1/kernel/console.c:194-227 | a newline or ^D with room commits the line under edit plus the terminator and records it unless it starts with `history` |
| Console.TypeLine | phase1/kernel/console.c:187-227 | typing plain bytes and a terminator echoes them all and commits the whole line; unless it starts with `history` the line becomes the newest entry with the cursor on it and `countUp` reset |
| Scenarios.PlainNoStop | phase1/kernel/console.c:187-194 | a line of ordinary bytes holds no terminator and no ESC |
| Scenarios.IdleTyping | phase1/kernel/console.c:153-165 | before any ESC, typing a line and its terminator is pure switch dispatch |
| Scenarios.TypingWhileIdle | phase1/kernel/console.c:187-227 | from an empty line, typing a line and its terminator hands both to readers and echoes them |
| Scenarios.TypingWhileIdleRecords | phase1/kernel/console.c:204-222 | the typed line becomes the newest entry with the cursor on it and only `countUp` changes among the counters |
| Scenarios.InitBooted | phase1/kernel/console.c:45-68 | the zero-initialised console is a booted console |
| Scenarios.BootTyping | phase1/kernel/console.c:150-234 | at boot, typing a line and its terminator commits exactly that |
| Scenarios.FirstLineIsRead | phase1/kernel/console.c:94-142 | the first line typed at boot is read back exactly, newline included |
| Scenarios.EndOfFile | phase1/kernel/console.c:114-122 | a line ended by ^D is read without the ^D, and the next read returns 0 |
| Scenarios.AtArrowState | phase1/kernel/console.c:153-160 | after the first line and ESC `[`, the line is in slot 0 with the cursor on it and the recogniser is in state 2 |
| Scenarios.RecallFirstLine | phase1/kernel/console.c:268-287 | up then recalls the first line: it is echoed and put under edit, nothing is committed, the cursor drops to -1 and a down is allowed |
| AsWritten.CopyLineAsWritten | phase1/kernel/console.c:199-203 | the unmodded copy stays in bounds exactly while `e <= 128` and the line is shorter than 128, and there it copies the line under edit |
| AsWritten.CopyLeavesRing | phase1/kernel/console.c:199-203 | once `w >= 128`, or for a 128-byte line, the copy leaves its arrays although the line under edit is well defined |
| AsWritten.ReplayLineAsWritten | phase1/kernel/console.c:273 | the unchecked `strncpy` is in bounds exactly for an in-range cursor on a non-empty slot, and there it copies what `ReplayLine` yields |
| AsWritten.DownReadsBelowStore | phase1/kernel/console.c:289-291 | one line, up, then down: the down is allowed with the cursor at -1, outside the store |
| AsWritten.ArrowKeyAsWritten | phase1/kernel/console.c:261-306 | `arrowKey` with replay through the whole of `consoleintr`, bounded by a nesting depth; where it finishes the console stays well formed |
| AsWritten.ReplayAsWritten | phase1/kernel/console.c:275-278 | the replay loop through the whole of `consoleintr`; where it finishes the console stays well formed |
| AsWritten.ReplayAsWrittenAgrees | phase1/kernel/console.c:153-160 | in state 2, bytes without `A`, `B` or ESC replay the same through `consoleintr` as through the switch |
| AsWritten.ArrowKeyAsWrittenAgrees | phase1/kernel/console.c:261-306 | a recalled line without `A` or `B` is recalled the same as written and as intended, at every depth |
| AsWritten.RecallOfArrowLetterNeverEnds | phase1/kernel/console.c:156-159 | recalling the line `A` does not finish at any nesting depth |
| AsWritten.UpOnArrowLetterLine | phase1/kernel/console.c:268-278 | from boot, type `A` and a newline, then press up: the code as written never finishes, while the intended recall puts `A` under edit |

## Left out

- `consolewrite`, `consputc`, `uartputc`, `consoleinit`: byte output to the UART and device-table wiring. The echo is an abstract event sequence.
- Locks, `sleep`/`wakeup` and `killed(myproc())`: a blocked read is the outcome `Sleeping`, resumed by calling `ReadLoop` again, and `killed` is a boolean input.
- `either_copyout` failure: a foreign address-space copy; the model always copies.
- `procdump` (^P): the event `ProcDump` only; the text it prints is not modelled.
- The `printf` output of `history(id)`: only the return value is modelled.
- `phase1/user/testTop.c` and `phase1/user/history.c`: command-line front ends over system calls.
- The 32-bit `uint` cursors `r`, `w`, `e` are unbounded naturals. 2^32 is a multiple of 128, so ring indexing agrees up to the wrap, which comes after 4 GiB of input.
- Console.ArrowKey: `countUp`, `countDown` and `currentHistory` are unbounded integers, so 32-bit `int` overflow after 2^31 recalls is not modelled.
- Console.ReplayLine: `strncpy` of `len - 1` bytes into the uninitialised `commandToPrint` writes no terminator. The loop then also reads whatever byte follows the copied bytes. The model replays exactly the `len - 1` copied bytes.
- Console.Commit: the commit copies the line with the ring index taken mod 128 and with room for the terminator; the unmodded copy is `AsWritten.CopyLineAsWritten`.
- Console.Intr: recalled bytes go through the switch only; replay through the whole of `consoleintr` is `AsWritten.ArrowKeyAsWritten`.

## Findings

| source | as written | input that shows it | evidently intended | confidence | as-written member | corrected member |
|---|---|---|---|---|---|---|
| phase1/kernel/console.c:250-254 | `if(historyId < 16)` lets a negative id through to `bufferArr[historyId]` | `history(-1)` returns 0 and prints `bufferArr[-1]` | succeed only for `0 <= id < 16` | not executed | HistoryStore.QueryAcceptsNegative | HistoryStore.QueryChecked |
| phase1/kernel/console.c:289-291 | down is allowed whenever `countDown > 0` and copies from `bufferArr[currentHistory]` with no bound check | at boot type one line and a newline, then ESC `[` `A`, then `B`: the cursor is -1 | replay nothing when the cursor is outside the store or on an empty slot | not executed | AsWritten.DownReadsBelowStore | Console.ReplayLine |
| phase1/kernel/console.c:277 | recalled bytes go back through `consoleintr` while `arrowIndex` is still 2, so a recalled `A`/`B` calls `arrowKey` again before the cursor moves | at boot type `A` and a newline, then ESC `[` `A`: `arrowKey` recurses without end | recalled bytes are typed in as ordinary input | not executed | AsWritten.UpOnArrowLetterLine | Console.ArrowKey |
| phase1/kernel/console.c:199-203 | the copy reads `cons.buf[i]` without `% INPUT_BUF_SIZE`, and a 128-byte line writes `commandString[128]` | any commit after 128 bytes have passed through the ring (`w >= 128`) | copy `cons.buf[i % INPUT_BUF_SIZE]` into a buffer with room for the terminator | not executed | AsWritten.CopyLeavesRing | Console.Commit |
