/** Bytes, the control characters the console line discipline reacts to, and
    the abstract events it emits towards the UART (`consputc`, `procdump`). */
module Ascii {

  /** A console byte. `char` is unsigned on RISC-V, so every byte is 0..255. */
  type Byte = b: int | 0 <= b < 256

  /** `C(x)` of console.c: the control character typed as Ctrl-x. */
  function Ctrl(x: char): int
    requires '@' <= x <= '_'
  {
    x as int - '@' as int
  }

  const NUL: Byte := 0
  const CtrlD: Byte := Ctrl('D')   // end of file
  const CtrlH: Byte := Ctrl('H')   // backspace
  const CtrlP: Byte := Ctrl('P')   // print process list
  const CtrlU: Byte := Ctrl('U')   // kill line
  const NL: Byte := '\n' as int
  const CR: Byte := '\r' as int
  const ESC: Byte := 27
  const DEL: Byte := 127
  const LBracket: Byte := '[' as int
  const KeyUp: Byte := 'A' as int    // final byte of ESC [ A
  const KeyDown: Byte := 'B' as int  // final byte of ESC [ B

  /** The seven bytes `history` that a committed line is compared against. */
  const HistoryWord: seq<Byte> := [104, 105, 115, 116, 111, 114, 121]

  /** A byte that the editor appends at the edit cursor without committing:
      not NUL (ignored), not one of the editing or escape controls (handled by
      the dispatch), not CR (rewritten to NL), and not a line terminator. */
  predicate Plain(b: Byte)
  {
    b !in {NUL, CtrlD, CtrlH, NL, CR, CtrlP, CtrlU, ESC, DEL}
  }

  /** What the console emits: `consputc(c)`, `consputc(BACKSPACE)` (the
      three-byte visual erase) and a call to `procdump`. */
  datatype Event = Echo(b: Byte) | Erase | ProcDump

  /** `n` copies of `x`. */
  function Repeat<T>(x: T, n: nat): (s: seq<T>)
    ensures |s| == n
    ensures forall i :: 0 <= i < n ==> s[i] == x
  {
    seq(n, _ => x)
  }

  /** `k` visual erases in a row. */
  function Erasures(k: nat): (r: seq<Event>)
    ensures |r| == k
    ensures forall i :: 0 <= i < k ==> r[i] == Erase
  {
    Repeat(Erase, k)
  }

  /** The echo of each byte of `bs`, in order. */
  function Echoes(bs: seq<Byte>): (r: seq<Event>)
    ensures |r| == |bs|
    ensures forall i :: 0 <= i < |bs| ==> r[i] == Echo(bs[i])
  {
    if bs == [] then [] else [Echo(bs[0])] + Echoes(bs[1..])
  }
}
