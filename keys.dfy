/** Classification of the raw input bytes read by SimplePrompt's input loop:
    the `switch` of getInputString together with checkArrowCode.
    A `char` of the model stands for one byte of terminal input. */
module Keys {

  datatype Option<T> = None | Some(value: T)

  const ENTER: char := 10 as char
  const CTRL_C: char := 3 as char
  const BACKSPACE: char := 127 as char
  const DELETE: char := 8 as char
  const TAB: char := 9 as char
  /** The escape byte that starts an arrow-key sequence, and the `[` after it. */
  const ESC: char := 27 as char
  const CSI: char := 91 as char
  /** The final byte of the up-arrow sequence ESC [ A. */
  const UP_ARROW: int := 65

  /** The three bytes the terminal sends for one press of the up arrow. */
  const UP_KEY: seq<char> := [ESC, CSI, 65 as char]

  /** What one classified key press does in the input loop. */
  datatype Key =
    | Enter              // finish the line
    | Interrupt          // Ctrl-C: leave the program
    | Erase              // Backspace or Delete
    | Complete           // Tab
    | HistoryUp          // ESC [ A
    | Ignored            // ESC [ X for any other X
    | Insert(c: char)    // every other byte, appended to the line

  /** A byte that reaches the default branch of the input loop's switch. */
  predicate DefaultBranch(c: char) {
    c != ENTER && c != CTRL_C && c != BACKSPACE && c != DELETE && c != TAB
  }

  /** A byte that none of the special cases of the input loop claims. */
  predicate Plain(c: char) {
    DefaultBranch(c) && c != ESC
  }

  /** checkArrowCode: `code` is the byte already read, `following` the bytes the
      terminal delivers after it. The result is the returned code (-1, or the final
      byte of an ESC [ X sequence) with the number of following bytes it reads;
      None when the input ends before the reads it makes can be satisfied. */
  function CheckArrowCode(code: char, following: seq<char>): (r: Option<(int, nat)>)
    ensures r.Some? ==> r.value.1 <= |following| && -1 <= r.value.0
    ensures r.Some? && r.value.0 != -1 ==> r.value.1 == 2
    ensures code != ESC ==> r == Some((-1, 0))
    ensures code == ESC && |following| >= 2 && following[0] == CSI ==> r == Some((following[1] as int, 2))
    ensures code == ESC && |following| >= 1 && following[0] != CSI ==> r == Some((-1, 1))
    ensures r.None? <==> code == ESC && (|following| == 0 || (|following| == 1 && following[0] == CSI))
  {
    if code == ESC then
      if |following| == 0 then None
      else if following[0] == CSI then
        if |following| == 1 then None else Some((following[1] as int, 2))
      else Some((-1, 1))
    else Some((-1, 0))
  }

  /** One turn of getInputString's loop as a decoder: the key at the front of
      `input` and the number of bytes it occupies, or None when the input ends
      inside an escape sequence (the source would block in getchar). */
  function Classify(input: seq<char>): (r: Option<(Key, nat)>)
    ensures r.Some? ==> 1 <= r.value.1 <= |input| && r.value.1 <= 3
    ensures r.None? ==> |input| < 3
  {
    if |input| == 0 then None
    else
      var c := input[0];
      if c == ENTER then Some((Enter, 1))
      else if c == CTRL_C then Some((Interrupt, 1))
      else if c == BACKSPACE || c == DELETE then Some((Erase, 1))
      else if c == TAB then Some((Complete, 1))
      else
        match CheckArrowCode(c, input[1..])
        case None => None
        case Some((ac, n)) =>
          if ac == UP_ARROW then Some((HistoryUp, 1 + n))
          else if ac > -1 then Some((Ignored, 1 + n))
          else Some((Insert(c), 1 + n))
  }

  /** The single-byte control keys. */
  lemma ClassifyControl(c: char, rest: seq<char>)
    ensures c == ENTER ==> Classify([c] + rest) == Some((Enter, 1))
    ensures c == CTRL_C ==> Classify([c] + rest) == Some((Interrupt, 1))
    ensures c == BACKSPACE || c == DELETE ==> Classify([c] + rest) == Some((Erase, 1))
    ensures c == TAB ==> Classify([c] + rest) == Some((Complete, 1))
  {
  }

  /** Every other byte except ESC, the low control bytes included, is inserted. */
  lemma ClassifyPlain(c: char, rest: seq<char>)
    requires Plain(c)
    ensures Classify([c] + rest) == Some((Insert(c), 1))
  {
    assert ([c] + rest)[1..] == rest;
  }

  /** ESC [ A is the up arrow; ESC [ X for any other X is read and dropped. */
  lemma ClassifyArrow(x: char, rest: seq<char>)
    ensures Classify([ESC, CSI, x] + rest) == Some((if x as int == UP_ARROW then HistoryUp else Ignored, 3))
  {
    assert ([ESC, CSI, x] + rest)[1..] == [CSI, x] + rest;
  }

  /** ESC followed by anything but `[` inserts the ESC byte itself and silently
      consumes the byte after it. */
  lemma ClassifyLoneEscape(b: char, rest: seq<char>)
    requires b != CSI
    ensures Classify([ESC, b] + rest) == Some((Insert(ESC), 2))
  {
    assert ([ESC, b] + rest)[1..] == [b] + rest;
  }

  /** Keys that a terminal can send as bytes the loop reads back as that key:
      all but an insert of a byte that the loop treats specially (ESC itself can
      be inserted, by following it with a byte other than `[`). */
  predicate Typeable(k: Key) {
    k.Insert? ==> Plain(k.c) || k.c == ESC
  }

  /** The bytes of one key press; the arrow the loop ignores is written here as
      the down arrow ESC [ B. (An insert of a byte that is not Typeable has no
      bytes that read back as it; the byte itself stands in.) */
  function KeyBytes(k: Key): (r: seq<char>)
    ensures 1 <= |r| <= 3
  {
    match k
    case Enter => [ENTER]
    case Interrupt => [CTRL_C]
    case Erase => [BACKSPACE]
    case Complete => [TAB]
    case HistoryUp => UP_KEY
    case Ignored => [ESC, CSI, 66 as char]
    case Insert(c) => if c == ESC then [ESC, ' '] else [c]
  }

  /** Decoding the bytes of a key press gives the key back, whatever follows. */
  lemma ClassifyKeyBytes(k: Key, rest: seq<char>)
    requires Typeable(k)
    ensures Classify(KeyBytes(k) + rest) == Some((k, |KeyBytes(k)|))
  {
    match k
    case Enter => ClassifyControl(ENTER, rest);
    case Interrupt => ClassifyControl(CTRL_C, rest);
    case Erase => ClassifyControl(BACKSPACE, rest);
    case Complete => ClassifyControl(TAB, rest);
    case HistoryUp => ClassifyArrow(65 as char, rest);
    case Ignored => ClassifyArrow(66 as char, rest);
    case Insert(c) =>
      if c == ESC {
        ClassifyLoneEscape(' ', rest);
      } else {
        ClassifyPlain(c, rest);
      }
  }

  /** The bytes of a run of key presses. */
  function Keystrokes(keys: seq<Key>): seq<char> {
    if keys == [] then [] else KeyBytes(keys[0]) + Keystrokes(keys[1..])
  }

  /** The decoder stops short exactly on an unfinished escape sequence. */
  lemma ClassifyNeedsMore(input: seq<char>)
    ensures Classify(input).None? <==> input == [] || input == [ESC] || input == [ESC, CSI]
  {
    if |input| >= 1 && input[0] == ESC {
      assert input[1..] == [] ==> input == [ESC];
      if |input| == 2 && input[1] == CSI {
        assert input == [ESC, CSI];
      }
    }
  }

  /** The decoder reads no byte beyond the key it returns: whatever follows the
      key does not change the decision (getchar is only called when needed). */
  lemma ClassifyReadsOnlyItsKey(input: seq<char>, more: seq<char>)
    requires Classify(input).Some?
    ensures Classify(input[..Classify(input).value.1] + more) == Classify(input)
  {
    var n := Classify(input).value.1;
    var cut := input[..n] + more;
    assert cut[0] == input[0];
    if input[0] == ESC {
      assert cut[1..] == input[1..n] + more;
      if n >= 2 { assert cut[1] == input[1]; }
      if n == 3 { assert cut[2] == input[2]; }
    }
  }
}
