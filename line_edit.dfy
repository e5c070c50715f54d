/** The edits the key handlers of SimplePrompt make to the line being typed
    (`toReturn` and `cursorPos`), each with the text it writes to the terminal. */
module LineEdit {
  import Completion

  /** The line under construction and the cursor offset into it. */
  datatype Line = Line(text: string, cursor: int)

  /** Only appends and last-character deletions exist, so the cursor always
      sits at the end of the text. */
  predicate Valid(l: Line) {
    l.cursor == |l.text|
  }

  const Empty: Line := Line("", 0)

  /** An edited line together with what the edit writes to the terminal. */
  datatype Edit = Edit(line: Line, echo: string)

  /** removeLastChar: back up one column, blank it, back up again. */
  const RUBOUT: string := [8 as char, ' ', 8 as char]

  /** The terminal writes of n consecutive removeLastChar calls. */
  function Rubouts(n: nat): (r: string)
    ensures |r| == 3 * n
  {
    if n == 0 then [] else RUBOUT + Rubouts(n - 1)
  }

  lemma {:induction false} RuboutsSnoc(n: nat)
    ensures Rubouts(n + 1) == Rubouts(n) + RUBOUT
  {
    if n > 0 {
      RuboutsSnoc(n - 1);
      assert Rubouts(n + 1) == RUBOUT + (Rubouts(n - 1) + RUBOUT);
    }
  }

  /** What the terminal is sent to replace the shown text by another: one
      rub-out per shown character, then the new text. */
  function Redraw(shown: string, text: string): (r: string)
    ensures |r| == 3 * |shown| + |text| && r[3 * |shown|..] == text
    ensures r[..3 * |shown|] == Rubouts(|shown|)
  {
    Rubouts(|shown|) + text
  }

  /** handleBackspace: with the cursor past the start, drop the last character,
      step the cursor back and rub it out on screen; otherwise do nothing. */
  function Erase(l: Line): (e: Edit)
    requires l.cursor <= |l.text|
    ensures Valid(l) ==> Valid(e.line)
  {
    if l.cursor > 0 then Edit(Line(l.text[..|l.text| - 1], l.cursor - 1), RUBOUT)
    else Edit(l, [])
  }

  /** The default branch of the input loop: echo the byte, advance the cursor
      and append the byte to the text. */
  function Append(l: Line, c: char): (e: Edit)
    ensures Valid(l) ==> Valid(e.line)
  {
    Edit(Line(l.text + [c], l.cursor + 1), [c])
  }

  /** handleTabKey: nothing on an empty line; otherwise rub out the typed text
      and replace it by its completion, with the cursor at the end. */
  function TabKey(commands: seq<string>, l: Line): (e: Edit)
    ensures Valid(e.line) || e == Edit(l, [])
  {
    if l.text == [] then Edit(l, [])
    else
      var completed := Completion.TabComplete(commands, l.text);
      Edit(Line(completed, |completed|), Redraw(l.text, completed))
  }

  /** handleHistory: `prev` counts the steps already taken back from the newest
      entry (the reverse iterator m_prev); `prev == |history|` is rend. Shows
      the entry under `prev` and steps once towards older entries. */
  function Recall(history: seq<string>, prev: nat, l: Line): (r: (Edit, nat))
    requires prev <= |history|
    ensures prev <= r.1 <= |history| && r.1 <= prev + 1
    ensures Valid(l) ==> Valid(r.0.line)
  {
    if history != [] && prev != |history| then
      var entry := history[|history| - 1 - prev];
      (Edit(Line(entry, |entry|), Redraw(l.text, entry)), prev + 1)
    else (Edit(l, []), prev)
  }

  /** Backspace at the start of the line changes nothing and writes nothing;
      past the start it removes exactly the last character. */
  lemma EraseCases(l: Line)
    requires Valid(l)
    ensures l.cursor == 0 ==> Erase(l) == Edit(l, [])
    ensures l.cursor > 0 ==>
      Erase(l).line.text + [l.text[|l.text| - 1]] == l.text && Erase(l).line.cursor == l.cursor - 1
  {
  }

  /** Backspace undoes an append. */
  lemma EraseUndoesAppend(l: Line, c: char)
    requires Valid(l)
    ensures Erase(Append(l, c).line).line == l
  {
    assert (l.text + [c])[..|l.text|] == l.text;
  }

  /** Tab on an empty line does nothing; otherwise the line becomes a text that
      extends what was typed, with the cursor at its end. */
  lemma TabKeyCases(commands: seq<string>, l: Line)
    ensures l.text == [] ==> TabKey(commands, l) == Edit(l, [])
    ensures l.text != [] ==>
      var e := TabKey(commands, l);
      l.text <= e.line.text && Valid(e.line) &&
      (e.line.text == l.text || e.line.text in commands)
  {
  }

  /** With no history left to show, the up arrow changes nothing. */
  lemma RecallExhausted(history: seq<string>, l: Line)
    ensures Recall(history, |history|, l) == (Edit(l, []), |history|)
  {
  }
}
