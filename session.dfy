/** SimplePrompt's outer loop: print the prompt, read a line, and hand a
    non-empty line to the callback and the history. */
module Session {
  import opened Keys
  import opened LineEdit
  import opened InputCycle

  /** The state that outlives a cycle: the history (oldest first), the history
      position m_prev, the lines handed to the callback and the terminal output. */
  datatype State = State(history: seq<string>, prev: nat, calls: seq<string>, out: string)

  /** Only non-empty lines enter the history, and the position never passes rend. */
  predicate Valid(s: State) {
    s.prev <= |s.history| && forall i :: 0 <= i < |s.history| ==> s.history[i] != []
  }

  const Fresh: State := State([], 0, [], [])

  /** The end of a loop iteration: a non-empty line goes to the callback (when
      one is set) and to the back of the history, and the browse position
      returns to the newest entry; an empty line changes nothing. */
  function Finalize(hasCallback: bool, s: State, text: string): (r: State)
    requires Valid(s)
    ensures Valid(r) && r.out == s.out
    ensures text != [] ==> r.history == s.history + [text] && r.prev == 0
    ensures text != [] ==> r.calls == if hasCallback then s.calls + [text] else s.calls
    ensures text == [] ==> r == s
  {
    if text != [] then
      State(s.history + [text], 0, if hasCallback then s.calls + [text] else s.calls, s.out)
    else s
  }

  /** One iteration of the loop over the given input: the new state, how the
      cycle ended and the input left over. */
  function Cycle(prompt: string, commands: seq<string>, hasCallback: bool, s: State, input: seq<char>)
    : (r: (State, Outcome, seq<char>))
    requires Valid(s)
    ensures Valid(r.0)
    ensures |r.2| <= |input| && (r.1.Entered? ==> |r.2| < |input|)
    ensures !r.1.Entered? ==> r.0.history == s.history && r.0.calls == s.calls
  {
    var res := Run(commands, s.history, CycleState(Empty, s.prev, s.out + prompt), input);
    var after := s.(prev := res.state.prev, out := res.state.out);
    match res.outcome
    case Entered(text) => (Finalize(hasCallback, after, text), res.outcome, res.rest)
    case _ => (after, res.outcome, res.rest)
  }

  /** The loop run until Ctrl-C or the end of the input. */
  function Serve(prompt: string, commands: seq<string>, hasCallback: bool, s: State, input: seq<char>)
    : (r: (State, Outcome))
    requires Valid(s)
    ensures Valid(r.0) && !r.1.Entered?
    ensures |s.history| <= |r.0.history| && s.history == r.0.history[..|s.history|]
    decreases |input|
  {
    var (s1, outcome, rest) := Cycle(prompt, commands, hasCallback, s, input);
    if outcome.Entered? then Serve(prompt, commands, hasCallback, s1, rest)
    else (s1, outcome)
  }

  /** A typed line and Enter: the line is returned, and recorded exactly when it
      is not empty. */
  lemma EnterRecordsLine(prompt: string, commands: seq<string>, hasCallback: bool, s: State, w: string, rest: seq<char>)
    requires Valid(s)
    requires forall i :: 0 <= i < |w| ==> Plain(w[i])
    ensures var (s1, outcome, left) := Cycle(prompt, commands, hasCallback, s, w + [ENTER] + rest);
      outcome == Entered(w) && left == rest &&
      s1.history == (if w == [] then s.history else s.history + [w]) &&
      s1.calls == (if w != [] && hasCallback then s.calls + [w] else s.calls) &&
      s1.prev == (if w == [] then s.prev else 0) &&
      s1.out == s.out + prompt + w + "\n"
  {
    var c := CycleState(Empty, s.prev, s.out + prompt);
    assert w + [ENTER] + rest == w + ([ENTER] + rest);
    RunTyping(commands, s.history, c, w, [ENTER] + rest);
    var c1 := c.(line := Line(Empty.text + w, Empty.cursor + |w|), out := c.out + w);
    RunEnter(commands, s.history, c1, rest);
    assert Empty.text + w == w;
  }

  /** Ctrl-C after typing: no callback, no history entry. */
  lemma InterruptRecordsNothing(prompt: string, commands: seq<string>, hasCallback: bool, s: State, w: string, rest: seq<char>)
    requires Valid(s)
    requires forall i :: 0 <= i < |w| ==> Plain(w[i])
    ensures var (s1, outcome, left) := Cycle(prompt, commands, hasCallback, s, w + [CTRL_C] + rest);
      outcome == Interrupted && left == rest &&
      s1.history == s.history && s1.calls == s.calls && s1.prev == s.prev
  {
    TypeThenInterrupt(commands, s.history, CycleState(Empty, s.prev, s.out + prompt), w, rest);
  }

  /** Lines typed one after another are kept in the order typed, each handed
      to the callback, and the browse position is back at the newest. */
  lemma ThreeLines(prompt: string, commands: seq<string>, s: State, x: string, y: string, z: string, rest: seq<char>)
    requires Valid(s) && x != [] && y != [] && z != []
    requires forall i :: 0 <= i < |x| ==> Plain(x[i])
    requires forall i :: 0 <= i < |y| ==> Plain(y[i])
    requires forall i :: 0 <= i < |z| ==> Plain(z[i])
    ensures var input := x + [ENTER] + y + [ENTER] + z + [ENTER] + rest;
      var (s1, o1, r1) := Cycle(prompt, commands, true, s, input);
      var (s2, o2, r2) := Cycle(prompt, commands, true, s1, r1);
      var (s3, o3, r3) := Cycle(prompt, commands, true, s2, r2);
      s3.history == s.history + [x, y, z] && s3.calls == s.calls + [x, y, z] && s3.prev == 0 && r3 == rest
  {
    var r1 := y + [ENTER] + z + [ENTER] + rest;
    var r2 := z + [ENTER] + rest;
    assert x + [ENTER] + y + [ENTER] + z + [ENTER] + rest == x + [ENTER] + r1;
    var c1 := Cycle(prompt, commands, true, s, x + [ENTER] + r1);
    assert c1.2 == r1 && c1.0.history == s.history + [x] && c1.0.calls == s.calls + [x] by {
      EnterRecordsLine(prompt, commands, true, s, x, r1);
    }
    assert r1 == y + [ENTER] + r2;
    var c2 := Cycle(prompt, commands, true, c1.0, y + [ENTER] + r2);
    assert c2.2 == r2 && c2.0.history == s.history + [x] + [y] && c2.0.calls == s.calls + [x] + [y] by {
      EnterRecordsLine(prompt, commands, true, c1.0, y, r2);
    }
    var c3 := Cycle(prompt, commands, true, c2.0, z + [ENTER] + rest);
    assert c3.2 == rest && c3.0.history == s.history + [x] + [y] + [z] && c3.0.calls == s.calls + [x] + [y] + [z] && c3.0.prev == 0 by {
      EnterRecordsLine(prompt, commands, true, c2.0, z, rest);
    }
    assert s.history + [x] + [y] + [z] == s.history + [x, y, z];
    assert s.calls + [x] + [y] + [z] == s.calls + [x, y, z];
  }

  /** Browsing with k up-arrow presses and pressing Enter submits the shown
      entry again: it is returned, appended to the history, and the position
      goes back to the newest entry. */
  lemma ResubmitFromHistory(prompt: string, commands: seq<string>, hasCallback: bool, s: State, k: nat, rest: seq<char>)
    requires Valid(s) && s.prev < |s.history| && k >= 1
    ensures var shown := s.history[|s.history| - Min(s.prev + k, |s.history|)];
      var (s1, outcome, left) := Cycle(prompt, commands, hasCallback, s, Ups(k) + [ENTER] + rest);
      outcome == Entered(shown) && left == rest &&
      s1.history == s.history + [shown] && s1.prev == 0 &&
      s1.calls == (if hasCallback then s.calls + [shown] else s.calls)
  {
    var c := CycleState(Empty, s.prev, s.out + prompt);
    UpPresses(commands, s.history, c, k, rest);
  }

  /** m_prev is reset only when a non-empty line is finalised: recalling an
      entry, erasing it and pressing Enter leaves the browse position where the
      recall put it, for the next prompt too. */
  lemma EmptyLineKeepsBrowsePosition(prompt: string, commands: seq<string>, hasCallback: bool, s: State, rest: seq<char>)
    requires Valid(s) && s.prev < |s.history|
    ensures var entry := s.history[|s.history| - 1 - s.prev];
      var (s1, outcome, left) := Cycle(prompt, commands, hasCallback, s, UP_KEY + Erases(|entry|) + [ENTER] + rest);
      outcome == Entered("") && left == rest &&
      s1.history == s.history && s1.calls == s.calls && s1.prev == s.prev + 1
  {
    var entry := s.history[|s.history| - 1 - s.prev];
    var c := CycleState(Empty, s.prev, s.out + prompt);
    assert UP_KEY + Erases(|entry|) + [ENTER] + rest == UP_KEY + (Erases(|entry|) + ([ENTER] + rest));
    RunHistoryUp(commands, s.history, c, Erases(|entry|) + ([ENTER] + rest));
    var (e, p) := Recall(s.history, c.prev, c.line);
    var c1 := CycleState(e.line, p, c.out + e.echo);
    RunErasing(commands, s.history, c1, |entry|, [ENTER] + rest);
    var c2 := c1.(line := Line(entry[..0], 0), out := c1.out + Rubouts(|entry|));
    RunEnter(commands, s.history, c2, rest);
  }

  /** With every entry already shown, the up arrow brings nothing back. */
  lemma ExhaustedHistoryRecallsNothing(prompt: string, commands: seq<string>, hasCallback: bool, s: State, k: nat, rest: seq<char>)
    requires Valid(s) && s.prev == |s.history| && k >= 1
    ensures var (s1, outcome, left) := Cycle(prompt, commands, hasCallback, s, Ups(k) + [ENTER] + rest);
      outcome == Entered("") && left == rest &&
      s1.history == s.history && s1.calls == s.calls && s1.prev == s.prev
  {
    UpPresses(commands, s.history, CycleState(Empty, s.prev, s.out + prompt), k, rest);
  }
}
