/** getInputString as a function: one line-acquisition cycle over a finite
    stream of input bytes. */
module InputCycle {
  import opened Keys
  import opened LineEdit

  /** The state of a cycle: the line, the history position (m_prev, as steps
      back from the newest entry) and everything written to the terminal. */
  datatype CycleState = CycleState(line: Line, prev: nat, out: string)

  /** Enter hands back the line; Ctrl-C ends the program; when the input runs
      out before either, the source would go on waiting in getchar. */
  datatype Outcome = Entered(text: string) | Interrupted | Blocked

  /** The outcome, the state at that point and the input not yet read. */
  datatype Result = Result(outcome: Outcome, state: CycleState, rest: seq<char>)

  function Min(a: int, b: int): int {
    if a <= b then a else b
  }

  /** The effect of one of the keys that keep the cycle going. */
  function Apply(commands: seq<string>, history: seq<string>, c: CycleState, k: Key): (r: CycleState)
    requires Valid(c.line) && c.prev <= |history|
    requires !k.Enter? && !k.Interrupt?
    ensures Valid(r.line) && c.prev <= r.prev <= |history|
  {
    match k
    case Erase =>
      var e := LineEdit.Erase(c.line);
      c.(line := e.line, out := c.out + e.echo)
    case Complete =>
      var e := TabKey(commands, c.line);
      c.(line := e.line, out := c.out + e.echo)
    case HistoryUp =>
      var (e, p) := Recall(history, c.prev, c.line);
      CycleState(e.line, p, c.out + e.echo)
    case Ignored => c
    case Insert(ch) =>
      var e := Append(c.line, ch);
      c.(line := e.line, out := c.out + e.echo)
  }

  /** The loop of getInputString: reads a key and dispatches it, until Enter,
      Ctrl-C or the end of the input. */
  function Run(commands: seq<string>, history: seq<string>, c: CycleState, input: seq<char>): (r: Result)
    requires Valid(c.line) && c.prev <= |history|
    ensures Valid(r.state.line) && c.prev <= r.state.prev <= |history|
    ensures |r.rest| <= |input|
    ensures r.outcome.Entered? ==> |r.rest| < |input| && r.outcome.text == r.state.line.text
    ensures r.outcome.Blocked? ==> |r.rest| < 3
    decreases |input|, 0
  {
    match Classify(input)
    case None => Result(Blocked, c, input)
    case Some((k, n)) => Dispatch(commands, history, c, k, input[n..])
  }

  /** The switch of getInputString on one key: Enter ends the cycle with the
      line, Ctrl-C ends it without one, every other key is applied and the
      loop goes on with the bytes after it. */
  function Dispatch(commands: seq<string>, history: seq<string>, c: CycleState, k: Key, rest: seq<char>): (r: Result)
    requires Valid(c.line) && c.prev <= |history|
    ensures Valid(r.state.line) && c.prev <= r.state.prev <= |history|
    ensures |r.rest| <= |rest|
    ensures r.outcome.Entered? ==> r.outcome.text == r.state.line.text
    ensures r.outcome.Blocked? ==> |r.rest| < 3
    decreases |rest|, 1
  {
    if k.Enter? then Result(Entered(c.line.text), c.(out := c.out + "\n"), rest)
    else if k.Interrupt? then Result(Interrupted, c, rest)
    else Run(commands, history, Apply(commands, history, c, k), rest)
  }

  /** A key that keeps the cycle going is applied and the cycle goes on with
      the bytes after it. */
  lemma RunStep(commands: seq<string>, history: seq<string>, c: CycleState, input: seq<char>, k: Key, n: nat)
    requires Valid(c.line) && c.prev <= |history|
    requires Classify(input) == Some((k, n)) && !k.Enter? && !k.Interrupt?
    ensures Run(commands, history, c, input) == Run(commands, history, Apply(commands, history, c, k), input[n..])
  {
  }

  /** The default branch of the input loop: the byte and what checkArrowCode
      reads after it decide between the up arrow, an ignored arrow and an
      append of the byte. */
  lemma RunDefaultBranch(commands: seq<string>, history: seq<string>, c: CycleState, b: char, tail: seq<char>)
    requires Valid(c.line) && c.prev <= |history|
    requires DefaultBranch(b)
    requires CheckArrowCode(b, tail).Some?
    ensures var (code, n) := CheckArrowCode(b, tail).value;
      var (e, p) := Recall(history, c.prev, c.line);
      var a := Append(c.line, b);
      && (code == UP_ARROW ==>
            Run(commands, history, c, [b] + tail) == Run(commands, history, CycleState(e.line, p, c.out + e.echo), tail[n..]))
      && (code != UP_ARROW && code > -1 ==>
            Run(commands, history, c, [b] + tail) == Run(commands, history, c, tail[n..]))
      && (code == -1 ==>
            Run(commands, history, c, [b] + tail) == Run(commands, history, c.(line := a.line, out := c.out + a.echo), tail[n..]))
  {
    assert ([b] + tail)[1..] == tail;
    var (code, n) := CheckArrowCode(b, tail).value;
    assert ([b] + tail)[1 + n..] == tail[n..];
  }

  /** Backspace or Delete: handleBackspace. */
  lemma RunEraseKey(commands: seq<string>, history: seq<string>, c: CycleState, b: char, tail: seq<char>)
    requires Valid(c.line) && c.prev <= |history|
    requires b == BACKSPACE || b == DELETE
    ensures var e := LineEdit.Erase(c.line);
      Run(commands, history, c, [b] + tail) == Run(commands, history, c.(line := e.line, out := c.out + e.echo), tail)
  {
    ClassifyControl(b, tail);
    assert ([b] + tail)[1..] == tail;
    RunStep(commands, history, c, [b] + tail, Key.Erase, 1);
  }

  /** Tab: handleTabKey. */
  lemma RunTabKey(commands: seq<string>, history: seq<string>, c: CycleState, tail: seq<char>)
    requires Valid(c.line) && c.prev <= |history|
    ensures var e := TabKey(commands, c.line);
      Run(commands, history, c, [TAB] + tail) == Run(commands, history, c.(line := e.line, out := c.out + e.echo), tail)
  {
    ClassifyControl(TAB, tail);
    assert ([TAB] + tail)[1..] == tail;
    RunStep(commands, history, c, [TAB] + tail, Complete, 1);
  }

  /** An escape sequence cut short by the end of the input leaves the cycle
      waiting, with the unfinished sequence unread. */
  lemma RunCutShort(commands: seq<string>, history: seq<string>, c: CycleState, b: char, tail: seq<char>)
    requires Valid(c.line) && c.prev <= |history|
    requires DefaultBranch(b)
    requires CheckArrowCode(b, tail).None?
    ensures Run(commands, history, c, [b] + tail) == Result(Blocked, c, [b] + tail)
  {
    assert ([b] + tail)[1..] == tail;
  }

  /** The line typed so far comes back as is on Enter. */
  lemma RunEnter(commands: seq<string>, history: seq<string>, c: CycleState, rest: seq<char>)
    requires Valid(c.line) && c.prev <= |history|
    ensures Run(commands, history, c, [ENTER] + rest) ==
            Result(Entered(c.line.text), c.(out := c.out + "\n"), rest)
  {
    ClassifyControl(ENTER, rest);
    assert ([ENTER] + rest)[1..] == rest;
  }

  /** Ctrl-C ends the cycle at once, with the line and history position untouched. */
  lemma RunInterrupt(commands: seq<string>, history: seq<string>, c: CycleState, rest: seq<char>)
    requires Valid(c.line) && c.prev <= |history|
    ensures Run(commands, history, c, [CTRL_C] + rest) == Result(Interrupted, c, rest)
  {
    ClassifyControl(CTRL_C, rest);
    assert ([CTRL_C] + rest)[1..] == rest;
  }

  /** When the input runs out, what is left unread is the start of an escape
      sequence that was cut off, or nothing. */
  lemma {:induction false} RunBlockedRest(commands: seq<string>, history: seq<string>, c: CycleState, input: seq<char>)
    requires Valid(c.line) && c.prev <= |history|
    ensures var r := Run(commands, history, c, input);
      r.outcome.Blocked? ==> r.rest == [] || r.rest == [ESC] || r.rest == [ESC, CSI]
    decreases |input|
  {
    match Classify(input)
    case None =>
      ClassifyNeedsMore(input);
    case Some((k, n)) =>
      if !k.Enter? && !k.Interrupt? {
        RunStep(commands, history, c, input, k, n);
        RunBlockedRest(commands, history, Apply(commands, history, c, k), input[n..]);
      }
  }

  /** A Ctrl-C byte does not always end the cycle: right after ESC it is the
      byte checkArrowCode reads and drops (ESC is inserted instead), and as the
      X of ESC [ X it is an ignored arrow code. */
  lemma CtrlCInsideEscape(commands: seq<string>, history: seq<string>, c: CycleState, rest: seq<char>)
    requires Valid(c.line) && c.prev <= |history|
    ensures Run(commands, history, c, [ESC, CTRL_C, ENTER] + rest).outcome == Entered(c.line.text + [ESC])
    ensures Run(commands, history, c, [ESC, CSI, CTRL_C, ENTER] + rest).outcome == Entered(c.line.text)
  {
    assert [ESC, CTRL_C, ENTER] + rest == [ESC, CTRL_C] + ([ENTER] + rest);
    RunLoneEscape(commands, history, c, CTRL_C, [ENTER] + rest);
    RunEnter(commands, history, c.(line := Line(c.line.text + [ESC], c.line.cursor + 1), out := c.out + [ESC]), rest);
    assert [ESC, CSI, CTRL_C, ENTER] + rest == [ESC, CSI, CTRL_C] + ([ENTER] + rest);
    RunIgnoredArrow(commands, history, c, CTRL_C, [ENTER] + rest);
    RunEnter(commands, history, c, rest);
  }

  /** ESC [ X with X other than A is read and dropped without any effect. */
  lemma RunIgnoredArrow(commands: seq<string>, history: seq<string>, c: CycleState, x: char, rest: seq<char>)
    requires Valid(c.line) && c.prev <= |history|
    requires x as int != UP_ARROW
    ensures Run(commands, history, c, [ESC, CSI, x] + rest) == Run(commands, history, c, rest)
  {
    ClassifyArrow(x, rest);
    assert ([ESC, CSI, x] + rest)[3..] == rest;
  }

  /** ESC followed by anything but `[` appends the ESC byte and loses the next one. */
  lemma RunLoneEscape(commands: seq<string>, history: seq<string>, c: CycleState, b: char, rest: seq<char>)
    requires Valid(c.line) && c.prev <= |history|
    requires b != CSI
    ensures Run(commands, history, c, [ESC, b] + rest) ==
            Run(commands, history, c.(line := Line(c.line.text + [ESC], c.line.cursor + 1), out := c.out + [ESC]), rest)
  {
    ClassifyLoneEscape(b, rest);
    assert ([ESC, b] + rest)[2..] == rest;
  }

  /** One press of the up arrow. */
  lemma RunHistoryUp(commands: seq<string>, history: seq<string>, c: CycleState, rest: seq<char>)
    requires Valid(c.line) && c.prev <= |history|
    ensures var (e, p) := Recall(history, c.prev, c.line);
      Run(commands, history, c, UP_KEY + rest) == Run(commands, history, CycleState(e.line, p, c.out + e.echo), rest)
  {
    ClassifyArrow(65 as char, rest);
    assert (UP_KEY + rest)[3..] == rest;
  }

  /** Keys that a terminal can send and that keep the cycle going. */
  predicate Editing(keys: seq<Key>) {
    forall i :: 0 <= i < |keys| ==> Typeable(keys[i]) && !keys[i].Enter? && !keys[i].Interrupt?
  }

  /** The keys applied in order, up to the first that ends the cycle: what a
      cycle does with them, with the byte decoding left aside. */
  function Feed(commands: seq<string>, history: seq<string>, c: CycleState, keys: seq<Key>): (r: CycleState)
    requires Valid(c.line) && c.prev <= |history|
    ensures Valid(r.line) && c.prev <= r.prev <= |history|
    decreases |keys|
  {
    if keys == [] || keys[0].Enter? || keys[0].Interrupt? then c
    else Feed(commands, history, Apply(commands, history, c, keys[0]), keys[1..])
  }

  /** Reading the bytes of editing keys does what feeding the keys does. */
  lemma {:induction false} RunFeed(commands: seq<string>, history: seq<string>, c: CycleState, keys: seq<Key>, rest: seq<char>)
    requires Valid(c.line) && c.prev <= |history| && Editing(keys)
    ensures Run(commands, history, c, Keystrokes(keys) + rest) == Run(commands, history, Feed(commands, history, c, keys), rest)
    decreases |keys|
  {
    if keys == [] {
      assert Keystrokes(keys) + rest == rest;
    } else {
      var k := keys[0];
      var more := Keystrokes(keys[1..]) + rest;
      assert Keystrokes(keys) + rest == KeyBytes(k) + more;
      ClassifyKeyBytes(k, more);
      assert (KeyBytes(k) + more)[|KeyBytes(k)|..] == more;
      RunStep(commands, history, c, KeyBytes(k) + more, k, |KeyBytes(k)|);
      assert Editing(keys[1..]) by {
        forall i | 0 <= i < |keys[1..]| ensures Typeable(keys[1..][i]) {
          assert keys[1..][i] == keys[i + 1];
        }
      }
      RunFeed(commands, history, Apply(commands, history, c, k), keys[1..], rest);
    }
  }

  /** Feeding a key that keeps the cycle going and then more keys. */
  lemma FeedCons(commands: seq<string>, history: seq<string>, c: CycleState, k: Key, keys: seq<Key>)
    requires Valid(c.line) && c.prev <= |history| && !k.Enter? && !k.Interrupt?
    ensures Feed(commands, history, c, [k] + keys) == Feed(commands, history, Apply(commands, history, c, k), keys)
  {
    assert ([k] + keys)[1..] == keys;
  }

  /** n presses of the same key. */
  function Repeat(k: Key, n: nat): (r: seq<Key>)
    ensures |r| == n
  {
    if n == 0 then [] else [k] + Repeat(k, n - 1)
  }

  lemma {:induction false} RepeatEditing(k: Key, n: nat)
    requires Typeable(k) && !k.Enter? && !k.Interrupt?
    ensures Editing(Repeat(k, n))
  {
    if n > 0 {
      RepeatEditing(k, n - 1);
      assert forall i :: 1 <= i < n ==> Repeat(k, n)[i] == Repeat(k, n - 1)[i - 1];
    }
  }

  /** One Insert per byte of w. */
  function Inserts(w: string): (r: seq<Key>)
    ensures |r| == |w|
  {
    if w == [] then [] else [Insert(w[0])] + Inserts(w[1..])
  }

  lemma {:induction false} InsertsEditing(w: string)
    requires forall i :: 0 <= i < |w| ==> Plain(w[i])
    ensures Editing(Inserts(w))
    decreases |w|
  {
    if w != [] {
      InsertsEditing(w[1..]);
      assert forall i :: 1 <= i < |w| ==> Inserts(w)[i] == Inserts(w[1..])[i - 1];
    }
  }

  /** Plain bytes are read back as inserts of themselves. */
  lemma {:induction false} KeystrokesOfInserts(w: string)
    requires forall i :: 0 <= i < |w| ==> Plain(w[i])
    ensures Keystrokes(Inserts(w)) == w
    decreases |w|
  {
    if w != [] {
      var ks := Inserts(w);
      assert ks[0] == Insert(w[0]) && ks[1..] == Inserts(w[1..]);
      assert KeyBytes(Insert(w[0])) == [w[0]];
      KeystrokesOfInserts(w[1..]);
      assert Keystrokes(ks) == [w[0]] + w[1..];
    }
  }

  /** Inserting w appends it to the text, moves the cursor past it and echoes it. */
  lemma {:induction false} FeedTyping(commands: seq<string>, history: seq<string>, c: CycleState, w: string)
    requires Valid(c.line) && c.prev <= |history|
    requires forall i :: 0 <= i < |w| ==> Plain(w[i])
    ensures Feed(commands, history, c, Inserts(w)) ==
            c.(line := Line(c.line.text + w, c.line.cursor + |w|), out := c.out + w)
    decreases |w|
  {
    if w == [] {
      assert c.line.text + w == c.line.text && c.out + w == c.out;
    } else {
      var c1 := c.(line := Line(c.line.text + [w[0]], c.line.cursor + 1), out := c.out + [w[0]]);
      FeedCons(commands, history, c, Insert(w[0]), Inserts(w[1..]));
      FeedTyping(commands, history, c1, w[1..]);
      assert c1.line.text + w[1..] == c.line.text + w && c1.out + w[1..] == c.out + w by {
        assert [w[0]] + w[1..] == w;
      }
    }
  }

  /** Bytes that are not special are appended one by one, each advancing the
      cursor by one and echoed as typed. */
  lemma RunTyping(commands: seq<string>, history: seq<string>, c: CycleState, w: string, rest: seq<char>)
    requires Valid(c.line) && c.prev <= |history|
    requires forall i :: 0 <= i < |w| ==> Plain(w[i])
    ensures Run(commands, history, c, w + rest) ==
            Run(commands, history, c.(line := Line(c.line.text + w, c.line.cursor + |w|), out := c.out + w), rest)
  {
    KeystrokesOfInserts(w);
    InsertsEditing(w);
    RunFeed(commands, history, c, Inserts(w), rest);
    FeedTyping(commands, history, c, w);
  }

  /** n Backspace bytes. */
  function Erases(n: nat): seq<char> {
    Keystrokes(Repeat(Key.Erase, n))
  }

  /** n Backspaces, with no more than the line holds, drop the last n
      characters and write one rub-out each. */
  lemma {:induction false} FeedErasing(commands: seq<string>, history: seq<string>, c: CycleState, n: nat)
    requires Valid(c.line) && c.prev <= |history|
    requires n <= |c.line.text|
    ensures Feed(commands, history, c, Repeat(Key.Erase, n)) ==
            c.(line := Line(c.line.text[..|c.line.text| - n], c.line.cursor - n), out := c.out + Rubouts(n))
    decreases n
  {
    var t := c.line.text;
    if n == 0 {
      assert t[..|t|] == t && c.out + Rubouts(0) == c.out;
    } else {
      var t1 := t[..|t| - 1];
      var c1 := c.(line := Line(t1, c.line.cursor - 1), out := c.out + RUBOUT);
      assert Feed(commands, history, c, Repeat(Key.Erase, n)) == Feed(commands, history, c1, Repeat(Key.Erase, n - 1)) by {
        FeedCons(commands, history, c, Key.Erase, Repeat(Key.Erase, n - 1));
        assert Apply(commands, history, c, Key.Erase) == c1;
      }
      FeedErasing(commands, history, c1, n - 1);
      assert t1[..|t1| - (n - 1)] == t[..|t| - n];
      assert c1.out + Rubouts(n - 1) == c.out + Rubouts(n) by {
        assert Rubouts(n) == RUBOUT + Rubouts(n - 1);
      }
    }
  }

  lemma RunErasing(commands: seq<string>, history: seq<string>, c: CycleState, n: nat, rest: seq<char>)
    requires Valid(c.line) && c.prev <= |history|
    requires n <= |c.line.text|
    ensures Run(commands, history, c, Erases(n) + rest) ==
            Run(commands, history,
                c.(line := Line(c.line.text[..|c.line.text| - n], c.line.cursor - n), out := c.out + Rubouts(n)), rest)
  {
    RepeatEditing(Key.Erase, n);
    RunFeed(commands, history, c, Repeat(Key.Erase, n), rest);
    FeedErasing(commands, history, c, n);
  }

  /** Typing plain bytes and then as many Backspaces returns to the line as it
      was before; the terminal shows the echo followed by the rub-outs. */
  lemma TypeThenErase(commands: seq<string>, history: seq<string>, c: CycleState, w: string, rest: seq<char>)
    requires Valid(c.line) && c.prev <= |history|
    requires forall i :: 0 <= i < |w| ==> Plain(w[i])
    ensures Run(commands, history, c, w + Erases(|w|) + rest) ==
            Run(commands, history, c.(out := c.out + w + Rubouts(|w|)), rest)
  {
    assert w + Erases(|w|) + rest == w + (Erases(|w|) + rest);
    RunTyping(commands, history, c, w, Erases(|w|) + rest);
    var c2 := c.(line := Line(c.line.text + w, c.line.cursor + |w|), out := c.out + w);
    RunErasing(commands, history, c2, |w|, rest);
    assert (c.line.text + w)[..|c.line.text + w| - |w|] == c.line.text;
  }

  /** Typing plain bytes and pressing Ctrl-C ends the cycle without a line. */
  lemma TypeThenInterrupt(commands: seq<string>, history: seq<string>, c: CycleState, w: string, rest: seq<char>)
    requires Valid(c.line) && c.prev <= |history|
    requires forall i :: 0 <= i < |w| ==> Plain(w[i])
    ensures var r := Run(commands, history, c, w + [CTRL_C] + rest);
      r.outcome == Interrupted && r.state.prev == c.prev && r.rest == rest
  {
    assert w + [CTRL_C] + rest == w + ([CTRL_C] + rest);
    RunTyping(commands, history, c, w, [CTRL_C] + rest);
    RunInterrupt(commands, history, c.(line := Line(c.line.text + w, c.line.cursor + |w|), out := c.out + w), rest);
  }

  /** k presses of the up arrow. */
  function Ups(k: nat): seq<char> {
    Keystrokes(Repeat(HistoryUp, k))
  }

  /** Feeding two runs of keys is feeding the first, then the second. */
  lemma {:induction false} FeedAppend(commands: seq<string>, history: seq<string>, c: CycleState, a: seq<Key>, b: seq<Key>)
    requires Valid(c.line) && c.prev <= |history| && Editing(a)
    ensures Feed(commands, history, c, a + b) == Feed(commands, history, Feed(commands, history, c, a), b)
    decreases |a|
  {
    if a == [] {
      assert a + b == b;
    } else {
      assert a + b == [a[0]] + (a[1..] + b) && a == [a[0]] + a[1..];
      FeedCons(commands, history, c, a[0], a[1..] + b);
      FeedCons(commands, history, c, a[0], a[1..]);
      assert Editing(a[1..]) by {
        assert forall i :: 0 <= i < |a[1..]| ==> a[1..][i] == a[i + 1];
      }
      FeedAppend(commands, history, Apply(commands, history, c, a[0]), a[1..], b);
    }
  }

  lemma RepeatAppend(k: Key, m: nat, n: nat)
    ensures Repeat(k, m + n) == Repeat(k, m) + Repeat(k, n)
  {
    if m > 0 {
      RepeatAppend(k, m - 1, n);
      assert Repeat(k, m + n) == [k] + Repeat(k, m - 1 + n);
    }
  }

  /** While entries are left, each up-arrow press shows the next older one. */
  lemma {:induction false} FeedUpsShows(commands: seq<string>, history: seq<string>, c: CycleState, k: nat)
    requires Valid(c.line) && k >= 1 && c.prev + k <= |history|
    ensures var f := Feed(commands, history, c, Repeat(HistoryUp, k));
      f.prev == c.prev + k && f.line.text == history[|history| - c.prev - k]
    decreases k
  {
    var c1 := Apply(commands, history, c, HistoryUp);
    assert c1.prev == c.prev + 1 && c1.line.text == history[|history| - 1 - c.prev];
    var f := Feed(commands, history, c1, Repeat(HistoryUp, k - 1));
    assert Feed(commands, history, c, Repeat(HistoryUp, k)) == f by {
      assert Repeat(HistoryUp, k) == [HistoryUp] + Repeat(HistoryUp, k - 1);
      FeedCons(commands, history, c, HistoryUp, Repeat(HistoryUp, k - 1));
    }
    if k == 1 {
      assert f == c1;
    } else {
      FeedUpsShows(commands, history, c1, k - 1);
      assert |history| - c1.prev - (k - 1) == |history| - c.prev - k;
    }
  }

  /** At rend the up arrow changes nothing, however often it is pressed. */
  lemma {:induction false} FeedUpsExhausted(commands: seq<string>, history: seq<string>, c: CycleState, k: nat)
    requires Valid(c.line) && c.prev == |history|
    ensures Feed(commands, history, c, Repeat(HistoryUp, k)) == c
    decreases k
  {
    if k > 0 {
      assert Feed(commands, history, c, Repeat(HistoryUp, k)) == Feed(commands, history, c, Repeat(HistoryUp, k - 1)) by {
        FeedCons(commands, history, c, HistoryUp, Repeat(HistoryUp, k - 1));
        assert c.out + [] == c.out;
        assert Apply(commands, history, c, HistoryUp) == c;
      }
      FeedUpsExhausted(commands, history, c, k - 1);
    }
  }

  /** k presses of the up arrow show the k-th newest entry not yet shown,
      clamped at the oldest; once the oldest has been shown, or with no
      history, they leave the line alone. */
  lemma FeedUps(commands: seq<string>, history: seq<string>, c: CycleState, k: nat)
    requires Valid(c.line) && c.prev <= |history|
    requires k >= 1
    ensures var m := Min(c.prev + k, |history|);
      var f := Feed(commands, history, c, Repeat(HistoryUp, k));
      f.prev == m && f.line.text == (if c.prev < |history| then history[|history| - m] else c.line.text)
  {
    if c.prev + k <= |history| {
      FeedUpsShows(commands, history, c, k);
    } else if c.prev == |history| {
      FeedUpsExhausted(commands, history, c, k);
    } else {
      var j := |history| - c.prev;
      RepeatAppend(HistoryUp, j, k - j);
      RepeatEditing(HistoryUp, j);
      FeedAppend(commands, history, c, Repeat(HistoryUp, j), Repeat(HistoryUp, k - j));
      FeedUpsShows(commands, history, c, j);
      FeedUpsExhausted(commands, history, Feed(commands, history, c, Repeat(HistoryUp, j)), k - j);
    }
  }

  /** k presses of the up arrow followed by Enter finalise the entry they show. */
  lemma UpPresses(commands: seq<string>, history: seq<string>, c: CycleState, k: nat, rest: seq<char>)
    requires Valid(c.line) && c.prev <= |history|
    requires k >= 1
    ensures var m := Min(c.prev + k, |history|);
      var r := Run(commands, history, c, Ups(k) + [ENTER] + rest);
      r.outcome == Entered(if c.prev < |history| then history[|history| - m] else c.line.text) &&
      r.state.prev == m && r.rest == rest
  {
    var keys := Repeat(HistoryUp, k);
    RepeatEditing(HistoryUp, k);
    assert Ups(k) + [ENTER] + rest == Keystrokes(keys) + ([ENTER] + rest);
    RunFeed(commands, history, c, keys, [ENTER] + rest);
    FeedUps(commands, history, c, k);
    RunEnter(commands, history, Feed(commands, history, c, keys), rest);
  }

  /** After lines a, b and c, up-arrow presses show c, b, a, and then stay on a. */
  lemma HistoryNewestFirst(commands: seq<string>, c: CycleState, rest: seq<char>)
    requires Valid(c.line) && c.prev == 0
    ensures Run(commands, ["a", "b", "c"], c, Ups(1) + [ENTER] + rest).outcome == Entered("c")
    ensures Run(commands, ["a", "b", "c"], c, Ups(2) + [ENTER] + rest).outcome == Entered("b")
    ensures Run(commands, ["a", "b", "c"], c, Ups(3) + [ENTER] + rest).outcome == Entered("a")
    ensures Run(commands, ["a", "b", "c"], c, Ups(4) + [ENTER] + rest).outcome == Entered("a")
  {
    UpPresses(commands, ["a", "b", "c"], c, 1, rest);
    UpPresses(commands, ["a", "b", "c"], c, 2, rest);
    UpPresses(commands, ["a", "b", "c"], c, 3, rest);
    UpPresses(commands, ["a", "b", "c"], c, 4, rest);
  }
}
