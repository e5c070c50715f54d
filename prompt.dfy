/** The SimplePrompt class: its handlers update the line through in/out
    parameters (the source's references) and the object's own fields, and each
    is proved to do what the functions of LineEdit, InputCycle and Session say. */
module Prompt {
  import opened Keys
  import Completion
  import opened LineEdit
  import InputCycle
  import Session

  class SimplePrompt {
    /** The text printed before each line. */
    const prompt: string
    /** Whether a command callback is set (an empty std::function is skipped). */
    const hasCallback: bool
    /** Registered commands, in registration order. */
    var commands: seq<string>
    /** Finalised non-empty lines, oldest first. */
    var history: seq<string>
    /** m_prev: steps already taken back from the newest history entry. */
    var prev: nat
    /** The lines handed to the callback, in order. */
    var calls: seq<string>
    /** Everything written to the terminal. */
    var output: string

    ghost function State(): Session.State
      reads this
    {
      Session.State(history, prev, calls, output)
    }

    ghost predicate Valid()
      reads this
    {
      Session.Valid(State())
    }

    constructor (prompt: string, hasCallback: bool)
      ensures Valid() && this.prompt == prompt && this.hasCallback == hasCallback
      ensures commands == [] && State() == Session.Fresh
    {
      this.prompt := prompt;
      this.hasCallback := hasCallback;
      commands := [];
      history := [];
      prev := 0;
      calls := [];
      output := [];
    }

    method AddCommand(com: string)
      modifies this`commands
      ensures commands == old(commands) + [com]
    {
      commands := commands + [com];
    }

    method RemoveLastChar()
      modifies this`output
      ensures output == old(output) + RUBOUT
    {
      output := output + RUBOUT;
    }

    method HandleBackspace(cursorPos: int, toReturn: string) returns (cursor: int, text: string)
      requires cursorPos <= |toReturn|
      modifies this`output
      ensures var e := LineEdit.Erase(Line(toReturn, cursorPos));
        Line(text, cursor) == e.line && output == old(output) + e.echo
    {
      cursor, text := cursorPos, toReturn;
      if cursor > 0 {
        RemoveLastChar();
        cursor := cursor - 1;
        text := text[..|text| - 1];
      }
    }

    method HandleTabKey(cursorPos: int, toReturn: string) returns (cursor: int, text: string)
      modifies this`output
      ensures var e := TabKey(commands, Line(toReturn, cursorPos));
        Line(text, cursor) == e.line && output == old(output) + e.echo
    {
      cursor, text := cursorPos, toReturn;
      if text == [] {
        return;
      }
      var lenBefore := |text|;
      text := Completion.TabComplete(commands, text);
      cursor := |text|;
      for i := 0 to lenBefore
        modifies this`output
        invariant output == old(output) + Rubouts(i)
      {
        RemoveLastChar();
        RuboutsSnoc(i);
      }
      output := output + text;
    }

    method HandleHistory(cursorPos: int, toReturn: string) returns (cursor: int, text: string)
      requires prev <= |history|
      modifies this`output, this`prev
      ensures var (e, p) := Recall(history, old(prev), Line(toReturn, cursorPos));
        Line(text, cursor) == e.line && prev == p && output == old(output) + e.echo
    {
      cursor, text := cursorPos, toReturn;
      if history != [] && prev != |history| {
        if text != [] {
          var lenBefore := |text|;
          for i := 0 to lenBefore
            modifies this`output
            invariant output == old(output) + Rubouts(i)
          {
            RemoveLastChar();
            RuboutsSnoc(i);
          }
        }
        text := history[|history| - 1 - prev];
        cursor := |text|;
        output := output + text;
        prev := prev + 1;
      }
    }

    /** getInputString over the bytes of `input`: returns how the cycle ended
        and the bytes it did not read. */
    method GetInputString(input: seq<char>) returns (outcome: InputCycle.Outcome, rest: seq<char>)
      requires Valid()
      modifies this`output, this`prev
      ensures Valid()
      ensures var r := InputCycle.Run(commands, history, InputCycle.CycleState(Empty, old(prev), old(output)), input);
        outcome == r.outcome && prev == r.state.prev && output == r.state.out && rest == r.rest
    {
      ghost var goal := InputCycle.Run(commands, history, InputCycle.CycleState(Empty, prev, output), input);
      var toReturn: string := [];
      var cursorPos: int := 0;
      var pos := 0;
      while true
        invariant 0 <= pos <= |input| && Valid() && cursorPos == |toReturn|
        invariant InputCycle.Run(commands, history, InputCycle.CycleState(Line(toReturn, cursorPos), prev, output), input[pos..]) == goal
        decreases |input| - pos
      {
        if pos == |input| {
          return InputCycle.Blocked, [];
        }
        var stop;
        stop, pos, cursorPos, toReturn := HandleByte(input, pos, cursorPos, toReturn);
        if stop.Some? {
          return stop.value.0, stop.value.1;
        }
      }
    }

    /** One turn of getInputString's loop: reads the byte at input[pos] (and
        what checkArrowCode reads after it) and runs the switch on it. Returns
        the outcome and the unread input when the cycle ends, otherwise where
        reading goes on. */
    method HandleByte(input: seq<char>, pos: nat, cursorPos: int, toReturn: string)
      returns (stop: Option<(InputCycle.Outcome, seq<char>)>, next: nat, cursor: int, text: string)
      requires pos < |input| && prev <= |history| && cursorPos == |toReturn|
      modifies this`output, this`prev
      ensures prev <= |history| && cursor == |text| && pos < next <= |input|
      ensures var before := InputCycle.Run(commands, history, InputCycle.CycleState(Line(toReturn, cursorPos), old(prev), old(output)), input[pos..]);
        var now := InputCycle.CycleState(Line(text, cursor), prev, output);
        if stop.Some? then before == InputCycle.Result(stop.value.0, now, stop.value.1)
        else before == InputCycle.Run(commands, history, now, input[next..])
    {
      var c := input[pos];
      ghost var cycle := InputCycle.CycleState(Line(toReturn, cursorPos), prev, output);
      assert input[pos..] == [c] + input[pos + 1..];
      next, cursor, text := pos + 1, cursorPos, toReturn;
      stop := None;
      if c == ENTER {
        output := output + "\n";
        stop := Some((InputCycle.Entered(text), input[next..]));
        InputCycle.RunEnter(commands, history, cycle, input[next..]);
        assert cycle.(out := output) == InputCycle.CycleState(Line(text, cursor), prev, output);
      } else if c == CTRL_C {
        stop := Some((InputCycle.Interrupted, input[next..]));
        InputCycle.RunInterrupt(commands, history, cycle, input[next..]);
      } else if c == BACKSPACE || c == DELETE {
        cursor, text := HandleBackspace(cursor, text);
        InputCycle.RunEraseKey(commands, history, cycle, c, input[next..]);
      } else if c == TAB {
        cursor, text := HandleTabKey(cursor, text);
        InputCycle.RunTabKey(commands, history, cycle, input[next..]);
      } else {
        var after;
        after, cursor, text := HandleOtherByte(c, input, next, cursor, text);
        if after.None? {
          stop := Some((InputCycle.Blocked, input[pos..]));
          InputCycle.RunCutShort(commands, history, cycle, c, input[next..]);
          assert cycle == InputCycle.CycleState(Line(text, cursor), prev, output);
        } else {
          next := after.value;
        }
      }
    }

    /** The default branch of getInputString's switch: checkArrowCode reads the
        bytes after `c` from input[pos..]; the up arrow recalls history, another
        arrow is ignored, and anything else appends `c`. Returns where reading
        goes on, or None when the input ends inside the escape sequence. */
    method HandleOtherByte(c: char, input: seq<char>, pos: nat, cursorPos: int, toReturn: string)
      returns (next: Option<nat>, cursor: int, text: string)
      requires pos <= |input| && prev <= |history| && cursorPos == |toReturn|
      requires DefaultBranch(c)
      modifies this`output, this`prev
      ensures prev <= |history| && cursor == |text|
      ensures next.None? <==> CheckArrowCode(c, input[pos..]).None?
      ensures next.None? ==> output == old(output) && prev == old(prev) && cursor == cursorPos && text == toReturn
      ensures next.Some? ==> (pos <= next.value <= |input| &&
        InputCycle.Run(commands, history, InputCycle.CycleState(Line(toReturn, cursorPos), old(prev), old(output)), [c] + input[pos..]) ==
        InputCycle.Run(commands, history, InputCycle.CycleState(Line(text, cursor), prev, output), input[next.value..]))
    {
      cursor, text := cursorPos, toReturn;
      ghost var cycle := InputCycle.CycleState(Line(toReturn, cursorPos), prev, output);
      var ac := CheckArrowCode(c, input[pos..]);
      if ac.None? {
        return None, cursor, text;
      }
      InputCycle.RunDefaultBranch(commands, history, cycle, c, input[pos..]);
      assert input[pos..][ac.value.1..] == input[pos + ac.value.1..];
      next := Some(pos + ac.value.1);
      if ac.value.0 == UP_ARROW {
        cursor, text := HandleHistory(cursor, text);
      } else if ac.value.0 > -1 {
        // ignored
      } else {
        output := output + [c];
        cursor := cursor + 1;
        text := text + [c];
      }
    }

    /** One iteration of loop: prompt, read a line, record it if non-empty. */
    method RunCycle(input: seq<char>) returns (outcome: InputCycle.Outcome, rest: seq<char>)
      requires Valid()
      modifies this`output, this`prev, this`history, this`calls
      ensures Valid()
      ensures (State(), outcome, rest) == Session.Cycle(prompt, commands, hasCallback, old(State()), input)
    {
      output := output + prompt;
      outcome, rest := GetInputString(input);
      if outcome.Entered? && outcome.text != [] {
        if hasCallback {
          calls := calls + [outcome.text];
        }
        history := history + [outcome.text];
        prev := 0;
      }
    }

    /** loop over a finite input: cycles until Ctrl-C or the end of the input. */
    method Loop(input: seq<char>) returns (outcome: InputCycle.Outcome)
      requires Valid()
      modifies this`output, this`prev, this`history, this`calls
      ensures Valid()
      ensures (State(), outcome) == Session.Serve(prompt, commands, hasCallback, old(State()), input)
    {
      var rest := input;
      while true
        invariant Valid()
        invariant Session.Serve(prompt, commands, hasCallback, State(), rest) ==
                  Session.Serve(prompt, commands, hasCallback, old(State()), input)
        decreases |rest|
      {
        var o, r := RunCycle(rest);
        if !o.Entered? {
          outcome := o;
          return;
        }
        rest := r;
      }
    }
  }
}
