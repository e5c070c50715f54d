/** tabCompleteCommand: the first registered command that extends the typed text. */
module Completion {

  /** std::string::substr(0, n): the first n characters, or the whole string
      when it is shorter than n. */
  function Head(t: string, n: nat): (r: string)
    ensures |r| == if n <= |t| then n else |t|
    ensures r <= t
  {
    if n <= |t| then t[..n] else t
  }

  /** Comparing `Head(t, |s|)` with `s`, as the source does, is exactly the
      prefix test: a command shorter than `s` never matches. */
  lemma HeadMatchIsPrefix(t: string, s: string)
    ensures Head(t, |s|) == s <==> s <= t
  {
  }

  /** Scan of the command list in registration order with early return. */
  function TabComplete(commands: seq<string>, s: string): (r: string)
    ensures s <= r
    ensures r == s || r in commands
    decreases |commands|
  {
    if commands == [] then s
    else if Head(commands[0], |s|) == s then commands[0]
    else TabComplete(commands[1..], s)
  }

  /** When some command extends `s`, the result is the earliest such command. */
  lemma {:induction false} TabCompleteFirstMatch(commands: seq<string>, s: string, i: nat)
    requires i < |commands| && s <= commands[i]
    requires forall j :: 0 <= j < i ==> !(s <= commands[j])
    ensures TabComplete(commands, s) == commands[i]
  {
    HeadMatchIsPrefix(commands[0], s);
    if i > 0 {
      assert !(s <= commands[0]);
      forall j | 0 <= j < i - 1
        ensures !(s <= commands[1..][j])
      {
        assert commands[1..][j] == commands[j + 1];
      }
      TabCompleteFirstMatch(commands[1..], s, i - 1);
    }
  }

  /** When no command extends `s`, the text comes back unchanged. */
  lemma {:induction false} TabCompleteNoMatch(commands: seq<string>, s: string)
    requires forall j :: 0 <= j < |commands| ==> !(s <= commands[j])
    ensures TabComplete(commands, s) == s
  {
    if commands != [] {
      HeadMatchIsPrefix(commands[0], s);
      assert !(s <= commands[0]);
      forall j | 0 <= j < |commands| - 1
        ensures !(s <= commands[1..][j])
      {
        assert commands[1..][j] == commands[j + 1];
      }
      TabCompleteNoMatch(commands[1..], s);
    }
  }

  /** The scan itself does not special-case the empty text: every command
      extends it, so the first registered command is returned. */
  lemma TabCompleteEmpty(commands: seq<string>)
    requires commands != []
    ensures TabComplete(commands, "") == commands[0]
  {
    TabCompleteFirstMatch(commands, "", 0);
  }

  /** The commands registered by the sample program. */
  lemma TabCompleteSample()
    ensures TabComplete(["remove", "mkdir"], "re") == "remove"
    ensures TabComplete(["remove", "mkdir"], "mk") == "mkdir"
    ensures TabComplete(["remove", "mkdir"], "zz") == "zz"
  {
    TabCompleteFirstMatch(["remove", "mkdir"], "re", 0);
    assert "remove"[0] != "mk"[0];
    TabCompleteFirstMatch(["remove", "mkdir"], "mk", 1);
    assert "remove"[0] != "zz"[0] && "mkdir"[0] != "zz"[0];
    TabCompleteNoMatch(["remove", "mkdir"], "zz");
  }
}
