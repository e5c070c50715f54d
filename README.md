# SimplePrompt line editor, modelled in Dafny

SimplePrompt (`SimplePrompt.hpp`) is a header-only C++ prompt. It reads the terminal one byte at a time and builds up a command line. It supports:

- Backspace and Delete, which remove the last character;
- Tab, which completes to the first registered command with the typed prefix;
- the up arrow, which recalls earlier lines newest first.

When the user presses Enter, a non-empty line goes to a callback and to an in-memory history. A Ctrl-C byte read as a key ends the program. A Ctrl-C byte read inside an escape sequence does not: right after ESC it is dropped and ESC is inserted, and as the X of ESC [ X it is ignored (`InputCycle.CtrlCInsideEscape`).

This project models that core and proves what it does.

- `keys.dfy`, module `Keys`: the byte classifier, that is the `switch` of `getInputString` together with `checkArrowCode`. Also the bytes of each key press, and the proof that decoding them gives the key back.
- `completion.dfy`, module `Completion`: `tabCompleteCommand`.
- `line_edit.dfy`, module `LineEdit`: each key handler as a pure edit of the line (text and cursor), together with the bytes it writes to the terminal.
- `input_cycle.dfy`, module `InputCycle`: `getInputString` as a function `Run` over a finite byte stream. `Feed` applies a run of decoded keys, and `RunFeed` links reading their bytes to feeding them. The multi-step properties come from this: typing, erasing, recalling history.
- `session.dfy`, module `Session`: one iteration of `loop` (`Cycle`) and the loop until Ctrl-C or the end of the input (`Serve`). This includes the callback, the history append and the reset of the history position.
- `prompt.dfy`, module `Prompt`: the class `SimplePrompt`.
  - Its fields are the commands, the history, the history position `prev` (`m_prev`), the lines given to the callback, and the terminal output.
  - Its methods change the line through in/out parameters, like the source's references, and loop the way the source does.
  - Each method is proved equal to the functions above.

Conventions of the model:

- A Dafny `char` stands for one input byte, and strings are `seq<char>`.
- `m_prev`, a reverse iterator into the history deque, is modelled as the number of steps already taken back from the newest entry. The entry it points at is `history[|history| - 1 - prev]`, and `prev == |history|` is `rend()`.
- The source's `cursorPos == toReturn.length()` invariant is `LineEdit.Valid`, and every operation preserves it.

## Model

| member | source | states |
|---|---|---|
| Keys.CheckArrowCode | SimplePrompt.hpp:177-188 | A byte other than ESC returns -1 and reads nothing more. ESC followed by `[` reads exactly two bytes and returns the second. ESC followed by another byte reads that one byte and returns -1. It is None only when the input ends during these reads. |
| Keys.Classify | SimplePrompt.hpp:198-229 | Each turn of the loop decodes one key from 1 to 3 bytes long and never reads past the input. It can fail for lack of input only when fewer than 3 bytes remain. |
| Keys.ClassifyControl | SimplePrompt.hpp:12-17 | Bytes 10, 3, 127 or 8, and 9 are Enter, Ctrl-C, erase and Tab, each one byte long. |
| Keys.ClassifyPlain | SimplePrompt.hpp:216-227 | Every other byte except ESC falls to the default branch and is inserted, one byte long. This includes low control bytes and bytes of 128 and above. |
| Keys.ClassifyArrow | SimplePrompt.hpp:218-222 | ESC [ A (65) is the up arrow. ESC [ X for any other X is read and ignored. |
| Keys.ClassifyLoneEscape | SimplePrompt.hpp:180-187 | ESC followed by anything but `[` inserts the ESC byte, and the byte after it is consumed and lost. |
| Keys.ClassifyKeyBytes | SimplePrompt.hpp:199-228 | Decoding the bytes of any key the terminal can send gives back that key and its length, whatever bytes follow. |
| Keys.ClassifyNeedsMore | SimplePrompt.hpp:181-183 | The decoder runs out of input exactly on the empty input, a lone ESC, or ESC [. |
| Keys.ClassifyReadsOnlyItsKey | SimplePrompt.hpp:178-188 | The decision depends only on the bytes of the key, because getchar is called only as needed. |
| Completion.Head | SimplePrompt.hpp:127 | `substr(0, n)` has length min(n, size) and is a prefix of the string. |
| Completion.HeadMatchIsPrefix | SimplePrompt.hpp:127-128 | Comparing `substr(0, length)` with the text holds exactly when the text is a prefix of the command. |
| Completion.TabComplete | SimplePrompt.hpp:121-133 | The result always extends the typed text, and it is either that text or a registered command. |
| Completion.TabCompleteFirstMatch | SimplePrompt.hpp:124-130 | When some command extends the text, the result is the earliest one in registration order. |
| Completion.TabCompleteNoMatch | SimplePrompt.hpp:132 | When no command extends the text, the text comes back unchanged. |
| Completion.TabCompleteEmpty | SimplePrompt.hpp:121-133 | On empty text the scan returns the first registered command. |
| Completion.TabCompleteSample | test.cpp:6-7 | With "remove" and "mkdir" registered: "re" gives "remove", "mk" gives "mkdir", and "zz" stays "zz". |
| LineEdit.Rubouts | SimplePrompt.hpp:149-151 | n calls of removeLastChar write 3n bytes. |
| LineEdit.RuboutsSnoc | SimplePrompt.hpp:149-151 | One more pass of the rub-out loop appends one more `\b \b`. |
| LineEdit.Redraw | SimplePrompt.hpp:149-155 | Replacing a shown text writes one rub-out per shown character, followed by exactly the new text. |
| LineEdit.Erase | SimplePrompt.hpp:108-118 | handleBackspace keeps the cursor at the end of the text. |
| LineEdit.Append | SimplePrompt.hpp:224-226 | Appending a byte keeps the cursor at the end of the text. |
| LineEdit.TabKey | SimplePrompt.hpp:136-156 | handleTabKey either leaves the line and the screen alone or puts the cursor at the end of the new text. |
| LineEdit.Recall | SimplePrompt.hpp:159-175 | handleHistory moves the position by at most one step toward the oldest entry, never past rend, and keeps the cursor at the end of the text. |
| LineEdit.EraseCases | SimplePrompt.hpp:112-117 | Backspace at cursor 0 changes nothing and writes nothing. Otherwise it removes exactly the last character and moves the cursor back one. |
| LineEdit.EraseUndoesAppend | SimplePrompt.hpp:108-118 | A backspace after an appended byte restores the line. |
| LineEdit.TabKeyCases | SimplePrompt.hpp:140-147 | Tab on an empty line is a no-op. Otherwise the new text extends the typed text, is the typed text or a command, and has the cursor at its end. |
| LineEdit.RecallExhausted | SimplePrompt.hpp:162 | At rend the up arrow changes neither the line nor the position, and writes nothing. |
| InputCycle.Apply | SimplePrompt.hpp:209-227 | The keys that do not end the cycle keep the cursor invariant and keep the history position within bounds, never moving it back. |
| InputCycle.Run | SimplePrompt.hpp:193-235 | The cycle keeps `cursorPos == length` throughout and never moves the history position back or past rend. Enter returns exactly the line typed and consumes at least one byte. Running out of input leaves fewer than 3 bytes unread (RunBlockedRest says which). |
| InputCycle.Dispatch | SimplePrompt.hpp:202-232 | After one decoded key the cycle keeps the cursor at the end of the line and the browse position within the history, never gives back more input than it got, blocks only with fewer than 3 bytes left, and an Entered outcome carries the current line. What each branch does is stated by InputCycle.RunEnter (Enter), InputCycle.RunInterrupt (Ctrl-C) and InputCycle.RunStep (any other key). |
| InputCycle.RunStep | SimplePrompt.hpp:198-233 | A key that does not end the cycle is applied, and reading goes on after its bytes. |
| InputCycle.RunDefaultBranch | SimplePrompt.hpp:216-228 | The default branch depends on checkArrowCode. The up arrow recalls history, any other code above -1 leaves everything unchanged, and -1 appends the byte. Reading goes on after the bytes checkArrowCode read. |
| InputCycle.RunEraseKey | SimplePrompt.hpp:209-212 | Backspace and Delete both apply handleBackspace. |
| InputCycle.RunTabKey | SimplePrompt.hpp:213-215 | Tab applies handleTabKey. |
| InputCycle.RunCutShort | SimplePrompt.hpp:181-183 | An escape sequence cut off by the end of the input leaves the state untouched and the sequence unread. |
| InputCycle.RunEnter | SimplePrompt.hpp:203-206 | Enter writes a newline and returns the line as typed. |
| InputCycle.RunInterrupt | SimplePrompt.hpp:207-208 | Ctrl-C ends the cycle immediately, with the state untouched. |
| InputCycle.RunIgnoredArrow | SimplePrompt.hpp:221-222 | ESC [ X with X other than A has no effect. |
| InputCycle.RunLoneEscape | SimplePrompt.hpp:180-187 | ESC followed by a byte other than `[` appends and echoes ESC, and the following byte is lost. |
| InputCycle.RunHistoryUp | SimplePrompt.hpp:219-220 | ESC [ A applies handleHistory. |
| InputCycle.RunBlockedRest | SimplePrompt.hpp:181-183 | When the input runs out, what is left unread is nothing, a lone ESC, or ESC [. |
| InputCycle.CtrlCInsideEscape | SimplePrompt.hpp:180-187 | ESC, Ctrl-C, Enter returns the line with ESC appended. ESC [ Ctrl-C, Enter returns the line unchanged. In both cases the Ctrl-C byte does not end the cycle. |
| InputCycle.Feed | SimplePrompt.hpp:198-233 | Applying keys in order keeps the cursor invariant and the history position within bounds. |
| InputCycle.RunFeed | SimplePrompt.hpp:198-233 | Reading the bytes of a run of editing keys does exactly what applying the keys does. |
| InputCycle.FeedAppend | SimplePrompt.hpp:198-233 | Applying two runs of keys is applying the first and then the second. |
| InputCycle.FeedTyping | SimplePrompt.hpp:224-226 | Inserting w appends w to the text, moves the cursor by the length of w, and echoes w. |
| InputCycle.RunTyping | SimplePrompt.hpp:216-227 | Typing plain bytes appends and echoes them, as read from the byte stream. |
| InputCycle.FeedErasing | SimplePrompt.hpp:108-118 | n erases, with n at most the text length, drop exactly the last n characters and write n rub-outs. |
| InputCycle.RunErasing | SimplePrompt.hpp:209-212 | The same, as read from n Backspace bytes. |
| InputCycle.TypeThenErase | SimplePrompt.hpp:108-118 | Typing w and then as many Backspaces restores the line and the history position. The screen shows w followed by the rub-outs. |
| InputCycle.TypeThenInterrupt | SimplePrompt.hpp:207-208 | Text typed before Ctrl-C is not returned. |
| InputCycle.FeedUpsShows | SimplePrompt.hpp:162-173 | While entries remain, k up-arrow presses show the k-th newest entry not yet shown. |
| InputCycle.FeedUpsExhausted | SimplePrompt.hpp:162 | At rend, any number of up-arrow presses change nothing. |
| InputCycle.FeedUps | SimplePrompt.hpp:159-175 | k presses move the position to min(prev + k, size), and the line shows that entry. The oldest entry stays shown once reached. With nothing left to show, the line stays as it was. |
| InputCycle.UpPresses | SimplePrompt.hpp:159-175 | k up-arrow presses followed by Enter return the entry shown, and the position is as in FeedUps. |
| InputCycle.HistoryNewestFirst | SimplePrompt.hpp:159-175 | After "a", "b", "c", presses of the up arrow show "c", "b", "a", and then "a" again. |
| Session.Finalize | SimplePrompt.hpp:243-248 | A non-empty line is passed to the callback when one is set, appended to the history, and the position goes back to the newest entry. An empty line changes nothing. Only non-empty entries ever enter the history. |
| Session.Cycle | SimplePrompt.hpp:241-249 | One loop iteration keeps the history valid. Without Enter, neither the history nor the callback list changes. |
| Session.Serve | SimplePrompt.hpp:238-251 | The loop only ever appends to the history, and it stops only on Ctrl-C or at the end of the input. |
| Session.EnterRecordsLine | SimplePrompt.hpp:241-249 | A typed line and Enter return the line. It is given to the callback and appended to the history exactly when it is non-empty, and the position is then reset. |
| Session.InterruptRecordsNothing | SimplePrompt.hpp:207-208 | Ctrl-C gives no callback and no history entry, and leaves the position unchanged. |
| Session.ThreeLines | SimplePrompt.hpp:243-248 | Lines entered one after another appear in the history and the callback list in the order typed, with the position at the newest. |
| Session.ResubmitFromHistory | SimplePrompt.hpp:243-248 | Recalling an entry and pressing Enter appends that entry to the history again, passes it to the callback, and resets the position. |
| Session.EmptyLineKeepsBrowsePosition | SimplePrompt.hpp:243-249 | A recalled entry erased to nothing and entered is not recorded, and the position stays where the recall left it. |
| Session.ExhaustedHistoryRecallsNothing | SimplePrompt.hpp:162 | At rend, up-arrow presses followed by Enter submit an empty line and record nothing. |
| Prompt.SimplePrompt.constructor | SimplePrompt.hpp:23-34 | A new prompt has no commands, no history and no output. |
| Prompt.SimplePrompt.AddCommand | SimplePrompt.hpp:36-39 | The command is added at the end of the registration order. |
| Prompt.SimplePrompt.RemoveLastChar | SimplePrompt.hpp:98-106 | Writes backspace, space, backspace. |
| Prompt.SimplePrompt.HandleBackspace | SimplePrompt.hpp:108-118 | The new line and output are those of LineEdit.Erase. |
| Prompt.SimplePrompt.HandleTabKey | SimplePrompt.hpp:136-156 | The new line and output, after the rub-out loop, are those of LineEdit.TabKey. |
| Prompt.SimplePrompt.HandleHistory | SimplePrompt.hpp:159-175 | The new line, position and output are those of LineEdit.Recall. |
| Prompt.SimplePrompt.GetInputString | SimplePrompt.hpp:193-235 | The loop returns the outcome, the position, the output and the unread input that InputCycle.Run gives. |
| Prompt.SimplePrompt.HandleByte | SimplePrompt.hpp:199-229 | One turn of the switch either ends the cycle with Run's result or advances the state as Run does. |
| Prompt.SimplePrompt.HandleOtherByte | SimplePrompt.hpp:216-228 | The default branch advances as Run does. It stops without any effect only when checkArrowCode runs out of input. |
| Prompt.SimplePrompt.RunCycle | SimplePrompt.hpp:240-249 | The prompt, the input cycle and the recording of the line do what Session.Cycle says. |
| Prompt.SimplePrompt.Loop | SimplePrompt.hpp:238-251 | The loop does what Session.Serve says. |

## Left out

- `setupTerminal` and `start`: the termios calls that switch off canonical mode and echo are terminal I/O. The model starts with the terminal already in that mode.
- `getchar` is replaced by a finite input sequence. End of file is not modelled.
  - In the source, EOF reads as byte 255 and is appended, or ends an escape sequence as the code -1.
  - In the model, running out of input ends the cycle with the outcome `Blocked`, where the source would wait for more input.
- `exit(0)` on Ctrl-C is the outcome `Interrupted`. The loop model stops there.
- `loop` never returns. `Session.Serve` and `Prompt.SimplePrompt.Loop` run it over a finite input until Ctrl-C or the end of the input.
- The callback body: the lines passed to it are recorded in order. An empty `std::function` is the `hasCallback == false` case.
- `m_commandDictionaryPath` and `m_welcomeMessage` are stored by the constructor and never used, so they are not modelled.
- `m_prev` is not initialised by the constructor. The model starts it at 0. It is only read when the history is non-empty, and that requires a previous append, which resets it.
- Output buffering and the flush of `std::endl`: the output is one byte string.
- The source's `char` may be signed, so bytes of 128 and above have negative codes. They reach the default branch and are appended exactly as the model's `Plain` bytes are, so there is no separate case.
- A fuller line editor would do more than this code does; the model follows the code:
  - The down, left and right arrows, Home, End, kill to end of line, and insertion in the middle of the line do not exist in this code. Arrows other than up are read and ignored.
  - Low control bytes other than Enter, Ctrl-C, Tab and Delete, and ESC (next item), are appended to the line, not dropped.
  - Completing an empty text: `tabCompleteCommand` returns the first registered command (`Completion.TabCompleteEmpty`), but `handleTabKey` returns before calling it, so nothing changes on screen.
  - ESC followed by a byte other than `[` is not ignored: it inserts ESC and the following byte is lost (`Keys.ClassifyLoneEscape`).
