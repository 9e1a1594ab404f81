# gpush, modelled in Dafny

gpush is a one-screen terminal front end for git. It draws a box with an
input field. It collects a commit message key by key. On Enter it runs
`git add -A`, `git commit -m <message>` and `git push` in that order. The
result is shown on a coloured status line.

This project models the parts of `gpush.py` that compute something:

- `git.dfy` (module `Git`): `run_git_commands`. Each of the three
  subprocess calls is reduced to the outcome it would have: success, a
  `CalledProcessError`, or any other `Exception`. `RunCommands` returns the
  `(success, text)` pair and also the trace of commands that were actually
  issued. "Stops at the first failure" is stated about that trace.
- `layout.dfy` (module `Layout`): the box and input-field geometry computed
  from the terminal size, the field's capacity, and the cursor cell
  `(len // input_width, len % input_width)`. It also models the rule that
  the cursor is moved only while that row is inside the field.
- `dispatch.dfy` (module `Dispatch`): the key dispatcher of the main loop.
  It is a pure transition function `Next` on the loop's three variables
  (message, status text, status colour pair). `Replay` runs the loop over
  a sequence of keys and stops at the first ESC. Python's `str.strip` is
  modelled as `Strip`.
- `session.dfy` (module `Loop`): the main loop as a class. The three locals
  that `main` reassigns are the fields of `Session`. The capacity is a
  constant fixed in the constructor. `Step` is one pass of the loop and is
  proved to do exactly what `Next` says. `Run` is the `while True` loop
  over the keys read and is proved to do exactly what `Replay` says. Both
  methods keep the invariant: the message never exceeds the capacity and
  holds only characters 32..126.
- `wrappers.dfy`: the `Option` datatype.

Inputs are parameters of the model:

- the terminal size;
- the key codes returned by `getch`;
- the outcome of each git command at the moment Enter is pressed (an
  `Outcomes` value carried by each `Event`).

Python's `//` and `%` floor. Every divisor here is positive, so they agree
with Dafny's `/` and `%`. `curses.KEY_BACKSPACE` is taken to be 263, its
value in ncurses.

The model keeps three details of the code as written:

- The blank-message warning is the literal "Please enter a commit message!"
  in colour pair 4.
- Typing at capacity, or pressing backspace on an empty message, leaves the
  status line as it was. Only an actual append or deletion clears it.
- Only key code 10 submits. Code 13 and `KEY_ENTER` fall into the "any
  other key" case and do nothing.

## Model

| member | source | states |
|---|---|---|
| Git.RunCommands | gpush.py:6-22 | the commands issued are a prefix of add, commit-with-message, push, every one but the last succeeded, success holds exactly when all three succeed and then the text is "Successfully pushed changes!" and all three ran, otherwise the last issued command failed and the text is its failure text |
| Git.FailureTextIdentifies | gpush.py:19-22 | two failure texts are equal only for the same exception class with the same detail, so the text shows whether a `CalledProcessError` ("Git command failed: ") or another `Exception` ("Error: ") was caught, and its detail |
| Git.CommitFailureSkipsPush | gpush.py:10-20 | when add succeeds and commit fails, exactly add and commit were issued, push was not, and the run reports failure |
| Git.CommitCarriesMessage | gpush.py:13 | a commit command in the trace always carries exactly the message the runner was given |
| Git.TextDistinguishesOutcome | gpush.py:18-22 | the reported text equals the success text exactly when the run succeeded |
| Layout.ComputeFrame | gpush.py:66-78 | the box width is the minimum of 70 and width-4, the box is centred horizontally and vertically at `(height - 16) // 2`, i.e. centred in `height - 6` rows, 3 rows above the middle (both rounding toward the top-left), and the input field is inset by 3 cells from the box's top, left and right edges |
| Layout.CursorCell | gpush.py:116-117 | for a positive field width, line*width + column equals the message length and 0 <= column < width |
| Layout.CursorVisibleIffRoom | gpush.py:116-119 | the cursor row is inside the 4-row field exactly when the message length is below `input_width * input_height` |
| Layout.CursorBelowFieldIffFull | gpush.py:116-119 | when the length is within capacity, the cursor row equals the field height exactly when the field is full |
| Layout.CursorTarget | gpush.py:115-119 | the cursor is moved exactly when the message is below capacity, and then to a cell inside the input field whose row-major offset from the field origin is the message length |
| Dispatch.TrimLeft | gpush.py:142 | the result is a suffix of the input, everything dropped is a space, and the result does not start with a space |
| Dispatch.TrimRight | gpush.py:142 | the result is a prefix of the input, everything dropped is a space, and the result does not end with a space |
| Dispatch.Strip | gpush.py:142 | the stripped text is empty exactly when the message is all spaces, and otherwise neither starts nor ends with a space |
| Dispatch.StripIsInfix | gpush.py:151 | the stripped text is a slice `s[i..j]` of the message with only spaces before i and after j |
| Dispatch.StripUnpadded | gpush.py:151 | a non-empty message without surrounding spaces is handed to the runner unchanged |
| Dispatch.TypedAt | gpush.py:169 | the i-th character typed is `chr` of the i-th key |
| Dispatch.NextPreservesInvariant | gpush.py:139-170 | every key keeps the message within capacity and made of characters 32..126 |
| Dispatch.EscQuits | gpush.py:139-140 | ESC ends the loop, changes nothing and runs nothing |
| Dispatch.OtherKeyIgnored | gpush.py:139-170 | a key that is not ESC, Enter, a backspace code or in 32..126 changes nothing and runs nothing |
| Dispatch.PrintableAppends | gpush.py:167-170 | a printable key below capacity appends exactly `chr(key)` and clears the status, keeping the colour |
| Dispatch.PrintableAtCapacityIgnored | gpush.py:167-170 | a printable key at capacity leaves message, status and colour unchanged |
| Dispatch.BackspaceRemovesLast | gpush.py:163-166 | a backspace code removes exactly the last character and clears the status; on an empty message nothing changes, the status included |
| Dispatch.SubmitBlankWarns | gpush.py:141-162 | Enter on an empty or all-space message runs nothing, keeps the message, and shows "Please enter a commit message!" in colour 4 |
| Dispatch.SubmitRunsCommands | gpush.py:141-159 | Enter on a non-blank message runs the commands once on the stripped message; on success the message is cleared and the runner's text shown in colour 3, on failure the message is kept and the text shown in colour 4 |
| Dispatch.SubmitFixBugExample | gpush.py:150-156 | submitting "fix bug" when every command succeeds issues add, commit "fix bug", push, clears the message and shows the success text in colour 3 |
| Dispatch.SubmitCommitFailureKeepsMessage | gpush.py:150-159 | when commit fails, push is never issued, the message is kept and the status is red |
| Dispatch.ReplayPreservesInvariant | gpush.py:84-170 | the loop keeps the capacity bound and printable-only contents over any key sequence |
| Dispatch.ReplayStopsAtEsc | gpush.py:84-140 | keys after the first ESC have no effect: the loop's result is that of the keys before it |
| Dispatch.TypingAppends | gpush.py:167-170 | typing printable keys within capacity appends exactly those characters in order and leaves the status empty |
| Dispatch.TypingWhenFullIgnored | gpush.py:168-170 | once the field is full, any number of printable keys leaves the whole state unchanged |
| Dispatch.TypingTruncatesAtCapacity | gpush.py:167-170 | typing any printable keys leaves the message equal to the old message plus the typed characters, cut at the capacity |
| Loop.Session.constructor | gpush.py:66-82 | the capacity is `input_width * input_height` of the terminal's frame, and the loop starts with an empty message, empty status and colour pair 2 |
| Loop.Session.Step | gpush.py:137-170 | one pass of the loop changes the fields and reports quit and the runner call exactly as `Next` says, and keeps the invariant |
| Loop.Session.Run | gpush.py:84-170 | the loop over the keys read ends in the state `Replay` gives, keeps the invariant, and reports cancellation exactly when an ESC was read |

## Left out

- Rendering: the box, title, instructions, dotted field background,
  word-wrapped message, status line, character count, colour-pair setup,
  `curs_set`, `refresh` and `curses.wrapper`. This is terminal output with
  no state of its own. Only the cursor position it computes is modelled.
- `textwrap.wrap` at gpush.py:111. Its output is only drawn and never fed
  back into the state.
- The "Processing..." message at gpush.py:144-148, which is only drawn.
- The subprocess calls themselves and the exception text that the
  f-strings at gpush.py:20 and 22 format. Each command becomes an abstract
  outcome carrying its detail text. The effects on the repository are not
  modelled.
- Reading the terminal size and the keys. Both are parameters.
- Terminal-size failures. Any terminal narrower than 24 columns makes
  `title_x` at gpush.py:90 negative, and the `addstr` at gpush.py:92 raises
  `curses.error` before the cursor arithmetic is reached. Line 116 is
  therefore only reached with `input_width >= 14`. The cursor functions
  require a positive field width, which excludes no case the program can
  reach. The key dispatcher is modelled for every capacity.
- Exceptions that `run_git_commands` does not catch. gpush.py:21 catches
  only `Exception`, so a `KeyboardInterrupt` (Ctrl-C during a slow push,
  say) escapes the runner and ends the program. The model's step outcomes
  cover only what lines 19-22 catch.
- Loop.Session.Run: models only two ways for the loop to end, ESC and running
  out of keys. In the program, a `curses.error` raised while drawing also
  ends the loop, and the process with it. One such case follows from the
  modelled state. After a `CalledProcessError`, the status text is
  "Git command failed: Command '[...]' returned non-zero exit status N.".
  That is 83 characters for a failed add and 97 for committing "fix bug".
  On an 80-column terminal `status_x` at gpush.py:124 is then negative,
  and the `addstr` at gpush.py:126 raises on the next pass. The message
  that Dispatch.SubmitCommitFailureKeepsMessage keeps is then lost.
- Dispatch.Replay: like Session.Run, it does not model the loop ending on
  a drawing error.
- Dispatch.Strip: does not model `str.strip` on whitespace other than
  spaces (tabs, newlines, Unicode spaces). The message can only ever hold
  characters 32..126, and among those only the space is whitespace.
