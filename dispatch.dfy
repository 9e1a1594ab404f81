/**
 * The key dispatcher of gpush's main loop as a pure transition function on
 * the loop's three variables (message, status text, status colour), and
 * the loop itself as a replay of a key sequence.
 */
module Dispatch {
  import opened Wrappers
  import opened Git

  // Key codes the loop distinguishes.
  const Esc := 27
  const Enter := 10          // ord('\n')
  const KeyBackspace := 263  // curses.KEY_BACKSPACE (ncurses)
  const Del := 127
  const CtrlH := 8
  const FirstPrintable := 32
  const LastPrintable := 126

  // Colour pairs used for the status line.
  const Neutral := 2
  const Green := 3
  const Red := 4

  const EmptyMessageWarning := "Please enter a commit message!"

  datatype State = State(message: string, status: string, color: int)

  /** A call of the command runner: the argument it was given and what it returned. */
  datatype Invocation = Invocation(argument: string, report: Report)

  /** One key's effect: the next state, whether the loop ends, and the runner call it made. */
  datatype Transition = Transition(next: State, quit: bool, runner: Option<Invocation>)

  /** One input event: the key read, and how the git commands would fare if run now. */
  datatype Event = Event(key: int, outcomes: Outcomes)

  /** The state before the first key. */
  const Initial := State("", "", Neutral)

  predicate IsBackspace(key: int)
  {
    key == KeyBackspace || key == Del || key == CtrlH
  }

  predicate IsPrintable(key: int)
  {
    FirstPrintable <= key <= LastPrintable
  }

  predicate PrintableText(s: string)
  {
    forall i :: 0 <= i < |s| ==> FirstPrintable <= s[i] as int <= LastPrintable
  }

  /** What every state the loop reaches satisfies. */
  predicate Invariant(capacity: int, s: State)
  {
    (s.message == [] || |s.message| <= capacity) && PrintableText(s.message)
  }

  predicate IsBlank(s: string)
  {
    forall i :: 0 <= i < |s| ==> s[i] == ' '
  }

  /**
   * Drops leading spaces.  Every character the loop can append is in
   * 32..126, where space is the only character `str.strip` removes.
   */
  function TrimLeft(s: string): (r: string)
    ensures |r| <= |s| && r == s[|s| - |r|..]
    ensures forall i :: 0 <= i < |s| - |r| ==> s[i] == ' '
    ensures r != [] ==> r[0] != ' '
  {
    if s != [] && s[0] == ' ' then TrimLeft(s[1..]) else s
  }

  /** Drops trailing spaces. */
  function TrimRight(s: string): (r: string)
    ensures |r| <= |s| && r == s[..|r|]
    ensures forall i :: |r| <= i < |s| ==> s[i] == ' '
    ensures r != [] ==> r[|r| - 1] != ' '
  {
    if s != [] && s[|s| - 1] == ' ' then TrimRight(s[..|s| - 1]) else s
  }

  /** `str.strip` on text made of printable characters. */
  function Strip(s: string): (r: string)
    ensures r != [] ==> r[0] != ' ' && r[|r| - 1] != ' '
    ensures r == [] <==> IsBlank(s)
  {
    var t := TrimLeft(s);
    var r := TrimRight(t);
    assert r == [] ==> IsBlank(s) by {
      assert r == [] ==> t == [];
    }
    assert IsBlank(s) ==> r == [] by {
      if t != [] {
        assert t[0] == s[|s| - |t|];
      }
    }
    r
  }

  /** What strip keeps is the slice `s[i..j]`, with only spaces around it. */
  lemma StripIsInfix(s: string) returns (i: nat, j: nat)
    ensures i <= j <= |s| && Strip(s) == s[i..j]
    ensures IsBlank(s[..i]) && IsBlank(s[j..])
  {
    var t := TrimLeft(s);
    var r := TrimRight(t);
    i, j := |s| - |t|, |s| - |t| + |r|;
    LeadingSpacesBlank(s, i);
    TrailingSpacesBlank(t, |r|);
    assert s[j..] == t[|r|..];
    assert s[i..][..|r|] == s[i..j];
  }

  lemma LeadingSpacesBlank(s: string, n: nat)
    requires n <= |s| && forall k :: 0 <= k < n ==> s[k] == ' '
    ensures IsBlank(s[..n])
  {
    assert forall k :: 0 <= k < n ==> s[..n][k] == s[k];
  }

  lemma TrailingSpacesBlank(s: string, n: nat)
    requires n <= |s| && forall k :: n <= k < |s| ==> s[k] == ' '
    ensures IsBlank(s[n..])
  {
    assert forall k :: 0 <= k < |s| - n ==> s[n..][k] == s[n + k];
  }

  /** Enter: run the commands on the stripped message, or warn when it is blank. */
  function Submit(s: State, outcomes: Outcomes): Transition
  {
    var stripped := Strip(s.message);
    if stripped != [] then
      var report := RunCommands(stripped, outcomes);
      var next := if report.success then State("", report.text, Green)
                  else s.(status := report.text, color := Red);
      Transition(next, false, Some(Invocation(stripped, report)))
    else
      Transition(s.(status := EmptyMessageWarning, color := Red), false, None)
  }

  /** A backspace code: drop the last character, if there is one. */
  function Erase(s: State): Transition
  {
    if s.message != [] then
      Transition(s.(message := s.message[..|s.message| - 1], status := ""), false, None)
    else
      Transition(s, false, None)
  }

  /** A printable key: append it while the field has room. */
  function Append(capacity: int, s: State, key: int): Transition
    requires IsPrintable(key)
  {
    if |s.message| < capacity then
      Transition(s.(message := s.message + [key as char], status := ""), false, None)
    else
      Transition(s, false, None)
  }

  /** The effect of one key. */
  function Next(capacity: int, s: State, e: Event): Transition
  {
    if e.key == Esc then Transition(s, true, None)
    else if e.key == Enter then Submit(s, e.outcomes)
    else if IsBackspace(e.key) then Erase(s)
    else if IsPrintable(e.key) then Append(capacity, s, e.key)
    else Transition(s, false, None)
  }

  /** The loop over a sequence of keys: it ends at the first ESC or when the keys run out. */
  function Replay(capacity: int, s: State, events: seq<Event>): State
    decreases |events|
  {
    if events == [] then s
    else
      var t := Next(capacity, s, events[0]);
      if t.quit then s else Replay(capacity, t.next, events[1..])
  }

  /** The characters that a run of printable keys types. */
  function Typed(events: seq<Event>): (r: string)
    requires forall i :: 0 <= i < |events| ==> IsPrintable(events[i].key)
    ensures |r| == |events|
  {
    if events == [] then []
    else
      assert IsPrintable(events[0].key);
      [events[0].key as char] + Typed(events[1..])
  }

  /** The i-th typed character is the i-th key's. */
  lemma {:induction false} TypedAt(events: seq<Event>, i: nat)
    requires forall k :: 0 <= k < |events| ==> IsPrintable(events[k].key)
    requires i < |events|
    ensures Typed(events)[i] as int == events[i].key
    decreases i
  {
    if i > 0 {
      TypedAt(events[1..], i - 1);
    }
  }

  // ---------------------------------------------------------------------
  // One key at a time
  // ---------------------------------------------------------------------

  /** Every transition keeps the capacity bound and the printable-only contents. */
  lemma NextPreservesInvariant(capacity: int, s: State, e: Event)
    requires Invariant(capacity, s)
    ensures Invariant(capacity, Next(capacity, s, e).next)
  {
  }

  /** ESC ends the loop and changes nothing. */
  lemma EscQuits(capacity: int, s: State, e: Event)
    requires e.key == Esc
    ensures Next(capacity, s, e) == Transition(s, true, None)
  {
  }

  /** A key that is none of ESC, Enter, a backspace code or 32..126 changes nothing. */
  lemma OtherKeyIgnored(capacity: int, s: State, e: Event)
    requires e.key != Esc && e.key != Enter && !IsBackspace(e.key) && !IsPrintable(e.key)
    ensures Next(capacity, s, e) == Transition(s, false, None)
  {
  }

  /** A printable key below capacity appends its character and clears the status. */
  lemma PrintableAppends(capacity: int, s: State, e: Event)
    requires IsPrintable(e.key) && |s.message| < capacity
    ensures Next(capacity, s, e) == Transition(State(s.message + [e.key as char], "", s.color), false, None)
  {
  }

  /** A printable key at capacity leaves message, status and colour as they were. */
  lemma PrintableAtCapacityIgnored(capacity: int, s: State, e: Event)
    requires IsPrintable(e.key) && |s.message| >= capacity
    ensures Next(capacity, s, e) == Transition(s, false, None)
  {
  }

  /** Backspace removes the last character and clears the status; on an empty message it does nothing. */
  lemma BackspaceRemovesLast(capacity: int, s: State, e: Event)
    requires IsBackspace(e.key)
    ensures var t := Next(capacity, s, e);
            && !t.quit && t.runner == None
            && (s.message != [] ==> t.next.message + [s.message[|s.message| - 1]] == s.message
                                    && t.next.status == "" && t.next.color == s.color)
            && (s.message == [] ==> t.next == s)
  {
  }

  /** Enter on a blank message never runs the commands and only sets the red warning. */
  lemma SubmitBlankWarns(capacity: int, s: State, e: Event)
    requires e.key == Enter && IsBlank(s.message)
    ensures Next(capacity, s, e) == Transition(State(s.message, EmptyMessageWarning, Red), false, None)
  {
  }

  /**
   * Enter on a non-blank message runs the commands once, on the stripped
   * message; success clears the message and shows the runner's text in
   * green, failure keeps the message and shows it in red.
   */
  lemma SubmitRunsCommands(capacity: int, s: State, e: Event)
    requires e.key == Enter && !IsBlank(s.message)
    ensures var t := Next(capacity, s, e);
            var report := RunCommands(Strip(s.message), e.outcomes);
            && !t.quit
            && t.runner == Some(Invocation(Strip(s.message), report))
            && Strip(s.message) != []
            && (report.success ==> t.next == State("", report.text, Green))
            && (!report.success ==> t.next == State(s.message, report.text, Red))
  {
  }

  /** Text with no surrounding spaces is passed to the runner unchanged. */
  lemma StripUnpadded(s: string)
    requires s != [] && s[0] != ' ' && s[|s| - 1] != ' '
    ensures Strip(s) == s
  {
  }

  /** "fix bug" with every command succeeding: add, commit "fix bug", push; message cleared. */
  lemma SubmitFixBugExample(capacity: int, color: int)
    ensures var s := State("fix bug", "", color);
            var t := Next(capacity, s, Event(Enter, Outcomes(Succeeded, Succeeded, Succeeded)));
            && t.runner.Some?
            && t.runner.value.report.issued == [Add, Commit("fix bug"), Push]
            && t.next == State("", SuccessText, Green)
  {
  }

  /** A failing commit: push is never issued and the message is kept. */
  lemma SubmitCommitFailureKeepsMessage(capacity: int, s: State, e: Event)
    requires e.key == Enter && !IsBlank(s.message)
    requires e.outcomes.add == Succeeded && e.outcomes.commit != Succeeded
    ensures var t := Next(capacity, s, e);
            && t.runner.Some? && Push !in t.runner.value.report.issued
            && t.next.message == s.message && t.next.color == Red
  {
  }

  // ---------------------------------------------------------------------
  // The loop over a key sequence
  // ---------------------------------------------------------------------

  /** Reading one key that does not end the loop, then the rest. */
  lemma ReplayUnfold(capacity: int, s: State, events: seq<Event>)
    requires events != [] && !Next(capacity, s, events[0]).quit
    ensures Replay(capacity, s, events) == Replay(capacity, Next(capacity, s, events[0]).next, events[1..])
  {
  }

  /** The loop keeps the invariant however many keys it reads. */
  lemma {:induction false} ReplayPreservesInvariant(capacity: int, s: State, events: seq<Event>)
    requires Invariant(capacity, s)
    ensures Invariant(capacity, Replay(capacity, s, events))
    decreases |events|
  {
    if events != [] {
      NextPreservesInvariant(capacity, s, events[0]);
      var t := Next(capacity, s, events[0]);
      if !t.quit {
        ReplayPreservesInvariant(capacity, t.next, events[1..]);
      }
    }
  }

  /** Keys after the first ESC are never read. */
  lemma {:induction false} ReplayStopsAtEsc(capacity: int, s: State, events: seq<Event>, i: nat)
    requires i < |events| && events[i].key == Esc
    ensures Replay(capacity, s, events) == Replay(capacity, s, events[..i])
    decreases i
  {
    if i > 0 {
      var t := Next(capacity, s, events[0]);
      if !t.quit {
        ReplayStopsAtEsc(capacity, t.next, events[1..], i - 1);
        assert events[..i][1..] == events[1..][..i - 1];
      }
    }
  }

  /** Typing printable keys within capacity appends exactly those characters, in order. */
  lemma {:induction false} TypingAppends(capacity: int, s: State, events: seq<Event>)
    requires forall i :: 0 <= i < |events| ==> IsPrintable(events[i].key)
    requires |s.message| + |events| <= capacity
    ensures Replay(capacity, s, events) ==
              if events == [] then s else State(s.message + Typed(events), "", s.color)
    decreases |events|
  {
    if events != [] {
      var c, rest := events[0].key as char, events[1..];
      var next := State(s.message + [c], "", s.color);
      assert Replay(capacity, s, events) == Replay(capacity, next, rest) by {
        PrintableAppends(capacity, s, events[0]);
        ReplayUnfold(capacity, s, events);
      }
      TypingAppends(capacity, next, rest);
      assert next.message + Typed(rest) == s.message + Typed(events) by {
        assert Typed(events) == [c] + Typed(rest);
      }
    }
  }

  /** Once the field is full, printable keys change nothing at all. */
  lemma {:induction false} TypingWhenFullIgnored(capacity: int, s: State, events: seq<Event>)
    requires forall i :: 0 <= i < |events| ==> IsPrintable(events[i].key)
    requires |s.message| >= capacity
    ensures Replay(capacity, s, events) == s
    decreases |events|
  {
    if events != [] {
      TypingWhenFullIgnored(capacity, s, events[1..]);
    }
  }

  /** Typing any number of printable keys keeps exactly the characters that fit. */
  lemma {:induction false} TypingTruncatesAtCapacity(capacity: int, s: State, events: seq<Event>)
    requires forall i :: 0 <= i < |events| ==> IsPrintable(events[i].key)
    requires |s.message| <= capacity
    ensures var n := if |s.message| + |events| <= capacity then |s.message| + |events| else capacity;
            Replay(capacity, s, events).message == (s.message + Typed(events))[..n]
    decreases |events|
  {
    if events == [] {
      assert s.message + Typed(events) == s.message;
    } else if |s.message| == capacity {
      TypingWhenFullIgnored(capacity, s, events);
      assert (s.message + Typed(events))[..capacity] == s.message;
    } else {
      var c, rest := events[0].key as char, events[1..];
      var next := State(s.message + [c], "", s.color);
      var n := if |s.message| + |events| <= capacity then |s.message| + |events| else capacity;
      assert Replay(capacity, s, events) == Replay(capacity, next, rest) by {
        PrintableAppends(capacity, s, events[0]);
        ReplayUnfold(capacity, s, events);
      }
      assert Replay(capacity, next, rest).message == (next.message + Typed(rest))[..n] by {
        TypingTruncatesAtCapacity(capacity, next, rest);
      }
      assert next.message + Typed(rest) == s.message + Typed(events) by {
        assert Typed(events) == [c] + Typed(rest);
      }
    }
  }
}
