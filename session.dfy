/**
 * gpush's main loop as an object: the three locals the loop reassigns on
 * every key become fields, the capacity computed once from the terminal
 * size before the loop becomes a constant, and each pass of the loop is
 * one call of Step.  Reading keys, the terminal size and the outcomes of
 * the git commands are inputs.
 */
module Loop {
  import opened Wrappers
  import opened Git
  import opened Layout
  import opened Dispatch

  class Session {
    var message: string
    var status: string
    var color: int
    /** `input_width * input_height`, fixed for the whole session. */
    const capacity: int

    function Current(): State
      reads this
    {
      State(message, status, color)
    }

    ghost predicate Valid()
      reads this
    {
      Invariant(capacity, Current())
    }

    /** Set up for a terminal of `height` rows and `width` columns. */
    constructor (height: int, width: int)
      ensures capacity == Capacity(ComputeFrame(height, width))
      ensures Current() == Initial && Valid()
    {
      var frame := ComputeFrame(height, width);
      capacity := frame.inputWidth * InputHeight;
      message, status, color := "", "", Neutral;
    }

    /** Handle one key; `outcomes` says how the git commands fare if Enter runs them. */
    method Step(key: int, outcomes: Outcomes) returns (quit: bool, runner: Option<Invocation>)
      requires Valid()
      modifies this
      ensures Valid()
      ensures Transition(Current(), quit, runner) == Next(capacity, old(Current()), Event(key, outcomes))
    {
      ghost var before, event := Current(), Event(key, outcomes);
      NextPreservesInvariant(capacity, before, event);
      quit, runner := false, None;
      if key == Esc {
        quit := true;
      } else if key == Enter {
        var stripped := Strip(message);
        if stripped != [] {
          var report := RunCommands(stripped, outcomes);
          runner := Some(Invocation(stripped, report));
          if report.success {
            status := report.text;
            color := Green;
            message := "";
          } else {
            status := report.text;
            color := Red;
          }
        } else {
          status := EmptyMessageWarning;
          color := Red;
        }
      } else if IsBackspace(key) {
        if message != [] {
          message := message[..|message| - 1];
          status := "";
        }
      } else if IsPrintable(key) {
        if |message| < capacity {
          message := message + [key as char];
          status := "";
        }
      }
      assert Current() == Next(capacity, before, event).next;
    }

    /**
     * The `while True` loop over the keys read: it stops at the first ESC
     * (reporting that it was cancelled) or when the keys run out.
     */
    method Run(events: seq<Event>) returns (cancelled: bool)
      requires Valid()
      modifies this
      ensures Valid()
      ensures Current() == Replay(capacity, old(Current()), events)
      ensures cancelled <==> exists i :: 0 <= i < |events| && events[i].key == Esc
    {
      cancelled := false;
      var i := 0;
      while i < |events|
        invariant 0 <= i <= |events| && Valid()
        invariant Replay(capacity, Current(), events[i..]) == Replay(capacity, old(Current()), events)
        invariant forall k :: 0 <= k < i ==> events[k].key != Esc
      {
        ghost var before := Current();
        var quit, _ := Step(events[i].key, events[i].outcomes);
        if quit {
          cancelled := true;
          assert Replay(capacity, before, events[i..]) == before;
          return;
        }
        ReplayUnfold(capacity, before, events[i..]);
        assert events[i..][1..] == events[i + 1..];
        i := i + 1;
      }
    }
  }
}
