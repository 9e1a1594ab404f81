/**
 * The command runner of gpush: stage everything, commit with the message,
 * push.  Each external command is abstracted to the outcome it would have
 * if it were run; the model records which commands were actually issued,
 * so that "stops at the first failure" is a statement about that trace.
 */
module Git {

  /** What one `subprocess.run(..., check=True)` call does. */
  datatype StepOutcome =
    | Succeeded
    | ProcessFailed(detail: string)  // CalledProcessError: non-zero exit status
    | Raised(detail: string)         // any other `Exception` (e.g. git not found)

  /** The three external commands, in the order the runner issues them. */
  datatype Command = Add | Commit(message: string) | Push

  /** The outcome each of the three commands would have in this invocation. */
  datatype Outcomes = Outcomes(add: StepOutcome, commit: StepOutcome, push: StepOutcome)

  /** The runner's `(success, text)` pair, plus the commands it issued. */
  datatype Report = Report(success: bool, text: string, issued: seq<Command>)

  const SuccessText := "Successfully pushed changes!"
  const ProcessFailedPrefix := "Git command failed: "
  const RaisedPrefix := "Error: "

  /** The full sequence the runner attempts for `message`. */
  function Plan(message: string): seq<Command>
  {
    [Add, Commit(message), Push]
  }

  function OutcomeOf(o: Outcomes, c: Command): StepOutcome
  {
    match c
    case Add => o.add
    case Commit(_) => o.commit
    case Push => o.push
  }

  /** The text reported for a failed step: one prefix per exception class. */
  function FailureText(e: StepOutcome): string
    requires !e.Succeeded?
  {
    match e
    case ProcessFailed(d) => ProcessFailedPrefix + d
    case Raised(d) => RaisedPrefix + d
  }

  /** The failure text tells both which exception class was caught and its detail. */
  lemma FailureTextIdentifies(e1: StepOutcome, e2: StepOutcome)
    requires !e1.Succeeded? && !e2.Succeeded?
    requires FailureText(e1) == FailureText(e2)
    ensures e1 == e2
  {
    var t1, t2 := FailureText(e1), FailureText(e2);
    assert t1[0] == (if e1.ProcessFailed? then 'G' else 'E');
    assert t2[0] == (if e2.ProcessFailed? then 'G' else 'E');
    var n := if e1.ProcessFailed? then |ProcessFailedPrefix| else |RaisedPrefix|;
    assert e1.detail == t1[n..];
    assert e2.detail == t2[n..];
  }

  /**
   * run_git_commands: the commands are issued in plan order, the run stops
   * at the first one that does not succeed, and success is reported exactly
   * when all three succeeded.
   */
  function RunCommands(message: string, o: Outcomes): (r: Report)
    ensures 1 <= |r.issued| <= 3 && r.issued == Plan(message)[..|r.issued|]
    ensures forall i :: 0 <= i < |r.issued| - 1 ==> OutcomeOf(o, r.issued[i]) == Succeeded
    ensures r.success <==> o.add == Succeeded && o.commit == Succeeded && o.push == Succeeded
    ensures r.success ==> r.issued == Plan(message) && r.text == SuccessText
    ensures !r.success ==>
              var failed := OutcomeOf(o, r.issued[|r.issued| - 1]);
              failed != Succeeded && r.text == FailureText(failed)
  {
    if o.add != Succeeded then
      Report(false, FailureText(o.add), [Add])
    else if o.commit != Succeeded then
      Report(false, FailureText(o.commit), [Add, Commit(message)])
    else if o.push != Succeeded then
      Report(false, FailureText(o.push), Plan(message))
    else
      Report(true, SuccessText, Plan(message))
  }

  /** A failed commit means push is never issued, and the run fails. */
  lemma CommitFailureSkipsPush(message: string, o: Outcomes)
    requires o.add == Succeeded && o.commit != Succeeded
    ensures Push !in RunCommands(message, o).issued
    ensures !RunCommands(message, o).success
    ensures RunCommands(message, o).issued == [Add, Commit(message)]
  {
  }

  /** The commit command, whenever issued, carries exactly the runner's message. */
  lemma CommitCarriesMessage(message: string, o: Outcomes, c: Command)
    requires c in RunCommands(message, o).issued && c.Commit?
    ensures c == Commit(message)
  {
  }

  /** The two failure prefixes never produce the success text, so the text alone tells the outcome. */
  lemma TextDistinguishesOutcome(message: string, o: Outcomes)
    ensures RunCommands(message, o).success <==> RunCommands(message, o).text == SuccessText
  {
    var r := RunCommands(message, o);
    if !r.success {
      var failed := OutcomeOf(o, r.issued[|r.issued| - 1]);
      if failed.ProcessFailed? {
        assert r.text[0] == 'G' != SuccessText[0];
      } else {
        assert r.text[0] == 'E' != SuccessText[0];
      }
    }
  }
}
