/**
 * The kernel executor: the loop that reads the kernel's IOPub messages after
 * an execute request and folds them into stdout and stderr, the observation
 * text made from those, and the object that owns the kernel and its client
 * channels and tears them down.
 */
module Executor {
  import opened Wrappers
  import opened Text

  /**
   * One read from the IOPub channel. `Timeout` stands for a read that raised:
   * the per-message timeout expired, the channel failed, or the message lacked
   * a field the loop reads.
   */
  datatype Msg =
    | Status(executionState: string)
    | Stream(name: string, text: string)
    | ExecuteResult(data: Option<map<string, string>>)
    | Error(ename: string, evalue: string, traceback: Option<seq<string>>)
    | Other(msgType: string)
    | Timeout

  /** The two accumulators of the loop. */
  datatype Captured = Captured(stdout: string, stderr: string)

  /** The reads that end the loop: the kernel going idle, or a read that raised. */
  predicate Stops(m: Msg) {
    m == Status("idle") || m.Timeout?
  }

  /** What a message appends to stdout. */
  function StdoutPiece(m: Msg): string {
    match m
    case Stream(name, text) => if name == "stdout" then text else ""
    case ExecuteResult(data) =>
      if data.Some? && "text/plain" in data.value then data.value["text/plain"] + "\n" else ""
    case _ => ""
  }

  /** What a message appends to stderr. */
  function StderrPiece(m: Msg): string {
    match m
    case Stream(name, text) => if name == "stdout" then "" else text
    case Error(ename, evalue, traceback) =>
      ename + ": " + evalue + "\n" + (if traceback.Some? then Join(traceback.value, "\n") + "\n" else "")
    case _ => ""
  }

  /** The accumulators after the messages `msgs`, in arrival order. */
  function Accumulate(msgs: seq<Msg>): Captured
    decreases |msgs|
  {
    if msgs == [] then Captured("", "")
    else
      var c := Accumulate(msgs[..|msgs| - 1]);
      var m := msgs[|msgs| - 1];
      Captured(c.stdout + StdoutPiece(m), c.stderr + StderrPiece(m))
  }

  /** Index of the first message that ends the loop, or |msgs| when none does. */
  function StopIndex(msgs: seq<Msg>): (k: nat)
    ensures k <= |msgs|
    ensures forall i :: 0 <= i < k ==> !Stops(msgs[i])
    ensures k < |msgs| ==> Stops(msgs[k])
  {
    if msgs == [] || Stops(msgs[0]) then 0 else 1 + StopIndex(msgs[1..])
  }

  /**
   * What the loop collects from the message stream `msgs`. Running out of
   * messages behaves as the next read timing out.
   */
  function Reply(msgs: seq<Msg>): Captured {
    Accumulate(msgs[..StopIndex(msgs)])
  }

  /** Reading one more message appends its pieces. */
  lemma AccumulateStep(msgs: seq<Msg>, i: int)
    requires 0 <= i < |msgs|
    ensures var c := Accumulate(msgs[..i]);
            Accumulate(msgs[..i + 1]) == Captured(c.stdout + StdoutPiece(msgs[i]), c.stderr + StderrPiece(msgs[i]))
  {
    assert msgs[..i + 1][..i] == msgs[..i];
  }

  /** A stopping message reached without passing the stop is the stop. */
  lemma StopsHere(msgs: seq<Msg>, i: int)
    requires 0 <= i <= StopIndex(msgs) && i < |msgs| && Stops(msgs[i])
    ensures i == StopIndex(msgs)
  {
  }

  /**
   * The receive loop of `execute`: reads messages until the kernel reports
   * idle or a read raises, appending stream text, plain-text results and
   * formatted errors to the two accumulators.
   */
  method ReadReply(msgs: seq<Msg>) returns (stdout: string, stderr: string)
    ensures Captured(stdout, stderr) == Reply(msgs)
  {
    stdout, stderr := "", "";
    var i := 0;
    while i < |msgs|
      invariant i <= StopIndex(msgs)
      invariant Captured(stdout, stderr) == Accumulate(msgs[..i])
    {
      var msg := msgs[i];
      ghost var before := Captured(stdout, stderr);
      assert before.stdout + "" == before.stdout && before.stderr + "" == before.stderr;
      if msg.Timeout? {
        StopsHere(msgs, i);
        break;
      }
      if msg.Status? && msg.executionState == "idle" {
        StopsHere(msgs, i);
        break;
      }
      if msg.Stream? {
        if msg.name == "stdout" {
          stdout := stdout + msg.text;
        } else {
          stderr := stderr + msg.text;
        }
      } else if msg.ExecuteResult? {
        if msg.data.Some? && "text/plain" in msg.data.value {
          stdout := stdout + (msg.data.value["text/plain"] + "\n");
        }
      } else if msg.Error? {
        ErrorAppends(stderr, msg);
        stderr := stderr + (msg.ename + ": " + msg.evalue + "\n");
        if msg.traceback.Some? {
          stderr := stderr + (Join(msg.traceback.value, "\n") + "\n");
        }
      }
      assert stdout == before.stdout + StdoutPiece(msg);
      assert stderr == before.stderr + StderrPiece(msg);
      AccumulateStep(msgs, i);
      i := i + 1;
    }
  }

  /** Appending an error's line and then its traceback appends its stderr piece. */
  lemma ErrorAppends(s: string, m: Msg)
    requires m.Error?
    ensures var line := m.ename + ": " + m.evalue + "\n";
            var withLine := s + line;
            StderrPiece(m) == line + (if m.traceback.Some? then Join(m.traceback.value, "\n") + "\n" else "") &&
            s + StderrPiece(m) ==
              (if m.traceback.Some? then withLine + (Join(m.traceback.value, "\n") + "\n") else withLine)
  {
  }

  const StdoutHeader: string := "--- STDOUT ---"
  const StderrHeader: string := "--- STDERR --- (Error Occurred)"

  /** What `execute` returns when the kernel process is not alive. */
  const NotRunning: string := "Kernel is not running."

  /**
   * The observation text: the stdout section always, the stderr section only
   * when stderr is non-empty, with surrounding whitespace stripped.
   */
  function Observation(c: Captured): string {
    Strip(StdoutSection(c) + StderrSection(c))
  }

  function StdoutSection(c: Captured): string {
    StdoutHeader + "\n" + c.stdout + "\n"
  }

  function StderrSection(c: Captured): string {
    if c.stderr != "" then StderrHeader + "\n" + c.stderr + "\n" else ""
  }

  /** The accumulators distribute over consecutive batches of messages. */
  lemma {:induction false} AccumulateConcat(a: seq<Msg>, b: seq<Msg>)
    ensures Accumulate(a + b) ==
      Captured(Accumulate(a).stdout + Accumulate(b).stdout, Accumulate(a).stderr + Accumulate(b).stderr)
    decreases |b|
  {
    if b != [] {
      var b' := b[..|b| - 1];
      var m := b[|b| - 1];
      assert (a + b)[..|a + b| - 1] == a + b';
      assert (a + b)[|a + b| - 1] == m;
      AccumulateConcat(a, b');
      var ca, cb' := Accumulate(a), Accumulate(b');
      Associative(ca.stdout, cb'.stdout, StdoutPiece(m));
      Associative(ca.stderr, cb'.stderr, StderrPiece(m));
    } else {
      assert a + b == a;
    }
  }

  lemma {:induction false} StopIndexExtended(msgs: seq<Msg>, later: seq<Msg>)
    requires StopIndex(msgs) < |msgs|
    ensures StopIndex(msgs + later) == StopIndex(msgs)
    decreases |msgs|
  {
    if !Stops(msgs[0]) {
      assert (msgs + later)[1..] == msgs[1..] + later;
      StopIndexExtended(msgs[1..], later);
    }
  }

  /** Once the loop has stopped, later messages contribute nothing. */
  lemma LaterMessagesIgnored(msgs: seq<Msg>, later: seq<Msg>)
    requires StopIndex(msgs) < |msgs|
    ensures Reply(msgs + later) == Reply(msgs)
  {
    StopIndexExtended(msgs, later);
    var k := StopIndex(msgs);
    assert (msgs + later)[..k] == msgs[..k];
  }

  /**
   * A timeout, a raised read and a clean idle status end the loop alike: the
   * caller cannot tell them apart.
   */
  lemma TimeoutLooksLikeIdle(msgs: seq<Msg>, last: Msg)
    requires Stops(last)
    ensures Reply(msgs + [last]) == Reply(msgs)
  {
    if StopIndex(msgs) < |msgs| {
      LaterMessagesIgnored(msgs, [last]);
    } else {
      StopAtEnd(msgs, last);
      assert (msgs + [last])[..|msgs|] == msgs;
      assert msgs[..|msgs|] == msgs;
    }
  }

  lemma {:induction false} StopAtEnd(msgs: seq<Msg>, last: Msg)
    requires Stops(last) && StopIndex(msgs) == |msgs|
    ensures StopIndex(msgs + [last]) == |msgs|
    decreases |msgs|
  {
    if msgs != [] {
      assert (msgs + [last])[1..] == msgs[1..] + [last];
      StopAtEnd(msgs[1..], last);
    }
  }

  /**
   * stderr stays empty exactly when no message read before the stop writes to
   * it: no error message, and no non-stdout stream with text.
   */
  lemma {:induction false} StderrEmptyIff(msgs: seq<Msg>)
    ensures Accumulate(msgs).stderr == "" <==>
      forall i :: 0 <= i < |msgs| ==> !msgs[i].Error? && !(msgs[i].Stream? && msgs[i].name != "stdout" && msgs[i].text != "")
    decreases |msgs|
  {
    if msgs != [] {
      var init := msgs[..|msgs| - 1];
      StderrEmptyIff(init);
      var m := msgs[|msgs| - 1];
      if m.Error? {
        assert |StderrPiece(m)| >= 2;
      }
      assert forall i :: 0 <= i < |init| ==> init[i] == msgs[i];
    }
  }

  lemma AccumulateOne(m: Msg)
    ensures Accumulate([m]) == Captured(StdoutPiece(m), StderrPiece(m))
  {
    assert [m][..0] == [];
  }

  /** A message between two batches contributes its piece between theirs. */
  lemma AccumulateAround(pre: seq<Msg>, m: Msg, post: seq<Msg>)
    ensures var a, b := Accumulate(pre), Accumulate(post);
            Accumulate(pre + [m] + post) ==
              Captured(a.stdout + StdoutPiece(m) + b.stdout, a.stderr + StderrPiece(m) + b.stderr)
  {
    var a, b := Accumulate(pre), Accumulate(post);
    AccumulateOne(m);
    AccumulateConcat(pre, [m]);
    AccumulateConcat(pre + [m], post);
  }

  /** The first `k` messages are those before `i`, message `i` and those after it. */
  lemma SplitAround(msgs: seq<Msg>, i: int, k: int)
    requires 0 <= i < k <= |msgs|
    ensures msgs[..k] == msgs[..i] + [msgs[i]] + msgs[i + 1..k]
  {
  }

  /** Each message read before the stop contributes its piece, in place. */
  lemma PieceInPlace(msgs: seq<Msg>, i: nat)
    requires i < StopIndex(msgs)
    ensures var k := StopIndex(msgs);
            var a, b := Accumulate(msgs[..i]), Accumulate(msgs[i + 1..k]);
            Reply(msgs) == Captured(a.stdout + StdoutPiece(msgs[i]) + b.stdout,
                                    a.stderr + StderrPiece(msgs[i]) + b.stderr)
  {
    var k := StopIndex(msgs);
    SplitAround(msgs, i, k);
    AccumulateAround(msgs[..i], msgs[i], msgs[i + 1..k]);
  }

  /** A text followed by more text occurs where it is placed. */
  lemma PlacedOccurs(a: string, x: string, y: string, b: string)
    ensures OccursAt(a + (x + y) + b, x, |a|)
  {
    assert (a + (x + y) + b)[|a|..|a| + |x|] == x;
  }

  /**
   * An error message read before the stop shows in stderr as "ename: evalue"
   * and a line break, right after the stderr gathered from earlier messages.
   */
  lemma ErrorRecorded(msgs: seq<Msg>, i: nat)
    requires i < StopIndex(msgs) && msgs[i].Error?
    ensures OccursAt(Reply(msgs).stderr, msgs[i].ename + ": " + msgs[i].evalue + "\n",
                     |Accumulate(msgs[..i]).stderr|)
    ensures Contains(Reply(msgs).stderr, msgs[i].ename + ": " + msgs[i].evalue + "\n")
  {
    PieceInPlace(msgs, i);
    var m := msgs[i];
    var line := m.ename + ": " + m.evalue + "\n";
    ErrorAppends("", m);
    var tail := if m.traceback.Some? then Join(m.traceback.value, "\n") + "\n" else "";
    var a := Accumulate(msgs[..i]).stderr;
    var b := Accumulate(msgs[i + 1..StopIndex(msgs)]).stderr;
    assert Reply(msgs).stderr == a + (line + tail) + b;
    PlacedOccurs(a, line, tail, b);
  }

  /** A non-empty stderr is always announced by the stderr header. */
  lemma ErrorHeaderShown(c: Captured)
    requires c.stderr != ""
    ensures Contains(Observation(c), StderrHeader)
  {
    var sec := StderrSection(c);
    assert sec[..|StderrHeader|] == StderrHeader;
    assert OccursAt(sec, StderrHeader, 0);
    OccursShifted(StdoutSection(c), sec, "", StderrHeader, 0);
    assert StdoutSection(c) + sec + "" == StdoutSection(c) + sec;
    StripKeepsOccurrence(StdoutSection(c) + sec, StderrHeader, |StdoutSection(c)|);
  }

  /** Text that ends in non-whitespace and occurs in stderr occurs in the observation. */
  lemma StderrTextShown(c: Captured, p: string)
    requires Contains(c.stderr, p)
    requires p != [] && !IsSpace(p[0]) && !IsSpace(p[|p| - 1])
    ensures Contains(Observation(c), p)
  {
    var i :| 0 <= i <= |c.stderr| - |p| && OccursAt(c.stderr, p, i);
    var head := StderrHeader + "\n";
    OccursShifted(head, c.stderr, "\n", p, i);
    var out, sec := StdoutSection(c), StderrSection(c);
    OccursShifted(out, sec, "", p, |head| + i);
    assert out + sec + "" == out + sec;
    StripKeepsOccurrence(out + sec, p, |out| + |head| + i);
  }

  /** Text that ends in non-whitespace and occurs in stdout occurs in the observation. */
  lemma StdoutTextShown(c: Captured, p: string)
    requires Contains(c.stdout, p)
    requires p != [] && !IsSpace(p[0]) && !IsSpace(p[|p| - 1])
    ensures Contains(Observation(c), p)
  {
    var i :| 0 <= i <= |c.stdout| - |p| && OccursAt(c.stdout, p, i);
    var head := StdoutHeader + "\n";
    OccursShifted(head, c.stdout, "\n", p, i);
    var out, sec := StdoutSection(c), StderrSection(c);
    OccursShifted("", out, sec, p, |head| + i);
    assert "" + out + sec == out + sec;
    StripKeepsOccurrence(out + sec, p, |head| + i);
  }

  /** What the executed code prints to stdout before the kernel goes idle shows in the observation. */
  lemma PrintedTextShown(msgs: seq<Msg>, i: nat, p: string)
    requires i < StopIndex(msgs) && msgs[i].Stream? && msgs[i].name == "stdout"
    requires Contains(msgs[i].text, p)
    requires p != [] && !IsSpace(p[0]) && !IsSpace(p[|p| - 1])
    ensures Contains(Observation(Reply(msgs)), p)
  {
    PieceInPlace(msgs, i);
    var a := Accumulate(msgs[..i]).stdout;
    var b := Accumulate(msgs[i + 1..StopIndex(msgs)]).stdout;
    ContainsInMiddle(a, msgs[i].text, b, p);
    StdoutTextShown(Reply(msgs), p);
  }

  /**
   * With nothing on stderr, the observation never mentions "STDERR" unless
   * the program printed that word itself.
   */
  lemma CleanRunHasNoStderrSection(c: Captured)
    requires c.stderr == "" && !Contains(c.stdout, "STDERR")
    ensures !Contains(Observation(c), "STDERR")
  {
    var x := StdoutHeader + "\n" + c.stdout;
    var out := x + "\n";
    assert StdoutSection(c) + StderrSection(c) == out;
    MissingCharRulesOut(StdoutHeader, "STDERR", 4);
    if Contains(x, "STDERR") {
      SplitAtSeparator(StdoutHeader, '\n', c.stdout, "STDERR");
    }
    assert out == x + ['\n'] + "";
    if Contains(out, "STDERR") {
      SplitAtSeparator(x, '\n', "", "STDERR");
    }
    if Contains(Strip(out), "STDERR") {
      StripAddsNothing(out, "STDERR");
    }
  }

  /**
   * An error raised by the executed code (Python's NameError, say) leaves its
   * name and the stderr header in the observation.
   */
  lemma ErrorNameShown(msgs: seq<Msg>, i: nat)
    requires i < StopIndex(msgs) && msgs[i].Error?
    requires msgs[i].ename != [] && !IsSpace(msgs[i].ename[0]) && !IsSpace(msgs[i].ename[|msgs[i].ename| - 1])
    ensures Contains(Observation(Reply(msgs)), msgs[i].ename)
    ensures Contains(Observation(Reply(msgs)), StderrHeader)
  {
    var e := msgs[i].ename;
    ErrorRecorded(msgs, i);
    var line := e + ": " + msgs[i].evalue + "\n";
    assert line[..|e|] == e;
    ContainsPrefix(Reply(msgs).stderr, line, e);
    StderrTextShown(Reply(msgs), e);
    ErrorHeaderShown(Reply(msgs));
  }

  datatype StartupStage =
    | CreateManager   // KernelManager()
    | StartKernel     // km.start_kernel()
    | CreateClient    // km.client()
    | StartChannels   // kc.start_channels()
    | WaitForReady    // kc.wait_for_ready(timeout)
    | CreateNotebook  // the initial notebook's creation code

  /**
   * The executor object: whether its kernel manager and client exist, whether
   * the kernel process is alive and the client channels run, the code it has
   * sent to the kernel, and how often it stopped the channels and shut the
   * kernel down.
   */
  class JupyterExecutor {
    var hasManager: bool
    var kernelAlive: bool
    var hasClient: bool
    var channelsRunning: bool
    var sent: seq<string>
    var channelStops: nat
    var kernelShutdowns: nat
    /** The stage whose exception the constructor re-raised after cleaning up. */
    var raised: Option<StartupStage>

    /**
     * Starts the kernel, opens the client channels, waits for the kernel and,
     * when `initialNotebookCode` is given, runs it. `failAt` is the stage that
     * raises, if any; a failure shuts down whatever was started and re-raises.
     */
    constructor (failAt: Option<StartupStage>, initialNotebookCode: Option<string>)
      ensures raised ==
        (if failAt == Some(CreateNotebook) && initialNotebookCode.None? then None else failAt)
      ensures raised.None? ==>
        hasManager && kernelAlive && hasClient && channelsRunning &&
        sent == (if initialNotebookCode.Some? then [initialNotebookCode.value] else []) &&
        channelStops == 0 && kernelShutdowns == 0
      ensures raised.Some? ==> !kernelAlive && !channelsRunning && sent == []
      ensures raised.Some? ==>
        channelStops == (if raised.value in {WaitForReady, CreateNotebook} then 1 else 0) &&
        kernelShutdowns == (if raised.value in {CreateManager, StartKernel} then 0 else 1)
    {
      hasManager, kernelAlive, hasClient, channelsRunning := false, false, false, false;
      sent, channelStops, kernelShutdowns, raised := [], 0, 0, None;
      new;
      var ok := failAt != Some(CreateManager);
      if ok {
        hasManager := true;
        ok := failAt != Some(StartKernel);
      }
      if ok {
        kernelAlive := true;
        ok := failAt != Some(CreateClient);
      }
      if ok {
        hasClient := true;
        ok := failAt != Some(StartChannels);
      }
      if ok {
        channelsRunning := true;
        ok := failAt != Some(WaitForReady);
      }
      if ok && initialNotebookCode.Some? {
        ok := failAt != Some(CreateNotebook);
        if ok {
          sent := [initialNotebookCode.value];
        }
      }
      if !ok {
        assert failAt.Some? && (failAt == Some(CreateNotebook) ==> initialNotebookCode.Some?);
        Shutdown();
        raised := failAt;
      } else {
        assert failAt.Some? ==> failAt.value == CreateNotebook && initialNotebookCode.None?;
      }
    }

    /**
     * Sends `code` and collects the reply from the message stream `msgs`;
     * a dead kernel is reported without sending anything.
     */
    method Execute(code: string, msgs: seq<Msg>) returns (observation: string)
      requires hasManager && hasClient
      modifies this`sent
      ensures !kernelAlive ==> observation == NotRunning && sent == old(sent)
      ensures kernelAlive ==> sent == old(sent) + [code] && observation == Observation(Reply(msgs))
    {
      if !kernelAlive {
        return NotRunning;
      }
      sent := sent + [code];
      var stdout, stderr := ReadReply(msgs);
      observation := Observation(Captured(stdout, stderr));
    }

    /**
     * Stops the client channels only if they run and shuts the kernel down
     * only if it is alive; calling it again does nothing more.
     */
    method Shutdown()
      modifies this`channelsRunning, this`kernelAlive, this`channelStops, this`kernelShutdowns
      ensures channelsRunning == (old(channelsRunning) && !hasClient)
      ensures kernelAlive == (old(kernelAlive) && !hasManager)
      ensures channelStops == old(channelStops) + (if hasClient && old(channelsRunning) then 1 else 0)
      ensures kernelShutdowns == old(kernelShutdowns) + (if hasManager && old(kernelAlive) then 1 else 0)
    {
      if hasClient && channelsRunning {
        channelsRunning := false;
        channelStops := channelStops + 1;
      }
      if hasManager && kernelAlive {
        kernelAlive := false;
        kernelShutdowns := kernelShutdowns + 1;
      }
    }
  }
}
