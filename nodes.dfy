/**
 * The two node functions of the agent: the planner, which gathers the recent
 * code cells of the notebook as context and records the code the model
 * proposes as the new plan, and the code executor, which handles the
 * completion marker, records the executed code and its outputs as a new
 * notebook cell and reports the execution result.
 */
module Nodes {
  import opened Wrappers
  import opened Text
  import opened State
  import Graph

  // ---------------------------------------------------------------------
  // Planner
  // ---------------------------------------------------------------------

  /** How many of the latest cells the planner looks at. */
  const RecentCellCount: nat := 3

  /** The heading put before each recent code cell's source. */
  const CellHeading: string := "# Previous Code Cell:\n"

  /** What separates two rendered cells. */
  const EntrySeparator: string := "\n---\n"

  /** `cells[-3:]`: the last three cells, or every cell when there are fewer. */
  function LastCells(cells: seq<Cell>): (r: seq<Cell>)
    ensures |r| == if |cells| < RecentCellCount then |cells| else RecentCellCount
    ensures r == cells[|cells| - |r|..]
  {
    if |cells| < RecentCellCount then cells else cells[|cells| - RecentCellCount..]
  }

  /** The code cells of `cells`, each rendered under the heading, in order. */
  function CodeEntries(cells: seq<Cell>): seq<string>
    decreases |cells|
  {
    if cells == [] then []
    else
      var last := cells[|cells| - 1];
      CodeEntries(cells[..|cells| - 1]) + (if last.cellType == "code" then [CellHeading + last.source] else [])
  }

  /** The recent-cell context handed to the model. */
  function RecentContext(cells: seq<Cell>): string {
    Join(CodeEntries(LastCells(cells)), EntrySeparator)
  }

  /**
   * Builds the recent-cell context by walking the last three cells and
   * keeping the code cells; no notebook, or one without cells, gives "".
   */
  method RecentCellsContext(notebook: Option<Notebook>) returns (context: string)
    ensures notebook.None? ==> context == ""
    ensures notebook.Some? ==> context == RecentContext(notebook.value.cells)
  {
    var entries: seq<string> := [];
    if notebook.Some? && notebook.value.cells != [] {
      var recent := LastCells(notebook.value.cells);
      for i := 0 to |recent|
        invariant entries == CodeEntries(recent[..i])
      {
        var cell := recent[i];
        if cell.cellType == "code" {
          entries := entries + [CellHeading + cell.source];
        }
        assert recent[..i + 1][..i] == recent[..i];
      }
      assert recent[..|recent|] == recent;
    }
    context := Join(entries, EntrySeparator);
  }

  lemma {:induction false} NoCodeEntries(cells: seq<Cell>)
    ensures CodeEntries(cells) == [] <==> forall i :: 0 <= i < |cells| ==> cells[i].cellType != "code"
    decreases |cells|
  {
    if cells != [] {
      var init := cells[..|cells| - 1];
      NoCodeEntries(init);
      assert forall i :: 0 <= i < |init| ==> init[i] == cells[i];
    }
  }

  lemma {:induction false} EntriesHaveHeading(cells: seq<Cell>)
    ensures forall e :: e in CodeEntries(cells) ==> |e| >= |CellHeading|
    decreases |cells|
  {
    if cells != [] {
      EntriesHaveHeading(cells[..|cells| - 1]);
    }
  }

  lemma {:induction false} CodeCellHasEntry(cells: seq<Cell>, i: int)
    requires 0 <= i < |cells| && cells[i].cellType == "code"
    ensures CellHeading + cells[i].source in CodeEntries(cells)
    decreases |cells|
  {
    if i < |cells| - 1 {
      var init := cells[..|cells| - 1];
      assert init[i] == cells[i];
      CodeCellHasEntry(init, i);
    }
  }

  /**
   * The context is empty exactly when none of the last three cells is a code
   * cell.
   */
  lemma ContextEmptyIff(cells: seq<Cell>)
    ensures RecentContext(cells) == "" <==>
      forall i :: |cells| - RecentCellCount <= i < |cells| && 0 <= i ==> cells[i].cellType != "code"
  {
    var recent := LastCells(cells);
    var entries := CodeEntries(recent);
    JoinEmpty(entries, EntrySeparator);
    NoCodeEntries(recent);
    if |entries| == 1 {
      assert entries[0] in entries;
    }
    EntriesHaveHeading(recent);
    assert forall i :: 0 <= i < |recent| ==> recent[i] == cells[|cells| - |recent| + i];
  }

  /** Each of the last three cells that holds code is shown, under the heading. */
  lemma ContextShowsRecentCode(cells: seq<Cell>, i: int)
    requires 0 <= i < |cells| && |cells| - RecentCellCount <= i
    requires cells[i].cellType == "code"
    ensures Contains(RecentContext(cells), CellHeading + cells[i].source)
  {
    var recent := LastCells(cells);
    var j := i - (|cells| - |recent|);
    assert recent[j] == cells[i];
    CodeCellHasEntry(recent, j);
    var entries := CodeEntries(recent);
    var k :| 0 <= k < |entries| && entries[k] == CellHeading + cells[i].source;
    JoinHasPart(entries, EntrySeparator, k);
  }

  /** Cells older than the last three have no say in the context. */
  lemma OlderCellsIgnored(older: seq<Cell>, recent: seq<Cell>)
    requires |recent| == RecentCellCount
    ensures RecentContext(older + recent) == RecentContext(recent)
  {
    assert (older + recent)[|older + recent| - RecentCellCount..] == recent;
  }

  /** What the planner fills its prompt with. */
  datatype PlannerPrompt = PlannerPrompt(
    task: string, recentCells: string, executedCode: string, stdout: string, stderr: string)

  /**
   * The planner node. The model is the function `model` from the prompt's
   * inputs to the code it proposes. Filling the prompt reads `task`,
   * `executed_code`, `stdout` and `stderr` in that order and raises at the
   * first that is missing; otherwise the update is a plan holding exactly the
   * proposed code.
   */
  method PlannerNode(state: AgentState, model: PlannerPrompt -> string)
    returns (r: Result<StateUpdate, LookupError>)
    ensures state.task.None? ==> r == Err(KeyError("task"))
    ensures state.task.Some? && state.executedCode.None? ==> r == Err(KeyError("executed_code"))
    ensures state.task.Some? && state.executedCode.Some? && state.stdout.None? ==>
              r == Err(KeyError("stdout"))
    ensures state.task.Some? && state.executedCode.Some? && state.stdout.Some? && state.stderr.None? ==>
              r == Err(KeyError("stderr"))
    ensures r.Ok? <==>
              state.task.Some? && state.executedCode.Some? && state.stdout.Some? && state.stderr.Some?
    ensures r.Ok? ==>
              var context := if state.notebook.Some? then RecentContext(state.notebook.value.cells) else "";
              var prompt := PlannerPrompt(state.task.value, context, state.executedCode.value,
                                          state.stdout.value, state.stderr.value);
              r.value == StateUpdate(Some([model(prompt)]), None, None, None, None)
  {
    var context := RecentCellsContext(state.notebook);
    if state.task.None? {
      return Err(KeyError("task"));
    }
    if state.executedCode.None? {
      return Err(KeyError("executed_code"));
    }
    if state.stdout.None? {
      return Err(KeyError("stdout"));
    }
    if state.stderr.None? {
      return Err(KeyError("stderr"));
    }
    var prompt := PlannerPrompt(state.task.value, context, state.executedCode.value,
                                state.stdout.value, state.stderr.value);
    var code := model(prompt);
    r := Ok(StateUpdate(Some([code]), None, None, None, None));
  }

  // ---------------------------------------------------------------------
  // Code executor
  // ---------------------------------------------------------------------

  /** The completion marker a plan ends with when the task is done. */
  const FinishMarker: string := "FINISH"

  /** The stdout reported when the marker stops the executor node. */
  const FinishedMessage: string := "작업 완료."

  /** What a failed notebook write appends to stderr, before the error text. */
  const PersistWarningPrefix: string := "\n\n경고: 노트북 파일 저장 실패 - "

  /**
   * One rich output of an execution result as the executor returns it; each
   * part may be missing.
   */
  datatype RichContent = RichContent(
    msgType: Option<string>, data: Option<map<string, string>>, metadata: Option<map<string, string>>)

  /** The execution result the node reads: two texts and the rich outputs. */
  datatype ExecResult = ExecResult(stdout: string, stderr: string, outputs: seq<RichContent>)

  /** A rich output as a notebook output, with the defaults for missing parts. */
  function RichOutput(rc: RichContent): (o: Output)
    ensures o.Rich?
    ensures o.outputType == (if rc.msgType.Some? then rc.msgType.value else "display_data")
    ensures o.data == (if rc.data.Some? then rc.data.value else map[])
    ensures o.metadata == (if rc.metadata.Some? then rc.metadata.value else map[])
  {
    Rich(rc.msgType.GetOr("display_data"), rc.data.GetOr(map[]), rc.metadata.GetOr(map[]))
  }

  function RichOutputs(outputs: seq<RichContent>): (os: seq<Output>)
    ensures |os| == |outputs|
  {
    seq(|outputs|, j requires 0 <= j < |outputs| => RichOutput(outputs[j]))
  }

  /**
   * The outputs of the recorded cell: the stdout stream when stdout is not
   * empty, then every rich output in its order, then the stderr stream when
   * stderr is not empty.
   */
  function CellOutputs(res: ExecResult): (outs: seq<Output>)
    ensures var lead := if res.stdout != "" then 1 else 0;
            |outs| == lead + |res.outputs| + (if res.stderr != "" then 1 else 0) &&
            (res.stdout != "" ==> outs[0] == Stream("stdout", res.stdout)) &&
            (res.stderr != "" ==> outs[|outs| - 1] == Stream("stderr", res.stderr)) &&
            (forall j :: 0 <= j < |res.outputs| ==> outs[lead + j] == RichOutput(res.outputs[j]))
  {
    (if res.stdout != "" then [Stream("stdout", res.stdout)] else [])
    + RichOutputs(res.outputs)
    + (if res.stderr != "" then [Stream("stderr", res.stderr)] else [])
  }

  /**
   * The only stream outputs of the recorded cell are the stdout stream, which
   * comes first, and the stderr stream, which comes last.
   */
  lemma StreamsBracketRichOutputs(res: ExecResult, j: int)
    requires 0 <= j < |CellOutputs(res)| && CellOutputs(res)[j].Stream?
    ensures var outs := CellOutputs(res);
            (outs[j].name == "stdout" && j == 0 && outs[j].text == res.stdout) ||
            (outs[j].name == "stderr" && j == |outs| - 1 && outs[j].text == res.stderr)
  {
    var lead := if res.stdout != "" then 1 else 0;
    var outs := CellOutputs(res);
  }

  /** The stderr the node reports: the result's, plus a warning if the write failed. */
  function ReportedStderr(res: ExecResult, persistError: Option<string>): (e: string)
    ensures persistError.None? ==> e == res.stderr
    ensures persistError.Some? ==> e == res.stderr + PersistWarningPrefix + persistError.value
  {
    if persistError.Some? then res.stderr + PersistWarningPrefix + persistError.value else res.stderr
  }

  /**
   * Fills the outputs of the code cell just appended for `code`: the stdout
   * stream, each rich output in order, then the stderr stream, as the
   * executor node does after running the cell.
   */
  method RecordOutputs(notebook: Notebook, ghost earlier: seq<Cell>, code: string, result: ExecResult)
    requires notebook.cells == earlier + [NewCodeCell(code)]
    modifies notebook
    ensures notebook.cells == earlier + [Cell("code", code, CellOutputs(result))]
  {
    var head: seq<Output> := [];
    if result.stdout != "" {
      LastCell(earlier, NewCodeCell(code));
      notebook.AppendOutputToLast(Stream("stdout", result.stdout));
      head := [Stream("stdout", result.stdout)];
      assert NewCodeCell(code).outputs + head == head;
    }
    assert NewCodeCell(code) == Cell("code", code, []);
    AppendRichOutputs(notebook, earlier, code, head, result.outputs);
    var body := head + RichOutputs(result.outputs);
    if result.stderr != "" {
      LastCell(earlier, Cell("code", code, body));
      notebook.AppendOutputToLast(Stream("stderr", result.stderr));
    } else {
      assert body + [] == body;
    }
  }

  /** Appends each rich output, in order, to the code cell last in the notebook. */
  method AppendRichOutputs(notebook: Notebook, ghost earlier: seq<Cell>, code: string,
                           ghost head: seq<Output>, outputs: seq<RichContent>)
    requires notebook.cells == earlier + [Cell("code", code, head)]
    modifies notebook
    ensures notebook.cells == earlier + [Cell("code", code, head + RichOutputs(outputs))]
  {
    ghost var rich := RichOutputs(outputs);
    assert head + rich[..0] == head;
    for j := 0 to |outputs|
      invariant notebook.cells == earlier + [Cell("code", code, head + rich[..j])]
    {
      LastCell(earlier, Cell("code", code, head + rich[..j]));
      notebook.AppendOutputToLast(RichOutput(outputs[j]));
      assert head + rich[..j + 1] == head + rich[..j] + [RichOutput(outputs[j])] by {
        assert rich[..j + 1] == rich[..j] + [rich[j]];
      }
    }
    assert rich[..|outputs|] == rich;
  }

  /** The last cell of `earlier + [c]` is `c`, and the cells before it are `earlier`. */
  lemma LastCell(earlier: seq<Cell>, c: Cell)
    ensures var cs := earlier + [c];
            |cs| == |earlier| + 1 && cs[..|earlier|] == earlier && cs[|earlier|] == c
  {
  }

  /**
   * The executor node. It takes the last plan entry as the code to run; the
   * completion marker ends the task with no cell and no execution. Otherwise
   * it appends one code cell for that code (after reading `notebook` and
   * `notebook_path`), runs it (`result` is what the kernel executor returns),
   * fills the cell's outputs, saves the notebook (`persistError` is the text
   * of the exception the write raised, if any) and reports the result.
   */
  method CodeExecutorNode(state: AgentState, result: ExecResult, persistError: Option<string>)
    returns (r: Result<StateUpdate, LookupError>)
    modifies if state.notebook.Some? then {state.notebook.value} else {}
    ensures LastPlanEntry(state).Err? ==> r == Err(LastPlanEntry(state).error)
    ensures LastPlanEntry(state) == Ok(FinishMarker) ==>
              r == Ok(StateUpdate(None, None, Some(FinishedMessage), None, None))
    ensures LastPlanEntry(state).Ok? && LastPlanEntry(state).value != FinishMarker ==>
              var code := LastPlanEntry(state).value;
              if state.notebook.None? then r == Err(KeyError("notebook"))
              else
                var nb := state.notebook.value;
                if state.notebookPath.None? then r == Err(KeyError("notebook_path")) && nb.cells == old(nb.cells)
                else if !state.hasKernelExecutor then
                  r == Err(KeyError("kernel_executor")) && nb.cells == old(nb.cells) + [NewCodeCell(code)]
                else
                  nb.cells == old(nb.cells) + [Cell("code", code, CellOutputs(result))] &&
                  r == Ok(StateUpdate(None, Some(code), Some(result.stdout),
                                      Some(ReportedStderr(result, persistError)), Some(nb)))
    ensures (LastPlanEntry(state).Err? || LastPlanEntry(state) == Ok(FinishMarker)) && state.notebook.Some? ==>
              state.notebook.value.cells == old(state.notebook.value.cells)
  {
    var last := LastPlanEntry(state);
    if last.Err? {
      return Err(last.error);
    }
    var code := last.value;
    if code == FinishMarker {
      return Ok(StateUpdate(None, None, Some(FinishedMessage), None, None));
    }
    if state.notebook.None? {
      return Err(KeyError("notebook"));
    }
    var notebook := state.notebook.value;
    if state.notebookPath.None? {
      return Err(KeyError("notebook_path"));
    }
    notebook.AppendCell(NewCodeCell(code));
    if !state.hasKernelExecutor {
      return Err(KeyError("kernel_executor"));
    }
    RecordOutputs(notebook, old(notebook.cells), code, result);
    var stderr := result.stderr;
    if persistError.Some? {
      stderr := stderr + PersistWarningPrefix + persistError.value;
    }
    r := Ok(StateUpdate(None, Some(code), Some(result.stdout), Some(stderr), Some(notebook)));
  }

  /**
   * A failed notebook write never decides the route by itself: the warning
   * text carries no keyword and no notice phrase, so the triage of the
   * reported stderr is that of the result's stderr and the error text.
   */
  lemma PersistWarningIsNeutral(stderr: string, error: string)
    ensures Graph.HasCriticalError(stderr + PersistWarningPrefix + error) <==>
      (forall ph | ph in Graph.IgnorePhrases :: !Contains(stderr, ph) && !Contains(error, ph)) &&
      (exists k | k in Graph.ErrorKeywords :: Contains(ToLower(stderr), k) || Contains(ToLower(error), k))
  {
    PersistPrefixIsLower();
    PersistPrefixSeparates();
    Graph.TriageAcross(stderr, PersistWarningPrefix, error);
  }

  /** The warning has no upper-case letter to fold. */
  lemma PersistPrefixIsLower()
    ensures ToLower(PersistWarningPrefix) == PersistWarningPrefix
  {
  }

  /**
   * No phrase or keyword begins with a character of the warning, and the
   * warning's first character (a line break) occurs in none of them.
   */
  lemma PersistPrefixSeparates()
    ensures forall p | p in Graph.IgnorePhrases + Graph.ErrorKeywords ::
              p[0] !in PersistWarningPrefix && PersistWarningPrefix[0] !in p
  {
  }

  /** On a clean run, a failed write sends the agent to repair only if the error text reads as one. */
  lemma CleanRunWriteFailure(error: string)
    ensures Graph.HasCriticalError("" + PersistWarningPrefix + error) <==> Graph.HasCriticalError(error)
  {
    PersistWarningIsNeutral("", error);
    Graph.CriticalIff(error);
    assert ToLower("") == "";
    assert forall p :: !Contains("", p) || p == "";
  }

  /**
   * The completion marker leaves stderr as the previous execution left it, so
   * that stale stderr decides the edge taken after the executor node: when
   * the last execution failed critically, "FINISH" does not end the run but
   * sends it back to the generator.
   */
  lemma FinishRoutesOnStaleStderr(state: AgentState)
    ensures var after := Apply(state, StateUpdate(None, None, Some(FinishedMessage), None, None));
            Graph.AfterExecutionRouter(after) == Graph.AfterExecutionRouter(state) &&
            (Graph.HasCriticalError(state.stderr.GetOr("")) ==>
               Graph.Successor(Graph.Executor, after) == Ok(Graph.Generator))
  {
    var after := Apply(state, StateUpdate(None, None, Some(FinishedMessage), None, None));
    assert after.stderr == state.stderr;
  }
}
