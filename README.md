# jupyter-llm agent core in Dafny

This project models and proves properties of the core of the jupyter-llm agent. The agent is a LangGraph state machine that:

- plans Python code with a language model;
- runs the code in a Jupyter kernel;
- records the code and its outputs as notebook cells;
- routes on the kernel's stderr, either back to code generation to repair an error or to the end of the run.

Three source files make up the core:

- `src/agent/graph.py`: stderr triage (`has_critical_error`), the two routers and the shape of the compiled graph: its nodes, its edges, the entry point and the interruption after the suggester.
- `src/tools/jupyter_executor.py`: the `JupyterExecutor` class. This covers its staged start-up with clean-up on failure, the IOPub message loop of `execute`, the observation text it returns and the guarded `shutdown`.
- `src/agent/nodes.py`: the planner's "recent notebook cells" context and the prompt it fills, and `code_executor_node`, which appends a code cell, fills its outputs, saves the notebook and reports the result.

Modules:

- `Wrappers`: `Option` and `Result`.
- `Text`: Python's string operations as the source uses them: `in`, `str.lower`, `str.strip` and `sep.join`.
- `State`: the agent state, notebook cells and the `Notebook` object whose cell list is mutated in place.
- `Graph`: models graph.py.
- `Executor`: models jupyter_executor.py.
- `Nodes`: models nodes.py.

## How the model maps the source

- **State keys.** Each key of the agent state is an `Option`. Reading a missing key with `state[k]` is a `KeyError`, modelled as `Err(KeyError(k))`. Reading it with `state.get(k, default)` yields the default.
- **Routing labels.** Labels are strings, and each conditional edge has its path map as a `map<string, Node>`. A label missing from the path map makes LangGraph raise, which is modelled as an `Err`.
- **Graph runs.** The nodes that `graph.py` imports but `nodes.py` does not define (router, suggester, generator) are represented only by the state each one leaves behind. So a run (`Graph.Walk`) is driven by the sequence of states after each node.
- **Kernel messages.** The kernel's IOPub traffic is a finite sequence of messages. `Timeout` stands for a `get_iopub_msg` call that raised. Reaching the end of the sequence counts the same as the next read timing out.
- **The language model** is a function parameter from the filled prompt to the proposed code.
- **Notebook file writes.** The outcome of the write is a parameter: the text of the exception it raised, if any.
- **Triage: notices are matched in the whole text.** `has_critical_error` suppresses every stderr text that contains an ignore phrase anywhere. Filtering per line, so that a notice would hide only its own line, may have been the design intent, but nothing in the code does it. The model follows the code, and `Graph.NoticeMasksTraceback` shows the consequence: a real traceback is ignored when a pip notice is printed beside it.

The source files do not fit together as written, and the model takes each file on its own terms:

- **Missing node functions.** `graph.py` imports `router_node`, `option_suggester_node` and `code_generator_node`, which `nodes.py` does not define.
- **The executor argument.** `graph.py` binds the executor as an `executor=` keyword that `code_executor_node` does not accept. The node instead reads `state['kernel_executor']`, a key that the state type `src/agent/state.py` does not declare (it is commented out at line 19).
- **Undeclared state keys.** The router's edge reads `destination` (src/agent/graph.py:87), which `AgentState` does not declare either. LangGraph keeps only the keys a state type declares, so as written both `destination` and `kernel_executor` would be dropped. The router's edge would then always read `None` and fail, and `code_executor_node` would always raise `KeyError('kernel_executor')` after appending its cell. The model instead assumes both keys reach the code that reads them: they are the ordinary fields `State.AgentState.destination` and `State.AgentState.hasKernelExecutor`. `Graph.SimpleTaskSkipsSuggester`, `Graph.ComplexTaskSuspends` and the success path of `Nodes.CodeExecutorNode` rest on this assumption. The dropping path is covered only in part: `Graph.Successor` and `Graph.WalkStops` handle a missing `destination`, and `Nodes.CodeExecutorNode` handles a missing `kernel_executor`.
- **The execution result's shape.** `code_executor_node` indexes its execution result as a dictionary with `stdout`, `stderr` and `outputs` entries, but `JupyterExecutor.execute` returns a string. The node is modelled against the dictionary it reads (`Nodes.ExecResult`). The executor is modelled against the string it returns.

## Model

Some definitions that transcribe the source are not listed as rows of their own. The rows of the lemmas that characterise them stand for them:
- `Graph.HasCriticalError` (src/agent/graph.py:9-34): `Graph.CriticalIff`, `Graph.TriageAcross` and the triage examples.
- `Executor.Accumulate` and `Executor.Reply` (src/tools/jupyter_executor.py:81-120): `Executor.ReadReply`, `Executor.StopIndex`, `Executor.AccumulateConcat`, `Executor.PieceInPlace` and `Executor.StderrEmptyIff`.
- `Executor.Observation` (src/tools/jupyter_executor.py:122-127): `Executor.ErrorHeaderShown`, `Executor.StderrTextShown`, `Executor.StdoutTextShown` and `Executor.CleanRunHasNoStderrSection`.
- `Nodes.RecentContext` and `Nodes.CodeEntries` (src/agent/nodes.py:24-35): `Nodes.RecentCellsContext`, `Nodes.ContextEmptyIff`, `Nodes.ContextShowsRecentCode` and `Nodes.OlderCellsIgnored`.
- `Graph.Invoke` and `Graph.Resume` (src/agent/graph.py:82, 118-121): `Graph.SimpleTaskSkipsSuggester`, `Graph.ComplexTaskSuspends`, `Graph.RepairLoopUnbounded` and `Graph.ResumeTakesSuggesterEdge`.
- `State.Apply`, LangGraph's merge of a node's update: `Nodes.FinishRoutesOnStaleStderr`.

| member | source | states |
|---|---|---|
| Graph.CriticalIff | src/agent/graph.py:9-34 | stderr is critical iff it is non-empty, contains neither ignore phrase (case-sensitive) and, at some position, matches one of the five keywords ignoring ASCII case |
| Graph.NoticeWins | src/agent/graph.py:17-23 | any text containing "[notice]" or the pip release notice is never critical, whatever else it contains |
| Graph.KeywordInAnyCase | src/agent/graph.py:25-32 | a text containing a keyword in any letter case and no ignore phrase is critical |
| Graph.TriageAcross | src/agent/graph.py:9-34 | triage of `a + q + b`, where the separator `q` is one that no phrase or keyword can start in or run across, is decided by the phrases and keywords of `a` and `b` alone |
| Graph.NameErrorIsCritical | src/agent/graph.py:26-32 | the stderr line of an undefined-name error is critical ("error" matched case-insensitively inside "NameError") |
| Graph.PipNoticeIsBenign | src/agent/graph.py:18-23 | the pip upgrade notice alone is not critical |
| Graph.NoticeMasksTraceback | src/agent/graph.py:22-23 | a traceback followed by a "[notice]" line is not critical |
| Graph.AfterExecutionRouter | src/agent/graph.py:37-52 | the returned branch is in the executor's path map; it leads to the generator iff stderr (default "") is critical and to the end otherwise; a missing stderr always ends |
| Graph.ShouldContinue | src/agent/graph.py:54-64 | KeyError without a plan, and IndexError on an empty plan; otherwise "end" exactly when the last plan entry is "FINISH", else "continue" |
| Graph.Successor | src/agent/graph.py:82-108 | no edge leads back to the router; only the executor can reach the end; the router fails exactly when `destination` is missing or names no branch, and otherwise goes where its path map sends that destination ("simple_task" to the generator, "complex_task" to the suggester) |
| Graph.SuccessorFollowsEdges | src/agent/graph.py:85-108 | every step taken is one of the six declared edges |
| Graph.EveryEdgeTaken | src/agent/graph.py:85-108 | every declared edge is taken from some state |
| Graph.ResumeTakesSuggesterEdge | src/agent/graph.py:95 | after the suggester the graph always continues with the generator |
| Graph.Walk | src/agent/graph.py:66-122 | a run visits at most one node per state, starts where it is started, never counts the end as a visited node, and is empty only without states |
| Graph.WalkFollowsEdges | src/agent/graph.py:82-108 | consecutive visited nodes are joined by declared edges |
| Graph.WalkStops | src/agent/graph.py:101-121 | a finished run stops at the executor with non-critical stderr; a suspended one at the suggester (`interrupt_after`); a failed one at the router with an unmapped destination |
| Graph.RouterRunsFirstOnly | src/agent/graph.py:82-112 | the router can only be the first node of a run |
| Graph.RepairLoop | src/agent/graph.py:98-108 | from the generator a run alternates generator and executor, and each executor step it leaves did so because stderr was critical; it can only finish or run out of states |
| Graph.RoundRepairs | src/agent/graph.py:98-108 | when the executor leaves a critical stderr, the run from the generator visits the generator and the executor and then continues exactly as a fresh run from the generator on the remaining states |
| Graph.RoundEnds | src/agent/graph.py:98-108 | when the executor leaves a stderr that is not critical, the run from the generator is exactly generator, executor, and it finishes at END |
| Graph.SimpleTaskSkipsSuggester | src/agent/graph.py:85-92 | a "simple_task" run never visits the suggester, never suspends and never fails |
| Graph.ComplexTaskSuspends | src/agent/graph.py:85-121 | a "complex_task" run visits the router and the suggester, then suspends |
| Graph.RepairLoopUnbounded | src/agent/graph.py:98-108 | a kernel that keeps reporting a critical error keeps the generator/executor loop going for any number of rounds |
| State.NewCodeCell | src/agent/nodes.py:93 | a new cell is a code cell with the given source and no outputs |
| State.Notebook.AppendCell | src/agent/nodes.py:94 | appending puts the cell last and keeps every earlier cell |
| State.Notebook.AppendOutputToLast | src/agent/nodes.py:107 | appending an output changes only the last cell, and only its outputs, by one at the end |
| State.LastPlanEntry | src/agent/nodes.py:83 | KeyError without a plan, IndexError on an empty plan, else the last entry |
| Executor.StopIndex | src/tools/jupyter_executor.py:95-97 | the first idle status or failed read, and no stopping message before it |
| Executor.ReadReply | src/tools/jupyter_executor.py:81-120 | the loop's stdout and stderr equal the accumulation of the messages read before the first idle status or failed read |
| Executor.AccumulateConcat | src/tools/jupyter_executor.py:99-117 | the accumulators distribute over consecutive batches of messages, in order |
| Executor.LaterMessagesIgnored | src/tools/jupyter_executor.py:95-97 | nothing after the idle status affects the reply |
| Executor.TimeoutLooksLikeIdle | src/tools/jupyter_executor.py:119-120 | a read that raises ends the loop exactly as idle does |
| Executor.StderrEmptyIff | src/tools/jupyter_executor.py:99-117 | stderr stays empty iff every message read contributes nothing to it (no non-stdout stream text, no error report) |
| Executor.PieceInPlace | src/tools/jupyter_executor.py:99-117 | each message read contributes its piece to both accumulators, between the earlier and later pieces |
| Executor.ErrorRecorded | src/tools/jupyter_executor.py:112-117 | an error message read before the stop appears in stderr as "ename: evalue" followed by a line break, directly after whatever stderr held before |
| Executor.ErrorHeaderShown | src/tools/jupyter_executor.py:122-127 | a non-empty stderr always brings the "--- STDERR --- (Error Occurred)" header into the observation |
| Executor.StderrTextShown | src/tools/jupyter_executor.py:122-127 | text in stderr with non-space ends survives the strip into the observation |
| Executor.StdoutTextShown | src/tools/jupyter_executor.py:122-127 | text in stdout with non-space ends survives the strip into the observation |
| Executor.PrintedTextShown | src/tools/test.py:28-32 | what the code prints to stdout before the kernel goes idle shows in the observation |
| Executor.CleanRunHasNoStderrSection | src/tools/test.py:32-33 | with empty stderr, "STDERR" appears in the observation only if the program printed it |
| Executor.ErrorNameShown | src/tools/test.py:44-49 | a raised error leaves its name and the stderr header in the observation |
| Executor.JupyterExecutor.constructor | src/tools/jupyter_executor.py:8-36 | a clean start leaves manager, live kernel, client and open channels, with only the initial notebook code sent; a failure at any stage re-raises it after stopping the channels and the kernel exactly when they were started |
| Executor.JupyterExecutor.Execute | src/tools/jupyter_executor.py:64-127 | a dead kernel yields "Kernel is not running." and sends nothing; otherwise the code is sent once and the observation is the formatted reply |
| Executor.JupyterExecutor.Shutdown | src/tools/jupyter_executor.py:129-139 | channels are stopped only if a client exists with channels running, and the kernel only if a manager exists with the kernel alive; each at most once per call |
| Text.Strip | src/tools/jupyter_executor.py:127 | the stripped observation is empty or starts and ends with a non-whitespace character |
| Text.StripKeepsOccurrence | src/tools/jupyter_executor.py:127 | stripping keeps every occurrence of a text with non-space ends |
| Text.JoinHasPart | src/agent/nodes.py:35 | every joined entry occurs in the joined context |
| Nodes.LastCells | src/agent/nodes.py:28-29 | the recent cells are the last min(3, n) cells |
| Nodes.RecentCellsContext | src/agent/nodes.py:23-35 | the loop builds the context of the notebook's last three cells; no notebook gives "" |
| Nodes.ContextEmptyIff | src/agent/nodes.py:26-35 | the context is empty iff none of the last three cells is a code cell |
| Nodes.ContextShowsRecentCode | src/agent/nodes.py:29-35 | each of the last three cells that is a code cell appears in the context under its heading |
| Nodes.OlderCellsIgnored | src/agent/nodes.py:29 | cells older than the last three never affect the context |
| Nodes.PlannerNode | src/agent/nodes.py:18-76 | KeyError at the first missing key among task, executed_code, stdout and stderr; otherwise the update is exactly a one-entry plan holding the model's code for the filled prompt |
| Nodes.RichOutput | src/agent/nodes.py:112-118 | a rich output takes the message type, data and metadata of its content, defaulting to "display_data" and empty maps |
| Nodes.CellOutputs | src/agent/nodes.py:100-127 | the cell's outputs are the stdout stream if non-empty, then one rich output per result output in order, then the stderr stream if non-empty |
| Nodes.StreamsBracketRichOutputs | src/agent/nodes.py:100-127 | the only stream outputs are stdout (first) and stderr (last), carrying the result's texts |
| Nodes.ReportedStderr | src/agent/nodes.py:138-142 | a failed save appends the Korean warning and the exception text to stderr |
| Nodes.RecordOutputs | src/agent/nodes.py:99-126 | the freshly appended code cell ends up holding exactly the outputs of the result (stdout stream, rich outputs in order, stderr stream), and every earlier cell is unchanged |
| Nodes.AppendRichOutputs | src/agent/nodes.py:108-117 | appending the rich outputs one by one adds exactly their converted forms, in order, after the outputs the last cell already had, and leaves every earlier cell unchanged |
| Nodes.CodeExecutorNode | src/agent/nodes.py:79-150 | plan errors and "FINISH" leave the notebook untouched; otherwise the KeyErrors come in source order (the cell is already appended when kernel_executor is missing), and success appends exactly one code cell with the outputs above and reports code, stdout, stderr and notebook |
| Nodes.PersistWarningIsNeutral | src/agent/nodes.py:141-142 | the save warning never adds a keyword or a notice: triage of the reported stderr is decided by the result's stderr and the exception text |
| Nodes.CleanRunWriteFailure | src/agent/nodes.py:141-142 | on a clean run, a failed save routes to repair iff the exception text itself is critical |
| Nodes.FinishRoutesOnStaleStderr | src/agent/nodes.py:85-86 | after "FINISH" the executor router still sees the previous stderr, so when the last execution failed critically the edge after the executor goes back to the generator and "FINISH" does not end the run |

## Left out

- Language-model calls: the prompt template text, the structured output and the model itself. The model is a function parameter, so `Nodes.PlannerNode` states what is asked of it, not what it answers.
- The kernel process, `jupyter_client` and its channels. The `timeout` arguments become the `Timeout` message, and `is_alive` is the `kernelAlive` field.
- `JupyterExecutor._create_initial_notebook`. Its generated nbformat code is an opaque string that the constructor sends through `execute`.
- Executor.JupyterExecutor.constructor: a failure while the initial notebook is being created is assumed to happen before its code is sent, and the reply to that code is not modelled.
- Executor.ReadReply: a missing key in a message makes the loop stop before that message appends anything, which is what the `Timeout` message models. The one failure part-way through a message is not modelled: joining an error's `traceback` (src/tools/jupyter_executor.py:117) raises a `TypeError` when the traceback is `None` or holds a non-string, after the "ename: evalue" line has already been appended. The model treats every traceback as a list of strings.
- Nodes.RichOutput: every rich output is assumed to have a message type that nbformat accepts ("display_data" or "execute_result"). nbformat's `new_output` checks the output it builds against the notebook schema, and that library is not part of this model. For any other message type the source would raise inside `code_executor_node` after the code cell, and possibly its stdout stream, were already appended. The model builds the output and succeeds.
- Nodes.CodeExecutorNode: the save itself is not modelled. That covers nbformat serialisation and the file write, and only the exception text that the write may raise is a parameter.
- The `AgentState` merge that LangGraph performs between nodes is modelled only as field replacement (`State.Apply`). `MemorySaver` checkpointing and the recursion limit are left out, and a run is bounded by the length of its state sequence.
- `str.lower` is modelled for ASCII letters and the Kelvin sign. No other Unicode case mapping can create or remove a match of the ASCII keywords.
- `src/main.py`, `src/llm_cli.py` and the test scripts are not part of this model beyond the assertions cited above. They hold the CLI, `input`/`print`, environment loading and reading the notebook file. The console `print` calls inside the core files are left out as well, because they only log (src/agent/graph.py:42, 45; src/tools/jupyter_executor.py:16, 25, 29, 33, 62, 135, 139).
- The router, suggester and generator nodes are not defined in `nodes.py`. They appear only through the state each leaves behind.
