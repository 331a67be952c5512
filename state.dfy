/**
 * The record threaded between the agent's graph nodes (`AgentState`), the
 * partial updates a node returns, and the notebook the executor node writes.
 */
module State {
  import opened Wrappers

  /** One output of a notebook code cell: a named text stream or a rich display. */
  datatype Output =
    | Stream(name: string, text: string)
    | Rich(outputType: string, data: map<string, string>, metadata: map<string, string>)

  /** A notebook cell: its `cell_type`, its `source` and its `outputs`. */
  datatype Cell = Cell(cellType: string, source: string, outputs: seq<Output>)

  /** A code cell as `new_code_cell(source)` makes it: no outputs yet. */
  function NewCodeCell(source: string): (c: Cell)
    ensures c.cellType == "code" && c.source == source && c.outputs == []
  {
    Cell("code", source, [])
  }

  /**
   * The in-memory notebook. Nodes share it by reference through the state and
   * append to its cell list in place.
   */
  class Notebook {
    var cells: seq<Cell>

    constructor (cells: seq<Cell>)
      ensures this.cells == cells
    {
      this.cells := cells;
    }

    /** `notebook.cells.append(cell)`. */
    method AppendCell(c: Cell)
      modifies this
      ensures cells == old(cells) + [c]
    {
      cells := cells + [c];
    }

    /**
     * `cell.outputs.append(output)` on the cell object last appended to the
     * notebook: the last cell gains `o` at the end of its outputs, and every
     * other cell is left as it was.
     */
    method AppendOutputToLast(o: Output)
      requires cells != []
      modifies this
      ensures var n := |old(cells)| - 1;
              cells == old(cells)[..n] + [old(cells)[n].(outputs := old(cells)[n].outputs + [o])]
    {
      var last := cells[|cells| - 1];
      cells := cells[..|cells| - 1] + [last.(outputs := last.outputs + [o])];
    }
  }

  /**
   * Python's KeyError and IndexError, raised when a node reads a key the
   * state does not hold or the last element of an empty list.
   */
  datatype LookupError = KeyError(key: string) | IndexError

  /**
   * The state dictionary. Every key may be absent (a node reads it with
   * `state[key]`, which raises, or with `state.get(key)`), hence `Option`.
   * `destination` and `kernel_executor` are read by the graph and the executor
   * node although `AgentState` does not declare them; the executor itself is
   * not modelled, only whether the key is there.
   */
  datatype AgentState = AgentState(
    task: Option<string>,
    plan: Option<seq<string>>,
    executedCode: Option<string>,
    stdout: Option<string>,
    stderr: Option<string>,
    notebookPath: Option<string>,
    notebook: Option<Notebook>,
    history: Option<seq<string>>,
    suggestedOptions: Option<seq<string>>,
    destination: Option<string>,
    hasKernelExecutor: bool)

  /** The keys a node returns; the graph overwrites exactly these in the state. */
  datatype StateUpdate = StateUpdate(
    plan: Option<seq<string>>,
    executedCode: Option<string>,
    stdout: Option<string>,
    stderr: Option<string>,
    notebook: Option<Notebook>)

  /** The state after a node's update: the keys it returns replace the old values. */
  function Apply(s: AgentState, u: StateUpdate): AgentState {
    s.(plan := if u.plan.Some? then u.plan else s.plan,
       executedCode := if u.executedCode.Some? then u.executedCode else s.executedCode,
       stdout := if u.stdout.Some? then u.stdout else s.stdout,
       stderr := if u.stderr.Some? then u.stderr else s.stderr,
       notebook := if u.notebook.Some? then u.notebook else s.notebook)
  }

  /** `state["plan"][-1]`. */
  function LastPlanEntry(s: AgentState): (r: Result<string, LookupError>)
    ensures r == Err(KeyError("plan")) <==> s.plan.None?
    ensures r == Err(IndexError) <==> s.plan == Some([])
    ensures r.Ok? <==> s.plan.Some? && |s.plan.value| > 0
    ensures r.Ok? ==> r.value == s.plan.value[|s.plan.value| - 1]
  {
    match s.plan
    case None => Err(KeyError("plan"))
    case Some(p) => if |p| == 0 then Err(IndexError) else Ok(p[|p| - 1])
  }
}
