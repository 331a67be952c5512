/**
 * The agent's control graph: the stderr triage that decides whether the last
 * execution needs a repair, the edge functions, and the node/edge structure
 * that the workflow builder wires (router, suggester, generator, executor,
 * END), with a run of the compiled graph over the states its nodes produce.
 */
module Graph {
  import opened Wrappers
  import opened Text
  import opened State

  // ---------------------------------------------------------------------
  // Error triage
  // ---------------------------------------------------------------------

  /** Phrases whose presence anywhere in stderr marks it as a harmless notice. */
  const IgnorePhrases: seq<string> := ["[notice]", "A new release of pip is available"]

  /** Words that, in any letter case, mark stderr as a real error. */
  const ErrorKeywords: seq<string> := ["error", "traceback", "exception", "failed", "invalid"]

  /**
   * Whether stderr reports an error that needs fixing: empty stderr never
   * does; a notice phrase anywhere (matched case-sensitively) wins over any
   * keyword; otherwise a keyword in the lower-cased text decides.
   */
  predicate HasCriticalError(stderr: string) {
    if stderr == "" then false
    else if exists ph | ph in IgnorePhrases :: Contains(stderr, ph) then false
    else exists k | k in ErrorKeywords :: Contains(ToLower(stderr), k)
  }

  /** `k` occurs at `i` in `s` when letter case is ignored. */
  predicate MatchesIgnoringCase(s: string, k: string, i: int) {
    0 <= i && i + |k| <= |s| && forall j :: 0 <= j < |k| ==> LowerChar(s[i + j]) == k[j]
  }

  lemma LowerOccurrence(s: string, k: string, i: int)
    ensures OccursAt(ToLower(s), k, i) <==> MatchesIgnoringCase(s, k, i)
  {
    var t := ToLower(s);
    if MatchesIgnoringCase(s, k, i) {
      assert forall j :: 0 <= j < |k| ==> t[i..i + |k|][j] == k[j];
    }
    if OccursAt(t, k, i) {
      forall j | 0 <= j < |k|
        ensures LowerChar(s[i + j]) == k[j]
      {
        assert t[i..i + |k|][j] == k[j];
      }
    }
  }

  /**
   * Position-wise statement of the triage: stderr is critical exactly when it
   * is non-empty, no notice phrase occurs in it at any position, and some
   * keyword occurs at some position once letter case is ignored.
   */
  lemma CriticalIff(stderr: string)
    ensures HasCriticalError(stderr) <==>
      stderr != "" &&
      (forall ph, i :: ph in IgnorePhrases ==> !OccursAt(stderr, ph, i)) &&
      (exists k, i :: k in ErrorKeywords && MatchesIgnoringCase(stderr, k, i))
  {
    var noNotice := forall ph, i :: ph in IgnorePhrases ==> !OccursAt(stderr, ph, i);
    assert noNotice <==> !exists ph | ph in IgnorePhrases :: Contains(stderr, ph);
    if exists k, i :: k in ErrorKeywords && MatchesIgnoringCase(stderr, k, i) {
      var k, i :| k in ErrorKeywords && MatchesIgnoringCase(stderr, k, i);
      LowerOccurrence(stderr, k, i);
      assert Contains(ToLower(stderr), k);
    }
    if exists k | k in ErrorKeywords :: Contains(ToLower(stderr), k) {
      var k :| k in ErrorKeywords && Contains(ToLower(stderr), k);
      var i :| 0 <= i <= |ToLower(stderr)| - |k| && OccursAt(ToLower(stderr), k, i);
      LowerOccurrence(stderr, k, i);
    }
  }

  lemma ToLowerConcat(a: string, b: string)
    ensures ToLower(a + b) == ToLower(a) + ToLower(b)
  {
  }

  /**
   * A notice phrase anywhere in stderr makes it benign, whatever error
   * keywords surround it.
   */
  lemma NoticeWins(a: string, ph: string, b: string)
    requires ph in IgnorePhrases
    ensures !HasCriticalError(a + ph + b)
  {
    var s := a + ph + b;
    assert s[|a|..|a| + |ph|] == ph;
    assert OccursAt(s, ph, |a|);
  }

  /**
   * Without a notice phrase, a word that lower-cases to an error keyword
   * makes stderr critical, whatever its letter case ("NameError" holds
   * "Error").
   */
  lemma KeywordInAnyCase(a: string, w: string, b: string)
    requires ToLower(w) in ErrorKeywords
    requires forall ph | ph in IgnorePhrases :: !Contains(a + w + b, ph)
    ensures HasCriticalError(a + w + b)
  {
    var s := a + w + b;
    ToLowerConcat(a + w, b);
    ToLowerConcat(a, w);
    var t := ToLower(s);
    assert t == ToLower(a) + ToLower(w) + ToLower(b);
    assert t[|a|..|a| + |w|] == ToLower(w);
    assert OccursAt(t, ToLower(w), |a|);
  }

  /**
   * An occurrence of `p` in `a + q + b` lies within `a` or within `b` when `p`
   * cannot start inside `q` and cannot cover the first character of `q`.
   */
  lemma {:induction false} OccurrenceAvoids(a: string, q: string, b: string, p: string)
    requires p != [] && q != [] && p[0] !in q && q[0] !in p
    requires Contains(a + q + b, p)
    ensures Contains(a, p) || Contains(b, p)
  {
    var s := a + q + b;
    var i :| 0 <= i <= |s| - |p| && OccursAt(s, p, i);
    assert forall j :: 0 <= j < |p| ==> p[j] == s[i + j];
    assert s[|a|] == q[0];
    assert i < |a| + |q| ==> s[i] == p[0];
    assert i + |p| <= |a| || i >= |a| + |q|;
    if i + |p| <= |a| {
      assert a[i..i + |p|] == s[i..i + |p|];
      assert OccursAt(a, p, i);
    } else {
      assert b[i - |a| - |q|..i - |a| - |q| + |p|] == s[i..i + |p|];
      assert OccursAt(b, p, i - |a| - |q|);
    }
  }

  lemma ContainsEitherSide(a: string, q: string, b: string, p: string)
    requires Contains(a, p) || Contains(b, p)
    ensures Contains(a + q + b, p)
  {
    if Contains(a, p) {
      ContainsInMiddle("", a, q + b, p);
      assert "" + a + (q + b) == a + q + b;
    } else {
      ContainsInMiddle(a + q, b, "", p);
      assert a + q + b + "" == a + q + b;
    }
  }

  /**
   * Triage of a text with a separator `q` in its middle that no phrase or
   * keyword can begin in, nor run across: the phrases and keywords on either
   * side decide.
   */
  lemma TriageAcross(a: string, q: string, b: string)
    requires q != [] && ToLower(q) == q
    requires forall p | p in IgnorePhrases + ErrorKeywords :: p[0] !in q && q[0] !in p
    ensures HasCriticalError(a + q + b) <==>
      (forall ph | ph in IgnorePhrases :: !Contains(a, ph) && !Contains(b, ph)) &&
      (exists k | k in ErrorKeywords :: Contains(ToLower(a), k) || Contains(ToLower(b), k))
  {
    var s := a + q + b;
    assert s != "";
    forall ph | ph in IgnorePhrases
      ensures Contains(s, ph) <==> Contains(a, ph) || Contains(b, ph)
    {
      assert ph in IgnorePhrases + ErrorKeywords;
      if Contains(s, ph) {
        OccurrenceAvoids(a, q, b, ph);
      } else if Contains(a, ph) || Contains(b, ph) {
        ContainsEitherSide(a, q, b, ph);
      }
    }
    ToLowerConcat(a + q, b);
    ToLowerConcat(a, q);
    assert ToLower(s) == ToLower(a) + q + ToLower(b);
    forall k | k in ErrorKeywords
      ensures Contains(ToLower(s), k) <==> Contains(ToLower(a), k) || Contains(ToLower(b), k)
    {
      assert k in IgnorePhrases + ErrorKeywords;
      if Contains(ToLower(s), k) {
        OccurrenceAvoids(ToLower(a), q, ToLower(b), k);
      } else if Contains(ToLower(a), k) || Contains(ToLower(b), k) {
        ContainsEitherSide(ToLower(a), q, ToLower(b), k);
      }
    }
  }

  /** What Python prints for an undefined name. */
  const NameErrorText: string := "NameError: name 'x' is not defined"

  lemma NameErrorTextHasNoBracket()
    ensures !Contains(NameErrorText, IgnorePhrases[0])
  {
    MissingCharRulesOut(NameErrorText, "[notice]", 0);
  }

  lemma NameErrorTextHasNoCapitalA()
    ensures !Contains(NameErrorText, IgnorePhrases[1])
  {
    MissingCharRulesOut(NameErrorText, "A new release of pip is available", 0);
  }

  /** The Python error of an undefined name is critical. */
  lemma NameErrorIsCritical()
    ensures HasCriticalError(NameErrorText)
  {
    assert NameErrorText == "Name" + "Error" + ": name 'x' is not defined";
    assert ToLower("Error") == "error";
    NameErrorTextHasNoBracket();
    NameErrorTextHasNoCapitalA();
    KeywordInAnyCase("Name", "Error", ": name 'x' is not defined");
  }

  /** pip's upgrade notice is not critical. */
  lemma PipNoticeIsBenign()
    ensures !HasCriticalError("[notice] A new release of pip is available")
  {
    var rest := " A new release of pip is available";
    assert "[notice] A new release of pip is available" == "[notice]" + rest;
    NoticeWins("", "[notice]", rest);
    assert "" + "[notice]" + rest == "[notice]" + rest;
  }

  /**
   * A notice phrase hides a genuine traceback printed in the same stderr:
   * the phrase is looked for in the whole text, not line by line.
   */
  lemma NoticeMasksTraceback()
    ensures !HasCriticalError("Traceback (most recent call last):\nImportError: no module\n[notice] done")
  {
    var s := "Traceback (most recent call last):\nImportError: no module\n";
    assert s + "[notice]" + " done" == "Traceback (most recent call last):\nImportError: no module\n[notice] done";
    NoticeWins(s, "[notice]", " done");
  }

  // ---------------------------------------------------------------------
  // Nodes and edges
  // ---------------------------------------------------------------------

  datatype Node = Router | Suggester | Generator | Executor | End

  /** The node every run of the graph starts from. */
  const Entry: Node := Router

  /** The nodes after which the compiled graph suspends. */
  const InterruptAfter: set<Node> := {Suggester}

  /** Where the router's `destination` leads. */
  const RouterBranches: map<string, Node> := map["simple_task" := Generator, "complex_task" := Suggester]

  /** Where the label chosen after an execution leads. */
  const ExecutorBranches: map<string, Node> := map["fix_error" := Generator, "end" := End]

  /**
   * The label taken after the executor node: "fix_error" exactly when the
   * recorded stderr (empty when the key is absent) is critical, else "end".
   */
  function AfterExecutionRouter(s: AgentState): (branch: string)
    ensures branch in ExecutorBranches
    ensures ExecutorBranches[branch] == Generator <==> HasCriticalError(s.stderr.GetOr(""))
    ensures ExecutorBranches[branch] == End <==> !HasCriticalError(s.stderr.GetOr(""))
    ensures s.stderr.None? ==> branch == "end"
  {
    if HasCriticalError(s.stderr.GetOr("")) then "fix_error" else "end"
  }

  /**
   * "end" when the last plan entry is the completion marker "FINISH",
   * "continue" otherwise; a missing or empty plan raises.
   */
  function ShouldContinue(s: AgentState): (r: Result<string, LookupError>)
    ensures r.Ok? <==> s.plan.Some? && |s.plan.value| > 0
    ensures s.plan.None? ==> r == Err(KeyError("plan"))
    ensures s.plan == Some([]) ==> r == Err(IndexError)
    ensures r.Ok? ==> r.value in {"end", "continue"}
    ensures r.Ok? ==> (r.value == "end" <==> s.plan.value[|s.plan.value| - 1] == "FINISH")
  {
    match LastPlanEntry(s)
    case Err(e) => Err(e)
    case Ok(last) => if last == "FINISH" then Ok("end") else Ok("continue")
  }

  /**
   * The node that follows `n` once `n` has produced state `s`. The router's
   * edge fails (`Err` carrying the unmatched `destination`) when the state's
   * destination names no branch.
   */
  function Successor(n: Node, s: AgentState): (r: Result<Node, Option<string>>)
    requires n != End
    ensures r.Ok? ==> r.value != Router
    ensures r == Ok(End) ==> n == Executor
    ensures r.Err? ==> n == Router
    ensures n == Router ==>
              (r.Err? <==> s.destination.None? || s.destination.value !in RouterBranches)
    ensures n == Router && r.Ok? ==> r.value == RouterBranches[s.destination.value]
  {
    match n
    case Router =>
      if s.destination.Some? && s.destination.value in RouterBranches
      then Ok(RouterBranches[s.destination.value]) else Err(s.destination)
    case Suggester => Ok(Generator)
    case Generator => Ok(Executor)
    case Executor => Ok(ExecutorBranches[AfterExecutionRouter(s)])
  }

  /** Every edge the builder adds, conditional or not. */
  const Edges: set<(Node, Node)> :=
    {(Router, Generator), (Router, Suggester), (Suggester, Generator),
     (Generator, Executor), (Executor, Generator), (Executor, End)}

  /** A state with every key absent except `destination` and `stderr`. */
  function StateWith(destination: Option<string>, stderr: Option<string>): (s: AgentState)
    ensures s.destination == destination && s.stderr == stderr
  {
    AgentState(None, None, None, None, stderr, None, None, None, None, destination, false)
  }

  /** Every step of the graph follows one of its edges. */
  lemma SuccessorFollowsEdges(n: Node, s: AgentState)
    requires n != End && Successor(n, s).Ok?
    ensures (n, Successor(n, s).value) in Edges
  {
  }

  /** And every edge is taken from some state. */
  lemma EveryEdgeTaken(a: Node, b: Node)
    requires (a, b) in Edges
    ensures a != End && exists s :: Successor(a, s) == Ok(b)
  {
    var benign := StateWith(None, None);
    if (a, b) == (Router, Generator) {
      assert Successor(a, StateWith(Some("simple_task"), None)) == Ok(b);
    } else if (a, b) == (Router, Suggester) {
      assert Successor(a, StateWith(Some("complex_task"), None)) == Ok(b);
    } else if (a, b) == (Executor, Generator) {
      var crash := StateWith(None, Some(NameErrorText));
      NameErrorIsCritical();
      assert Successor(a, crash) == Ok(b);
    } else {
      assert Successor(a, benign) == Ok(b);
    }
  }

  // ---------------------------------------------------------------------
  // Runs of the compiled graph
  // ---------------------------------------------------------------------

  /** How a run stops. */
  datatype Status =
    | Finished    // reached END
    | Suspended   // halted after an interrupt node, waiting to be resumed
    | Failed      // a conditional edge returned a label with no branch
    | Incomplete  // the observed node results ran out first

  /** The nodes that ran, in order, and how the run stopped. */
  datatype Run = Run(visited: seq<Node>, status: Status)

  /**
   * The run that starts at node `n` when the i-th node to run leaves the
   * state `states[i]` behind (the nodes' own work, model calls included, is
   * not modelled: its results are the input).
   */
  function Walk(n: Node, states: seq<AgentState>): (r: Run)
    requires n != End
    ensures |r.visited| <= |states|
    ensures r.visited != [] ==> r.visited[0] == n
    ensures r.visited == [] <==> states == []
    ensures End !in r.visited
    decreases |states|
  {
    if |states| == 0 then Run([], Incomplete)
    else if n in InterruptAfter then Run([n], Suspended)
    else match Successor(n, states[0])
      case Err(_) => Run([n], Failed)
      case Ok(m) =>
        if m == End then Run([n], Finished)
        else
          var rest := Walk(m, states[1..]);
          Run([n] + rest.visited, rest.status)
  }

  /** A new task enters at the entry node. */
  function Invoke(states: seq<AgentState>): Run {
    Walk(Entry, states)
  }

  /** Resuming a run suspended after the suggester takes the suggester's edge. */
  function Resume(states: seq<AgentState>): Run {
    Walk(Generator, states)
  }

  lemma ResumeTakesSuggesterEdge(s: AgentState)
    ensures Successor(Suggester, s) == Ok(Generator)
  {
  }

  /** Consecutive nodes of `v` are joined by an edge of the graph. */
  ghost predicate FollowsEdges(v: seq<Node>) {
    forall i :: 0 <= i < |v| - 1 ==> (v[i], v[i + 1]) in Edges
  }

  /** Consecutive nodes of a run are joined by an edge of the graph. */
  lemma {:induction false} WalkFollowsEdges(n: Node, states: seq<AgentState>)
    requires n != End
    ensures FollowsEdges(Walk(n, states).visited)
    decreases |states|
  {
    var r := Walk(n, states);
    if |states| > 0 && n !in InterruptAfter && Successor(n, states[0]).Ok? {
      var m := Successor(n, states[0]).value;
      if m != End {
        WalkFollowsEdges(m, states[1..]);
        SuccessorFollowsEdges(n, states[0]);
        var rest := Walk(m, states[1..]).visited;
        assert r.visited == [n] + rest;
        forall i | 0 <= i < |r.visited| - 1
          ensures (r.visited[i], r.visited[i + 1]) in Edges
        {
          if i > 0 {
            assert r.visited[i] == rest[i - 1] && r.visited[i + 1] == rest[i];
            assert FollowsEdges(rest);
          } else {
            assert r.visited[1] == rest[0] == m;
          }
        }
      }
    }
  }

  /**
   * How each run stops: END is reached only from the executor, and only when
   * the stderr it left is not critical; a run suspends only after the
   * suggester; only the router's edge can fail, and then on a destination
   * with no branch.
   */
  lemma {:induction false} WalkStops(n: Node, states: seq<AgentState>)
    requires n != End
    ensures var r := Walk(n, states);
            var v := r.visited;
            var last := |v| - 1;
            (r.status == Finished ==>
               v[last] == Executor && !HasCriticalError(states[last].stderr.GetOr(""))) &&
            (r.status == Suspended ==> v[last] == Suggester) &&
            (r.status == Failed ==>
               v[last] == Router &&
               (states[last].destination.None? || states[last].destination.value !in RouterBranches)) &&
            (r.status == Incomplete ==> |v| == |states|)
    decreases |states|
  {
    var r := Walk(n, states);
    if |states| > 0 && n !in InterruptAfter && Successor(n, states[0]).Ok? {
      var m := Successor(n, states[0]).value;
      if m != End {
        WalkStops(m, states[1..]);
        var rest := Walk(m, states[1..]);
        assert r.visited == [n] + rest.visited;
        assert forall i :: 0 <= i < |rest.visited| ==> states[1..][i] == states[i + 1];
      }
    }
  }

  /** No edge leads back to the router, so it runs only first. */
  lemma {:induction false} RouterRunsFirstOnly(n: Node, states: seq<AgentState>)
    requires n != End
    ensures var v := Walk(n, states).visited;
            forall i :: 0 < i < |v| ==> v[i] != Router
  {
    WalkFollowsEdges(n, states);
    var v := Walk(n, states).visited;
    forall i | 0 < i < |v|
      ensures v[i] != Router
    {
      assert (v[i - 1], v[i]) in Edges;
    }
  }

  /**
   * After the router, a run alternates generator and executor until it
   * finishes or its input runs out: it never suspends and never fails, and
   * every executor visit that is followed by another node left a critical
   * stderr behind.
   */
  lemma {:induction false} RepairLoop(states: seq<AgentState>)
    ensures var r := Walk(Generator, states);
            (r.status == Finished || r.status == Incomplete) &&
            (forall i :: 0 <= i < |r.visited| ==>
               r.visited[i] == (if i % 2 == 0 then Generator else Executor)) &&
            (forall i :: 0 <= i < |r.visited| - 1 && r.visited[i] == Executor ==>
               HasCriticalError(states[i].stderr.GetOr("")))
    decreases |states|
  {
    if |states| > 1 {
      var tail := states[2..];
      RepairLoop(tail);
      var r := Walk(Generator, states);
      var rest := Walk(Generator, tail);
      if HasCriticalError(states[1].stderr.GetOr("")) {
        RoundRepairs(states);
        forall i | 0 <= i < |r.visited|
          ensures r.visited[i] == (if i % 2 == 0 then Generator else Executor)
        {
          if i >= 2 {
            assert r.visited[i] == rest.visited[i - 2];
          }
        }
        forall i | 0 <= i < |r.visited| - 1 && r.visited[i] == Executor
          ensures HasCriticalError(states[i].stderr.GetOr(""))
        {
          if i >= 2 {
            assert r.visited[i] == rest.visited[i - 2] && states[i] == tail[i - 2];
          }
        }
      } else {
        RoundEnds(states);
      }
    }
  }

  /** One step of a run from a node whose edge leads on to another node. */
  lemma {:induction false} WalkStep(n: Node, m: Node, states: seq<AgentState>)
    requires n != End && n !in InterruptAfter && m != End
    requires |states| > 0 && Successor(n, states[0]) == Ok(m)
    ensures var rest := Walk(m, states[1..]);
            Walk(n, states) == Run([n] + rest.visited, rest.status)
  {
  }

  /** A round whose execution left a critical error goes back to the generator. */
  lemma {:induction false} RoundRepairs(states: seq<AgentState>)
    requires |states| > 1 && HasCriticalError(states[1].stderr.GetOr(""))
    ensures var rest := Walk(Generator, states[2..]);
            Walk(Generator, states) == Run([Generator, Executor] + rest.visited, rest.status)
  {
    var exec := states[1..];
    assert exec[1..] == states[2..];
    var rest := Walk(Generator, states[2..]);
    WalkStep(Executor, Generator, exec);
    WalkStep(Generator, Executor, states);
    assert [Generator] + ([Executor] + rest.visited) == [Generator, Executor] + rest.visited;
  }

  /** A round whose execution left no critical error ends the run. */
  lemma {:induction false} RoundEnds(states: seq<AgentState>)
    requires |states| > 1 && !HasCriticalError(states[1].stderr.GetOr(""))
    ensures Walk(Generator, states) == Run([Generator, Executor], Finished)
  {
    var exec := states[1..];
    assert Walk(Executor, exec) == Run([Executor], Finished) by {
      assert Successor(Executor, exec[0]) == Ok(End);
    }
    WalkStep(Generator, Executor, states);
  }

  /** A simple task goes from the router straight to generation. */
  lemma {:induction false} SimpleTaskSkipsSuggester(states: seq<AgentState>)
    requires |states| > 0 && states[0].destination == Some("simple_task")
    ensures var r := Invoke(states);
            Suggester !in r.visited && r.status != Suspended && r.status != Failed
  {
    RepairLoop(states[1..]);
    var rest := Walk(Generator, states[1..]);
    assert Invoke(states).visited == [Router] + rest.visited;
    assert forall i :: 0 <= i < |rest.visited| ==> rest.visited[i] != Suggester;
  }

  /** A complex task stops right after the suggester, waiting for the caller. */
  lemma ComplexTaskSuspends(states: seq<AgentState>)
    requires |states| >= 2 && states[0].destination == Some("complex_task")
    ensures Invoke(states) == Run([Router, Suggester], Suspended)
  {
    assert Walk(Suggester, states[1..]) == Run([Suggester], Suspended);
  }

  /** A state whose stderr is a traceback, as a failing execution leaves it. */
  function CrashState(): (s: AgentState)
    ensures HasCriticalError(s.stderr.GetOr(""))
  {
    NameErrorIsCritical();
    StateWith(None, Some(NameErrorText))
  }

  /**
   * The repair loop has no retry bound: for every k there is a run of 2k
   * nodes, generator and executor taking turns, that has not stopped.
   */
  lemma {:induction false} RepairLoopUnbounded(k: nat)
    ensures var r := Resume(seq(2 * k, _ => CrashState()));
            |r.visited| == 2 * k && r.status == Incomplete
  {
    var states := seq(2 * k, _ => CrashState());
    if k > 0 {
      RepairLoopUnbounded(k - 1);
      var tail := seq(2 * (k - 1), _ => CrashState());
      assert states[1..][1..] == tail;
      assert AfterExecutionRouter(states[1]) == "fix_error";
      assert Walk(Generator, states).visited == [Generator, Executor] + Walk(Generator, tail).visited;
    }
  }
}
