/**
 * The control flow of `image_analyzer_orchestrator`: fan out to four analyses,
 * wait for all of them (the first yield), chain `generate_report` (the second
 * yield) and `store_results` (the third), and return what the store returned.
 *
 * The generator is re-run from the start on every new event, so it is modelled
 * as a step function of the results received so far: Advance tells which
 * suspension point the generator reaches and what it has scheduled there, or
 * what it returns.  The results are opaque values of type J: the orchestrator
 * only passes them on.  Each call is identified by its position in the
 * workflow (tasks 0-3 the fan-out in declaration order, 4 the report, 5 the
 * store), never by the order in which results arrive.
 */
module Orchestrator {

  /** `context.get_input()`: the blob's name and its bytes. */
  datatype OrchestrationInput = OrchestrationInput(blobName: string, blobBytes: seq<int>)

  datatype Activity =
    | AnalyzeColors | AnalyzeObjects | AnalyzeText | AnalyzeMetadata
    | GenerateReport | StoreResults

  /** `report_input`. */
  datatype ReportRequest<J> = ReportRequest(blobName: string, colors: J, objects: J, text: J, metadata: J)

  /** The input passed to an activity. */
  datatype Request<J> =
    | Analysis(data: OrchestrationInput)
    | ReportOf(reportInput: ReportRequest<J>)
    | StoreOf(report: J)

  /** `context.call_activity(activity, request)`, issued as task number `task`. */
  datatype Call<J> = Call(task: nat, activity: Activity, request: Request<J>)

  /** Where the generator stands. */
  datatype Phase = AwaitFanIn | AwaitReport | AwaitStore | Done

  /** The generator either yields (suspends, having scheduled `calls`) or returns. */
  datatype Step<J> = Suspend(phase: Phase, calls: seq<Call<J>>) | Return(output: J)

  const ColorsTask: nat := 0
  const ObjectsTask: nat := 1
  const TextTask: nat := 2
  const MetadataTask: nat := 3
  const ReportTask: nat := 4
  const StoreTask: nat := 5

  /** `analysis_tasks`, in declaration order. */
  function FanOutCalls<J>(input: OrchestrationInput): seq<Call<J>> {
    [ Call(ColorsTask, AnalyzeColors, Analysis(input)),
      Call(ObjectsTask, AnalyzeObjects, Analysis(input)),
      Call(TextTask, AnalyzeText, Analysis(input)),
      Call(MetadataTask, AnalyzeMetadata, Analysis(input)) ]
  }

  /** `context.task_all(analysis_tasks)` has completed: all four results are in. */
  predicate FanInComplete<J>(received: map<nat, J>) {
    ColorsTask in received && ObjectsTask in received && TextTask in received && MetadataTask in received
  }

  /** The step function: where the generator suspends, given the results received so far. */
  function Advance<J>(input: OrchestrationInput, received: map<nat, J>): (r: Step<J>)
    ensures r.Suspend? ==> r.phase != Done && r.calls != []
    ensures r.Suspend? && r.phase == AwaitFanIn ==>
      |r.calls| == 4 && forall i :: 0 <= i < 4 ==> r.calls[i].task == i
    // task i runs the i-th declared analysis on the orchestration input
    ensures r.Suspend? && r.phase == AwaitFanIn ==>
      r.calls == [ Call(ColorsTask, AnalyzeColors, Analysis(input)),
                   Call(ObjectsTask, AnalyzeObjects, Analysis(input)),
                   Call(TextTask, AnalyzeText, Analysis(input)),
                   Call(MetadataTask, AnalyzeMetadata, Analysis(input)) ]
    ensures r.Suspend? && r.phase == AwaitReport ==>
      FanInComplete(received)
      && r.calls == [Call(ReportTask, GenerateReport, ReportOf(ReportRequest(input.blobName,
           received[ColorsTask], received[ObjectsTask], received[TextTask], received[MetadataTask])))]
    ensures r.Suspend? && r.phase == AwaitStore ==>
      ReportTask in received
      && r.calls == [Call(StoreTask, StoreResults, StoreOf(received[ReportTask]))]
    ensures r.Suspend? && r.phase != AwaitFanIn ==>
      FanInComplete(received) && |r.calls| == 1 && r.calls[0].task !in received
    ensures r.Return? ==> StoreTask in received && r.output == received[StoreTask]
  {
    if !FanInComplete(received) then
      Suspend(AwaitFanIn, FanOutCalls(input))
    else
      var reportInput := ReportRequest(input.blobName,
        received[ColorsTask], received[ObjectsTask], received[TextTask], received[MetadataTask]);
      if ReportTask !in received then
        Suspend(AwaitReport, [Call(ReportTask, GenerateReport, ReportOf(reportInput))])
      else if StoreTask !in received then
        Suspend(AwaitStore, [Call(StoreTask, StoreResults, StoreOf(received[ReportTask]))])
      else
        Return(received[StoreTask])
  }

  function PhaseOf<J>(step: Step<J>): Phase {
    match step
    case Suspend(phase, _) => phase
    case Return(_) => Done
  }

  function Rank(phase: Phase): nat {
    match phase
    case AwaitFanIn => 0
    case AwaitReport => 1
    case AwaitStore => 2
    case Done => 3
  }

  // ---------------------------------------------------------------------------
  // Results arrive as events, in any order
  // ---------------------------------------------------------------------------

  /** A task's result, as it is recorded when the task completes. */
  datatype Event<J> = Completed(task: nat, result: J)

  /** No task completes twice. */
  ghost predicate DistinctTasks<J>(history: seq<Event<J>>) {
    forall i, j :: 0 <= i < j < |history| ==> history[i].task != history[j].task
  }

  /** The results received, by task, after the events of `history` in arrival order. */
  function Received<J>(history: seq<Event<J>>): map<nat, J> {
    if history == [] then map[]
    else
      var last := history[|history| - 1];
      Received(history[..|history| - 1])[last.task := last.result]
  }

  /** The step the generator reaches when replayed against `history`. */
  function Replay<J>(input: OrchestrationInput, history: seq<Event<J>>): Step<J> {
    Advance(input, Received(history))
  }

  /** Some event of `history` completes task t. */
  ghost predicate HasCompleted<J>(history: seq<Event<J>>, t: nat) {
    exists i :: 0 <= i < |history| && history[i].task == t
  }

  /** The result recorded for task t: the first event that names it. */
  function ResultOf<J>(history: seq<Event<J>>, t: nat): (r: J)
    requires HasCompleted(history, t)
    ensures exists i :: 0 <= i < |history| && history[i].task == t && history[i].result == r
  {
    if history[0].task == t then history[0].result
    else
      assert HasCompleted(history[1..], t) by {
        var i :| 0 <= i < |history| && history[i].task == t;
        assert history[1..][i - 1] == history[i];
      }
      var r := ResultOf(history[1..], t);
      assert exists i :: 0 <= i < |history| && history[i].task == t && history[i].result == r by {
        var i :| 0 <= i < |history[1..]| && history[1..][i].task == t && history[1..][i].result == r;
        assert history[i + 1] == history[1..][i];
      }
      r
  }

  /** A task has a result exactly when one of the events completes it, and it is that event's result. */
  lemma {:induction false} ReceivedRecords<J>(history: seq<Event<J>>)
    requires DistinctTasks(history)
    ensures forall t :: t in Received(history) <==> exists i :: 0 <= i < |history| && history[i].task == t
    ensures forall i :: 0 <= i < |history| ==> Received(history)[history[i].task] == history[i].result
  {
    if history != [] {
      var init := history[..|history| - 1];
      ReceivedRecords(init);
      forall t | t in Received(history) ensures exists i :: 0 <= i < |history| && history[i].task == t {
        if t != history[|history| - 1].task {
          assert t in Received(init);
          var i :| 0 <= i < |init| && init[i].task == t;
          assert history[i] == init[i];
        }
      }
      forall i | 0 <= i < |history| - 1 ensures Received(history)[history[i].task] == history[i].result {
        assert init[i] == history[i];
      }
    }
  }

  /** The results received depend on which events arrived, not on their order. */
  lemma ArrivalOrderIrrelevant<J>(input: OrchestrationInput, h1: seq<Event<J>>, h2: seq<Event<J>>)
    requires DistinctTasks(h1) && DistinctTasks(h2)
    requires multiset(h1) == multiset(h2)
    ensures Received(h1) == Received(h2)
    ensures Replay(input, h1) == Replay(input, h2)
  {
    ReceivedRecords(h1);
    ReceivedRecords(h2);
    forall t | t in Received(h1) ensures t in Received(h2) && Received(h2)[t] == Received(h1)[t] {
      var i :| 0 <= i < |h1| && h1[i].task == t;
      assert h1[i] in multiset(h2);
      var j :| 0 <= j < |h2| && h2[j] == h1[i];
    }
    forall t | t in Received(h2) ensures t in Received(h1) {
      var j :| 0 <= j < |h2| && h2[j].task == t;
      assert h2[j] in multiset(h1);
      var i :| 0 <= i < |h1| && h1[i] == h2[j];
    }
  }

  /**
   * Once the four analyses have completed, in whatever order, the report is
   * scheduled with colors, objects, text and metadata bound to the results of
   * tasks 0, 1, 2 and 3: the order of declaration.
   */
  lemma {:induction false} FanInBindsByPosition<J>(input: OrchestrationInput, history: seq<Event<J>>)
    requires DistinctTasks(history)
    requires HasCompleted(history, ColorsTask) && HasCompleted(history, ObjectsTask)
    requires HasCompleted(history, TextTask) && HasCompleted(history, MetadataTask)
    requires forall i :: 0 <= i < |history| ==> history[i].task != ReportTask
    ensures Replay(input, history) == Suspend(AwaitReport, [Call(ReportTask, GenerateReport, ReportOf(
      ReportRequest(input.blobName,
        ResultOf(history, ColorsTask), ResultOf(history, ObjectsTask),
        ResultOf(history, TextTask), ResultOf(history, MetadataTask))))])
  {
    ReceivedRecords(history);
    forall t | 0 <= t < 4 ensures t in Received(history) && Received(history)[t] == ResultOf(history, t) {
      assert HasCompleted(history, t);
      var r := ResultOf(history, t);
      var i :| 0 <= i < |history| && history[i].task == t && history[i].result == r;
    }
    assert ReportTask !in Received(history);
  }

  /** Arrival order D, B, A, C still gives the report the results in the order A, B, C, D. */
  lemma DeclarationOrderExample(input: OrchestrationInput)
    ensures Replay(input, [Completed(3, "D"), Completed(1, "B"), Completed(0, "A"), Completed(2, "C")])
         == Suspend(AwaitReport, [Call(ReportTask, GenerateReport, ReportOf(
              ReportRequest(input.blobName, "A", "B", "C", "D")))])
  {
    var h := [Completed(3, "D"), Completed(1, "B"), Completed(0, "A"), Completed(2, "C")];
    var h1, h2, h3 := h[..1], h[..2], h[..3];
    assert h3[..2] == h2 && h2[..1] == h1 && h1[..0] == [];
    assert Received(h1) == map[3 := "D"];
    assert Received(h2) == map[3 := "D", 1 := "B"];
    assert Received(h3) == map[3 := "D", 1 := "B", 0 := "A"];
    assert Received(h) == map[3 := "D", 1 := "B", 0 := "A", 2 := "C"];
  }

  // ---------------------------------------------------------------------------
  // Ordering guarantees of the chain
  // ---------------------------------------------------------------------------

  /** The report is scheduled exactly when all four analyses are in and the report is not. */
  lemma ReportWaitsForFanIn<J>(input: OrchestrationInput, received: map<nat, J>)
    ensures PhaseOf(Advance(input, received)) == AwaitReport
        <==> FanInComplete(received) && ReportTask !in received
    ensures forall c ::
      (Advance(input, received).Suspend? && c in Advance(input, received).calls && c.activity == GenerateReport)
      ==> FanInComplete(received)
  {
  }

  /** `store_results` receives exactly the report, and only once the report exists. */
  lemma StoreReceivesReport<J>(input: OrchestrationInput, received: map<nat, J>)
    ensures forall c ::
      (Advance(input, received).Suspend? && c in Advance(input, received).calls && c.activity == StoreResults)
      ==> FanInComplete(received) && ReportTask in received && c.request == StoreOf(received[ReportTask])
    ensures PhaseOf(Advance(input, received)) == AwaitStore
        <==> FanInComplete(received) && ReportTask in received && StoreTask !in received
    ensures PhaseOf(Advance(input, received)) == AwaitStore ==>
      Advance(input, received).calls == [Call(StoreTask, StoreResults, StoreOf(received[ReportTask]))]
  {
  }

  /** The orchestration returns exactly the store result, and only after every step. */
  lemma ReturnsStoreResult<J>(input: OrchestrationInput, received: map<nat, J>)
    ensures Advance(input, received).Return?
        <==> FanInComplete(received) && ReportTask in received && StoreTask in received
    ensures Advance(input, received).Return? ==> Advance(input, received).output == received[StoreTask]
  {
  }

  /**
   * Results are data: which step comes next depends only on which tasks have
   * completed, not on what they returned (an analysis that caught its own
   * exception and returned an error payload still lets the workflow go on).
   */
  lemma PhaseIgnoresResults<J>(input: OrchestrationInput, r1: map<nat, J>, r2: map<nat, J>)
    requires r1.Keys == r2.Keys
    ensures PhaseOf(Advance(input, r1)) == PhaseOf(Advance(input, r2))
  {
  }

  /** Receiving more results never moves the generator back to an earlier suspension point. */
  lemma AdvanceMonotone<J>(input: OrchestrationInput, r1: map<nat, J>, r2: map<nat, J>)
    requires forall t :: t in r1 ==> t in r2
    ensures Rank(PhaseOf(Advance(input, r1))) <= Rank(PhaseOf(Advance(input, r2)))
  {
  }
}
