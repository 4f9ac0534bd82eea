/**
 Ordered command sequences on a switch: each step has a primary command, perhaps an alternate
 spelling, and perhaps a failure that is tolerated. The switch's replies and the caller's stop
 signal are arbitrary.
 */
module CommandFlow {
  import opened Text
  import opened SwitchCommands

  /** Who classified a failure: the transport, with its own code, or this crate. */
  datatype Code = FromTransport(code: nat) | DetectedHere

  datatype Failure = Failure(code: Code, message: string)

  datatype Reply = Output(stdout: string) | Failing(failure: Failure)

  datatype BenignOutcome = Continue | CompleteFlow

  datatype BenignReason = ClusterNotEnabled | GnmiMtlsSchemaAbsent {
    function Fragments(): seq<string> {
      match this
      case ClusterNotEnabled => ["cluster is not enabled"]
      case GnmiMtlsSchemaAbsent => ["'mtls' is not one of", "\"mtls\" is not one of"]
    }
  }

  datatype BenignFailure = BenignFailure(reason: BenignReason, outcome: BenignOutcome) {
    predicate Matches(message: string) {
      exists i | 0 <= i < |reason.Fragments()| :: Contains(Lower(message), Lower(reason.Fragments()[i]))
    }
  }

  datatype StepSubject = Mtls(service: MtlsService) | Persist(operation: ConfigOperation) {
    function Label(): string {
      match this
      case Mtls(NvueApi) => "nvue-api"
      case Mtls(GnmiServer) => "gnmi-server"
      case Mtls(ClusterAppService(app)) => app
      case Persist(Save) => "config-save"
      case Persist(Detach) => "config-detach"
      case Persist(_) => "config-apply"
    }
  }

  datatype FlowStep = FlowStep(
    command: SwitchCommand,
    fallback: Option<SwitchCommand>,
    benign: Option<BenignFailure>,
    subject: Option<StepSubject>)

  datatype Flow = Flow(name: string, steps: seq<FlowStep>)

  datatype StepStatus =
    | Succeeded(usedFallback: bool)
    | Benign(reason: BenignReason)
    | Failed(message: string)
    | NotAttempted

  datatype StepReport = StepReport(subject: Option<StepSubject>, status: StepStatus)

  datatype FlowReport = FlowReport(steps: seq<StepReport>, interrupted: bool)

  datatype FlowResult = Ok(report: FlowReport) | Err(failure: Failure, report: FlowReport)

  // ---- One command --------------------------------------------------------------------------

  predicate ProducedRequiredOutput(c: SwitchCommand, stdout: string) {
    c.RequiredOutput().Some? ==>
      exists i | 0 <= i < |Lines(stdout)| :: Trim(Lines(stdout)[i]) == c.RequiredOutput().value
  }

  /** The failure of a command, or `None` when it succeeded and printed what it must. */
  function Check(c: SwitchCommand, r: Reply): Option<Failure> {
    match r
    case Failing(f) => Some(f)
    case Output(stdout) =>
      if ProducedRequiredOutput(c, stdout) then None
      else Some(Failure(DetectedHere, "`" + c.Render() + "` did not report success on the switch"))
  }

  /** Which messages are benign, whatever their case. */
  lemma BenignExactly(b: BenignFailure, message: string)
    ensures b.reason.ClusterNotEnabled? ==>
              (b.Matches(message) <==> Contains(Lower(message), "cluster is not enabled"))
    ensures b.reason.GnmiMtlsSchemaAbsent? ==>
              (b.Matches(message) <==>
               Contains(Lower(message), "'mtls' is not one of") || Contains(Lower(message), "\"mtls\" is not one of"))
  {
    var fragments := b.reason.Fragments();
    if b.reason.ClusterNotEnabled? {
      assert Lower(fragments[0]) == "cluster is not enabled";
    } else {
      assert Lower(fragments[0]) == "'mtls' is not one of";
      assert Lower(fragments[1]) == "\"mtls\" is not one of";
    }
  }

  /** A file is confirmed by a line of its own that reads `ok`, white space aside. */
  predicate Confirms(stdout: string) {
    exists i | 0 <= i < |Lines(stdout)| :: Trim(Lines(stdout)[i]) == "ok"
  }

  /** A command succeeds when the transport does, and a file confirmation only when the output confirms it. */
  lemma SucceedsExactly(c: SwitchCommand, r: Reply)
    ensures Check(c, r).None? <==> r.Output? && (c.Shell? && c.shell.ConfirmFile? ==> Confirms(r.stdout))
    ensures r.Failing? ==> Check(c, r) == Some(r.failure)
    ensures r.Output? && Check(c, r).Some? ==>
              Check(c, r) == Some(Failure(DetectedHere, "`" + c.Render() + "` did not report success on the switch"))
  {
  }

  // ---- One step -----------------------------------------------------------------------------

  datatype StepOutcome = Proceed(status: StepStatus, flow: BenignOutcome) | Abort(failure: Failure)

  function DescribeStep(s: FlowStep): string {
    match s.subject case Some(subject) => "for " + subject.Label() case None => "(unlabelled)"
  }

  function BothFailed(flow: string, s: FlowStep, first: Failure, second: Failure): Failure {
    Failure(first.code,
            flow + " step " + DescribeStep(s) + " failed: " + first.message
            + "; the alternate command form also failed: " + second.message)
  }

  /** The message of a step whose two forms failed, for every subject there is. */
  lemma BothFailedReads(flow: string, s: FlowStep, first: Failure, second: Failure)
    ensures var about := match s.subject
                         case None => "(unlabelled)"
                         case Some(Mtls(NvueApi)) => "for nvue-api"
                         case Some(Mtls(GnmiServer)) => "for gnmi-server"
                         case Some(Mtls(ClusterAppService(app))) => "for " + app
                         case Some(Persist(Apply)) => "for config-apply"
                         case Some(Persist(ApplyAssumeYes)) => "for config-apply"
                         case Some(Persist(Save)) => "for config-save"
                         case Some(Persist(Detach)) => "for config-detach";
            BothFailed(flow, s, first, second)
            == Failure(first.code, flow + " step " + about + " failed: " + first.message
                                   + "; the alternate command form also failed: " + second.message)
  {
    if s.subject.Some? {
      LabelReads(s.subject.value);
    }
  }

  lemma LabelReads(subject: StepSubject)
    ensures "for " + subject.Label()
            == match subject
               case Mtls(NvueApi) => "for nvue-api"
               case Mtls(GnmiServer) => "for gnmi-server"
               case Mtls(ClusterAppService(app)) => "for " + app
               case Persist(Apply) => "for config-apply"
               case Persist(ApplyAssumeYes) => "for config-apply"
               case Persist(Save) => "for config-save"
               case Persist(Detach) => "for config-detach"
  {
    assert "for " + "nvue-api" == "for nvue-api" && "for " + "gnmi-server" == "for gnmi-server";
    assert "for " + "config-apply" == "for config-apply" && "for " + "config-save" == "for config-save";
    assert "for " + "config-detach" == "for config-detach";
  }

  function Classify(s: FlowStep, f: Failure): StepOutcome {
    if s.benign.Some? && s.benign.value.Matches(f.message)
    then Proceed(Benign(s.benign.value.reason), s.benign.value.outcome)
    else Abort(f)
  }

  /** The outcome of a step whose commands would get `r0` and then `r1`, and the commands it sends. */
  function RunStep(flow: string, s: FlowStep, r0: Reply, r1: Reply): (StepOutcome, seq<SwitchCommand>) {
    match Check(s.command, r0)
    case None => (Proceed(Succeeded(false), Continue), [s.command])
    case Some(error) =>
      match s.fallback
      case None => (Classify(s, error), [s.command])
      case Some(fallback) =>
        var both := [s.command, fallback];
        match Check(fallback, r1)
        case None => (Proceed(Succeeded(true), Continue), both)
        case Some(second) =>
          if s.benign.Some? && s.benign.value.Matches(error.message) && s.benign.value.Matches(second.message)
          then (Proceed(Benign(s.benign.value.reason), s.benign.value.outcome), both)
          else (Abort(BothFailed(flow, s, error, second)), both)
  }

  // ---- A whole flow -------------------------------------------------------------------------

  datatype Ending = Completed | CompletedEarly | Interrupted | Aborted(failure: Failure)

  /** `reached` steps were attempted; `sent` are the commands the transport got, in order. */
  datatype Run = Run(statuses: seq<StepStatus>, reached: nat, ending: Ending, sent: seq<SwitchCommand>)

  /** How a step goes when `k` commands were sent before it, and the commands it sends. */
  type Executor = (FlowStep, nat) -> (StepOutcome, seq<SwitchCommand>)

  /** Steps on a switch that answers the k-th command it gets with `reply(k)`. */
  function OnSwitch(flow: string, reply: nat -> Reply): Executor {
    (s: FlowStep, k: nat) => RunStep(flow, s, reply(k), reply(k + 1))
  }

  function Idle(n: nat): seq<StepStatus> {
    seq(n, _ => NotAttempted)
  }

  function Status(o: StepOutcome): StepStatus {
    match o case Proceed(status, _) => status case Abort(f) => Failed(f.message)
  }

  /** The run of `steps` when `i` steps and `k` commands went before; `goOn(i)` is the caller's
      answer before step `i`. */
  function RunSteps(exec: Executor, steps: seq<FlowStep>, goOn: nat -> bool, i: nat, k: nat): Run
    decreases |steps|
  {
    if steps == [] then Run([], 0, Completed, [])
    else if !goOn(i) then Run(Idle(|steps|), 0, Interrupted, [])
    else
      var (o, mine) := exec(steps[0], k);
      if o.Abort? then Run([Status(o)] + Idle(|steps| - 1), 1, Aborted(o.failure), mine)
      else if o.flow.CompleteFlow? then Run([o.status] + Idle(|steps| - 1), 1, CompletedEarly, mine)
      else
        var rest := RunSteps(exec, steps[1..], goOn, i + 1, k + |mine|);
        Run([o.status] + rest.statuses, 1 + rest.reached, rest.ending, mine + rest.sent)
  }

  function Reports(steps: seq<FlowStep>, statuses: seq<StepStatus>): seq<StepReport>
    requires |steps| == |statuses|
  {
    seq(|steps|, i requires 0 <= i < |steps| => StepReport(steps[i].subject, statuses[i]))
  }

  // ---- What every run satisfies -------------------------------------------------------------

  predicate Passed(status: StepStatus) {
    status.Succeeded? || status.Benign?
  }

  /** A benign status needs a benign policy, and a fallback can only be used where there is one. */
  predicate Fits(s: FlowStep, status: StepStatus) {
    && (status.Benign? ==> s.benign.Some? && status.reason == s.benign.value.reason)
    && (status == Succeeded(true) ==> s.fallback.Some?)
  }

  /** The step's benign policy says that this status completes the flow. */
  predicate Completes(s: FlowStep, status: StepStatus) {
    status.Benign? && s.benign.Some? && s.benign.value.outcome.CompleteFlow?
  }

  /** A step that lets the flow proceed passed, and completes the flow exactly by its benign policy. */
  predicate Sane(s: FlowStep, o: StepOutcome) {
    o.Proceed? ==>
      Passed(o.status) && Fits(s, o.status) && (o.flow.CompleteFlow? <==> Completes(s, o.status))
  }

  lemma StepIsSane(flow: string, s: FlowStep, r0: Reply, r1: Reply)
    ensures Sane(s, RunStep(flow, s, r0, r1).0)
  {
  }

  /** Passed steps, then at most one failed step, then only steps not attempted; and why it ended. */
  ghost predicate Shaped(steps: seq<FlowStep>, r: Run) {
    && |r.statuses| == |steps| && r.reached <= |steps|
    && (forall j | r.reached <= j < |steps| :: r.statuses[j].NotAttempted?)
    && (forall j | 0 <= j < |steps| :: Fits(steps[j], r.statuses[j]))
    && (forall j | 0 <= j < r.reached - 1 :: Passed(r.statuses[j]))
    && (r.reached > 0 ==> (if r.ending.Aborted? then r.statuses[r.reached - 1] == Failed(r.ending.failure.message)
                           else Passed(r.statuses[r.reached - 1])))
    && (forall j | 0 <= j < |steps| ::
          Completes(steps[j], r.statuses[j]) <==> r.ending.CompletedEarly? && j == r.reached - 1)
    && match r.ending
       case Completed => r.reached == |steps|
       case Aborted(_) => r.reached > 0
       case Interrupted => r.reached < |steps|
       case CompletedEarly => r.reached > 0
  }

  /** The caller agreed before every attempted step, and stopped exactly an interrupted run. */
  ghost predicate Consulted(r: Run, goOn: nat -> bool, i: nat) {
    && (forall m | i <= m < i + r.reached :: goOn(m))
    && (r.ending.Interrupted? ==> !goOn(i + r.reached))
  }

  lemma {:induction false} RunIsShaped(exec: Executor, steps: seq<FlowStep>, goOn: nat -> bool, i: nat, k: nat)
    requires forall s: FlowStep, k: nat :: Sane(s, exec(s, k).0)
    ensures Shaped(steps, RunSteps(exec, steps, goOn, i, k))
    decreases |steps|
  {
    if steps != [] && goOn(i) {
      var r := RunSteps(exec, steps, goOn, i, k);
      var (o, mine) := exec(steps[0], k);
      assert Sane(steps[0], exec(steps[0], k).0);
      if o.Abort? {
        ShapedOnce(steps, Failed(o.failure.message), r);
      } else if o.flow.CompleteFlow? {
        ShapedOnce(steps, o.status, r);
      } else {
        RunIsShaped(exec, steps[1..], goOn, i + 1, k + |mine|);
        ShapedCons(steps, o.status, RunSteps(exec, steps[1..], goOn, i + 1, k + |mine|), r);
      }
    }
  }

  lemma {:induction false} RunConsults(exec: Executor, steps: seq<FlowStep>, goOn: nat -> bool, i: nat, k: nat)
    ensures Consulted(RunSteps(exec, steps, goOn, i, k), goOn, i)
    decreases |steps|
  {
    if steps != [] && goOn(i) {
      var (o, mine) := exec(steps[0], k);
      if o.Proceed? && o.flow.Continue? {
        RunConsults(exec, steps[1..], goOn, i + 1, k + |mine|);
      }
    }
  }

  lemma ShapedOnce(steps: seq<FlowStep>, status: StepStatus, r: Run)
    requires steps != [] && r.statuses == [status] + Idle(|steps| - 1) && r.reached == 1 && Fits(steps[0], status)
    requires match r.ending
             case Aborted(f) => status == Failed(f.message)
             case CompletedEarly => Completes(steps[0], status)
             case _ => false
    ensures Shaped(steps, r)
  {
  }

  lemma ShapedCons(steps: seq<FlowStep>, status: StepStatus, rest: Run, r: Run)
    requires steps != [] && Passed(status) && Fits(steps[0], status) && !Completes(steps[0], status)
    requires Shaped(steps[1..], rest)
    requires r.statuses == [status] + rest.statuses && r.reached == 1 + rest.reached && r.ending == rest.ending
    ensures Shaped(steps, r)
  {
    forall j | r.reached <= j < |steps| ensures r.statuses[j].NotAttempted? {
      assert rest.statuses[j - 1].NotAttempted?;
    }
    forall j | 0 <= j < |steps| ensures Fits(steps[j], r.statuses[j]) {
      assert j > 0 ==> Fits(steps[1..][j - 1], rest.statuses[j - 1]);
    }
    forall j | 0 <= j < r.reached - 1 ensures Passed(r.statuses[j]) {
      assert j > 0 ==> Passed(rest.statuses[j - 1]);
    }
    forall j | 0 <= j < |steps|
      ensures Completes(steps[j], r.statuses[j]) <==> r.ending.CompletedEarly? && j == r.reached - 1
    {
      assert j > 0 ==> steps[1..][j - 1] == steps[j] && rest.statuses[j - 1] == r.statuses[j];
    }
  }

  /** `exec` is how steps go on a switch that answers with `reply`. */
  ghost predicate Answers(exec: Executor, flow: string, reply: nat -> Reply) {
    forall s: FlowStep, k: nat :: Ran(exec, flow, reply, s, k)
  }

  predicate Ran(exec: Executor, flow: string, reply: nat -> Reply, s: FlowStep, k: nat) {
    exec(s, k) == RunStep(flow, s, reply(k), reply(k + 1))
  }

  lemma OnSwitchAnswers(flow: string, reply: nat -> Reply)
    ensures Answers(OnSwitch(flow, reply), flow, reply)
  {
  }

  lemma AnswersSanely(exec: Executor, flow: string, reply: nat -> Reply)
    requires Answers(exec, flow, reply)
    ensures forall s: FlowStep, k: nat :: Sane(s, exec(s, k).0)
  {
    forall s: FlowStep, k: nat ensures Sane(s, exec(s, k).0) {
      assert Ran(exec, flow, reply, s, k);
      StepIsSane(flow, s, reply(k), reply(k + 1));
    }
  }

  /** On every switch and for every caller the report has this shape. */
  lemma FlowIsShaped(flow: Flow, exec: Executor, reply: nat -> Reply, goOn: nat -> bool)
    requires Answers(exec, flow.name, reply)
    ensures var r := RunSteps(exec, flow.steps, goOn, 0, 0);
            Shaped(flow.steps, r) && Consulted(r, goOn, 0)
  {
    AnswersSanely(exec, flow.name, reply);
    RunIsShaped(exec, flow.steps, goOn, 0, 0);
    RunConsults(exec, flow.steps, goOn, 0, 0);
  }

  /** The commands a step sends when it ends with `status`. */
  function StepCommands(s: FlowStep, status: StepStatus): seq<SwitchCommand> {
    match status
    case NotAttempted => []
    case Succeeded(false) => [s.command]
    case _ => [s.command] + if s.fallback.Some? then [s.fallback.value] else []
  }

  /** The commands a whole report stands for. */
  function Sent(steps: seq<FlowStep>, statuses: seq<StepStatus>): seq<SwitchCommand>
    requires |steps| == |statuses|
  {
    if steps == [] then [] else StepCommands(steps[0], statuses[0]) + Sent(steps[1..], statuses[1..])
  }

  /** `status` is what the replies `r0`, and `r1` if the step sent a second command, mean. */
  ghost predicate StepTruth(flow: string, s: FlowStep, status: StepStatus, r0: Reply, r1: Reply) {
    var first := Check(s.command, r0);
    var second := if s.fallback.Some? then Check(s.fallback.value, r1) else None;
    match status
    case NotAttempted => true
    case Succeeded(false) => first.None?
    case Succeeded(true) => s.fallback.Some? && first.Some? && second.None?
    case Benign(reason) =>
      && first.Some? && s.benign.Some? && reason == s.benign.value.reason
      && s.benign.value.Matches(first.value.message)
      && (s.fallback.Some? ==> second.Some? && s.benign.value.Matches(second.value.message))
    case Failed(message) =>
      && first.Some? && (s.fallback.Some? ==> second.Some?)
      && message == (if second.Some? then BothFailed(flow, s, first.value, second.value).message
                     else first.value.message)
      && !(s.benign.Some? && s.benign.value.Matches(first.value.message)
           && (second.Some? ==> s.benign.value.Matches(second.value.message)))
  }

  type Truth = (FlowStep, StepStatus, nat) -> bool

  /** What a status means when the step's first command was the k-th one sent. */
  ghost function ByReplies(flow: string, reply: nat -> Reply): Truth {
    (s: FlowStep, status: StepStatus, k: nat) => StepTruth(flow, s, status, reply(k), reply(k + 1))
  }

  /** Every status in the report is true of the replies to that step's own commands. */
  ghost predicate Truthful(truth: Truth, steps: seq<FlowStep>, statuses: seq<StepStatus>, k: nat)
    requires |steps| == |statuses|
    decreases |steps|
  {
    steps == []
    || (truth(steps[0], statuses[0], k)
        && Truthful(truth, steps[1..], statuses[1..], k + |StepCommands(steps[0], statuses[0])|))
  }

  lemma {:induction false} IdleIsTruthful(truth: Truth, steps: seq<FlowStep>, k: nat)
    requires forall s: FlowStep, k: nat :: truth(s, NotAttempted, k)
    ensures Truthful(truth, steps, Idle(|steps|), k)
    decreases |steps|
  {
    if steps != [] {
      assert Idle(|steps|)[1..] == Idle(|steps| - 1);
      IdleIsTruthful(truth, steps[1..], k);
    }
  }

  lemma {:induction false} IdleSendsNothing(steps: seq<FlowStep>)
    ensures Sent(steps, Idle(|steps|)) == []
  {
    if steps != [] {
      assert Idle(|steps|)[1..] == Idle(|steps| - 1);
      IdleSendsNothing(steps[1..]);
    }
  }

  /** One step's status and commands agree with what was sent and answered. */
  lemma StepIsTruthful(flow: string, s: FlowStep, r0: Reply, r1: Reply)
    ensures var (o, mine) := RunStep(flow, s, r0, r1);
            mine == StepCommands(s, Status(o)) && StepTruth(flow, s, Status(o), r0, r1)
  {
  }

  /** Every step sends just the commands its status stands for. */
  ghost predicate SendsByStatus(exec: Executor) {
    forall s: FlowStep, k: nat :: exec(s, k).1 == StepCommands(s, Status(exec(s, k).0))
  }

  lemma SentCons(steps: seq<FlowStep>, status: StepStatus, rest: seq<StepStatus>)
    requires |steps| == 1 + |rest|
    ensures Sent(steps, [status] + rest) == StepCommands(steps[0], status) + Sent(steps[1..], rest)
  {
    assert ([status] + rest)[1..] == rest;
  }

  lemma {:induction false} RunSends(exec: Executor, steps: seq<FlowStep>, goOn: nat -> bool, i: nat, k: nat)
    requires SendsByStatus(exec)
    ensures var r := RunSteps(exec, steps, goOn, i, k); |r.statuses| == |steps| && r.sent == Sent(steps, r.statuses)
    decreases |steps|
  {
    var r := RunSteps(exec, steps, goOn, i, k);
    if steps == [] {
    } else if !goOn(i) {
      IdleSendsNothing(steps);
    } else {
      var (o, mine) := exec(steps[0], k);
      assert mine == StepCommands(steps[0], Status(o));
      if o.Abort? || o.flow.CompleteFlow? {
        IdleSendsNothing(steps[1..]);
        SentCons(steps, Status(o), Idle(|steps| - 1));
      } else {
        var rest := RunSteps(exec, steps[1..], goOn, i + 1, k + |mine|);
        RunSends(exec, steps[1..], goOn, i + 1, k + |mine|);
        SentCons(steps, Status(o), rest.statuses);
      }
    }
  }

  lemma {:induction false} RunIsTruthful(exec: Executor, truth: Truth, steps: seq<FlowStep>, goOn: nat -> bool,
                                         i: nat, k: nat)
    requires SendsByStatus(exec) && forall s: FlowStep, k: nat :: truth(s, NotAttempted, k)
    requires forall s: FlowStep, k: nat :: truth(s, Status(exec(s, k).0), k)
    ensures var r := RunSteps(exec, steps, goOn, i, k); |r.statuses| == |steps| && Truthful(truth, steps, r.statuses, k)
    decreases |steps|
  {
    var r := RunSteps(exec, steps, goOn, i, k);
    if steps == [] {
    } else if !goOn(i) {
      IdleIsTruthful(truth, steps, k);
    } else {
      var (o, mine) := exec(steps[0], k);
      assert truth(steps[0], Status(exec(steps[0], k).0), k);
      if o.Abort? || o.flow.CompleteFlow? {
        assert r.statuses[1..] == Idle(|steps| - 1);
        IdleIsTruthful(truth, steps[1..], k + |mine|);
      } else {
        RunIsTruthful(exec, truth, steps[1..], goOn, i + 1, k + |mine|);
        assert r.statuses[1..] == RunSteps(exec, steps[1..], goOn, i + 1, k + |mine|).statuses;
      }
    }
  }

  lemma TruthOf(truth: Truth, flow: string, reply: nat -> Reply, s: FlowStep, status: StepStatus, k: nat)
    requires truth == ByReplies(flow, reply)
    ensures truth(s, status, k) == StepTruth(flow, s, status, reply(k), reply(k + 1))
  {
  }

  lemma TruthAt(exec: Executor, truth: Truth, flow: string, reply: nat -> Reply, s: FlowStep, k: nat)
    requires Ran(exec, flow, reply, s, k) && truth == ByReplies(flow, reply)
    ensures exec(s, k).1 == StepCommands(s, Status(exec(s, k).0))
    ensures truth(s, NotAttempted, k) && truth(s, Status(exec(s, k).0), k)
  {
    StepIsTruthful(flow, s, reply(k), reply(k + 1));
    TruthOf(truth, flow, reply, s, NotAttempted, k);
    TruthOf(truth, flow, reply, s, Status(exec(s, k).0), k);
  }

  lemma AnswersTruthfully(exec: Executor, truth: Truth, flow: string, reply: nat -> Reply)
    requires Answers(exec, flow, reply) && truth == ByReplies(flow, reply)
    ensures SendsByStatus(exec)
    ensures forall s: FlowStep, k: nat :: truth(s, NotAttempted, k)
    ensures forall s: FlowStep, k: nat :: truth(s, Status(exec(s, k).0), k)
  {
    forall s: FlowStep, k: nat ensures exec(s, k).1 == StepCommands(s, Status(exec(s, k).0)) {
      assert Ran(exec, flow, reply, s, k);
      TruthAt(exec, truth, flow, reply, s, k);
    }
    forall s: FlowStep, k: nat ensures truth(s, NotAttempted, k) {
      assert Ran(exec, flow, reply, s, k);
      TruthAt(exec, truth, flow, reply, s, k);
    }
    forall s: FlowStep, k: nat ensures truth(s, Status(exec(s, k).0), k) {
      assert Ran(exec, flow, reply, s, k);
      TruthAt(exec, truth, flow, reply, s, k);
    }
  }

  /** The report alone determines the commands sent, and its statuses are true of the replies. */
  lemma ReportAgreesWithTrace(flow: Flow, exec: Executor, truth: Truth, reply: nat -> Reply, goOn: nat -> bool)
    requires Answers(exec, flow.name, reply) && truth == ByReplies(flow.name, reply)
    ensures var r := RunSteps(exec, flow.steps, goOn, 0, 0);
            && |r.statuses| == |flow.steps|
            && r.sent == Sent(flow.steps, r.statuses)
            && Truthful(truth, flow.steps, r.statuses, 0)
  {
    AnswersTruthfully(exec, truth, flow.name, reply);
    RunSends(exec, flow.steps, goOn, 0, 0);
    RunIsTruthful(exec, truth, flow.steps, goOn, 0, 0);
  }

  /** The failure an aborted flow returns keeps the primary command's classification. */
  lemma AbortKeepsPrimaryCode(flow: string, s: FlowStep, r0: Reply, r1: Reply)
    ensures var o := RunStep(flow, s, r0, r1).0;
            o.Abort? ==> Check(s.command, r0).Some? && o.failure.code == Check(s.command, r0).value.code
  {
  }

  // ---- The handler's loop -------------------------------------------------------------------

  lemma ConcatAssoc<T>(a: seq<T>, b: seq<T>, c: seq<T>)
    ensures a + (b + c) == (a + b) + c
  {
  }

  lemma SetStatus(statuses: seq<StepStatus>, index: nat, status: StepStatus)
    requires index < |statuses| && statuses[index..] == Idle(|statuses| - index)
    ensures var after := statuses[index := status];
            && after[..index + 1] == statuses[..index] + [status]
            && after[index + 1..] == Idle(|statuses| - index - 1)
            && after == statuses[..index] + ([status] + Idle(|statuses| - index - 1))
  {
    forall j | index < j < |statuses| ensures statuses[j] == NotAttempted {
      assert statuses[j] == statuses[index..][j - index];
    }
  }

  lemma RunUnfolds(exec: Executor, steps: seq<FlowStep>, goOn: nat -> bool, i: nat, k: nat)
    requires i < |steps| && goOn(i)
    ensures var run := RunSteps(exec, steps[i..], goOn, i, k);
            var (o, mine) := exec(steps[i], k);
            var next := RunSteps(exec, steps[i + 1..], goOn, i + 1, k + |mine|);
            if o.Abort? then
              run == Run([Status(o)] + Idle(|steps| - i - 1), 1, Aborted(o.failure), mine)
            else if o.flow.CompleteFlow? then
              run == Run([Status(o)] + Idle(|steps| - i - 1), 1, CompletedEarly, mine)
            else
              run == Run([Status(o)] + next.statuses, 1 + next.reached, next.ending, mine + next.sent)
  {
    assert steps[i..][0] == steps[i] && steps[i..][1..] == steps[i + 1..];
    var (o, _) := exec(steps[i], k);
    assert o.Proceed? ==> [Status(o)] == [o.status];
  }

  /** Before step `index` the report and the commands so far, with the run of the other steps, make `goal`. */
  ghost predicate Ahead(exec: Executor, steps: seq<FlowStep>, goOn: nat -> bool, index: nat,
                        statuses: seq<StepStatus>, sent: seq<SwitchCommand>, goal: Run)
    requires index <= |steps| == |statuses|
  {
    var rest := RunSteps(exec, steps[index..], goOn, index, |sent|);
    && statuses[index..] == Idle(|steps| - index)
    && goal.statuses == statuses[..index] + rest.statuses
    && goal.ending == rest.ending && goal.sent == sent + rest.sent
  }

  /** One turn of the loop ends the run, or leaves the rest ahead. */
  lemma LoopStep(exec: Executor, steps: seq<FlowStep>, goOn: nat -> bool, index: nat,
                 statuses: seq<StepStatus>, sent: seq<SwitchCommand>, goal: Run)
    requires index < |steps| == |statuses| && goOn(index) && Ahead(exec, steps, goOn, index, statuses, sent, goal)
    ensures var (o, mine) := exec(steps[index], |sent|);
            var after := statuses[index := Status(o)];
            if o.Abort? then goal.statuses == after && goal.ending == Aborted(o.failure) && goal.sent == sent + mine
            else if o.flow.CompleteFlow? then
              goal.statuses == after && goal.ending == CompletedEarly && goal.sent == sent + mine
            else Ahead(exec, steps, goOn, index + 1, after, sent + mine, goal)
  {
    var (o, mine) := exec(steps[index], |sent|);
    var next := RunSteps(exec, steps[index + 1..], goOn, index + 1, |sent| + |mine|);
    SetStatus(statuses, index, Status(o));
    RunUnfolds(exec, steps, goOn, index, |sent|);
    ConcatAssoc(statuses[..index], [Status(o)], next.statuses);
    ConcatAssoc(sent, mine, next.sent);
  }

  /** The loop over steps and their report entries, for any way steps may go. */
  method RunLoop(exec: Executor, steps: seq<FlowStep>, goOn: nat -> bool)
    returns (statuses: seq<StepStatus>, ending: Ending, sent: seq<SwitchCommand>)
    ensures var r := RunSteps(exec, steps, goOn, 0, 0);
            statuses == r.statuses && |statuses| == |steps| && ending == r.ending && sent == r.sent
  {
    ghost var goal := RunSteps(exec, steps, goOn, 0, 0);
    statuses := Idle(|steps|);
    sent := [];
    assert steps[0..] == steps && statuses[0..] == statuses && statuses[..0] + goal.statuses == goal.statuses;
    for index := 0 to |steps|
      invariant |statuses| == |steps|
      invariant Ahead(exec, steps, goOn, index, statuses, sent, goal)
    {
      if !goOn(index) {
        assert statuses[..index] + statuses[index..] == statuses;
        return statuses, Interrupted, sent;
      }
      var (outcome, mine) := exec(steps[index], |sent|);
      LoopStep(exec, steps, goOn, index, statuses, sent, goal);
      statuses := statuses[index := Status(outcome)];
      sent := sent + mine;
      if outcome.Abort? {
        return statuses, Aborted(outcome.failure), sent;
      }
      if outcome.flow.CompleteFlow? {
        return statuses, CompletedEarly, sent;
      }
    }
    assert steps[|steps|..] == [];
    return statuses, Completed, sent;
  }

  function StatusesOf(report: FlowReport): seq<StepStatus> {
    seq(|report.steps|, i requires 0 <= i < |report.steps| => report.steps[i].status)
  }

  /** The report of a flow that attempted `reached` steps: steps that passed, at most one that failed, then
      only steps not attempted. It is an error exactly when a step failed, with that step's message. It stops
      short of the last step only when it failed, when the caller said so, or by a step's benign policy. */
  ghost predicate ReachedTo(steps: seq<FlowStep>, result: FlowResult, goOn: nat -> bool, reached: nat) {
    var entries := result.report.steps;
    && |entries| == |steps| && reached <= |steps|
    && (forall j | reached <= j < |steps| :: entries[j].status.NotAttempted?)
    && (forall j | 0 <= j < reached - 1 :: Passed(entries[j].status))
    && (forall j | 0 <= j < reached :: goOn(j))
    && (result.Err? ==> reached > 0 && entries[reached - 1].status == Failed(result.failure.message))
    && (result.Ok? && reached > 0 ==> Passed(entries[reached - 1].status))
    && (result.report.interrupted ==> result.Ok? && reached < |steps| && !goOn(reached))
    && (result.Ok? && !result.report.interrupted && reached < |steps| ==>
          reached > 0 && Completes(steps[reached - 1], entries[reached - 1].status))
    && (forall j | 0 <= j < |steps| && Completes(steps[j], entries[j].status) ::
          result.Ok? && !result.report.interrupted && j == reached - 1)
  }

  lemma ReportedShape(steps: seq<FlowStep>, r: Run, result: FlowResult, goOn: nat -> bool)
    requires Shaped(steps, r) && Consulted(r, goOn, 0) && StatusesOf(result.report) == r.statuses
    requires result.report.interrupted == r.ending.Interrupted? && (result.Err? <==> r.ending.Aborted?)
    requires result.Err? ==> result.failure == r.ending.failure
    ensures ReachedTo(steps, result, goOn, r.reached)
  {
    forall j | 0 <= j < |steps| ensures result.report.steps[j].status == r.statuses[j] {
      assert StatusesOf(result.report)[j] == r.statuses[j];
    }
  }

  /** One entry per step, about that step; the report tells how far the flow got and why it ended, its
      statuses are true of the replies, and the commands sent are the ones it stands for. */
  method RunFlowWhile(flow: Flow, reply: nat -> Reply, goOn: nat -> bool)
    returns (result: FlowResult, sent: seq<SwitchCommand>)
    ensures |result.report.steps| == |flow.steps|
    ensures forall i | 0 <= i < |flow.steps| :: result.report.steps[i].subject == flow.steps[i].subject
    ensures exists reached :: ReachedTo(flow.steps, result, goOn, reached)
    ensures sent == Sent(flow.steps, StatusesOf(result.report))
    ensures Truthful(ByReplies(flow.name, reply), flow.steps, StatusesOf(result.report), 0)
    ensures var r := RunSteps(OnSwitch(flow.name, reply), flow.steps, goOn, 0, 0);
            && |r.statuses| == |flow.steps| && sent == r.sent
            && (forall i | 0 <= i < |flow.steps| :: result.report.steps[i].status == r.statuses[i])
            && (result.Err? <==> r.ending.Aborted?)
            && (result.Err? ==> result.failure == r.ending.failure)
  {
    ghost var exec := OnSwitch(flow.name, reply);
    OnSwitchAnswers(flow.name, reply);
    var statuses, ending;
    statuses, ending, sent := RunLoop(OnSwitch(flow.name, reply), flow.steps, goOn);
    var report := FlowReport(Reports(flow.steps, statuses), ending.Interrupted?);
    result := if ending.Aborted? then FlowResult.Err(ending.failure, report) else FlowResult.Ok(report);
    ReportedRun(flow, exec, reply, goOn, result, statuses);
  }

  /** What holds of a run holds of the report made from it. */
  lemma ReportedRun(flow: Flow, exec: Executor, reply: nat -> Reply, goOn: nat -> bool,
                    result: FlowResult, statuses: seq<StepStatus>)
    requires Answers(exec, flow.name, reply) && |statuses| == |flow.steps|
    requires var r := RunSteps(exec, flow.steps, goOn, 0, 0);
             && statuses == r.statuses
             && result.report == FlowReport(Reports(flow.steps, statuses), r.ending.Interrupted?)
             && (result.Err? <==> r.ending.Aborted?) && (result.Err? ==> result.failure == r.ending.failure)
    ensures StatusesOf(result.report) == statuses
    ensures exists reached :: ReachedTo(flow.steps, result, goOn, reached)
    ensures RunSteps(exec, flow.steps, goOn, 0, 0).sent == Sent(flow.steps, statuses)
    ensures Truthful(ByReplies(flow.name, reply), flow.steps, statuses, 0)
  {
    var r := RunSteps(exec, flow.steps, goOn, 0, 0);
    assert StatusesOf(result.report) == statuses;
    FlowIsShaped(flow, exec, reply, goOn);
    ReportedShape(flow.steps, r, result, goOn);
    ReportAgreesWithTrace(flow, exec, ByReplies(flow.name, reply), reply, goOn);
  }
}
