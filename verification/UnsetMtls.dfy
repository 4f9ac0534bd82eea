/**
 The flow that clears the mTLS binding of some services and then applies and saves the
 configuration: what it sends in which order, and when it leaves a change unsaved.
 */
module UnsetMtls {
  import opened Text
  import opened SwitchCommands
  import opened CommandFlow

  predicate OnlyGnmi(services: seq<MtlsService>) {
    forall i | 0 <= i < |services| :: services[i].GnmiServer?
  }

  function UnsetStep(service: MtlsService, gnmiAbsent: BenignOutcome): FlowStep {
    var command := Nv(NvUnsetMtls(service));
    var subject := Some(Mtls(service));
    match service
    case GnmiServer =>
      FlowStep(command, Some(Nv(NvUnsetGnmiCaCertificate())),
               Some(BenignFailure(GnmiMtlsSchemaAbsent, gnmiAbsent)), subject)
    case ClusterAppService(_) =>
      FlowStep(command, None, Some(BenignFailure(ClusterNotEnabled, Continue)), subject)
    case NvueApi => FlowStep(command, None, None, subject)
  }

  function PersistStep(op: ConfigOperation): FlowStep {
    FlowStep(Nv(NvConfig(op)), None, None, Some(Persist(op)))
  }

  function UnsetSteps(services: seq<MtlsService>): seq<FlowStep> {
    var gnmiAbsent := if OnlyGnmi(services) then CompleteFlow else Continue;
    seq(|services|, i requires 0 <= i < |services| => UnsetStep(services[i], gnmiAbsent))
  }

  const NAME := "unset_mtls"

  function UnsetMtlsFlow(services: seq<MtlsService>): Flow {
    if services == [] then Flow(NAME, [])
    else Flow(NAME, UnsetSteps(services) + [PersistStep(ApplyAssumeYes), PersistStep(Save)])
  }

  /** The tokens a switch reads from a command. */
  function Read(c: SwitchCommand): Option<seq<Token>> {
    Tokenize(c.Render())
  }

  /** What clears the binding of one service: its command and the other spelling it may try, which failures
      it tolerates and what a tolerated one does to the flow. */
  lemma UnsetStepExactly(service: MtlsService, gnmiAbsent: BenignOutcome)
    ensures var step := UnsetStep(service, gnmiAbsent);
            && step.subject == Some(Mtls(service))
            && match service
               case NvueApi =>
                 && Read(step.command) == Some(Words(["nv", "unset", "system", "api", "mtls", "ca-certificate"]))
                 && step.fallback.None? && step.benign.None?
               case GnmiServer =>
                 && Read(step.command) == Some(Words(["nv", "unset", "system", "gnmi-server", "mtls", "certificate"]))
                 && step.fallback.Some?
                 && Read(step.fallback.value)
                    == Some(Words(["nv", "unset", "system", "gnmi-server", "mtls", "ca-certificate"]))
                 && step.benign == Some(BenignFailure(GnmiMtlsSchemaAbsent, gnmiAbsent))
               case ClusterAppService(app) =>
                 && Read(step.command)
                    == Some(Words(["nv", "action", "restore", "cluster", "apps", app, "manager", "encryption"]))
                 && step.fallback.None? && step.benign == Some(BenignFailure(ClusterNotEnabled, Continue))
  {
    UnsetMtlsReads(service);
    UnsetGnmiCaReads();
  }

  /** The flow: one such step per service, in order, then apply and save, which tolerate nothing. An absent
      gNMI schema completes the flow exactly when gNMI is all that is listed. */
  lemma FlowExactly(services: seq<MtlsService>)
    ensures var steps := UnsetMtlsFlow(services).steps;
            && UnsetMtlsFlow(services).name == "unset_mtls"
            && |steps| == (if services == [] then 0 else |services| + 2)
            && (forall i | 0 <= i < |services| ::
                  steps[i] == UnsetStep(services[i], if (forall s | s in services :: s.GnmiServer?) then CompleteFlow
                                                     else Continue))
            && (services != [] ==>
                  && Read(steps[|services|].command) == Some(Words(["nv", "config", "apply", "--assume-yes"]))
                  && Read(steps[|services| + 1].command) == Some(Words(["nv", "config", "save"]))
                  && steps[|services|].subject == Some(Persist(ApplyAssumeYes))
                  && steps[|services| + 1].subject == Some(Persist(Save))
                  && forall i | |services| <= i < |steps| :: steps[i].fallback.None? && steps[i].benign.None?)
  {
    NvConfigReadsBack(ApplyAssumeYes);
    NvConfigReadsBack(Save);
    assert OnlyGnmi(services) <==> forall s | s in services :: s.GnmiServer?;
  }

  // ---- Order of what is sent ----------------------------------------------------------------

  predicate IsConfig(c: SwitchCommand) {
    c.Nv? && c.nv.args != [] && c.nv.args[0] == "config"
  }

  lemma {:induction false} SentConcat(a: seq<FlowStep>, b: seq<FlowStep>, sa: seq<StepStatus>, sb: seq<StepStatus>)
    requires |a| == |sa| && |b| == |sb|
    ensures Sent(a + b, sa + sb) == Sent(a, sa) + Sent(b, sb)
  {
    if a == [] {
      assert a + b == b && sa + sb == sb;
    } else {
      assert (a + b)[1..] == a[1..] + b && (sa + sb)[1..] == sa[1..] + sb;
      SentConcat(a[1..], b, sa[1..], sb);
    }
  }

  lemma {:induction false} NoConfigSent(steps: seq<FlowStep>, statuses: seq<StepStatus>)
    requires |steps| == |statuses|
    requires forall i | 0 <= i < |steps| ::
               !IsConfig(steps[i].command) && (steps[i].fallback.Some? ==> !IsConfig(steps[i].fallback.value))
    ensures forall c | c in Sent(steps, statuses) :: !IsConfig(c)
  {
    if steps != [] {
      NoConfigSent(steps[1..], statuses[1..]);
    }
  }

  lemma UnsetStepsSendNoConfig(services: seq<MtlsService>, statuses: seq<StepStatus>)
    requires |statuses| == |services|
    ensures forall c | c in Sent(UnsetSteps(services), statuses) :: !IsConfig(c)
  {
    var steps := UnsetSteps(services);
    forall i | 0 <= i < |steps|
      ensures !IsConfig(steps[i].command) && (steps[i].fallback.Some? ==> !IsConfig(steps[i].fallback.value))
    {
      UnsetStepIsNoConfig(services[i], if OnlyGnmi(services) then CompleteFlow else Continue);
    }
    NoConfigSent(steps, statuses);
  }

  lemma UnsetStepIsNoConfig(service: MtlsService, gnmiAbsent: BenignOutcome)
    ensures var step := UnsetStep(service, gnmiAbsent);
            !IsConfig(step.command) && (step.fallback.Some? ==> !IsConfig(step.fallback.value))
  {
  }

  lemma PersistCommands(op: ConfigOperation, status: StepStatus)
    ensures IsConfig(PersistStep(op).command)
    ensures StepCommands(PersistStep(op), status) == if status.NotAttempted? then [] else [Nv(NvConfig(op))]
  {
  }

  function IfAttempted(status: StepStatus, op: ConfigOperation): seq<SwitchCommand> {
    if status.NotAttempted? then [] else [Nv(NvConfig(op))]
  }

  /** What goes to the switch: commands that clear bindings, then apply, then save. The apply goes out
      only when every service passed, the save only when the apply succeeded. */
  lemma PersistsInOrder(services: seq<MtlsService>, exec: Executor, reply: nat -> Reply, goOn: nat -> bool)
    requires services != [] && Answers(exec, NAME, reply)
    ensures var r := RunSteps(exec, UnsetMtlsFlow(services).steps, goOn, 0, 0);
            |r.statuses| == |services| + 2 && InOrder(services, r)
  {
    var flow := UnsetMtlsFlow(services);
    FlowIsShaped(flow, exec, reply, goOn);
    AnswersTruthfully(exec, ByReplies(NAME, reply), NAME, reply);
    RunSends(exec, flow.steps, goOn, 0, 0);
    SplitTrace(services, RunSteps(exec, flow.steps, goOn, 0, 0).statuses);
    ShapedPersist(services, RunSteps(exec, flow.steps, goOn, 0, 0));
  }

  ghost predicate InOrder(services: seq<MtlsService>, r: Run)
    requires |r.statuses| == |services| + 2
  {
    var n := |services|;
    var unsets := Sent(UnsetSteps(services), r.statuses[..n]);
    && (forall c | c in unsets :: !IsConfig(c))
    && r.sent == unsets + IfAttempted(r.statuses[n], ApplyAssumeYes) + IfAttempted(r.statuses[n + 1], Save)
    && (!r.statuses[n].NotAttempted? ==> forall j | 0 <= j < n :: Passed(r.statuses[j]))
    && (!r.statuses[n + 1].NotAttempted? ==> r.statuses[n] == Succeeded(false))
  }

  lemma SplitTrace(services: seq<MtlsService>, statuses: seq<StepStatus>)
    requires services != [] && |statuses| == |services| + 2
    ensures var n := |services|;
            var unsets := Sent(UnsetSteps(services), statuses[..n]);
            && (forall c | c in unsets :: !IsConfig(c))
            && Sent(UnsetMtlsFlow(services).steps, statuses)
               == unsets + IfAttempted(statuses[n], ApplyAssumeYes) + IfAttempted(statuses[n + 1], Save)
  {
    var n := |services|;
    UnsetStepsSendNoConfig(services, statuses[..n]);
    SplitLastTwo(UnsetSteps(services), PersistStep(ApplyAssumeYes), PersistStep(Save), statuses);
    PersistCommands(ApplyAssumeYes, statuses[n]);
    PersistCommands(Save, statuses[n + 1]);
  }

  lemma SplitLastTwo(a: seq<FlowStep>, p: FlowStep, q: FlowStep, statuses: seq<StepStatus>)
    requires |statuses| == |a| + 2
    ensures Sent(a + [p, q], statuses)
            == Sent(a, statuses[..|a|]) + StepCommands(p, statuses[|a|]) + StepCommands(q, statuses[|a| + 1])
  {
    var n := |a|;
    assert statuses == statuses[..n] + [statuses[n], statuses[n + 1]];
    SentConcat(a, [p, q], statuses[..n], [statuses[n], statuses[n + 1]]);
    TwoSent(p, q, statuses[n], statuses[n + 1]);
  }

  lemma TwoSent(a: FlowStep, b: FlowStep, sa: StepStatus, sb: StepStatus)
    ensures Sent([a, b], [sa, sb]) == StepCommands(a, sa) + StepCommands(b, sb)
  {
    assert [a, b][1..] == [b] && [sa, sb][1..] == [sb];
    assert [b][1..] == [] && [sb][1..] == [];
    assert Sent([b], [sb]) == StepCommands(b, sb);
  }

  /** A reached persist step has everything before it passed, and passes only by succeeding. */
  lemma ShapedPersist(services: seq<MtlsService>, r: Run)
    requires services != [] && Shaped(UnsetMtlsFlow(services).steps, r)
    ensures var n := |services|;
            && (!r.statuses[n].NotAttempted? ==> forall j | 0 <= j < n :: Passed(r.statuses[j]))
            && (!r.statuses[n + 1].NotAttempted? ==> r.statuses[n] == Succeeded(false))
            && (Passed(r.statuses[n + 1]) ==> r.statuses[n + 1] == Succeeded(false))
  {
    var n := |services|;
    var steps := UnsetMtlsFlow(services).steps;
    assert steps[n] == PersistStep(ApplyAssumeYes) && steps[n + 1] == PersistStep(Save);
    assert Fits(steps[n], r.statuses[n]) && Fits(steps[n + 1], r.statuses[n + 1]);
  }

  // ---- When a change is left unsaved --------------------------------------------------------

  /** The run ended well on its own, yet some binding was cleared and the change was not saved. */
  predicate LeftUnsaved(services: seq<MtlsService>, r: Run) {
    && (r.ending.Completed? || r.ending.CompletedEarly?)
    && |r.statuses| == |services| + 2
    && !(r.statuses[|services|].Succeeded? && r.statuses[|services| + 1].Succeeded?)
    && exists j | 0 <= j < |services| :: r.statuses[j].Succeeded?
  }

  ghost predicate NeverLeavesUnsaved(services: seq<MtlsService>) {
    forall exec: Executor, reply: nat -> Reply, goOn: nat -> bool ::
      Answers(exec, NAME, reply) ==> !LeftUnsaved(services, RunSteps(exec, UnsetMtlsFlow(services).steps, goOn, 0, 0))
  }

  lemma ShapedIsSaved(services: seq<MtlsService>, r: Run)
    requires services != [] && Shaped(UnsetMtlsFlow(services).steps, r)
    requires !(OnlyGnmi(services) && |services| >= 2)
    ensures !LeftUnsaved(services, r)
  {
    var n := |services|;
    var steps := UnsetMtlsFlow(services).steps;
    ShapedPersist(services, r);
    if r.ending.CompletedEarly? {
      var m := r.reached - 1;
      assert m < n by {
        assert steps[n] == PersistStep(ApplyAssumeYes) && steps[n + 1] == PersistStep(Save);
      }
      assert steps[m] == UnsetSteps(services)[m];
      assert OnlyGnmi(services) && n == 1;
    }
  }

  /** The first unset succeeds, every later command meets a build without the schema. */
  function ThenAbsent(k: nat): Reply {
    if k == 0 then Output("") else Failing(Failure(FromTransport(0), "'mtls' is not one of"))
  }

  function Always(i: nat): bool {
    true
  }

  lemma AbsentIsBenign(outcome: BenignOutcome)
    ensures BenignFailure(GnmiMtlsSchemaAbsent, outcome).Matches("'mtls' is not one of")
  {
    var b := BenignFailure(GnmiMtlsSchemaAbsent, outcome);
    var m := Lower("'mtls' is not one of");
    assert b.reason.Fragments()[0] == "'mtls' is not one of";
    assert OccursAt(m, m, 0);
  }

  lemma FirstStepSucceeds(s: FlowStep)
    requires s == UnsetStep(GnmiServer, CompleteFlow)
    ensures RunStep(NAME, s, ThenAbsent(0), ThenAbsent(1)) == (Proceed(Succeeded(false), Continue), [s.command])
  {
  }

  lemma SecondStepCompletes(s: FlowStep)
    requires s == UnsetStep(GnmiServer, CompleteFlow)
    ensures RunStep(NAME, s, ThenAbsent(1), ThenAbsent(2))
            == (Proceed(Benign(GnmiMtlsSchemaAbsent), CompleteFlow), [s.command, s.fallback.value])
  {
    AbsentIsBenign(CompleteFlow);
  }

  lemma GnmiTwiceLeavesUnsaved(services: seq<MtlsService>, exec: Executor)
    requires OnlyGnmi(services) && |services| >= 2 && Answers(exec, NAME, ThenAbsent)
    ensures LeftUnsaved(services, RunSteps(exec, UnsetMtlsFlow(services).steps, Always, 0, 0))
  {
    var steps := UnsetMtlsFlow(services).steps;
    var s := UnsetStep(GnmiServer, CompleteFlow);
    assert steps[0] == s && steps[1] == s;
    assert Ran(exec, NAME, ThenAbsent, s, 0) && Ran(exec, NAME, ThenAbsent, s, 1);
    FirstStepSucceeds(s);
    SecondStepCompletes(s);
    TwoStepRun(exec, steps, s);
  }

  lemma TwoStepRun(exec: Executor, steps: seq<FlowStep>, s: FlowStep)
    requires |steps| >= 4 && steps[0] == s && steps[1] == s
    requires exec(s, 0) == (Proceed(Succeeded(false), Continue), [s.command])
    requires exec(s, 1).0 == Proceed(Benign(GnmiMtlsSchemaAbsent), CompleteFlow)
    ensures var r := RunSteps(exec, steps, Always, 0, 0);
            && r.ending.CompletedEarly? && |r.statuses| == |steps| && r.statuses[0].Succeeded?
            && forall j | 2 <= j < |steps| :: r.statuses[j].NotAttempted?
  {
    var rest := RunSteps(exec, steps[1..], Always, 1, 1);
    assert steps[1..][0] == s;
    assert rest.ending.CompletedEarly? && rest.statuses == [Benign(GnmiMtlsSchemaAbsent)] + Idle(|steps| - 2);
  }

  /** An uninterrupted run that returns Ok leaves no cleared binding unsaved, on any switch, exactly
      when the list does not name gNMI, and nothing else, more than once. */
  lemma SavedExactlyWhen(services: seq<MtlsService>)
    ensures NeverLeavesUnsaved(services) <==> !(OnlyGnmi(services) && |services| >= 2)
  {
    if OnlyGnmi(services) && |services| >= 2 {
      OnSwitchAnswers(NAME, ThenAbsent);
      GnmiTwiceRefutes(services, OnSwitch(NAME, ThenAbsent));
    } else {
      forall exec: Executor, reply: nat -> Reply, goOn: nat -> bool | Answers(exec, NAME, reply)
        ensures !LeftUnsaved(services, RunSteps(exec, UnsetMtlsFlow(services).steps, goOn, 0, 0))
      {
        RunIsSaved(services, exec, reply, goOn);
      }
    }
  }

  lemma RunIsSaved(services: seq<MtlsService>, exec: Executor, reply: nat -> Reply, goOn: nat -> bool)
    requires !(OnlyGnmi(services) && |services| >= 2) && Answers(exec, NAME, reply)
    ensures !LeftUnsaved(services, RunSteps(exec, UnsetMtlsFlow(services).steps, goOn, 0, 0))
  {
    if services != [] {
      FlowIsShaped(UnsetMtlsFlow(services), exec, reply, goOn);
      ShapedIsSaved(services, RunSteps(exec, UnsetMtlsFlow(services).steps, goOn, 0, 0));
    }
  }

  lemma Refuted(services: seq<MtlsService>, exec: Executor, reply: nat -> Reply, goOn: nat -> bool)
    requires Answers(exec, NAME, reply)
    requires LeftUnsaved(services, RunSteps(exec, UnsetMtlsFlow(services).steps, goOn, 0, 0))
    ensures !NeverLeavesUnsaved(services)
  {
  }

  lemma GnmiTwiceRefutes(services: seq<MtlsService>, exec: Executor)
    requires OnlyGnmi(services) && |services| >= 2 && Answers(exec, NAME, ThenAbsent)
    ensures !NeverLeavesUnsaved(services)
  {
    GnmiTwiceLeavesUnsaved(services, exec);
    Refuted(services, exec, ThenAbsent, Always);
  }
}
