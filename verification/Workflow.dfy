/** The table of steps (core/workflow.go) and the search through it. */
module Workflow {
  import opened Wrappers
  import Text

  const DEPLOYED := "deployed"
  const UNDEPLOYED := "undeployed"

  datatype Transition =
    ProviderState | ProviderAddState | ProviderDeleteState | ProvisionerState | CloseState | NilTransition

  datatype WorkflowStep = WorkflowStep(id: int, name: string, transition: Transition)

  predicate IsProvider(name: string) {
    "provider." <= name
  }

  function StepTransition(name: string): Transition {
    if Text.Split(name, '.')[0] == "provider" then ProviderState else ProvisionerState
  }

  function Configured(names: seq<string>): (wf: seq<WorkflowStep>)
    ensures |wf| == |names|
    ensures forall k | 0 <= k < |names| :: wf[k] == WorkflowStep(k + 1, names[k], StepTransition(names[k]))
  {
    if |names| == 0 then []
    else
      var last := |names| - 1;
      Configured(names[..last]) + [WorkflowStep(|names|, names[last], StepTransition(names[last]))]
  }

  /** The configured steps in order, then the two ends: IDs follow the line, list positions do not. */
  function Table(names: seq<string>): (wf: seq<WorkflowStep>)
    ensures |wf| == |names| + 2
  {
    Configured(names) + [WorkflowStep(0, UNDEPLOYED, CloseState), WorkflowStep(|names| + 1, DEPLOYED, CloseState)]
  }

  method InitWorkflow(workflowConfig: string) returns (wf: seq<WorkflowStep>)
    ensures wf == Table(Text.Split(workflowConfig, ','))
  {
    wf := [];
    var names := Text.Split(workflowConfig, ',');
    for k := 0 to |names|
      invariant wf == Configured(names[..k])
    {
      assert names[..k + 1][..k] == names[..k];
      var extType := Text.Split(names[k], '.')[0];
      var transitionState := if extType == "provider" then ProviderState else ProvisionerState;
      wf := wf + [WorkflowStep(k + 1, names[k], transitionState)];
    }
    assert names[..|names|] == names;
    wf := wf + [WorkflowStep(0, UNDEPLOYED, CloseState)];
    wf := wf + [WorkflowStep(|wf|, DEPLOYED, CloseState)];
  }

  /** What the configuration must give: distinct steps of the form type.name, none named
      like an end, and at least one provisioner. */
  ghost predicate WellFormed(names: seq<string>) {
    && (forall i, j | 0 <= i < j < |names| :: names[i] != names[j])
    && UNDEPLOYED !in names && DEPLOYED !in names
    && (forall name | name in names :: |Text.Split(name, '.')| == 2)
    && exists k :: 0 <= k < |names| && !IsProvider(names[k])
  }

  /** All steps in the order of their IDs. */
  function Line(names: seq<string>): (line: seq<string>)
    ensures |line| == |names| + 2
    ensures line[0] == UNDEPLOYED && line[|names| + 1] == DEPLOYED
    ensures forall k | 1 <= k <= |names| :: line[k] == names[k - 1]
  {
    [UNDEPLOYED] + names + [DEPLOYED]
  }

  ghost predicate ValidLine(line: seq<string>) {
    && |line| >= 3
    && line[0] == UNDEPLOYED && line[|line| - 1] == DEPLOYED
    && (forall i, j | 0 <= i < j < |line| :: line[i] != line[j])
    && exists k :: 0 < k < |line| - 1 && !IsProvider(line[k])
  }

  function Find(line: seq<string>, name: string): (r: Option<nat>)
    ensures r.Some? <==> name in line
    ensures r.Some? ==> r.value < |line| && line[r.value] == name && name !in line[..r.value]
  {
    if name !in line then None else Some(FirstAt(line, name))
  }

  function FirstAt(line: seq<string>, name: string): (i: nat)
    requires name in line
    ensures i < |line| && line[i] == name && name !in line[..i]
  {
    if line[0] == name then 0
    else
      var i := 1 + FirstAt(line[1..], name);
      assert line[..i] == [line[0]] + line[1..][..i - 1];
      i
  }

  /** The nearest step strictly ahead that is not a provider. */
  function NextIndex(line: seq<string>, i: nat, reverse: bool): (r: Option<nat>)
    requires i < |line|
    ensures r.Some? ==> r.value < |line| && !IsProvider(line[r.value])
    ensures r.Some? && !reverse ==> i < r.value && forall k | i < k < r.value :: IsProvider(line[k])
    ensures r.Some? && reverse ==> r.value < i && forall k | r.value < k < i :: IsProvider(line[k])
    ensures r.None? && !reverse ==> forall k | i < k < |line| :: IsProvider(line[k])
    ensures r.None? && reverse ==> forall k | 0 <= k < i :: IsProvider(line[k])
    decreases if reverse then i else |line| - i
  {
    if (if reverse then i == 0 else i == |line| - 1) then None
    else
      var j := if reverse then i - 1 else i + 1;
      if IsProvider(line[j]) then NextIndex(line, j, reverse) else Some(j)
  }

  function NextStep(line: seq<string>, current: string, reverse: bool): Option<string> {
    match Find(line, current)
    case None => None
    case Some(i) =>
      match NextIndex(line, i, reverse)
      case None => None
      case Some(j) => Some(line[j])
  }

  function TransitionOf(line: seq<string>, name: string): Transition {
    match Find(line, name)
    case None => NilTransition
    case Some(i) =>
      if i == 0 || i == |line| - 1 then CloseState
      else if IsProvider(name) then ProviderState
      else ProvisionerState
  }

  /** The table lists each step of the line once, in some order. */
  ghost predicate Tabulates(wf: seq<WorkflowStep>, line: seq<string>) {
    && |wf| == |line|
    && (forall k | 0 <= k < |wf| :: OnLine(wf[k], line))
    && (forall id: int | 0 <= id < |line| :: HasID(wf, id))
  }

  predicate OnLine(s: WorkflowStep, line: seq<string>) {
    0 <= s.id < |line| && s.name == line[s.id] && s.transition == TransitionOf(line, s.name)
  }

  ghost predicate HasID(wf: seq<WorkflowStep>, id: int) {
    exists k :: 0 <= k < |wf| && wf[k].id == id
  }

  // ----- a well-formed configuration gives a valid line and its table -----

  lemma EndsAreNoProviders()
    ensures DEPLOYED != UNDEPLOYED
    ensures !IsProvider(DEPLOYED) && !IsProvider(UNDEPLOYED)
  {
    assert DEPLOYED[0] == 'd' && UNDEPLOYED[0] == 'u' && "provider."[0] == 'p';
  }

  /** For type.name, the type is "provider" exactly when the name starts with "provider.". */
  lemma TypeIsPrefix(name: string)
    requires |Text.Split(name, '.')| == 2
    ensures Text.Split(name, '.')[0] == "provider" <==> IsProvider(name)
  {
    Text.SplitParts(name, '.');
    var i := Text.IndexOf(name, '.');
    if IsProvider(name) {
      assert name[8] == '.' && forall k | 0 <= k < 8 :: name[k] == "provider."[k];
      assert i == 8;
      assert name[..8] == "provider";
    }
    if name[..i] == "provider" {
      assert name[..9] == name[..8] + [name[8]] == "provider.";
    }
  }

  lemma StepTransitionByPrefix(names: seq<string>)
    requires WellFormed(names)
    ensures forall k | 0 <= k < |names| ::
      Configured(names)[k].transition == if IsProvider(names[k]) then ProviderState else ProvisionerState
  {
    forall k | 0 <= k < |names|
      ensures StepTransition(names[k]) == if IsProvider(names[k]) then ProviderState else ProvisionerState
    {
      assert names[k] in names;
      TypeIsPrefix(names[k]);
    }
  }

  lemma LineIsValid(names: seq<string>)
    requires WellFormed(names)
    ensures ValidLine(Line(names))
  {
    EndsAreNoProviders();
    var line := Line(names);
    forall i, j | 0 <= i < j < |line| ensures line[i] != line[j] {
      assert 1 <= i <= |names| ==> line[i] in names;
      assert 1 <= j <= |names| ==> line[j] in names;
    }
    var k :| 0 <= k < |names| && !IsProvider(names[k]);
    assert !IsProvider(line[k + 1]);
  }

  lemma FindAt(line: seq<string>, i: nat)
    requires forall i, j | 0 <= i < j < |line| :: line[i] != line[j]
    requires i < |line|
    ensures Find(line, line[i]) == Some(i)
  {
  }

  lemma StepOnLine(line: seq<string>, s: WorkflowStep)
    requires ValidLine(line) && 0 <= s.id < |line| && s.name == line[s.id]
    requires s.transition ==
      if s.id == 0 || s.id == |line| - 1 then CloseState else if IsProvider(s.name) then ProviderState else ProvisionerState
    ensures OnLine(s, line)
  {
    FindAt(line, s.id);
  }

  lemma TabulatesFrom(configured: seq<WorkflowStep>, first: WorkflowStep, last: WorkflowStep, line: seq<string>)
    requires |line| == |configured| + 2
    requires forall k | 0 <= k < |configured| :: OnLine(configured[k], line) && configured[k].id == k + 1
    requires OnLine(first, line) && first.id == 0
    requires OnLine(last, line) && last.id == |line| - 1
    ensures Tabulates(configured + [first, last], line)
  {
    var wf := configured + [first, last];
    forall id: int | 0 <= id < |line| ensures HasID(wf, id) {
      var k := if id == 0 then |line| - 2 else if id == |line| - 1 then |line| - 1 else id - 1;
      assert wf[k].id == id;
    }
  }

  lemma ConfiguredOnLine(names: seq<string>, line: seq<string>)
    requires WellFormed(names) && ValidLine(line) && line == Line(names)
    ensures forall k | 0 <= k < |names| :: OnLine(Configured(names)[k], line)
  {
    StepTransitionByPrefix(names);
    forall k | 0 <= k < |names| ensures OnLine(Configured(names)[k], line) {
      var step := Configured(names)[k];
      assert step.id == k + 1 && step.name == names[k] == line[k + 1];
      StepOnLine(line, step);
    }
  }

  lemma TableTabulates(names: seq<string>)
    requires WellFormed(names)
    ensures ValidLine(Line(names)) && Tabulates(Table(names), Line(names))
  {
    LineIsValid(names);
    var line := Line(names);
    ConfiguredOnLine(names, line);
    var first, last := WorkflowStep(0, UNDEPLOYED, CloseState), WorkflowStep(|names| + 1, DEPLOYED, CloseState);
    StepOnLine(line, first);
    StepOnLine(line, last);
    TabulatesFrom(Configured(names), first, last, line);
  }

  // ----- the searches of the Go code -----

  method IsLastStep(wf: seq<WorkflowStep>, step: string, reverse: bool, ghost line: seq<string>) returns (r: bool)
    requires ValidLine(line) && Tabulates(wf, line)
    ensures r <==> step == if reverse then UNDEPLOYED else DEPLOYED
  {
    var lastStep := "";
    var id := 0;
    if !reverse {
      id := |wf| - 1;
    }
    assert HasID(wf, id);
    ghost var place :| 0 <= place < |wf| && wf[place].id == id;
    for k := 0 to |wf|
      invariant k > place ==> lastStep == line[id]
    {
      assert OnLine(wf[k], line);
      if wf[k].id == id {
        lastStep := wf[k].name;
      }
    }
    r := step == lastStep;
  }

  method GetTransition(wf: seq<WorkflowStep>, step: string, ghost line: seq<string>) returns (t: Transition)
    requires ValidLine(line) && Tabulates(wf, line)
    ensures t == TransitionOf(line, step)
  {
    for k := 0 to |wf|
      invariant forall j | 0 <= j < k :: wf[j].name != step
    {
      assert OnLine(wf[k], line);
      if wf[k].name == step {
        return wf[k].transition;
      }
    }
    NoEntryNoStep(wf, step, line);
    return NilTransition;
  }

  lemma NoEntryNoStep(wf: seq<WorkflowStep>, step: string, line: seq<string>)
    requires Tabulates(wf, line)
    requires forall j | 0 <= j < |wf| :: wf[j].name != step
    ensures step !in line
  {
    forall i: int | 0 <= i < |line| ensures line[i] != step {
      assert HasID(wf, i);
      var k :| 0 <= k < |wf| && wf[k].id == i;
      assert OnLine(wf[k], line);
    }
  }

  /** The ID of a step by name: the last table entry of that name decides. */
  method FindID(wf: seq<WorkflowStep>, name: string, ghost line: seq<string>) returns (found: bool, stepID: int)
    requires ValidLine(line) && Tabulates(wf, line)
    ensures found <==> name in line
    ensures found ==> Find(line, name) == Some(stepID)
  {
    found, stepID := false, 0;
    for k := 0 to |wf|
      invariant !found ==> forall j | 0 <= j < k :: wf[j].name != name
      invariant found ==> Find(line, name) == Some(stepID)
    {
      if wf[k].name == name {
        assert OnLine(wf[k], line);
        FindAt(line, wf[k].id);
        found := true;
        stepID := wf[k].id;
      }
    }
    if !found {
      NoEntryNoStep(wf, name, line);
    }
  }

  /** The step with an ID. */
  method FindByID(wf: seq<WorkflowStep>, id: int, ghost line: seq<string>) returns (found: bool, name: string, t: Transition)
    requires ValidLine(line) && Tabulates(wf, line)
    ensures found <==> 0 <= id < |line|
    ensures found ==> name == line[id] && t == TransitionOf(line, name)
  {
    found, name, t := false, "", NilTransition;
    for k := 0 to |wf|
      invariant !found ==> forall j | 0 <= j < k :: wf[j].id != id
      invariant found ==> 0 <= id < |line| && name == line[id] && t == TransitionOf(line, name)
    {
      assert OnLine(wf[k], line);
      if wf[k].id == id {
        found := true;
        name, t := wf[k].name, wf[k].transition;
      }
    }
    assert 0 <= id < |line| ==> HasID(wf, id);
  }

  /** The step at the next ID, or the one after it when that is a provider. */
  lemma NextByID(line: seq<string>, current: string, reverse: bool, id: int)
    requires ValidLine(line) && Find(line, current).Some?
    requires id == Find(line, current).value + if reverse then -1 else 1
    ensures !(0 <= id < |line|) ==> NextStep(line, current, reverse).None?
    ensures 0 <= id < |line| ==>
      && Find(line, line[id]) == Some(id)
      && NextStep(line, current, reverse).Some?
      && NextStep(line, current, reverse) ==
           if IsProvider(line[id]) then NextStep(line, line[id], reverse) else Some(line[id])
  {
    if 0 <= id < |line| {
      var i := Find(line, current).value;
      FindAt(line, id);
      BeforeTheEnd(line, i, reverse);
      assert NextIndex(line, i, reverse) == if IsProvider(line[id]) then NextIndex(line, id, reverse) else Some(id);
    }
  }

  /** Only the last step in the direction has none after it. */
  lemma BeforeTheEnd(line: seq<string>, i: nat, reverse: bool)
    requires ValidLine(line) && i < |line|
    ensures NextIndex(line, i, reverse).None? ==> i == if reverse then 0 else |line| - 1
  {
    EndsAreNoProviders();
    assert !IsProvider(line[0]) && !IsProvider(line[|line| - 1]);
  }

  /** getNextStep: error for an unknown name and beyond the ends; provider steps are
      passed over by a recursive call, whose error the code drops. */
  method GetNextStep(wf: seq<WorkflowStep>, currentStep: string, reverse: bool, ghost line: seq<string>)
    returns (nextStep: string, next: Transition, ok: bool)
    requires ValidLine(line) && Tabulates(wf, line)
    ensures ok <==> NextStep(line, currentStep, reverse).Some?
    ensures ok ==> nextStep == NextStep(line, currentStep, reverse).value && next == TransitionOf(line, nextStep)
    decreases match Find(line, currentStep)
              case None => 0
              case Some(i) => if reverse then i else |line| - i
  {
    var found, stepID := FindID(wf, currentStep, line);
    if !found {
      return "", NilTransition, false;
    }
    if reverse {
      stepID := stepID - 1;
    } else {
      stepID := stepID + 1;
    }
    NextByID(line, currentStep, reverse, stepID);
    found, nextStep, next := FindByID(wf, stepID, line);
    if !found {
      return nextStep, next, false;
    }
    if IsProvider(nextStep) {
      var dropped;
      nextStep, next, dropped := GetNextStep(wf, nextStep, reverse, line);
    }
    return nextStep, next, true;
  }
}
