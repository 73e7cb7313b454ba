/** The tracked service (workflowEntry in core/workflow.go) as a value, and one call of
    each `execute` in core/transition.go as a function. */
module Entries {
  import opened Wrappers
  import opened Comm
  import opened Workflow

  /** Nanoseconds; 0 is Go's zero time. */
  type Time = nat

  datatype Entry = Entry(
    workInProgress: bool,
    wipTime: Time,
    state: string,
    expectedState: string,
    error: string,
    timeDetected: Time,
    lastUpdate: Time,
    service: Service,
    closeTime: Time,
    transition: Transition)
  {
    predicate IsReverse() { expectedState == UNDEPLOYED }

    predicate IsStateAsWanted(action: Action) {
      expectedState == state && ((state == DEPLOYED && action == Add) || (state == UNDEPLOYED && action == Delete))
    }
  }

  predicate IsIpam(name: string) {
    "ipam." <= name
  }

  // ----- the setters -----

  function SetNextStep(line: seq<string>, e: Entry): Entry {
    match NextStep(line, e.state, e.IsReverse())
    case None => e
    case Some(next) =>
      e.(state := next, transition := TransitionOf(line, next), workInProgress := false, wipTime := 0, closeTime := 0)
  }

  function SetWIP(e: Entry, wip: bool, now: Time): Entry {
    e.(workInProgress := wip, wipTime := if wip then now else 0)
  }

  function SetState(e: Entry, msg: Message, wip: bool): Entry {
    e.(state := msg.sender, workInProgress := wip, error := msg.error, closeTime := 0)
  }

  /** Only the provider defines the service and only ipam its address. */
  function UpdateService(s: Service, msg: Message): Service {
    var s1 :=
      if IsProvider(msg.sender) && msg.action != Delete
      then s.(targets := msg.service.targets, tls := msg.service.tls, dnsAliases := msg.service.dnsAliases)
      else s;
    var s2 := if IsIpam(msg.sender) then s1.(publicIP := msg.service.publicIP) else s1;
    s2.(name := msg.service.name)
  }

  function CloseEntry(e: Entry, error: string, now: Time): Entry {
    SetWIP(e, false, now).(
      error := if error != "" then error else e.error,
      state := if e.IsReverse() then UNDEPLOYED else DEPLOYED,
      closeTime := now)
  }

  function RequestFor(e: Entry): Message {
    BuildMessage(e.service, e.IsReverse()).(destination := e.state)
  }

  function NewEntry(line: seq<string>, now: Time): Entry {
    SetNextStep(line, Entry(false, 0, UNDEPLOYED, DEPLOYED, "", now, 0, EMPTY_SERVICE, 0, NilTransition))
  }

  function Unhandled(a: Action): string {
    "Unhandled action " + ActionText(a)
  }

  // ----- one call of execute -----

  /** A call ends, calls `we.transition.execute` again, or calls it on a nil interface. */
  datatype Call = Halt(entry: Entry, sent: seq<Message>) | Again(next: Entry, msg: Message) | NilCall

  function SendToExtension(e: Entry, now: Time): Call {
    var e1 := SetWIP(e, true, now);
    Halt(e1, [RequestFor(e1)])
  }

  function ProviderCall(e: Entry, msg: Message, now: Time): Call {
    match msg.action
    case Add =>
      Again(SetState(e.(lastUpdate := now, expectedState := DEPLOYED, transition := ProviderAddState), msg, false), msg)
    case Delete => Again(e.(transition := ProviderDeleteState), msg)
    case _ => Halt(e.(error := Unhandled(msg.action)), [])
  }

  function ProviderAddCall(line: seq<string>, e: Entry, msg: Message): Call {
    if msg.action != Add || !IsProvider(msg.sender) then Halt(e, [])
    else if e.closeTime == 0 && e.error == "" && !IsProvider(e.state) then Halt(e, [])
    else Again(SetNextStep(line, e), msg)
  }

  function ProviderDeleteCall(line: seq<string>, e: Entry, msg: Message): Call {
    if msg.action != Delete || !IsProvider(msg.sender) then Halt(e, [])
    else
      var e1 := if e.workInProgress then SetNextStep(line, e) else e;
      var e2 := SetNextStep(line, e1.(expectedState := UNDEPLOYED));
      Again(e2, msg.(service := e2.service))
  }

  function ProvisionerCall(line: seq<string>, e: Entry, msg: Message, now: Time): Call {
    if !e.workInProgress then SendToExtension(e, now)
    else if msg.sender != e.state then Halt(e, [])
    else if msg.error != "" then Halt(SetWIP(e, false, now).(error := msg.error), [])
    else
      var e1 := SetNextStep(line, e.(service := UpdateService(e.service, msg)));
      if e1.state == (if e1.IsReverse() then UNDEPLOYED else DEPLOYED) then Again(e1.(transition := CloseState), msg)
      else SendToExtension(e1, now)
  }

  function Execute(line: seq<string>, e: Entry, msg: Message, now: Time): Call {
    match e.transition
    case ProviderState => ProviderCall(e, msg, now)
    case ProviderAddState => ProviderAddCall(line, e, msg)
    case ProviderDeleteState => ProviderDeleteCall(line, e, msg)
    case ProvisionerState => ProvisionerCall(line, e, msg, now)
    case CloseState => Halt(CloseEntry(e, msg.error, now), [])
    case NilTransition => NilCall
  }

  // ----- whole dispatch -----

  datatype Outcome = Settled(entry: Entry, sent: seq<Message>) | OutOfCalls | NilDispatch

  /** The nested calls, at most `calls` of them. */
  function Dispatch(line: seq<string>, e: Entry, msg: Message, now: Time, calls: nat): Outcome
    decreases calls
  {
    if calls == 0 then OutOfCalls
    else
      match Execute(line, e, msg, now)
      case Halt(e1, sent) => Settled(e1, sent)
      case Again(e1, msg1) => Dispatch(line, e1, msg1, now, calls - 1)
      case NilCall => NilDispatch
  }

  predicate NeedsUpdate(e: Entry, msg: Message) {
    !IsSameThan(e.service, msg.service).0 || !e.IsStateAsWanted(msg.action)
  }

  /** What mergeMessage does to the entry before the dispatch. */
  function Prepared(line: seq<string>, e: Entry, msg: Message): Entry {
    e.(service := UpdateService(e.service, msg), transition := TransitionOf(line, msg.sender))
  }

  const CALLS := 3

  /** mergeMessage for one service, with its dispatch. */
  function Merge(line: seq<string>, o: Option<Entry>, msg: Message, now: Time): Outcome {
    if o.Some? && !NeedsUpdate(o.value, msg) then Settled(o.value.(lastUpdate := now), [])
    else Dispatch(line, Prepared(line, o.GetOr(NewEntry(line, now)), msg), msg, now, CALLS)
  }

  // ----- termination of the dispatch -----

  /** Messages come from the steps of the workflow. */
  predicate FromStep(line: seq<string>, msg: Message) {
    msg.sender in line && msg.sender != UNDEPLOYED && msg.sender != DEPLOYED
  }

  /** The guard of the endless call: a delete of what is undeployed already. */
  predicate EndlessDelete(e: Entry, msg: Message) {
    && IsProvider(msg.sender) && msg.action == Delete
    && e.state == UNDEPLOYED
    && (e.workInProgress ==> e.IsReverse())
  }
}
