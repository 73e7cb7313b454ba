/** The mutable objects of the core: a tracked service, and the server with its table of
    services and the channel to the extensions. Each message is merged and executed as one
    atomic step. */
module Core {
  import opened Wrappers
  import opened Comm
  import opened Workflow
  import opened Entries
  import Weights
  import Tracks
  import opened Store
  import Runs
  import StoreRuns

  class WorkflowEntry {
    var workInProgress: bool
    var wipTime: Time
    var state: string
    var expectedState: string
    var error: string
    var timeDetected: Time
    var lastUpdate: Time
    var service: Service
    var closeTime: Time
    var transition: Transition

    function View(): Entry
      reads this
    {
      Entry(workInProgress, wipTime, state, expectedState, error, timeDetected, lastUpdate, service, closeTime, transition)
    }

    /** makeNewFlowEntry. */
    constructor (wf: seq<WorkflowStep>, now: Time, ghost line: seq<string>)
      requires ValidLine(line) && Tabulates(wf, line)
      ensures View() == NewEntry(line, now)
    {
      workInProgress, wipTime, error, lastUpdate, closeTime := false, 0, "", 0, 0;
      service, transition := EMPTY_SERVICE, NilTransition;
      timeDetected := now;
      state := UNDEPLOYED;
      expectedState := DEPLOYED;
      new;
      SetNextStep(wf, line);
    }

    method SetError(err: string)
      modifies this
      ensures View() == old(View()).(error := err)
    {
      error := err;
    }

    method SetWIP(wip: bool, now: Time)
      modifies this
      ensures View() == Entries.SetWIP(old(View()), wip, now)
    {
      if wip {
        wipTime := now;
      } else {
        wipTime := 0;
      }
      workInProgress := wip;
    }

    method SetTargetState(target: string)
      modifies this
      ensures View() == old(View()).(expectedState := target)
    {
      expectedState := target;
    }

    method SetLastUpdate(now: Time)
      modifies this
      ensures View() == old(View()).(lastUpdate := now)
    {
      lastUpdate := now;
    }

    method SetTransition(wf: seq<WorkflowStep>, step: string, ghost line: seq<string>)
      requires ValidLine(line) && Tabulates(wf, line)
      modifies this
      ensures View() == old(View()).(transition := TransitionOf(line, step))
    {
      transition := GetTransition(wf, step, line);
    }

    method SetNextStep(wf: seq<WorkflowStep>, ghost line: seq<string>)
      requires ValidLine(line) && Tabulates(wf, line)
      modifies this
      ensures View() == Entries.SetNextStep(line, old(View()))
    {
      var nextStep, next, ok := GetNextStep(wf, state, View().IsReverse(), line);
      if !ok {
        return;
      }
      state := nextStep;
      transition := next;
      workInProgress := false;
      wipTime := 0;
      closeTime := 0;
    }

    method SetState(msg: Message, wip: bool)
      modifies this
      ensures View() == Entries.SetState(old(View()), msg, wip)
    {
      state := msg.sender;
      workInProgress := wip;
      error := msg.error;
      closeTime := 0;
    }

    method UpdateService(msg: Message)
      modifies this
      ensures View() == old(View()).(service := Entries.UpdateService(old(service), msg))
      ensures service.name == msg.service.name && service.provider == old(service.provider)
      ensures service.publicIP == if "ipam." <= msg.sender then msg.service.publicIP else old(service.publicIP)
      ensures
        if "provider." <= msg.sender && msg.action != Delete
        then service.targets == msg.service.targets && service.tls == msg.service.tls && service.dnsAliases == msg.service.dnsAliases
        else service.targets == old(service.targets) && service.tls == old(service.tls) && service.dnsAliases == old(service.dnsAliases)
    {
      if IsProvider(msg.sender) && msg.action != Delete {
        service := service.(targets := msg.service.targets);
        service := service.(tls := msg.service.tls);
        service := service.(dnsAliases := msg.service.dnsAliases);
      }
      if IsIpam(msg.sender) {
        service := service.(publicIP := msg.service.publicIP);
      }
      service := service.(name := msg.service.name);
    }

    method Close(errorMessage: string, now: Time)
      modifies this
      ensures View() == CloseEntry(old(View()), errorMessage, now)
    {
      SetWIP(false, now);
      if errorMessage != "" {
        SetError(errorMessage);
      }
      if View().IsReverse() {
        state := UNDEPLOYED;
      } else {
        state := DEPLOYED;
      }
      closeTime := now;
    }
  }

  class Server {
    const workflow: seq<WorkflowStep>
    ghost const line: seq<string>
    const durations: Durations
    var entries: map<string, WorkflowEntry>
    /** What went through the channel msgToExtension. */
    var sent: seq<Message>
    /** The services whose provider was asked for a refresh. */
    var refreshed: seq<string>
    /** All that has happened. */
    ghost var history: seq<Runs.Event>

    ghost predicate Valid()
      reads `entries
    {
      && ValidLine(line) && Tabulates(workflow, line)
      && forall k, l | k in entries && l in entries && k != l :: entries[k] != entries[l]
    }

    ghost function Snapshot(): (s: map<string, Entry>)
      reads `entries, entries.Values
    {
      map k | k in entries :: entries[k].View()
    }

    /** The table and the channel are what a run of the history from the empty table gives. */
    ghost predicate Consistent()
      reads this, entries.Values
    {
      Valid() && StoreRuns.Explains(line, durations, history, Snapshot(), sent)
    }

    constructor (names: seq<string>, durations: Durations)
      requires WellFormed(names)
      ensures Consistent() && history == [] && line == Line(names) && this.durations == durations
      ensures Snapshot() == map[] && sent == [] && refreshed == []
    {
      TableTabulates(names);
      this.workflow := Table(names);
      this.line := Line(names);
      this.durations := durations;
      entries := map[];
      sent := [];
      refreshed := [];
      history := [];
    }

    method SendToExtension(we: WorkflowEntry, now: Time)
      modifies we, `sent
      ensures |sent| >= |old(sent)| && sent[..|old(sent)|] == old(sent)
      ensures Entries.SendToExtension(old(we.View()), now) == Halt(we.View(), sent[|old(sent)|..])
    {
      we.SetWIP(true, now);
      var msg := BuildMessage(we.service, we.View().IsReverse());
      msg := msg.(destination := we.state);
      sent := sent + [msg];
    }

    // ----- execute: the ghost count bounds the nested calls -----

    method Execute(we: WorkflowEntry, msg: Message, now: Time, ghost calls: nat)
      requires Valid()
      requires Dispatch(line, we.View(), msg, now, calls).Settled?
      modifies we, `sent
      ensures |sent| >= |old(sent)| && sent[..|old(sent)|] == old(sent)
      ensures Dispatch(line, old(we.View()), msg, now, calls) == Settled(we.View(), sent[|old(sent)|..])
      decreases calls, 1
    {
      match we.transition
      case ProviderState => ExecuteProvider(we, msg, now, calls);
      case ProviderAddState => ExecuteProviderAdd(we, msg, now, calls);
      case ProviderDeleteState => ExecuteProviderDelete(we, msg, now, calls);
      case ProvisionerState => ExecuteProvisioner(we, msg, now, calls);
      case CloseState => we.Close(msg.error, now);
    }

    method ExecuteProvider(we: WorkflowEntry, msg: Message, now: Time, ghost calls: nat)
      requires Valid() && we.transition == ProviderState
      requires Dispatch(line, we.View(), msg, now, calls).Settled?
      modifies we, `sent
      ensures |sent| >= |old(sent)| && sent[..|old(sent)|] == old(sent)
      ensures Dispatch(line, old(we.View()), msg, now, calls) == Settled(we.View(), sent[|old(sent)|..])
      decreases calls, 0
    {
      match msg.action {
        case Add =>
          we.SetLastUpdate(now);
          we.SetTargetState(DEPLOYED);
          we.transition := ProviderAddState;
          we.SetState(msg, false);
        case Delete =>
          we.transition := ProviderDeleteState;
        case _ =>
          we.SetError(Unhandled(msg.action));
          return;
      }
      Execute(we, msg, now, calls - 1);
    }

    method ExecuteProviderAdd(we: WorkflowEntry, msg: Message, now: Time, ghost calls: nat)
      requires Valid() && we.transition == ProviderAddState
      requires Dispatch(line, we.View(), msg, now, calls).Settled?
      modifies we, `sent
      ensures |sent| >= |old(sent)| && sent[..|old(sent)|] == old(sent)
      ensures Dispatch(line, old(we.View()), msg, now, calls) == Settled(we.View(), sent[|old(sent)|..])
      decreases calls, 0
    {
      if msg.action != Add || !IsProvider(msg.sender) {
        return;
      }
      if we.closeTime == 0 && we.error == "" && !IsProvider(we.state) {
        return;
      }
      we.SetNextStep(workflow, line);
      Execute(we, msg, now, calls - 1);
    }

    method ExecuteProviderDelete(we: WorkflowEntry, msg: Message, now: Time, ghost calls: nat)
      requires Valid() && we.transition == ProviderDeleteState
      requires Dispatch(line, we.View(), msg, now, calls).Settled?
      modifies we, `sent
      ensures |sent| >= |old(sent)| && sent[..|old(sent)|] == old(sent)
      ensures Dispatch(line, old(we.View()), msg, now, calls) == Settled(we.View(), sent[|old(sent)|..])
      decreases calls, 0
    {
      if msg.action != Delete || !IsProvider(msg.sender) {
        return;
      }
      if we.workInProgress {
        we.SetNextStep(workflow, line);
      }
      we.SetTargetState(UNDEPLOYED);
      we.SetNextStep(workflow, line);
      Execute(we, msg.(service := we.service), now, calls - 1);
    }

    method ExecuteProvisioner(we: WorkflowEntry, msg: Message, now: Time, ghost calls: nat)
      requires Valid() && we.transition == ProvisionerState
      requires Dispatch(line, we.View(), msg, now, calls).Settled?
      modifies we, `sent
      ensures |sent| >= |old(sent)| && sent[..|old(sent)|] == old(sent)
      ensures Dispatch(line, old(we.View()), msg, now, calls) == Settled(we.View(), sent[|old(sent)|..])
      decreases calls, 0
    {
      if we.workInProgress {
        if msg.sender != we.state {
          return;
        }
        if msg.error != "" {
          we.SetWIP(false, now);
          we.SetError(msg.error);
          return;
        }
        we.UpdateService(msg);
        we.SetNextStep(workflow, line);
        var last := IsLastStep(workflow, we.state, we.View().IsReverse(), line);
        if last {
          we.transition := CloseState;
          Execute(we, msg, now, calls - 1);
          return;
        }
        SendToExtension(we, now);
      } else {
        SendToExtension(we, now);
      }
    }

    // ----- mergeMessage -----

    method ServiceNeedUpdate(msg: Message) returns (r: bool)
      ensures r <==> (msg.service.name in entries ==> NeedsUpdate(entries[msg.service.name].View(), msg))
      ensures !r <==>
        && msg.service.name in entries
        && var e := entries[msg.service.name];
           && e.service.targets == msg.service.targets
           && e.service.tls == msg.service.tls
           && e.service.dnsAliases == msg.service.dnsAliases
           && ((e.state == "deployed" && e.expectedState == "deployed" && msg.action == Add)
               || (e.state == "undeployed" && e.expectedState == "undeployed" && msg.action == Delete))
    {
      if msg.service.name !in entries {
        return true;
      }
      var curSvc := entries[msg.service.name];
      var same := IsSameThan(curSvc.service, msg.service).0;
      if !same {
        return true;
      }
      return !curSvc.View().IsStateAsWanted(msg.action);
    }

    /** The entry of this name, created if need be. */
    method EntryFor(name: string, now: Time) returns (entry: WorkflowEntry)
      requires Valid()
      modifies `entries
      ensures Valid() && name in entries && entries[name] == entry
      ensures entries == old(entries)[name := entry]
      ensures name in old(entries) ==> entry == old(entries)[name]
      ensures name !in old(entries) ==> fresh(entry)
      ensures entry.View() == Lookup(old(Snapshot()), name).GetOr(NewEntry(line, now))
    {
      if name !in entries {
        var ne := new WorkflowEntry(workflow, now, line);
        entries := entries[name := ne];
      }
      entry := entries[name];
    }

    /** One message: the table changes at the message's service only, as Merge says. */
    method MergeMessage(msg: Message, now: Time) returns (ghost news: seq<Message>)
      requires Valid() && FromStep(line, msg)
      requires Merge(line, Lookup(Snapshot(), msg.service.name), msg, now).Settled?
      modifies `entries, `sent, entries.Values
      ensures Valid()
      ensures sent == old(sent) + news
      ensures msg.service.name in entries
      ensures Merge(line, old(Lookup(Snapshot(), msg.service.name)), msg, now) == Settled(entries[msg.service.name].View(), news)
      ensures Snapshot() == old(Snapshot())[msg.service.name := entries[msg.service.name].View()]
    {
      var name := msg.service.name;
      var needed := ServiceNeedUpdate(msg);
      if !needed {
        Touch(name, now);
        news := [];
      } else {
        MergeNeeded(msg, now);
        OnlyChangedInSnapshot(name);
        news := sent[|old(sent)|..];
      }
    }

    method Touch(name: string, now: Time)
      requires Valid() && name in entries
      modifies entries[name]
      ensures Snapshot() == old(Snapshot())[name := old(entries[name].View()).(lastUpdate := now)]
    {
      entries[name].SetLastUpdate(now);
    }

    method MergeNeeded(msg: Message, now: Time)
      requires Valid() && FromStep(line, msg)
      requires Merge(line, Lookup(Snapshot(), msg.service.name), msg, now).Settled?
      requires msg.service.name in entries ==> NeedsUpdate(entries[msg.service.name].View(), msg)
      modifies `entries, `sent, entries.Values
      ensures Valid()
      ensures |sent| >= |old(sent)| && sent[..|old(sent)|] == old(sent)
      ensures OnlyChanged(msg.service.name)
      ensures Merge(line, old(Lookup(Snapshot(), msg.service.name)), msg, now)
        == Settled(entries[msg.service.name].View(), sent[|old(sent)|..])
    {
      var entry := EntryFor(msg.service.name, now);
      entry.UpdateService(msg);
      entry.SetTransition(workflow, msg.sender, line);
      Execute(entry, msg, now, CALLS);
    }

    /** No entry but this one has changed. */
    twostate predicate OnlyChanged(name: string)
      reads `entries, entries.Values
    {
      && entries.Keys == old(entries.Keys) + {name}
      && forall k | k in old(entries) && k != name :: entries[k] == old(entries[k]) && entries[k].View() == old(entries[k].View())
    }

    twostate lemma OnlyChangedInSnapshot(name: string)
      requires OnlyChanged(name)
      ensures Snapshot() == old(Snapshot())[name := entries[name].View()]
    {
    }

    // ----- the sweep of the housekeeper -----

    /** The body of the loop, for one entry of the table. */
    method SweepOne(k: string, now: Time)
      requires Valid() && k in entries
      modifies `entries, `refreshed, entries[k]
      ensures Valid() && entries.Values <= old(entries.Values)
      ensures entries.Keys <= old(entries.Keys)
      ensures SweepEntry(durations, old(entries[k].View()), now) ==
        if k in entries then Some(entries[k].View()) else None
      ensures forall j | j in old(entries) && j != k ::
        j in entries && entries[j] == old(entries[j]) && entries[j].View() == old(entries[j].View())
      ensures refreshed == old(refreshed)
        + if Refreshed(durations, old(entries[k].View()), now) then [old(entries[k].service.name)] else []
    {
      var entry := entries[k];
      if entry.state == entry.expectedState && !entry.workInProgress {
        if entry.state == UNDEPLOYED && Sub(now, entry.closeTime) > durations.cleanUndeployedServiceAfter {
          entries := entries - {k};
        }
      }
      if Sub(now, entry.lastUpdate) > durations.serviceMaxLastUpdated && entry.state == DEPLOYED {
        refreshed := refreshed + [entry.service.name];
      }
      if entry.workInProgress && Sub(now, entry.wipTime) > durations.serviceWIPTimeout {
        entry.Close(TimeoutError(entry.View()), now);
      }
    }

    /** One round over the table in whatever order the map gives. */
    method Sweep(now: Time) returns (ghost asked: seq<string>)
      requires Valid()
      modifies `entries, `refreshed, entries.Values
      ensures Valid()
      ensures Snapshot() == SweepAll(durations, old(Snapshot()), now)
      ensures refreshed == old(refreshed) + asked
      ensures RefreshList(durations, old(Snapshot()), now, asked)
    {
      ghost var before := Snapshot();
      ghost var visited: seq<string> := [];
      asked := [];
      var todo := entries.Keys;
      while todo != {}
        invariant Valid() && entries.Values <= old(entries.Values)
        invariant Swept(durations, before, now, todo, Snapshot())
        invariant refreshed == old(refreshed) + asked
        invariant Visited(durations, before, now, todo, asked, visited)
        decreases |todo|
      {
        var k :| k in todo;
        ghost var current := Snapshot();
        assert current[k] == before[k];
        SweepOne(k, now);
        Associative(old(refreshed), asked, if Refreshed(durations, before[k], now) then [before[k].service.name] else []);
        SweptNext(durations, before, now, todo, current, Snapshot(), k);
        asked, visited := VisitedNext(durations, before, now, todo, asked, visited, k);
        todo := todo - {k};
      }
      SweptAll(durations, before, now, Snapshot());
    }

    // ----- the server as a whole -----

    /** A message comes in. It must not be a delete of what is undeployed already. */
    method HandleMessage(msg: Message, now: Time)
      requires Consistent() && FromStep(line, msg) && now > 0
      requires Tracks.Finishes(Lookup(Snapshot(), msg.service.name), msg)
      modifies `entries, `sent, `history, entries.Values
      ensures Consistent()
      ensures history == old(history) + [Runs.Receive(msg, now)]
    {
      ghost var table, before := Snapshot(), sent;
      StoreRuns.ExplainedMerges(line, durations, history, table, before, msg, now);
      ghost var news := MergeMessage(msg, now);
      StoreRuns.ExplainsMessage(line, durations, history, table, before, msg, now);
      history := history + [Runs.Receive(msg, now)];
    }

    /** extensionListener: the message is tagged and its targets are weighted first. However
        the weighting orders them, the message must not be an endless delete. */
    method Listen(extension: string, msg: Message, now: Time)
      requires Consistent() && FromStep(line, msg.(sender := extension)) && now > 0
      requires forall wt | Weights.IsWeighting(Elements(msg.service.targets), wt) ::
        Tracks.Finishes(Lookup(Snapshot(), msg.service.name), Tagged(msg, extension, wt))
      modifies `entries, `sent, `history, entries.Values
      ensures Consistent()
      ensures exists wt ::
        && Weights.IsWeighting(if msg.service.targets.Nil? then [] else msg.service.targets.elems, wt)
        && history == old(history) + [Runs.Receive(
             msg.(sender := extension, service := msg.service.(targets := if wt == [] then Nil else Of(wt))), now)]
    {
      var wt := Weights.SetTargetWeight(Elements(msg.service.targets));
      HandleMessage(Tagged(msg, extension, wt), now);
    }

    /** The ticker of the housekeeper fires. */
    method Housekeep(now: Time)
      requires Consistent() && now > 0
      modifies `entries, `refreshed, `history, entries.Values
      ensures Consistent()
      ensures history == old(history) + [Runs.Sweep(now)]
    {
      ghost var ev := Runs.Sweep(now);
      ghost var table := Snapshot();
      ghost var asked := Sweep(now);
      StoreRuns.ExplainsSweep(line, durations, history, table, sent, now);
      history := history + [ev];
    }
  }

  function Elements(s: Slice<Target>): seq<Target> {
    match s
    case Nil => []
    case Of(elems) => elems
  }

  function Tagged(msg: Message, extension: string, wt: seq<Target>): Message {
    msg.(sender := extension, service := msg.service.(targets := if wt == [] then Nil else Of(wt)))
  }
}
