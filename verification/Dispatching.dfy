/** The nested `execute` calls end after at most three, except for one family of messages. */
module Dispatching {
  import opened Comm
  import opened Workflow
  import Stops
  import opened Entries

  lemma NextStepIsStop(line: seq<string>, name: string, reverse: bool)
    requires ValidLine(line)
    ensures NextStep(line, name, reverse).None? <==> name !in line || name == if reverse then UNDEPLOYED else DEPLOYED
    ensures NextStep(line, name, reverse).Some? ==>
      var next := NextStep(line, name, reverse).value;
      next in line && !IsProvider(next) && TransitionOf(line, next) in [CloseState, ProvisionerState]
      && (TransitionOf(line, next) == CloseState <==> next == UNDEPLOYED || next == DEPLOYED)
  {
    Stops.SearchFailsIff(line, name, reverse);
    FindAt(line, 0);
    FindAt(line, |line| - 1);
  }

  lemma SenderTransition(line: seq<string>, msg: Message)
    requires ValidLine(line) && FromStep(line, msg)
    ensures TransitionOf(line, msg.sender) == if IsProvider(msg.sender) then ProviderState else ProvisionerState
  {
  }

  lemma AddSettles(line: seq<string>, e: Entry, msg: Message, now: Time)
    requires ValidLine(line) && FromStep(line, msg) && IsProvider(msg.sender) && msg.action == Add
    requires e.transition == ProviderState
    ensures Dispatch(line, e, msg, now, 3).Settled?
  {
    NextStepIsStop(line, msg.sender, false);
    EndsAreNoProviders();
    var e1 := SetState(e.(lastUpdate := now, expectedState := DEPLOYED, transition := ProviderAddState), msg, false);
    var e2 := SetNextStep(line, e1);
    assert Execute(line, e, msg, now) == Again(e1, msg);
    assert Execute(line, e1, msg, now) == Again(e2, msg);
    assert Execute(line, e2, msg, now).Halt?;
    assert Dispatch(line, e2, msg, now, 1).Settled?;
    assert Dispatch(line, e1, msg, now, 2).Settled?;
  }

  lemma DeleteSettles(line: seq<string>, e: Entry, msg: Message, now: Time)
    requires ValidLine(line) && FromStep(line, msg) && IsProvider(msg.sender) && msg.action == Delete
    requires e.transition == ProviderState && e.state in line && !EndlessDelete(e, msg)
    ensures Dispatch(line, e, msg, now, 3).Settled?
  {
    EndsAreNoProviders();
    var e1 := e.(transition := ProviderDeleteState);
    NextStepIsStop(line, e1.state, e1.IsReverse());
    var e2 := if e1.workInProgress then SetNextStep(line, e1) else e1;
    NextStepIsStop(line, e2.state, true);
    var e3 := SetNextStep(line, e2.(expectedState := UNDEPLOYED));
    var msg' := msg.(service := e3.service);
    assert Execute(line, e, msg, now) == Again(e1, msg);
    assert Execute(line, e1, msg, now) == Again(e3, msg');
    assert Execute(line, e3, msg', now).Halt?;
    assert Dispatch(line, e3, msg', now, 1).Settled?;
    assert Dispatch(line, e1, msg, now, 2).Settled?;
  }

  lemma ReplySettles(line: seq<string>, e: Entry, msg: Message, now: Time)
    requires ValidLine(line) && FromStep(line, msg) && !IsProvider(msg.sender)
    requires e.transition == ProvisionerState
    ensures Dispatch(line, e, msg, now, 3).Settled?
  {
    match Execute(line, e, msg, now) {
      case Halt(_, _) =>
      case Again(e1, msg1) =>
        assert Execute(line, e1, msg1, now).Halt?;
        assert Dispatch(line, e1, msg1, now, 2).Settled?;
      case NilCall =>
    }
  }

  /** The delete finds no step back and is called again on the same entry. */
  lemma {:induction false} DeleteAgain(line: seq<string>, e: Entry, msg: Message, now: Time, calls: nat)
    requires ValidLine(line) && EndlessDelete(e, msg)
    requires e.transition == ProviderDeleteState
    ensures Dispatch(line, e, msg, now, calls) == OutOfCalls
    decreases calls
  {
    if calls == 0 {
    } else {
      NextStepIsStop(line, UNDEPLOYED, true);
      var e1 := e.(expectedState := UNDEPLOYED);
      var msg1 := msg.(service := e1.service);
      assert Execute(line, e, msg, now) == Again(e1, msg1);
      DeleteAgain(line, e1, msg1, now, calls - 1);
    }
  }

  lemma EndlessNeverSettles(line: seq<string>, e: Entry, msg: Message, now: Time, calls: nat)
    requires ValidLine(line) && EndlessDelete(e, msg)
    requires e.transition == ProviderState
    ensures Dispatch(line, e, msg, now, calls) == OutOfCalls
  {
    if calls > 0 {
      var e1 := e.(transition := ProviderDeleteState);
      assert Execute(line, e, msg, now) == Again(e1, msg);
      DeleteAgain(line, e1, msg, now, calls - 1);
    }
  }

  /** Every message from a step settles within three calls, for every entry on the line,
      exactly when it is not a delete that finds the entry at `undeployed`. */
  lemma DispatchSettlesIff(line: seq<string>, e: Entry, msg: Message, now: Time)
    requires ValidLine(line) && FromStep(line, msg) && e.state in line
    ensures (exists calls :: Dispatch(line, Prepared(line, e, msg), msg, now, calls).Settled?) <==> !EndlessDelete(e, msg)
    ensures !EndlessDelete(e, msg) ==> Dispatch(line, Prepared(line, e, msg), msg, now, CALLS).Settled?
  {
    SenderTransition(line, msg);
    var e0 := Prepared(line, e, msg);
    if EndlessDelete(e, msg) {
      forall calls ensures Dispatch(line, e0, msg, now, calls) == OutOfCalls {
        EndlessNeverSettles(line, e0, msg, now, calls);
      }
    } else if !IsProvider(msg.sender) {
      ReplySettles(line, e0, msg, now);
    } else if msg.action == Add {
      AddSettles(line, e0, msg, now);
    } else if msg.action == Delete {
      DeleteSettles(line, e0, msg, now);
    } else {
      assert Execute(line, e0, msg, now).Halt?;
      assert Dispatch(line, e0, msg, now, CALLS).Settled?;
    }
  }

  /** More calls change nothing once the dispatch has settled. */
  lemma {:induction false} DispatchMonotone(line: seq<string>, e: Entry, msg: Message, now: Time, few: nat, many: nat)
    requires few <= many && Dispatch(line, e, msg, now, few).Settled?
    ensures Dispatch(line, e, msg, now, many) == Dispatch(line, e, msg, now, few)
    decreases few
  {
    match Execute(line, e, msg, now) {
      case Again(e1, msg1) => DispatchMonotone(line, e1, msg1, now, few - 1, many - 1);
      case _ =>
    }
  }
}
