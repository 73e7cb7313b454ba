/** What each kind of message comes to once its nested calls are over: the entry arrives
    at one stop, and either closes there or has its request sent from there. */
module Outcomes {
  import opened Comm
  import opened Workflow
  import opened Stops
  import opened Entries
  import Dispatching

  /** The index of the last stop, `deployed`. */
  function Top(line: seq<string>): nat {
    if |StopsOf(line)| == 0 then 0 else |StopsOf(line)| - 1
  }

  /** The entry at stop p: closed at an end, else in progress with a request to the stop. */
  function Arrive(line: seq<string>, e: Entry, p: nat, error: string, now: Time): Outcome
    requires p < |StopsOf(line)|
  {
    var at := e.(state := StopsOf(line)[p], closeTime := 0);
    if p == 0 || p == Top(line) then Settled(CloseEntry(at.(transition := CloseState), error, now), [])
    else
      var working := SetWIP(at.(transition := ProvisionerState), true, now);
      Settled(working, [RequestFor(working)])
  }

  /** One stop further in the direction of the entry, if there is one. */
  function Toward(p: nat, up: bool, top: nat): nat {
    if up then (if p >= top then p else p + 1) else (if p == 0 then 0 else p - 1)
  }

  lemma SetNextStepAtStop(line: seq<string>, e: Entry, p: nat)
    requires ValidLine(line) && p < |StopsOf(line)| && e.state == StopsOf(line)[p]
    ensures
      var q := Toward(p, !e.IsReverse(), Top(line));
      SetNextStep(line, e) ==
        if q == p then e
        else e.(state := StopsOf(line)[q], transition := if q == 0 || q == Top(line) then CloseState else ProvisionerState,
                workInProgress := false, wipTime := 0, closeTime := 0)
  {
    NextStop(line, p);
    PreviousStop(line, p);
    StopTransition(line, Toward(p, !e.IsReverse(), Top(line)));
  }

  lemma DispatchAgain(line: seq<string>, e: Entry, msg: Message, now: Time, calls: nat, e1: Entry, msg1: Message)
    requires calls > 0 && Execute(line, e, msg, now) == Again(e1, msg1)
    ensures Dispatch(line, e, msg, now, calls) == Dispatch(line, e1, msg1, now, calls - 1)
  {
  }

  lemma ArriveByDispatch(line: seq<string>, e: Entry, p: nat, msg: Message, now: Time)
    requires ValidLine(line) && p < |StopsOf(line)| && e.state == StopsOf(line)[p]
    requires e.transition == if p == 0 || p == Top(line) then CloseState else ProvisionerState
    requires !e.workInProgress && e.wipTime == 0 && e.closeTime == 0
    ensures Dispatch(line, e, msg, now, 1) == Arrive(line, e, p, msg.error, now)
  {
    assert e.(state := StopsOf(line)[p], closeTime := 0) == e;
  }

  /** An add, from any state at all, takes the entry to the entrance of its sender. */
  lemma AddOutcome(line: seq<string>, e: Entry, msg: Message, now: Time)
    requires ValidLine(line) && FromStep(line, msg) && IsProvider(msg.sender) && msg.action == Add
    ensures Entrance(line, msg.sender) < |StopsOf(line)|
    ensures Dispatch(line, Prepared(line, e, msg), msg, now, CALLS) ==
      Arrive(line,
        e.(service := UpdateService(e.service, msg), lastUpdate := now, expectedState := DEPLOYED, error := msg.error,
           workInProgress := false, wipTime := 0),
        Entrance(line, msg.sender), msg.error, now)
  {
    EndsAreNoProviders();
    EntersAt(line, msg.sender);
    var p := Entrance(line, msg.sender);
    StopTransition(line, p);
    var e0 := Prepared(line, e, msg);
    var e1 := SetState(e0.(lastUpdate := now, expectedState := DEPLOYED, transition := ProviderAddState), msg, false);
    var e2 := SetNextStep(line, e1);
    DispatchAgain(line, e0, msg, now, CALLS, e1, msg);
    DispatchAgain(line, e1, msg, now, 2, e2, msg);
    ArriveByDispatch(line, e2, p, msg, now);
    var from := e.(service := UpdateService(e.service, msg), lastUpdate := now, expectedState := DEPLOYED, error := msg.error,
                   workInProgress := false, wipTime := 0);
    ArriveFrom(line, e2, from, p, msg.error, now);
  }

  /** Where a delete takes an entry from stop p. */
  function BackFrom(line: seq<string>, e: Entry, p: nat): nat {
    var q := if e.workInProgress then Toward(p, !e.IsReverse(), Top(line)) else p;
    if q == 0 then 0 else q - 1
  }

  /** One step back from stop q; at the first stop there is none. */
  lemma BackOne(line: seq<string>, e: Entry, q: nat)
    requires ValidLine(line) && q < |StopsOf(line)| && e.state == StopsOf(line)[q]
    requires q == 0 ==> e.transition == CloseState && !e.workInProgress && e.wipTime == 0 && e.closeTime == 0
    ensures
      var r := if q == 0 then 0 else q - 1;
      SetNextStep(line, e.(expectedState := UNDEPLOYED)) ==
        e.(expectedState := UNDEPLOYED, state := StopsOf(line)[r], closeTime := 0, workInProgress := false, wipTime := 0,
           transition := if r == 0 || r == Top(line) then CloseState else ProvisionerState)
  {
    SetNextStepAtStop(line, e.(expectedState := UNDEPLOYED), q);
  }

  /** The two searches of the delete: one step on when a step is in progress, one step back. */
  lemma DeleteSteps(line: seq<string>, e: Entry, p: nat, msg: Message) returns (e3: Entry)
    requires ValidLine(line) && p < |StopsOf(line)| && e.state == StopsOf(line)[p]
    requires IsProvider(msg.sender) && msg.action == Delete && !EndlessDelete(e, msg)
    ensures ProviderDeleteCall(line, e, msg) == Again(e3, msg.(service := e3.service))
    ensures BackFrom(line, e, p) < |StopsOf(line)|
    ensures
      var r := BackFrom(line, e, p);
      e3 == e.(expectedState := UNDEPLOYED, state := StopsOf(line)[r], closeTime := 0, workInProgress := false, wipTime := 0,
               transition := if r == 0 || r == Top(line) then CloseState else ProvisionerState)
  {
    EndStops(line);
    var q := if e.workInProgress then Toward(p, !e.IsReverse(), Top(line)) else p;
    var e2 := if e.workInProgress then SetNextStep(line, e) else e;
    if e.workInProgress {
      OneOn(line, e, p);
    }
    BackOne(line, e2, q);
    e3 := SetNextStep(line, e2.(expectedState := UNDEPLOYED));
  }

  /** The step forward before a delete. */
  lemma OneOn(line: seq<string>, e: Entry, p: nat)
    requires ValidLine(line) && p < |StopsOf(line)| && e.state == StopsOf(line)[p]
    ensures
      var q := Toward(p, !e.IsReverse(), Top(line));
      && q < |StopsOf(line)|
      && (q == p ==> SetNextStep(line, e) == e)
      && (q != p ==>
            SetNextStep(line, e) ==
              e.(state := StopsOf(line)[q], transition := if q == 0 || q == Top(line) then CloseState else ProvisionerState,
                 workInProgress := false, wipTime := 0, closeTime := 0))
  {
    SetNextStepAtStop(line, e, p);
  }

  /** Where an entry arrives does not depend on where it comes from. */
  lemma ArriveFrom(line: seq<string>, a: Entry, b: Entry, p: nat, error: string, now: Time)
    requires p < |StopsOf(line)|
    requires a.(state := "", closeTime := 0, transition := NilTransition) == b.(state := "", closeTime := 0, transition := NilTransition)
    ensures Arrive(line, a, p, error, now) == Arrive(line, b, p, error, now)
  {
    var s := StopsOf(line)[p];
    assert a.(state := s, closeTime := 0, transition := CloseState) == b.(state := s, closeTime := 0, transition := CloseState);
    assert a.(state := s, closeTime := 0, transition := ProvisionerState) == b.(state := s, closeTime := 0, transition := ProvisionerState);
  }

  /** A delete goes one step on first when a step is in progress, then one step back. */
  lemma DeleteOutcome(line: seq<string>, e: Entry, p: nat, msg: Message, now: Time)
    requires ValidLine(line) && FromStep(line, msg) && IsProvider(msg.sender) && msg.action == Delete
    requires p < |StopsOf(line)| && e.state == StopsOf(line)[p] && !EndlessDelete(e, msg)
    ensures BackFrom(line, e, p) < |StopsOf(line)|
    ensures Dispatch(line, Prepared(line, e, msg), msg, now, CALLS) ==
      Arrive(line,
        e.(service := UpdateService(e.service, msg), expectedState := UNDEPLOYED, workInProgress := false, wipTime := 0),
        BackFrom(line, e, p), msg.error, now)
  {
    EntersAt(line, msg.sender);
    var e1 := Prepared(line, e, msg).(transition := ProviderDeleteState);
    var e3 := DeleteSteps(line, e1, p, msg);
    var r := BackFrom(line, e1, p);
    assert r == BackFrom(line, e, p);
    DispatchAgain(line, Prepared(line, e, msg), msg, now, CALLS, e1, msg);
    DeleteArrives(line, e1, e3, r, msg, now);
    ArriveFrom(line, e3,
      e.(service := UpdateService(e.service, msg), expectedState := UNDEPLOYED, workInProgress := false, wipTime := 0),
      r, msg.error, now);
  }

  lemma DeleteArrives(line: seq<string>, e1: Entry, e3: Entry, r: nat, msg: Message, now: Time)
    requires ValidLine(line) && r < |StopsOf(line)| && e3.state == StopsOf(line)[r]
    requires e1.transition == ProviderDeleteState
    requires ProviderDeleteCall(line, e1, msg) == Again(e3, msg.(service := e3.service))
    requires e3.transition == if r == 0 || r == Top(line) then CloseState else ProvisionerState
    requires !e3.workInProgress && e3.wipTime == 0 && e3.closeTime == 0
    ensures Dispatch(line, e1, msg, now, 2) == Arrive(line, e3, r, msg.error, now)
  {
    var msg' := msg.(service := e3.service);
    assert Execute(line, e1, msg, now) == Again(e3, msg');
    ArriveByDispatch(line, e3, r, msg', now);
  }

  /** A reply: sent on when nobody works, dropped from a wrong sender, an error noted, and
      otherwise one stop further. */
  lemma ReplyOutcome(line: seq<string>, e: Entry, p: nat, msg: Message, now: Time)
    requires ValidLine(line) && FromStep(line, msg) && !IsProvider(msg.sender)
    requires p < |StopsOf(line)| && e.state == StopsOf(line)[p]
    ensures
      var e0 := Prepared(line, e, msg);
      Dispatch(line, e0, msg, now, CALLS) ==
        if !e.workInProgress then
          var e1 := SetWIP(e0, true, now);
          Settled(e1, [RequestFor(e1)])
        else if msg.sender != e.state then Settled(e0, [])
        else if msg.error != "" then Settled(SetWIP(e0, false, now).(error := msg.error), [])
        else Arrive(line, e0.(workInProgress := false, wipTime := 0), Toward(p, !e.IsReverse(), Top(line)), "", now)
  {
    Dispatching.SenderTransition(line, msg);
    if e.workInProgress && msg.sender == e.state && msg.error == "" {
      ReplyAccepted(line, Prepared(line, e, msg), p, msg, now);
    }
  }

  lemma ReplyAccepted(line: seq<string>, e: Entry, p: nat, msg: Message, now: Time)
    requires ValidLine(line) && FromStep(line, msg)
    requires p < |StopsOf(line)| && e.state == StopsOf(line)[p] == msg.sender && msg.error == ""
    requires e.workInProgress && e.transition == ProvisionerState && UpdateService(e.service, msg) == e.service
    ensures Dispatch(line, e, msg, now, CALLS) ==
      Arrive(line, e.(workInProgress := false, wipTime := 0), Toward(p, !e.IsReverse(), Top(line)), "", now)
  {
    EndStops(line);
    var top := Top(line);
    assert 0 < p < top;
    var q := Toward(p, !e.IsReverse(), top);
    SetNextStepAtStop(line, e, p);
    var e1 := SetNextStep(line, e);
    StopIndex(line, q);
    if q == 0 || q == top {
      ReplyCloses(line, e, msg, now, e1);
    } else {
      StopIndex(line, 0);
      StopIndex(line, top);
      assert Execute(line, e, msg, now) == SendToExtension(e1, now);
    }
  }

  lemma ReplyCloses(line: seq<string>, e: Entry, msg: Message, now: Time, e1: Entry)
    requires e.workInProgress && e.transition == ProvisionerState && e.state == msg.sender && msg.error == ""
    requires UpdateService(e.service, msg) == e.service && SetNextStep(line, e) == e1
    requires e1.state == (if e1.IsReverse() then UNDEPLOYED else DEPLOYED) && e1.transition == CloseState
    ensures Dispatch(line, e, msg, now, CALLS) == Settled(CloseEntry(e1, "", now), [])
  {
    assert Execute(line, e, msg, now) == Again(e1, msg);
    DispatchAgain(line, e, msg, now, CALLS, e1, msg);
    assert Execute(line, e1, msg, now) == Halt(CloseEntry(e1, "", now), []);
  }
}
