/** The workflow of one service without names, tables and nested calls: a position on the
    stops, a direction, whether an extension works, whether the entry is closed. */
module Tracks {
  import opened Wrappers
  import opened Comm
  import opened Workflow
  import opened Stops
  import opened Entries
  import Dispatching
  import opened Outcomes
  import opened Store

  datatype Track = Track(pos: nat, up: bool, working: bool, closed: bool)

  /** A request to a stop: an add on the way up, a delete on the way down. */
  datatype Request = Request(stop: nat, up: bool)

  datatype Signal = Enter(at: nat) | Withdraw | Reply(from: nat, ok: bool) | Ignore

  // ----- the abstract machine -----

  function Reach(top: nat, p: nat, up: bool): (Track, seq<Request>) {
    if p == 0 || p == top then (Track(p, up, false, true), [])
    else (Track(p, up, true, false), [Request(p, up)])
  }

  function Move(top: nat, t: Track, s: Signal): (Track, seq<Request>) {
    match s
    case Ignore => (t, [])
    case Enter(at) => Reach(top, at, true)
    case Withdraw =>
      var q := if t.working then Toward(t.pos, t.up, top) else t.pos;
      Reach(top, if q == 0 then 0 else q - 1, false)
    case Reply(from, ok) =>
      if !t.working then (t.(working := true), [Request(t.pos, t.up)])
      else if from != t.pos then (t, [])
      else if !ok then (t.(working := false), [])
      else Reach(top, Toward(t.pos, t.up, top), t.up)
  }

  function Expire(top: nat, t: Track): Track {
    Track(if t.up then top else 0, t.up, false, true)
  }

  // ----- the abstraction -----

  /** What holds of an entry even when mergeMessage has only just created it. */
  ghost predicate Sound(line: seq<string>, e: Entry) {
    && e.state in StopsOf(line)
    && (e.expectedState == DEPLOYED || e.expectedState == UNDEPLOYED)
    && (e.closeTime != 0 <==> e.state == UNDEPLOYED || e.state == DEPLOYED)
    && (e.closeTime != 0 ==> e.state == e.expectedState)
    && (e.wipTime != 0 <==> e.workInProgress)
  }

  /** An open entry on which nobody works carries an error. */
  predicate NoSilentStall(e: Entry) {
    e.closeTime != 0 || e.workInProgress || e.error != ""
  }

  ghost predicate Inv(line: seq<string>, name: string, e: Entry) {
    Sound(line, e) && NoSilentStall(e) && e.service.name == name
  }

  function PositionOf(line: seq<string>, state: string): nat {
    Find(StopsOf(line), state).GetOr(0)
  }

  function TrackOf(line: seq<string>, e: Entry): Track {
    Track(PositionOf(line, e.state), !e.IsReverse(), e.workInProgress, e.closeTime != 0)
  }

  function SignalOf(line: seq<string>, o: Option<Entry>, msg: Message): Signal {
    if o.Some? && !NeedsUpdate(o.value, msg) then Ignore
    else if !IsProvider(msg.sender) then Reply(PositionOf(line, msg.sender), msg.error == "")
    else if msg.action == Add then Enter(Entrance(line, msg.sender))
    else if msg.action == Delete then Withdraw
    else Ignore
  }

  /** The messages sent carry out the requests, with the service as the entry has it. */
  ghost predicate CarryOut(line: seq<string>, e: Entry, sent: seq<Message>, requests: seq<Request>) {
    && |sent| == |requests|
    && forall i | 0 <= i < |sent| ::
         && requests[i].stop < |StopsOf(line)|
         && sent[i] == Message(if requests[i].up then Add else Delete, "", StopsOf(line)[requests[i].stop], "", e.service)
  }

  /** The outcome does to the entry what the abstract machine does to its track. */
  ghost predicate Simulates(line: seq<string>, e: Entry, sent: seq<Message>, move: (Track, seq<Request>)) {
    && Sound(line, e) && NoSilentStall(e)
    && TrackOf(line, e) == move.0
    && CarryOut(line, e, sent, move.1)
  }

  // ----- simulation -----

  lemma PositionAtStop(line: seq<string>, p: nat)
    requires ValidLine(line) && p < |StopsOf(line)|
    ensures PositionOf(line, StopsOf(line)[p]) == p
    ensures StopsOf(line)[p] == UNDEPLOYED <==> p == 0
    ensures StopsOf(line)[p] == DEPLOYED <==> p == Top(line)
  {
    EndStops(line);
    StopIndex(line, p);
    StopIndex(line, 0);
    StopIndex(line, |StopsOf(line)| - 1);
  }

  /** Arriving at a stop, in the direction of the entry, is what Reach does. */
  lemma ArriveSimulates(line: seq<string>, e: Entry, p: nat, error: string, now: Time)
    requires ValidLine(line) && p < |StopsOf(line)| && now > 0
    requires e.expectedState == DEPLOYED || e.expectedState == UNDEPLOYED
    requires p == 0 ==> e.expectedState == UNDEPLOYED
    requires p == Top(line) ==> e.expectedState == DEPLOYED
    ensures Arrive(line, e, p, error, now).Settled?
    ensures
      var out := Arrive(line, e, p, error, now);
      && Simulates(line, out.entry, out.sent, Reach(Top(line), p, !e.IsReverse()))
      && out.entry.service == e.service
  {
    EndsAreNoProviders();
    PositionAtStop(line, p);
  }

  lemma FreshEntry(line: seq<string>, now: Time)
    requires ValidLine(line)
    ensures Sound(line, NewEntry(line, now))
    ensures TrackOf(line, NewEntry(line, now)) == Track(1, true, false, false)
    ensures NewEntry(line, now).service == EMPTY_SERVICE
  {
    EndsAreNoProviders();
    EndStops(line);
    var start := Entry(false, 0, UNDEPLOYED, DEPLOYED, "", now, 0, EMPTY_SERVICE, 0, NilTransition);
    SetNextStepAtStop(line, start, 0);
    PositionAtStop(line, 1);
  }

  /** The dispatch of a message does to the entry what the abstract machine does. */
  ghost predicate DispatchMoves(line: seq<string>, e: Entry, msg: Message, now: Time) {
    var out := Dispatch(line, Prepared(line, e, msg), msg, now, CALLS);
    && out.Settled?
    && Simulates(line, out.entry, out.sent, Move(Top(line), TrackOf(line, e), SignalOf(line, None, msg)))
    && out.entry.service == UpdateService(e.service, msg)
  }

  lemma DispatchSimulates(line: seq<string>, e: Entry, msg: Message, now: Time)
    requires ValidLine(line) && FromStep(line, msg) && now > 0
    requires Sound(line, e) && !EndlessDelete(e, msg)
    ensures DispatchMoves(line, e, msg, now)
  {
    if !IsProvider(msg.sender) {
      ReplySimulates(line, e, msg, now);
    } else if msg.action == Add {
      AddSimulates(line, e, msg, now);
    } else if msg.action == Delete {
      DeleteSimulates(line, e, msg, now);
    } else {
      UnhandledSimulates(line, e, msg, now);
    }
  }

  lemma AddSimulates(line: seq<string>, e: Entry, msg: Message, now: Time)
    requires ValidLine(line) && FromStep(line, msg) && IsProvider(msg.sender) && msg.action == Add && now > 0
    ensures DispatchMoves(line, e, msg, now)
  {
    EndsAreNoProviders();
    AddOutcome(line, e, msg, now);
    EntersAt(line, msg.sender);
    ArriveSimulates(line,
      e.(service := UpdateService(e.service, msg), lastUpdate := now, expectedState := DEPLOYED, error := msg.error,
         workInProgress := false, wipTime := 0),
      Entrance(line, msg.sender), msg.error, now);
  }

  lemma DeleteSimulates(line: seq<string>, e: Entry, msg: Message, now: Time)
    requires ValidLine(line) && FromStep(line, msg) && IsProvider(msg.sender) && msg.action == Delete && now > 0
    requires Sound(line, e) && !EndlessDelete(e, msg)
    ensures DispatchMoves(line, e, msg, now)
  {
    EndStops(line);
    var p := PositionOf(line, e.state);
    PositionAtStop(line, p);
    DeleteOutcome(line, e, p, msg, now);
    var from := e.(service := UpdateService(e.service, msg), expectedState := UNDEPLOYED, workInProgress := false, wipTime := 0);
    BackFromBelow(line, e, p);
    ArriveSimulates(line, from, BackFrom(line, e, p), msg.error, now);
    WithdrawReaches(line, e, p);
    assert SignalOf(line, None, msg) == Withdraw;
  }

  lemma BackFromBelow(line: seq<string>, e: Entry, p: nat)
    requires ValidLine(line) && p < |StopsOf(line)|
    ensures BackFrom(line, e, p) < Top(line)
  {
    EndStops(line);
  }

  lemma WithdrawReaches(line: seq<string>, e: Entry, p: nat)
    requires p == PositionOf(line, e.state)
    ensures Move(Top(line), TrackOf(line, e), Withdraw) == Reach(Top(line), BackFrom(line, e, p), false)
  {
  }

  lemma UnhandledSimulates(line: seq<string>, e: Entry, msg: Message, now: Time)
    requires ValidLine(line) && FromStep(line, msg) && IsProvider(msg.sender) && msg.action != Add && msg.action != Delete
    requires Sound(line, e)
    ensures DispatchMoves(line, e, msg, now)
  {
    EntersAt(line, msg.sender);
    var e0 := Prepared(line, e, msg);
    assert Execute(line, e0, msg, now) == Halt(e0.(error := Unhandled(msg.action)), []);
    assert Unhandled(msg.action)[0] == 'U';
  }

  lemma ReplySimulates(line: seq<string>, e: Entry, msg: Message, now: Time)
    requires ValidLine(line) && FromStep(line, msg) && !IsProvider(msg.sender) && now > 0
    requires Sound(line, e)
    ensures DispatchMoves(line, e, msg, now)
  {
    NonProviderIsStop(line, msg.sender);
    var p := PositionOf(line, e.state);
    PositionAtStop(line, p);
    PositionAtStop(line, PositionOf(line, msg.sender));
    if e.workInProgress && msg.sender == e.state && msg.error == "" {
      AcceptedSimulates(line, e, p, msg, now);
    } else {
      ReplyOutcome(line, e, p, msg, now);
      assert SignalOf(line, None, msg) == Reply(PositionOf(line, msg.sender), msg.error == "");
    }
  }

  lemma AcceptedSimulates(line: seq<string>, e: Entry, p: nat, msg: Message, now: Time)
    requires ValidLine(line) && FromStep(line, msg) && !IsProvider(msg.sender) && now > 0
    requires Sound(line, e) && p < |StopsOf(line)| && e.state == StopsOf(line)[p] && p == PositionOf(line, e.state)
    requires e.workInProgress && msg.sender == e.state && msg.error == ""
    ensures DispatchMoves(line, e, msg, now)
  {
    PositionAtStop(line, p);
    ReplyOutcome(line, e, p, msg, now);
    var e0 := Prepared(line, e, msg);
    ArriveSimulates(line, e0.(workInProgress := false, wipTime := 0), Toward(p, !e.IsReverse(), Top(line)), "", now);
    assert SignalOf(line, None, msg) == Reply(p, true);
  }

  function Start(line: seq<string>, o: Option<Entry>): Track {
    match o
    case None => Track(1, true, false, false)
    case Some(e) => TrackOf(line, e)
  }

  /** A message that mergeMessage can finish: not a delete of what is undeployed. */
  predicate Finishes(o: Option<Entry>, msg: Message) {
    o.Some? && NeedsUpdate(o.value, msg) ==> !EndlessDelete(o.value, msg)
  }

  /** Simulation: whatever the entry and the message, names, table and nested calls do
      what the abstract machine does, and the entry keeps the invariant. */
  lemma MergeSimulates(line: seq<string>, name: string, o: Option<Entry>, msg: Message, now: Time)
    requires ValidLine(line) && FromStep(line, msg) && msg.service.name == name && now > 0
    requires o.Some? ==> Inv(line, name, o.value)
    requires Finishes(o, msg)
    ensures
      var out := Merge(line, o, msg, now);
      && out.Settled?
      && Inv(line, name, out.entry)
      && Simulates(line, out.entry, out.sent, Move(Top(line), Start(line, o), SignalOf(line, o, msg)))
      && out.entry.service ==
        if o.Some? && !NeedsUpdate(o.value, msg) then o.value.service
        else UpdateService(if o.None? then EMPTY_SERVICE else o.value.service, msg)
  {
    if o.Some? && !NeedsUpdate(o.value, msg) {
    } else {
      FreshEntry(line, now);
      var e := o.GetOr(NewEntry(line, now));
      if o.None? {
        FreshIsNotUndeployed(line, now);
      }
      DispatchSimulates(line, e, msg, now);
    }
  }

  lemma FreshIsNotUndeployed(line: seq<string>, now: Time)
    requires ValidLine(line)
    ensures NewEntry(line, now).state != UNDEPLOYED
  {
    FreshEntry(line, now);
    EndStops(line);
    PositionAtStop(line, 0);
  }

  /** mergeMessage finishes exactly when the message is not a delete of what is
      undeployed already that also differs from it in definition. */
  lemma MergeFinishesIff(line: seq<string>, name: string, o: Option<Entry>, msg: Message, now: Time)
    requires ValidLine(line) && FromStep(line, msg) && msg.service.name == name && now > 0
    requires o.Some? ==> Inv(line, name, o.value)
    ensures Merge(line, o, msg, now).Settled? <==> Finishes(o, msg)
    ensures !Finishes(o, msg) ==>
      forall calls :: Dispatch(line, Prepared(line, o.value, msg), msg, now, calls) == OutOfCalls
  {
    if Finishes(o, msg) {
      MergeSimulates(line, name, o, msg, now);
    } else {
      StopInLine(line, o.value.state);
      Dispatching.SenderTransition(line, msg);
      forall calls ensures Dispatch(line, Prepared(line, o.value, msg), msg, now, calls) == OutOfCalls {
        Dispatching.EndlessNeverSettles(line, Prepared(line, o.value, msg), msg, now, calls);
      }
    }
  }

  lemma StopInLine(line: seq<string>, state: string)
    requires state in StopsOf(line)
    ensures state in line && !IsProvider(state)
  {
    StopIsNoProvider(line, FirstAt(StopsOf(line), state));
  }

  /** The sweep keeps the invariant, and a timeout is what Expire does. */
  lemma SweepSimulates(line: seq<string>, name: string, d: Durations, e: Entry, now: Time)
    requires ValidLine(line) && Inv(line, name, e) && now > 0
    ensures SweepEntry(d, e, now).None? ==> e.state == UNDEPLOYED && !e.workInProgress
    ensures SweepEntry(d, e, now).Some? ==>
      var e1 := SweepEntry(d, e, now).value;
      && Inv(line, name, e1)
      && TrackOf(line, e1) == if TimedOut(d, e, now) then Expire(Top(line), TrackOf(line, e)) else TrackOf(line, e)
  {
    EndsAreNoProviders();
    EndStops(line);
    PositionAtStop(line, 0);
    PositionAtStop(line, |StopsOf(line)| - 1);
  }
}
