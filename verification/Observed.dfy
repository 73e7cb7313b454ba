/** What each message does to a tracked service, in the fields of the entry and the message and
    in the texts of the configuration. The transition field is left aside, as it is not saved. */
module Observed {
  import opened Wrappers
  import opened Comm
  import opened Workflow
  import opened Stops
  import opened Entries
  import opened Outcomes
  import opened Tracks
  import opened Store
  import opened Runs
  import Earning

  /** Step j is the nearest after step i that is no provider. */
  ghost predicate Ahead(line: seq<string>, i: nat, j: nat) {
    i < j < |line| && !("provider." <= line[j]) && forall k | i < k < j :: "provider." <= line[k]
  }

  /** Step j is the nearest before step i that is no provider. */
  ghost predicate Behind(line: seq<string>, i: nat, j: nat) {
    j < i < |line| && !("provider." <= line[j]) && forall k | j < k < i :: "provider." <= line[k]
  }

  /** The entry of a service that is not tracked, before its first step. */
  const UNTRACKED := Entry(false, 0, "undeployed", "deployed", "", 0, 0, Service("", "", Nil, false, "", Nil), 0, NilTransition)

  function Visible(e: Entry): Entry {
    e.(transition := NilTransition)
  }

  /** The service after a message that is not skipped. */
  function Told(s: Service, msg: Message): Service {
    s.(name := msg.service.name,
       targets := if "provider." <= msg.sender && msg.action != Delete then msg.service.targets else s.targets,
       tls := if "provider." <= msg.sender && msg.action != Delete then msg.service.tls else s.tls,
       dnsAliases := if "provider." <= msg.sender && msg.action != Delete then msg.service.dnsAliases else s.dnsAliases,
       publicIP := if "ipam." <= msg.sender then msg.service.publicIP else s.publicIP)
  }

  /** The message repeats what the entry has: the definition and the state it asks for. */
  predicate Repeats(e: Entry, msg: Message) {
    && e.service.targets == msg.service.targets
    && e.service.tls == msg.service.tls
    && e.service.dnsAliases == msg.service.dnsAliases
    && ((e.state == "deployed" && e.expectedState == "deployed" && msg.action == Add)
        || (e.state == "undeployed" && e.expectedState == "undeployed" && msg.action == Delete))
  }

  /** The entry is at step j, on its way up or down: closed now at the end, or in progress with
      one request sent to the step. */
  ghost predicate ComesTo(line: seq<string>, e: Entry, j: nat, error: string, now: Time, e1: Entry, sent: seq<Message>) {
    && j < |line|
    && if j == 0 || j == |line| - 1
       then
         && sent == []
         && e1 == e.(state := line[j], workInProgress := false, wipTime := 0, closeTime := now,
                     error := if error != "" then error else e.error)
       else
         && sent == [Message(if e.expectedState == "undeployed" then Delete else Add, "", line[j], "", e.service)]
         && e1 == e.(state := line[j], workInProgress := true, wipTime := now, closeTime := 0)
  }

  // ----- names -----

  lemma RepeatsIsSkipped(e: Entry, msg: Message)
    ensures Repeats(e, msg) <==> !NeedsUpdate(e, msg)
  {
  }

  lemma ToldIsUpdated(s: Service, msg: Message)
    ensures Told(s, msg) == UpdateService(s, msg)
  {
  }

  // ----- places -----

  lemma PlaceUp(line: seq<string>, p: nat) returns (i: nat, j: nat)
    requires ValidLine(line) && p + 1 < |StopsOf(line)|
    ensures i < |line| && line[i] == StopsOf(line)[p] && Ahead(line, i, j) && line[j] == StopsOf(line)[p + 1]
  {
    NextStop(line, p);
    StopIsNoProvider(line, p);
    i := Find(line, StopsOf(line)[p]).value;
    j := NextIndex(line, i, false).value;
  }

  lemma PlaceDown(line: seq<string>, p: nat) returns (i: nat, j: nat)
    requires ValidLine(line) && 0 < p < |StopsOf(line)|
    ensures i < |line| && line[i] == StopsOf(line)[p] && Behind(line, i, j) && line[j] == StopsOf(line)[p - 1]
  {
    PreviousStop(line, p);
    StopIsNoProvider(line, p);
    i := Find(line, StopsOf(line)[p]).value;
    j := NextIndex(line, i, true).value;
  }

  lemma EndPlaces(line: seq<string>, p: nat, j: nat)
    requires ValidLine(line) && p < |StopsOf(line)| && j < |line| && line[j] == StopsOf(line)[p]
    ensures j == 0 <==> p == 0
    ensures j == |line| - 1 <==> p == Top(line)
  {
    PositionAtStop(line, p);
    assert line[0] == UNDEPLOYED && line[|line| - 1] == DEPLOYED;
  }

  lemma ArrivesAt(line: seq<string>, e: Entry, p: nat, j: nat, error: string, now: Time)
    requires ValidLine(line) && p < |StopsOf(line)| && j < |line| && line[j] == StopsOf(line)[p]
    requires p == 0 ==> e.expectedState == UNDEPLOYED
    requires p == Top(line) ==> e.expectedState == DEPLOYED
    ensures Arrive(line, e, p, error, now).Settled?
    ensures
      var out := Arrive(line, e, p, error, now);
      ComesTo(line, Visible(e), j, error, now, Visible(out.entry), out.sent)
  {
    EndPlaces(line, p, j);
    EndStops(line);
    EndsAreNoProviders();
  }

  // ----- an add -----

  /** An add that is not skipped, from whatever state or for a new service: the entry comes to
      the nearest step after the sender that is no provider, with the definition and the error
      of the message. */
  lemma AddDoes(line: seq<string>, d: Durations, o: Option<Entry>, add: Event)
    returns (i: nat, j: nat, e1: Entry, sent: seq<Message>)
    requires ValidLine(line) && add.Receive? && Genuine(line, add)
    requires "provider." <= add.msg.sender && add.msg.action == Add
    requires o.Some? ==> !Repeats(o.value, add.msg)
    ensures i < |line| && line[i] == add.msg.sender && Ahead(line, i, j)
    ensures Step(line, d, o, add) == Some((Some(e1), sent))
    ensures
      var e := o.GetOr(UNTRACKED.(timeDetected := add.now));
      ComesTo(line,
        Visible(e).(service := Told(e.service, add.msg), expectedState := "deployed", lastUpdate := add.now,
                    error := add.msg.error, workInProgress := false, wipTime := 0),
        j, add.msg.error, add.now, Visible(e1), sent)
  {
    var msg, now := add.msg, add.now;
    EntersAt(line, msg.sender);
    i := Find(line, msg.sender).value;
    j := NextIndex(line, i, false).value;
    NewIsUntracked(line, now);
    if o.Some? {
      RepeatsIsSkipped(o.value, msg);
    }
    var e := o.GetOr(NewEntry(line, now));
    AddOutcome(line, e, msg, now);
    ToldIsUpdated(e.service, msg);
    var from := e.(service := UpdateService(e.service, msg), lastUpdate := now, expectedState := DEPLOYED,
                   error := msg.error, workInProgress := false, wipTime := 0);
    var p := Entrance(line, msg.sender);
    ArrivesAt(line, from, p, j, msg.error, now);
    var out := Arrive(line, from, p, msg.error, now);
    e1, sent := out.entry, out.sent;
    StartDoesNotMatter(line, Visible(from), Visible(from).(state := "undeployed", closeTime := 0), j, msg.error, now, Visible(e1), sent);
  }

  /** A new entry: only its place and its time of detection. */
  lemma NewIsUntracked(line: seq<string>, now: Time)
    requires ValidLine(line)
    ensures Visible(NewEntry(line, now)).(state := "undeployed", closeTime := 0) == UNTRACKED.(timeDetected := now)
  {
    FreshEntry(line, now);
  }

  /** Where an entry comes to does not depend on where it was. */
  lemma StartDoesNotMatter(line: seq<string>, a: Entry, b: Entry, j: nat, error: string, now: Time, e1: Entry, sent: seq<Message>)
    requires ComesTo(line, a, j, error, now, e1, sent)
    requires a.(state := "", closeTime := 0) == b.(state := "", closeTime := 0)
    ensures ComesTo(line, b, j, error, now, e1, sent)
  {
    var error1 := if error != "" then error else a.error;
    var s := line[j];
    assert a.(state := s, workInProgress := false, wipTime := 0, closeTime := now, error := error1)
        == b.(state := s, workInProgress := false, wipTime := 0, closeTime := now, error := error1);
    assert a.(state := s, workInProgress := true, wipTime := now, closeTime := 0)
        == b.(state := s, workInProgress := true, wipTime := now, closeTime := 0);
  }

  /** A repeated add does nothing but set the time of the last update, if and only if the service
      is deployed, is to be, and has the definition of the message. */
  lemma AddIsSkippedIff(line: seq<string>, d: Durations, name: string, e: Entry, add: Event)
    requires ValidLine(line) && add.Receive? && Genuine(line, add) && Inv(line, name, e)
    requires "provider." <= add.msg.sender && add.msg.action == Add
    ensures Step(line, d, Some(e), add) == Some((Some(e.(lastUpdate := add.now)), [])) <==>
      && e.state == "deployed" && e.expectedState == "deployed"
      && e.service.targets == add.msg.service.targets
      && e.service.tls == add.msg.service.tls
      && e.service.dnsAliases == add.msg.service.dnsAliases
  {
    RepeatsIsSkipped(e, add.msg);
    if !Repeats(e, add.msg) {
      var i, j, e1, sent := AddDoes(line, d, Some(e), add);
    }
  }

  // ----- a reply -----

  /** A reply of a provisioner that is not skipped. When nobody works, the step of the entry is
      asked (again); a reply of another step is dropped; an error is noted and the work stops;
      otherwise the entry comes to the next step in its direction. */
  lemma ReplyDoes(line: seq<string>, d: Durations, name: string, e: Entry, reply: Event)
    returns (i: nat, j: nat, e1: Entry, sent: seq<Message>)
    requires ValidLine(line) && reply.Receive? && Genuine(line, reply) && Inv(line, name, e)
    requires !("provider." <= reply.msg.sender) && !Repeats(e, reply.msg)
    ensures Step(line, d, Some(e), reply) == Some((Some(e1), sent))
    ensures
      var msg := reply.msg;
      var e0 := Visible(e).(service := Told(e.service, msg));
      if !e.workInProgress then
        && sent == [Message(if e.expectedState == "undeployed" then Delete else Add, "", e.state, "", e0.service)]
        && Visible(e1) == e0.(workInProgress := true, wipTime := reply.now)
      else if msg.sender != e.state then sent == [] && Visible(e1) == e0
      else if msg.error != "" then sent == [] && Visible(e1) == e0.(workInProgress := false, wipTime := 0, error := msg.error)
      else
        && i < |line| && line[i] == e.state
        && (if e.expectedState == "undeployed" then Behind(line, i, j) else Ahead(line, i, j))
        && ComesTo(line, e0, j, "", reply.now, Visible(e1), sent)
  {
    var msg, now := reply.msg, reply.now;
    RepeatsIsSkipped(e, msg);
    ToldIsUpdated(e.service, msg);
    var p := PositionOf(line, e.state);
    PositionAtStop(line, p);
    ReplyOutcome(line, e, p, msg, now);
    var out := Merge(line, Some(e), msg, now);
    e1, sent := out.entry, out.sent;
    i, j := 0, 0;
    if e.workInProgress && msg.sender == e.state && msg.error == "" {
      i, j := AcceptedComesTo(line, e, p, msg, now);
    }
  }

  lemma AcceptedComesTo(line: seq<string>, e: Entry, p: nat, msg: Message, now: Time) returns (i: nat, j: nat)
    requires ValidLine(line) && FromStep(line, msg) && p < |StopsOf(line)| && e.state == StopsOf(line)[p] == msg.sender
    requires e.expectedState == DEPLOYED || e.expectedState == UNDEPLOYED
    ensures
      var from := Prepared(line, e, msg).(workInProgress := false, wipTime := 0);
      var out := Arrive(line, from, Toward(p, !e.IsReverse(), Top(line)), "", now);
      && out.Settled?
      && i < |line| && line[i] == e.state
      && (if e.expectedState == "undeployed" then Behind(line, i, j) else Ahead(line, i, j))
      && ComesTo(line, Visible(e).(service := UpdateService(e.service, msg)), j, "", now, Visible(out.entry), out.sent)
  {
    EndsAreNoProviders();
    EndStops(line);
    PositionAtStop(line, p);
    var q := Toward(p, !e.IsReverse(), Top(line));
    if e.IsReverse() {
      i, j := PlaceDown(line, p);
    } else {
      i, j := PlaceUp(line, p);
    }
    var from := Prepared(line, e, msg).(workInProgress := false, wipTime := 0);
    ArrivesAt(line, from, q, j, "", now);
    var out := Arrive(line, from, q, "", now);
    WorkDoesNotMatter(line, Visible(from), Visible(e).(service := UpdateService(e.service, msg)), j, now, Visible(out.entry), out.sent);
  }

  lemma WorkDoesNotMatter(line: seq<string>, a: Entry, b: Entry, j: nat, now: Time, e1: Entry, sent: seq<Message>)
    requires ComesTo(line, a, j, "", now, e1, sent)
    requires a == b.(workInProgress := false, wipTime := 0)
    ensures ComesTo(line, b, j, "", now, e1, sent)
  {
  }

  /** At an open step no reply is skipped, whatever its action. */
  lemma ReplyIsHeard(line: seq<string>, name: string, e: Entry, reply: Event)
    requires ValidLine(line) && Inv(line, name, e) && e.closeTime == 0 && reply.Receive?
    ensures !Repeats(e, reply.msg)
  {
    EndsAreNoProviders();
  }

  /** Of a service that is not tracked, a reply creates an entry at the first provisioner and
      sends it a request. */
  lemma StrayReplyDoes(line: seq<string>, d: Durations, reply: Event)
    returns (j: nat, e1: Entry, sent: seq<Message>)
    requires ValidLine(line) && reply.Receive? && Genuine(line, reply) && !("provider." <= reply.msg.sender)
    ensures Ahead(line, 0, j) && Step(line, d, None, reply) == Some((Some(e1), sent))
    ensures
      var e0 := UNTRACKED.(timeDetected := reply.now, service := Told(UNTRACKED.service, reply.msg), state := line[j]);
      && sent == [Message(Add, "", line[j], "", e0.service)]
      && Visible(e1) == e0.(workInProgress := true, wipTime := reply.now)
  {
    var msg, now := reply.msg, reply.now;
    EndStops(line);
    var i;
    i, j := PlaceUp(line, 0);
    EndPlaces(line, 0, i);
    FreshEntry(line, now);
    NewIsUntracked(line, now);
    var e := NewEntry(line, now);
    EndsAreNoProviders();
    PositionAtStop(line, PositionOf(line, e.state));
    ToldIsUpdated(e.service, msg);
    ReplyOutcome(line, e, 1, msg, now);
    var out := Merge(line, None, msg, now);
    e1, sent := out.entry, out.sent;
  }

  // ----- a delete -----

  /** Where a delete leads from step i: to the step itself when it is in progress on the way up,
      to the one before when nobody works or the service is deployed, and to the second one
      before when it is in progress on the way down. */
  ghost predicate Withdrawn(line: seq<string>, e: Entry, i: nat, k: nat, j: nat) {
    if !e.workInProgress || e.state == "deployed" then Behind(line, i, j)
    else if e.expectedState != "undeployed" then j == i
    else Behind(line, i, k) && (if k == 0 then j == 0 else Behind(line, k, j))
  }

  lemma DeleteDoes(line: seq<string>, d: Durations, name: string, e: Entry, delete: Event)
    returns (i: nat, k: nat, j: nat, e1: Entry, sent: seq<Message>)
    requires ValidLine(line) && delete.Receive? && Genuine(line, delete) && Inv(line, name, e)
    requires "provider." <= delete.msg.sender && delete.msg.action == Delete && delete.msg.service.name == name
    requires e.state != "undeployed"
    ensures i < |line| && line[i] == e.state && Withdrawn(line, e, i, k, j)
    ensures Step(line, d, Some(e), delete) == Some((Some(e1), sent))
    ensures ComesTo(line, Visible(e).(expectedState := "undeployed"), j, delete.msg.error, delete.now, Visible(e1), sent)
  {
    var msg, now := delete.msg, delete.now;
    RepeatsIsSkipped(e, msg);
    ToldIsUpdated(e.service, msg);
    EndsAreNoProviders();
    EndStops(line);
    var p := PositionOf(line, e.state);
    PositionAtStop(line, p);
    DeleteOutcome(line, e, p, msg, now);
    var q := BackFrom(line, e, p);
    i, k, j := WithdrawnTo(line, e, p);
    var from := e.(service := UpdateService(e.service, msg), expectedState := UNDEPLOYED, workInProgress := false, wipTime := 0);
    BackFromBelow(line, e, p);
    ArrivesAt(line, from, q, j, msg.error, now);
    var out := Merge(line, Some(e), msg, now);
    e1, sent := out.entry, out.sent;
    assert !("ipam." <= msg.sender) by { IpamIsNoProvider(msg.sender); }
    DeleteForgetsWork(line, Visible(from), Visible(e).(expectedState := "undeployed"), j, msg.error, now, Visible(e1), sent);
  }

  lemma DeleteForgetsWork(line: seq<string>, a: Entry, b: Entry, j: nat, error: string, now: Time, e1: Entry, sent: seq<Message>)
    requires ComesTo(line, a, j, error, now, e1, sent)
    requires a == b.(workInProgress := false, wipTime := 0)
    ensures ComesTo(line, b, j, error, now, e1, sent)
  {
  }

  lemma WithdrawnTo(line: seq<string>, e: Entry, p: nat) returns (i: nat, k: nat, j: nat)
    requires ValidLine(line) && 0 < p < |StopsOf(line)| && e.state == StopsOf(line)[p]
    requires e.state == DEPLOYED ==> e.expectedState == DEPLOYED
    ensures i < |line| && line[i] == e.state && Withdrawn(line, e, i, k, j)
    ensures BackFrom(line, e, p) < |StopsOf(line)| && j < |line| && line[j] == StopsOf(line)[BackFrom(line, e, p)]
  {
    EndStops(line);
    PositionAtStop(line, p);
    BackFromCases(line, e, p);
    i, k := PlaceDown(line, p);
    if !e.workInProgress || e.state == DEPLOYED {
      j := k;
    } else if e.expectedState != UNDEPLOYED {
      j := i;
    } else if p == 1 {
      EndPlaces(line, 0, k);
      j := 0;
    } else {
      var l;
      l, j := PlaceDown(line, p - 1);
      SameIndex(line, l, k);
    }
  }

  lemma SameIndex(line: seq<string>, i: nat, j: nat)
    requires ValidLine(line) && i < |line| && j < |line| && line[i] == line[j]
    ensures i == j
  {
  }

  // ----- any other action -----

  /** A provider message that is neither an add nor a delete: the definition and an error. A
      service that is not tracked gets an entry at the first provisioner, which is not asked. */
  lemma UnhandledDoes(line: seq<string>, d: Durations, o: Option<Entry>, ev: Event) returns (j: nat, e1: Entry)
    requires ValidLine(line) && ev.Receive? && Genuine(line, ev)
    requires "provider." <= ev.msg.sender && ev.msg.action != Add && ev.msg.action != Delete
    ensures Ahead(line, 0, j) && Step(line, d, o, ev) == Some((Some(e1), []))
    ensures
      var e := o.GetOr(UNTRACKED.(timeDetected := ev.now, state := line[j]));
      Visible(e1) == Visible(e).(service := Told(e.service, ev.msg), error := "Unhandled action " +
        match ev.msg.action case Update => "update" case Refresh => "refresh" case Other(text) => text case _ => "")
  {
    j := FirstPlace(line, ev.now);
    var e := o.GetOr(NewEntry(line, ev.now));
    ToldIsUpdated(e.service, ev.msg);
    EntersAt(line, ev.msg.sender);
    var e0 := Prepared(line, e, ev.msg);
    assert Execute(line, e0, ev.msg, ev.now) == Halt(e0.(error := Unhandled(ev.msg.action)), []);
    e1 := e0.(error := Unhandled(ev.msg.action));
    if o.Some? {
      assert NeedsUpdate(o.value, ev.msg);
    }
  }

  /** A new entry, in full. */
  lemma FirstPlace(line: seq<string>, now: Time) returns (j: nat)
    requires ValidLine(line)
    ensures Ahead(line, 0, j) && j < |line| - 1
    ensures Visible(NewEntry(line, now)) == UNTRACKED.(timeDetected := now, state := line[j])
    ensures |StopsOf(line)| >= 3 && NewEntry(line, now).state == StopsOf(line)[1]
  {
    EndStops(line);
    EndsAreNoProviders();
    var i;
    i, j := PlaceUp(line, 0);
    EndPlaces(line, 0, i);
    EndPlaces(line, 1, j);
    FreshEntry(line, now);
    NewIsUntracked(line, now);
    PositionAtStop(line, PositionOf(line, NewEntry(line, now).state));
  }

  /** A delete of a service that is not tracked creates an entry that is undeployed at once. */
  lemma StrayDeleteDoes(line: seq<string>, d: Durations, delete: Event) returns (e1: Entry)
    requires ValidLine(line) && delete.Receive? && Genuine(line, delete)
    requires "provider." <= delete.msg.sender && delete.msg.action == Delete
    ensures Step(line, d, None, delete) == Some((Some(e1), []))
    ensures Visible(e1) ==
      UNTRACKED.(timeDetected := delete.now, service := UNTRACKED.service.(name := delete.msg.service.name),
                 expectedState := "undeployed", closeTime := delete.now, error := delete.msg.error)
  {
    var msg, now := delete.msg, delete.now;
    var j := FirstPlace(line, now);
    var e := NewEntry(line, now);
    EndStops(line);
    PositionAtStop(line, 1);
    ToldIsUpdated(e.service, msg);
    IpamIsNoProvider(msg.sender);
    DeleteOutcome(line, e, 1, msg, now);
    e1 := Merge(line, None, msg, now).entry;
  }

  // ----- the times -----

  /** At most one message is sent by an event, and then the work starts now; work that goes on
      without a message started when it did before. The time of closing is that of the event
      that closed the entry. */
  lemma StepTimes(line: seq<string>, d: Durations, name: string, o: Option<Entry>, ev: Event, e1: Entry, sent: seq<Message>)
    requires ValidLine(line) && Genuine(line, ev) && Concerns(name, ev) && InvO(line, name, o)
    requires Step(line, d, o, ev) == Some((Some(e1), sent))
    ensures |sent| <= 1
    ensures |sent| == 1 ==> e1.workInProgress && e1.wipTime == ev.now
    ensures |sent| == 0 && e1.workInProgress ==> o.Some? && o.value.workInProgress && e1.wipTime == o.value.wipTime
    ensures e1.closeTime != 0 ==>
      e1.closeTime == ev.now || (o.Some? && e1.closeTime == o.value.closeTime && e1.state == o.value.state)
  {
    if ev.Receive? {
      MergeFinishesIff(line, name, o, ev.msg, ev.now);
      if o.Some? {
        RepeatsIsSkipped(o.value, ev.msg);
      }
      if o.Some? && Repeats(o.value, ev.msg) {
      } else if !("provider." <= ev.msg.sender) {
        ReplyTimes(line, d, name, o, ev);
      } else if ev.msg.action == Add {
        var i, j, e2, sent2 := AddDoes(line, d, o, ev);
      } else if ev.msg.action != Delete {
        var j, e2 := UnhandledDoes(line, d, o, ev);
      } else if o.None? {
        var e2 := StrayDeleteDoes(line, d, ev);
      } else {
        var i, k, j, e2, sent2 := DeleteDoes(line, d, name, o.value, ev);
      }
    }
  }

  lemma ReplyTimes(line: seq<string>, d: Durations, name: string, o: Option<Entry>, ev: Event)
    requires ValidLine(line) && Genuine(line, ev) && Concerns(name, ev) && InvO(line, name, o)
    requires ev.Receive? && !("provider." <= ev.msg.sender) && (o.Some? ==> !Repeats(o.value, ev.msg))
    ensures Step(line, d, o, ev).Some? && Step(line, d, o, ev).value.0.Some?
    ensures
      var (o1, sent) := Step(line, d, o, ev).value;
      var e1 := o1.value;
      && |sent| <= 1
      && (|sent| == 1 ==> e1.workInProgress && e1.wipTime == ev.now)
      && (|sent| == 0 && e1.workInProgress ==> o.Some? && o.value.workInProgress && e1.wipTime == o.value.wipTime)
      && (e1.closeTime != 0 ==>
            e1.closeTime == ev.now || (o.Some? && e1.closeTime == o.value.closeTime && e1.state == o.value.state))
  {
    if o.None? {
      var j, e1, sent := StrayReplyDoes(line, d, ev);
    } else {
      var i, j, e1, sent := ReplyDoes(line, d, name, o.value, ev);
    }
  }

  /** After every run: an entry in progress was asked last by event k, at the time that it
      carries, and nothing was sent since. A timeout counts from there. */
  lemma {:induction false} WorkSince(line: seq<string>, d: Durations, name: string, evs: seq<Event>, e: Entry)
    returns (k: nat, o: Option<Entry>, request: Message)
    requires ValidLine(line) && AllFor(line, name, evs)
    requires Run(line, d, None, evs).Some? && Run(line, d, None, evs).value.0 == Some(e) && e.workInProgress
    ensures k < |evs| && e.wipTime == evs[k].now
    ensures Run(line, d, None, evs[..k]).Some? && Run(line, d, None, evs[..k]).value.0 == o
    ensures Step(line, d, o, evs[k]).Some? && Step(line, d, o, evs[k]).value.1 == [request]
    ensures Run(line, d, o, evs[k..]) == Some((Some(e), [request]))
    decreases |evs|
  {
    if |evs| == 0 {
    } else {
      var front, ev := evs[..|evs| - 1], evs[|evs| - 1];
      assert evs == front + [ev];
      Earning.LastEvent(line, d, None, front, ev);
      var before := Run(line, d, None, front).value.0;
      var sent := Step(line, d, before, ev).value.1;
      assert AllFor(line, name, front) && Genuine(line, ev) && Concerns(name, ev);
      RunInvariant(line, d, name, None, front, []);
      StepTimes(line, d, name, before, ev, e, sent);
      if |sent| == 1 {
        k, o, request := |front|, before, sent[0];
        assert evs[..k] == front && evs[k..] == [ev] && [ev][1..] == [];
        assert sent + [] == [request];
      } else {
        k, o, request := WorkSince(line, d, name, front, before.value);
        Earning.SplitLonger(front, ev, k);
        Earning.OneMore(line, d, o, front[k..], ev, before, [request], Some(e), sent);
        assert [request] + sent == [request];
      }
    }
  }
}
