/** Deployed without an error is earned: every step was asked and has answered. */
module Earning {
  import opened Wrappers
  import opened Comm
  import opened Workflow
  import opened Stops
  import opened Entries
  import opened Outcomes
  import opened Tracks
  import opened Store
  import opened Runs
  import StoreRuns

  /** These events, and any others between them, are error-free replies of the steps, in order. */
  ghost predicate InTurn(line: seq<string>, name: string, evs: seq<Event>, steps: seq<string>, marks: seq<nat>) {
    && |marks| == |steps|
    && (forall i, j | 0 <= i < j < |marks| :: marks[i] < marks[j])
    && forall i | 0 <= i < |marks| :: marks[i] < |evs| && Accepted(line, name, steps[i], evs[marks[i]])
  }

  ghost predicate Heard(line: seq<string>, name: string, evs: seq<Event>, steps: seq<string>) {
    exists marks: seq<nat> :: InTurn(line, name, evs, steps, marks)
  }

  /** The event starts a way up at stop `from`: an add, or a stray reply about a service that
      is not tracked, which creates its entry at the first stop. */
  predicate Enters(line: seq<string>, o: Option<Entry>, ev: Event, from: nat) {
    ev.Receive? &&
    match SignalOf(line, o, ev.msg)
    case Enter(at) => from == at
    case Reply(_, _) => o.None? && from == 1
    case _ => false
  }

  /** The entry is on its way up since it entered at `from`: each stop that it has left was
      asked and has answered, in order, and the one that works was asked. Nothing else was sent. */
  ghost predicate Climbing(line: seq<string>, name: string, e: Entry, from: nat, since: seq<Event>, sent: seq<Message>) {
    var p := PositionOf(line, e.state);
    && 0 < from <= p < |StopsOf(line)|
    && AsksInOrder(sent, Add, StopsOf(line)[from..if e.workInProgress then p + 1 else p])
    && Heard(line, name, since, StopsOf(line)[from..p])
  }

  /** Event j is an add or a delete that is not skipped. */
  predicate Ordered(line: seq<string>, d: Durations, evs: seq<Event>, j: nat)
    requires j < |evs|
  {
    && evs[j].Receive? && IsOrder(evs[j].msg)
    && match Run(line, d, None, evs[..j])
       case Some((Some(e), _)) => NeedsUpdate(e, evs[j].msg)
       case _ => true
  }

  /** These events lead from `o` to the entry: the first one enters, and it climbs since. */
  ghost predicate ClimbedSince(line: seq<string>, d: Durations, name: string, o: Option<Entry>, evs: seq<Event>, e: Entry, from: nat) {
    && |evs| > 0 && Enters(line, o, evs[0], from)
    && Run(line, d, o, evs).Some?
    && Run(line, d, o, evs).value.0 == Some(e)
    && Climbing(line, name, e, from, evs[1..], Run(line, d, o, evs).value.1)
  }

  /** Event k was the last entrance, at stop `from`, and the entry climbs since. */
  ghost predicate EarnedFrom(line: seq<string>, d: Durations, name: string, evs: seq<Event>, e: Entry, k: nat, from: nat) {
    && k < |evs|
    && Run(line, d, None, evs[..k]).Some?
    && ClimbedSince(line, d, name, Run(line, d, None, evs[..k]).value.0, evs[k..], e, from)
    && forall j | k < j < |evs| :: !Ordered(line, d, evs, j)
  }

  // ----- one event -----

  /** An entry without an error after a message had none before, or was entered anew; and
      neither an error reply of the step asked nor an unhandled action leaves it so. */
  lemma ErrorStays(line: seq<string>, name: string, o: Option<Entry>, msg: Message, now: Time)
    requires ValidLine(line) && FromStep(line, msg) && msg.service.name == name && now > 0
    requires InvO(line, name, o) && Finishes(o, msg)
    requires Merge(line, o, msg, now).Settled? && Merge(line, o, msg, now).entry.error == ""
    ensures
      match SignalOf(line, o, msg)
      case Enter(_) => true
      case Withdraw => true
      case Ignore => o.Some? && !NeedsUpdate(o.value, msg) && o.value.error == ""
      case Reply(_, ok) =>
        && (o.Some? ==> o.value.error == "")
        && (o.Some? && o.value.workInProgress && msg.sender == o.value.state ==> ok)
  {
    if o.Some? && !NeedsUpdate(o.value, msg) {
    } else if !IsProvider(msg.sender) {
      FreshEntry(line, now);
      var e := o.GetOr(NewEntry(line, now));
      PositionAtStop(line, PositionOf(line, e.state));
      ReplyOutcome(line, e, PositionOf(line, e.state), msg, now);
    } else if !IsOrder(msg) {
      FreshEntry(line, now);
      UnhandledIsAnError(line, o.GetOr(NewEntry(line, now)), msg, now);
    }
  }

  lemma UnhandledIsAnError(line: seq<string>, e: Entry, msg: Message, now: Time)
    requires ValidLine(line) && FromStep(line, msg) && IsProvider(msg.sender) && !IsOrder(msg)
    ensures Dispatch(line, Prepared(line, e, msg), msg, now, CALLS) == Settled(Prepared(line, e, msg).(error := Unhandled(msg.action)), [])
    ensures Unhandled(msg.action) != ""
  {
    EntersAt(line, msg.sender);
    assert Unhandled(msg.action)[0] == 'U';
  }

  lemma HeardMore(line: seq<string>, name: string, evs: seq<Event>, steps: seq<string>, ev: Event)
    requires Heard(line, name, evs, steps)
    ensures Heard(line, name, evs + [ev], steps)
  {
    var marks: seq<nat> :| InTurn(line, name, evs, steps, marks);
    assert InTurn(line, name, evs + [ev], steps, marks);
  }

  lemma HeardNext(line: seq<string>, name: string, evs: seq<Event>, steps: seq<string>, ev: Event, step: string)
    requires Heard(line, name, evs, steps) && Accepted(line, name, step, ev)
    ensures Heard(line, name, evs + [ev], steps + [step])
  {
    var marks: seq<nat> :| InTurn(line, name, evs, steps, marks);
    var at: nat := |evs|;
    var more := marks + [at];
    assert forall i | 0 <= i < |marks| :: more[i] == marks[i];
    assert InTurn(line, name, evs + [ev], steps + [step], more);
  }

  lemma AskNext(sent: seq<Message>, stops: seq<string>, from: nat, p: nat, sent1: seq<Message>)
    requires from <= p < |stops| && AsksInOrder(sent, Add, stops[from..p])
    requires |sent1| == 1 && sent1[0].action == Add && sent1[0].destination == stops[p]
    ensures AsksInOrder(sent + sent1, Add, stops[from..p + 1])
  {
    assert AsksInOrder(sent1, Add, [stops[p]]);
    AsksConcat(sent, sent1, Add, stops[from..p], [stops[p]]);
    SliceLast(stops, from, p);
  }

  lemma SliceLast<T>(s: seq<T>, from: nat, p: nat)
    requires from <= p < |s|
    ensures s[from..p + 1] == s[from..p] + [s[p]]
  {
  }

  /** A move that neither enters nor turns back. */
  ghost predicate Onward(line: seq<string>, e: Entry, s: Signal) {
    || s.Ignore?
    || (s.Reply? && (e.workInProgress && s.from == PositionOf(line, e.state) ==> s.ok && 0 < s.from < Top(line)))
  }

  lemma ClimbingOn(line: seq<string>, name: string, e: Entry, from: nat, since: seq<Event>, sent: seq<Message>,
                   ev: Event, s: Signal, e1: Entry, sent1: seq<Message>)
    requires ValidLine(line) && Inv(line, name, e) && !e.IsReverse() && Climbing(line, name, e, from, since, sent)
    requires Onward(line, e, s) && Simulates(line, e1, sent1, Move(Top(line), TrackOf(line, e), s))
    requires s.Reply? && s.from == PositionOf(line, e.state) && s.ok ==> Accepted(line, name, e.state, ev)
    ensures Climbing(line, name, e1, from, since + [ev], sent + sent1)
  {
    if s.Reply? && !e.workInProgress {
      AskedAgain(line, name, e, from, since, sent, ev, s, e1, sent1);
    } else if s.Reply? && s.from == PositionOf(line, e.state) {
      Answered(line, name, e, from, since, sent, ev, s, e1, sent1);
    } else {
      HeardMore(line, name, since, StopsOf(line)[from..PositionOf(line, e.state)], ev);
      assert sent + sent1 == sent;
    }
  }

  lemma AskedAgain(line: seq<string>, name: string, e: Entry, from: nat, since: seq<Event>, sent: seq<Message>,
                   ev: Event, s: Signal, e1: Entry, sent1: seq<Message>)
    requires !e.IsReverse() && Climbing(line, name, e, from, since, sent) && s.Reply? && !e.workInProgress
    requires Simulates(line, e1, sent1, Move(Top(line), TrackOf(line, e), s))
    ensures Climbing(line, name, e1, from, since + [ev], sent + sent1)
  {
    var p := PositionOf(line, e.state);
    HeardMore(line, name, since, StopsOf(line)[from..p], ev);
    AskNext(sent, StopsOf(line), from, p, sent1);
  }

  lemma Answered(line: seq<string>, name: string, e: Entry, from: nat, since: seq<Event>, sent: seq<Message>,
                 ev: Event, s: Signal, e1: Entry, sent1: seq<Message>)
    requires ValidLine(line) && Inv(line, name, e) && !e.IsReverse() && Climbing(line, name, e, from, since, sent)
    requires e.workInProgress && s.Reply? && s.from == PositionOf(line, e.state) < Top(line) && s.ok
    requires Simulates(line, e1, sent1, Reach(Top(line), s.from + 1, true))
    requires Accepted(line, name, e.state, ev)
    ensures Climbing(line, name, e1, from, since + [ev], sent + sent1)
  {
    var p := s.from;
    var q: nat := p + 1;
    var stops := StopsOf(line);
    PositionAtStop(line, p);
    HeardNext(line, name, since, stops[from..p], ev, stops[p]);
    SliceLast(stops, from, p);
    ReachAsks(line, e1, sent1, q, sent, from);
  }

  lemma ReachAsks(line: seq<string>, e1: Entry, sent1: seq<Message>, q: nat, sent: seq<Message>, from: nat)
    requires ValidLine(line) && 0 < from <= q <= Top(line) && Simulates(line, e1, sent1, Reach(Top(line), q, true))
    requires AsksInOrder(sent, Add, StopsOf(line)[from..q])
    ensures PositionOf(line, e1.state) == q
    ensures AsksInOrder(sent + sent1, Add, StopsOf(line)[from..if e1.workInProgress then q + 1 else q])
  {
    if q < Top(line) {
      AskNext(sent, StopsOf(line), from, q, sent1);
    } else {
      assert sent + sent1 == sent;
    }
  }

  lemma ClimbingStarts(line: seq<string>, name: string, o: Option<Entry>, ev: Event, from: nat, e1: Entry, sent1: seq<Message>)
    requires ValidLine(line) && ev.Receive? && Enters(line, o, ev, from) && 0 < from <= Top(line)
    requires Simulates(line, e1, sent1, Move(Top(line), Start(line, o), SignalOf(line, o, ev.msg)))
    ensures Climbing(line, name, e1, from, [], sent1)
  {
    EndStops(line);
    PositionAtStop(line, PositionOf(line, e1.state));
    var stops := StopsOf(line);
    assert InTurn(line, name, [], stops[from..from], []);
    if e1.workInProgress {
      AskNext([], stops, from, from, sent1);
      assert [] + sent1 == sent1;
    }
  }

  // ----- the whole run -----

  lemma LastEvent(line: seq<string>, d: Durations, o: Option<Entry>, front: seq<Event>, ev: Event)
    requires Run(line, d, o, front + [ev]).Some?
    ensures Run(line, d, o, front).Some? && Step(line, d, Run(line, d, o, front).value.0, ev).Some?
    ensures
      var (o0, sent0) := Run(line, d, o, front).value;
      var (o1, sent1) := Step(line, d, o0, ev).value;
      Run(line, d, o, front + [ev]) == Some((o1, sent0 + sent1))
  {
    RunConcat(line, d, o, front, [ev]);
    assert [ev][1..] == [];
    var (o0, _) := Run(line, d, o, front).value;
    var (_, sent1) := Step(line, d, o0, ev).value;
    assert sent1 + [] == sent1;
  }

  /** What an event that does not turn the entry back, and leaves no error, does to it. */
  lemma StepOnward(line: seq<string>, d: Durations, name: string, e: Entry, ev: Event, e1: Entry, sent1: seq<Message>)
    returns (s: Signal)
    requires ValidLine(line) && Genuine(line, ev) && Concerns(name, ev) && Inv(line, name, e)
    requires Step(line, d, Some(e), ev) == Some((Some(e1), sent1)) && e1.error == ""
    requires ev.Receive? && IsOrder(ev.msg) ==> !NeedsUpdate(e, ev.msg)
    ensures e.error == "" && Onward(line, e, s)
    ensures Simulates(line, e1, sent1, Move(Top(line), TrackOf(line, e), s))
    ensures s.Reply? && s.from == PositionOf(line, e.state) && s.ok ==> Accepted(line, name, e.state, ev)
  {
    match ev {
      case Sweep(now) =>
        SweepSimulates(line, name, d, e, now);
        assert TimeoutError(e) != "";
        s := Ignore;
      case Receive(msg, now) =>
        MergeFinishesIff(line, name, Some(e), msg, now);
        MergeSimulates(line, name, Some(e), msg, now);
        ErrorStays(line, name, Some(e), msg, now);
        s := SignalOf(line, Some(e), msg);
        ReplierIsInside(line, Some(e), msg);
        if !IsProvider(msg.sender) {
          SamePlace(line, msg.sender, e.state);
        }
    }
  }

  lemma SamePlace(line: seq<string>, sender: string, state: string)
    requires ValidLine(line) && sender in line && !IsProvider(sender) && state in StopsOf(line)
    ensures PositionOf(line, sender) == PositionOf(line, state) <==> sender == state
  {
    NonProviderIsStop(line, sender);
  }

  /** An order that is not skipped, or the event that creates the entry, leads nowhere but to
      an entrance when the entry is then on its way up without an error. */
  lemma StepEnters(line: seq<string>, d: Durations, name: string, o: Option<Entry>, ev: Event, e1: Entry, sent1: seq<Message>)
    returns (from: nat)
    requires ValidLine(line) && Genuine(line, ev) && Concerns(name, ev) && InvO(line, name, o)
    requires Step(line, d, o, ev) == Some((Some(e1), sent1)) && e1.error == "" && !e1.IsReverse()
    requires o.None? || (ev.Receive? && IsOrder(ev.msg) && NeedsUpdate(o.value, ev.msg))
    ensures Enters(line, o, ev, from) && Climbing(line, name, e1, from, [], sent1)
  {
    EndStops(line);
    var msg, now := ev.msg, ev.now;
    MergeFinishesIff(line, name, o, msg, now);
    MergeSimulates(line, name, o, msg, now);
    ErrorStays(line, name, o, msg, now);
    var signal := SignalOf(line, o, msg);
    if IsProvider(msg.sender) {
      EntersAt(line, msg.sender);
    }
    from := if signal.Enter? then signal.at else 1;
    assert !signal.Withdraw?;
    ClimbingStarts(line, name, o, ev, from, e1, sent1);
  }

  lemma ClimbsOn(line: seq<string>, d: Durations, name: string, o: Option<Entry>, evs: seq<Event>, e: Entry, from: nat,
                 ev: Event, e1: Entry, sent1: seq<Message>)
    requires ValidLine(line) && Genuine(line, ev) && Concerns(name, ev) && Inv(line, name, e) && !e.IsReverse()
    requires ClimbedSince(line, d, name, o, evs, e, from)
    requires Step(line, d, Some(e), ev) == Some((Some(e1), sent1)) && e1.error == ""
    requires ev.Receive? && IsOrder(ev.msg) ==> !NeedsUpdate(e, ev.msg)
    ensures ClimbedSince(line, d, name, o, evs + [ev], e1, from)
  {
    var s := StepOnward(line, d, name, e, ev, e1, sent1);
    var sent := Run(line, d, o, evs).value.1;
    ClimbingOn(line, name, e, from, evs[1..], sent, ev, s, e1, sent1);
    ClimbedMore(line, d, name, o, evs, e, from, sent, ev, e1, sent1);
  }

  lemma ClimbedMore(line: seq<string>, d: Durations, name: string, o: Option<Entry>, evs: seq<Event>, e: Entry, from: nat,
                    sent: seq<Message>, ev: Event, e1: Entry, sent1: seq<Message>)
    requires |evs| > 0 && Enters(line, o, evs[0], from) && Run(line, d, o, evs) == Some((Some(e), sent))
    requires Step(line, d, Some(e), ev) == Some((Some(e1), sent1))
    requires Climbing(line, name, e1, from, evs[1..] + [ev], sent + sent1)
    ensures ClimbedSince(line, d, name, o, evs + [ev], e1, from)
  {
    assert (evs + [ev])[1..] == evs[1..] + [ev];
    OneMore(line, d, o, evs, ev, Some(e), sent, Some(e1), sent1);
  }

  lemma OneMore(line: seq<string>, d: Durations, o: Option<Entry>, evs: seq<Event>, ev: Event,
                o0: Option<Entry>, sent0: seq<Message>, o1: Option<Entry>, sent1: seq<Message>)
    requires Run(line, d, o, evs) == Some((o0, sent0)) && Step(line, d, o0, ev) == Some((o1, sent1))
    ensures Run(line, d, o, evs + [ev]) == Some((o1, sent0 + sent1))
  {
    RunConcat(line, d, o, evs, [ev]);
    assert [ev][1..] == [];
    assert sent1 + [] == sent1;
  }

  lemma EarnedOn(line: seq<string>, d: Durations, name: string, front: seq<Event>, e: Entry, k: nat, from: nat,
                 ev: Event, e1: Entry, sent1: seq<Message>)
    requires ValidLine(line) && Genuine(line, ev) && Concerns(name, ev) && Inv(line, name, e) && !e.IsReverse()
    requires Run(line, d, None, front).Some? && Run(line, d, None, front).value.0 == Some(e)
    requires EarnedFrom(line, d, name, front, e, k, from)
    requires Step(line, d, Some(e), ev) == Some((Some(e1), sent1)) && e1.error == ""
    requires ev.Receive? && IsOrder(ev.msg) ==> !NeedsUpdate(e, ev.msg)
    ensures EarnedFrom(line, d, name, front + [ev], e1, k, from)
  {
    var o := Run(line, d, None, front[..k]).value.0;
    SplitLonger(front, ev, k);
    ClimbsOn(line, d, name, o, front[k..], e, from, ev, e1, sent1);
    NotOrderedSince(line, d, front, e, k, ev);
  }

  lemma SplitLonger<T>(front: seq<T>, last: T, k: nat)
    requires k <= |front|
    ensures (front + [last])[..k] == front[..k] && (front + [last])[k..] == front[k..] + [last]
  {
  }

  lemma NotOrderedSince(line: seq<string>, d: Durations, front: seq<Event>, e: Entry, k: nat, ev: Event)
    requires Run(line, d, None, front).Some? && Run(line, d, None, front).value.0 == Some(e)
    requires forall j | k < j < |front| :: !Ordered(line, d, front, j)
    requires ev.Receive? && IsOrder(ev.msg) ==> !NeedsUpdate(e, ev.msg)
    ensures forall j | k < j < |front| + 1 :: !Ordered(line, d, front + [ev], j)
  {
    var evs := front + [ev];
    forall j | k < j < |evs| ensures !Ordered(line, d, evs, j) {
      if j < |front| {
        assert evs[..j] == front[..j];
        assert !Ordered(line, d, front, j);
      } else {
        assert evs[..j] == front;
      }
    }
  }

  lemma EarnedNow(line: seq<string>, d: Durations, name: string, front: seq<Event>, o: Option<Entry>, from: nat,
                  ev: Event, e1: Entry, sent1: seq<Message>)
    requires Run(line, d, None, front).Some? && Run(line, d, None, front).value.0 == o
    requires Step(line, d, o, ev) == Some((Some(e1), sent1))
    requires Enters(line, o, ev, from) && Climbing(line, name, e1, from, [], sent1)
    ensures EarnedFrom(line, d, name, front + [ev], e1, |front|, from)
  {
    var evs := front + [ev];
    assert evs[..|front|] == front && evs[|front|..] == [ev] && [ev][1..] == [];
    assert sent1 + [] == sent1;
  }

  /** Every entry that is to be deployed and has no error has earned its place, after every run. */
  lemma {:induction false} UpwardIsEarned(line: seq<string>, d: Durations, name: string, evs: seq<Event>, e: Entry)
    returns (k: nat, from: nat)
    requires ValidLine(line) && AllFor(line, name, evs)
    requires Run(line, d, None, evs).Some? && Run(line, d, None, evs).value.0 == Some(e)
    requires !e.IsReverse() && e.error == ""
    ensures EarnedFrom(line, d, name, evs, e, k, from)
    decreases |evs|
  {
    var front, ev := evs[..|evs| - 1], evs[|evs| - 1];
    assert evs == front + [ev];
    LastEvent(line, d, None, front, ev);
    var o := Run(line, d, None, front).value.0;
    var sent1 := Step(line, d, o, ev).value.1;
    assert AllFor(line, name, front) && Genuine(line, ev) && Concerns(name, ev);
    RunInvariant(line, d, name, None, front, []);
    if o.None? || (ev.Receive? && IsOrder(ev.msg) && NeedsUpdate(o.value, ev.msg)) {
      from := StepEnters(line, d, name, o, ev, e, sent1);
      k := |front|;
      EarnedNow(line, d, name, front, o, from, ev, e, sent1);
    } else {
      UpwardBefore(line, d, name, o.value, ev, e, sent1);
      k, from := UpwardIsEarned(line, d, name, front, o.value);
      EarnedOn(line, d, name, front, o.value, k, from, ev, e, sent1);
    }
  }

  lemma UpwardBefore(line: seq<string>, d: Durations, name: string, e: Entry, ev: Event, e1: Entry, sent1: seq<Message>)
    requires ValidLine(line) && Genuine(line, ev) && Concerns(name, ev) && Inv(line, name, e)
    requires Step(line, d, Some(e), ev) == Some((Some(e1), sent1)) && e1.error == "" && !e1.IsReverse()
    requires ev.Receive? && IsOrder(ev.msg) ==> !NeedsUpdate(e, ev.msg)
    ensures !e.IsReverse() && e.error == ""
  {
    var s := StepOnward(line, d, name, e, ev, e1, sent1);
  }

  lemma ClimbedToTop(line: seq<string>, d: Durations, name: string, o: Option<Entry>, evs: seq<Event>, e: Entry, from: nat)
    returns (sent: seq<Message>)
    requires ValidLine(line) && Inv(line, name, e) && e.state == DEPLOYED
    requires ClimbedSince(line, d, name, o, evs, e, from)
    ensures 0 < from <= Top(line) < |StopsOf(line)|
    ensures Run(line, d, o, evs) == Some((Some(e), sent))
    ensures AsksInOrder(sent, Add, StopsOf(line)[from..Top(line)] + if e.workInProgress then [DEPLOYED] else [])
    ensures Heard(line, name, evs[1..], StopsOf(line)[from..Top(line)])
  {
    EndStops(line);
    PositionAtStop(line, PositionOf(line, e.state));
    sent := Run(line, d, o, evs).value.1;
    var top := Top(line);
    SliceLast(StopsOf(line), from, top);
    assert StopsOf(line)[from..top] + [] == StopsOf(line)[from..top];
  }

  /** Deployed without an error: since the last entrance, at stop `from`, exactly the
      provisioners from there on were asked, with adds and in order, and each has answered
      without an error, in order. After a late reply `deployed` itself was asked too. */
  lemma DeployedIsEarned(line: seq<string>, d: Durations, name: string, evs: seq<Event>, e: Entry)
    returns (k: nat, from: nat, o: Option<Entry>, sent: seq<Message>)
    requires ValidLine(line) && AllFor(line, name, evs)
    requires Run(line, d, None, evs).Some? && Run(line, d, None, evs).value.0 == Some(e)
    requires e.state == DEPLOYED && e.error == ""
    ensures k < |evs| && Enters(line, o, evs[k], from) && 0 < from <= Top(line) < |StopsOf(line)|
    ensures Run(line, d, None, evs[..k]).Some? && Run(line, d, None, evs[..k]).value.0 == o
    ensures Run(line, d, o, evs[k..]) == Some((Some(e), sent))
    ensures AsksInOrder(sent, Add, StopsOf(line)[from..Top(line)] + if e.workInProgress then [DEPLOYED] else [])
    ensures Heard(line, name, evs[k..][1..], StopsOf(line)[from..Top(line)])
    ensures forall j | k < j < |evs| :: !Ordered(line, d, evs, j)
  {
    DeployedIsUpward(line, d, name, evs, e);
    k, from := UpwardIsEarned(line, d, name, evs, e);
    o := Run(line, d, None, evs[..k]).value.0;
    sent := ClimbedToTop(line, d, name, o, evs[k..], e, from);
  }

  lemma DeployedIsUpward(line: seq<string>, d: Durations, name: string, evs: seq<Event>, e: Entry)
    requires ValidLine(line) && AllFor(line, name, evs)
    requires Run(line, d, None, evs).Some? && Run(line, d, None, evs).value.0 == Some(e)
    requires e.state == DEPLOYED
    ensures Inv(line, name, e) && !e.IsReverse()
  {
    EndsAreNoProviders();
    RunInvariant(line, d, name, None, evs, []);
  }

  /** The same for a service of the table, on the events that concern it. */
  lemma DeployedInTableIsEarned(line: seq<string>, d: Durations, evs: seq<Event>, store: StoreRuns.Services, name: string)
    returns (k: nat, from: nat, o: Option<Entry>, sent: seq<Message>)
    requires ValidLine(line) && StoreRuns.AllGenuine(line, evs)
    requires StoreRuns.StoreRun(line, d, map[], evs).Some? && StoreRuns.StoreRun(line, d, map[], evs).value.0 == store
    requires name in store && store[name].state == DEPLOYED && store[name].error == ""
    ensures
      var own := StoreRuns.Relevant(evs, name);
      && k < |own| && Enters(line, o, own[k], from) && 0 < from <= Top(line) < |StopsOf(line)|
      && Run(line, d, None, own[..k]).Some? && Run(line, d, None, own[..k]).value.0 == o
      && Run(line, d, o, own[k..]) == Some((Some(store[name]), sent))
      && AsksInOrder(sent, Add, StopsOf(line)[from..Top(line)] + if store[name].workInProgress then [DEPLOYED] else [])
      && Heard(line, name, own[k..][1..], StopsOf(line)[from..Top(line)])
  {
    StoreRuns.StoreRunProjects(line, d, map[], evs, name);
    StoreRuns.RelevantAllFor(line, evs, name);
    k, from, o, sent := DeployedIsEarned(line, d, name, StoreRuns.Relevant(evs, name), store[name]);
  }
}
