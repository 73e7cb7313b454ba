/** Whole runs: messages and sweeps in any order, for one service and for the table. */
module Runs {
  import opened Wrappers
  import opened Comm
  import opened Workflow
  import opened Stops
  import opened Entries
  import Dispatching
  import opened Outcomes
  import opened Tracks
  import opened Store

  datatype Event = Receive(msg: Message, now: Time) | Sweep(now: Time)

  /** Messages come from steps; the clock is not Go's zero time. */
  ghost predicate Genuine(line: seq<string>, ev: Event) {
    ev.now > 0 && (ev.Receive? ==> FromStep(line, ev.msg))
  }

  predicate Concerns(name: string, ev: Event) {
    ev.Receive? ==> ev.msg.service.name == name
  }

  ghost predicate AllFor(line: seq<string>, name: string, evs: seq<Event>) {
    forall i | 0 <= i < |evs| :: Genuine(line, evs[i]) && Concerns(name, evs[i])
  }

  /** One event for one service; None when the dispatch does not end. */
  function Step(line: seq<string>, d: Durations, o: Option<Entry>, ev: Event): Option<(Option<Entry>, seq<Message>)> {
    match ev
    case Receive(msg, now) =>
      (match Merge(line, o, msg, now)
       case Settled(e, sent) => Some((Some(e), sent))
       case _ => None)
    case Sweep(now) => Some((if o.None? then None else SweepEntry(d, o.value, now), []))
  }

  function Run(line: seq<string>, d: Durations, o: Option<Entry>, evs: seq<Event>): Option<(Option<Entry>, seq<Message>)>
    decreases |evs|
  {
    if |evs| == 0 then Some((o, []))
    else
      match Step(line, d, o, evs[0])
      case None => None
      case Some((o1, sent1)) =>
        match Run(line, d, o1, evs[1..])
        case None => None
        case Some((o2, sent2)) => Some((o2, sent1 + sent2))
  }

  lemma {:induction false} RunConcat(line: seq<string>, d: Durations, o: Option<Entry>, a: seq<Event>, b: seq<Event>)
    ensures Run(line, d, o, a + b) ==
      match Run(line, d, o, a)
      case None => None
      case Some((o1, sent1)) =>
        match Run(line, d, o1, b)
        case None => None
        case Some((o2, sent2)) => Some((o2, sent1 + sent2))
    decreases |a|
  {
    if |a| == 0 {
      assert a + b == b;
      match Run(line, d, o, b) {
        case None =>
        case Some((o2, sent2)) => assert [] + sent2 == sent2;
      }
    } else {
      assert (a + b)[1..] == a[1..] + b;
      match Step(line, d, o, a[0]) {
        case None =>
        case Some((o1, sent1)) =>
          RunConcat(line, d, o1, a[1..], b);
          match Run(line, d, o1, a[1..]) {
            case None =>
            case Some((o2, sent2)) =>
              match Run(line, d, o2, b) {
                case None =>
                case Some((_, sent3)) => Associative(sent1, sent2, sent3);
              }
          }
      }
    }
  }

  // ----- the invariants of every run -----

  ghost predicate InvO(line: seq<string>, name: string, o: Option<Entry>) {
    o.Some? ==> Inv(line, name, o.value)
  }

  /** Whoever works on the entry was asked last: the last message sent goes to the step the
      entry is at, and is a delete exactly when the entry is to be undeployed. */
  ghost predicate Pending(name: string, o: Option<Entry>, sent: seq<Message>) {
    o.Some? && o.value.workInProgress ==>
      && |sent| > 0
      && var last := sent[|sent| - 1];
         && last.destination == o.value.state
         && last.action == (if o.value.IsReverse() then Delete else Add)
         && last.service.name == name
  }

  lemma StepKeepsInv(line: seq<string>, d: Durations, name: string, o: Option<Entry>, ev: Event)
    requires ValidLine(line) && Genuine(line, ev) && Concerns(name, ev) && InvO(line, name, o)
    requires Step(line, d, o, ev).Some?
    ensures InvO(line, name, Step(line, d, o, ev).value.0)
    ensures forall i | 0 <= i < |Step(line, d, o, ev).value.1| :: Step(line, d, o, ev).value.1[i].service.name == name
  {
    match ev {
      case Receive(msg, now) =>
        MergeFinishesIff(line, name, o, msg, now);
        MergeSimulates(line, name, o, msg, now);
      case Sweep(now) =>
        if o.Some? {
          SweepSimulates(line, name, d, o.value, now);
        }
    }
  }

  lemma StepKeepsPending(line: seq<string>, d: Durations, name: string, o: Option<Entry>, ev: Event, before: seq<Message>)
    requires ValidLine(line) && Genuine(line, ev) && Concerns(name, ev) && InvO(line, name, o)
    requires Step(line, d, o, ev).Some? && Pending(name, o, before)
    ensures Pending(name, Step(line, d, o, ev).value.0, before + Step(line, d, o, ev).value.1)
  {
    var (o1, sent) := Step(line, d, o, ev).value;
    StepKeepsInv(line, d, name, o, ev);
    match ev {
      case Sweep(now) =>
        assert before + sent == before;
      case Receive(msg, now) =>
        MergeFinishesIff(line, name, o, msg, now);
        MergeSimulates(line, name, o, msg, now);
        if o1.value.workInProgress {
          MergeKeepsPending(line, name, o, msg, o1.value, sent, before);
        }
    }
  }

  /** The last message sent asks the step that the entry is at. */
  lemma LastAsks(line: seq<string>, name: string, t: Track, s: Signal, e: Entry, sent: seq<Message>)
    requires ValidLine(line) && Inv(line, name, e)
    requires Simulates(line, e, sent, Move(Top(line), t, s)) && |sent| > 0
    ensures sent[|sent| - 1].destination == e.state && sent[|sent| - 1].service.name == name
    ensures sent[|sent| - 1].action == if e.IsReverse() then Delete else Add
  {
    PositionAtStop(line, PositionOf(line, e.state));
  }

  /** With nothing sent, an entry in progress has not moved. */
  lemma SilentStays(line: seq<string>, name: string, t: Track, s: Signal, e: Entry)
    requires Simulates(line, e, [], Move(Top(line), t, s)) && e.workInProgress
    ensures TrackOf(line, e) == t
  {
  }

  lemma SameTrackSamePlace(line: seq<string>, name: string, a: Entry, b: Entry)
    requires ValidLine(line) && Inv(line, name, a) && Inv(line, name, b)
    requires TrackOf(line, a) == TrackOf(line, b)
    ensures a.state == b.state && a.IsReverse() == b.IsReverse() && a.workInProgress == b.workInProgress
  {
    PositionAtStop(line, PositionOf(line, a.state));
    PositionAtStop(line, PositionOf(line, b.state));
  }

  lemma MergeKeepsPending(line: seq<string>, name: string, o: Option<Entry>, msg: Message, e: Entry, sent: seq<Message>, before: seq<Message>)
    requires ValidLine(line) && InvO(line, name, o) && Inv(line, name, e) && e.workInProgress
    requires Simulates(line, e, sent, Move(Top(line), Start(line, o), SignalOf(line, o, msg)))
    requires Pending(name, o, before)
    ensures Pending(name, Some(e), before + sent)
  {
    if |sent| == 0 {
      assert before + sent == before;
      SilentStays(line, name, Start(line, o), SignalOf(line, o, msg), e);
      SameTrackSamePlace(line, name, e, o.value);
    } else {
      LastAsks(line, name, Start(line, o), SignalOf(line, o, msg), e, sent);
    }
  }

  /** Every run keeps both, from no entry or from any entry that has them. */
  lemma {:induction false} RunInvariant(line: seq<string>, d: Durations, name: string, o: Option<Entry>, evs: seq<Event>, before: seq<Message>)
    requires ValidLine(line) && AllFor(line, name, evs)
    requires InvO(line, name, o) && Pending(name, o, before)
    requires Run(line, d, o, evs).Some?
    ensures InvO(line, name, Run(line, d, o, evs).value.0)
    ensures Pending(name, Run(line, d, o, evs).value.0, before + Run(line, d, o, evs).value.1)
    decreases |evs|
  {
    if |evs| == 0 {
      assert before + [] == before;
    } else {
      StepKeepsInv(line, d, name, o, evs[0]);
      StepKeepsPending(line, d, name, o, evs[0], before);
      var (o1, sent1) := Step(line, d, o, evs[0]).value;
      RunInvariant(line, d, name, o1, evs[1..], before + sent1);
      Associative(before, sent1, Run(line, d, o1, evs[1..]).value.1);
    }
  }

  // ----- the way up and the way down -----

  /** An error-free reply of this sender. */
  ghost predicate Accepted(line: seq<string>, name: string, sender: string, ev: Event) {
    && ev.Receive? && Genuine(line, ev) && Concerns(name, ev)
    && ev.msg.sender == sender && ev.msg.error == ""
  }

  /** The messages ask these steps in this order, all with this action. */
  predicate AsksInOrder(sent: seq<Message>, action: Action, steps: seq<string>)
    decreases |sent|
  {
    && |sent| == |steps|
    && (|sent| == 0 ||
        (sent[0].action == action && sent[0].destination == steps[0] && AsksInOrder(sent[1..], action, steps[1..])))
  }

  lemma {:induction false} AsksMeans(sent: seq<Message>, action: Action, steps: seq<string>)
    ensures AsksInOrder(sent, action, steps) <==>
      |sent| == |steps| && forall i | 0 <= i < |sent| :: sent[i].action == action && sent[i].destination == steps[i]
    decreases |sent|
  {
    if |sent| != |steps| || |sent| == 0 {
    } else {
      AsksMeans(sent[1..], action, steps[1..]);
      assert forall i | 1 <= i < |sent| :: sent[i] == sent[1..][i - 1] && steps[i] == steps[1..][i - 1];
    }
  }

  function Reverse<T>(s: seq<T>): (r: seq<T>)
    ensures |r| == |s|
    ensures forall i | 0 <= i < |s| :: r[i] == s[|s| - 1 - i]
  {
    if |s| == 0 then [] else [s[|s| - 1]] + Reverse(s[..|s| - 1])
  }

  /** The provisioners before stop p, the nearest first. */
  function Before(line: seq<string>, p: nat): seq<string> {
    if p <= 1 || p >= |StopsOf(line)| then [] else Reverse(StopsOf(line)[1..p])
  }

  lemma BeforeNext(line: seq<string>, p: nat)
    requires 0 < p < Top(line)
    ensures Before(line, p + 1) == [StopsOf(line)[p]] + Before(line, p)
  {
    ReverseNext(StopsOf(line), p);
  }

  lemma ReverseNext<T>(s: seq<T>, p: nat)
    requires 0 < p < |s|
    ensures Reverse(s[1..p + 1]) == [s[p]] + Reverse(s[1..p])
  {
    var longer := s[1..p + 1];
    assert longer[..|longer| - 1] == s[1..p];
  }

  /** The provisioners after stop p, the nearest first. */
  function Beyond(line: seq<string>, p: nat): seq<string> {
    if p >= Top(line) then [] else StopsOf(line)[p + 1..Top(line)]
  }

  lemma {:induction false} AsksConcat(a: seq<Message>, b: seq<Message>, action: Action, da: seq<string>, db: seq<string>)
    requires AsksInOrder(a, action, da) && AsksInOrder(b, action, db)
    ensures AsksInOrder(a + b, action, da + db)
    decreases |a|
  {
    if |a| == 0 {
      assert a + b == b && da + db == db;
    } else {
      assert (a + b)[1..] == a[1..] + b && (da + db)[1..] == da[1..] + db;
      AsksConcat(a[1..], b, action, da[1..], db);
    }
  }

  /** What Reach asks for. */
  function Asked(line: seq<string>, p: nat): seq<string> {
    if p == 0 || p >= Top(line) then [] else [StopsOf(line)[p]]
  }

  /** The entry stands at stop p on its way up or down, in progress or closed at an end. */
  ghost predicate Standing(line: seq<string>, name: string, e: Entry, p: nat, up: bool) {
    && p < |StopsOf(line)| && Inv(line, name, e) && e.state == StopsOf(line)[p]
    && TrackOf(line, e) == Reach(Top(line), p, up).0
  }

  /** It has just come there, and stop p was asked. */
  ghost predicate Reached(line: seq<string>, name: string, e: Entry, sent: seq<Message>, p: nat, up: bool) {
    Standing(line, name, e, p, up) && AsksInOrder(sent, if up then Add else Delete, Asked(line, p))
  }

  lemma SimulatedReach(line: seq<string>, name: string, e: Entry, sent: seq<Message>, p: nat, up: bool)
    requires ValidLine(line) && p < |StopsOf(line)| && Inv(line, name, e)
    requires Simulates(line, e, sent, Reach(Top(line), p, up))
    ensures Reached(line, name, e, sent, p, up)
  {
    PositionAtStop(line, PositionOf(line, e.state));
  }

  lemma AcceptedMoves(line: seq<string>, d: Durations, name: string, e: Entry, p: nat, up: bool, q: nat, ev: Event)
    returns (e1: Entry, sent: seq<Message>)
    requires ValidLine(line) && Inv(line, name, e) && e.workInProgress && up == !e.IsReverse()
    requires 0 < p < Top(line) && e.state == StopsOf(line)[p] && Accepted(line, name, e.state, ev)
    requires q == if up then p + 1 else p - 1
    ensures Step(line, d, Some(e), ev) == Some((Some(e1), sent))
    ensures Reached(line, name, e1, sent, q, up)
  {
    PositionAtStop(line, p);
    StopIsNoProvider(line, p);
    MergeSimulates(line, name, Some(e), ev.msg, ev.now);
    var out := Merge(line, Some(e), ev.msg, ev.now);
    e1, sent := out.entry, out.sent;
    SimulatedReach(line, name, e1, sent, q, up);
  }

  /** The remaining distance strictly decreases with each accepted reply. */
  lemma AcceptedProgress(line: seq<string>, d: Durations, name: string, e: Entry, ev: Event)
    requires ValidLine(line) && Inv(line, name, e) && e.workInProgress && e.closeTime == 0
    requires Accepted(line, name, e.state, ev)
    ensures Step(line, d, Some(e), ev).Some? && Step(line, d, Some(e), ev).value.0.Some?
    ensures
      var e1 := Step(line, d, Some(e), ev).value.0.value;
      && e1.expectedState == e.expectedState
      && Distance(line, e1) == Distance(line, e) - 1
      && (e1.closeTime != 0 <==> Distance(line, e1) == 0)
  {
    var p := PositionOf(line, e.state);
    PositionAtStop(line, p);
    var q := if e.IsReverse() then p - 1 else p + 1;
    var e1, sent := AcceptedMoves(line, d, name, e, p, !e.IsReverse(), q, ev);
    PositionAtStop(line, q);
  }

  function Distance(line: seq<string>, e: Entry): int {
    if e.IsReverse() then PositionOf(line, e.state) else Top(line) - PositionOf(line, e.state)
  }

  lemma RunCons(line: seq<string>, d: Durations, o: Option<Entry>, ev: Event, rest: seq<Event>,
                e1: Entry, sent1: seq<Message>, o2: Option<Entry>, sent2: seq<Message>)
    requires Step(line, d, o, ev) == Some((Some(e1), sent1))
    requires Run(line, d, Some(e1), rest) == Some((o2, sent2))
    ensures Run(line, d, o, [ev] + rest) == Some((o2, sent1 + sent2))
  {
    assert ([ev] + rest)[1..] == rest;
  }

  /** One error-free reply from each of these steps, in this order. */
  ghost predicate Answers(line: seq<string>, name: string, evs: seq<Event>, steps: seq<string>) {
    && |evs| == |steps|
    && forall i | 0 <= i < |evs| :: Accepted(line, name, steps[i], evs[i])
  }

  lemma AnswersFirst(line: seq<string>, name: string, evs: seq<Event>, first: string, rest: seq<string>)
    requires Answers(line, name, evs, [first] + rest)
    ensures Accepted(line, name, first, evs[0]) && Answers(line, name, evs[1..], rest)
    ensures evs == [evs[0]] + evs[1..]
  {
    var steps := [first] + rest;
    assert steps[0] == first && steps[1..] == rest;
    forall i | 0 <= i < |evs[1..]| ensures Accepted(line, name, rest[i], evs[1..][i]) {
      assert Accepted(line, name, steps[i + 1], evs[i + 1]);
    }
  }

  /** The entry after the run is closed at the end of its way. */
  ghost predicate Ended(line: seq<string>, name: string, e: Entry, up: bool) {
    && Inv(line, name, e)
    && e.state == (if up then DEPLOYED else UNDEPLOYED)
    && TrackOf(line, e) == Track(if up then Top(line) else 0, up, false, true)
  }

  /** From stop p on the way up, with p asked: replies of p, p+1, ... up to the last provisioner. */
  lemma {:induction false} Climb(line: seq<string>, d: Durations, name: string, e: Entry, p: nat, evs: seq<Event>)
    returns (e2: Entry, sent: seq<Message>)
    requires ValidLine(line) && 0 < p <= Top(line) && Standing(line, name, e, p, true)
    requires Answers(line, name, evs, StopsOf(line)[p..Top(line)])
    ensures Run(line, d, Some(e), evs) == Some((Some(e2), sent))
    ensures Ended(line, name, e2, true)
    ensures AsksInOrder(sent, Add, Beyond(line, p))
    decreases |evs|
  {
    if p == Top(line) {
      AtTheTop(line, d, name, e, evs);
      e2, sent := e, [];
    } else {
      var q: nat := p + 1;
      var e1, sent1 := ClimbFirst(line, d, name, e, p, q, evs);
      var sent2;
      e2, sent2 := Climb(line, d, name, e1, q, evs[1..]);
      sent := sent1 + sent2;
      ClimbJoins(line, d, e, p, q, evs, e1, sent1, e2, sent2);
    }
  }

  lemma AtTheTop(line: seq<string>, d: Durations, name: string, e: Entry, evs: seq<Event>)
    requires ValidLine(line) && Standing(line, name, e, Top(line), true)
    requires Answers(line, name, evs, StopsOf(line)[Top(line)..Top(line)])
    ensures Run(line, d, Some(e), evs) == Some((Some(e), []))
    ensures Ended(line, name, e, true) && AsksInOrder([], Add, Beyond(line, Top(line)))
  {
    PositionAtStop(line, Top(line));
  }

  /** The first of the replies, from stop p. */
  lemma ClimbFirst(line: seq<string>, d: Durations, name: string, e: Entry, p: nat, q: nat, evs: seq<Event>)
    returns (e1: Entry, sent1: seq<Message>)
    requires ValidLine(line) && 0 < p < Top(line) && q == p + 1 && Standing(line, name, e, p, true)
    requires Answers(line, name, evs, StopsOf(line)[p..Top(line)])
    ensures |evs| > 0 && Step(line, d, Some(e), evs[0]) == Some((Some(e1), sent1))
    ensures Reached(line, name, e1, sent1, q, true)
    ensures Answers(line, name, evs[1..], StopsOf(line)[q..Top(line)])
  {
    SliceNext(StopsOf(line), p, Top(line));
    AnswersFirst(line, name, evs, e.state, StopsOf(line)[q..Top(line)]);
    e1, sent1 := AcceptedMoves(line, d, name, e, p, true, q, evs[0]);
  }

  lemma ClimbJoins(line: seq<string>, d: Durations, e: Entry, p: nat, q: nat, evs: seq<Event>,
                   e1: Entry, sent1: seq<Message>, e2: Entry, sent2: seq<Message>)
    requires q <= Top(line) && q == p + 1 && |evs| > 0
    requires Step(line, d, Some(e), evs[0]) == Some((Some(e1), sent1))
    requires Run(line, d, Some(e1), evs[1..]) == Some((Some(e2), sent2))
    requires AsksInOrder(sent1, Add, Asked(line, q)) && AsksInOrder(sent2, Add, Beyond(line, q))
    ensures Run(line, d, Some(e), evs) == Some((Some(e2), sent1 + sent2))
    ensures AsksInOrder(sent1 + sent2, Add, Beyond(line, p))
  {
    UpwardNext(line, q, sent1, sent2);
  }

  lemma UpwardNext(line: seq<string>, p: nat, first: seq<Message>, rest: seq<Message>)
    requires 0 < p <= Top(line)
    requires AsksInOrder(first, Add, Asked(line, p)) && AsksInOrder(rest, Add, Beyond(line, p))
    ensures AsksInOrder(first + rest, Add, StopsOf(line)[p..Top(line)])
  {
    if p < Top(line) {
      AsksConcat(first, rest, Add, [StopsOf(line)[p]], StopsOf(line)[p + 1..Top(line)]);
      SliceNext(StopsOf(line), p, Top(line));
    }
  }

  lemma SliceNext<T>(s: seq<T>, p: nat, top: nat)
    requires p < top <= |s|
    ensures s[p..top] == [s[p]] + s[p + 1..top]
  {
  }

  /** From stop p on the way down, with p asked: replies of p, p-1, ... to the first provisioner. */
  lemma {:induction false} Descend(line: seq<string>, d: Durations, name: string, e: Entry, p: nat, evs: seq<Event>)
    returns (e2: Entry, sent: seq<Message>)
    requires ValidLine(line) && p < Top(line) && Standing(line, name, e, p, false)
    requires Answers(line, name, evs, Before(line, p + 1))
    ensures Run(line, d, Some(e), evs) == Some((Some(e2), sent))
    ensures Ended(line, name, e2, false)
    ensures AsksInOrder(sent, Delete, Before(line, p))
    decreases |evs|
  {
    if p == 0 {
      AtTheBottom(line, d, name, e, evs);
      e2, sent := e, [];
    } else {
      var q: nat := p - 1;
      var e1, sent1 := DescendFirst(line, d, name, e, p, q, evs);
      var sent2;
      e2, sent2 := Descend(line, d, name, e1, q, evs[1..]);
      sent := sent1 + sent2;
      DescendJoins(line, d, e, p, q, evs, e1, sent1, e2, sent2);
    }
  }

  lemma AtTheBottom(line: seq<string>, d: Durations, name: string, e: Entry, evs: seq<Event>)
    requires ValidLine(line) && Standing(line, name, e, 0, false) && Answers(line, name, evs, Before(line, 1))
    ensures Run(line, d, Some(e), evs) == Some((Some(e), []))
    ensures Ended(line, name, e, false) && AsksInOrder([], Delete, Before(line, 0))
  {
    PositionAtStop(line, 0);
  }

  /** The first of the replies, from stop p. */
  lemma DescendFirst(line: seq<string>, d: Durations, name: string, e: Entry, p: nat, q: nat, evs: seq<Event>)
    returns (e1: Entry, sent1: seq<Message>)
    requires ValidLine(line) && 0 < p < Top(line) && q == p - 1 && Standing(line, name, e, p, false)
    requires Answers(line, name, evs, Before(line, p + 1))
    ensures |evs| > 0 && Step(line, d, Some(e), evs[0]) == Some((Some(e1), sent1))
    ensures Reached(line, name, e1, sent1, q, false)
    ensures Answers(line, name, evs[1..], Before(line, q + 1))
  {
    BeforeNext(line, p);
    AnswersFirst(line, name, evs, e.state, Before(line, p));
    e1, sent1 := AcceptedMoves(line, d, name, e, p, false, q, evs[0]);
  }

  lemma DescendJoins(line: seq<string>, d: Durations, e: Entry, p: nat, q: nat, evs: seq<Event>,
                     e1: Entry, sent1: seq<Message>, e2: Entry, sent2: seq<Message>)
    requires q < Top(line) && p == q + 1 && |evs| > 0
    requires Step(line, d, Some(e), evs[0]) == Some((Some(e1), sent1))
    requires Run(line, d, Some(e1), evs[1..]) == Some((Some(e2), sent2))
    requires AsksInOrder(sent1, Delete, Asked(line, q)) && AsksInOrder(sent2, Delete, Before(line, q))
    ensures Run(line, d, Some(e), evs) == Some((Some(e2), sent1 + sent2))
    ensures AsksInOrder(sent1 + sent2, Delete, Before(line, p))
  {
    DownwardNext(line, q, sent1, sent2);
  }

  lemma DownwardNext(line: seq<string>, p: nat, first: seq<Message>, rest: seq<Message>)
    requires p < Top(line)
    requires AsksInOrder(first, Delete, Asked(line, p)) && AsksInOrder(rest, Delete, Before(line, p))
    ensures AsksInOrder(first + rest, Delete, Before(line, p + 1))
  {
    if p > 0 {
      BeforeNext(line, p);
      AsksConcat(first, rest, Delete, [StopsOf(line)[p]], Before(line, p));
    }
  }

  ghost predicate Orders(line: seq<string>, name: string, action: Action, ev: Event) {
    && ev.Receive? && Genuine(line, ev) && Concerns(name, ev)
    && IsProvider(ev.msg.sender) && ev.msg.action == action
  }

  lemma AddReaches(line: seq<string>, d: Durations, name: string, o: Option<Entry>, add: Event) returns (e: Entry, sent: seq<Message>)
    requires ValidLine(line) && InvO(line, name, o)
    requires Orders(line, name, Add, add) && (o.Some? ==> NeedsUpdate(o.value, add.msg))
    ensures 0 < Entrance(line, add.msg.sender) <= Top(line) && Entrance(line, add.msg.sender) < |StopsOf(line)|
    ensures Step(line, d, o, add) == Some((Some(e), sent))
    ensures Reached(line, name, e, sent, Entrance(line, add.msg.sender), true)
  {
    EntersAt(line, add.msg.sender);
    MergeSimulates(line, name, o, add.msg, add.now);
    var out := Merge(line, o, add.msg, add.now);
    e, sent := out.entry, out.sent;
    assert SignalOf(line, o, add.msg) == Enter(Entrance(line, add.msg.sender));
    SimulatedReach(line, name, e, sent, Entrance(line, add.msg.sender), true);
  }

  /** Deployment: from whatever state, an add that is not skipped and one error-free reply
      per request send adds to the provisioners after the sender, in order, and close the
      entry at `deployed`. */
  lemma Deployment(line: seq<string>, d: Durations, name: string, o: Option<Entry>, add: Event, replies: seq<Event>)
    returns (e: Entry, sent: seq<Message>)
    requires ValidLine(line) && InvO(line, name, o)
    requires Orders(line, name, Add, add) && (o.Some? ==> NeedsUpdate(o.value, add.msg))
    requires Entrance(line, add.msg.sender) <= Top(line) < |StopsOf(line)|
    requires Answers(line, name, replies, StopsOf(line)[Entrance(line, add.msg.sender)..Top(line)])
    ensures Run(line, d, o, [add] + replies) == Some((Some(e), sent))
    ensures Ended(line, name, e, true)
    ensures AsksInOrder(sent, Add, StopsOf(line)[Entrance(line, add.msg.sender)..Top(line)])
  {
    var e1, first := AddReaches(line, d, name, o, add);
    var rest;
    e, rest := Climb(line, d, name, e1, Entrance(line, add.msg.sender), replies);
    sent := first + rest;
    RunCons(line, d, o, add, replies, e1, first, Some(e), rest);
    UpwardNext(line, Entrance(line, add.msg.sender), first, rest);
  }

  /** A delete arrives at the stop that BackFrom says, on the way down. */
  lemma DeleteReaches(line: seq<string>, d: Durations, name: string, e: Entry, p: nat, q: nat, delete: Event)
    returns (e1: Entry, sent: seq<Message>)
    requires ValidLine(line) && Inv(line, name, e) && Orders(line, name, Delete, delete)
    requires p < |StopsOf(line)| && e.state == StopsOf(line)[p] && e.state != UNDEPLOYED
    requires q == BackFrom(line, e, p)
    ensures q < Top(line) < |StopsOf(line)|
    ensures Step(line, d, Some(e), delete) == Some((Some(e1), sent))
    ensures Reached(line, name, e1, sent, q, false)
  {
    PositionAtStop(line, p);
    BackFromBelow(line, e, p);
    WithdrawReaches(line, e, p);
    MergeSimulates(line, name, Some(e), delete.msg, delete.now);
    var out := Merge(line, Some(e), delete.msg, delete.now);
    e1, sent := out.entry, out.sent;
    assert SignalOf(line, Some(e), delete.msg) == Withdraw;
    SimulatedReach(line, name, e1, sent, q, false);
  }

  /** A delete of whatever is not undeployed, and one error-free reply per request: with q the
      stop at which the delete arrives, deletes go to q, q-1 and so on to the first
      provisioner; then the entry closes at `undeployed`. */
  lemma Withdrawal(line: seq<string>, d: Durations, name: string, e: Entry, p: nat, q: nat, delete: Event, replies: seq<Event>)
    returns (e2: Entry, sent: seq<Message>)
    requires ValidLine(line) && Inv(line, name, e) && Orders(line, name, Delete, delete)
    requires p < |StopsOf(line)| && e.state == StopsOf(line)[p] && e.state != UNDEPLOYED
    requires q == BackFrom(line, e, p) && Answers(line, name, replies, Before(line, q + 1))
    ensures Run(line, d, Some(e), [delete] + replies) == Some((Some(e2), sent))
    ensures Ended(line, name, e2, false)
    ensures AsksInOrder(sent, Delete, Before(line, q + 1))
  {
    var e1, first := DeleteReaches(line, d, name, e, p, q, delete);
    var rest;
    e2, rest := Descend(line, d, name, e1, q, replies);
    sent := first + rest;
    RunCons(line, d, Some(e), delete, replies, e1, first, Some(e2), rest);
    DownwardNext(line, q, first, rest);
  }

  /** The stop at which a complete withdrawal starts: the entry's own, or the last
      provisioner when the service is deployed. */
  function Reaching(line: seq<string>, p: nat): nat {
    if 0 < p == Top(line) then p - 1 else p
  }

  lemma BackFromCases(line: seq<string>, e: Entry, p: nat)
    requires ValidLine(line) && 0 < p <= Top(line)
    ensures BackFrom(line, e, p) ==
      if p == Top(line) && !(e.workInProgress && e.IsReverse()) then p - 1
      else if !e.workInProgress then p - 1
      else if !e.IsReverse() then p
      else if p == 1 then 0 else p - 2
  {
  }

  /** The deletes go to all provisioners that may hold the service, the stop of the entry
      included, exactly when the service is deployed or that stop is in progress on the way up. */
  lemma WithdrawsAllIff(line: seq<string>, name: string, e: Entry, p: nat, sent: seq<Message>)
    requires ValidLine(line) && Inv(line, name, e) && 0 < p <= Top(line) < |StopsOf(line)| && e.state == StopsOf(line)[p]
    requires AsksInOrder(sent, Delete, Before(line, BackFrom(line, e, p) + 1))
    ensures AsksInOrder(sent, Delete, Before(line, Reaching(line, p) + 1))
      <==> e.state == DEPLOYED || (e.workInProgress && !e.IsReverse())
  {
    var q, r := BackFrom(line, e, p), Reaching(line, p);
    ReachesIff(line, name, e, p);
    AsksSameIff(line, sent, q, r);
  }

  lemma AsksSameIff(line: seq<string>, sent: seq<Message>, q: nat, r: nat)
    requires q < Top(line) && r < Top(line) && AsksInOrder(sent, Delete, Before(line, q + 1))
    ensures AsksInOrder(sent, Delete, Before(line, r + 1)) <==> q == r
  {
    SameAsked(sent, Delete, Before(line, q + 1), Before(line, r + 1));
    BeforeLength(line, q + 1);
    BeforeLength(line, r + 1);
  }

  lemma ReachesIff(line: seq<string>, name: string, e: Entry, p: nat)
    requires ValidLine(line) && Inv(line, name, e) && 0 < p <= Top(line) < |StopsOf(line)| && e.state == StopsOf(line)[p]
    ensures BackFrom(line, e, p) < Top(line) && Reaching(line, p) < Top(line)
    ensures BackFrom(line, e, p) == Reaching(line, p) <==> e.state == DEPLOYED || (e.workInProgress && !e.IsReverse())
  {
    EndsAreNoProviders();
    EndStops(line);
    PositionAtStop(line, p);
    BackFromCases(line, e, p);
  }

  lemma BeforeLength(line: seq<string>, p: nat)
    requires p < |StopsOf(line)|
    ensures |Before(line, p)| == if p == 0 then 0 else p - 1
  {
  }

  /** A provisioner that answers with an error is not asked to undeploy: the delete that
      follows starts with the stop before it. */
  lemma FailedStepIsSkipped(line: seq<string>, d: Durations, name: string, e: Entry, p: nat,
                            failure: Event, delete: Event, replies: seq<Event>)
    returns (e2: Entry, sent: seq<Message>)
    requires ValidLine(line) && Inv(line, name, e) && e.workInProgress && !e.IsReverse()
    requires 0 < p < Top(line) < |StopsOf(line)| && e.state == StopsOf(line)[p]
    requires failure.Receive? && Genuine(line, failure) && Concerns(name, failure)
    requires failure.msg.sender == e.state && failure.msg.error != ""
    requires Orders(line, name, Delete, delete) && Answers(line, name, replies, Before(line, p))
    ensures Run(line, d, Some(e), [failure] + ([delete] + replies)) == Some((Some(e2), sent))
    ensures Ended(line, name, e2, false)
    ensures AsksInOrder(sent, Delete, Before(line, p))
  {
    var e1 := Stalls(line, d, name, e, p, failure);
    var q: nat := p - 1;
    PositionAtStop(line, p);
    e2, sent := Withdrawal(line, d, name, e1, p, q, delete, replies);
    RunSilent(line, d, e, failure, [delete] + replies, e1, Some(e2), sent);
  }

  lemma RunSilent(line: seq<string>, d: Durations, e: Entry, ev: Event, rest: seq<Event>, e1: Entry, o2: Option<Entry>, sent: seq<Message>)
    requires Step(line, d, Some(e), ev) == Some((Some(e1), []))
    requires Run(line, d, Some(e1), rest) == Some((o2, sent))
    ensures Run(line, d, Some(e), [ev] + rest) == Some((o2, sent))
  {
    RunCons(line, d, Some(e), ev, rest, e1, [], o2, sent);
    assert [] + sent == sent;
  }

  /** An error reply of the stop asked stops the work there. */
  lemma Stalls(line: seq<string>, d: Durations, name: string, e: Entry, p: nat, failure: Event) returns (e1: Entry)
    requires ValidLine(line) && Inv(line, name, e) && e.workInProgress
    requires 0 < p < Top(line) < |StopsOf(line)| && e.state == StopsOf(line)[p]
    requires failure.Receive? && Genuine(line, failure) && Concerns(name, failure)
    requires failure.msg.sender == e.state && failure.msg.error != ""
    ensures Step(line, d, Some(e), failure) == Some((Some(e1), []))
    ensures Inv(line, name, e1) && e1.state == e.state && e1.IsReverse() == e.IsReverse() && !e1.workInProgress
  {
    PositionAtStop(line, p);
    StopIsNoProvider(line, p);
    MergeSimulates(line, name, Some(e), failure.msg, failure.now);
    e1 := Merge(line, Some(e), failure.msg, failure.now).entry;
    PositionAtStop(line, PositionOf(line, e1.state));
  }

  // ----- deploy and undeploy mirror each other -----

  /** An add enters at the first provisioner exactly when none comes before its sender. */
  lemma EntersFirstIff(line: seq<string>, sender: string)
    requires ValidLine(line) && sender in line && IsProvider(sender)
    ensures Entrance(line, sender) == 1 <==> forall k | 0 < k < FirstAt(line, sender) :: IsProvider(line[k])
  {
    var i := FirstAt(line, sender);
    EndsAreNoProviders();
    RankNext(line, 0);
    if forall k | 0 < k < i :: IsProvider(line[k]) {
      RankAcross(line, 1, i);
    } else {
      var k :| 0 < k < i && !IsProvider(line[k]);
      RankPast(line, k, i);
    }
  }

  lemma RankPast(line: seq<string>, k: nat, i: nat)
    requires 0 < k < i < |line| && !IsProvider(line[0]) && !IsProvider(line[k])
    ensures Rank(line, i) >= 2
  {
    RankNext(line, 0);
    RankMonotone(line, 1, k);
    RankNext(line, k);
    RankMonotone(line, k + 1, i);
  }

  /** The steps asked to deploy, reversed, are the steps asked to undeploy exactly when no
      provisioner comes before the provider that sent the add. */
  lemma MirrorIff(line: seq<string>, sender: string)
    requires ValidLine(line) && sender in line && IsProvider(sender)
    ensures Entrance(line, sender) <= Top(line) < |StopsOf(line)|
    ensures Before(line, Top(line)) == Reverse(StopsOf(line)[Entrance(line, sender)..Top(line)])
      <==> forall k | 0 < k < FirstAt(line, sender) :: IsProvider(line[k])
  {
    EndStops(line);
    EntersAt(line, sender);
    EntersFirstIff(line, sender);
    SameReverse(StopsOf(line), Entrance(line, sender), Top(line));
  }

  lemma SameReverse<T>(s: seq<T>, at: nat, top: nat)
    requires 1 <= at <= top < |s|
    ensures Reverse(s[1..top]) == Reverse(s[at..top]) <==> at == 1
  {
    assert |Reverse(s[1..top])| == top - 1 && |Reverse(s[at..top])| == top - at;
  }

  lemma Undeployment(line: seq<string>, d: Durations, name: string, e: Entry, delete: Event, downs: seq<Event>)
    returns (e2: Entry, down: seq<Message>)
    requires ValidLine(line) && Ended(line, name, e, true)
    requires Orders(line, name, Delete, delete)
    requires Top(line) < |StopsOf(line)| && Answers(line, name, downs, Before(line, Top(line)))
    ensures Run(line, d, Some(e), [delete] + downs) == Some((Some(e2), down))
    ensures Ended(line, name, e2, false)
    ensures AsksInOrder(down, Delete, StopsBackward(line))
  {
    EndStops(line);
    var top := Top(line);
    var q: nat := top - 1;
    EndsAreNoProviders();
    assert BackFrom(line, e, top) == q;
    e2, down := Withdrawal(line, d, name, e, top, q, delete, downs);
  }

  /** A whole life: an add answered to the end, then a delete answered to the end. The
      steps are asked in opposite orders exactly when no provisioner precedes the provider. */
  lemma DeployThenUndeploy(line: seq<string>, d: Durations, name: string, o: Option<Entry>,
                           add: Event, ups: seq<Event>, delete: Event, downs: seq<Event>)
    returns (e: Entry, up: seq<Message>, down: seq<Message>)
    requires ValidLine(line) && InvO(line, name, o)
    requires Orders(line, name, Add, add) && (o.Some? ==> NeedsUpdate(o.value, add.msg))
    requires Entrance(line, add.msg.sender) <= Top(line) < |StopsOf(line)|
    requires Answers(line, name, ups, StopsOf(line)[Entrance(line, add.msg.sender)..Top(line)])
    requires Orders(line, name, Delete, delete)
    requires Answers(line, name, downs, Before(line, Top(line)))
    ensures Run(line, d, o, ([add] + ups) + ([delete] + downs)) == Some((Some(e), up + down))
    ensures Ended(line, name, e, false)
    ensures AsksInOrder(down, Delete, StopsBackward(line))
    ensures AsksInOrder(up, Add, Reverse(StopsBackward(line))) <==>
      forall k | 0 < k < FirstAt(line, add.msg.sender) :: IsProvider(line[k])
  {
    EntersAt(line, add.msg.sender);
    var e1;
    e1, up := Deployment(line, d, name, o, add, ups);
    e, down := Undeployment(line, d, name, e1, delete, downs);
    RunTwo(line, d, o, [add] + ups, [delete] + downs, Some(e1), up, Some(e), down);
    MirrorAsked(line, add.msg.sender, up);
  }

  lemma RunTwo(line: seq<string>, d: Durations, o: Option<Entry>, a: seq<Event>, b: seq<Event>,
               o1: Option<Entry>, sent1: seq<Message>, o2: Option<Entry>, sent2: seq<Message>)
    requires Run(line, d, o, a) == Some((o1, sent1)) && Run(line, d, o1, b) == Some((o2, sent2))
    ensures Run(line, d, o, a + b) == Some((o2, sent1 + sent2))
  {
    RunConcat(line, d, o, a, b);
  }

  lemma MirrorAsked(line: seq<string>, sender: string, up: seq<Message>)
    requires ValidLine(line) && sender in line && IsProvider(sender)
    requires 0 < Entrance(line, sender) <= Top(line)
    requires AsksInOrder(up, Add, StopsOf(line)[Entrance(line, sender)..Top(line)])
    ensures AsksInOrder(up, Add, Reverse(StopsBackward(line))) <==>
      forall k | 0 < k < FirstAt(line, sender) :: IsProvider(line[k])
  {
    var asked := StopsOf(line)[Entrance(line, sender)..Top(line)];
    MirrorIff(line, sender);
    ReverseTwice(asked);
    ReverseTwice(StopsBackward(line));
    SameAsked(up, Add, asked, Reverse(StopsBackward(line)));
  }

  /** All provisioners, the last first. */
  function StopsBackward(line: seq<string>): seq<string> {
    Before(line, Top(line))
  }

  lemma ReverseTwice<T>(s: seq<T>)
    ensures Reverse(Reverse(s)) == s
  {
  }

  lemma SameAsked(sent: seq<Message>, action: Action, a: seq<string>, b: seq<string>)
    requires AsksInOrder(sent, action, a)
    ensures AsksInOrder(sent, action, b) <==> a == b
  {
    AsksMeans(sent, action, a);
    AsksMeans(sent, action, b);
  }

  /** A delete of what is undeployed already ends exactly when it repeats the definition: a
      delete that carries the name alone is never done with. */
  lemma RepeatedDeleteEndsIff(line: seq<string>, d: Durations, name: string, e: Entry, delete: Event)
    requires ValidLine(line) && Inv(line, name, e) && e.state == UNDEPLOYED && Orders(line, name, Delete, delete)
    ensures Step(line, d, Some(e), delete).Some? <==> DefinitionOf(e.service) == DefinitionOf(delete.msg.service)
    ensures Step(line, d, Some(e), delete).Some? ==>
      Step(line, d, Some(e), delete) == Some((Some(e.(lastUpdate := delete.now)), []))
  {
    EndsAreNoProviders();
    MergeFinishesIff(line, name, Some(e), delete.msg, delete.now);
  }

  /** A second delete while stop p is asked to undeploy passes over stop p-1: the next
      request, if any, goes to p-2. */
  lemma SecondDeleteSkips(line: seq<string>, d: Durations, name: string, e: Entry, p: nat, delete: Event)
    requires ValidLine(line) && Inv(line, name, e) && 0 < p < Top(line)
    requires TrackOf(line, e) == Track(p, false, true, false)
    requires Orders(line, name, Delete, delete)
    ensures Step(line, d, Some(e), delete).Some? && Step(line, d, Some(e), delete).value.0.Some?
    ensures
      var r := Step(line, d, Some(e), delete).value;
      && TrackOf(line, r.0.value) == (if p <= 2 then Track(0, false, false, true) else Track(p - 2, false, true, false))
      && AsksInOrder(r.1, Delete, if p <= 2 then [] else [StopsOf(line)[p - 2]])
  {
    PositionAtStop(line, PositionOf(line, e.state));
    BackFromCases(line, e, p);
    var q := BackFrom(line, e, p);
    var e1, sent := DeleteReaches(line, d, name, e, p, q, delete);
  }

  /** The time of the last update is that of the last add or skipped message: only then is
      the provider not asked to refresh the service. */
  lemma LastUpdateIs(line: seq<string>, d: Durations, name: string, o: Option<Entry>, ev: Event)
    requires ValidLine(line) && Genuine(line, ev) && Concerns(name, ev) && InvO(line, name, o)
    requires Step(line, d, o, ev).Some? && Step(line, d, o, ev).value.0.Some?
    ensures
      var skipped := ev.Receive? && o.Some? && !NeedsUpdate(o.value, ev.msg);
      var added := ev.Receive? && IsProvider(ev.msg.sender) && ev.msg.action == Add;
      Step(line, d, o, ev).value.0.value.lastUpdate ==
        if skipped || added then ev.now else if o.Some? then o.value.lastUpdate else 0
  {
    match ev {
      case Sweep(now) =>
      case Receive(msg, now) =>
        MergeFinishesIff(line, name, o, msg, now);
        if o.None? || NeedsUpdate(o.value, msg) {
          FreshEntry(line, now);
          var e0 := Prepared(line, o.GetOr(NewEntry(line, now)), msg);
          Dispatching.SenderTransition(line, msg);
          DispatchLastUpdate(line, e0, msg, now, CALLS);
        }
    }
  }

  lemma {:induction false} DispatchLastUpdate(line: seq<string>, e: Entry, msg: Message, now: Time, calls: nat)
    requires Dispatch(line, e, msg, now, calls).Settled?
    ensures Dispatch(line, e, msg, now, calls).entry.lastUpdate ==
      if e.transition == ProviderState && msg.action == Add then now else e.lastUpdate
    decreases calls
  {
    match Execute(line, e, msg, now) {
      case Again(e1, msg1) =>
        NeverBackToProvider(line, e, msg, now);
        DispatchLastUpdate(line, e1, msg1, now, calls - 1);
      case _ =>
    }
  }

  lemma NeverBackToProvider(line: seq<string>, e: Entry, msg: Message, now: Time)
    requires Execute(line, e, msg, now).Again?
    ensures
      var next := Execute(line, e, msg, now).next;
      && next.transition != ProviderState
      && next.lastUpdate == if e.transition == ProviderState && msg.action == Add then now else e.lastUpdate
  {
    match e.transition
    case ProviderState =>
    case ProviderAddState => NextIsNoProvider(line, e);
    case ProviderDeleteState =>
      NextIsNoProvider(line, e);
      var e1 := if e.workInProgress then SetNextStep(line, e) else e;
      NextIsNoProvider(line, e1.(expectedState := UNDEPLOYED));
    case _ =>
  }

  lemma NextIsNoProvider(line: seq<string>, e: Entry)
    ensures SetNextStep(line, e).lastUpdate == e.lastUpdate
    ensures e.transition != ProviderState ==> SetNextStep(line, e).transition != ProviderState
  {
  }

  predicate AtEnd(e: Entry) {
    e.state == DEPLOYED || e.state == UNDEPLOYED
  }

  predicate IsOrder(msg: Message) {
    IsProvider(msg.sender) && (msg.action == Add || msg.action == Delete)
  }

  /** Work in progress at an end: exactly when the entry is closed there already and either
      was in progress without an order that takes it away, or gets a late reply. */
  lemma WorksAtEndIff(line: seq<string>, name: string, o: Option<Entry>, msg: Message, now: Time)
    requires ValidLine(line) && FromStep(line, msg) && msg.service.name == name && now > 0
    requires InvO(line, name, o) && Finishes(o, msg)
    ensures Merge(line, o, msg, now).Settled?
    ensures
      var e := Merge(line, o, msg, now).entry;
      e.workInProgress && AtEnd(e) <==>
        && o.Some? && AtEnd(o.value)
        && if NeedsUpdate(o.value, msg)
           then !IsProvider(msg.sender) || (o.value.workInProgress && !IsOrder(msg))
           else o.value.workInProgress
  {
    MergeSimulates(line, name, o, msg, now);
    var t, signal, e := Start(line, o), SignalOf(line, o, msg), Merge(line, o, msg, now).entry;
    ReplierIsInside(line, o, msg);
    MoveWorksAtEnd(Top(line), t, signal);
    EndOfTrack(line, name, e);
    EndStops(line);
    if o.Some? {
      EndOfTrack(line, name, o.value);
    }
  }

  lemma MoveWorksAtEnd(top: nat, t: Track, s: Signal)
    requires s.Reply? ==> 0 < s.from < top
    ensures
      var t1 := Move(top, t, s).0;
      t1.working && (t1.pos == 0 || t1.pos == top) <==>
        (t.pos == 0 || t.pos == top) && (s.Reply? || (s.Ignore? && t.working))
  {
  }

  lemma EndOfTrack(line: seq<string>, name: string, e: Entry)
    requires ValidLine(line) && Inv(line, name, e)
    ensures AtEnd(e) <==> PositionOf(line, e.state) == 0 || PositionOf(line, e.state) == Top(line)
  {
    PositionAtStop(line, PositionOf(line, e.state));
  }

  lemma ReplierIsInside(line: seq<string>, o: Option<Entry>, msg: Message)
    requires ValidLine(line) && FromStep(line, msg)
    ensures SignalOf(line, o, msg).Reply? ==> 0 < SignalOf(line, o, msg).from < Top(line)
  {
    if !IsProvider(msg.sender) {
      NonProviderIsStop(line, msg.sender);
      PositionAtStop(line, PositionOf(line, msg.sender));
    }
  }

  // ----- an add is a reset -----

  /** What an add does not overwrite. */
  function Forget(e: Entry): Entry {
    e.(timeDetected := 0, service := e.service.(publicIP := "", provider := ""))
  }

  function ForgetMessage(m: Message): Message {
    m.(service := m.service.(publicIP := "", provider := ""))
  }

  ghost predicate SameButHistory(a: seq<Message>, b: seq<Message>) {
    |a| == |b| && forall i | 0 <= i < |a| :: ForgetMessage(a[i]) == ForgetMessage(b[i])
  }

  /** Two services in whatever states come out of the same add alike. */
  lemma AddResets(line: seq<string>, a: Entry, b: Entry, msg: Message, now: Time)
    requires ValidLine(line) && FromStep(line, msg) && IsProvider(msg.sender) && msg.action == Add
    requires NeedsUpdate(a, msg) && NeedsUpdate(b, msg)
    ensures Merge(line, Some(a), msg, now).Settled? && Merge(line, Some(b), msg, now).Settled?
    ensures Forget(Merge(line, Some(a), msg, now).entry) == Forget(Merge(line, Some(b), msg, now).entry)
    ensures SameButHistory(Merge(line, Some(a), msg, now).sent, Merge(line, Some(b), msg, now).sent)
  {
    EndsAreNoProviders();
    AddOutcome(line, a, msg, now);
    AddOutcome(line, b, msg, now);
    IpamIsNoProvider(msg.sender);
  }

  lemma IpamIsNoProvider(name: string)
    ensures !(IsProvider(name) && IsIpam(name))
  {
    assert "provider."[0] == 'p' && "ipam."[0] == 'i';
  }

  // ----- restart -----

  /** What is saved: everything but the transition. */
  function Saved(o: Option<Entry>): Option<Entry> {
    match o
    case None => None
    case Some(e) => Some(e.(transition := NilTransition))
  }

  lemma RestartStep(line: seq<string>, d: Durations, a: Option<Entry>, b: Option<Entry>, ev: Event)
    requires Saved(a) == Saved(b)
    ensures Step(line, d, a, ev).Some? <==> Step(line, d, b, ev).Some?
    ensures Step(line, d, a, ev).Some? ==>
      && Step(line, d, a, ev).value.1 == Step(line, d, b, ev).value.1
      && Saved(Step(line, d, a, ev).value.0) == Saved(Step(line, d, b, ev).value.0)
  {
    if a.Some? {
      match ev {
        case Receive(msg, now) =>
          assert NeedsUpdate(a.value, msg) == NeedsUpdate(b.value, msg);
          assert Prepared(line, a.value, msg) == Prepared(line, b.value, msg);
        case Sweep(now) =>
      }
    }
  }

  /** Losing the transition in a save and load changes no later message and no saved field. */
  lemma {:induction false} RestartIsInvisible(line: seq<string>, d: Durations, a: Option<Entry>, b: Option<Entry>, evs: seq<Event>)
    requires Saved(a) == Saved(b)
    ensures Run(line, d, a, evs).Some? <==> Run(line, d, b, evs).Some?
    ensures Run(line, d, a, evs).Some? ==>
      && Run(line, d, a, evs).value.1 == Run(line, d, b, evs).value.1
      && Saved(Run(line, d, a, evs).value.0) == Saved(Run(line, d, b, evs).value.0)
    decreases |evs|
  {
    if |evs| == 0 {
    } else {
      RestartStep(line, d, a, b, evs[0]);
      if Step(line, d, a, evs[0]).Some? {
        RestartIsInvisible(line, d, Step(line, d, a, evs[0]).value.0, Step(line, d, b, evs[0]).value.0, evs[1..]);
      }
    }
  }

  // ----- the latest definition wins -----

  /** A message that defines the service. */
  predicate Defines(ev: Event) {
    ev.Receive? && "provider." <= ev.msg.sender && ev.msg.action != Delete
  }

  /** A message that gives the address. An ipam reply has the update action. */
  predicate Addresses(ev: Event) {
    ev.Receive? && "ipam." <= ev.msg.sender && ev.msg.action == Update
  }

  /** Runs in which ipam answers with the update action only. */
  predicate UpdatesFromIpam(evs: seq<Event>) {
    forall ev | ev in evs && ev.Receive? && "ipam." <= ev.msg.sender :: ev.msg.action == Update
  }

  /** The service fields of the last definition, or the ones before when there is none. */
  function LastDefinition(evs: seq<Event>, before: Definition): Definition {
    if |evs| == 0 then before
    else
      var last := evs[|evs| - 1];
      if Defines(last) then DefinitionOf(last.msg.service) else LastDefinition(evs[..|evs| - 1], before)
  }

  function LastAddress(evs: seq<Event>, before: string): string {
    if |evs| == 0 then before
    else
      var last := evs[|evs| - 1];
      if Addresses(last) then last.msg.service.publicIP else LastAddress(evs[..|evs| - 1], before)
  }

  lemma {:induction false} DefinitionAfterFirst(ev: Event, rest: seq<Event>, before: Definition)
    ensures LastDefinition([ev] + rest, before) == LastDefinition(rest, if Defines(ev) then DefinitionOf(ev.msg.service) else before)
  {
    var all := [ev] + rest;
    if |rest| == 0 {
      assert all[..0] == [];
    } else {
      var front := rest[..|rest| - 1];
      assert all[..|all| - 1] == [ev] + front;
      DefinitionAfterFirst(ev, front, before);
    }
  }

  lemma {:induction false} AddressAfterFirst(ev: Event, rest: seq<Event>, before: string)
    ensures LastAddress([ev] + rest, before) == LastAddress(rest, if Addresses(ev) then ev.msg.service.publicIP else before)
  {
    var all := [ev] + rest;
    if |rest| == 0 {
      assert all[..0] == [];
    } else {
      var front := rest[..|rest| - 1];
      assert all[..|all| - 1] == [ev] + front;
      AddressAfterFirst(ev, front, before);
    }
  }

  /** The entry is there after every event. */
  predicate Survives(line: seq<string>, d: Durations, o: Option<Entry>, evs: seq<Event>)
    decreases |evs|
  {
    |evs| == 0 ||
    var r := Step(line, d, o, evs[0]);
    r.Some? && r.value.0.Some? && Survives(line, d, r.value.0, evs[1..])
  }

  function ServiceOf(o: Option<Entry>): Service {
    if o.None? then EMPTY_SERVICE else o.value.service
  }

  lemma StepService(line: seq<string>, d: Durations, name: string, o: Option<Entry>, ev: Event)
    requires ValidLine(line) && Genuine(line, ev) && Concerns(name, ev) && InvO(line, name, o)
    requires Step(line, d, o, ev).Some? && Step(line, d, o, ev).value.0.Some?
    ensures
      var service := Step(line, d, o, ev).value.0.value.service;
      && DefinitionOf(service) == (if Defines(ev) then DefinitionOf(ev.msg.service) else DefinitionOf(ServiceOf(o)))
      && (Addresses(ev) || !ev.Receive? || !("ipam." <= ev.msg.sender) ==>
            service.publicIP == if Addresses(ev) then ev.msg.service.publicIP else ServiceOf(o).publicIP)
  {
    match ev {
      case Receive(msg, now) =>
        MergeFinishesIff(line, name, o, msg, now);
        MergeSimulates(line, name, o, msg, now);
        IpamIsNoProvider(msg.sender);
      case Sweep(now) =>
    }
  }

  /** Over every run in which the entry is not cleaned up: its targets, TLS flag and aliases
      are those of the last message that defines it, merged or skipped. */
  lemma {:induction false} LatestDefinitionWins(line: seq<string>, d: Durations, name: string, o: Option<Entry>, evs: seq<Event>)
    requires ValidLine(line) && AllFor(line, name, evs) && InvO(line, name, o)
    requires Run(line, d, o, evs).Some? && Survives(line, d, o, evs)
    ensures DefinitionOf(ServiceOf(Run(line, d, o, evs).value.0)) == LastDefinition(evs, DefinitionOf(ServiceOf(o)))
    decreases |evs|
  {
    if |evs| == 0 {
    } else {
      var first, rest := evs[0], evs[1..];
      assert evs == [first] + rest;
      StepKeepsInv(line, d, name, o, first);
      StepService(line, d, name, o, first);
      LatestDefinitionWins(line, d, name, Step(line, d, o, first).value.0, rest);
      DefinitionAfterFirst(first, rest, DefinitionOf(ServiceOf(o)));
    }
  }

  /** Over every such run in which ipam sends updates only: the address is that of the last one. */
  lemma {:induction false} LatestAddressWins(line: seq<string>, d: Durations, name: string, o: Option<Entry>, evs: seq<Event>)
    requires ValidLine(line) && AllFor(line, name, evs) && InvO(line, name, o)
    requires UpdatesFromIpam(evs)
    requires Run(line, d, o, evs).Some? && Survives(line, d, o, evs)
    ensures ServiceOf(Run(line, d, o, evs).value.0).publicIP == LastAddress(evs, ServiceOf(o).publicIP)
    decreases |evs|
  {
    if |evs| == 0 {
    } else {
      var first, rest := evs[0], evs[1..];
      assert evs == [first] + rest;
      StepKeepsInv(line, d, name, o, first);
      StepService(line, d, name, o, first);
      LatestAddressWins(line, d, name, Step(line, d, o, first).value.0, rest);
      AddressAfterFirst(first, rest, ServiceOf(o).publicIP);
    }
  }
}
