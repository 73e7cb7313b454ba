/** Runs of the whole table, and how they are runs of its services side by side. */
module StoreRuns {
  import opened Wrappers
  import opened Comm
  import opened Workflow
  import opened Entries
  import opened Tracks
  import opened Store
  import opened Runs

  type Services = map<string, Entry>

  function StoreStep(line: seq<string>, d: Durations, store: Services, ev: Event): Option<(Services, seq<Message>)> {
    match ev
    case Receive(msg, now) => StoreMerge(line, store, msg, now)
    case Sweep(now) => Some((SweepAll(d, store, now), []))
  }

  function StoreRun(line: seq<string>, d: Durations, store: Services, evs: seq<Event>): Option<(Services, seq<Message>)>
    decreases |evs|
  {
    if |evs| == 0 then Some((store, []))
    else
      match StoreRun(line, d, store, evs[..|evs| - 1])
      case None => None
      case Some((store1, sent1)) =>
        match StoreStep(line, d, store1, evs[|evs| - 1])
        case None => None
        case Some((store2, sent2)) => Some((store2, sent1 + sent2))
  }

  lemma StoreRunNext(line: seq<string>, d: Durations, store: Services, evs: seq<Event>, ev: Event,
                     store1: Services, sent1: seq<Message>, store2: Services, sent2: seq<Message>)
    requires StoreRun(line, d, store, evs) == Some((store1, sent1))
    requires StoreStep(line, d, store1, ev) == Some((store2, sent2))
    ensures StoreRun(line, d, store, evs + [ev]) == Some((store2, sent1 + sent2))
  {
    assert (evs + [ev])[..|evs|] == evs;
  }

  ghost predicate AllGenuine(line: seq<string>, evs: seq<Event>) {
    forall i | 0 <= i < |evs| :: Genuine(line, evs[i])
  }

  ghost predicate AllInv(line: seq<string>, store: Services) {
    forall name | name in store :: Inv(line, name, store[name])
  }

  /** The events that concern one service: its messages and the sweeps. */
  function Relevant(evs: seq<Event>, name: string): seq<Event> {
    if |evs| == 0 then []
    else Relevant(evs[..|evs| - 1], name) + if Concerns(name, evs[|evs| - 1]) then [evs[|evs| - 1]] else []
  }

  function SentFor(sent: seq<Message>, name: string): seq<Message> {
    if |sent| == 0 then []
    else SentFor(sent[..|sent| - 1], name) + if sent[|sent| - 1].service.name == name then [sent[|sent| - 1]] else []
  }

  lemma {:induction false} SentForConcat(a: seq<Message>, b: seq<Message>, name: string)
    ensures SentFor(a + b, name) == SentFor(a, name) + SentFor(b, name)
  {
    if |b| == 0 {
      assert a + b == a;
    } else {
      var front := b[..|b| - 1];
      assert (a + b)[..|a + b| - 1] == a + front;
      SentForConcat(a, front, name);
      Associative(SentFor(a, name), SentFor(front, name),
        if b[|b| - 1].service.name == name then [b[|b| - 1]] else []);
    }
  }

  lemma {:induction false} SentForAll(sent: seq<Message>, owner: string, name: string)
    requires forall i | 0 <= i < |sent| :: sent[i].service.name == owner
    ensures SentFor(sent, name) == if owner == name then sent else []
  {
    if |sent| == 0 {
    } else {
      SentForAll(sent[..|sent| - 1], owner, name);
      assert sent == sent[..|sent| - 1] + [sent[|sent| - 1]];
    }
  }

  lemma {:induction false} RelevantAllFor(line: seq<string>, evs: seq<Event>, name: string)
    requires AllGenuine(line, evs)
    ensures AllFor(line, name, Relevant(evs, name))
  {
    if |evs| == 0 {
    } else {
      RelevantAllFor(line, evs[..|evs| - 1], name);
    }
  }

  /** One event changes one service as if the others were not there. */
  lemma StoreStepProjects(line: seq<string>, d: Durations, store: Services, ev: Event, name: string)
    requires ValidLine(line) && Genuine(line, ev) && AllInv(line, store)
    requires StoreStep(line, d, store, ev).Some?
    ensures
      var (store1, sent) := StoreStep(line, d, store, ev).value;
      if Concerns(name, ev) then Step(line, d, Lookup(store, name), ev) == Some((Lookup(store1, name), SentFor(sent, name)))
      else Lookup(store1, name) == Lookup(store, name) && SentFor(sent, name) == []
    ensures InvO(line, name, Lookup(StoreStep(line, d, store, ev).value.0, name))
  {
    match ev {
      case Sweep(now) =>
        StepKeepsInv(line, d, name, Lookup(store, name), ev);
      case Receive(msg, now) =>
        MessageProjects(line, d, store, msg, now, name);
    }
  }

  lemma MessageProjects(line: seq<string>, d: Durations, store: Services, msg: Message, now: Time, name: string)
    requires ValidLine(line) && Genuine(line, Receive(msg, now)) && AllInv(line, store)
    requires StoreMerge(line, store, msg, now).Some?
    ensures
      var (store1, sent) := StoreMerge(line, store, msg, now).value;
      && (if msg.service.name == name
          then Step(line, d, Lookup(store, name), Receive(msg, now)) == Some((Lookup(store1, name), SentFor(sent, name)))
          else Lookup(store1, name) == Lookup(store, name) && SentFor(sent, name) == [])
      && InvO(line, name, Lookup(store1, name))
  {
    var owner := msg.service.name;
    var (store1, sent) := StoreMerge(line, store, msg, now).value;
    StepKeepsInv(line, d, owner, Lookup(store, owner), Receive(msg, now));
    SentForAll(sent, owner, name);
  }

  /** A run of the table is, for each service, the run of that service on its own events,
      with its own messages: services do not interfere. */
  lemma {:induction false} StoreRunProjects(line: seq<string>, d: Durations, store: Services, evs: seq<Event>, name: string)
    requires ValidLine(line) && AllGenuine(line, evs) && AllInv(line, store)
    requires StoreRun(line, d, store, evs).Some?
    ensures AllInv(line, StoreRun(line, d, store, evs).value.0)
    ensures
      var (store1, sent) := StoreRun(line, d, store, evs).value;
      Run(line, d, Lookup(store, name), Relevant(evs, name)) == Some((Lookup(store1, name), SentFor(sent, name)))
    decreases |evs|
  {
    if |evs| == 0 {
    } else {
      var front, ev := evs[..|evs| - 1], evs[|evs| - 1];
      StoreRunProjects(line, d, store, front, name);
      var (store1, sent1) := StoreRun(line, d, store, front).value;
      var (store2, sent2) := StoreStep(line, d, store1, ev).value;
      forall other | other in store2 ensures Inv(line, other, store2[other]) {
        StoreStepProjects(line, d, store1, ev, other);
      }
      StoreStepProjects(line, d, store1, ev, name);
      SentForConcat(sent1, sent2, name);
      ProjectNext(line, d, store, front, ev, name, Lookup(store1, name), SentFor(sent1, name), Lookup(store2, name), SentFor(sent2, name));
    }
  }

  lemma ProjectNext(line: seq<string>, d: Durations, store: Services, front: seq<Event>, ev: Event, name: string,
                    o1: Option<Entry>, sent1: seq<Message>, o2: Option<Entry>, sent2: seq<Message>)
    requires Run(line, d, Lookup(store, name), Relevant(front, name)) == Some((o1, sent1))
    requires if Concerns(name, ev) then Step(line, d, o1, ev) == Some((o2, sent2)) else o2 == o1 && sent2 == []
    ensures Run(line, d, Lookup(store, name), Relevant(front, name) + if Concerns(name, ev) then [ev] else []) == Some((o2, sent1 + sent2))
  {
    if Concerns(name, ev) {
      RunConcat(line, d, Lookup(store, name), Relevant(front, name), [ev]);
      assert [ev][1..] == [];
      assert sent2 + [] == sent2;
    } else {
      assert Relevant(front, name) + [] == Relevant(front, name);
      assert sent1 + [] == sent1;
    }
  }

  /** The table and the messages are those of a run of this history from the empty table. */
  ghost predicate Explains(line: seq<string>, d: Durations, history: seq<Event>, store: Services, sent: seq<Message>) {
    AllGenuine(line, history) && StoreRun(line, d, map[], history) == Some((store, sent))
  }

  lemma ExplainsNext(line: seq<string>, d: Durations, history: seq<Event>, store: Services, sent: seq<Message>,
                     ev: Event, next: Services, news: seq<Message>)
    requires Explains(line, d, history, store, sent) && Genuine(line, ev)
    requires StoreStep(line, d, store, ev) == Some((next, news))
    ensures Explains(line, d, history + [ev], next, sent + news)
  {
    StoreRunNext(line, d, map[], history, ev, store, sent, next, news);
  }

  lemma StoreRunKeepsInv(line: seq<string>, d: Durations, evs: seq<Event>)
    requires ValidLine(line) && AllGenuine(line, evs) && StoreRun(line, d, map[], evs).Some?
    ensures AllInv(line, StoreRun(line, d, map[], evs).value.0)
  {
    StoreRunProjects(line, d, map[], evs, "");
  }

  /** After every run from the empty table: every entry has the invariant, and whoever works
      on a service was the last to be asked about it, for the right thing. */
  lemma TableInvariant(line: seq<string>, d: Durations, evs: seq<Event>, name: string)
    requires ValidLine(line) && AllGenuine(line, evs) && StoreRun(line, d, map[], evs).Some?
    ensures
      var (store, sent) := StoreRun(line, d, map[], evs).value;
      && AllInv(line, store)
      && Pending(name, Lookup(store, name), SentFor(sent, name))
  {
    StoreRunProjects(line, d, map[], evs, name);
    RelevantAllFor(line, evs, name);
    RunInvariant(line, d, name, None, Relevant(evs, name), []);
    var sent := SentFor(StoreRun(line, d, map[], evs).value.1, name);
    assert [] + sent == sent;
  }

  /** The next event of a run ends exactly when it is no delete of what is undeployed. */
  lemma StoreStepEndsIff(line: seq<string>, d: Durations, store: Services, ev: Event)
    requires ValidLine(line) && Genuine(line, ev) && AllInv(line, store)
    ensures StoreStep(line, d, store, ev).Some? <==> (ev.Receive? ==> Finishes(Lookup(store, ev.msg.service.name), ev.msg))
  {
    if ev.Receive? {
      MergeFinishesIff(line, ev.msg.service.name, Lookup(store, ev.msg.service.name), ev.msg, ev.now);
    }
  }

  /** Under an explained history the next message is merged unless it is endless. */
  lemma ExplainedMerges(line: seq<string>, d: Durations, history: seq<Event>, store: Services, sent: seq<Message>, msg: Message, now: Time)
    requires ValidLine(line) && Explains(line, d, history, store, sent)
    requires FromStep(line, msg) && now > 0 && Finishes(Lookup(store, msg.service.name), msg)
    ensures Merge(line, Lookup(store, msg.service.name), msg, now).Settled?
  {
    StoreRunKeepsInv(line, d, history);
    MergeFinishesIff(line, msg.service.name, Lookup(store, msg.service.name), msg, now);
  }

  lemma ExplainsMessage(line: seq<string>, d: Durations, history: seq<Event>, store: Services, sent: seq<Message>, msg: Message, now: Time)
    requires Explains(line, d, history, store, sent)
    requires FromStep(line, msg) && now > 0 && Merge(line, Lookup(store, msg.service.name), msg, now).Settled?
    ensures
      var out := Merge(line, Lookup(store, msg.service.name), msg, now);
      Explains(line, d, history + [Receive(msg, now)], store[msg.service.name := out.entry], sent + out.sent)
  {
    var out := Merge(line, Lookup(store, msg.service.name), msg, now);
    ExplainsNext(line, d, history, store, sent, Receive(msg, now), store[msg.service.name := out.entry], out.sent);
  }

  lemma ExplainsSweep(line: seq<string>, d: Durations, history: seq<Event>, store: Services, sent: seq<Message>, now: Time)
    requires Explains(line, d, history, store, sent) && now > 0
    ensures Explains(line, d, history + [Sweep(now)], SweepAll(d, store, now), sent)
  {
    assert sent + [] == sent;
    ExplainsNext(line, d, history, store, sent, Sweep(now), SweepAll(d, store, now), []);
  }

  // ----- restart -----

  /** What is saved of the table: everything but the transitions. */
  function SavedTable(store: Services): Services {
    map k | k in store :: store[k].(transition := NilTransition)
  }

  lemma SavedLookup(a: Services, b: Services, name: string)
    requires SavedTable(a) == SavedTable(b)
    ensures Saved(Lookup(a, name)) == Saved(Lookup(b, name))
  {
    assert name in a <==> name in SavedTable(a);
    assert name in b <==> name in SavedTable(b);
    assert name in a ==> SavedTable(a)[name] == SavedTable(b)[name];
  }

  lemma SavedFromLookups(a: Services, b: Services)
    requires forall name :: Saved(Lookup(a, name)) == Saved(Lookup(b, name))
    ensures SavedTable(a) == SavedTable(b)
  {
    forall name ensures name in a <==> name in b {
      assert Saved(Lookup(a, name)) == Saved(Lookup(b, name));
    }
    forall name | name in a ensures SavedTable(a)[name] == SavedTable(b)[name] {
      assert Saved(Lookup(a, name)) == Saved(Lookup(b, name));
    }
  }

  lemma RestartTableStep(line: seq<string>, d: Durations, a: Services, b: Services, ev: Event)
    requires SavedTable(a) == SavedTable(b)
    ensures StoreStep(line, d, a, ev).Some? <==> StoreStep(line, d, b, ev).Some?
    ensures StoreStep(line, d, a, ev).Some? ==>
      && StoreStep(line, d, a, ev).value.1 == StoreStep(line, d, b, ev).value.1
      && SavedTable(StoreStep(line, d, a, ev).value.0) == SavedTable(StoreStep(line, d, b, ev).value.0)
  {
    if ev.Receive? {
      SavedLookup(a, b, ev.msg.service.name);
      RestartStep(line, d, Lookup(a, ev.msg.service.name), Lookup(b, ev.msg.service.name), ev);
    }
    if StoreStep(line, d, a, ev).Some? && StoreStep(line, d, b, ev).Some? {
      var a1, b1 := StoreStep(line, d, a, ev).value.0, StoreStep(line, d, b, ev).value.0;
      forall name ensures Saved(Lookup(a1, name)) == Saved(Lookup(b1, name)) {
        SavedLookup(a, b, name);
        RestartStep(line, d, Lookup(a, name), Lookup(b, name), ev);
      }
      SavedFromLookups(a1, b1);
    }
  }

  /** Losing the transitions of the whole table changes no later message, of any service, nor
      the order of the messages, nor any saved field. */
  lemma {:induction false} RestartOfTableIsInvisible(line: seq<string>, d: Durations, a: Services, b: Services, evs: seq<Event>)
    requires SavedTable(a) == SavedTable(b)
    ensures StoreRun(line, d, a, evs).Some? <==> StoreRun(line, d, b, evs).Some?
    ensures StoreRun(line, d, a, evs).Some? ==>
      && StoreRun(line, d, a, evs).value.1 == StoreRun(line, d, b, evs).value.1
      && SavedTable(StoreRun(line, d, a, evs).value.0) == SavedTable(StoreRun(line, d, b, evs).value.0)
    decreases |evs|
  {
    if |evs| == 0 {
    } else {
      var front, ev := evs[..|evs| - 1], evs[|evs| - 1];
      RestartOfTableIsInvisible(line, d, a, b, front);
      if StoreRun(line, d, a, front).Some? {
        RestartTableStep(line, d, StoreRun(line, d, a, front).value.0, StoreRun(line, d, b, front).value.0, ev);
      }
    }
  }

  // ----- the sweep -----

  /** Under the invariant the sweep removes the undeployed entries that nobody works on and
      that closed longer ago than allowed, closes the timed-out ones, and leaves the rest. A
      limit of the longest duration is none. */
  lemma SweepDoes(line: seq<string>, d: Durations, store: Services, now: Time, name: string)
    requires ValidLine(line) && AllInv(line, store) && now > 0
    ensures AllInv(line, SweepAll(d, store, now))
    ensures name in SweepAll(d, store, now) <==>
      name in store && !(store[name].state == "undeployed" && !store[name].workInProgress
                         && now - store[name].closeTime > d.cleanUndeployedServiceAfter
                         && d.cleanUndeployedServiceAfter < MAX_DURATION)
    ensures name in SweepAll(d, store, now) ==>
      var before, after := store[name], SweepAll(d, store, now)[name];
      if before.workInProgress && now - before.wipTime > d.serviceWIPTimeout && d.serviceWIPTimeout < MAX_DURATION
      then after == before.(state := before.expectedState, workInProgress := false, wipTime := 0, closeTime := now,
                            error := "Closed due to ServiceWIPTimeout reached at step " + before.state + ". Err: " + before.error)
      else after == before
    ensures name in SweepAll(d, store, now) && SweepAll(d, store, now)[name].workInProgress && d.serviceWIPTimeout < MAX_DURATION ==>
      now - SweepAll(d, store, now)[name].wipTime <= d.serviceWIPTimeout
  {
    EndsAreNoProviders();
    assert TimeoutError(if name in store then store[name] else NewEntry(line, now)) != "";
    if name in store {
      SubPasses(now, store[name].closeTime, d.cleanUndeployedServiceAfter);
      SubPasses(now, store[name].wipTime, d.serviceWIPTimeout);
    }
    forall k | k in SweepAll(d, store, now) ensures Inv(line, k, SweepAll(d, store, now)[k]) {
      SweepSimulates(line, k, d, store[k], now);
    }
  }

  /** Under the invariant the refreshes that a sweep asks for are, each once, the names of the
      deployed services whose last update is older than allowed. */
  lemma RefreshAsksIff(line: seq<string>, d: Durations, store: Services, now: Time, asked: seq<string>)
    requires AllInv(line, store) && RefreshList(d, store, now, asked)
    ensures forall i, j | 0 <= i < j < |asked| :: asked[i] != asked[j]
    ensures forall name :: name in asked <==>
      && name in store && store[name].state == "deployed"
      && now - store[name].lastUpdate > d.serviceMaxLastUpdated && d.serviceMaxLastUpdated < MAX_DURATION
  {
    var visited :| Visited(d, store, now, {}, asked, visited);
    assert asked == visited;
    forall name | name in store
      ensures Refreshed(d, store[name], now) <==>
        && store[name].state == "deployed"
        && now - store[name].lastUpdate > d.serviceMaxLastUpdated && d.serviceMaxLastUpdated < MAX_DURATION
    {
      SubPasses(now, store[name].lastUpdate, d.serviceMaxLastUpdated);
    }
  }

  /** A second sweep at the same instant leaves an entry alone, except exactly when the first
      closed it as undeployed and the clean-up delay is negative. */
  lemma SweepStableIff(d: Durations, e: Entry, now: Time)
    requires SweepEntry(d, e, now).Some?
    ensures SweepEntry(d, SweepEntry(d, e, now).value, now) == SweepEntry(d, e, now)
      <==> !(TimedOut(d, e, now) && e.IsReverse() && d.cleanUndeployedServiceAfter < 0)
  {
  }

  lemma SweepTwice(d: Durations, store: Services, now: Time)
    requires d.cleanUndeployedServiceAfter >= 0
    ensures SweepAll(d, SweepAll(d, store, now), now) == SweepAll(d, store, now)
  {
    var once := SweepAll(d, store, now);
    forall k | k in once ensures SweepEntry(d, once[k], now) == Some(once[k]) {
      SweepStableIff(d, store[k], now);
    }
  }
}
