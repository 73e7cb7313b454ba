/** The table of services as a value: one message, one sweep, and runs of both. */
module Store {
  import opened Wrappers
  import opened Comm
  import Workflow
  import opened Entries

  const MAX_DURATION := 0x7FFF_FFFF_FFFF_FFFF

  /** time.Duration: nanoseconds in 64 bits. */
  type Duration = d: int | -MAX_DURATION - 1 <= d <= MAX_DURATION

  /** The durations of the configuration. */
  datatype Durations = Durations(
    cleanUndeployedServiceAfter: Duration,
    serviceMaxLastUpdated: Duration,
    serviceWIPTimeout: Duration)

  /** time.Time.Sub, which saturates. */
  function Sub(a: Time, b: Time): Duration {
    if a - b > MAX_DURATION then MAX_DURATION
    else if a - b < -MAX_DURATION - 1 then -MAX_DURATION - 1
    else a - b
  }

  /** More time than the limit has passed; the longest duration is never passed. */
  predicate Passed(since: Time, now: Time, limit: Duration) {
    now - since > limit && limit < MAX_DURATION
  }

  lemma SubPasses(a: Time, b: Time, limit: Duration)
    ensures Sub(a, b) > limit <==> Passed(b, a, limit)
  {
  }

  function Lookup(store: map<string, Entry>, name: string): Option<Entry> {
    if name in store then Some(store[name]) else None
  }

  function StoreMerge(line: seq<string>, store: map<string, Entry>, msg: Message, now: Time):
    Option<(map<string, Entry>, seq<Message>)>
  {
    match Merge(line, Lookup(store, msg.service.name), msg, now)
    case Settled(e, sent) => Some((store[msg.service.name := e], sent))
    case _ => None
  }

  lemma Associative<T>(a: seq<T>, b: seq<T>, c: seq<T>)
    ensures (a + b) + c == a + (b + c)
  {
  }

  // ----- the sweep -----

  function TimeoutError(e: Entry): string {
    "Closed due to ServiceWIPTimeout reached at step " + e.state + ". Err: " + e.error
  }

  predicate Removed(d: Durations, e: Entry, now: Time) {
    && e.state == e.expectedState && !e.workInProgress
    && e.state == Workflow.UNDEPLOYED && Sub(now, e.closeTime) > d.cleanUndeployedServiceAfter
  }

  predicate TimedOut(d: Durations, e: Entry, now: Time) {
    e.workInProgress && Sub(now, e.wipTime) > d.serviceWIPTimeout
  }

  predicate Refreshed(d: Durations, e: Entry, now: Time) {
    Sub(now, e.lastUpdate) > d.serviceMaxLastUpdated && e.state == Workflow.DEPLOYED
  }

  function SweepEntry(d: Durations, e: Entry, now: Time): Option<Entry> {
    if Removed(d, e, now) then None
    else if TimedOut(d, e, now) then Some(CloseEntry(e, TimeoutError(e), now))
    else Some(e)
  }

  function SweepAll(d: Durations, store: map<string, Entry>, now: Time): map<string, Entry> {
    map k | k in store && SweepEntry(d, store[k], now).Some? :: SweepEntry(d, store[k], now).value
  }

  /** `asked` names the services at the keys `visited`: every key out of `todo` that is
      due for a refresh, once. */
  ghost predicate Visited(d: Durations, store: map<string, Entry>, now: Time, todo: set<string>, asked: seq<string>, visited: seq<string>) {
    && |asked| == |visited|
    && (forall i | 0 <= i < |visited| :: visited[i] in store && asked[i] == store[visited[i]].service.name)
    && (forall i, j | 0 <= i < j < |visited| :: visited[i] != visited[j])
    && (forall k :: k in visited <==> k in store && k !in todo && Refreshed(d, store[k], now))
  }

  lemma VisitedNext(d: Durations, store: map<string, Entry>, now: Time, todo: set<string>, asked: seq<string>, visited: seq<string>, k: string)
    returns (asked': seq<string>, visited': seq<string>)
    requires k in todo && k in store
    requires Visited(d, store, now, todo, asked, visited)
    ensures asked' == asked + if Refreshed(d, store[k], now) then [store[k].service.name] else []
    ensures Visited(d, store, now, todo - {k}, asked', visited')
  {
    asked' := asked + if Refreshed(d, store[k], now) then [store[k].service.name] else [];
    visited' := visited + if Refreshed(d, store[k], now) then [k] else [];
  }

  ghost predicate RefreshList(d: Durations, store: map<string, Entry>, now: Time, asked: seq<string>) {
    exists visited :: Visited(d, store, now, {}, asked, visited)
  }

  /** Half way through a sweep: the keys in `todo` are as before, the others are swept. */
  ghost predicate Swept(d: Durations, before: map<string, Entry>, now: Time, todo: set<string>, current: map<string, Entry>) {
    && todo <= before.Keys && current.Keys <= before.Keys
    && (forall k | k in todo :: k in current && current[k] == before[k])
    && (forall k | k in before && k !in todo :: Lookup(current, k) == SweepEntry(d, before[k], now))
  }

  lemma SweptNext(d: Durations, before: map<string, Entry>, now: Time, todo: set<string>, current: map<string, Entry>, next: map<string, Entry>, k: string)
    requires Swept(d, before, now, todo, current) && k in todo
    requires next.Keys <= current.Keys && Lookup(next, k) == SweepEntry(d, before[k], now)
    requires forall j | j in current && j != k :: Lookup(next, j) == Some(current[j])
    ensures Swept(d, before, now, todo - {k}, next)
  {
  }

  lemma SweptAll(d: Durations, before: map<string, Entry>, now: Time, current: map<string, Entry>)
    requires Swept(d, before, now, {}, current)
    ensures current == SweepAll(d, before, now)
  {
    forall k ensures k in current <==> k in SweepAll(d, before, now) {
      if k in before {
        assert Lookup(current, k) == SweepEntry(d, before[k], now);
      }
    }
    forall k | k in current ensures current[k] == SweepAll(d, before, now)[k] {
      assert Lookup(current, k) == SweepEntry(d, before[k], now);
    }
  }
}
