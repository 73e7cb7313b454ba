/** Message.SetTargetWeight (comm/message.go): equal targets are merged into one
    whose weight is their number. The Go code goes through text keys and a map
    whose iteration order is not fixed. */
module Weights {
  import Text
  import Decimal
  import opened Comm

  function Key(t: Target): (key: string)
    ensures ':' in key
  {
    assert (t.host + ":")[|t.host|] == ':';
    t.host + ":" + Decimal.Itoa(t.port)
  }

  function Keys(ts: seq<Target>): (keys: seq<string>)
    ensures |keys| == |ts|
    ensures forall k | 0 <= k < |ts| :: keys[k] == Key(ts[k])
  {
    if |ts| == 0 then [] else [Key(ts[0])] + Keys(ts[1..])
  }

  /** The target rebuilt from a key: fields 0 and 1 of strings.Split, the second
      one through Atoi and a conversion to uint32. */
  function FromKey(key: string, weight: int): Target
    requires ':' in key
  {
    var hp := Text.Split(key, ':');
    Text.SplitParts(key, ':');
    Target(hp[0], Decimal.Atoi(hp[1]) % 0x1_0000_0000, weight)
  }

  ghost predicate Distinct<T>(s: seq<T>) {
    forall i, j :: 0 <= i < j < |s| ==> s[i] != s[j]
  }

  /** `wt` is what the second loop appends when the map is visited in `order`. */
  ghost predicate ListedFrom(order: seq<string>, keys: multiset<string>, wt: seq<Target>) {
    && Distinct(order)
    && (forall key :: key in order <==> key in keys)
    && |wt| == |order|
    && forall i | 0 <= i < |order| :: Rebuilt(order[i], keys[order[i]], wt[i])
  }

  ghost predicate ListedIn(order: seq<string>, ts: seq<Target>, wt: seq<Target>) {
    ListedFrom(order, multiset(Keys(ts)), wt)
  }

  predicate Rebuilt(key: string, weight: int, t: Target) {
    ':' in key && t == FromKey(key, weight)
  }

  ghost predicate IsWeighting(ts: seq<Target>, wt: seq<Target>) {
    exists order :: ListedIn(order, ts, wt)
  }

  method SetTargetWeight(ts: seq<Target>) returns (wt: seq<Target>)
    ensures IsWeighting(ts, wt)
  {
    var wl := CountKeys(ts, Keys(ts));
    forall key | key in wl ensures ':' in key {
      KeyPresent(ts, key);
    }
    ghost var order;
    wt, order := ListTargets(wl);
    assert ListedIn(order, ts, wt);
  }

  /** `wl` maps exactly the keys of `m` to their number. */
  ghost predicate Counts(wl: map<string, int>, m: multiset<string>) {
    forall key :: (key in wl <==> key in m) && (key in wl ==> wl[key] == m[key])
  }

  /** The first loop: how often each key occurs. */
  method CountKeys(ts: seq<Target>, ghost keys: seq<string>) returns (wl: map<string, int>)
    requires |keys| == |ts| && forall k | 0 <= k < |ts| :: keys[k] == Key(ts[k])
    ensures Counts(wl, multiset(keys))
  {
    wl := map[];
    for i := 0 to |ts|
      invariant Counts(wl, multiset(keys[..i]))
    {
      var key := Key(ts[i]);
      CountsNext(wl, multiset(keys[..i]), key);
      TakeNext(keys, i);
      wl := wl[key := if key in wl then wl[key] + 1 else 1];
    }
    TakeAll(keys);
  }

  lemma CountsNext(wl: map<string, int>, m: multiset<string>, key: string)
    requires Counts(wl, m)
    ensures Counts(wl[key := if key in wl then wl[key] + 1 else 1], m + multiset{key})
  {
  }

  lemma TakeNext<T>(s: seq<T>, i: nat)
    requires i < |s|
    ensures multiset(s[..i + 1]) == multiset(s[..i]) + multiset{s[i]}
  {
    assert s[..i + 1] == s[..i] + [s[i]];
  }

  lemma TakeAll<T>(s: seq<T>)
    ensures multiset(s[..|s|]) == multiset(s)
  {
    assert s[..|s|] == s;
  }

  /** The second loop: one target per key, in whatever order the map is visited. */
  method ListTargets(wl: map<string, int>) returns (wt: seq<Target>, ghost order: seq<string>)
    requires forall key | key in wl :: ':' in key
    ensures Distinct(order) && |wt| == |order|
    ensures forall key :: key in order <==> key in wl
    ensures forall i | 0 <= i < |order| :: order[i] in wl && Rebuilt(order[i], wl[order[i]], wt[i])
  {
    wt, order := [], [];
    var todo := wl.Keys;
    while todo != {}
      invariant todo <= wl.Keys
      invariant forall key :: key in order <==> key in wl.Keys && key !in todo
      invariant Distinct(order)
      invariant |wt| == |order|
      invariant forall i | 0 <= i < |order| :: order[i] in wl && Rebuilt(order[i], wl[order[i]], wt[i])
      decreases |todo|
    {
      var h :| h in todo;
      var target := FromKey(h, wl[h]);
      wt := wt + [target];
      order := order + [h];
      todo := todo - {h};
    }
  }

  // ----- what a weighting is worth -----

  predicate ColonFree(ts: seq<Target>) {
    forall t | t in ts :: ':' !in t.host
  }

  /** The number of targets with this host and port. */
  function Tally(ts: seq<Target>, host: string, port: Port): nat {
    if |ts| == 0 then 0
    else (if ts[0].host == host && ts[0].port == port then 1 else 0) + Tally(ts[1..], host, port)
  }

  /** One target per host and port present, weighted by its number of occurrences. */
  function Weighted(ts: seq<Target>): set<Target> {
    set t | t in ts :: Tallied(ts, t)
  }

  lemma KeyRoundTrip(t: Target, w: int)
    requires ':' !in t.host
    ensures forall u :: Rebuilt(Key(t), w, u) <==> u == Target(t.host, t.port, w)
  {
    var digits := Decimal.Itoa(t.port);
    assert Key(t) == t.host + [':'] + digits;
    assert Key(t)[|t.host|] == ':';
    Text.SplitHead(t.host, digits, ':');
    assert ':' !in digits;
    Decimal.AtoiItoa(t.port);
  }

  lemma KeyInjective(a: Target, b: Target)
    requires ':' !in a.host && ':' !in b.host && Key(a) == Key(b)
    ensures a.host == b.host && a.port == b.port
  {
    KeyRoundTrip(a, 0);
    KeyRoundTrip(b, 0);
    assert Rebuilt(Key(a), 0, Target(a.host, a.port, 0));
  }

  lemma {:induction false} KeyCountIsTally(ts: seq<Target>, t: Target)
    requires ColonFree(ts) && ':' !in t.host
    ensures multiset(Keys(ts))[Key(t)] == Tally(ts, t.host, t.port)
  {
    if |ts| == 0 {
    } else {
      assert Keys(ts) == [Key(ts[0])] + Keys(ts[1..]);
      KeyCountIsTally(ts[1..], t);
      if Key(ts[0]) == Key(t) {
        KeyInjective(ts[0], t);
      }
    }
  }

  lemma KeyPresent(ts: seq<Target>, key: string)
    ensures key in multiset(Keys(ts)) <==> exists k :: 0 <= k < |ts| && Key(ts[k]) == key
  {
    if key in multiset(Keys(ts)) {
      var k :| 0 <= k < |Keys(ts)| && Keys(ts)[k] == key;
    }
    forall k | 0 <= k < |ts| && Key(ts[k]) == key ensures key in multiset(Keys(ts)) {
      assert Keys(ts)[k] in multiset(Keys(ts));
    }
  }

  function Tallied(ts: seq<Target>, t: Target): Target {
    Target(t.host, t.port, Tally(ts, t.host, t.port))
  }

  lemma ListedIsTallied(order: seq<string>, ts: seq<Target>, wt: seq<Target>, i: nat) returns (k: nat)
    requires ColonFree(ts) && ListedIn(order, ts, wt) && i < |order|
    ensures k < |ts| && order[i] == Key(ts[k]) && wt[i] == Tallied(ts, ts[k])
  {
    KeyPresent(ts, order[i]);
    k :| 0 <= k < |ts| && Key(ts[k]) == order[i];
    KeyRoundTrip(ts[k], multiset(Keys(ts))[order[i]]);
    KeyCountIsTally(ts, ts[k]);
  }

  lemma TalliedIsListed(order: seq<string>, ts: seq<Target>, wt: seq<Target>, k: nat)
    requires ColonFree(ts) && ListedIn(order, ts, wt) && k < |ts|
    ensures Tallied(ts, ts[k]) in wt
  {
    KeyPresent(ts, Key(ts[k]));
    assert Key(ts[k]) in order;
    var i :| 0 <= i < |order| && order[i] == Key(ts[k]);
    KeyRoundTrip(ts[k], multiset(Keys(ts))[order[i]]);
    KeyCountIsTally(ts, ts[k]);
    assert wt[i] == Tallied(ts, ts[k]);
  }

  lemma ListedOnce(order: seq<string>, ts: seq<Target>, wt: seq<Target>)
    requires ColonFree(ts) && ListedIn(order, ts, wt)
    ensures Distinct(wt)
  {
    forall i, j | 0 <= i < j < |wt| ensures wt[i] != wt[j] {
      var k := ListedIsTallied(order, ts, wt, i);
      var l := ListedIsTallied(order, ts, wt, j);
    }
  }

  lemma ListedIsWeighted(order: seq<string>, ts: seq<Target>, wt: seq<Target>)
    requires ColonFree(ts) && ListedIn(order, ts, wt)
    ensures forall i | 0 <= i < |wt| :: wt[i] in Weighted(ts)
  {
    forall i | 0 <= i < |wt| ensures wt[i] in Weighted(ts) {
      var k := ListedIsTallied(order, ts, wt, i);
      assert ts[k] in ts;
    }
  }

  lemma WeightedIsListed(order: seq<string>, ts: seq<Target>, wt: seq<Target>)
    requires ColonFree(ts) && ListedIn(order, ts, wt)
    ensures forall t | t in Weighted(ts) :: t in wt
  {
    forall k | 0 <= k < |ts| ensures Tallied(ts, ts[k]) in wt {
      TalliedIsListed(order, ts, wt, k);
    }
  }

  /** For hosts without a colon, every outcome is the same set: one target per
      distinct host and port, weighted by its multiplicity, with no repetition. */
  lemma WeightingIsTally(ts: seq<Target>, wt: seq<Target>)
    requires ColonFree(ts) && IsWeighting(ts, wt)
    ensures (set t | t in wt) == Weighted(ts)
    ensures Distinct(wt)
    ensures |wt| == |Weighted(ts)|
  {
    var order :| ListedIn(order, ts, wt);
    ListedIsWeighted(order, ts, wt);
    WeightedIsListed(order, ts, wt);
    ListedOnce(order, ts, wt);
    DistinctCardinality(wt);
  }

  lemma {:induction false} DistinctCardinality<T>(s: seq<T>)
    requires Distinct(s)
    ensures |set x | x in s| == |s|
  {
    if |s| == 0 {
    } else {
      DistinctCardinality(s[1..]);
      assert (set x | x in s) == {s[0]} + (set x | x in s[1..]);
    }
  }

  function TotalWeight(wt: seq<Target>): int {
    if |wt| == 0 then 0 else wt[0].weight + TotalWeight(wt[1..])
  }

  /** No target is lost: the weights add up to the number of targets, whatever the hosts. */
  lemma WeightsAddUp(ts: seq<Target>, wt: seq<Target>)
    requires IsWeighting(ts, wt)
    ensures TotalWeight(wt) == |ts|
  {
    var order :| ListedIn(order, ts, wt);
    forall i | 0 <= i < |order| ensures wt[i].weight == multiset(Keys(ts))[order[i]] {
      assert Rebuilt(order[i], multiset(Keys(ts))[order[i]], wt[i]);
    }
    TotalIsSize(order, multiset(Keys(ts)), wt);
  }

  lemma {:induction false} TotalIsSize(order: seq<string>, m: multiset<string>, wt: seq<Target>)
    requires Distinct(order) && |wt| == |order|
    requires forall key :: key in order <==> key in m
    requires forall i | 0 <= i < |order| :: wt[i].weight == m[order[i]]
    ensures TotalWeight(wt) == |m|
  {
    if |order| == 0 {
      assert m == multiset{};
    } else {
      var rest := m[order[0] := 0];
      assert forall key :: key in order[1..] <==> key in rest;
      TotalIsSize(order[1..], rest, wt[1..]);
    }
  }

  ghost predicate SameTargets(a: seq<Target>, b: seq<Target>) {
    forall host, port :: Tally(a, host, port) == Tally(b, host, port)
  }

  lemma {:induction false} TallyPresent(ts: seq<Target>, host: string, port: Port)
    ensures Tally(ts, host, port) > 0 <==> exists t :: t in ts && t.host == host && t.port == port
  {
    if |ts| == 0 {
    } else {
      TallyPresent(ts[1..], host, port);
      assert ts == [ts[0]] + ts[1..];
    }
  }

  lemma {:induction false} TallyConcat(a: seq<Target>, b: seq<Target>, host: string, port: Port)
    ensures Tally(a + b, host, port) == Tally(a, host, port) + Tally(b, host, port)
  {
    if |a| == 0 {
      assert a + b == b;
    } else {
      assert (a + b)[1..] == a[1..] + b;
      TallyConcat(a[1..], b, host, port);
    }
  }

  lemma WithoutOne<T>(a: seq<T>, b: seq<T>, j: nat)
    requires |a| > 0 && j < |b| && multiset(a) == multiset(b) && a[0] == b[j]
    ensures multiset(a[1..]) == multiset(b[..j] + b[j + 1..])
  {
    assert a == [a[0]] + a[1..];
    assert b == b[..j] + [b[j]] + b[j + 1..];
    assert multiset(a) == multiset{a[0]} + multiset(a[1..]);
    assert multiset(b) == multiset(b[..j]) + multiset{b[j]} + multiset(b[j + 1..]);
    assert multiset(b[..j] + b[j + 1..]) == multiset(b[..j]) + multiset(b[j + 1..]);
    assert multiset(a[1..]) == multiset(a) - multiset{a[0]};
  }

  /** A permutation of the targets has the same tallies. */
  lemma {:induction false} PermutedTargets(a: seq<Target>, b: seq<Target>)
    requires multiset(a) == multiset(b)
    ensures SameTargets(a, b)
    decreases |a|
  {
    if |a| == 0 {
      assert |multiset(b)| == 0;
    } else {
      var first := a[0];
      assert a == [first] + a[1..];
      assert first in multiset(b);
      var j :| 0 <= j < |b| && b[j] == first;
      var rest := b[..j] + b[j + 1..];
      assert b == b[..j] + ([first] + b[j + 1..]);
      WithoutOne(a, b, j);
      PermutedTargets(a[1..], rest);
      forall host, port ensures Tally(a, host, port) == Tally(b, host, port) {
        TallyConcat(b[..j], [first] + b[j + 1..], host, port);
        TallyConcat(b[..j], b[j + 1..], host, port);
        assert ([first] + b[j + 1..])[1..] == b[j + 1..];
        assert Tally(a[1..], host, port) == Tally(rest, host, port);
      }
    }
  }

  /** The outcome as a set depends neither on the order of the targets nor on the
      order in which the map is visited. */
  lemma OrderIsIrrelevant(a: seq<Target>, b: seq<Target>, wa: seq<Target>, wb: seq<Target>)
    requires ColonFree(a) && ColonFree(b) && SameTargets(a, b)
    requires IsWeighting(a, wa) && IsWeighting(b, wb)
    ensures (set t | t in wa) == (set t | t in wb)
  {
    WeightingIsTally(a, wa);
    WeightingIsTally(b, wb);
    WeightedIncluded(a, b);
    WeightedIncluded(b, a);
  }

  lemma WeightedIncluded(a: seq<Target>, b: seq<Target>)
    requires SameTargets(a, b)
    ensures Weighted(a) <= Weighted(b)
  {
    forall t | t in a
      ensures Tallied(a, t) in Weighted(b)
    {
      TallyPresent(a, t.host, t.port);
      TallyPresent(b, t.host, t.port);
    }
  }

  /** The rebuilt host never has a colon. So all targets keep their host and port
      exactly when no host has one: an IPv6 address loses its tail. */
  lemma HostsSurviveIffColonFree(ts: seq<Target>, wt: seq<Target>)
    requires IsWeighting(ts, wt)
    ensures (forall t | t in ts :: exists w | w in wt :: w.host == t.host && w.port == t.port) <==> ColonFree(ts)
  {
    var order :| ListedIn(order, ts, wt);
    forall w | w in wt ensures ':' !in w.host {
      var i :| 0 <= i < |wt| && wt[i] == w;
      assert Rebuilt(order[i], multiset(Keys(ts))[order[i]], w);
      Text.SplitParts(order[i], ':');
    }
    if ColonFree(ts) {
      WeightingIsTally(ts, wt);
      forall t | t in ts ensures exists w | w in wt :: w.host == t.host && w.port == t.port {
        assert Tallied(ts, t) in Weighted(ts);
      }
    }
  }

  /** The target rebuilt from the key of a target. */
  function RebuiltFrom(ts: seq<Target>, t: Target): Target {
    FromKey(Key(t), multiset(Keys(ts))[Key(t)])
  }

  ghost predicate OneRebuilt(ts: seq<Target>) {
    forall t, u | t in ts && u in ts :: RebuiltFrom(ts, t) == RebuiltFrom(ts, u)
  }

  /** What is listed is rebuilt from the key of a target. */
  lemma ListedAt(order: seq<string>, ts: seq<Target>, wt: seq<Target>, i: nat) returns (t: Target)
    requires ListedIn(order, ts, wt) && i < |wt|
    ensures t in ts && wt[i] == RebuiltFrom(ts, t)
  {
    KeyPresent(ts, order[i]);
    var k :| 0 <= k < |ts| && Key(ts[k]) == order[i];
    t := ts[k];
    assert Rebuilt(order[i], multiset(Keys(ts))[order[i]], wt[i]);
  }

  /** Every target has its key listed. */
  lemma PlaceOf(order: seq<string>, ts: seq<Target>, wt: seq<Target>, t: Target) returns (i: nat)
    requires ListedIn(order, ts, wt) && t in ts
    ensures i < |wt| && wt[i] == RebuiltFrom(ts, t)
  {
    var k :| 0 <= k < |ts| && ts[k] == t;
    KeyPresent(ts, Key(t));
    assert Key(t) in order;
    i :| 0 <= i < |order| && order[i] == Key(t);
    assert Rebuilt(order[i], multiset(Keys(ts))[order[i]], wt[i]);
  }

  lemma ListedLength(a: seq<string>, b: seq<string>)
    requires Distinct(a) && Distinct(b) && forall key :: key in a <==> key in b
    ensures |a| == |b|
  {
    DistinctCardinality(a);
    DistinctCardinality(b);
    assert (set x | x in a) == (set x | x in b);
  }

  lemma OneRebuiltOneOutcome(ts: seq<Target>, a: seq<Target>, b: seq<Target>)
    requires OneRebuilt(ts) && IsWeighting(ts, a) && IsWeighting(ts, b)
    ensures a == b
  {
    var orderA :| ListedIn(orderA, ts, a);
    var orderB :| ListedIn(orderB, ts, b);
    ListedLength(orderA, orderB);
    forall i | 0 <= i < |a| ensures a[i] == b[i] {
      var t := ListedAt(orderA, ts, a, i);
      var u := ListedAt(orderB, ts, b, i);
    }
  }

  lemma SeveralRebuiltDiffer(ts: seq<Target>) returns (a: seq<Target>, b: seq<Target>)
    requires !OneRebuilt(ts)
    ensures IsWeighting(ts, a) && IsWeighting(ts, b) && a != b
  {
    a := SomeWeighting(ts);
    var order :| ListedIn(order, ts, a);
    var t, u :| t in ts && u in ts && RebuiltFrom(ts, t) != RebuiltFrom(ts, u);
    var i := PlaceOf(order, ts, a, t);
    var j := PlaceOf(order, ts, a, u);
    b := Swap(a, i, j);
    SwapListed(order, multiset(Keys(ts)), a, i, j);
    assert ListedIn(Swap(order, i, j), ts, b);
  }

  /** The slice order is left to the map: there is one outcome exactly when all keys are
      rebuilt to the same target. Otherwise the same definition sent twice may compare as
      changed (IsSameThan). */
  lemma OutcomeUniqueIff(ts: seq<Target>)
    ensures (forall a, b | IsWeighting(ts, a) && IsWeighting(ts, b) :: a == b) <==> OneRebuilt(ts)
  {
    if OneRebuilt(ts) {
      forall a, b | IsWeighting(ts, a) && IsWeighting(ts, b) ensures a == b {
        OneRebuiltOneOutcome(ts, a, b);
      }
    } else {
      var a, b := SeveralRebuiltDiffer(ts);
    }
  }

  lemma RebuiltIsTallied(ts: seq<Target>, t: Target)
    requires ColonFree(ts) && t in ts
    ensures RebuiltFrom(ts, t) == Tallied(ts, t)
  {
    KeyRoundTrip(t, multiset(Keys(ts))[Key(t)]);
    assert Rebuilt(Key(t), multiset(Keys(ts))[Key(t)], RebuiltFrom(ts, t));
    KeyCountIsTally(ts, t);
  }

  /** For hosts without a colon: one outcome exactly when no two targets differ in host or port. */
  lemma OutcomeUniqueIffOneTarget(ts: seq<Target>)
    requires ColonFree(ts)
    ensures (forall a, b | IsWeighting(ts, a) && IsWeighting(ts, b) :: a == b)
      <==> forall t, u | t in ts && u in ts :: t.host == u.host && t.port == u.port
  {
    OutcomeUniqueIff(ts);
    forall t | t in ts ensures RebuiltFrom(ts, t) == Tallied(ts, t) {
      RebuiltIsTallied(ts, t);
    }
  }

  function Swap<T>(s: seq<T>, i: nat, j: nat): (r: seq<T>)
    requires i < |s| && j < |s|
    ensures |r| == |s| && r[i] == s[j] && r[j] == s[i]
    ensures forall k | 0 <= k < |s| && k != i && k != j :: r[k] == s[k]
  {
    s[i := s[j]][j := s[i]]
  }

  lemma SwapListed(order: seq<string>, keys: multiset<string>, wt: seq<Target>, i: nat, j: nat)
    requires ListedFrom(order, keys, wt) && i < |wt| && j < |wt|
    ensures ListedFrom(Swap(order, i, j), keys, Swap(wt, i, j))
  {
    SwapKeepsElements(order, i, j);
    var o, w := Swap(order, i, j), Swap(wt, i, j);
    forall k | 0 <= k < |o| ensures Rebuilt(o[k], keys[o[k]], w[k]) {
      var l := if k == i then j else if k == j then i else k;
      assert Rebuilt(order[l], keys[order[l]], wt[l]);
    }
  }

  lemma SwapKeepsElements<T>(s: seq<T>, i: nat, j: nat)
    requires i < |s| && j < |s|
    ensures forall x :: x in Swap(s, i, j) <==> x in s
    ensures Distinct(s) ==> Distinct(Swap(s, i, j))
  {
    var r := Swap(s, i, j);
    forall x | x in s ensures x in r {
      var k :| 0 <= k < |s| && s[k] == x;
      assert r[if k == i then j else if k == j then i else k] == x;
    }
  }

  lemma SomeWeighting(ts: seq<Target>) returns (wt: seq<Target>)
    ensures IsWeighting(ts, wt)
  {
    var keys := multiset(Keys(ts));
    var order := Enumerate(set key | key in keys);
    forall key | key in order ensures ':' in key {
      KeyPresent(ts, key);
    }
    wt := RebuildAll(order, keys);
    assert ListedIn(order, ts, wt);
  }

  lemma {:induction false} RebuildAll(order: seq<string>, keys: multiset<string>) returns (wt: seq<Target>)
    requires forall key | key in order :: ':' in key
    ensures |wt| == |order|
    ensures forall i | 0 <= i < |order| :: Rebuilt(order[i], keys[order[i]], wt[i])
  {
    if |order| == 0 {
      wt := [];
    } else {
      var key := order[0];
      var rest := RebuildAll(order[1..], keys);
      wt := [FromKey(key, keys[key])] + rest;
    }
  }

  lemma {:induction false} Enumerate(s: set<string>) returns (order: seq<string>)
    ensures Distinct(order)
    ensures forall key :: key in order <==> key in s
  {
    if s == {} {
      order := [];
    } else {
      var x :| x in s;
      var rest := Enumerate(s - {x});
      order := [x] + rest;
    }
  }
}
