/** The stops of a workflow: its steps without the providers, from `undeployed` to
    `deployed`. On the stops the search for the next step is plus or minus one. */
module Stops {
  import opened Wrappers
  import opened Workflow

  function StopsOf(line: seq<string>): (stops: seq<string>)
    ensures |stops| <= |line|
  {
    if |line| == 0 then []
    else
      var last := |line| - 1;
      StopsOf(line[..last]) + if IsProvider(line[last]) then [] else [line[last]]
  }

  /** How many stops lie before index i of the line. */
  function Rank(line: seq<string>, i: nat): nat
    requires i <= |line|
  {
    |StopsOf(line[..i])|
  }

  lemma {:induction false} StopsSplit(line: seq<string>, i: nat)
    requires i <= |line|
    ensures StopsOf(line) == StopsOf(line[..i]) + StopsOf(line[i..])
  {
    if i == |line| {
      assert line[..i] == line;
    } else {
      var last := |line| - 1;
      StopsSplit(line[..last], i);
      assert line[..last][..i] == line[..i];
      assert line[..last][i..] == line[i..][..last - i];
    }
  }

  lemma {:induction false} AllProviders(line: seq<string>)
    requires forall k | 0 <= k < |line| :: IsProvider(line[k])
    ensures StopsOf(line) == []
  {
    if |line| == 0 {
    } else {
      AllProviders(line[..|line| - 1]);
    }
  }

  lemma RankNext(line: seq<string>, i: nat)
    requires i < |line|
    ensures Rank(line, i + 1) == Rank(line, i) + if IsProvider(line[i]) then 0 else 1
  {
    assert line[..i + 1][..i] == line[..i];
  }

  lemma StopAtRank(line: seq<string>, i: nat)
    requires i < |line| && !IsProvider(line[i])
    ensures Rank(line, i) < |StopsOf(line)| && StopsOf(line)[Rank(line, i)] == line[i]
  {
    StopsSplit(line, i + 1);
    assert line[..i + 1][..i] == line[..i];
  }

  lemma {:induction false} StopFrom(line: seq<string>, p: nat) returns (i: nat)
    requires p < |StopsOf(line)|
    ensures i < |line| && !IsProvider(line[i]) && Rank(line, i) == p && line[i] == StopsOf(line)[p]
  {
    var last := |line| - 1;
    var front := line[..last];
    if p < |StopsOf(front)| {
      i := StopFrom(front, p);
      assert front[..i] == line[..i];
    } else {
      i := last;
    }
  }

  /** Providers between two indices do not count. */
  lemma RankAcross(line: seq<string>, i: nat, j: nat)
    requires i <= j <= |line|
    requires forall k | i <= k < j :: IsProvider(line[k])
    ensures Rank(line, j) == Rank(line, i)
  {
    StopsSplit(line[..j], i);
    assert line[..j][..i] == line[..i];
    AllProviders(line[..j][i..]);
  }

  lemma RankMonotone(line: seq<string>, i: nat, j: nat)
    requires i <= j <= |line|
    ensures Rank(line, i) <= Rank(line, j)
  {
    StopsSplit(line[..j], i);
    assert line[..j][..i] == line[..i];
  }

  /** The stop that a forward search from this index reaches. */
  lemma ForwardRank(line: seq<string>, i: nat, j: nat)
    requires i < |line| && NextIndex(line, i, false) == Some(j)
    ensures Rank(line, j) == Rank(line, i) + if IsProvider(line[i]) then 0 else 1
  {
    RankNext(line, i);
    RankAcross(line, i + 1, j);
  }

  lemma BackwardRank(line: seq<string>, i: nat, j: nat)
    requires i < |line| && NextIndex(line, i, true) == Some(j)
    ensures Rank(line, j) + 1 == Rank(line, i)
  {
    RankNext(line, j);
    RankAcross(line, j + 1, i);
  }

  // ----- the facts that the rest of the model uses -----

  /** Where an add from this provider step enters: the first stop after it. */
  function Entrance(line: seq<string>, sender: string): nat {
    match Find(line, sender)
    case None => 0
    case Some(i) => Rank(line, i)
  }

  lemma StopsShape(line: seq<string>)
    requires ValidLine(line)
    ensures |StopsOf(line)| >= 3
    ensures StopsOf(line)[0] == UNDEPLOYED && StopsOf(line)[|StopsOf(line)| - 1] == DEPLOYED
    ensures Rank(line, 0) == 0 && Rank(line, |line| - 1) == |StopsOf(line)| - 1
  {
    EndsAreNoProviders();
    var last := |line| - 1;
    StopAtRank(line, 0);
    StopAtRank(line, last);
    var k :| 0 < k < last && !IsProvider(line[k]);
    RankNext(line, 0);
    RankNext(line, k);
    RankMonotone(line, 1, k);
    RankMonotone(line, k + 1, last);
  }

  lemma EndStops(line: seq<string>)
    requires ValidLine(line)
    ensures |StopsOf(line)| >= 3
    ensures StopsOf(line)[0] == UNDEPLOYED && StopsOf(line)[|StopsOf(line)| - 1] == DEPLOYED
  {
    StopsShape(line);
  }

  lemma StopsDistinct(line: seq<string>, p: nat, q: nat)
    requires ValidLine(line) && p < q < |StopsOf(line)|
    ensures StopsOf(line)[p] != StopsOf(line)[q]
  {
    var i := StopFrom(line, p);
    var j := StopFrom(line, q);
    assert i != j;
  }

  /** The index of a stop by its name. */
  lemma StopIndex(line: seq<string>, p: nat)
    requires ValidLine(line) && p < |StopsOf(line)|
    ensures Find(StopsOf(line), StopsOf(line)[p]) == Some(p)
  {
    forall q: nat, r | q < r < |StopsOf(line)| ensures StopsOf(line)[q] != StopsOf(line)[r] {
      StopsDistinct(line, q, r);
    }
    FindAt(StopsOf(line), p);
  }

  lemma StopIsNoProvider(line: seq<string>, p: nat)
    requires p < |StopsOf(line)|
    ensures !IsProvider(StopsOf(line)[p]) && StopsOf(line)[p] in line
  {
    var i := StopFrom(line, p);
  }

  lemma NonProviderIsStop(line: seq<string>, name: string)
    requires name in line && !IsProvider(name)
    ensures name in StopsOf(line)
  {
    StopAtRank(line, FirstAt(line, name));
  }

  /** Between stops, forward is plus one and fails only at `deployed`. */
  lemma NextStop(line: seq<string>, p: nat)
    requires ValidLine(line) && p < |StopsOf(line)|
    ensures NextStep(line, StopsOf(line)[p], false) == if p == |StopsOf(line)| - 1 then None else Some(StopsOf(line)[p + 1])
  {
    StopsShape(line);
    var i := StopFrom(line, p);
    FindAt(line, i);
    match NextIndex(line, i, false) {
      case None =>
        RankNext(line, i);
        RankAcross(line, i + 1, |line|);
        assert line[..|line|] == line;
      case Some(j) =>
        ForwardRank(line, i, j);
        StopAtRank(line, j);
    }
  }

  /** Between stops, backward is minus one and fails only at `undeployed`. */
  lemma PreviousStop(line: seq<string>, p: nat)
    requires ValidLine(line) && p < |StopsOf(line)|
    ensures NextStep(line, StopsOf(line)[p], true) == if p == 0 then None else Some(StopsOf(line)[p - 1])
  {
    StopsShape(line);
    var i := StopFrom(line, p);
    FindAt(line, i);
    match NextIndex(line, i, true) {
      case None =>
        RankAcross(line, 0, i);
      case Some(j) =>
        BackwardRank(line, i, j);
        StopAtRank(line, j);
    }
  }

  /** Forward and backward are inverse between adjacent stops. */
  lemma ForwardBackwardInverse(line: seq<string>, a: string, b: string)
    requires ValidLine(line) && a in StopsOf(line) && b in StopsOf(line)
    ensures NextStep(line, a, false) == Some(b) <==> NextStep(line, b, true) == Some(a)
  {
    var stops := StopsOf(line);
    var p, q := FirstAt(stops, a), FirstAt(stops, b);
    NextStop(line, p);
    PreviousStop(line, q);
    if p + 1 < |stops| && stops[p + 1] == b {
      StopIndex(line, p + 1);
    }
    if q > 0 && stops[q - 1] == a {
      StopIndex(line, q - 1);
    }
  }

  /** The search fails only for an unknown name, forward from `deployed` and backward
      from `undeployed`, even when it starts at a provider. */
  lemma SearchFailsIff(line: seq<string>, name: string, reverse: bool)
    requires ValidLine(line)
    ensures NextStep(line, name, reverse).None? <==>
      name !in line || name == if reverse then UNDEPLOYED else DEPLOYED
  {
    EndsAreNoProviders();
    if name in line {
      var i := FirstAt(line, name);
      FindAt(line, i);
      var end := if reverse then 0 else |line| - 1;
      FindAt(line, end);
      if i != end {
        assert !IsProvider(line[end]);
      }
    }
  }

  lemma EntersAt(line: seq<string>, sender: string)
    requires ValidLine(line) && sender in line && IsProvider(sender)
    ensures 1 <= Entrance(line, sender) < |StopsOf(line)|
    ensures NextStep(line, sender, false) == Some(StopsOf(line)[Entrance(line, sender)])
    ensures TransitionOf(line, sender) == ProviderState
  {
    EndsAreNoProviders();
    StopsShape(line);
    var i := FirstAt(line, sender);
    RankNext(line, 0);
    RankMonotone(line, 1, i);
    SearchFailsIff(line, sender, false);
    var j := NextIndex(line, i, false).value;
    ForwardRank(line, i, j);
    StopAtRank(line, j);
  }

  lemma StopTransition(line: seq<string>, p: nat)
    requires ValidLine(line) && p < |StopsOf(line)|
    ensures TransitionOf(line, StopsOf(line)[p]) == if p == 0 || p == |StopsOf(line)| - 1 then CloseState else ProvisionerState
  {
    StopsShape(line);
    var i := StopFrom(line, p);
    FindAt(line, i);
    assert i == 0 <==> p == 0;
    assert i == |line| - 1 <==> p == |StopsOf(line)| - 1;
  }
}
