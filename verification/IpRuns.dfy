/** What the allocator promises over all blocks and all runs. */
module IpRuns {
  import opened Wrappers
  import opened Powers
  import opened Comm
  import opened Addresses
  import AddressText
  import Decimal
  import Text
  import opened IpAlloc

  // ----- the scan goes through the block once, in order -----

  function Iterate(ip: seq<Byte>, n: nat): (r: seq<Byte>)
    ensures |r| == |ip|
  {
    if n == 0 then ip else Increment(Iterate(ip, n - 1))
  }

  function Network(c: Cidr): seq<Byte> {
    Mask(c.address, c.prefix)
  }

  /** The n-th increment of the network address is the n-th address of the block. */
  lemma {:induction false} Enumerates(c: Cidr, n: nat)
    requires c.Valid() && Base(c) + n < End(c)
    ensures Value(Iterate(Network(c), n)) == Base(c) + n
    ensures Matches(Network(c), Iterate(Network(c), n), c.prefix)
  {
    if n == 0 {
    } else {
      Enumerates(c, n - 1);
      IncrementValue(Iterate(Network(c), n - 1));
    }
    InBlock(c, Iterate(Network(c), n));
  }

  /** After the last address the increment leaves the block, for every prefix but the empty one. */
  lemma LeavesBlock(c: Cidr)
    requires c.Valid() && c.prefix > 0
    ensures !Matches(Network(c), Iterate(Network(c), End(c) - Base(c)), c.prefix)
  {
    var n := End(c) - Base(c);
    Enumerates(c, n - 1);
    IncrementValue(Iterate(Network(c), n - 1));
    InBlock(c, Iterate(Network(c), n));
    EndLeaves(c);
  }

  /** The loop stops at the n-th address. */
  ghost predicate StopsAt(c: Cidr, records: Records, n: nat)
    requires c.Valid()
  {
    var ip := Iterate(Network(c), n);
    !Matches(Network(c), ip, c.prefix) || (Eligible(c, Value(ip)) && Free(records, Value(ip)))
  }

  lemma EverythingMatches(c: Cidr, ip: seq<Byte>)
    requires c.Valid() && c.prefix == 0 && |ip| == 4
    ensures Matches(Network(c), ip, c.prefix) && Base(c) == 0 && End(c) == Pow256(4)
  {
    MaskNothing(c.address, ip, c.prefix);
    Pow256IsPow2(4);
  }

  /** The scan finds an address exactly when one that may be given out is free. */
  lemma FindsIff(c: Cidr, records: Records)
    requires c.Valid()
    ensures Scan(c, records, Base(c)).Some? <==> exists v: nat :: Eligible(c, v) && Free(records, v)
  {
    var r := Scan(c, records, Base(c));
    if r.Some? {
      assert Eligible(c, r.value) && Free(records, r.value);
    }
  }

  lemma WholeSpaceStopsIff(c: Cidr, records: Records)
    requires c.Valid() && c.prefix == 0
    ensures (exists n: nat :: StopsAt(c, records, n)) <==> Scan(c, records, Base(c)).Some?
  {
    if Scan(c, records, Base(c)).Some? {
      var v := Scan(c, records, Base(c)).value;
      Enumerates(c, v - Base(c));
      assert StopsAt(c, records, v - Base(c));
    } else {
      forall n: nat ensures !StopsAt(c, records, n) {
        var ip := Iterate(Network(c), n);
        EverythingMatches(c, ip);
        ValueBound(ip);
      }
    }
  }

  /** The loop stops exactly when the prefix is not empty or an address that may be given out is free. */
  lemma ScanEndsIff(c: Cidr, records: Records)
    requires c.Valid()
    ensures (exists n: nat :: StopsAt(c, records, n)) <==> ScanEnds(c, records)
  {
    if c.prefix > 0 {
      LeavesBlock(c);
      assert StopsAt(c, records, End(c) - Base(c));
    } else {
      WholeSpaceStopsIff(c, records);
      FindsIff(c, records);
    }
  }

  // ----- the invariant of the records -----

  ghost predicate IsAllocated(c: Cidr, text: string)
    requires c.Valid()
  {
    exists v: nat :: Eligible(c, v) && text == TextOf(v)
  }

  /** Hosts are distinct, addresses are distinct, and every address is an eligible one of the block. */
  ghost predicate InvRecords(c: Cidr, records: Records)
    requires c.Valid()
  {
    && (forall i, j | 0 <= i < j < |records| :: records[i].host != records[j].host && records[i].ip != records[j].ip)
    && (forall i | 0 <= i < |records| :: IsAllocated(c, records[i].ip))
  }

  lemma TextInjective(c: Cidr, v: nat, w: nat)
    requires c.Valid() && v < End(c) && w < End(c) && TextOf(v) == TextOf(w)
    ensures v == w
  {
    InBlock(c, Network(c));
    AddressText.DottedInjective(AddressOf(v), AddressOf(w));
    ValueOfBytes(v, 4);
    ValueOfBytes(w, 4);
  }

  lemma {:induction false} FindHostFinds(records: Records, host: string)
    ensures FindHost(records, host).Some? <==> exists i :: 0 <= i < |records| && records[i].host == host
    ensures FindHost(records, host).Some? ==>
      exists i :: 0 <= i < |records| && records[i] == IPAMRecord(FindHost(records, host).value, host)
  {
    if |records| == 0 {
    } else {
      FindHostFinds(records[1..], host);
      if records[0].host == host {
        assert records[0] == IPAMRecord(FindHost(records, host).value, host);
      } else if FindHost(records, host).Some? {
        var i :| 0 <= i < |records[1..]| && records[1..][i] == IPAMRecord(FindHost(records[1..], host).value, host);
        assert records[i + 1] == IPAMRecord(FindHost(records, host).value, host);
      }
    }
  }

  /** Removing keeps the order of the others. */
  lemma {:induction false} RemoveHostAt(records: Records, host: string) returns (k: nat)
    ensures FindHost(records, host).Some? ==> k < |records| && records[k].host == host && RemoveHost(records, host) == records[..k] + records[k + 1..]
    ensures FindHost(records, host).None? ==> RemoveHost(records, host) == records
  {
    k := 0;
    if |records| == 0 {
    } else {
      var rest := records[1..];
      if records[0].host == host {
        assert records[..0] == [];
      } else {
        var l := RemoveHostAt(rest, host);
        k := l + 1;
        if FindHost(records, host).Some? {
          assert records[..k] == [records[0]] + rest[..l];
          assert records[k + 1..] == rest[l + 1..];
          Joined([records[0]], rest[..l], rest[l + 1..]);
        }
      }
    }
  }

  lemma RemoveKeepsInv(c: Cidr, records: Records, host: string)
    requires c.Valid() && InvRecords(c, records)
    ensures InvRecords(c, RemoveHost(records, host))
  {
    var k := RemoveHostAt(records, host);
  }

  lemma AppendKeepsInv(c: Cidr, records: Records, host: string)
    requires c.Valid() && InvRecords(c, records) && FindHost(records, host).None?
    requires Scan(c, records, Base(c)).Some?
    ensures InvRecords(c, records + [IPAMRecord(TextOf(Scan(c, records, Base(c)).value), host)])
  {
    var v := Scan(c, records, Base(c)).value;
    FindHostFinds(records, host);
    assert IsAllocated(c, TextOf(v));
    forall i | 0 <= i < |records| ensures records[i].ip != TextOf(v) {
      assert records[i] in records;
    }
  }

  lemma ServeKeepsInv(c: Cidr, records: Records, msg: Message)
    requires c.Valid() && InvRecords(c, records)
    ensures InvRecords(c, Serve(Success(c), records, msg).0)
  {
    if msg.action == Delete {
      RemoveKeepsInv(c, records, msg.service.name);
    } else if FindHost(records, msg.service.name).None? && Scan(c, records, Base(c)).Some? {
      AppendKeepsInv(c, records, msg.service.name);
    }
  }

  // ----- the records are a map from hosts to addresses -----

  function AsMap(records: Records): map<string, string> {
    if |records| == 0 then map[] else AsMap(records[1..])[records[0].host := records[0].ip]
  }

  /** The least eligible address that is not a value of the map. */
  function LeastFree(c: Cidr, taken: set<string>, v: nat): Option<nat>
    requires c.Valid() && v <= End(c)
    decreases End(c) - v
  {
    if v >= End(c) then None
    else if Eligible(c, v) && TextOf(v) !in taken then Some(v)
    else LeastFree(c, taken, v + 1)
  }

  /** The handler on a map. */
  function MapServe(c: Cidr, m: map<string, string>, msg: Message): (map<string, string>, Message)
    requires c.Valid()
  {
    var name := msg.service.name;
    var reply := msg.(action := Update);
    if msg.action == Delete then
      if name in m then (m - {name}, reply.(service := msg.service.(publicIP := "")))
      else (m, reply.(error := NoRecord(name)))
    else if name in m then (m, reply.(service := msg.service.(publicIP := m[name])))
    else
      match LeastFree(c, m.Values, Base(c))
      case None => (m, reply.(error := NO_ADDRESS))
      case Some(v) => (m[name := TextOf(v)], reply.(service := msg.service.(publicIP := TextOf(v))))
  }

  lemma {:induction false} AsMapFinds(records: Records, host: string)
    ensures FindHost(records, host) == if host in AsMap(records) then Some(AsMap(records)[host]) else None
  {
    if |records| == 0 {
    } else {
      AsMapFinds(records[1..], host);
    }
  }

  lemma AsMapKeysValues(c: Cidr, records: Records)
    requires c.Valid() && InvRecords(c, records)
    ensures forall i | 0 <= i < |records| :: records[i].host in AsMap(records) && AsMap(records)[records[i].host] == records[i].ip
    ensures AsMap(records).Values == set r | r in records :: r.ip
  {
    forall i | 0 <= i < |records|
      ensures records[i].host in AsMap(records) && AsMap(records)[records[i].host] == records[i].ip
    {
      FindHostFinds(records, records[i].host);
      AsMapFinds(records, records[i].host);
    }
    forall host | host in AsMap(records) ensures exists r :: r in records && r.ip == AsMap(records)[host] {
      AsMapFinds(records, host);
      FindHostFinds(records, host);
      var i :| 0 <= i < |records| && records[i] == IPAMRecord(AsMap(records)[host], host);
      assert records[i] in records;
    }
  }

  lemma {:induction false} ScanIsLeastFree(c: Cidr, records: Records, taken: set<string>, v: nat)
    requires c.Valid() && v <= End(c)
    requires taken == set r | r in records :: r.ip
    ensures Scan(c, records, v) == LeastFree(c, taken, v)
    decreases End(c) - v
  {
    if v == End(c) {
    } else {
      assert Free(records, v) <==> TextOf(v) !in taken;
      ScanIsLeastFree(c, records, taken, v + 1);
    }
  }

  ghost predicate DistinctHosts(records: Records) {
    forall i, j | 0 <= i < j < |records| :: records[i].host != records[j].host
  }

  lemma {:induction false} RemoveIsMinus(records: Records, host: string)
    requires DistinctHosts(records)
    ensures AsMap(RemoveHost(records, host)) == AsMap(records) - {host}
  {
    if |records| == 0 {
    } else {
      var first, rest := records[0], records[1..];
      assert forall i | 0 <= i < |rest| :: rest[i] == records[i + 1];
      if first.host == host {
        NoSecondRecord(first, rest);
      } else {
        RemoveIsMinus(rest, host);
        var removed := RemoveHost(rest, host);
        assert RemoveHost(records, host)[1..] == removed;
        MinusLater(AsMap(rest), first.host, first.ip, host);
      }
    }
  }

  lemma NoSecondRecord(first: IPAMRecord, rest: Records)
    requires forall i | 0 <= i < |rest| :: rest[i].host != first.host
    ensures AsMap(rest)[first.host := first.ip] - {first.host} == AsMap(rest)
  {
    FindHostFinds(rest, first.host);
    AsMapFinds(rest, first.host);
  }

  lemma MinusLater<K, V>(m: map<K, V>, k: K, v: V, minus: K)
    requires k != minus
    ensures m[k := v] - {minus} == (m - {minus})[k := v]
  {
  }

  lemma {:induction false} AppendIsUpdate(records: Records, host: string, ip: string)
    requires FindHost(records, host).None?
    ensures AsMap(records + [IPAMRecord(ip, host)]) == AsMap(records)[host := ip]
  {
    var all := records + [IPAMRecord(ip, host)];
    if |records| == 0 {
      assert all[1..] == [];
    } else {
      assert all[1..] == records[1..] + [IPAMRecord(ip, host)];
      AppendIsUpdate(records[1..], host, ip);
    }
  }

  /** Under the invariant the list does exactly what the map does, with the same replies. */
  lemma ServeRefinesMap(c: Cidr, records: Records, msg: Message)
    requires c.Valid() && InvRecords(c, records)
    ensures
      var (records', reply) := Serve(Success(c), records, msg);
      MapServe(c, AsMap(records), msg) == (AsMap(records'), reply)
  {
    var name := msg.service.name;
    AsMapFinds(records, name);
    AsMapKeysValues(c, records);
    ScanIsLeastFree(c, records, AsMap(records).Values, Base(c));
    if msg.action == Delete {
      RemoveIsMinus(records, name);
    } else if FindHost(records, name).None? && Scan(c, records, Base(c)).Some? {
      AppendIsUpdate(records, name, TextOf(Scan(c, records, Base(c)).value));
    }
  }

  // ----- when the block is full -----

  ghost function EligibleSet(c: Cidr): set<nat>
    requires c.Valid()
  {
    set v: nat | Base(c) < v < End(c) && Eligible(c, v)
  }

  ghost function TakenSet(c: Cidr, records: Records): set<nat>
    requires c.Valid()
  {
    set v | v in EligibleSet(c) && !Free(records, v)
  }

  /** Distinct records hold distinct eligible addresses. */
  lemma {:induction false} TakenCount(c: Cidr, records: Records)
    requires c.Valid() && InvRecords(c, records)
    ensures |TakenSet(c, records)| == |records|
  {
    if |records| == 0 {
      assert TakenSet(c, records) == {};
    } else {
      var rest := records[1..];
      assert forall i | 0 <= i < |rest| :: rest[i] == records[i + 1];
      TakenCount(c, rest);
      assert IsAllocated(c, records[0].ip);
      var v: nat :| Eligible(c, v) && records[0].ip == TextOf(v);
      FirstIsNew(c, records, v);
    }
  }

  lemma FreeFirst(records: Records, v: nat)
    requires |records| > 0
    ensures Free(records, v) <==> records[0].ip != TextOf(v) && Free(records[1..], v)
  {
    assert records == [records[0]] + records[1..];
  }

  lemma FirstIsNew(c: Cidr, records: Records, v: nat)
    requires c.Valid() && InvRecords(c, records) && |records| > 0
    requires Eligible(c, v) && records[0].ip == TextOf(v)
    ensures v !in TakenSet(c, records[1..]) && TakenSet(c, records) == TakenSet(c, records[1..]) + {v}
  {
    var rest := records[1..];
    forall r | r in rest ensures r.ip != records[0].ip {
      var i :| 0 <= i < |rest| && rest[i] == r;
      assert records[i + 1] == r;
    }
    forall w | w in EligibleSet(c) ensures !Free(records, w) <==> w == v || !Free(rest, w) {
      FreeFirst(records, w);
      if TextOf(w) == TextOf(v) {
        TextInjective(c, w, v);
      }
    }
  }

  lemma SubsetSizes<T>(a: set<T>, b: set<T>)
    requires a <= b
    ensures |a| <= |b|
    ensures |a| == |b| <==> a == b
  {
    assert b == a + (b - a);
    assert |b| == |a| + |b - a|;
  }

  lemma NothingFreeIffAllTaken(c: Cidr, records: Records)
    requires c.Valid()
    ensures Scan(c, records, Base(c)).None? <==> TakenSet(c, records) == EligibleSet(c)
  {
    var r := Scan(c, records, Base(c));
    if r.Some? {
      assert r.value in EligibleSet(c) && r.value !in TakenSet(c, records);
    } else {
      assert EligibleSet(c) <= TakenSet(c, records);
    }
  }

  /** No address is left exactly when there are as many records as eligible addresses. */
  lemma FullIff(c: Cidr, records: Records)
    requires c.Valid() && InvRecords(c, records)
    ensures |records| <= |EligibleSet(c)|
    ensures Scan(c, records, Base(c)).None? <==> |records| == |EligibleSet(c)|
  {
    TakenCount(c, records);
    SubsetSizes(TakenSet(c, records), EligibleSet(c));
    NothingFreeIffAllTaken(c, records);
  }

  function Range(lo: nat, hi: nat): (r: set<nat>)
    requires lo <= hi
    ensures forall v :: v in r <==> lo <= v < hi
    ensures |r| == hi - lo
  {
    if lo == hi then {} else Range(lo, hi - 1) + {hi - 1}
  }

  ghost predicate NoMulticast(c: Cidr)
    requires c.Valid()
  {
    forall v: nat | Base(c) <= v < End(c) :: !IsMulticast(AddressOf(v))
  }

  /** A /m block without multicast addresses takes 2^(32-m) - 1 services. */
  lemma CapacityOfBlock(c: Cidr, records: Records)
    requires c.Valid() && InvRecords(c, records) && NoMulticast(c)
    ensures |EligibleSet(c)| == Pow2(32 - c.prefix) - 1
    ensures Scan(c, records, Base(c)).None? <==> |records| == Pow2(32 - c.prefix) - 1
  {
    EligibleInBits(c);
    FullIff(c, records);
  }

  lemma EligibleInBits(c: Cidr)
    requires c.Valid() && NoMulticast(c)
    ensures |EligibleSet(c)| == Pow2(32 - c.prefix) - 1
  {
    EligibleCount(c);
    SizeInBits(c.prefix);
  }

  lemma EligibleCount(c: Cidr)
    requires c.Valid() && NoMulticast(c)
    ensures |EligibleSet(c)| == End(c) - Base(c) - 1
  {
    EligibleIsRange(c);
    assert |Range(Base(c) + 1, End(c))| == End(c) - Base(c) - 1;
  }

  lemma SizeInBits(prefix: nat)
    requires prefix <= 32
    ensures BlockSize(4, prefix) == Pow2(32 - prefix)
  {
    assert Pow2(0) == 1;
  }

  lemma EligibleIsRange(c: Cidr)
    requires c.Valid() && NoMulticast(c)
    ensures EligibleSet(c) == Range(Base(c) + 1, End(c))
  {
    forall v: nat ensures v in EligibleSet(c) <==> v in Range(Base(c) + 1, End(c)) {
      if Base(c) < v < End(c) {
        EligibleWithin(c, v);
      }
    }
  }

  lemma EligibleWithin(c: Cidr, v: nat)
    requires c.Valid() && NoMulticast(c) && Base(c) < v < End(c)
    ensures Eligible(c, v)
  {
  }

  // ----- multicast addresses in the block -----

  const MULTICAST := 14 * 0x1000_0000
  const AFTER_MULTICAST := 15 * 0x1000_0000

  lemma MulticastIsRange(v: nat)
    requires v < 0x1_0000_0000
    ensures IsMulticast(AddressOf(v)) <==> MULTICAST <= v < AFTER_MULTICAST
  {
    ValueOfBytes(v, 4);
    Pow256IsPow2(4);
    FourBytes();
    AddressText.ValueOfFour(AddressOf(v));
  }

  lemma FourBytes()
    ensures Pow256(3) == 0x100_0000 && Pow256(4) == 0x1_0000_0000
  {
    assert Pow256(1) == 256 && Pow256(2) == 256 * Pow256(1) && Pow256(3) == 256 * Pow256(2);
  }

  ghost predicate Overlaps(c: Cidr)
    requires c.Valid()
  {
    Base(c) < AFTER_MULTICAST && MULTICAST < End(c)
  }

  /** How many addresses of the block may be given out. A block of prefix 4 or more has no
      multicast address or no other; a wider one without the network address loses that too. */
  ghost function Capacity(c: Cidr): int
    requires c.Valid()
  {
    var size := End(c) - Base(c);
    if !Overlaps(c) then size - 1
    else if c.prefix >= 4 then 0
    else size - 0x1000_0000 - if Base(c) < MULTICAST then 1 else 0
  }

  lemma SameHighBits(x: Byte, y: Byte, ones: nat)
    requires 4 <= ones <= 8 && MaskByte(x, ones) == MaskByte(y, ones)
    ensures x / 16 == y / 16
  {
    HighBitsStay(x, ones);
    HighBitsStay(y, ones);
  }

  lemma HighBitsStay(x: Byte, ones: nat)
    requires 4 <= ones <= 8
    ensures MaskByte(x, ones) / 16 == x / 16
  {
    match ones
    case 4 => case 5 => case 6 => case 7 => case _ =>
  }

  lemma BlockWithin(c: Cidr, v: nat)
    requires c.Valid() && c.prefix >= 4 && Base(c) <= v < End(c)
    ensures IsMulticast(AddressOf(v)) <==> IsMulticast(Network(c))
  {
    var ip := AddressOf(v);
    InBlock(c, ip);
    ValueOfBytes(v, 4);
    SameHighBits(Network(c)[0], ip[0], Ones(c.prefix));
  }

  /** A block of prefix 3 or less starts at a multiple of its size. */
  lemma WideNetwork(c: Cidr)
    requires c.Valid() && c.prefix <= 3
    ensures Base(c) == MaskByte(c.address[0], c.prefix) * 0x100_0000
    ensures End(c) == Base(c) + Sharing(c.prefix) * 0x100_0000
  {
    FourBytes();
    MaskFront(c.address, c.address, c.prefix);
    MaskNothing(c.address[1..], c.address[1..], 0);
    SizeOfBlock(4, c.prefix);
    SharingIsPow2(c.prefix);
  }

  lemma WideOverlap(c: Cidr)
    requires c.Valid() && c.prefix <= 3 && Overlaps(c)
    ensures Base(c) <= MULTICAST && AFTER_MULTICAST <= End(c)
  {
    WideNetwork(c);
    MaskRoundsDown(c.address[0], c.prefix);
  }

  lemma EligibleIff(c: Cidr, v: nat)
    requires c.Valid()
    ensures v in EligibleSet(c) <==> Base(c) < v < End(c) && !(MULTICAST <= v < AFTER_MULTICAST)
  {
    InBlock(c, Network(c));
    FourBytes();
    if v < End(c) {
      MulticastIsRange(v);
    }
  }

  lemma NoOverlapNoMulticast(c: Cidr)
    requires c.Valid() && !Overlaps(c)
    ensures NoMulticast(c)
  {
    InBlock(c, Network(c));
    FourBytes();
    forall v: nat | Base(c) <= v < End(c) ensures !IsMulticast(AddressOf(v)) {
      MulticastIsRange(v);
    }
  }

  lemma NarrowOverlap(c: Cidr)
    requires c.Valid() && c.prefix >= 4 && Overlaps(c)
    ensures EligibleSet(c) == {}
  {
    InBlock(c, Network(c));
    FourBytes();
    var w: nat := if Base(c) < MULTICAST then MULTICAST else Base(c);
    MulticastIsRange(w);
    BlockWithin(c, w);
    forall v: nat | Base(c) < v < End(c) ensures !Eligible(c, v) {
      BlockWithin(c, v);
    }
  }

  lemma WideCount(c: Cidr)
    requires c.Valid() && c.prefix <= 3 && Overlaps(c)
    ensures |EligibleSet(c)| == Capacity(c)
  {
    WideOverlap(c);
    var below: nat := if Base(c) < MULTICAST then Base(c) + 1 else MULTICAST;
    forall v: nat ensures v in EligibleSet(c) <==> below <= v < MULTICAST || AFTER_MULTICAST <= v < End(c) {
      EligibleIff(c, v);
    }
    TwoRanges(EligibleSet(c), below, MULTICAST, AFTER_MULTICAST, End(c));
  }

  lemma TwoRanges(s: set<nat>, a: nat, b: nat, c: nat, d: nat)
    requires a <= b <= c <= d
    requires forall v :: v in s <==> a <= v < b || c <= v < d
    ensures |s| == (b - a) + (d - c)
  {
    var low, high := Range(a, b), Range(c, d);
    assert s == low + high && low !! high;
  }

  lemma EligibleIsCapacity(c: Cidr)
    requires c.Valid()
    ensures |EligibleSet(c)| == Capacity(c)
  {
    if !Overlaps(c) {
      NoOverlapNoMulticast(c);
      EligibleCount(c);
    } else if c.prefix >= 4 {
      NarrowOverlap(c);
    } else {
      WideCount(c);
    }
  }

  /** The number of services that a block takes, for every block. */
  lemma CapacityOfEveryBlock(c: Cidr, records: Records)
    requires c.Valid() && InvRecords(c, records)
    ensures |records| <= Capacity(c)
    ensures Scan(c, records, Base(c)).None? <==> |records| == Capacity(c)
  {
    EligibleIsCapacity(c);
    FullIff(c, records);
  }

  /** The capacity in numbers; 224.0.0.0/3 is the one block whose network address is multicast
      while others of its addresses are not. */
  lemma CapacityInBits(c: Cidr)
    requires c.Valid()
    ensures Capacity(c) ==
      if !Overlaps(c) then Pow2(32 - c.prefix) - 1
      else if c.prefix >= 4 then 0
      else if c.prefix == 3 then 0x1000_0000
      else Pow2(32 - c.prefix) - 0x1000_0000 - 1
  {
    SizeInBits(c.prefix);
    if c.prefix <= 3 && Overlaps(c) {
      WideOverlap(c);
      WideNetwork(c);
      MaskRoundsDown(c.address[0], c.prefix);
    }
  }

  /** Under the invariant the loop stops exactly when the prefix is not empty or the records
      are fewer than the block takes. */
  lemma ScanEndsIffRoom(c: Cidr, records: Records)
    requires c.Valid() && InvRecords(c, records)
    ensures (exists n: nat :: StopsAt(c, records, n)) <==> c.prefix > 0 || |records| < Capacity(c)
  {
    ScanEndsIff(c, records);
    FindsIff(c, records);
    CapacityOfEveryBlock(c, records);
  }

  // ----- what is given, in numbers and texts -----

  /** The number that a text in dotted decimal stands for. */
  function ReadAddress(text: string): int {
    var parts := Text.Split(text, '.');
    if |parts| != 4 then -1
    else
      Decimal.Atoi(parts[0]) * 0x100_0000 + Decimal.Atoi(parts[1]) * 0x1_0000
      + Decimal.Atoi(parts[2]) * 0x100 + Decimal.Atoi(parts[3])
  }

  function Number(ip: seq<Byte>): nat
    requires |ip| == 4
  {
    (ip[0] as int) * 0x100_0000 + (ip[1] as int) * 0x1_0000 + (ip[2] as int) * 0x100 + ip[3]
  }

  /** The address agrees with that of the block in the leading bits, has another bit set, and
      is not multicast. */
  predicate MayBeGiven(c: Cidr, v: nat)
    requires c.Valid()
  {
    var size := Pow2(32 - c.prefix);
    && v / size == Number(c.address) / size
    && v % size != 0
    && !(224 * 0x100_0000 <= v < 240 * 0x100_0000)
  }

  lemma BlockInNumbers(c: Cidr, v: nat)
    requires c.Valid()
    ensures Base(c) <= v < End(c) <==> v / BlockSize(4, c.prefix) == Number(c.address) / BlockSize(4, c.prefix)
    ensures Base(c) <= v < End(c) ==> (v == Base(c) <==> v % BlockSize(4, c.prefix) == 0)
  {
    var size := BlockSize(4, c.prefix);
    AddressText.ValueOfFour(c.address);
    BlockIsRange(c.address, c.address, c.prefix);
    MatchesItself(c.address, c.prefix);
    var k := NetworkIsMultiple(c.address, c.prefix);
    QuotientIs(v, k, size);
    QuotientIs(Number(c.address), k, size);
  }

  /** The network of an address has the address. */
  lemma {:induction false} MatchesItself(b: seq<Byte>, prefix: nat)
    ensures Matches(Mask(b, prefix), b, prefix)
  {
    if |b| == 0 {
    } else {
      MatchesItself(b[1..], Rest(prefix));
      MaskRoundsDown(b[0], Ones(prefix));
      MaskFront(b, b, prefix);
      ByteBlock(b[0], b[0], Ones(prefix));
    }
  }

  lemma EligibleMeans(c: Cidr, v: nat)
    requires c.Valid()
    ensures Eligible(c, v) <==> MayBeGiven(c, v)
  {
    BlockInNumbers(c, v);
    SizeInBits(c.prefix);
    InBlock(c, Network(c));
    FourBytes();
    if v < End(c) {
      MulticastIsRange(v);
    }
  }

  lemma TextIsRead(v: nat)
    requires v < 0x1_0000_0000
    ensures ReadAddress(TextOf(v)) == v
    ensures |Text.Split(TextOf(v), '.')| == 4
    ensures forall k | 0 <= k < 4 :: 0 <= Decimal.Atoi(Text.Split(TextOf(v), '.')[k]) < 256
  {
    AddressText.DottedParts(AddressOf(v));
    FourBytes();
    ValueOfBytes(v, 4);
    AddressText.ValueOfFour(AddressOf(v));
  }

  lemma FreeMeans(c: Cidr, records: Records, v: nat)
    requires c.Valid() && InvRecords(c, records) && v < End(c)
    ensures Free(records, v) <==> forall r | r in records :: ReadAddress(r.ip) != v
  {
    InBlock(c, Network(c));
    FourBytes();
    TextIsRead(v);
    forall r | r in records ensures r.ip == TextOf(v) <==> ReadAddress(r.ip) == v {
      var i :| 0 <= i < |records| && records[i] == r;
      assert IsAllocated(c, r.ip);
      var w: nat :| Eligible(c, w) && r.ip == TextOf(w);
      TextIsRead(w);
    }
  }

  /** The text that is recorded and returned reads as the least address that may be given and
      that no record reads as. */
  lemma GivesLeast(c: Cidr, records: Records, v: nat)
    requires c.Valid() && InvRecords(c, records) && Scan(c, records, Base(c)) == Some(v)
    ensures ReadAddress(TextOf(v)) == v && MayBeGiven(c, v)
    ensures forall r | r in records :: ReadAddress(r.ip) != v
    ensures forall w: nat | w < v && MayBeGiven(c, w) :: exists r :: r in records && ReadAddress(r.ip) == w
  {
    InBlock(c, Network(c));
    FourBytes();
    TextIsRead(v);
    EligibleMeans(c, v);
    FreeMeans(c, records, v);
    forall w: nat | w < v && MayBeGiven(c, w) ensures exists r :: r in records && ReadAddress(r.ip) == w {
      EligibleMeans(c, w);
      FreeMeans(c, records, w);
    }
  }

  /** A reply differs from the message in the action, the error and the address. */
  ghost predicate Replies(msg: Message, reply: Message, error: string, address: string) {
    reply == Message(Update, msg.sender, msg.destination, error, msg.service.(publicIP := address))
  }

  /** A delete removes the record of the service, or is answered with an error. */
  lemma ServeDeletes(cidr: Result<Cidr, string>, records: Records, msg: Message) returns (k: nat)
    requires (cidr.Success? ==> cidr.value.Valid()) && msg.action == Delete
    ensures
      var (records1, reply) := Serve(cidr, records, msg);
      var name := msg.service.name;
      if exists r :: r in records && r.host == name
      then
        && k < |records| && records[k].host == name && records1 == records[..k] + records[k + 1..]
        && Replies(msg, reply, msg.error, "")
      else records1 == records && Replies(msg, reply, "Could not find record for " + name, msg.service.publicIP)
  {
    FindHostFinds(records, msg.service.name);
    KnownIff(records, msg.service.name);
    k := RemoveHostAt(records, msg.service.name);
  }

  /** A service that has an address gets it again. */
  lemma ServeRepeats(cidr: Result<Cidr, string>, records: Records, msg: Message) returns (r: IPAMRecord)
    requires (cidr.Success? ==> cidr.value.Valid()) && msg.action != Delete
    requires exists r :: r in records && r.host == msg.service.name
    ensures r in records && r.host == msg.service.name
    ensures Serve(cidr, records, msg).0 == records && Replies(msg, Serve(cidr, records, msg).1, msg.error, r.ip)
  {
    FindHostFinds(records, msg.service.name);
    KnownIff(records, msg.service.name);
    r := IPAMRecord(FindHost(records, msg.service.name).value, msg.service.name);
  }

  /** A new service gets the least address that may be given and that no record reads as, or an
      error when the block is full. */
  lemma ServeGives(c: Cidr, records: Records, msg: Message) returns (v: nat, text: string)
    requires c.Valid() && InvRecords(c, records) && msg.action != Delete
    requires forall r | r in records :: r.host != msg.service.name
    ensures |records| <= Capacity(c)
    ensures |records| == Capacity(c) ==>
      && Serve(Success(c), records, msg).0 == records
      && Replies(msg, Serve(Success(c), records, msg).1, "no available IPAM", msg.service.publicIP)
    ensures |records| < Capacity(c) ==>
      && Serve(Success(c), records, msg).0 == records + [IPAMRecord(text, msg.service.name)]
      && Replies(msg, Serve(Success(c), records, msg).1, msg.error, text)
      && ReadAddress(text) == v && MayBeGiven(c, v)
      && (forall r | r in records :: ReadAddress(r.ip) != v)
      && (forall w: nat | w < v && MayBeGiven(c, w) :: exists r :: r in records && ReadAddress(r.ip) == w)
  {
    FindHostFinds(records, msg.service.name);
    KnownIff(records, msg.service.name);
    CapacityOfEveryBlock(c, records);
    v, text := 0, "";
    var found := Scan(c, records, Base(c));
    if found.Some? {
      v, text := found.value, TextOf(found.value);
      GivesLeast(c, records, v);
    }
  }

  lemma KnownIff(records: Records, host: string)
    ensures (exists r :: r in records && r.host == host) <==> exists i :: 0 <= i < |records| && records[i].host == host
  {
    if i :| 0 <= i < |records| && records[i].host == host {
      assert records[i] in records;
    }
  }

  /** A block that does not parse: the error, and nothing else. */
  lemma ServeWithoutBlock(err: string, records: Records, msg: Message)
    requires msg.action != Delete && forall r | r in records :: r.host != msg.service.name
    ensures Serve(Failure(err), records, msg).0 == records
    ensures Replies(msg, Serve(Failure(err), records, msg).1, err, msg.service.publicIP)
  {
    FindHostFinds(records, msg.service.name);
  }

  // ----- runs -----

  function ServeRun(c: Cidr, records: Records, msgs: seq<Message>): (Records, seq<Message>)
    requires c.Valid()
  {
    if |msgs| == 0 then (records, [])
    else
      var (records1, replies) := ServeRun(c, records, msgs[..|msgs| - 1]);
      var (records2, reply) := Serve(Success(c), records1, msgs[|msgs| - 1]);
      (records2, replies + [reply])
  }

  function MapRun(c: Cidr, m: map<string, string>, msgs: seq<Message>): (map<string, string>, seq<Message>)
    requires c.Valid()
  {
    if |msgs| == 0 then (m, [])
    else
      var (m1, replies) := MapRun(c, m, msgs[..|msgs| - 1]);
      var (m2, reply) := MapServe(c, m1, msgs[|msgs| - 1]);
      (m2, replies + [reply])
  }

  /** Over every run the records keep their invariant and give the replies of the map. */
  lemma {:induction false} RunRefinesMap(c: Cidr, records: Records, msgs: seq<Message>)
    requires c.Valid() && InvRecords(c, records)
    ensures InvRecords(c, ServeRun(c, records, msgs).0)
    ensures MapRun(c, AsMap(records), msgs) == (AsMap(ServeRun(c, records, msgs).0), ServeRun(c, records, msgs).1)
    decreases |msgs|
  {
    if |msgs| == 0 {
    } else {
      var front, last := msgs[..|msgs| - 1], msgs[|msgs| - 1];
      RunRefinesMap(c, records, front);
      var records1 := ServeRun(c, records, front).0;
      ServeKeepsInv(c, records1, last);
      ServeRefinesMap(c, records1, last);
    }
  }

  /** A service keeps its address on every message until its own delete. */
  lemma {:induction false} AddressIsStable(c: Cidr, m: map<string, string>, msgs: seq<Message>, name: string)
    requires c.Valid() && name in m
    requires forall msg | msg in msgs :: msg.service.name == name ==> msg.action != Delete
    ensures name in MapRun(c, m, msgs).0 && MapRun(c, m, msgs).0[name] == m[name]
    ensures |MapRun(c, m, msgs).1| == |msgs|
    ensures forall i | 0 <= i < |msgs| && msgs[i].service.name == name ::
      MapRun(c, m, msgs).1[i].service.publicIP == m[name]
    decreases |msgs|
  {
    if |msgs| == 0 {
    } else {
      var front := msgs[..|msgs| - 1];
      assert forall msg | msg in front :: msg in msgs;
      AddressIsStable(c, m, front, name);
    }
  }

  lemma HoldersAreExclusive(c: Cidr, records: Records, a: string, b: string)
    requires c.Valid() && InvRecords(c, records)
    ensures a in AsMap(records) ==> IsAllocated(c, AsMap(records)[a])
    ensures a in AsMap(records) && b in AsMap(records) && a != b ==> AsMap(records)[a] != AsMap(records)[b]
  {
    AsMapFinds(records, a);
    AsMapFinds(records, b);
    FindHostFinds(records, a);
    FindHostFinds(records, b);
  }

  /** No two services ever have the same address, and each address given is an eligible one. */
  lemma AddressesAreExclusive(c: Cidr, msgs: seq<Message>, a: string, b: string)
    requires c.Valid()
    ensures
      var m := MapRun(c, map[], msgs).0;
      && (a in m ==> IsAllocated(c, m[a]))
      && (a in m && b in m && a != b ==> m[a] != m[b])
  {
    RunRefinesMap(c, [], msgs);
    HoldersAreExclusive(c, ServeRun(c, [], msgs).0, a, b);
  }
}
