/** The IP allocator (provisioner/ipam/ipalloc/ipalloc.go) on an IPv4 block. */
module IpAlloc {
  import opened Wrappers
  import Powers
  import Text
  import opened Comm
  import opened Addresses
  import opened AddressText

  datatype IPAMRecord = IPAMRecord(ip: string, host: string)

  /** What net.ParseCIDR makes of the configured block. */
  datatype Cidr = Cidr(address: seq<Byte>, prefix: nat) {
    ghost predicate Valid() { |address| == 4 && prefix <= 32 }
  }

  type Records = seq<IPAMRecord>

  const NO_ADDRESS := "no available IPAM"

  function NoRecord(name: string): string {
    "Could not find record for " + name
  }

  // ----- the block as numbers -----

  function Base(c: Cidr): nat {
    Value(Mask(c.address, c.prefix))
  }

  /** One past the last address. */
  function End(c: Cidr): nat
    requires c.Valid()
  {
    Base(c) + BlockSize(4, c.prefix)
  }

  function AddressOf(v: nat): (ip: seq<Byte>)
    ensures |ip| == 4
  {
    BytesOf(v, 4)
  }

  function TextOf(v: nat): string {
    Dotted(AddressOf(v))
  }

  /** net.IP.IsMulticast: 224.0.0.0/4 (section 4 of RFC 1112). */
  predicate IsMulticast(ip: seq<Byte>)
    requires |ip| == 4
  {
    ip[0] / 16 == 14
  }

  /** An address that may be given out: in the block, not its network address, not multicast. */
  predicate Eligible(c: Cidr, v: nat)
    requires c.Valid()
  {
    Base(c) < v < End(c) && !IsMulticast(AddressOf(v))
  }

  predicate Free(records: Records, v: nat) {
    forall r | r in records :: r.ip != TextOf(v)
  }

  /** The first eligible address from v on that no record has. */
  function Scan(c: Cidr, records: Records, v: nat): (r: Option<nat>)
    requires c.Valid() && v <= End(c)
    ensures r.Some? ==> v <= r.value && Eligible(c, r.value) && Free(records, r.value)
    ensures forall w | v <= w < (if r.Some? then r.value else End(c)) :: Eligible(c, w) ==> !Free(records, w)
    decreases End(c) - v
  {
    if v >= End(c) then None
    else if Eligible(c, v) && Free(records, v) then Some(v)
    else Scan(c, records, v + 1)
  }

  lemma InBlock(c: Cidr, ip: seq<Byte>)
    requires c.Valid() && |ip| == 4
    ensures End(c) <= Powers.Pow256(4)
    ensures Matches(Mask(c.address, c.prefix), ip, c.prefix) <==> Base(c) <= Value(ip) < End(c)
  {
    BlockIsRange(c.address, ip, c.prefix);
  }

  /** Past the last address the increment leaves the block, unless the prefix is empty. */
  lemma EndLeaves(c: Cidr)
    requires c.Valid() && c.prefix > 0
    ensures End(c) == Powers.Pow256(4) ==> Base(c) > 0
  {
    Powers.Pow256IsPow2(4);
    Powers.Pow2Sum(32 - c.prefix, c.prefix);
    assert Powers.Pow2(c.prefix) >= 2;
    MoreThan(Powers.Pow2(32 - c.prefix), Powers.Pow2(c.prefix));
  }

  lemma MoreThan(a: nat, b: nat)
    requires a >= 1 && b >= 2
    ensures a * b > a
  {
  }

  /** The block is not the whole address space, or some address of it may be given out and is free. */
  ghost predicate ScanEnds(c: Cidr, records: Records)
    requires c.Valid()
  {
    c.prefix > 0 || exists v: nat :: Eligible(c, v) && Free(records, v)
  }

  // ----- the specification of the handler -----

  function FindHost(records: Records, host: string): Option<string> {
    if |records| == 0 then None
    else if records[0].host == host then Some(records[0].ip)
    else FindHost(records[1..], host)
  }

  function RemoveHost(records: Records, host: string): Records {
    if |records| == 0 then []
    else if records[0].host == host then records[1..]
    else [records[0]] + RemoveHost(records[1..], host)
  }

  /** One message, handled: the records after it and the reply. */
  function Serve(cidr: Result<Cidr, string>, records: Records, msg: Message): (Records, Message)
    requires cidr.Success? ==> cidr.value.Valid()
  {
    var update := msg.(action := Update);
    var name := msg.service.name;
    if msg.action == Delete then
      if FindHost(records, name).None? then (records, update.(error := NoRecord(name)))
      else (RemoveHost(records, name), update.(service := msg.service.(publicIP := "")))
    else match FindHost(records, name)
      case Some(ip) => (records, update.(service := msg.service.(publicIP := ip)))
      case None =>
        match cidr
        case Failure(err) => (records, update.(error := err))
        case Success(c) =>
          match Scan(c, records, Base(c))
          case None => (records, update.(error := NO_ADDRESS))
          case Some(v) =>
            (records + [IPAMRecord(TextOf(v), name)], update.(service := msg.service.(publicIP := TextOf(v))))
  }

  // ----- the code -----

  class IPAlloc {
    const cidr: Result<Cidr, string>
    var records: Records

    constructor (cidr: Result<Cidr, string>, records: Records)
      ensures this.cidr == cidr && this.records == records
    {
      this.cidr := cidr;
      this.records := records;
    }

    method IsIPFree(ip: seq<Byte>) returns (free: bool)
      requires |ip| == 4
      ensures free <==> forall r | r in records :: r.ip != Dotted(ip)
    {
      for i := 0 to |records|
        invariant forall j | 0 <= j < i :: records[j].ip != Dotted(ip)
      {
        if records[i].ip == Dotted(ip) {
          return false;
        }
      }
      return true;
    }

    method ServiceExist(name: string) returns (found: bool)
      ensures found <==> FindHost(records, name).Some?
    {
      for i := 0 to |records|
        invariant FindHost(records, name) == FindHost(records[i..], name)
      {
        if records[i].host == name {
          return true;
        }
      }
      return false;
    }

    method GetServiceByName(name: string) returns (svc: IPAMRecord)
      ensures match FindHost(records, name)
        case Some(ip) => svc == IPAMRecord(ip, name)
        case None => svc == IPAMRecord("", "")
    {
      for i := 0 to |records|
        invariant FindHost(records, name) == FindHost(records[i..], name)
      {
        if records[i].host == name {
          return records[i];
        }
      }
      return IPAMRecord("", "");
    }

    method DeleteService(name: string) returns (ok: bool)
      modifies this
      ensures ok <==> FindHost(old(records), name).Some?
      ensures records == if ok then RemoveHost(old(records), name) else old(records)
    {
      for k := 0 to |records|
        invariant records == old(records)
        invariant FindHost(records, name) == FindHost(records[k..], name)
        invariant RemoveHost(records, name) == records[..k] + RemoveHost(records[k..], name)
      {
        if records[k].host == name {
          records := records[..k] + records[k + 1..];
          return true;
        }
        assert records[..k] + [records[k]] == records[..k + 1];
        Joined(records[..k], [records[k]], RemoveHost(records[k + 1..], name));
      }
      return false;
    }

    /** The test at the head of the loop, on the text of the block and of the address. */
    method PassedOver(c: Cidr, ip: seq<Byte>) returns (passed: bool)
      requires c.Valid() && |ip| == 4 && Matches(Mask(c.address, c.prefix), ip, c.prefix)
      ensures passed <==> !Eligible(c, Value(ip))
      ensures AddressOf(Value(ip)) == ip
    {
      TextGuard(c, ip);
      passed := IsMulticast(ip) || Text.Contains(BlockText(Mask(c.address, c.prefix), c.prefix), Dotted(ip));
    }

    /** The body of the loop: whether the address may be given out and is free. */
    method Usable(c: Cidr, ip: seq<Byte>) returns (usable: bool)
      requires c.Valid() && |ip| == 4 && Matches(Mask(c.address, c.prefix), ip, c.prefix)
      ensures usable <==> Eligible(c, Value(ip)) && Free(records, Value(ip))
      ensures AddressOf(Value(ip)) == ip
    {
      var passedOver := PassedOver(c, ip);
      if passedOver {
        return false;
      }
      usable := IsIPFree(ip);
    }

    /** The scan through the block, with the address incremented in place. */
    method FirstFree(c: Cidr) returns (r: Option<string>)
      requires c.Valid() && ScanEnds(c, records)
      ensures match Scan(c, records, Base(c))
        case Some(v) => r == Some(TextOf(v))
        case None => r == None
    {
      var net := Mask(c.address, c.prefix);
      var ip := new Byte[4](i requires 0 <= i < 4 => net[i]);
      assert ip[..] == net;
      ghost var v := Base(c);
      ScanStarts(c, records, ip[..]);
      while Matches(net, ip[..], c.prefix)
        invariant Scanning(c, records, ip[..], v)
        decreases End(c) - v
      {
        var usable := Usable(c, ip[..]);
        if usable {
          ScanFinds(c, records, ip[..], v);
          return Some(Dotted(ip[..]));
        }
        ScanGoesOn(c, records, ip[..], v);
        IncrementIP(ip);
        v := v + 1;
      }
      ScanFails(c, records, ip[..], v);
      return None;
    }

    method AddService(name: string) returns (r: Result<string, string>)
      requires cidr.Success? ==> cidr.value.Valid() && ScanEnds(cidr.value, records)
      modifies this
      ensures cidr.Failure? ==> r == Failure(cidr.error) && records == old(records)
      ensures cidr.Success? ==>
        match Scan(cidr.value, old(records), Base(cidr.value))
        case Some(v) => r == Success(TextOf(v)) && records == old(records) + [IPAMRecord(TextOf(v), name)]
        case None => r == Failure(NO_ADDRESS) && records == old(records)
    {
      if cidr.Failure? {
        return Failure(cidr.error);
      }
      var found := FirstFree(cidr.value);
      if found.None? {
        return Failure(NO_ADDRESS);
      }
      records := records + [IPAMRecord(found.value, name)];
      return Success(found.value);
    }

    /** One message of the loop in Start. */
    method Handle(msg: Message) returns (reply: Message)
      requires cidr.Success? ==> cidr.value.Valid()
      requires cidr.Success? && msg.action != Delete && FindHost(records, msg.service.name).None? ==> ScanEnds(cidr.value, records)
      modifies this
      ensures (records, reply) == Serve(cidr, old(records), msg)
    {
      reply := msg.(action := Update);
      if msg.action == Delete {
        var ok := DeleteService(msg.service.name);
        if !ok {
          reply := reply.(error := NoRecord(msg.service.name));
          return;
        }
        reply := reply.(service := reply.service.(publicIP := ""));
        return;
      }
      var exists_ := ServiceExist(msg.service.name);
      if exists_ {
        var record := GetServiceByName(msg.service.name);
        reply := reply.(service := reply.service.(name := record.host, publicIP := record.ip));
        return;
      }
      var r := AddService(msg.service.name);
      match r
      case Failure(err) => reply := reply.(error := err);
      case Success(ip) => reply := reply.(service := reply.service.(publicIP := ip));
    }
  }

  lemma Joined<T>(a: seq<T>, b: seq<T>, c: seq<T>)
    ensures (a + b) + c == a + (b + c)
  {
  }

  /** The scan has come to v, which `ip` holds, and has found nothing so far. */
  ghost predicate Scanning(c: Cidr, records: Records, ip: seq<Byte>, v: nat) {
    && c.Valid() && |ip| == 4
    && Base(c) <= v <= End(c)
    && Scan(c, records, Base(c)) == Scan(c, records, v)
    && (v < End(c) ==> Value(ip) == v)
    && (Matches(Mask(c.address, c.prefix), ip, c.prefix) <==> v < End(c))
  }

  lemma ScanStarts(c: Cidr, records: Records, ip: seq<Byte>)
    requires c.Valid() && ip == Mask(c.address, c.prefix)
    ensures Scanning(c, records, ip, Base(c))
  {
    InBlock(c, ip);
  }

  /** The guard of the loop passes exactly the eligible addresses. */
  lemma TextGuard(c: Cidr, ip: seq<Byte>)
    requires c.Valid() && |ip| == 4 && Matches(Mask(c.address, c.prefix), ip, c.prefix)
    ensures AddressOf(Value(ip)) == ip
    ensures IsMulticast(ip) || Text.Contains(BlockText(Mask(c.address, c.prefix), c.prefix), Dotted(ip)) <==> !Eligible(c, Value(ip))
  {
    InBlock(c, ip);
    BytesOfValue(ip);
    BaseIsNetwork(c, ip);
    TextTestIsNetwork(c.address, c.prefix, ip);
  }

  lemma BaseIsNetwork(c: Cidr, ip: seq<Byte>)
    requires c.Valid() && |ip| == 4
    ensures ip == Mask(c.address, c.prefix) <==> Value(ip) == Base(c)
  {
    BytesOfValue(ip);
    BytesOfValue(Mask(c.address, c.prefix));
  }

  lemma ScanFinds(c: Cidr, records: Records, ip: seq<Byte>, v: nat)
    requires Scanning(c, records, ip, v) && v < End(c) && AddressOf(v) == ip
    requires Eligible(c, v) && Free(records, v)
    ensures Scan(c, records, Base(c)) == Some(v) && TextOf(v) == Dotted(ip)
  {
  }

  lemma ScanFails(c: Cidr, records: Records, ip: seq<Byte>, v: nat)
    requires Scanning(c, records, ip, v) && !Matches(Mask(c.address, c.prefix), ip, c.prefix)
    ensures Scan(c, records, Base(c)) == None
  {
  }

  lemma ScanGoesOn(c: Cidr, records: Records, ip: seq<Byte>, v: nat)
    requires Scanning(c, records, ip, v) && v < End(c) && ScanEnds(c, records)
    requires !(Eligible(c, v) && Free(records, v))
    ensures Scanning(c, records, Increment(ip), v + 1)
  {
    IncrementValue(ip);
    InBlock(c, ip);
    InBlock(c, Increment(ip));
    if c.prefix > 0 {
      EndLeaves(c);
    }
  }
}
