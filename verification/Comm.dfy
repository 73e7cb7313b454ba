/** The messages that the core and the extensions exchange (comm/message.go). */
module Comm {
  /** A Go slice: `Nil` and an empty `Of([])` differ under reflect.DeepEqual. */
  datatype Slice<T> = Nil | Of(elems: seq<T>)

  /** The action text; `Other` stands for every text that is none of the four. */
  datatype Action = Add | Update | Delete | Refresh | Other(text: string)

  type Port = p: int | 0 <= p < 0x1_0000_0000

  datatype Target = Target(host: string, port: Port, weight: int)

  datatype Service = Service(
    provider: string,
    name: string,
    targets: Slice<Target>,
    tls: bool,
    publicIP: string,
    dnsAliases: Slice<string>)

  datatype Message = Message(
    action: Action,
    sender: string,
    destination: string,
    error: string,
    service: Service)

  const EMPTY_SERVICE := Service("", "", Nil, false, "", Nil)

  function ActionText(a: Action): string {
    match a
    case Add => "add"
    case Update => "update"
    case Delete => "delete"
    case Refresh => "refresh"
    case Other(text) => text
  }

  /** The part of a service that the provider defines. */
  datatype Definition = Definition(targets: Slice<Target>, tls: bool, dnsAliases: Slice<string>)

  function DefinitionOf(s: Service): Definition {
    Definition(s.targets, s.tls, s.dnsAliases)
  }

  /** Service.IsSameThan, with the list of the fields that differ. */
  function IsSameThan(s: Service, target: Service): (r: (bool, seq<string>))
    ensures r.0 <==> DefinitionOf(s) == DefinitionOf(target)
    ensures r.0 <==> r.1 == []
    ensures forall f :: f in r.1 <==>
      || (f == "DNSNames" && s.dnsAliases != target.dnsAliases)
      || (f == "TLS" && s.tls != target.tls)
      || (f == "Targets" && s.targets != target.targets)
  {
    var diff :=
      (if s.dnsAliases != target.dnsAliases then ["DNSNames"] else [])
      + (if s.tls != target.tls then ["TLS"] else [])
      + (if s.targets != target.targets then ["Targets"] else []);
    (|diff| == 0, diff)
  }

  function BuildMessage(service: Service, reverse: bool): Message {
    Message(if reverse then Delete else Add, "", "", "", service)
  }
}
