/** How the swarm provider turns a service, its tasks and its ports into targets
    (provider/swarm/swarm.go). The answers of the Docker API are parameters. */
module Swarm {
  import Text
  import Decimal
  import opened Comm
  import opened Weights
  import Powers
  import opened Wrappers

  datatype PublishMode = Unset | Ingress | HostMode

  datatype PortConfig = PortConfig(targetPort: Port, publishedPort: Port, mode: PublishMode)

  const NO_PORT := PortConfig(0, 0, Unset)

  /** A running task: the address of its node, if it can be resolved, and the ports
      it publishes itself. */
  datatype Task = Task(nodeIP: Option<string>, ports: seq<PortConfig>)

  datatype PublishConfig = PublishConfig(ip: string, portConfig: PortConfig)

  datatype SwarmService = SwarmService(
    name: string,
    hostsLabel: string,
    portLabel: string,
    sslLabel: string,
    ports: Slice<PortConfig>)

  datatype BuildError = BadPortLabel | NoPublishedPort

  const EXTENSION_NAME := "provider.swarm"

  predicate ParseBool(s: string) {
    s in ["1", "t", "T", "TRUE", "true", "True"]
  }

  // ----- specification -----

  function TaskConfig(ip: string, ports: seq<PortConfig>): PublishConfig {
    PublishConfig(ip, if |ports| == 0 then NO_PORT else ports[|ports| - 1])
  }

  function Published(tasks: seq<Task>): seq<PublishConfig> {
    if |tasks| == 0 then []
    else
      var last := tasks[|tasks| - 1];
      Published(tasks[..|tasks| - 1])
      + match last.nodeIP { case None => [] case Some(ip) => [TaskConfig(ip, last.ports)] }
  }

  predicate Matching(port: PortConfig, targetPort: int) {
    port.targetPort == targetPort && port.mode == Ingress
  }

  function Repeated(items: seq<PublishConfig>, port: PortConfig): (r: seq<PublishConfig>)
    ensures |r| == |items|
    ensures forall k | 0 <= k < |items| :: r[k] == PublishConfig(items[k].ip, port)
  {
    if |items| == 0 then []
    else Repeated(items[..|items| - 1], port) + [PublishConfig(items[|items| - 1].ip, port)]
  }

  /** The working list after the ingress ports: each matching port doubles it. */
  function Expanded(items: seq<PublishConfig>, ports: seq<PortConfig>, targetPort: int): seq<PublishConfig> {
    if |ports| == 0 then items
    else
      var before := Expanded(items, ports[..|ports| - 1], targetPort);
      var port := ports[|ports| - 1];
      if Matching(port, targetPort) then before + Repeated(before, port) else before
  }

  function TargetsOf(items: seq<PublishConfig>): (targets: seq<Target>)
    ensures forall t | t in targets :: t.port != 0 && t.weight == 0
  {
    if |items| == 0 then []
    else
      var last := items[|items| - 1];
      TargetsOf(items[..|items| - 1])
      + if last.portConfig.publishedPort != 0 then [Target(last.ip, last.portConfig.publishedPort, 0)] else []
  }

  // ----- the code -----

  method GetTaskPublishInfo(tasks: seq<Task>) returns (info: seq<PublishConfig>)
    ensures info == Published(tasks)
  {
    info := [];
    for i := 0 to |tasks|
      invariant info == Published(tasks[..i])
    {
      assert tasks[..i + 1][..i] == tasks[..i];
      if tasks[i].nodeIP.Some? {
        var pc := PublishConfig(tasks[i].nodeIP.value, NO_PORT);
        var ports := tasks[i].ports;
        for j := 0 to |ports|
          invariant pc == TaskConfig(tasks[i].nodeIP.value, ports[..j])
        {
          pc := pc.(portConfig := ports[j]);
        }
        assert ports[..|ports|] == ports;
        info := info + [pc];
      }
    }
    assert tasks[..|tasks|] == tasks;
  }

  method BuildMessageFromService(service: SwarmService, tasks: Option<seq<Task>>)
    returns (msg: Message, err: Option<BuildError>)
    ensures err == Some(BadPortLabel) <==> !Decimal.IsNumber(service.portLabel)
    ensures err == Some(NoPublishedPort) <==> Decimal.IsNumber(service.portLabel) && service.ports.Nil?
    ensures err.Some? ==> msg.service.targets == Nil
    ensures err.None? ==>
      var items := Expanded(Published(tasks.GetOr([])), service.ports.elems, Decimal.Atoi(service.portLabel));
      var targets := TargetsOf(items);
      msg.service.targets == if |targets| == 0 then Nil else Of(targets)
    ensures msg == Message(Add, "", "", "",
      Service("provider.swarm", service.name, msg.service.targets,
        service.sslLabel in ["1", "t", "T", "TRUE", "true", "True"], "", Of(Text.Split(service.hostsLabel, ','))))
  {
    msg := Message(Add, "", "", "",
      Service(EXTENSION_NAME, service.name, Nil, ParseBool(service.sslLabel), "", Of(Text.Split(service.hostsLabel, ','))));
    if !Decimal.IsNumber(service.portLabel) {
      return msg, Some(BadPortLabel);
    }
    var targetPort := Decimal.Atoi(service.portLabel);
    var info := [];
    if tasks.Some? {
      info := GetTaskPublishInfo(tasks.value);
    }
    if service.ports.Nil? {
      return msg, Some(NoPublishedPort);
    }
    info := AddIngress(info, service.ports.elems, targetPort);
    var targets := CollectTargets(info);
    if |targets| > 0 {
      msg := msg.(service := msg.service.(targets := Of(targets)));
    }
    return msg, None;
  }

  /** The loop over the ports: the inner range is over the list as it was, while
      the list grows. */
  method AddIngress(items: seq<PublishConfig>, ports: seq<PortConfig>, targetPort: int)
    returns (info: seq<PublishConfig>)
    ensures info == Expanded(items, ports, targetPort)
  {
    info := items;
    for i := 0 to |ports|
      invariant info == Expanded(items, ports[..i], targetPort)
    {
      assert ports[..i + 1][..i] == ports[..i];
      if Matching(ports[i], targetPort) {
        var whole := info;
        for j := 0 to |whole|
          invariant info == whole + Repeated(whole[..j], ports[i])
        {
          assert whole[..j + 1][..j] == whole[..j];
          info := info + [PublishConfig(whole[j].ip, ports[i])];
        }
        assert whole[..|whole|] == whole;
      }
    }
    assert ports[..|ports|] == ports;
  }

  method CollectTargets(info: seq<PublishConfig>) returns (targets: seq<Target>)
    ensures targets == TargetsOf(info)
  {
    targets := [];
    for i := 0 to |info|
      invariant targets == TargetsOf(info[..i])
    {
      assert info[..i + 1][..i] == info[..i];
      if info[i].portConfig.publishedPort != 0 {
        targets := targets + [Target(info[i].ip, info[i].portConfig.publishedPort, 0)];
      }
    }
    assert info[..|info|] == info;
  }

  // ----- what the weights come to -----

  function MatchCount(ports: seq<PortConfig>, targetPort: int): nat {
    if |ports| == 0 then 0
    else MatchCount(ports[..|ports| - 1], targetPort) + if Matching(ports[|ports| - 1], targetPort) then 1 else 0
  }

  /** Entries of the list on this node address. */
  function On(items: seq<PublishConfig>, ip: string): nat {
    if |items| == 0 then 0
    else On(items[..|items| - 1], ip) + if items[|items| - 1].ip == ip then 1 else 0
  }

  /** The tasks whose node has this address. */
  ghost function TasksOn(tasks: seq<Task>, ip: string): nat {
    |set i | 0 <= i < |tasks| && tasks[i].nodeIP == Some(ip)|
  }

  /** Entries of the list on this node address and published port. */
  function At(items: seq<PublishConfig>, ip: string, port: Port): nat {
    if |items| == 0 then 0
    else
      var last := items[|items| - 1];
      At(items[..|items| - 1], ip, port) + if last.ip == ip && last.portConfig.publishedPort == port then 1 else 0
  }

  /** How many copies of the task list carry this published port. */
  function Share(ports: seq<PortConfig>, targetPort: int, published: Port): nat {
    if |ports| == 0 then 0
    else
      var before := ports[..|ports| - 1];
      var last := ports[|ports| - 1];
      Share(before, targetPort, published)
      + if Matching(last, targetPort) && last.publishedPort == published then Powers.Pow2(MatchCount(before, targetPort)) else 0
  }

  lemma {:induction false} CountsConcat(a: seq<PublishConfig>, b: seq<PublishConfig>, ip: string, port: Port)
    ensures On(a + b, ip) == On(a, ip) + On(b, ip)
    ensures At(a + b, ip, port) == At(a, ip, port) + At(b, ip, port)
  {
    if |b| == 0 {
      assert a + b == a;
    } else {
      var front := b[..|b| - 1];
      assert (a + b)[..|a + b| - 1] == a + front;
      CountsConcat(a, front, ip, port);
    }
  }

  lemma {:induction false} CountsRepeated(items: seq<PublishConfig>, p: PortConfig, ip: string, port: Port)
    ensures On(Repeated(items, p), ip) == On(items, ip)
    ensures At(Repeated(items, p), ip, port) == if p.publishedPort == port then On(items, ip) else 0
  {
    if |items| == 0 {
    } else {
      var front := items[..|items| - 1];
      var r := Repeated(items, p);
      assert r[..|r| - 1] == Repeated(front, p);
      CountsRepeated(front, p, ip, port);
    }
  }

  /** m matching ingress ports multiply the list by 2^m. */
  lemma {:induction false} ExpandedLength(items: seq<PublishConfig>, ports: seq<PortConfig>, targetPort: int)
    ensures |Expanded(items, ports, targetPort)| == |items| * Powers.Pow2(MatchCount(ports, targetPort))
  {
    if |ports| == 0 {
    } else {
      ExpandedLength(items, ports[..|ports| - 1], targetPort);
    }
  }

  lemma {:induction false} ExpandedOn(items: seq<PublishConfig>, ports: seq<PortConfig>, targetPort: int, ip: string)
    ensures On(Expanded(items, ports, targetPort), ip) == On(items, ip) * Powers.Pow2(MatchCount(ports, targetPort))
  {
    if |ports| == 0 {
    } else {
      var front, last := ports[..|ports| - 1], ports[|ports| - 1];
      ExpandedOn(items, front, targetPort, ip);
      if Matching(last, targetPort) {
        var before := Expanded(items, front, targetPort);
        var p := Powers.Pow2(MatchCount(front, targetPort));
        CountsConcat(before, Repeated(before, last), ip, 0);
        CountsRepeated(before, last, ip, 0);
        assert Powers.Pow2(MatchCount(ports, targetPort)) == p + p;
        Distribute(On(items, ip), p, p);
      }
    }
  }

  /** The list of the tasks has one entry per task on a node. */
  lemma {:induction false} PublishedOn(tasks: seq<Task>, ip: string)
    ensures On(Published(tasks), ip) == TasksOn(tasks, ip)
    decreases |tasks|
  {
    if |tasks| == 0 {
    } else {
      var front, last := tasks[..|tasks| - 1], tasks[|tasks| - 1];
      assert tasks == front + [last];
      PublishedOn(front, ip);
      OneMoreTask(front, last, ip);
      match last.nodeIP {
        case None => assert Published(tasks) == Published(front);
        case Some(node) =>
          var add := [TaskConfig(node, last.ports)];
          CountsConcat(Published(front), add, ip, 0);
          assert add[..0] == [];
      }
    }
  }

  lemma OneMoreTask(front: seq<Task>, last: Task, ip: string)
    ensures TasksOn(front + [last], ip) == TasksOn(front, ip) + if last.nodeIP == Some(ip) then 1 else 0
  {
    var tasks := front + [last];
    var before := set i | 0 <= i < |front| && front[i].nodeIP == Some(ip);
    var at := set i | 0 <= i < |tasks| && tasks[i].nodeIP == Some(ip);
    var added := if last.nodeIP == Some(ip) then {|front|} else {};
    forall i ensures i in at <==> i in before + added {
      if 0 <= i < |front| {
        assert tasks[i] == front[i];
      }
    }
    assert at == before + added && before !! added;
  }

  /** The tasks whose node has this address and whose last own port is published as this. */
  ghost function HostsOn(tasks: seq<Task>, ip: string, port: Port): nat {
    |set i | 0 <= i < |tasks| && Hosts(tasks[i], ip, port)|
  }

  predicate Hosts(task: Task, ip: string, port: Port) {
    task.nodeIP == Some(ip) && |task.ports| > 0 && task.ports[|task.ports| - 1].publishedPort == port
  }

  lemma {:induction false} PublishedAt(tasks: seq<Task>, ip: string, port: Port)
    requires port != 0
    ensures At(Published(tasks), ip, port) == HostsOn(tasks, ip, port)
    decreases |tasks|
  {
    if |tasks| == 0 {
    } else {
      var front, last := tasks[..|tasks| - 1], tasks[|tasks| - 1];
      assert tasks == front + [last];
      PublishedAt(front, ip, port);
      OneMoreHost(front, last, ip, port);
      match last.nodeIP {
        case None => assert Published(tasks) == Published(front);
        case Some(node) =>
          var add := [TaskConfig(node, last.ports)];
          CountsConcat(Published(front), add, ip, port);
          assert add[..0] == [];
      }
    }
  }

  lemma OneMoreHost(front: seq<Task>, last: Task, ip: string, port: Port)
    ensures HostsOn(front + [last], ip, port) == HostsOn(front, ip, port) + if Hosts(last, ip, port) then 1 else 0
  {
    var tasks := front + [last];
    var before := set i | 0 <= i < |front| && Hosts(front[i], ip, port);
    var at := set i | 0 <= i < |tasks| && Hosts(tasks[i], ip, port);
    var added := if Hosts(last, ip, port) then {|front|} else {};
    forall i ensures i in at <==> i in before + added {
      if 0 <= i < |front| {
        assert tasks[i] == front[i];
      }
    }
    assert at == before + added && before !! added;
  }

  lemma Distribute(n: int, a: int, b: int)
    ensures n * (a + b) == n * a + n * b
  {
  }

  /** The entries of the expanded list on a node and port, for all port lists. */
  lemma {:induction false} ExpandedAt(items: seq<PublishConfig>, ports: seq<PortConfig>, targetPort: int, ip: string, port: Port)
    ensures At(Expanded(items, ports, targetPort), ip, port) == At(items, ip, port) + On(items, ip) * Share(ports, targetPort, port)
  {
    if |ports| == 0 {
    } else {
      var front, last := ports[..|ports| - 1], ports[|ports| - 1];
      ExpandedAt(items, front, targetPort, ip, port);
      if Matching(last, targetPort) {
        var before := Expanded(items, front, targetPort);
        CountsConcat(before, Repeated(before, last), ip, port);
        CountsRepeated(before, last, ip, port);
        ExpandedOn(items, front, targetPort, ip);
        Distribute(On(items, ip), Share(front, targetPort, port), Powers.Pow2(MatchCount(front, targetPort)));
      }
    }
  }

  lemma {:induction false} TargetsTally(items: seq<PublishConfig>, ip: string, port: Port)
    ensures Tally(TargetsOf(items), ip, port) == if port == 0 then 0 else At(items, ip, port)
  {
    if |items| == 0 {
    } else {
      var front, last := items[..|items| - 1], items[|items| - 1];
      TargetsTally(front, ip, port);
      var add := if last.portConfig.publishedPort != 0 then [Target(last.ip, last.portConfig.publishedPort, 0)] else [];
      TallyConcat(TargetsOf(front), add, ip, port);
    }
  }

  /** The weight that a node and port get after SetTargetWeight, in general. */
  lemma WeightFormula(tasks: seq<Task>, ports: seq<PortConfig>, targetPort: int, wt: seq<Target>, ip: string, port: Port, w: int)
    requires ColonFree(TargetsOf(Expanded(Published(tasks), ports, targetPort)))
    requires IsWeighting(TargetsOf(Expanded(Published(tasks), ports, targetPort)), wt)
    requires port != 0
    ensures Target(ip, port, w) in wt <==>
      && w > 0
      && w == HostsOn(tasks, ip, port) + TasksOn(tasks, ip) * Share(ports, targetPort, port)
  {
    PublishedOn(tasks, ip);
    PublishedAt(tasks, ip, port);
    var items := Expanded(Published(tasks), ports, targetPort);
    var targets := TargetsOf(items);
    WeightingIsTally(targets, wt);
    TargetsTally(items, ip, port);
    ExpandedAt(Published(tasks), ports, targetPort, ip, port);
    TallyPresent(targets, ip, port);
    WeightedMembers(targets, ip, port, w);
    assert Target(ip, port, w) in wt <==> Target(ip, port, w) in (set t | t in wt);
  }

  lemma WeightedMembers(ts: seq<Target>, host: string, port: Port, w: int)
    ensures Target(host, port, w) in Weighted(ts) <==> w > 0 && w == Tally(ts, host, port)
  {
    TallyPresent(ts, host, port);
    if w > 0 && w == Tally(ts, host, port) {
      var t :| t in ts && t.host == host && t.port == port;
      assert Tallied(ts, t) in Weighted(ts);
    }
  }

  /** A port with another target port, or in another mode, adds nothing. */
  lemma {:induction false} OtherPortAddsNothing(items: seq<PublishConfig>, a: seq<PortConfig>, p: PortConfig, b: seq<PortConfig>, targetPort: int)
    requires p.targetPort != targetPort || p.mode != Ingress
    ensures Expanded(items, a + [p] + b, targetPort) == Expanded(items, a + b, targetPort)
    decreases |b|
  {
    var with, without := a + [p] + b, a + b;
    if |b| == 0 {
      assert with[..|with| - 1] == a && without == a;
    } else {
      var front := b[..|b| - 1];
      assert with[..|with| - 1] == a + [p] + front && without[..|without| - 1] == a + front;
      OtherPortAddsNothing(items, a, p, front, targetPort);
    }
  }

  lemma {:induction false} OtherPortsAddNothing(items: seq<PublishConfig>, ports: seq<PortConfig>, targetPort: int)
    requires forall p | p in ports :: p.targetPort != targetPort || p.mode != Ingress
    ensures Expanded(items, ports, targetPort) == items
    decreases |ports|
  {
    if |ports| == 0 {
    } else {
      var front, last := ports[..|ports| - 1], ports[|ports| - 1];
      OtherPortsAddNothing(items, front, targetPort);
      OtherPortAddsNothing(items, front, last, [], targetPort);
      assert front + [last] + [] == ports && front + [] == front;
    }
  }

  /** The one port of the service with the target port of the label and in ingress mode: every
      item once more, on its published port, and nothing else. */
  lemma {:induction false} OneIngressPort(items: seq<PublishConfig>, a: seq<PortConfig>, port: PortConfig, b: seq<PortConfig>, targetPort: int)
    requires port.targetPort == targetPort && port.mode == Ingress
    requires forall p | p in a + b :: p.targetPort != targetPort || p.mode != Ingress
    ensures
      var r := Expanded(items, a + [port] + b, targetPort);
      && |r| == 2 * |items| && r[..|items|] == items
      && forall k | 0 <= k < |items| :: r[|items| + k] == PublishConfig(items[k].ip, port)
    decreases |b|
  {
    var ports := a + [port] + b;
    if |b| == 0 {
      assert ports[..|ports| - 1] == a;
      OtherPortsAddNothing(items, a, targetPort);
    } else {
      var front, last := b[..|b| - 1], b[|b| - 1];
      assert last in a + b && forall p | p in a + front :: p in a + b;
      OneIngressPort(items, a, port, front, targetPort);
      assert ports[..|ports| - 1] == a + [port] + front;
    }
  }

  /** The targets of the message, when exactly one port of the service has the target port of the
      label and is in ingress mode: each node address on the published port once per task on
      it, and the ports that the tasks publish themselves. */
  lemma OneIngressPortTargets(tasks: seq<Task>, a: seq<PortConfig>, port: PortConfig, b: seq<PortConfig>, portLabel: string, ip: string, q: Port)
    requires port.targetPort == Decimal.Atoi(portLabel) && port.mode == Ingress && port.publishedPort != 0
    requires forall p | p in a + b :: p.targetPort != Decimal.Atoi(portLabel) || p.mode != Ingress
    ensures
      Tally(TargetsOf(Expanded(Published(tasks), a + [port] + b, Decimal.Atoi(portLabel))), ip, q) ==
        if q == 0 then 0
        else HostsOn(tasks, ip, q) + if q == port.publishedPort then TasksOn(tasks, ip) else 0
  {
    var items := Published(tasks);
    TargetsTally(Expanded(items, a + [port] + b, Decimal.Atoi(portLabel)), ip, q);
    if q != 0 {
      PublishedAt(tasks, ip, q);
      PublishedOn(tasks, ip);
      OneIngressPortCounts(items, a, port, b, Decimal.Atoi(portLabel), ip, q);
    }
  }

  lemma OneIngressPortCounts(items: seq<PublishConfig>, a: seq<PortConfig>, port: PortConfig, b: seq<PortConfig>, targetPort: int, ip: string, q: Port)
    requires port.targetPort == targetPort && port.mode == Ingress
    requires forall p | p in a + b :: p.targetPort != targetPort || p.mode != Ingress
    ensures At(Expanded(items, a + [port] + b, targetPort), ip, q) == At(items, ip, q) + if q == port.publishedPort then On(items, ip) else 0
  {
    OneIngressPort(items, a, port, b, targetPort);
    TwiceIsRepeated(items, port, Expanded(items, a + [port] + b, targetPort));
    CountsConcat(items, Repeated(items, port), ip, q);
    CountsRepeated(items, port, ip, q);
  }

  lemma TwiceIsRepeated(items: seq<PublishConfig>, port: PortConfig, r: seq<PublishConfig>)
    requires |r| == 2 * |items| && r[..|items|] == items
    requires forall k | 0 <= k < |items| :: r[|items| + k] == PublishConfig(items[k].ip, port)
    ensures r == items + Repeated(items, port)
  {
    assert forall k | 0 <= k < |items| :: r[k] == r[..|items|][k];
    assert forall k | |items| <= k < |r| :: r[k] == r[|items| + (k - |items|)];
  }

  predicate NoHostPorts(tasks: seq<Task>) {
    forall t | t in tasks && |t.ports| > 0 :: t.ports[|t.ports| - 1].publishedPort == 0
  }

  lemma NoHostPortsMeansNone(tasks: seq<Task>, ip: string, port: Port)
    requires NoHostPorts(tasks) && port != 0
    ensures HostsOn(tasks, ip, port) == 0 && At(Published(tasks), ip, port) == 0
  {
    PublishedAt(tasks, ip, port);
    forall i | 0 <= i < |tasks| ensures !Hosts(tasks[i], ip, port) {
      assert tasks[i] in tasks;
    }
    assert (set i | 0 <= i < |tasks| && Hosts(tasks[i], ip, port)) == {};
  }

  /** With one matching ingress port and no port published by the tasks themselves, the weight
      of a node address is its number of tasks. */
  lemma OnePortWeighsTasks(tasks: seq<Task>, ports: seq<PortConfig>, targetPort: int, published: Port, wt: seq<Target>, ip: string, w: int)
    requires NoHostPorts(tasks) && published != 0
    requires MatchCount(ports, targetPort) == 1 && exists p :: p in ports && Matching(p, targetPort) && p.publishedPort == published
    requires ColonFree(TargetsOf(Expanded(Published(tasks), ports, targetPort)))
    requires IsWeighting(TargetsOf(Expanded(Published(tasks), ports, targetPort)), wt)
    ensures Target(ip, published, w) in wt <==> w > 0 && w == TasksOn(tasks, ip)
  {
    WeightFormula(tasks, ports, targetPort, wt, ip, published, w);
    NoHostPortsMeansNone(tasks, ip, published);
    ShareOfOnly(ports, targetPort, published);
    TimesOne(TasksOn(tasks, ip), Share(ports, targetPort, published));
  }

  lemma TimesOne(n: int, s: int)
    requires s == 1
    ensures n * s == n
  {
  }

  lemma ShareOfOnly(ports: seq<PortConfig>, targetPort: int, published: Port)
    requires MatchCount(ports, targetPort) == 1 && exists p :: p in ports && Matching(p, targetPort) && p.publishedPort == published
    ensures Share(ports, targetPort, published) == 1
  {
    var p :| p in ports && Matching(p, targetPort) && p.publishedPort == published;
    var j :| 0 <= j < |ports| && ports[j] == p;
    ShareOfSingle(ports, targetPort, j);
  }

  lemma {:induction false} MatchCountAtLeast(ports: seq<PortConfig>, targetPort: int, j: nat)
    requires j < |ports| && Matching(ports[j], targetPort)
    ensures MatchCount(ports, targetPort) > MatchCount(ports[..j], targetPort)
  {
    var front := ports[..|ports| - 1];
    if j == |ports| - 1 {
    } else {
      assert front[..j] == ports[..j];
      MatchCountAtLeast(front, targetPort, j);
    }
  }

  lemma {:induction false} ShareOfNone(ports: seq<PortConfig>, targetPort: int, published: Port)
    requires forall j | 0 <= j < |ports| && Matching(ports[j], targetPort) :: ports[j].publishedPort != published
    ensures Share(ports, targetPort, published) == 0
  {
    if |ports| == 0 {
    } else {
      ShareOfNone(ports[..|ports| - 1], targetPort, published);
    }
  }

  ghost predicate DistinctlyPublished(ports: seq<PortConfig>, targetPort: int) {
    forall i, j | 0 <= i < j < |ports| && Matching(ports[i], targetPort) && Matching(ports[j], targetPort) ::
      ports[i].publishedPort != ports[j].publishedPort
  }

  /** The j-th matching port carries 2^j copies of the tasks: later ports weigh more. */
  lemma {:induction false} ShareDoubles(ports: seq<PortConfig>, targetPort: int, j: nat)
    requires DistinctlyPublished(ports, targetPort)
    requires j < |ports| && Matching(ports[j], targetPort)
    ensures Share(ports, targetPort, ports[j].publishedPort) == Powers.Pow2(MatchCount(ports[..j], targetPort))
  {
    var front := ports[..|ports| - 1];
    if j == |ports| - 1 {
      ShareOfNone(front, targetPort, ports[j].publishedPort);
    } else {
      assert front[..j] == ports[..j];
      ShareDoubles(front, targetPort, j);
    }
  }

  lemma {:induction false} NoOtherMatch(ports: seq<PortConfig>, targetPort: int, i: nat, j: nat)
    requires MatchCount(ports, targetPort) <= 1
    requires i < j < |ports| && Matching(ports[i], targetPort)
    ensures !Matching(ports[j], targetPort)
  {
    if Matching(ports[j], targetPort) {
      MatchCountAtLeast(ports, targetPort, j);
      MatchCountAtLeast(ports[..j], targetPort, i);
    }
  }

  lemma ShareOfSingle(ports: seq<PortConfig>, targetPort: int, j: nat)
    requires MatchCount(ports, targetPort) == 1
    requires j < |ports| && Matching(ports[j], targetPort)
    ensures Share(ports, targetPort, ports[j].publishedPort) == 1
  {
    forall i, k | 0 <= i < k < |ports| && Matching(ports[i], targetPort) ensures !Matching(ports[k], targetPort) {
      NoOtherMatch(ports, targetPort, i, k);
    }
    ShareDoubles(ports, targetPort, j);
    MatchCountAtLeast(ports, targetPort, j);
  }

  /** Every matching port carries at least the copies made when it was added. */
  lemma {:induction false} ShareAtLeast(ports: seq<PortConfig>, targetPort: int, j: nat)
    requires j < |ports| && Matching(ports[j], targetPort)
    ensures Share(ports, targetPort, ports[j].publishedPort) >= Powers.Pow2(MatchCount(ports[..j], targetPort))
  {
    var front := ports[..|ports| - 1];
    if j == |ports| - 1 {
    } else {
      assert front[..j] == ports[..j];
      ShareAtLeast(front, targetPort, j);
    }
  }

  /** A node has its number of tasks as its weight on every matching port exactly when at most
      one port matches, it is published, and no task of the node publishes it itself. Two
      matching ports may have the same published port, as for tcp and udp. */
  lemma WeightsAreTaskCountsIffOneMatch(tasks: seq<Task>, ports: seq<PortConfig>, targetPort: int, wt: seq<Target>, ip: string)
    requires TasksOn(tasks, ip) > 0
    requires ColonFree(TargetsOf(Expanded(Published(tasks), ports, targetPort)))
    requires IsWeighting(TargetsOf(Expanded(Published(tasks), ports, targetPort)), wt)
    requires forall p | p in ports && Matching(p, targetPort) :: p.publishedPort != 0
    ensures (forall p | p in ports && Matching(p, targetPort) :: Target(ip, p.publishedPort, TasksOn(tasks, ip)) in wt)
      <==>
      && MatchCount(ports, targetPort) <= 1
      && forall p | p in ports && Matching(p, targetPort) :: HostsOn(tasks, ip, p.publishedPort) == 0
  {
    var n := TasksOn(tasks, ip);
    forall p | p in ports && Matching(p, targetPort)
      ensures Target(ip, p.publishedPort, n) in wt
        <==> HostsOn(tasks, ip, p.publishedPort) == 0 && Share(ports, targetPort, p.publishedPort) == 1
    {
      WeighsTasksIff(tasks, ports, targetPort, wt, ip, p);
    }
    if MatchCount(ports, targetPort) >= 2 {
      var j := SecondMatch(ports, targetPort);
      ShareAtLeast(ports, targetPort, j);
      assert ports[j] in ports;
    } else {
      forall p | p in ports && Matching(p, targetPort) ensures Share(ports, targetPort, p.publishedPort) == 1 {
        OnlyMatch(ports, targetPort, p);
      }
    }
  }

  lemma OnlyMatch(ports: seq<PortConfig>, targetPort: int, p: PortConfig)
    requires p in ports && Matching(p, targetPort) && MatchCount(ports, targetPort) <= 1
    ensures Share(ports, targetPort, p.publishedPort) == 1
  {
    var j :| 0 <= j < |ports| && ports[j] == p;
    MatchCountAtLeast(ports, targetPort, j);
    ShareOfOnly(ports, targetPort, p.publishedPort);
  }

  /** On one matching port. */
  lemma WeighsTasksIff(tasks: seq<Task>, ports: seq<PortConfig>, targetPort: int, wt: seq<Target>, ip: string, p: PortConfig)
    requires TasksOn(tasks, ip) > 0 && p in ports && Matching(p, targetPort) && p.publishedPort != 0
    requires ColonFree(TargetsOf(Expanded(Published(tasks), ports, targetPort)))
    requires IsWeighting(TargetsOf(Expanded(Published(tasks), ports, targetPort)), wt)
    ensures Target(ip, p.publishedPort, TasksOn(tasks, ip)) in wt
      <==> HostsOn(tasks, ip, p.publishedPort) == 0 && Share(ports, targetPort, p.publishedPort) == 1
  {
    var j :| 0 <= j < |ports| && ports[j] == p;
    WeightFormula(tasks, ports, targetPort, wt, ip, p.publishedPort, TasksOn(tasks, ip));
    ShareAtLeast(ports, targetPort, j);
    SumIsFactor(HostsOn(tasks, ip, p.publishedPort), TasksOn(tasks, ip), Share(ports, targetPort, p.publishedPort));
  }

  lemma SumIsFactor(a: nat, n: nat, s: nat)
    requires n > 0 && s >= 1
    ensures n == a + n * s <==> a == 0 && s == 1
  {
    if s > 1 {
      Distribute(n, 1, s - 1);
    }
  }

  lemma {:induction false} SecondMatch(ports: seq<PortConfig>, targetPort: int) returns (j: nat)
    requires MatchCount(ports, targetPort) >= 2
    ensures j < |ports| && Matching(ports[j], targetPort) && MatchCount(ports[..j], targetPort) >= 1
  {
    var front := ports[..|ports| - 1];
    if MatchCount(front, targetPort) >= 2 {
      j := SecondMatch(front, targetPort);
      assert front[..j] == ports[..j];
    } else {
      j := |ports| - 1;
    }
  }
}
