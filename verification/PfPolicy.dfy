/** The macOS killswitch policy: the ordered pf rules, and the predicate that judges pf state entries. */
module PfPolicy {
  import opened Addresses
  import opened Arith
  import opened Bytes

  // ---- Addresses ----

  /** A network: the addresses that share its first `len` bits. */
  datatype Net = Net4(base: nat, len: nat) | Net6(base: nat, len: nat)

  predicate Contains(net: Net, ip: Ip) {
    match net
    case Net4(base, len) => ip.V4? && len <= 32 && ip.bits / Pow2(32 - len) == base / Pow2(32 - len)
    case Net6(base, len) => ip.V6? && len <= 128 && ip.bits / Pow2(128 - len) == base / Pow2(128 - len)
  }

  /** 127.0.0.0/8, or exactly ::1. */
  predicate IsLoopback(ip: Ip) {
    (ip.V4? && ip.bits / 0x100_0000 == 127) || (ip.V6? && ip.bits == 1)
  }

  function HostNet(ip: Ip): (net: Net)
  {
    if ip.V4? then Net4(ip.bits, 32) else Net6(ip.bits, 128)
  }

  /** 10.0.0.0/8, 172.16.0.0/12 and 192.168.0.0/16. */
  const LAN4: seq<Net> := [Net4(0x0a00_0000, 8), Net4(0xac10_0000, 12), Net4(0xc0a8_0000, 16)]

  /** fc00::/7 and fe80::/10. */
  const LAN6: seq<Net> := [
    Net6(0xfc00_0000_0000_0000_0000_0000_0000_0000, 7),
    Net6(0xfe80_0000_0000_0000_0000_0000_0000_0000, 10)
  ]

  // ---- Options ----

  datatype Opts = Opts(
    exitAddrs: seq<Ip>,
    tunName: string,
    allowLan: bool,
    allowDhcp: bool,
    physIface: Option<string>,
    carrierUid: Option<nat>)

  predicate ValidTunName(name: string) {
    && 1 <= |name| <= 15
    && forall i | 0 <= i < |name| ::
         'a' <= name[i] <= 'z' || 'A' <= name[i] <= 'Z' || '0' <= name[i] <= '9' || name[i] == '_' || name[i] == '-'
  }

  /** Names an install takes, and names it does not: empty, too long, or with a character of another kind. */
  lemma TunNames()
    ensures ValidTunName("utun9") && ValidTunName("wg_0-A") && ValidTunName("abcdefghijklmno")
    ensures !ValidTunName("") && !ValidTunName("abcdefghijklmnop") && !ValidTunName("a b") && !ValidTunName("a.b")
    ensures forall addrs, lan, dhcp :: Validated(Opts(addrs, "utun9", lan, dhcp, Some("en0"), Some(0)))
  {
    assert "a b"[1] == ' ' && "a.b"[1] == '.';
  }

  /** The characters an interface name may hold, by their code points. */
  lemma TunNameChars(c: char)
    ensures ValidTunName([c]) <==>
            c as int == 45 || 48 <= c as int <= 57 || 65 <= c as int <= 90 || c as int == 95 || 97 <= c as int <= 122
  {
    assert [c][0] == c;
  }

  /** A name of such characters is accepted exactly from one to fifteen of them, and no other name is. */
  lemma TunNameLength(name: string)
    ensures ValidTunName(name) <==> 1 <= |name| <= 15 && forall i | 0 <= i < |name| :: ValidTunName([name[i]])
  {
    forall i | 0 <= i < |name|
      ensures [name[i]][0] == name[i]
    {
    }
    if forall i | 0 <= i < |name| :: ValidTunName([name[i]]) {
      forall i | 0 <= i < |name|
        ensures var c := name[i];
                'a' <= c <= 'z' || 'A' <= c <= 'Z' || '0' <= c <= '9' || c == '_' || c == '-'
      {
        assert ValidTunName([name[i]]) && [name[i]][0] == name[i];
      }
    }
  }

  /** The carrier pass must be scoped to an interface and to a process identity. */
  predicate ValidCarrierScope(opts: Opts) {
    opts.physIface.Some? && opts.carrierUid.Some?
  }

  predicate Validated(opts: Opts) {
    ValidTunName(opts.tunName) && ValidCarrierScope(opts)
  }

  // ---- Rules ----

  datatype Dest = ToNet(net: Net) | ToPort(port: nat)

  datatype Rule = Rule(
    pass: bool,
    quick: bool,
    iface: Option<string>,
    udp: bool,
    v6: bool,
    dest: Option<Dest>,
    uid: Option<nat>)

  /** The default block: first, and not quick, so that every pass below overrides it. */
  const BLOCK: Rule := Rule(false, false, None, false, false, None, None)

  function Pass(iface: Option<string>, udp: bool, v6: bool, dest: Option<Dest>): (r: Rule)
  {
    Rule(true, true, iface, udp, v6, dest, None)
  }

  function CarrierRule(opts: Opts, addr: Ip): (r: Rule)
  {
    Rule(true, true, opts.physIface, true, addr.V6?, Some(ToNet(HostNet(addr))), opts.carrierUid)
  }

  function CarrierRules(opts: Opts, addrs: seq<Ip>): (rs: seq<Rule>)
  {
    if addrs == [] then [] else [CarrierRule(opts, addrs[0])] + CarrierRules(opts, addrs[1..])
  }

  function LanRules(): (rs: seq<Rule>)
  {
    [Pass(None, false, false, Some(ToNet(LAN4[0]))),
     Pass(None, false, false, Some(ToNet(LAN4[1]))),
     Pass(None, false, false, Some(ToNet(LAN4[2]))),
     Pass(None, false, true, Some(ToNet(LAN6[0]))),
     Pass(None, false, true, Some(ToNet(LAN6[1])))]
  }

  function DhcpRules(): (rs: seq<Rule>)
  {
    [Pass(None, true, false, Some(ToPort(67))), Pass(None, true, false, Some(ToPort(68)))]
  }

  /** The ordered rule list. */
  function Specs(opts: Opts): (rs: seq<Rule>)
  {
    [BLOCK, Pass(Some("lo0"), false, false, None), Pass(Some(opts.tunName), false, false, None)] +
    (CarrierRules(opts, opts.exitAddrs) +
     ((if opts.allowLan then LanRules() else []) + (if opts.allowDhcp then DhcpRules() else [])))
  }

  method PfRuleSpecs(opts: Opts) returns (specs: seq<Rule>)
    ensures specs == Specs(opts)
  {
    specs := [BLOCK, Pass(Some("lo0"), false, false, None), Pass(Some(opts.tunName), false, false, None)];
    ghost var head := specs;
    assert opts.exitAddrs[0..] == opts.exitAddrs;
    for i := 0 to |opts.exitAddrs|
      invariant head + CarrierRules(opts, opts.exitAddrs) == specs + CarrierRules(opts, opts.exitAddrs[i..])
    {
      assert opts.exitAddrs[i..][1..] == opts.exitAddrs[i + 1..];
      specs := specs + [CarrierRule(opts, opts.exitAddrs[i])];
    }
    assert specs == head + CarrierRules(opts, opts.exitAddrs);
    if opts.allowLan {
      for i := 0 to |LAN4|
        invariant specs == head + CarrierRules(opts, opts.exitAddrs) + LanRules()[..i]
      {
        specs := specs + [Pass(None, false, false, Some(ToNet(LAN4[i])))];
      }
      for i := 0 to |LAN6|
        invariant specs == head + CarrierRules(opts, opts.exitAddrs) + LanRules()[..3 + i]
      {
        specs := specs + [Pass(None, false, true, Some(ToNet(LAN6[i])))];
      }
    }
    if opts.allowDhcp {
      specs := specs + [Pass(None, true, false, Some(ToPort(67)))];
      specs := specs + [Pass(None, true, false, Some(ToPort(68)))];
    }
  }

  // ---- What pf does with them ----

  datatype Proto = Udp | Tcp | Other

  /** What a rule can look at in an outbound packet; `owner` is the uid of its socket, when it has one. */
  datatype Packet = Packet(iface: string, owner: Option<nat>, proto: Proto, remote: Ip, port: nat)

  predicate DestMatches(d: Dest, remote: Ip, port: nat) {
    match d
    case ToNet(net) => Contains(net, remote)
    case ToPort(p) => port == p
  }

  predicate Matches(r: Rule, p: Packet) {
    && (r.iface.None? || r.iface.value == p.iface)
    && (r.udp ==> p.proto == Udp)
    && (r.v6 ==> p.remote.V6?)
    && (r.uid.None? || p.owner == r.uid)
    && (r.dest.None? || DestMatches(r.dest.value, p.remote, p.port))
  }

  /** pf's evaluation: the first quick match decides, else the last match, else `verdict`. */
  function Evaluate(rs: seq<Rule>, p: Packet, verdict: bool): (pass: bool)
  {
    if rs == [] then verdict
    else if !Matches(rs[0], p) then Evaluate(rs[1..], p, verdict)
    else if rs[0].quick then rs[0].pass
    else Evaluate(rs[1..], p, rs[0].pass)
  }

  /** pf passes what no rule matches. */
  predicate Passes(rs: seq<Rule>, p: Packet) {
    Evaluate(rs, p, true)
  }

  // ---- What the state purge decides ----

  datatype Endpoint = Endpoint(ip: Ip, port: nat)

  /** What pf remembers of a connection: no interface, no owner. */
  datatype StateView = StateView(local: Endpoint, remote: Endpoint, proto: Proto)

  /** What is left of a pass rule with a destination once its owner is forgotten. */
  datatype PermittedFlow = PermittedFlow(
    udpOnly: bool,
    v6Only: bool,
    dest: Option<Net>,
    destPort: Option<nat>,
    ifaceScoped: bool)

  predicate FlowMatches(f: PermittedFlow, v: StateView) {
    && (f.v6Only ==> v.remote.ip.V6?)
    && (f.udpOnly ==> v.proto == Udp)
    && (f.dest.None? || Contains(f.dest.value, v.remote.ip))
    && (f.destPort.None? || f.destPort.value == v.remote.port)
  }

  function FlowOf(r: Rule): (f: seq<PermittedFlow>)
  {
    if !r.pass then []
    else
      match r.dest
      case None => []
      case Some(ToNet(net)) => [PermittedFlow(r.udp, r.v6, Some(net), None, r.iface.Some?)]
      case Some(ToPort(port)) => [PermittedFlow(r.udp, r.v6, None, Some(port), r.iface.Some?)]
  }

  function FlowsOf(rs: seq<Rule>): (fs: seq<PermittedFlow>)
  {
    if rs == [] then [] else FlowOf(rs[0]) + FlowsOf(rs[1..])
  }

  function FromOpts(opts: Opts): (fs: seq<PermittedFlow>)
  {
    FlowsOf(Specs(opts))
  }

  /** Some pass rule without an interface scope covers the flow. */
  predicate Permits(fs: seq<PermittedFlow>, v: StateView) {
    exists f | f in fs :: !f.ifaceScoped && FlowMatches(f, v)
  }

  predicate IsLoopbackOnly(v: StateView) {
    IsLoopback(v.local.ip) && IsLoopback(v.remote.ip)
  }

  predicate StateMustBeKilled(v: StateView, fs: seq<PermittedFlow>) {
    !(IsLoopbackOnly(v) || Permits(fs, v))
  }

  datatype Survivor = Readable(view: StateView) | Unreadable

  datatype PurgeReport = PurgeReport(killed: nat, survivors: seq<Survivor>)

  predicate SurvivorIsBypass(s: Survivor, fs: seq<PermittedFlow>) {
    match s
    case Readable(view) => StateMustBeKilled(view, fs)
    case Unreadable => true
  }

  function BypassSurvivors(survivors: seq<Survivor>, fs: seq<PermittedFlow>): (n: nat)
  {
    if survivors == [] then 0
    else (if SurvivorIsBypass(survivors[0], fs) then 1 else 0) + BypassSurvivors(survivors[1..], fs)
  }

  /** The purge is confirmed when no survivor is a bypass. */
  predicate Confirmed(report: PurgeReport, fs: seq<PermittedFlow>) {
    BypassSurvivors(report.survivors, fs) == 0
  }
}
