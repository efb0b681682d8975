/** The two encodings of the killswitch policy agree: pf's evaluation of the rules and the state predicate. */
module PfAgreement {
  import opened Addresses
  import opened Arith
  import opened Bytes
  import opened PfPolicy

  // ---- The policy, said once more without rules ----

  /** 10.0.0.0 to 10.255.255.255, 172.16.0.0 to 172.31.255.255, 192.168.0.0 to 192.168.255.255; fc00:: and fe80:: on. */
  predicate InLan(ip: Ip) {
    match ip
    case V4(bits) =>
      || 0x0a00_0000 <= bits <= 0x0aff_ffff
      || 0xac10_0000 <= bits <= 0xac1f_ffff
      || 0xc0a8_0000 <= bits <= 0xc0a8_ffff
    case V6(bits) =>
      || (0xfc00_0000_0000_0000_0000_0000_0000_0000 <= bits <= 0xfdff_ffff_ffff_ffff_ffff_ffff_ffff_ffff)
      || (0xfe80_0000_0000_0000_0000_0000_0000_0000 <= bits <= 0xfebf_ffff_ffff_ffff_ffff_ffff_ffff_ffff)
  }

  /** 127.0.0.0 to 127.255.255.255, or ::1. */
  predicate OnHost(ip: Ip) {
    if ip.V4? then 0x7f00_0000 <= ip.bits <= 0x7fff_ffff else ip.bits == 1
  }

  predicate IsDhcp(proto: Proto, port: nat) {
    proto == Udp && (port == 67 || port == 68)
  }

  /** The destinations any process may reach on any interface. */
  predicate OpenDestination(opts: Opts, proto: Proto, remote: Ip, port: nat) {
    (opts.allowLan && InLan(remote)) || (opts.allowDhcp && IsDhcp(proto, port))
  }

  predicate IsCarrier(opts: Opts, proto: Proto, remote: Ip) {
    proto == Udp && remote in opts.exitAddrs
  }

  /** Loopback, the tunnel, the carrier within its scope, and the open destinations. */
  predicate Allowed(opts: Opts, p: Packet) {
    || p.iface == "lo0"
    || p.iface == opts.tunName
    || (&& IsCarrier(opts, p.proto, p.remote)
        && (opts.physIface.None? || opts.physIface.value == p.iface)
        && (opts.carrierUid.None? || p.owner == opts.carrierUid))
    || OpenDestination(opts, p.proto, p.remote, p.port)
  }

  // ---- Evaluating the rules ----

  predicate AnyMatch(rs: seq<Rule>, p: Packet) {
    if rs == [] then false else Matches(rs[0], p) || AnyMatch(rs[1..], p)
  }

  predicate QuickPasses(rs: seq<Rule>) {
    forall i | 0 <= i < |rs| :: rs[i].quick && rs[i].pass
  }

  lemma {:induction false} AnyMatchConcat(a: seq<Rule>, b: seq<Rule>, p: Packet)
    ensures AnyMatch(a + b, p) <==> AnyMatch(a, p) || AnyMatch(b, p)
  {
    hide Matches;
    if a == [] {
      assert a + b == b;
    } else {
      assert (a + b)[1..] == a[1..] + b;
      AnyMatchConcat(a[1..], b, p);
    }
  }

  lemma {:induction false} EvaluateQuickPasses(rs: seq<Rule>, p: Packet, verdict: bool)
    requires QuickPasses(rs)
    ensures Evaluate(rs, p, verdict) <==> verdict || AnyMatch(rs, p)
  {
    hide Matches;
    if rs != [] && !Matches(rs[0], p) {
      EvaluateQuickPasses(rs[1..], p, verdict);
    }
  }

  lemma {:induction false} CarrierMatch(opts: Opts, addrs: seq<Ip>, p: Packet)
    ensures AnyMatch(CarrierRules(opts, addrs), p) <==>
            && p.proto == Udp && p.remote in addrs
            && (opts.physIface.None? || opts.physIface.value == p.iface)
            && (opts.carrierUid.None? || p.owner == opts.carrierUid)
  {
    if addrs != [] {
      HostNetIsHost(addrs[0], p.remote);
      CarrierMatch(opts, addrs[1..], p);
    }
  }

  lemma HostNetIsHost(host: Ip, ip: Ip)
    ensures Contains(HostNet(host), ip) <==> ip == host
  {
    assert Pow2(0) == 1;
  }

  lemma LanMatch(p: Packet)
    ensures AnyMatch(LanRules(), p) <==> InLan(p.remote)
    ensures AnyMatch(DhcpRules(), p) <==> IsDhcp(p.proto, p.port)
  {
    LanRanges(p.remote);
    hide Contains, InLan;
    assert LAN4[0].Net4? && LAN6[0].Net6? && LAN6[1].Net6?;
    NetFamily(LAN6[0], p.remote);
    NetFamily(LAN6[1], p.remote);
    FiveRules(LanRules(), p);
    TwoRules(DhcpRules(), p);
  }

  /** The five networks are the five ranges. */
  lemma LanRanges(ip: Ip)
    ensures InLan(ip) <==>
            || Contains(LAN4[0], ip) || Contains(LAN4[1], ip) || Contains(LAN4[2], ip)
            || Contains(LAN6[0], ip) || Contains(LAN6[1], ip)
  {
    LargePowers();
    hide Pow2;
    if ip.V4? {
      NetIsRange(ip.bits, 0x0a, 0x100_0000);
      NetIsRange(ip.bits, 0xac1, 0x10_0000);
      NetIsRange(ip.bits, 0xc0a8, 0x1_0000);
    } else {
      NetIsRange(ip.bits, 0x7e, 0x200_0000_0000_0000_0000_0000_0000_0000);
      NetIsRange(ip.bits, 0x3fa, 0x40_0000_0000_0000_0000_0000_0000_0000);
    }
  }

  /** The addresses whose front is `front` are one range. */
  lemma NetIsRange(bits: nat, front: nat, size: nat)
    requires size > 0
    ensures bits / size == front <==> front * size <= bits < (front + 1) * size
  {
    if front * size <= bits < (front + 1) * size {
      DivUnique(bits, size, front);
    }
  }

  lemma NetFamily(net: Net, ip: Ip)
    ensures net.Net6? && Contains(net, ip) ==> ip.V6?
  {
  }

  lemma TwoRules(rs: seq<Rule>, p: Packet)
    requires |rs| == 2
    ensures AnyMatch(rs, p) <==> Matches(rs[0], p) || Matches(rs[1], p)
  {
    hide Matches;
    assert AnyMatch(rs[1..], p) == Matches(rs[1], p);
  }

  lemma FiveRules(rs: seq<Rule>, p: Packet)
    requires |rs| == 5
    ensures AnyMatch(rs, p) <==>
            Matches(rs[0], p) || Matches(rs[1], p) || Matches(rs[2], p) || Matches(rs[3], p) || Matches(rs[4], p)
  {
    hide Matches;
    TwoRules(rs[3..], p);
    assert rs[2..][1..] == rs[3..] && rs[1..][1..] == rs[2..];
    assert AnyMatch(rs[2..], p) == (Matches(rs[2], p) || AnyMatch(rs[3..], p));
    assert AnyMatch(rs[1..], p) == (Matches(rs[1], p) || AnyMatch(rs[2..], p));
  }

  /** The rules pass exactly the allowed packets, for every option set. */
  lemma RulesAreThePolicy(opts: Opts, p: Packet)
    ensures Passes(Specs(opts), p) <==> Allowed(opts, p)
  {
    var lan := if opts.allowLan then LanRules() else [];
    var dhcp := if opts.allowDhcp then DhcpRules() else [];
    var carrier := CarrierRules(opts, opts.exitAddrs);
    var lo, tun := Pass(Some("lo0"), false, false, None), Pass(Some(opts.tunName), false, false, None);
    var rest := [lo, tun] + (carrier + (lan + dhcp));
    CarrierMatch(opts, opts.exitAddrs, p);
    LanMatch(p);
    hide LanRules, DhcpRules, CarrierRules, InLan;
    assert Specs(opts) == [BLOCK] + rest;
    AllQuickAfterBlock(opts);
    BlockMatches(p);
    hide Specs;
    assert Specs(opts)[1..] == rest;
    EvaluateQuickPasses(rest, p, false);
    AnyMatchConcat([lo, tun], carrier + (lan + dhcp), p);
    AnyMatchConcat(carrier, lan + dhcp, p);
    AnyMatchConcat(lan, dhcp, p);
    TwoRules([lo, tun], p);
  }

  // ---- Judging a state entry ----

  lemma {:induction false} PermitsConcat(a: seq<PermittedFlow>, b: seq<PermittedFlow>, v: StateView)
    ensures Permits(a + b, v) <==> Permits(a, v) || Permits(b, v)
  {
    hide FlowMatches;
    if Permits(a, v) {
      var f :| f in a && !f.ifaceScoped && FlowMatches(f, v);
      assert f in a + b;
    }
    if Permits(b, v) {
      var f :| f in b && !f.ifaceScoped && FlowMatches(f, v);
      assert f in a + b;
    }
  }

  /** A rule permits a state when it is an unscoped pass with a destination that covers it. */
  predicate Provable(r: Rule, v: StateView) {
    r.pass && r.iface.None? && r.dest.Some? &&
    Matches(r.(uid := None), Packet("", None, v.proto, v.remote.ip, v.remote.port))
  }

  predicate AnyProvable(rs: seq<Rule>, v: StateView) {
    if rs == [] then false else Provable(rs[0], v) || AnyProvable(rs[1..], v)
  }

  lemma {:induction false} PermitsProvable(rs: seq<Rule>, v: StateView)
    ensures Permits(FlowsOf(rs), v) <==> AnyProvable(rs, v)
  {
    if rs != [] {
      PermitsConcat(FlowOf(rs[0]), FlowsOf(rs[1..]), v);
      PermitsProvable(rs[1..], v);
      FlowOfProvable(rs[0], v);
    }
  }

  lemma FlowOfProvable(r: Rule, v: StateView)
    ensures Permits(FlowOf(r), v) <==> Provable(r, v)
  {
    hide Contains;
    if FlowOf(r) != [] {
      assert FlowOf(r)[0] in FlowOf(r);
    }
  }

  lemma {:induction false} AnyProvableConcat(a: seq<Rule>, b: seq<Rule>, v: StateView)
    ensures AnyProvable(a + b, v) <==> AnyProvable(a, v) || AnyProvable(b, v)
  {
    hide Provable;
    if a == [] {
      assert a + b == b;
    } else {
      assert (a + b)[1..] == a[1..] + b;
      AnyProvableConcat(a[1..], b, v);
    }
  }

  /** On unscoped rules, what is provable from a state is what matches a packet without owner or interface. */
  lemma {:induction false} ProvableIsMatch(rs: seq<Rule>, v: StateView)
    requires forall i | 0 <= i < |rs| :: rs[i].pass && rs[i].iface.None? && rs[i].uid.None? && rs[i].dest.Some?
    ensures AnyProvable(rs, v) <==> AnyMatch(rs, Packet("", None, v.proto, v.remote.ip, v.remote.port))
  {
    hide Matches;
    if rs != [] {
      ProvableIsMatch(rs[1..], v);
      assert rs[0].(uid := None) == rs[0];
    }
  }

  lemma {:induction false} ProvableCarrier(opts: Opts, addrs: seq<Ip>, v: StateView)
    ensures AnyProvable(CarrierRules(opts, addrs), v) <==>
            opts.physIface.None? && v.proto == Udp && v.remote.ip in addrs
  {
    if addrs != [] {
      HostNetIsHost(addrs[0], v.remote.ip);
      ProvableCarrier(opts, addrs[1..], v);
    }
  }

  /** The state predicate, said without rules. */
  lemma PermitsIsThePolicy(opts: Opts, v: StateView)
    ensures Permits(FromOpts(opts), v) <==>
            || OpenDestination(opts, v.proto, v.remote.ip, v.remote.port)
            || (opts.physIface.None? && IsCarrier(opts, v.proto, v.remote.ip))
  {
    var lan := if opts.allowLan then LanRules() else [];
    var dhcp := if opts.allowDhcp then DhcpRules() else [];
    var carrier := CarrierRules(opts, opts.exitAddrs);
    var lo, tun := Pass(Some("lo0"), false, false, None), Pass(Some(opts.tunName), false, false, None);
    PermitsProvable(Specs(opts), v);
    AnyProvableConcat([BLOCK, lo, tun], carrier + (lan + dhcp), v);
    AnyProvableConcat(carrier, lan + dhcp, v);
    AnyProvableConcat(lan, dhcp, v);
    ProvableCarrier(opts, opts.exitAddrs, v);
    ProvableIsMatch(lan, v);
    ProvableIsMatch(dhcp, v);
    LanMatch(Packet("", None, v.proto, v.remote.ip, v.remote.port));
    NothingProvable([BLOCK, lo, tun], v);
  }

  lemma {:induction false} NothingProvable(rs: seq<Rule>, v: StateView)
    requires forall i | 0 <= i < |rs| :: rs[i].dest.None?
    ensures !AnyProvable(rs, v)
  {
    if rs != [] {
      NothingProvable(rs[1..], v);
    }
  }

  // ---- Agreement ----

  function PacketOf(v: StateView, iface: string, owner: Option<nat>): (p: Packet)
  {
    Packet(iface, owner, v.proto, v.remote.ip, v.remote.port)
  }

  /** The rules pass this flow whatever interface it leaves by and whoever owns its socket. */
  ghost predicate PassesEverywhere(opts: Opts, v: StateView) {
    forall iface: string, owner: Option<nat> :: Passes(Specs(opts), PacketOf(v, iface, owner))
  }

  /** An interface no rule names. */
  function FreshIface(opts: Opts): (name: string)
    ensures name != "lo0" && name != opts.tunName && Some(name) != opts.physIface
  {
    var phys := if opts.physIface.Some? then opts.physIface.value else "";
    var name := "lo0" + opts.tunName + phys + "x";
    assert |name| > |opts.tunName| && |name| > |phys| && |name| > 3;
    name
  }

  lemma EverywhereIsThePolicy(opts: Opts, v: StateView)
    ensures PassesEverywhere(opts, v) <==>
            || OpenDestination(opts, v.proto, v.remote.ip, v.remote.port)
            || (IsCarrier(opts, v.proto, v.remote.ip) && opts.physIface.None? && opts.carrierUid.None?)
  {
    hide Passes, Specs, OpenDestination, IsCarrier;
    var p := PacketOf(v, FreshIface(opts), None);
    RulesAreThePolicy(opts, p);
    assert PassesEverywhere(opts, v) ==> Passes(Specs(opts), p);
    forall iface: string, owner: Option<nat>
      ensures Passes(Specs(opts), PacketOf(v, iface, owner)) <==> Allowed(opts, PacketOf(v, iface, owner))
    {
      RulesAreThePolicy(opts, PacketOf(v, iface, owner));
    }
  }

  /** For every validated option set, a state is provably permitted exactly when the rules pass its flow everywhere. */
  lemma StatesAgreeWithRules(opts: Opts, v: StateView)
    requires Validated(opts)
    ensures Permits(FromOpts(opts), v) <==> PassesEverywhere(opts, v)
  {
    hide Permits, FromOpts, PassesEverywhere, OpenDestination, IsCarrier;
    PermitsIsThePolicy(opts, v);
    EverywhereIsThePolicy(opts, v);
  }

  /**
    * For options an install accepts, a state is kept exactly when both its ends lie on
    * the host or the rules pass it on every interface and for every owner.
    */
  lemma KeptExactly(opts: Opts, v: StateView)
    requires Validated(opts)
    ensures !StateMustBeKilled(v, FromOpts(opts)) <==>
            (OnHost(v.local.ip) && OnHost(v.remote.ip)) || PassesEverywhere(opts, v)
  {
    hide Permits, FromOpts, PassesEverywhere;
    LoopbackIsOnHost(v.local.ip);
    LoopbackIsOnHost(v.remote.ip);
    StatesAgreeWithRules(opts, v);
  }

  lemma LoopbackIsOnHost(ip: Ip)
    ensures IsLoopback(ip) <==> OnHost(ip)
  {
    NetIsRange(ip.bits, 127, 0x100_0000);
  }

  ghost predicate Agreement(opts: Opts) {
    forall v :: Permits(FromOpts(opts), v) <==> PassesEverywhere(opts, v)
  }

  /**
    * Without validation the two encodings agree exactly when the carrier pass has an
    * interface, or has no owner, or every exit lies in the open LAN anyway: an owner
    * scope alone is invisible to the state predicate.
    */
  lemma AgreementExact(opts: Opts)
    ensures Agreement(opts) <==>
            || opts.physIface.Some?
            || opts.carrierUid.None?
            || (forall a | a in opts.exitAddrs :: opts.allowLan && InLan(a))
  {
    hide Permits, FromOpts, PassesEverywhere, InLan;
    forall v
      ensures Permits(FromOpts(opts), v) <==>
              OpenDestination(opts, v.proto, v.remote.ip, v.remote.port) ||
              (opts.physIface.None? && IsCarrier(opts, v.proto, v.remote.ip))
      ensures PassesEverywhere(opts, v) <==>
              OpenDestination(opts, v.proto, v.remote.ip, v.remote.port) ||
              (IsCarrier(opts, v.proto, v.remote.ip) && opts.physIface.None? && opts.carrierUid.None?)
    {
      PermitsIsThePolicy(opts, v);
      EverywhereIsThePolicy(opts, v);
    }
    if opts.physIface.None? && opts.carrierUid.Some? {
      if a :| a in opts.exitAddrs && !(opts.allowLan && InLan(a)) {
        var v := StateView(Endpoint(V4(0), 0), Endpoint(a, 1), Udp);
        assert Permits(FromOpts(opts), v) && !PassesEverywhere(opts, v);
      }
    }
  }

  /** An owner scope without an interface: a flow any process may have opened is kept, and the rules block it. */
  lemma OwnerAloneDisagrees()
    ensures var opts := Opts([V4(0xc633_6401)], "utun9", false, false, None, Some(0));
            var v := StateView(Endpoint(V4(0), 0), Endpoint(V4(0xc633_6401), 51820), Udp);
            Permits(FromOpts(opts), v) && !PassesEverywhere(opts, v)
  {
    var opts := Opts([V4(0xc633_6401)], "utun9", false, false, None, Some(0));
    var v := StateView(Endpoint(V4(0), 0), Endpoint(V4(0xc633_6401), 51820), Udp);
    hide Permits, FromOpts, PassesEverywhere;
    PermitsIsThePolicy(opts, v);
    EverywhereIsThePolicy(opts, v);
  }

  lemma {:induction false} NoBypassLeft(opts: Opts, survivors: seq<Survivor>)
    requires Validated(opts)
    ensures BypassSurvivors(survivors, FromOpts(opts)) == 0 <==>
            forall s | s in survivors ::
              && s.Readable?
              && ((OnHost(s.view.local.ip) && OnHost(s.view.remote.ip)) || PassesEverywhere(opts, s.view))
  {
    hide StateMustBeKilled, FromOpts, PassesEverywhere, OnHost;
    if survivors != [] {
      NoBypassLeft(opts, survivors[1..]);
      if survivors[0].Readable? {
        KeptExactly(opts, survivors[0].view);
      }
      assert survivors == [survivors[0]] + survivors[1..];
    }
  }

  /** A purge is confirmed when it leaves only states confined to the host or passed everywhere by the rules. */
  lemma ConfirmedLeavesNoBypass(opts: Opts, report: PurgeReport)
    requires Validated(opts)
    ensures Confirmed(report, FromOpts(opts)) <==>
            forall s | s in report.survivors ::
              && s.Readable?
              && ((OnHost(s.view.local.ip) && OnHost(s.view.remote.ip)) || PassesEverywhere(opts, s.view))
  {
    NoBypassLeft(opts, report.survivors);
  }

  /** An anchor without rules blocks nothing. */
  lemma EmptyAnchorPasses(p: Packet)
    ensures Passes([], p)
  {
  }

  /** Off the tunnel, a validated rule set passes only the daemon's own carrier and the opened destinations. */
  lemma OffTunnelIsScoped(opts: Opts, p: Packet)
    requires Validated(opts) && p.iface != "lo0" && p.iface != opts.tunName && Passes(Specs(opts), p)
    ensures
      || OpenDestination(opts, p.proto, p.remote, p.port)
      || (p.owner == opts.carrierUid && Some(p.iface) == opts.physIface && IsCarrier(opts, p.proto, p.remote))
  {
    RulesAreThePolicy(opts, p);
  }

  /** A front part of the rules that holds the blocking one, the first, passes nothing the whole would not. */
  lemma PartialLoadFailsClosed(opts: Opts, loaded: seq<Rule>, p: Packet)
    requires loaded <= Specs(opts) && loaded != [] && Passes(loaded, p)
    ensures Passes(Specs(opts), p)
  {
    var specs := Specs(opts);
    var front, back := loaded[1..], specs[|loaded|..];
    AllQuickAfterBlock(opts);
    hide Specs, Matches;
    assert specs[1..] == front + back;
    assert forall i | 0 <= i < |front| :: front[i] == specs[1..][i];
    assert Matches(BLOCK, p) by {
      BlockMatches(p);
    }
    EvaluateQuickPasses(front, p, false);
    EvaluateQuickPasses(specs[1..], p, false);
    AnyMatchConcat(front, back, p);
  }

  lemma BlockMatches(p: Packet)
    ensures Matches(BLOCK, p)
  {
  }

  lemma AllQuickAfterBlock(opts: Opts)
    ensures Specs(opts) != [] && Specs(opts)[0] == BLOCK && QuickPasses(Specs(opts)[1..])
  {
    var lan := if opts.allowLan then LanRules() else [];
    var dhcp := if opts.allowDhcp then DhcpRules() else [];
    var carrier := CarrierRules(opts, opts.exitAddrs);
    var lo, tun := Pass(Some("lo0"), false, false, None), Pass(Some(opts.tunName), false, false, None);
    CarrierQuick(opts, opts.exitAddrs);
    assert Specs(opts) == [BLOCK, lo, tun] + (carrier + (lan + dhcp));
    assert QuickPasses(lan) && QuickPasses(dhcp);
    hide Specs, CarrierRules, LanRules, DhcpRules;
    QuickConcat(lan, dhcp);
    QuickConcat(carrier, lan + dhcp);
    QuickConcat([lo, tun], carrier + (lan + dhcp));
    assert Specs(opts)[1..] == [lo, tun] + (carrier + (lan + dhcp));
  }

  lemma QuickConcat(a: seq<Rule>, b: seq<Rule>)
    requires QuickPasses(a) && QuickPasses(b)
    ensures QuickPasses(a + b)
  {
  }

  lemma {:induction false} CarrierQuick(opts: Opts, addrs: seq<Ip>)
    ensures QuickPasses(CarrierRules(opts, addrs))
  {
    if addrs != [] {
      CarrierQuick(opts, addrs[1..]);
    }
  }
}
