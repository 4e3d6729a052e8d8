/** Proxy chains: `create_chain` (boltconn/src/proxy/dispatcher.rs) fixes the destination of every
    hop, and `ChainOutbound::spawn` (boltconn/src/adapter/chain.rs) wires the hops together,
    switching between stream and datagram channels as the hops demand. */
module Chain {
  import opened Common

  // ---------------------------------------------------------------- outbounds

  type Addr = nat

  datatype Kind = Direct | Socks5 | Http | Shadowsocks | Trojan | Wireguard | Ssh

  /** A proxy a chain entry resolves to: one that can be an outbound, with the address of its
      server, or one that cannot. */
  datatype ProxyImpl = Outbound(kind: Kind, server: Addr) | Reject | BlackHole | NestedChain

  /** `ProxyImpl::server_addr` */
  function ServerAddr(p: ProxyImpl): Option<Addr> {
    if p.Outbound? && p.kind != Direct then Some(p.server) else None
  }

  datatype TcpTransfer = OverTcp | TcpOverUdp

  datatype UdpTransfer = OverUdp | UdpOverTcp | NotApplicable

  /** `OutboundType::tcp_transfer_type` */
  function TcpTransferType(k: Kind): TcpTransfer { if k == Wireguard then TcpOverUdp else OverTcp }

  /** `OutboundType::udp_transfer_type` */
  function UdpTransferType(k: Kind): UdpTransfer {
    match k
    case Direct => NotApplicable
    case Socks5 => OverUdp
    case Http => NotApplicable
    case Shadowsocks => OverUdp
    case Trojan => UdpOverTcp
    case Wireguard => OverUdp
    case Ssh => NotApplicable
  }

  // ---------------------------------------------------------------- create_chain

  datatype Hop = Hop(kind: Kind, dst: Addr)

  /** Every entry can be an outbound, and every one but the last has a server of its own. */
  predicate Chainable(impls: seq<ProxyImpl>) {
    && (forall i :: 0 <= i < |impls| ==> impls[i].Outbound?)
    && (forall i :: 0 <= i < |impls| - 1 ==> ServerAddr(impls[i]).Some?)
  }

  /** `create_chain`: entry 0 gets the real target, every other one the server of its predecessor.
      (If the chain is A -> B -> C, the vector is [C, B, A].) */
  method CreateChain(impls: seq<ProxyImpl>, target: Addr) returns (r: Option<seq<Hop>>)
    ensures r.Some? <==> Chainable(impls)
    // that is, exactly if every entry is an outbound, and only the last may be direct
    ensures r.Some? <==> forall i :: 0 <= i < |impls| ==> impls[i].Outbound? && (impls[i].kind == Direct ==> i == |impls| - 1)
    ensures r.Some? ==> |r.value| == |impls|
    ensures r.Some? ==> forall i :: 0 <= i < |impls| ==> impls[i].Outbound? && r.value[i].kind == impls[i].kind
    ensures r.Some? && impls != [] ==> r.value[0].dst == target
    ensures r.Some? ==> forall i :: 1 <= i < |impls| ==> Some(r.value[i].dst) == ServerAddr(impls[i - 1])
    ensures r.Some? ==> forall i :: 1 <= i < |impls| ==> impls[i - 1].Outbound? && r.value[i].dst == impls[i - 1].server
    // so a direct outbound can only be the last entry, the first hop of the connection
    ensures r.Some? ==> forall i :: 0 <= i < |impls| - 1 ==> r.value[i].kind != Direct
  {
    var dsts := [target];
    for idx := 1 to if impls == [] then 1 else |impls|
      invariant |dsts| == idx
      invariant dsts[0] == target
      invariant forall i :: 1 <= i < |dsts| ==> Some(dsts[i]) == ServerAddr(impls[i - 1])
    {
      var dst := ServerAddr(impls[idx - 1]);
      if dst.None? {
        assert 0 <= idx - 1 < |impls| - 1;
        return None;
      }
      dsts := dsts + [dst.value];
    }
    var res: seq<Hop> := [];
    for idx := 0 to |impls|
      invariant |res| == idx
      invariant forall i :: 0 <= i < idx ==> impls[i].Outbound? && res[i] == Hop(impls[i].kind, dsts[i])
    {
      if !impls[idx].Outbound? {
        return None;
      }
      res := res + [Hop(impls[idx].kind, dsts[idx])];
    }
    forall i | 0 <= i < |impls| - 1 ensures ServerAddr(impls[i]).Some? {
      assert Some(dsts[i + 1]) == ServerAddr(impls[i + 1 - 1]);
    }
    return Some(res);
  }

  // ---------------------------------------------------------------- channels

  type ChanId = nat

  /** `AdapterConnector`: one end of a pair of one-way channels. */
  datatype Connector = Connector(tx: ChanId, rx: ChanId)

  /** The two ends of one pair: what one sends the other receives. */
  predicate Peers(a: Connector, b: Connector) { a.tx == b.rx && a.rx == b.tx }

  /** A connector for streams or for datagrams. */
  datatype End = TcpEnd(c: Connector) | UdpEnd(c: Connector)

  /** What a hop was called with.  `out` is the channel to the next hop; the last hop has none and
      goes to the network. */
  datatype Call = Call(hop: nat, inbound: End, out: Option<End>)

  /** How a hop that got the channels it wanted answers: whether the next hop is needed. */
  datatype Answer = Need(next: bool) | IoError

  /** `*_with_outbound` of the adapters: the inbound kind and the outbound kind each accepts. */
  predicate ShapeOk(k: Kind, inbound: End, out: End) {
    match k
    case Direct => false
    case Http => inbound.TcpEnd? && out.TcpEnd?
    case Socks5 => inbound.TcpEnd? && out.TcpEnd?
    case Ssh => inbound.TcpEnd? && out.TcpEnd?
    case Shadowsocks => (inbound.TcpEnd? && out.TcpEnd?) || (inbound.UdpEnd? && out.UdpEnd?)
    case Trojan => out.TcpEnd?
    case Wireguard => out.UdpEnd?
  }

  /** The adapters that report the next hop as needed whenever the shape is right. */
  predicate AlwaysNeedsNext(k: Kind) { k !in {Ssh, Wireguard} }

  datatype Outcome =
    | Connected                 // the last hop was spawned
    | DeadEnd                   // the last hop was spawned, and relays nothing
    | Reused(hop: nat)          // this hop needed no further ones
    | ShapeRejected(hop: nat)   // this hop refused its channels (`InvalidData`)
    | Failed(hop: nat)          // this hop failed for another reason
    | Panicked                  // splitting an empty chain

  /** The mode a hop is reached in: datagrams through a WireGuard hop, a stream after Trojan. */
  function TcpAt(kinds: seq<Kind>, useTcp: bool, i: nat): bool
    requires i <= |kinds|
  {
    if i == 0 then useTcp
    else if TcpAt(kinds, useTcp, i - 1) then TcpTransferType(kinds[i - 1]) == OverTcp
    else UdpTransferType(kinds[i - 1]) == UdpOverTcp
  }

  predicate RefusesDatagrams(k: Kind) { k in {Http, Socks5, Ssh} }

  /** `spawn_udp` of these adapters only logs an error. */
  predicate NoDatagrams(k: Kind) { k in {Http, Ssh} }

  /** `spawn_tcp` or `spawn_udp` of the last hop. */
  function LastHop(k: Kind, inbound: End): Outcome {
    match inbound
    case TcpEnd(_) => Connected
    case UdpEnd(_) => if k == Http || k == Ssh then DeadEnd else Connected
  }

  /** A hop's inbound is the far end of the channel the hop before it was given. */
  ghost predicate Wired(calls: seq<Call>) {
    forall i, j :: 0 <= i && j == i + 1 < |calls| ==> Feeds(calls[i], calls[j])
  }

  predicate Feeds(c: Call, d: Call) { c.out.Some? && Joined(c.out.value, d.inbound) }

  predicate Joined(out: End, inbound: End) {
    out.TcpEnd? == inbound.TcpEnd? && Peers(out.c, inbound.c)
  }

  /** Every hop is called in its place, in its mode, and only with channels made for it. */
  ghost predicate InPlace(calls: seq<Call>, kinds: seq<Kind>, useTcp: bool, fresh0: ChanId) {
    |calls| <= |kinds| && forall i :: 0 <= i < |calls| ==> PlacedAt(calls[i], i, kinds, useTcp, fresh0)
  }

  predicate PlacedAt(c: Call, i: nat, kinds: seq<Kind>, useTcp: bool, fresh0: ChanId)
    requires i < |kinds|
  {
    && c.hop == i
    && c.inbound.TcpEnd? == TcpAt(kinds, useTcp, i)
    && (c.out.Some? <==> i < |kinds| - 1)
    && (c.out.Some? ==>
          && c.out.value.TcpEnd? == TcpAt(kinds, useTcp, i + 1)
          && c.out.value.c == Connector(fresh0 + 2 * i, fresh0 + 2 * i + 1))
  }

  /** What a run needs to know of its hops: their kinds, how they answer, the mode and channel the
      chain starts with, and the first unused channel id. */
  datatype Plan = Plan(kinds: seq<Kind>, answers: seq<Answer>, startTcp: bool, first: Connector, fresh0: ChanId) {
    predicate Ok() {
      && |answers| == |kinds|
      && (forall i :: 0 <= i < |kinds| - 1 ==> kinds[i] != Direct)
      && (forall i :: 0 <= i < |kinds| && AlwaysNeedsNext(kinds[i]) ==> answers[i] == Need(true))
    }
  }

  /** The answers a hop may give: SSH and WireGuard any, the others only that the next is needed. */
  lemma AnswersGiven(k: Kind, a: Answer, startTcp: bool, first: Connector, fresh0: ChanId)
    ensures Plan([k], [a], startTcp, first, fresh0).Ok() <==> k in {Ssh, Wireguard} || a == Need(true)
  {
    assert [k][0] == k && [a][0] == a;
  }

  /** All hops called but the last took their channels and asked for the next one; the calls are
      in place and wired from the inbound of the chain on. */
  ghost predicate Progress(calls: seq<Call>, p: Plan) {
    && p.Ok()
    && Wired(calls) && InPlace(calls, p.kinds, p.startTcp, p.fresh0)
    && (calls != [] ==> calls[0].inbound.c == p.first)
    && forall i :: 0 <= i < |calls| - 1 ==> Accepts(p.kinds[i], calls[i]) && p.answers[i] == Need(true)
  }

  /** `cur` is where the next hop has to continue, and the last hop called has answered. */
  ghost predicate Ready(calls: seq<Call>, p: Plan, cur: End, needNext: bool) {
    && Progress(calls, p)
    && cur.TcpEnd? == TcpAt(p.kinds, p.startTcp, |calls|)
    && (calls == [] ==> cur.c == p.first && needNext)
    && (calls != [] ==>
          var i := |calls| - 1;
          Accepts(p.kinds[i], calls[i]) && Joined(calls[i].out.value, cur) && p.answers[i] == Need(needNext))
  }

  lemma AddCall(calls: seq<Call>, p: Plan, cur: End, c: Call)
    requires Ready(calls, p, cur, true) && |calls| < |p.kinds|
    requires c.inbound == cur && PlacedAt(c, |calls|, p.kinds, p.startTcp, p.fresh0)
    ensures Progress(calls + [c], p)
  {
    var more, n := calls + [c], |calls|;
    if n > 0 { assert Feeds(calls[n - 1], c); }
    assert forall i :: 0 <= i < n ==> more[i] == calls[i];
    assert InPlace(more, p.kinds, p.startTcp, p.fresh0);
    forall i, j | 0 <= i && j == i + 1 < |more| ensures Feeds(more[i], more[j]) {
      if j < n { assert Feeds(calls[i], calls[j]); }
    }
  }

  /** The container the next hop takes its inbound from. */
  function Current(useTcp: bool, tcp: Option<Connector>, udp: Option<Connector>): Option<End> {
    if useTcp then if tcp.Some? then Some(TcpEnd(tcp.value)) else None
    else if udp.Some? then Some(UdpEnd(udp.value)) else None
  }

  /** What one round of the loop does with the containers: it takes the inbound out of the one and
      puts the far end of a new channel pair into the one the next hop will use. */
  method Link(kind: Kind, useTcp: bool, tcp: Option<Connector>, udp: Option<Connector>, next: ChanId)
    returns (useTcp': bool, tcp': Option<Connector>, udp': Option<Connector>, inbound: End, out: End)
    requires Current(useTcp, tcp, udp).Some?
    ensures Some(inbound) == Current(useTcp, tcp, udp)
    ensures useTcp' == if useTcp then TcpTransferType(kind) == OverTcp else UdpTransferType(kind) == UdpOverTcp
    ensures out.TcpEnd? == useTcp' && out.c == Connector(next, next + 1)
    ensures Current(useTcp', tcp', udp').Some? && Joined(out, Current(useTcp', tcp', udp').value)
    ensures Current(useTcp', tcp', udp').value.c == Connector(next + 1, next)
    // the inbound is taken out of its container, and the other one is left alone unless it is needed
    ensures useTcp && !useTcp' ==> tcp'.None?
    ensures !useTcp && useTcp' ==> udp'.None?
    ensures useTcp && useTcp' ==> udp' == udp
    ensures !useTcp && !useTcp' ==> tcp' == tcp
  {
    // `new_pair`
    var inner, outer := Connector(next, next + 1), Connector(next + 1, next);
    useTcp', tcp', udp' := useTcp, tcp, udp;
    if useTcp {
      inbound := TcpEnd(tcp.value);
      tcp' := None;
      if TcpTransferType(kind) == TcpOverUdp {
        useTcp' := false;
        udp' := Some(outer);
        out := UdpEnd(inner);
      } else {
        tcp' := Some(outer);
        out := TcpEnd(inner);
      }
    } else {
      inbound := UdpEnd(udp.value);
      udp' := None;
      if UdpTransferType(kind) == UdpOverTcp {
        useTcp' := true;
        tcp' := Some(outer);
        out := TcpEnd(inner);
      } else {
        udp' := Some(outer);
        out := UdpEnd(inner);
      }
    }
  }

  /** No hop but the last is a stream-only one reached in datagram mode. */
  ghost predicate NeverStuck(p: Plan) {
    forall i :: 0 <= i < |p.kinds| - 1 ==> !(RefusesDatagrams(p.kinds[i]) && !TcpAt(p.kinds, p.startTcp, i))
  }

  lemma AllPassed(calls: seq<Call>, p: Plan)
    requires Progress(calls, p) && |calls| == |p.kinds|
    ensures NeverStuck(p)
  {
    forall i | 0 <= i < |p.kinds| - 1
      ensures !(RefusesDatagrams(p.kinds[i]) && !TcpAt(p.kinds, p.startTcp, i))
    {
      assert Accepts(p.kinds[i], calls[i]) && PlacedAt(calls[i], i, p.kinds, p.startTcp, p.fresh0);
    }
  }

  /** What it means to be wired: a hop receives what the hop before it sends, and the other way
      round, over channels of one kind. */
  lemma WiringMeaning(calls: seq<Call>, p: Plan, i: nat)
    requires Progress(calls, p) && i + 1 < |calls|
    ensures calls[i].out.Some?
    ensures var out, inbound := calls[i].out.value, calls[i + 1].inbound;
            out.c.tx == inbound.c.rx && out.c.rx == inbound.c.tx && out.TcpEnd? == inbound.TcpEnd?
  {
    assert Feeds(calls[i], calls[i + 1]);
  }

  /** The channels each adapter takes, as (inbound, outbound). */
  lemma ShapesTaken(t: Connector, u: Connector)
    ensures forall k :: k in {Http, Socks5, Ssh} ==>
              && ShapeOk(k, TcpEnd(t), TcpEnd(u)) && !ShapeOk(k, TcpEnd(t), UdpEnd(u))
              && !ShapeOk(k, UdpEnd(t), TcpEnd(u)) && !ShapeOk(k, UdpEnd(t), UdpEnd(u))
    ensures ShapeOk(Shadowsocks, TcpEnd(t), TcpEnd(u)) && ShapeOk(Shadowsocks, UdpEnd(t), UdpEnd(u))
    ensures !ShapeOk(Shadowsocks, TcpEnd(t), UdpEnd(u)) && !ShapeOk(Shadowsocks, UdpEnd(t), TcpEnd(u))
    ensures ShapeOk(Trojan, TcpEnd(t), TcpEnd(u)) && ShapeOk(Trojan, UdpEnd(t), TcpEnd(u))
    ensures !ShapeOk(Trojan, TcpEnd(t), UdpEnd(u)) && !ShapeOk(Trojan, UdpEnd(t), UdpEnd(u))
    ensures ShapeOk(Wireguard, TcpEnd(t), UdpEnd(u)) && ShapeOk(Wireguard, UdpEnd(t), UdpEnd(u))
    ensures !ShapeOk(Wireguard, TcpEnd(t), TcpEnd(u)) && !ShapeOk(Wireguard, UdpEnd(t), TcpEnd(u))
    ensures !ShapeOk(Direct, TcpEnd(t), TcpEnd(u)) && !ShapeOk(Direct, TcpEnd(t), UdpEnd(u))
    ensures !ShapeOk(Direct, UdpEnd(t), TcpEnd(u)) && !ShapeOk(Direct, UdpEnd(t), UdpEnd(u))
  {
  }

  /** No two hops ever share a channel: each is joined to its neighbours only. */
  lemma ChannelsNotShared(calls: seq<Call>, p: Plan, i: nat, j: nat)
    requires Progress(calls, p) && i < j < |calls| && calls[j].out.Some?
    ensures calls[i].out.Some?
    ensures var a, b := calls[i].out.value.c, calls[j].out.value.c;
            {a.tx, a.rx} !! {b.tx, b.rx}
  {
    assert PlacedAt(calls[i], i, p.kinds, p.startTcp, p.fresh0);
    assert PlacedAt(calls[j], j, p.kinds, p.startTcp, p.fresh0);
  }

  /** One round of the loop over the hops before the last. */
  method Round(p: Plan, calls: seq<Call>, useTcp: bool, tcp: Option<Connector>, udp: Option<Connector>)
    returns (useTcp': bool, tcp': Option<Connector>, udp': Option<Connector>, calls': seq<Call>, v: Verdict)
    requires Current(useTcp, tcp, udp).Some? && |calls| < |p.kinds| - 1
    requires Ready(calls, p, Current(useTcp, tcp, udp).value, true)
    ensures |calls'| == |calls| + 1 && Progress(calls', p)
    ensures v == Refused <==> RefusesDatagrams(p.kinds[|calls|]) && !TcpAt(p.kinds, p.startTcp, |calls|)
    ensures v == Broken ==> p.answers[|calls|] == IoError
    ensures v.Answered? ==>
              && Current(useTcp', tcp', udp').Some?
              && Ready(calls', p, Current(useTcp', tcp', udp').value, v.needNext)
  {
    var i := |calls|;
    var inbound, out;
    useTcp', tcp', udp', inbound, out := Link(p.kinds[i], useTcp, tcp, udp, p.fresh0 + 2 * i);
    AddCall(calls, p, inbound, Call(i, inbound, Some(out)));
    calls' := calls + [Call(i, inbound, Some(out))];
    v := Dial(p.kinds[i], inbound, out, p.answers[i]);
  }

  /** `ChainOutbound::spawn` on a chain made by `create_chain`. */
  method Spawn(p: Plan) returns (outcome: Outcome, calls: seq<Call>)
    requires p.Ok()
    ensures outcome == Panicked <==> p.kinds == []
    ensures Progress(calls, p) && (calls == [] <==> p.kinds == [])
    ensures outcome in {Connected, DeadEnd} <==> |calls| == |p.kinds| > 0
    // the last hop cannot relay exactly if it has no datagrams and is reached in datagram mode
    ensures outcome == DeadEnd <==>
              |calls| == |p.kinds| > 0 && NoDatagrams(p.kinds[|calls| - 1]) && !TcpAt(p.kinds, p.startTcp, |calls| - 1)
    // a hop refuses its channels exactly when it is not the last one, takes streams only, and is
    // reached in datagram mode
    ensures outcome.ShapeRejected? <==>
              0 < |calls| < |p.kinds| && RefusesDatagrams(p.kinds[|calls| - 1])
              && !TcpAt(p.kinds, p.startTcp, |calls| - 1)
    ensures outcome.ShapeRejected? ==> outcome.hop == |calls| - 1
    // when every hop asks for the next one, the layout of the chain alone decides
    ensures p.kinds != [] && (forall i :: 0 <= i < |p.kinds| ==> p.answers[i] == Need(true)) ==>
              (outcome in {Connected, DeadEnd} <==> NeverStuck(p))
    ensures p.kinds != [] && (forall i :: 0 <= i < |p.kinds| ==> p.answers[i] == Need(true)) ==>
              (outcome == Connected <==> NeverStuck(p) && !(NoDatagrams(p.kinds[|p.kinds| - 1]) && !TcpAt(p.kinds, p.startTcp, |p.kinds| - 1)))
    // only an SSH or a WireGuard hop can need no further ones, or fail for another reason
    ensures outcome.Reused? || outcome.Failed? ==> outcome.hop < |p.kinds| && p.kinds[outcome.hop] in {Ssh, Wireguard}
    ensures outcome.Reused? ==> outcome.hop == |calls| - 1 && p.answers[outcome.hop] == Need(false)
    ensures outcome.Failed? ==> outcome.hop == |calls| - 1 && p.answers[outcome.hop] == IoError
  {
    calls := [];
    var kinds := p.kinds;
    if kinds == [] {
      return Panicked, calls;
    }
    var useTcp, needNext := p.startTcp, true;
    var tcpContainer := if useTcp then Some(p.first) else None;
    var udpContainer := if useTcp then None else Some(p.first);
    for i := 0 to |kinds| - 1
      invariant |calls| == i
      invariant Current(useTcp, tcpContainer, udpContainer).Some?
      invariant Ready(calls, p, Current(useTcp, tcpContainer, udpContainer).value, needNext)
    {
      if !needNext {
        return Reused(i - 1), calls;
      }
      var verdict;
      useTcp, tcpContainer, udpContainer, calls, verdict := Round(p, calls, useTcp, tcpContainer, udpContainer);
      match verdict
      case Refused => return ShapeRejected(i), calls;
      case Broken => return Failed(i), calls;
      case Answered(next) => needNext := next;
    }
    if !needNext {
      return Reused(|kinds| - 2), calls;
    }
    var end := if useTcp then TcpEnd(tcpContainer.value) else UdpEnd(udpContainer.value);
    AddCall(calls, p, end, Call(|kinds| - 1, end, None));
    calls := calls + [Call(|kinds| - 1, end, None)];
    AllPassed(calls, p);
    return LastHop(kinds[|kinds| - 1], end), calls;
  }

  /** A chain from its entries to its hops: every chain that `create_chain` accepts can be spawned,
      whatever the hops that may answer in several ways answer. */
  method Connect(impls: seq<ProxyImpl>, target: Addr, answers: seq<Answer>, useTcp: bool, first: Connector, fresh0: ChanId)
    returns (outcome: Option<Outcome>, ghost p: Plan)
    requires |answers| == |impls|
    requires forall i :: 0 <= i < |impls| && impls[i].Outbound? && AlwaysNeedsNext(impls[i].kind) ==> answers[i] == Need(true)
    ensures outcome.Some? <==> Chainable(impls)
    ensures outcome.Some? ==> |p.kinds| == |impls| && forall i :: 0 <= i < |impls| ==> impls[i].Outbound? && p.kinds[i] == impls[i].kind
    ensures outcome == Some(Panicked) <==> impls == []
    ensures outcome.Some? && impls != [] && (forall i :: 0 <= i < |impls| ==> answers[i] == Need(true)) && p.startTcp ==>
              (outcome.value in {Connected, DeadEnd} <==> NeverStuck(p))
  {
    p := Plan([], [], useTcp, first, fresh0);
    var hops := CreateChain(impls, target);
    if hops.None? {
      return None, p;
    }
    var kinds := seq(|impls|, i requires 0 <= i < |impls| => hops.value[i].kind);
    var plan := Plan(kinds, answers, useTcp, first, fresh0);
    var o, _ := Spawn(plan);
    return Some(o), plan;
  }

  /** A `*_with_outbound` call: the hop first looks at its channels. */
  datatype Verdict = Refused | Broken | Answered(needNext: bool)

  function Dial(k: Kind, inbound: End, out: End, a: Answer): (v: Verdict)
    ensures v == Refused <==> !ShapeOk(k, inbound, out)
    // with the channels of `Link`, only stream-only hops ever refuse, and only in datagram mode
    ensures k != Direct
            && out.TcpEnd? == (if inbound.TcpEnd? then TcpTransferType(k) == OverTcp else UdpTransferType(k) == UdpOverTcp) ==>
              (v == Refused <==> RefusesDatagrams(k) && inbound.UdpEnd?)
    ensures v != Refused ==> v == if a == IoError then Broken else Answered(a.next)
  {
    if !ShapeOk(k, inbound, out) then Refused
    else match a
      case IoError => Broken
      case Need(next) => Answered(next)
  }

  predicate Accepts(k: Kind, c: Call) { c.out.Some? && ShapeOk(k, c.inbound, c.out.value) }
}
