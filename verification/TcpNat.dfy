/** The TCP address translation of the TUN device: the session table
    (boltconn/src/proxy/manager.rs) and the TCP branch of `forwarding_packet`
    (boltconn/src/network/tun_device.rs).  Addresses are abstract; headers and checksums are not
    modelled. */
module TcpNat {
  import opened Common

  datatype SocketAddr = SocketAddr(v6: bool, ip: nat, port: nat)

  /** `(is_ipv6, port)` */
  datatype Key = Key(v6: bool, port: nat)

  /** The two ends of a connection as its initiator sees them. */
  datatype Flow = Flow(src: SocketAddr, dst: SocketAddr)

  function KeyOf(a: SocketAddr): Key { Key(a.v6, a.port) }

  function Reverse(f: Flow): Flow { Flow(f.dst, f.src) }

  // ---------------------------------------------------------------- what a record stands for

  /** The flow a record holds after the packets `h`: a packet replaces it only if it goes
      elsewhere. */
  function RecordOf(h: seq<Flow>): Flow
    requires h != []
  {
    var last := h[|h| - 1];
    if |h| == 1 then last
    else
      var r := RecordOf(h[..|h| - 1]);
      if r.dst != last.dst then last else r
  }

  /** From packet `i` on, all packets went to one destination, and the one before did not. */
  predicate SameDestinationSince(h: seq<Flow>, i: nat) {
    && i < |h|
    && (forall j :: i <= j < |h| ==> h[j].dst == h[i].dst)
    && (i > 0 ==> h[i - 1].dst != h[i].dst)
  }

  lemma {:induction false} RecordGoesToLast(h: seq<Flow>)
    requires h != []
    ensures RecordOf(h).dst == h[|h| - 1].dst
  {
    if |h| > 1 {
      RecordGoesToLast(h[..|h| - 1]);
    }
  }

  /** The record is the first packet to the present destination. */
  lemma {:induction false} RecordIsFirst(h: seq<Flow>, i: nat)
    requires SameDestinationSince(h, i)
    ensures RecordOf(h) == h[i]
  {
    var n := |h| - 1;
    if i < n {
      RecordIsFirst(h[..n], i);
    } else if n > 0 {
      RecordGoesToLast(h[..n]);
    }
  }

  /** The record names the sender of the last packet if and only if the first packet to the
      present destination came from the same one. */
  lemma RecordIsLastIff(h: seq<Flow>, i: nat)
    requires SameDestinationSince(h, i)
    ensures RecordOf(h) == h[|h| - 1] <==> h[i].src == h[|h| - 1].src
  {
    RecordIsFirst(h, i);
  }

  lemma {:induction false} DestinationSince(h: seq<Flow>) returns (i: nat)
    requires h != []
    ensures SameDestinationSince(h, i)
  {
    i := |h| - 1;
    if i > 0 && h[i - 1].dst == h[i].dst {
      i := DestinationSince(h[..i]);
    }
  }

  predicate OneSource(h: seq<Flow>) {
    forall i, j :: 0 <= i < |h| && 0 <= j < |h| ==> h[i].src == h[j].src
  }

  /** With one sender per port the record is the last packet. */
  lemma RecordOfOneSource(h: seq<Flow>)
    requires h != [] && OneSource(h)
    ensures RecordOf(h) == h[|h| - 1]
  {
    var i := DestinationSince(h);
    RecordIsLastIff(h, i);
  }

  // ---------------------------------------------------------------- the session table

  /** `available` identifies the shared counter of the connection's open directions. */
  datatype TcpSession = TcpSession(flow: Flow, available: nat)

  ghost predicate TableOk(records: map<Key, TcpSession>, counters: seq<nat>, history: map<Key, seq<Flow>>) {
    && records.Keys == history.Keys
    && (forall k :: k in records ==> RecordOk(k, records[k], history[k]) && records[k].available < |counters|)
    && (forall k, l :: k in records && l in records && records[k].available == records[l].available ==> k == l)
  }

  /** A record lies under its own source port and holds what its packets make of it. */
  ghost predicate RecordOk(k: Key, s: TcpSession, h: seq<Flow>) {
    h != [] && (forall i :: 0 <= i < |h| ==> KeyOf(h[i].src) == k) && s.flow == RecordOf(h) && KeyOf(s.flow.src) == k
  }

  lemma RecordSnoc(h: seq<Flow>, f: Flow)
    ensures RecordOf(h + [f]) == if h == [] || RecordOf(h).dst != f.dst then f else RecordOf(h)
  {
    assert (h + [f])[..|h|] == h;
  }

  /** One packet more under its key. */
  function Noted(history: map<Key, seq<Flow>>, f: Flow): map<Key, seq<Flow>> {
    var k := KeyOf(f.src);
    history[k := (if k in history then history[k] else []) + [f]]
  }

  /** A packet that finds a record to its destination leaves the table as it is; any other one
      makes a record with a counter of its own. */
  lemma TableNoted(records: map<Key, TcpSession>, counters: seq<nat>, history: map<Key, seq<Flow>>, f: Flow)
    requires TableOk(records, counters, history)
    ensures var k, noted := KeyOf(f.src), Noted(history, f);
            if k in records && records[k].flow.dst == f.dst then TableOk(records, counters, noted)
            else TableOk(records[k := TcpSession(f, |counters|)], counters + [2], noted)
  {
    var k := KeyOf(f.src);
    RecordSnoc(if k in history then history[k] else [], f);
  }

  /** The session table as a value. */
  datatype Table = Table(records: map<Key, TcpSession>, counters: seq<nat>) {
    /** The connection on record under `k` has an open direction. */
    predicate Open(k: Key) {
      k in records && records[k].available < |counters| && counters[records[k].available] > 0
    }
  }

  function Registered(t: Table, f: Flow): Table {
    var k := KeyOf(f.src);
    if k in t.records && t.records[k].flow.dst == f.dst then t
    else Table(t.records[k := TcpSession(f, |t.counters|)], t.counters + [2])
  }

  function Closed(t: Table, counter: nat, n: nat): Table {
    if counter < |t.counters| then t.(counters := t.counters[counter := n]) else t
  }

  function Flushed(t: Table): Table {
    t.(records := map k | k in t.records && t.Open(k) :: t.records[k])
  }

  lemma FlushedOk(t: Table, history: map<Key, seq<Flow>>)
    requires TableOk(t.records, t.counters, history)
    ensures TableOk(Flushed(t).records, t.counters, map k | k in history && t.Open(k) :: history[k])
    ensures Flushed(t).records == map k | k in t.records && t.counters[t.records[k].available] > 0 :: t.records[k]
  {
  }

  class SessionManager {
    var tcpRecords: map<Key, TcpSession>
    var counters: seq<nat>
    ghost var history: map<Key, seq<Flow>>      // the packets registered since a record was made

    ghost predicate Valid()
      reads this
    {
      TableOk(tcpRecords, counters, history)
    }

    ghost function View(): Table
      reads this
    {
      Table(tcpRecords, counters)
    }

    constructor ()
      ensures Valid() && View() == Table(map[], []) && history == map[]
    {
      tcpRecords, counters, history := map[], [], map[];
    }

    method RegisterTcpSession(src: SocketAddr, dst: SocketAddr) returns (port: nat)
      requires Valid()
      modifies this
      ensures Valid() && port == src.port
      ensures history == Noted(old(history), Flow(src, dst)) && View() == Registered(old(View()), Flow(src, dst))
      ensures var key := Key(src.v6, src.port);
              key in tcpRecords && tcpRecords[key].flow.dst == dst && tcpRecords[key].flow.src.v6 == src.v6 && tcpRecords[key].flow.src.port == src.port
      // no other record changes, and a new one starts with both directions open
      ensures tcpRecords == old(tcpRecords)[KeyOf(src) := tcpRecords[KeyOf(src)]]
      ensures KeyOf(src) in old(tcpRecords) && old(tcpRecords)[KeyOf(src)].flow.dst == dst ==>
                tcpRecords == old(tcpRecords) && counters == old(counters)
      ensures !(KeyOf(src) in old(tcpRecords) && old(tcpRecords)[KeyOf(src)].flow.dst == dst) ==>
                tcpRecords[KeyOf(src)] == TcpSession(Flow(src, dst), |old(counters)|) && counters == old(counters) + [2]
    {
      var key := KeyOf(src);
      TableNoted(tcpRecords, counters, history, Flow(src, dst));
      if key !in tcpRecords {
        tcpRecords, counters := tcpRecords[key := TcpSession(Flow(src, dst), |counters|)], counters + [2];
      }
      if tcpRecords[key].flow.dst != dst {
        tcpRecords, counters := tcpRecords[key := TcpSession(Flow(src, dst), |counters|)], counters + [2];
      }
      history := Noted(history, Flow(src, dst));
      return key.port;
    }

    method LookupTcpSession(v6: bool, port: nat) returns (r: Option<TcpSession>)
      requires Valid()
      ensures r.Some? <==> Key(v6, port) in history
      ensures r.Some? ==> r.value == tcpRecords[Key(v6, port)] && r.value.flow == RecordOf(history[Key(v6, port)])
      ensures r.Some? ==> KeyOf(r.value.flow.src) == Key(v6, port)
    {
      return if Key(v6, port) in tcpRecords then Some(tcpRecords[Key(v6, port)]) else None;
    }

    /** Whoever holds a counter changes it; that concerns at most one record. */
    method Indicate(counter: nat, n: nat)
      requires Valid()
      modifies this`counters
      ensures Valid() && View() == Closed(old(View()), counter, n)
      ensures forall k, l :: k in tcpRecords && l in tcpRecords && tcpRecords[k].available == counter == tcpRecords[l].available ==> k == l
    {
      if counter < |counters| {
        counters := counters[counter := n];
      }
    }

    /** The TCP half of `flush`: exactly the records of closed connections go. */
    method Flush()
      requires Valid()
      modifies this`tcpRecords, this`history
      ensures Valid()
      ensures forall k :: k in tcpRecords <==> k in old(tcpRecords) && counters[old(tcpRecords)[k].available] > 0
      ensures forall k :: k in tcpRecords ==> tcpRecords[k] == old(tcpRecords)[k] && history[k] == old(history)[k]
      ensures View() == Flushed(old(View()))
    {
      FlushedOk(View(), history);
      history := map k | k in history && View().Open(k) :: history[k];
      tcpRecords := map k | k in tcpRecords && counters[tcpRecords[k].available] > 0 :: tcpRecords[k];
    }

    /** A flush right after a packet drops its record exactly if the flow was on record before with
        all directions closed: such a record is taken over without being reopened. */
    method RegisterThenFlush(src: SocketAddr, dst: SocketAddr)
      requires Valid()
      modifies this
      ensures Valid()
      ensures KeyOf(src) !in tcpRecords <==>
                && KeyOf(src) in old(tcpRecords) && old(tcpRecords)[KeyOf(src)].flow.dst == dst
                && old(counters)[old(tcpRecords)[KeyOf(src)].available] == 0
    {
      var _ := RegisterTcpSession(src, dst);
      Flush();
    }
  }

  // ---------------------------------------------------------------- the device

  /** An IP packet has one family. */
  type Packet = f: Flow | f.src.v6 == f.dst.v6 witness Flow(SocketAddr(false, 0, 0), SocketAddr(false, 0, 0))

  datatype Event = Arrives(packet: Packet) | Closes(counter: nat, n: nat) | Flushes

  predicate Outbound(e: Event, proxy: SocketAddr) {
    e.Arrives? && !e.packet.src.v6 && e.packet.src != proxy
  }

  predicate IsReply(e: Event, proxy: SocketAddr) {
    e.Arrives? && e.packet.src == proxy
  }

  /** A packet from inside, from the port of `k`. */
  predicate Sends(e: Event, proxy: SocketAddr, k: Key) {
    Outbound(e, proxy) && KeyOf(e.packet.src) == k
  }

  /** The most recent outbound flow from a port. */
  function LastFlow(events: seq<Event>, proxy: SocketAddr, k: Key): Option<Flow> {
    if events == [] then None
    else
      var e := events[|events| - 1];
      if Sends(e, proxy, k) then Some(e.packet) else LastFlow(events[..|events| - 1], proxy, k)
  }

  /** The table after one more event, and after a whole run. */
  function Next(t: Table, e: Event, proxy: SocketAddr): Table {
    match e
    case Arrives(pkt) => if Outbound(e, proxy) then Registered(t, pkt) else t
    case Closes(counter, n) => Closed(t, counter, n)
    case Flushes => Flushed(t)
  }

  function After(events: seq<Event>, proxy: SocketAddr): Table {
    if events == [] then Table(map[], [])
    else Next(After(events[..|events| - 1], proxy), events[|events| - 1], proxy)
  }

  /** What the device writes back when an event finds the table `t`. */
  function Answer(t: Table, e: Event, proxy: SocketAddr): Option<Flow> {
    if Outbound(e, proxy) then Some(Flow(SocketAddr(false, e.packet.dst.ip, e.packet.src.port), proxy))
    else if IsReply(e, proxy) && Key(false, e.packet.dst.port) in t.records then
      Some(Reverse(t.records[Key(false, e.packet.dst.port)].flow))
    else None
  }

  /** Event `i` was answered as the table after the events before it demands. */
  ghost predicate AnsweredAt(events: seq<Event>, proxy: SocketAddr, i: nat, out: Option<Flow>)
    requires i < |events|
  {
    out == Answer(After(events[..i], proxy), events[i], proxy)
  }

  lemma AfterSnoc(events: seq<Event>, i: nat, proxy: SocketAddr)
    requires i < |events|
    ensures After(events[..i + 1], proxy) == Next(After(events[..i], proxy), events[i], proxy)
  {
    assert events[..i + 1][..i] == events[..i];
  }

  class TunDevice {
    const manager: SessionManager
    const natAddr: SocketAddr

    constructor (natAddr: SocketAddr)
      requires !natAddr.v6
      ensures manager.Valid() && fresh(manager) && manager.history == map[] && this.natAddr == natAddr
    {
      manager := new SessionManager();
      this.natAddr := natAddr;
    }

    /** The TCP branch of `forwarding_packet` */
    method Forward(pkt: Packet) returns (out: Option<Flow>)
      requires manager.Valid() && !natAddr.v6
      modifies manager
      ensures manager.Valid()
      ensures manager.View() == Next(old(manager.View()), Arrives(pkt), natAddr)
      ensures pkt.src.v6 ==> out.None? && manager.history == old(manager.history)
      // to the NAT: the destination's address with the session's port becomes the source
      ensures Outbound(Arrives(pkt), natAddr) ==>
                && out == Some(Flow(SocketAddr(false, pkt.dst.ip, pkt.src.port), natAddr))
                && manager.history == Noted(old(manager.history), pkt)
      // from the NAT: the reverse of the flow on record
      ensures pkt.src == natAddr ==>
                && manager.history == old(manager.history)
                && (out.Some? <==> Key(false, pkt.dst.port) in manager.history)
                && (out.Some? ==> out == Some(Reverse(RecordOf(manager.history[Key(false, pkt.dst.port)]))))
    {
      if pkt.src.v6 {
        return None;
      }
      if natAddr == pkt.src {
        var s := manager.LookupTcpSession(pkt.src.v6, pkt.dst.port);
        return if s.Some? then Some(Flow(s.value.flow.dst, s.value.flow.src)) else None;
      }
      var port := manager.RegisterTcpSession(pkt.src, pkt.dst);
      return Some(Flow(SocketAddr(false, pkt.dst.ip, port), natAddr));
    }

    /** One event. */
    method Handle(e: Event) returns (out: Option<Flow>)
      requires manager.Valid() && !natAddr.v6
      modifies manager
      ensures manager.Valid() && manager.View() == Next(old(manager.View()), e, natAddr)
      ensures out == Answer(old(manager.View()), e, natAddr)
    {
      out := None;
      match e
      case Arrives(pkt) => out := Forward(pkt);
      case Closes(counter, n) => manager.Indicate(counter, n);
      case Flushes => manager.Flush();
    }

    /** Any run of packets, closings and flushes, with any number of local addresses. */
    method Run(events: seq<Event>) returns (outs: seq<Option<Flow>>)
      requires manager.Valid() && manager.View() == Table(map[], []) && !natAddr.v6
      modifies manager
      ensures manager.Valid() && manager.View() == After(events, natAddr) && |outs| == |events|
      ensures forall i :: 0 <= i < |events| ==> AnsweredAt(events, natAddr, i, outs[i])
    {
      outs := [];
      for i := 0 to |events|
        invariant manager.Valid() && |outs| == i && manager.View() == After(events[..i], natAddr)
        invariant forall j :: 0 <= j < i ==> AnsweredAt(events, natAddr, j, outs[j])
      {
        AfterSnoc(events, i, natAddr);
        var out := Handle(events[i]);
        outs := outs + [out];
      }
      assert events[..|events|] == events;
    }
  }

  // ---------------------------------------------------------------- what holds over every run

  /** Records lie under their own source port and go where the last packet from there went. */
  lemma {:induction false} RecordFollowsLast(events: seq<Event>, proxy: SocketAddr, k: Key)
    requires k in After(events, proxy).records
    ensures var r, last := After(events, proxy).records[k].flow, LastFlow(events, proxy, k);
            && KeyOf(r.src) == k
            && last.Some? && last.value.dst == r.dst && KeyOf(last.value.src) == k
  {
    var init, e := events[..|events| - 1], events[|events| - 1];
    if !Sends(e, proxy, k) {
      RecordFollowsLast(init, proxy, k);
    } else if k in After(init, proxy).records {
      RecordFollowsLast(init, proxy, k);
    }
  }

  /** A packet went out from the port and no flush since then found its connection closed. */
  ghost predicate Alive(events: seq<Event>, proxy: SocketAddr, k: Key, i: nat) {
    && i < |events| && Sends(events[i], proxy, k)
    && forall j :: i < j < |events| && events[j].Flushes? ==> After(events[..j], proxy).Open(k)
  }

  /** A port is on record exactly if it is alive since some packet. */
  lemma {:induction false} OnRecordIff(events: seq<Event>, proxy: SocketAddr, k: Key)
    ensures k in After(events, proxy).records <==> exists i :: Alive(events, proxy, k, i)
  {
    if events != [] {
      var n := |events| - 1;
      var init, e := events[..n], events[n];
      OnRecordIff(init, proxy, k);
      if k in After(events, proxy).records {
        if Sends(e, proxy, k) {
          assert Alive(events, proxy, k, n);
        } else {
          var i :| Alive(init, proxy, k, i);
          AliveLonger(events, proxy, k, i);
        }
      } else if i :| Alive(events, proxy, k, i) {
        AliveShorter(events, proxy, k, i);
      }
    }
  }

  lemma AliveLonger(events: seq<Event>, proxy: SocketAddr, k: Key, i: nat)
    requires events != [] && Alive(events[..|events| - 1], proxy, k, i)
    requires events[|events| - 1].Flushes? ==> After(events[..|events| - 1], proxy).Open(k)
    ensures Alive(events, proxy, k, i)
  {
    var init := events[..|events| - 1];
    forall j | i < j < |events| && events[j].Flushes? ensures After(events[..j], proxy).Open(k) {
      if j < |init| {
        assert init[j] == events[j] && init[..j] == events[..j];
      }
    }
  }

  lemma AliveShorter(events: seq<Event>, proxy: SocketAddr, k: Key, i: nat)
    requires Alive(events, proxy, k, i) && i < |events| - 1
    ensures Alive(events[..|events| - 1], proxy, k, i)
    ensures events[|events| - 1].Flushes? ==> After(events[..|events| - 1], proxy).Open(k)
  {
    var init := events[..|events| - 1];
    forall j | i < j < |init| && init[j].Flushes? ensures After(init[..j], proxy).Open(k) {
      assert init[j] == events[j] && init[..j] == events[..j];
    }
  }

  /** In particular a reply is answered if its port has sent since the last flush. */
  lemma RepliesAreAnswered(events: seq<Event>, proxy: SocketAddr, i: nat, reply: Event)
    requires IsReply(reply, proxy) && i < |events| && Sends(events[i], proxy, Key(false, reply.packet.dst.port))
    requires forall j :: i < j < |events| ==> !events[j].Flushes?
    ensures Answer(After(events, proxy), reply, proxy).Some?
  {
    var k := Key(false, reply.packet.dst.port);
    assert Alive(events, proxy, k, i);
    OnRecordIff(events, proxy, k);
  }

  /** As long as no counter is ever set to zero, flushes drop nothing: a port is on record exactly
      if it ever sent. */
  lemma {:induction false} OpenStaysOnRecord(events: seq<Event>, proxy: SocketAddr, k: Key)
    requires forall i :: 0 <= i < |events| && events[i].Closes? ==> events[i].n > 0
    ensures forall c :: 0 <= c < |After(events, proxy).counters| ==> After(events, proxy).counters[c] > 0
    ensures forall l :: l in After(events, proxy).records ==> After(events, proxy).records[l].available < |After(events, proxy).counters|
    ensures k in After(events, proxy).records <==> LastFlow(events, proxy, k).Some?
  {
    if events != [] {
      OpenStaysOnRecord(events[..|events| - 1], proxy, k);
    }
  }

  /** Packet `i` made the present record of the port: it found none, or one to elsewhere; since
      then the port has been on record and has sent to one destination only. */
  ghost predicate Began(events: seq<Event>, proxy: SocketAddr, k: Key, i: nat) {
    && i < |events| && Sends(events[i], proxy, k)
    && NewsTo(After(events[..i], proxy), k, events[i].packet.dst)
    && OnRecordSince(events, proxy, k, i)
    && OneDestinationSince(events, proxy, k, i)
  }

  predicate NewsTo(t: Table, k: Key, dst: SocketAddr) { k in t.records ==> t.records[k].flow.dst != dst }

  ghost predicate OnRecordSince(events: seq<Event>, proxy: SocketAddr, k: Key, i: nat) {
    forall j :: i < j <= |events| ==> k in After(events[..j], proxy).records
  }

  predicate OneDestinationSince(events: seq<Event>, proxy: SocketAddr, k: Key, i: nat)
    requires i < |events| && events[i].Arrives?
  {
    forall j :: i < j < |events| && Sends(events[j], proxy, k) ==> events[j].packet.dst == events[i].packet.dst
  }

  lemma PrefixOfInit(events: seq<Event>, j: nat)
    requires j < |events|
    ensures events[..|events| - 1][..j] == events[..j]
  {
  }

  lemma BeganShorter(events: seq<Event>, proxy: SocketAddr, k: Key, i: nat)
    requires Began(events, proxy, k, i) && i < |events| - 1
    ensures Began(events[..|events| - 1], proxy, k, i)
  {
    var init := events[..|events| - 1];
    PrefixOfInit(events, i);
    forall j | i < j <= |init| ensures k in After(init[..j], proxy).records {
      PrefixOfInit(events, j);
    }
  }

  lemma OnRecordLonger(events: seq<Event>, proxy: SocketAddr, k: Key, i: nat)
    requires events != [] && OnRecordSince(events[..|events| - 1], proxy, k, i)
    requires k in After(events, proxy).records
    ensures OnRecordSince(events, proxy, k, i)
  {
    forall j | i < j <= |events| ensures k in After(events[..j], proxy).records {
      if j < |events| {
        PrefixOfInit(events, j);
        assert k in After(events[..|events| - 1][..j], proxy).records;
      } else {
        assert events[..j] == events;
      }
    }
  }

  lemma BeganLonger(events: seq<Event>, proxy: SocketAddr, k: Key, i: nat)
    requires events != [] && Began(events[..|events| - 1], proxy, k, i)
    requires k in After(events, proxy).records
    requires Sends(events[|events| - 1], proxy, k) ==> events[|events| - 1].packet.dst == events[i].packet.dst
    ensures Began(events, proxy, k, i)
  {
    var init := events[..|events| - 1];
    assert NewsTo(After(events[..i], proxy), k, events[i].packet.dst) by {
      PrefixOfInit(events, i);
      assert NewsTo(After(init[..i], proxy), k, init[i].packet.dst);
    }
    assert OnRecordSince(events, proxy, k, i) by {
      OnRecordLonger(events, proxy, k, i);
    }
    OneDestinationLonger(events, proxy, k, i);
  }

  lemma OneDestinationLonger(events: seq<Event>, proxy: SocketAddr, k: Key, i: nat)
    requires i < |events| - 1 && events[i].Arrives? && OneDestinationSince(events[..|events| - 1], proxy, k, i)
    requires Sends(events[|events| - 1], proxy, k) ==> events[|events| - 1].packet.dst == events[i].packet.dst
    ensures OneDestinationSince(events, proxy, k, i)
  {
    var init := events[..|events| - 1];
    forall j | i < j < |events| && Sends(events[j], proxy, k) ensures events[j].packet.dst == events[i].packet.dst {
      if j < |init| { assert init[j] == events[j]; }
    }
  }

  lemma {:induction false} BeganMakesRecord(events: seq<Event>, proxy: SocketAddr, k: Key, i: nat)
    requires Began(events, proxy, k, i)
    ensures k in After(events, proxy).records && After(events, proxy).records[k].flow == events[i].packet
  {
    var n := |events| - 1;
    assert events[..|events|] == events;
    if i < n {
      BeganShorter(events, proxy, k, i);
      BeganMakesRecord(events[..n], proxy, k, i);
    }
  }

  /** Every record was made by some packet. */
  lemma {:induction false} RecordBegan(events: seq<Event>, proxy: SocketAddr, k: Key) returns (i: nat)
    requires k in After(events, proxy).records
    ensures Began(events, proxy, k, i)
  {
    var n := |events| - 1;
    var init, e := events[..n], events[n];
    assert events[..|events|] == events;
    if k in After(init, proxy).records && !(Sends(e, proxy, k) && After(init, proxy).records[k].flow.dst != e.packet.dst) {
      i := RecordBegan(init, proxy, k);
      BeganMakesRecord(init, proxy, k, i);
      BeganLonger(events, proxy, k, i);
    } else {
      i := n;
    }
  }

  /** Over every run, with any number of local addresses: a reply is answered exactly if its port
      is on record, and with the reverse of the most recent flow exactly if the packet that made
      the record came from the same sender. */
  lemma ReplyExactIff(events: seq<Event>, proxy: SocketAddr, reply: Event, i: nat)
    requires IsReply(reply, proxy) && !proxy.v6 && Began(events, proxy, Key(false, reply.packet.dst.port), i)
    ensures var last := LastFlow(events, proxy, Key(false, reply.packet.dst.port));
            && last.Some?
            && (Answer(After(events, proxy), reply, proxy) == Some(Reverse(last.value)) <==> events[i].packet.src == last.value.src)
  {
    var k := Key(false, reply.packet.dst.port);
    BeganMakesRecord(events, proxy, k, i);
    RecordFollowsLast(events, proxy, k);
  }

  /** All senders behind the device share one address. */
  predicate OneLocalIp(events: seq<Event>, proxy: SocketAddr, ip: nat) {
    forall i :: 0 <= i < |events| && Outbound(events[i], proxy) ==> events[i].packet.src.ip == ip
  }

  lemma {:induction false} LastFlowIsSent(events: seq<Event>, proxy: SocketAddr, k: Key) returns (i: nat)
    requires LastFlow(events, proxy, k).Some?
    ensures i < |events| && Sends(events[i], proxy, k) && LastFlow(events, proxy, k) == Some(events[i].packet)
  {
    i := |events| - 1;
    if !Sends(events[i], proxy, k) {
      i := LastFlowIsSent(events[..i], proxy, k);
    }
  }

  /** With one local address, every answered reply carries the exact reverse of the most recent
      outbound flow from its port. */
  lemma RepliesReverse(events: seq<Event>, proxy: SocketAddr, ip: nat, reply: Event)
    requires OneLocalIp(events, proxy, ip) && IsReply(reply, proxy) && !proxy.v6
    ensures var k := Key(false, reply.packet.dst.port);
            if exists i :: Alive(events, proxy, k, i) then
              LastFlow(events, proxy, k).Some? && Answer(After(events, proxy), reply, proxy) == Some(Reverse(LastFlow(events, proxy, k).value))
            else Answer(After(events, proxy), reply, proxy) == None
  {
    var k := Key(false, reply.packet.dst.port);
    OnRecordIff(events, proxy, k);
    if k in After(events, proxy).records {
      var i := RecordBegan(events, proxy, k);
      ReplyExactIff(events, proxy, reply, i);
      var j := LastFlowIsSent(events, proxy, k);
    }
  }

  /** The round trip: the reply to a translated packet, with no flush and nothing else sent from its
      port in between, is translated to the reverse of the packet. */
  lemma ReplyRoundTrip(events: seq<Event>, i: nat, proxy: SocketAddr, ip: nat)
    requires OneLocalIp(events, proxy, ip) && !proxy.v6
    requires i < |events| && Outbound(events[i], proxy)
    requires forall j :: i < j < |events| ==> !events[j].Flushes? && !Sends(events[j], proxy, KeyOf(events[i].packet.src))
    ensures var out := Answer(After(events[..i], proxy), events[i], proxy);
            && out.Some? && out.value.dst == proxy
            && Answer(After(events, proxy), Arrives(Reverse(out.value)), proxy) == Some(Reverse(events[i].packet))
  {
    var out := Answer(After(events[..i], proxy), events[i], proxy);
    var reply, k := Arrives(Reverse(out.value)), KeyOf(events[i].packet.src);
    LastFlowIs(events, i, proxy);
    assert Alive(events, proxy, k, i);
    RepliesReverse(events, proxy, ip, reply);
  }

  lemma {:induction false} LastFlowIs(events: seq<Event>, i: nat, proxy: SocketAddr)
    requires i < |events| && Outbound(events[i], proxy)
    requires forall j :: i < j < |events| ==> !Sends(events[j], proxy, KeyOf(events[i].packet.src))
    ensures LastFlow(events, proxy, KeyOf(events[i].packet.src)) == Some(events[i].packet)
  {
    var n := |events| - 1;
    if i < n {
      LastFlowIs(events[..n], i, proxy);
    }
  }

  /** Two hosts behind the device that use the same port towards the same server: the reply to the
      second goes to the first. */
  lemma SharedPortMisroutes(a: SocketAddr, b: SocketAddr, server: SocketAddr, proxy: SocketAddr)
    requires a != b && KeyOf(a) == KeyOf(b) && a != proxy && b != proxy
    requires !a.v6 && !server.v6 && !proxy.v6
    ensures var events := [Arrives(Flow(a, server)), Arrives(Flow(b, server))];
            var reply := Arrives(Flow(proxy, SocketAddr(false, server.ip, b.port)));
            Answer(After(events, proxy), reply, proxy) == Some(Flow(server, a))
  {
    var events := [Arrives(Flow(a, server)), Arrives(Flow(b, server))];
    assert events[..1] == [events[0]] && [events[0]][..0] == [];
    assert After([events[0]], proxy) == Table(map[KeyOf(a) := TcpSession(Flow(a, server), 0)], [2]);
  }
}
