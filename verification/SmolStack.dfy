/** The user-space TCP/IP stack of boltconn/src/transport/smol.rs: which task owns which socket.
    A socket lookup that misses, or that finds the other kind, panics in the source; here every
    lookup `socketSet[h]` is proved to hit a socket of the right kind.  What the network does to
    sockets and which random ports are drawn are parameters. */
module SmolStack {
  import opened Common

  type Handle = nat

  /** A socket, seen through the queries the stack makes. */
  datatype Socket =
    | TcpSocket(closed: bool, synSent: bool, maySend: bool, mayRecv: bool)
    | UdpSocket(open: bool)

  datatype TcpTask = TcpTask(handle: Handle, abort: nat, start: nat, halfClose: Option<nat>)

  datatype UdpTask = UdpTask(handle: Handle, abort: nat, lastActive: nat)

  datatype IoError = AddrNotAvailable | AddrInUse | ConnectionRefused

  datatype Opened = Opened(port: nat) | NotOpened(error: IoError)

  /** How `try_send` of a task ends. */
  datatype SendResult = Sent | Disconnected | Aborted

  const TIMEOUT: nat := 30

  /** `close` of a TCP socket: the sending side shuts, and an unanswered SYN is given up. */
  function Closing(s: Socket): Socket
    requires s.TcpSocket?
  {
    TcpSocket(s.closed || s.synSent, false, false, s.mayRecv && !s.synSent)
  }

  /** The task a socket belongs to. */
  datatype Owner = OfTcp(port: nat) | OfUdp(port: nat)

  /** Tasks and sockets correspond one to one, and `owner` is the way back: every task holds a
      socket of its kind, and every socket belongs to the one task that holds it. */
  ghost predicate Owned(tcp: map<nat, TcpTask>, udp: map<nat, UdpTask>, sockets: map<Handle, Socket>, owner: map<Handle, Owner>) {
    && owner.Keys == sockets.Keys
    && (forall p :: p in tcp ==> tcp[p].handle in owner && owner[tcp[p].handle] == OfTcp(p))
    && (forall p :: p in udp ==> udp[p].handle in owner && owner[udp[p].handle] == OfUdp(p))
    && (forall h :: h in owner ==> HeldBy(tcp, udp, h, owner[h]))
    && (forall h :: h in owner ==> owner[h].OfTcp? == sockets[h].TcpSocket?)
  }

  predicate HeldBy(tcp: map<nat, TcpTask>, udp: map<nat, UdpTask>, h: Handle, o: Owner) {
    match o
    case OfTcp(p) => p in tcp && tcp[p].handle == h
    case OfUdp(p) => p in udp && udp[p].handle == h
  }

  /** All handles in use are pairwise distinct, across both tables, and are exactly the handles in
      the socket set. */
  lemma HandlesDistinct(tcp: map<nat, TcpTask>, udp: map<nat, UdpTask>, sockets: map<Handle, Socket>, owner: map<Handle, Owner>)
    requires Owned(tcp, udp, sockets, owner)
    ensures forall p, q :: p in tcp && q in udp ==> tcp[p].handle != udp[q].handle
    ensures forall p, q :: p in tcp && q in tcp && tcp[p].handle == tcp[q].handle ==> p == q
    ensures forall p, q :: p in udp && q in udp && udp[p].handle == udp[q].handle ==> p == q
    ensures sockets.Keys == (set p | p in tcp :: tcp[p].handle) + (set p | p in udp :: udp[p].handle)
  {
    forall h | h in sockets
      ensures h in (set p | p in tcp :: tcp[p].handle) + (set p | p in udp :: udp[p].handle)
    {
      assert HeldBy(tcp, udp, h, owner[h]);
    }
  }

  /** A new task and its new socket. */
  lemma AddTcp(tcp: map<nat, TcpTask>, udp: map<nat, UdpTask>, sockets: map<Handle, Socket>, owner: map<Handle, Owner>, port: nat, t: TcpTask, s: Socket)
    requires Owned(tcp, udp, sockets, owner) && port !in tcp && t.handle !in sockets && s.TcpSocket?
    ensures Owned(tcp[port := t], udp, sockets[t.handle := s], owner[t.handle := OfTcp(port)])
  {
    forall h | h in owner ensures HeldBy(tcp[port := t], udp, h, owner[h]) {
      assert HeldBy(tcp, udp, h, owner[h]);
    }
  }

  lemma AddUdp(tcp: map<nat, TcpTask>, udp: map<nat, UdpTask>, sockets: map<Handle, Socket>, owner: map<Handle, Owner>, port: nat, t: UdpTask, s: Socket)
    requires Owned(tcp, udp, sockets, owner) && port !in udp && t.handle !in sockets && s.UdpSocket?
    ensures Owned(tcp, udp[port := t], sockets[t.handle := s], owner[t.handle := OfUdp(port)])
  {
    forall h | h in owner ensures HeldBy(tcp, udp[port := t], h, owner[h]) {
      assert HeldBy(tcp, udp, h, owner[h]);
    }
  }

  /** A task and its socket go together. */
  lemma DropTcp(tcp: map<nat, TcpTask>, udp: map<nat, UdpTask>, sockets: map<Handle, Socket>, owner: map<Handle, Owner>, port: nat)
    requires Owned(tcp, udp, sockets, owner) && port in tcp
    ensures Owned(tcp - {port}, udp, sockets - {tcp[port].handle}, owner - {tcp[port].handle})
  {
    forall h | h in owner && h != tcp[port].handle ensures HeldBy(tcp - {port}, udp, h, owner[h]) {
      assert HeldBy(tcp, udp, h, owner[h]);
    }
  }

  lemma DropUdp(tcp: map<nat, TcpTask>, udp: map<nat, UdpTask>, sockets: map<Handle, Socket>, owner: map<Handle, Owner>, port: nat)
    requires Owned(tcp, udp, sockets, owner) && port in udp
    ensures Owned(tcp, udp - {port}, sockets - {udp[port].handle}, owner - {udp[port].handle})
  {
    forall h | h in owner && h != udp[port].handle ensures HeldBy(tcp, udp - {port}, h, owner[h]) {
      assert HeldBy(tcp, udp, h, owner[h]);
    }
  }

  /** A task and its socket may change, as long as the handle and the kind stay. */
  lemma TouchTcp(tcp: map<nat, TcpTask>, udp: map<nat, UdpTask>, sockets: map<Handle, Socket>, owner: map<Handle, Owner>, port: nat, t: TcpTask, s: Socket)
    requires Owned(tcp, udp, sockets, owner) && port in tcp && t.handle == tcp[port].handle && s.TcpSocket?
    ensures Owned(tcp[port := t], udp, sockets[t.handle := s], owner)
  {
    forall h | h in owner ensures HeldBy(tcp[port := t], udp, h, owner[h]) {
      assert HeldBy(tcp, udp, h, owner[h]);
    }
  }

  lemma TouchUdp(tcp: map<nat, TcpTask>, udp: map<nat, UdpTask>, sockets: map<Handle, Socket>, owner: map<Handle, Owner>, port: nat, t: UdpTask, s: Socket)
    requires Owned(tcp, udp, sockets, owner) && port in udp && t.handle == udp[port].handle && s.UdpSocket?
    ensures Owned(tcp, udp[port := t], sockets[t.handle := s], owner)
  {
    forall h | h in owner ensures HeldBy(tcp, udp[port := t], h, owner[h]) {
      assert HeldBy(tcp, udp, h, owner[h]);
    }
  }

  /** The half-close deadline after a poll: one direction is shut while the other still runs. */
  function NextHalfClose(task: TcpTask, before: Socket, after: Socket, now: nat): Option<nat>
    requires before.TcpSocket? && after.TcpSocket?
  {
    if task.halfClose.Some? then task.halfClose
    else if !(before.maySend || before.synSent) && before.mayRecv then Some(now + TIMEOUT)
    else if !after.mayRecv && after.maySend then Some(now + TIMEOUT)
    else None
  }

  /** `try_send` loops while the socket can send; a socket that cannot, such as one whose SYN is
      unanswered, is done at once.  `r` is how it ends otherwise. */
  function TrySend(s: Socket, r: SendResult): SendResult
    requires s.TcpSocket?
  {
    if s.maySend then r else Sent
  }

  function AfterSend(s: Socket, r: SendResult): Socket
    requires s.TcpSocket?
  {
    if TrySend(s, r) == Sent then s else Closing(s)
  }

  /** The abort handles cancelled in a turn. */
  function AbortsOf(task: TcpTask, s: Socket, r: SendResult): set<nat>
    requires s.TcpSocket?
  {
    if TrySend(s, r) == Aborted then {task.abort} else {}
  }

  /** The branches of one turn of `poll_all_tcp`. */
  method PollSocket(task: TcpTask, s: Socket, r: SendResult, now: nat) returns (after: Socket, halfClose: Option<nat>, aborted: bool)
    requires s.TcpSocket?
    ensures after == AfterSend(s, r)
    ensures halfClose == NextHalfClose(task, s, AfterSend(s, r), now)
    ensures AbortsOf(task, s, r) == if aborted then {task.abort} else {}
  {
    after, halfClose, aborted := s, task.halfClose, false;
    if s.maySend || s.synSent {
      match TrySend(s, r)
      case Sent =>
      case Disconnected => after := Closing(s);
      case Aborted => after, aborted := Closing(s), true;
    } else if s.mayRecv && halfClose.None? {
      halfClose := Some(now + TIMEOUT);
    }
    if !after.mayRecv && after.maySend && halfClose.None? {
      halfClose := Some(now + TIMEOUT);
    }
  }

  /** What a turn means for a task.  A deadline once set never moves; a new one is half a minute
      away, and is set exactly if one direction is shut while the other is still in use.  Only a
      failed send shuts the sending side, and only an aborted one cancels the task. */
  lemma TurnMeaning(task: TcpTask, s: Socket, r: SendResult, now: nat)
    requires s.TcpSocket?
    ensures var after, deadline := AfterSend(s, r), NextHalfClose(task, s, AfterSend(s, r), now);
            && (task.halfClose.Some? ==> deadline == task.halfClose)
            && (task.halfClose.None? && deadline.Some? ==> deadline.value == now + TIMEOUT)
            && (!s.synSent && after == s ==> (deadline.Some? <==> task.halfClose.Some? || s.maySend != s.mayRecv))
            && (after != s ==> r != Sent && !after.maySend)
            && (r != Sent && s.maySend ==> !after.maySend && !after.synSent)
            && (after != s ==> deadline == task.halfClose)
            && (after != s && !s.synSent ==> after.mayRecv == s.mayRecv && after.closed == s.closed)
            && (AbortsOf(task, s, r) != {} ==> r == Aborted)
            && (s.maySend && r == Aborted ==> AbortsOf(task, s, r) == {task.abort})
  {
  }

  /** So a socket that stays half closed is purged half a minute after its first turn as such, and
      not earlier. */
  lemma HalfClosedIsPurged(task: TcpTask, s: Socket, now: nat, later: nat)
    requires s.TcpSocket? && !s.closed && !s.synSent && s.maySend != s.mayRecv && task.halfClose.None?
    ensures var task' := task.(halfClose := NextHalfClose(task, s, AfterSend(s, Sent), now));
            Invalid(task', AfterSend(s, Sent), later) <==> later >= now + TIMEOUT
  {
    TurnMeaning(task, s, Sent, now);
  }

  /** A closed socket is purged, and one in use in both directions is not. */
  lemma PurgeSparesTheLiving(task: TcpTask, s: Socket, now: nat)
    requires s.TcpSocket?
    ensures s.closed ==> Invalid(task, s, now)
    ensures !s.closed && !s.synSent && task.halfClose.None? ==> !Invalid(task, s, now)
  {
  }

  /** A connection attempt that has not been answered. */
  const CONNECTING: Socket := TcpSocket(false, true, false, false)

  /** A turn does nothing to an unanswered attempt, even if its sender is gone; it is purged exactly
      when more than half a minute has passed since its start. */
  lemma UnansweredIsPurged(task: TcpTask, r: SendResult, now: nat, later: nat)
    requires task.halfClose.None?
    ensures AfterSend(CONNECTING, r) == CONNECTING && AbortsOf(task, CONNECTING, r) == {}
    ensures NextHalfClose(task, CONNECTING, CONNECTING, now) == None
    ensures Invalid(task, CONNECTING, later) <==> later - task.start > TIMEOUT
  {
  }

  /** The tables before and after the turn of the task at `port`. */
  ghost predicate TcpTurn(tcp: map<nat, TcpTask>, sockets: map<Handle, Socket>, tcp': map<nat, TcpTask>, sockets': map<Handle, Socket>,
                          port: nat, r: SendResult, now: nat)
  {
    && port in tcp && tcp[port].handle in sockets
    && var t, s := tcp[port], sockets[tcp[port].handle];
    && s.TcpSocket?
    && sockets' == sockets[t.handle := AfterSend(s, r)]
    && tcp' == tcp[port := t.(halfClose := NextHalfClose(t, s, AfterSend(s, r), now))]
  }

  /** `poll_all_tcp` still owes the ports in `todo` a turn; every other task has had one. */
  ghost predicate Polled(tcp: map<nat, TcpTask>, sockets: map<Handle, Socket>, tcp': map<nat, TcpTask>, sockets': map<Handle, Socket>,
                         todo: set<nat>, results: nat -> SendResult, clock: nat -> nat)
  {
    && tcp'.Keys == tcp.Keys && sockets'.Keys == sockets.Keys
    && (forall p :: p in tcp ==> tcp[p].handle in sockets && sockets[tcp[p].handle].TcpSocket?)
    && (forall h :: h in sockets && !sockets[h].TcpSocket? ==> sockets'[h] == sockets[h])
    && (forall p :: p in tcp ==> PolledOne(tcp[p], sockets[tcp[p].handle], tcp'[p], sockets'[tcp[p].handle], p in todo, results(p), clock(p)))
  }

  predicate PolledOne(t: TcpTask, s: Socket, t': TcpTask, s': Socket, owed: bool, r: SendResult, now: nat)
    requires s.TcpSocket?
  {
    if owed then t' == t && s' == s
    else s' == AfterSend(s, r) && t' == t.(halfClose := NextHalfClose(t, s, AfterSend(s, r), now))
  }

  /** A turn touches no other task's socket, because no two tasks share one. */
  lemma PollNext(tcp: map<nat, TcpTask>, udp: map<nat, UdpTask>, sockets: map<Handle, Socket>, owner: map<Handle, Owner>,
                 tcp1: map<nat, TcpTask>, sockets1: map<Handle, Socket>, tcp2: map<nat, TcpTask>, sockets2: map<Handle, Socket>,
                 todo: set<nat>, results: nat -> SendResult, clock: nat -> nat, port: nat)
    requires Owned(tcp, udp, sockets, owner) && port in todo && port in tcp
    requires Polled(tcp, sockets, tcp1, sockets1, todo, results, clock)
    requires TcpTurn(tcp1, sockets1, tcp2, sockets2, port, results(port), clock(port))
    ensures Polled(tcp, sockets, tcp2, sockets2, todo - {port}, results, clock)
  {
    assert PolledOne(tcp[port], sockets[tcp[port].handle], tcp1[port], sockets1[tcp[port].handle], true, results(port), clock(port));
    forall p | p in tcp
      ensures PolledOne(tcp[p], sockets[tcp[p].handle], tcp2[p], sockets2[tcp[p].handle], p in todo - {port}, results(p), clock(p))
    {
      assert p != port ==> owner[tcp[p].handle] != owner[tcp[port].handle];
    }
  }

  /** The handles cancelled so far, when the ports in `todo` have not had their turn. */
  ghost predicate Told(tcp: map<nat, TcpTask>, sockets: map<Handle, Socket>, todo: set<nat>, results: nat -> SendResult,
                       before: set<nat>, after: set<nat>)
  {
    && (forall p :: p in tcp ==> tcp[p].handle in sockets && sockets[tcp[p].handle].TcpSocket?)
    && before <= after
    && (forall p :: p in tcp && p !in todo ==> AbortsOf(tcp[p], sockets[tcp[p].handle], results(p)) <= after)
    && (forall a :: a in after && a !in before ==>
          exists p :: p in tcp && p !in todo && a in AbortsOf(tcp[p], sockets[tcp[p].handle], results(p)))
  }

  lemma TellNext(tcp: map<nat, TcpTask>, sockets: map<Handle, Socket>, todo: set<nat>, results: nat -> SendResult,
                 before: set<nat>, told: set<nat>, after: set<nat>, port: nat)
    requires Told(tcp, sockets, todo, results, before, told) && port in tcp
    requires after == told + AbortsOf(tcp[port], sockets[tcp[port].handle], results(port))
    ensures Told(tcp, sockets, todo - {port}, results, before, after)
  {
    forall a | a in after && a !in before
      ensures exists p :: p in tcp && p !in todo - {port} && a in AbortsOf(tcp[p], sockets[tcp[p].handle], results(p))
    {
      if a in told {
        var p :| p in tcp && p !in todo && a in AbortsOf(tcp[p], sockets[tcp[p].handle], results(p));
        assert p !in todo - {port};
      } else {
        assert port !in todo - {port};
      }
    }
  }

  /** A task that has not had its turn is as it was. */
  lemma SameBefore(tcp: map<nat, TcpTask>, sockets: map<Handle, Socket>, tcp': map<nat, TcpTask>, sockets': map<Handle, Socket>,
                   todo: set<nat>, results: nat -> SendResult, clock: nat -> nat, port: nat)
    requires Polled(tcp, sockets, tcp', sockets', todo, results, clock) && port in todo && port in tcp
    ensures tcp'[port] == tcp[port] && sockets'[tcp[port].handle] == sockets[tcp[port].handle]
  {
    assert PolledOne(tcp[port], sockets[tcp[port].handle], tcp'[port], sockets'[tcp[port].handle], true, results(port), clock(port));
  }

  /** `purge_invalid_tcp` drops these. */
  predicate Invalid(task: TcpTask, s: Socket, now: nat) {
    s.TcpSocket? &&
    (|| s.closed
     || (task.halfClose.Some? && now >= task.halfClose.value)
     || (s.synSent && now - task.start > TIMEOUT))
  }

  /** A purge that still has to look at the ports in `todo` went from the first tables to the
      second: only expired tasks are gone, and those have been told. */
  ghost predicate Purged<Task>(tasks: map<nat, Task>, left: map<nat, Task>, todo: set<nat>, expired: set<nat>) {
    && todo <= left.Keys <= tasks.Keys
    && (forall p :: p in left ==> left[p] == tasks[p])
    && (forall p :: p in tasks && p !in todo ==> (p in left <==> p !in expired))
  }

  lemma PurgeNext<Task>(tasks: map<nat, Task>, left: map<nat, Task>, todo: set<nat>, expired: set<nat>, port: nat)
    requires Purged(tasks, left, todo, expired) && port in todo
    ensures Purged(tasks, if port in expired then left - {port} else left, todo - {port}, expired)
  {
  }

  ghost function TcpAborts(tcp: map<nat, TcpTask>): map<nat, nat> { map p | p in tcp :: tcp[p].abort }

  ghost function UdpAborts(udp: map<nat, UdpTask>): map<nat, nat> { map p | p in udp :: udp[p].abort }

  /** Of the tasks with these abort handles exactly those not in `left` have been cancelled. */
  ghost predicate GoneTold(aborts: map<nat, nat>, left: set<nat>, before: set<nat>, after: set<nat>) {
    && before <= after
    && (forall p :: p in aborts && p !in left ==> aborts[p] in after)
    && (forall a :: a in after && a !in before ==> exists p :: p in aborts && p !in left && aborts[p] == a)
  }

  lemma OneMoreGone(aborts: map<nat, nat>, left: set<nat>, before: set<nat>, after: set<nat>, port: nat)
    requires GoneTold(aborts, left, before, after) && port in aborts
    ensures GoneTold(aborts, left - {port}, before, after + {aborts[port]})
  {
    forall a | a in after + {aborts[port]} && a !in before
      ensures exists p :: p in aborts && p !in left - {port} && aborts[p] == a
    {
      if a in after {
        var p :| p in aborts && p !in left && aborts[p] == a;
        assert p !in left - {port};
      } else {
        assert port !in left - {port};
      }
    }
  }

  /** A port can be had: the one asked for, or one of those drawn. */
  ghost predicate PortFree(localPort: nat, draws: seq<nat>, used: set<nat>) {
    if localPort != 0 then localPort !in used else exists i :: 0 <= i < |draws| && draws[i] !in used
  }

  ghost predicate Within(sockets: map<Handle, Socket>, before: map<Handle, Socket>) {
    forall h :: h in sockets ==> h in before && sockets[h] == before[h]
  }

  class SmolStack {
    var tcpConn: map<nat, TcpTask>
    var udpConn: map<nat, UdpTask>
    var socketSet: map<Handle, Socket>
    var cancelled: set<nat>        // abort handles on which `cancel` was called
    const udpTimeout: nat
    ghost var owner: map<Handle, Owner>

    ghost predicate Valid()
      reads this
    {
      Owned(tcpConn, udpConn, socketSet, owner)
    }

    constructor (udpTimeout: nat)
      ensures Valid() && tcpConn == map[] && udpConn == map[] && socketSet == map[] && cancelled == {}
      ensures this.udpTimeout == udpTimeout
    {
      tcpConn, udpConn, socketSet, cancelled, owner := map[], map[], map[], {}, map[];
      this.udpTimeout := udpTimeout;
    }

    /** `SocketSet::add` puts a socket into the first free slot. */
    method FreeSlot() returns (h: Handle)
      ensures h !in socketSet && forall i :: 0 <= i < h ==> i in socketSet
    {
      h := 0;
      ghost var left := socketSet.Keys;
      while h in socketSet
        invariant forall i :: 0 <= i < h ==> i in socketSet
        invariant forall k :: k in left <==> k in socketSet && k >= h
        decreases left
      {
        left := left - {h};
        h := h + 1;
      }
    }

    /** The network moves the sockets along (`drive_iface`); it adds and removes none. */
    method DriveIface(next: map<Handle, Socket>)
      requires Valid()
      requires SameKinds(socketSet, next)
      modifies this`socketSet
      ensures Valid() && socketSet == next
    {
      socketSet := next;
    }

    /** The local port to use: the one asked for, or the first free one among the random draws. */
    method PickPort(localPort: nat, draws: seq<nat>, used: set<nat>) returns (port: Option<nat>)
      ensures localPort != 0 ==> port == if localPort in used then None else Some(localPort)
      ensures localPort == 0 ==> (port.None? <==> forall i :: 0 <= i < |draws| ==> draws[i] in used)
      ensures localPort == 0 && port.Some? ==>
                exists i :: 0 <= i < |draws| && draws[i] == port.value && forall j :: 0 <= j < i ==> draws[j] in used
      ensures port.Some? ==> port.value !in used
    {
      if localPort != 0 {
        return if localPort in used then None else Some(localPort);
      }
      for i := 0 to |draws|
        invariant forall j :: 0 <= j < i ==> draws[j] in used
      {
        if draws[i] !in used {
          return Some(draws[i]);
        }
      }
      return None;
    }

    /** `open_tcp`; `draws` are ten random ports, `addrOk` tells whether the interface has an
        address of the remote's family and `connectOk` whether the socket accepts to connect. */
    method OpenTcp(localPort: nat, draws: seq<nat>, addrOk: bool, connectOk: bool, abort: nat, now: nat) returns (r: Opened)
      requires Valid() && |draws| == 10
      modifies this`tcpConn, this`socketSet, this`owner
      ensures Valid()
      ensures r.Opened? ==>
                && r.port !in old(tcpConn) && (if localPort == 0 then r.port in draws else r.port == localPort)
                && r.port in tcpConn && tcpConn == old(tcpConn)[r.port := TcpTask(tcpConn[r.port].handle, abort, now, None)]
                && tcpConn[r.port].handle !in old(socketSet)
                && socketSet == old(socketSet)[tcpConn[r.port].handle := CONNECTING]
      // a failed open changes nothing, so no socket leaks
      ensures r.NotOpened? ==> tcpConn == old(tcpConn) && socketSet == old(socketSet)
      // when it succeeds, and which error it gives otherwise
      ensures var free := PortFree(localPort, draws, old(tcpConn.Keys));
              && (r.Opened? <==> free && addrOk && connectOk)
              && (r == NotOpened(AddrInUse) <==> localPort != 0 && !free)
              && (r == NotOpened(AddrNotAvailable) <==> if free then !addrOk else localPort == 0)
              && (r == NotOpened(ConnectionRefused) <==> free && addrOk && !connectOk)
    {
      var port := PickPort(localPort, draws, tcpConn.Keys);
      if port.None? {
        return NotOpened(if localPort == 0 then AddrNotAvailable else AddrInUse);
      }
      if !addrOk {
        return NotOpened(AddrNotAvailable);
      }
      if !connectOk {
        return NotOpened(ConnectionRefused);
      }
      var h := FreeSlot();
      var task := TcpTask(h, abort, now, None);
      AddTcp(tcpConn, udpConn, socketSet, owner, port.value, task, CONNECTING);
      socketSet := socketSet[h := CONNECTING];
      tcpConn, owner := tcpConn[port.value := task], owner[h := OfTcp(port.value)];
      return Opened(port.value);
    }

    /** `open_udp_extended` */
    method OpenUdp(localPort: nat, draws: seq<nat>, addrOk: bool, bindOk: bool, abort: nat, now: nat) returns (r: Opened)
      requires Valid() && |draws| == 10
      modifies this`udpConn, this`socketSet, this`owner
      ensures Valid()
      ensures r.Opened? ==>
                && r.port !in old(udpConn) && (if localPort == 0 then r.port in draws else r.port == localPort)
                && r.port in udpConn && udpConn == old(udpConn)[r.port := UdpTask(udpConn[r.port].handle, abort, now)]
                && udpConn[r.port].handle !in old(socketSet)
                && socketSet == old(socketSet)[udpConn[r.port].handle := UdpSocket(true)]
      // a failed open changes nothing, so no socket leaks
      ensures r.NotOpened? ==> udpConn == old(udpConn) && socketSet == old(socketSet)
      // when it succeeds, and which error it gives otherwise
      ensures var free := PortFree(localPort, draws, old(udpConn.Keys));
              && (r.Opened? <==> free && addrOk && bindOk)
              && (r == NotOpened(AddrInUse) <==> localPort != 0 && !free)
              && (r == NotOpened(AddrNotAvailable) <==> if free then !addrOk else localPort == 0)
              && (r == NotOpened(ConnectionRefused) <==> free && addrOk && !bindOk)
    {
      var port := PickPort(localPort, draws, udpConn.Keys);
      if port.None? {
        return NotOpened(if localPort == 0 then AddrNotAvailable else AddrInUse);
      }
      if !addrOk {
        return NotOpened(AddrNotAvailable);
      }
      if !bindOk {
        return NotOpened(ConnectionRefused);
      }
      var h := FreeSlot();
      var task := UdpTask(h, abort, now);
      AddUdp(tcpConn, udpConn, socketSet, owner, port.value, task, UdpSocket(true));
      socketSet := socketSet[h := UdpSocket(true)];
      udpConn, owner := udpConn[port.value := task], owner[h := OfUdp(port.value)];
      return Opened(port.value);
    }

    /** One task's turn in `poll_all_tcp`. */
    method PollTcp(port: nat, r: SendResult, now: nat)
      requires Valid() && port in tcpConn
      modifies this`tcpConn, this`socketSet, this`cancelled
      ensures Valid()
      ensures tcpConn[port].handle in socketSet
      ensures TcpTurn(old(tcpConn), old(socketSet), tcpConn, socketSet, port, r, now)
      ensures cancelled == old(cancelled) + AbortsOf(old(tcpConn)[port], old(socketSet)[old(tcpConn)[port].handle], r)
    {
      var task := tcpConn[port];
      var after, halfClose, aborted := PollSocket(task, socketSet[task.handle], r, now);
      TouchTcp(tcpConn, udpConn, socketSet, owner, port, task.(halfClose := halfClose), after);
      socketSet := socketSet[task.handle := after];
      tcpConn := tcpConn[port := task.(halfClose := halfClose)];
      cancelled := cancelled + if aborted then {task.abort} else {};
    }

    /** `poll_all_tcp`: every task gets exactly one turn, on its own socket, whatever the order; the
        tasks whose send was aborted, and no others, are cancelled.  `clock` is what the clock shows
        at each task's turn. */
    method PollAllTcp(results: nat -> SendResult, clock: nat -> nat)
      requires Valid()
      modifies this`tcpConn, this`socketSet, this`cancelled
      ensures Valid()
      ensures Polled(old(tcpConn), old(socketSet), tcpConn, socketSet, {}, results, clock)
      ensures Told(old(tcpConn), old(socketSet), {}, results, old(cancelled), cancelled)
    {
      var todo := tcpConn.Keys;
      while todo != {}
        invariant Valid() && owner == old(owner) && todo <= tcpConn.Keys
        invariant Polled(old(tcpConn), old(socketSet), tcpConn, socketSet, todo, results, clock)
        invariant Told(old(tcpConn), old(socketSet), todo, results, old(cancelled), cancelled)
        decreases todo
      {
        var port :| port in todo;
        ghost var tcp, sockets, told := tcpConn, socketSet, cancelled;
        PollTcp(port, results(port), clock(port));
        PollNext(old(tcpConn), old(udpConn), old(socketSet), owner, tcp, sockets, tcpConn, socketSet, todo, results, clock, port);
        SameBefore(old(tcpConn), old(socketSet), tcp, sockets, todo, results, clock, port);
        TellNext(old(tcpConn), old(socketSet), todo, results, old(cancelled), told, cancelled, port);
        todo := todo - {port};
      }
    }

    /** One task's turn in `poll_all_udp`; `sent` and `received` tell whether any packet was. */
    method PollUdp(port: nat, r: SendResult, sent: bool, received: bool, now: nat)
      requires Valid() && port in udpConn
      modifies this`udpConn, this`socketSet, this`cancelled
      ensures Valid()
      ensures var t, s := old(udpConn)[port], old(socketSet)[old(udpConn)[port].handle];
              // an idle task whose sender is gone is closed; one that has just sent is not idle
              var close := s.UdpSocket? && s.open && (r == Aborted || (r == Disconnected && !sent && now - t.lastActive > TIMEOUT));
              && s.UdpSocket?
              && socketSet == old(socketSet)[t.handle := UdpSocket(s.open && !close)]
              && udpConn == old(udpConn)[port := t.(lastActive := if s.open && (sent || received) then now else t.lastActive)]
              && cancelled == old(cancelled) + (if close then {t.abort} else {})
    {
      var task := udpConn[port];
      var s := socketSet[task.handle];
      var after := s;
      if s.open {
        if sent {
          task := task.(lastActive := now);
        }
        if r == Aborted || (r == Disconnected && now - task.lastActive > TIMEOUT) {
          after := UdpSocket(false);
          cancelled := cancelled + {task.abort};
        }
        if received {
          task := task.(lastActive := now);
        }
      }
      TouchUdp(tcpConn, udpConn, socketSet, owner, port, task, after);
      socketSet := socketSet[task.handle := after];
      udpConn := udpConn[port := task];
    }

    ghost function ExpiredTcp(now: nat): set<nat>
      reads this
    {
      set p | p in tcpConn && tcpConn[p].handle in socketSet && Invalid(tcpConn[p], socketSet[tcpConn[p].handle], now)
    }

    ghost function ExpiredUdp(now: nat): set<nat>
      reads this
    {
      set p | p in udpConn && now - udpConn[p].lastActive > udpTimeout
    }

    /** One round of `purge_invalid_tcp`. */
    method PurgeTcp(port: nat, now: nat)
      requires Valid() && port in tcpConn
      modifies this`tcpConn, this`socketSet, this`cancelled, this`owner
      ensures Valid()
      ensures var t := old(tcpConn)[port];
              t.handle in old(socketSet) && old(socketSet)[t.handle].TcpSocket? &&
              if Invalid(t, old(socketSet)[t.handle], now) then
                tcpConn == old(tcpConn) - {port} && socketSet == old(socketSet) - {t.handle}
                && cancelled == old(cancelled) + {t.abort}
              else
                tcpConn == old(tcpConn) && socketSet == old(socketSet) && cancelled == old(cancelled)
    {
      var task := tcpConn[port];
      if Invalid(task, socketSet[task.handle], now) {
        DropTcp(tcpConn, udpConn, socketSet, owner, port);
        socketSet, owner := socketSet - {task.handle}, owner - {task.handle};
        tcpConn := tcpConn - {port};
        cancelled := cancelled + {task.abort};
      }
    }

    /** `purge_invalid_tcp`: exactly the invalid tasks go, each with its socket, and each is told. */
    method PurgeInvalidTcp(now: nat)
      requires Valid()
      modifies this`tcpConn, this`socketSet, this`cancelled, this`owner
      ensures Valid()
      ensures Purged(old(tcpConn), tcpConn, {}, old(ExpiredTcp(now)))
      ensures Within(socketSet, old(socketSet))
      // the tasks that go, and no others, are told
      ensures GoneTold(TcpAborts(old(tcpConn)), tcpConn.Keys, old(cancelled), cancelled)
    {
      ghost var expired := ExpiredTcp(now);
      var todo := tcpConn.Keys;
      while todo != {}
        invariant Valid() && Purged(old(tcpConn), tcpConn, todo, expired)
        invariant Within(socketSet, old(socketSet))
        invariant GoneTold(TcpAborts(old(tcpConn)), tcpConn.Keys, old(cancelled), cancelled)
        decreases todo
      {
        var port :| port in todo;
        PurgeNext(old(tcpConn), tcpConn, todo, expired, port);
        OneMoreGone(TcpAborts(old(tcpConn)), tcpConn.Keys, old(cancelled), cancelled, port);
        todo := todo - {port};
        PurgeTcp(port, now);
      }
    }

    /** One round of `purge_timeout_udp`. */
    method PurgeUdp(port: nat, now: nat)
      requires Valid() && port in udpConn
      modifies this`udpConn, this`socketSet, this`cancelled, this`owner
      ensures Valid()
      ensures var t := old(udpConn)[port];
              if now - t.lastActive > udpTimeout then
                udpConn == old(udpConn) - {port} && socketSet == old(socketSet) - {t.handle}
                && cancelled == old(cancelled) + {t.abort}
              else
                udpConn == old(udpConn) && socketSet == old(socketSet) && cancelled == old(cancelled)
    {
      var task := udpConn[port];
      if now - task.lastActive > udpTimeout {
        DropUdp(tcpConn, udpConn, socketSet, owner, port);
        socketSet, owner := socketSet - {task.handle}, owner - {task.handle};
        udpConn := udpConn - {port};
        cancelled := cancelled + {task.abort};
      }
    }

    /** `purge_timeout_udp`: exactly the tasks idle for too long go, with their sockets. */
    method PurgeTimeoutUdp(now: nat)
      requires Valid()
      modifies this`udpConn, this`socketSet, this`cancelled, this`owner
      ensures Valid()
      ensures Purged(old(udpConn), udpConn, {}, old(ExpiredUdp(now)))
      ensures Within(socketSet, old(socketSet))
      // the tasks that go, and no others, are told
      ensures GoneTold(UdpAborts(old(udpConn)), udpConn.Keys, old(cancelled), cancelled)
    {
      ghost var expired := ExpiredUdp(now);
      var todo := udpConn.Keys;
      while todo != {}
        invariant Valid() && Purged(old(udpConn), udpConn, todo, expired)
        invariant Within(socketSet, old(socketSet))
        invariant GoneTold(UdpAborts(old(udpConn)), udpConn.Keys, old(cancelled), cancelled)
        decreases todo
      {
        var port :| port in todo;
        PurgeNext(old(udpConn), udpConn, todo, expired, port);
        OneMoreGone(UdpAborts(old(udpConn)), udpConn.Keys, old(cancelled), cancelled, port);
        todo := todo - {port};
        PurgeUdp(port, now);
      }
    }

    /** The task at `port` is `t`, an unanswered connection attempt. */
    ghost predicate Attempt(port: nat, t: TcpTask)
      reads this
    {
      && port in tcpConn && tcpConn[port] == t && t.halfClose.None?
      && t.handle in socketSet && socketSet[t.handle] == CONNECTING
    }

    /** One operation.  An attempt that the network does not answer in it is as it was, or gone if
        this is a purge more than half a minute after its start. */
    method Step(op: Op, ghost port: nat, ghost t: TcpTask)
      requires Valid()
      modifies this
      ensures Valid()
      ensures old(Attempt(port, t)) && Silent(op, t.handle) ==> if Late(op, t) then port !in tcpConn else Attempt(port, t)
      // and what each operation is for
      ensures op.Open? && op.tcp ==>
                udpConn == old(udpConn) && (tcpConn.Keys != old(tcpConn.Keys) <==> PortFree(op.localPort, op.draws, old(tcpConn.Keys)) && op.addrOk && op.socketOk)
      ensures op.Open? && !op.tcp ==>
                tcpConn == old(tcpConn) && (udpConn.Keys != old(udpConn.Keys) <==> PortFree(op.localPort, op.draws, old(udpConn.Keys)) && op.addrOk && op.socketOk)
      ensures op.Drive? && SameKinds(old(socketSet), op.next) ==> socketSet == op.next
      ensures op.PollsTcp? ==> Polled(old(tcpConn), old(socketSet), tcpConn, socketSet, {}, op.results, op.clock)
      ensures op.PollsUdp? && op.port in old(udpConn) && old(socketSet)[old(udpConn)[op.port].handle] == UdpSocket(true) && op.received ==>
                op.port in udpConn && udpConn[op.port].lastActive == op.now
      ensures op.Purge? ==> forall p :: p in udpConn ==> op.now - udpConn[p].lastActive <= udpTimeout
    {
      match op
      case Open(tcp, localPort, draws, addrOk, socketOk, abort, now) =>
        if tcp {
          var _ := OpenTcp(localPort, draws, addrOk, socketOk, abort, now);
        } else {
          var _ := OpenUdp(localPort, draws, addrOk, socketOk, abort, now);
        }
      case Drive(next) =>
        if SameKinds(socketSet, next) {
          DriveIface(next);
        }
      case PollsTcp(results, clock) =>
        PollAllTcp(results, clock);
        if old(Attempt(port, t)) {
          PolledAttempt(old(tcpConn), old(socketSet), tcpConn, socketSet, results, clock, port, t);
        }
      case PollsUdp(udpPort, r, sent, received, now) =>
        if udpPort in udpConn {
          PollUdp(udpPort, r, sent, received, now);
        }
      case Purge(now) =>
        PurgeInvalidTcp(now);
        PurgeTimeoutUdp(now);
    }

    /** After any run of opens, polls, purges and network activity, the handles of all tasks are
        pairwise distinct, of the right kind, and exactly those in the socket set.  And an attempt
        `t` that is never answered stays as it is until the first purge more than half a minute
        after its start, and is gone after that one. */
    method Run(ops: seq<Op>, ghost port: nat, ghost t: TcpTask)
      requires Valid()
      modifies this
      ensures Valid()
      ensures forall p, q :: p in tcpConn && q in udpConn ==> tcpConn[p].handle != udpConn[q].handle
      ensures forall p, q :: p in tcpConn && q in tcpConn && tcpConn[p].handle == tcpConn[q].handle ==> p == q
      ensures forall p, q :: p in udpConn && q in udpConn && udpConn[p].handle == udpConn[q].handle ==> p == q
      ensures forall p :: p in tcpConn ==> tcpConn[p].handle in socketSet && socketSet[tcpConn[p].handle].TcpSocket?
      ensures forall p :: p in udpConn ==> udpConn[p].handle in socketSet && socketSet[udpConn[p].handle].UdpSocket?
      ensures socketSet.Keys == (set p | p in tcpConn :: tcpConn[p].handle) + (set p | p in udpConn :: udpConn[p].handle)
      ensures old(Attempt(port, t)) && NeverAnswered(ops, t.handle) && NoneLate(ops, t) ==> Attempt(port, t)
      ensures old(Attempt(port, t)) && NeverAnswered(ops, t.handle) && ops != [] && NoneLate(ops[..|ops| - 1], t) && Late(ops[|ops| - 1], t) ==>
                port !in tcpConn
    {
      for i := 0 to |ops|
        invariant Valid()
        invariant old(Attempt(port, t)) && NeverAnswered(ops, t.handle) && NoneLate(ops[..i], t) ==> Attempt(port, t)
        invariant i == |ops| > 0 && old(Attempt(port, t)) && NeverAnswered(ops, t.handle) && NoneLate(ops[..i - 1], t) && Late(ops[i - 1], t) ==>
                    port !in tcpConn
      {
        NoneLateSnoc(ops, i, t);
        Step(ops[i], port, t);
      }
      assert ops[..|ops|] == ops;
      HandlesDistinct(tcpConn, udpConn, socketSet, owner);
    }
  }

  /** The operation does not bring an answer to the attempt with this socket. */
  predicate Silent(op: Op, h: Handle) { op.Drive? && h in op.next ==> op.next[h] == CONNECTING }

  predicate NeverAnswered(ops: seq<Op>, h: Handle) { forall i :: 0 <= i < |ops| ==> Silent(ops[i], h) }

  /** A purge after the time limit of the attempt. */
  predicate Late(op: Op, t: TcpTask) { op.Purge? && op.now - t.start > TIMEOUT }

  predicate NoneLate(ops: seq<Op>, t: TcpTask) { forall i :: 0 <= i < |ops| ==> !Late(ops[i], t) }

  lemma NoneLateSnoc(ops: seq<Op>, i: nat, t: TcpTask)
    requires i < |ops|
    ensures NoneLate(ops[..i + 1], t) <==> NoneLate(ops[..i], t) && !Late(ops[i], t)
  {
    assert ops[..i + 1] == ops[..i] + [ops[i]];
  }

  lemma PolledAttempt(tcp: map<nat, TcpTask>, sockets: map<Handle, Socket>, tcp': map<nat, TcpTask>, sockets': map<Handle, Socket>,
                      results: nat -> SendResult, clock: nat -> nat, port: nat, t: TcpTask)
    requires Polled(tcp, sockets, tcp', sockets', {}, results, clock)
    requires port in tcp && tcp[port] == t && t.halfClose.None? && sockets[t.handle] == CONNECTING
    ensures tcp'[port] == t && sockets'[t.handle] == CONNECTING
  {
    assert PolledOne(tcp[port], sockets[t.handle], tcp'[port], sockets'[t.handle], false, results(port), clock(port));
    UnansweredIsPurged(t, results(port), clock(port), 0);
  }

  predicate SameKinds(sockets: map<Handle, Socket>, next: map<Handle, Socket>) {
    next.Keys == sockets.Keys && forall h :: h in next ==> next[h].TcpSocket? == sockets[h].TcpSocket?
  }

  /** Ten random ports. */
  type Draws = d: seq<nat> | |d| == 10 witness [0, 0, 0, 0, 0, 0, 0, 0, 0, 0]

  datatype Op =
    | Open(tcp: bool, localPort: nat, draws: Draws, addrOk: bool, socketOk: bool, abort: nat, now: nat)
    | Drive(next: map<Handle, Socket>)
    | PollsTcp(results: nat -> SendResult, clock: nat -> nat)
    | PollsUdp(port: nat, r: SendResult, sent: bool, received: bool, now: nat)
    | Purge(now: nat)
}
