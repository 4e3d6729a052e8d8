/** Byte streams over message channels: `DuplexChan` (boltconn/src/common/duplex_chan.rs),
    `AsyncWsStream` (boltconn/src/common/async_ws_stream.rs) and `TcpConnTask::try_send`
    (boltconn/src/transport/smol.rs).  Each cuts chunks to the room it is given and must neither
    lose, repeat nor reorder a byte. */
module ByteStreams {
  import opened Common

  /** A poll that is not `Err`. */
  datatype Poll = Pending | Ready

  /** Cutting the head chunk anywhere leaves the stream as it was. */
  lemma CutHead(head: Bytes, rest: Bytes, n: nat, before: Bytes)
    requires n <= |head|
    ensures before + (head + rest) == (before + head[..n]) + (head[n..] + rest)
  {
    assert head == head[..n] + head[n..];
  }

  /** What is left of a chunk that was cut at `n`. */
  function Rest(chunk: Bytes, n: nat): Option<(Bytes, nat)>
    requires n <= |chunk|
  {
    if n == |chunk| then None else Some((chunk, n))
  }

  function Tail(pending: Option<(Bytes, nat)>): Bytes
    requires pending.Some? ==> pending.value.1 <= |pending.value.0|
  {
    if pending.Some? then pending.value.0[pending.value.1..] else []
  }

  /** The caller's buffer: the first `filled` bytes hold data. */
  class ReadBuf {
    const storage: array<Byte>
    var filled: nat

    ghost predicate Valid()
      reads this
    {
      filled <= storage.Length
    }

    ghost function Filled(): Bytes
      requires Valid()
      reads this, storage
    {
      storage[..filled]
    }

    function Remaining(): nat
      requires Valid()
      reads this
    {
      storage.Length - filled
    }

    constructor (size: nat)
      ensures Valid() && fresh(storage) && storage.Length == size && Filled() == []
    {
      storage := new Byte[size](_ => 0);
      filled := 0;
    }

    method PutSlice(data: Bytes)
      requires Valid() && |data| <= Remaining()
      modifies this`filled, storage
      ensures Valid() && Filled() == old(Filled()) + data
    {
      for i := 0 to |data|
        invariant storage[..filled] == old(storage[..filled])
        invariant storage[filled..filled + i] == data[..i]
        modifies storage
      {
        storage[filled + i] := data[i];
      }
      assert storage[..filled + |data|] == storage[..filled] + storage[filled..filled + |data|];
      filled := filled + |data|;
    }

    /** Copy what fits of `chunk[offset..]`, and return what is left. */
    method Fill(chunk: Bytes, offset: nat) returns (pending: Option<(Bytes, nat)>)
      requires Valid() && offset <= |chunk|
      modifies this`filled, storage
      ensures Valid() && pending == Rest(chunk, offset + Min(|chunk| - offset, old(Remaining())))
      ensures Filled() == old(Filled()) + chunk[offset..][..Min(|chunk| - offset, old(Remaining()))]
      ensures Filled() + Tail(pending) == old(Filled()) + chunk[offset..]
    {
      var remaining := |chunk| - offset;
      CutHead(chunk[offset..], [], Min(remaining, Remaining()), Filled());
      if remaining <= Remaining() {
        PutSlice(chunk[offset..]);
        return None;
      }
      remaining := Remaining();
      PutSlice(chunk[offset..offset + remaining]);
      return Some((chunk, offset + remaining));
    }
  }

  // ---------------------------------------------------------------- one direction, as a value

  /** The rest of the chunk being read, if any, and the chunks behind it. */
  datatype Line = Line(pending: Bytes, chunks: seq<Bytes>)

  function Unread(l: Line): Bytes { l.pending + Flatten(l.chunks) }

  /** The chunk the next read cuts from. */
  function Head(l: Line): Bytes {
    if l.pending != [] then l.pending else if l.chunks != [] then l.chunks[0] else []
  }

  function ReadLine(l: Line, room: nat): (Bytes, Line) {
    var later := if l.pending != [] || l.chunks == [] then l.chunks else l.chunks[1..];
    if |Head(l)| <= room then (Head(l), Line([], later))
    else (Head(l)[..room], Line(Head(l)[room..], later))
  }

  lemma ReadConserves(l: Line, room: nat)
    ensures ReadLine(l, room).0 + Unread(ReadLine(l, room).1) == Unread(l)
  {
    var (data, l') := ReadLine(l, room);
    CutHead(Head(l), Flatten(l'.chunks), |data|, []);
    assert Unread(l) == Head(l) + Flatten(l'.chunks);
  }

  /** A read of a chunk that was cut at `offset`, or of the first one queued. */
  lemma ReadPending(chunk: Bytes, offset: nat, chunks: seq<Bytes>, room: nat)
    requires offset < |chunk|
    ensures var n := Min(|chunk| - offset, room);
            ReadLine(Line(chunk[offset..], chunks), room) == (chunk[offset..][..n], Line(Tail(Rest(chunk, offset + n)), chunks))
  {
    var rest := chunk[offset..];
    assert rest[..|rest|] == rest;
    if |rest| > room {
      TailOfRest(chunk, offset, room);
    }
  }

  lemma TailOfRest(chunk: Bytes, offset: nat, n: nat)
    requires offset + n <= |chunk|
    ensures Tail(Rest(chunk, offset + n)) == chunk[offset..][n..]
  {
  }

  lemma ReadQueued(chunks: seq<Bytes>, room: nat)
    requires chunks != []
    ensures var n := Min(|chunks[0]|, room);
            ReadLine(Line([], chunks), room) == (chunks[0][0..][..n], Line(Tail(Rest(chunks[0], n)), chunks[1..]))
  {
    var first := chunks[0];
    assert first[0..] == first && first[..|first|] == first;
  }

  lemma ReadAppends(before: Bytes, l: Line, room: nat)
    ensures (before + ReadLine(l, room).0) + Unread(ReadLine(l, room).1) == before + Unread(l)
  {
    ReadConserves(l, room);
    Assoc(before, ReadLine(l, room).0, Unread(ReadLine(l, room).1));
  }

  lemma EmptyRead(l: Line, room: nat)
    ensures room > 0 ==> (|ReadLine(l, room).0| == 0 <==> Head(l) == [])
  {
  }

  /** Reads of the given sizes, one after the other. */
  function ReadAll(l: Line, rooms: seq<nat>): (Bytes, Line) {
    if rooms == [] then ([], l)
    else
      var (data, l') := ReadAll(l, rooms[..|rooms| - 1]);
      var (more, l'') := ReadLine(l', rooms[|rooms| - 1]);
      (data + more, l'')
  }

  /** What is left to do for reads that have some room. */
  function Cost(l: Line): nat { |Unread(l)| + |l.chunks| }

  lemma ReadCosts(l: Line, room: nat)
    ensures Cost(ReadLine(l, room).1) <= Cost(l)
    ensures room > 0 && Cost(l) > 0 ==> Cost(ReadLine(l, room).1) < Cost(l)
  {
    ReadConserves(l, room);
    if l.chunks == [] {
      assert Unread(l) == l.pending;
    }
  }

  /** Whatever the sizes, reads deliver a prefix of the stream. */
  lemma {:induction false} ReadAllConserves(l: Line, rooms: seq<nat>)
    ensures ReadAll(l, rooms).0 + Unread(ReadAll(l, rooms).1) == Unread(l)
  {
    if rooms != [] {
      var n := |rooms| - 1;
      ReadAllConserves(l, rooms[..n]);
      var (data, l') := ReadAll(l, rooms[..n]);
      ReadAppends(data, l', rooms[n]);
    }
  }

  /** Each read with some room brings the end nearer. */
  lemma {:induction false} ReadAllCosts(l: Line, rooms: seq<nat>)
    requires forall i :: 0 <= i < |rooms| ==> rooms[i] > 0
    ensures Cost(ReadAll(l, rooms).1) <= if |rooms| <= Cost(l) then Cost(l) - |rooms| else 0
  {
    if rooms != [] {
      var n := |rooms| - 1;
      ReadAllCosts(l, rooms[..n]);
      ReadCosts(ReadAll(l, rooms[..n]).1, rooms[n]);
    }
  }

  /** Enough reads with some room deliver the whole stream. */
  lemma EnoughReadsDeliverAll(l: Line, rooms: seq<nat>)
    requires |rooms| >= |Unread(l)| + |l.chunks| && forall i :: 0 <= i < |rooms| ==> rooms[i] > 0
    ensures ReadAll(l, rooms).0 == Unread(l)
  {
    ReadAllConserves(l, rooms);
    ReadAllCosts(l, rooms);
    assert Unread(ReadAll(l, rooms).1) == [];
  }

  lemma ReadAllSnoc(l: Line, rooms: seq<nat>, i: nat)
    requires i < |rooms|
    ensures var (data, l') := ReadAll(l, rooms[..i]);
            ReadAll(l, rooms[..i + 1]) == (data + ReadLine(l', rooms[i]).0, ReadLine(l', rooms[i]).1)
  {
    assert rooms[..i + 1][..i] == rooms[..i];
  }

  /** Once the line is empty, reads bring nothing more. */
  lemma {:induction false} EmptyStaysEmpty(l: Line, rooms: seq<nat>, more: seq<nat>)
    requires ReadAll(l, rooms).1 == Line([], [])
    ensures ReadAll(l, rooms + more) == ReadAll(l, rooms)
    decreases |more|
  {
    if more == [] {
      assert rooms + more == rooms;
    } else {
      var last := |more| - 1;
      EmptyStaysEmpty(l, rooms, more[..last]);
      assert (rooms + more)[..|rooms| + last] == rooms + more[..last];
      NothingMore(ReadAll(l, rooms + more[..last]), ReadAll(l, rooms + more), more[last]);
    }
  }

  lemma EmptyEarly(l: Line, rooms: seq<nat>, i: nat)
    requires i < |rooms| && ReadAll(l, rooms[..i]).1 == Line([], [])
    ensures ReadAll(l, rooms[..i]).0 == ReadAll(l, rooms).0 == Unread(l)
    ensures !BusyUntil(l, rooms, |rooms|)
  {
    EmptyStaysEmpty(l, rooms[..i], rooms[i..]);
    assert rooms[..i] + rooms[i..] == rooms;
    ReadAllConserves(l, rooms);
    assert ReadAll(l, rooms).0 + [] == ReadAll(l, rooms).0;
  }

  lemma ReadAllOf(l: Line, rooms: seq<nat>)
    ensures ReadAll(l, rooms[..|rooms|]) == ReadAll(l, rooms)
    ensures Conserved(ReadAll(l, rooms).0, Unread(ReadAll(l, rooms).1), Unread(l), [])
  {
    assert rooms[..|rooms|] == rooms;
    ReadAllConserves(l, rooms);
    assert Unread(l) + [] == Unread(l);
  }

  lemma NothingMore(before: (Bytes, Line), after: (Bytes, Line), room: nat)
    requires before.1 == Line([], [])
    requires after == (before.0 + ReadLine(before.1, room).0, ReadLine(before.1, room).1)
    ensures after == before
  {
    ReadEmpty(room);
    assert before.0 + [] == before.0;
  }

  lemma ReadEmpty(room: nat)
    ensures ReadLine(Line([], []), room) == ([], Line([], []))
  {
  }

  /** None of the first `n` reads finds the line empty. */
  ghost predicate BusyUntil(l: Line, rooms: seq<nat>, n: nat)
    requires n <= |rooms|
  {
    forall j :: 0 <= j < n ==> ReadAll(l, rooms[..j]).1 != Line([], [])
  }

  lemma BusyOne(l: Line, rooms: seq<nat>, n: nat)
    requires n < |rooms| && BusyUntil(l, rooms, n) && ReadAll(l, rooms[..n]).1 != Line([], [])
    ensures BusyUntil(l, rooms, n + 1)
  {
  }

  // ---------------------------------------------------------------- DuplexChan

  /** A bounded channel with one sender. */
  class Chan {
    const capacity: nat
    var queue: seq<Bytes>
    var senderAlive: bool
    var receiverAlive: bool

    ghost predicate Valid()
      reads this
    {
      |queue| <= capacity
    }
  }

  datatype Written = WritePending | Accepted(size: nat) | WriteError

  class DuplexChan {
    const tx: Chan
    const rx: Chan
    var pendingRead: Option<(Bytes, nat)>

    /** What is pending has bytes left. */
    ghost predicate Valid()
      reads this, tx, rx
    {
      tx.Valid() && rx.Valid() && (pendingRead.Some? ==> pendingRead.value.1 < |pendingRead.value.0|)
    }

    /** All bytes that were sent to this end and not yet read. */
    ghost function View(): Line
      requires Valid()
      reads this, tx, rx
    {
      Line(Tail(pendingRead), rx.queue)
    }

    constructor (tx: Chan, rx: Chan)
      requires tx.Valid() && rx.Valid()
      ensures Valid() && this.tx == tx && this.rx == rx && View() == Line([], rx.queue)
    {
      this.tx, this.rx, pendingRead := tx, rx, None;
    }

    method PollWrite(buf: Bytes) returns (w: Written)
      requires Valid()
      modifies tx`queue
      ensures Valid()
      ensures w.WritePending? <==> |old(tx.queue)| == tx.capacity
      ensures w.WriteError? <==> |old(tx.queue)| < tx.capacity && !tx.receiverAlive
      ensures w.Accepted? ==> w.size == |buf|
      ensures tx.queue == if w.Accepted? then old(tx.queue) + [buf] else old(tx.queue)
    {
      if |tx.queue| == tx.capacity {
        return WritePending;
      }
      if !tx.receiverAlive {
        return WriteError;
      }
      tx.queue := tx.queue + [buf];
      return Accepted(|buf|);
    }

    method PollRead(buf: ReadBuf) returns (p: Poll)
      requires Valid() && buf.Valid()
      modifies this`pendingRead, rx`queue, buf`filled, buf.storage
      ensures Valid() && buf.Valid()
      // the read takes as much of the head chunk as fits, and leaves the rest
      ensures buf.Filled() == old(buf.Filled()) + ReadLine(old(View()), old(buf.Remaining())).0
      ensures View() == ReadLine(old(View()), old(buf.Remaining())).1
      // nothing is lost, repeated or reordered
      ensures buf.Filled() + Unread(View()) == old(buf.Filled()) + Unread(old(View()))
      ensures p.Pending? <==> old(pendingRead.None? && rx.queue == [] && rx.senderAlive)
      ensures |rx.queue| <= |old(rx.queue)|
      // a read that is ready, has room and brings nothing means end of stream to the caller
      ensures p.Ready? && old(buf.Remaining()) > 0 ==>
                (buf.filled == old(buf.filled) <==>
                 old(pendingRead.None? && if rx.queue == [] then !rx.senderAlive else rx.queue[0] == []))
    {
      ReadAppends(buf.Filled(), View(), buf.Remaining());
      EmptyRead(View(), buf.Remaining());
      if pendingRead.Some? {
        var (buffer, offset) := pendingRead.value;
        ReadPending(buffer, offset, rx.queue, buf.Remaining());
        pendingRead := buf.Fill(buffer, offset);
        return Ready;
      }
      if rx.queue == [] {
        return if rx.senderAlive then Pending else Ready;
      }
      ReadQueued(rx.queue, buf.Remaining());
      var v := rx.queue[0];
      rx.queue := rx.queue[1..];
      pendingRead := buf.Fill(v, 0);
      return Ready;
    }
  }

  /** What was delivered and what is still unread are what there was at first and what was sent since. */
  ghost predicate Conserved(delivered: Bytes, unread: Bytes, first: Bytes, sent: Bytes) {
    delivered + unread == first + sent
  }

  lemma SendKeeps(delivered: Bytes, unread: Bytes, first: Bytes, sent: Bytes, more: Bytes)
    requires Conserved(delivered, unread, first, sent)
    ensures Conserved(delivered, unread + more, first, sent + more)
  {
    assert delivered + (unread + more) == (delivered + unread) + more;
  }

  lemma ReadKeeps(delivered: Bytes, unread: Bytes, first: Bytes, sent: Bytes, read: Bytes, left: Bytes)
    requires Conserved(delivered, unread, first, sent) && read + left == unread
    ensures Conserved(delivered + read, left, first, sent)
  {
    assert (delivered + read) + left == delivered + (read + left);
  }

  // ---------------------------------------------------------------- a crossed pair

  /** An operation at the end `a`, or at the other one. */
  datatype Op =
    | Write(atA: bool, data: Bytes)
    | Read(atA: bool, room: nat)
    | Leave(atA: bool)                 // the end is dropped

  datatype Outcome = Wrote(w: Written) | GotNothing | Got(data: Bytes) | Left

  /** What a channel is besides its contents. */
  datatype Limits = Limits(capacity: nat, senderAlive: bool, receiverAlive: bool)

  /** Both directions, from `a` to `b` and back. */
  datatype Pipe = Pipe(ab: Line, ba: Line, abLimits: Limits, baLimits: Limits)

  function WriteLine(l: Line, c: Limits, data: Bytes): (Outcome, Line) {
    if |l.chunks| >= c.capacity then (Wrote(WritePending), l)
    else if !c.receiverAlive then (Wrote(WriteError), l)
    else (Wrote(Accepted(|data|)), l.(chunks := l.chunks + [data]))
  }

  function PollLine(l: Line, c: Limits, room: nat): (Outcome, Line) {
    if l == Line([], []) && c.senderAlive then (GotNothing, l)
    else var (data, l') := ReadLine(l, room); (Got(data), l')
  }

  function Do(p: Pipe, op: Op): (Outcome, Pipe) {
    match op
    case Write(atA, data) =>
      if atA then var (o, l) := WriteLine(p.ab, p.abLimits, data); (o, p.(ab := l))
      else var (o, l) := WriteLine(p.ba, p.baLimits, data); (o, p.(ba := l))
    case Read(atA, room) =>
      if atA then var (o, l) := PollLine(p.ba, p.baLimits, room); (o, p.(ba := l))
      else var (o, l) := PollLine(p.ab, p.abLimits, room); (o, p.(ab := l))
    case Leave(atA) =>
      if atA then (Left, p.(abLimits := p.abLimits.(senderAlive := false), baLimits := p.baLimits.(receiverAlive := false)))
      else (Left, p.(abLimits := p.abLimits.(receiverAlive := false), baLimits := p.baLimits.(senderAlive := false)))
  }

  function PipeAfter(p: Pipe, ops: seq<Op>): Pipe {
    if ops == [] then p else Do(PipeAfter(p, ops[..|ops| - 1]), ops[|ops| - 1]).1
  }

  /** Operation `i` found the pipe as the ones before it had left it. */
  ghost predicate Outcomes(p: Pipe, ops: seq<Op>, outs: seq<Outcome>) {
    |outs| == |ops| && forall i :: 0 <= i < |ops| ==> OutcomeAt(p, ops, i, outs[i])
  }

  ghost predicate OutcomeAt(p: Pipe, ops: seq<Op>, i: nat, o: Outcome)
    requires i < |ops|
  {
    o == Do(PipeAfter(p, ops[..i]), ops[i]).0
  }

  lemma OutcomeInPrefix(p: Pipe, ops: seq<Op>, n: nat, i: nat, o: Outcome)
    requires i < n <= |ops|
    ensures OutcomeAt(p, ops[..n], i, o) <==> OutcomeAt(p, ops, i, o)
  {
    assert ops[..n][..i] == ops[..i];
  }

  /** The bytes an operation added to what was accepted, or delivered, at one end. */
  function Written1(atA: bool, op: Op, o: Outcome): Bytes {
    if op.Write? && op.atA == atA && o.Wrote? && o.w.Accepted? then op.data else []
  }

  function Read1(atA: bool, op: Op, o: Outcome): Bytes {
    if op.Read? && op.atA == atA && o.Got? then o.data else []
  }

  /** The bytes of the writes accepted at one end. */
  function AcceptedAt(atA: bool, ops: seq<Op>, outs: seq<Outcome>): Bytes
    requires |outs| == |ops|
  {
    if ops == [] then []
    else var n := |ops| - 1; AcceptedAt(atA, ops[..n], outs[..n]) + Written1(atA, ops[n], outs[n])
  }

  /** The bytes delivered to the reads at one end. */
  function DeliveredAt(atA: bool, ops: seq<Op>, outs: seq<Outcome>): Bytes
    requires |outs| == |ops|
  {
    if ops == [] then []
    else var n := |ops| - 1; DeliveredAt(atA, ops[..n], outs[..n]) + Read1(atA, ops[n], outs[n])
  }

  lemma WriteAppends(l: Line, data: Bytes)
    ensures Unread(l.(chunks := l.chunks + [data])) == Unread(l) + data
  {
    FlattenSnoc(l.chunks, data);
    Assoc(l.pending, Flatten(l.chunks), data);
  }

  /** One operation: a read delivers at most its room, and only what is there; no operation is both
      a read and a write; and what it delivers and what it adds balance in both directions. */
  lemma OneStepConserves(p: Pipe, op: Op)
    ensures var (o, q) := Do(p, op);
            && Read1(false, op, o) + Unread(q.ab) == Unread(p.ab) + Written1(true, op, o)
            && Read1(true, op, o) + Unread(q.ba) == Unread(p.ba) + Written1(false, op, o)
            && (op.Read? && o.Got? ==> |o.data| <= op.room)
            && (op.Read? && o.GotNothing? ==> q == p && Unread(if op.atA then p.ba else p.ab) == [])
  {
    match op
    case Write(_, data) =>
      WriteBalances(p.ab, p.abLimits, data);
      WriteBalances(p.ba, p.baLimits, data);
    case Read(_, room) =>
      PollBalances(p.ab, p.abLimits, room);
      PollBalances(p.ba, p.baLimits, room);
    case Leave(_) =>
      assert [] + Unread(p.ab) == Unread(p.ab) + [];
      assert [] + Unread(p.ba) == Unread(p.ba) + [];
  }

  lemma WriteBalances(l: Line, c: Limits, data: Bytes)
    ensures var (o, l') := WriteLine(l, c, data);
            && o.Wrote? && [] + Unread(l') == Unread(l) + (if o.w.Accepted? then data else [])
            && [] + Unread(l) == Unread(l) + []
  {
    WriteAppends(l, data);
  }

  lemma PollBalances(l: Line, c: Limits, room: nat)
    ensures var (o, l') := PollLine(l, c, room);
            && !o.Wrote? && (if o.Got? then o.data else []) + Unread(l') == Unread(l) + []
            && (o.Got? ==> |o.data| <= room) && (o.GotNothing? ==> l' == l && Unread(l) == [])
            && [] + Unread(l) == Unread(l) + []
  {
    ReadConserves(l, room);
  }

  lemma OutcomesInit(p: Pipe, ops: seq<Op>, outs: seq<Outcome>)
    requires Outcomes(p, ops, outs) && ops != []
    ensures Outcomes(p, ops[..|ops| - 1], outs[..|ops| - 1])
    ensures outs[|ops| - 1] == Do(PipeAfter(p, ops[..|ops| - 1]), ops[|ops| - 1]).0
  {
    var n := |ops| - 1;
    forall i | 0 <= i < n ensures OutcomeAt(p, ops[..n], i, outs[..n][i]) {
      OutcomeInPrefix(p, ops, n, i, outs[i]);
    }
    assert OutcomeAt(p, ops, n, outs[n]);
  }

  lemma OutcomesSnoc(p: Pipe, ops: seq<Op>, i: nat, outs: seq<Outcome>, o: Outcome)
    requires i < |ops| && Outcomes(p, ops[..i], outs) && OutcomeAt(p, ops, i, o)
    ensures Outcomes(p, ops[..i + 1], outs + [o])
  {
    forall j | 0 <= j < i + 1 ensures OutcomeAt(p, ops[..i + 1], j, (outs + [o])[j]) {
      OutcomeInPrefix(p, ops, i + 1, j, (outs + [o])[j]);
      if j < i {
        OutcomeInPrefix(p, ops, i, j, outs[j]);
      }
    }
  }

  lemma PipeAfterSnoc(p: Pipe, ops: seq<Op>, i: nat)
    requires i < |ops|
    ensures PipeAfter(p, ops[..i + 1]) == Do(PipeAfter(p, ops[..i]), ops[i]).1
  {
    assert ops[..i + 1][..i] == ops[..i];
  }

  /** In any interleaving of reads and writes, of any sizes, at the two ends: in both directions
      what was delivered, then what is pending, then what is queued are exactly what was there and
      the accepted bytes, in order. */
  lemma {:induction false} DuplexConserves(p: Pipe, ops: seq<Op>, outs: seq<Outcome>)
    requires Outcomes(p, ops, outs)
    ensures Conserved(DeliveredAt(false, ops, outs), Unread(PipeAfter(p, ops).ab), Unread(p.ab), AcceptedAt(true, ops, outs))
    ensures Conserved(DeliveredAt(true, ops, outs), Unread(PipeAfter(p, ops).ba), Unread(p.ba), AcceptedAt(false, ops, outs))
  {
    if ops != [] {
      var n := |ops| - 1;
      OutcomesInit(p, ops, outs);
      DuplexConserves(p, ops[..n], outs[..n]);
      var q, q' := PipeAfter(p, ops[..n]), PipeAfter(p, ops);
      OneStepConserves(q, ops[n]);
      StepConserves(q.ab, q'.ab, p.ab, DeliveredAt(false, ops[..n], outs[..n]), AcceptedAt(true, ops[..n], outs[..n]),
                    Read1(false, ops[n], outs[n]), Written1(true, ops[n], outs[n]));
      StepConserves(q.ba, q'.ba, p.ba, DeliveredAt(true, ops[..n], outs[..n]), AcceptedAt(false, ops[..n], outs[..n]),
                    Read1(true, ops[n], outs[n]), Written1(false, ops[n], outs[n]));
    }
  }

  lemma StepConserves(l: Line, l': Line, first: Line, delivered: Bytes, sent: Bytes, read: Bytes, more: Bytes)
    requires Conserved(delivered, Unread(l), Unread(first), sent)
    requires read == [] || more == []
    requires read + Unread(l') == Unread(l) + more
    ensures Conserved(delivered + read, Unread(l'), Unread(first), sent + more)
  {
    if read == [] {
      assert delivered + read == delivered && read + Unread(l') == Unread(l');
      SendKeeps(delivered, Unread(l), Unread(first), sent, more);
    } else {
      assert sent + more == sent && Unread(l) + more == Unread(l);
      ReadKeeps(delivered, Unread(l), Unread(first), sent, read, Unread(l'));
    }
  }

  ghost predicate Crossed(a: DuplexChan, b: DuplexChan)
    reads a, b, a.tx, a.rx, b.tx, b.rx
  {
    a.Valid() && b.Valid() && a != b && a.tx == b.rx && b.tx == a.rx && a.tx != b.tx
  }

  ghost function LimitsOf(c: Chan): Limits
    reads c
  {
    Limits(c.capacity, c.senderAlive, c.receiverAlive)
  }

  ghost function PipeOf(a: DuplexChan, b: DuplexChan): Pipe
    requires Crossed(a, b)
    reads a, b, a.tx, a.rx, b.tx, b.rx
  {
    Pipe(b.View(), a.View(), LimitsOf(a.tx), LimitsOf(b.tx))
  }

  method WriteAt(here: DuplexChan, there: DuplexChan, data: Bytes) returns (o: Outcome)
    requires Crossed(here, there)
    modifies here.tx`queue
    ensures Crossed(here, there) && here.View() == old(here.View())
    ensures (o, there.View()) == WriteLine(old(there.View()), LimitsOf(here.tx), data)
  {
    var w := here.PollWrite(data);
    o := Wrote(w);
  }

  method ReadAt(here: DuplexChan, there: DuplexChan, room: nat) returns (o: Outcome)
    requires Crossed(here, there)
    modifies here`pendingRead, here.rx`queue
    ensures Crossed(here, there) && there.View() == old(there.View())
    ensures (o, here.View()) == PollLine(old(here.View()), LimitsOf(here.rx), room)
  {
    ghost var l := here.View();
    NothingThere(here.pendingRead, here.rx.queue, LimitsOf(here.rx), room);
    var buf := new ReadBuf(room);
    var p := here.PollRead(buf);
    assert buf.Filled() == ReadLine(l, room).0;
    o := if p.Pending? then GotNothing else Got(buf.storage[..buf.filled]);
  }

  lemma NothingThere(pending: Option<(Bytes, nat)>, chunks: seq<Bytes>, c: Limits, room: nat)
    requires pending.Some? ==> pending.value.1 < |pending.value.0|
    ensures var l := Line(Tail(pending), chunks);
            PollLine(l, c, room) ==
            (if pending.None? && chunks == [] && c.senderAlive then GotNothing else Got(ReadLine(l, room).0), ReadLine(l, room).1)
  {
    var l := Line(Tail(pending), chunks);
    assert l == Line([], []) ==> ReadLine(l, room) == ([], l);
  }

  /** Dropping an end drops its sender and its receiver. */
  method LeaveAt(here: DuplexChan, there: DuplexChan)
    requires Crossed(here, there)
    modifies here.tx`senderAlive, here.rx`receiverAlive
    ensures Crossed(here, there) && here.View() == old(here.View()) && there.View() == old(there.View())
    ensures LimitsOf(here.tx) == old(LimitsOf(here.tx)).(senderAlive := false)
    ensures LimitsOf(here.rx) == old(LimitsOf(here.rx)).(receiverAlive := false)
  {
    here.tx.senderAlive := false;
    here.rx.receiverAlive := false;
  }

  /** Once an end has left: what is written at the other one is refused, and when its own bytes are
      all delivered the other end reads the end of the stream, never pending. */
  lemma AfterLeaving(p: Pipe, data: Bytes, room: nat)
    requires !p.abLimits.senderAlive && !p.baLimits.receiverAlive
    ensures Do(p, Write(false, data)).0 in {Wrote(WritePending), Wrote(WriteError)} && Do(p, Write(false, data)).1 == p
    ensures Do(p, Read(false, room)).0.Got?
    ensures Unread(p.ab) == [] ==> Do(p, Read(false, room)).0 == Got([])
  {
    if Unread(p.ab) == [] {
      ReadConserves(p.ab, room);
    }
  }

  /** One operation at either end. */
  method Operate(a: DuplexChan, b: DuplexChan, op: Op) returns (o: Outcome)
    requires Crossed(a, b)
    modifies a`pendingRead, b`pendingRead, a.tx, b.tx
    ensures Crossed(a, b)
    ensures (o, PipeOf(a, b)) == Do(old(PipeOf(a, b)), op)
  {
    match op
    case Write(atA, data) =>
      if atA { o := WriteAt(a, b, data); } else { o := WriteAt(b, a, data); }
    case Read(atA, room) =>
      if atA { o := ReadAt(a, b, room); } else { o := ReadAt(b, a, room); }
    case Leave(atA) =>
      if atA { LeaveAt(a, b); } else { LeaveAt(b, a); }
      o := Left;
  }

  /** Any interleaving of operations at the two ends: each does what `Do` says of the pipe the
      earlier ones left, and the bytes are conserved in both directions. */
  method DuplexRun(a: DuplexChan, b: DuplexChan, ops: seq<Op>) returns (outs: seq<Outcome>)
    requires Crossed(a, b)
    modifies a`pendingRead, b`pendingRead, a.tx, b.tx
    ensures Crossed(a, b) && PipeOf(a, b) == PipeAfter(old(PipeOf(a, b)), ops)
    ensures Outcomes(old(PipeOf(a, b)), ops, outs)
    ensures Conserved(DeliveredAt(false, ops, outs), Unread(b.View()), Unread(old(b.View())), AcceptedAt(true, ops, outs))
    ensures Conserved(DeliveredAt(true, ops, outs), Unread(a.View()), Unread(old(a.View())), AcceptedAt(false, ops, outs))
  {
    outs := [];
    ghost var p := PipeOf(a, b);
    for i := 0 to |ops|
      invariant Crossed(a, b) && PipeOf(a, b) == PipeAfter(p, ops[..i]) && Outcomes(p, ops[..i], outs)
    {
      var o := Operate(a, b, ops[i]);
      OutcomesSnoc(p, ops, i, outs, o);
      PipeAfterSnoc(p, ops, i);
      outs := outs + [o];
    }
    assert ops[..|ops|] == ops;
    DuplexConserves(p, ops, outs);
  }

  // ---------------------------------------------------------------- AsyncWsStream

  datatype Item = Binary(data: Bytes) | Close | OtherMessage | StreamError

  datatype WsPoll = WsPending | WsReady | WsError

  /** The binary messages ahead of the first item of another kind. */
  function Payloads(items: seq<Item>): seq<Bytes> {
    if items == [] || !items[0].Binary? then [] else [items[0].data] + Payloads(items[1..])
  }

  class AsyncWsStream {
    var incoming: seq<Item>       // what the web socket will yield
    var finished: bool            // and whether nothing follows
    var readBuf: Option<Bytes>

    ghost predicate Valid()
      reads this
    {
      readBuf.Some? ==> readBuf.value != []
    }

    /** The payload that can still be read. */
    ghost function View(): Line
      reads this
    {
      Line(if readBuf.Some? then readBuf.value else [], Payloads(incoming))
    }

    /** Behind the payload comes something else than more binary messages. */
    ghost predicate Ends()
      reads this
    {
      finished || |Payloads(incoming)| < |incoming|
    }

    /** Hand out what fits of the message in `readBuf`. */
    method TakeBuffered(buf: ReadBuf)
      requires Valid() && buf.Valid() && readBuf.Some?
      modifies this`readBuf, buf`filled, buf.storage
      ensures Valid() && buf.Valid()
      ensures buf.Filled() == old(buf.Filled()) + ReadLine(old(View()), old(buf.Remaining())).0
      ensures View() == ReadLine(old(View()), old(buf.Remaining())).1
    {
      var remaining, len := readBuf.value, buf.Remaining();
      if |remaining| <= len {
        buf.PutSlice(remaining);
        readBuf := None;
      } else {
        buf.PutSlice(remaining[..len]);
        readBuf := Some(remaining[len..]);
      }
    }

    /** The second half of the loop of `poll_read`: without a buffered message, ask for the next
        one.  `None` stands for `continue`. */
    method NextMessage(buf: ReadBuf) returns (p: Option<WsPoll>)
      requires Valid() && buf.Valid() && readBuf.None?
      modifies this`incoming, this`readBuf, buf`filled, buf.storage
      ensures Valid() && buf.Valid()
      ensures p == Some(WsPending) <==> old(View()) == Line([], []) && !old(Ends())
      ensures p == Some(WsError) <==> old(View()) == Line([], []) && old(Ends())
      ensures p.Some? ==> buf.Filled() == old(buf.Filled()) + ReadLine(old(View()), old(buf.Remaining())).0
      ensures p.Some? && !p.value.WsError? ==> View() == ReadLine(old(View()), old(buf.Remaining())).1
      ensures p.None? ==> unchanged(buf) && unchanged(buf.storage) && readBuf.Some?
      ensures p.None? ==> ReadLine(View(), old(buf.Remaining())) == ReadLine(old(View()), old(buf.Remaining()))
      ensures p != Some(WsError) ==> Ends() == old(Ends())
    {
      ReadEmpty(buf.Remaining());
      if incoming == [] {
        return Some(if finished then WsError else WsPending);
      }
      PayloadsStep(incoming);
      var msg := incoming[0];
      incoming := incoming[1..];
      if !msg.Binary? {
        return Some(WsError);
      }
      var whole := TakeMessage(buf, msg.data);
      return if whole then Some(WsReady) else None;
    }

    /** A binary message is handed out at once if it fits, or else kept in `readBuf`. */
    method TakeMessage(buf: ReadBuf, data: Bytes) returns (whole: bool)
      requires Valid() && buf.Valid() && readBuf.None?
      modifies this`readBuf, buf`filled, buf.storage
      ensures Valid() && buf.Valid()
      ensures whole ==> buf.Filled() == old(buf.Filled()) + ReadLine(Line([], [data] + Payloads(incoming)), old(buf.Remaining())).0
      ensures whole ==> View() == ReadLine(Line([], [data] + Payloads(incoming)), old(buf.Remaining())).1
      ensures !whole ==> unchanged(buf) && unchanged(buf.storage) && readBuf.Some?
      ensures !whole ==> ReadLine(View(), old(buf.Remaining())) == ReadLine(Line([], [data] + Payloads(incoming)), old(buf.Remaining()))
    {
      WholeMessage(data, Payloads(incoming), buf.Remaining());
      whole := |data| <= buf.Remaining();
      if whole {
        buf.PutSlice(data);
      } else {
        readBuf := Some(data);
      }
    }

    method PollRead(buf: ReadBuf) returns (p: WsPoll)
      requires Valid() && buf.Valid()
      modifies this`incoming, this`readBuf, buf`filled, buf.storage
      ensures Valid() && buf.Valid()
      // the read takes as much of the head message as fits, and leaves the rest
      ensures buf.Filled() == old(buf.Filled()) + ReadLine(old(View()), old(buf.Remaining())).0
      ensures !p.WsError? ==> View() == ReadLine(old(View()), old(buf.Remaining())).1 && Ends() == old(Ends())
      // nothing is lost, repeated or reordered
      ensures !p.WsError? ==> buf.Filled() + Unread(View()) == old(buf.Filled()) + Unread(old(View()))
      // an error comes exactly behind the payload, once all of it is delivered
      ensures p.WsPending? <==> old(View()) == Line([], []) && !old(Ends())
      ensures p.WsError? <==> old(View()) == Line([], []) && old(Ends())
    {
      ghost var l, room := View(), buf.Remaining();
      ReadAppends(buf.Filled(), l, room);
      while true
        invariant Valid() && Ends() == old(Ends()) && ReadLine(View(), room) == ReadLine(l, room)
        invariant readBuf.None? ==> View() == l
        invariant readBuf.Some? ==> l != Line([], [])
        invariant unchanged(buf) && unchanged(buf.storage)
        decreases readBuf.None?
      {
        if readBuf.Some? {
          TakeBuffered(buf);
          return WsReady;
        }
        var next := NextMessage(buf);
        if next.Some? {
          return next.value;
        }
      }
    }

    method ReadOnce(room: nat) returns (data: Bytes, failed: bool)
      requires Valid()
      modifies this`incoming, this`readBuf
      ensures Valid()
      ensures failed <==> old(View()) == Line([], []) && old(Ends())
      ensures !failed ==> (data, View()) == ReadLine(old(View()), room) && Ends() == old(Ends())
    {
      var buf := new ReadBuf(room);
      ghost var l := View();
      var p := PollRead(buf);
      assert buf.Filled() == ReadLine(l, room).0;
      return buf.storage[..buf.filled], p.WsError?;
    }

    /** Reads of any sizes, up to the first error: they deliver what reads of those sizes take from
        the payload, and there is an error exactly if one of them finds all of it delivered. */
    method ReadMany(rooms: seq<nat>) returns (delivered: Bytes, failed: bool)
      requires Valid()
      modifies this`incoming, this`readBuf
      ensures Valid()
      ensures delivered == ReadAll(old(View()), rooms).0
      ensures failed <==> old(Ends()) && !BusyUntil(old(View()), rooms, |rooms|)
      ensures !failed ==> Conserved(delivered, Unread(View()), Unread(old(View())), [])
      ensures failed ==> delivered == Unread(old(View()))
    {
      ghost var l := View();
      delivered, failed := [], false;
      for i := 0 to |rooms|
        invariant Valid() && Ends() == old(Ends())
        invariant (delivered, View()) == ReadAll(l, rooms[..i])
        invariant Ends() ==> BusyUntil(l, rooms, i)
      {
        ReadAllSnoc(l, rooms, i);
        var data;
        data, failed := ReadOnce(rooms[i]);
        if failed {
          EmptyEarly(l, rooms, i);
          return;
        }
        if Ends() {
          BusyOne(l, rooms, i);
        }
        delivered := delivered + data;
      }
      ReadAllOf(l, rooms);
    }
  }

  lemma PayloadsStep(items: seq<Item>)
    requires items != []
    ensures items[0].Binary? ==> Payloads(items) == [items[0].data] + Payloads(items[1..])
    ensures items[0].Binary? ==> (|Payloads(items)| < |items| <==> |Payloads(items[1..])| < |items[1..]|)
    ensures !items[0].Binary? ==> Payloads(items) == []
  {
  }

  /** A message may be buffered first, or handed out at once if it fits. */
  lemma WholeMessage(data: Bytes, rest: seq<Bytes>, room: nat)
    ensures data != [] ==> ReadLine(Line(data, rest), room) == ReadLine(Line([], [data] + rest), room)
    ensures |data| <= room ==> ReadLine(Line([], [data] + rest), room) == (data, Line([], rest))
  {
    assert ([data] + rest)[1..] == rest;
    if |data| <= room {
      assert data[..|data|] == data && data[|data|..] == [];
    }
  }

  // ---------------------------------------------------------------- TcpConnTask::try_send

  /** The sending half of a TCP socket.  A send takes any number of bytes that fit, at least one if
      it can; or it fails. */
  class SendSocket {
    var room: nat
    var sent: Bytes
    ghost var failures: nat

    predicate CanSend()
      reads this
    {
      room > 0
    }

    method SendSlice(data: Bytes) returns (n: Option<nat>)
      requires CanSend()
      modifies this
      ensures n.Some? ==> n.value <= |data| && n.value <= old(room) && (data != [] ==> n.value > 0)
      ensures n.Some? ==> room == old(room) - n.value && sent == old(sent) + data[..n.value] && failures == old(failures)
      ensures n.None? ==> room == old(room) && sent == old(sent) && failures == old(failures) + 1
    {
      if * {
        failures := failures + 1;
        return None;
      }
      var k: nat :| k <= |data| && k <= room && (data != [] ==> k > 0);
      room, sent := room - k, sent + data[..k];
      return Some(k);
    }
  }

  datatype SendResult = Sent(activity: bool) | Disconnected | Aborted

  class TcpConnTask {
    var queue: seq<Bytes>           // `rx`, the chunks on their way to the socket
    var senderAlive: bool
    var remainToSend: Option<(Bytes, nat)>

    ghost predicate Valid()
      reads this
    {
      remainToSend.Some? ==> remainToSend.value.1 < |remainToSend.value.0|
    }

    ghost function Unsent(): Bytes
      requires Valid()
      reads this
    {
      Tail(remainToSend) + Flatten(queue)
    }

    /** The chunk to go on with: the one cut short last time, or the next one in the channel. */
    method NextChunk() returns (next: Option<(Bytes, nat)>)
      requires Valid()
      modifies this`queue, this`remainToSend
      ensures remainToSend.None? && |queue| <= |old(queue)|
      ensures next.None? <==> old(remainToSend.None? && queue == [])
      ensures next.None? ==> queue == []
      ensures next.Some? ==> next.value.1 <= |next.value.0| && Tail(next) + Flatten(queue) == old(Unsent())
      ensures next.Some? && Tail(next) == [] ==> |queue| < |old(queue)|
    {
      next, remainToSend := remainToSend, None;
      if next.None? && queue != [] {
        next, queue := Some((queue[0], 0)), queue[1..];
      }
    }

    /** Offer a chunk to the socket and keep what it does not take.  If the send fails the rest of
        the chunk is lost. */
    method SendChunk(socket: SendSocket, chunk: Bytes, start: nat) returns (ok: bool)
      requires socket.CanSend() && start <= |chunk| && remainToSend.None?
      modifies socket, this`remainToSend
      ensures Valid()
      ensures ok ==> Conserved(socket.sent, Unsent(), old(socket.sent), chunk[start..] + Flatten(queue))
      ensures ok ==> socket.room <= old(socket.room) && (chunk[start..] != [] ==> socket.room < old(socket.room))
      ensures !ok ==> socket.sent == old(socket.sent) && socket.room == old(socket.room) && remainToSend.None?
      ensures socket.room + |socket.sent| == old(socket.room + |socket.sent|)
      ensures socket.failures == old(socket.failures) + if ok then 0 else 1
    {
      var n := socket.SendSlice(chunk[start..]);
      if n.None? {
        return false;
      }
      CutHead(chunk[start..], Flatten(queue), n.value, old(socket.sent));
      if start + n.value < |chunk| {
        remainToSend := Some((chunk, start + n.value));
      }
      return true;
    }

    /** One round of the loop of `try_send`. */
    method SendNext(socket: SendSocket) returns (next: Option<(Bytes, nat)>, ok: bool)
      requires Valid() && socket.CanSend()
      modifies socket, this`queue, this`remainToSend
      ensures Valid() && (next.Some? ==> next.value.1 <= |next.value.0|)
      ensures next.None? ==> Unsent() == old(Unsent()) == [] && queue == []
      ensures next.None? <==> old(remainToSend.None? && queue == [])
      ensures !ok ==> next.Some? && Tail(next) + Unsent() == old(Unsent())
      ensures next.None? || !ok ==> socket.sent == old(socket.sent) && socket.room == old(socket.room)
      ensures next.Some? && ok ==> Conserved(socket.sent, Unsent(), old(socket.sent), old(Unsent()))
      ensures socket.room + |socket.sent| == old(socket.room + |socket.sent|)
      ensures socket.failures == old(socket.failures) + if ok then 0 else 1
      ensures next.Some? && ok ==> socket.room < old(socket.room) || (socket.room == old(socket.room) && |queue| < |old(queue)|)
    {
      next := NextChunk();
      ok := true;
      if next.Some? {
        ok := SendChunk(socket, next.value.0, next.value.1);
      }
    }

    method TrySend(socket: SendSocket) returns (r: SendResult, ghost lost: Bytes)
      requires Valid()
      modifies socket, this`queue, this`remainToSend
      ensures Valid()
      // only a failed send loses bytes, and then the unsent rest of one chunk
      ensures Conserved(socket.sent, lost + Unsent(), old(socket.sent), old(Unsent()))
      ensures !r.Aborted? ==> lost == []
      ensures socket.room + |socket.sent| == old(socket.room + |socket.sent|)
      ensures socket.failures == old(socket.failures) + if r.Aborted? then 1 else 0
      // it stops only when the socket is full or nothing is left, and reports a disconnection
      // only after everything was sent
      ensures r.Sent? ==> !socket.CanSend() || (Unsent() == [] && queue == [] && senderAlive)
      ensures r.Disconnected? ==> Unsent() == [] && queue == [] && !senderAlive && socket.CanSend()
      ensures r.Sent? && !r.activity ==> socket.sent == old(socket.sent)
      // something was done exactly if the socket could send and a chunk was waiting
      ensures r.Sent? ==> (r.activity <==> old(socket.CanSend() && (remainToSend.Some? || queue != [])))
    {
      var activity := false;
      lost := [];
      while socket.CanSend()
        invariant Valid()
        invariant Conserved(socket.sent, Unsent(), old(socket.sent), old(Unsent()))
        invariant !activity ==> socket.sent == old(socket.sent)
        invariant if activity then old(socket.CanSend() && (remainToSend.Some? || queue != []))
                  else remainToSend == old(remainToSend) && queue == old(queue) && socket.room == old(socket.room)
        invariant socket.room + |socket.sent| == old(socket.room + |socket.sent|) && socket.failures == old(socket.failures)
        decreases socket.room, |queue|
      {
        ghost var sent, unsent := socket.sent, Unsent();
        var next, ok := SendNext(socket);
        if next.None? {
          return if senderAlive then Sent(activity) else Disconnected, [];
        }
        if !ok {
          return Aborted, Tail(next);
        }
        Continue(socket.sent, Unsent(), sent, unsent, old(socket.sent), old(Unsent()));
        activity := true;
      }
      return Sent(activity), [];
    }

    /** One event in the life of the task. */
    method Serve(socket: SendSocket, e: TaskEvent) returns (aborted: bool)
      requires Valid()
      modifies socket, this`queue, this`remainToSend
      ensures Valid()
      ensures !aborted ==> Conserved(socket.sent, Unsent(), old(socket.sent), old(Unsent()) + Arrival(e))
      ensures socket.room + |socket.sent| == old(socket.room + |socket.sent|) + Drained(e)
      ensures socket.failures == old(socket.failures) + if aborted then 1 else 0
      ensures e.Turn? && !aborted ==> !socket.CanSend() || Unsent() == []
    {
      aborted := false;
      match e
      case Arrive(chunk) =>
        FlattenSnoc(queue, chunk);
        Assoc(Tail(remainToSend), Flatten(queue), chunk);
        queue := queue + [chunk];
      case Drain(n) =>
        socket.room := socket.room + n;
        assert Unsent() + Arrival(e) == Unsent();
      case Turn =>
        assert Unsent() + Arrival(e) == Unsent();
        var r, lost := TrySend(socket);
        assert !r.Aborted? ==> lost + Unsent() == Unsent();
        aborted := r.Aborted?;
    }

    /** Chunks arrive, the socket drains and the task is served, in any order.  Without a failed
        send the bytes sent and then the unsent ones are those handed to the task, in order; and
        when the task was served last, as many have been sent as the socket ever had room for. */
    method ServeAll(socket: SendSocket, events: seq<TaskEvent>) returns (aborted: bool)
      requires Valid()
      modifies socket, this`queue, this`remainToSend
      ensures Valid()
      ensures aborted <==> socket.failures > old(socket.failures)
      ensures !aborted ==> Conserved(socket.sent, Unsent(), old(socket.sent), old(Unsent()) + Arrivals(events))
      ensures !aborted && events != [] && events[|events| - 1].Turn? ==>
                var total := old(socket.sent) + (old(Unsent()) + Arrivals(events));
                socket.sent == total[..Min(|total|, old(|socket.sent| + socket.room) + Drains(events))]
    {
      aborted := false;
      for i := 0 to |events|
        invariant Valid()
        invariant socket.failures >= old(socket.failures) && (aborted <==> socket.failures > old(socket.failures))
        invariant !aborted ==> Served(old(socket.sent), old(Unsent()), old(socket.room), socket.sent, Unsent(), socket.room, events[..i])
      {
        ghost var sent, unsent, room := socket.sent, Unsent(), socket.room;
        var failed := Serve(socket, events[i]);
        if !aborted && !failed {
          ServedSnoc(old(socket.sent), old(Unsent()), old(socket.room), sent, unsent, room, socket.sent, Unsent(), socket.room, events, i);
        }
        aborted := aborted || failed;
      }
      assert events[..|events|] == events;
      if !aborted {
        SentIsPrefix(socket.sent, Unsent(), old(socket.sent) + (old(Unsent()) + Arrivals(events)));
      }
    }
  }

  /** What the events have done to a task and its socket, as long as no send failed. */
  ghost predicate Served(sent0: Bytes, unsent0: Bytes, room0: nat, sent: Bytes, unsent: Bytes, room: nat, events: seq<TaskEvent>) {
    && Conserved(sent, unsent, sent0, unsent0 + Arrivals(events))
    && room + |sent| == room0 + |sent0| + Drains(events)
    && (events != [] && events[|events| - 1].Turn? ==> room == 0 || unsent == [])
  }

  lemma ServedSnoc(sent0: Bytes, unsent0: Bytes, room0: nat, sent: Bytes, unsent: Bytes, room: nat,
                   sent': Bytes, unsent': Bytes, room': nat, events: seq<TaskEvent>, i: nat)
    requires i < |events| && Served(sent0, unsent0, room0, sent, unsent, room, events[..i])
    requires Conserved(sent', unsent', sent, unsent + Arrival(events[i]))
    requires room' + |sent'| == room + |sent| + Drained(events[i])
    requires events[i].Turn? ==> room' == 0 || unsent' == []
    ensures Served(sent0, unsent0, room0, sent', unsent', room', events[..i + 1])
  {
    assert events[..i + 1][..i] == events[..i];
    Later(sent', unsent', sent, unsent, sent0, unsent0, Arrivals(events[..i]), Arrival(events[i]));
  }

  function Arrival(e: TaskEvent): Bytes { if e.Arrive? then e.chunk else [] }

  function Drained(e: TaskEvent): nat { if e.Drain? then e.room else 0 }

  /** All bytes handed to the task, and all room the peer made. */
  function Arrivals(events: seq<TaskEvent>): Bytes {
    if events == [] then [] else Arrivals(events[..|events| - 1]) + Arrival(events[|events| - 1])
  }

  function Drains(events: seq<TaskEvent>): nat {
    if events == [] then 0 else Drains(events[..|events| - 1]) + Drained(events[|events| - 1])
  }

  datatype TaskEvent = Arrive(chunk: Bytes) | Drain(room: nat) | Turn

  lemma Continue(sent2: Bytes, unsent2: Bytes, sent1: Bytes, unsent1: Bytes, sent: Bytes, unsent: Bytes)
    requires Conserved(sent2, unsent2, sent1, unsent1) && Conserved(sent1, unsent1, sent, unsent)
    ensures Conserved(sent2, unsent2, sent, unsent)
  {
  }

  lemma Later(sent2: Bytes, unsent2: Bytes, sent1: Bytes, unsent1: Bytes, sent: Bytes, unsent: Bytes, arrived: Bytes, more: Bytes)
    requires Conserved(sent1, unsent1, sent, unsent + arrived) && Conserved(sent2, unsent2, sent1, unsent1 + more)
    ensures Conserved(sent2, unsent2, sent, unsent + (arrived + more))
  {
    SendKeeps(sent1, unsent1, sent, unsent + arrived, more);
    Assoc(unsent, arrived, more);
    Assoc(sent, unsent + arrived, more);
  }

  lemma SentIsPrefix(sent: Bytes, unsent: Bytes, total: Bytes)
    requires sent + unsent == total
    ensures sent == total[..|sent|] && |sent| + |unsent| == |total|
  {
  }
}
