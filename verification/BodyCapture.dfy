/** Bounded capture of an HTTP body (boltconn/src/intercept/intercept_modifier.rs): read frames up
    to a size limit, and hand the body on as if it had not been read. */
module BodyCapture {
  import opened Common

  /** What a body yields: data, trailers, or the failure of the connection. */
  datatype Frame = Data(bytes: Bytes) | Trailers(id: nat) | Failure

  datatype InterceptError = WaitResponse | InvalidData

  /** The bytes of a list of frames. */
  function Concat(frames: seq<Frame>): Bytes {
    if frames == [] then []
    else Concat(frames[..|frames| - 1]) + FrameBytes(frames[|frames| - 1])
  }

  function FrameBytes(f: Frame): Bytes { if f.Data? then f.bytes else [] }

  predicate AllData(frames: seq<Frame>) {
    forall i :: 0 <= i < |frames| ==> frames[i].Data?
  }

  lemma ConcatSnoc(frames: seq<Frame>, k: nat)
    requires k < |frames|
    ensures Concat(frames[..k + 1]) == Concat(frames[..k]) + FrameBytes(frames[k])
  {
    assert frames[..k + 1][..k] == frames[..k];
  }

  lemma ConcatOne(f: Frame)
    ensures Concat([f]) == FrameBytes(f)
  {
    assert [f][..0] == [];
  }

  lemma PrefixOfConcat(a: seq<Frame>, b: seq<Frame>)
    requires b != []
    ensures (a + b)[..|a + b| - 1] == a + b[..|b| - 1] && (a + b)[|a + b| - 1] == b[|b| - 1]
  {
  }

  lemma {:induction false} ConcatSplit(a: seq<Frame>, b: seq<Frame>)
    ensures Concat(a + b) == Concat(a) + Concat(b)
  {
    if b == [] {
      assert a + b == a;
    } else {
      var n := |b| - 1;
      ConcatSplit(a, b[..n]);
      PrefixOfConcat(a, b);
      Assoc(Concat(a), Concat(b[..n]), FrameBytes(b[n]));
    }
  }

  lemma PrefixShorter(frames: seq<Frame>, j: nat, k: nat)
    requires j <= k <= |frames|
    ensures |Concat(frames[..j])| <= |Concat(frames[..k])|
  {
    assert frames[..k] == frames[..j] + frames[j..k];
    ConcatSplit(frames[..j], frames[j..k]);
  }

  // ---------------------------------------------------------------- reading

  /** The first `k` frames are data within the limit. */
  predicate WithinLimit(frames: seq<Frame>, k: nat, limit: nat) {
    k <= |frames| && AllData(frames[..k]) && |Concat(frames[..k])| <= limit
  }

  /** The limit is crossed by frame `k`. */
  predicate CrossedBy(frames: seq<Frame>, k: nat, limit: nat) {
    && k < |frames| && WithinLimit(frames, k, limit)
    && frames[k].Data? && |Concat(frames[..k + 1])| > limit
  }

  /** Frame `k` is not data, and is reached within the limit. */
  predicate StoppedBy(frames: seq<Frame>, k: nat, limit: nat) {
    k < |frames| && WithinLimit(frames, k, limit) && !frames[k].Data?
  }

  lemma FateIsFinal(frames: seq<Frame>, limit: nat, j: nat, m: nat)
    requires CrossedBy(frames, j, limit) || StoppedBy(frames, j, limit)
    requires j < m <= |frames|
    ensures !WithinLimit(frames, m, limit)
  {
    PrefixShorter(frames, j + 1, m);
    assert frames[..m][j] == frames[j];
  }

  /** A body is whole, crosses the limit or stops at a frame, and only one of these, at one place. */
  lemma OneFate(frames: seq<Frame>, limit: nat, j: nat, k: nat)
    requires CrossedBy(frames, j, limit) || StoppedBy(frames, j, limit)
    ensures CrossedBy(frames, k, limit) || StoppedBy(frames, k, limit) ==> j == k
    ensures !WithinLimit(frames, |frames|, limit)
  {
    FateIsFinal(frames, limit, j, |frames|);
    if j < k < |frames| {
      FateIsFinal(frames, limit, j, k);
    }
    if k < j && (CrossedBy(frames, k, limit) || StoppedBy(frames, k, limit)) {
      FateIsFinal(frames, limit, k, j);
    }
  }

  /** A body that is being read. */
  class HyperBody {
    var frames: seq<Frame>

    constructor (frames: seq<Frame>)
      ensures this.frames == frames
    {
      this.frames := frames;
    }

    method NextFrame() returns (f: Option<Frame>)
      modifies this
      ensures f.None? <==> old(frames) == []
      ensures f.None? ==> frames == []
      ensures f.Some? ==> f.value == old(frames)[0] && frames == old(frames)[1..]
    {
      if frames == [] {
        return None;
      }
      f, frames := Some(frames[0]), frames[1..];
    }
  }

  datatype ReadData =
    | Full(bytes: Bytes)
    | Partial(bytes: Bytes, body: HyperBody)
    | NotRead(body: HyperBody)

  datatype ReadResult = Ok(data: ReadData) | Err(error: InterceptError)

  /** What `into_data` makes of a frame that is not data. */
  function ErrorOf(f: Frame): InterceptError
    requires !f.Data?
  {
    if f.Failure? then WaitResponse else InvalidData
  }

  /** One more frame into `vec`, after `k` of the frames `all`. */
  method ReadFrame(body: HyperBody, vec: Bytes, ghost all: seq<Frame>, ghost k: nat, ghost limit: nat)
    returns (more: Option<Frame>, vec': Bytes)
    requires WithinLimit(all, k, limit) && vec == Concat(all[..k]) && body.frames == all[k..]
    modifies body
    ensures more.None? <==> k == |all|
    ensures more.None? ==> all[..k] == all
    ensures more.Some? ==> more.value == all[k] && body.frames == all[k + 1..]
    ensures more.Some? && more.value.Data? ==>
              && vec' == Concat(all[..k + 1]) && AllData(all[..k + 1])
              && (|vec'| <= limit <==> WithinLimit(all, k + 1, limit))
              && (|vec'| > limit <==> CrossedBy(all, k, limit))
    ensures more.Some? && !more.value.Data? ==> StoppedBy(all, k, limit)
  {
    more := body.NextFrame();
    vec' := vec;
    if more.Some? && more.value.Data? {
      ConcatSnoc(all, k);
      vec' := vec + more.value.bytes;
    }
  }

  /** What a read that looked at frame `k` last found, and what it left of the body. */
  predicate Fate(r: ReadResult, body: HyperBody, left: seq<Frame>, all: seq<Frame>, k: nat, limit: nat) {
    match r
    case Ok(Full(bytes)) => WithinLimit(all, |all|, limit) && bytes == Concat(all)
    case Ok(Partial(bytes, rest)) =>
      CrossedBy(all, k, limit) && bytes == Concat(all[..k + 1]) && rest == body && left == all[k + 1..]
    case Ok(NotRead(_)) => false
    case Err(e) => StoppedBy(all, k, limit) && e == ErrorOf(all[k])
  }

  /** The loop of `read_at_most`, entered with the frames up to `first` in `buffered`. */
  method ReadRest(body: HyperBody, buffered: Bytes, limit: nat, ghost all: seq<Frame>, ghost first: nat)
    returns (r: ReadResult, ghost k: nat)
    requires first < |all| && AllData(all[..first + 1]) && buffered == Concat(all[..first + 1]) && body.frames == all[first + 1..]
    requires |buffered| <= limit <==> WithinLimit(all, first + 1, limit)
    requires |buffered| > limit <==> CrossedBy(all, first, limit)
    modifies body
    ensures Fate(r, body, body.frames, all, k, limit)
  {
    var vec := buffered;
    k := first;
    while true
      invariant k < |all| && vec == Concat(all[..k + 1]) && body.frames == all[k + 1..]
      invariant |vec| <= limit <==> WithinLimit(all, k + 1, limit)
      invariant |vec| > limit <==> CrossedBy(all, k, limit)
      decreases |all| - k
    {
      if |vec| > limit { return Ok(Partial(vec, body)), k; }
      k := k + 1;
      var more, vec' := ReadFrame(body, vec, all, k, limit);
      if more.None? { return Ok(Full(vec)), k; }
      if !more.value.Data? { return Err(ErrorOf(more.value)), k; }
      vec := vec';
    }
  }

  /** The body of `read_at_most`: two frames by themselves, then the loop. */
  method TakeFrames(body: HyperBody, limit: nat) returns (r: ReadResult, ghost k: nat)
    modifies body
    ensures Fate(r, body, body.frames, old(body.frames), k, limit)
  {
    ghost var all := body.frames;
    k := 0;
    var more, first := ReadFrame(body, [], all, k, limit);
    if more.None? { return Ok(Full([])), k; }
    if !more.value.Data? { return Err(ErrorOf(more.value)), k; }
    if |first| > limit { return Ok(Partial(first, body)), k; }
    k := 1;
    var vec;
    more, vec := ReadFrame(body, first, all, k, limit);
    if more.None? { return Ok(Full(first)), k; }
    if !more.value.Data? { return Err(ErrorOf(more.value)), k; }
    r, k := ReadRest(body, vec, limit, all, k);
  }

  /** `read_at_most`, and when each outcome occurs: a body is captured whole exactly if it is all
      data of at most `limit` bytes, and reading fails exactly if a frame that is not data comes
      before the limit is crossed. */
  method ReadAtMost(body: HyperBody, limit: nat) returns (r: ReadResult, ghost k: nat)
    modifies body
    ensures var all := old(body.frames);
            && (r.Ok? && r.data.Full? <==> AllData(all) && |Concat(all)| <= limit)
            && (r.Ok? && r.data.Partial? <==> exists j :: CrossedBy(all, j, limit))
            && (r.Err? <==> exists j :: StoppedBy(all, j, limit))
            && (r.Ok? ==> !r.data.NotRead?)
            && (r.Ok? && r.data.Full? ==> r.data.bytes == Concat(all))
            && (r.Ok? && r.data.Partial? ==>
                  && CrossedBy(all, k, limit) && r.data.bytes == Concat(all[..k + 1])
                  && r.data.body == body && body.frames == all[k + 1..]
                  && |r.data.bytes| > limit >= |r.data.bytes| - |FrameBytes(all[k])|)
            && (r.Err? ==> StoppedBy(all, k, limit) && r.error == ErrorOf(all[k]))
            && (r.Err? ==> (r.error == WaitResponse <==> all[k] == Failure) && (r.error == InvalidData <==> all[k].Trailers?))
  {
    ghost var all := body.frames;
    r, k := TakeFrames(body, limit);
    assert all[..|all|] == all;
    if r.Ok? && r.data.Full? {
      forall j ensures !CrossedBy(all, j, limit) && !StoppedBy(all, j, limit) {
        if CrossedBy(all, j, limit) || StoppedBy(all, j, limit) {
          OneFate(all, limit, j, j);
        }
      }
    } else {
      forall j ensures CrossedBy(all, j, limit) || StoppedBy(all, j, limit) ==> j == k {
        OneFate(all, limit, k, j);
      }
      OneFate(all, limit, k, k);
      ConcatSnoc(all, k);
    }
  }

  lemma Rejoin(all: seq<Frame>, k: nat)
    requires k <= |all|
    ensures Concat([Data(Concat(all[..k]))] + all[k..]) == Concat(all)
  {
    SplitAt(all, k);
    Prepend(Data(Concat(all[..k])), all[k..]);
  }

  lemma SplitAt(all: seq<Frame>, k: nat)
    requires k <= |all|
    ensures Concat(all) == Concat(all[..k]) + Concat(all[k..])
  {
    ConcatSplit(all[..k], all[k..]);
    assert all == all[..k] + all[k..];
  }

  lemma Prepend(f: Frame, rest: seq<Frame>)
    ensures Concat([f] + rest) == FrameBytes(f) + Concat(rest)
  {
    ConcatOne(f);
    ConcatSplit([f], rest);
  }

  // ---------------------------------------------------------------- handing the body on

  /** What was read first, then what follows. */
  class PartialReadStream {
    var hasRead: Option<Bytes>
    const inner: HyperBody

    ghost function Frames(): seq<Frame>
      reads this, inner
    {
      (if hasRead.Some? then [Data(hasRead.value)] else []) + inner.frames
    }

    constructor (bytes: Bytes, inner: HyperBody)
      ensures Frames() == [Data(bytes)] + inner.frames && this.inner == inner
    {
      hasRead, this.inner := Some(bytes), inner;
    }

    method PollNext() returns (f: Option<Frame>)
      modifies this, inner
      ensures f.None? <==> old(Frames()) == []
      ensures f.None? ==> Frames() == []
      ensures f.Some? ==> old(Frames()) == [f.value] + Frames()
    {
      if hasRead.Some? {
        f, hasRead := Some(Data(hasRead.value)), None;
      } else {
        f := inner.NextFrame();
      }
    }

    /** Everything the consumer gets. */
    method Drain() returns (frames: seq<Frame>)
      modifies this, inner
      ensures frames == old(Frames())
    {
      frames := [];
      var f := PollNext();
      while f.Some?
        invariant old(Frames()) == frames + (if f.Some? then [f.value] else []) + Frames()
        invariant f.None? ==> Frames() == []
        decreases |Frames()|, f.Some?
      {
        frames := frames + [f.value];
        f := PollNext();
      }
    }
  }

  /** `into_body`, drained: the frames the consumer sees. */
  method IntoBody(data: ReadData) returns (frames: seq<Frame>)
    modifies if data.Full? then {} else {data.body}
    ensures match data
            case Full(bytes) => Concat(frames) == bytes && AllData(frames)
            case Partial(bytes, body) => frames == [Data(bytes)] + old(body.frames)
            case NotRead(body) => frames == old(body.frames)
  {
    match data
    case Full(bytes) =>
      frames := if bytes == [] then [] else [Data(bytes)];
      ConcatOne(Data(bytes));
    case Partial(bytes, body) =>
      var stream := new PartialReadStream(bytes, body);
      frames := stream.Drain();
    case NotRead(body) =>
      frames := body.frames;
  }

  /** Capturing is invisible: whatever the frames and the limit, if reading does not fail the
      consumer gets the same bytes, and every frame behind the captured part unchanged. */
  method CaptureAndForward(body: HyperBody, limit: nat) returns (frames: Option<seq<Frame>>, ghost k: nat)
    modifies body
    ensures frames.None? <==> exists j :: StoppedBy(old(body.frames), j, limit)
    ensures frames.Some? ==> Concat(frames.value) == Concat(old(body.frames))
    // past the limit: the captured part is one frame, and every later one is as it was
    ensures frames.Some? && (exists j :: CrossedBy(old(body.frames), j, limit)) ==>
              && CrossedBy(old(body.frames), k, limit)
              && frames.value == [Data(Concat(old(body.frames)[..k + 1]))] + old(body.frames)[k + 1..]
  {
    ghost var all := body.frames;
    var r;
    r, k := ReadAtMost(body, limit);
    if r.Err? {
      return None, k;
    }
    if r.data.Partial? {
      Rejoin(all, k + 1);
    }
    var out := IntoBody(r.data);
    return Some(out), k;
  }
}
