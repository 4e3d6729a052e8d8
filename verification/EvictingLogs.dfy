/** The logs that keep their newest part in memory and hand the rest to the database:
    `EvictableVec` (boltconn/src/common/evictable_vec.rs) and its two users in
    boltconn/src/proxy/context.rs, `HttpCapturer` and `ContextManager`. */
module EvictingLogs {
  import opened Common

  class EvictableVec<T> {
    var inMemOffset: nat
    var inner: seq<T>

    constructor ()
      ensures inMemOffset == 0 && inner == []
    {
      inMemOffset, inner := 0, [];
    }

    method Push(val: T)
      modifies this`inner
      ensures inner == old(inner) + [val]
    {
      inner := inner + [val];
    }

    function LogicalLen(): nat
      reads this
    {
      inMemOffset + |inner|
    }

    /** `evict_with`: all but the last `left` elements go, and logical indices stay what they were. */
    method EvictWith(left: nat) returns (batch: seq<T>)
      modifies this
      ensures batch + inner == old(inner)
      ensures |inner| == if |old(inner)| > left then left else |old(inner)|
      ensures inMemOffset == old(inMemOffset) + |batch|
    {
      batch := [];
      if |inner| > left {
        var mid := |inner| - left;
        inMemOffset := inMemOffset + mid;
        batch, inner := inner[..mid], inner[mid..];
      }
    }

    /** `evict_until`: the longest prefix whose elements all satisfy `pred` (given the number of
        elements left, this one included) goes.  The offset does not move. */
    method EvictUntil(pred: (T, nat) -> bool) returns (batch: seq<T>)
      modifies this`inner
      ensures batch + inner == old(inner)
      ensures forall i :: 0 <= i < |batch| ==> pred(batch[i], |old(inner)| - i)
      ensures inner != [] ==> !pred(inner[0], |inner|)
    {
      var n := |inner|;
      var idx := 0;
      while idx < n && pred(inner[idx], n - idx)
        invariant idx <= n == |inner| && inner == old(inner)
        invariant forall i :: 0 <= i < idx ==> pred(inner[i], n - i)
      {
        idx := idx + 1;
      }
      batch, inner := inner[..idx], inner[idx..];
    }

    /** `logical_slice`; the precondition is what keeps the slice expression from panicking. */
    function LogicalSlice(start: nat, end: Option<nat>): seq<T>
      requires inMemOffset <= start <= LogicalLen()
      requires end.Some? ==> start <= end.value <= LogicalLen()
      reads this
    {
      if end.None? then inner[start - inMemOffset..]
      else inner[start - inMemOffset..end.value - inMemOffset]
    }

    function GetLastN(n: nat): seq<T>
      reads this
    {
      if |inner| <= n then inner else inner[|inner| - n..]
    }
  }

  /** `minimum_start`: the first index callers may see. */
  function MinimumStart(logicalLen: nat, limit: nat): nat {
    if logicalLen > limit then logicalLen - limit else 0
  }

  lemma SliceOfConcat<T>(a: seq<T>, b: seq<T>, i: nat, j: nat)
    requires |a| <= i <= j <= |a| + |b|
    ensures (a + b)[i..j] == b[i - |a|..j - |a|]
  {
  }

  // ---------------------------------------------------------------- HttpCapturer

  class HttpCapturer<T> {
    const keepCount: nat := 20
    const graceThreshold: nat := 3
    const hasDb: bool
    const contents: EvictableVec<T>
    var written: seq<seq<T>>      // batches handed to the database
    ghost var history: seq<T>     // everything ever pushed
    ghost var evicted: seq<T>

    ghost predicate Valid()
      reads this, contents
    {
      && evicted + contents.inner == history
      && contents.inMemOffset == |evicted|
      && |contents.inner| <= keepCount + graceThreshold + 1
      && (evicted != [] ==> |contents.inner| >= keepCount)
      && Flatten(written) == if hasDb then evicted else []
    }

    constructor (hasDb: bool)
      ensures Valid() && history == [] && this.hasDb == hasDb && fresh(contents)
    {
      this.hasDb := hasDb;
      contents := new EvictableVec();
      written, history, evicted := [], [], [];
    }

    method Save(batch: seq<T>)
      modifies this`written
      ensures Flatten(written) == old(Flatten(written)) + (if hasDb then batch else [])
    {
      if hasDb {
        FlattenSnoc(written, batch);
        written := written + [batch];
      }
    }

    /** `evict`: past the grace threshold only the visible elements stay. */
    method Evict()
      requires Valid()
      modifies this`written, this`evicted, contents
      ensures Valid() && |contents.inner| <= keepCount + graceThreshold
      ensures |contents.inner| == if |old(contents.inner)| > keepCount + graceThreshold then keepCount else |old(contents.inner)|
      ensures old(evicted) <= evicted
    {
      if |contents.inner| > keepCount + graceThreshold {
        var batch := contents.EvictWith(keepCount);
        Save(batch);
        evicted := evicted + batch;
      }
    }

    /** `push`: evicts first, then appends. */
    method Push(x: T)
      requires Valid()
      modifies this, contents
      ensures Valid() && history == old(history) + [x]
      ensures |contents.inner| == 1 + if |old(contents.inner)| > keepCount + graceThreshold then keepCount else |old(contents.inner)|
      ensures old(evicted) <= evicted
    {
      Evict();
      contents.Push(x);
      history := history + [x];
    }

    /** `get_copy`: the visible end of the history, and the index it starts at. */
    method GetCopy() returns (copy: seq<T>, offset: nat)
      requires Valid()
      ensures offset == MinimumStart(|history|, keepCount)
      ensures copy == history[offset..]
    {
      copy, offset := contents.GetLastN(keepCount), MinimumStart(contents.LogicalLen(), keepCount);
    }

    /** `get_range_copy`: the history from `start`, clamped to what is visible, up to `end`.  The
        index returned with it is that of the first visible element. */
    method GetRangeCopy(start: nat, end: Option<nat>) returns (r: Option<(seq<T>, nat)>)
      requires Valid()
      ensures var allowed := MinimumStart(|history|, keepCount);
              var from := if start >= allowed then start else allowed;
              var to := if end.Some? then end.value else |history|;
              && (r.Some? <==> from < to <= |history|)
              && (r.Some? ==> r.value.0 == history[from..to])
              // the index names the first element of the copy exactly when `start` was not beyond it
              && (r.Some? ==> r.value.1 == allowed && (r.value.1 == from <==> start <= allowed))
    {
      var allowed := MinimumStart(contents.LogicalLen(), keepCount);
      var from := if start >= allowed then start else allowed;
      if from >= contents.LogicalLen() || (end.Some? && (end.value > contents.LogicalLen() || from >= end.value)) {
        return None;
      }
      assert contents.inMemOffset <= allowed;
      SliceOfConcat(evicted, contents.inner, from, if end.Some? then end.value else contents.LogicalLen());
      return Some((contents.LogicalSlice(from, end), allowed));
    }

    /** `drop`: with a database nothing is lost, and everything arrives in order. */
    method Drop()
      requires Valid()
      modifies this, contents
      ensures contents.inner == [] && history == old(history)
      ensures Flatten(written) == if hasDb then history else []
    {
      var batch := contents.EvictWith(0);
      Save(batch);
      evicted := evicted + batch;
    }
  }

  // ---------------------------------------------------------------- ContextManager

  class ConnContext {
    const id: nat
    var done: bool

    constructor (id: nat)
      ensures this.id == id && !done
    {
      this.id, done := id, false;
    }
  }

  /** Distinct connections, by their ids. */
  ghost predicate DistinctIds(s: seq<ConnContext>) {
    forall i, j :: 0 <= i < j < |s| ==> s[i].id != s[j].id
  }

  ghost predicate Apart(s: seq<ConnContext>, active: map<nat, ConnContext>) {
    forall i :: 0 <= i < |s| ==> s[i].id !in active
  }

  ghost predicate Keyed(active: map<nat, ConnContext>) {
    forall k :: k in active ==> active[k].id == k
  }

  /** Every pushed connection is either active or retired. */
  ghost predicate Accounted(pushed: set<ConnContext>, active: map<nat, ConnContext>, retired: seq<ConnContext>) {
    && (forall c | c in pushed :: (c.id in active && active[c.id] == c) || c in retired)
    && (forall k :: k in active ==> active[k] in pushed)
    && (forall i :: 0 <= i < |retired| ==> retired[i] in pushed)
  }

  /** The bookkeeping without the heap: active and retired connections never overlap. */
  ghost predicate Books(pushed: set<ConnContext>, active: map<nat, ConnContext>, retired: seq<ConnContext>) {
    Keyed(active) && DistinctIds(retired) && Apart(retired, active) && Accounted(pushed, active, retired)
  }

  lemma RetireOne(pushed: set<ConnContext>, active: map<nat, ConnContext>, retired: seq<ConnContext>, k: nat)
    requires Books(pushed, active, retired) && k in active
    ensures Books(pushed, active - {k}, retired + [active[k]])
  {
    var c := active[k];
    assert forall x :: x in retired + [c] <==> x in retired || x == c;
  }

  lemma PushOne(pushed: set<ConnContext>, active: map<nat, ConnContext>, retired: seq<ConnContext>, c: ConnContext)
    requires Books(pushed, active, retired)
    requires forall x :: x in pushed ==> x.id != c.id
    ensures Books(pushed + {c}, active[c.id := c], retired)
  {
    assert forall k :: k in active ==> active[k] in pushed && k != c.id;
    assert forall i :: 0 <= i < |retired| ==> retired[i] in pushed;
  }

  class ContextManager {
    var active: map<nat, ConnContext>
    const inactive: EvictableVec<ConnContext>
    var logLimit: nat
    const graceThreshold: nat := 5
    const hasDb: bool
    var notify: bool
    var written: seq<seq<ConnContext>>
    ghost var pushed: set<ConnContext>
    ghost var evicted: seq<ConnContext>

    /** The connections that left the active table, oldest departure first. */
    ghost function Retired(): seq<ConnContext>
      reads this, inactive
    {
      evicted + inactive.inner
    }

    ghost predicate Valid()
      reads this, inactive, pushed
    {
      && Books(pushed, active, Retired())
      && (forall c | c in pushed && c in Retired() :: c.done)
      && Flatten(written) == if hasDb then evicted else []
    }

    constructor (hasDb: bool, logLimit: nat)
      ensures Valid() && pushed == {} && this.hasDb == hasDb && this.logLimit == logLimit && fresh(inactive) && !notify && active == map[]
    {
      this.hasDb, this.logLimit := hasDb, logLimit;
      inactive := new EvictableVec();
      active, notify, written, pushed, evicted := map[], false, [], {}, [];
    }

    /** `set_conn_log_limit` */
    method SetLogLimit(limit: nat)
      requires Valid()
      modifies this`logLimit
      ensures Valid() && logLimit == limit
    {
      logLimit := limit;
    }

    /** `ConnContext::mark_fin`, which may come before the connection is pushed. */
    method MarkFin(c: ConnContext)
      requires Valid()
      modifies c, this`notify
      ensures Valid() && c.done && notify
    {
      c.done := true;
      notify := true;
    }

    /** The first half of `evict`: the finished connections leave the active table, in whatever
        order the map yields them. */
    method RetireDone()
      requires Valid()
      modifies this`active, inactive`inner
      ensures Valid()
      ensures evicted + old(inactive.inner) <= Retired()
      ensures forall k :: k in active ==> k in old(active) && active[k] == old(active)[k]
      ensures forall k :: k in old(active) ==> (k in active <==> !old(active)[k].done)
    {
      ghost var retired0 := Retired();
      var todo := active.Keys;
      while todo != {}
        invariant todo <= active.Keys <= old(active).Keys
        invariant forall k :: k in active ==> active[k] == old(active)[k]
        invariant forall k :: k in old(active) ==> (k in active <==> k in todo || !old(active)[k].done)
        invariant Valid()
        invariant retired0 <= Retired()
        decreases todo
      {
        var k :| k in todo;
        todo := todo - {k};
        RetireIfDone(k);
      }
    }

    /** One round of that loop. */
    method RetireIfDone(k: nat)
      requires Valid() && k in active
      modifies this`active, inactive`inner
      ensures Valid()
      ensures active == if old(active)[k].done then old(active) - {k} else old(active)
      ensures Retired() == old(Retired()) + (if old(active)[k].done then [old(active)[k]] else [])
    {
      var c := active[k];
      if c.done {
        RetireOne(pushed, active, Retired(), k);
        inactive.Push(c);
        active := active - {k};
        assert Retired() == old(Retired()) + [c];
      }
    }

    /** The second half of `evict`: past the grace threshold only `logLimit` connections stay. */
    method Trim()
      requires Valid()
      modifies this`written, this`evicted, inactive`inner
      ensures Valid() && Retired() == old(Retired()) && old(evicted) <= evicted
      ensures |inactive.inner| ==
                if |old(inactive.inner)| > logLimit + graceThreshold then logLimit else |old(inactive.inner)|
    {
      if |inactive.inner| > logLimit + graceThreshold {
        var limit := logLimit;
        var batch := inactive.EvictUntil((_, left) => left > limit);
        evicted := evicted + batch;
        assert Retired() == old(Retired());
        assert |batch| > 0 && |inactive.inner| <= limit;
        ghost var lastGone := batch[|batch| - 1];
        assert |inactive.inner| + 1 > limit;
        if hasDb {
          FlattenSnoc(written, batch);
          written := written + [batch];
        }
      }
    }

    /** `push`, with an id no earlier connection had. */
    method Push(info: ConnContext)
      requires Valid()
      requires forall c :: c in pushed ==> c.id != info.id
      modifies this, inactive`inner
      ensures Valid() && pushed == old(pushed) + {info} && logLimit == old(logLimit)
      // departures only append: eviction is first in, first out
      ensures old(Retired()) <= Retired() && old(evicted) <= evicted
      // a connection leaves the active table when it is done, and only then
      ensures var all := old(active)[info.id := info];
              && (forall k :: k in active ==> k in all && active[k] == all[k])
              && (forall k :: k in all ==> (k in active <==> !(old(notify) && all[k].done)))
      // past the grace threshold exactly `logLimit` connections stay inactive, else all of them do
      ensures var total := |Retired()| - |old(evicted)|;
              |inactive.inner| == if total > logLimit + graceThreshold then logLimit else total
      ensures |inactive.inner| <= logLimit + graceThreshold
      ensures !notify
    {
      PushOne(pushed, active, Retired(), info);
      pushed := pushed + {info};
      active := active[info.id := info];
      var processActive := notify;
      notify := false;
      if processActive {
        RetireDone();
      }
      Trim();
    }

    /** `drop` of the manager: with a database every connection ever pushed has been written
        exactly once: those evicted before, then the active ones, then the inactive ones. */
    method Drop()
      requires Valid()
      modifies this, inactive
      ensures hasDb ==> DistinctIds(Flatten(written)) && forall c :: c in Flatten(written) <==> c in old(pushed)
      ensures hasDb ==> old(evicted) <= Flatten(written)
      ensures !hasDb ==> Flatten(written) == []
    {
      var list: seq<ConnContext> := [];
      var todo := active.Keys;
      while todo != {}
        invariant todo <= active.Keys
        invariant forall c :: c in list <==> c.id in active && active[c.id] == c && c.id !in todo
        invariant DistinctIds(list)
        modifies {}
        decreases todo
      {
        var k :| k in todo;
        todo := todo - {k};
        list := list + [active[k]];
      }
      var rest := inactive.EvictWith(0);
      assert rest == old(inactive.inner) && evicted + rest == old(Retired());
      if hasDb {
        FlattenSnoc(written, list);
        written := written + [list];
        FlattenSnoc(written, rest);
        written := written + [rest];
        MergeDistinct(evicted, list, rest, active);
      }
    }
  }

  lemma MergeDistinct(a: seq<ConnContext>, list: seq<ConnContext>, b: seq<ConnContext>, active: map<nat, ConnContext>)
    requires DistinctIds(a + b) && DistinctIds(list) && Apart(a + b, active)
    requires forall c :: c in list ==> c.id in active
    ensures DistinctIds(a + list + b)
    ensures forall c :: c in a + list + b <==> c in a + b || c in list
  {
    var s := a + list + b;
    forall i, j | 0 <= i < j < |s| ensures s[i].id != s[j].id {
      var x := if i < |a| then i else i - |list|;
      var y := if j < |a| then j else j - |list|;
      if i < |a| || i >= |a| + |list| { assert s[i] == (a + b)[x]; } else { assert s[i] == list[i - |a|] && s[i] in list; }
      if j < |a| || j >= |a| + |list| { assert s[j] == (a + b)[y]; } else { assert s[j] == list[j - |a|] && s[j] in list; }
    }
    forall c | c in a + b || c in list ensures c in s {
      if c in a {
        var i :| 0 <= i < |a| && a[i] == c;
        assert s[i] == c;
      } else if c in list {
        var i :| 0 <= i < |list| && list[i] == c;
        assert s[|a| + i] == c;
      } else {
        var i :| 0 <= i < |b| && b[i] == c;
        assert s[|a| + |list| + i] == c;
      }
    }
  }
}
