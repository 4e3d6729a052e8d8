/** The fake-IP allocator (boltconn/src/network/dns/dns_table.rs, boltconn/src/network/dns/dns.rs).
    Two hash maps share the same mutable records, so records are heap objects: a time stamp
    refreshed through one index is seen through the other.  The iteration order of a hash map is
    chosen by `:|`, i.e. arbitrary.  `Instant::now()` is a parameter of each call; readings never
    go back, which `clock` records. */
module DnsTable {
  import opened Common

  type Ip = nat

  // The hosts of 198.19.0.0/16: 198.19.0.1 up to 198.19.255.254
  const NETWORK: nat := 198 * 0x100_0000 + 19 * 0x1_0000
  const HOSTS: nat := 65534
  const LOW_WATER: nat := 1024
  const STALE_TIME: nat := 3600

  predicate InPool(ip: Ip) { NETWORK < ip <= NETWORK + HOSTS }

  class DnsRecord {
    const domainName: string
    const ip: Ip
    var lastTime: nat

    constructor (domainName: string, ip: Ip, now: nat)
      ensures this.domainName == domainName && this.ip == ip && lastTime == now
    {
      this.domainName, this.ip, this.lastTime := domainName, ip, now;
    }

    method Update(now: nat)
      modifies this
      ensures lastTime == now
    {
      lastTime := now;
    }
  }

  /** `strip_suffix('.')`: one trailing dot goes. */
  function StripDot(d: string): string {
    if d != "" && d[|d| - 1] == '.' then d[..|d| - 1] else d
  }

  predicate EndsInDot(d: string) { d != "" && d[|d| - 1] == '.' }

  /** One trailing dot goes, and nothing else. */
  lemma StripDotMeaning(d: string)
    ensures StripDot(d + ".") == d
    ensures !EndsInDot(d) ==> StripDot(d) == d
  {
    assert (d + ".")[..|d|] == d;
  }

  /** The same name but for one trailing dot. */
  predicate SameName(d: string, e: string) {
    d == e || (!EndsInDot(e) && d == e + ".") || (!EndsInDot(d) && e == d + ".")
  }

  lemma SameNameIff(d: string, e: string)
    ensures StripDot(d) == StripDot(e) <==> SameName(d, e)
  {
    StripDotMeaning(d);
    StripDotMeaning(e);
    if EndsInDot(d) {
      assert d == d[..|d| - 1] + ".";
      StripDotMeaning(d[..|d| - 1]);
    }
    if EndsInDot(e) {
      assert e == e[..|e| - 1] + ".";
      StripDotMeaning(e[..|e| - 1]);
    }
  }

  /** The pool, in dotted notation: the hosts of 198.19.0.0/16. */
  lemma PoolIsTheSubnet(a: nat, b: nat, c: nat, d: nat)
    requires a < 256 && b < 256 && c < 256 && d < 256
    ensures InPool(((a * 256 + b) * 256 + c) * 256 + d) <==>
              a == 198 && b == 19 && !(c == 0 && d == 0) && !(c == 255 && d == 255)
  {
  }

  predicate NoDuplicates(s: seq<Ip>) { forall i, j :: 0 <= i < j < |s| ==> s[i] != s[j] }

  /** A query by name reads the clock before each flush and when it stamps the record. */
  datatype Op =
    | ByName(domain: string, early: nat, middle: nat, at: nat)
    | ByIp(addr: Ip, at: nat)
    | Flush(at: nat)

  function Begin(op: Op): nat { if op.ByName? then op.early else op.at }

  ghost predicate Monotone(clock: nat, ops: seq<Op>) {
    && (forall i :: 0 <= i < |ops| ==> clock <= Begin(ops[i]))
    && (forall i :: 0 <= i < |ops| && ops[i].ByName? ==> ops[i].early <= ops[i].middle <= ops[i].at)
    && (forall i, j :: 0 <= i < j < |ops| ==> ops[i].at <= Begin(ops[j]))
  }

  /** The names known after the queries `ops`. */
  function KnownAfter(ops: seq<Op>, known: set<string>): set<string> {
    if ops == [] then known
    else KnownAfter(ops[1..], if ops[0].ByName? then known + {StripDot(ops[0].domain)} else known)
  }

  /** The addresses an operation takes when it does not flush. */
  function Taken(op: Op, known: set<string>): nat {
    if op.ByName? && StripDot(op.domain) !in known then 1 else 0
  }

  /** Whether the operations flush, told from the size of the free list and the known names: a
      new name takes one address, and a query by name flushes below the low-water mark. */
  predicate WillFlush(ops: seq<Op>, free: int, known: set<string>) {
    if ops == [] then false
    else match ops[0]
      case Flush(_) => true
      case ByIp(_, _) => WillFlush(ops[1..], free, known)
      case ByName(domain, _, _, _) =>
        var name := StripDot(domain);
        free < LOW_WATER || WillFlush(ops[1..], free - Taken(ops[0], known), known + {name})
  }

  predicate OnlyQueries(ops: seq<Op>) { forall i :: 0 <= i < |ops| ==> !ops[i].Flush? }

  /** Room for one new name per operation is enough. */
  lemma {:induction false} RoomEnough(ops: seq<Op>, free: int, known: set<string>)
    requires free >= LOW_WATER + |ops| && OnlyQueries(ops)
    ensures !WillFlush(ops, free, known)
  {
    if ops != [] {
      var name := if ops[0].ByName? then StripDot(ops[0].domain) else "";
      RoomEnough(ops[1..], free, known);
      RoomEnough(ops[1..], free, known + {name});
      RoomEnough(ops[1..], free - 1, known + {name});
    }
  }

  /** Free IPs and IPs in use split the pool; nothing occurs twice. */
  ghost predicate Partition(free: seq<Ip>, used: set<Ip>) {
    && NoDuplicates(free)
    && (forall ip :: ip in free ==> InPool(ip) && ip !in used)
    && (forall ip :: ip in used ==> InPool(ip))
    && (forall ip :: InPool(ip) ==> ip in free || ip in used)
  }

  /** Both indexes hold the very same records, each under its own name and its own IP. */
  ghost predicate Linked(dn: map<string, DnsRecord>, ips: map<Ip, DnsRecord>) {
    && (forall n :: n in dn ==> dn[n].domainName == n && dn[n].ip in ips && ips[dn[n].ip] == dn[n])
    && (forall ip :: ip in ips ==>
          ips[ip].ip == ip && ips[ip].domainName in dn && dn[ips[ip].domainName] == ips[ip])
  }

  /** What `retain` leaves of a map when exactly the records in `kept` stay. */
  ghost function Retained<K>(m: map<K, DnsRecord>, kept: set<DnsRecord>): map<K, DnsRecord> {
    map k | k in m && m[k] in kept :: m[k]
  }

  lemma RetainKeepsLinked(dn: map<string, DnsRecord>, ips: map<Ip, DnsRecord>, kept: set<DnsRecord>)
    requires Linked(dn, ips)
    ensures Linked(Retained(dn, kept), Retained(ips, kept))
    ensures Retained(ips, kept).Values <= ips.Values
  {
  }

  /** Nothing in `m` is new or changed. */
  ghost predicate Part<K>(m: map<K, DnsRecord>, of: map<K, DnsRecord>) {
    forall k :: k in m ==> k in of && m[k] == of[k]
  }

  lemma RetainedIsPart<K>(m: map<K, DnsRecord>, kept: set<DnsRecord>)
    ensures Part(Retained(m, kept), m) && Retained(m, kept).Values <= m.Values
  {
  }

  lemma RetainTwice<K>(m: map<K, DnsRecord>, a: set<DnsRecord>, b: set<DnsRecord>)
    ensures Retained(Retained(m, a), b) == Retained(m, a * b)
  {
  }

  /** A pool whose records did not all survive has a free address, and so has an unused one. */
  lemma OneFree(ips: map<Ip, DnsRecord>, kept: set<DnsRecord>, free: seq<Ip>)
    requires ips == map[] || kept < ips.Values
    requires forall ip :: ip in ips ==> InPool(ip)
    requires Partition(free, Retained(ips, kept).Keys)
    ensures free != []
  {
    if ips == map[] {
      assert InPool(NETWORK + 1);
    } else {
      var r :| r in ips.Values && r !in kept;
      var ip :| ip in ips && ips[ip] == r;
      assert InPool(ip) && ip !in Retained(ips, kept);
    }
  }

  lemma FreeOne(free: seq<Ip>, used: set<Ip>, ip: Ip)
    requires Partition(free, used) && ip in used
    ensures Partition(free + [ip], used - {ip})
  {
    assert (free + [ip])[|free|] == ip;
    assert forall x :: x in free + [ip] <==> x in free || x == ip;
  }

  lemma TakeLast(free: seq<Ip>, used: set<Ip>)
    requires Partition(free, used) && free != []
    ensures InPool(free[|free| - 1]) && free[|free| - 1] !in used
    ensures Partition(free[..|free| - 1], used + {free[|free| - 1]})
  {
    var ip, rest := free[|free| - 1], free[..|free| - 1];
    assert free == rest + [ip];
    assert forall x :: x in free <==> x in rest || x == ip;
  }

  predicate Among(ip: Ip, n: nat) { NETWORK < ip <= NETWORK + n }

  ghost function FirstHosts(n: nat): set<Ip> {
    if n == 0 then {} else FirstHosts(n - 1) + {NETWORK + n}
  }

  lemma {:induction false} HostCount(n: nat)
    ensures |FirstHosts(n)| == n
    ensures forall ip: Ip :: ip in FirstHosts(n) <==> Among(ip, n)
  {
    if n > 0 {
      HostCount(n - 1);
      assert !Among(NETWORK + n, n - 1);
    }
  }

  ghost function Elements(s: seq<Ip>): set<Ip> { set ip | ip in s }

  lemma {:induction false} ElementCount(s: seq<Ip>)
    requires NoDuplicates(s)
    ensures |Elements(s)| == |s|
  {
    if s == [] {
      assert Elements(s) == {};
    } else {
      var last, rest := s[|s| - 1], s[..|s| - 1];
      ElementCount(rest);
      assert last !in rest;
      assert s == rest + [last];
      assert Elements(s) == Elements(rest) + {last};
    }
  }

  /** Every address of the pool is counted once. */
  lemma PoolSize(free: seq<Ip>, used: set<Ip>)
    requires Partition(free, used)
    ensures |free| + |used| == HOSTS
  {
    ElementCount(free);
    HostCount(HOSTS);
    assert forall ip: Ip :: Among(ip, HOSTS) <==> InPool(ip);
    assert FirstHosts(HOSTS) == Elements(free) + used;
    assert Elements(free) !! used;
  }

  /** All entries but that of `r` are old ones, and those at the addresses `left` are still there. */
  ghost predicate Others(dn: map<string, DnsRecord>, ips: map<Ip, DnsRecord>, left: set<Ip>,
                         dn': map<string, DnsRecord>, ips': map<Ip, DnsRecord>, r: DnsRecord)
  {
    && r.domainName in dn' && dn'[r.domainName] == r && r.ip in ips' && ips'[r.ip] == r
    && (forall n :: n in dn' && n != r.domainName ==> n in dn && dn'[n] == dn[n])
    && (forall ip :: ip in ips' && ip != r.ip ==> ip in ips && ips'[ip] == ips[ip])
    && (forall ip :: ip in left ==> ip in ips')
    && (forall q :: q in ips'.Values && q != r ==> q in ips.Values)
  }

  lemma OthersStay(dn: map<string, DnsRecord>, ips: map<Ip, DnsRecord>, dn1: map<string, DnsRecord>, ips1: map<Ip, DnsRecord>, left: set<Ip>,
                   dn2: map<string, DnsRecord>, ips2: map<Ip, DnsRecord>, r: DnsRecord)
    requires Part(dn1, dn) && Part(ips1, ips) && left == ips1.Keys
    requires dn2 == dn1[r.domainName := r] && ips2 == ips1[r.ip := r]
    ensures Others(dn, ips, left, dn2, ips2, r)
  {
  }

  /** The tables and the free list changed by the record `r` only: a known name keeps its record, a
      new one takes the last free address. */
  ghost predicate OneName(dn: map<string, DnsRecord>, ips: map<Ip, DnsRecord>, free: seq<Ip>,
                          dn': map<string, DnsRecord>, ips': map<Ip, DnsRecord>, free': seq<Ip>, r: DnsRecord)
  {
    && dn' == dn[r.domainName := r] && ips' == ips[r.ip := r]
    && if r.domainName in dn then r == dn[r.domainName] && free' == free
       else free != [] && r.ip == free[|free| - 1] && free' == free[..|free| - 1]
  }

  /** `cut` is the oldest time stamp of the records under `scanned`, but not later than `now`. */
  ghost predicate OldestOf(times: map<Ip, nat>, scanned: set<Ip>, cut: nat, now: nat) {
    && scanned <= times.Keys && cut <= now
    && (forall ip :: ip in scanned ==> cut <= times[ip])
    && (cut < now ==> exists ip :: ip in scanned && times[ip] == cut)
  }

  /** The time stamps a flush at `now` for expiration keeps, and those newer than `cut`. */
  ghost function StaleTimes(times: map<Ip, nat>, now: nat): map<Ip, nat> {
    map ip | ip in times && now - times[ip] > STALE_TIME :: times[ip]
  }

  ghost function NewerTimes(times: map<Ip, nat>, cut: nat): map<Ip, nat> {
    map ip | ip in times && times[ip] > cut :: times[ip]
  }

  /** Which records are left when a query finds the records `times` and `free` addresses: all of
      them unless addresses are short; else those that a flush at `now0` for expiration keeps; and if
      that leaves addresses short still, of those the ones newer than the oldest of the 30% that
      were scanned, so at least one goes. */
  ghost predicate TimesLeft(times: map<Ip, nat>, free: nat, now0: nat, now1: nat, left: map<Ip, nat>, cut: nat, scanned: set<Ip>) {
    var stale := StaleTimes(times, now0);
    if free >= LOW_WATER then left == times
    else if HOSTS - |stale.Keys| >= LOW_WATER then left == stale
    else
      && left == NewerTimes(stale, cut) && OldestOf(stale, scanned, cut, now1) && |scanned| == 3 * |stale.Keys| / 10
      && (stale != map[] ==> left != stale)
  }

  /** But for that of `but`, no time stamp is new or changed. */
  ghost predicate SameBut(before: map<Ip, nat>, after: map<Ip, nat>, but: Ip) {
    forall ip :: ip in after && ip != but ==> ip in before && after[ip] == before[ip]
  }

  lemma LeftAsBefore(times: map<Ip, nat>, free: nat, now0: nat, now1: nat, left: map<Ip, nat>, cut: nat, scanned: set<Ip>, ip: Ip, now: nat)
    requires TimesLeft(times, free, now0, now1, left, cut, scanned)
    ensures SameBut(times, left[ip := now], ip)
  {
  }

  lemma OldestNext(times: map<Ip, nat>, scanned: set<Ip>, cut: nat, now: nat, ip: Ip)
    requires OldestOf(times, scanned, cut, now) && ip in times
    ensures OldestOf(times, scanned + {ip}, if times[ip] < cut then times[ip] else cut, now)
  {
  }

  /** The scan takes records until it has `stop` of them. */
  ghost predicate Scanning(all: set<Ip>, scanned: set<Ip>, todo: set<Ip>, cnt: nat, stop: nat) {
    todo <= all && scanned !! todo && cnt == |scanned| <= stop && (cnt < stop ==> scanned + todo == all)
  }

  lemma ScanNext(all: set<Ip>, scanned: set<Ip>, todo: set<Ip>, cnt: nat, stop: nat, ip: Ip)
    requires Scanning(all, scanned, todo, cnt, stop) && ip in todo
    ensures if cnt < stop then Scanning(all, scanned + {ip}, todo - {ip}, cnt + 1, stop)
            else Scanning(all, scanned, todo - {ip}, cnt, stop)
  {
    assert cnt < stop ==> (scanned + {ip}) + (todo - {ip}) == all;
  }

  lemma ScanEnds(all: set<Ip>, scanned: set<Ip>, cnt: nat, stop: nat)
    requires Scanning(all, scanned, {}, cnt, stop) && stop <= |all|
    ensures |scanned| == stop
  {
    assert scanned + {} == scanned;
  }

  class DnsTable {
    var dnTable: map<string, DnsRecord>
    var ipTable: map<Ip, DnsRecord>
    var availableIps: seq<Ip>
    const staleTime: nat := STALE_TIME
    ghost var clock: nat

    ghost predicate Valid()
      reads this, ipTable.Values
    {
      && Partition(availableIps, ipTable.Keys)
      && Linked(dnTable, ipTable)
      && (forall r :: r in ipTable.Values ==> r.lastTime <= clock)
    }

    constructor ()
      ensures Valid()
      ensures dnTable == map[] && ipTable == map[] && clock == 0
      ensures |availableIps| == HOSTS
      // `pop` hands out 198.19.0.1 first
      ensures forall i :: 0 <= i < HOSTS ==> availableIps[i] == NETWORK + HOSTS - i
    {
      var ips: seq<Ip> := [];
      while |ips| < HOSTS
        invariant |ips| <= HOSTS
        invariant forall i :: 0 <= i < |ips| ==> ips[i] == NETWORK + 1 + i
      {
        ips := ips + [NETWORK + 1 + |ips|];
      }
      dnTable, ipTable, clock := map[], map[], 0;
      availableIps := seq(HOSTS, i requires 0 <= i < |ips| => ips[|ips| - 1 - i]);
      new;
      assert forall ip :: InPool(ip) ==> availableIps[NETWORK + HOSTS - ip] == ip;
    }

    /** `query_by_ip`: finds the record and refreshes it. */
    method QueryByIp(addr: Ip, now: nat) returns (r: DnsRecord?)
      requires Valid() && clock <= now
      modifies this`clock, ipTable.Values
      ensures Valid() && clock == now
      ensures r == if addr in ipTable then ipTable[addr] else null
      ensures forall q :: q in ipTable.Values ==> q.lastTime == if q == r then now else old(q.lastTime)
    {
      clock := now;
      if addr in ipTable {
        r := ipTable[addr];
        r.Update(now);
      } else {
        r := null;
      }
    }

    /** The records whose time stamp passes `keep`. */
    ghost function Passing(keep: nat -> bool): set<DnsRecord>
      reads this, ipTable.Values
    {
      set r | r in ipTable.Values && keep(r.lastTime)
    }

    /** The `ip_table` pass of a flush: the IPs of the records that fail `keep` return to the free
        list, in whatever order the map yields them. */
    method Sweep(keep: nat -> bool, ghost kept: set<DnsRecord>) returns (left: map<Ip, DnsRecord>, free: seq<Ip>)
      requires Partition(availableIps, ipTable.Keys) && Linked(dnTable, ipTable) && kept == Passing(keep)
      ensures left == Retained(ipTable, kept)
      ensures Partition(free, left.Keys) && availableIps <= free
    {
      left, free := ipTable, availableIps;
      var todo := ipTable.Keys;
      while todo != {}
        invariant todo <= left.Keys <= ipTable.Keys
        invariant forall ip :: ip in left ==> left[ip] == ipTable[ip]
        invariant forall ip :: ip in ipTable ==> (ip in left <==> ip in todo || ipTable[ip] in kept)
        invariant Partition(free, left.Keys)
        invariant availableIps <= free
        decreases todo
      {
        var ip :| ip in todo;
        todo := todo - {ip};
        if !keep(left[ip].lastTime) {
          FreeOne(free, left.Keys, ip);
          free := free + [left[ip].ip];
          left := left - {ip};
        }
      }
    }

    /** The `dn_table` pass of a flush leaves the same records as the `ip_table` pass. */
    method SweepNames(keep: nat -> bool, ghost kept: set<DnsRecord>) returns (left: map<string, DnsRecord>)
      requires Linked(dnTable, ipTable) && kept == Passing(keep)
      ensures left == Retained(dnTable, kept)
    {
      left := map n | n in dnTable && keep(dnTable[n].lastTime) :: dnTable[n];
      forall n | n in dnTable ensures dnTable[n] in ipTable.Values {
        assert ipTable[dnTable[n].ip] == dnTable[n];
      }
    }

    /** Both passes, on values. */
    method SweepBoth(keep: nat -> bool, ghost kept: set<DnsRecord>)
      returns (names: map<string, DnsRecord>, left: map<Ip, DnsRecord>, free: seq<Ip>)
      requires Partition(availableIps, ipTable.Keys) && Linked(dnTable, ipTable) && kept == Passing(keep)
      ensures names == Retained(dnTable, kept) && left == Retained(ipTable, kept)
      ensures Partition(free, left.Keys) && availableIps <= free && Linked(names, left) && left.Values <= ipTable.Values
    {
      RetainKeepsLinked(dnTable, ipTable, kept);
      left, free := Sweep(keep, kept);
      names := SweepNames(keep, kept);
    }

    /** Both `retain` passes of a flush. */
    method RetainByTime(keep: nat -> bool) returns (ghost kept: set<DnsRecord>)
      requires Valid()
      modifies this`dnTable, this`ipTable, this`availableIps
      ensures Valid()
      ensures kept == old(Passing(keep))
      ensures dnTable == Retained(old(dnTable), kept) && ipTable == Retained(old(ipTable), kept)
      ensures old(availableIps) <= availableIps
    {
      kept := Passing(keep);
      var names, left, free := SweepBoth(keep, kept);
      dnTable, ipTable, availableIps := names, left, free;
    }

    /** `flush_expiration`, as written: a record is kept when its age exceeds the threshold. */
    method FlushExpiration(now: nat) returns (ghost kept: set<DnsRecord>)
      requires Valid() && clock <= now
      modifies this
      ensures Valid() && clock == now
      ensures kept == set r | r in old(ipTable.Values) && now - r.lastTime > staleTime
      ensures dnTable == Retained(old(dnTable), kept) && ipTable == Retained(old(ipTable), kept)
      ensures old(availableIps) <= availableIps
    {
      var limit := staleTime;
      kept := RetainByTime(t => now - t > limit);
      clock := now;
    }

    ghost function Times(): map<Ip, nat>
      reads this, ipTable.Values
    {
      map ip | ip in ipTable :: ipTable[ip].lastTime
    }

    /** The scanning loop of `flush_older`: the oldest time stamp among the first 30% of the
        records in iteration order, and never later than `now`. */
    method ScanOldest(now: nat) returns (cut: nat, ghost scanned: set<Ip>)
      ensures OldestOf(Times(), scanned, cut, now) && |scanned| == 3 * |ipTable.Keys| / 10
    {
      // (len as f64 * 0.3) as usize
      var stop := 3 * |ipTable.Keys| / 10;
      var cnt := 0;
      cut, scanned := now, {};
      var todo := ipTable.Keys;
      while todo != {}
        invariant Scanning(ipTable.Keys, scanned, todo, cnt, stop)
        invariant OldestOf(Times(), scanned, cut, now)
        decreases todo
      {
        var ip :| ip in todo;
        ScanNext(ipTable.Keys, scanned, todo, cnt, stop, ip);
        todo := todo - {ip};
        if cnt < stop {
          var t := ipTable[ip].lastTime;
          OldestNext(Times(), scanned, cut, now, ip);
          cnt, scanned := cnt + 1, scanned + {ip};
          if t < cut {
            cut := t;
          }
        }
      }
      ScanEnds(ipTable.Keys, scanned, cnt, stop);
    }

    /** What the scan finds in a table whose clock never went back. */
    method OldestOfFirst(now: nat) returns (cut: nat, ghost scanned: set<Ip>)
      requires Valid() && clock <= now
      ensures OldestOf(Times(), scanned, cut, now) && |scanned| == 3 * |ipTable.Keys| / 10
      ensures ipTable != map[] ==> exists r :: r in ipTable.Values && r.lastTime <= cut
    {
      cut, scanned := ScanOldest(now);
      if ipTable != map[] {
        ghost var ip :| ip in ipTable && (cut < now ==> ipTable[ip].lastTime == cut);
        assert ipTable[ip] in ipTable.Values;
      }
    }

    /** The passes of `flush_older`: every record not newer than `cut` goes. */
    method FlushUpTo(cut: nat, now: nat) returns (ghost kept: set<DnsRecord>)
      requires Valid() && clock <= now
      requires ipTable != map[] ==> exists r :: r in ipTable.Values && r.lastTime <= cut
      modifies this
      ensures Valid() && clock == now
      ensures kept == set r | r in old(ipTable.Values) && r.lastTime > cut
      ensures dnTable == Retained(old(dnTable), kept) && ipTable == Retained(old(ipTable), kept)
      ensures old(ipTable) != map[] ==> kept < old(ipTable.Values)
      ensures availableIps != []
    {
      kept := RetainByTime(t => t > cut);
      clock := now;
      OneFree(old(ipTable), kept, availableIps);
    }

    /** `flush_older`: no survivor is older than an evicted record, at least one record of a
        non-empty table goes, and the bound is the oldest of the 30% that were scanned. */
    method FlushOlder(now: nat) returns (cut: nat, ghost kept: set<DnsRecord>, ghost scanned: set<Ip>)
      requires Valid() && clock <= now
      modifies this
      ensures Valid() && clock == now
      ensures OldestOf(old(Times()), scanned, cut, now) && |scanned| == 3 * |old(ipTable.Keys)| / 10
      ensures kept == set r | r in old(ipTable.Values) && r.lastTime > cut
      ensures dnTable == Retained(old(dnTable), kept) && ipTable == Retained(old(ipTable), kept)
      ensures old(ipTable) != map[] ==> kept < old(ipTable.Values)
      ensures availableIps != []
    {
      cut, scanned := OldestOfFirst(now);
      kept := FlushUpTo(cut, now);
    }

    /** The records a flush at `now` for expiration keeps. */
    ghost function Stale(now: nat): set<DnsRecord>
      reads this, ipTable.Values
    {
      set r | r in ipTable.Values && now - r.lastTime > staleTime
    }

    /** A `retain` in both tables, seen by the time stamps it leaves. */
    lemma RetainedTimes(times: map<Ip, nat>, left: map<Ip, nat>, kept: set<DnsRecord>, ips: map<Ip, DnsRecord>)
      requires ipTable == Retained(ips, kept) && times.Keys == ips.Keys
      requires forall ip :: ip in ips ==> times[ip] == ips[ip].lastTime && (ips[ip] in kept <==> ip in left)
      requires forall ip :: ip in left ==> ip in times && left[ip] == times[ip]
      ensures Times() == left
    {
    }

    /** A flush for expiration, by the time stamps and the number of addresses it leaves. */
    method FlushStale(now: nat) returns (ghost kept: set<DnsRecord>)
      requires Valid() && clock <= now
      modifies this
      ensures Valid() && clock == now && kept == old(Stale(now))
      ensures dnTable == Retained(old(dnTable), kept) && ipTable == Retained(old(ipTable), kept)
      ensures Times() == StaleTimes(old(Times()), now) && |availableIps| == HOSTS - |StaleTimes(old(Times()), now).Keys|
    {
      ghost var times := Times();
      kept := FlushExpiration(now);
      RetainedTimes(times, StaleTimes(times, now), kept, old(ipTable));
      PoolSize(availableIps, ipTable.Keys);
      assert Times().Keys == ipTable.Keys;
    }

    /** `flush_older`, by the time stamps it leaves. */
    method FlushNewer(now: nat) returns (ghost kept: set<DnsRecord>, ghost cut: nat, ghost scanned: set<Ip>)
      requires Valid() && clock <= now
      modifies this
      ensures Valid() && clock == now && availableIps != []
      ensures dnTable == Retained(old(dnTable), kept) && ipTable == Retained(old(ipTable), kept)
      ensures Times() == NewerTimes(old(Times()), cut) && OldestOf(old(Times()), scanned, cut, now)
      ensures |scanned| == 3 * |old(Times()).Keys| / 10
      ensures old(Times()) != map[] ==> Times() != old(Times())
    {
      ghost var times := Times();
      assert times.Keys == ipTable.Keys;
      cut, kept, scanned := FlushOlder(now);
      RetainedTimes(times, NewerTimes(times, cut), kept, old(ipTable));
      if times != map[] {
        ghost var r :| r in old(ipTable.Values) && r !in kept;
        ghost var ip :| ip in old(ipTable) && old(ipTable)[ip] == r;
        assert ip in times && ip !in Times();
      }
    }

    /** The two flushes of `query_by_domain_name`, each if it is due. */
    method FlushIfShort(now0: nat, now1: nat) returns (ghost kept: set<DnsRecord>, ghost cut: nat, ghost scanned: set<Ip>)
      requires Valid() && clock <= now0 <= now1
      modifies this
      ensures Valid() && clock <= now1 && availableIps != []
      ensures dnTable == Retained(old(dnTable), kept) && ipTable == Retained(old(ipTable), kept)
      ensures |old(availableIps)| >= LOW_WATER ==>
                dnTable == old(dnTable) && ipTable == old(ipTable) && availableIps == old(availableIps)
      ensures TimesLeft(old(Times()), |old(availableIps)|, now0, now1, Times(), cut, scanned)
    {
      kept, cut, scanned := ipTable.Values, 0, {};
      if |availableIps| < LOW_WATER {
        kept := FlushStale(now0);
        if |availableIps| < LOW_WATER {
          ghost var younger;
          younger, cut, scanned := FlushNewer(now1);
          RetainTwice(old(dnTable), kept, younger);
          RetainTwice(old(ipTable), kept, younger);
          kept := kept * younger;
        }
      }
    }

    /** The guard at the head of `query_by_domain_name`: afterwards the free list is not empty,
        even when all 65534 addresses were taken, and it is told which records are left. */
    method MakeRoom(now0: nat, now1: nat) returns (ghost cut: nat, ghost scanned: set<Ip>)
      requires Valid() && clock <= now0 <= now1
      modifies this
      ensures Valid() && clock <= now1 && availableIps != []
      ensures Part(dnTable, old(dnTable)) && Part(ipTable, old(ipTable)) && ipTable.Values <= old(ipTable.Values)
      ensures |old(availableIps)| >= LOW_WATER ==>
                dnTable == old(dnTable) && ipTable == old(ipTable) && availableIps == old(availableIps)
      ensures TimesLeft(old(Times()), |old(availableIps)|, now0, now1, Times(), cut, scanned)
    {
      ghost var kept;
      kept, cut, scanned := FlushIfShort(now0, now1);
      RetainedIsPart(old(dnTable), kept);
      RetainedIsPart(old(ipTable), kept);
    }

    /** The `None` branch: a new record under the last free address. */
    method Allocate(name: string, now: nat) returns (r: DnsRecord)
      requires Valid() && clock <= now && name !in dnTable && availableIps != []
      modifies this
      ensures Valid() && clock == now
      ensures fresh(r) && r.domainName == name && r.lastTime == now
      ensures r.ip == old(availableIps[|availableIps| - 1]) && availableIps == old(availableIps[..|availableIps| - 1])
      ensures r.ip !in old(ipTable)
      ensures dnTable == old(dnTable)[name := r] && ipTable == old(ipTable)[r.ip := r]
    {
      TakeLast(availableIps, ipTable.Keys);
      var ip := availableIps[|availableIps| - 1];
      availableIps := availableIps[..|availableIps| - 1];
      r := new DnsRecord(name, ip, now);
      dnTable := dnTable[name := r];
      ipTable := ipTable[ip := r];
      clock := now;
      assert ipTable.Keys == old(ipTable).Keys + {ip};
    }

    /** The `match` of `query_by_domain_name`. */
    method FindOrAllocate(name: string, now: nat) returns (r: DnsRecord)
      requires Valid() && clock <= now && availableIps != []
      modifies this, ipTable.Values
      ensures Valid() && clock == now
      ensures r.domainName == name && r.lastTime == now
      ensures OneName(old(dnTable), old(ipTable), old(availableIps), dnTable, ipTable, availableIps, r)
      ensures Times() == old(Times())[r.ip := now]
      ensures fresh(r) || r in old(ipTable.Values)
      ensures forall q :: q in old(ipTable.Values) && q != r ==> q.lastTime == old(q.lastTime)
    {
      if name in dnTable {
        r := dnTable[name];
        assert ipTable[r.ip] == r && r in ipTable.Values;
        clock := now;
        r.Update(now);
      } else {
        r := Allocate(name, now);
      }
    }

    /** The guard and the `match`; `dn`, `ips` and `free` are what the guard leaves. */
    method FlushAndFind(name: string, now0: nat, now1: nat, now2: nat)
      returns (r: DnsRecord, ghost left: map<Ip, nat>, ghost cut: nat, ghost scanned: set<Ip>,
               ghost dn: map<string, DnsRecord>, ghost ips: map<Ip, DnsRecord>, ghost free: seq<Ip>)
      requires Valid() && clock <= now0 <= now1 <= now2
      modifies this, ipTable.Values
      ensures Valid() && clock == now2 && r.domainName == name && r.lastTime == now2
      ensures Part(dn, old(dnTable)) && Part(ips, old(ipTable)) && ips.Keys == left.Keys
      ensures |old(availableIps)| >= LOW_WATER ==> dn == old(dnTable) && ips == old(ipTable) && free == old(availableIps)
      ensures OneName(dn, ips, free, dnTable, ipTable, availableIps, r)
      ensures TimesLeft(old(Times()), |old(availableIps)|, now0, now1, left, cut, scanned) && Times() == left[r.ip := now2]
      ensures fresh(r) || r in old(ipTable.Values)
    {
      cut, scanned := MakeRoom(now0, now1);
      dn, ips, free, left := dnTable, ipTable, availableIps, Times();
      r := FindOrAllocate(name, now2);
    }

    /** `query_by_domain_name`: the record of the name without its trailing dot. */
    method QueryByDomainName(domain: string, now0: nat, now1: nat, now2: nat)
      returns (r: DnsRecord, ghost left: map<Ip, nat>, ghost cut: nat, ghost scanned: set<Ip>)
      requires Valid() && clock <= now0 <= now1 <= now2
      modifies this, ipTable.Values
      ensures Valid() && clock == now2
      ensures r.domainName == StripDot(domain) && r.lastTime == now2
      // a known name keeps its record, a new one takes the last free address; without a flush
      // nothing else changes
      ensures |old(availableIps)| >= LOW_WATER ==>
                OneName(old(dnTable), old(ipTable), old(availableIps), dnTable, ipTable, availableIps, r)
      // of the old records exactly those are left that a flush leaves, if one is due
      ensures TimesLeft(old(Times()), |old(availableIps)|, now0, now1, left, cut, scanned) && Times() == left[r.ip := now2]
      // all else is as it was: a flush invents nothing, and no other record is refreshed
      ensures Others(old(dnTable), old(ipTable), left.Keys, dnTable, ipTable, r) && (fresh(r) || r in old(ipTable.Values))
      ensures SameBut(old(Times()), Times(), r.ip)
    {
      ghost var dn, ips, free;
      r, left, cut, scanned, dn, ips, free := FlushAndFind(StripDot(domain), now0, now1, now2);
      LeftAsBefore(old(Times()), |old(availableIps)|, now0, now1, left, cut, scanned, r.ip, now2);
      OthersStay(old(dnTable), old(ipTable), dn, ips, left.Keys, dnTable, ipTable, r);
    }

    /** `flush`. */
    method FlushAll(now: nat)
      requires Valid() && clock <= now
      modifies this
      ensures Valid() && clock == now
      ensures dnTable == Retained(old(dnTable), old(Stale(now))) && ipTable == Retained(old(ipTable), old(Stale(now)))
      ensures ipTable.Values <= old(ipTable.Values)
    {
      ghost var kept := FlushExpiration(now);
    }

    /** `domain_to_fake_ip`. */
    method DomainToFakeIp(domain: string, now0: nat, now1: nat, now2: nat) returns (ip: Ip)
      requires Valid() && clock <= now0 <= now1 <= now2
      modifies this, ipTable.Values
      ensures Valid() && clock == now2
      ensures StripDot(domain) in dnTable && dnTable[StripDot(domain)].ip == ip
      ensures |old(availableIps)| >= LOW_WATER ==>
                && (forall n :: n in old(dnTable) ==> n in dnTable && dnTable[n] == old(dnTable)[n])
                && dnTable.Keys == old(dnTable.Keys) + {StripDot(domain)}
                && |availableIps| == |old(availableIps)| - if StripDot(domain) in old(dnTable) then 0 else 1
      ensures forall q :: q in ipTable.Values ==> fresh(q) || q in old(ipTable.Values)
    {
      var r;
      ghost var left, cut, scanned;
      r, left, cut, scanned := QueryByDomainName(domain, now0, now1, now2);
      ip := r.ip;
    }

    /** `fake_ip_to_domain`. */
    method FakeIpToDomain(ip: Ip, now: nat) returns (name: Option<string>)
      requires Valid() && clock <= now
      modifies this`clock, ipTable.Values
      ensures Valid() && clock == now
      ensures name == None <==> forall n :: n in dnTable ==> dnTable[n].ip != ip
      ensures forall n :: n in dnTable && dnTable[n].ip == ip ==> name == Some(StripDot(n))
      ensures forall n :: n in dnTable && dnTable[n].ip == ip && !EndsInDot(n) ==> name == Some(n)
    {
      var r := QueryByIp(ip, now);
      if r == null {
        return None;
      }
      assert dnTable[r.domainName] == r;
      StripDotMeaning(r.domainName);
      return Some(StripDot(r.domainName));
    }

    /** One operation, which flushes exactly as foretold. */
    method RunOp(op: Op) returns (flushed: bool)
      requires Valid() && Monotone(clock, [op])
      modifies this, ipTable.Values
      ensures Valid() && clock == op.at
      ensures flushed <==> op.Flush? || (op.ByName? && |old(availableIps)| < LOW_WATER)
      ensures !flushed ==>
                && (forall n :: n in old(dnTable) ==> n in dnTable && dnTable[n] == old(dnTable)[n])
                && dnTable.Keys == (if op.ByName? then old(dnTable.Keys) + {StripDot(op.domain)} else old(dnTable.Keys))
                && |availableIps| == |old(availableIps)| - Taken(op, old(dnTable.Keys))
      ensures forall q :: q in ipTable.Values ==> fresh(q) || q in old(ipTable.Values)
    {
      assert [op][0] == op;
      flushed := false;
      match op
      case ByName(domain, early, middle, at) =>
        flushed := |availableIps| < LOW_WATER;
        var _ := DomainToFakeIp(domain, early, middle, at);
      case ByIp(addr, at) =>
        var _ := QueryByIp(addr, at);
      case Flush(at) =>
        flushed := true;
        FlushAll(at);
    }

    /** Any run of queries and flushes keeps the table valid.  Whether it flushes can be told
        beforehand, and if it does not, every name keeps its record and so its address. */
    method RunOps(ops: seq<Op>) returns (flushed: bool)
      requires Valid() && Monotone(clock, ops)
      modifies this, ipTable.Values
      ensures Valid()
      ensures clock == if ops == [] then old(clock) else ops[|ops| - 1].at
      ensures flushed <==> WillFlush(ops, |old(availableIps)|, old(dnTable.Keys))
      ensures !flushed ==> forall n :: n in old(dnTable) ==> n in dnTable && dnTable[n] == old(dnTable)[n]
      ensures !flushed ==> dnTable.Keys == KnownAfter(ops, old(dnTable.Keys))
      ensures forall q :: q in ipTable.Values ==> fresh(q) || q in old(ipTable.Values)
      decreases |ops|
    {
      if ops == [] {
        return false;
      }
      var now := RunOp(ops[0]);
      ghost var free, known := |availableIps|, dnTable.Keys;
      var later := RunOps(ops[1..]);
      flushed := now || later;
      if !now {
        OneOp(ops, |old(availableIps)|, old(dnTable.Keys), free, known);
      }
    }

    /** Operations without a flush leave the address of a name where it is. */
    method LookUpLater(name: string, ip: Ip, ops: seq<Op>, later: nat) returns (back: Option<string>)
      requires Valid() && name in dnTable && dnTable[name].ip == ip && Monotone(clock, ops)
      requires clock <= later && (ops != [] ==> ops[|ops| - 1].at <= later)
      modifies this, ipTable.Values
      ensures Valid()
      ensures !WillFlush(ops, |old(availableIps)|, old(dnTable.Keys)) ==> back == Some(StripDot(name))
    {
      var flushed := RunOps(ops);
      back := FakeIpToDomain(ip, later);
    }

    /** A query, other operations, and the way back. */
    method QueryAndLookUp(query: Op, ops: seq<Op>, later: nat) returns (back: Option<string>)
      requires Valid() && query.ByName? && clock <= query.early <= query.middle <= query.at && Monotone(query.at, ops)
      requires query.at <= later && (ops != [] ==> ops[|ops| - 1].at <= later)
      modifies this, ipTable.Values
      ensures Valid()
      ensures |old(availableIps)| >= LOW_WATER
              && !WillFlush(ops, |old(availableIps)| - Taken(query, old(dnTable.Keys)), old(dnTable.Keys) + {StripDot(query.domain)}) ==>
                back == Some(StripDot(StripDot(query.domain)))
    {
      var ip := DomainToFakeIp(query.domain, query.early, query.middle, query.at);
      back := LookUpLater(StripDot(query.domain), ip, ops, later);
    }

    /** `fake_ip_to_domain` undoes `domain_to_fake_ip`, up to the dots each of the two drops,
        whatever other operations come in between, as long as they do not flush. */
    method RoundTrip(query: Op, ops: seq<Op>, later: nat) returns (back: Option<string>)
      requires Valid() && query.ByName? && clock <= query.early <= query.middle <= query.at && Monotone(query.at, ops)
      requires query.at <= later && (ops != [] ==> ops[|ops| - 1].at <= later)
      modifies this, ipTable.Values
      ensures Valid()
      ensures |old(availableIps)| >= LOW_WATER
              && !WillFlush(ops, |old(availableIps)| - Taken(query, old(dnTable.Keys)), old(dnTable.Keys) + {StripDot(query.domain)}) ==>
                back == Some(StripDot(StripDot(query.domain)))
      // one free address for each operation, above the low-water mark, is enough
      ensures |old(availableIps)| > LOW_WATER + |ops| && OnlyQueries(ops) ==> back == Some(StripDot(StripDot(query.domain)))
      // for a name without a trailing dot, and for one with a single dot more
      ensures |old(availableIps)| > LOW_WATER + |ops| && OnlyQueries(ops) ==>
                && (!EndsInDot(query.domain) ==> back == Some(query.domain))
                && (forall n :: query.domain == n + "." && !EndsInDot(n) ==> back == Some(n))
    {
      if |availableIps| > LOW_WATER + |ops| && OnlyQueries(ops) {
        RoomEnough(ops, |availableIps| - Taken(query, dnTable.Keys), dnTable.Keys + {StripDot(query.domain)});
      }
      StripDotMeaning(query.domain);
      forall n | query.domain == n + "." && !EndsInDot(n) ensures StripDot(StripDot(query.domain)) == n {
        StripDotMeaning(n);
      }
      back := QueryAndLookUp(query, ops, later);
    }

    /** Two queries with addresses enough: they get the same address exactly if the names are the
        same but for one trailing dot. */
    method TwoQueries(d: string, e: string, now: nat, later: nat) returns (p: Ip, q: Ip)
      requires Valid() && clock <= now <= later && |availableIps| > LOW_WATER
      modifies this, ipTable.Values
      ensures Valid() && (p == q <==> SameName(d, e))
    {
      SameNameIff(d, e);
      p := DomainToFakeIp(d, now, now, now);
      ghost var first := dnTable[StripDot(d)];
      q := DomainToFakeIp(e, later, later, later);
      assert dnTable[StripDot(d)] == first;
      assert ipTable[first.ip] == first && ipTable[dnTable[StripDot(e)].ip] == dnTable[StripDot(e)];
    }
  }

  /** The first operation did not flush, and left `free` addresses and the names `after`. */
  lemma OneOp(ops: seq<Op>, free0: int, known: set<string>, free: int, after: set<string>)
    requires ops != [] && !ops[0].Flush? && (ops[0].ByName? ==> free0 >= LOW_WATER)
    requires after == if ops[0].ByName? then known + {StripDot(ops[0].domain)} else known
    requires free == free0 - Taken(ops[0], known)
    ensures WillFlush(ops, free0, known) <==> WillFlush(ops[1..], free, after)
    ensures KnownAfter(ops, known) == KnownAfter(ops[1..], after)
  {
  }

  /** The round trip returns the very name that was registered exactly when the query did not end
      in two dots. */
  lemma RoundTripExact(d: string)
    ensures StripDot(StripDot(d)) == StripDot(d) <==> !(|d| >= 2 && d[|d| - 2..] == "..")
  {
    if |d| >= 2 {
      assert d[|d| - 2..] == [d[|d| - 2], d[|d| - 1]];
    }
  }

  /** Distinct names never share an address. */
  lemma NamesInjective(t: DnsTable, m: string, n: string)
    requires t.Valid()
    requires m in t.dnTable && n in t.dnTable && t.dnTable[m].ip == t.dnTable[n].ip
    ensures m == n
  {
    assert t.ipTable[t.dnTable[m].ip] == t.dnTable[m];
  }
}
