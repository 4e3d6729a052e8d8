/** Rule sets: the compilation of boltconn/src/dispatch/ruleset.rs and the host matcher of
    boltconn/src/common/host_matcher.rs, against the plain interpreter `RuleImpl::matches` of
    boltconn/src/dispatch/rule.rs.  Names are ASCII, so a byte is a character. */
module RuleSet {
  import opened Common

  // ---------------------------------------------------------------- addresses and connections

  datatype Ip = V4(bits: nat) | V6(bits: nat)

  datatype Net = Net(base: Ip, prefix: nat)

  function Width(ip: Ip): nat { if ip.V4? then 32 else 128 }

  function Pow2(n: nat): (p: nat)
    ensures p > 0
  {
    if n == 0 then 1 else 2 * Pow2(n - 1)
  }

  function HostSpan(net: Net): (p: nat)
    ensures p > 0
  {
    if net.prefix <= Width(net.base) then Pow2(Width(net.base) - net.prefix) else 1
  }

  /** `IpNet::contains`: same family, same leading bits. */
  predicate Contains(net: Net, ip: Ip) {
    net.base.V4? == ip.V4? && ip.bits / HostSpan(net) == net.base.bits / HostSpan(net)
  }

  /** `IpNetwork::new_truncate`: the host bits of the base become zero. */
  function Truncate(net: Net): Net {
    var bits := Truncated(net.base.bits, HostSpan(net));
    Net(if net.base.V4? then V4(bits) else V6(bits), net.prefix)
  }

  function Truncated(bits: nat, span: nat): (r: nat)
    requires span > 0
    ensures r / span == bits / span
  {
    ProductDivides(bits / span, span);
    bits / span * span
  }

  lemma ProductDivides(q: nat, h: nat)
    requires h > 0
    ensures q * h >= 0 && q * h / h == q
  {
    var p := q * h;
    var x, r := p / h, p % h;
    assert (q - x) * h == r by { assert p == x * h + r; }
    if q - x >= 1 { AtLeast(q - x, h); }
    if x - q >= 1 { AtLeast(x - q, h); }
  }

  lemma AtLeast(d: nat, h: nat)
    requires d >= 1
    ensures d * h >= h
  {
  }

  lemma TruncateKeepsContains(net: Net, ip: Ip)
    ensures Contains(Truncate(net), ip) <==> Contains(net, ip)
  {
    assert HostSpan(Truncate(net)) == HostSpan(net);
  }

  datatype SockAddr = SockAddr(ip: Ip, port: nat)

  datatype NetworkAddr = Raw(addr: SockAddr) | DomainName(domain: string, portNo: nat)

  datatype NetworkType = Tcp | Udp

  datatype Process = Process(name: string, path: string, cmdline: string)

  datatype InboundIdentity = InboundIdentity(user: Option<string>, port: Option<nat>)

  datatype InboundInfo = TunInbound | HttpInbound(id: InboundIdentity) | Socks5Inbound(id: InboundIdentity)

  datatype ConnInfo = ConnInfo(
    src: SockAddr,
    dst: NetworkAddr,
    localIp: Option<Ip>,
    inbound: InboundInfo,
    resolvedDst: Option<SockAddr>,
    connectionType: NetworkType,
    processInfo: Option<Process>)

  function Port(a: NetworkAddr): nat {
    match a
    case Raw(s) => s.port
    case DomainName(_, p) => p
  }

  function DstAddr(info: ConnInfo): Option<SockAddr> {
    if info.dst.Raw? then Some(info.dst.addr) else info.resolvedDst
  }

  // ---------------------------------------------------------------- the interpreter

  datatype PortRule = TcpPort(p: nat) | UdpPort(p: nat) | AllPort(p: nat) | AnyTcp | AnyUdp

  /** The rule kinds a rule set can name; compound rules and the ones without a table make the
      builder fail. */
  datatype Rule =
    | Inbound(inbound: InboundInfo)
    | ProcessName(name: string)
    | ProcessKeyword(kw: string)
    | ProcPathKeyword(kw: string)
    | ProcCmdRegex(accepts: set<string>)
    | Domain(d: string)
    | DomainSuffix(d: string)
    | DomainKeyword(kw: string)
    | LocalIpCidr(net: Net)
    | SrcIpCidr(net: Net)
    | IpCidr(net: Net)
    | SrcPort(port: PortRule)
    | DstPort(port: PortRule)
    | And(subs: seq<Rule>)
    | Or(subs: seq<Rule>)
    | Not(sub: Rule)
    | Always
    | Never

  ghost predicate Substring(kw: string, s: string) { exists i: nat :: OccursAt(kw, s, i) }

  predicate OccursAt(kw: string, s: string, i: nat) { i + |kw| <= |s| && s[i..i + |kw|] == kw }

  function IsSuffix(d: string, s: string): bool { |d| <= |s| && s[|s| - |d|..] == d }

  predicate SuffixMatches(d: string, host: string) {
    if |host| == |d| then host == d
    else |host| > |d| && IsSuffix(d, host) && host[|host| - 1 - |d|] == '.'
  }

  predicate PortMatches(rule: PortRule, kind: NetworkType, port: nat) {
    match rule
    case TcpPort(p) => kind == Tcp && port == p
    case UdpPort(p) => kind == Udp && port == p
    case AllPort(p) => port == p
    case AnyTcp => kind == Tcp
    case AnyUdp => kind == Udp
  }

  predicate IdentityContains(me: InboundIdentity, rhs: InboundIdentity) {
    (me.user.Some? ==> rhs.user == me.user) && (me.port.Some? ==> rhs.port == me.port)
  }

  predicate InboundContains(me: InboundInfo, rhs: InboundInfo) {
    match me
    case TunInbound => rhs.TunInbound?
    case HttpInbound(id) => rhs.HttpInbound? && IdentityContains(id, rhs.id)
    case Socks5Inbound(id) => rhs.Socks5Inbound? && IdentityContains(id, rhs.id)
  }

  /** `RuleImpl::matches` */
  ghost predicate RuleMatches(r: Rule, info: ConnInfo) {
    match r
    case Inbound(i) => InboundContains(i, info.inbound)
    case ProcessName(n) => info.processInfo.Some? && info.processInfo.value.name == n
    case ProcessKeyword(kw) => info.processInfo.Some? && Substring(kw, info.processInfo.value.name)
    case ProcPathKeyword(kw) => info.processInfo.Some? && Substring(kw, info.processInfo.value.path)
    case ProcCmdRegex(acc) => info.processInfo.Some? && info.processInfo.value.cmdline in acc
    case Domain(d) => info.dst.DomainName? && info.dst.domain == d
    case DomainSuffix(d) => info.dst.DomainName? && SuffixMatches(d, info.dst.domain)
    case DomainKeyword(kw) => info.dst.DomainName? && Substring(kw, info.dst.domain)
    case LocalIpCidr(net) => info.localIp.Some? && Contains(net, info.localIp.value)
    case SrcIpCidr(net) => Contains(net, info.src.ip)
    case IpCidr(net) => DstAddr(info).Some? && Contains(net, DstAddr(info).value.ip)
    case SrcPort(p) => PortMatches(p, info.connectionType, info.src.port)
    case DstPort(p) => PortMatches(p, info.connectionType, Port(info.dst))
    case And(subs) => forall s :: s in subs ==> RuleMatches(s, info)
    case Or(subs) => exists s :: s in subs && RuleMatches(s, info)
    case Not(s) => !RuleMatches(s, info)
    case Always => true
    case Never => false
  }

  // ---------------------------------------------------------------- the host matcher

  datatype HostType = Exact | Suffix

  /** A registered host: its reversed name and how it is to match. */
  datatype Entry = Entry(key: string, kind: HostType)

  type Trie = map<string, HostType>

  function Reverse(s: string): (r: string)
    ensures |r| == |s|
    ensures forall i :: 0 <= i < |s| ==> r[i] == s[|s| - 1 - i]
  {
    seq(|s|, i requires 0 <= i < |s| => s[|s| - 1 - i])
  }

  lemma ReverseTwice(s: string)
    ensures Reverse(Reverse(s)) == s
  {
  }

  /** `Trie::from_iter`: a later entry replaces an earlier one of the same key. */
  function BuildTrie(entries: seq<Entry>): (t: Trie)
  {
    if entries == [] then map[]
    else BuildTrie(entries[..|entries| - 1])[entries[|entries| - 1].key := entries[|entries| - 1].kind]
  }

  /** `get_ancestor`: the length of the longest registered prefix of `rev[..n]`. */
  function Ancestor(t: Trie, rev: string, n: nat): (r: Option<nat>)
    requires n <= |rev|
    ensures r.Some? ==> r.value <= n && rev[..r.value] in t
    ensures r.Some? ==> forall k :: r.value < k <= n ==> rev[..k] !in t
    ensures r.None? ==> forall k :: 0 <= k <= n ==> rev[..k] !in t
  {
    if rev[..n] in t then Some(n)
    else if n == 0 then None
    else Ancestor(t, rev, n - 1)
  }

  /** `HostMatcher::matches` on the reversed host. */
  predicate TrieMatches(t: Trie, rev: string) {
    var a := Ancestor(t, rev, |rev|);
    a.Some? &&
      if t[rev[..a.value]] == Exact then a.value == |rev|
      else a.value == |rev| || rev[a.value] == '.'
  }

  predicate HostMatches(t: Trie, host: string) { TrieMatches(t, Reverse(host)) }

  /** What one entry means by itself. */
  predicate EntryMatches(e: Entry, rev: string) {
    || rev == e.key
    || (e.kind == Suffix && |e.key| < |rev| && rev[..|e.key|] == e.key && rev[|e.key|] == '.')
  }

  ghost predicate SomeEntryMatches(entries: seq<Entry>, rev: string) {
    exists i :: 0 <= i < |entries| && EntryMatches(entries[i], rev)
  }

  /** A DOMAIN or DOMAIN-SUFFIX rule and the entry made from it mean the same. */
  lemma EntryIsRule(d: string, host: string)
    ensures EntryMatches(Entry(Reverse(d), Exact), Reverse(host)) <==> host == d
    ensures EntryMatches(Entry(Reverse(d), Suffix), Reverse(host)) <==> SuffixMatches(d, host)
  {
    ReverseTwice(d);
    ReverseTwice(host);
    if |host| > |d| {
      if IsSuffix(d, host) {
        assert Reverse(host)[..|d|] == Reverse(d);
      }
      if Reverse(host)[..|d|] == Reverse(d) {
        forall i | 0 <= i < |d| ensures host[|host| - |d| + i] == d[i] {
          assert Reverse(host)[..|d|][|d| - 1 - i] == Reverse(d)[|d| - 1 - i];
        }
        assert host[|host| - |d|..] == d;
      }
    }
  }

  lemma {:induction false} TrieHasEntries(entries: seq<Entry>)
    ensures forall i :: 0 <= i < |entries| ==> entries[i].key in BuildTrie(entries)
    ensures forall k :: k in BuildTrie(entries) ==>
              exists i :: 0 <= i < |entries| && entries[i] == Entry(k, BuildTrie(entries)[k])
  {
    if entries != [] {
      var init, last := entries[..|entries| - 1], entries[|entries| - 1];
      TrieHasEntries(init);
      forall k | k in BuildTrie(entries)
        ensures exists i :: 0 <= i < |entries| && entries[i] == Entry(k, BuildTrie(entries)[k])
      {
        if k == last.key {
          assert entries[|entries| - 1] == Entry(k, BuildTrie(entries)[k]);
        } else {
          assert k in BuildTrie(init);
          var i :| 0 <= i < |init| && init[i] == Entry(k, BuildTrie(init)[k]);
          assert entries[i] == Entry(k, BuildTrie(entries)[k]);
        }
      }
      forall i | 0 <= i < |entries| ensures entries[i].key in BuildTrie(entries) {
        if i < |init| { assert init[i] == entries[i]; }
      }
    }
  }

  /** Of several entries with one key the last decides. */
  lemma {:induction false} LastEntryDecides(entries: seq<Entry>, i: nat)
    requires i < |entries| && forall j :: i < j < |entries| ==> entries[j].key != entries[i].key
    ensures entries[i].key in BuildTrie(entries) && BuildTrie(entries)[entries[i].key] == entries[i].kind
  {
    if i < |entries| - 1 {
      LastEntryDecides(entries[..|entries| - 1], i);
    }
  }

  /** No false positives: a matched host is matched by some registered entry. */
  lemma TrieSound(entries: seq<Entry>, rev: string)
    requires TrieMatches(BuildTrie(entries), rev)
    ensures SomeEntryMatches(entries, rev)
  {
    TrieHasEntries(entries);
    var t := BuildTrie(entries);
    var n := Ancestor(t, rev, |rev|).value;
    var i :| 0 <= i < |entries| && entries[i] == Entry(rev[..n], t[rev[..n]]);
    assert rev[..|rev|] == rev;
    assert EntryMatches(entries[i], rev);
  }

  /** A suffix entry that the trie does not honour: its key was later registered as exact, or a
      longer key below it hides it. */
  ghost predicate Shadowed(entries: seq<Entry>, i: nat)
    requires i < |entries|
  {
    entries[i].kind == Suffix
    && (BuildTrieAt(entries, entries[i].key) == Some(Exact)
        || exists j :: 0 <= j < |entries| && Hides(entries[j].key, entries[i].key))
  }

  predicate Hides(longer: string, key: string) {
    |key| < |longer| && longer[..|key|] == key && longer[|key|] == '.'
  }

  function BuildTrieAt(entries: seq<Entry>, k: string): Option<HostType> {
    var t := BuildTrie(entries);
    if k in t then Some(t[k]) else None
  }

  ghost predicate Unshadowed(entries: seq<Entry>) {
    forall i :: 0 <= i < |entries| ==> !Shadowed(entries, i)
  }

  ghost predicate TrieExact(entries: seq<Entry>) {
    forall rev: string :: TrieMatches(BuildTrie(entries), rev) <==> SomeEntryMatches(entries, rev)
  }

  lemma UnshadowedComplete(entries: seq<Entry>, rev: string)
    requires Unshadowed(entries) && SomeEntryMatches(entries, rev)
    ensures TrieMatches(BuildTrie(entries), rev)
  {
    TrieHasEntries(entries);
    var i :| 0 <= i < |entries| && EntryMatches(entries[i], rev);
    var key := entries[i].key;
    assert rev[..|rev|] == rev;
    assert rev[..|key|] == key;
    if rev != key {
      assert !Shadowed(entries, i);
      forall n | |key| < n <= |rev| ensures rev[..n] !in BuildTrie(entries) {
        LongerKeyHides(entries, rev, key, n);
      }
    }
  }

  /** A registered key that extends the key of a matching suffix hides it. */
  lemma LongerKeyHides(entries: seq<Entry>, rev: string, key: string, n: nat)
    requires |key| < n <= |rev| && rev[..|key|] == key && rev[|key|] == '.'
    ensures rev[..n] in BuildTrie(entries) ==> exists j :: 0 <= j < |entries| && Hides(entries[j].key, key)
  {
    TrieHasEntries(entries);
    assert rev[..n][..|key|] == rev[..|key|];
    assert Hides(rev[..n], key);
  }

  /** A longest key among those that extend `key` by a dot. */
  lemma {:induction false} LongestHider(entries: seq<Entry>, key: string) returns (j: nat)
    requires exists i :: 0 <= i < |entries| && Hides(entries[i].key, key)
    ensures j < |entries| && Hides(entries[j].key, key)
    ensures forall i :: 0 <= i < |entries| && Hides(entries[i].key, key) ==> |entries[i].key| <= |entries[j].key|
  {
    j :| 0 <= j < |entries| && Hides(entries[j].key, key);
    for n := 0 to |entries|
      invariant j < |entries| && Hides(entries[j].key, key)
      invariant forall i :: 0 <= i < n && Hides(entries[i].key, key) ==> |entries[i].key| <= |entries[j].key|
    {
      if Hides(entries[n].key, key) && |entries[n].key| > |entries[j].key| {
        j := n;
      }
    }
  }

  /** A shadowed suffix really loses a host: below the longest hiding key, or just below the key
      itself. */
  lemma ShadowedLosesHost(entries: seq<Entry>, i: nat) returns (rev: string)
    requires i < |entries| && Shadowed(entries, i)
    ensures EntryMatches(entries[i], rev) && !TrieMatches(BuildTrie(entries), rev)
  {
    TrieHasEntries(entries);
    var t := BuildTrie(entries);
    var key := entries[i].key;
    if exists j :: 0 <= j < |entries| && Hides(entries[j].key, key) {
      var j := LongestHider(entries, key);
      var hider := entries[j].key;
      rev := hider + "x";
      assert rev[..|hider|] == hider && rev[|hider|] == 'x';
      assert rev[..|key|] == hider[..|key|];
      assert rev[..|rev|] == rev;
      forall k | k in t && Hides(k, key) ensures |k| <= |hider| {
        var m :| 0 <= m < |entries| && entries[m] == Entry(k, t[k]);
      }
      assert Hides(rev, key);
      assert Ancestor(t, rev, |rev|).value == |hider|;
    } else {
      rev := key + ".";
      assert rev[..|key|] == key && rev[|key|] == '.';
      assert rev[..|rev|] == rev;
      assert Hides(rev, key) && rev !in t;
      assert Ancestor(t, rev, |rev|).value == |key|;
    }
  }

  /** The trie agrees with its entries on every host exactly when no suffix entry is shadowed. */
  lemma TrieExactIff(entries: seq<Entry>)
    ensures TrieExact(entries) <==> Unshadowed(entries)
  {
    if Unshadowed(entries) {
      forall rev: string
        ensures TrieMatches(BuildTrie(entries), rev) <==> SomeEntryMatches(entries, rev)
      {
        if TrieMatches(BuildTrie(entries), rev) { TrieSound(entries, rev); }
        if SomeEntryMatches(entries, rev) { UnshadowedComplete(entries, rev); }
      }
    } else {
      var i :| 0 <= i < |entries| && Shadowed(entries, i);
      var rev := ShadowedLosesHost(entries, i);
      assert SomeEntryMatches(entries, rev);
    }
  }

  /** Keys of which none extends another, each of one type, are never shadowed. */
  lemma PrefixFreeIsUnshadowed(entries: seq<Entry>)
    requires forall i, j :: 0 <= i < |entries| && 0 <= j < |entries| && entries[i].key <= entries[j].key ==> entries[i] == entries[j]
    ensures Unshadowed(entries)
  {
    TrieHasEntries(entries);
    forall i | 0 <= i < |entries| ensures !Shadowed(entries, i) {
      var e := entries[i];
      if BuildTrieAt(entries, e.key) == Some(Exact) {
        var j :| 0 <= j < |entries| && entries[j] == Entry(e.key, Exact);
        assert entries[i].key <= entries[j].key;
      }
      forall j | 0 <= j < |entries| ensures !Hides(entries[j].key, e.key) {
      }
    }
  }

  /** Two nested suffixes already lose a host: DOMAIN-SUFFIX a.b hides DOMAIN-SUFFIX b for xa.b. */
  lemma NestedSuffixesLose()
    ensures var entries := [Entry(Reverse("b"), Suffix), Entry(Reverse("a.b"), Suffix)];
            SuffixMatches("b", "xa.b") && !HostMatches(BuildTrie(entries), "xa.b")
  {
    var entries := [Entry(Reverse("b"), Suffix), Entry(Reverse("a.b"), Suffix)];
    assert Reverse("b") == "b" && Reverse("a.b") == "b.a" && Reverse("xa.b") == "b.ax";
    var rev := "b.ax";
    var t := BuildTrie(entries);
    assert entries[..1] == [entries[0]] && [entries[0]][..0] == [];
    assert BuildTrie([entries[0]]) == map["b" := Suffix];
    assert t == map["b" := Suffix, "b.a" := Suffix];
    assert rev[..4] == "b.ax" && rev[..3] == "b.a";
    assert Ancestor(t, rev, 4) == Some(3);
  }

  // ---------------------------------------------------------------- port filters

  datatype PortFilter = AnyPort | Ports(ports: set<nat>) {
    function Insert(p: nat): PortFilter { if AnyPort? then this else Ports(ports + {p}) }

    predicate Has(p: nat) { AnyPort? || p in ports }

    function Extend(rhs: PortFilter): PortFilter {
      if rhs.AnyPort? then AnyPort else if AnyPort? then this else Ports(ports + rhs.ports)
    }
  }

  // ---------------------------------------------------------------- builder and rule set

  datatype Builder = Builder(
    domain: seq<Entry>,
    domainKeyword: seq<string>,
    ipCidr: set<Net>,
    srcIpCidr: set<Net>,
    localIpCidr: set<Net>,
    processName: set<string>,
    processKeyword: seq<string>,
    procPathKeyword: seq<string>,
    srcTcp: PortFilter,
    srcUdp: PortFilter,
    dstTcp: PortFilter,
    dstUdp: PortFilter,
    inbounds: seq<InboundInfo>)

  const EMPTY: Builder :=
    Builder([], [], {}, {}, {}, {}, [], [], Ports({}), Ports({}), Ports({}), Ports({}), [])

  datatype Compiled = Compiled(domain: Trie, b: Builder)

  /** The arm of `RuleSetBuilder::new` for one rule; `None` is its `return None`. */
  function AddRule(b: Builder, r: Rule): Option<Builder> {
    match r
    case Inbound(i) => Some(b.(inbounds := b.inbounds + [i]))
    case ProcessName(n) => Some(b.(processName := b.processName + {n}))
    case ProcessKeyword(kw) => Some(b.(processKeyword := b.processKeyword + [kw]))
    case ProcPathKeyword(kw) => Some(b.(procPathKeyword := b.procPathKeyword + [kw]))
    case Domain(d) => Some(b.(domain := b.domain + [Entry(Reverse(d), Exact)]))
    case DomainSuffix(d) => Some(b.(domain := b.domain + [Entry(Reverse(d), Suffix)]))
    case DomainKeyword(kw) => Some(b.(domainKeyword := b.domainKeyword + [kw]))
    case LocalIpCidr(net) => Some(b.(localIpCidr := b.localIpCidr + {Truncate(net)}))
    case SrcIpCidr(net) => Some(b.(srcIpCidr := b.srcIpCidr + {Truncate(net)}))
    case IpCidr(net) => Some(b.(ipCidr := b.ipCidr + {Truncate(net)}))
    case SrcPort(TcpPort(p)) => Some(b.(srcTcp := b.srcTcp.Insert(p)))
    case SrcPort(UdpPort(p)) => Some(b.(srcUdp := b.srcUdp.Insert(p)))
    case SrcPort(AllPort(p)) => Some(b.(srcTcp := b.srcTcp.Insert(p), srcUdp := b.srcUdp.Insert(p)))
    case SrcPort(AnyTcp) => Some(b.(srcTcp := AnyPort))
    case SrcPort(AnyUdp) => Some(b.(srcUdp := AnyPort))
    case DstPort(TcpPort(p)) => Some(b.(dstTcp := b.dstTcp.Insert(p)))
    case DstPort(UdpPort(p)) => Some(b.(dstUdp := b.dstUdp.Insert(p)))
    case DstPort(AllPort(p)) => Some(b.(dstTcp := b.dstTcp.Insert(p), dstUdp := b.dstUdp.Insert(p)))
    case DstPort(AnyTcp) => Some(b.(dstTcp := AnyPort))
    case DstPort(AnyUdp) => Some(b.(dstUdp := AnyPort))
    case ProcCmdRegex(_) => None
    case And(_) => None
    case Or(_) => None
    case Not(_) => None
    case Always => None
    case Never => None
  }

  predicate Tabled(r: Rule) {
    !(r.ProcCmdRegex? || r.And? || r.Or? || r.Not? || r.Always? || r.Never?)
  }

  /** The kinds `RuleSet::matches` consults. */
  predicate Consulted(r: Rule) {
    Tabled(r) && !r.Inbound? && !r.SrcIpCidr? && !r.LocalIpCidr?
  }

  ghost predicate SomeKeyword(kws: seq<string>, s: string) { exists i :: 0 <= i < |kws| && Substring(kws[i], s) }

  ghost predicate SomeNet(nets: set<Net>, ip: Ip) { exists n :: n in nets && Contains(n, ip) }

  function Build(b: Builder): Compiled { Compiled(BuildTrie(b.domain), b) }

  /** `RuleSet::matches` */
  ghost predicate RuleSetMatches(c: Compiled, info: ConnInfo) {
    || (info.dst.Raw? && SomeNet(c.b.ipCidr, info.dst.addr.ip))
    || (info.dst.DomainName?
        && (HostMatches(c.domain, info.dst.domain)
            || SomeKeyword(c.b.domainKeyword, info.dst.domain)
            || (info.resolvedDst.Some? && SomeNet(c.b.ipCidr, info.resolvedDst.value.ip))))
    || (info.connectionType == Tcp && (c.b.dstTcp.Has(Port(info.dst)) || c.b.srcTcp.Has(info.src.port)))
    || (info.connectionType == Udp && (c.b.dstUdp.Has(Port(info.dst)) || c.b.srcUdp.Has(info.src.port)))
    || (info.processInfo.Some?
        && (info.processInfo.value.name in c.b.processName
            || SomeKeyword(c.b.processKeyword, info.processInfo.value.name)
            || SomeKeyword(c.b.procPathKeyword, info.processInfo.value.path)))
  }

  /** The same with the registered hosts taken one by one instead of through the trie. */
  ghost predicate TablesMatch(b: Builder, info: ConnInfo) {
    || HostPart(b, info)
    || RestPart(b, info)
  }

  ghost predicate HostPart(b: Builder, info: ConnInfo) {
    info.dst.DomainName? && SomeEntryMatches(b.domain, Reverse(info.dst.domain))
  }

  ghost predicate RestPart(b: Builder, info: ConnInfo) {
    || (info.dst.DomainName? && SomeKeyword(b.domainKeyword, info.dst.domain))
    || (DstAddr(info).Some? && SomeNet(b.ipCidr, DstAddr(info).value.ip))
    || PortPart(b, info)
    || ProcessPart(b, info)
  }

  ghost predicate PortPart(b: Builder, info: ConnInfo) {
    if info.connectionType == Tcp then b.dstTcp.Has(Port(info.dst)) || b.srcTcp.Has(info.src.port)
    else b.dstUdp.Has(Port(info.dst)) || b.srcUdp.Has(info.src.port)
  }

  ghost predicate ProcessPart(b: Builder, info: ConnInfo) {
    info.processInfo.Some?
    && (info.processInfo.value.name in b.processName
        || SomeKeyword(b.processKeyword, info.processInfo.value.name)
        || SomeKeyword(b.procPathKeyword, info.processInfo.value.path))
  }

  lemma RuleSetIsTrieAndRest(b: Builder, info: ConnInfo)
    ensures RuleSetMatches(Build(b), info) <==>
              (info.dst.DomainName? && HostMatches(BuildTrie(b.domain), info.dst.domain)) || RestPart(b, info)
  {
  }

  lemma SomeKeywordSnoc(kws: seq<string>, kw: string, s: string)
    ensures SomeKeyword(kws + [kw], s) <==> SomeKeyword(kws, s) || Substring(kw, s)
  {
    if SomeKeyword(kws, s) {
      var i :| 0 <= i < |kws| && Substring(kws[i], s);
      assert (kws + [kw])[i] == kws[i];
    }
    assert (kws + [kw])[|kws|] == kw;
  }

  lemma SomeEntrySnoc(es: seq<Entry>, e: Entry, rev: string)
    ensures SomeEntryMatches(es + [e], rev) <==> SomeEntryMatches(es, rev) || EntryMatches(e, rev)
  {
    if SomeEntryMatches(es, rev) {
      var i :| 0 <= i < |es| && EntryMatches(es[i], rev);
      assert (es + [e])[i] == es[i];
    }
    assert (es + [e])[|es|] == e;
  }

  lemma SomeNetInsert(nets: set<Net>, net: Net, ip: Ip)
    ensures SomeNet(nets + {Truncate(net)}, ip) <==> SomeNet(nets, ip) || Contains(net, ip)
  {
    TruncateKeepsContains(net, ip);
    assert Truncate(net) in nets + {Truncate(net)};
  }

  lemma AddPortMeaning(b: Builder, r: Rule, info: ConnInfo)
    requires r.SrcPort? || r.DstPort?
    ensures AddRule(b, r).Some?
    ensures TablesMatch(AddRule(b, r).value, info) <==> TablesMatch(b, info) || RuleMatches(r, info)
  {
    var b' := AddRule(b, r).value;
    assert HostPart(b', info) == HostPart(b, info) && ProcessPart(b', info) == ProcessPart(b, info);
    assert PortPart(b', info) <==> PortPart(b, info) || RuleMatches(r, info);
  }

  /** One more rule widens the tables by exactly what the rule matches, if its kind is consulted,
      and by nothing otherwise. */
  lemma AddRuleMeaning(b: Builder, r: Rule, info: ConnInfo)
    requires Tabled(r)
    ensures AddRule(b, r).Some?
    ensures TablesMatch(AddRule(b, r).value, info) <==> TablesMatch(b, info) || (Consulted(r) && RuleMatches(r, info))
  {
    match r
    case ProcessKeyword(kw) =>
      if info.processInfo.Some? { SomeKeywordSnoc(b.processKeyword, kw, info.processInfo.value.name); }
    case ProcPathKeyword(kw) =>
      if info.processInfo.Some? { SomeKeywordSnoc(b.procPathKeyword, kw, info.processInfo.value.path); }
    case DomainKeyword(kw) =>
      if info.dst.DomainName? { SomeKeywordSnoc(b.domainKeyword, kw, info.dst.domain); }
    case Domain(d) =>
      if info.dst.DomainName? {
        EntryIsRule(d, info.dst.domain);
        SomeEntrySnoc(b.domain, Entry(Reverse(d), Exact), Reverse(info.dst.domain));
      }
    case DomainSuffix(d) =>
      if info.dst.DomainName? {
        EntryIsRule(d, info.dst.domain);
        SomeEntrySnoc(b.domain, Entry(Reverse(d), Suffix), Reverse(info.dst.domain));
      }
    case SrcPort(_) => AddPortMeaning(b, r, info);
    case DstPort(_) => AddPortMeaning(b, r, info);
    case IpCidr(net) =>
      if DstAddr(info).Some? { SomeNetInsert(b.ipCidr, net, DstAddr(info).value.ip); }
    case _ =>
  }

  /** `RuleSetBuilder::new` on a classical payload, as a function. */
  function Compile(payload: seq<Rule>): Option<Builder> {
    if payload == [] then Some(EMPTY)
    else
      var b := Compile(payload[..|payload| - 1]);
      if b.None? then None else AddRule(b.value, payload[|payload| - 1])
  }

  /** `RuleSetBuilder::new` on a classical payload: fails exactly on a rule without a table. */
  method NewBuilder(payload: seq<Rule>) returns (r: Option<Builder>)
    ensures r == Compile(payload)
    ensures r.Some? <==> forall i :: 0 <= i < |payload| ==> Tabled(payload[i])
  {
    var retval := EMPTY;
    for i := 0 to |payload|
      invariant Compile(payload[..i]) == Some(retval)
      invariant forall j :: 0 <= j < i ==> Tabled(payload[j])
    {
      assert payload[..i + 1][..i] == payload[..i];
      var next := AddRule(retval, payload[i]);
      if next.None? {
        CompileFails(payload, i);
        return None;
      }
      retval := next.value;
    }
    assert payload[..|payload|] == payload;
    return Some(retval);
  }

  lemma {:induction false} CompileFails(payload: seq<Rule>, i: nat)
    requires i < |payload| && !Tabled(payload[i])
    ensures Compile(payload) == None
  {
    if i < |payload| - 1 {
      CompileFails(payload[..|payload| - 1], i);
    }
  }

  ghost predicate SomeRule(payload: seq<Rule>, info: ConnInfo) {
    exists i :: 0 <= i < |payload| && Consulted(payload[i]) && RuleMatches(payload[i], info)
  }

  lemma {:induction false} CompileMeaning(payload: seq<Rule>, info: ConnInfo)
    requires Compile(payload).Some?
    ensures TablesMatch(Compile(payload).value, info) <==> SomeRule(payload, info)
  {
    if payload != [] {
      var init, last := payload[..|payload| - 1], payload[|payload| - 1];
      CompileMeaning(init, info);
      AddRuleMeaning(Compile(init).value, last, info);
      if SomeRule(init, info) {
        var i :| 0 <= i < |init| && Consulted(init[i]) && RuleMatches(init[i], info);
        assert payload[i] == init[i];
      }
    }
  }

  /** Compilation is sound for every payload: what the rule set matches, some rule matches. */
  lemma CompileSound(payload: seq<Rule>, info: ConnInfo)
    requires Compile(payload).Some? && RuleSetMatches(Build(Compile(payload).value), info)
    ensures SomeRule(payload, info)
  {
    var b := Compile(payload).value;
    RuleSetIsTrieAndRest(b, info);
    if info.dst.DomainName? && HostMatches(BuildTrie(b.domain), info.dst.domain) {
      TrieSound(b.domain, Reverse(info.dst.domain));
    }
    CompileMeaning(payload, info);
  }

  /** Compilation is exact when no suffix is shadowed: the rule set matches a connection exactly
      when some rule of a consulted kind does.  For a payload of consulted kinds only that is the
      interpreter's answer. */
  lemma CompileExact(payload: seq<Rule>, info: ConnInfo)
    requires Compile(payload).Some? && Unshadowed(Compile(payload).value.domain)
    ensures RuleSetMatches(Build(Compile(payload).value), info) <==> SomeRule(payload, info)
  {
    var b := Compile(payload).value;
    RuleSetIsTrieAndRest(b, info);
    TrieExactIff(b.domain);
    CompileMeaning(payload, info);
  }

  predicate HostRules(payload: seq<Rule>) {
    forall i :: 0 <= i < |payload| ==> payload[i].Domain? || payload[i].DomainSuffix?
  }

  /** A shadowed suffix costs a connection: some entry matches it and the rule set does not. */
  lemma ShadowedLosesInfo(b: Builder, i: nat, sample: ConnInfo) returns (info: ConnInfo)
    requires b == EMPTY.(domain := b.domain) && i < |b.domain| && Shadowed(b.domain, i)
    ensures TablesMatch(b, info) && !RuleSetMatches(Build(b), info)
  {
    var rev := ShadowedLosesHost(b.domain, i);
    ReverseTwice(rev);
    info := sample.(dst := DomainName(Reverse(rev), 0), resolvedDst := None, processInfo := None);
    assert HostPart(b, info);
    NoRest(b, info);
    RuleSetIsTrieAndRest(b, info);
  }

  /** So some rule matches a connection that the rule set does not. */
  lemma ShadowedLosesConnection(payload: seq<Rule>, i: nat, sample: ConnInfo) returns (info: ConnInfo)
    requires Compile(payload).Some? && HostRules(payload)
    requires i < |Compile(payload).value.domain| && Shadowed(Compile(payload).value.domain, i)
    ensures SomeRule(payload, info) && !RuleSetMatches(Build(Compile(payload).value), info)
  {
    HostRulesOnly(payload);
    info := ShadowedLosesInfo(Compile(payload).value, i, sample);
    CompileMeaning(payload, info);
  }

  lemma NoRest(b: Builder, info: ConnInfo)
    requires b == EMPTY.(domain := b.domain)
    ensures !RestPart(b, info)
  {
  }

  /** The condition is necessary, too: a payload of host rules is compiled exactly, on every
      connection, if and only if no suffix is shadowed. */
  lemma CompileExactIff(payload: seq<Rule>, sample: ConnInfo)
    requires Compile(payload).Some? && HostRules(payload)
    ensures Unshadowed(Compile(payload).value.domain) <==>
              forall info :: RuleSetMatches(Build(Compile(payload).value), info) <==> SomeRule(payload, info)
  {
    var b := Compile(payload).value;
    if Unshadowed(b.domain) {
      forall info ensures RuleSetMatches(Build(b), info) <==> SomeRule(payload, info) {
        CompileExact(payload, info);
      }
    } else {
      var i :| 0 <= i < |b.domain| && Shadowed(b.domain, i);
      var info := ShadowedLosesConnection(payload, i, sample);
    }
  }

  lemma {:induction false} HostRulesOnly(payload: seq<Rule>)
    requires Compile(payload).Some? && HostRules(payload)
    ensures Compile(payload).value == EMPTY.(domain := Compile(payload).value.domain)
  {
    if payload != [] {
      HostRulesOnly(payload[..|payload| - 1]);
    }
  }

  /** `RuleSetBuilder::merge` */
  function Merge(l: Builder, r: Builder): Builder {
    l.(domain := l.domain + r.domain,
       domainKeyword := l.domainKeyword + r.domainKeyword,
       ipCidr := l.ipCidr + r.ipCidr,
       processName := l.processName + r.processName,
       processKeyword := l.processKeyword + r.processKeyword,
       procPathKeyword := l.procPathKeyword + r.procPathKeyword,
       srcTcp := l.srcTcp.Extend(r.srcTcp),
       srcUdp := l.srcUdp.Extend(r.srcUdp),
       dstTcp := l.dstTcp.Extend(r.dstTcp),
       dstUdp := l.dstUdp.Extend(r.dstUdp))
  }

  lemma SomeKeywordConcat(a: seq<string>, b: seq<string>, s: string)
    ensures SomeKeyword(a + b, s) <==> SomeKeyword(a, s) || SomeKeyword(b, s)
  {
    if SomeKeyword(a, s) {
      var i :| 0 <= i < |a| && Substring(a[i], s);
      assert (a + b)[i] == a[i];
    }
    if SomeKeyword(b, s) {
      var i :| 0 <= i < |b| && Substring(b[i], s);
      assert (a + b)[|a| + i] == b[i];
    }
  }

  lemma SomeEntryConcat(a: seq<Entry>, b: seq<Entry>, rev: string)
    ensures SomeEntryMatches(a + b, rev) <==> SomeEntryMatches(a, rev) || SomeEntryMatches(b, rev)
  {
    if SomeEntryMatches(a, rev) {
      var i :| 0 <= i < |a| && EntryMatches(a[i], rev);
      assert (a + b)[i] == a[i];
    }
    if SomeEntryMatches(b, rev) {
      var i :| 0 <= i < |b| && EntryMatches(b[i], rev);
      assert (a + b)[|a| + i] == b[i];
    }
  }

  lemma MergeRest(l: Builder, r: Builder, info: ConnInfo)
    ensures RestPart(Merge(l, r), info) <==> RestPart(l, info) || RestPart(r, info)
  {
    if info.dst.DomainName? { SomeKeywordConcat(l.domainKeyword, r.domainKeyword, info.dst.domain); }
    if info.processInfo.Some? {
      SomeKeywordConcat(l.processKeyword, r.processKeyword, info.processInfo.value.name);
      SomeKeywordConcat(l.procPathKeyword, r.procPathKeyword, info.processInfo.value.path);
    }
    if DstAddr(info).Some? {
      var ip := DstAddr(info).value.ip;
      assert SomeNet(l.ipCidr + r.ipCidr, ip) <==> SomeNet(l.ipCidr, ip) || SomeNet(r.ipCidr, ip);
    }
  }

  /** Merged rule sets match exactly the union of their payloads, when no suffix is shadowed in
      the merged host list. */
  lemma MergeExact(left: seq<Rule>, right: seq<Rule>, info: ConnInfo)
    requires Compile(left).Some? && Compile(right).Some?
    requires Unshadowed(Merge(Compile(left).value, Compile(right).value).domain)
    ensures RuleSetMatches(Build(Merge(Compile(left).value, Compile(right).value)), info)
            <==> SomeRule(left, info) || SomeRule(right, info)
  {
    var l, r := Compile(left).value, Compile(right).value;
    var m := Merge(l, r);
    RuleSetIsTrieAndRest(m, info);
    MergeRest(l, r, info);
    TrieExactIff(m.domain);
    if info.dst.DomainName? { SomeEntryConcat(l.domain, r.domain, Reverse(info.dst.domain)); }
    CompileMeaning(left, info);
    CompileMeaning(right, info);
  }

  /** And without any condition a merged rule set matches nothing beyond the union. */
  lemma MergeSound(left: seq<Rule>, right: seq<Rule>, info: ConnInfo)
    requires Compile(left).Some? && Compile(right).Some?
    requires RuleSetMatches(Build(Merge(Compile(left).value, Compile(right).value)), info)
    ensures SomeRule(left, info) || SomeRule(right, info)
  {
    var l, r := Compile(left).value, Compile(right).value;
    var m := Merge(l, r);
    RuleSetIsTrieAndRest(m, info);
    MergeRest(l, r, info);
    if info.dst.DomainName? {
      if HostMatches(BuildTrie(m.domain), info.dst.domain) { TrieSound(m.domain, Reverse(info.dst.domain)); }
      SomeEntryConcat(l.domain, r.domain, Reverse(info.dst.domain));
    }
    CompileMeaning(left, info);
    CompileMeaning(right, info);
  }

  // ---------------------------------------------------------------- when compilation is exact

  lemma MergeTables(l: Builder, r: Builder, info: ConnInfo)
    ensures TablesMatch(Merge(l, r), info) <==> TablesMatch(l, info) || TablesMatch(r, info)
  {
    MergeRest(l, r, info);
    if info.dst.DomainName? {
      SomeEntryConcat(l.domain, r.domain, Reverse(info.dst.domain));
    }
  }

  lemma MergeMeaning(left: seq<Rule>, right: seq<Rule>, info: ConnInfo)
    requires Compile(left).Some? && Compile(right).Some?
    ensures TablesMatch(Merge(Compile(left).value, Compile(right).value), info) <==> SomeRule(left, info) || SomeRule(right, info)
  {
    MergeTables(Compile(left).value, Compile(right).value, info);
    CompileMeaning(left, info);
    CompileMeaning(right, info);
  }

  /** Two payloads of host rules: merge then build matches the union, on every connection, if and
      only if no suffix is shadowed in the merged host list. */
  lemma MergeHostsExactIff(left: seq<Rule>, right: seq<Rule>, sample: ConnInfo)
    requires Compile(left).Some? && Compile(right).Some? && HostRules(left) && HostRules(right)
    ensures var m := Merge(Compile(left).value, Compile(right).value);
            Unshadowed(m.domain) <==>
              forall info :: RuleSetMatches(Build(m), info) <==> SomeRule(left, info) || SomeRule(right, info)
  {
    var m := Merge(Compile(left).value, Compile(right).value);
    if Unshadowed(m.domain) {
      forall info ensures RuleSetMatches(Build(m), info) <==> SomeRule(left, info) || SomeRule(right, info) {
        MergeExact(left, right, info);
      }
    } else {
      HostRulesOnly(left);
      HostRulesOnly(right);
      MergeHostsOnly(Compile(left).value, Compile(right).value);
      var i :| 0 <= i < |m.domain| && Shadowed(m.domain, i);
      var info := ShadowedLosesInfo(m, i, sample);
      MergeMeaning(left, right, info);
    }
  }

  lemma MergeHostsOnly(l: Builder, r: Builder)
    requires l == EMPTY.(domain := l.domain) && r == EMPTY.(domain := r.domain)
    ensures Merge(l, r) == EMPTY.(domain := l.domain + r.domain)
  {
  }

  predicate ValidIp(ip: Ip) { ip.bits < Pow2(Width(ip)) }

  /** A connection whose ports and addresses are in range. */
  predicate ValidInfo(info: ConnInfo) {
    && ValidPorts(info) && ValidIp(info.src.ip) && (info.dst.Raw? ==> ValidIp(info.dst.addr.ip))
    && (info.localIp.Some? ==> ValidIp(info.localIp.value)) && (info.resolvedDst.Some? ==> ValidIp(info.resolvedDst.value.ip))
  }

  predicate ValidPorts(info: ConnInfo) { info.src.port < 65536 && Port(info.dst) < 65536 }

  ghost predicate LetsBy(f: PortFilter) { exists p :: 0 <= p < 65536 && !f.Has(p) }

  /** Some connection is not matched by its ports alone. */
  ghost predicate PortGap(b: Builder) {
    (LetsBy(b.dstTcp) && LetsBy(b.srcTcp)) || (LetsBy(b.dstUdp) && LetsBy(b.srcUdp))
  }

  /** Every host the suffix entry `i` loses in the trie contains a keyword. */
  ghost predicate LossCovered(b: Builder, i: nat)
    requires i < |b.domain|
  {
    var key := b.domain[i].key;
    && (forall j :: 0 <= j < |b.domain| && Hides(b.domain[j].key, key) ==> SomeKeyword(b.domainKeyword, Reverse(b.domain[j].key)))
    && (BuildTrieAt(b.domain, key) == Some(Exact) ==> SomeKeyword(b.domainKeyword, "." + Reverse(key)))
  }

  /** Shadowing does no harm: the ports match everything, or the keywords make up for it. */
  ghost predicate Harmless(b: Builder) {
    !PortGap(b) || forall i :: 0 <= i < |b.domain| && b.domain[i].kind == Suffix ==> LossCovered(b, i)
  }

  lemma ReverseSplit(rev: string, n: nat)
    requires n <= |rev|
    ensures Reverse(rev) == Reverse(rev[n..]) + Reverse(rev[..n])
  {
  }

  lemma KeywordAtEnd(kws: seq<string>, a: string, b: string)
    requires SomeKeyword(kws, b)
    ensures SomeKeyword(kws, a + b)
  {
    var i :| 0 <= i < |kws| && Substring(kws[i], b);
    var at: nat :| OccursAt(kws[i], b, at);
    assert (a + b)[|a| + at..|a| + at + |kws[i]|] == b[at..at + |kws[i]|];
    assert OccursAt(kws[i], a + b, |a| + at);
  }

  /** A host that an entry matches and the trie does not: a longer registered key hides the entry,
      or its own key is registered as exact. */
  lemma LostHost(entries: seq<Entry>, i: nat, rev: string) returns (n: nat)
    requires i < |entries| && EntryMatches(entries[i], rev) && !TrieMatches(BuildTrie(entries), rev)
    ensures var key := entries[i].key;
            && entries[i].kind == Suffix && |key| <= n < |rev| && rev[..|key|] == key && rev[|key|] == '.'
            && (n == |key| ==> BuildTrieAt(entries, key) == Some(Exact))
            && (n > |key| ==> exists j :: 0 <= j < |entries| && entries[j].key == rev[..n] && Hides(entries[j].key, key))
  {
    TrieHasEntries(entries);
    var t, key := BuildTrie(entries), entries[i].key;
    assert rev[..|rev|] == rev && rev[..|key|] == key;
    n := Ancestor(t, rev, |rev|).value;
    if n > |key| {
      var j :| 0 <= j < |entries| && entries[j] == Entry(rev[..n], t[rev[..n]]);
      assert rev[..n][..|key|] == rev[..|key|];
      assert Hides(entries[j].key, key);
    }
  }

  lemma CoveredLoss(b: Builder, i: nat, rev: string)
    requires i < |b.domain| && LossCovered(b, i)
    requires EntryMatches(b.domain[i], rev) && !TrieMatches(BuildTrie(b.domain), rev)
    ensures SomeKeyword(b.domainKeyword, Reverse(rev))
  {
    var key := b.domain[i].key;
    var n := LostHost(b.domain, i, rev);
    if n > |key| {
      var j :| 0 <= j < |b.domain| && b.domain[j].key == rev[..n] && Hides(b.domain[j].key, key);
      ReverseSplit(rev, n);
      KeywordAtEnd(b.domainKeyword, Reverse(rev[n..]), Reverse(rev[..n]));
    } else {
      ReverseSplit(rev, |key| + 1);
      assert Reverse(rev[..|key| + 1]) == "." + Reverse(key) by {
        assert rev[..|key| + 1] == key + ".";
      }
      KeywordAtEnd(b.domainKeyword, Reverse(rev[|key| + 1..]), "." + Reverse(key));
    }
  }

  lemma HarmlessIsExact(b: Builder, info: ConnInfo)
    requires Harmless(b) && ValidPorts(info)
    ensures RuleSetMatches(Build(b), info) <==> TablesMatch(b, info)
  {
    RuleSetIsTrieAndRest(b, info);
    if info.dst.DomainName? {
      var rev := Reverse(info.dst.domain);
      ReverseTwice(info.dst.domain);
      if TrieMatches(BuildTrie(b.domain), rev) {
        TrieSound(b.domain, rev);
      } else if SomeEntryMatches(b.domain, rev) && PortGap(b) {
        var i :| 0 <= i < |b.domain| && EntryMatches(b.domain[i], rev);
        var n := LostHost(b.domain, i, rev);
        CoveredLoss(b, i, rev);
      }
    }
  }

  /** A character used in no key and no keyword, and not a dot. */
  ghost predicate Unused(b: Builder, c: char) {
    c != '.' && (forall i :: 0 <= i < |b.domain| ==> c !in b.domain[i].key)
    && (forall i :: 0 <= i < |b.domainKeyword| ==> c !in b.domainKeyword[i])
  }

  lemma StartsWith(kw: string, s: string)
    requires kw != "" && OccursAt(kw, s, 0)
    ensures s[0] in kw
  {
    assert s[0] == s[0..|kw|][0];
  }

  lemma NoKeywordAcross(b: Builder, c: char, host: string)
    requires Unused(b, c) && SomeKeyword(b.domainKeyword, [c] + host)
    ensures SomeKeyword(b.domainKeyword, host)
  {
    var i :| 0 <= i < |b.domainKeyword| && Substring(b.domainKeyword[i], [c] + host);
    var kw := b.domainKeyword[i];
    var at: nat :| OccursAt(kw, [c] + host, at);
    if at == 0 {
      if kw != "" {
        StartsWith(kw, [c] + host);
      } else {
        assert OccursAt(kw, host, 0);
      }
    } else {
      assert ([c] + host)[at..at + |kw|] == host[at - 1..at - 1 + |kw|];
      assert OccursAt(kw, host, at - 1);
    }
  }

  /** A loss that is not covered shows on some host that contains no keyword. */
  lemma UncoveredLosesHost(b: Builder, i: nat, c: char) returns (rev: string)
    requires i < |b.domain| && b.domain[i].kind == Suffix && !LossCovered(b, i) && Unused(b, c)
    ensures EntryMatches(b.domain[i], rev) && !TrieMatches(BuildTrie(b.domain), rev)
    ensures !SomeKeyword(b.domainKeyword, Reverse(rev))
  {
    var key := b.domain[i].key;
    if j :| 0 <= j < |b.domain| && Hides(b.domain[j].key, key) && !SomeKeyword(b.domainKeyword, Reverse(b.domain[j].key)) {
      var hider := b.domain[j].key;
      rev := hider + [c];
      LostBehindHider(b, i, j, c);
      assert Reverse(rev) == [c] + Reverse(hider);
      if SomeKeyword(b.domainKeyword, Reverse(rev)) {
        NoKeywordAcross(b, c, Reverse(hider));
      }
    } else {
      rev := key + ".";
      LostBelowExact(b, i);
      assert Reverse(rev) == "." + Reverse(key);
    }
  }

  lemma LostBehindHider(b: Builder, i: nat, j: nat, c: char)
    requires i < |b.domain| && b.domain[i].kind == Suffix && j < |b.domain| && Hides(b.domain[j].key, b.domain[i].key)
    requires Unused(b, c)
    ensures var rev := b.domain[j].key + [c];
            EntryMatches(b.domain[i], rev) && !TrieMatches(BuildTrie(b.domain), rev)
  {
    TrieHasEntries(b.domain);
    var key, hider, t := b.domain[i].key, b.domain[j].key, BuildTrie(b.domain);
    var rev := hider + [c];
    assert rev[..|hider|] == hider && rev[|hider|] == c;
    assert rev[..|key|] == hider[..|key|];
    assert rev[..|rev|] == rev;
    forall k | k in t ensures c !in k {
      var m :| 0 <= m < |b.domain| && b.domain[m] == Entry(k, t[k]);
    }
    assert c in rev;
    assert Ancestor(t, rev, |rev|).value == |hider|;
  }

  lemma LostBelowExact(b: Builder, i: nat)
    requires i < |b.domain| && b.domain[i].kind == Suffix && BuildTrieAt(b.domain, b.domain[i].key) == Some(Exact)
    requires !SomeKeyword(b.domainKeyword, "." + Reverse(b.domain[i].key))
    requires forall j :: 0 <= j < |b.domain| && Hides(b.domain[j].key, b.domain[i].key) ==> SomeKeyword(b.domainKeyword, Reverse(b.domain[j].key))
    ensures var rev := b.domain[i].key + ".";
            EntryMatches(b.domain[i], rev) && !TrieMatches(BuildTrie(b.domain), rev)
  {
    TrieHasEntries(b.domain);
    var key, t := b.domain[i].key, BuildTrie(b.domain);
    var rev := key + ".";
    assert rev[..|key|] == key && rev[|key|] == '.' && rev[..|rev|] == rev;
    forall k | k in t && Hides(k, key) ensures SomeKeyword(b.domainKeyword, Reverse(k)) {
      var m :| 0 <= m < |b.domain| && b.domain[m] == Entry(k, t[k]);
    }
    assert Hides(rev, key);
    assert Reverse(rev) == "." + Reverse(key);
    assert Ancestor(t, rev, |rev|).value == |key|;
  }

  lemma HarmfulLosesInfo(b: Builder, c: char, sample: ConnInfo) returns (info: ConnInfo)
    requires !Harmless(b) && Unused(b, c)
    ensures ValidPorts(info) && TablesMatch(b, info) && !RuleSetMatches(Build(b), info)
    ensures ValidInfo(sample) ==> ValidInfo(info)
  {
    var i :| 0 <= i < |b.domain| && b.domain[i].kind == Suffix && !LossCovered(b, i);
    var rev := UncoveredLosesHost(b, i, c);
    ReverseTwice(rev);
    var tcp := LetsBy(b.dstTcp) && LetsBy(b.srcTcp);
    var p: nat :| p < 65536 && !(if tcp then b.dstTcp else b.dstUdp).Has(p);
    var q: nat :| q < 65536 && !(if tcp then b.srcTcp else b.srcUdp).Has(q);
    info := sample.(dst := DomainName(Reverse(rev), p), src := SockAddr(sample.src.ip, q), resolvedDst := None,
                    processInfo := None, connectionType := if tcp then Tcp else Udp);
    assert HostPart(b, info);
    RuleSetIsTrieAndRest(b, info);
  }

  /** The tables of any payload or merge of payloads are compiled exactly, on every connection, if
      and only if shadowing does no harm.  `c` is any character the payload does not use. */
  lemma BuildExactIff(b: Builder, c: char, sample: ConnInfo)
    requires Unused(b, c)
    ensures Harmless(b) <==>
              forall info :: ValidPorts(info) ==> (RuleSetMatches(Build(b), info) <==> TablesMatch(b, info))
  {
    if Harmless(b) {
      forall info | ValidPorts(info) ensures RuleSetMatches(Build(b), info) <==> TablesMatch(b, info) {
        HarmlessIsExact(b, info);
      }
    } else {
      var info := HarmfulLosesInfo(b, c, sample);
    }
  }

  /** Payloads of all kinds of rules. */
  lemma MixedExactIff(payload: seq<Rule>, c: char, sample: ConnInfo)
    requires Compile(payload).Some? && Unused(Compile(payload).value, c)
    ensures Harmless(Compile(payload).value) <==>
              forall info :: ValidPorts(info) ==> (RuleSetMatches(Build(Compile(payload).value), info) <==> SomeRule(payload, info))
  {
    forall info ensures TablesMatch(Compile(payload).value, info) <==> SomeRule(payload, info) {
      CompileMeaning(payload, info);
    }
    BuildExactIff(Compile(payload).value, c, sample);
  }

  /** Merged payloads of all kinds of rules. */
  lemma MergeExactIff(left: seq<Rule>, right: seq<Rule>, c: char, sample: ConnInfo)
    requires Compile(left).Some? && Compile(right).Some? && Unused(Merge(Compile(left).value, Compile(right).value), c)
    ensures var m := Merge(Compile(left).value, Compile(right).value);
            Harmless(m) <==>
              forall info :: ValidPorts(info) ==> (RuleSetMatches(Build(m), info) <==> SomeRule(left, info) || SomeRule(right, info))
  {
    var l, r := Compile(left).value, Compile(right).value;
    forall info ensures TablesMatch(Merge(l, r), info) <==> SomeRule(left, info) || SomeRule(right, info) {
      MergeMeaning(left, right, info);
    }
    BuildExactIff(Merge(l, r), c, sample);
  }

  // ---------------------------------------------------------------- rules that are never consulted

  /** What the interpreter says of a payload: some rule of it matches, whatever its kind. */
  ghost predicate AnyRule(payload: seq<Rule>, info: ConnInfo) {
    exists i :: 0 <= i < |payload| && RuleMatches(payload[i], info)
  }

  predicate AllConsulted(payload: seq<Rule>) {
    forall i :: 0 <= i < |payload| ==> Consulted(payload[i])
  }

  /** The networks of a payload are those of addresses in range. */
  predicate ValidNets(payload: seq<Rule>) {
    forall i :: 0 <= i < |payload| ==>
      (payload[i].SrcIpCidr? || payload[i].LocalIpCidr? ==> ValidIp(payload[i].net.base))
  }

  /** The rule set matches every connection: by its ports, or by an empty keyword and networks that
      hold every address. */
  ghost predicate MatchesAll(b: Builder) {
    !PortGap(b) || ("" in b.domainKeyword && forall ip :: ValidIp(ip) ==> SomeNet(b.ipCidr, ip))
  }

  lemma MatchesAllMatches(b: Builder, info: ConnInfo)
    requires MatchesAll(b) && ValidInfo(info)
    ensures RuleSetMatches(Build(b), info)
  {
    if info.dst.DomainName? && PortGap(b) {
      var i :| 0 <= i < |b.domainKeyword| && b.domainKeyword[i] == "";
      assert OccursAt("", info.dst.domain, 0);
    }
  }

  lemma MatchesAllIsHarmless(b: Builder)
    requires MatchesAll(b)
    ensures Harmless(b)
  {
    if PortGap(b) {
      var i :| 0 <= i < |b.domainKeyword| && b.domainKeyword[i] == "";
      forall s ensures SomeKeyword(b.domainKeyword, s) {
        assert OccursAt("", s, 0);
      }
    }
  }

  /** A host of one unused character is matched by no entry and by no keyword but the empty one. */
  lemma UnusedHost(b: Builder, c: char)
    requires Unused(b, c) && "" !in b.domainKeyword
    ensures !HostMatches(BuildTrie(b.domain), [c]) && !SomeKeyword(b.domainKeyword, [c])
  {
    var t := BuildTrie(b.domain);
    TrieHasEntries(b.domain);
    assert Reverse([c]) == [c];
    forall k | k in t ensures c !in k {
      var m :| 0 <= m < |b.domain| && b.domain[m] == Entry(k, t[k]);
    }
    assert [c][..1] == [c] && c in [c];
    forall i | 0 <= i < |b.domainKeyword| ensures !Substring(b.domainKeyword[i], [c]) {
      var kw := b.domainKeyword[i];
      forall at: nat ensures !OccursAt(kw, [c], at) {
        if at + |kw| <= 1 && |kw| == 1 {
          assert [c][at..at + |kw|] == [c];
        }
      }
    }
  }

  /** A destination that the rule set does not match by itself. */
  lemma UnmatchedDestination(b: Builder, c: char, port: nat) returns (dst: NetworkAddr)
    requires Unused(b, c) && !MatchesAll(b)
    ensures Port(dst) == port
    ensures dst.Raw? ==> ValidIp(dst.addr.ip) && !SomeNet(b.ipCidr, dst.addr.ip)
    ensures dst.DomainName? ==> !HostMatches(BuildTrie(b.domain), dst.domain) && !SomeKeyword(b.domainKeyword, dst.domain)
  {
    if "" in b.domainKeyword {
      var ip :| ValidIp(ip) && !SomeNet(b.ipCidr, ip);
      dst := Raw(SockAddr(ip, port));
    } else {
      UnusedHost(b, c);
      dst := DomainName([c], port);
    }
  }

  /** An inbound, source or local address rule loses a connection that it matches, unless the rule
      set matches everything. */
  lemma UnconsultedLosesInfo(b: Builder, r: Rule, c: char, sample: ConnInfo) returns (info: ConnInfo)
    requires Tabled(r) && !Consulted(r) && (!r.Inbound? ==> ValidIp(r.net.base))
    requires Unused(b, c) && !MatchesAll(b) && ValidInfo(sample)
    ensures ValidInfo(info) && RuleMatches(r, info) && !RuleSetMatches(Build(b), info)
  {
    var tcp := LetsBy(b.dstTcp) && LetsBy(b.srcTcp);
    var p: nat :| p < 65536 && !(if tcp then b.dstTcp else b.dstUdp).Has(p);
    var q: nat :| q < 65536 && !(if tcp then b.srcTcp else b.srcUdp).Has(q);
    var dst := UnmatchedDestination(b, c, p);
    info := sample.(dst := dst, resolvedDst := None, processInfo := None, connectionType := if tcp then Tcp else Udp,
                    src := SockAddr(if r.SrcIpCidr? then r.net.base else sample.src.ip, q),
                    localIp := if r.LocalIpCidr? then Some(r.net.base) else sample.localIp,
                    inbound := if r.Inbound? then r.inbound else sample.inbound);
  }

  /** Tables that mean the consulted rules of a payload, against the interpreter on all its rules. */
  lemma AgainstInterpreter(b: Builder, payload: seq<Rule>, c: char, sample: ConnInfo)
    requires forall info :: TablesMatch(b, info) <==> SomeRule(payload, info)
    requires forall i :: 0 <= i < |payload| ==> Tabled(payload[i])
    requires Unused(b, c) && ValidNets(payload) && ValidInfo(sample)
    ensures MatchesAll(b) || (AllConsulted(payload) && Harmless(b)) <==>
              forall info :: ValidInfo(info) ==> (RuleSetMatches(Build(b), info) <==> AnyRule(payload, info))
  {
    if MatchesAll(b) {
      MatchesAllIsHarmless(b);
    }
    if !Harmless(b) {
      var info := HarmfulLosesInfo(b, c, sample);
      SomeIsAny(payload, info);
    } else if !AllConsulted(payload) && !MatchesAll(b) {
      var i :| 0 <= i < |payload| && !Consulted(payload[i]);
      var info := UnconsultedLosesInfo(b, payload[i], c, sample);
    } else {
      forall info | ValidInfo(info) ensures RuleSetMatches(Build(b), info) <==> AnyRule(payload, info) {
        HarmlessIsExact(b, info);
        SomeIsAny(payload, info);
        if MatchesAll(b) {
          MatchesAllMatches(b, info);
        }
      }
    }
  }

  lemma SomeIsAny(payload: seq<Rule>, info: ConnInfo)
    ensures SomeRule(payload, info) ==> AnyRule(payload, info)
    ensures AllConsulted(payload) && AnyRule(payload, info) ==> SomeRule(payload, info)
  {
  }

  /** A payload is compiled exactly, on every connection and against the interpreter on all its
      rules, if and only if every rule is of a consulted kind and shadowing does no harm, or the rule
      set matches everything anyway. */
  lemma InterpreterExactIff(payload: seq<Rule>, c: char, sample: ConnInfo)
    requires Compile(payload).Some? && Unused(Compile(payload).value, c) && ValidNets(payload) && ValidInfo(sample)
    ensures var b := Compile(payload).value;
            MatchesAll(b) || (AllConsulted(payload) && Harmless(b)) <==>
              forall info :: ValidInfo(info) ==> (RuleSetMatches(Build(b), info) <==> AnyRule(payload, info))
  {
    forall info ensures TablesMatch(Compile(payload).value, info) <==> SomeRule(payload, info) {
      CompileMeaning(payload, info);
    }
    CompiledIsTabled(payload);
    AgainstInterpreter(Compile(payload).value, payload, c, sample);
  }

  lemma CompiledIsTabled(payload: seq<Rule>)
    requires Compile(payload).Some?
    ensures forall i :: 0 <= i < |payload| ==> Tabled(payload[i])
  {
    forall i | 0 <= i < |payload| ensures Tabled(payload[i]) {
      if !Tabled(payload[i]) { CompileFails(payload, i); }
    }
  }

  lemma SomeRuleConcat(left: seq<Rule>, right: seq<Rule>, info: ConnInfo)
    ensures SomeRule(left + right, info) <==> SomeRule(left, info) || SomeRule(right, info)
    ensures AnyRule(left + right, info) <==> AnyRule(left, info) || AnyRule(right, info)
  {
    var all := left + right;
    assert forall i :: 0 <= i < |left| ==> all[i] == left[i];
    assert forall i :: 0 <= i < |right| ==> all[|left| + i] == right[i];
  }

  /** The same for two merged payloads. */
  lemma MergeInterpreterExactIff(left: seq<Rule>, right: seq<Rule>, c: char, sample: ConnInfo)
    requires Compile(left).Some? && Compile(right).Some? && ValidNets(left) && ValidNets(right) && ValidInfo(sample)
    requires Unused(Merge(Compile(left).value, Compile(right).value), c)
    ensures var m := Merge(Compile(left).value, Compile(right).value);
            MatchesAll(m) || (AllConsulted(left) && AllConsulted(right) && Harmless(m)) <==>
              forall info :: ValidInfo(info) ==> (RuleSetMatches(Build(m), info) <==> AnyRule(left, info) || AnyRule(right, info))
  {
    var m := Merge(Compile(left).value, Compile(right).value);
    forall info
      ensures TablesMatch(m, info) <==> SomeRule(left + right, info)
      ensures AnyRule(left + right, info) <==> AnyRule(left, info) || AnyRule(right, info)
    {
      MergeMeaning(left, right, info);
      SomeRuleConcat(left, right, info);
    }
    CompiledIsTabled(left);
    CompiledIsTabled(right);
    ConsultedConcat(left, right);
    AgainstInterpreter(m, left + right, c, sample);
  }

  lemma ConsultedConcat(left: seq<Rule>, right: seq<Rule>)
    ensures AllConsulted(left + right) <==> AllConsulted(left) && AllConsulted(right)
  {
    var all := left + right;
    assert forall i :: 0 <= i < |left| ==> all[i] == left[i];
    assert forall i :: 0 <= i < |right| ==> all[|left| + i] == right[i];
  }

  /** One rule is enough: a payload of a single source-address rule matches nothing when compiled. */
  lemma SourceRuleIsIgnored(net: Net, info: ConnInfo)
    requires Contains(net, info.src.ip)
    ensures RuleMatches(SrcIpCidr(net), info)
    ensures Compile([SrcIpCidr(net)]).Some? && !RuleSetMatches(Build(Compile([SrcIpCidr(net)]).value), info)
  {
    var payload := [SrcIpCidr(net)];
    assert payload[..0] == [] && Compile(payload) == AddRule(EMPTY, payload[0]);
    if RuleSetMatches(Build(Compile(payload).value), info) {
      CompileSound(payload, info);
    }
  }

  // ---------------------------------------------------------------- what the rules mean

  lemma DivUnique(x: nat, d: nat, q: nat, r: nat)
    requires d > 0 && r < d && x == q * d + r
    ensures x / d == q
  {
    var q', r' := x / d, x % d;
    assert (q - q') * d == r' - r by { assert x == q' * d + r'; }
    if q - q' >= 1 { AtLeast(q - q', d); }
    if q' - q >= 1 { AtLeast(q' - q, d); }
  }

  lemma HalfOfQuotient(x: nat, m: nat)
    requires m > 0
    ensures x / (2 * m) == x / m / 2
  {
    var q, r := x / m, x % m;
    var h, b := q / 2, q % 2;
    assert x == q * m + r;
    assert q * m == h * (2 * m) + b * m by { assert q == 2 * h + b; }
    assert b * m + r < 2 * m by { assert b == 0 || b == 1; }
    DivUnique(x, 2 * m, h, b * m + r);
  }

  /** Bit `i` of an address, the highest first. */
  function Bit(bits: nat, width: nat, i: nat): nat
    requires i < width
  {
    bits / Pow2(width - 1 - i) % 2
  }

  predicate LeadingBitsAgree(x: nat, y: nat, width: nat, n: nat)
    requires n <= width
  {
    forall i :: 0 <= i < n ==> Bit(x, width, i) == Bit(y, width, i)
  }

  lemma QuotientStep(x: nat, m: nat)
    requires m > 0
    ensures x / m == 2 * (x / (2 * m)) + x / m % 2
  {
    HalfOfQuotient(x, m);
  }

  lemma SmallQuotient(x: nat, m: nat)
    requires x < m
    ensures x / m == 0
  {
    DivUnique(x, m, 0, x);
  }

  lemma {:induction false} QuotientIsLeadingBits(x: nat, y: nat, width: nat, n: nat)
    requires n <= width && x < Pow2(width) && y < Pow2(width)
    ensures x / Pow2(width - n) == y / Pow2(width - n) <==> LeadingBitsAgree(x, y, width, n)
  {
    if n == 0 {
      SmallQuotient(x, Pow2(width));
      SmallQuotient(y, Pow2(width));
    } else {
      QuotientIsLeadingBits(x, y, width, n - 1);
      OneBitMore(x, y, Pow2(width - n), Pow2(width - (n - 1)));
      AgreeOneMore(x, y, width, n);
    }
  }

  lemma OneBitMore(x: nat, y: nat, m: nat, m2: nat)
    requires m > 0 && m2 == 2 * m
    ensures x / m == y / m <==> x / m2 == y / m2 && x / m % 2 == y / m % 2
  {
    QuotientStep(x, m);
    QuotientStep(y, m);
  }

  lemma AgreeOneMore(x: nat, y: nat, width: nat, n: nat)
    requires 0 < n <= width
    ensures LeadingBitsAgree(x, y, width, n) <==>
              LeadingBitsAgree(x, y, width, n - 1) && x / Pow2(width - n) % 2 == y / Pow2(width - n) % 2
  {
    assert Bit(x, width, n - 1) == x / Pow2(width - n) % 2;
    assert Bit(y, width, n - 1) == y / Pow2(width - n) % 2;
  }

  /** A network contains an address exactly if they are of one family and agree in the leading
      `prefix` bits. */
  lemma ContainsMeaning(net: Net, ip: Ip)
    requires net.prefix <= Width(net.base) && ValidIp(net.base) && ValidIp(ip)
    ensures Contains(net, ip) <==>
              net.base.V4? == ip.V4? && LeadingBitsAgree(net.base.bits, ip.bits, Width(net.base), net.prefix)
  {
    if net.base.V4? == ip.V4? {
      QuotientIsLeadingBits(net.base.bits, ip.bits, Width(net.base), net.prefix);
    }
  }

  /** A prefix of full length contains its base only, an empty one the whole family. */
  lemma ContainsCorners(base: Ip, ip: Ip)
    requires ValidIp(base) && ValidIp(ip)
    ensures Contains(Net(base, Width(base)), ip) <==> ip == base
    ensures Contains(Net(base, 0), ip) <==> ip.V4? == base.V4?
  {
    ContainsMeaning(Net(base, 0), ip);
  }

  lemma {:induction false} Pow2Sum(a: nat, b: nat)
    ensures Pow2(a + b) == Pow2(a) * Pow2(b)
  {
    if b > 0 {
      Pow2Sum(a, b - 1);
      assert Pow2(a + b) == 2 * Pow2(a + (b - 1));
    }
  }

  lemma Pow2Square(n: nat, v: nat)
    requires Pow2(n) == v
    ensures Pow2(2 * n) == v * v
  {
    Pow2Sum(n, n);
  }

  lemma Pow2Values()
    ensures Pow2(8) == 0x100 && Pow2(16) == 0x1_0000 && Pow2(32) == 0x1_0000_0000
    ensures Pow2(64) == 0x1_0000_0000_0000_0000 && Pow2(128) == 0x1_0000_0000_0000_0000_0000_0000_0000_0000
  {
    assert Pow2(1) == 2;
    Pow2Square(1, 2);
    Pow2Square(2, 4);
    Pow2Square(4, 16);
    Pow2Square(8, 0x100);
    Pow2Square(16, 0x1_0000);
    Pow2Square(32, 0x1_0000_0000);
    Pow2Square(64, 0x1_0000_0000_0000_0000);
  }

  /** The ranges of the two families. */
  lemma AddressRanges(bits: nat)
    ensures ValidIp(V4(bits)) <==> bits <= 0xFFFF_FFFF
    ensures ValidIp(V6(bits)) <==> bits <= 0xFFFF_FFFF_FFFF_FFFF_FFFF_FFFF_FFFF_FFFF
  {
    Pow2Values();
  }

  /** 10.0.0.0/8 contains 10.1.2.3 and not 11.1.2.3. */
  lemma TenSlashEight()
    ensures var net := Net(V4(0x0A00_0000), 8);
            Contains(net, V4(0x0A01_0203)) && !Contains(net, V4(0x0B01_0203))
  {
    Pow2Values();
    Pow2Sum(16, 8);
    assert Pow2(24) == 0x100_0000;
  }

  /** Truncation clears the bits behind the prefix. */
  lemma TruncateClears(net: Net)
    ensures Truncate(net).base.bits % HostSpan(net) == 0 && Truncate(net).prefix == net.prefix && Truncate(net).base.V4? == net.base.V4?
  {
    TruncatedHasNoRest(net.base.bits, HostSpan(net));
  }

  lemma TruncatedHasNoRest(bits: nat, span: nat)
    requires span > 0
    ensures Truncated(bits, span) % span == 0
  {
    MultipleHasNoRest(bits / span, span);
  }

  lemma MultipleHasNoRest(q: nat, h: nat)
    requires h > 0
    ensures q * h % h == 0
  {
    var p := q * h;
    ProductDivides(q, h);
    assert p == p / h * h + p % h;
  }

  lemma SubstringMeaning(kw: string, s: string)
    ensures Substring(kw, s) <==> exists a, b :: s == a + kw + b
  {
    if Substring(kw, s) {
      var i: nat :| OccursAt(kw, s, i);
      assert s == s[..i] + kw + s[i + |kw|..];
    }
    if a, b :| s == a + kw + b {
      assert OccursAt(kw, s, |a|);
    }
  }

  /** DOMAIN-SUFFIX matches the name itself and every name below it. */
  lemma SuffixMeaning(d: string, host: string)
    ensures SuffixMatches(d, host) <==> host == d || exists sub :: host == sub + "." + d
  {
    if SuffixMatches(d, host) && host != d {
      var n := |host| - |d| - 1;
      assert host == host[..n] + "." + d;
    }
    if sub :| host == sub + "." + d {
      assert host[|host| - |d|..] == d && host[|host| - 1 - |d|] == '.';
    }
  }

  /** Where the address and the ports that rules look at come from. */
  lemma AddressRulesMeaning(net: Net, ip: Ip, port: nat, domain: string, info: ConnInfo)
    ensures RuleMatches(SrcIpCidr(net), info.(src := SockAddr(ip, port))) <==> Contains(net, ip)
    ensures RuleMatches(LocalIpCidr(net), info.(localIp := Some(ip))) <==> Contains(net, ip)
    ensures !RuleMatches(LocalIpCidr(net), info.(localIp := None))
    ensures RuleMatches(IpCidr(net), info.(dst := Raw(SockAddr(ip, port)))) <==> Contains(net, ip)
    ensures RuleMatches(IpCidr(net), info.(dst := DomainName(domain, port), resolvedDst := Some(SockAddr(ip, port)))) <==> Contains(net, ip)
    ensures !RuleMatches(IpCidr(net), info.(dst := DomainName(domain, port), resolvedDst := None))
    ensures RuleMatches(DstPort(AllPort(port)), info.(dst := Raw(SockAddr(ip, port))))
    ensures RuleMatches(DstPort(AllPort(port)), info.(dst := DomainName(domain, port)))
    ensures !RuleMatches(DstPort(AllPort(port)), info.(dst := DomainName(domain, port + 1)))
    ensures !RuleMatches(DstPort(AllPort(port)), info.(dst := Raw(SockAddr(ip, port + 1))))
    ensures RuleMatches(SrcPort(AllPort(port)), info.(src := SockAddr(ip, port)))
    ensures !RuleMatches(SrcPort(AllPort(port)), info.(src := SockAddr(ip, port + 1)))
  {
  }

  /** An inbound rule matches its own kind of inbound, and only with the user and port it names. */
  lemma InboundMeaning(user: string, port: nat, id: InboundIdentity, info: ConnInfo)
    ensures RuleMatches(Inbound(TunInbound), info) <==> info.inbound == TunInbound
    ensures RuleMatches(Inbound(HttpInbound(InboundIdentity(None, None))), info) <==> info.inbound.HttpInbound?
    ensures RuleMatches(Inbound(Socks5Inbound(InboundIdentity(None, None))), info) <==> info.inbound.Socks5Inbound?
    ensures RuleMatches(Inbound(HttpInbound(InboundIdentity(Some(user), None))), info.(inbound := HttpInbound(id))) <==> id.user == Some(user)
    ensures RuleMatches(Inbound(Socks5Inbound(InboundIdentity(Some(user), None))), info.(inbound := Socks5Inbound(id))) <==> id.user == Some(user)
    ensures RuleMatches(Inbound(HttpInbound(InboundIdentity(None, Some(port)))), info.(inbound := HttpInbound(id))) <==> id.port == Some(port)
    ensures RuleMatches(Inbound(Socks5Inbound(InboundIdentity(Some(user), Some(port)))), info.(inbound := Socks5Inbound(id)))
            <==> id == InboundIdentity(Some(user), Some(port))
  {
  }

  /** Compound rules are the connectives. */
  lemma NotMeaning(r: Rule, info: ConnInfo)
    ensures RuleMatches(Not(r), info) <==> !RuleMatches(r, info)
    ensures RuleMatches(Always, info) && !RuleMatches(Never, info)
  {
  }

  lemma AndOne(r: Rule, info: ConnInfo)
    ensures RuleMatches(And([]), info) && (RuleMatches(And([r]), info) <==> RuleMatches(r, info))
  {
    assert forall x :: x in [r] <==> x == r;
    assert RuleMatches(And([r]), info) == forall x :: x in [r] ==> RuleMatches(x, info);
  }

  lemma OrOne(r: Rule, info: ConnInfo)
    ensures !RuleMatches(Or([]), info) && (RuleMatches(Or([r]), info) <==> RuleMatches(r, info))
  {
    assert forall x :: x in [r] <==> x == r;
    assert RuleMatches(Or([r]), info) == exists x :: x in [r] && RuleMatches(x, info);
  }

  lemma AndConcat(a: seq<Rule>, b: seq<Rule>, info: ConnInfo)
    ensures RuleMatches(And(a + b), info) <==> RuleMatches(And(a), info) && RuleMatches(And(b), info)
  {
    assert forall x :: x in a + b <==> x in a || x in b;
    assert RuleMatches(And(a + b), info) == forall x :: x in a + b ==> RuleMatches(x, info);
  }

  lemma OrConcat(a: seq<Rule>, b: seq<Rule>, info: ConnInfo)
    ensures RuleMatches(Or(a + b), info) <==> RuleMatches(Or(a), info) || RuleMatches(Or(b), info)
  {
    assert forall x :: x in a + b <==> x in a || x in b;
    assert RuleMatches(Or(a + b), info) == exists x :: x in a + b && RuleMatches(x, info);
  }

  /** Process rules look at the process behind the connection, and match nothing without one. */
  lemma ProcessMeaning(p: Process, kw: string, name: string, accepts: set<string>, info: ConnInfo)
    ensures RuleMatches(ProcessName(name), info.(processInfo := Some(p))) <==> p.name == name
    ensures RuleMatches(ProcessKeyword(kw), info.(processInfo := Some(p))) <==> exists a, b :: p.name == a + kw + b
    ensures RuleMatches(ProcPathKeyword(kw), info.(processInfo := Some(p))) <==> exists a, b :: p.path == a + kw + b
    ensures RuleMatches(ProcCmdRegex(accepts), info.(processInfo := Some(p))) <==> p.cmdline in accepts
    ensures var none := info.(processInfo := None);
            && !RuleMatches(ProcessName(name), none) && !RuleMatches(ProcessKeyword(kw), none)
            && !RuleMatches(ProcPathKeyword(kw), none) && !RuleMatches(ProcCmdRegex(accepts), none)
  {
    SubstringMeaning(kw, p.name);
    SubstringMeaning(kw, p.path);
  }
}
