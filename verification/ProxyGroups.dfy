/** Proxy groups and chains: the recursive topological build of
    boltconn/src/dispatch/dispatching.rs and the selection walk of boltconn/src/dispatch/proxy.rs.
    A `ProxyGroup` is a heap object because `set_selection` changes it through shared pointers. */
module ProxyGroups {
  import opened Common

  datatype ProxyImpl = Leaf(description: string) | Chain(members: seq<GeneralProxy>)

  datatype Proxy = Proxy(name: string, detail: ProxyImpl)

  datatype GeneralProxy = Single(p: Proxy) | Group(g: ProxyGroup)

  class ProxyGroup {
    const name: string
    const proxies: seq<GeneralProxy>
    const interface: Option<string>
    var selection: GeneralProxy

    constructor (name: string, proxies: seq<GeneralProxy>, selection: GeneralProxy, interface: Option<string>)
      ensures this.name == name && this.proxies == proxies
      ensures this.selection == selection && this.interface == interface
    {
      this.name, this.proxies, this.selection, this.interface := name, proxies, selection, interface;
    }

    /** `set_selection`: the member of that name, or an error that changes nothing. */
    method SetSelection(wanted: string) returns (ok: bool)
      modifies this
      ensures ok <==> FirstNamed(proxies, wanted).Some?
      ensures selection == if ok then FirstNamed(proxies, wanted).value else old(selection)
    {
      for i := 0 to |proxies|
        invariant FirstNamed(proxies, wanted) == FirstNamed(proxies[i..], wanted)
        invariant selection == old(selection)
      {
        assert proxies[i..][1..] == proxies[i + 1..];
        if NameOf(proxies[i]) == wanted {
          selection := proxies[i];
          return true;
        }
      }
      return false;
    }
  }

  /** The first member of the wanted name. */
  function FirstNamed(ms: seq<GeneralProxy>, wanted: string): (r: Option<GeneralProxy>)
    ensures r.Some? <==> exists i :: 0 <= i < |ms| && NameOf(ms[i]) == wanted
    ensures r.Some? ==> r.value in ms && NameOf(r.value) == wanted
  {
    if ms == [] then None
    else if NameOf(ms[0]) == wanted then Some(ms[0])
    else FirstNamed(ms[1..], wanted)
  }

  function NameOf(m: GeneralProxy): string {
    match m
    case Single(p) => p.name
    case Group(g) => g.name
  }

  function NamesOf(ms: seq<GeneralProxy>): (names: seq<string>)
    ensures |names| == |ms|
  {
    if ms == [] then [] else NamesOf(ms[..|ms| - 1]) + [NameOf(ms[|ms| - 1])]
  }

  // ---------------------------------------------------------------- configuration

  /** A provider's filter: absent, a regular expression that does not compile, or one given by the
      names it accepts. */
  datatype Filter = Everything | BadRegex | Accepts(names: set<string>)

  datatype ProviderRef = ProviderRef(name: string, filter: Filter)

  datatype RawGroup = RawGroup(
    proxies: Option<seq<string>>,
    chains: Option<seq<string>>,
    providers: Option<seq<ProviderRef>>,
    interface: Option<string>)

  type Config = map<string, RawGroup>
  type Schema = map<string, seq<string>>

  predicate RoughlyValid(g: RawGroup) { (g.proxies.Some? || g.providers.Some?) != g.chains.Some? }

  function OrEmpty<T>(o: Option<seq<T>>): seq<T> { if o.Some? then o.value else [] }

  function Accepted(names: seq<string>, f: Filter): seq<string> {
    if names == [] then []
    else Accepted(names[..|names| - 1], f)
         + (if f == Everything || (f.Accepts? && names[|names| - 1] in f.names) then [names[|names| - 1]] else [])
  }

  /** The names the providers of a group contribute, in order. */
  function ProvidedNames(ps: seq<ProviderRef>, schema: Schema): seq<string> {
    if ps == [] then []
    else ProvidedNames(ps[..|ps| - 1], schema) + Contribution(ps[|ps| - 1], schema)
  }

  function Contribution(p: ProviderRef, schema: Schema): seq<string> {
    if p.name in schema then Accepted(schema[p.name], p.filter) else []
  }

  function Reversed(s: seq<string>): seq<string> {
    if s == [] then [] else Reversed(s[1..]) + [s[0]]
  }

  /** Everything a declared group or chain refers to, in the order it is stored. */
  function References(g: RawGroup, schema: Schema): seq<string> {
    if g.chains.Some? then Reversed(g.chains.value)
    else OrEmpty(g.proxies) + ProvidedNames(OrEmpty(g.providers), schema)
  }

  predicate ProvidersOk(ps: seq<ProviderRef>, schema: Schema) {
    forall i :: 0 <= i < |ps| ==> ps[i].name in schema && ps[i].filter != BadRegex
  }

  /** What `parse_group` checks of one declaration by itself. */
  predicate WellDeclared(g: RawGroup, schema: Schema) {
    RoughlyValid(g) && (g.chains.None? ==> ProvidersOk(OrEmpty(g.providers), schema))
  }

  /** The names a declaration refers to directly, its providers apart. */
  function DirectReferences(g: RawGroup): seq<string> {
    if g.chains.Some? then Reversed(g.chains.value) else OrEmpty(g.proxies)
  }

  /** Each declaration is well-formed by itself, and `rk` orders them so that every direct reference
      is a plain proxy or a declaration of smaller rank. */
  ghost predicate Ranked(cfg: Config, schema: Schema, base: set<string>, rk: map<string, nat>) {
    forall n :: n in cfg && n !in base ==>
      n in rk && WellDeclared(cfg[n], schema)
      && forall i :: 0 <= i < |DirectReferences(cfg[n])| ==> Precedes(cfg, base, rk, DirectReferences(cfg[n])[i], n)
  }

  ghost predicate Precedes(cfg: Config, base: set<string>, rk: map<string, nat>, p: string, n: string)
    requires n in rk
  {
    p in base || (p in cfg && p in rk && rk[p] < rk[n])
  }

  /** Some declaration refers to `p`, a declared group without members. */
  ghost predicate EmptyAndReferenced(cfg: Config, schema: Schema, base: set<string>, p: string) {
    && p in cfg && p !in base && SkippedEmpty(cfg[p], schema)
    && exists n :: n in cfg && n !in base && p in DirectReferences(cfg[n])
  }

  /** The configurations that can be built: ranked, and no reference to a group without members. */
  ghost predicate Buildable(cfg: Config, schema: Schema, base: set<string>, rk: map<string, nat>) {
    Ranked(cfg, schema, base, rk) && forall p :: !EmptyAndReferenced(cfg, schema, base, p)
  }

  /** Every proxy of every provider has been loaded as a plain proxy. */
  ghost predicate Loaded(schema: Schema, base: set<string>) {
    forall p :: p in schema ==> forall i :: 0 <= i < |schema[p]| ==> schema[p][i] in base
  }

  lemma {:induction false} AcceptedSubset(names: seq<string>, f: Filter, base: set<string>)
    requires forall i :: 0 <= i < |names| ==> names[i] in base
    ensures forall i :: 0 <= i < |Accepted(names, f)| ==> Accepted(names, f)[i] in base
  {
    if names != [] {
      AcceptedSubset(names[..|names| - 1], f, base);
    }
  }

  /** A genuine group that ends up without members. */
  predicate DeclaredEmpty(g: RawGroup, schema: Schema) { g.chains.None? && References(g, schema) == [] }

  /** Such a group is skipped when nothing else is wrong with it. */
  predicate SkippedEmpty(g: RawGroup, schema: Schema) { DeclaredEmpty(g, schema) && WellDeclared(g, schema) }

  // ---------------------------------------------------------------- the tables

  /** `rank` is proof-only: it witnesses that the built reference graph has no cycle. */
  datatype Tables = Tables(proxies: map<string, Proxy>, groups: map<string, ProxyGroup>, rank: map<string, nat>) {
    ghost predicate Has(n: string) { n in proxies || n in groups }
  }

  ghost predicate Known(t: Tables, m: GeneralProxy) {
    match m
    case Single(p) => p.name in t.proxies && t.proxies[p.name] == p
    case Group(g) => g.name in t.groups && t.groups[g.name] == g
  }

  ghost predicate MembersBelow(t: Tables, ms: seq<GeneralProxy>, n: string)
    requires n in t.rank
  {
    forall i :: 0 <= i < |ms| ==>
      Known(t, ms[i]) && NameOf(ms[i]) in t.rank && t.rank[NameOf(ms[i])] < t.rank[n]
  }

  /** Every entry is stored under its own name, refers to registered entries only, and to such of
      strictly smaller rank. */
  ghost predicate Wired(t: Tables) {
    && t.proxies.Keys !! t.groups.Keys
    && t.rank.Keys == t.proxies.Keys + t.groups.Keys
    && (forall n :: n in t.proxies ==> t.proxies[n].name == n)
    && (forall n :: n in t.groups ==> t.groups[n].name == n && t.groups[n].proxies != [])
    && (forall n :: n in t.proxies && t.proxies[n].detail.Chain? ==> MembersBelow(t, t.proxies[n].detail.members, n))
    && (forall n :: n in t.groups ==> MembersBelow(t, t.groups[n].proxies, n))
  }

  /** An entry that came from the configuration mirrors its declaration. */
  ghost predicate Mirrors(t: Tables, cfg: Config, schema: Schema, n: string) {
    n in cfg && WellDeclared(cfg[n], schema)
    && (cfg[n].chains.Some? ==>
          n in t.proxies && t.proxies[n].detail.Chain?
          && NamesOf(t.proxies[n].detail.members) == References(cfg[n], schema))
    && (cfg[n].chains.None? ==>
          n in t.groups && NamesOf(t.groups[n].proxies) == References(cfg[n], schema)
          && t.groups[n].interface == cfg[n].interface)
  }

  /** `base` holds the names of the plain proxies that were there before the groups. */
  ghost predicate AsDeclared(t: Tables, cfg: Config, schema: Schema, base: set<string>) {
    forall n :: t.Has(n) && n !in base ==> Mirrors(t, cfg, schema, n)
  }

  /** `t1` only adds to `t0`, and nothing with a name in `avoid`. */
  ghost predicate Grows(t0: Tables, t1: Tables, avoid: set<string>) {
    && (forall n :: n in t0.proxies ==> n in t1.proxies && t1.proxies[n] == t0.proxies[n])
    && (forall n :: n in t0.groups ==> n in t1.groups && t1.groups[n] == t0.groups[n])
    && (forall n :: n in t0.rank ==> n in t1.rank && t1.rank[n] == t0.rank[n])
    && (forall n :: t1.Has(n) && !t0.Has(n) ==> n !in avoid)
  }

  /** A registered chain or group: the next free rank makes the graph grow acyclically. */
  ghost function NextRank(t: Tables): nat { MaxRank(t.rank, t.rank.Keys) + 1 }

  ghost function MaxRank(rank: map<string, nat>, names: set<string>): (r: nat)
    requires names <= rank.Keys
    ensures forall n :: n in names ==> rank[n] <= r
  {
    if names == {} then 0 else
      var n :| n in names;
      var rest := MaxRank(rank, names - {n});
      if rank[n] > rest then rank[n] else rest
  }

  ghost function WithProxy(t: Tables, n: string, p: Proxy): Tables {
    Tables(t.proxies[n := p], t.groups, t.rank[n := NextRank(t)])
  }

  ghost function WithGroup(t: Tables, n: string, g: ProxyGroup): Tables {
    Tables(t.proxies, t.groups[n := g], t.rank[n := NextRank(t)])
  }

  ghost predicate AllKnown(t: Tables, ms: seq<GeneralProxy>) {
    forall i :: 0 <= i < |ms| ==> Known(t, ms[i])
  }

  lemma MembersStayBelow(t: Tables, t': Tables, ms: seq<GeneralProxy>, n: string)
    requires Grows(t, t', {}) && n in t.rank && MembersBelow(t, ms, n)
    ensures MembersBelow(t', ms, n)
  {
  }

  lemma NewMembersBelow(t: Tables, t': Tables, ms: seq<GeneralProxy>, n: string)
    requires Wired(t) && AllKnown(t, ms) && Grows(t, t', {})
    requires n in t'.rank && t'.rank[n] == NextRank(t)
    ensures MembersBelow(t', ms, n)
  {
    forall i | 0 <= i < |ms|
      ensures Known(t', ms[i]) && NameOf(ms[i]) in t'.rank && t'.rank[NameOf(ms[i])] < t'.rank[n]
    {
      assert Known(t, ms[i]) && NameOf(ms[i]) in t.rank;
    }
  }

  lemma AddChain(t: Tables, n: string, ms: seq<GeneralProxy>)
    requires Wired(t) && !t.Has(n) && AllKnown(t, ms)
    ensures Wired(WithProxy(t, n, Proxy(n, Chain(ms)))) && Grows(t, WithProxy(t, n, Proxy(n, Chain(ms))), {})
  {
    var t' := WithProxy(t, n, Proxy(n, Chain(ms)));
    assert Grows(t, t', {});
    NewMembersBelow(t, t', ms, n);
    OldEntriesStayWired(t, t');
  }

  lemma AddGroup(t: Tables, n: string, g: ProxyGroup)
    requires Wired(t) && !t.Has(n) && AllKnown(t, g.proxies) && g.name == n && g.proxies != []
    ensures Wired(WithGroup(t, n, g)) && Grows(t, WithGroup(t, n, g), {})
  {
    var t' := WithGroup(t, n, g);
    assert Grows(t, t', {});
    NewMembersBelow(t, t', g.proxies, n);
    OldEntriesStayWired(t, t');
  }

  lemma OldEntriesStayWired(t: Tables, t': Tables)
    requires Wired(t) && Grows(t, t', {}) && t.rank.Keys <= t'.rank.Keys
    ensures forall n :: n in t.proxies && t.proxies[n].detail.Chain? ==> MembersBelow(t', t.proxies[n].detail.members, n)
    ensures forall n :: n in t.groups ==> MembersBelow(t', t.groups[n].proxies, n)
  {
    forall n | n in t.proxies && t.proxies[n].detail.Chain?
      ensures MembersBelow(t', t.proxies[n].detail.members, n)
    {
      MembersStayBelow(t, t', t.proxies[n].detail.members, n);
    }
    forall n | n in t.groups ensures MembersBelow(t', t.groups[n].proxies, n) {
      MembersStayBelow(t, t', t.groups[n].proxies, n);
    }
  }

  lemma AddDeclared(t: Tables, t': Tables, cfg: Config, schema: Schema, base: set<string>, added: string)
    requires AsDeclared(t, cfg, schema, base) && Grows(t, t', {})
    requires forall n :: t'.Has(n) ==> t.Has(n) || n == added
    requires Mirrors(t', cfg, schema, added)
    ensures AsDeclared(t', cfg, schema, base)
  {
    forall n | t'.Has(n) && n !in base ensures Mirrors(t', cfg, schema, n) {
      if n != added { assert Mirrors(t, cfg, schema, n); }
    }
  }

  lemma GrowsTwice(t0: Tables, t1: Tables, t2: Tables, avoid: set<string>)
    requires Grows(t0, t1, avoid) && Grows(t1, t2, avoid)
    ensures Grows(t0, t2, avoid)
  {
  }

  lemma GrowsByOne(t0: Tables, t1: Tables, t2: Tables, avoid: set<string>, added: string)
    requires Grows(t0, t1, avoid + {added}) && Grows(t1, t2, {}) && added !in avoid
    requires forall n :: t2.Has(n) <==> t1.Has(n) || n == added
    ensures Grows(t0, t2, avoid)
  {
  }

  lemma {:induction false} NamesAt(ms: seq<GeneralProxy>, i: nat)
    requires i < |ms|
    ensures NamesOf(ms)[i] == NameOf(ms[i])
  {
    if i < |ms| - 1 {
      NamesAt(ms[..|ms| - 1], i);
    }
  }

  lemma NamesSnoc(ms: seq<GeneralProxy>, m: GeneralProxy)
    ensures NamesOf(ms + [m]) == NamesOf(ms) + [NameOf(m)]
  {
    assert (ms + [m])[..|ms|] == ms;
  }

  lemma {:induction false} NamesConcat(ms: seq<GeneralProxy>, more: seq<GeneralProxy>)
    ensures NamesOf(ms + more) == NamesOf(ms) + NamesOf(more)
  {
    if more == [] {
      assert ms + more == ms;
    } else {
      NamesConcat(ms, more[..|more| - 1]);
      assert (ms + more)[..|ms + more| - 1] == ms + more[..|more| - 1];
    }
  }

  /** One more member parsed: what was known stays known while the tables grow. */
  lemma OneMore(t0: Tables, t1: Tables, t2: Tables, avoid: set<string>, ms: seq<GeneralProxy>, m: GeneralProxy)
    requires Grows(t0, t1, avoid) && Grows(t1, t2, avoid)
    requires AllKnown(t1, ms) && Known(t2, m)
    ensures Grows(t0, t2, avoid) && AllKnown(t2, ms + [m]) && NamesOf(ms + [m]) == NamesOf(ms) + [NameOf(m)]
    ensures forall n :: n in avoid && !t1.Has(n) ==> !t2.Has(n)
  {
    NamesSnoc(ms, m);
    assert forall i :: 0 <= i < |ms| ==> Known(t1, ms[i]) && Known(t2, ms[i]);
  }

  lemma PrefixSnoc<T>(s: seq<T>, i: nat)
    requires i < |s|
    ensures s[..i + 1] == s[..i] + [s[i]]
  {
  }

  lemma ProvidedSnoc(ps: seq<ProviderRef>, i: nat, schema: Schema)
    requires i < |ps| && ps[i].name in schema
    ensures ProvidedNames(ps[..i + 1], schema) == ProvidedNames(ps[..i], schema) + Accepted(schema[ps[i].name], ps[i].filter)
  {
    assert ps[..i + 1][..i] == ps[..i];
  }

  lemma ProvidersSnoc(ps: seq<ProviderRef>, i: nat, schema: Schema)
    requires i < |ps| && ps[i].name in schema && ps[i].filter != BadRegex && ProvidersOk(ps[..i], schema)
    ensures ProvidersOk(ps[..i + 1], schema)
  {
    var longer := ps[..i + 1];
    forall j | 0 <= j < |longer| ensures longer[j].name in schema && longer[j].filter != BadRegex {
      if j < i { assert ps[..i][j] == longer[j]; }
    }
  }

  lemma KnownConcat(t: Tables, ms: seq<GeneralProxy>, more: seq<GeneralProxy>)
    requires AllKnown(t, ms) && AllKnown(t, more)
    ensures AllKnown(t, ms + more)
  {
  }

  /** The members the first providers of a group contribute. */
  ghost predicate Gathered(t: Tables, ps: seq<ProviderRef>, schema: Schema, ms: seq<GeneralProxy>) {
    ProvidersOk(ps, schema) && AllKnown(t, ms) && NamesOf(ms) == ProvidedNames(ps, schema)
  }

  lemma GatherMore(t: Tables, ps: seq<ProviderRef>, i: nat, schema: Schema, ms: seq<GeneralProxy>, more: seq<GeneralProxy>)
    requires i < |ps| && ps[i].name in schema && ps[i].filter != BadRegex
    requires Gathered(t, ps[..i], schema, ms)
    requires AllKnown(t, more) && NamesOf(more) == Accepted(schema[ps[i].name], ps[i].filter)
    ensures Gathered(t, ps[..i + 1], schema, ms + more)
  {
    NamesConcat(ms, more);
    KnownConcat(t, ms, more);
    ProvidedSnoc(ps, i, schema);
    ProvidersSnoc(ps, i, schema);
  }

  // ---------------------------------------------------------------- the builder

  datatype BuildError =
    | DuplicateProxy(name: string)
    | Invalid(name: string)
    | UnknownProxyInGroup(group: string, proxy: string)
    | MissingProvider(provider: string)
    | BadFilter(provider: string)

  /** `Panic(n)` is the failed `unwrap` on a referenced name `n` that was not registered. */
  datatype Outcome<+T> = Ok(value: T) | Err(error: BuildError) | Panic(missing: string)

  /** The last member of the wanted name. */
  function LastNamed(ms: seq<GeneralProxy>, wanted: string): (r: Option<GeneralProxy>)
    ensures r.Some? <==> exists i :: 0 <= i < |ms| && NameOf(ms[i]) == wanted
    ensures r.Some? ==> r.value in ms && NameOf(r.value) == wanted
  {
    if ms == [] then None
    else if NameOf(ms[|ms| - 1]) == wanted then Some(ms[|ms| - 1])
    else LastNamed(ms[..|ms| - 1], wanted)
  }

  class DispatchingBuilder {
    const config: Config
    const schema: Schema
    const groupSelection: map<string, string>
    ghost const base: set<string>
    var proxies: map<string, Proxy>
    var groups: map<string, ProxyGroup>
    var queued: set<string>
    ghost var rank: map<string, nat>

    ghost function View(): Tables
      reads this
    {
      Tables(proxies, groups, rank)
    }

    /** The saved choice for a group; an absent one reads as the empty name. */
    function Wanted(n: string): string { if n in groupSelection then groupSelection[n] else "" }

    /** A new group starts on its saved member, else on its first. */
    ghost predicate Selected(g: ProxyGroup)
      reads g
    {
      g.proxies != []
      && g.selection == (var s := LastNamed(g.proxies, Wanted(g.name)); if s.Some? then s.value else g.proxies[0])
    }

    ghost predicate Valid()
      reads this, groups.Values
    {
      && Wired(View())
      && AsDeclared(View(), config, schema, base)
      && base <= proxies.Keys && Loaded(schema, base)
      && (forall n :: n in groups ==> Selected(groups[n]))
    }

    /** `rk` ranks the configuration, and every group under construction is above `name`. */
    ghost predicate Climbing(rk: map<string, nat>, name: string)
      reads this
    {
      && Ranked(config, schema, base, rk)
      && (name !in base ==> name in rk && forall q :: q in queued ==> q in rk && rk[name] < rk[q])
    }

    constructor (config: Config, schema: Schema, groupSelection: map<string, string>, plain: map<string, Proxy>)
      requires forall n :: n in plain ==> plain[n].name == n && plain[n].detail.Leaf?
      requires Loaded(schema, plain.Keys)
      ensures Valid() && queued == {} && proxies == plain && base == plain.Keys
      ensures this.config == config && this.schema == schema && this.groupSelection == groupSelection
    {
      this.config, this.schema, this.groupSelection, this.base := config, schema, groupSelection, plain.Keys;
      proxies, groups, queued, rank := plain, map[], {}, map n | n in plain :: 0;
    }

    /** `parse_group`, called for the declaration of `name`. */
    method ParseGroup(name: string, dupAsError: bool, ghost rk: map<string, nat>) returns (r: Outcome<()>)
      requires Valid() && name in config
      modifies this
      ensures r.Ok? ==> Valid() && queued == old(queued) && Grows(old(View()), View(), queued)
      ensures r.Ok? && dupAsError ==> !old(View()).Has(name) && name !in queued
      ensures !old(View()).Has(name) && name !in old(queued) && SkippedEmpty(config[name], schema) ==>
                r.Ok? && !View().Has(name)
      ensures r.Ok? ==> View().Has(name) || name in queued || SkippedEmpty(config[name], schema)
      ensures old(Climbing(rk, name)) && (dupAsError ==> !old(View()).Has(name)) ==> !r.Err?
      ensures r.Panic? ==> EmptyAndReferenced(config, schema, base, r.missing)
      // which error, and that nothing happens to a name that is there already
      ensures old(View()).Has(name) || name in old(queued) ==>
                r == (if dupAsError then Err(DuplicateProxy(name)) else Ok(())) && View() == old(View())
      ensures !old(View()).Has(name) && name !in old(queued) && !RoughlyValid(config[name]) ==> r == Err(Invalid(name))
      decreases config.Keys - queued, 5
    {
      if name in groups || name in proxies || name in queued {
        return if dupAsError then Err(DuplicateProxy(name)) else Ok(());
      }
      if !RoughlyValid(config[name]) {
        return Err(Invalid(name));
      }
      if config[name].chains.Some? {
        r := ParseChain(name, rk);
      } else {
        r := ParseMembers(name, rk);
      }
    }

    /** `parse_group` on a chain. */
    method ParseChain(name: string, ghost rk: map<string, nat>) returns (r: Outcome<()>)
      requires Valid() && name in config && config[name].chains.Some? && RoughlyValid(config[name])
      requires !View().Has(name) && name !in queued
      modifies this
      ensures old(Climbing(rk, name)) ==> !r.Err?
      ensures r.Ok? ==> Valid() && queued == old(queued) && Grows(old(View()), View(), queued) && View().Has(name)
      // the last declared hop comes first
      ensures r.Ok? ==> ChainReversed(View(), config, name)
      ensures r.Panic? ==> EmptyAndReferenced(config, schema, base, r.missing)
      decreases config.Keys - queued, 4
    {
      var chain := ParseAll(name, Reversed(config[name].chains.value), rk);
      if !chain.Ok? {
        return if chain.Err? then Err(chain.error) else Panic(chain.missing);
      }
      ghost var parsed := View();
      RegisterChain(name, chain.value);
      GrowsByOne(old(View()), parsed, View(), queued, name);
      ChainIsReversed(View(), config, schema, base, name);
      return Ok(());
    }

    /** `parse_group` on a genuine group. */
    method ParseMembers(name: string, ghost rk: map<string, nat>) returns (r: Outcome<()>)
      requires Valid() && name in config && config[name].chains.None? && RoughlyValid(config[name])
      requires !View().Has(name) && name !in queued
      modifies this
      ensures old(Climbing(rk, name)) ==> !r.Err?
      ensures r.Ok? ==> Valid() && queued == old(queued) && Grows(old(View()), View(), queued)
      ensures SkippedEmpty(config[name], schema) ==> r.Ok?
      ensures r.Ok? ==> (View().Has(name) <==> !DeclaredEmpty(config[name], schema)) && WellDeclared(config[name], schema)
      ensures r.Panic? ==> EmptyAndReferenced(config, schema, base, r.missing)
      decreases config.Keys - queued, 4
    {
      var listed := ParseAll(name, OrEmpty(config[name].proxies), rk);
      if !listed.Ok? {
        return if listed.Err? then Err(listed.error) else Panic(listed.missing);
      }
      var provided := Provided(name);
      if !provided.Ok? {
        return Err(provided.error);
      }
      var members := listed.value + provided.value;
      NamesConcat(listed.value, provided.value);
      ghost var parsed := View();
      if members != [] {
        RegisterGroup(name, members);
        GrowsByOne(old(View()), parsed, View(), queued, name);
      }
      return Ok(());
    }

    /** The end of the chain branch of `parse_group`. */
    method RegisterChain(name: string, members: seq<GeneralProxy>)
      requires Valid() && !View().Has(name) && name in config && config[name].chains.Some? && WellDeclared(config[name], schema)
      requires AllKnown(View(), members) && NamesOf(members) == References(config[name], schema)
      modifies this`proxies, this`rank
      ensures Valid() && Grows(old(View()), View(), {}) && View().Has(name)
      ensures forall n :: View().Has(n) <==> old(View()).Has(n) || n == name
    {
      var p := Proxy(name, Chain(members));
      AddChain(View(), name, members);
      AddDeclared(View(), WithProxy(View(), name, p), config, schema, base, name);
      rank := rank[name := NextRank(View())];
      proxies := proxies[name := p];
      assert View() == WithProxy(old(View()), name, p);
    }

    /** The end of `parse_group`: the saved selection if it is a member, else the first member. */
    method RegisterGroup(name: string, members: seq<GeneralProxy>)
      requires Valid() && !View().Has(name) && name in config && config[name].chains.None? && WellDeclared(config[name], schema)
      requires members != [] && AllKnown(View(), members) && NamesOf(members) == References(config[name], schema)
      modifies this`groups, this`rank
      ensures Valid() && Grows(old(View()), View(), {}) && View().Has(name)
      ensures forall n :: View().Has(n) <==> old(View()).Has(n) || n == name
    {
      var saved := LastNamed(members, Wanted(name));
      var g := new ProxyGroup(name, members, if saved.Some? then saved.value else members[0], config[name].interface);
      AddGroup(View(), name, g);
      AddDeclared(View(), WithGroup(View(), name, g), config, schema, base, name);
      rank := rank[name := NextRank(View())];
      groups := groups[name := g];
      assert View() == WithGroup(old(View()), name, g);
    }

    /** The loop over the members of a group, or over the reversed members of a chain. */
    method ParseAll(name: string, refs: seq<string>, ghost rk: map<string, nat>) returns (r: Outcome<seq<GeneralProxy>>)
      requires name in config && refs == DirectReferences(config[name])
      requires Valid() && name in config && !View().Has(name) && name !in queued
      modifies this
      ensures r.Ok? ==> Valid() && queued == old(queued) && Grows(old(View()), View(), queued + {name})
      ensures r.Ok? ==> AllKnown(View(), r.value) && NamesOf(r.value) == refs
      ensures old(Climbing(rk, name)) ==> !r.Err?
      ensures refs == [] ==> r.Ok? && View() == old(View())
      ensures r.Panic? ==> EmptyAndReferenced(config, schema, base, r.missing)
      decreases config.Keys - queued, 3
    {
      r := Ok([]);
      for i := 0 to |refs|
        invariant r.Ok? && Valid() && queued == old(queued) && Grows(old(View()), View(), queued + {name})
        invariant i == 0 ==> View() == old(View())
        invariant AllKnown(View(), r.value) && NamesOf(r.value) == refs[..i]
      {
        PrefixSnoc(refs, i);
        r := ParseNext(name, refs[i], r.value, old(View()), rk);
        if !r.Ok? {
          return;
        }
      }
      assert refs[..|refs|] == refs;
    }

    /** The body of that loop: the member named `p` joins those already parsed since `start`. */
    method ParseNext(name: string, p: string, members: seq<GeneralProxy>, ghost start: Tables, ghost rk: map<string, nat>)
      returns (r: Outcome<seq<GeneralProxy>>)
      requires Valid() && name in config && !View().Has(name) && name !in queued
      requires AllKnown(View(), members) && Grows(start, View(), queued + {name})
      requires p in DirectReferences(config[name])
      modifies this
      ensures r.Ok? ==> Valid() && queued == old(queued) && !View().Has(name) && Grows(start, View(), queued + {name})
      ensures r.Ok? ==> AllKnown(View(), r.value) && NamesOf(r.value) == NamesOf(members) + [p]
      ensures old(Climbing(rk, name)) && name in rk && Precedes(config, base, rk, p, name) ==> !r.Err?
      ensures r.Panic? ==> EmptyAndReferenced(config, schema, base, r.missing)
      decreases config.Keys - queued, 2
    {
      var one := ParseOne(p, name, rk);
      if !one.Ok? {
        return if one.Err? then Err(one.error) else Panic(one.missing);
      }
      OneMore(start, old(View()), View(), queued + {name}, members, one.value);
      return Ok(members + [one.value]);
    }

    /** `parse_one_proxy`.  Its `unwrap` fails on a reference that is neither registered nor under
        construction and whose declaration is a group without members. */
    method ParseOne(p: string, name: string, ghost rk: map<string, nat>) returns (r: Outcome<GeneralProxy>)
      requires Valid() && name in config && !View().Has(name) && name !in queued
      requires p in DirectReferences(config[name])
      modifies this
      ensures r.Ok? ==> Valid() && queued == old(queued) && Grows(old(View()), View(), queued + {name})
      ensures r.Ok? ==> Known(View(), r.value) && NameOf(r.value) == p
      ensures old(Climbing(rk, name)) && name in rk && Precedes(config, base, rk, p, name) ==> !r.Err?
      ensures r.Panic? ==> EmptyAndReferenced(config, schema, base, r.missing)
      ensures p in config && !old(View()).Has(p) && p !in old(queued) + {name} && SkippedEmpty(config[p], schema) ==>
                r == Panic(p)
      ensures old(View()).Has(p) ==> r.Ok? && View() == old(View())
      ensures !old(View()).Has(p) && p !in config ==> r == Err(UnknownProxyInGroup(name, p))
      decreases config.Keys - queued, 1
    {
      if p in proxies {
        return Ok(Single(proxies[p]));
      }
      if p in groups {
        return Ok(Group(groups[p]));
      }
      r := ParseReferenced(p, name, rk);
    }

    /** Its last branch: the referenced declaration is parsed first. */
    method ParseReferenced(p: string, name: string, ghost rk: map<string, nat>) returns (r: Outcome<GeneralProxy>)
      requires Valid() && name in config && !View().Has(name) && name !in queued && !View().Has(p)
      requires p in DirectReferences(config[name])
      modifies this
      ensures r.Ok? ==> Valid() && queued == old(queued) && Grows(old(View()), View(), queued + {name})
      ensures r.Ok? ==> Known(View(), r.value) && NameOf(r.value) == p
      ensures old(Climbing(rk, name)) && name in rk && Precedes(config, base, rk, p, name) ==> !r.Err?
      ensures r.Panic? ==> EmptyAndReferenced(config, schema, base, r.missing)
      ensures p in config && p !in old(queued) + {name} && SkippedEmpty(config[p], schema) ==> r == Panic(p)
      ensures p !in config ==> r == Err(UnknownProxyInGroup(name, p))
      decreases config.Keys - queued, 0
    {
      queued := queued + {name};
      if p !in config {
        return Err(UnknownProxyInGroup(name, p));
      }
      r := ParseDeclared(p, name, rk);
    }

    /** The declaration `p` is parsed and looked up, while `name` is queued. */
    method ParseDeclared(p: string, name: string, ghost rk: map<string, nat>) returns (r: Outcome<GeneralProxy>)
      requires Valid() && name in config && !View().Has(name) && name in queued && !View().Has(p) && p in config
      requires p in DirectReferences(config[name])
      modifies this
      ensures r.Ok? ==> Valid() && queued == old(queued) - {name} && Grows(old(View()), View(), old(queued))
      ensures r.Ok? ==> Known(View(), r.value) && NameOf(r.value) == p
      ensures old(Climbing(rk, p)) ==> !r.Err?
      ensures r.Panic? ==> EmptyAndReferenced(config, schema, base, r.missing)
      ensures p !in old(queued) && SkippedEmpty(config[p], schema) ==> r == Panic(p)
      decreases config.Keys - queued, 6
    {
      var sub := ParseGroup(p, true, rk);
      if !sub.Ok? {
        return if sub.Err? then Err(sub.error) else Panic(sub.missing);
      }
      queued := queued - {name};
      if p in groups {
        return Ok(Group(groups[p]));
      }
      if p in proxies {
        return Ok(Single(proxies[p]));
      }
      return Panic(p);
    }

    /** The members the providers contribute; only plain proxies and chains can be among them. */
    method Provided(name: string) returns (r: Outcome<seq<GeneralProxy>>)
      requires Wired(View()) && name in config && base <= proxies.Keys && Loaded(schema, base)
      ensures r.Ok? ==> AllKnown(View(), r.value)
      ensures r.Ok? <==> ProvidersOk(OrEmpty(config[name].providers), schema)
      ensures r.Ok? ==> NamesOf(r.value) == ProvidedNames(OrEmpty(config[name].providers), schema)
      ensures !r.Panic?
    {
      var refs := OrEmpty(config[name].providers);
      var members: seq<GeneralProxy> := [];
      for i := 0 to |refs|
        invariant Gathered(View(), refs[..i], schema, members)
      {
        var some := OneProvider(name, refs[i]);
        if !some.Ok? {
          return some;
        }
        GatherMore(View(), refs, i, schema, members, some.value);
        members := members + some.value;
      }
      assert refs[..|refs|] == refs;
      return Ok(members);
    }

    /** The proxies one provider contributes to the group `name`. */
    method OneProvider(name: string, p: ProviderRef) returns (r: Outcome<seq<GeneralProxy>>)
      requires Wired(View()) && base <= proxies.Keys && Loaded(schema, base)
      ensures r.Ok? <==> p.name in schema && p.filter != BadRegex
      ensures r.Ok? ==> AllKnown(View(), r.value) && NamesOf(r.value) == Accepted(schema[p.name], p.filter)
      ensures !r.Panic?
      ensures p.filter == BadRegex ==> r == Err(BadFilter(p.name))
      ensures p.filter != BadRegex && p.name !in schema ==> r == Err(MissingProvider(p.name))
    {
      if p.filter == BadRegex {
        return Err(BadFilter(p.name));
      }
      if p.name !in schema {
        return Err(MissingProvider(p.name));
      }
      AcceptedSubset(schema[p.name], p.filter, base);
      r := PickAll(name, Accepted(schema[p.name], p.filter));
    }

    /** Their lookup, one by one. */
    method PickAll(name: string, names: seq<string>) returns (r: Outcome<seq<GeneralProxy>>)
      requires Wired(View())
      ensures r.Ok? ==> AllKnown(View(), r.value) && NamesOf(r.value) == names
      ensures r.Ok? <==> forall i :: 0 <= i < |names| ==> names[i] in proxies
      ensures !r.Panic?
    {
      var members: seq<GeneralProxy> := [];
      for i := 0 to |names|
        invariant AllKnown(View(), members) && NamesOf(members) == names[..i]
        invariant forall j :: 0 <= j < i ==> names[j] in proxies
      {
        if names[i] !in proxies {
          return Err(UnknownProxyInGroup(name, names[i]));
        }
        NamesSnoc(members, Single(proxies[names[i]]));
        members := members + [Single(proxies[names[i]])];
        assert names[..i + 1] == names[..i] + [names[i]];
      }
      assert names[..|names|] == names;
      return Ok(members);
    }

    /** The driver loop of `DispatchingBuilder::new`, in declaration order. */
    method Build(order: seq<string>, ghost rk: map<string, nat>) returns (r: Outcome<()>)
      requires Valid() && queued == {}
      requires forall n :: n in order <==> n in config
      modifies this
      ensures r.Ok? ==> Valid() && queued == {} && Grows(old(View()), View(), {})
      ensures r.Ok? ==> AllCovered(View(), config, schema)
      // every chain and group holds what its declaration lists, chains the other way round
      ensures r.Ok? ==> forall n :: n in config && n !in base && View().Has(n) ==> AsListed(View(), config, n)
      ensures r.Panic? ==> EmptyAndReferenced(config, schema, base, r.missing)
      // a ranked configuration gives no error, and the panic exactly if it refers to an empty group
      ensures Ranked(config, schema, base, rk) ==>
                !r.Err? && (r.Panic? <==> exists p :: EmptyAndReferenced(config, schema, base, p))
      ensures Buildable(config, schema, base, rk) ==> r.Ok?
    {
      r := Ok(());
      for i := 0 to |order|
        invariant r.Ok? && Valid() && queued == {} && Grows(old(View()), View(), {})
        invariant Covered(View(), config, schema, order[..i])
      {
        PrefixSnoc(order, i);
        r := BuildNext(order[i], order[..i], old(View()), rk);
        if !r.Ok? {
          return;
        }
      }
      assert order[..|order|] == order;
      BuiltRefersToNoEmpty(View(), config, schema, base);
      forall n | n in config && n !in base && View().Has(n) ensures AsListed(View(), config, n) {
        BuiltAsListed(View(), config, schema, base, n);
      }
    }

    /** The body of that loop, when the names in `done` have been dealt with since `start`. */
    method BuildNext(name: string, ghost done: seq<string>, ghost start: Tables, ghost rk: map<string, nat>)
      returns (r: Outcome<()>)
      requires Valid() && queued == {} && name in config
      requires Grows(start, View(), {}) && Covered(View(), config, schema, done)
      modifies this
      ensures r.Ok? ==> Valid() && queued == {} && Grows(start, View(), {})
      ensures r.Ok? ==> Covered(View(), config, schema, done + [name])
      ensures Ranked(config, schema, base, rk) ==> !r.Err?
      ensures r.Panic? ==> EmptyAndReferenced(config, schema, base, r.missing)
    {
      r := ParseGroup(name, false, rk);
      if r.Ok? {
        GrowsTwice(start, old(View()), View(), {});
        CoveredGrows(old(View()), View(), config, schema, done, name);
      }
    }
  }

  /** Each of these declared names is registered, or was skipped for having no member. */
  ghost predicate Covered(t: Tables, cfg: Config, schema: Schema, names: seq<string>) {
    forall n :: n in names ==> n in cfg && (t.Has(n) || SkippedEmpty(cfg[n], schema))
  }

  ghost predicate AllCovered(t: Tables, cfg: Config, schema: Schema) {
    forall n :: n in cfg ==> t.Has(n) || SkippedEmpty(cfg[n], schema)
  }

  lemma CoveredGrows(t: Tables, t': Tables, cfg: Config, schema: Schema, names: seq<string>, n: string)
    requires Covered(t, cfg, schema, names) && Grows(t, t', {})
    requires n in cfg && (t'.Has(n) || SkippedEmpty(cfg[n], schema))
    ensures Covered(t', cfg, schema, names + [n])
  {
  }

  // ---------------------------------------------------------------- what a declaration means

  lemma {:induction false} ReversedAt(s: seq<string>, i: nat)
    ensures |Reversed(s)| == |s|
    ensures i < |s| ==> Reversed(s)[i] == s[|s| - 1 - i]
  {
    if s != [] {
      ReversedAt(s[1..], i);
    }
  }

  /** A declaration is a chain or a group, not both and not neither. */
  lemma RoughlyValidMeaning(proxies: seq<string>, chains: seq<string>, providers: seq<ProviderRef>, interface: Option<string>)
    ensures RoughlyValid(RawGroup(Some(proxies), None, None, interface))
    ensures RoughlyValid(RawGroup(None, None, Some(providers), interface))
    ensures RoughlyValid(RawGroup(Some(proxies), None, Some(providers), interface))
    ensures RoughlyValid(RawGroup(None, Some(chains), None, interface))
    ensures !RoughlyValid(RawGroup(None, None, None, interface))
    ensures !RoughlyValid(RawGroup(Some(proxies), Some(chains), None, interface))
    ensures !RoughlyValid(RawGroup(None, Some(chains), Some(providers), interface))
    ensures !RoughlyValid(RawGroup(Some(proxies), Some(chains), Some(providers), interface))
  {
  }

  /** A filter goes through the names one by one, in order, and keeps those it accepts. */
  lemma {:induction false} AcceptedConcat(a: seq<string>, b: seq<string>, f: Filter)
    ensures Accepted(a + b, f) == Accepted(a, f) + Accepted(b, f)
  {
    if b == [] {
      assert a + b == a;
    } else {
      var init, last := b[..|b| - 1], b[|b| - 1];
      AcceptedConcat(a, init, f);
      assert (a + b)[..|a + b| - 1] == a + init && (a + b)[|a + b| - 1] == last;
      Assoc(Accepted(a, f), Accepted(init, f), if f == Everything || (f.Accepts? && last in f.names) then [last] else []);
    }
  }

  lemma AcceptedOne(n: string, names: set<string>)
    ensures Accepted([n], Everything) == [n] && Accepted([n], BadRegex) == []
    ensures Accepted([n], Accepts(names)) == if n in names then [n] else []
  {
    assert [n][..0] == [];
  }

  /** The providers contribute one after the other, each what its filter accepts. */
  lemma {:induction false} ProvidedConcat(a: seq<ProviderRef>, b: seq<ProviderRef>, schema: Schema)
    ensures ProvidedNames(a + b, schema) == ProvidedNames(a, schema) + ProvidedNames(b, schema)
  {
    if b == [] {
      assert a + b == a;
    } else {
      var init, last := b[..|b| - 1], b[|b| - 1];
      ProvidedConcat(a, init, schema);
      assert (a + b)[..|a + b| - 1] == a + init && (a + b)[|a + b| - 1] == last;
      Assoc(ProvidedNames(a, schema), ProvidedNames(init, schema), Contribution(last, schema));
    }
  }

  lemma ProvidedOne(p: ProviderRef, schema: Schema)
    requires p.name in schema
    ensures ProvidedNames([p], schema) == Accepted(schema[p.name], p.filter)
    ensures p.filter == Everything ==> ProvidedNames([p], schema) == schema[p.name]
  {
    assert [p][..0] == [];
    AllAccepted(schema[p.name]);
  }

  lemma {:induction false} AllAccepted(names: seq<string>)
    ensures Accepted(names, Everything) == names
  {
    if names != [] {
      AllAccepted(names[..|names| - 1]);
    }
  }

  /** The chain `n` is registered with the declared members the other way round. */
  ghost predicate ChainReversed(t: Tables, cfg: Config, n: string) {
    && n in cfg && cfg[n].chains.Some? && n in t.proxies && t.proxies[n].detail.Chain?
    && var chains, members := cfg[n].chains.value, t.proxies[n].detail.members;
    && |members| == |chains|
    && forall i :: 0 <= i < |chains| ==> NameOf(members[i]) == chains[|chains| - 1 - i]
  }

  /** The group `n` is registered with the declared members first, and the declared interface. */
  ghost predicate GroupListed(t: Tables, cfg: Config, n: string) {
    && n in cfg && cfg[n].chains.None? && n in t.groups && t.groups[n].interface == cfg[n].interface
    && var listed, members := if cfg[n].proxies.Some? then cfg[n].proxies.value else [], t.groups[n].proxies;
    && |members| >= |listed| && (cfg[n].providers.None? ==> |members| == |listed|)
    && forall i :: 0 <= i < |listed| ==> NameOf(members[i]) == listed[i]
  }

  ghost predicate AsListed(t: Tables, cfg: Config, n: string) { ChainReversed(t, cfg, n) || GroupListed(t, cfg, n) }

  lemma ChainIsReversed(t: Tables, cfg: Config, schema: Schema, base: set<string>, n: string)
    requires AsDeclared(t, cfg, schema, base) && t.Has(n) && n !in base && n in cfg && cfg[n].chains.Some?
    ensures ChainReversed(t, cfg, n)
  {
    assert Mirrors(t, cfg, schema, n);
    var chains, members := cfg[n].chains.value, t.proxies[n].detail.members;
    ReversedAt(chains, 0);
    forall i | 0 <= i < |chains| ensures NameOf(members[i]) == chains[|chains| - 1 - i] {
      ReversedAt(chains, i);
      NamesAt(members, i);
    }
  }

  lemma BuiltAsListed(t: Tables, cfg: Config, schema: Schema, base: set<string>, n: string)
    requires AsDeclared(t, cfg, schema, base) && t.Has(n) && n !in base && n in cfg
    ensures AsListed(t, cfg, n)
  {
    if cfg[n].chains.Some? {
      ChainIsReversed(t, cfg, schema, base, n);
    } else {
      assert Mirrors(t, cfg, schema, n);
      var listed, members := if cfg[n].proxies.Some? then cfg[n].proxies.value else [], t.groups[n].proxies;
      assert NamesOf(members) == listed + ProvidedNames(OrEmpty(cfg[n].providers), schema);
      forall i | 0 <= i < |listed| ensures NameOf(members[i]) == listed[i] {
        NamesAt(members, i);
      }
    }
  }

  /** `FirstNamed` is the first and `LastNamed` the last member of the name. */
  lemma {:induction false} FirstIsFirst(ms: seq<GeneralProxy>, wanted: string, i: nat)
    requires i < |ms| && NameOf(ms[i]) == wanted && forall j :: 0 <= j < i ==> NameOf(ms[j]) != wanted
    ensures FirstNamed(ms, wanted) == Some(ms[i])
  {
    if i > 0 {
      FirstIsFirst(ms[1..], wanted, i - 1);
    }
  }

  lemma {:induction false} LastIsLast(ms: seq<GeneralProxy>, wanted: string, i: nat)
    requires i < |ms| && NameOf(ms[i]) == wanted && forall j :: i < j < |ms| ==> NameOf(ms[j]) != wanted
    ensures LastNamed(ms, wanted) == Some(ms[i])
  {
    if i < |ms| - 1 {
      LastIsLast(ms[..|ms| - 1], wanted, i);
    }
  }

  /** Where a group starts: on the last member of the saved name, if there is one; without a saved
      name, and without a member of the empty name, on its first member. */
  lemma GroupStartsOn(b: DispatchingBuilder, n: string, i: nat)
    requires b.Valid() && n in b.groups
    ensures var g := b.groups[n];
            && (i < |g.proxies| && n in b.groupSelection && NameOf(g.proxies[i]) == b.groupSelection[n]
                && (forall j :: i < j < |g.proxies| ==> NameOf(g.proxies[j]) != b.groupSelection[n]) ==>
                  g.selection == g.proxies[i])
            && (n in b.groupSelection && (forall j :: 0 <= j < |g.proxies| ==> NameOf(g.proxies[j]) != b.groupSelection[n]) ==>
                  g.selection == g.proxies[0])
            && (n !in b.groupSelection && (forall j :: 0 <= j < |g.proxies| ==> NameOf(g.proxies[j]) != "") ==>
                  g.selection == g.proxies[0])
  {
    var g := b.groups[n];
    assert b.Selected(g) && g.name == n;
    if i < |g.proxies| && n in b.groupSelection && NameOf(g.proxies[i]) == b.groupSelection[n]
       && forall j :: i < j < |g.proxies| ==> NameOf(g.proxies[j]) != b.groupSelection[n] {
      LastIsLast(g.proxies, b.groupSelection[n], i);
    }
  }

  // ---------------------------------------------------------------- no declared cycle

  /** `a` is a declared group or chain, not shadowed by a plain proxy, that refers to `b`. */
  predicate DeclaredEdge(cfg: Config, schema: Schema, base: set<string>, a: string, b: string) {
    a in cfg && a !in base && b in References(cfg[a], schema)
  }

  ghost predicate DeclaredPath(cfg: Config, schema: Schema, base: set<string>, path: seq<string>) {
    forall i :: 0 <= i < |path| - 1 ==> DeclaredEdge(cfg, schema, base, path[i], path[i + 1])
  }

  /** The order a successful build leaves behind, with the skipped groups at the bottom. */
  ghost function BuiltOrder(t: Tables, cfg: Config): map<string, nat> {
    map n | n in t.rank.Keys + cfg.Keys :: if n in t.rank then t.rank[n] else 0
  }

  /** `Build` succeeds on buildable configurations only: its own order is the witness.  Together
      with the contract of `Build` this makes buildability the exact condition of success. */
  lemma BuiltIsBuildable(t: Tables, cfg: Config, schema: Schema, base: set<string>)
    requires Wired(t) && AsDeclared(t, cfg, schema, base) && AllCovered(t, cfg, schema)
    requires forall n :: t.Has(n) && n !in base ==> n in cfg
    ensures Buildable(cfg, schema, base, BuiltOrder(t, cfg))
  {
    var rk := BuiltOrder(t, cfg);
    forall n, i | n in cfg && n !in base && 0 <= i < |DirectReferences(cfg[n])|
      ensures Precedes(cfg, base, rk, DirectReferences(cfg[n])[i], n)
    {
      var p := DirectReferences(cfg[n])[i];
      assert References(cfg[n], schema)[i] == p;
      assert DeclaredEdge(cfg, schema, base, n, p);
      EdgeFalls(t, cfg, schema, base, n, p);
      if p !in base { assert Mirrors(t, cfg, schema, p); }
    }
    forall n | n in cfg && n !in base ensures WellDeclared(cfg[n], schema) {
      if t.Has(n) { assert Mirrors(t, cfg, schema, n); }
    }
    BuiltRefersToNoEmpty(t, cfg, schema, base);
  }

  /** A successful build met no reference to a group without members. */
  lemma BuiltRefersToNoEmpty(t: Tables, cfg: Config, schema: Schema, base: set<string>)
    requires Wired(t) && AsDeclared(t, cfg, schema, base) && AllCovered(t, cfg, schema)
    ensures forall p :: !EmptyAndReferenced(cfg, schema, base, p)
  {
    forall p, n | p in cfg && p !in base && n in cfg && n !in base && p in DirectReferences(cfg[n])
      ensures !SkippedEmpty(cfg[p], schema)
    {
      ReferenceIsEdge(cfg[n], schema, p);
      EdgeFalls(t, cfg, schema, base, n, p);
      assert Mirrors(t, cfg, schema, p);
    }
  }

  /** The smallest configuration whose build panics: a group whose one member is a group without
      members.  It is ranked, so nothing else is wrong with it. */
  lemma EmptyReferenceInput()
    ensures var cfg: Config := map["empty" := RawGroup(Some([]), None, None, None), "outer" := RawGroup(Some(["empty"]), None, None, None)];
            && Ranked(cfg, map[], {}, map["empty" := 0, "outer" := 1])
            && EmptyAndReferenced(cfg, map[], {}, "empty")
  {
    var empty, outer := RawGroup(Some([]), None, None, None), RawGroup(Some(["empty"]), None, None, None);
    var cfg: Config := map["empty" := empty, "outer" := outer];
    assert DirectReferences(cfg["outer"]) == ["empty"] && "empty" in DirectReferences(cfg["outer"]);
    assert References(empty, map[]) == [];
  }

  lemma ReferenceIsEdge(g: RawGroup, schema: Schema, p: string)
    requires p in DirectReferences(g)
    ensures p in References(g, schema)
  {
    var i :| 0 <= i < |DirectReferences(g)| && DirectReferences(g)[i] == p;
    assert References(g, schema)[i] == p;
  }

  lemma EdgeFalls(t: Tables, cfg: Config, schema: Schema, base: set<string>, a: string, b: string)
    requires Wired(t) && AsDeclared(t, cfg, schema, base)
    requires AllCovered(t, cfg, schema)
    requires DeclaredEdge(cfg, schema, base, a, b)
    ensures a in t.rank && b in t.rank && t.rank[b] < t.rank[a]
  {
    if cfg[a].chains.Some? { assert t.Has(a); }
    assert t.Has(a) && Mirrors(t, cfg, schema, a);
    var ms := if cfg[a].chains.Some? then t.proxies[a].detail.members else t.groups[a].proxies;
    var i :| 0 <= i < |ms| && NamesOf(ms)[i] == b;
    NamesAt(ms, i);
    assert MembersBelow(t, ms, a);
  }

  /** What a successful `Build` establishes excludes every declared cycle: along any declared
      path the rank strictly falls, so no path returns to its start. */
  lemma {:induction false} NoDeclaredCycle(t: Tables, cfg: Config, schema: Schema, base: set<string>, path: seq<string>)
    requires Wired(t) && AsDeclared(t, cfg, schema, base)
    requires AllCovered(t, cfg, schema)
    requires |path| >= 2 && DeclaredPath(cfg, schema, base, path)
    ensures path[0] in t.rank && path[|path| - 1] in t.rank
    ensures t.rank[path[|path| - 1]] < t.rank[path[0]]
    ensures path[0] != path[|path| - 1]
  {
    EdgeFalls(t, cfg, schema, base, path[0], path[1]);
    if |path| > 2 {
      RestOfPath(cfg, schema, base, path);
      NoDeclaredCycle(t, cfg, schema, base, path[1..]);
    }
  }

  lemma RestOfPath(cfg: Config, schema: Schema, base: set<string>, path: seq<string>)
    requires |path| > 2 && DeclaredPath(cfg, schema, base, path)
    ensures DeclaredPath(cfg, schema, base, path[1..])
  {
    var rest := path[1..];
    forall i | 0 <= i < |rest| - 1 ensures DeclaredEdge(cfg, schema, base, rest[i], rest[i + 1]) {
      assert DeclaredEdge(cfg, schema, base, path[i + 1], path[i + 1 + 1]);
    }
  }

  // ---------------------------------------------------------------- the selection walk

  /** Every group currently points at one of its own members. */
  ghost predicate SelectionsOk(t: Tables)
    reads t.groups.Values
  {
    forall n :: n in t.groups ==> t.groups[n].selection in t.groups[n].proxies
  }

  ghost predicate Walkable(t: Tables, m: GeneralProxy)
    reads t.groups.Values
  {
    Wired(t) && SelectionsOk(t) && Known(t, m)
  }

  /** A valid builder hands out groups whose selection can be walked. */
  lemma BuiltIsWalkable(b: DispatchingBuilder, n: string)
    requires b.Valid() && n in b.groups
    ensures Walkable(b.View(), Group(b.groups[n]))
  {
    forall k | k in b.groups ensures b.groups[k].selection in b.groups[k].proxies {
      assert b.Selected(b.groups[k]);
    }
  }

  /** One hop of the walk goes to a registered entry of smaller rank. */
  lemma SelectionFalls(t: Tables, g: ProxyGroup)
    requires Walkable(t, Group(g))
    ensures Walkable(t, g.selection)
    ensures NameOf(g.selection) in t.rank && t.rank[NameOf(g.selection)] < t.rank[g.name]
  {
    assert MembersBelow(t, g.proxies, g.name);
  }

  /** `ProxyGroup::get_proxy` */
  function GetProxy(g: ProxyGroup, ghost t: Tables): Proxy
    requires Walkable(t, Group(g))
    reads t.groups.Values
    decreases t.rank[g.name]
  {
    SelectionFalls(t, g);
    match g.selection
    case Single(p) => p
    case Group(h) => GetProxy(h, t)
  }

  /** `ProxyGroup::get_proxy_and_interface` */
  function GetProxyAndInterface(g: ProxyGroup, ghost t: Tables): (Proxy, Option<string>)
    requires Walkable(t, Group(g))
    reads t.groups.Values
    decreases t.rank[g.name]
  {
    SelectionFalls(t, g);
    match g.selection
    case Single(p) => (p, g.interface)
    case Group(h) => GetProxyAndInterface(h, t)
  }

  /** `GeneralProxy::selected_instance_name` */
  function SelectedInstanceName(m: GeneralProxy, ghost t: Tables): string
    requires Walkable(t, m)
    reads t.groups.Values
    decreases if m.Group? then t.rank[m.g.name] + 1 else 0
  {
    match m
    case Single(p) => p.name
    case Group(g) => SelectionFalls(t, g); SelectedInstanceName(g.selection, t)
  }

  /** `GeneralProxy::get_impl` */
  function GetImpl(m: GeneralProxy, ghost t: Tables): (ProxyImpl, Option<string>)
    requires Walkable(t, m)
    reads t.groups.Values
  {
    match m
    case Single(p) => (p.detail, None)
    case Group(g) => var (p, iface) := GetProxyAndInterface(g, t); (p.detail, iface)
  }

  /** The groups the walk visits. */
  ghost function SelectionPath(g: ProxyGroup, t: Tables): seq<ProxyGroup>
    requires Walkable(t, Group(g))
    reads t.groups.Values
    decreases t.rank[g.name]
  {
    SelectionFalls(t, g);
    match g.selection
    case Single(p) => [g]
    case Group(h) => [g] + SelectionPath(h, t)
  }

  /** All walks end at the same registered leaf, and the interface is that of the innermost group
      on the path. */
  lemma {:induction false} WalksAgree(g: ProxyGroup, t: Tables)
    requires Walkable(t, Group(g))
    ensures var path := SelectionPath(g, t);
            && path != [] && path[0] == g
            && path[|path| - 1].selection == Single(GetProxy(g, t))
            && GetProxyAndInterface(g, t) == (GetProxy(g, t), path[|path| - 1].interface)
            && SelectedInstanceName(Group(g), t) == GetProxy(g, t).name
            && GetImpl(Group(g), t) == (GetProxy(g, t).detail, path[|path| - 1].interface)
            && Known(t, Single(GetProxy(g, t)))
    decreases t.rank[g.name]
  {
    SelectionFalls(t, g);
    match g.selection
    case Single(p) =>
    case Group(h) => WalksAgree(h, t);
  }

  /** Each group on the path is the selection of the one before it. */
  lemma {:induction false} PathFollowsSelections(g: ProxyGroup, t: Tables)
    requires Walkable(t, Group(g))
    ensures var path := SelectionPath(g, t);
            && 1 <= |path| <= t.rank[g.name] + 1 && path[0] == g
            && (forall i :: 0 < i < |path| ==> path[i - 1].selection == Group(path[i]))
    decreases t.rank[g.name]
  {
    SelectionFalls(t, g);
    match g.selection
    case Single(p) =>
    case Group(h) => PathFollowsSelections(h, t);
  }

  /** No group is visited twice. */
  lemma {:induction false} PathHasNoRepeats(g: ProxyGroup, t: Tables)
    requires Walkable(t, Group(g))
    ensures forall h :: h in SelectionPath(g, t) ==> Known(t, Group(h)) && h.name in t.rank && t.rank[h.name] <= t.rank[g.name]
    ensures forall i, j :: 0 <= i < j < |SelectionPath(g, t)| ==> SelectionPath(g, t)[i] != SelectionPath(g, t)[j]
    decreases t.rank[g.name]
  {
    SelectionFalls(t, g);
    match g.selection
    case Single(p) =>
    case Group(h) =>
      PathHasNoRepeats(h, t);
      assert g !in SelectionPath(h, t);
  }

  ghost predicate Selectable(groups: map<string, ProxyGroup>, group: string, member: string) {
    group in groups && exists i :: 0 <= i < |groups[group].proxies| && NameOf(groups[group].proxies[i]) == member
  }

  /** What the requests leave a group on that was on `first`: the choice of the last request that
      names it and one of its members. */
  function LastChoice(groups: map<string, ProxyGroup>, requests: seq<(string, string)>, g: ProxyGroup, first: GeneralProxy): GeneralProxy {
    if requests == [] then first
    else
      var (group, member) := requests[|requests| - 1];
      if group in groups && groups[group] == g && FirstNamed(g.proxies, member).Some? then FirstNamed(g.proxies, member).value
      else LastChoice(groups, requests[..|requests| - 1], g, first)
  }

  /** `Dispatching::set_group_selection` */
  method SetGroupSelection(ghost t: Tables, groups: map<string, ProxyGroup>, group: string, member: string)
    returns (ok: bool)
    requires groups == t.groups && SelectionsOk(t)
    modifies groups.Values
    ensures SelectionsOk(t)
    ensures ok <==> Selectable(groups, group, member)
    ensures ok ==> NameOf(groups[group].selection) == member
    ensures forall n :: n in groups && (!ok || groups[n] != groups[group]) ==> groups[n].selection == old(groups[n].selection)
    ensures forall n :: n in groups ==> groups[n].selection == LastChoice(groups, [(group, member)], groups[n], old(groups[n].selection))
  {
    if group !in groups {
      return false;
    }
    ok := groups[group].SetSelection(member);
  }

  lemma LastChoiceSnoc(groups: map<string, ProxyGroup>, requests: seq<(string, string)>, i: nat, g: ProxyGroup, first: GeneralProxy)
    requires i < |requests|
    ensures LastChoice(groups, requests[..i + 1], g, first)
         == LastChoice(groups, [(requests[i].0, requests[i].1)], g, LastChoice(groups, requests[..i], g, first))
  {
    assert requests[..i + 1][..i] == requests[..i];
  }

  /** Any number of selection requests: each succeeds exactly when it names a member of a
      registered group, every group still points at one of its members, and it is the one chosen
      by the last request that names one. */
  method RunSelections(ghost t: Tables, groups: map<string, ProxyGroup>, requests: seq<(string, string)>)
    returns (results: seq<bool>)
    requires groups == t.groups && SelectionsOk(t)
    modifies groups.Values
    ensures SelectionsOk(t)
    ensures |results| == |requests|
    ensures forall i :: 0 <= i < |requests| ==> (results[i] <==> Selectable(groups, requests[i].0, requests[i].1))
    ensures forall n :: n in groups ==> groups[n].selection == LastChoice(groups, requests, groups[n], old(groups[n].selection))
  {
    results := [];
    for i := 0 to |requests|
      invariant SelectionsOk(t) && |results| == i
      invariant forall k :: 0 <= k < i ==> (results[k] <==> Selectable(groups, requests[k].0, requests[k].1))
      invariant forall n :: n in groups ==> groups[n].selection == LastChoice(groups, requests[..i], groups[n], old(groups[n].selection))
    {
      forall n | n in groups
        ensures LastChoice(groups, requests[..i + 1], groups[n], old(groups[n].selection))
             == LastChoice(groups, [(requests[i].0, requests[i].1)], groups[n], groups[n].selection)
      {
        LastChoiceSnoc(groups, requests, i, groups[n], old(groups[n].selection));
      }
      var ok := SetGroupSelection(t, groups, requests[i].0, requests[i].1);
      results := results + [ok];
    }
    assert requests[..|requests|] == requests;
  }
}
