/**
 Loading a configuration into the bus: what the numbered entries of a dictionary
 describe, and what the loader does with it, kept variable by variable. In
 particular the proxy id is not reset for a proxy that already exists.
 */
module LoadConfig {
  import opened Options
  import opened Numerals
  import opened ConfigMaps
  import opened MessageBuses
  import opened Routing

  // ----------------------------------------------------- what a dictionary describes

  datatype Section = Section(name: string, config: ProxyConfig, connections: seq<ConnectionConfig>)

  function ProxyKey(n: nat): string {
    "proxy-" + Decimal(n)
  }

  function ConnectionKey(name: string, n: nat): string {
    name + "-connection-" + Decimal(n)
  }

  function ConnectionKeys(name: string): nat -> string {
    (i: nat) => ConnectionKey(name, i)
  }

  function ConnectionProperty(name: string, remoteAddr: int, property: string): string {
    name + "-" + SignedDecimal(remoteAddr) + "-" + property
  }

  lemma KeysAreDistinct(m: nat, n: nat, name: string)
    ensures ProxyKey(m) == ProxyKey(n) <==> m == n
    ensures ConnectionKey(name, m) == ConnectionKey(name, n) <==> m == n
  {
    DecimalInjective(m, n);
    assert ProxyKey(m)[6..] == Decimal(m) && ProxyKey(n)[6..] == Decimal(n);
    var stem := name + "-connection-";
    assert ConnectionKey(name, m)[|stem|..] == Decimal(m) && ConnectionKey(name, n)[|stem|..] == Decimal(n);
  }

  type Config = map<string, string>

  /** A property that the loader reads without a check; see `Complete`. */
  function Value(cfg: Config, key: string): string {
    if key in cfg then cfg[key] else ""
  }

  function Number(cfg: Config, key: string): int {
    Strtol(Value(cfg, key))
  }

  function ProxyConfigOf(cfg: Config, name: string): ProxyConfig {
    ProxyConfig(ToShort(Number(cfg, name + "-address")), ToUnsignedChar(Number(cfg, name + "-is-master")))
  }

  /** The address as written selects the keys; the stored address is its 16-bit form. */
  function RemoteAddr(cfg: Config, name: string, n: nat): int {
    ToInt(Number(cfg, ConnectionKey(name, n)))
  }

  function ConnectionConfigOf(cfg: Config, name: string, n: nat): ConnectionConfig {
    var r := RemoteAddr(cfg, name, n);
    ConnectionConfig(
      ToShort(r),
      Value(cfg, ConnectionProperty(name, r, "phys-port")),
      Number(cfg, ConnectionProperty(name, r, "timeout-app")),
      Number(cfg, ConnectionProperty(name, r, "timeout-link")),
      ToUnsignedLong(Number(cfg, ConnectionProperty(name, r, "frag-size"))),
      ToUnsignedLong(Number(cfg, ConnectionProperty(name, r, "retries"))),
      ToUnsignedChar(Number(cfg, ConnectionProperty(name, r, "use-confirms"))))
  }

  /**
   The address of a proxy and the remote address of a connection are stored as the
   number read from the file exactly when that fits 16 signed bits, which station
   addresses need not; and as the decimal number written there exactly when moreover
   no leading zero makes it octal.
   */
  lemma AddressesAreKeptExactly(cfg: Config, name: string, n: nat)
    ensures AddressKept(ConnectionConfigOf(cfg, name, n).remoteAddr, Value(cfg, ConnectionKey(name, n)))
    ensures AddressKept(ProxyConfigOf(cfg, name).localAddr, Value(cfg, name + "-address"))
  {
    hide Strtol, ToInt, ToShort, Denoted, ReadAsDecimal;
    var remote, local := Value(cfg, ConnectionKey(name, n)), Value(cfg, name + "-address");
    NarrowExactly(Strtol(remote));
    NarrowExactly(Strtol(local));
    if IsNumeral(remote) {
      NarrowNumeralExactly(remote);
    }
    if IsNumeral(local) {
      NarrowNumeralExactly(local);
    }
  }

  /** When a stored address is the one that the text gives. */
  predicate AddressKept(stored: int, text: string) {
    && (stored == Strtol(text) <==> -0x8000 <= Strtol(text) < 0x8000)
    && (IsNumeral(text) ==> (stored == Denoted(text) <==> -0x8000 <= Denoted(text) < 0x8000 && ReadAsDecimal(text)))
  }

  /** The keys that a numbered loop has not used yet; every pass uses another one. */
  ghost function Unused(cfg: Config, key: nat -> string, n: nat): set<string> {
    set k | k in cfg && !UsedBefore(key, n, k)
  }

  ghost predicate UsedBefore(key: nat -> string, n: nat, k: string) {
    exists m: nat :: m < n && k == key(m)
  }

  lemma UnusedShrinks(cfg: Config, key: nat -> string, n: nat)
    requires key(n) in cfg && forall m: nat | m < n :: key(m) != key(n)
    ensures |Unused(cfg, key, n + 1)| < |Unused(cfg, key, n)|
  {
    assert n < n + 1 && UsedBefore(key, n + 1, key(n));
    assert !UsedBefore(key, n, key(n));
    forall k | UsedBefore(key, n, k)
      ensures UsedBefore(key, n + 1, k)
    {
      var m: nat :| m < n && k == key(m);
      assert m < n + 1;
    }
    assert key(n) in Unused(cfg, key, n) && key(n) !in Unused(cfg, key, n + 1);
    assert Unused(cfg, key, n + 1) <= Unused(cfg, key, n);
    SmallerSet(Unused(cfg, key, n + 1), Unused(cfg, key, n));
  }

  lemma SmallerSet(a: set<string>, b: set<string>)
    requires a < b
    ensures |a| < |b|
  {
    assert b == a + (b - a);
  }

  lemma ConnectionKeyUnused(cfg: Config, name: string, n: nat)
    requires ConnectionKey(name, n) in cfg
    ensures |Unused(cfg, ConnectionKeys(name), n + 1)| < |Unused(cfg, ConnectionKeys(name), n)|
  {
    forall m: nat | m < n
      ensures ConnectionKey(name, m) != ConnectionKey(name, n)
    {
      KeysAreDistinct(m, n, name);
    }
    UnusedShrinks(cfg, ConnectionKeys(name), n);
  }

  lemma ProxyKeyUnused(cfg: Config, n: nat)
    requires ProxyKey(n) in cfg
    ensures |Unused(cfg, ProxyKey, n + 1)| < |Unused(cfg, ProxyKey, n)|
  {
    forall m: nat | m < n
      ensures ProxyKey(m) != ProxyKey(n)
    {
      KeysAreDistinct(m, n, "");
    }
    UnusedShrinks(cfg, ProxyKey, n);
  }

  /** The connections of a proxy, from number `n` up to the first number that is missing. */
  ghost function ConnectionsFrom(cfg: Config, name: string, n: nat): seq<ConnectionConfig>
    decreases |Unused(cfg, ConnectionKeys(name), n)|
  {
    if ConnectionKey(name, n) !in cfg then []
    else
      ConnectionKeyUnused(cfg, name, n);
      [ConnectionConfigOf(cfg, name, n)] + ConnectionsFrom(cfg, name, n + 1)
  }

  ghost function SectionOf(cfg: Config, n: nat): Section {
    var name := Value(cfg, ProxyKey(n));
    Section(name, ProxyConfigOf(cfg, name), ConnectionsFrom(cfg, name, 0))
  }

  ghost function SectionsFrom(cfg: Config, n: nat): seq<Section>
    decreases |Unused(cfg, ProxyKey, n)|
  {
    if ProxyKey(n) !in cfg then []
    else
      ProxyKeyUnused(cfg, n);
      [SectionOf(cfg, n)] + SectionsFrom(cfg, n + 1)
  }

  /** The properties read without a null check are there for every connection that is reached ... */
  ghost predicate ConnectionsComplete(cfg: Config, name: string, n: nat)
    decreases |Unused(cfg, ConnectionKeys(name), n)|
  {
    if ConnectionKey(name, n) !in cfg then true
    else
      ConnectionKeyUnused(cfg, name, n);
      ConnectionComplete(cfg, name, n) && ConnectionsComplete(cfg, name, n + 1)
  }

  predicate ConnectionComplete(cfg: Config, name: string, n: nat) {
    var r := RemoteAddr(cfg, name, n);
    && ConnectionProperty(name, r, "phys-port") in cfg
    && ConnectionProperty(name, r, "timeout-app") in cfg
    && ConnectionProperty(name, r, "timeout-link") in cfg
    && ConnectionProperty(name, r, "frag-size") in cfg
    && ConnectionProperty(name, r, "retries") in cfg
    && ConnectionProperty(name, r, "use-confirms") in cfg
  }

  /** ... and for every proxy that is reached. */
  ghost predicate Complete(cfg: Config, n: nat)
    decreases |Unused(cfg, ProxyKey, n)|
  {
    if ProxyKey(n) !in cfg then true
    else
      ProxyKeyUnused(cfg, n);
      var name := cfg[ProxyKey(n)];
      && name + "-address" in cfg && name + "-is-master" in cfg
      && ConnectionsComplete(cfg, name, 0)
      && Complete(cfg, n + 1)
  }

  // -------------------------------------------------------------------- the loader

  /** The variables of the loader that outlive a turn: the bus, the last new proxy, and what was created. */
  datatype LoadState = LoadState(bus: BusView, proxyId: int, newProxies: seq<int>, newConnections: seq<int>)

  function Fresh(bus: BusView): LoadState {
    LoadState(bus, NONE, [], [])
  }

  predicate HasProxy(bus: BusView, name: string) {
    exists i | 0 <= i < |bus.proxies| :: bus.proxies[i].name == name
  }

  /** One connection entry: skipped when the route exists, lost when there is no proxy id. */
  function AddConnection(st: LoadState, src: int, c: ConnectionConfig): LoadState {
    if Routable(st.bus, src, c.remoteAddr) || st.proxyId == NONE then st
    else st.(bus := st.bus.(connections := st.bus.connections + [ConnectionView(st.proxyId, c)]),
             newConnections := st.newConnections + [|st.bus.connections|])
  }

  function AddConnections(st: LoadState, src: int, cs: seq<ConnectionConfig>): LoadState
    decreases |cs|
  {
    if cs == [] then st else AddConnections(AddConnection(st, src, cs[0]), src, cs[1..])
  }

  /** The proxy id changes only when the proxy is created. */
  function EnterProxy(st: LoadState, s: Section): LoadState {
    if HasProxy(st.bus, s.name) then st
    else LoadState(st.bus.(proxies := st.bus.proxies + [ProxyView(s.name, s.config)]),
                   |st.bus.proxies|, st.newProxies + [|st.bus.proxies|], st.newConnections)
  }

  function Turn(st: LoadState, s: Section): LoadState {
    AddConnections(EnterProxy(st, s), s.config.localAddr, s.connections)
  }

  function Load(st: LoadState, sections: seq<Section>): LoadState
    decreases |sections|
  {
    if sections == [] then st else Load(Turn(st, sections[0]), sections[1..])
  }

  // -------------------------------------------------------------------- idempotence

  lemma {:induction false} NoIdNoChange(st: LoadState, src: int, cs: seq<ConnectionConfig>)
    requires st.proxyId == NONE
    ensures AddConnections(st, src, cs) == st
    decreases |cs|
  {
    if cs != [] {
      NoIdNoChange(st, src, cs[1..]);
    }
  }

  /** When every listed proxy exists, the id is never set, and so nothing is created at all. */
  lemma {:induction false} KnownProxiesNoChange(st: LoadState, sections: seq<Section>)
    requires st.proxyId == NONE && forall s | s in sections :: HasProxy(st.bus, s.name)
    ensures Load(st, sections) == st
    decreases |sections|
  {
    if sections != [] {
      assert sections[0] in sections;
      NoIdNoChange(st, sections[0].config.localAddr, sections[0].connections);
      KnownProxiesNoChange(st, sections[1..]);
    }
  }

  /** Loading only ever appends. */
  predicate Extends(bus: BusView, more: BusView) {
    bus.proxies <= more.proxies && bus.connections <= more.connections
  }

  lemma {:induction false} AddConnectionsAppends(st: LoadState, src: int, cs: seq<ConnectionConfig>)
    ensures var r := AddConnections(st, src, cs);
            Extends(st.bus, r.bus) && r.bus.proxies == st.bus.proxies && r.proxyId == st.proxyId
    decreases |cs|
  {
    if cs != [] {
      AddConnectionsAppends(AddConnection(st, src, cs[0]), src, cs[1..]);
    }
  }

  lemma TurnAppends(st: LoadState, s: Section)
    ensures Extends(st.bus, Turn(st, s).bus) && HasProxy(Turn(st, s).bus, s.name)
  {
    var entered := EnterProxy(st, s);
    AddConnectionsAppends(entered, s.config.localAddr, s.connections);
    if !HasProxy(st.bus, s.name) {
      assert entered.bus.proxies[|st.bus.proxies|].name == s.name;
    }
  }

  lemma {:induction false} LoadAppends(st: LoadState, sections: seq<Section>)
    ensures Extends(st.bus, Load(st, sections).bus)
    ensures forall s | s in sections :: HasProxy(Load(st, sections).bus, s.name)
    decreases |sections|
  {
    if sections != [] {
      var next := Turn(st, sections[0]);
      TurnAppends(st, sections[0]);
      LoadAppends(next, sections[1..]);
      var last := Load(st, sections).bus;
      forall s | s in sections
        ensures HasProxy(last, s.name)
      {
        if s == sections[0] {
          var i :| 0 <= i < |next.bus.proxies| && next.bus.proxies[i].name == s.name;
          assert last.proxies[i].name == s.name;
        } else {
          assert s in sections[1..];
        }
      }
    }
  }

  /** Loading the same file again, on any bus, creates nothing and changes nothing. */
  lemma LoadTwice(bus: BusView, sections: seq<Section>)
    ensures var once := Load(Fresh(bus), sections).bus;
            Load(Fresh(once), sections) == Fresh(once)
  {
    LoadAppends(Fresh(bus), sections);
    KnownProxiesNoChange(Fresh(Load(Fresh(bus), sections).bus), sections);
  }

  // --------------------------------------------------------------- what is reported

  /** The ids in `after` are those in `before` and then the numbers from `lo` up to `hi`. */
  predicate Reported(before: seq<int>, after: seq<int>, lo: nat, hi: nat) {
    && lo <= hi && |after| == |before| + (hi - lo) && before <= after
    && forall j | |before| <= j < |after| :: after[j] == lo + (j - |before|)
  }

  lemma {:induction false} AddConnectionsReports(st: LoadState, src: int, cs: seq<ConnectionConfig>)
    ensures var r := AddConnections(st, src, cs);
            && Reported(st.newConnections, r.newConnections, |st.bus.connections|, |r.bus.connections|)
            && r.newProxies == st.newProxies && r.bus.proxies == st.bus.proxies
    decreases |cs|
  {
    if cs != [] {
      var next := AddConnection(st, src, cs[0]);
      AddConnectionsReports(next, src, cs[1..]);
      if next != st {
        var r := AddConnections(st, src, cs);
        assert r.newConnections[|st.newConnections|] == next.newConnections[|st.newConnections|];
      }
    }
  }

  lemma {:induction false} LoadReports(st: LoadState, sections: seq<Section>)
    ensures var r := Load(st, sections);
            && Reported(st.newConnections, r.newConnections, |st.bus.connections|, |r.bus.connections|)
            && Reported(st.newProxies, r.newProxies, |st.bus.proxies|, |r.bus.proxies|)
    decreases |sections|
  {
    if sections != [] {
      var s := sections[0];
      var next := Turn(st, s);
      AddConnectionsReports(EnterProxy(st, s), s.config.localAddr, s.connections);
      LoadReports(next, sections[1..]);
      var r := Load(st, sections);
      ReportedThen(st.newConnections, next.newConnections, r.newConnections,
                   |st.bus.connections|, |next.bus.connections|, |r.bus.connections|);
      ReportedThen(st.newProxies, next.newProxies, r.newProxies,
                   |st.bus.proxies|, |next.bus.proxies|, |r.bus.proxies|);
    }
  }

  lemma ReportedThen(a: seq<int>, b: seq<int>, c: seq<int>, lo: nat, mid: nat, hi: nat)
    requires Reported(a, b, lo, mid) && Reported(b, c, mid, hi)
    ensures Reported(a, c, lo, hi)
  {
    forall j | |a| <= j < |c|
      ensures c[j] == lo + (j - |a|)
    {
      if j < |b| {
        assert b[j] == c[j];
      }
    }
  }

  /** A load reports exactly what it created: the positions that are new on the bus, in order. */
  lemma LoadReportsCreated(bus: BusView, sections: seq<Section>)
    ensures var r := Load(Fresh(bus), sections);
            && |bus.connections| + |r.newConnections| == |r.bus.connections|
            && (forall i | 0 <= i < |r.newConnections| :: r.newConnections[i] == |bus.connections| + i)
            && |bus.proxies| + |r.newProxies| == |r.bus.proxies|
            && (forall i | 0 <= i < |r.newProxies| :: r.newProxies[i] == |bus.proxies| + i)
  {
    LoadReports(Fresh(bus), sections);
  }

  // ------------------------------------------------------------ routes after a load

  predicate WellOwned(bus: BusView) {
    forall c | c in bus.connections :: 0 <= c.owner < |bus.proxies|
  }

  predicate GoodState(st: LoadState) {
    WellOwned(st.bus) && NONE <= st.proxyId < |st.bus.proxies|
  }

  /** Every listed connection can be found under the proxy's own address. */
  predicate Served(bus: BusView, src: int, cs: seq<ConnectionConfig>) {
    forall c | c in cs :: Routable(bus, src, c.remoteAddr)
  }

  /** The proxy that new connections go to has this address. */
  predicate IdHasAddress(st: LoadState, src: int)
    requires GoodState(st)
  {
    st.proxyId != NONE && st.bus.proxies[st.proxyId].config.localAddr == src
  }

  /** A new last connection adds exactly its own route. */
  lemma RouteAdded(bus: BusView, owner: int, c: ConnectionConfig, src: int, dest: int)
    requires WellOwned(bus) && 0 <= owner < |bus.proxies|
    ensures var more := bus.(connections := bus.connections + [ConnectionView(owner, c)]);
            && WellOwned(more)
            && (Routable(more, src, dest) <==>
                Routable(bus, src, dest) || (bus.proxies[owner].config.localAddr == src && c.remoteAddr == dest))
            && (UniqueRoutes(bus) && !Routable(bus, bus.proxies[owner].config.localAddr, c.remoteAddr) ==> UniqueRoutes(more))
  {
    var more := bus.(connections := bus.connections + [ConnectionView(owner, c)]);
    var n := |bus.connections|;
    forall k, a, b
      ensures Matches(more, k, a, b) <==>
              Matches(bus, k, a, b) || (k == n && bus.proxies[owner].config.localAddr == a && c.remoteAddr == b)
    {
    }
    if Routable(bus, src, dest) {
      var k :| 0 <= k < n && Matches(bus, k, src, dest);
      assert Matches(more, k, src, dest);
    }
    if bus.proxies[owner].config.localAddr == src && c.remoteAddr == dest {
      assert Matches(more, n, src, dest);
    }
  }

  /** New proxies change no route. */
  lemma RoutesKeptByProxy(bus: BusView, p: ProxyView)
    requires WellOwned(bus)
    ensures var more := bus.(proxies := bus.proxies + [p]);
            && WellOwned(more) && (UniqueRoutes(bus) ==> UniqueRoutes(more))
            && forall src, dest :: Routable(more, src, dest) <==> Routable(bus, src, dest)
  {
    var more := bus.(proxies := bus.proxies + [p]);
    assert forall k, src, dest :: Matches(more, k, src, dest) <==> Matches(bus, k, src, dest);
  }

  /**
   What the entries of one proxy achieve: with the right id every entry is served;
   with the wrong id, or none, no entry gains a route under the proxy's address.
   */
  lemma {:induction false} AddConnectionsServes(st: LoadState, src: int, cs: seq<ConnectionConfig>)
    requires GoodState(st)
    ensures var r := AddConnections(st, src, cs);
            && GoodState(r) && r.bus.proxies == st.bus.proxies && r.proxyId == st.proxyId
            && (forall d | Routable(st.bus, src, d) :: Routable(r.bus, src, d))
            && (IdHasAddress(st, src) ==> Served(r.bus, src, cs))
            && (IdHasAddress(st, src) && UniqueRoutes(st.bus) ==> UniqueRoutes(r.bus))
            && (!IdHasAddress(st, src) ==> forall d :: Routable(r.bus, src, d) <==> Routable(st.bus, src, d))
    decreases |cs|
  {
    if cs != [] {
      var next := AddConnection(st, src, cs[0]);
      if next != st {
        forall d
          ensures Routable(next.bus, src, d) <==>
                  Routable(st.bus, src, d) || (IdHasAddress(st, src) && cs[0].remoteAddr == d)
        {
          RouteAdded(st.bus, st.proxyId, cs[0], src, d);
        }
        RouteAdded(st.bus, st.proxyId, cs[0], src, src);
      }
      AddConnectionsServes(next, src, cs[1..]);
      assert forall c | c in cs :: c == cs[0] || c in cs[1..];
    }
  }

  /**
   For a proxy that exists already, a turn of the loader serves all its entries
   exactly when they were served before, or the id left over from an earlier turn
   happens to belong to a proxy with the same address. For a new proxy it always does.
   */
  lemma TurnServesExactly(st: LoadState, s: Section)
    requires GoodState(st)
    ensures HasProxy(st.bus, s.name) ==>
            (Served(Turn(st, s).bus, s.config.localAddr, s.connections) <==>
             Served(st.bus, s.config.localAddr, s.connections) || IdHasAddress(st, s.config.localAddr))
    ensures !HasProxy(st.bus, s.name) ==> Served(Turn(st, s).bus, s.config.localAddr, s.connections)
  {
    RoutesKeptByProxy(st.bus, ProxyView(s.name, s.config));
    AddConnectionsServes(EnterProxy(st, s), s.config.localAddr, s.connections);
  }

  /** The connections that a turn adds are owned by proxies with this name. */
  predicate OwnedByName(before: BusView, after: BusView, name: string)
    requires WellOwned(after)
  {
    forall k | |before.connections| <= k < |after.connections| ::
      after.proxies[after.connections[k].owner].name == name
  }

  /** Everything that the entries of a proxy create is one of them, and belongs to the current id. */
  lemma {:induction false} AddConnectionsListed(st: LoadState, src: int, cs: seq<ConnectionConfig>)
    requires GoodState(st)
    ensures var r := AddConnections(st, src, cs);
            && st.bus.connections <= r.bus.connections
            && forall k | |st.bus.connections| <= k < |r.bus.connections| ::
                 r.bus.connections[k].owner == st.proxyId && r.bus.connections[k].config in cs
    decreases |cs|
  {
    if cs != [] {
      AddConnectionsListed(AddConnection(st, src, cs[0]), src, cs[1..]);
    }
  }

  /** Something is created exactly when there is an id and an entry that is not served. */
  lemma {:induction false} AddConnectionsCreates(st: LoadState, src: int, cs: seq<ConnectionConfig>)
    requires GoodState(st)
    ensures |AddConnections(st, src, cs).bus.connections| > |st.bus.connections|
            <==> st.proxyId != NONE && !Served(st.bus, src, cs)
    decreases |cs|
  {
    if st.proxyId == NONE {
      NoIdNoChange(st, src, cs);
    } else if cs != [] {
      assert forall c | c in cs :: c == cs[0] || c in cs[1..];
      AddConnectionsListed(AddConnection(st, src, cs[0]), src, cs[1..]);
      if Routable(st.bus, src, cs[0].remoteAddr) {
        AddConnectionsCreates(st, src, cs[1..]);
      } else {
        assert cs[0] in cs;
      }
    }
  }

  /**
   A turn for a proxy that exists already creates connections on proxies of that
   name only, exactly when there is no left-over id, or it belongs to a proxy of
   that name, or there was nothing to create. For a new proxy it always does.
   */
  lemma TurnPlacesExactly(st: LoadState, s: Section)
    requires GoodState(st)
    ensures WellOwned(Turn(st, s).bus)
    ensures HasProxy(st.bus, s.name) ==>
            (OwnedByName(st.bus, Turn(st, s).bus, s.name) <==>
             || st.proxyId == NONE || st.bus.proxies[st.proxyId].name == s.name
             || Served(st.bus, s.config.localAddr, s.connections))
    ensures !HasProxy(st.bus, s.name) ==> OwnedByName(st.bus, Turn(st, s).bus, s.name)
  {
    hide AddConnections, Served;
    var entered := EnterProxy(st, s);
    AddConnectionsServes(entered, s.config.localAddr, s.connections);
    AddConnectionsListed(entered, s.config.localAddr, s.connections);
    AddConnectionsCreates(entered, s.config.localAddr, s.connections);
    if Turn(st, s).bus.connections != st.bus.connections {
      assert Turn(st, s).bus.connections[|st.bus.connections|].owner == entered.proxyId;
    }
  }

  /** The leftover id at work: the connection listed for the existing proxy A is created on B. */
  lemma LeftoverIdMisroutes(c: ConnectionConfig)
    requires c.remoteAddr == 5
    ensures var bus := BusView([ProxyView("A", ProxyConfig(1, 0))], []);
            var sections := [Section("B", ProxyConfig(2, 0), []), Section("A", ProxyConfig(1, 0), [c])];
            var after := Load(Fresh(bus), sections).bus;
            && after == BusView(bus.proxies + [ProxyView("B", ProxyConfig(2, 0))], [ConnectionView(1, c)])
            && Routable(after, 2, 5) && !Routable(after, 1, 5)
  {
    var a, b := Section("A", ProxyConfig(1, 0), [c]), Section("B", ProxyConfig(2, 0), []);
    var st := Fresh(BusView([ProxyView("A", ProxyConfig(1, 0))], []));
    assert st.bus.proxies[0].name == "A";
    var st1 := Turn(st, b);
    assert st1.bus.proxies[0].name == "A" && st1.proxyId == 1;
    var st2 := Turn(st1, a);
    assert st2 == AddConnections(AddConnection(st1, 1, c), 1, [c][1..]);
    assert [b, a][1..] == [a] && [a][1..] == [];
    assert Load(st, [b, a]) == Load(st1, [a]) == Load(st2, []) == st2;
    RouteAdded(st1.bus, 1, c, 1, 5);
    RouteAdded(st1.bus, 1, c, 2, 5);
  }

  // ---------------------------------------------------------------- whole loads

  /** A name stands for one proxy description; true of every dictionary. */
  predicate Consistent(sections: seq<Section>) {
    forall s, t | s in sections && t in sections :: s.name == t.name ==> s == t
  }

  lemma {:induction false} SectionsAreFromNames(cfg: Config, n: nat)
    ensures forall s | s in SectionsFrom(cfg, n) ::
              s == Section(s.name, ProxyConfigOf(cfg, s.name), ConnectionsFrom(cfg, s.name, 0))
    decreases |Unused(cfg, ProxyKey, n)|
  {
    if ProxyKey(n) in cfg {
      ProxyKeyUnused(cfg, n);
      SectionsAreFromNames(cfg, n + 1);
    }
  }

  lemma SectionsAreConsistent(cfg: Config)
    ensures Consistent(SectionsFrom(cfg, 0))
  {
    SectionsAreFromNames(cfg, 0);
  }

  /** A section that is on the bus with all its routes. */
  predicate Settled(bus: BusView, s: Section) {
    HasProxy(bus, s.name) && Served(bus, s.config.localAddr, s.connections)
  }

  lemma {:induction false} ServedNoChange(st: LoadState, src: int, cs: seq<ConnectionConfig>)
    requires Served(st.bus, src, cs)
    ensures AddConnections(st, src, cs) == st
    decreases |cs|
  {
    if cs != [] {
      assert cs[0] in cs;
      ServedNoChange(st, src, cs[1..]);
    }
  }

  lemma RoutesKept(bus: BusView, more: BusView, src: int, dest: int)
    requires Extends(bus, more) && Routable(bus, src, dest)
    ensures Routable(more, src, dest)
  {
    var k :| 0 <= k < |bus.connections| && Matches(bus, k, src, dest);
    assert Matches(more, k, src, dest);
  }

  lemma SettledKept(bus: BusView, more: BusView, s: Section)
    requires Extends(bus, more) && Settled(bus, s)
    ensures Settled(more, s)
  {
    var i :| 0 <= i < |bus.proxies| && bus.proxies[i].name == s.name;
    assert more.proxies[i].name == s.name;
    forall c | c in s.connections
      ensures Routable(more, s.config.localAddr, c.remoteAddr)
    {
      RoutesKept(bus, more, s.config.localAddr, c.remoteAddr);
    }
  }

  /** One turn for a section that is new or settled settles it and keeps routes unique. */
  lemma TurnSettles(st: LoadState, s: Section)
    requires GoodState(st) && UniqueRoutes(st.bus)
    requires HasProxy(st.bus, s.name) ==> Settled(st.bus, s)
    ensures GoodState(Turn(st, s)) && UniqueRoutes(Turn(st, s).bus) && Settled(Turn(st, s).bus, s)
  {
    TurnAppends(st, s);
    RoutesKeptByProxy(st.bus, ProxyView(s.name, s.config));
    if HasProxy(st.bus, s.name) {
      ServedNoChange(st, s.config.localAddr, s.connections);
    } else {
      AddConnectionsServes(EnterProxy(st, s), s.config.localAddr, s.connections);
    }
  }

  /** The proxies that a turn adds are named by its section only. */
  lemma TurnNames(st: LoadState, s: Section, name: string)
    ensures HasProxy(Turn(st, s).bus, name) <==> HasProxy(st.bus, name) || name == s.name
  {
    TurnAppends(st, s);
    AddConnectionsAppends(EnterProxy(st, s), s.config.localAddr, s.connections);
    var after := Turn(st, s).bus;
    if HasProxy(st.bus, name) {
      var i :| 0 <= i < |st.bus.proxies| && st.bus.proxies[i].name == name;
      assert after.proxies[i].name == name;
    }
  }

  /** The file names only proxies that are new to the bus, or are there with all their routes. */
  predicate Loadable(bus: BusView, sections: seq<Section>) {
    forall s | s in sections && HasProxy(bus, s.name) :: Settled(bus, s)
  }

  lemma TurnKeepsLoadable(st: LoadState, sections: seq<Section>)
    requires sections != [] && GoodState(st) && UniqueRoutes(st.bus)
    requires Consistent(sections) && Loadable(st.bus, sections)
    ensures GoodState(Turn(st, sections[0])) && UniqueRoutes(Turn(st, sections[0]).bus)
    ensures Settled(Turn(st, sections[0]).bus, sections[0])
    ensures Loadable(Turn(st, sections[0]).bus, sections[1..])
  {
    var first, rest := sections[0], sections[1..];
    var next := Turn(st, first);
    TurnSettles(st, first);
    TurnAppends(st, first);
    forall s | s in rest && HasProxy(next.bus, s.name)
      ensures Settled(next.bus, s)
    {
      TurnNames(st, first, s.name);
      if s.name != first.name {
        SettledKept(st.bus, next.bus, s);
      }
    }
  }

  /** Such a load makes every listed route, and each pair of addresses is joined once. */
  lemma {:induction false} LoadServes(st: LoadState, sections: seq<Section>)
    requires GoodState(st) && UniqueRoutes(st.bus) && Consistent(sections) && Loadable(st.bus, sections)
    ensures var r := Load(st, sections);
            GoodState(r) && UniqueRoutes(r.bus) && forall s | s in sections :: Settled(r.bus, s)
    decreases |sections|
  {
    if sections != [] {
      var first, rest := sections[0], sections[1..];
      var next := Turn(st, first);
      TurnKeepsLoadable(st, sections);
      LoadServes(next, rest);
      LoadAppends(next, rest);
      SettledKept(next.bus, Load(next, rest).bus, first);
    }
  }

  /** Connection `k` is one that a section lists, on the proxy of that section. */
  predicate ListedIn(s: Section, bus: BusView, k: int)
    requires WellOwned(bus) && 0 <= k < |bus.connections|
  {
    && bus.proxies[bus.connections[k].owner] == ProxyView(s.name, s.config)
    && bus.connections[k].config in s.connections
  }

  /** Every connection that such a load creates is listed in the section of the proxy it is created on. */
  lemma {:induction false} LoadCreatesListed(st: LoadState, sections: seq<Section>, k: int)
    requires GoodState(st) && UniqueRoutes(st.bus) && Consistent(sections) && Loadable(st.bus, sections)
    requires |st.bus.connections| <= k < |Load(st, sections).bus.connections|
    ensures WellOwned(Load(st, sections).bus)
    ensures exists s | s in sections :: ListedIn(s, Load(st, sections).bus, k)
    decreases |sections|
  {
    LoadServes(st, sections);
    if sections != [] {
      var first, rest := sections[0], sections[1..];
      var next := Turn(st, first);
      TurnKeepsLoadable(st, sections);
      LoadAppends(next, rest);
      if k < |next.bus.connections| {
        if HasProxy(st.bus, first.name) {
          ServedNoChange(st, first.config.localAddr, first.connections);
        } else {
          AddConnectionsListed(EnterProxy(st, first), first.config.localAddr, first.connections);
          AddConnectionsAppends(EnterProxy(st, first), first.config.localAddr, first.connections);
          assert ListedIn(first, Load(st, sections).bus, k);
        }
      } else {
        LoadCreatesListed(next, rest, k);
      }
    }
  }

  // ---------------------------------------------------------------- runs of loads

  function LoadAll(bus: BusView, files: seq<seq<Section>>): BusView
    decreases |files|
  {
    if files == [] then bus else LoadAll(Load(Fresh(bus), files[0]).bus, files[1..])
  }

  predicate AllLoadable(bus: BusView, files: seq<seq<Section>>)
    decreases |files|
  {
    files == [] ||
    (Consistent(files[0]) && Loadable(bus, files[0]) && AllLoadable(Load(Fresh(bus), files[0]).bus, files[1..]))
  }

  /** Over any run of such loads routes stay unique, so both searches give the same answers. */
  lemma {:induction false} RunKeepsRoutesUnique(bus: BusView, files: seq<seq<Section>>)
    requires WellOwned(bus) && UniqueRoutes(bus) && AllLoadable(bus, files)
    ensures WellOwned(LoadAll(bus, files)) && UniqueRoutes(LoadAll(bus, files))
    decreases |files|
  {
    if files != [] {
      LoadServes(Fresh(bus), files[0]);
      RunKeepsRoutesUnique(Load(Fresh(bus), files[0]).bus, files[1..]);
    }
  }

  function Copies(file: seq<Section>, n: nat): seq<seq<Section>> {
    if n == 0 then [] else [file] + Copies(file, n - 1)
  }

  lemma {:induction false} ReloadsChangeNothing(bus: BusView, file: seq<Section>, n: nat)
    requires Load(Fresh(bus), file) == Fresh(bus) && Consistent(file) && Loadable(bus, file)
    ensures AllLoadable(bus, Copies(file, n)) && LoadAll(bus, Copies(file, n)) == bus
  {
    if n > 0 {
      assert Copies(file, n)[1..] == Copies(file, n - 1);
      ReloadsChangeNothing(bus, file, n - 1);
    }
  }

  /** A first load on an empty bus and any number of reloads is such a run, and the reloads change nothing. */
  lemma FirstLoadAndReloads(cfg: Config, n: nat)
    ensures var file := SectionsFrom(cfg, 0);
            var empty := BusView([], []);
            && AllLoadable(empty, Copies(file, n + 1))
            && LoadAll(empty, Copies(file, n + 1)) == Load(Fresh(empty), file).bus
  {
    var file, empty := SectionsFrom(cfg, 0), BusView([], []);
    var once := Load(Fresh(empty), file).bus;
    SectionsAreConsistent(cfg);
    LoadServes(Fresh(empty), file);
    LoadTwice(empty, file);
    ReloadsChangeNothing(once, file, n);
    assert Copies(file, n + 1)[1..] == Copies(file, n);
  }
}
