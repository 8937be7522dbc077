/**
 The loader itself: the numbered loops over the string map, the checks and
 creations on the bus object, and the whole path from a file to the bus.
 */
module Loader {
  import opened Options
  import opened Numerals
  import opened ConfigMaps
  import opened MessageBuses
  import opened Routing
  import opened LoadConfig
  import opened LcfgReaders
  import opened LcfgLexicon
  import opened LcfgLanguage
  import opened LcfgParsers
  import LcfgGrammar

  ghost function ConfigOf(m: ConfigMap): Config
    requires m.Valid()
    reads m, m.Repr
  {
    Dictionary(m.Entries())
  }

  /** A property that must be present. */
  method GetValue(m: ConfigMap, key: string) returns (value: string)
    requires m.Valid() && key in ConfigOf(m)
    ensures value == Value(ConfigOf(m), key)
  {
    var r := m.Get(key);
    value := r.value;
  }

  /** `RTIDNP3_ExtConfig_extractProxyConfig`, without the physical ports. */
  method ExtractProxyConfig(m: ConfigMap, n: nat) returns (name: Option<string>, config: ProxyConfig)
    requires m.Valid() && Complete(ConfigOf(m), n)
    ensures name == Lookup(ConfigOf(m), ProxyKey(n))
    ensures name.Some? ==> config == ProxyConfigOf(ConfigOf(m), name.value)
  {
    config := ProxyConfig(0, 0);
    name := m.Get(ProxyKey(n));
    if name.Some? {
      var isMaster := GetValue(m, name.value + "-is-master");
      var address := GetValue(m, name.value + "-address");
      config := ProxyConfig(ToShort(Strtol(address)), ToUnsignedChar(Strtol(isMaster)));
    }
  }

  /** `RTIDNP3_ExtConfig_extractConnectionConfig`. */
  method ExtractConnectionConfig(m: ConfigMap, name: string, n: nat) returns (found: bool, config: ConnectionConfig)
    requires m.Valid() && ConnectionsComplete(ConfigOf(m), name, n)
    ensures found <==> ConnectionKey(name, n) in ConfigOf(m)
    ensures found ==> config == ConnectionConfigOf(ConfigOf(m), name, n)
  {
    config := ConnectionConfig(0, "", 0, 0, 0, 0, 0);
    var remote := m.Get(ConnectionKey(name, n));
    found := remote.Some?;
    if found {
      var r := ToInt(Strtol(remote.value));
      var appTimeout := GetValue(m, ConnectionProperty(name, r, "timeout-app"));
      var linkTimeout := GetValue(m, ConnectionProperty(name, r, "timeout-link"));
      var fragSize := GetValue(m, ConnectionProperty(name, r, "frag-size"));
      var numRetry := GetValue(m, ConnectionProperty(name, r, "retries"));
      var portName := GetValue(m, ConnectionProperty(name, r, "phys-port"));
      var useConfirms := GetValue(m, ConnectionProperty(name, r, "use-confirms"));
      config := ConnectionConfig(ToShort(r), portName, Strtol(appTimeout), Strtol(linkTimeout),
                                 ToUnsignedLong(Strtol(fragSize)), ToUnsignedLong(Strtol(numRetry)),
                                 ToUnsignedChar(Strtol(useConfirms)));
    }
  }

  /** The bus and the map share no objects. */
  ghost predicate Apart(bus: MessageBus, m: ConfigMap)
    reads bus, m
  {
    bus !in m.Repr && forall p | p in bus.proxies :: p !in m.Repr
  }

  /** One pass of the inner loop, on the specification. */
  lemma ConnectionsPass(cfg: Config, name: string, n: nat, st: LoadState, src: int)
    requires ConnectionsComplete(cfg, name, n)
    ensures ConnectionKey(name, n) !in cfg ==> AddConnections(st, src, ConnectionsFrom(cfg, name, n)) == st
    ensures ConnectionKey(name, n) in cfg ==>
              && ConnectionsComplete(cfg, name, n + 1)
              && AddConnections(st, src, ConnectionsFrom(cfg, name, n)) ==
                 AddConnections(AddConnection(st, src, ConnectionConfigOf(cfg, name, n)), src,
                                ConnectionsFrom(cfg, name, n + 1))
              && |Unused(cfg, ConnectionKeys(name), n + 1)| < |Unused(cfg, ConnectionKeys(name), n)|
  {
    if ConnectionKey(name, n) in cfg {
      ConnectionKeyUnused(cfg, name, n);
      assert ConnectionsFrom(cfg, name, n)[1..] == ConnectionsFrom(cfg, name, n + 1);
    }
  }

  /** The inner loop: the connections of one proxy. */
  method LoadConnections(bus: MessageBus, m: ConfigMap, name: string, src: int, proxyId: int,
                         created: seq<int>, ghost st: LoadState)
    returns (newConnections: seq<int>)
    requires bus.Valid() && m.Valid() && Apart(bus, m) && ConnectionsComplete(ConfigOf(m), name, 0)
    requires bus.View() == st.bus && proxyId == st.proxyId && created == st.newConnections
    requires NONE <= proxyId < |bus.proxies|
    modifies bus, bus.proxies
    ensures bus.Valid() && bus.proxies == old(bus.proxies)
    ensures var r := AddConnections(st, src, ConnectionsFrom(ConfigOf(m), name, 0));
            bus.View() == r.bus && newConnections == r.newConnections
  {
    hide ConnectionsComplete, ConnectionsFrom, ConnectionConfigOf, ConnectionKey, AddConnections, AddConnection,
      Dictionary, ConfigMap.Valid, ConfigMap.Entries, MessageBus.Valid, MessageBus.View;
    ghost var cfg := ConfigOf(m);
    ghost var goal := AddConnections(st, src, ConnectionsFrom(cfg, name, 0));
    ghost var now := st;
    newConnections := created;
    var n := 0;
    var found, config := ExtractConnectionConfig(m, name, n);
    while found
      invariant bus.Valid() && bus.proxies == old(bus.proxies) && m.Valid() && ConfigOf(m) == cfg
      invariant bus.View() == now.bus && proxyId == now.proxyId && newConnections == now.newConnections
      invariant ConnectionsComplete(cfg, name, n)
      invariant AddConnections(now, src, ConnectionsFrom(cfg, name, n)) == goal
      invariant found <==> ConnectionKey(name, n) in cfg
      invariant found ==> config == ConnectionConfigOf(cfg, name, n)
      decreases |Unused(cfg, ConnectionKeys(name), n)|, found
    {
      ConnectionsPass(cfg, name, n, now, src);
      newConnections := LoadConnection(bus, src, proxyId, config, newConnections, now);
      now := AddConnection(now, src, config);
      n := n + 1;
      found, config := ExtractConnectionConfig(m, name, n);
    }
    ConnectionsPass(cfg, name, n, now, src);
  }

  /** One connection entry. */
  method LoadConnection(bus: MessageBus, src: int, proxyId: int, config: ConnectionConfig,
                        created: seq<int>, ghost st: LoadState)
    returns (newConnections: seq<int>)
    requires bus.Valid() && NONE <= proxyId < |bus.proxies|
    requires bus.View() == st.bus && proxyId == st.proxyId && created == st.newConnections
    modifies bus, bus.proxies
    ensures bus.Valid() && bus.proxies == old(bus.proxies)
    ensures var r := AddConnection(st, src, config);
            bus.View() == r.bus && proxyId == r.proxyId && newConnections == r.newConnections
  {
    newConnections := created;
    var existing := GetConnectionId(bus, src, config.remoteAddr);
    if existing == NONE {
      var id := bus.NewConnection(proxyId, config);
      if id != NONE {
        newConnections := newConnections + [id];
      }
    } else {
      assert Matches(bus.View(), existing, src, config.remoteAddr);
    }
  }

  /** One pass of the outer loop, on the specification. */
  lemma SectionsPass(cfg: Config, n: nat, st: LoadState)
    requires Complete(cfg, n)
    ensures ProxyKey(n) !in cfg ==> Load(st, SectionsFrom(cfg, n)) == st
    ensures ProxyKey(n) in cfg ==>
              && Complete(cfg, n + 1) && ConnectionsComplete(cfg, cfg[ProxyKey(n)], 0)
              && Load(st, SectionsFrom(cfg, n)) == Load(Turn(st, SectionOf(cfg, n)), SectionsFrom(cfg, n + 1))
              && |Unused(cfg, ProxyKey, n + 1)| < |Unused(cfg, ProxyKey, n)|
  {
    if ProxyKey(n) in cfg {
      ProxyKeyUnused(cfg, n);
      assert SectionsFrom(cfg, n)[1..] == SectionsFrom(cfg, n + 1);
    }
  }

  /** Creates the proxy unless its name is known; only then does the proxy id change. */
  method LoadProxy(bus: MessageBus, name: string, config: ProxyConfig, proxyId: int,
                   created: seq<int>, ghost st: LoadState, ghost s: Section)
    returns (proxyId': int, newProxies: seq<int>)
    requires bus.Valid() && NONE <= proxyId < |bus.proxies|
    requires bus.View() == st.bus && proxyId == st.proxyId && created == st.newProxies
    requires s.name == name && s.config == config
    modifies bus
    ensures bus.Valid() && fresh(set p | p in bus.proxies && p !in old(bus.proxies))
    ensures NONE <= proxyId' < |bus.proxies|
    ensures var r := EnterProxy(st, s);
            && bus.View() == r.bus && proxyId' == r.proxyId && newProxies == r.newProxies
            && r.newConnections == st.newConnections
  {
    proxyId', newProxies := proxyId, created;
    var known := GetProxyId(bus, name);
    if known == NONE {
      proxyId' := bus.NewProxy(name, config);
      newProxies := newProxies + [proxyId'];
    } else {
      assert bus.View().proxies[known].name == name;
    }
  }

  /** One proxy entry with its connections. */
  method LoadSection(bus: MessageBus, m: ConfigMap, name: string, config: ProxyConfig, proxyId: int,
                     proxiesSoFar: seq<int>, connectionsSoFar: seq<int>, ghost st: LoadState, ghost s: Section)
    returns (proxyId': int, newProxies: seq<int>, newConnections: seq<int>)
    requires bus.Valid() && m.Valid() && Apart(bus, m) && NONE <= proxyId < |bus.proxies|
    requires bus.View() == st.bus && proxyId == st.proxyId
    requires proxiesSoFar == st.newProxies && connectionsSoFar == st.newConnections
    requires ConnectionsComplete(ConfigOf(m), name, 0)
    requires s == Section(name, config, ConnectionsFrom(ConfigOf(m), name, 0))
    modifies bus, bus.proxies
    ensures bus.Valid() && fresh(set p | p in bus.proxies && p !in old(bus.proxies))
    ensures NONE <= proxyId' < |bus.proxies|
    ensures Turn(st, s) == LoadState(bus.View(), proxyId', newProxies, newConnections)
  {
    hide ConnectionsComplete, ConnectionsFrom, AddConnection, Dictionary,
      ConfigMap.Valid, ConfigMap.Entries, MessageBus.Valid, MessageBus.View;
    ghost var entered := EnterProxy(st, s);
    proxyId', newProxies := LoadProxy(bus, name, config, proxyId, proxiesSoFar, st, s);
    AddConnectionsAppends(entered, config.localAddr, s.connections);
    AddConnectionsReports(entered, config.localAddr, s.connections);
    newConnections := LoadConnections(bus, m, name, config.localAddr, proxyId', connectionsSoFar, entered);
  }

  /** The loops of `RTIDNP3_MessageBus_loadConfig`, once the map is filled. */
  method LoadMap(bus: MessageBus, m: ConfigMap) returns (newProxies: seq<int>, newConnections: seq<int>)
    requires bus.Valid() && m.Valid() && Apart(bus, m) && Complete(ConfigOf(m), 0)
    modifies bus, bus.proxies
    ensures bus.Valid() && fresh(set p | p in bus.proxies && p !in old(bus.proxies))
    ensures var r := Load(Fresh(old(bus.View())), SectionsFrom(ConfigOf(m), 0));
            bus.View() == r.bus && newProxies == r.newProxies && newConnections == r.newConnections
  {
    hide Complete, SectionsFrom, ConnectionsComplete, ConnectionsFrom, ProxyKey, Load, Turn, Dictionary,
      ConfigMap.Valid, ConfigMap.Entries, MessageBus.Valid, MessageBus.View;
    ghost var cfg := ConfigOf(m);
    ghost var now := Fresh(bus.View());
    ghost var goal := Load(now, SectionsFrom(cfg, 0));
    var proxyId := NONE;
    newProxies, newConnections := [], [];
    var n := 0;
    var name, config := ExtractProxyConfig(m, n);
    while name.Some?
      invariant bus.Valid() && m.Valid() && Apart(bus, m) && ConfigOf(m) == cfg
      invariant fresh(set p | p in bus.proxies && p !in old(bus.proxies))
      invariant NONE <= proxyId < |bus.proxies|
      invariant now == LoadState(bus.View(), proxyId, newProxies, newConnections)
      invariant Complete(cfg, n) && Load(now, SectionsFrom(cfg, n)) == goal
      invariant name == Lookup(cfg, ProxyKey(n))
      invariant name.Some? ==> config == ProxyConfigOf(cfg, name.value)
      decreases |Unused(cfg, ProxyKey, n)|, name.Some?
    {
      SectionsPass(cfg, n, now);
      ghost var s := SectionOf(cfg, n);
      proxyId, newProxies, newConnections :=
        LoadSection(bus, m, name.value, config, proxyId, newProxies, newConnections, now, s);
      now := Turn(now, s);
      n := n + 1;
      name, config := ExtractProxyConfig(m, n);
    }
    SectionsPass(cfg, n, now);
  }

  /** `lcfg_accept` with the visitor that fills the map. */
  method FillMap(parser: Parser, ghost leaves: seq<LcfgGrammar.Leaf>) returns (m: ConfigMap)
    requires parser.Valid() && parser.values[..parser.valueLength] == StoredAll(leaves)
    ensures m.Valid() && fresh(m.Repr) && m.Entries() == VisitedAll(leaves)
  {
    hide ConfigMap.Valid, ConfigMap.Entries;
    m := new ConfigMap();
    var i := 0;
    while i < parser.valueLength
      invariant i <= parser.valueLength == |leaves|
      invariant parser.values[..parser.valueLength] == StoredAll(leaves)
      invariant m.Valid() && fresh(m.Repr) && m.Entries() == VisitedAll(leaves)[..i]
    {
      var pair := parser.values[i];
      assert pair == parser.values[..parser.valueLength][i] == Stored(leaves[i]);
      var added := m.Add(pair.key, pair.value);
      i := i + 1;
    }
    assert VisitedAll(leaves)[..i] == VisitedAll(leaves);
  }

  /** The dictionary that a file defines. */
  function FileConfig(text: string): Config {
    Dictionary(VisitedAll(ParseText(text).values))
  }

  /** What loading a file does to a bus: nothing when it cannot be parsed. */
  ghost function LoadFile(bus: BusView, text: string): LoadState {
    if ParseText(text).ok then Load(Fresh(bus), SectionsFrom(FileConfig(text), 0)) else Fresh(bus)
  }

  /** Whatever the text, what was on the bus stays in its place, and exactly what is new is reported. */
  lemma LoadFileAppends(bus: BusView, text: string)
    ensures var r := LoadFile(bus, text);
            && bus.proxies <= r.bus.proxies && bus.connections <= r.bus.connections
            && |bus.connections| + |r.newConnections| == |r.bus.connections|
            && (forall i | 0 <= i < |r.newConnections| :: r.newConnections[i] == |bus.connections| + i)
            && |bus.proxies| + |r.newProxies| == |r.bus.proxies|
            && (forall i | 0 <= i < |r.newProxies| :: r.newProxies[i] == |bus.proxies| + i)
  {
    LoadAppends(Fresh(bus), SectionsFrom(FileConfig(text), 0));
    LoadReportsCreated(bus, SectionsFrom(FileConfig(text), 0));
  }

  /** A text that is no written form of any syntax tree leaves the bus alone and reports nothing. */
  lemma RefusedFileLoadsNothing(bus: BusView, text: string)
    requires forall doc: Doc, entries: LcfgGrammar.Entries | DocOk(doc) && DocText(doc) == text ::
               DocTokens(doc) != LcfgGrammar.EntryTokens(entries)
    ensures LoadFile(bus, text).bus == bus
    ensures LoadFile(bus, text).newProxies == [] && LoadFile(bus, text).newConnections == []
  {
    if ParseText(text).ok {
      ParseExactly(text, ParseText(text).values);
    }
  }

  /** `RTIDNP3_MessageBus_loadConfig`, from the file to the bus. */
  method LoadConfigFile(bus: MessageBus, blocks: Blocks) returns (newProxies: seq<int>, newConnections: seq<int>)
    requires bus.Valid()
    requires ParseText(Visible(blocks)).ok ==> Complete(FileConfig(Visible(blocks)), 0)
    modifies bus, bus.proxies
    ensures bus.Valid()
    ensures var r := LoadFile(old(bus.View()), Visible(blocks));
            bus.View() == r.bus && newProxies == r.newProxies && newConnections == r.newConnections
    ensures old(bus.View()).proxies <= bus.View().proxies && old(bus.View()).connections <= bus.View().connections
    ensures |newConnections| == |bus.connections| - |old(bus.connections)|
    ensures forall i | 0 <= i < |newConnections| :: newConnections[i] == |old(bus.connections)| + i
    ensures |newProxies| == |bus.proxies| - |old(bus.proxies)|
    ensures forall i | 0 <= i < |newProxies| :: newProxies[i] == |old(bus.proxies)| + i
    ensures !ParseText(Visible(blocks)).ok ==> newProxies == [] && newConnections == [] && bus.View() == old(bus.View())
  {
    hide MessageBus.Valid, MessageBus.View, LoadFile, Complete, ParseText;
    LoadFileAppends(bus.View(), Visible(blocks));
    if !ParseText(Visible(blocks)).ok {
      RefusedTextLoadsNothing(bus.View(), Visible(blocks));
    }
    newProxies, newConnections := LoadBlocks(bus, blocks);
  }

  lemma RefusedTextLoadsNothing(bus: BusView, text: string)
    requires !ParseText(text).ok
    ensures LoadFile(bus, text) == Fresh(bus)
  {
  }

  /** Parses, fills the map, and runs the loops. */
  method LoadBlocks(bus: MessageBus, blocks: Blocks) returns (newProxies: seq<int>, newConnections: seq<int>)
    requires bus.Valid()
    requires ParseText(Visible(blocks)).ok ==> Complete(FileConfig(Visible(blocks)), 0)
    modifies bus, bus.proxies
    ensures bus.Valid()
    ensures var r := LoadFile(old(bus.View()), Visible(blocks));
            bus.View() == r.bus && newProxies == r.newProxies && newConnections == r.newConnections
  {
    hide MessageBus.Valid, MessageBus.View, Parser.Valid, Complete, SectionsFrom, Load, Dictionary, ParseText,
      ConfigMap.Valid, ConfigMap.Entries;
    newProxies, newConnections := [], [];
    ghost var text := Visible(blocks);
    var ok, parser := ParseFile(blocks);
    if ok {
      var m := FillMap(parser, ParseText(text).values);
      newProxies, newConnections := LoadMap(bus, m);
    }
  }

  /** Loading a file twice in a row, on any bus, does the same as loading it once. */
  lemma LoadFileTwice(bus: BusView, text: string)
    ensures var once := LoadFile(bus, text).bus;
            LoadFile(once, text) == Fresh(once)
  {
    LoadTwice(bus, SectionsFrom(FileConfig(text), 0));
  }

  /** Two files with the same entries under distinct keys load alike, whatever the order of the entries. */
  lemma FileOrderIsIrrelevant(bus: BusView, a: string, b: string)
    requires ParseText(a).ok && ParseText(b).ok
    requires DistinctPaths(ParseText(a).values) && DistinctPaths(ParseText(b).values)
    requires forall l :: l in ParseText(a).values <==> l in ParseText(b).values
    ensures LoadFile(bus, a) == LoadFile(bus, b)
  {
    StackFitsFile(a);
    StackFitsFile(b);
    ValueOrderIsIrrelevant(ParseText(a).values, ParseText(b).values);
  }

  /** After loading a file on an empty bus, every listed route exists once, and both searches give the same connection. */
  lemma FirstLoadRoutes(text: string, src: int, dest: int, flat: int, nested: int)
    requires ParseText(text).ok
    requires NewestMatch(LoadFile(BusView([], []), text).bus, src, dest, flat)
    requires FirstProxyMatch(LoadFile(BusView([], []), text).bus, src, dest, nested)
    ensures flat == nested
    ensures forall s | s in SectionsFrom(FileConfig(text), 0) :: Settled(LoadFile(BusView([], []), text).bus, s)
  {
    var sections := SectionsFrom(FileConfig(text), 0);
    SectionsAreConsistent(FileConfig(text));
    LoadServes(Fresh(BusView([], [])), sections);
    UniqueRoutesAgree(LoadFile(BusView([], []), text).bus, src, dest, flat, nested);
  }
}
