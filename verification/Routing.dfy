/**
 The two searches for the connection between two addresses: proxy by proxy for
 sending, and backwards over all connections for the loader.
 */
module Routing {
  import opened MessageBuses

  /** Connection `k` leads from `src` to `dest`. */
  predicate Matches(v: BusView, k: int, src: int, dest: int) {
    && 0 <= k < |v.connections| && 0 <= v.connections[k].owner < |v.proxies|
    && v.proxies[v.connections[k].owner].config.localAddr == src
    && v.connections[k].config.remoteAddr == dest
  }

  predicate Routable(v: BusView, src: int, dest: int) {
    exists k | 0 <= k < |v.connections| :: Matches(v, k, src, dest)
  }

  /** The answer of the backward search: the newest match. */
  ghost predicate NewestMatch(v: BusView, src: int, dest: int, r: int) {
    if r == NONE then !Routable(v, src, dest)
    else Matches(v, r, src, dest) && forall m | Matches(v, m, src, dest) :: m <= r
  }

  /** The answer of the nested search: the newest match of the first proxy that has one. */
  ghost predicate FirstProxyMatch(v: BusView, src: int, dest: int, r: int) {
    if r == NONE then !Routable(v, src, dest)
    else
      && Matches(v, r, src, dest)
      && forall m | Matches(v, m, src, dest) ::
           v.connections[r].owner < v.connections[m].owner || (v.connections[r].owner == v.connections[m].owner && m <= r)
  }

  /** No two connections join the same pair of addresses. */
  ghost predicate UniqueRoutes(v: BusView) {
    forall i, j, src, dest | Matches(v, i, src, dest) && Matches(v, j, src, dest) :: i == j
  }

  /**
   Both searches find nothing, or both find something; they find the same
   connection exactly when no proxy before the newest match's owner has a match.
   */
  lemma SearchesAgreeExactly(v: BusView, src: int, dest: int, flat: int, nested: int)
    requires NewestMatch(v, src, dest, flat) && FirstProxyMatch(v, src, dest, nested)
    ensures flat == NONE <==> nested == NONE
    ensures flat == nested <==>
            (flat != NONE ==>
               forall m | Matches(v, m, src, dest) :: v.connections[flat].owner <= v.connections[m].owner)
  {
    if Routable(v, src, dest) {
      var k :| 0 <= k < |v.connections| && Matches(v, k, src, dest);
      assert flat != NONE && nested != NONE;
    }
  }

  /** Without duplicate routes, sending uses the connection the loader knows. */
  lemma UniqueRoutesAgree(v: BusView, src: int, dest: int, flat: int, nested: int)
    requires UniqueRoutes(v)
    requires NewestMatch(v, src, dest, flat) && FirstProxyMatch(v, src, dest, nested)
    ensures flat == nested
  {
    SearchesAgreeExactly(v, src, dest, flat, nested);
  }

  // ------------------------------------------------------- searching in the objects

  lemma {:induction false} OwnedByHas(conns: seq<Connection>, p: Proxy, i: nat) returns (j: nat)
    requires i < |conns| && conns[i].proxy == p
    ensures j < |OwnedBy(conns, p)| && OwnedBy(conns, p)[j] == conns[i]
  {
    if i == 0 {
      j := 0;
    } else {
      j := OwnedByHas(conns[1..], p, i - 1);
      if conns[0].proxy == p {
        j := j + 1;
      }
    }
  }

  lemma {:induction false} OwnedByOrigin(conns: seq<Connection>, p: Proxy, j: nat) returns (i: nat)
    requires j < |OwnedBy(conns, p)|
    ensures i < |conns| && conns[i] == OwnedBy(conns, p)[j] && conns[i].proxy == p
  {
    if conns[0].proxy == p {
      if j == 0 {
        i := 0;
      } else {
        i := OwnedByOrigin(conns[1..], p, j - 1);
        i := i + 1;
      }
    } else {
      i := OwnedByOrigin(conns[1..], p, j);
      i := i + 1;
    }
  }

  predicate Increasing(conns: seq<Connection>) {
    forall i, j | 0 <= i < j < |conns| :: conns[i].id < conns[j].id
  }

  lemma {:induction false} OwnedByIncreasing(conns: seq<Connection>, p: Proxy)
    requires Increasing(conns)
    ensures Increasing(OwnedBy(conns, p))
  {
    if conns != [] {
      OwnedByIncreasing(conns[1..], p);
      forall j | 0 <= j < |OwnedBy(conns[1..], p)|
        ensures conns[0].id < OwnedBy(conns[1..], p)[j].id
      {
        var i := OwnedByOrigin(conns[1..], p, j);
        assert conns[1..][i] == conns[i + 1];
      }
    }
  }

  /** `MessageBus::GetConnection`: proxies in order, each proxy's connections backwards. */
  method GetConnection(bus: MessageBus, src: int, dest: int) returns (conn: Connection?)
    requires bus.Valid()
    ensures FirstProxyMatch(bus.View(), src, dest, if conn == null then NONE else conn.id)
    ensures conn == null ==> forall c | c in bus.connections :: c.proxy.config.localAddr != src || c.config.remoteAddr != dest
    ensures conn != null ==> conn in bus.connections && conn.proxy.config.localAddr == src && conn.config.remoteAddr == dest
    ensures conn != null ==>
              forall c | c in bus.connections && c.proxy.config.localAddr == src && c.config.remoteAddr == dest ::
                conn.proxy.id < c.proxy.id || (conn.proxy == c.proxy && c.id <= conn.id)
  {
    ghost var v := bus.View();
    ViewMatches(bus, src, dest);
    var i := 0;
    while i < |bus.proxies|
      invariant i <= |bus.proxies|
      invariant forall k | Matches(v, k, src, dest) :: v.connections[k].owner >= i
    {
      var proxy := bus.proxies[i];
      if proxy.config.localAddr == src {
        conn := LastTo(bus, i, dest);
        if conn != null {
          assert Matches(v, conn.id, src, dest);
          return;
        }
      }
      i := i + 1;
    }
    conn := null;
  }

  /** What a match is on the objects. */
  lemma ViewMatches(bus: MessageBus, src: int, dest: int)
    requires bus.Valid()
    ensures forall c | c in bus.connections :: 0 <= c.id < |bus.connections| && bus.connections[c.id] == c
    ensures forall c | c in bus.connections ::
              Matches(bus.View(), c.id, src, dest) <==> c.proxy.config.localAddr == src && c.config.remoteAddr == dest
    ensures forall c | c in bus.connections :: bus.View().connections[c.id].owner == c.proxy.id
    ensures forall c, d | c in bus.connections && d in bus.connections && c.proxy.id == d.proxy.id :: c.proxy == d.proxy
  {
    forall c | c in bus.connections
      ensures 0 <= c.proxy.id < |bus.proxies| && bus.proxies[c.proxy.id] == c.proxy
    {
      assert c.proxy in bus.proxies;
    }
  }

  /** The newest connection of one proxy to a remote address. */
  method LastTo(bus: MessageBus, i: nat, dest: int) returns (conn: Connection?)
    requires bus.Valid() && i < |bus.proxies|
    ensures conn == null ==>
              forall k | 0 <= k < |bus.connections| && bus.connections[k].proxy == bus.proxies[i] ::
                bus.connections[k].config.remoteAddr != dest
    ensures conn != null ==>
              && 0 <= conn.id < |bus.connections| && bus.connections[conn.id] == conn
              && conn.proxy == bus.proxies[i] && conn.config.remoteAddr == dest
              && forall k | conn.id < k < |bus.connections| && bus.connections[k].proxy == bus.proxies[i] ::
                   bus.connections[k].config.remoteAddr != dest
  {
    var proxy := bus.proxies[i];
    assert proxy in bus.proxies;
    var conns := proxy.connections;
    OwnedByIncreasing(bus.connections, proxy);
    var j := |conns|;
    while j > 0 && conns[j - 1].config.remoteAddr != dest
      invariant 0 <= j <= |conns|
      invariant forall m | j <= m < |conns| :: conns[m].config.remoteAddr != dest
    {
      j := j - 1;
    }
    ghost var floor := -1;
    conn := null;
    if j > 0 {
      conn := conns[j - 1];
      var k := OwnedByOrigin(bus.connections, proxy, j - 1);
      floor := conn.id;
    }
    forall k | floor < k < |bus.connections| && bus.connections[k].proxy == proxy
      ensures bus.connections[k].config.remoteAddr != dest
    {
      var m := OwnedByHas(bus.connections, proxy, k);
      assert conns[m].id == k;
    }
  }

  /** `RTIDNP3_MessageBus_getConnectionId`: all connections, backwards. */
  method GetConnectionId(bus: MessageBus, src: int, dest: int) returns (id: int)
    requires bus.Valid()
    ensures NewestMatch(bus.View(), src, dest, id)
    ensures id == -1 ==> forall c | c in bus.connections :: c.proxy.config.localAddr != src || c.config.remoteAddr != dest
    ensures id != -1 ==>
              && 0 <= id < |bus.connections| && bus.connections[id].id == id
              && bus.connections[id].proxy.config.localAddr == src && bus.connections[id].config.remoteAddr == dest
              && forall c | c in bus.connections[id + 1..] :: c.proxy.config.localAddr != src || c.config.remoteAddr != dest
  {
    ghost var v := bus.View();
    ViewMatches(bus, src, dest);
    var i: int := |bus.connections| - 1;
    while i >= 0
      invariant -1 <= i < |bus.connections|
      invariant forall k | Matches(v, k, src, dest) :: k <= i
    {
      var connection := bus.connections[i];
      assert connection in bus.connections;
      if connection.proxy.config.localAddr == src && connection.config.remoteAddr == dest {
        assert Matches(v, i, src, dest);
        return connection.id;
      }
      i := i - 1;
    }
    id := NONE;
  }

  /** The position of the first proxy with this name. */
  ghost predicate IsProxyId(v: BusView, name: string, id: int) {
    if id == NONE then forall i | 0 <= i < |v.proxies| :: v.proxies[i].name != name
    else 0 <= id < |v.proxies| && v.proxies[id].name == name && forall i | 0 <= i < id :: v.proxies[i].name != name
  }

  /** `RTIDNP3_MessageBus_getProxyId`. */
  method GetProxyId(bus: MessageBus, name: string) returns (id: int)
    requires bus.Valid()
    ensures IsProxyId(bus.View(), name, id)
    ensures id == -1 ==> forall k | 0 <= k < |bus.proxies| :: bus.proxies[k].name != name
    ensures id != -1 ==>
              && 0 <= id < |bus.proxies| && bus.proxies[id].name == name
              && forall k | 0 <= k < id :: bus.proxies[k].name != name
  {
    var i := 0;
    while i < |bus.proxies|
      invariant i <= |bus.proxies|
      invariant forall k | 0 <= k < i :: bus.proxies[k].name != name
    {
      if bus.proxies[i].name == name {
        return bus.proxies[i].id;
      }
      i := i + 1;
    }
    id := NONE;
    assert forall k | 0 <= k < |bus.proxies| :: bus.View().proxies[k].name == bus.proxies[k].name;
  }
}
