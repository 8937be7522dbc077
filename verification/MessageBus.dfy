/**
 The registry of the message bus: proxies, connections, and the connection list
 that each proxy keeps for itself. Ids are array positions at creation time. The
 arrays, whose macros are treated in GrowArrays, are sequences here. Creating the
 underlying protocol stack is taken to succeed.
 */
module MessageBuses {
  import opened GrowArrays

  const NONE := -1

  datatype ProxyConfig = ProxyConfig(localAddr: int, isMaster: int)

  datatype ConnectionConfig = ConnectionConfig(
    remoteAddr: int, portName: string, appTimeout: int, linkTimeout: int,
    fragSize: int, numRetry: int, useConfirms: int)

  class Connection {
    const id: int
    const config: ConnectionConfig
    const proxy: Proxy

    constructor (id: int, config: ConnectionConfig, proxy: Proxy)
      ensures this.id == id && this.config == config && this.proxy == proxy
    {
      this.id, this.config, this.proxy := id, config, proxy;
    }
  }

  /** The position of the first connection with this id, or the length. */
  function IndexOfId(conns: seq<Connection>, id: int): (i: nat)
    ensures i <= |conns|
    ensures i < |conns| ==> conns[i].id == id
    ensures forall j | 0 <= j < i :: conns[j].id != id
  {
    if conns == [] || conns[0].id == id then 0
    else
      var i := IndexOfId(conns[1..], id);
      assert forall j | 0 < j < i + 1 :: conns[j] == conns[1..][j - 1];
      1 + i
  }

  class Proxy {
    const name: string
    const id: int
    const config: ProxyConfig
    var connections: seq<Connection>

    constructor (name: string, id: int, config: ProxyConfig)
      ensures this.name == name && this.id == id && this.config == config && connections == []
    {
      this.name, this.id, this.config, connections := name, id, config, [];
    }

    method NewConnection(connId: int, connConfig: ConnectionConfig) returns (conn: Connection)
      modifies this
      ensures fresh(conn) && conn.id == connId && conn.config == connConfig && conn.proxy == this
      ensures connections == old(connections) + [conn]
    {
      conn := new Connection(connId, connConfig, this);
      connections := connections + [conn];
    }

    /** Removes the first connection with this id. */
    method DeleteConnection(connId: int) returns (deleted: bool)
      modifies this
      ensures deleted <==> IndexOfId(old(connections), connId) < |old(connections)|
      ensures connections == RemoveAt(old(connections), IndexOfId(old(connections), connId))
    {
      var index := -1;
      var i := 0;
      while i < |connections| && index == -1
        invariant i <= |connections| && connections == old(connections)
        invariant index == -1 ==> forall j | 0 <= j < i :: connections[j].id != connId
        invariant index != -1 ==> index == IndexOfId(connections, connId) < |connections|
      {
        if connections[i].id == connId {
          index := i;
        }
        i := i + 1;
      }
      deleted := index > -1;
      if deleted {
        connections := RemoveAt(connections, index);
      }
    }
  }

  // -------------------------------------------------------- sequences of connections

  /** The connections of one proxy, in bus order. */
  function OwnedBy(conns: seq<Connection>, p: Proxy): seq<Connection> {
    if conns == [] then []
    else (if conns[0].proxy == p then [conns[0]] else []) + OwnedBy(conns[1..], p)
  }

  predicate DistinctIds(conns: seq<Connection>) {
    forall i, j | 0 <= i < j < |conns| :: conns[i].id != conns[j].id
  }

  lemma {:induction false} OwnedByConcat(a: seq<Connection>, b: seq<Connection>, p: Proxy)
    ensures OwnedBy(a + b, p) == OwnedBy(a, p) + OwnedBy(b, p)
  {
    if a == [] {
      assert a + b == b;
    } else {
      var head := if a[0].proxy == p then [a[0]] else [];
      assert (a + b)[1..] == a[1..] + b;
      OwnedByConcat(a[1..], b, p);
      assert head + (OwnedBy(a[1..], p) + OwnedBy(b, p)) == head + OwnedBy(a[1..], p) + OwnedBy(b, p);
    }
  }

  lemma {:induction false} OwnedByAvoids(conns: seq<Connection>, p: Proxy, id: int)
    requires forall i | 0 <= i < |conns| :: conns[i].id != id
    ensures forall j | 0 <= j < |OwnedBy(conns, p)| :: OwnedBy(conns, p)[j].id != id
  {
    if conns != [] {
      OwnedByAvoids(conns[1..], p, id);
    }
  }

  lemma {:induction false} OwnedByNone(conns: seq<Connection>, p: Proxy)
    requires forall c | c in conns :: c.proxy != p
    ensures OwnedBy(conns, p) == []
  {
    if conns != [] {
      OwnedByNone(conns[1..], p);
    }
  }

  lemma {:induction false} OwnedByDistinct(conns: seq<Connection>, p: Proxy)
    requires DistinctIds(conns)
    ensures DistinctIds(OwnedBy(conns, p))
  {
    if conns != [] {
      OwnedByDistinct(conns[1..], p);
      OwnedByAvoids(conns[1..], p, conns[0].id);
    }
  }

  lemma OwnedByAround(a: seq<Connection>, c: Connection, b: seq<Connection>, p: Proxy)
    ensures OwnedBy(a + ([c] + b), p) == OwnedBy(a, p) + ((if c.proxy == p then [c] else []) + OwnedBy(b, p))
  {
    OwnedByConcat(a, [c] + b, p);
    assert ([c] + b)[1..] == b;
  }

  /** Taking one connection out of the bus takes it out of its owner's list only. */
  lemma OwnedByRemoveAt(conns: seq<Connection>, i: nat, p: Proxy)
    requires i < |conns| && DistinctIds(conns)
    ensures OwnedBy(RemoveAt(conns, i), p) ==
            if conns[i].proxy == p then RemoveAt(OwnedBy(conns, p), IndexOfId(OwnedBy(conns, p), conns[i].id))
            else OwnedBy(conns, p)
    ensures conns[i].proxy == p ==> IndexOfId(OwnedBy(conns, p), conns[i].id) < |OwnedBy(conns, p)|
  {
    hide OwnedBy, RemoveAt;
    var a, c, b := conns[..i], conns[i], conns[i + 1..];
    assert conns == a + ([c] + b);
    RemoveMiddle(a, c, b);
    OwnedByConcat(a, b, p);
    OwnedByAround(a, c, b, p);
    OwnedByDistinct(conns, p);
    if c.proxy == p {
      var n, owned := |OwnedBy(a, p)|, OwnedBy(conns, p);
      assert owned[n] == c;
      IndexOfIdAt(owned, n);
      RemoveMiddle(OwnedBy(a, p), c, OwnedBy(b, p));
    }
  }

  lemma IndexOfIdAt(conns: seq<Connection>, i: nat)
    requires DistinctIds(conns) && i < |conns|
    ensures IndexOfId(conns, conns[i].id) == i
  {
  }

  /** With distinct ids, removing at different positions gives different lists. */
  lemma RemoveAtDiffers(conns: seq<Connection>, i: nat, j: nat)
    requires DistinctIds(conns) && i < |conns| && j <= |conns|
    ensures RemoveAt(conns, i) == RemoveAt(conns, j) <==> i == j
  {
    if i < j < |conns| {
      assert RemoveAt(conns, i)[i] == conns[i + 1] && RemoveAt(conns, j)[i] == conns[i];
    } else if j < i {
      assert RemoveAt(conns, j)[j] == conns[j + 1] && RemoveAt(conns, i)[j] == conns[j];
    } else if j == |conns| {
      assert |RemoveAt(conns, i)| < |RemoveAt(conns, j)|;
    }
  }

  predicate IdsArePositions(conns: seq<Connection>) {
    forall i | 0 <= i < |conns| :: conns[i].id == i
  }

  lemma AfterRemoving(conns: seq<Connection>, at: nat)
    requires DistinctIds(conns) && at < |conns|
    ensures DistinctIds(RemoveAt(conns, at))
    ensures forall c | c in RemoveAt(conns, at) :: c in conns
    ensures IdsArePositions(conns) ==> (IdsArePositions(RemoveAt(conns, at)) <==> at == |conns| - 1)
  {
    if at < |conns| - 1 {
      assert RemoveAt(conns, at)[at] == conns[at + 1];
    }
  }

  /** The owner's list after closing position `at` by id `id`: right exactly when the ids agree. */
  lemma ClosingIsConsistent(conns: seq<Connection>, at: nat, id: int)
    requires DistinctIds(conns) && at < |conns|
    ensures var owned := OwnedBy(conns, conns[at].proxy);
            RemoveAt(owned, IndexOfId(owned, id)) == OwnedBy(RemoveAt(conns, at), conns[at].proxy)
            <==> conns[at].id == id
  {
    var p := conns[at].proxy;
    var owned := OwnedBy(conns, p);
    OwnedByRemoveAt(conns, at, p);
    OwnedByDistinct(conns, p);
    var k := IndexOfId(owned, conns[at].id);
    RemoveAtDiffers(owned, k, IndexOfId(owned, id));
  }

  // --------------------------------------------------------------------- the bus

  /** What the loader and the searches see: owners are positions of proxies. */
  datatype ProxyView = ProxyView(name: string, config: ProxyConfig)
  datatype ConnectionView = ConnectionView(owner: int, config: ConnectionConfig)
  datatype BusView = BusView(proxies: seq<ProxyView>, connections: seq<ConnectionView>)

  class MessageBus {
    var proxies: seq<Proxy>
    var connections: seq<Connection>

    /** Every connection on the bus is in exactly one proxy's list, in bus order, with a matching back pointer. */
    ghost predicate Linked()
      reads this, proxies
    {
      && (forall i | 0 <= i < |proxies| :: proxies[i].id == i)
      && DistinctIds(connections)
      && (forall c | c in connections :: c.proxy in proxies)
      && (forall p | p in proxies :: p.connections == OwnedBy(connections, p))
    }

    /** Moreover, the id of a connection is its position. */
    ghost predicate Valid()
      reads this, proxies
    {
      Linked() && IdsArePositions(connections)
    }

    ghost function View(): (v: BusView)
      requires Valid()
      reads this, proxies
      ensures |v.proxies| == |proxies| && |v.connections| == |connections|
      ensures forall c | c in v.connections :: 0 <= c.owner < |v.proxies|
    {
      var ps := proxies;
      var cs := connections;
      assert forall c | c in cs :: 0 <= c.proxy.id < |ps|;
      BusView(seq(|ps|, i requires 0 <= i < |ps| => ProxyView(ps[i].name, ps[i].config)),
              seq(|cs|, i requires 0 <= i < |cs| => ConnectionView(cs[i].proxy.id, cs[i].config)))
    }

    constructor ()
      ensures Valid() && View() == BusView([], [])
    {
      proxies, connections := [], [];
    }

    method NewProxy(name: string, config: ProxyConfig) returns (id: int)
      requires Valid()
      modifies this
      ensures Valid() && fresh(set p | p in proxies && p !in old(proxies))
      ensures id == |old(proxies)| && |proxies| == id + 1 && proxies[..id] == old(proxies)
      ensures proxies[id].id == id && proxies[id].name == name && proxies[id].config == config
      ensures View() == old(View()).(proxies := old(View()).proxies + [ProxyView(name, config)])
    {
      id := |proxies|;
      var proxy := new Proxy(name, id, config);
      OwnedByNone(connections, proxy);
      proxies := proxies + [proxy];
    }

    method NewConnection(proxyId: int, config: ConnectionConfig) returns (id: int)
      requires Valid() && NONE <= proxyId < |proxies|
      modifies this, proxies
      ensures Valid() && proxies == old(proxies)
      ensures proxyId == NONE ==> id == NONE && connections == old(connections) && View() == old(View())
      ensures proxyId != NONE ==> id == |old(connections)| && |connections| == id + 1 && connections[..id] == old(connections)
      ensures proxyId != NONE ==>
                connections[id].id == id && connections[id].config == config && connections[id].proxy == proxies[proxyId]
      ensures proxyId != NONE ==>
                View() == old(View()).(connections := old(View()).connections + [ConnectionView(proxyId, config)])
    {
      if proxyId == NONE {
        return NONE;
      }
      var proxy := proxies[proxyId];
      id := |connections|;
      var conn := proxy.NewConnection(id, config);
      forall p | p in proxies
        ensures OwnedBy(connections + [conn], p) == OwnedBy(connections, p) + if p == proxy then [conn] else []
      {
        OwnedByConcat(connections, [conn], p);
        assert [conn][1..] == [];
      }
      connections := connections + [conn];
    }

    /**
     Closing: the argument selects by position on the bus but by id in the proxy.
     The lists stay consistent exactly when position and id coincide, and ids stay
     positions exactly when the newest connection is closed.
     */
    method DeleteConnection(id: nat) returns (deleted: bool)
      requires Linked()
      modifies this, proxies
      ensures proxies == old(proxies)
      ensures connections == RemoveAt(old(connections), id)
      ensures id >= |old(connections)| ==> !deleted && Linked()
      ensures id < |old(connections)| ==> (Linked() <==> old(connections[id].id) == id)
      ensures id < |old(connections)| ==>
                var owned := OwnedBy(old(connections), old(connections)[id].proxy);
                deleted <==> IndexOfId(owned, id) < |owned|
      ensures id < |old(connections)| && old(Valid()) ==> deleted && Linked()
      ensures id < |old(connections)| && old(Valid()) ==> (Valid() <==> id == |old(connections)| - 1)
    {
      if id >= |connections| {
        return false;
      }
      hide OwnedBy, IndexOfId, RemoveAt;
      var conn := connections[id];
      var proxy := conn.proxy;
      ghost var before := connections;
      assert conn in before;
      ClosingIsConsistent(before, id, id);
      AfterRemoving(before, id);
      forall p | p in proxies
        ensures p != proxy ==> OwnedBy(RemoveAt(before, id), p) == OwnedBy(before, p)
      {
        OwnedByRemoveAt(before, id, p);
      }
      connections := RemoveAt(connections, id);
      OwnedByRemoveAt(before, id, proxy);
      deleted := proxy.DeleteConnection(id);
    }
  }
}
