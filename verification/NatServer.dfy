/** Socket addresses and the order in which they are kept. */
module SocketAddresses {
  import opened Bytes
  import opened IpAddresses

  type Port = p: int | 0 <= p < 0x1_0000

  datatype SocketAddress = SocketAddress(hostname: seq<byte>, ip: Ip, port: Port)

  predicate AddressLess(a: SocketAddress, b: SocketAddress) {
    if a.ip != b.ip then IpLess(a.ip, b.ip)
    else if (IsAny(a.ip) || a.ip.Unspec?) && a.hostname != b.hostname then Before(a.hostname, b.hostname)
    else a.port < b.port
  }

  predicate SameAddress(a: SocketAddress, b: SocketAddress) {
    && a.ip == b.ip && a.port == b.port
    && ((!IsAny(a.ip) && !a.ip.Unspec?) || a.hostname == b.hostname)
  }

  /** The order is one that a `std::map` may be kept in, and the addresses it does not tell apart are
      those that `operator==` calls equal. */
  lemma AddressOrder(a: SocketAddress, b: SocketAddress, c: SocketAddress)
    ensures !(AddressLess(a, b) && AddressLess(b, a))
    ensures AddressLess(a, b) && AddressLess(b, c) ==> AddressLess(a, c)
    ensures (!AddressLess(a, b) && !AddressLess(b, a)) <==> SameAddress(a, b)
  {
    IpOrder(a.ip, b.ip, c.ip);
    BeforeTotal(a.hostname, b.hostname);
    BeforeTotal(b.hostname, c.hostname);
    if Before(a.hostname, b.hostname) && Before(b.hostname, c.hostname) {
      BeforeTransitive(a.hostname, b.hostname, c.hostname);
    }
  }
}

/** The quasi-STUN prefix by which a packet carries the address of its peer to and from the NAT. */
module NatWire {
  import opened Bytes
  import opened IpAddresses
  import opened SocketAddresses

  const AF_INET: byte := 2
  const AF_INET6: byte := 10

  function Family(ip: Ip): byte {
    match ip
    case Unspec => 0
    case V4(_) => AF_INET
    case V6(_) => AF_INET6
  }

  /** What `PackAddressForNAT` leaves in front of the payload: nothing when the family is neither IPv4
      nor IPv6. */
  function Pack(a: SocketAddress): seq<byte> {
    var head := [0, Family(a.ip), a.port / 0x100, a.port % 0x100];
    match a.ip
    case Unspec => []
    case V4(b) => head + b
    case V6(b) => head + b
  }

  /** What `UnpackAddressFromNAT` demands of a packet. */
  predicate WellFormed(buf: seq<byte>) {
    |buf| >= 8 && buf[0] == 0 && (buf[1] == AF_INET6 ==> |buf| >= 20)
  }

  /** The address in front of a packet, and its length. */
  function Unpack(buf: seq<byte>): (r: (SocketAddress, nat))
    requires WellFormed(buf)
    ensures r.1 <= |buf|
  {
    var port: Port := Join(buf[2], buf[3]);
    if buf[1] == AF_INET then (SocketAddress([], V4(buf[4..8]), port), 8)
    else if buf[1] == AF_INET6 then (SocketAddress([], V6(buf[4..20]), port), 20)
    else (SocketAddress([], Unspec, 0), 0)
  }

  /** A packet that was given an address, by a sender inside or by the NAT, yields that address and the
      payload again; the host name is not carried. */
  lemma PackUnpack(a: SocketAddress, payload: seq<byte>)
    requires !a.ip.Unspec?
    ensures Pack(a)[..2] == [0, if a.ip.V4? then AF_INET else AF_INET6] && 256 * (Pack(a)[2] as int) + Pack(a)[3] == a.port
    ensures Pack(a)[4..] == if a.ip.V4? then a.ip.v4 else a.ip.v6
    ensures WellFormed(Pack(a) + payload)
    ensures var (b, n) := Unpack(Pack(a) + payload);
      b == a.(hostname := []) && (Pack(a) + payload)[n..] == payload
  {
    var buf := Pack(a) + payload;
    assert a.port / 0x100 * 0x100 + a.port % 0x100 == a.port;
    match a.ip
    case V4(b) => assert buf[4..8] == b;
    case V6(b) => assert buf[4..20] == b;
  }
}

/**
  The NAT simulator: outbound packets are given an external endpoint, inbound packets are filtered.
 */
module NatServer {
  import opened Bytes
  import opened IpAddresses
  import opened SocketAddresses
  import opened NatWire

  /** The kinds of NAT of section 5 of RFC 3489. */
  datatype Kind = OpenCone | AddressRestricted | PortRestricted | Symmetric {
    predicate IsSymmetric() { Symmetric? }
    predicate FiltersIp() { !OpenCone? }
    predicate FiltersPort() { PortRestricted? || Symmetric? }
  }

  datatype Route = Route(source: SocketAddress, destination: SocketAddress)

  /** `RouteCmp` */
  predicate RouteLess(kind: Kind, a: Route, b: Route) {
    if AddressLess(a.source, b.source) then true
    else if AddressLess(b.source, a.source) then false
    else if kind.IsSymmetric() && AddressLess(a.destination, b.destination) then true
    else false
  }

  /** `AddrCmp` */
  predicate PeerLess(kind: Kind, a: SocketAddress, b: SocketAddress) {
    if kind.FiltersIp() && IpLess(a.ip, b.ip) then true
    else if kind.FiltersIp() && IpLess(b.ip, a.ip) then false
    else if kind.FiltersPort() && a.port < b.port then true
    else false
  }

  /** Routes that are to share an external endpoint: all of one source, and for a symmetric NAT only
      those to one destination. */
  predicate SameRoute(kind: Kind, a: Route, b: Route) {
    match kind
    case OpenCone | AddressRestricted | PortRestricted => SameAddress(a.source, b.source)
    case Symmetric => SameAddress(a.source, b.source) && SameAddress(a.destination, b.destination)
  }

  /** Peers that the filter is not to tell apart. */
  predicate SamePeer(kind: Kind, a: SocketAddress, b: SocketAddress) {
    match kind
    case OpenCone => true
    case AddressRestricted => a.ip == b.ip
    case PortRestricted | Symmetric => a.ip == b.ip && a.port == b.port
  }

  lemma RouteOrder(kind: Kind, a: Route, b: Route, c: Route)
    ensures !(RouteLess(kind, a, b) && RouteLess(kind, b, a))
    ensures RouteLess(kind, a, b) && RouteLess(kind, b, c) ==> RouteLess(kind, a, c)
    ensures (!RouteLess(kind, a, b) && !RouteLess(kind, b, a)) <==> SameRoute(kind, a, b)
  {
    AddressOrder(a.source, b.source, c.source);
    AddressOrder(b.source, c.source, a.source);
    AddressOrder(a.source, c.source, b.source);
    AddressOrder(a.destination, b.destination, c.destination);
    AddressOrder(b.destination, a.destination, c.destination);
  }

  lemma PeerOrder(kind: Kind, a: SocketAddress, b: SocketAddress, c: SocketAddress)
    ensures !(PeerLess(kind, a, b) && PeerLess(kind, b, a))
    ensures PeerLess(kind, a, b) && PeerLess(kind, b, c) ==> PeerLess(kind, a, c)
    ensures (!PeerLess(kind, a, b) && !PeerLess(kind, b, a)) <==> SamePeer(kind, a, b)
  {
    IpOrder(a.ip, b.ip, c.ip);
    IpOrder(b.ip, c.ip, a.ip);
    IpOrder(c.ip, b.ip, a.ip);
  }

  /** A packet that left through the external socket `endpoint`. */
  datatype Outbound = Outbound(route: Route, endpoint: SocketAddress)

  /** Two outbound packets leave through one endpoint exactly when their routes are the same. */
  ghost predicate MappingLaw(kind: Kind, sent: seq<Outbound>) {
    forall k, l | 0 <= k < |sent| && 0 <= l < |sent| ::
      SameAddress(sent[k].endpoint, sent[l].endpoint) <==> SameRoute(kind, sent[k].route, sent[l].route)
  }

  /** The peer at `remote` has been sent a packet through `endpoint`, or so it looks to the filter. */
  ghost predicate Contacted(kind: Kind, sent: seq<Outbound>, endpoint: SocketAddress, remote: SocketAddress) {
    exists k | 0 <= k < |sent| ::
      SameAddress(sent[k].endpoint, endpoint) && SamePeer(kind, sent[k].route.destination, remote)
  }

  /** `find(address) != end()` */
  predicate Listed(kind: Kind, whitelist: seq<SocketAddress>, address: SocketAddress) {
    exists k | 0 <= k < |whitelist| ::
      !PeerLess(kind, whitelist[k], address) && !PeerLess(kind, address, whitelist[k])
  }

  class TransEntry {
    const route: Route
    const socket: SocketAddress
    var whitelist: seq<SocketAddress>   // no two that PeerLess does not tell apart

    constructor (route: Route, socket: SocketAddress)
      ensures this.route == route && this.socket == socket && whitelist == []
    {
      this.route := route;
      this.socket := socket;
      whitelist := [];
    }

    method WhitelistInsert(kind: Kind, address: SocketAddress)
      modifies this
      ensures forall a :: Listed(kind, whitelist, a) <==> Listed(kind, old(whitelist), a) || SamePeer(kind, a, address)
      ensures forall a | a in whitelist :: a in old(whitelist) || a == address
    {
      PeerOrders(kind);
      if !Listed(kind, whitelist, address) {
        whitelist := whitelist + [address];
        assert whitelist[|whitelist| - 1] == address;
        assert forall k | 0 <= k < |old(whitelist)| :: whitelist[k] == old(whitelist[k]);
      }
    }

    /** True when no listed address is the peer's, as far as the filter can tell: the name says the
        opposite of what the method does, and its caller relies on what it does. */
    method WhitelistContains(kind: Kind, address: SocketAddress) returns (missing: bool)
      ensures missing <==> forall a | a in whitelist :: !SamePeer(kind, a, address)
    {
      for k := 0 to |whitelist|
        invariant forall j | 0 <= j < k :: !SamePeer(kind, whitelist[j], address)
      {
        PeerOrder(kind, whitelist[k], address, address);
        if !PeerLess(kind, whitelist[k], address) && !PeerLess(kind, address, whitelist[k]) {
          return false;
        }
      }
      missing := true;
    }
  }

  lemma ListedPeer(kind: Kind, whitelist: seq<SocketAddress>, a: SocketAddress, b: SocketAddress)
    requires Listed(kind, whitelist, a) && SamePeer(kind, a, b)
    ensures exists c | c in whitelist :: SamePeer(kind, c, b)
  {
    PeerOrders(kind);
    var n :| 0 <= n < |whitelist| && SamePeer(kind, whitelist[n], a);
    assert SamePeer(kind, whitelist[n], b);
  }

  lemma PeerOrders(kind: Kind)
    ensures forall a, b :: (!PeerLess(kind, a, b) && !PeerLess(kind, b, a)) <==> SamePeer(kind, a, b)
  {
    forall a, b
      ensures (!PeerLess(kind, a, b) && !PeerLess(kind, b, a)) <==> SamePeer(kind, a, b)
    {
      PeerOrder(kind, a, b, a);
    }
  }

  // A `std::map`: keys of which no two are equivalent in its order.

  predicate Equivalent<K>(less: (K, K) -> bool, a: K, b: K) { !less(a, b) && !less(b, a) }

  function Find<K, V>(m: seq<(K, V)>, less: (K, K) -> bool, key: K): (r: Option<nat>)
    ensures r.Some? ==> r.value < |m| && Equivalent(less, m[r.value].0, key)
    ensures r.None? ==> forall i | 0 <= i < |m| :: !Equivalent(less, m[i].0, key)
  {
    if m == [] then None
    else
      var n := |m| - 1;
      if Equivalent(less, m[n].0, key) then Some(n) else Find(m[..n], less, key)
  }

  /** `m[key] = value` */
  function Put<K, V>(m: seq<(K, V)>, less: (K, K) -> bool, key: K, value: V): seq<(K, V)> {
    match Find(m, less, key)
    case Some(i) => m[i := (m[i].0, value)]
    case None => m + [(key, value)]
  }

  function RouteCmp(kind: Kind): (Route, Route) -> bool { (a, b) => RouteLess(kind, a, b) }

  class NatServer {
    const kind: Kind
    var intMap: seq<(Route, TransEntry)>
    var extMap: seq<(SocketAddress, TransEntry)>

    /** What has left so far, and through which entry. */
    ghost var sent: seq<Outbound>
    ghost var via: seq<nat>

    ghost function Entries(): set<TransEntry>
      reads this
    {
      set i | 0 <= i < |intMap| :: intMap[i].1
    }

    /** Both maps hold the same entries, every one under its own route and its own socket. */
    ghost predicate Maps()
      reads this
    {
      && |intMap| == |extMap|
      && (forall i | 0 <= i < |intMap| ::
           intMap[i].0 == intMap[i].1.route && extMap[i] == (intMap[i].1.socket, intMap[i].1))
      && (forall i, j | 0 <= i < j < |intMap| ::
           && intMap[i].1 != intMap[j].1
           && !SameRoute(kind, intMap[i].0, intMap[j].0)
           && !SameAddress(extMap[i].0, extMap[j].0))
    }

    /** Outbound packet `k` left through its entry, which remembers the peer. */
    ghost predicate Remembered(k: nat)
      requires k < |sent| == |via|
      reads this, Entries()
    {
      && via[k] < |intMap|
      && sent[k].endpoint == intMap[via[k]].1.socket
      && SameRoute(kind, intMap[via[k]].0, sent[k].route)
      && Listed(kind, intMap[via[k]].1.whitelist, sent[k].route.destination)
    }

    ghost predicate SentVia(i: nat, peer: SocketAddress)
      reads this
    {
      exists k | 0 <= k < |sent| && k < |via| :: via[k] == i && sent[k].route.destination == peer
    }

    /** The entries know what was sent, and nothing else. */
    ghost predicate History()
      reads this, Entries()
    {
      && |via| == |sent|
      && (forall k | 0 <= k < |sent| :: Remembered(k))
      && (forall i | 0 <= i < |intMap| :: forall peer | peer in intMap[i].1.whitelist :: SentVia(i, peer))
    }

    ghost predicate Valid()
      reads this, Entries()
    {
      && Maps() && History()
      && forall i | 0 <= i < |intMap| :: |intMap[i].1.whitelist| > 0
    }

    /** The socket factory does not hand out an address that is in use. */
    ghost predicate Unused(address: SocketAddress)
      reads this
    {
      forall i | 0 <= i < |extMap| :: !SameAddress(extMap[i].0, address)
    }

    constructor (kind: Kind)
      ensures Valid() && this.kind == kind && sent == []
    {
      this.kind := kind;
      intMap, extMap, sent, via := [], [], [], [];
    }

    lemma RouteKeys(route: Route)
      ensures var r := Find(intMap, RouteCmp(kind), route);
        && (r.Some? ==> SameRoute(kind, intMap[r.value].0, route))
        && (r.None? ==> forall i | 0 <= i < |intMap| :: !SameRoute(kind, intMap[i].0, route))
    {
      forall i | 0 <= i < |intMap|
        ensures Equivalent(RouteCmp(kind), intMap[i].0, route) <==> SameRoute(kind, intMap[i].0, route)
      {
        RouteOrder(kind, intMap[i].0, route, route);
      }
    }

    lemma SocketKeys(address: SocketAddress)
      ensures var r := Find(extMap, AddressLess, address);
        && (r.Some? ==> SameAddress(extMap[r.value].0, address))
        && (r.None? ==> Unused(address))
    {
      forall i | 0 <= i < |extMap|
        ensures Equivalent(AddressLess, extMap[i].0, address) <==> SameAddress(extMap[i].0, address)
      {
        AddressOrder(extMap[i].0, address, address);
      }
    }

    method Translate(route: Route, created: Option<SocketAddress>) returns (done: bool)
      requires Valid() && Find(intMap, RouteCmp(kind), route).None?
      requires created.Some? ==> Unused(created.value)
      modifies `intMap, `extMap
      ensures done <==> created.Some?
      ensures !done ==> intMap == old(intMap) && extMap == old(extMap)
      ensures Maps() && History()
      ensures done ==>
        && |intMap| == |old(intMap)| + 1 && intMap[..|old(intMap)|] == old(intMap)
        && var (key, entry) := intMap[|old(intMap)|];
          fresh(entry) && key == route && entry.socket == created.value && entry.whitelist == []
    {
      hide SameRoute, SameAddress, Listed;
      done := created.Some?;
      if done {
        ghost var before := intMap;
        Install(route, created.value);
        forall k | 0 <= k < |sent| ensures Remembered(k) {
          assert old(Remembered(k));
          assert intMap[via[k]] == before[via[k]];
        }
      }
    }

    method Install(route: Route, socket: SocketAddress)
      requires Maps() && Find(intMap, RouteCmp(kind), route).None? && Unused(socket)
      modifies `intMap, `extMap
      ensures Maps() && |intMap| == |old(intMap)| + 1 && intMap[..|old(intMap)|] == old(intMap)
      ensures var (key, entry) := intMap[|old(intMap)|];
        fresh(entry) && key == route && entry.socket == socket && entry.whitelist == []
    {
      var entry := new TransEntry(route, socket);
      RouteKeys(route);
      SocketKeys(socket);
      ghost var before := intMap;
      intMap := Put(intMap, RouteCmp(kind), route, entry);
      extMap := Put(extMap, AddressLess, socket, entry);
      assert intMap == before + [(route, entry)];
    }

    /** Allow the destination to answer, and let a packet for it leave through entry `i`. */
    method LeaveThrough(i: nat, route: Route)
      requires Maps() && History() && i < |intMap| && SameRoute(kind, intMap[i].0, route)
      modifies intMap[i].1, `sent, `via
      ensures Maps() && History() && |intMap[i].1.whitelist| > 0
      ensures sent == old(sent) + [Outbound(route, intMap[i].1.socket)] && via == old(via) + [i]
    {
      intMap[i].1.WhitelistInsert(kind, route.destination);
      assert Listed(kind, intMap[i].1.whitelist, route.destination);
      sent, via := sent + [Outbound(route, intMap[i].1.socket)], via + [i];
      forall k | 0 <= k < |sent| ensures Remembered(k) {
        if k < |old(sent)| { assert old(Remembered(k)); }
      }
      forall j, peer | 0 <= j < |intMap| && peer in intMap[j].1.whitelist ensures SentVia(j, peer) {
        if j == i && peer == route.destination {
          assert via[|old(sent)|] == i && sent[|old(sent)|].route.destination == peer;
        } else {
          assert peer in old(intMap[j].1.whitelist);
          var k :| 0 <= k < |old(sent)| && old(via)[k] == j && old(sent)[k].route.destination == peer;
          assert via[k] == j && sent[k].route.destination == peer;
        }
      }
    }

    /** The entry for a route, made if there was none. */
    method FindOrTranslate(route: Route, created: Option<SocketAddress>) returns (found: Option<nat>)
      requires Valid()
      requires created.Some? ==> Unused(created.value)
      modifies `intMap, `extMap
      ensures Maps() && History()
      ensures found.None? <==> created.None? && forall k | 0 <= k < |sent| :: !SameRoute(kind, sent[k].route, route)
      ensures found.None? ==> Valid()
      ensures found.Some? ==> found.value < |intMap| && SameRoute(kind, intMap[found.value].0, route)
      ensures found.Some? && (forall k | 0 <= k < |sent| :: !SameRoute(kind, sent[k].route, route)) ==>
        created == Some(intMap[found.value].1.socket)
      ensures found.Some? ==> intMap[found.value].1 in old(Entries()) || fresh(intMap[found.value].1)
      ensures forall i | 0 <= i < |intMap| && found != Some(i) :: |intMap[i].1.whitelist| > 0
    {
      RouteKeys(route);
      RoutesKnown(route);
      found := Find(intMap, RouteCmp(kind), route);
      if found.None? {
        var done := Translate(route, created);
        if done {
          found := Find(intMap, RouteCmp(kind), route);
          RouteKeys(route);
          SameRouteReflexive(route);
        }
      }
    }

    /** A packet from inside, for the address in front of it. `created` is the socket that the factory
        would make, if it can. With no entry and no socket there is nothing to send through. */
    method OnInternalUDPPacket(buf: seq<byte>, source: SocketAddress, created: Option<SocketAddress>)
      returns (out: Option<(seq<byte>, Outbound)>)
      requires Valid() && WellFormed(buf)
      requires created.Some? ==> Unused(created.value)
      modifies this, Entries()
      ensures Valid()
      ensures var route := Route(source, Unpack(buf).0);
        && (out.None? <==> created.None? && forall k | 0 <= k < |old(sent)| :: !SameRoute(kind, old(sent)[k].route, route))
        && (out.None? ==> sent == old(sent))
        && (out.Some? ==>
             && out.value.0 == buf[Unpack(buf).1..]
             && out.value.1.route == route
             && ((forall k | 0 <= k < |old(sent)| :: !SameRoute(kind, old(sent)[k].route, route)) ==>
                  created == Some(out.value.1.endpoint))
             && sent == old(sent) + [out.value.1])
      ensures MappingLaw(kind, sent)
    {
      var (destination, length) := Unpack(buf);
      var route := Route(source, destination);
      var found := FindOrTranslate(route, created);
      if found.None? {
        SharedEndpoints();
        return None;
      }
      LeaveThrough(found.value, route);
      out := Some((buf[length..], Outbound(route, intMap[found.value].1.socket)));
      SharedEndpoints();
    }

    /** Every entry has been used: a route has one exactly when a packet has gone that way. */
    lemma RoutesKnown(route: Route)
      requires Valid()
      ensures Find(intMap, RouteCmp(kind), route).Some? <==>
        exists k | 0 <= k < |sent| :: SameRoute(kind, sent[k].route, route)
    {
      RouteKeys(route);
      var r := Find(intMap, RouteCmp(kind), route);
      if r.Some? {
        assert SentVia(r.value, intMap[r.value].1.whitelist[0]);
        var k :| 0 <= k < |sent| && via[k] == r.value;
        assert Remembered(k);
      } else {
        forall k | 0 <= k < |sent| ensures !SameRoute(kind, sent[k].route, route) {
          assert Remembered(k);
        }
      }
    }

    lemma SameRouteReflexive(route: Route)
      ensures SameRoute(kind, route, route)
    {
    }

    /** Over every run: one endpoint exactly when one source, and for a symmetric NAT one destination. */
    lemma SharedEndpoints()
      requires Maps() && History()
      ensures MappingLaw(kind, sent)
    {
      forall k, l | 0 <= k < |sent| && 0 <= l < |sent|
        ensures SameAddress(sent[k].endpoint, sent[l].endpoint) <==> SameRoute(kind, sent[k].route, sent[l].route)
      {
        assert Remembered(k) && Remembered(l);
      }
    }

    /** A packet from outside, at the socket `local`. It goes on exactly when the filter takes it for an
        answer, to the address from which that endpoint is used. */
    method OnExternalUDPPacket(local: SocketAddress, buf: seq<byte>, remote: SocketAddress)
      returns (out: Option<(seq<byte>, SocketAddress)>)
      requires Valid() && !Unused(local)
      ensures out.Some? <==> Contacted(kind, sent, local, remote)
      // Kind by kind: anybody; the addresses, or the addresses and ports, that were sent something through it.
      ensures kind.OpenCone? ==> out.Some?
      ensures kind.AddressRestricted? ==> (out.Some? <==>
        exists k | 0 <= k < |sent| :: SameAddress(sent[k].endpoint, local) && sent[k].route.destination.ip == remote.ip)
      ensures kind.PortRestricted? || kind.Symmetric? ==> (out.Some? <==>
        exists k | 0 <= k < |sent| :: SameAddress(sent[k].endpoint, local)
          && sent[k].route.destination.ip == remote.ip && sent[k].route.destination.port == remote.port)
      ensures out.Some? ==> out.value.0 == Pack(remote) + buf
      ensures out.Some? ==> forall k | 0 <= k < |sent| && SameAddress(sent[k].endpoint, local) ::
        SameAddress(sent[k].route.source, out.value.1)
    {
      SocketKeys(local);
      var i := Find(extMap, AddressLess, local).value;
      var entry := extMap[i].1;
      FilterMeansContacted(i, local, remote);
      ContactedByKind(i, local, remote);
      hide Contacted;
      var filtered := entry.WhitelistContains(kind, remote);
      if filtered {
        return None;
      }
      out := Some((Pack(remote) + buf, entry.route.source));
    }

    lemma ContactedByKind(i: nat, local: SocketAddress, remote: SocketAddress)
      requires Valid() && i < |intMap| && SameAddress(extMap[i].0, local)
      ensures kind.OpenCone? ==> Contacted(kind, sent, local, remote)
      ensures kind.AddressRestricted? ==> (Contacted(kind, sent, local, remote) <==>
        exists k | 0 <= k < |sent| :: SameAddress(sent[k].endpoint, local) && sent[k].route.destination.ip == remote.ip)
      ensures kind.PortRestricted? || kind.Symmetric? ==> (Contacted(kind, sent, local, remote) <==>
        exists k | 0 <= k < |sent| :: SameAddress(sent[k].endpoint, local)
          && sent[k].route.destination.ip == remote.ip && sent[k].route.destination.port == remote.port)
    {
      assert SentVia(i, intMap[i].1.whitelist[0]);
      var k :| 0 <= k < |sent| && via[k] == i;
      assert Remembered(k);
    }

    /** Only a symmetric NAT gives two destinations of one source two endpoints. */
    lemma EndpointsByKind(k: nat, l: nat)
      requires Maps() && History() && k < |sent| && l < |sent|
      ensures !kind.Symmetric? ==>
        (SameAddress(sent[k].endpoint, sent[l].endpoint) <==> SameAddress(sent[k].route.source, sent[l].route.source))
      ensures kind.Symmetric? ==>
        (SameAddress(sent[k].endpoint, sent[l].endpoint) <==>
          SameAddress(sent[k].route.source, sent[l].route.source)
          && SameAddress(sent[k].route.destination, sent[l].route.destination))
    {
      SharedEndpoints();
      assert SameAddress(sent[k].endpoint, sent[l].endpoint) <==> SameRoute(kind, sent[k].route, sent[l].route);
    }

    lemma FilterMeansContacted(i: nat, local: SocketAddress, remote: SocketAddress)
      requires Valid() && i < |intMap| && SameAddress(extMap[i].0, local)
      ensures (exists a | a in intMap[i].1.whitelist :: SamePeer(kind, a, remote)) <==> Contacted(kind, sent, local, remote)
      ensures forall k | 0 <= k < |sent| && SameAddress(sent[k].endpoint, local) :: via[k] == i && Remembered(k)
    {
      forall k | 0 <= k < |sent| && SameAddress(sent[k].endpoint, local) ensures via[k] == i && Remembered(k) {
        assert Remembered(k);
      }
      hide SameRoute, Listed, SamePeer, SameAddress, NatServer.Maps;
      var whitelist := intMap[i].1.whitelist;
      if a :| a in whitelist && SamePeer(kind, a, remote) {
        assert SentVia(i, a);
        var k :| 0 <= k < |sent| && via[k] == i && sent[k].route.destination == a;
        assert Remembered(k);
      }
      if Contacted(kind, sent, local, remote) {
        var k :| 0 <= k < |sent| && SameAddress(sent[k].endpoint, local) && SamePeer(kind, sent[k].route.destination, remote);
        ListedPeer(kind, whitelist, sent[k].route.destination, remote);
      }
    }
  }
}
