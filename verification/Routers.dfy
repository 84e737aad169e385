/** The router as an object: a trie of routes and a row of interfaces. */
module Routers {
  import opened Words
  import opened Routing
  import opened Tries
  import opened Arp
  import opened ArpInvariants
  import opened NetworkInterfaces
  import opened Forwarding

  /** An interface that keeps received datagrams until they are fetched. */
  class AsyncNetworkInterface {
    const net: NetworkInterface
    var datagramsOut: seq<Datagram>

    constructor (interface: NetworkInterface)
      ensures net == interface && datagramsOut == []
    {
      net := interface;
      datagramsOut := [];
    }

    method RecvFrame(f: Frame)
      requires net.Valid()
      modifies this, net
      ensures net.Valid() && net.State() == old(net.State()).RecvFrame(f)
      ensures var d := old(net.State()).Received(f);
              datagramsOut == old(datagramsOut) + if d.Some? then [d.value] else []
    {
      var d := net.RecvFrame(f);
      if d.Some? {
        datagramsOut := datagramsOut + [d.value];
      }
    }
  }

  class Router {
    const root: TrieNode
    var interfaces: seq<AsyncNetworkInterface>
    ghost var routes: seq<Route>

    ghost function NetObjects(): set<NetworkInterface>
      reads this
    {
      set i | 0 <= i < |interfaces| :: interfaces[i].net
    }

    ghost predicate Valid()
      reads this, root, root.repr, NetObjects()
    {
      && root.Valid() && root.Tree() == Build(routes)
      && (forall i :: 0 <= i < |interfaces| ==> interfaces[i].net.Valid())
      && (forall i, j :: 0 <= i < j < |interfaces| ==> interfaces[i] != interfaces[j] && interfaces[i].net != interfaces[j].net)
    }

    /** The states of the interfaces, in order. */
    ghost function Nets(): seq<Interface>
      reads this, NetObjects()
    {
      seq(|interfaces|, i requires 0 <= i < |interfaces| reads this, NetObjects() => interfaces[i].net.State())
    }

    constructor ()
      ensures Valid() && interfaces == [] && routes == []
    {
      root := new TrieNode();
      interfaces, routes := [], [];
    }

    /** Takes over an interface, which no longer has another owner; its number is where it stands in the row. */
    method AddInterface(added: AsyncNetworkInterface) returns (n: nat)
      requires Valid() && added.net.Valid() && added !in interfaces && added.net !in NetObjects()
      modifies `interfaces
      ensures Valid() && n < |interfaces| && interfaces[n] == added
      ensures interfaces == old(interfaces) + [added] && Nets() == old(Nets()) + [added.net.State()]
    {
      hide Build;
      interfaces := interfaces + [added];
      n := |interfaces| - 1;
    }

    /** Adds a route for the high-order `len` bits of `prefix`. */
    method AddRoute(prefix: Ip, len: nat, hop: Option<Ip>, iface: nat)
      requires Valid()
      modifies this, root.repr
      ensures Valid() && routes == old(routes) + [Routing.Route.Route(prefix, len, Target(iface, hop))]
      ensures interfaces == old(interfaces) && Nets() == old(Nets())
    {
      hide Build, TopBits, Inv, Routing.Insert;
      root.Insert(prefix, len, Target(iface, hop));
      BuildSnoc(routes, Routing.Route.Route(prefix, len, Target(iface, hop)));
      routes := routes + [Routing.Route.Route(prefix, len, Target(iface, hop))];
    }

    /** The queues of the interfaces, in order. */
    ghost function Queues(): seq<seq<Datagram>>
      reads this, interfaces
    {
      seq(|interfaces|, i requires 0 <= i < |interfaces| reads this, interfaces => interfaces[i].datagramsOut)
    }

    /** Sends a datagram on interface `k`. */
    method SendOn(k: nat, d: Datagram, hop: Ip)
      requires Valid() && k < |interfaces|
      modifies interfaces[k].net
      ensures Valid() && Nets() == old(Nets())[k := old(Nets())[k].SendDatagram(d, hop)]
    {
      hide Build, Inv, Interface.SendDatagram;
      interfaces[k].net.SendDatagram(d, hop);
    }

    /** Routes one datagram, taking a hop off it in place; fails for a missing interface. */
    method RouteOneDatagram(d: Datagram) returns (ok: bool, spent: Datagram)
      requires Valid()
      modifies NetObjects()
      ensures Valid() && spent == Spent(d)
      ensures var r := RouteOne(old(Nets()), routes, d);
              ok == r.Some? && Nets() == if ok then r.value else old(Nets())
    {
      hide Build, TopBits, Inv, Lookup, Best, Interface.SendDatagram, NetworkInterface.Valid;
      var end := root.Walk(d.dst);
      LookupIsLongestPrefixMatch(routes, d.dst);
      if d.ttl < 2 {
        return true, d;
      }
      var k := end.target.iface;
      spent := d.(ttl := d.ttl - 1);
      if k >= |interfaces| {
        return false, spent;
      }
      var hop := if end.target.hop.Some? then end.target.hop.value else d.dst;
      SendOn(k, spent, hop);
      ok := true;
    }

    /** Empties the queue of interface `k`; stops at a datagram that cannot be routed. */
    method RouteQueueOf(k: nat) returns (ok: bool)
      requires Valid() && k < |interfaces|
      modifies interfaces[k], NetObjects()
      ensures Valid()
      ensures var r := RouteQueue(old(Nets()), routes, old(Queues())[k]);
              Nets() == r.nets && Queues() == old(Queues())[k := r.left] && (ok <==> r.left == [])
    {
      hide Build, Inv, RouteOne, Spent, NetworkInterface.Valid, NetworkInterface.State;
      ghost var goal := RouteQueue(Nets(), routes, interfaces[k].datagramsOut);
      while |interfaces[k].datagramsOut| > 0
        invariant Valid() && RouteQueue(Nets(), routes, interfaces[k].datagramsOut) == goal
        decreases |interfaces[k].datagramsOut|
      {
        var sent, spent := RouteOneDatagram(interfaces[k].datagramsOut[0]);
        if !sent {
          interfaces[k].datagramsOut := [spent] + interfaces[k].datagramsOut[1..];
          return false;
        }
        interfaces[k].datagramsOut := interfaces[k].datagramsOut[1..];
      }
      return true;
    }

    /** Routes everything received, interface by interface, up to the first failure. */
    method Route() returns (ok: bool)
      requires Valid()
      modifies interfaces, NetObjects()
      ensures Valid() && RoutedAll(Nets(), Queues()) == RouteQueues(old(Nets()), routes, old(Queues()))
      ensures ok <==> Queues() == Empties(|interfaces|)
    {
      hide Build, Inv, RouteQueue, RouteQueues, NetworkInterface.Valid, Queues, Nets;
      ghost var queues := Queues();
      ghost var goal := RouteQueues(Nets(), routes, queues);
      AsManyQueues();
      StartRouting(Nets(), routes, queues);
      for k := 0 to |interfaces|
        invariant Valid() && Resumes(Nets(), routes, queues, k, goal) && Queues() == Empties(k) + queues[k..]
      {
        Resume(Nets(), routes, queues, k, goal);
        var sent := RouteQueueOf(k);
        QueueDone(queues, k);
        if !sent {
          assert Queues()[k] != [];
          return false;
        }
      }
      Finish(Nets(), routes, queues, goal);
      return true;
    }

    lemma AsManyQueues()
      ensures |Queues()| == |interfaces|
    {
    }
  }

  function Empties(k: nat): (r: seq<seq<Datagram>>)
    ensures |r| == k && forall i :: 0 <= i < k ==> r[i] == []
  {
    seq(k, _ => [])
  }

  /** The first `k` queues are done; routing the others leads to the goal. */
  ghost predicate Resumes(nets: seq<Interface>, routes: seq<Route>, queues: seq<seq<Datagram>>, k: nat, goal: RoutedAll)
    requires k <= |queues|
  {
    var rest := RouteQueues(nets, routes, queues[k..]);
    goal == rest.(queues := Empties(k) + rest.queues)
  }

  lemma StartRouting(nets: seq<Interface>, routes: seq<Route>, queues: seq<seq<Datagram>>)
    ensures Resumes(nets, routes, queues, 0, RouteQueues(nets, routes, queues)) && Empties(0) + queues[0..] == queues
  {
    hide RouteQueue;
    assert queues[0..] == queues;
    var rest := RouteQueues(nets, routes, queues).queues;
    assert Empties(0) + rest == rest;
  }

  lemma Finish(nets: seq<Interface>, routes: seq<Route>, queues: seq<seq<Datagram>>, goal: RoutedAll)
    requires Resumes(nets, routes, queues, |queues|, goal)
    ensures goal == RoutedAll(nets, Empties(|queues|)) && Empties(|queues|) + queues[|queues|..] == Empties(|queues|)
  {
    hide RouteQueue;
    assert queues[|queues|..] == [];
    assert Empties(|queues|) + [] == Empties(|queues|);
  }

  lemma QueueDone(queues: seq<seq<Datagram>>, k: nat)
    requires k < |queues|
    ensures (Empties(k) + queues[k..])[k] == queues[k]
    ensures (Empties(k) + queues[k..])[k := []] == Empties(k + 1) + queues[k + 1..]
    ensures forall left :: (Empties(k) + queues[k..])[k := left] == Empties(k) + [left] + queues[k + 1..]
  {
  }

  lemma Resume(nets: seq<Interface>, routes: seq<Route>, queues: seq<seq<Datagram>>, k: nat, goal: RoutedAll)
    requires k < |queues| && Resumes(nets, routes, queues, k, goal)
    ensures var r := RouteQueue(nets, routes, queues[k]);
            if r.left == [] then Resumes(r.nets, routes, queues, k + 1, goal)
            else goal == RoutedAll(r.nets, Empties(k) + [r.left] + queues[k + 1..])
  {
    hide RouteQueue;
    assert queues[k..][0] == queues[k] && queues[k..][1..] == queues[k + 1..];
    var r := RouteQueue(nets, routes, queues[k]);
    if r.left == [] {
      var rest := RouteQueues(r.nets, routes, queues[k + 1..]).queues;
      assert Empties(k) + ([[]] + rest) == Empties(k + 1) + rest;
    } else {
      assert Empties(k) + ([r.left] + queues[k + 1..]) == Empties(k) + [r.left] + queues[k + 1..];
    }
  }

  lemma BuildSnoc(routes: seq<Route>, r: Route)
    ensures Build(routes + [r]) == Routing.Insert(Build(routes), TopBits(r.prefix, r.len), r.target)
  {
    assert (routes + [r])[..|routes|] == routes;
  }
}
