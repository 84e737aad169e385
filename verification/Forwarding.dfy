/** What a router does with queues of datagrams, by longest-prefix match over its routes. */
module Forwarding {
  import opened Words
  import opened Routing
  import opened Arp
  import opened ArpInvariants

  datatype Decision = Drop | Forward(iface: nat, hop: Ip, dgram: Datagram)

  /** The target of the best route; without one, or if the path of an overlong route passes, interface zero and no next hop. */
  function TargetFor(routes: seq<Route>, ip: Ip): Target {
    var b := Best(routes, ip);
    if Overshot(routes, ip) || b.None? then DEFAULT_TARGET else b.value.target
  }

  /** A datagram about to run out of hops is dropped; the others lose one hop and go to the best route's target. */
  function Decide(routes: seq<Route>, d: Datagram): Decision
  {
    var t := TargetFor(routes, d.dst);
    if d.ttl < 2 then Drop
    else Forward(t.iface, if t.hop.Some? then t.hop.value else d.dst, d.(ttl := d.ttl - 1))
  }

  /** Routes one datagram; fails if the route names an interface the router does not have. */
  function RouteOne(nets: seq<Interface>, routes: seq<Route>, d: Datagram): Option<seq<Interface>>
  {
    match Decide(routes, d)
    case Drop => Some(nets)
    case Forward(k, hop, d') => if k < |nets| then Some(nets[k := nets[k].SendDatagram(d', hop)]) else None
  }

  /** The datagram as routing leaves it behind: the hop is taken off in place. */
  function Spent(d: Datagram): Datagram {
    if d.ttl < 2 then d else d.(ttl := d.ttl - 1)
  }

  /** The interfaces afterwards, and what is left of the queue. */
  datatype Routed = Routed(nets: seq<Interface>, left: seq<Datagram>)

  /** Routes a queue until it is empty or its front cannot be routed. */
  function RouteQueue(nets: seq<Interface>, routes: seq<Route>, queue: seq<Datagram>): Routed
    decreases |queue|
  {
    if queue == [] then Routed(nets, [])
    else
      var r := RouteOne(nets, routes, queue[0]);
      if r.None? then Routed(nets, [Spent(queue[0])] + queue[1..]) else RouteQueue(r.value, routes, queue[1..])
  }

  /** The interfaces and all queues after routing them in order; the first failure ends it. */
  datatype RoutedAll = RoutedAll(nets: seq<Interface>, queues: seq<seq<Datagram>>)

  function RouteQueues(nets: seq<Interface>, routes: seq<Route>, queues: seq<seq<Datagram>>): RoutedAll
    decreases |queues|
  {
    if queues == [] then RoutedAll(nets, [])
    else
      var r := RouteQueue(nets, routes, queues[0]);
      if r.left != [] then RoutedAll(r.nets, [r.left] + queues[1..])
      else
        var rest := RouteQueues(r.nets, routes, queues[1..]);
        rest.(queues := [[]] + rest.queues)
  }

  function Concat(queues: seq<seq<Datagram>>): seq<Datagram> {
    if queues == [] then [] else queues[0] + Concat(queues[1..])
  }

  /** What a datagram hands to interface `k`. */
  function HandedBy(routes: seq<Route>, d: Datagram, k: nat): seq<Handed>
  {
    var dec := Decide(routes, d);
    if dec.Forward? && dec.iface == k then [Handed(dec.hop, dec.dgram)] else []
  }

  /** What a queue hands to interface `k`. */
  function ForwardedTo(routes: seq<Route>, queue: seq<Datagram>, k: nat): seq<Handed>
  {
    if queue == [] then [] else HandedBy(routes, queue[0], k) + ForwardedTo(routes, queue[1..], k)
  }

  predicate Routable(nets: nat, routes: seq<Route>, d: Datagram)
  {
    Decide(routes, d).Forward? ==> Decide(routes, d).iface < nets
  }

  lemma SendHands(n: Interface, d: Datagram, hop: Ip)
    ensures n.SendDatagram(d, hop).handed == n.handed + [Handed(hop, d)]
  {
  }

  /** Position of the first datagram whose route names a missing interface, or the length of the queue. */
  function FirstUnroutable(nets: nat, routes: seq<Route>, queue: seq<Datagram>): (n: nat)
    ensures n <= |queue| && (n < |queue| ==> !Routable(nets, routes, queue[n]) && queue[n].ttl >= 2)
    ensures forall i :: 0 <= i < n ==> Routable(nets, routes, queue[i])
  {
    if queue == [] || !Routable(nets, routes, queue[0]) then 0 else 1 + FirstUnroutable(nets, routes, queue[1..])
  }

  /** What is left of a queue starts with the first unroutable datagram, its hop taken off; nothing is left exactly if there is none. */
  lemma {:induction false} RouteQueueLeaves(nets: seq<Interface>, routes: seq<Route>, queue: seq<Datagram>)
    ensures var r, n := RouteQueue(nets, routes, queue), FirstUnroutable(|nets|, routes, queue);
            |r.nets| == |nets| && r.left == if n == |queue| then [] else [queue[n].(ttl := queue[n].ttl - 1)] + queue[n + 1..]
    decreases |queue|
  {
    if queue != [] {
      hide Decide, Interface.SendDatagram, Spent;
      var r := RouteOne(nets, routes, queue[0]);
      if r.Some? {
        RouteQueueLeaves(r.value, routes, queue[1..]);
      }
    }
  }

  /**
   * Routing a queue hands every datagram before the first unroutable one, unless it is dropped,
   * to exactly the interface and next hop of its best route, in order.
   */
  lemma {:induction false} RouteQueueHands(nets: seq<Interface>, routes: seq<Route>, queue: seq<Datagram>, k: nat)
    requires k < |nets|
    ensures var r, n := RouteQueue(nets, routes, queue), FirstUnroutable(|nets|, routes, queue);
            |r.nets| == |nets| && r.nets[k].handed == nets[k].handed + ForwardedTo(routes, queue[..n], k)
    decreases |queue|
  {
    if queue != [] {
      hide RouteOne, Spent, HandedBy, Routable;
      var d, n := queue[0], FirstUnroutable(|nets|, routes, queue);
      RouteOneHands(nets, routes, d, k);
      var r := RouteOne(nets, routes, d);
      if r.Some? {
        RouteQueueHands(r.value, routes, queue[1..], k);
        assert queue[..n][0] == d && queue[..n][1..] == queue[1..][..n - 1];
      } else {
        assert queue[..n] == [];
      }
    }
  }

  lemma RouteOneHands(nets: seq<Interface>, routes: seq<Route>, d: Datagram, k: nat)
    requires k < |nets|
    ensures var r := RouteOne(nets, routes, d);
            && (r.Some? <==> Routable(|nets|, routes, d))
            && (r.Some? ==> |r.value| == |nets| && r.value[k].handed == nets[k].handed + HandedBy(routes, d, k))
  {
    hide Decide, Interface.SendDatagram;
    var dec := Decide(routes, d);
    if dec.Forward? && dec.iface < |nets| {
      SendHands(nets[dec.iface], dec.dgram, dec.hop);
    }
  }

  lemma {:induction false} RouteQueueAppend(nets: seq<Interface>, routes: seq<Route>, q1: seq<Datagram>, q2: seq<Datagram>)
    ensures var r := RouteQueue(nets, routes, q1);
            RouteQueue(nets, routes, q1 + q2) == if r.left == [] then RouteQueue(r.nets, routes, q2) else Routed(r.nets, r.left + q2)
    decreases |q1|
  {
    if q1 == [] {
      assert q1 + q2 == q2;
    } else {
      hide RouteOne, Spent;
      assert (q1 + q2)[0] == q1[0] && (q1 + q2)[1..] == q1[1..] + q2;
      var r := RouteOne(nets, routes, q1[0]);
      if r.Some? {
        RouteQueueAppend(r.value, routes, q1[1..], q2);
      } else {
        assert [Spent(q1[0])] + (q1 + q2)[1..] == [Spent(q1[0])] + q1[1..] + q2;
      }
    }
  }

  /** Routing interface by interface is routing all queues in one. */
  lemma {:induction false} RouteQueuesIsOne(nets: seq<Interface>, routes: seq<Route>, queues: seq<seq<Datagram>>)
    ensures var all, one := RouteQueues(nets, routes, queues), RouteQueue(nets, routes, Concat(queues));
            all.nets == one.nets && Concat(all.queues) == one.left && |all.queues| == |queues|
    decreases |queues|
  {
    hide RouteQueue;
    if queues == [] {
      RouteNothing(nets, routes);
    } else {
      RouteQueueAppend(nets, routes, queues[0], Concat(queues[1..]));
      var r := RouteQueue(nets, routes, queues[0]);
      if r.left == [] {
        RouteQueuesIsOne(r.nets, routes, queues[1..]);
        var rest := RouteQueues(r.nets, routes, queues[1..]).queues;
        assert ([[]] + rest)[1..] == rest;
      } else {
        assert ([r.left] + queues[1..])[1..] == queues[1..];
      }
    }
  }

  lemma RouteNothing(nets: seq<Interface>, routes: seq<Route>)
    ensures RouteQueue(nets, routes, Concat([])) == Routed(nets, [])
  {
  }

  /** Routing keeps the invariant of every interface. */
  lemma {:induction false} RouteQueueKeepsInv(nets: seq<Interface>, routes: seq<Route>, queue: seq<Datagram>)
    requires forall n :: n in nets ==> Inv(n)
    ensures forall n :: n in RouteQueue(nets, routes, queue).nets ==> Inv(n)
    decreases |queue|
  {
    if queue != [] {
      hide Decide, Inv, Interface.SendDatagram;
      var r := RouteOne(nets, routes, queue[0]);
      var dec := Decide(routes, queue[0]);
      if r.Some? {
        if dec.Forward? {
          SendKeepsInv(nets[dec.iface], dec.dgram, dec.hop);
        }
        RouteQueueKeepsInv(r.value, routes, queue[1..]);
      }
    }
  }

  // What one datagram does, by positions in the list of routes

  /** Exactly one interface is handed something, and the others are left alone. */
  predicate OnlyHands(nets: seq<Interface>, nets': seq<Interface>, iface: nat, h: Handed) {
    && |nets'| == |nets|
    && forall k :: 0 <= k < |nets| ==>
         if k == iface then nets'[k].handed == nets[k].handed + [h] && nets'[k] == nets[k].SendDatagram(h.dgram, h.hop)
         else nets'[k] == nets[k]
  }

  /** There is only one best position. */
  lemma BestAt(routes: seq<Route>, ip: Ip, i: nat)
    requires i < |routes| && IsBest(routes, ip, i)
    ensures Best(routes, ip) == Some(routes[i])
  {
    hide Matches, Best;
    BestIsBest(routes, ip);
    if Best(routes, ip).Some? {
      var k :| 0 <= k < |routes| && IsBest(routes, ip, k) && routes[k] == Best(routes, ip).value;
      assert k == i;
    }
  }

  /**
   * A datagram with a hop to spare goes to the interface of the matching route that no other
   * match beats - none is longer, or as long and later - for the next hop that the route
   * names, or else for its own destination, with one hop less.  It fails exactly if there is
   * no such interface.
   */
  lemma RouteOneFollowsRoute(nets: seq<Interface>, routes: seq<Route>, d: Datagram, i: nat)
    requires d.ttl >= 2 && i < |routes| && IsBest(routes, d.dst, i)
    requires (exists j :: 0 <= j < |routes| && routes[j].prefix == d.dst && routes[j].len == 32)
             || forall j :: 0 <= j < |routes| ==> !(routes[j].prefix == d.dst && routes[j].len > 32)
    ensures var r, t := RouteOne(nets, routes, d), routes[i].target;
            && (r.Some? <==> t.iface < |nets|)
            && (r.Some? && t.hop.Some? ==> OnlyHands(nets, r.value, t.iface, Handed(t.hop.value, d.(ttl := d.ttl - 1))))
            && (r.Some? && t.hop.None? ==> OnlyHands(nets, r.value, t.iface, Handed(d.dst, d.(ttl := d.ttl - 1))))
  {
    hide IsBest, Best, Interface.SendDatagram;
    BestAt(routes, d.dst, i);
    assert !Overshot(routes, d.dst);
    var t := routes[i].target;
    if t.iface < |nets| {
      SendHands(nets[t.iface], d.(ttl := d.ttl - 1), if t.hop.Some? then t.hop.value else d.dst);
    }
  }

  /** Without a match, or behind a route for more than its 32 bits, it goes out directly on interface zero. */
  lemma RouteOneByDefault(nets: seq<Interface>, routes: seq<Route>, d: Datagram)
    requires d.ttl >= 2
    requires || (forall j :: 0 <= j < |routes| ==> !Matches(routes[j].prefix, routes[j].len, d.dst))
             || (&& (exists j :: 0 <= j < |routes| && routes[j].prefix == d.dst && routes[j].len > 32)
                 && forall j :: 0 <= j < |routes| ==> !(routes[j].prefix == d.dst && routes[j].len == 32))
    ensures var r := RouteOne(nets, routes, d);
            && (r.Some? <==> nets != [])
            && (r.Some? ==> OnlyHands(nets, r.value, 0, Handed(d.dst, d.(ttl := d.ttl - 1))))
  {
    hide Best, Matches, Interface.SendDatagram;
    BestIsBest(routes, d.dst);
    assert TargetFor(routes, d.dst) == Target(0, None) by {
      assert Best(routes, d.dst).None? || Overshot(routes, d.dst);
    }
    if nets != [] {
      SendHands(nets[0], d.(ttl := d.ttl - 1), d.dst);
    }
  }

  /** A datagram that has run out of hops goes nowhere. */
  lemma RouteOneDrops(nets: seq<Interface>, routes: seq<Route>, d: Datagram)
    requires d.ttl < 2
    ensures RouteOne(nets, routes, d) == Some(nets)
  {
  }
}
