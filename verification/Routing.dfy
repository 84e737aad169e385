/** Routes, longest-prefix match over a plain list, and the binary trie that computes it. */
module Routing {
  import opened Words

  type Ip = Word32

  /** Where to send a datagram: an interface, and a next hop unless the network is directly attached. */
  datatype Target = Target(iface: nat, hop: Option<Ip>)

  datatype Route = Route(prefix: Ip, len: nat, target: Target)

  type Bits = seq<bool>

  /** The most significant `n` bits of `x`, most significant first, as shifting out the top bit yields them. */
  function TopBits(x: Ip, n: nat): (b: Bits)
    ensures |b| == n
    decreases n
  {
    if n == 0 then [] else [x >= TWO_31] + TopBits(U32(2 * x), n - 1)
  }

  function Two(k: nat): (p: nat)
    ensures p > 0
  {
    if k == 0 then 1 else 2 * Two(k - 1)
  }

  /** The high-order `len` bits, as a number. */
  function High(x: Ip, len: nat): int
    requires len <= 32
  {
    x / Two(32 - len)
  }

  /** The high-order `len` bits of the prefix are those of the address; no address has more than 32. */
  predicate Matches(prefix: Ip, len: nat, ip: Ip) {
    len <= 32 && High(prefix, len) == High(ip, len)
  }

  // The reference: a list of routes

  /** Among the routes that match, the longest, and of those the one added last. */
  function Best(routes: seq<Route>, ip: Ip): Option<Route>
  {
    if routes == [] then None
    else
      var n := |routes| - 1;
      var rest, r := Best(routes[..n], ip), routes[n];
      if Matches(r.prefix, r.len, ip) && (rest.None? || rest.value.len <= r.len) then Some(r) else rest
  }

  /** Route number `k` matches, every other match is shorter, or as long and added before. */
  ghost predicate IsBest(routes: seq<Route>, ip: Ip, k: nat)
    requires k < |routes|
  {
    && Matches(routes[k].prefix, routes[k].len, ip)
    && forall j :: 0 <= j < |routes| && Matches(routes[j].prefix, routes[j].len, ip) ==>
         routes[j].len < routes[k].len || (routes[j].len == routes[k].len && j <= k)
  }

  /** `Best` is what longest-prefix match means. */
  lemma {:induction false} BestIsBest(routes: seq<Route>, ip: Ip)
    ensures var b := Best(routes, ip);
            if b.Some? then exists k :: 0 <= k < |routes| && IsBest(routes, ip, k) && routes[k] == b.value
            else forall j :: 0 <= j < |routes| ==> !Matches(routes[j].prefix, routes[j].len, ip)
  {
    hide Matches, IsBest;
    if routes != [] {
      var n := |routes| - 1;
      var rest, r := routes[..n], routes[n];
      BestIsBest(rest, ip);
      if Matches(r.prefix, r.len, ip) && (Best(rest, ip).None? || Best(rest, ip).value.len <= r.len) {
        LastIsBest(routes, ip);
      } else if Best(rest, ip).Some? {
        var k :| 0 <= k < |rest| && IsBest(rest, ip, k) && rest[k] == Best(rest, ip).value;
        BestStays(routes, ip, k);
      }
    }
  }

  /** The last route is best if it matches and no match before is longer. */
  lemma LastIsBest(routes: seq<Route>, ip: Ip)
    requires routes != []
    requires var r := routes[|routes| - 1];
             && Matches(r.prefix, r.len, ip)
             && var b := Best(routes[..|routes| - 1], ip);
                if b.Some? then
                  b.value.len <= r.len && exists k :: 0 <= k < |routes| - 1 && IsBest(routes[..|routes| - 1], ip, k) && routes[k] == b.value
                else forall j :: 0 <= j < |routes| - 1 ==> !Matches(routes[j].prefix, routes[j].len, ip)
    ensures IsBest(routes, ip, |routes| - 1)
  {
    hide Matches, Best;
  }

  lemma BestStays(routes: seq<Route>, ip: Ip, k: nat)
    requires k < |routes| - 1 && IsBest(routes[..|routes| - 1], ip, k)
    requires var r := routes[|routes| - 1];
             !(Matches(r.prefix, r.len, ip) && routes[k].len <= r.len)
    ensures IsBest(routes, ip, k)
  {
    hide Matches;
    var rest := routes[..|routes| - 1];
    forall j | 0 <= j < |routes| && Matches(routes[j].prefix, routes[j].len, ip)
      ensures routes[j].len < routes[k].len || (routes[j].len == routes[k].len && j <= k)
    {
      if j < |rest| {
        assert rest[j] == routes[j];
      }
    }
  }

  // The trie

  datatype Trie = Nil | Node(target: Target, hasData: bool, left: Trie, right: Trie)

  const DEFAULT_TARGET: Target := Target(0, None)
  const EMPTY_NODE: Trie := Node(DEFAULT_TARGET, false, Nil, Nil)

  /** A missing child is created before the insertion goes on below it. */
  function Grown(t: Trie): Trie {
    if t.Nil? then EMPTY_NODE else t
  }

  function Insert(t: Trie, path: Bits, target: Target): (r: Trie)
    requires t.Node?
    ensures r.Node?
    decreases |path|
  {
    if path == [] then t.(target := target, hasData := true)
    else if path[0] then t.(right := Insert(Grown(t.right), path[1..], target))
    else t.(left := Insert(Grown(t.left), path[1..], target))
  }

  function Child(t: Trie, right: bool): Trie
    requires t.Node?
  {
    if right then t.right else t.left
  }

  /** The walk of the code: down from `curr`, remembering the last node with data. */
  function Walk(curr: Trie, valid: Trie, dst: Bits): (r: Trie)
    requires curr.Node? && valid.Node?
    ensures r.Node?
    decreases |dst|
  {
    if dst == [] then curr
    else
      var child := Child(curr, dst[0]);
      if child.Nil? then
        if Child(curr, !dst[0]).Nil? then curr else valid
      else
        Walk(child, if child.hasData then child else valid, dst[1..])
  }

  function Lookup(t: Trie, dst: Bits): Target
    requires t.Node?
  {
    Walk(t, t, dst).target
  }

  function Build(routes: seq<Route>): (t: Trie)
    ensures t.Node?
  {
    if routes == [] then EMPTY_NODE
    else
      var n := |routes| - 1;
      Insert(Build(routes[..n]), TopBits(routes[n].prefix, routes[n].len), routes[n].target)
  }

  // What the trie holds

  datatype Found = Found(depth: nat, target: Target)

  /** The data at the deepest node along `dst` that has data, and its depth. */
  function Deepest(t: Trie, dst: Bits): Option<Found>
    decreases |dst|
  {
    if t.Nil? then None
    else
      var below := if dst == [] then None else Deepest(Child(t, dst[0]), dst[1..]);
      if below.Some? then Some(Found(below.value.depth + 1, below.value.target))
      else if t.hasData then Some(Found(0, t.target))
      else None
  }

  /** Inserting at `path` changes the deepest data exactly if the path is on the way and at least as deep. */
  lemma {:induction false} InsertDeepest(t: Trie, path: Bits, target: Target, dst: Bits)
    requires t.Node?
    ensures var d := Deepest(t, dst);
            Deepest(Insert(t, path, target), dst)
            == if path <= dst && (d.None? || d.value.depth <= |path|) then Some(Found(|path|, target)) else d
    decreases |path|
  {
    if path != [] && dst != [] && path[0] == dst[0] {
      var c := Child(t, path[0]);
      InsertDeepest(Grown(c), path[1..], target, dst[1..]);
      GrownDeepest(c, dst[1..]);
      assert path <= dst <==> path[1..] <= dst[1..];
    }
  }

  lemma GrownDeepest(t: Trie, dst: Bits)
    ensures Deepest(Grown(t), dst) == Deepest(t, dst)
  {
  }

  predicate Leaf(t: Trie) {
    t.Node? && t.left.Nil? && t.right.Nil?
  }

  predicate GoodChild(t: Trie) {
    Leaf(t) ==> t.hasData
  }

  /** Every node below this one that has no children holds data, and a node without data has the default target. */
  predicate WellGrown(t: Trie) {
    t.Node? ==>
      && GoodChild(t.left) && GoodChild(t.right) && WellGrown(t.left) && WellGrown(t.right)
      && (!t.hasData ==> t.target == DEFAULT_TARGET)
  }

  lemma {:induction false} InsertWellGrown(t: Trie, path: Bits, target: Target)
    requires t.Node? && WellGrown(t)
    ensures WellGrown(Insert(t, path, target))
    ensures path != [] ==> !Leaf(Insert(t, path, target))
    decreases |path|
  {
    if path != [] {
      InsertWellGrown(Grown(Child(t, path[0])), path[1..], target);
    }
  }

  /** The node at the end of `dst`, if there is one. */
  function NodeAt(t: Trie, dst: Bits): Trie
    decreases |dst|
  {
    if t.Nil? || dst == [] then t else NodeAt(Child(t, dst[0]), dst[1..])
  }

  /** Inserting creates the nodes along its path, and data only at its end. */
  lemma {:induction false} InsertNodeAt(t: Trie, path: Bits, target: Target, dst: Bits)
    requires t.Node?
    ensures var x, y := NodeAt(t, dst), NodeAt(Insert(t, path, target), dst);
            && (y.Node? <==> x.Node? || dst <= path)
            && (y.Node? && y.hasData <==> (x.Node? && x.hasData) || dst == path)
    decreases |path|
  {
    if path != [] && dst != [] && path[0] == dst[0] {
      InsertNodeAt(Grown(Child(t, path[0])), path[1..], target, dst[1..]);
      GrownNodeAt(Child(t, path[0]), dst[1..]);
      assert dst <= path <==> dst[1..] <= path[1..];
      assert dst == path <==> dst[1..] == path[1..];
    }
  }

  lemma GrownNodeAt(t: Trie, dst: Bits)
    ensures NodeAt(t, dst) == NodeAt(Grown(t), dst) || (t.Nil? && dst == [] && NodeAt(Grown(t), dst) == EMPTY_NODE)
  {
  }

  /** The walk ends at the last node of a path that exists in full, else at the deepest data or where it last saw data. */
  lemma {:induction false} WalkFindsDeepest(curr: Trie, valid: Trie, dst: Bits)
    requires curr.Node? && valid.Node? && WellGrown(curr) && (Leaf(curr) ==> curr == valid)
    requires curr.hasData ==> valid == curr
    ensures var x, d := NodeAt(curr, dst), Deepest(curr, dst);
            Walk(curr, valid, dst).target
            == if x.Node? && !x.hasData then DEFAULT_TARGET else if d.Some? then d.value.target else valid.target
    decreases |dst|
  {
    if dst != [] {
      var child := Child(curr, dst[0]);
      if child.Node? {
        WalkFindsDeepest(child, if child.hasData then child else valid, dst[1..]);
        DeepestAtEnd(child, dst[1..]);
      }
    }
  }

  /** Data at the end of the path is the deepest. */
  lemma {:induction false} DeepestAtEnd(t: Trie, dst: Bits)
    requires t.Node?
    ensures var x := NodeAt(t, dst);
            x.Node? && x.hasData ==> Deepest(t, dst) == Some(Found(|dst|, x.target))
    decreases |dst|
  {
    if dst != [] && Child(t, dst[0]).Node? {
      DeepestAtEnd(Child(t, dst[0]), dst[1..]);
    }
  }

  // Bits and division

  lemma TwoSplit(j: nat, k: nat)
    ensures Two(j + k) == Two(j) * Two(k)
  {
    if k > 0 {
      TwoSplit(j, k - 1);
      assert Two(j) * (2 * Two(k - 1)) == 2 * (Two(j) * Two(k - 1));
    }
  }

  lemma TwoIs()
    ensures Two(31) == TWO_31 && Two(32) == TWO_32
  {
    assert Two(8) == 256;
    TwoSplit(8, 8);
    TwoSplit(16, 15);
    assert Two(15) == 32768;
    assert Two(32) == 2 * Two(31);
  }

  lemma DivAdd(x: nat, b: nat, d: nat)
    requires d > 0
    ensures (x + b * d) / d == x / d + b
  {
    var q, r := x / d, x % d;
    assert x + b * d == (q + b) * d + r;
    DivMod(x + b * d, d, q + b, r);
  }

  lemma TopBitOut(x: Ip, b: nat, q: nat, d: nat, m: nat)
    requires b <= 1 && q < TWO_31 && x == q + b * TWO_31 && d > 0 && d * m == TWO_31
    ensures x / d == q / d + b * m && 0 <= q / d < m && U32(2 * x) / (2 * d) == q / d
  {
    assert x == q + (b * m) * d;
    DivAdd(q, b * m, d);
    QuotientBound(q, d, m);
    assert U32(2 * x) == 2 * q;
    DivDouble(q, d);
  }

  function TopBit(x: Ip): nat {
    if x >= TWO_31 then 1 else 0
  }

  /** Dividing a word: its top bit is the top of the quotient, and the rest is the quotient of the shifted word. */
  lemma TopOfQuotient(x: Ip, len: nat)
    requires 1 <= len <= 32
    ensures High(x, len) == High(U32(2 * x), len - 1) + TopBit(x) * Two(len - 1)
    ensures 0 <= High(U32(2 * x), len - 1) < Two(len - 1)
  {
    TwoIs();
    TwoSplit(32 - len, len - 1);
    var d, m := Two(32 - len), Two(len - 1);
    assert Two(33 - len) == 2 * d;
    hide Two;
    TopBitOut(x, TopBit(x), x - TopBit(x) * TWO_31, d, m);
  }

  lemma QuotientBound(q: nat, d: nat, m: nat)
    requires d > 0 && q < d * m
    ensures 0 <= q / d < m
  {
    var k, r := q / d, q % d;
    assert q == k * d + r;
    assert k >= m ==> k * d >= m * d;
  }

  lemma DivDouble(q: nat, d: nat)
    requires d > 0
    ensures (2 * q) / (2 * d) == q / d
  {
    var k, r := q / d, q % d;
    assert 2 * q == k * (2 * d) + 2 * r;
    DivMod(2 * q, 2 * d, k, 2 * r);
  }

  lemma DigitsAgree(b1: nat, x1: int, b2: nat, x2: int, m: nat)
    requires b1 <= 1 && b2 <= 1 && 0 <= x1 < m && 0 <= x2 < m
    ensures x1 + b1 * m == x2 + b2 * m <==> b1 == b2 && x1 == x2
  {
  }

  /** Two words agree in their top bits exactly if they agree in the first and the shifted words in the rest. */
  lemma MatchStep(prefix: Ip, len: nat, ip: Ip)
    requires 1 <= len <= 32
    ensures Matches(prefix, len, ip)
            <==> TopBit(prefix) == TopBit(ip) && Matches(U32(2 * prefix), len - 1, U32(2 * ip))
  {
    hide Two, High, U32;
    TopOfQuotient(prefix, len);
    TopOfQuotient(ip, len);
    DigitsAgree(TopBit(prefix), High(U32(2 * prefix), len - 1), TopBit(ip), High(U32(2 * ip), len - 1), Two(len - 1));
  }

  lemma MatchesAll(prefix: Ip, ip: Ip)
    ensures Matches(prefix, 0, ip)
  {
    TwoIs();
  }

  /** Matching by division is being a prefix of the address, bit by bit. */
  lemma {:induction false} MatchIffPrefix(prefix: Ip, len: nat, ip: Ip, n: nat)
    requires len <= 32 && len <= n
    ensures Matches(prefix, len, ip) <==> TopBits(prefix, len) <= TopBits(ip, n)
    decreases len
  {
    hide Matches, U32;
    if len == 0 {
      MatchesAll(prefix, ip);
    } else {
      MatchStep(prefix, len, ip);
      MatchIffPrefix(U32(2 * prefix), len - 1, U32(2 * ip), n - 1);
      PrefixCons(TopBits(prefix, len), TopBits(ip, n));
    }
  }

  lemma PrefixCons(a: Bits, b: Bits)
    requires a != [] && b != []
    ensures a <= b <==> a[0] == b[0] && a[1..] <= b[1..]
  {
  }

  /** For any length: a prefix matches exactly if its path is a prefix of the path of the address. */
  lemma MatchIff(prefix: Ip, len: nat, ip: Ip)
    ensures Matches(prefix, len, ip) <==> TopBits(prefix, len) <= TopBits(ip, 32)
  {
    hide TopBits, High;
    if len <= 32 {
      MatchIffPrefix(prefix, len, ip, 32);
    }
  }

  lemma {:induction false} TopBitsPrefix(x: Ip, n: nat, m: nat)
    requires n <= m
    ensures TopBits(x, n) <= TopBits(x, m)
    decreases n
  {
    hide U32;
    if n > 0 {
      TopBitsPrefix(U32(2 * x), n - 1, m - 1);
    }
  }

  lemma SameBitsSameAddress(x: Ip, ip: Ip)
    ensures TopBits(x, 32) == TopBits(ip, 32) <==> x == ip
  {
    hide TopBits;
    MatchIff(x, 32, ip);
    assert Two(0) == 1 && Matches(x, 32, ip) <==> x == ip;
  }

  /** The path of a prefix leads through the path of an address exactly if it is that address and long enough. */
  lemma ThroughIff(prefix: Ip, len: nat, ip: Ip)
    ensures TopBits(ip, 32) <= TopBits(prefix, len) <==> len >= 32 && prefix == ip
    ensures TopBits(ip, 32) == TopBits(prefix, len) <==> len == 32 && prefix == ip
  {
    hide TopBits;
    SameBitsSameAddress(prefix, ip);
    if len >= 32 {
      TopBitsPrefix(prefix, 32, len);
      assert TopBits(prefix, len)[..32] == TopBits(prefix, 32);
    }
  }

  // The trie computes longest-prefix match

  lemma {:induction false} BuildWellGrown(routes: seq<Route>)
    ensures WellGrown(Build(routes))
  {
    if routes != [] {
      var n := |routes| - 1;
      BuildWellGrown(routes[..n]);
      InsertWellGrown(Build(routes[..n]), TopBits(routes[n].prefix, routes[n].len), routes[n].target);
    }
  }

  /** The deepest data on the way to an address is the best route for it. */
  lemma {:induction false} DeepestIsBest(routes: seq<Route>, ip: Ip)
    ensures var d, b := Deepest(Build(routes), TopBits(ip, 32)), Best(routes, ip);
            d == if b.Some? then Some(Found(b.value.len, b.value.target)) else None
  {
    hide Matches, Insert, TopBits;
    if routes == [] {
      EmptyDeepest(TopBits(ip, 32));
    } else {
      var n := |routes| - 1;
      var r := routes[n];
      DeepestIsBest(routes[..n], ip);
      InsertDeepest(Build(routes[..n]), TopBits(r.prefix, r.len), r.target, TopBits(ip, 32));
      MatchIff(r.prefix, r.len, ip);
    }
  }

  lemma EmptyDeepest(dst: Bits)
    ensures Deepest(EMPTY_NODE, dst) == None
  {
  }

  predicate HasRoute(routes: seq<Route>, ip: Ip, len: nat) {
    exists r :: r in routes && r.prefix == ip && r.len == len
  }

  predicate HasOverlong(routes: seq<Route>, ip: Ip) {
    exists r :: r in routes && r.prefix == ip && r.len > 32
  }

  /** A route for more than the 32 bits of this very address, and none for exactly these. */
  predicate Overshot(routes: seq<Route>, ip: Ip) {
    HasOverlong(routes, ip) && !HasRoute(routes, ip, 32)
  }

  lemma {:induction false} BuildNodeAt(routes: seq<Route>, ip: Ip)
    ensures var x := NodeAt(Build(routes), TopBits(ip, 32));
            && (x.Node? <==> HasOverlong(routes, ip) || HasRoute(routes, ip, 32))
            && (x.Node? && x.hasData <==> HasRoute(routes, ip, 32))
  {
    hide Insert, TopBits;
    if routes == [] {
      EmptyNodeAt(TopBits(ip, 32));
    } else {
      var n := |routes| - 1;
      var r := routes[n];
      BuildNodeAt(routes[..n], ip);
      InsertNodeAt(Build(routes[..n]), TopBits(r.prefix, r.len), r.target, TopBits(ip, 32));
      ThroughIff(r.prefix, r.len, ip);
      assert forall x :: x in routes <==> x == r || x in routes[..n];
      assert r in routes;
    }
  }

  lemma EmptyNodeAt(dst: Bits)
    requires dst != []
    ensures NodeAt(EMPTY_NODE, dst) == Nil
  {
  }

  /**
   * For every sequence of routes and every address: the walk ends at the target of the best
   * route, or, if no route matches, at interface zero with no next hop - and there too exactly
   * if a route for more than 32 bits has led a path past the address.
   */
  lemma LookupIsLongestPrefixMatch(routes: seq<Route>, ip: Ip)
    ensures var b := Best(routes, ip);
            Lookup(Build(routes), TopBits(ip, 32))
            == if Overshot(routes, ip) || b.None? then DEFAULT_TARGET else b.value.target
  {
    hide Best, Deepest, TopBits, HasRoute, HasOverlong, NodeAt;
    var t, dst := Build(routes), TopBits(ip, 32);
    BuildWellGrown(routes);
    WalkFindsDeepest(t, t, dst);
    DeepestIsBest(routes, ip);
    BuildNodeAt(routes, ip);
    if Deepest(t, dst) == None {
      NoneMeansNoData(t, dst);
    }
  }

  lemma NoneMeansNoData(t: Trie, dst: Bits)
    requires t.Node? && Deepest(t, dst) == None
    ensures !t.hasData
  {
  }

  /** A route for 33 bits takes an address from the route that matches it. */
  lemma OvershotLosesRoute(ip: Ip, target: Target)
    ensures var routes := [Route(0, 0, target), Route(ip, 33, target)];
            && Best(routes, ip) == Some(Route(0, 0, target)) && Overshot(routes, ip)
            && Lookup(Build(routes), TopBits(ip, 32)) == DEFAULT_TARGET
  {
    hide High, Build, Lookup, TopBits;
    var routes := [Route(0, 0, target), Route(ip, 33, target)];
    MatchesAll(0, ip);
    assert routes[1] in routes;
    assert routes[..1] == [routes[0]] && routes[..1][..0] == [];
    assert Best([], ip) == None && Best([routes[0]], ip) == Some(routes[0]);
    LookupIsLongestPrefixMatch(routes, ip);
  }

  /** Bit `i` of a word, counted from the least significant. */
  predicate BitOf(x: Ip, i: nat) {
    x / Two(i) % 2 == 1
  }

  lemma EvenMultiple(y: int, b: int, m: int)
    ensures (y - 2 * (b * m)) % 2 == y % 2
  {
  }

  /** Shifting left by one moves every bit up by one. */
  lemma ShiftedBit(x: Ip, i: nat)
    requires i < 31
    ensures BitOf(U32(2 * x), i + 1) == BitOf(x, i)
  {
    TwoIs();
    TwoSplit(i, 31 - i);
    var d, m := Two(i), Two(31 - i);
    assert Two(i + 1) == 2 * d && m == 2 * Two(30 - i);
    var h := Two(30 - i);
    hide Two;
    TopBitOut(x, TopBit(x), x - TopBit(x) * TWO_31, d, m);
    EvenMultiple(x / d, TopBit(x), h);
    assert TopBit(x) * m == 2 * (TopBit(x) * h);
  }

  /** The bits of an address in the order in which the walk tests them. */
  lemma {:induction false} TopBitsAt(x: Ip, n: nat, k: nat)
    requires k < n <= 32
    ensures TopBits(x, n)[k] == BitOf(x, 31 - k)
    decreases n
  {
    if k == 0 {
      TwoIs();
      TopBitByDivision(x);
    } else {
      TopBitsAt(U32(2 * x), n - 1, k - 1);
      ShiftedBit(x, 31 - k);
      hide BitOf, U32;
      assert TopBits(x, n)[k] == TopBits(U32(2 * x), n - 1)[k - 1];
    }
  }

  lemma TopBitByDivision(x: Ip)
    requires Two(31) == TWO_31
    ensures BitOf(x, 31) == (x >= TWO_31)
  {
    hide Two;
  }
}
