/** The mutable binary trie of mesh routes, proved to implement the table of `RouteTable`. */
module RouteTrie {
  import opened Basics
  import opened Bytes
  import opened Addresses
  import opened RouteTable

  class Node<R> {
    var zero: Node?<R>
    var one: Node?<R>
    var route: Option<R>

    constructor ()
      ensures zero == null && one == null && route == None
    {
      zero, one, route := null, null, None;
    }

    function Child(bit: bool): Node?<R>
      reads this
    {
      if bit then one else zero
    }
  }

  class Trie<R> {
    var root: Node<R>
    /** Which node stands for which bit string. */
    ghost var nodes: map<Bits, Node<R>>

    ghost predicate Valid()
      reads this, nodes.Values
    {
      && [] in nodes && nodes[[]] == root
      && (forall p, b :: p in nodes ==> nodes[p].Child(b) == if p + [b] in nodes then nodes[p + [b]] else null)
      && (forall p, q :: p in nodes && q in nodes && nodes[p] == nodes[q] ==> p == q)
      && (forall p, b :: p + [b] in nodes ==> p in nodes)
    }

    ghost function Table(): map<Bits, R>
      reads this, nodes.Values
    {
      map p | p in nodes && nodes[p].route.Some? :: nodes[p].route.value
    }

    constructor ()
      ensures Valid() && Table() == map[] && fresh(nodes.Values)
    {
      var n := new Node();
      root := n;
      nodes := map[[] := n];
    }

    /** Adds a route; the prefix of a non-IPv4 network is ignored. */
    method Insert(net: Option<seq<byte>>, len: nat, route: R)
      requires Valid() && (net.Some? ==> |net.value| == 4) && len <= 32
      modifies this, nodes.Values
      ensures Valid() && fresh(nodes.Values - old(nodes.Values))
      ensures Table() == if net.None? then old(Table()) else old(Table())[Leading(net.value, len) := route]
    {
      if net.None? { return; }
      var ip := net.value;
      var node := root;
      ghost var table := Table();
      ghost var before := nodes.Values;
      for i := 0 to len
        invariant Valid() && Table() == table && fresh(nodes.Values - before)
        invariant Leading(ip, i) in nodes && nodes[Leading(ip, i)] == node
      {
        node := Descend(node, Leading(ip, i), BitOf(ip, i));
      }
      SetRoute(node, Leading(ip, len), route);
    }

    method SetRoute(node: Node<R>, ghost path: Bits, route: R)
      requires Valid() && path in nodes && nodes[path] == node
      modifies node
      ensures Valid() && Table() == old(Table())[path := route]
    {
      node.route := Some(route);
    }

    /** The child along one bit, made when missing. */
    method Descend(node: Node<R>, ghost path: Bits, bit: bool) returns (child: Node<R>)
      requires Valid() && path in nodes && nodes[path] == node
      modifies this`nodes, node
      ensures Valid() && Table() == old(Table())
      ensures nodes.Values >= old(nodes.Values) && fresh(nodes.Values - old(nodes.Values))
      ensures path + [bit] in nodes && nodes[path + [bit]] == child
    {
      if bit && node.one != null { return node.one; }
      if !bit && node.zero != null { return node.zero; }
      child := AddChild(node, path, bit);
    }

    method AddChild(node: Node<R>, ghost path: Bits, bit: bool) returns (child: Node<R>)
      requires Valid() && path in nodes && nodes[path] == node && node.Child(bit) == null
      modifies this`nodes, node
      ensures Valid() && Table() == old(Table())
      ensures nodes.Values >= old(nodes.Values) && fresh(nodes.Values - old(nodes.Values))
      ensures path + [bit] in nodes && nodes[path + [bit]] == child
    {
      child := new Node();
      ghost var before, at, table := nodes, path + [bit], Table();
      if bit { node.one := child; } else { node.zero := child; }
      nodes := nodes[at := child];
      NewKey(before, at, child);
      assert Table() == table by {
        assert forall p :: p in before ==> nodes[p] == before[p] && nodes[p].route == old(before[p].route);
        assert child.route == None;
      }
      forall p, b | p in nodes
        ensures nodes[p].Child(b) == if p + [b] in nodes then nodes[p + [b]] else null
      {
        SnocEqual(p, b, path, bit);
        if p == at { assert p + [b] !in before; }
      }
      forall p, b | p + [b] in nodes ensures p in nodes { SnocEqual(p, b, path, bit); }
    }

    /** The route of the longest inserted prefix of the address. */
    method Lookup(addr: Option<seq<byte>>) returns (best: Option<R>)
      requires Valid() && (addr.Some? ==> |addr.value| == 4)
      ensures best == if addr.None? then None else LongestMatch(Table(), Leading(addr.value, 32))
    {
      if addr.None? { return None; }
      var ip := addr.value;
      var node := root;
      best := node.route;
      var i := 0;
      while i < 32
        invariant i <= 32
        invariant Leading(ip, i) in nodes && nodes[Leading(ip, i)] == node
        invariant best == LongestMatch(Table(), Leading(ip, i))
      {
        var next := node.Child(BitOf(ip, i));
        if next == null {
          NothingBelow(ip, i, i + 1);
          StopsHere(ip, i, 32);
          return;
        }
        node := next;
        i := i + 1;
        assert Front(Leading(ip, i)) == Leading(ip, i - 1);
        if node.route.Some? { best := node.route; }
      }
    }

    /** A missing node has nothing below it. */
    lemma {:induction false} NothingBelow(ip: seq<byte>, i: nat, k: nat)
      requires Valid() && |ip| == 4 && i < k <= 32 && Leading(ip, i + 1) !in nodes
      ensures Leading(ip, k) !in nodes
      decreases k
    {
      if k > i + 1 { NothingBelow(ip, i, k - 1); }
    }

    lemma {:induction false} StopsHere(ip: seq<byte>, i: nat, k: nat)
      requires Valid() && |ip| == 4 && i < k <= 32 && Leading(ip, i + 1) !in nodes
      ensures LongestMatch(Table(), Leading(ip, k)) == LongestMatch(Table(), Leading(ip, i))
      decreases k
    {
      NothingBelow(ip, i, k);
      assert Front(Leading(ip, k)) == Leading(ip, k - 1);
      if k > i + 1 { StopsHere(ip, i, k - 1); }
    }

    method Clear()
      modifies this
      ensures Valid() && Table() == map[] && fresh(nodes.Values)
    {
      var n := new Node();
      root := n;
      nodes := map[[] := n];
    }
  }

  /** A trie rebuilt from a list of routes answers every address as the linear scan of that list does. */
  method Rebuild<R>(routes: seq<Route<R>>) returns (t: Trie<R>)
    requires WellFormed(routes)
    ensures fresh(t) && t.Valid() && t.Table() == TableOf(routes)
    ensures forall ip: seq<byte> :: |ip| == 4 ==>
              LongestMatch(t.Table(), Leading(ip, 32)) == Target(Scan(routes, ip))
  {
    t := new Trie();
    for i := 0 to |routes|
      invariant fresh(t) && fresh(t.nodes.Values) && t.Valid() && t.Table() == TableOf(routes[..i])
    {
      assert Front(routes[..i + 1]) == routes[..i];
      t.Insert(Some(routes[i].net), routes[i].len, routes[i].target);
    }
    assert routes[..|routes|] == routes;
    forall ip: seq<byte> | |ip| == 4
      ensures LongestMatch(t.Table(), Leading(ip, 32)) == Target(Scan(routes, ip))
    {
      LookupIsScan(routes, ip);
    }
  }
}
