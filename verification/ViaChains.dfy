/**
  Via chains: `SetNext` follows the `via` names from one proxy and writes the `Next` pointers in
  place, walk after walk. A via that names a group is resolved by the group search, so the same
  proxy may be sent to a different place by a later walk.

  What makes the result safe is not the visited set but an invariant of the links: in the middle of
  a walk, every proxy either ends or runs into the node the walk is at.
 */
module ViaChains {
  import opened Basics
  import opened GroupOutcomes
  import opened ProxyGroups
  import opened GroupSearch

  // ---------------------------------------------------------------- links as a value

  type Links = map<Proxy, Proxy?>

  ghost predicate Closed(links: Links) {
    forall x :: x in links ==> links[x] == null || links[x] in links
  }

  /** Following the links from `x` reaches nil in at most `n` steps. */
  ghost predicate Ends(links: Links, x: Proxy?, n: nat)
    requires Closed(links) && (x == null || x in links)
    decreases n
  {
    x == null || (n > 0 && Ends(links, links[x], n - 1))
  }

  /** Following the links from `x` reaches nil or `cur` in at most `n` steps. */
  ghost predicate EndsOrMeets(links: Links, x: Proxy?, cur: Proxy, n: nat)
    requires Closed(links) && (x == null || x in links)
    decreases n
  {
    x == null || x == cur || (n > 0 && EndsOrMeets(links, links[x], cur, n - 1))
  }

  ghost predicate AllEnd(links: Links) {
    Closed(links) && forall x :: x in links ==> exists n: nat :: Ends(links, x, n)
  }

  ghost predicate AllEndOrMeet(links: Links, cur: Proxy) {
    Closed(links) && forall x :: x in links ==> exists n: nat :: EndsOrMeets(links, x, cur, n)
  }

  lemma {:induction false} EndsIsEndsOrMeets(links: Links, x: Proxy?, cur: Proxy, n: nat)
    requires Closed(links) && (x == null || x in links) && Ends(links, x, n)
    ensures EndsOrMeets(links, x, cur, n)
    decreases n
  {
    if x != null && x != cur { EndsIsEndsOrMeets(links, links[x], cur, n - 1); }
  }

  /** A walk may start anywhere once every chain ends. */
  lemma AllEndStartsWalk(links: Links, cur: Proxy)
    requires AllEnd(links)
    ensures AllEndOrMeet(links, cur)
  {
    forall x | x in links
      ensures exists n: nat :: EndsOrMeets(links, x, cur, n)
    {
      var n: nat :| Ends(links, x, n);
      EndsIsEndsOrMeets(links, x, cur, n);
    }
  }

  lemma {:induction false} RedirectOne(links: Links, cur: Proxy, next: Proxy, x: Proxy?, n: nat)
    requires Closed(links) && cur in links && next in links && (x == null || x in links)
    requires EndsOrMeets(links, x, cur, n)
    ensures Closed(links[cur := next]) && EndsOrMeets(links[cur := next], x, next, n + 1)
    decreases n
  {
    if x != null && x != cur { RedirectOne(links, cur, next, links[x], n - 1); }
  }

  /** Pointing the current node at the next one keeps the invariant, now for the next node. */
  lemma Redirect(links: Links, cur: Proxy, next: Proxy)
    requires AllEndOrMeet(links, cur) && cur in links && next in links
    ensures AllEndOrMeet(links[cur := next], next)
  {
    var l := links[cur := next];
    forall x | x in links
      ensures Closed(l) && exists n: nat :: EndsOrMeets(l, x, next, n)
    {
      var n: nat :| EndsOrMeets(links, x, cur, n);
      RedirectOne(links, cur, next, x, n);
    }
  }

  lemma {:induction false} FinishOne(links: Links, cur: Proxy, direct: Proxy, x: Proxy?, n: nat)
    requires Closed(links) && cur in links && direct !in links && (x == null || x in links)
    requires EndsOrMeets(links, x, cur, n)
    ensures var l := links[cur := direct][direct := null]; Closed(l) && Ends(l, x, n + 2)
    decreases n
  {
    var l := links[cur := direct][direct := null];
    assert Ends(l, direct, 1);
    if x == cur {
      assert Ends(l, x, n + 2) by { EndsMonotone(l, direct, 1, n + 1); }
    } else if x != null {
      FinishOne(links, cur, direct, links[x], n - 1);
      assert l[x] == links[x];
    }
  }

  lemma {:induction false} EndsMonotone(links: Links, x: Proxy?, n: nat, m: nat)
    requires Closed(links) && (x == null || x in links) && Ends(links, x, n) && n <= m
    ensures Ends(links, x, m)
    decreases n
  {
    if x != null { EndsMonotone(links, links[x], n - 1, m - 1); }
  }

  /** Pointing the last node at a fresh DIRECT ends every chain. */
  lemma Finish(links: Links, cur: Proxy, direct: Proxy)
    requires AllEndOrMeet(links, cur) && cur in links && direct !in links
    ensures AllEnd(links[cur := direct][direct := null])
  {
    var l := links[cur := direct][direct := null];
    forall x | x in l
      ensures Closed(l) && exists n: nat :: Ends(l, x, n)
    {
      assert Closed(l);
      if x == direct {
        assert Ends(l, x, 1);
      } else {
        var n: nat :| EndsOrMeets(links, x, cur, n);
        FinishOne(links, cur, direct, x, n);
      }
    }
  }

  // ---------------------------------------------------------------- vias without groups

  function Via(s: Snapshot, p: Proxy): Option<Proxy> {
    if p.viaProxy in s.proxies then Some(s.proxies[p.viaProxy]) else None
  }

  /** The via of `p` is not decided by a group. */
  predicate PlainVia(s: Snapshot, p: Proxy) {
    p.viaProxy in s.proxies || p.viaProxy !in s.groups
  }

  ghost predicate ViaEnds(s: Snapshot, p: Proxy, n: nat)
    decreases n
  {
    match Via(s, p)
    case None => true
    case Some(q) => n > 0 && ViaEnds(s, q, n - 1)
  }

  /** `q` is `k` via-steps after `p`. */
  ghost predicate ViaSteps(s: Snapshot, p: Proxy, k: nat, q: Proxy)
    decreases k
  {
    if k == 0 then p == q
    else match Via(s, p)
      case None => false
      case Some(r) => ViaSteps(s, r, k - 1, q)
  }

  /** The via chain never ends. */
  ghost predicate ViaLoops(s: Snapshot, p: Proxy) {
    forall n: nat :: !ViaEnds(s, p, n)
  }

  lemma {:induction false} ViaStepsThenOne(s: Snapshot, p: Proxy, k: nat, q: Proxy, r: Proxy)
    requires ViaSteps(s, p, k, q) && Via(s, q) == Some(r)
    ensures ViaSteps(s, p, k + 1, r)
    decreases k
  {
    if k > 0 { ViaStepsThenOne(s, Via(s, p).value, k - 1, q, r); }
  }

  lemma {:induction false} ViaStepsUseUp(s: Snapshot, p: Proxy, k: nat, q: Proxy, n: nat)
    requires ViaSteps(s, p, k, q) && ViaEnds(s, p, n)
    ensures k <= n && ViaEnds(s, q, n - k)
    decreases k
  {
    if k > 0 { ViaStepsUseUp(s, Via(s, p).value, k - 1, q, n - 1); }
  }

  lemma {:induction false} ReturningLoops(s: Snapshot, p: Proxy, k: nat, n: nat)
    requires k > 0 && ViaSteps(s, p, k, p)
    ensures !ViaEnds(s, p, n)
    decreases n
  {
    if ViaEnds(s, p, n) {
      ViaStepsUseUp(s, p, k, p, n);
      ReturningLoops(s, p, k, n - k);
    }
  }

  /** Running into a node already passed means the chain loops. */
  lemma RevisitLoops(s: Snapshot, p: Proxy, next: Proxy, k: nat)
    requires Via(s, p) == Some(next) && ViaSteps(s, next, k, p)
    ensures ViaLoops(s, p)
  {
    forall n: nat
      ensures !ViaEnds(s, p, n)
    {
      ReturningLoops(s, p, k + 1, n);
    }
  }

  lemma LoopsStep(s: Snapshot, p: Proxy)
    ensures ViaLoops(s, p) <==> Via(s, p).Some? && ViaLoops(s, Via(s, p).value)
  {
    match Via(s, p)
    case None => assert ViaEnds(s, p, 0);
    case Some(q) =>
      if ViaLoops(s, p) {
        forall n: nat ensures !ViaEnds(s, q, n) { assert !ViaEnds(s, p, n + 1); }
      }
      if ViaLoops(s, q) {
        forall n: nat ensures !ViaEnds(s, p, n) { assert n == 0 || !ViaEnds(s, q, n - 1); }
      }
  }

  // ---------------------------------------------------------------- the walk

  class ProxySet {
    var members: set<Proxy>

    constructor ()
      ensures members == {}
    {
      members := {};
    }
  }

  /** What a via or a group can resolve to. */
  ghost predicate IsTarget(s: Snapshot, p: Proxy) {
    || (exists n :: n in s.proxies && s.proxies[n] == p)
    || exists a, n :: a in s.groups && n in s.groups[a].pool && s.groups[a].pool[n] == p
  }

  ghost predicate Covers(s: Snapshot, known: set<Proxy>) {
    && (forall n :: n in s.proxies ==> s.proxies[n] in known)
    && forall a, n :: a in s.groups && n in s.groups[a].pool ==> s.groups[a].pool[n] in known
  }

  lemma GroupResultIsTarget(s: Snapshot, a: string, p: Proxy)
    requires WellFormed(s) && ReachesProxy(s, a, p)
    ensures IsTarget(s, p)
  {
    var path: seq<string>, z, m :| WalkTo(s, a, path, z) && IsLeafOf(s, z, m) && ResolveLeaf(s, z, m) == p;
    MembersResolve(s, z, m);
  }

  /** `next` is where `p` must point: the proxy of the via name, else what the group of that name gives,
      else a DIRECT node, one of `made`. */
  ghost predicate IsHop(s: Snapshot, p: Proxy, next: Proxy?, made: set<Proxy>)
    requires WellFormed(s)
  {
    && next != null
    && if p.viaProxy in s.proxies then next == s.proxies[p.viaProxy]
       else if p.viaProxy in s.groups && ReachesLeaf(s, p.viaProxy) then GroupGives(s, p.viaProxy, next)
       else next in made
  }

  /** The via of `p` names no proxy and no group that reaches one. */
  ghost predicate NoHop(s: Snapshot, p: Proxy) {
    p.viaProxy !in s.proxies && !(p.viaProxy in s.groups && ReachesLeaf(s, p.viaProxy))
  }

  /** Every node points, by its via, to the one after it, group vias included. */
  ghost predicate IsHopPath(s: Snapshot, path: seq<Proxy>)
    requires WellFormed(s)
  {
    forall i :: 0 <= i < |path| - 1 ==> HopAt(s, path, i)
  }

  ghost predicate HopAt(s: Snapshot, path: seq<Proxy>, i: nat)
    requires WellFormed(s) && i + 1 < |path|
  {
    IsHop(s, path[i], path[i + 1], {})
  }

  /** The path goes on from its start and ends at a node of `visited` or at one it has been at after the start. */
  ghost predicate ComesBack(path: seq<Proxy>, visited: set<Proxy>) {
    |path| >= 2 && var last := |path| - 1;
    path[last] in visited || exists j :: 0 < j < last && path[j] == path[last]
  }

  /** `path` shows how following vias from `p` runs into `visited` or into itself. */
  ghost predicate Revisits(s: Snapshot, p: Proxy, visited: set<Proxy>, path: seq<Proxy>)
    requires WellFormed(s)
  {
    IsHopPath(s, path) && ComesBack(path, visited) && path[0] == p
  }

  lemma RevisitNow(s: Snapshot, p: Proxy, next: Proxy, visited: set<Proxy>)
    requires WellFormed(s) && IsHop(s, p, next, {}) && next in visited
    ensures Revisits(s, p, visited, [p, next])
  {
    assert HopAt(s, [p, next], 0);
  }

  lemma RevisitLater(s: Snapshot, p: Proxy, next: Proxy, visited: set<Proxy>, rest: seq<Proxy>)
    requires WellFormed(s) && IsHop(s, p, next, {}) && Revisits(s, next, visited + {next}, rest)
    ensures Revisits(s, p, visited, [p] + rest)
  {
    HopFirst(s, p, next, rest);
    BackLater(p, next, visited, rest);
  }

  lemma HopFirst(s: Snapshot, p: Proxy, next: Proxy, rest: seq<Proxy>)
    requires WellFormed(s) && IsHop(s, p, next, {}) && IsHopPath(s, rest) && rest != [] && rest[0] == next
    ensures IsHopPath(s, [p] + rest)
  {
    var path := [p] + rest;
    forall i: nat | i < |path| - 1 ensures HopAt(s, path, i) {
      if i > 0 { assert HopAt(s, rest, i - 1) && path[i] == rest[i - 1] && path[i + 1] == rest[i]; }
    }
  }

  lemma BackLater(p: Proxy, next: Proxy, visited: set<Proxy>, rest: seq<Proxy>)
    requires ComesBack(rest, visited + {next}) && rest[0] == next
    ensures ComesBack([p] + rest, visited)
  {
    var path, last := [p] + rest, |rest| - 1;
    assert path[last + 1] == rest[last];
    if rest[last] !in visited {
      if rest[last] == next {
        assert path[1] == path[last + 1];
      } else {
        var j :| 0 < j < last && rest[j] == rest[last];
        assert path[j + 1] == path[last + 1];
      }
    }
  }

  /** Every link is as it was or points where it must. */
  ghost predicate Rewired(s: Snapshot, before: Links, after: Links, made: set<Proxy>)
    requires WellFormed(s)
  {
    forall q :: q in before ==> q in after && (after[q] == before[q] || IsHop(s, q, after[q], made))
  }

  /** The outcome of a walk from `proxy`: on success it points where it must and every chain ends. */
  ghost predicate Walked(s: Snapshot, proxy: Proxy, before: Links, after: Links, made: set<Proxy>, ok: bool)
    requires WellFormed(s)
  {
    Rewired(s, before, after, made) && (ok ==> AllEnd(after) && proxy in after && IsHop(s, proxy, after[proxy], made))
  }

  lemma WalkedThen(s: Snapshot, links: Links, proxy: Proxy, next: Proxy, after: Links, made: set<Proxy>, ok: bool)
    requires WellFormed(s) && proxy in links && IsHop(s, proxy, next, {})
    requires Walked(s, next, links[proxy := next], after, made, ok)
    ensures Walked(s, proxy, links, after, made, ok)
  {
    var linked := links[proxy := next];
    forall q | q in links ensures q in after && (after[q] == links[q] || IsHop(s, q, after[q], made)) {
      assert q in linked;
    }
    assert proxy in linked;
  }

  /** What the `next` fields say now, for every proxy object in `known`: the tables, the
      subscription pools and the DIRECT nodes made so far. */
  ghost function LinksOf(known: set<Proxy>): Links
    reads known`next
  {
    map p | p in known :: p.next
  }

  /** The next hop of a proxy: the global proxy of that name, else what the group resolves to. */
  method NextHop(reg: Registry, proxy: Proxy, ghost s: Snapshot, ghost known: set<Proxy>) returns (next: Proxy?)
    requires Shows(reg, s) && WellFormed(s) && Covers(s, known)
    modifies reg.groups.Values`idx
    ensures Shows(reg, s)
    ensures next != null ==> next in known && IsHop(s, proxy, next, {})
    ensures next == null ==> NoHop(s, proxy)
    ensures PlainVia(s, proxy) ==> Via(s, proxy) == if next == null then None else Some(next)
  {
    if proxy.viaProxy in reg.proxies {
      next := reg.proxies[proxy.viaProxy];
    } else if proxy.viaProxy in reg.groups {
      ghost var through;
      next, through := reg.groups[proxy.viaProxy].Next(reg, s);
      if next != null { GroupResultIsTarget(s, proxy.viaProxy, next); }
    } else {
      next := null;
    }
  }

  /** Mark the next node as visited and point the current one at it. */
  method LinkTo(proxy: Proxy, next: Proxy, visited: ProxySet, ghost known: set<Proxy>, ghost links: Links)
    returns (ghost linked: Links)
    requires proxy in known && next in known && links == LinksOf(known) && AllEndOrMeet(links, proxy)
    modifies proxy`next, visited
    ensures visited.members == old(visited.members) + {next}
    ensures linked == links[proxy := next] && linked == LinksOf(known) && AllEndOrMeet(linked, next)
  {
    visited.members := visited.members + {next};
    proxy.next := next;
    linked := links[proxy := next];
    assert LinksOf(known) == linked;
    Redirect(links, proxy, next);
  }

  method EndAtDirect(proxy: Proxy, ghost s: Snapshot, ghost known: set<Proxy>, ghost links: Links)
    returns (ghost made: set<Proxy>, ghost wired: Links)
    requires proxy in known && links == LinksOf(known) && AllEndOrMeet(links, proxy)
    requires WellFormed(s) && NoHop(s, proxy)
    modifies proxy`next
    ensures fresh(made) && wired == LinksOf(known + made) && Walked(s, proxy, links, wired, made, true)
  {
    var direct := new Proxy("");
    proxy.next := direct;
    made := {direct};
    ghost var linked: Links := links[proxy := direct];
    wired := linked[direct := null];
    assert LinksOf(known + made) == wired;
    Finish(links, proxy, direct);
  }

  /** One walk. The start is not in `visited`; every later node is. `links` are the links before it and
      `wired` those after it; `made` is the DIRECT node that a successful walk adds, `back` the way
      on which a failed walk came back to a node it had passed. */
  method SetNext(reg: Registry, proxy: Proxy, visited: ProxySet, ghost s: Snapshot, ghost known: set<Proxy>,
                 ghost links: Links)
    returns (ok: bool, ghost made: set<Proxy>, ghost wired: Links, ghost back: seq<Proxy>)
    requires Shows(reg, s) && WellFormed(s)
    requires proxy in known && Covers(s, known)
    requires links == LinksOf(known) && AllEndOrMeet(links, proxy)
    modifies known`next, visited, reg.groups.Values`idx
    ensures Shows(reg, s)
    ensures fresh(made) && wired == LinksOf(known + made) && Walked(s, proxy, links, wired, made, ok)
    ensures Verdict(s, old(visited.members), proxy, ok)
    ensures !ok ==> Revisits(s, proxy, old(visited.members), back)
    decreases known - visited.members, 1
  {
    var hop := NextHop(reg, proxy, s, known);
    VerdictNow(s, visited.members, proxy, hop);
    if hop == null {
      made, wired := EndAtDirect(proxy, s, known, links);
      return true, made, wired, [];
    }
    var next: Proxy := hop;
    if next in visited.members {
      assert known + {} == known;
      RevisitNow(s, proxy, next, visited.members);
      return false, {}, links, [proxy, next];
    }
    ok, made, wired, back := Follow(reg, proxy, next, visited, s, known, links);
  }

  /** The step of a walk to a node it has not passed. */
  method Follow(reg: Registry, proxy: Proxy, next: Proxy, visited: ProxySet, ghost s: Snapshot,
                ghost known: set<Proxy>, ghost links: Links)
    returns (ok: bool, ghost made: set<Proxy>, ghost wired: Links, ghost back: seq<Proxy>)
    requires Shows(reg, s) && WellFormed(s)
    requires proxy in known && Covers(s, known)
    requires links == LinksOf(known) && AllEndOrMeet(links, proxy)
    requires next in known && next !in visited.members && IsHop(s, proxy, next, {})
    requires PlainVia(s, proxy) ==> Via(s, proxy) == Some(next)
    modifies known`next, visited, reg.groups.Values`idx
    ensures Shows(reg, s)
    ensures fresh(made) && wired == LinksOf(known + made) && Walked(s, proxy, links, wired, made, ok)
    ensures Verdict(s, old(visited.members), proxy, ok)
    ensures !ok ==> Revisits(s, proxy, old(visited.members), back)
    decreases known - visited.members, 0
  {
    ghost var passed := visited.members;
    ghost var linked := LinkTo(proxy, next, visited, known, links);
    ok, made, wired, back := SetNext(reg, next, visited, s, known, linked);
    WalkedThen(s, links, proxy, next, wired, made, ok);
    VerdictThen(s, passed, proxy, next, ok);
    if !ok {
      RevisitLater(s, proxy, next, passed, back);
      back := [proxy] + back;
    }
  }

  /** Every chain ends, and every walked proxy points where it must. */
  ghost predicate Wired(s: Snapshot, links: Links, todo: set<string>, made: set<Proxy>)
    requires WellFormed(s)
  {
    && AllEnd(links)
    && forall n :: n in s.proxies && n !in todo ==>
         s.proxies[n] in links && IsHop(s, s.proxies[n], links[s.proxies[n]], made)
  }

  lemma WiredStep(s: Snapshot, n: string, todo: set<string>, before: Links, after: Links, made: set<Proxy>,
                  more: set<Proxy>)
    requires WellFormed(s) && n in s.proxies && Wired(s, before, todo, made)
    requires Walked(s, s.proxies[n], before, after, more, true)
    ensures Wired(s, after, todo - {n}, made + more)
  {
    forall k | k in s.proxies && k !in todo - {n}
      ensures s.proxies[k] in after && IsHop(s, s.proxies[k], after[s.proxies[k]], made + more)
    {
      if k != n { assert s.proxies[k] in before; }
    }
  }

  /** No via of the table is decided by a group. */
  ghost predicate PlainTable(s: Snapshot) {
    forall n :: n in s.proxies ==> PlainVia(s, s.proxies[n])
  }

  ghost predicate NoLoops(s: Snapshot, todo: set<string>) {
    forall n :: n in s.proxies && n !in todo ==> !ViaLoops(s, s.proxies[n])
  }

  method WalkFrom(reg: Registry, name: string, ghost todo: set<string>, ghost s: Snapshot, ghost known: set<Proxy>,
                  ghost made: set<Proxy>, ghost links: Links)
    returns (ok: bool, ghost made': set<Proxy>, ghost wired: Links, ghost back: seq<Proxy>)
    requires Shows(reg, s) && WellFormed(s) && Covers(s, known) && name in reg.proxies
    requires links == LinksOf(known + made) && Wired(s, links, todo, made)
    modifies (known + made)`next, reg.groups.Values`idx
    ensures Shows(reg, s)
    ensures made <= made' && fresh(made' - made) && wired == LinksOf(known + made')
    ensures ok ==> Wired(s, wired, todo - {name}, made')
    ensures PlainTable(s) ==> (ok <==> !ViaLoops(s, s.proxies[name]))
    ensures !ok ==> Revisits(s, s.proxies[name], {}, back)
  {
    var p := reg.proxies[name];
    AllEndStartsWalk(links, p);
    var visited := new ProxySet();
    ghost var more;
    ok, more, wired, back := SetNext(reg, p, visited, s, known + made, links);
    made' := made + more;
    assert (known + made) + more == known + made';
    if ok { WiredStep(s, name, todo, links, wired, made, more); }
  }

  /** Start-up: walk from every proxy of the table, in any order. Success means that every proxy of the
      table points where its via says, and that following `Next` from any proxy at all ends, whatever later
      walks overwrote. Failure means that following vias from some proxy of the table can come back to a node
      it has passed, and `back` is how. `made` are the DIRECT nodes. */
  method WireAll(reg: Registry, ghost s: Snapshot, ghost known: set<Proxy>)
    returns (ok: bool, ghost made: set<Proxy>, ghost wired: Links, ghost back: seq<Proxy>)
    requires Shows(reg, s) && WellFormed(s)
    requires Covers(s, known) && AllEnd(LinksOf(known))
    modifies known`next, reg.groups.Values`idx
    ensures fresh(made) && wired == LinksOf(known + made)
    ensures ok ==> Wired(s, wired, {}, made)
    ensures PlainTable(s) ==> (ok <==> NoLoops(s, {}))
    ensures !ok ==> exists n :: n in s.proxies && Revisits(s, s.proxies[n], {}, back)
    ensures (forall n, path: seq<Proxy> :: n in s.proxies ==> !Revisits(s, s.proxies[n], {}, path)) ==> ok
  {
    var todo := reg.proxies.Keys;
    made, wired := {}, LinksOf(known);
    assert known + made == known;
    while todo != {}
      invariant todo <= reg.proxies.Keys
      invariant Shows(reg, s)
      invariant fresh(made) && wired == LinksOf(known + made)
      invariant Wired(s, wired, todo, made)
      invariant PlainTable(s) ==> NoLoops(s, todo)
    {
      var n :| n in todo;
      ok, made, wired, back := WalkFrom(reg, n, todo, s, known, made, wired);
      if !ok { return; }
      todo := todo - {n};
    }
    return true, made, wired, [];
  }

  /** No via on the chain from `p` is decided by a group. */
  ghost predicate AllPlain(s: Snapshot, p: Proxy) {
    PlainVia(s, p) && PlainTable(s)
  }

  /** Every visited node leads to `p` by via-steps. */
  ghost predicate OnChain(s: Snapshot, visited: set<Proxy>, p: Proxy) {
    forall v :: v in visited ==> exists k: nat :: ViaSteps(s, v, k, p)
  }

  /** With plain vias a walk that has come to `p` over `visited` succeeds exactly when the chain ends. */
  ghost predicate Verdict(s: Snapshot, visited: set<Proxy>, p: Proxy, ok: bool) {
    AllPlain(s, p) && OnChain(s, visited, p) ==> (ok <==> !ViaLoops(s, p))
  }

  lemma VerdictNow(s: Snapshot, visited: set<Proxy>, p: Proxy, hop: Proxy?)
    requires PlainVia(s, p) ==> Via(s, p) == if hop == null then None else Some(hop)
    ensures hop == null ==> Verdict(s, visited, p, true)
    ensures hop != null && hop in visited ==> Verdict(s, visited, p, false)
  {
    LoopsStep(s, p);
    if AllPlain(s, p) && OnChain(s, visited, p) && hop != null && hop in visited {
      var k: nat :| ViaSteps(s, hop, k, p);
      RevisitLoops(s, p, hop, k);
    }
  }

  lemma VerdictThen(s: Snapshot, visited: set<Proxy>, p: Proxy, next: Proxy, ok: bool)
    requires PlainVia(s, p) ==> Via(s, p) == Some(next)
    requires Verdict(s, visited + {next}, next, ok)
    ensures Verdict(s, visited, p, ok)
  {
    if AllPlain(s, p) && OnChain(s, visited, p) {
      LoopsStep(s, p);
      StillOnChain(s, visited, p, next);
    }
  }

  lemma StillOnChain(s: Snapshot, visited: set<Proxy>, p: Proxy, next: Proxy)
    requires Via(s, p) == Some(next) && OnChain(s, visited, p)
    ensures OnChain(s, visited + {next}, next)
  {
    forall v | v in visited + {next}
      ensures exists k: nat :: ViaSteps(s, v, k, next)
    {
      if v == next {
        assert ViaSteps(s, v, 0, next);
      } else {
        var k: nat :| ViaSteps(s, v, k, p);
        ViaStepsThenOne(s, v, k, p, next);
      }
    }
  }
}
