/**
  Proxy groups: which proxy a group stands for right now.

  A group lists members, which are leaf proxies or other groups, and picks among them by its
  kind. `NextWithVisited` searches the (possibly cyclic) graph of groups depth first with one
  shared set of visited names. `PickActiveMember` answers the same question without that set,
  and `CheckGroupCycle` is the check that makes it safe to do so.

  The graph theory is on values (`Snapshot`, `GroupView`). The class `ProxyGroup` holds the
  fields of the running system; its methods only ever move the round-robin counter `idx`.
 */
module ProxyGroups {

  // ---------------------------------------------------------------- data

  class Proxy {
    const viaProxy: string
    var next: Proxy?

    constructor (via: string)
      ensures viaProxy == via && next == null
    {
      viaProxy := via;
      next := null;
    }
  }

  /** `Unsupported` is any type string that `Init` would reject; `pickMember` still has a default. */
  datatype GroupKind = Select | LoadBalance | Best | Unsupported

  datatype Member = Member(name: string, fromSubscription: bool, isGroup: bool)

  /** The zero value the source returns for "no member". */
  const NO_MEMBER := Member("", false, false)

  datatype Health = Health(alive: bool, latency: int)

  /** What selection depends on in one group. `nodes` are the filtered, sorted subscription candidates
      and `pool` the subscription's node table (both empty without a subscription). */
  datatype GroupView = GroupView(
    kind: GroupKind,
    manual: seq<string>,
    nodes: seq<string>,
    pool: map<string, Proxy>,
    active: string,
    health: map<string, Health>)

  /** A fixed answer for the three resolver callbacks. */
  datatype Snapshot = Snapshot(proxies: map<string, Proxy>, groups: map<string, GroupView>)

  ghost predicate WellFormed(s: Snapshot) {
    && "" !in s.proxies
    && "" !in s.groups
    && forall a, n :: a in s.groups && n in s.groups[a].nodes ==> n != "" && n in s.groups[a].pool
  }

  // ---------------------------------------------------------------- members

  function SubscriptionMembers(nodes: seq<string>): seq<Member> {
    if nodes == [] then [] else [Member(nodes[0], true, false)] + SubscriptionMembers(nodes[1..])
  }

  /** Manual names that resolve: a proxy of that name hides a group of that name; others are skipped. */
  function ManualMember(s: Snapshot, name: string): seq<Member> {
    if name in s.proxies then [Member(name, false, false)]
    else if name in s.groups then [Member(name, false, true)]
    else []
  }

  function ManualMembers(s: Snapshot, names: seq<string>): seq<Member> {
    if names == [] then [] else ManualMember(s, names[0]) + ManualMembers(s, names[1..])
  }

  function Members(s: Snapshot, g: GroupView): seq<Member> {
    SubscriptionMembers(g.nodes) + ManualMembers(s, g.manual)
  }

  function HealthKey(m: Member): string {
    if m.fromSubscription then "sub:" + m.name else m.name
  }

  predicate Dead(health: map<string, Health>, m: Member) {
    HealthKey(m) in health && !health[HealthKey(m)].alive
  }

  /** The members a kind may return: health counts only for load-balance and best. */
  predicate Selectable(g: GroupView, m: Member) {
    match g.kind
    case LoadBalance => !Dead(g.health, m)
    case Best => !Dead(g.health, m)
    case _ => true
  }

  lemma {:induction false} SubscriptionMembersExact(nodes: seq<string>, m: Member)
    ensures m in SubscriptionMembers(nodes) <==> m.name in nodes && m.fromSubscription && !m.isGroup
  {
    if nodes != [] {
      SubscriptionMembersExact(nodes[1..], m);
      assert nodes == [nodes[0]] + nodes[1..];
    }
  }

  lemma {:induction false} ManualMembersExact(s: Snapshot, names: seq<string>, m: Member)
    ensures m in ManualMembers(s, names) <==>
            && m.name in names
            && !m.fromSubscription
            && (if m.isGroup then m.name !in s.proxies && m.name in s.groups else m.name in s.proxies)
  {
    if names != [] {
      ManualMembersExact(s, names[1..], m);
      assert names == [names[0]] + names[1..];
    }
  }

  /** A member resolves to exactly one leaf proxy, or names an existing group; never the empty name. */
  lemma MembersResolve(s: Snapshot, a: string, m: Member)
    requires WellFormed(s) && a in s.groups
    requires m in Members(s, s.groups[a])
    ensures m.name != ""
    ensures m.isGroup ==> m.name in s.groups && m.name in s.groups[a].manual && m == Member(m.name, false, true)
    ensures !m.isGroup && m.fromSubscription ==> m.name in s.groups[a].pool
    ensures !m.isGroup && !m.fromSubscription ==> m.name in s.proxies
  {
    SubscriptionMembersExact(s.groups[a].nodes, m);
    ManualMembersExact(s, s.groups[a].manual, m);
  }

  // ---------------------------------------------------------------- the graph of groups

  /** Group `a` can hand over to group `b`. */
  predicate Edge(s: Snapshot, a: string, b: string) {
    && a in s.groups
    && Member(b, false, true) in Members(s, s.groups[a])
    && Selectable(s.groups[a], Member(b, false, true))
  }

  ghost predicate IsLeafOf(s: Snapshot, a: string, m: Member) {
    a in s.groups && m in Members(s, s.groups[a]) && !m.isGroup && Selectable(s.groups[a], m)
  }

  ghost predicate HasLeaf(s: Snapshot, a: string) {
    exists m :: IsLeafOf(s, a, m)
  }

  ghost predicate IsWalk(s: Snapshot, path: seq<string>) {
    && path != []
    && forall i :: 0 <= i < |path| - 1 ==> Edge(s, path[i], path[i + 1])
  }

  ghost predicate WalkTo(s: Snapshot, a: string, path: seq<string>, z: string) {
    IsWalk(s, path) && path[0] == a && path[|path| - 1] == z
  }

  /** The meaning of a group: some selectable leaf can be reached through selectable members. */
  ghost predicate ReachesLeaf(s: Snapshot, a: string) {
    exists path: seq<string>, z :: WalkTo(s, a, path, z) && HasLeaf(s, z)
  }

  function ResolveLeaf(s: Snapshot, a: string, m: Member): Proxy
    requires WellFormed(s) && a in s.groups && m in Members(s, s.groups[a]) && !m.isGroup
  {
    MembersResolve(s, a, m);
    if m.fromSubscription then s.groups[a].pool[m.name] else s.proxies[m.name]
  }

  /** `p` is a leaf of a group reachable from `a`. */
  ghost predicate ReachesProxy(s: Snapshot, a: string, p: Proxy)
    requires WellFormed(s)
  {
    exists path: seq<string>, z, m ::
      WalkTo(s, a, path, z) && IsLeafOf(s, z, m) && ResolveLeaf(s, z, m) == p
  }

  /** `p` is what member `m` of group `a` stands for. */
  ghost predicate ResolvedThrough(s: Snapshot, a: string, m: Member, p: Proxy)
    requires WellFormed(s)
  {
    && a in s.groups && m in Members(s, s.groups[a])
    && if m.isGroup then ReachesProxy(s, m.name, p) else p == ResolveLeaf(s, a, m)
  }

  lemma ReachesProxyIsLeaf(s: Snapshot, a: string, p: Proxy)
    requires WellFormed(s) && ReachesProxy(s, a, p)
    ensures ReachesLeaf(s, a)
  {
    var path: seq<string>, z, m :| WalkTo(s, a, path, z) && IsLeafOf(s, z, m) && ResolveLeaf(s, z, m) == p;
    assert HasLeaf(s, z);
  }

  lemma OwnLeafReaches(s: Snapshot, a: string, m: Member)
    requires WellFormed(s) && IsLeafOf(s, a, m)
    ensures ReachesProxy(s, a, ResolveLeaf(s, a, m))
  {
    assert WalkTo(s, a, [a], a);
  }

  lemma PrependEdge(s: Snapshot, a: string, b: string, path: seq<string>, z: string)
    requires Edge(s, a, b) && WalkTo(s, b, path, z)
    ensures WalkTo(s, a, [a] + path, z)
  {
    var q := [a] + path;
    forall i | 0 <= i < |q| - 1
      ensures Edge(s, q[i], q[i + 1])
    {
      if i > 0 { assert Edge(s, path[i - 1], path[i]); }
    }
  }

  lemma EdgeReachesProxy(s: Snapshot, a: string, b: string, p: Proxy)
    requires WellFormed(s) && Edge(s, a, b) && ReachesProxy(s, b, p)
    ensures ReachesProxy(s, a, p)
  {
    var path: seq<string>, z, m :| WalkTo(s, b, path, z) && IsLeafOf(s, z, m) && ResolveLeaf(s, z, m) == p;
    PrependEdge(s, a, b, path, z);
  }

  /** One unfolding of the meaning: a leaf of its own, or a selectable inner group that has one. */
  lemma ReachesLeafStep(s: Snapshot, a: string)
    ensures ReachesLeaf(s, a) <==> HasLeaf(s, a) || exists b :: Edge(s, a, b) && ReachesLeaf(s, b)
  {
    if HasLeaf(s, a) {
      assert WalkTo(s, a, [a], a);
    }
    if b :| Edge(s, a, b) && ReachesLeaf(s, b) {
      var path: seq<string>, z :| WalkTo(s, b, path, z) && HasLeaf(s, z);
      PrependEdge(s, a, b, path, z);
    }
    if ReachesLeaf(s, a) && !HasLeaf(s, a) {
      var path: seq<string>, z :| WalkTo(s, a, path, z) && HasLeaf(s, z);
      assert Edge(s, path[0], path[1]);
      var rest := path[1..];
      forall i | 0 <= i < |rest| - 1
        ensures Edge(s, rest[i], rest[i + 1])
      {
        assert Edge(s, path[i + 1], path[i + 2]);
      }
      assert WalkTo(s, path[1], rest, z);
    }
  }

  // ---------------------------------------------------------------- what a failed search leaves behind

  /** Every group in `done` has no leaf of its own and hands over only to groups in `seen`. */
  ghost predicate Exhausted(s: Snapshot, done: set<string>, seen: set<string>) {
    forall a :: a in done ==> !HasLeaf(s, a) && forall b :: Edge(s, a, b) ==> b in seen
  }

  /** From an exhausted region one can only leave through the groups still on the search stack. */
  lemma {:induction false} ExhaustedStays(s: Snapshot, seen: set<string>, stack: set<string>, a: string,
                                          path: seq<string>, z: string)
    requires Exhausted(s, seen - stack, seen)
    requires a in seen && WalkTo(s, a, path, z)
    requires forall i :: 0 <= i < |path| ==> path[i] !in stack
    ensures z in seen && !HasLeaf(s, z)
    decreases |path|
  {
    assert path[0] == a && a in seen - stack;
    if |path| > 1 {
      assert Edge(s, path[0], path[1]);
      var rest := path[1..];
      forall i | 0 <= i < |rest| - 1
        ensures Edge(s, rest[i], rest[i + 1])
      {
        assert Edge(s, path[i + 1], path[i + 2]);
      }
      ExhaustedStays(s, seen, stack, path[1], rest, z);
    }
  }

  lemma ExhaustedHasNoLeaf(s: Snapshot, seen: set<string>, a: string)
    requires Exhausted(s, seen, seen) && a in seen
    ensures !ReachesLeaf(s, a)
  {
    if ReachesLeaf(s, a) {
      var path: seq<string>, z :| WalkTo(s, a, path, z) && HasLeaf(s, z);
      assert seen - {} == seen;
      ExhaustedStays(s, seen, {}, a, path, z);
    }
  }

  // ---------------------------------------------------------------- picking one member

  /** First member with the given name, else the head, else nothing. */
  function PickSelect(active: string, list: seq<Member>): Member {
    if list == [] then NO_MEMBER
    else if active != "" && exists i :: 0 <= i < |list| && list[i].name == active then FirstNamed(active, list)
    else list[0]
  }

  function FirstNamed(name: string, list: seq<Member>): (m: Member)
    requires exists i :: 0 <= i < |list| && list[i].name == name
    ensures m in list && m.name == name
  {
    if list[0].name == name then list[0] else
      assert exists i :: 0 <= i < |list[1..]| && list[1..][i].name == name by {
        var i :| 0 <= i < |list| && list[i].name == name;
        assert list[1..][i - 1] == list[i];
      }
      FirstNamed(name, list[1..])
  }

  predicate Measured(health: map<string, Health>, m: Member) {
    HealthKey(m) in health && health[HealthKey(m)].alive
  }

  predicate Unchecked(health: map<string, Health>, m: Member) {
    HealthKey(m) !in health
  }

  /** `m` is what a best group must return: among the measured alive members one of least latency,
      and the first of those; if there is none, the first unchecked one; if there is none, nothing. */
  ghost predicate IsBestPick(health: map<string, Health>, list: seq<Member>, m: Member) {
    if exists i :: 0 <= i < |list| && Measured(health, list[i]) then
      exists i :: 0 <= i < |list| && IsFastest(health, list, i) && m == list[i]
    else if exists i :: 0 <= i < |list| && Unchecked(health, list[i]) then
      exists i :: 0 <= i < |list| && IsFirstUnchecked(health, list, i) && m == list[i]
    else
      m == NO_MEMBER
  }

  ghost predicate IsFastest(health: map<string, Health>, list: seq<Member>, i: nat)
    requires i < |list|
  {
    && Measured(health, list[i])
    && forall j :: 0 <= j < |list| && Measured(health, list[j]) ==>
        && health[HealthKey(list[i])].latency <= health[HealthKey(list[j])].latency
        && (j < i ==> health[HealthKey(list[i])].latency < health[HealthKey(list[j])].latency)
  }

  ghost predicate IsFirstUnchecked(health: map<string, Health>, list: seq<Member>, i: nat)
    requires i < |list|
  {
    Unchecked(health, list[i]) && forall j :: 0 <= j < i ==> !Unchecked(health, list[j])
  }

  /** The best pick is determined by the list and the health map. */
  lemma BestPickUnique(health: map<string, Health>, list: seq<Member>, m: Member, m': Member)
    requires IsBestPick(health, list, m) && IsBestPick(health, list, m')
    ensures m == m'
  {
    if exists i :: 0 <= i < |list| && Measured(health, list[i]) {
      var i :| 0 <= i < |list| && IsFastest(health, list, i) && m == list[i];
      var j :| 0 <= j < |list| && IsFastest(health, list, j) && m' == list[j];
      assert i == j;
    } else if exists i :: 0 <= i < |list| && Unchecked(health, list[i]) {
      var i :| 0 <= i < |list| && IsFirstUnchecked(health, list, i) && m == list[i];
      var j :| 0 <= j < |list| && IsFirstUnchecked(health, list, j) && m' == list[j];
      assert i == j;
    }
  }

  /** The round robin from counter `at`: up to `probes` members, dead ones skipped, the counter moved once
      per probe. */
  function Robin(health: map<string, Health>, list: seq<Member>, at: nat, probes: nat): (Member, nat)
    requires list != []
    decreases probes
  {
    if probes == 0 then (NO_MEMBER, at)
    else if Dead(health, list[at % |list|]) then Robin(health, list, at + 1, probes - 1)
    else (list[at % |list|], at + 1)
  }

  /** What `pickMember` promises to its callers: the member, and the counter before and after. */
  ghost predicate GoodPick(g: GroupView, list: seq<Member>, at: nat, m: Member, at': nat) {
    && (m == NO_MEMBER || (m in list && Selectable(g, m)))
    && (m == NO_MEMBER ==> forall x :: x in list ==> !Selectable(g, x))
    && (g.kind.Select? ==> m == PickSelect(g.active, list))
    && (g.kind.Best? ==> IsBestPick(g.health, list, m))
    && (g.kind.Unsupported? && list != [] ==> m == list[0])
    && (if g.kind.LoadBalance? && list != [] then (m, at') == Robin(g.health, list, at, |list|) else at' == at)
  }

  /** Kind, list, health, active name and counter determine the pick and the next counter. */
  lemma GoodPickUnique(g: GroupView, list: seq<Member>, at: nat, m: Member, k: nat, m': Member, k': nat)
    requires list != [] && GoodPick(g, list, at, m, k) && GoodPick(g, list, at, m', k')
    ensures m == m' && k == k'
  {
    if g.kind.Best? { BestPickUnique(g.health, list, m, m'); }
  }

  /** Removing the first occurrence, as `removeGroupMember` does. */
  function RemoveFirst(list: seq<Member>, m: Member): (r: seq<Member>)
    ensures forall x :: x in r ==> x in list
    ensures forall x :: x in list && x != m ==> x in r
    ensures |r| == if m in list then |list| - 1 else |list|
  {
    if list == [] then []
    else if list[0] == m then
      assert list == [list[0]] + list[1..];
      list[1..]
    else
      assert list == [list[0]] + list[1..];
      [list[0]] + RemoveFirst(list[1..], m)
  }

  /** A member leads somewhere when it is a leaf, or an inner group that reaches a leaf. */
  ghost predicate Leads(s: Snapshot, m: Member) {
    !m.isGroup || ReachesLeaf(s, m.name)
  }

  /** `m` is the outcome of picking from `list` again and again until a pick leads somewhere, with the
      counter going from `at` to `at'`. */
  ghost predicate IsChosen(s: Snapshot, g: GroupView, list: seq<Member>, at: nat, m: Member, at': nat)
    decreases |list|
  {
    if list == [] then m == NO_MEMBER && at' == at
    else exists x, k: nat :: ChosenAfter(s, g, list, at, x, k, m, at')
  }

  /** The same, when the first pick is `x` and leaves the counter at `k`. */
  ghost predicate ChosenAfter(s: Snapshot, g: GroupView, list: seq<Member>, at: nat, x: Member, k: nat, m: Member,
                              at': nat)
    requires list != []
    decreases |list|, 0
  {
    && GoodPick(g, list, at, x, k)
    && if x == NO_MEMBER then m == NO_MEMBER && at' == k
       else if Leads(s, x) then m == x && at' == k
       else IsChosen(s, g, RemoveFirst(list, x), k, m, at')
  }

  /** From equal counters the outcome and the final counter are determined, for every kind. */
  lemma {:induction false} ChosenUnique(s: Snapshot, g: GroupView, list: seq<Member>, at: nat, m: Member, n: nat,
                                        m': Member, n': nat)
    requires IsChosen(s, g, list, at, m, n) && IsChosen(s, g, list, at, m', n')
    ensures m == m' && n == n'
    decreases |list|
  {
    if list != [] {
      var x, k: nat :| ChosenAfter(s, g, list, at, x, k, m, n);
      var x', k': nat :| ChosenAfter(s, g, list, at, x', k', m', n');
      GoodPickUnique(g, list, at, x, k, x', k');
      if x != NO_MEMBER && !Leads(s, x) {
        ChosenUnique(s, g, RemoveFirst(list, x), k, m, n, m', n');
      }
    }
  }

  // ---------------------------------------------------------------- cycles among manual members

  /** The reference graph that `checkGroupCycle` walks: any manual name that is a group, whatever its
      health and even when a proxy of the same name hides it. */
  predicate ManualEdge(s: Snapshot, a: string, b: string) {
    a in s.groups && b in s.groups && b in s.groups[a].manual
  }

  ghost predicate IsManualWalk(s: Snapshot, a: string, path: seq<string>) {
    && path != []
    && path[0] == a
    && forall i :: 0 <= i < |path| - 1 ==> ManualEdge(s, path[i], path[i + 1])
  }

  ghost predicate Repeats(path: seq<string>) {
    exists i, j :: 0 <= i < j < |path| && path[i] == path[j]
  }

  /** A cycle of manual group members can be reached from `a`. */
  ghost predicate ReachesCycle(s: Snapshot, a: string) {
    exists path :: IsManualWalk(s, a, path) && Repeats(path)
  }

  /** Some manual walk from `a` closes a loop or touches `marked`. */
  ghost predicate HitsOrRepeats(s: Snapshot, a: string, marked: set<string>) {
    exists path :: IsManualWalk(s, a, path) && (Repeats(path) || exists x :: x in path && x in marked)
  }

  lemma HitsNothingIsCycle(s: Snapshot, a: string)
    ensures HitsOrRepeats(s, a, {}) <==> ReachesCycle(s, a)
  {
  }

  lemma ManualWalkCons(s: Snapshot, a: string, b: string, path: seq<string>)
    requires ManualEdge(s, a, b) && IsManualWalk(s, b, path)
    ensures IsManualWalk(s, a, [a] + path)
  {
    var q := [a] + path;
    forall i | 0 <= i < |q| - 1
      ensures ManualEdge(s, q[i], q[i + 1])
    {
      if i > 0 { assert ManualEdge(s, path[i - 1], path[i]); }
    }
  }

  lemma ManualWalkTail(s: Snapshot, a: string, path: seq<string>)
    requires IsManualWalk(s, a, path) && |path| > 1
    ensures ManualEdge(s, a, path[1]) && IsManualWalk(s, path[1], path[1..])
  {
    var rest := path[1..];
    assert ManualEdge(s, path[0], path[1]);
    forall i | 0 <= i < |rest| - 1
      ensures ManualEdge(s, rest[i], rest[i + 1])
    {
      assert ManualEdge(s, path[i + 1], path[i + 2]);
    }
  }

  /** The recursion of the check, forwards: trouble below a member is trouble here. */
  lemma CycleBelow(s: Snapshot, a: string, b: string, marked: set<string>)
    requires ManualEdge(s, a, b) && HitsOrRepeats(s, b, marked + {a})
    ensures HitsOrRepeats(s, a, marked)
  {
    var path :| IsManualWalk(s, b, path) && (Repeats(path) || exists x :: x in path && x in marked + {a});
    ManualWalkCons(s, a, b, path);
    var q := [a] + path;
    if Repeats(path) {
      var i, j :| 0 <= i < j < |path| && path[i] == path[j];
      assert q[i + 1] == q[j + 1];
    } else {
      var x :| x in path && x in marked + {a};
      var i :| 0 <= i < |path| && path[i] == x;
      if x == a { assert q[0] == q[i + 1]; } else { assert x in q; }
    }
  }

  /** And backwards: trouble here that is not a mark on `a` itself shows below some member. */
  lemma CycleAbove(s: Snapshot, a: string, marked: set<string>)
    requires HitsOrRepeats(s, a, marked) && a !in marked
    ensures exists b :: ManualEdge(s, a, b) && HitsOrRepeats(s, b, marked + {a})
  {
    var path :| IsManualWalk(s, a, path) && (Repeats(path) || exists x :: x in path && x in marked);
    assert |path| > 1;
    ManualWalkTail(s, a, path);
    var rest := path[1..];
    if Repeats(path) {
      var i, j :| 0 <= i < j < |path| && path[i] == path[j];
      assert rest[j - 1] == path[j];
      if i > 0 { assert rest[i - 1] == path[i]; } else { assert rest[j - 1] == a; }
      assert Repeats(rest) || rest[j - 1] in marked + {a};
    } else {
      var x :| x in path && x in marked;
      var i :| 0 <= i < |path| && path[i] == x;
      assert rest[i - 1] == x && x in marked + {a};
    }
    assert HitsOrRepeats(s, path[1], marked + {a});
  }

  /** Selection edges are manual edges, so a graph without manual cycles has no selection cycles. */
  lemma EdgeIsManual(s: Snapshot, a: string, b: string)
    requires Edge(s, a, b)
    ensures ManualEdge(s, a, b)
  {
    SubscriptionMembersExact(s.groups[a].nodes, Member(b, false, true));
    ManualMembersExact(s, s.groups[a].manual, Member(b, false, true));
  }

  ghost predicate ManuallyReaches(s: Snapshot, a: string, z: string) {
    exists path :: IsManualWalk(s, a, path) && path[|path| - 1] == z
  }

  /** The groups below `a`: the measure of every recursion without a visited set. */
  ghost function Below(s: Snapshot, a: string): set<string> {
    set z | z in s.groups && ManuallyReaches(s, a, z)
  }

  lemma ManuallyReachesCons(s: Snapshot, a: string, b: string, z: string)
    requires ManualEdge(s, a, b) && ManuallyReaches(s, b, z)
    ensures ManuallyReaches(s, a, z)
  {
    var path :| IsManualWalk(s, b, path) && path[|path| - 1] == z;
    ManualWalkCons(s, a, b, path);
    assert ([a] + path)[|[a] + path| - 1] == z;
  }

  lemma NoWayBack(s: Snapshot, a: string, b: string)
    requires ManualEdge(s, a, b) && ManuallyReaches(s, b, a)
    ensures ReachesCycle(s, a)
  {
    var path :| IsManualWalk(s, b, path) && path[|path| - 1] == a;
    ManualWalkCons(s, a, b, path);
    var q := [a] + path;
    assert q[0] == q[|q| - 1];
    assert Repeats(q);
  }

  /** Without a cycle, going to a member strictly shrinks the groups below and keeps acyclicity. */
  lemma BelowShrinks(s: Snapshot, a: string, b: string)
    requires ManualEdge(s, a, b) && !ReachesCycle(s, a)
    ensures Below(s, b) < Below(s, a) && !ReachesCycle(s, b)
    ensures !ManuallyReaches(s, b, a)
  {
    if ManuallyReaches(s, b, a) { NoWayBack(s, a, b); }
    forall z | z in Below(s, b)
      ensures z in Below(s, a)
    {
      ManuallyReachesCons(s, a, b, z);
    }
    assert IsManualWalk(s, a, [a]);
    assert a in Below(s, a) && a !in Below(s, b);
    if ReachesCycle(s, b) {
      var path :| IsManualWalk(s, b, path) && Repeats(path);
      ManualWalkCons(s, a, b, path);
      var i, j :| 0 <= i < j < |path| && path[i] == path[j];
      assert ([a] + path)[i + 1] == ([a] + path)[j + 1];
      assert Repeats([a] + path);
    }
  }

  /** Any prefix of a selection walk shows which groups it meets. */
  lemma WalkMeets(s: Snapshot, a: string, path: seq<string>, z: string, k: nat)
    requires WalkTo(s, a, path, z) && k < |path|
    ensures ManuallyReaches(s, a, path[k])
  {
    var q := path[..k + 1];
    forall i | 0 <= i < |q| - 1
      ensures ManualEdge(s, q[i], q[i + 1])
    {
      assert Edge(s, path[i], path[i + 1]);
      EdgeIsManual(s, path[i], path[i + 1]);
    }
    assert IsManualWalk(s, a, q) && q[|q| - 1] == path[k];
  }

  /** After a failed search of inner group `b` with only `a` on the stack: no leaf below `b`,
      although groups finished earlier were not searched again. */
  lemma FailedInnerHasNoLeaf(s: Snapshot, seen: set<string>, a: string, b: string)
    requires Exhausted(s, seen - {a}, seen) && b in seen
    requires !ManuallyReaches(s, b, a)
    ensures !ReachesLeaf(s, b)
  {
    if ReachesLeaf(s, b) {
      var path: seq<string>, z :| WalkTo(s, b, path, z) && HasLeaf(s, z);
      forall k | 0 <= k < |path|
        ensures path[k] !in {a}
      {
        WalkMeets(s, b, path, z, k);
      }
      ExhaustedStays(s, seen, {a}, b, path, z);
    }
  }
}
