/**
  The running groups and their three searches: `NextWithVisited`, `PickActiveMember` and
  `CheckGroupCycle`, each proved against the graph of `ProxyGroups`.
 */
module GroupSearch {
  import opened GroupOutcomes
  import opened ProxyGroups

  /** The map of visited names that a search shares and updates. */
  class NameSet {
    var names: set<string>

    constructor ()
      ensures names == {}
    {
      names := {};
    }
  }

  /** What the resolver callbacks look up. */
  datatype Registry = Registry(proxies: map<string, Proxy>, groups: map<string, ProxyGroup>)

  /** `s` is what the registry currently shows. */
  ghost predicate Shows(reg: Registry, s: Snapshot)
    reads reg.groups.Values`view
  {
    && s.proxies == reg.proxies
    && s.groups.Keys == reg.groups.Keys
    && forall a :: a in reg.groups ==> reg.groups[a].name == a && reg.groups[a].view == s.groups[a]
  }

  /** The round-robin counters of all groups. */
  ghost function Counters(reg: Registry): map<string, nat>
    reads reg.groups.Values`idx
  {
    map a | a in reg.groups :: reg.groups[a].idx
  }

  /** The counters of the groups in `fixed` did not move. */
  ghost predicate Unmoved(before: map<string, nat>, after: map<string, nat>, fixed: set<string>) {
    forall a :: a in fixed && a in before ==> a in after && after[a] == before[a]
  }

  lemma UnmovedThen(a: map<string, nat>, b: map<string, nat>, c: map<string, nat>, x: set<string>, y: set<string>,
                    z: set<string>)
    requires Unmoved(a, b, x) && Unmoved(b, c, y) && z <= x && z <= y
    ensures Unmoved(a, c, z)
  {
  }

  lemma UnmovedWithout(a: map<string, nat>, b: map<string, nat>, c: map<string, nat>, all: set<string>,
                       y: set<string>, name: string)
    requires Unmoved(a, b, all - {name}) && Unmoved(b, c, y) && a.Keys <= all
    ensures Unmoved(a, c, y - {name})
  {
  }

  lemma CoversResidues(start: nat, count: nat, k: nat) returns (j: nat)
    requires k < count
    ensures j < count && (start + j) % count == k
  {
    var r := start % count;
    j := if k >= r then k - r else k + count - r;
    var q := start / count;
    assert start == q * count + r;
    var q' := if k >= r then q else q + 1;
    assert start + j == q' * count + k;
    ModUnique(q', count, k);
  }

  lemma ModUnique(q: int, count: int, k: int)
    requires 0 <= k < count
    ensures (q * count + k) % count == k
  {
    var n := q * count + k;
    var d := q - n / count;
    assert d * count == q * count - (n / count) * count;
    SmallMultiple(d, count);
  }

  lemma SmallMultiple(d: int, count: int)
    requires count > 0 && -count < d * count < count
    ensures d == 0
  {
    assert d >= 1 ==> d * count >= count;
    assert d <= -1 ==> d * count <= -count;
  }

  class ProxyGroup {
    const name: string
    /** The settings and health records; a search reads them and never changes them. */
    var view: GroupView
    /** The round-robin counter. */
    var idx: nat

    constructor (name: string, view: GroupView)
      ensures this.name == name && this.view == view && idx == 0
    {
      this.name, this.view, idx := name, view, 0;
    }

    /** The member list on demand: subscription nodes first, then the manual names that resolve. */
    method ComputeMembers(reg: Registry, ghost s: Snapshot) returns (members: seq<Member>)
      requires Shows(reg, s)
      ensures members == Members(s, view)
      ensures |members| >= |view.nodes| && members[|view.nodes|..] == ManualMembers(s, view.manual)
      ensures forall i :: 0 <= i < |view.nodes| ==> members[i] == Member(view.nodes[i], true, false)
    {
      MembersLayout(s, view);
      var manual := ComputeManualMembers(reg, s);
      var sub := [];
      for k := 0 to |view.nodes|
        invariant sub == SubscriptionMembers(view.nodes[..k])
      {
        SubscriptionMembersSnoc(view.nodes, k);
        sub := sub + [Member(view.nodes[k], true, false)];
      }
      assert view.nodes[..|view.nodes|] == view.nodes;
      members := sub + manual;
    }

    method ComputeManualMembers(reg: Registry, ghost s: Snapshot) returns (members: seq<Member>)
      requires Shows(reg, s)
      ensures members == ManualMembers(s, view.manual)
    {
      members := [];
      for i := 0 to |view.manual|
        invariant members == ManualMembers(s, view.manual[..i])
      {
        var n := view.manual[i];
        ManualMembersSnoc(s, view.manual, i);
        if n in reg.proxies {
          members := members + [Member(n, false, false)];
        } else if n in reg.groups {
          members := members + [Member(n, false, true)];
        }
      }
      assert view.manual[..|view.manual|] == view.manual;
    }

    /** The active member if listed, else the first one. Health is ignored. */
    method NextSelectMember(list: seq<Member>) returns (m: Member)
      ensures m == PickSelect(view.active, list)
    {
      if view.active != "" {
        for i := 0 to |list|
          invariant forall j :: 0 <= j < i ==> list[j].name != view.active
        {
          if list[i].name == view.active {
            FirstNamedAt(view.active, list, i);
            return list[i];
          }
        }
      }
      if |list| > 0 { return list[0]; }
      return NO_MEMBER;
    }

    /** One turn of the round robin, skipping dead members; the counter moves once per probe. */
    method NextRoundRobinAliveMember(list: seq<Member>) returns (m: Member)
      requires forall x :: x in list ==> x.name != ""
      modifies this`idx
      ensures m == NO_MEMBER || (m in list && !Dead(view.health, m))
      ensures m == NO_MEMBER <==> forall x :: x in list ==> Dead(view.health, x)
      ensures m != NO_MEMBER ==> old(idx) < idx <= old(idx) + |list| && m == list[(idx - 1) % |list|]
      ensures m == NO_MEMBER ==> idx == old(idx) + |list|
      ensures forall k :: old(idx) <= k < idx - 1 ==> list != [] && Dead(view.health, list[k % |list|])
      ensures list != [] ==> (m, idx) == Robin(view.health, list, old(idx), |list|)
    {
      var count := |list|;
      if count == 0 { return NO_MEMBER; }
      var start := idx;
      for i := 0 to count
        invariant idx == start + i
        invariant forall k :: start <= k < start + i ==> Dead(view.health, list[k % count])
        invariant Robin(view.health, list, start, count) == Robin(view.health, list, idx, count - i)
      {
        var at := idx;
        idx := idx + 1;
        m := list[at % count];
        if HealthKey(m) in view.health {
          if view.health[HealthKey(m)].alive { return m; }
        } else {
          return m;
        }
      }
      forall x | x in list
        ensures Dead(view.health, x)
      {
        var k :| 0 <= k < |list| && list[k] == x;
        var j := CoversResidues(start, count, k);
        assert Dead(view.health, list[(start + j) % count]);
      }
      return NO_MEMBER;
    }

    /** The measured alive member of least latency, else the first unchecked one. */
    method NextByHealthMember(list: seq<Member>) returns (m: Member)
      requires forall x :: x in list ==> x.name != ""
      ensures IsBestPick(view.health, list, m)
    {
      var best, bestLatency, allChecked := NO_MEMBER, 0, true;
      ghost var at := 0;
      for i := 0 to |list|
        invariant best.name == "" ==> forall j :: 0 <= j < i ==> !Measured(view.health, list[j])
        invariant best.name != "" ==> at < i && best == list[at] && FastestSoFar(view.health, list, i, at, bestLatency)
        invariant allChecked <==> forall j :: 0 <= j < i ==> !Unchecked(view.health, list[j])
      {
        var x := list[i];
        assert x in list;
        if HealthKey(x) in view.health {
          var h := view.health[HealthKey(x)];
          if h.alive && (best.name == "" || h.latency < bestLatency) {
            best, bestLatency, at := x, h.latency, i;
          }
        } else {
          allChecked := false;
        }
      }
      if best.name != "" {
        assert IsFastest(view.health, list, at);
        return best;
      }
      m := NO_MEMBER;
      if !allChecked { m := FirstUncheckedMember(list); }
    }

    method FirstUncheckedMember(list: seq<Member>) returns (m: Member)
      requires exists i :: 0 <= i < |list| && Unchecked(view.health, list[i])
      ensures exists i :: 0 <= i < |list| && IsFirstUnchecked(view.health, list, i) && m == list[i]
    {
      for i := 0 to |list|
        invariant forall j :: 0 <= j < i ==> !Unchecked(view.health, list[j])
      {
        if HealthKey(list[i]) !in view.health {
          assert IsFirstUnchecked(view.health, list, i);
          return list[i];
        }
      }
      m := NO_MEMBER;
    }

    method PickMember(list: seq<Member>, ghost g: GroupView) returns (m: Member)
      requires g == view
      requires list != [] && forall x :: x in list ==> x.name != ""
      modifies this`idx
      ensures GoodPick(g, list, old(idx), m, idx)
      ensures m.name != "" ==> m in list && m != NO_MEMBER
      ensures m.name == "" ==> m == NO_MEMBER
    {
      match view.kind
      case Select => m := NextSelectMember(list);
      case LoadBalance => m := NextRoundRobinAliveMember(list);
      case Best =>
        m := NextByHealthMember(list);
        BestPickGood(g, list, idx, m);
      case Unsupported => m := list[0];
    }

    /** A pick moves no other group's counter. */
    method PickHere(reg: Registry, list: seq<Member>, ghost s: Snapshot) returns (m: Member)
      requires Shows(reg, s) && WellFormed(s)
      requires name in reg.groups && reg.groups[name] == this
      requires list != [] && forall x :: x in list ==> x in Members(s, s.groups[name])
      modifies this`idx
      ensures Shows(reg, s)
      ensures GoodPick(s.groups[name], list, old(idx), m, idx)
      ensures m.name != "" ==> m in list && m != NO_MEMBER
      ensures m.name == "" ==> m == NO_MEMBER
      ensures Unmoved(old(Counters(reg)), Counters(reg), reg.groups.Keys - {name})
    {
      NamesNotEmpty(s, name, list);
      m := PickMember(list, s.groups[name]);
    }

    /**
      The search. `stack` is the set of groups whose search is still running above this call.
      A nil answer leaves every group it visited exhausted; a proxy comes with a walk to it.
     */
    method NextWithVisited(reg: Registry, visited: NameSet, ghost s: Snapshot, ghost stack: set<string>)
      returns (p: Proxy?, ghost through: Member)
      requires Shows(reg, s) && WellFormed(s)
      requires name in reg.groups && reg.groups[name] == this
      requires stack <= visited.names && Exhausted(s, visited.names - stack, visited.names)
      modifies visited, reg.groups.Values`idx
      ensures Shows(reg, s)
      ensures old(visited.names) <= visited.names
      ensures p == null ==> name in visited.names && Exhausted(s, visited.names - stack, visited.names)
      ensures p != null ==> ReachesProxy(s, name, p)
      ensures Unmoved(old(Counters(reg)), Counters(reg), old(visited.names))
      ensures old(visited.names) == {} && !ReachesCycle(s, name) ==>
                IsChosen(s, s.groups[name], Members(s, s.groups[name]), old(idx), through, idx)
      ensures p == null <==> through == NO_MEMBER
      ensures p != null ==> ResolvedThrough(s, name, through, p)
      decreases reg.groups.Keys - visited.names, 0
    {
      if name in visited.names { return null, NO_MEMBER; }
      ghost var before, c0 := visited.names, Counters(reg);
      visited.names := visited.names + {name};
      assert Counters(reg) == c0;
      assert visited.names - (stack + {name}) == before - stack;
      assert before <= visited.names - {name};
      var list := ComputeMembers(reg, s);
      p, through := SearchMembers(reg, list, visited, s, stack);
      UnmovedThen(c0, c0, Counters(reg), before, before + {name} - {name}, before);
    }

    /** The search loop, with this group marked as visited. */
    method SearchMembers(reg: Registry, members: seq<Member>, visited: NameSet, ghost s: Snapshot,
                         ghost stack: set<string>)
      returns (p: Proxy?, ghost through: Member)
      requires Shows(reg, s) && WellFormed(s)
      requires name in reg.groups && reg.groups[name] == this
      requires members == Members(s, s.groups[name]) && Searching(s, name, visited.names, stack, members)
      modifies visited, reg.groups.Values`idx
      ensures Shows(reg, s) && old(visited.names) <= visited.names
      ensures p == null ==> Exhausted(s, visited.names - stack, visited.names)
      ensures p != null ==> ReachesProxy(s, name, p) && ResolvedThrough(s, name, through, p)
      ensures Unmoved(old(Counters(reg)), Counters(reg), old(visited.names) - {name})
      ensures stack == {} && !ReachesCycle(s, name) ==>
                IsChosen(s, s.groups[name], members, old(idx), through, idx)
      ensures p == null <==> through == NO_MEMBER
      decreases reg.groups.Keys - visited.names, 3
    {
      ghost var before, g, start, c0 := visited.names, s.groups[name], idx, Counters(reg);
      ghost var c := c0;
      var list := members;
      while |list| > 0
        invariant Shows(reg, s) && before <= visited.names
        invariant Searching(s, name, visited.names, stack, list)
        invariant c == Counters(reg) && Unmoved(c0, c, before - {name})
        invariant stack == {} && !ReachesCycle(s, name) ==> Continues(s, g, members, start, list, idx)
        decreases |list|
      {
        var m;
        ghost var at, seen := idx, visited.names;
        m, p := TryMember(reg, list, visited, s, stack);
        UnmovedThen(c0, c, Counters(reg), before - {name}, seen - {name}, before - {name});
        c := Counters(reg);
        if m.name == "" { return null, NO_MEMBER; }
        if p != null { return p, m; }
        if stack == {} && !ReachesCycle(s, name) {
          ContinuesWithout(s, g, members, start, list, at, m, idx);
        }
        list := RemoveFirst(list, m);
      }
      NothingLeft(s, name, visited.names, stack);
      return null, NO_MEMBER;
    }

    /** One turn of the search loop: pick a member and resolve it. */
    method TryMember(reg: Registry, list: seq<Member>, visited: NameSet, ghost s: Snapshot, ghost stack: set<string>)
      returns (m: Member, p: Proxy?)
      requires Shows(reg, s) && WellFormed(s)
      requires name in reg.groups && reg.groups[name] == this
      requires list != [] && Searching(s, name, visited.names, stack, list)
      modifies visited, reg.groups.Values`idx
      ensures Shows(reg, s) && old(visited.names) <= visited.names
      ensures GoodPick(s.groups[name], list, old(idx), m, idx) && (m.name == "" <==> m == NO_MEMBER)
      ensures Unmoved(old(Counters(reg)), Counters(reg), old(visited.names) - {name})
      ensures m == NO_MEMBER ==> p == null && Exhausted(s, visited.names - stack, visited.names)
      ensures p != null ==> ReachesProxy(s, name, p) && ResolvedThrough(s, name, m, p)
      ensures m == NO_MEMBER || p != null ==> IsChosen(s, s.groups[name], list, old(idx), m, idx)
      ensures m != NO_MEMBER && p == null ==>
                && m in list && m.isGroup && m.name in visited.names
                && Searching(s, name, visited.names, stack, RemoveFirst(list, m))
                && (stack == {} && !ReachesCycle(s, name) ==> !Leads(s, m))
      decreases reg.groups.Keys - visited.names, 2
    {
      ghost var at, c0, seen := idx, Counters(reg), visited.names;
      m := PickHere(reg, list, s);
      ghost var c1 := Counters(reg);
      if m.name == "" {
        GaveUp(s, name, visited.names, stack, list, at, m, idx);
        return m, null;
      }
      assert c1[name] == idx;
      p := ResolveMemberWithVisited(reg, m, visited, s, stack + {name});
      ghost var c2 := Counters(reg);
      assert c2[name] == idx;
      UnmovedWithout(c0, c1, c2, reg.groups.Keys, seen, name);
      if p != null {
        Succeeded(s, name, list, at, m, idx, p);
      } else {
        FailedMember(s, name, visited.names, stack, list, m);
        if stack == {} && !ReachesCycle(s, name) { FailedMemberLeadsNowhere(s, visited.names, stack, name, m); }
      }
    }

    method ResolveMemberWithVisited(reg: Registry, m: Member, visited: NameSet, ghost s: Snapshot,
                                    ghost stack: set<string>)
      returns (p: Proxy?)
      requires Shows(reg, s) && WellFormed(s)
      requires name in reg.groups && reg.groups[name] == this && name in stack
      requires m in Members(s, s.groups[name])
      requires stack <= visited.names && Exhausted(s, visited.names - stack, visited.names)
      modifies visited, reg.groups.Values`idx
      ensures Shows(reg, s)
      ensures old(visited.names) <= visited.names
      ensures Unmoved(old(Counters(reg)), Counters(reg), old(visited.names))
      ensures p == null ==> m.isGroup && m.name in visited.names && Exhausted(s, visited.names - stack, visited.names)
      ensures p != null ==> ResolvedThrough(s, name, m, p)
      decreases reg.groups.Keys - visited.names, 1
    {
      MembersResolve(s, name, m);
      if m.isGroup {
        ghost var through;
        p, through := reg.groups[m.name].NextWithVisited(reg, visited, s, stack);
      } else if m.fromSubscription {
        p := view.pool[m.name];
      } else {
        p := reg.proxies[m.name];
      }
    }

    /** Nil exactly when no leaf can be reached, on any graph, cycles included. */
    method Next(reg: Registry, ghost s: Snapshot) returns (p: Proxy?, ghost through: Member)
      requires Shows(reg, s) && WellFormed(s)
      requires name in reg.groups && reg.groups[name] == this
      modifies reg.groups.Values`idx
      ensures Shows(reg, s)
      ensures p == null <==> !ReachesLeaf(s, name)
      ensures p != null ==> ReachesProxy(s, name, p) && ResolvedThrough(s, name, through, p)
      ensures !ReachesCycle(s, name) ==>
                IsChosen(s, s.groups[name], Members(s, s.groups[name]), old(idx), through, idx)
      ensures !ReachesCycle(s, name) ==> IsOutcome(s, s.groups[name], Members(s, s.groups[name]), through)
    {
      ghost var start := idx;
      var visited := new NameSet();
      assert visited.names - {} == {};
      p, through := NextWithVisited(reg, visited, s, {});
      if p == null {
        assert visited.names - {} == visited.names;
        ExhaustedHasNoLeaf(s, visited.names, name);
      } else {
        ReachesProxyIsLeaf(s, name, p);
      }
      if !ReachesCycle(s, name) { OutcomeHere(s, name, start, through, idx); }
    }

    /** The same question without a visited set: it ends because the cycle check accepted the graph. */
    method PickActiveMember(reg: Registry, ghost s: Snapshot) returns (m: Member)
      requires Shows(reg, s) && WellFormed(s)
      requires name in reg.groups && reg.groups[name] == this
      requires !ReachesCycle(s, name)
      modifies reg.groups.Values`idx
      ensures Shows(reg, s)
      ensures m == NO_MEMBER <==> !ReachesLeaf(s, name)
      ensures m != NO_MEMBER ==>
                m.name != "" && m in Members(s, s.groups[name]) && Selectable(s.groups[name], m) && Leads(s, m)
      ensures IsChosen(s, s.groups[name], Members(s, s.groups[name]), old(idx), m, idx)
      ensures IsOutcome(s, s.groups[name], Members(s, s.groups[name]), m)
      ensures Unmoved(old(Counters(reg)), Counters(reg), reg.groups.Keys - Below(s, name))
      decreases Below(s, name)
    {
      ghost var g, start := s.groups[name], idx;
      var list := ComputeMembers(reg, s);
      while |list| > 0
        invariant Shows(reg, s)
        invariant Picking(s, name, list)
        invariant Continues(s, g, Members(s, g), old(idx), list, idx)
        invariant Unmoved(old(Counters(reg)), Counters(reg), reg.groups.Keys - Below(s, name))
        decreases |list|
      {
        var leads;
        ghost var at := idx;
        m, leads := TryActiveMember(reg, list, s);
        if m.name == "" || leads {
          OutcomeHere(s, name, start, m, idx);
          return m;
        }
        ContinuesWithout(s, g, Members(s, g), old(idx), list, at, m, idx);
        list := RemoveFirst(list, m);
      }
      NoneLeads(s, name);
      OutcomeHere(s, name, start, NO_MEMBER, idx);
      return NO_MEMBER;
    }

    /** One turn of that loop: pick a member and ask whether it leads to a leaf. */
    method TryActiveMember(reg: Registry, list: seq<Member>, ghost s: Snapshot) returns (m: Member, leads: bool)
      requires Shows(reg, s) && WellFormed(s)
      requires name in reg.groups && reg.groups[name] == this
      requires !ReachesCycle(s, name)
      requires list != [] && Picking(s, name, list)
      modifies reg.groups.Values`idx
      ensures Shows(reg, s)
      ensures GoodPick(s.groups[name], list, old(idx), m, idx) && (m.name == "" <==> m == NO_MEMBER)
      ensures Unmoved(old(Counters(reg)), Counters(reg), reg.groups.Keys - Below(s, name))
      ensures m != NO_MEMBER ==> m in list && (leads <==> Leads(s, m))
      ensures m == NO_MEMBER ==> !ReachesLeaf(s, name)
      ensures m != NO_MEMBER && leads ==> ReachesLeaf(s, name)
      ensures m != NO_MEMBER && !leads ==> Picking(s, name, RemoveFirst(list, m))
      ensures m == NO_MEMBER || leads ==> IsChosen(s, s.groups[name], list, old(idx), m, idx)
      decreases Below(s, name), 1
    {
      ghost var at, all, c0 := idx, reg.groups.Keys, Counters(reg);
      InBelow(s, name);
      m := PickHere(reg, list, s);
      ghost var c1 := Counters(reg);
      UnmovedThen(c0, c1, c1, all - {name}, all, all - Below(s, name));
      leads := false;
      if m.name == "" {
        ChosenNow(s, s.groups[name], list, at, m, idx);
        NoneLeads(s, name);
        return;
      }
      assert c1[name] == idx;
      leads := HasActiveMember(reg, m, s);
      assert Counters(reg)[name] == idx;
      UnmovedThen(c0, c1, Counters(reg), all - {name}, all - Below(s, name) + {name}, all - Below(s, name));
      if leads { LeadingMember(s, name, list, at, m, idx); }
    }

    /** A leaf always counts; an inner group counts when it has an active member itself. */
    method HasActiveMember(reg: Registry, m: Member, ghost s: Snapshot) returns (leads: bool)
      requires Shows(reg, s) && WellFormed(s)
      requires name in reg.groups && reg.groups[name] == this
      requires !ReachesCycle(s, name)
      requires m in Members(s, s.groups[name])
      modifies reg.groups.Values`idx
      ensures Shows(reg, s)
      ensures leads <==> Leads(s, m)
      ensures Unmoved(old(Counters(reg)), Counters(reg), reg.groups.Keys - Below(s, name) + {name})
      decreases Below(s, name), 0
    {
      MembersResolve(s, name, m);
      leads := true;
      if m.isGroup {
        SubscriptionMembersExact(s.groups[name].nodes, m);
        ManualMembersExact(s, s.groups[name].manual, m);
        BelowShrinks(s, name, m.name);
        var inner := reg.groups[m.name].PickActiveMember(reg, s);
        leads := inner.name != "";
      }
    }
  }

  /** Mid-search without a visited set: what is no longer in `list` leads nowhere. */
  ghost predicate Picking(s: Snapshot, a: string, list: seq<Member>) {
    && a in s.groups
    && (forall x :: x in list ==> x in Members(s, s.groups[a]))
    && forall x :: x in Members(s, s.groups[a]) && Selectable(s.groups[a], x) && x !in list ==> !Leads(s, x)
  }

  lemma {:induction false} SubscriptionMembersSnoc(nodes: seq<string>, k: nat)
    requires k < |nodes|
    ensures SubscriptionMembers(nodes[..k + 1]) == SubscriptionMembers(nodes[..k]) + [Member(nodes[k], true, false)]
  {
    if k > 0 {
      assert nodes[..k + 1][1..] == nodes[1..k + 1] == nodes[1..][..k];
      assert nodes[..k][1..] == nodes[1..k] == nodes[1..][..k - 1];
      SubscriptionMembersSnoc(nodes[1..], k - 1);
    }
  }

  lemma {:induction false} ManualMembersSnoc(s: Snapshot, names: seq<string>, k: nat)
    requires k < |names|
    ensures ManualMembers(s, names[..k + 1]) == ManualMembers(s, names[..k]) + ManualMember(s, names[k])
  {
    if k > 0 {
      assert names[..k + 1][1..] == names[1..k + 1] == names[1..][..k];
      assert names[..k][1..] == names[1..k] == names[1..][..k - 1];
      ManualMembersSnoc(s, names[1..], k - 1);
    }
  }

  /** `list[at]` is the first of the fastest measured members among the first `n`. */
  ghost predicate FastestSoFar(health: map<string, Health>, list: seq<Member>, n: nat, at: nat, latency: int)
    requires at < n <= |list|
  {
    && Measured(health, list[at])
    && health[HealthKey(list[at])].latency == latency
    && forall j :: 0 <= j < n && Measured(health, list[j]) ==>
        && latency <= health[HealthKey(list[j])].latency
        && (j < at ==> latency < health[HealthKey(list[j])].latency)
  }

  /** The search from `list` and counter `at` ends as the search from `members` and counter `start` does. */
  ghost predicate Continues(s: Snapshot, g: GroupView, members: seq<Member>, start: nat, list: seq<Member>, at: nat) {
    forall m, k: nat :: IsChosen(s, g, list, at, m, k) ==> IsChosen(s, g, members, start, m, k)
  }

  lemma ChosenNow(s: Snapshot, g: GroupView, list: seq<Member>, at: nat, m: Member, at': nat)
    requires list != [] && GoodPick(g, list, at, m, at') && (m == NO_MEMBER || Leads(s, m))
    ensures IsChosen(s, g, list, at, m, at')
  {
    assert ChosenAfter(s, g, list, at, m, at', m, at');
  }

  lemma ContinuesWithout(s: Snapshot, g: GroupView, members: seq<Member>, start: nat, list: seq<Member>, at: nat,
                         m: Member, at': nat)
    requires list != [] && GoodPick(g, list, at, m, at') && m != NO_MEMBER && !Leads(s, m)
    requires Continues(s, g, members, start, list, at)
    ensures Continues(s, g, members, start, RemoveFirst(list, m), at')
  {
    forall x, k: nat | IsChosen(s, g, RemoveFirst(list, m), at', x, k)
      ensures IsChosen(s, g, members, start, x, k)
    {
      assert ChosenAfter(s, g, list, at, m, at', x, k);
    }
  }

  lemma InBelow(s: Snapshot, a: string)
    requires a in s.groups
    ensures a in Below(s, a)
  {
    assert IsManualWalk(s, a, [a]);
  }

  lemma FailedMemberLeadsNowhere(s: Snapshot, seen: set<string>, stack: set<string>, a: string, m: Member)
    requires WellFormed(s) && a in s.groups && m in Members(s, s.groups[a]) && m.isGroup
    requires Selectable(s.groups[a], m) && !ReachesCycle(s, a)
    requires stack == {} && Exhausted(s, seen - (stack + {a}), seen) && m.name in seen
    ensures !Leads(s, m)
  {
    MembersResolve(s, a, m);
    EdgeIsManual(s, a, m.name);
    BelowShrinks(s, a, m.name);
    assert stack + {a} == {a};
    FailedInnerHasNoLeaf(s, seen, a, m.name);
  }

  lemma {:induction false} FirstNamedAt(name: string, list: seq<Member>, i: nat)
    requires i < |list| && list[i].name == name && forall j :: 0 <= j < i ==> list[j].name != name
    ensures FirstNamed(name, list) == list[i]
  {
    if i > 0 {
      assert list[0].name != name;
      assert list[1..][i - 1] == list[i];
      FirstNamedAt(name, list[1..], i - 1);
    }
  }

  lemma BestPickGood(g: GroupView, list: seq<Member>, at: nat, m: Member)
    requires g.kind.Best? && IsBestPick(g.health, list, m)
    requires forall x :: x in list ==> x.name != ""
    ensures GoodPick(g, list, at, m, at)
  {
    if exists i :: 0 <= i < |list| && Measured(g.health, list[i]) {
      var i :| 0 <= i < |list| && IsFastest(g.health, list, i) && m == list[i];
      assert list[i] in list;
    } else if exists i :: 0 <= i < |list| && Unchecked(g.health, list[i]) {
      var i :| 0 <= i < |list| && IsFirstUnchecked(g.health, list, i) && m == list[i];
      assert list[i] in list;
    } else {
      forall x | x in list ensures !Selectable(g, x) {
        var i :| 0 <= i < |list| && list[i] == x;
        assert !Measured(g.health, list[i]) && !Unchecked(g.health, list[i]);
      }
    }
  }

  /** Mid-search of group `a`: what is no longer in `list` leads only to visited groups. */
  ghost predicate Searching(s: Snapshot, a: string, seen: set<string>, stack: set<string>, list: seq<Member>) {
    && a in s.groups && a in seen && stack <= seen
    && Exhausted(s, seen - (stack + {a}), seen)
    && (forall x :: x in list ==> x in Members(s, s.groups[a]))
    && forall x :: x in Members(s, s.groups[a]) && Selectable(s.groups[a], x) && x !in list ==>
         x.isGroup && x.name in seen
  }

  lemma NamesNotEmpty(s: Snapshot, a: string, list: seq<Member>)
    requires WellFormed(s) && a in s.groups && forall x :: x in list ==> x in Members(s, s.groups[a])
    ensures forall x :: x in list ==> x.name != ""
  {
    forall x | x in list ensures x.name != "" { MembersResolve(s, a, x); }
  }

  lemma OutcomeHere(s: Snapshot, a: string, at: nat, m: Member, at': nat)
    requires WellFormed(s) && a in s.groups
    requires IsChosen(s, s.groups[a], Members(s, s.groups[a]), at, m, at')
    ensures IsOutcome(s, s.groups[a], Members(s, s.groups[a]), m)
  {
    NamesNotEmpty(s, a, Members(s, s.groups[a]));
    ChosenIsOutcome(s, s.groups[a], Members(s, s.groups[a]), at, m, at');
  }

  lemma GaveUp(s: Snapshot, a: string, seen: set<string>, stack: set<string>, list: seq<Member>, at: nat, m: Member,
               at': nat)
    requires Searching(s, a, seen, stack, list) && list != []
    requires GoodPick(s.groups[a], list, at, m, at') && m == NO_MEMBER
    ensures Exhausted(s, seen - stack, seen)
    ensures IsChosen(s, s.groups[a], list, at, NO_MEMBER, at')
  {
    ChosenNow(s, s.groups[a], list, at, NO_MEMBER, at');
    NothingLeft(s, a, seen, stack);
  }

  lemma Succeeded(s: Snapshot, a: string, list: seq<Member>, at: nat, m: Member, at': nat, p: Proxy)
    requires WellFormed(s) && a in s.groups && list != []
    requires GoodPick(s.groups[a], list, at, m, at') && m != NO_MEMBER && ResolvedThrough(s, a, m, p)
    ensures ReachesProxy(s, a, p)
    ensures IsChosen(s, s.groups[a], list, at, m, at')
  {
    MembersResolve(s, a, m);
    if m.isGroup {
      EdgeReachesProxy(s, a, m.name, p);
      ReachesProxyIsLeaf(s, m.name, p);
    } else {
      OwnLeafReaches(s, a, m);
    }
    ChosenNow(s, s.groups[a], list, at, m, at');
  }

  lemma FailedMember(s: Snapshot, a: string, seen: set<string>, stack: set<string>, list: seq<Member>, m: Member)
    requires a in s.groups && a in seen && stack <= seen
    requires Exhausted(s, seen - (stack + {a}), seen)
    requires forall x :: x in list ==> x in Members(s, s.groups[a])
    requires forall x :: x in Members(s, s.groups[a]) && Selectable(s.groups[a], x) && x !in list ==>
               x.isGroup && x.name in seen
    requires m in list && m.isGroup && m.name in seen
    ensures Searching(s, a, seen, stack, RemoveFirst(list, m))
  {
  }

  /** When every selectable member is a visited group, this group is exhausted too. */
  lemma NothingLeft(s: Snapshot, a: string, seen: set<string>, stack: set<string>)
    requires a in s.groups && a in seen
    requires Exhausted(s, seen - (stack + {a}), seen)
    requires forall x :: x in Members(s, s.groups[a]) && Selectable(s.groups[a], x) ==> x.isGroup && x.name in seen
    ensures Exhausted(s, seen - stack, seen)
  {
    forall c | c in seen - stack
      ensures !HasLeaf(s, c) && forall b :: Edge(s, c, b) ==> b in seen
    {
      if c == a {
        assert !HasLeaf(s, a);
      } else {
        assert c in seen - (stack + {a});
      }
    }
  }

  lemma LeadingMember(s: Snapshot, a: string, list: seq<Member>, at: nat, m: Member, at': nat)
    requires WellFormed(s) && a in s.groups && list != []
    requires GoodPick(s.groups[a], list, at, m, at') && m in Members(s, s.groups[a]) && m != NO_MEMBER && Leads(s, m)
    ensures ReachesLeaf(s, a) && IsChosen(s, s.groups[a], list, at, m, at')
  {
    MembersResolve(s, a, m);
    assert m.isGroup || IsLeafOf(s, a, m);
    ReachesLeafStep(s, a);
    ChosenNow(s, s.groups[a], list, at, m, at');
  }

  lemma NoneLeads(s: Snapshot, a: string)
    requires a in s.groups
    requires forall x :: x in Members(s, s.groups[a]) && Selectable(s.groups[a], x) ==> !Leads(s, x)
    ensures !ReachesLeaf(s, a)
  {
    ReachesLeafStep(s, a);
    assert !HasLeaf(s, a);
  }

  /** What the proxy name of a matched rule stands for: the proxy of that name before the group. */
  method ResolveName(reg: Registry, name: string, ghost s: Snapshot) returns (p: Proxy?)
    requires Shows(reg, s) && WellFormed(s)
    modifies reg.groups.Values`idx
    ensures Shows(reg, s)
    ensures StandsFor(s, name, p)
  {
    if name in reg.proxies { return reg.proxies[name]; }
    if name !in reg.groups { return null; }
    var group := reg.groups[name];
    var members := group.ComputeMembers(reg, s);
    if |members| == 0 {
      NoneLeads(s, name);
      return null;
    }
    ghost var through;
    p, through := group.Next(reg, s);
  }

  // ---------------------------------------------------------------- the cycle check

  /** Depth-first search that marks names on the way in and unmarks them on the way out. */
  method CheckGroupCycle(reg: Registry, name: string, visited: NameSet, ghost s: Snapshot) returns (err: bool)
    requires Shows(reg, s)
    modifies visited
    ensures err <==> HitsOrRepeats(s, name, old(visited.names))
    ensures visited.names == old(visited.names)
    decreases reg.groups.Keys - visited.names
  {
    ghost var marked := visited.names;
    if name in visited.names {
      assert IsManualWalk(s, name, [name]) && name in [name];
      return true;
    }
    visited.names := visited.names + {name};
    err := false;
    if name in reg.groups {
      var manual := reg.groups[name].view.manual;
      var i := 0;
      while i < |manual| && !err
        invariant i <= |manual|
        invariant visited.names == marked + {name}
        invariant err ==> HitsOrRepeats(s, name, marked)
        invariant !err ==> forall j :: 0 <= j < i && manual[j] in s.groups ==>
                  !HitsOrRepeats(s, manual[j], marked + {name})
      {
        if manual[i] in reg.groups {
          err := CheckGroupCycle(reg, manual[i], visited, s);
          if err { CycleBelow(s, name, manual[i], marked); }
        }
        i := i + 1;
      }
    }
    visited.names := visited.names - {name};
    if !err && HitsOrRepeats(s, name, marked) { CycleAbove(s, name, marked); }
  }

  /** The start-up check over the enabled groups, in any order: an error exactly when one of them
      can reach a cycle, so that after acceptance `PickActiveMember` may be called on any of them. */
  method CheckAllGroups(reg: Registry, enabled: set<string>, ghost s: Snapshot) returns (err: bool)
    requires Shows(reg, s) && enabled <= reg.groups.Keys
    ensures err <==> exists a :: a in enabled && ReachesCycle(s, a)
  {
    var todo := enabled;
    while todo != {}
      invariant todo <= enabled
      invariant forall a :: a in enabled - todo ==> !ReachesCycle(s, a)
    {
      var a :| a in todo;
      var visited := new NameSet();
      err := CheckGroupCycle(reg, a, visited, s);
      HitsNothingIsCycle(s, a);
      if err { return; }
      todo := todo - {a};
    }
    assert enabled - todo == enabled;
    return false;
  }

  /** `Next` and `PickActiveMember` agree on an accepted graph: from the same counter of the group both are
      empty or neither is, the member named is the one the proxy is resolved through, and both leave the
      same counter, for every kind of group. */
  method Compare(g: ProxyGroup, reg: Registry, ghost s: Snapshot) returns (p: Proxy?, m: Member)
    requires Shows(reg, s) && WellFormed(s)
    requires g.name in reg.groups && reg.groups[g.name] == g
    requires !ReachesCycle(s, g.name)
    modifies reg.groups.Values`idx
    ensures p == null <==> m == NO_MEMBER
    ensures p != null ==> ResolvedThrough(s, g.name, m, p)
    ensures IsChosen(s, s.groups[g.name], Members(s, s.groups[g.name]), old(g.idx), m, g.idx)
    ensures IsOutcome(s, s.groups[g.name], Members(s, s.groups[g.name]), m)
  {
    var start := g.idx;
    ghost var through;
    p, through := g.Next(reg, s);
    ghost var moved := g.idx;
    g.idx := start;
    m := g.PickActiveMember(reg, s);
    ChosenUnique(s, s.groups[g.name], Members(s, s.groups[g.name]), start, through, moved, m, g.idx);
  }
}
