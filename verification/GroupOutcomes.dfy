/**
  What a search picks, read off the member list: no counter, no retries and no list that shrinks. A member
  that leads nowhere is as good as not listed.
 */
module GroupOutcomes {
  import opened ProxyGroups

  // ---------------------------------------------------------------- the member list

  /** The subscription nodes come first, one for one, and the manual members after them. */
  lemma MembersLayout(s: Snapshot, g: GroupView)
    ensures |Members(s, g)| == |g.nodes| + |ManualMembers(s, g.manual)|
    ensures forall i :: 0 <= i < |g.nodes| ==> Members(s, g)[i] == Member(g.nodes[i], true, false)
    ensures Members(s, g)[|g.nodes|..] == ManualMembers(s, g.manual)
  {
    SubscriptionMembersAt(g.nodes);
  }

  lemma {:induction false} SubscriptionMembersAt(nodes: seq<string>)
    ensures |SubscriptionMembers(nodes)| == |nodes|
    ensures forall i :: 0 <= i < |nodes| ==> SubscriptionMembers(nodes)[i] == Member(nodes[i], true, false)
  {
    if nodes != [] { SubscriptionMembersAt(nodes[1..]); }
  }

  /** The manual members stand in the order of their names: a list in two parts gives two parts. */
  lemma {:induction false} ManualMembersAppend(s: Snapshot, a: seq<string>, b: seq<string>)
    ensures ManualMembers(s, a + b) == ManualMembers(s, a) + ManualMembers(s, b)
    decreases |a|
  {
    if a == [] {
      assert a + b == b;
    } else {
      assert (a + b)[1..] == a[1..] + b;
      ManualMembersAppend(s, a[1..], b);
    }
  }

  /** Each name gives at most one member. */
  lemma ManualMembersOne(s: Snapshot, name: string)
    ensures name in s.proxies ==> ManualMembers(s, [name]) == [Member(name, false, false)]
    ensures name !in s.proxies && name in s.groups ==> ManualMembers(s, [name]) == [Member(name, false, true)]
    ensures name !in s.proxies && name !in s.groups ==> ManualMembers(s, [name]) == []
  {
  }

  /** Two members share their health exactly when they are one and the same entry, or when a manual one is
      named like the prefixed key of a subscription node. */
  lemma SharedHealthExactly(m: Member, m': Member)
    ensures HealthKey(m) == HealthKey(m') <==>
            if m.fromSubscription == m'.fromSubscription then m.name == m'.name
            else if m.fromSubscription then m'.name == "sub:" + m.name
            else m.name == "sub:" + m'.name
  {
    var prefix := "sub:";
    assert (prefix + m.name)[4..] == m.name && (prefix + m'.name)[4..] == m'.name;
  }

  // ---------------------------------------------------------------- taking a member out

  /** The first occurrence goes and everything else stays where it was. */
  lemma {:induction false} RemoveFirstExactly(list: seq<Member>, m: Member, k: nat)
    requires k < |list| && list[k] == m && forall j :: 0 <= j < k ==> list[j] != m
    ensures RemoveFirst(list, m) == list[..k] + list[k + 1..]
    decreases |list|
  {
    if k > 0 {
      var head, rest := list[0], list[1..];
      assert head != m && rest[k - 1] == m;
      RemoveFirstExactly(rest, m, k - 1);
      assert RemoveFirst(list, m) == [head] + (rest[..k - 1] + rest[k..]);
      assert list[..k] == [head] + rest[..k - 1];
      assert list[k + 1..] == rest[k..];
    }
  }

  lemma {:induction false} RemoveAbsent(list: seq<Member>, m: Member)
    requires m !in list
    ensures RemoveFirst(list, m) == list
    decreases |list|
  {
    if list != [] {
      assert list[0] != m;
      RemoveAbsent(list[1..], m);
    }
  }

  lemma FirstIndex(list: seq<Member>, m: Member) returns (k: nat)
    requires m in list
    ensures k < |list| && list[k] == m && forall j :: 0 <= j < k ==> list[j] != m
  {
    k := 0;
    while list[k] != m
      invariant k < |list| && m in list[k..] && forall j :: 0 <= j < k ==> list[j] != m
      decreases |list| - k
    {
      assert list[k..] == [list[k]] + list[k + 1..];
      k := k + 1;
    }
  }

  // ---------------------------------------------------------------- outcomes

  /** What a member can be asked for. */
  datatype Wish = Any | Active | Fastest | Fresh | Alive

  /** `x` leads somewhere and is what is wished for: anything, the active member, one that no measured and
      leading member of the list beats, one that has not been checked, or one that is not known dead. */
  ghost predicate Fits(s: Snapshot, g: GroupView, list: seq<Member>, w: Wish, x: Member) {
    Leads(s, x) &&
    match w
    case Any => true
    case Active => g.active != "" && x.name == g.active
    case Fastest => Measured(g.health, x) && Unbeaten(s, g, list, x)
    case Fresh => Unchecked(g.health, x)
    case Alive => !Dead(g.health, x)
  }

  ghost predicate Unbeaten(s: Snapshot, g: GroupView, list: seq<Member>, x: Member)
    requires Measured(g.health, x)
  {
    forall y :: y in list && Leads(s, y) && Measured(g.health, y) ==>
      g.health[HealthKey(x)].latency <= g.health[HealthKey(y)].latency
  }

  ghost predicate FirstAt(s: Snapshot, g: GroupView, list: seq<Member>, w: Wish, i: nat) {
    && i < |list| && Fits(s, g, list, w, list[i])
    && forall j :: 0 <= j < i ==> !Fits(s, g, list, w, list[j])
  }

  /** `m` is the first listed member that fits. */
  ghost predicate IsFirst(s: Snapshot, g: GroupView, list: seq<Member>, w: Wish, m: Member) {
    exists i: nat :: FirstAt(s, g, list, w, i) && list[i] == m
  }

  ghost predicate SomeLeads(s: Snapshot, g: GroupView, list: seq<Member>, w: Wish) {
    exists x :: x in list && Leads(s, x) &&
      match w
      case Any => true
      case Active => g.active != "" && x.name == g.active
      case Fastest => Measured(g.health, x)
      case Fresh => Unchecked(g.health, x)
      case Alive => !Dead(g.health, x)
  }

  /** A select group gives the first leading member with the active name, else the first leading member. A
      best group gives the first of the fastest among the measured leading members, else the first leading
      one that was never checked. A group of another kind gives the first leading member, and a load-balance
      group some leading member that is not known dead. */
  ghost predicate IsOutcome(s: Snapshot, g: GroupView, list: seq<Member>, m: Member) {
    match g.kind
    case Select =>
      if SomeLeads(s, g, list, Active) then IsFirst(s, g, list, Active, m)
      else if SomeLeads(s, g, list, Any) then IsFirst(s, g, list, Any, m)
      else m == NO_MEMBER
    case Best =>
      if SomeLeads(s, g, list, Fastest) then IsFirst(s, g, list, Fastest, m)
      else if SomeLeads(s, g, list, Fresh) then IsFirst(s, g, list, Fresh, m)
      else m == NO_MEMBER
    case Unsupported =>
      if SomeLeads(s, g, list, Any) then IsFirst(s, g, list, Any, m) else m == NO_MEMBER
    case LoadBalance =>
      if SomeLeads(s, g, list, Alive) then m in list && Fits(s, g, list, Alive, m) else m == NO_MEMBER
  }

  /** `p` is what the group gives: a proxy it reaches and, when its members do not go in a circle, through the
      member that is its outcome. */
  ghost predicate GroupGives(s: Snapshot, a: string, p: Proxy)
    requires WellFormed(s)
  {
    && a in s.groups && ReachesProxy(s, a, p)
    && (!ReachesCycle(s, a) ==>
          exists m :: IsOutcome(s, s.groups[a], Members(s, s.groups[a]), m) && ResolvedThrough(s, a, m, p))
  }

  /** `p` is what a name stands for: the proxy of that name, else what the group of that name gives, else
      nothing. */
  ghost predicate StandsFor(s: Snapshot, name: string, p: Proxy?)
    requires WellFormed(s)
  {
    if name in s.proxies then p == s.proxies[name]
    else if name in s.groups && ReachesLeaf(s, name) then p != null && GroupGives(s, name, p)
    else p == null
  }

  lemma SomeStillLeads(s: Snapshot, g: GroupView, list: seq<Member>, w: Wish, x: Member)
    requires !Leads(s, x)
    ensures SomeLeads(s, g, RemoveFirst(list, x), w) <==> SomeLeads(s, g, list, w)
  {
  }

  lemma StillFits(s: Snapshot, g: GroupView, list: seq<Member>, w: Wish, x: Member, y: Member)
    requires !Leads(s, x)
    ensures Fits(s, g, RemoveFirst(list, x), w, y) <==> Fits(s, g, list, w, y)
  {
  }

  /** Taking out a member that leads nowhere does not change which one is first. */
  lemma StillFirst(s: Snapshot, g: GroupView, list: seq<Member>, w: Wish, x: Member, m: Member)
    requires x in list && !Leads(s, x) && IsFirst(s, g, RemoveFirst(list, x), w, m)
    ensures IsFirst(s, g, list, w, m)
  {
    var rest := RemoveFirst(list, x);
    var k := FirstIndex(list, x);
    RemoveFirstExactly(list, x, k);
    forall y ensures Fits(s, g, rest, w, y) <==> Fits(s, g, list, w, y) { StillFits(s, g, list, w, x, y); }
    FirstPast(s, g, list, rest, w, k, m);
  }

  lemma FirstPast(s: Snapshot, g: GroupView, list: seq<Member>, rest: seq<Member>, w: Wish, k: nat, m: Member)
    requires k < |list| && rest == list[..k] + list[k + 1..] && !Fits(s, g, list, w, list[k])
    requires forall y :: Fits(s, g, rest, w, y) <==> Fits(s, g, list, w, y)
    requires IsFirst(s, g, rest, w, m)
    ensures IsFirst(s, g, list, w, m)
  {
    var i: nat :| FirstAt(s, g, rest, w, i) && rest[i] == m;
    var at := if i < k then i else i + 1;
    assert list[at] == m;
    forall j | 0 <= j < at ensures !Fits(s, g, list, w, list[j]) {
      if j != k { assert list[j] == rest[if j < k then j else j - 1]; }
    }
    assert FirstAt(s, g, list, w, at);
  }

  lemma {:induction false} FirstNamedIndex(name: string, list: seq<Member>) returns (i: nat)
    requires exists i :: 0 <= i < |list| && list[i].name == name
    ensures i < |list| && list[i] == FirstNamed(name, list) && list[i].name == name
    ensures forall j :: 0 <= j < i ==> list[j].name != name
    decreases |list|
  {
    if list[0].name == name {
      i := 0;
    } else {
      var k :| 0 <= k < |list| && list[k].name == name;
      assert list[1..][k - 1] == list[k];
      var rest := FirstNamedIndex(name, list[1..]);
      i := rest + 1;
      assert forall j :: 0 < j < |list| ==> list[j] == list[1..][j - 1];
    }
  }

  lemma SelectNow(s: Snapshot, g: GroupView, list: seq<Member>, m: Member)
    requires g.kind.Select? && list != [] && m == PickSelect(g.active, list) && Leads(s, m)
    ensures IsOutcome(s, g, list, m)
  {
    if g.active != "" && exists i :: 0 <= i < |list| && list[i].name == g.active {
      var i := FirstNamedIndex(g.active, list);
      assert FirstAt(s, g, list, Active, i);
    } else {
      assert !SomeLeads(s, g, list, Active);
      assert FirstAt(s, g, list, Any, 0);
    }
  }

  lemma BestNow(s: Snapshot, g: GroupView, list: seq<Member>, m: Member)
    requires g.kind.Best? && IsBestPick(g.health, list, m) && m in list && Leads(s, m)
    ensures m != NO_MEMBER ==> IsOutcome(s, g, list, m)
  {
    if exists i :: 0 <= i < |list| && Measured(g.health, list[i]) {
      var i :| 0 <= i < |list| && IsFastest(g.health, list, i) && m == list[i];
      FastestIsFirst(s, g, list, i);
    } else if exists i :: 0 <= i < |list| && Unchecked(g.health, list[i]) {
      var i :| 0 <= i < |list| && IsFirstUnchecked(g.health, list, i) && m == list[i];
      assert FirstAt(s, g, list, Fresh, i);
    }
  }

  lemma FastestIsFirst(s: Snapshot, g: GroupView, list: seq<Member>, i: nat)
    requires i < |list| && IsFastest(g.health, list, i) && Leads(s, list[i])
    ensures FirstAt(s, g, list, Fastest, i) && SomeLeads(s, g, list, Fastest)
  {
    assert list[i] in list;
    forall j | 0 <= j < i ensures !Fits(s, g, list, Fastest, list[j]) {
      if Measured(g.health, list[j]) { assert !Unbeaten(s, g, list, list[j]); }
    }
  }

  /** The first pick leads somewhere, or there is nothing to pick. */
  lemma OutcomeNow(s: Snapshot, g: GroupView, list: seq<Member>, at: nat, m: Member, at': nat)
    requires list != [] && GoodPick(g, list, at, m, at') && (m == NO_MEMBER || Leads(s, m))
    requires forall x :: x in list ==> x.name != ""
    ensures IsOutcome(s, g, list, m)
  {
    assert list[0] in list;
    match g.kind
    case Select => SelectNow(s, g, list, m);
    case Best =>
      if m == NO_MEMBER {
        assert forall x :: x in list ==> !Measured(g.health, x) && !Unchecked(g.health, x);
      } else {
        BestNow(s, g, list, m);
      }
    case Unsupported => assert FirstAt(s, g, list, Any, 0);
    case LoadBalance =>
  }

  /** A pick that leads nowhere leaves the outcome to the rest of the list. */
  lemma OutcomeLater(s: Snapshot, g: GroupView, list: seq<Member>, x: Member, m: Member)
    requires x in list && !Leads(s, x) && IsOutcome(s, g, RemoveFirst(list, x), m)
    ensures IsOutcome(s, g, list, m)
  {
    forall w ensures SomeLeads(s, g, RemoveFirst(list, x), w) <==> SomeLeads(s, g, list, w) {
      SomeStillLeads(s, g, list, w, x);
    }
    forall w | IsFirst(s, g, RemoveFirst(list, x), w, m) ensures IsFirst(s, g, list, w, m) {
      StillFirst(s, g, list, w, x, m);
    }
  }

  /** Picking until a pick leads somewhere ends with the outcome that the list itself tells. */
  lemma {:induction false} ChosenIsOutcome(s: Snapshot, g: GroupView, list: seq<Member>, at: nat, m: Member, at': nat)
    requires IsChosen(s, g, list, at, m, at') && forall x :: x in list ==> x.name != ""
    ensures IsOutcome(s, g, list, m)
    decreases |list|
  {
    if list != [] {
      var x, k: nat :| ChosenAfter(s, g, list, at, x, k, m, at');
      if x == NO_MEMBER || Leads(s, x) {
        OutcomeNow(s, g, list, at, x, k);
      } else {
        ChosenIsOutcome(s, g, RemoveFirst(list, x), k, m, at');
        OutcomeLater(s, g, list, x, m);
      }
    }
  }

  /** And the list tells only one outcome, whatever the counter, for every kind but load-balance. */
  lemma OutcomeUnique(s: Snapshot, g: GroupView, list: seq<Member>, m: Member, m': Member)
    requires !g.kind.LoadBalance? && IsOutcome(s, g, list, m) && IsOutcome(s, g, list, m')
    ensures m == m'
  {
    forall w | IsFirst(s, g, list, w, m) && IsFirst(s, g, list, w, m') ensures m == m' {
      FirstUnique(s, g, list, w, m, m');
    }
  }

  lemma FirstUnique(s: Snapshot, g: GroupView, list: seq<Member>, w: Wish, m: Member, m': Member)
    requires IsFirst(s, g, list, w, m) && IsFirst(s, g, list, w, m')
    ensures m == m'
  {
    var i: nat :| FirstAt(s, g, list, w, i) && list[i] == m;
    var j: nat :| FirstAt(s, g, list, w, j) && list[j] == m';
    assert i == j;
  }
}
