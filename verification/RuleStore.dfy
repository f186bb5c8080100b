/**
  The stored rules: one record per rule under its ID, a list of IDs that gives the order, and the next free
  ID. Each operation is a transaction: it rewrites all three or, on an error, nothing. The meaning of a
  store is the list of rules it shows, and the operations are proved to be the plain ones on such a list.
 */
module RuleStore {
  import opened Basics

  datatype Store = Store(rules: map<nat, string>, order: seq<nat>, nextId: nat)

  const EMPTY := Store(map[], [], 1)

  ghost predicate Distinct(ids: seq<nat>) {
    forall i, j :: 0 <= i < j < |ids| ==> ids[i] != ids[j]
  }

  /** The order has no duplicates and lists exactly the stored rules, and all IDs are in use order: from 1
      and below the next one. */
  ghost predicate Sound(s: Store) {
    && s.nextId >= 1
    && Distinct(s.order)
    && (forall id :: id in s.order <==> id in s.rules)
    && forall id :: id in s.rules ==> 1 <= id < s.nextId
  }

  datatype Op =
    | Insert(rule: string, after: Option<nat>)
    | Update(id: nat, rule: string)
    | Delete(id: nat)
    | Reorder(order: seq<nat>)

  function IndexOf(ids: seq<nat>, id: nat): (k: nat)
    requires id in ids
    ensures k < |ids| && ids[k] == id
    ensures forall j :: 0 <= j < k ==> ids[j] != id
  {
    if ids[0] == id then 0 else 1 + IndexOf(ids[1..], id)
  }

  /** Where a new rule goes: at the end, at the front (anchor 0), right after its anchor, or nowhere. */
  function Slot(ids: seq<nat>, after: Option<nat>): (k: Option<nat>)
    ensures k.Some? ==> k.value <= |ids|
  {
    match after
    case None => Some(|ids|)
    case Some(anchor) =>
      if anchor == 0 then Some(0)
      else if anchor in ids then Some(IndexOf(ids, anchor) + 1)
      else None
  }

  function Place<T>(xs: seq<T>, k: nat, x: T): seq<T>
    requires k <= |xs|
  {
    xs[..k] + [x] + xs[k..]
  }

  function Without(ids: seq<nat>, id: nat): seq<nat> {
    if ids == [] then []
    else Without(ids[..|ids| - 1], id) + if ids[|ids| - 1] != id then [ids[|ids| - 1]] else []
  }

  /** A transaction, `None` when it fails. */
  function Step(s: Store, op: Op): Option<Store> {
    match op
    case Insert(rule, after) =>
      (match Slot(s.order, after)
       case None => None
       case Some(k) => Some(Store(s.rules[s.nextId := rule], Place(s.order, k, s.nextId), s.nextId + 1)))
    case Update(id, rule) =>
      if id in s.rules then Some(s.(rules := s.rules[id := rule])) else None
    case Delete(id) =>
      if id in s.rules then Some(s.(rules := s.rules - {id}, order := Without(s.order, id))) else None
    case Reorder(order) =>
      if forall id :: id in order ==> id in s.rules then Some(s.(order := order)) else None
  }

  // ---------------------------------------------------------------- what every operation keeps

  lemma {:induction false} WithoutExactly(ids: seq<nat>, id: nat)
    ensures forall x :: x in Without(ids, id) <==> x in ids && x != id
    ensures Distinct(ids) ==> Distinct(Without(ids, id))
    decreases |ids|
  {
    if ids != [] {
      var front, last := ids[..|ids| - 1], ids[|ids| - 1];
      assert ids == front + [last];
      WithoutExactly(front, id);
      if Distinct(ids) { assert last !in front; }
    }
  }

  lemma PlaceExactly(ids: seq<nat>, k: nat, id: nat)
    requires k <= |ids|
    ensures forall x :: x in Place(ids, k, id) <==> x in ids || x == id
    ensures Distinct(ids) && id !in ids ==> Distinct(Place(ids, k, id))
  {
    var placed := Place(ids, k, id);
    assert forall i :: 0 <= i < |ids| ==> ids[i] == placed[if i < k then i else i + 1];
    assert placed[k] == id;
  }

  lemma InsertKeeps(s: Store, rule: string, after: Option<nat>)
    requires Sound(s) && Step(s, Insert(rule, after)).Some?
    ensures Sound(Step(s, Insert(rule, after)).value)
  {
    PlaceExactly(s.order, Slot(s.order, after).value, s.nextId);
  }

  lemma DeleteKeeps(s: Store, id: nat)
    requires Sound(s) && Step(s, Delete(id)).Some?
    ensures Sound(Step(s, Delete(id)).value)
  {
    WithoutExactly(s.order, id);
  }

  lemma {:induction false} CountsOfDistinct(ids: seq<nat>, x: nat)
    requires Distinct(ids)
    ensures multiset(ids)[x] == if x in ids then 1 else 0
    decreases |ids|
  {
    if ids != [] {
      var front, last := ids[..|ids| - 1], ids[|ids| - 1];
      assert ids == front + [last];
      CountsOfDistinct(front, x);
      assert last !in front;
    }
  }

  lemma {:induction false} DistinctOfCounts(ids: seq<nat>)
    requires forall x :: x in ids ==> multiset(ids)[x] == 1
    ensures Distinct(ids)
    decreases |ids|
  {
    if ids != [] {
      var front, last := ids[..|ids| - 1], ids[|ids| - 1];
      assert ids == front + [last];
      forall x | x in front ensures multiset(front)[x] == 1 && x != last {
        assert x in ids && multiset(front)[x] >= 1;
      }
      DistinctOfCounts(front);
      forall i, j | 0 <= i < j < |ids| ensures ids[i] != ids[j] {
        assert ids[i] == front[i] && front[i] in front;
        if j < |front| { assert ids[j] == front[j]; }
      }
    }
  }

  /** A reordering checks only that each ID exists. It keeps the store sound exactly when the new order is
      a permutation of the old one. */
  lemma ReorderKeepsExactly(s: Store, order: seq<nat>)
    requires Sound(s) && Step(s, Reorder(order)).Some?
    ensures Sound(Step(s, Reorder(order)).value) <==> multiset(order) == multiset(s.order)
  {
    forall x ensures multiset(s.order)[x] == if x in s.order then 1 else 0 { CountsOfDistinct(s.order, x); }
    if multiset(order) == multiset(s.order) {
      forall x ensures x in order <==> x in s.order {
        assert x in multiset(order) <==> x in multiset(s.order);
      }
      DistinctOfCounts(order);
    }
    if Distinct(order) && forall id :: id in order <==> id in s.rules {
      forall x ensures multiset(order)[x] == multiset(s.order)[x] { CountsOfDistinct(order, x); }
    }
  }

  lemma ReorderCanLoseARule()
    ensures var s := Store(map[1 := "a", 2 := "b"], [1, 2], 3);
            Sound(s) && Step(s, Reorder([1, 1])).Some? && !Sound(Step(s, Reorder([1, 1])).value)
  {
    var ids: seq<nat> := [1, 1];
    assert ids[0] == ids[1];
    assert !Distinct(ids);
  }

  /** Reorderings are permutations. */
  ghost predicate Proper(s: Store, op: Op) {
    op.Reorder? ==> multiset(op.order) == multiset(s.order)
  }

  ghost predicate Next(s: Store, op: Op, t: Store) {
    match Step(s, op)
    case None => t == s
    case Some(next) => t == next
  }

  ghost predicate IsRun(stores: seq<Store>, ops: seq<Op>) {
    && |stores| == |ops| + 1
    && stores[0] == EMPTY
    && forall i :: 0 <= i < |ops| ==> Proper(stores[i], ops[i]) && Next(stores[i], ops[i], stores[i + 1])
  }

  lemma NextKeeps(s: Store, op: Op, t: Store)
    requires Sound(s) && Proper(s, op) && Next(s, op, t)
    ensures Sound(t)
  {
    if Step(s, op).Some? {
      match op
      case Insert(rule, after) => InsertKeeps(s, rule, after);
      case Update(_, _) =>
      case Delete(id) => DeleteKeeps(s, id);
      case Reorder(order) => ReorderKeepsExactly(s, order);
    }
  }

  lemma {:induction false} RunsAreSound(stores: seq<Store>, ops: seq<Op>, n: nat)
    requires IsRun(stores, ops) && n < |stores|
    ensures Sound(stores[n])
    decreases n
  {
    if n > 0 {
      RunsAreSound(stores, ops, n - 1);
      NextKeeps(stores[n - 1], ops[n - 1], stores[n]);
    }
  }

  /** No ID is given out twice: an insertion's ID has never been in the store before. */
  lemma {:induction false} IdsAreNotReused(stores: seq<Store>, ops: seq<Op>, i: nat, j: nat)
    requires IsRun(stores, ops) && i <= j < |stores|
    ensures stores[i].nextId <= stores[j].nextId && stores[j].nextId !in stores[i].rules
    decreases j
  {
    if i < j {
      IdsAreNotReused(stores, ops, i, j - 1);
      assert Next(stores[j - 1], ops[j - 1], stores[j]);
    }
    RunsAreSound(stores, ops, i);
  }

  // ---------------------------------------------------------------- the store as a list of rules

  datatype RuleWithID = RuleWithID(id: nat, rule: string)

  /** The rules in order; IDs without a record are skipped. */
  function Listing(rules: map<nat, string>, order: seq<nat>): seq<RuleWithID> {
    if order == [] then []
    else
      var id := order[|order| - 1];
      Listing(rules, order[..|order| - 1]) + if id in rules then [RuleWithID(id, rules[id])] else []
  }

  function Shown(s: Store): seq<RuleWithID> {
    Listing(s.rules, s.order)
  }

  function Ids(list: seq<RuleWithID>): seq<nat> {
    seq(|list|, i requires 0 <= i < |list| => list[i].id)
  }

  lemma {:induction false} ListingIsComplete(rules: map<nat, string>, order: seq<nat>)
    requires forall i :: 0 <= i < |order| ==> order[i] in rules
    ensures |Listing(rules, order)| == |order|
    ensures forall i :: 0 <= i < |order| ==> Listing(rules, order)[i] == RuleWithID(order[i], rules[order[i]])
    decreases |order|
  {
    if order != [] { ListingIsComplete(rules, order[..|order| - 1]); }
  }

  lemma ShownIsComplete(s: Store)
    requires Sound(s)
    ensures |Shown(s)| == |s.order|
    ensures forall i :: 0 <= i < |s.order| ==>
              s.order[i] in s.rules && Shown(s)[i] == RuleWithID(s.order[i], s.rules[s.order[i]])
    ensures Ids(Shown(s)) == s.order
  {
    assert forall i :: 0 <= i < |s.order| ==> s.order[i] in s.order;
    ListingIsComplete(s.rules, s.order);
  }

  lemma ListingPlaced(rules: map<nat, string>, order: seq<nat>, k: nat, r: RuleWithID)
    requires k <= |order| && r.id !in order && forall i :: 0 <= i < |order| ==> order[i] in rules
    ensures |Listing(rules, order)| == |order|
    ensures Listing(rules[r.id := r.rule], Place(order, k, r.id)) == Place(Listing(rules, order), k, r)
  {
    ListingIsComplete(rules, order);
    ListingIsComplete(rules[r.id := r.rule], Place(order, k, r.id));
  }

  /** `before` and `rest` are the rules between which a new one goes: `before` is everything, or nothing for
      the anchor 0, or ends with the anchor. */
  ghost predicate Parts(list: seq<RuleWithID>, after: Option<nat>, before: seq<RuleWithID>, rest: seq<RuleWithID>) {
    && list == before + rest
    && match after
       case None => rest == []
       case Some(anchor) => if anchor == 0 then before == [] else before != [] && before[|before| - 1].id == anchor
  }

  lemma SlotOfAnchor(ids: seq<nat>, anchor: nat, i: nat)
    requires Distinct(ids) && i < |ids| && ids[i] == anchor && anchor != 0
    ensures Slot(ids, Some(anchor)) == Some(i + 1)
  {
    assert IndexOf(ids, anchor) == i;
  }

  /** A rule between two parts of the list lands exactly there, and every other rule stays in place. */
  lemma InsertLands(s: Store, rule: string, after: Option<nat>, before: seq<RuleWithID>, rest: seq<RuleWithID>)
    requires Sound(s) && Parts(Shown(s), after, before, rest)
    ensures Step(s, Insert(rule, after)).Some?
    ensures Shown(Step(s, Insert(rule, after)).value) == before + [RuleWithID(s.nextId, rule)] + rest
  {
    ShownIsComplete(s);
    if after.Some? && after.value != 0 {
      assert s.order[|before| - 1] == after.value;
      SlotOfAnchor(s.order, after.value, |before| - 1);
    }
    ListingPlaced(s.rules, s.order, |before|, RuleWithID(s.nextId, rule));
    assert Place(Shown(s), |before|, RuleWithID(s.nextId, rule)) == before + [RuleWithID(s.nextId, rule)] + rest;
  }

  /** An anchor that is not shown is an error, and nothing else is. */
  lemma InsertSucceedsExactly(s: Store, rule: string, after: Option<nat>)
    requires Sound(s)
    ensures Step(s, Insert(rule, after)).Some? <==> after.None? || after.value == 0 || after.value in Ids(Shown(s))
  {
    ShownIsComplete(s);
  }

  /** Without an anchor the new rule comes last. */
  lemma InsertAtEnd(s: Store, rule: string)
    requires Sound(s)
    ensures Step(s, Insert(rule, None)).Some?
    ensures Shown(Step(s, Insert(rule, None)).value) == Shown(s) + [RuleWithID(s.nextId, rule)]
  {
    var list, added := Shown(s), [RuleWithID(s.nextId, rule)];
    assert list + [] == list && list + added + [] == list + added;
    InsertLands(s, rule, None, list, []);
  }

  /** With the anchor 0 it comes first. */
  lemma InsertAtFront(s: Store, rule: string)
    requires Sound(s)
    ensures Step(s, Insert(rule, Some(0))).Some?
    ensures Shown(Step(s, Insert(rule, Some(0))).value) == [RuleWithID(s.nextId, rule)] + Shown(s)
  {
    var list, added := Shown(s), [RuleWithID(s.nextId, rule)];
    assert [] + list == list && [] + added + list == added + list;
    InsertLands(s, rule, Some(0), [], list);
  }

  /** With a shown rule as anchor it comes right after that one. */
  lemma InsertAfterAnchor(s: Store, rule: string, i: nat)
    requires Sound(s) && i < |Shown(s)|
    ensures Step(s, Insert(rule, Some(Shown(s)[i].id))).Some?
    ensures Shown(Step(s, Insert(rule, Some(Shown(s)[i].id))).value) ==
            Shown(s)[..i + 1] + [RuleWithID(s.nextId, rule)] + Shown(s)[i + 1..]
  {
    ShownIsComplete(s);
    assert s.order[i] in s.order;
    InsertLands(s, rule, Some(Shown(s)[i].id), Shown(s)[..i + 1], Shown(s)[i + 1..]);
  }

  /** An ID that is not shown is an error for an update and for a deletion. */
  lemma OnlyShownChange(s: Store, id: nat, rule: string)
    requires Sound(s)
    ensures Step(s, Update(id, rule)).Some? <==> id in Ids(Shown(s))
    ensures Step(s, Delete(id)).Some? <==> id in Ids(Shown(s))
  {
    ShownIsComplete(s);
  }

  lemma ListingUpdated(rules: map<nat, string>, order: seq<nat>, i: nat, rule: string)
    requires Distinct(order) && i < |order| && forall j :: 0 <= j < |order| ==> order[j] in rules
    ensures |Listing(rules, order)| == |order|
    ensures Listing(rules[order[i] := rule], order) == Listing(rules, order)[i := RuleWithID(order[i], rule)]
  {
    ListingIsComplete(rules, order);
    ListingIsComplete(rules[order[i] := rule], order);
  }

  /** An update changes the text at the place of its rule and nothing else. */
  lemma UpdateShown(s: Store, i: nat, rule: string)
    requires Sound(s) && i < |Shown(s)|
    ensures Step(s, Update(Shown(s)[i].id, rule)).Some?
    ensures Shown(Step(s, Update(Shown(s)[i].id, rule)).value) == Shown(s)[i := RuleWithID(Shown(s)[i].id, rule)]
  {
    ShownIsComplete(s);
    ListingUpdated(s.rules, s.order, i, rule);
  }

  /** Dropping an ID takes out its one place. */
  lemma {:induction false} WithoutAt(ids: seq<nat>, id: nat, i: nat)
    requires Distinct(ids) && i < |ids| && ids[i] == id
    ensures Without(ids, id) == ids[..i] + ids[i + 1..]
    decreases |ids|
  {
    var front, last := ids[..|ids| - 1], ids[|ids| - 1];
    if i == |ids| - 1 {
      WithoutAbsent(front, id);
      assert ids[..i] + ids[i + 1..] == front;
    } else {
      WithoutAt(front, id, i);
      assert front[..i] + front[i + 1..] + [last] == ids[..i] + ids[i + 1..];
    }
  }

  lemma {:induction false} WithoutAbsent(ids: seq<nat>, id: nat)
    requires id !in ids
    ensures Without(ids, id) == ids
    decreases |ids|
  {
    if ids != [] {
      WithoutAbsent(ids[..|ids| - 1], id);
      assert ids == ids[..|ids| - 1] + [ids[|ids| - 1]];
    }
  }

  lemma ListingDropped(rules: map<nat, string>, order: seq<nat>, i: nat)
    requires Distinct(order) && i < |order| && forall j :: 0 <= j < |order| ==> order[j] in rules
    ensures |Listing(rules, order)| == |order|
    ensures Listing(rules - {order[i]}, order[..i] + order[i + 1..]) ==
            Listing(rules, order)[..i] + Listing(rules, order)[i + 1..]
  {
    var rest, left := order[..i] + order[i + 1..], rules - {order[i]};
    assert forall j :: 0 <= j < |rest| ==> rest[j] == order[if j < i then j else j + 1];
    ListingIsComplete(rules, order);
    ListingIsComplete(left, rest);
    SkipOne(Listing(rules, order), Listing(left, rest), i);
  }

  lemma SkipOne(all: seq<RuleWithID>, some: seq<RuleWithID>, i: nat)
    requires i < |all| && |some| == |all| - 1
    requires forall j :: 0 <= j < i ==> some[j] == all[j]
    requires forall j :: i <= j < |some| ==> some[j] == all[j + 1]
    ensures some == all[..i] + all[i + 1..]
  {
  }

  /** A deletion takes its rule out of its place and leaves every other one. */
  lemma DeleteShown(s: Store, i: nat)
    requires Sound(s) && i < |Shown(s)|
    ensures Step(s, Delete(Shown(s)[i].id)).Some?
    ensures Shown(Step(s, Delete(Shown(s)[i].id)).value) == Shown(s)[..i] + Shown(s)[i + 1..]
  {
    ShownIsComplete(s);
    WithoutAt(s.order, s.order[i], i);
    ListingDropped(s.rules, s.order, i);
  }

  lemma ReorderShown(s: Store, order: seq<nat>)
    requires Sound(s) && multiset(order) == multiset(s.order)
    ensures Step(s, Reorder(order)).Some?
    ensures var t := Step(s, Reorder(order)).value;
            Ids(Shown(t)) == order && forall r :: r in Shown(t) <==> r in Shown(s)
  {
    forall x ensures x in order <==> x in s.order { assert x in multiset(order) <==> x in multiset(s.order); }
    var t := Step(s, Reorder(order)).value;
    ReorderKeepsExactly(s, order);
    ShownIsComplete(s);
    ShownIsComplete(t);
    forall r ensures r in Shown(s) <==> r.id in s.rules && r.rule == s.rules[r.id] { ShownExactly(s, r); }
    forall r ensures r in Shown(t) <==> r.id in s.rules && r.rule == s.rules[r.id] { ShownExactly(t, r); }
  }

  lemma ShownExactly(s: Store, r: RuleWithID)
    requires Sound(s)
    ensures r in Shown(s) <==> r.id in s.rules && r.rule == s.rules[r.id]
  {
    ShownIsComplete(s);
    if r.id in s.rules && r.rule == s.rules[r.id] {
      var i :| 0 <= i < |s.order| && s.order[i] == r.id;
      assert Shown(s)[i] == r;
    }
  }

  // ---------------------------------------------------------------- the transactions

  class ConfigStore {
    var rules: map<nat, string>
    var order: seq<nat>
    var nextId: nat

    ghost function Contents(): Store
      reads this
    {
      Store(rules, order, nextId)
    }

    constructor ()
      ensures Contents() == EMPTY
    {
      rules, order, nextId := map[], [], 1;
    }

    method InsertRuleWithID(rule: string, after: Option<nat>) returns (id: Option<nat>)
      modifies this
      ensures Next(old(Contents()), Insert(rule, after), Contents())
      ensures id == if Step(old(Contents()), Insert(rule, after)).Some? then Some(old(nextId)) else None
      ensures after == None ==> order == old(order) + [old(nextId)]
      ensures after == Some(0) ==> order == [old(nextId)] + old(order)
      ensures forall i :: 0 <= i < |old(order)| && after == Some(old(order)[i]) && old(order)[i] != 0 &&
                          old(order)[i] !in old(order)[..i] ==>
                order == old(order)[..i + 1] + [old(nextId)] + old(order)[i + 1..]
    {
      var slot: int;
      if after.None? {
        slot := |order|;
      } else if after.value == 0 {
        slot := 0;
      } else {
        var pos := FindAnchor(order, after.value);
        if pos == -1 { return None; }
        slot := pos + 1;
      }
      id := Some(nextId);
      rules, order, nextId := rules[nextId := rule], order[..slot] + [nextId] + order[slot..], nextId + 1;
    }

    method UpdateRuleByID(id: nat, rule: string) returns (ok: bool)
      modifies this
      ensures Next(old(Contents()), Update(id, rule), Contents())
      ensures ok <==> id in old(rules)
    {
      ok := id in rules;
      if ok { rules := rules[id := rule]; }
    }

    method DeleteRuleByID(id: nat) returns (ok: bool)
      modifies this
      ensures Next(old(Contents()), Delete(id), Contents())
      ensures ok <==> id in old(rules)
    {
      ok := id in rules;
      if ok {
        var kept := Filter(order, id);
        rules, order := rules - {id}, kept;
      }
    }

    method ReorderRules(newOrder: seq<nat>) returns (ok: bool)
      modifies this
      ensures Next(old(Contents()), Reorder(newOrder), Contents())
      ensures ok <==> forall id :: id in newOrder ==> id in old(rules)
    {
      for i := 0 to |newOrder|
        invariant forall j :: 0 <= j < i ==> newOrder[j] in rules
        invariant Contents() == old(Contents())
      {
        if newOrder[i] !in rules { return false; }
      }
      ok, order := true, newOrder;
    }

    method ListRulesWithIDs() returns (list: seq<RuleWithID>)
      ensures list == Shown(Contents())
    {
      list := [];
      for i := 0 to |order|
        invariant list == Listing(rules, order[..i])
      {
        assert order[..i + 1][..i] == order[..i];
        if order[i] in rules { list := list + [RuleWithID(order[i], rules[order[i]])]; }
      }
      assert order[..|order|] == order;
    }
  }

  method FindAnchor(order: seq<nat>, anchor: nat) returns (pos: int)
    ensures pos == if anchor in order then IndexOf(order, anchor) else -1
    ensures pos != -1 ==> 0 <= pos < |order| && order[pos] == anchor && anchor !in order[..pos]
  {
    for i := 0 to |order|
      invariant anchor !in order[..i]
    {
      if order[i] == anchor {
        assert forall j :: 0 <= j < i ==> order[j] == order[..i][j];
        return i;
      }
    }
    assert order[..|order|] == order;
    pos := -1;
  }

  method Filter(order: seq<nat>, id: nat) returns (kept: seq<nat>)
    ensures kept == Without(order, id)
  {
    kept := [];
    for i := 0 to |order|
      invariant kept == Without(order[..i], id)
    {
      assert order[..i + 1][..i] == order[..i];
      if order[i] != id { kept := kept + [order[i]]; }
    }
    assert order[..|order|] == order;
  }
}
