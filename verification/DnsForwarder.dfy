/**
  The table of clients waiting for a forwarded DNS answer. Five kinds of atomic steps compete for
  it: a worker registers a client, the listener takes all clients of an answered name, a sweep
  expires old ones, a worker whose write failed takes its own client back, and a shutdown takes
  everything. The steps are methods of `DnsForwarder`; `Next` is the same five steps as a relation,
  over which the properties of whole runs are proved.
 */
module DnsForwarding {
  import opened Basics
  import opened DnsCodec
  import opened DnsRoundTrip

  /** How long a forwarded query waits before the sweeper answers SERVFAIL, in nanoseconds. */
  const FORWARD_TIMEOUT: int := 5_000_000_000

  /** A waiting client; `id` stands for the identity of the object that was allocated for it. */
  datatype Waiter = Waiter(id: nat, query: Packet, client: nat, at: int)

  type Table = map<Name, seq<Waiter>>

  /** ASCII lower case. */
  function Lower(name: Name): Name {
    seq(|name|, i requires 0 <= i < |name| => if 65 <= name[i] <= 90 then name[i] + 32 else name[i])
  }

  /** Two spellings of a name meet under one key if and only if they differ at most in the case of letters. */
  lemma SpellingsMeet(a: Name, b: Name)
    ensures Lower(a) == Lower(b) <==> |a| == |b| && forall i :: 0 <= i < |a| ==> SameLetter(a[i], b[i])
  {
    if Lower(a) == Lower(b) {
      assert |a| == |Lower(a)| && |b| == |Lower(b)|;
      forall i | 0 <= i < |a| ensures SameLetter(a[i], b[i]) { assert Lower(a)[i] == Lower(b)[i]; }
    }
  }

  /** Equal, or the upper and the lower case of one letter. */
  predicate SameLetter(x: int, y: int) {
    x == y || ('A' as int <= x <= 'Z' as int && y == x - 'A' as int + 'a' as int) ||
    ('A' as int <= y <= 'Z' as int && x == y - 'A' as int + 'a' as int)
  }

  predicate Accepted(w: Waiter) {
    QueryQuestion(w.query).Some?
  }

  function KeyOf(w: Waiter): Name
    requires Accepted(w)
  {
    Lower(QueryQuestion(w.query).value.domain)
  }

  function At(table: Table, key: Name): seq<Waiter> {
    if key in table then table[key] else []
  }

  /** How often `w` is in the table. */
  function Count(table: Table, w: Waiter): nat {
    if Accepted(w) then multiset(At(table, KeyOf(w)))[w] else 0
  }

  ghost predicate AllOwn(list: seq<Waiter>, key: Name) {
    forall w :: w in list ==> Accepted(w) && KeyOf(w) == key
  }

  /** Every waiter sits under the lower-cased name of its own question, and no key has an empty list. */
  ghost predicate Ordered(table: Table) {
    forall key :: key in table ==> table[key] != [] && AllOwn(table[key], key)
  }

  // ---------------------------------------------------------------- the steps on values

  function Registered(table: Table, w: Waiter): Table
    requires Accepted(w)
  {
    table[KeyOf(w) := At(table, KeyOf(w)) + [w]]
  }

  function Without(table: Table, key: Name): Table {
    table - {key}
  }

  /** The clock is read once per waiter during a sweep, never before the sweep started. */
  function Reading(start: int, clock: map<Waiter, int>, w: Waiter): (t: int)
    ensures t >= start
  {
    if w in clock && clock[w] >= start then clock[w] else start
  }

  predicate IsOld(start: int, clock: map<Waiter, int>, w: Waiter) {
    Reading(start, clock, w) - w.at > FORWARD_TIMEOUT
  }

  function Kept(start: int, clock: map<Waiter, int>, list: seq<Waiter>): seq<Waiter> {
    if list == [] then []
    else (if IsOld(start, clock, list[0]) then [] else [list[0]]) + Kept(start, clock, list[1..])
  }

  function Expired(start: int, clock: map<Waiter, int>, list: seq<Waiter>): seq<Waiter> {
    if list == [] then []
    else (if IsOld(start, clock, list[0]) then [list[0]] else []) + Expired(start, clock, list[1..])
  }

  function Swept(start: int, clock: map<Waiter, int>, table: Table): Table {
    map key | key in table && Kept(start, clock, table[key]) != [] :: Kept(start, clock, table[key])
  }

  /** The list without the first entry that is this very waiter. */
  function Drop(list: seq<Waiter>, w: Waiter): seq<Waiter> {
    if list == [] then []
    else if list[0] == w then list[1..]
    else [list[0]] + Drop(list[1..], w)
  }

  function Cancelled(table: Table, w: Waiter): Table
    requires Accepted(w)
  {
    var list := Drop(At(table, KeyOf(w)), w);
    if list == [] then table - {KeyOf(w)} else table[KeyOf(w) := list]
  }

  // ---------------------------------------------------------------- counting

  lemma HeadCount(list: seq<Waiter>, w: Waiter)
    requires list != []
    ensures multiset(list)[w] == (if list[0] == w then 1 else 0) + multiset(list[1..])[w]
  {
    assert list == [list[0]] + list[1..];
  }

  lemma {:induction false} SweepCounts(start: int, clock: map<Waiter, int>, list: seq<Waiter>, w: Waiter)
    ensures multiset(Kept(start, clock, list))[w] == if IsOld(start, clock, w) then 0 else multiset(list)[w]
    ensures multiset(Expired(start, clock, list))[w] == if IsOld(start, clock, w) then multiset(list)[w] else 0
  {
    if list != [] {
      SweepCounts(start, clock, list[1..], w);
      HeadCount(list, w);
    }
  }

  lemma {:induction false} SplitSnoc(start: int, clock: map<Waiter, int>, list: seq<Waiter>, w: Waiter)
    ensures Kept(start, clock, list + [w]) == Kept(start, clock, list) + if IsOld(start, clock, w) then [] else [w]
    ensures Expired(start, clock, list + [w]) ==
            Expired(start, clock, list) + if IsOld(start, clock, w) then [w] else []
  {
    if list != [] {
      assert (list + [w])[1..] == list[1..] + [w];
      SplitSnoc(start, clock, list[1..], w);
    }
  }

  lemma {:induction false} DropCounts(list: seq<Waiter>, w: Waiter, x: Waiter)
    ensures multiset(Drop(list, w))[x] == multiset(list)[x] - (if x == w && w in list then 1 else 0)
  {
    if list != [] {
      HeadCount(list, x);
      if list[0] != w {
        DropCounts(list[1..], w, x);
        assert w in list <==> w in list[1..];
      }
    }
  }

  lemma InCount(list: seq<Waiter>, w: Waiter)
    ensures w in list <==> multiset(list)[w] > 0
  {
    assert w in list <==> w in multiset(list);
  }

  // ---------------------------------------------------------------- the running table

  datatype Sent = Sent(to: Waiter, packet: Packet)

  class DnsForwarder {
    var pending: Table

    constructor ()
      ensures pending == map[]
    {
      pending := map[];
    }

    /** A worker registers its client. The caller has parsed the query and found a domain. */
    method Register(w: Waiter)
      requires Accepted(w)
      modifies this
      ensures pending == Registered(old(pending), w)
      ensures At(pending, KeyOf(w)) == At(old(pending), KeyOf(w)) + [w]
      ensures forall key :: key != KeyOf(w) ==> At(pending, key) == At(old(pending), key)
    {
      var key := KeyOf(w);
      var waiters := if key in pending then pending[key] else [];
      pending := pending[key := waiters + [w]];
    }

    /** The listener got an answer: it takes all clients of that name and writes each its response. */
    method Respond(domain: Name, ip: Packet) returns (sent: seq<Sent>)
      requires Ordered(pending) && |ip| == 4
      modifies this
      ensures pending == Without(old(pending), Lower(domain))
      ensures AnswersExactly(sent, At(old(pending), Lower(domain)), domain, ip)
    {
      var key := Lower(domain);
      var waiters := if key in pending then pending[key] else [];
      pending := pending - {key};
      sent := AnswerAll(waiters, domain, ip);
    }

    static method AnswerAll(waiters: seq<Waiter>, domain: Name, ip: Packet) returns (sent: seq<Sent>)
      requires AllOwn(waiters, Lower(domain)) && |ip| == 4
      ensures AnswersExactly(sent, waiters, domain, ip)
    {
      sent := [];
      for i := 0 to |waiters|
        invariant AnswersExactly(sent, waiters[..i], domain, ip)
      {
        assert waiters[i] in waiters;
        var answer := Answer(waiters[i], domain, ip);
        AnswersOneMore(sent, waiters[..i], answer, waiters[i], domain, ip);
        assert waiters[..i + 1] == waiters[..i] + [waiters[i]];
        sent := sent + answer;
      }
      assert waiters[..|waiters|] == waiters;
    }

    /** Nothing is written for a query the builder cannot answer; an accepted one always can. */
    static method Answer(w: Waiter, domain: Name, ip: Packet) returns (sent: seq<Sent>)
      requires Accepted(w) && KeyOf(w) == Lower(domain) && |ip| == 4
      ensures |sent| == 1 && IsAnswer(sent[0], w, domain, ip)
    {
      AcceptedIsAnswered(w.query, |w.query|, ip);
      var resp := BuildDNSResponse(w.query, |w.query|, ip);
      sent := [];
      if resp.Packet? { sent := [Sent(w, resp.bytes)]; }
    }

    /** SERVFAIL under the client's own transaction ID. */
    static method Refuse(w: Waiter) returns (sent: seq<Sent>)
      requires Accepted(w)
      ensures |sent| == 1 && IsRefusal(sent[0], w)
    {
      AcceptedIsRefused(w.query, ServFail);
      var resp := BuildBareResponse(w.query, ServFail);
      sent := [];
      if resp.Some? { sent := [Sent(w, resp.value)]; }
    }

    static method RefuseAll(waiters: seq<Waiter>) returns (sent: seq<Sent>)
      requires forall w :: w in waiters ==> Accepted(w)
      ensures RefusesExactly(sent, waiters)
    {
      sent := [];
      for i := 0 to |waiters|
        invariant RefusesExactly(sent, waiters[..i])
      {
        assert waiters[i] in waiters;
        var refusal := Refuse(waiters[i]);
        RefusesOneMore(sent, waiters[..i], refusal, waiters[i]);
        assert waiters[..i + 1] == waiters[..i] + [waiters[i]];
        sent := sent + refusal;
      }
      assert waiters[..|waiters|] == waiters;
    }

    /** The sweep answers SERVFAIL to every client that has waited too long, and to nobody else. */
    method SweepPending(start: int, clock: map<Waiter, int>) returns (ghost expired: seq<Waiter>, sent: seq<Sent>)
      requires Ordered(pending)
      modifies this
      ensures pending == Swept(start, clock, old(pending))
      ensures forall w :: multiset(expired)[w] == if IsOld(start, clock, w) then Count(old(pending), w) else 0
      ensures RefusesExactly(sent, expired)
    {
      var kept, gone := SweepTable(pending, start, clock);
      AllAccepted(pending, gone);
      pending := kept;
      sent := RefuseAll(gone);
      expired := gone;
    }

    /** The locked part of a sweep. */
    static method SweepTable(table: Table, start: int, clock: map<Waiter, int>)
      returns (kept: Table, expired: seq<Waiter>)
      requires Ordered(table)
      ensures kept == Swept(start, clock, table)
      ensures forall w :: multiset(expired)[w] == if IsOld(start, clock, w) then Count(table, w) else 0
    {
      var todo := table.Keys;
      kept, expired := table, [];
      CountOldAll(start, clock, table);
      while todo != {}
        invariant todo <= table.Keys
        invariant kept == SweptExcept(start, clock, table, todo)
        invariant OldSoFar(start, clock, table, table.Keys - todo, expired)
      {
        var key :| key in todo;
        var keep, gone := SplitByAge(table[key], start, clock);
        CountOldStep(start, clock, table, table.Keys - todo, key, expired, gone);
        SweptExceptStep(start, clock, table, todo, key);
        expired := expired + gone;
        if keep == [] { kept := kept - {key}; } else { kept := kept[key := keep]; }
        assert table.Keys - (todo - {key}) == table.Keys - todo + {key};
        todo := todo - {key};
      }
      assert table.Keys - todo == table.Keys;
    }

    static method SplitByAge(list: seq<Waiter>, start: int, clock: map<Waiter, int>)
      returns (keep: seq<Waiter>, gone: seq<Waiter>)
      ensures keep == Kept(start, clock, list) && gone == Expired(start, clock, list)
    {
      keep, gone := [], [];
      for i := 0 to |list|
        invariant keep == Kept(start, clock, list[..i]) && gone == Expired(start, clock, list[..i])
      {
        SplitSnoc(start, clock, list[..i], list[i]);
        assert list[..i + 1] == list[..i] + [list[i]];
        if Reading(start, clock, list[i]) - list[i].at > FORWARD_TIMEOUT {
          gone := gone + [list[i]];
        } else {
          keep := keep + [list[i]];
        }
      }
      assert list[..|list|] == list;
    }

    /** The worker's write failed: it removes its own entry only, and answers SERVFAIL in any case. */
    method Cancel(w: Waiter) returns (sent: seq<Sent>)
      requires Accepted(w)
      modifies this
      ensures pending == Cancelled(old(pending), w)
      ensures RefusesExactly(sent, [w])
    {
      var key := KeyOf(w);
      var waiters := if key in pending then pending[key] else [];
      var rest := waiters;
      for i := 0 to |waiters|
        invariant rest == waiters && w !in waiters[..i]
      {
        if waiters[i] == w {
          DropAt(waiters, w, i);
          rest := waiters[..i] + waiters[i + 1..];
          break;
        }
        assert waiters[..i + 1] == waiters[..i] + [waiters[i]];
      }
      DropAbsent(waiters, w);
      assert waiters[..|waiters|] == waiters;
      if |rest| == 0 { pending := pending - {key}; } else { pending := pending[key := rest]; }
      sent := Refuse(w);
    }

    /** Shutdown takes everything and answers SERVFAIL to everybody. */
    method Stop() returns (ghost remaining: seq<Waiter>, sent: seq<Sent>)
      requires Ordered(pending)
      modifies this
      ensures pending == map[]
      ensures forall w :: multiset(remaining)[w] == Count(old(pending), w)
      ensures RefusesExactly(sent, remaining)
    {
      var all := Drain(pending);
      AllAccepted(pending, all);
      pending := map[];
      sent := RefuseAll(all);
      remaining := all;
    }

    static method Drain(table: Table) returns (all: seq<Waiter>)
      requires Ordered(table)
      ensures forall w :: multiset(all)[w] == Count(table, w)
    {
      var todo := table.Keys;
      all := [];
      while todo != {}
        invariant todo <= table.Keys
        invariant forall w :: multiset(all)[w] == CountIn(table, table.Keys - todo, w)
      {
        var key :| key in todo;
        CountInStep(table, table.Keys - todo, key, all, table[key]);
        all := all + table[key];
        assert table.Keys - (todo - {key}) == table.Keys - todo + {key};
        todo := todo - {key};
      }
      assert table.Keys - todo == table.Keys;
      CountInAll(table);
    }
  }

  /** One client's answer: its own transaction ID and its own question, with the address that came. */
  ghost predicate IsAnswer(sent: Sent, w: Waiter, domain: Name, ip: Packet) {
    && sent.to == w && Accepted(w) && KeyOf(w) == Lower(domain)
    && |sent.packet| >= 2 && sent.packet[..2] == w.query[..2]
    && ResponseQuestion(sent.packet) == QueryQuestion(w.query)
    && ResponseAddress(sent.packet) == Some(Address(ip, 5))
    && Belongs(w.query, sent.packet)
  }

  /** One answer for each of the waiters, in order. */
  ghost predicate AnswersExactly(sent: seq<Sent>, waiters: seq<Waiter>, domain: Name, ip: Packet) {
    |sent| == |waiters| && forall i :: 0 <= i < |sent| ==> IsAnswer(sent[i], waiters[i], domain, ip)
  }

  lemma AnswersOneMore(sent: seq<Sent>, waiters: seq<Waiter>, answer: seq<Sent>, w: Waiter, domain: Name, ip: Packet)
    requires AnswersExactly(sent, waiters, domain, ip) && |answer| == 1 && IsAnswer(answer[0], w, domain, ip)
    ensures AnswersExactly(sent + answer, waiters + [w], domain, ip)
  {
    var all, to := sent + answer, waiters + [w];
    forall i | 0 <= i < |all| ensures IsAnswer(all[i], to[i], domain, ip) {
      if i < |sent| { assert all[i] == sent[i] && to[i] == waiters[i]; }
    }
  }

  /** One client's refusal: its own transaction ID and question, the code for SERVFAIL, and no address. */
  ghost predicate IsRefusal(sent: Sent, w: Waiter) {
    && sent.to == w && Accepted(w)
    && |sent.packet| >= 4 && sent.packet[..2] == w.query[..2] && sent.packet[3] % 16 == 2
    && ResponseQuestion(sent.packet) == QueryQuestion(w.query)
    && ResponseAddress(sent.packet) == None
    && OnlyRefuses(w.query, ServFail, sent.packet)
  }

  /** One refusal for each of the waiters, in order. */
  ghost predicate RefusesExactly(sent: seq<Sent>, waiters: seq<Waiter>) {
    |sent| == |waiters| && forall i :: 0 <= i < |sent| ==> IsRefusal(sent[i], waiters[i])
  }

  lemma RefusesOneMore(sent: seq<Sent>, waiters: seq<Waiter>, refusal: seq<Sent>, w: Waiter)
    requires RefusesExactly(sent, waiters) && |refusal| == 1 && IsRefusal(refusal[0], w)
    ensures RefusesExactly(sent + refusal, waiters + [w])
  {
    var all, to := sent + refusal, waiters + [w];
    forall i | 0 <= i < |all| ensures IsRefusal(all[i], to[i]) {
      if i < |sent| { assert all[i] == sent[i] && to[i] == waiters[i]; }
    }
  }

  lemma AllAccepted(table: Table, list: seq<Waiter>)
    requires forall w :: multiset(list)[w] <= Count(table, w)
    ensures forall w :: w in list ==> Accepted(w)
  {
    forall w | w in list ensures Accepted(w) { InCount(list, w); }
  }

  /** The table in the middle of a sweep, with the keys of `todo` not visited yet. */
  ghost function SweptExcept(start: int, clock: map<Waiter, int>, table: Table, todo: set<Name>): Table {
    map key | key in table && (key in todo || Kept(start, clock, table[key]) != []) ::
      if key in todo then table[key] else Kept(start, clock, table[key])
  }

  lemma SweptExceptStep(start: int, clock: map<Waiter, int>, table: Table, todo: set<Name>, key: Name)
    requires key in todo && key in table
    ensures SweptExcept(start, clock, table, todo - {key}) ==
            if Kept(start, clock, table[key]) == [] then SweptExcept(start, clock, table, todo) - {key}
            else SweptExcept(start, clock, table, todo)[key := Kept(start, clock, table[key])]
  {
  }

  function CountIn(table: Table, keys: set<Name>, w: Waiter): nat {
    if Accepted(w) && KeyOf(w) in keys then Count(table, w) else 0
  }

  function CountOld(start: int, clock: map<Waiter, int>, table: Table, keys: set<Name>, w: Waiter): nat {
    if IsOld(start, clock, w) then CountIn(table, keys, w) else 0
  }

  ghost predicate OldSoFar(start: int, clock: map<Waiter, int>, table: Table, keys: set<Name>, gone: seq<Waiter>) {
    forall w :: multiset(gone)[w] == CountOld(start, clock, table, keys, w)
  }

  lemma OwnKeyOnly(table: Table, key: Name, w: Waiter)
    requires Ordered(table) && key in table
    ensures multiset(table[key])[w] == if Accepted(w) && KeyOf(w) == key then Count(table, w) else 0
  {
    InCount(table[key], w);
  }

  lemma CountInStep(table: Table, done: set<Name>, key: Name, sofar: seq<Waiter>, list: seq<Waiter>)
    requires Ordered(table) && key in table && key !in done && list == table[key]
    requires forall w :: multiset(sofar)[w] == CountIn(table, done, w)
    ensures forall w :: multiset(sofar + list)[w] == CountIn(table, done + {key}, w)
  {
    forall w ensures multiset(sofar + list)[w] == CountIn(table, done + {key}, w) {
      OwnKeyOnly(table, key, w);
    }
  }

  lemma CountInAll(table: Table)
    ensures forall w :: CountIn(table, table.Keys, w) == Count(table, w)
  {
  }

  lemma CountOldOne(start: int, clock: map<Waiter, int>, table: Table, done: set<Name>, key: Name, sofar: seq<Waiter>,
                    gone: seq<Waiter>, w: Waiter)
    requires Ordered(table) && key in table && key !in done && gone == Expired(start, clock, table[key])
    requires multiset(sofar)[w] == CountOld(start, clock, table, done, w)
    ensures multiset(sofar + gone)[w] == CountOld(start, clock, table, done + {key}, w)
  {
    SweepCounts(start, clock, table[key], w);
    OwnKeyOnly(table, key, w);
  }

  lemma CountOldStep(start: int, clock: map<Waiter, int>, table: Table, done: set<Name>, key: Name,
                     sofar: seq<Waiter>, gone: seq<Waiter>)
    requires Ordered(table) && key in table && key !in done && gone == Expired(start, clock, table[key])
    requires OldSoFar(start, clock, table, done, sofar)
    ensures OldSoFar(start, clock, table, done + {key}, sofar + gone)
  {
    forall w ensures multiset(sofar + gone)[w] == CountOld(start, clock, table, done + {key}, w) {
      CountOldOne(start, clock, table, done, key, sofar, gone, w);
    }
  }

  lemma CountOldAll(start: int, clock: map<Waiter, int>, table: Table)
    ensures forall w ::
              CountOld(start, clock, table, table.Keys, w) == if IsOld(start, clock, w) then Count(table, w) else 0
    ensures SweptExcept(start, clock, table, {}) == Swept(start, clock, table)
    ensures SweptExcept(start, clock, table, table.Keys) == table
  {
  }

  lemma {:induction false} DropAt(list: seq<Waiter>, w: Waiter, i: nat)
    requires i < |list| && list[i] == w && w !in list[..i]
    ensures Drop(list, w) == list[..i] + list[i + 1..]
  {
    if i > 0 {
      assert list[0] in list[..i];
      assert list[1..][..i - 1] == list[1..i];
      DropAt(list[1..], w, i - 1);
    }
  }

  lemma {:induction false} DropAbsent(list: seq<Waiter>, w: Waiter)
    ensures w !in list ==> Drop(list, w) == list
  {
    if list != [] && w !in list {
      assert list[0] in list;
      DropAbsent(list[1..], w);
    }
  }

  // ---------------------------------------------------------------- whole runs

  datatype Event =
    | Register(w: Waiter)
    | Respond(domain: Name)
    | Sweep(start: int, clock: map<Waiter, int>)
    | WriteFailed(w: Waiter)
    | Shutdown

  /** The table and what has happened so far: who was registered, who has left the table, who was sent
      an answer of any kind, and whose failed write found that its waiter had already left. */
  datatype State = State(
    table: Table,
    registered: multiset<Waiter>,
    left: multiset<Waiter>,
    answered: multiset<Waiter>,
    strays: multiset<Waiter>)

  const START := State(map[], multiset{}, multiset{}, multiset{}, multiset{})

  /** `out` leaves the table and is answered. */
  ghost predicate Departs(s: State, t: State, out: multiset<Waiter>) {
    t.registered == s.registered && t.left == s.left + out && t.answered == s.answered + out && t.strays == s.strays
  }

  ghost predicate Next(s: State, e: Event, t: State) {
    match e
    case Register(w) =>
      Accepted(w) && s.registered[w] == 0 &&
      t == s.(table := Registered(s.table, w), registered := s.registered + multiset{w})
    case Respond(domain) =>
      t.table == Without(s.table, Lower(domain)) && Departs(s, t, multiset(At(s.table, Lower(domain))))
    case Sweep(start, clock) =>
      t.table == Swept(start, clock, s.table) && exists out: multiset<Waiter> ::
        Departs(s, t, out) && forall w :: out[w] == if IsOld(start, clock, w) then Count(s.table, w) else 0
    case WriteFailed(w) =>
      Accepted(w) && s.registered[w] == 1 && t.table == Cancelled(s.table, w) &&
      var here := if Count(s.table, w) > 0 then multiset{w} else multiset{};
      t == s.(table := t.table, left := s.left + here, answered := s.answered + multiset{w},
              strays := s.strays + (multiset{w} - here))
    case Shutdown =>
      t.table == map[] && exists out: multiset<Waiter> :: Departs(s, t, out) && forall w :: out[w] == Count(s.table, w)
  }

  /** What every interleaving keeps. */
  ghost predicate Sound(s: State) {
    Ordered(s.table) && forall w :: SoundFor(s, w)
  }

  /** A waiter was registered at most once, and is then either in the table or has left it, once. It was
      answered when it left, and once more for every failed write that came too late. */
  ghost predicate SoundFor(s: State, w: Waiter) {
    && Count(s.table, w) + s.left[w] == s.registered[w] <= 1
    && s.answered[w] == s.left[w] + s.strays[w]
    && (s.strays[w] > 0 ==> s.left[w] == 1)
  }

  lemma RegisteredOrdered(table: Table, w: Waiter)
    requires Ordered(table) && Accepted(w)
    ensures Ordered(Registered(table, w))
  {
    var key := KeyOf(w);
    var list := At(table, key) + [w];
    forall x | x in list ensures Accepted(x) && KeyOf(x) == key { assert x == w || x in At(table, key); }
  }

  lemma RegisteredCount(table: Table, w: Waiter, x: Waiter)
    requires Accepted(w)
    ensures Count(Registered(table, w), x) == Count(table, x) + if x == w then 1 else 0
  {
    var list := At(table, KeyOf(w));
    assert multiset(list + [w])[x] == multiset(list)[x] + multiset([w])[x];
  }

  lemma RegisterKeeps(s: State, w: Waiter, t: State)
    requires Sound(s) && Next(s, Register(w), t)
    ensures Sound(t)
  {
    RegisteredOrdered(s.table, w);
    forall x ensures SoundFor(t, x) {
      assert SoundFor(s, x);
      RegisteredCount(s.table, w, x);
    }
  }

  lemma RespondKeeps(s: State, domain: Name, t: State)
    requires Sound(s) && Next(s, Respond(domain), t)
    ensures Sound(t)
  {
    var key := Lower(domain);
    forall x ensures SoundFor(t, x) {
      assert SoundFor(s, x);
      if key in s.table { OwnKeyOnly(s.table, key, x); }
    }
  }

  lemma SweepKeeps(s: State, start: int, clock: map<Waiter, int>, t: State)
    requires Sound(s) && Next(s, Sweep(start, clock), t)
    ensures Sound(t)
  {
    forall key | key in t.table ensures AllOwn(t.table[key], key) {
      forall x | x in t.table[key] ensures Accepted(x) && KeyOf(x) == key {
        InCount(t.table[key], x);
        SweepCounts(start, clock, s.table[key], x);
        InCount(s.table[key], x);
      }
    }
    forall x ensures SoundFor(t, x) {
      assert SoundFor(s, x);
      SweptCount(start, clock, s.table, x);
    }
  }

  lemma SweptCount(start: int, clock: map<Waiter, int>, table: Table, w: Waiter)
    ensures Count(Swept(start, clock, table), w) == if IsOld(start, clock, w) then 0 else Count(table, w)
  {
    if Accepted(w) && KeyOf(w) in table { SweepCounts(start, clock, table[KeyOf(w)], w); }
  }

  lemma CancelKeepsOrder(table: Table, w: Waiter)
    requires Ordered(table) && Accepted(w)
    ensures Ordered(Cancelled(table, w))
  {
    var key := KeyOf(w);
    var list := Drop(At(table, key), w);
    forall x | x in list ensures Accepted(x) && KeyOf(x) == key {
      InCount(list, x);
      DropCounts(At(table, key), w, x);
      InCount(At(table, key), x);
    }
  }

  lemma CancelledCount(table: Table, w: Waiter, x: Waiter)
    requires Accepted(w)
    ensures Count(Cancelled(table, w), x) == Count(table, x) - if x == w && Count(table, w) > 0 then 1 else 0
  {
    var key := KeyOf(w);
    DropCounts(At(table, key), w, x);
    InCount(At(table, key), w);
    if Accepted(x) && KeyOf(x) == key {
      assert At(Cancelled(table, w), key) == Drop(At(table, key), w);
    }
  }

  lemma WriteFailedKeeps(s: State, w: Waiter, t: State)
    requires Sound(s) && Next(s, WriteFailed(w), t)
    ensures Sound(t)
  {
    CancelKeepsOrder(s.table, w);
    assert SoundFor(s, w);
    forall x ensures SoundFor(t, x) {
      assert SoundFor(s, x);
      CancelledCount(s.table, w, x);
    }
  }

  lemma ShutdownKeeps(s: State, t: State)
    requires Sound(s) && Next(s, Shutdown, t)
    ensures Sound(t)
  {
    forall x ensures SoundFor(t, x) { assert SoundFor(s, x); }
  }

  lemma NextKeeps(s: State, e: Event, t: State)
    requires Sound(s) && Next(s, e, t)
    ensures Sound(t)
  {
    match e
    case Register(w) => RegisterKeeps(s, w, t);
    case Respond(domain) => RespondKeeps(s, domain, t);
    case Sweep(start, clock) => SweepKeeps(s, start, clock, t);
    case WriteFailed(w) => WriteFailedKeeps(s, w, t);
    case Shutdown => ShutdownKeeps(s, t);
  }

  ghost predicate StepAt(states: seq<State>, events: seq<Event>, i: nat)
    requires i < |events| && i + 1 < |states|
  {
    Next(states[i], events[i], states[i + 1])
  }

  ghost predicate IsRun(states: seq<State>, events: seq<Event>) {
    && |states| == |events| + 1
    && states[0] == START
    && forall i :: 0 <= i < |events| ==> StepAt(states, events, i)
  }

  /** Over every interleaving of the five steps, every state on the way is sound. */
  lemma {:induction false} RunsAreSound(states: seq<State>, events: seq<Event>, n: nat)
    requires IsRun(states, events) && n < |states|
    ensures Sound(states[n])
    decreases n
  {
    if n == 0 {
      forall w ensures SoundFor(START, w) {}
    } else {
      RunsAreSound(states, events, n - 1);
      assert StepAt(states, events, n - 1);
      NextKeeps(states[n - 1], events[n - 1], states[n]);
    }
  }

  /** Event `i` is a failed write of `w` that finds `w` gone from the table. */
  ghost predicate TooLate(states: seq<State>, events: seq<Event>, i: nat, w: Waiter)
    requires i < |events| && i < |states|
  {
    events[i] == WriteFailed(w) && Count(states[i].table, w) == 0
  }

  lemma StrayStep(s: State, e: Event, t: State, w: Waiter)
    requires Next(s, e, t)
    ensures t.strays[w] == s.strays[w] + if e == WriteFailed(w) && Count(s.table, w) == 0 then 1 else 0
  {
  }

  lemma {:induction false} StraysAreTooLate(states: seq<State>, events: seq<Event>, n: nat, w: Waiter)
    requires IsRun(states, events) && n < |states|
    ensures states[n].strays[w] > 0 <==> exists i :: 0 <= i < n && TooLate(states, events, i, w)
    decreases n
  {
    if n > 0 {
      StraysAreTooLate(states, events, n - 1, w);
      assert StepAt(states, events, n - 1);
      StrayStep(states[n - 1], events[n - 1], states[n], w);
      assert TooLate(states, events, n - 1, w) <==>
             events[n - 1] == WriteFailed(w) && Count(states[n - 1].table, w) == 0;
    }
  }

  /** A waiter is answered at most once if and only if no failed write of it came after it had left the table;
      in particular in every run without failed writes. */
  lemma AnsweredAtMostOnce(states: seq<State>, events: seq<Event>, n: nat, w: Waiter)
    requires IsRun(states, events) && n < |states|
    ensures states[n].answered[w] <= 1 <==> !exists i :: 0 <= i < n && TooLate(states, events, i, w)
  {
    RunsAreSound(states, events, n);
    assert SoundFor(states[n], w);
    StraysAreTooLate(states, events, n, w);
  }

  /** The other side really happens: an answer that overtakes a failed write. */
  lemma LateFailureAnswersTwice(w: Waiter) returns (states: seq<State>, events: seq<Event>)
    requires Accepted(w)
    ensures IsRun(states, events) && states[|events|].answered[w] == 2
  {
    var key := KeyOf(w);
    var domain := QueryQuestion(w.query).value.domain;
    var s1 := START.(table := map[key := [w]], registered := multiset{w});
    var s2 := State(map[], multiset{w}, multiset{w}, multiset{w}, multiset{});
    var s3 := State(map[], multiset{w}, multiset{w}, multiset{w, w}, multiset{w});
    states, events := [START, s1, s2, s3], [Register(w), Respond(domain), WriteFailed(w)];
    assert Registered(START.table, w) == s1.table by { assert At(START.table, key) + [w] == [w]; }
    assert StepAt(states, events, 0);
    assert Without(s1.table, key) == map[];
    assert multiset([w]) == multiset{w};
    assert StepAt(states, events, 1);
    assert Cancelled(s2.table, w) == map[];
    assert StepAt(states, events, 2);
  }

  /** A response takes exactly the waiters of its name, every one of them and nobody else. */
  lemma ResponseServesItsName(s: State, domain: Name, t: State, w: Waiter)
    requires Sound(s) && Next(s, Respond(domain), t)
    ensures t.left[w] - s.left[w] == if Accepted(w) && KeyOf(w) == Lower(domain) then Count(s.table, w) else 0
    ensures Count(t.table, w) == if Accepted(w) && KeyOf(w) == Lower(domain) then 0 else Count(s.table, w)
  {
    if Lower(domain) in s.table { OwnKeyOnly(s.table, Lower(domain), w); }
  }

  /** After a sweep nobody has been waiting for more than five seconds when it started, and it
      took nobody whose time was not up when looked at. */
  lemma SweepLeavesNoneOld(s: State, start: int, clock: map<Waiter, int>, t: State, w: Waiter)
    requires Sound(s) && Next(s, Sweep(start, clock), t)
    ensures Count(t.table, w) > 0 ==> start - w.at <= 5 * 1_000_000_000
    ensures t.left[w] > s.left[w] ==> Reading(start, clock, w) - w.at > 5 * 1_000_000_000
  {
    SweptCount(start, clock, s.table, w);
  }
}
