/**
  The fake-IP pool: a circular allocator over a subnet with its first addresses and its ends reserved,
  two maps between domains and addresses, and a store that mirrors them so that a restart finds the
  same mappings again. Addresses are 32-bit numbers.
 */
module FakeIpPool {
  import opened Shifts

  // ---------------------------------------------------------------- the range

  /** A subnet at `start`, of 2^hostBits addresses, whose addresses up to `start + skip` are reserved. */
  datatype Range = Range(start: nat, hostBits: nat, skip: nat) {
    function End(): int { start + Pow2(hostBits) - 1 }
    function First(): int { start + skip + 1 }
    /** Number of allocatable addresses. */
    function Size(): int { End() - First() }
    /** There is an allocatable address, and the cursor cannot wrap around the 32-bit type. */
    ghost predicate Valid() { First() < End() < 0xffff_ffff }
    predicate Allocatable(ip: int) { First() <= ip < End() }
    predicate Contains(ip: int) { start <= ip <= End() }
    /** The address the allocation loop settles on when the cursor is at `c`. */
    function Settles(c: int): int { if Allocatable(c) then c else First() }
  }

  // ---------------------------------------------------------------- pool states

  datatype Pool = Pool(byDomain: map<string, int>, byIp: map<int, string>, next: int)

  ghost predicate Inverse(p: Pool) {
    && (forall d :: d in p.byDomain ==> p.byDomain[d] in p.byIp && p.byIp[p.byDomain[d]] == d)
    && forall ip :: ip in p.byIp ==> p.byIp[ip] in p.byDomain && p.byDomain[p.byIp[ip]] == ip
  }

  /** What every reachable pool satisfies. */
  ghost predicate Sound(r: Range, p: Pool) {
    && Inverse(p)
    && (forall ip :: ip in p.byIp ==> r.Allocatable(ip))
    && r.Contains(p.next)
  }

  function Fresh(r: Range): Pool {
    Pool(map[], map[], r.First())
  }

  /** `domain` gets address `ip`; whoever had it before is evicted. */
  function Assigned(p: Pool, domain: string, ip: int): Pool {
    Pool((if ip in p.byIp then p.byDomain - {p.byIp[ip]} else p.byDomain)[domain := ip], p.byIp[ip := domain], ip + 1)
  }

  function Looked(r: Range, p: Pool, domain: string): Pool {
    if domain in p.byDomain then p else Assigned(p, domain, r.Settles(p.next))
  }

  function Released(p: Pool, domain: string): Pool {
    if domain in p.byDomain then p.(byDomain := p.byDomain - {domain}, byIp := p.byIp - {p.byDomain[domain]}) else p
  }

  lemma LookedSound(r: Range, p: Pool, domain: string)
    requires r.Valid() && Sound(r, p)
    ensures Sound(r, Looked(r, p, domain))
    ensures domain in Looked(r, p, domain).byDomain
  {
  }

  lemma ReleasedSound(r: Range, p: Pool, domain: string)
    requires Sound(r, p)
    ensures Sound(r, Released(p, domain))
    ensures domain !in Released(p, domain).byDomain
  {
  }

  // ---------------------------------------------------------------- how long a mapping lasts

  datatype Op = Lookup(domain: string) | Release(domain: string)

  function Apply(r: Range, p: Pool, op: Op): Pool {
    match op
    case Lookup(d) => Looked(r, p, d)
    case Release(d) => Released(p, d)
  }

  function Run(r: Range, p: Pool, ops: seq<Op>): Pool
    decreases |ops|
  {
    if ops == [] then p else Run(r, Apply(r, p, ops[0]), ops[1..])
  }

  predicate Allocates(p: Pool, op: Op) {
    op.Lookup? && op.domain !in p.byDomain
  }

  /** How many lookups of a run hand out an address. */
  function NewAllocations(r: Range, p: Pool, ops: seq<Op>): nat
    decreases |ops|
  {
    if ops == [] then 0
    else (if Allocates(p, ops[0]) then 1 else 0) + NewAllocations(r, Apply(r, p, ops[0]), ops[1..])
  }

  /** How many other allocatable addresses the cursor meets before `ip`. */
  function Gap(r: Range, p: Pool, ip: int): int {
    var c := r.Settles(p.next);
    if c <= ip then ip - c else ip - c + r.Size()
  }

  /** Every state of every run is sound: the maps are inverse, addresses allocatable, the cursor in range. */
  lemma {:induction false} RunsAreSound(r: Range, p: Pool, ops: seq<Op>)
    requires r.Valid() && Sound(r, p)
    ensures Sound(r, Run(r, p, ops))
    decreases |ops|
  {
    if ops != [] {
      match ops[0] {
        case Lookup(d) => LookedSound(r, p, d);
        case Release(d) => ReleasedSound(r, p, d);
      }
      RunsAreSound(r, Apply(r, p, ops[0]), ops[1..]);
    }
  }

  /** An allocation is the only step that costs a mapping anything, and it costs one. */
  lemma StepKeepsMapping(r: Range, p: Pool, op: Op, domain: string)
    requires r.Valid() && Sound(r, p) && domain in p.byDomain && op != Release(domain)
    requires Allocates(p, op) ==> Gap(r, p, p.byDomain[domain]) > 0
    ensures domain in Apply(r, p, op).byDomain && Apply(r, p, op).byDomain[domain] == p.byDomain[domain]
    ensures Gap(r, Apply(r, p, op), p.byDomain[domain]) ==
            Gap(r, p, p.byDomain[domain]) - (if Allocates(p, op) then 1 else 0)
  {
  }

  lemma {:induction false} MappingLasts(r: Range, p: Pool, ops: seq<Op>, domain: string)
    requires r.Valid() && Sound(r, p) && domain in p.byDomain
    requires Release(domain) !in ops
    requires NewAllocations(r, p, ops) <= Gap(r, p, p.byDomain[domain])
    ensures domain in Run(r, p, ops).byDomain && Run(r, p, ops).byDomain[domain] == p.byDomain[domain]
    decreases |ops|
  {
    if ops != [] {
      assert ops[0] in ops;
      StepKeepsMapping(r, p, ops[0], domain);
      RunsAreSound(r, p, [ops[0]]);
      assert Run(r, p, [ops[0]]) == Apply(r, p, ops[0]) by { assert [ops[0]][1..] == []; }
      MappingLasts(r, Apply(r, p, ops[0]), ops[1..], domain);
    }
  }

  /** A new mapping survives the next N-1 allocations of a pool of N addresses, whatever lookups and
      releases of other domains happen in between. */
  lemma NewMappingSurvives(r: Range, p: Pool, domain: string, ops: seq<Op>)
    requires r.Valid() && Sound(r, p) && domain !in p.byDomain
    requires Release(domain) !in ops
    requires NewAllocations(r, Looked(r, p, domain), ops) <= r.Size() - 1
    ensures var ip := Looked(r, p, domain).byDomain[domain];
            var q := Run(r, Looked(r, p, domain), ops);
            domain in q.byDomain && q.byDomain[domain] == ip && ip in q.byIp && q.byIp[ip] == domain
  {
    LookedSound(r, p, domain);
    var p' := Looked(r, p, domain);
    MappingLasts(r, p', ops, domain);
    RunsAreSound(r, p', ops);
  }

  /** And that is tight: with no gap left the next allocation takes the address over. */
  lemma NextAllocationEvicts(r: Range, p: Pool, domain: string, other: string)
    requires r.Valid() && Sound(r, p) && domain in p.byDomain && other !in p.byDomain
    requires Gap(r, p, p.byDomain[domain]) == 0
    ensures domain !in Looked(r, p, other).byDomain
    ensures Looked(r, p, other).byDomain[other] == p.byDomain[domain]
  {
  }

  // ---------------------------------------------------------------- the store

  /** The keys "domain:<domain>" and "ip:<ip>" of the bucket, and what is stored under them. */
  datatype Key = DomainKey(domain: string) | IpKey(ip: int)
  datatype Record = Entry(ip: int, domain: string) | DomainOf(domain: string)

  type Bucket = map<Key, Record>

  function Put(b: Bucket, domain: string, ip: int): Bucket {
    b[DomainKey(domain) := Entry(ip, domain)][IpKey(ip) := DomainOf(domain)]
  }

  function Deleted(b: Bucket, domain: string, ip: int): Bucket {
    b - {DomainKey(domain)} - {IpKey(ip)}
  }

  /** The bucket holds the two maps and nothing else. */
  ghost predicate Mirrors(b: Bucket, p: Pool) {
    && (forall d :: DomainKey(d) in b <==> d in p.byDomain)
    && (forall d :: d in p.byDomain ==> b[DomainKey(d)] == Entry(p.byDomain[d], d))
    && (forall ip :: IpKey(ip) in b <==> ip in p.byIp)
    && (forall ip :: ip in p.byIp ==> b[IpKey(ip)] == DomainOf(p.byIp[ip]))
  }

  function BucketAfter(r: Range, p: Pool, b: Bucket, op: Op): Bucket {
    match op
    case Lookup(d) =>
      if d in p.byDomain then b
      else
        var ip := r.Settles(p.next);
        Put(if ip in p.byIp then Deleted(b, p.byIp[ip], ip) else b, d, ip)
    case Release(d) => if d in p.byDomain then Deleted(b, d, p.byDomain[d]) else b
  }

  function BucketRun(r: Range, p: Pool, b: Bucket, ops: seq<Op>): Bucket
    decreases |ops|
  {
    if ops == [] then b else BucketRun(r, Apply(r, p, ops[0]), BucketAfter(r, p, b, ops[0]), ops[1..])
  }

  lemma PutMirrors(b: Bucket, p: Pool, q: Pool, domain: string, ip: int)
    requires Mirrors(b, p) && domain !in p.byDomain && ip !in p.byIp
    requires q.byDomain == p.byDomain[domain := ip] && q.byIp == p.byIp[ip := domain]
    ensures Mirrors(Put(b, domain, ip), q)
  {
  }

  lemma DeletedMirrors(b: Bucket, p: Pool, q: Pool, domain: string, ip: int)
    requires Mirrors(b, p)
    requires q.byDomain == p.byDomain - {domain} && q.byIp == p.byIp - {ip}
    ensures Mirrors(Deleted(b, domain, ip), q)
  {
  }

  lemma StepKeepsMirror(r: Range, p: Pool, b: Bucket, op: Op)
    requires r.Valid() && Sound(r, p) && Mirrors(b, p)
    ensures Sound(r, Apply(r, p, op)) && Mirrors(BucketAfter(r, p, b, op), Apply(r, p, op))
  {
    match op
    case Lookup(d) =>
      LookedSound(r, p, d);
      if d !in p.byDomain {
        var ip, q := r.Settles(p.next), Looked(r, p, d);
        if ip in p.byIp {
          var evicted := Pool(p.byDomain - {p.byIp[ip]}, p.byIp - {ip}, p.next);
          DeletedMirrors(b, p, evicted, p.byIp[ip], ip);
          assert q.byIp == evicted.byIp[ip := d];
          PutMirrors(Deleted(b, p.byIp[ip], ip), evicted, q, d, ip);
        } else {
          PutMirrors(b, p, q, d, ip);
        }
      }
    case Release(d) =>
      ReleasedSound(r, p, d);
      if d in p.byDomain { DeletedMirrors(b, p, Released(p, d), d, p.byDomain[d]); }
  }

  /** With successful writes the bucket mirrors the maps after any run. */
  lemma {:induction false} RunKeepsMirror(r: Range, p: Pool, b: Bucket, ops: seq<Op>)
    requires r.Valid() && Sound(r, p) && Mirrors(b, p)
    ensures Mirrors(BucketRun(r, p, b, ops), Run(r, p, ops))
    decreases |ops|
  {
    if ops != [] {
      StepKeepsMirror(r, p, b, ops[0]);
      RunKeepsMirror(r, Apply(r, p, ops[0]), BucketAfter(r, p, b, ops[0]), ops[1..]);
    }
  }

  // ---------------------------------------------------------------- loading

  function CursorPast(r: Range, next: int, ip: int): int {
    if ip < next then next else if ip + 1 > r.End() then r.start else ip + 1
  }

  function LoadOne(r: Range, p: Pool, e: Record): Pool
    requires e.Entry?
  {
    if !r.Contains(e.ip) then p
    else Pool(p.byDomain[e.domain := e.ip], p.byIp[e.ip := e.domain], CursorPast(r, p.next, e.ip))
  }

  function Load(r: Range, p: Pool, entries: seq<Record>): Pool
    requires forall i :: 0 <= i < |entries| ==> entries[i].Entry?
  {
    if entries == [] then p else LoadOne(r, Load(r, p, entries[..|entries| - 1]), entries[|entries| - 1])
  }

  /** `entries` lists the domain records of a bucket, each once, in some order. */
  ghost predicate Lists(entries: seq<Record>, b: Bucket) {
    && (forall i :: 0 <= i < |entries| ==> entries[i].Entry?)
    && (forall i, j :: 0 <= i < j < |entries| ==> entries[i] != entries[j])
    && forall e :: e in entries <==> e.Entry? && DomainKey(e.domain) in b && b[DomainKey(e.domain)] == e
  }

  /** `q` has exactly the mappings of `p` that `entries` lists, and a cursor past them. */
  ghost predicate LoadedSoFar(r: Range, p: Pool, entries: seq<Record>, q: Pool) {
    && (forall d :: d in q.byDomain <==> d in p.byDomain && Entry(p.byDomain[d], d) in entries)
    && (forall d :: d in q.byDomain ==> q.byDomain[d] == p.byDomain[d])
    && (forall ip :: ip in q.byIp <==> ip in p.byIp && Entry(ip, p.byIp[ip]) in entries)
    && (forall ip :: ip in q.byIp ==> q.byIp[ip] == p.byIp[ip] && ip < q.next)
    && r.First() <= q.next <= r.End()
  }

  lemma LoadOneMore(r: Range, p: Pool, front: seq<Record>, q: Pool, e: Record)
    requires r.Valid() && Sound(r, p) && LoadedSoFar(r, p, front, q)
    requires e.Entry? && e.domain in p.byDomain && p.byDomain[e.domain] == e.ip
    ensures LoadedSoFar(r, p, front + [e], LoadOne(r, q, e))
  {
    assert e.ip in p.byIp && p.byIp[e.ip] == e.domain;
    assert forall x :: x in front + [e] <==> x in front || x == e;
  }

  lemma {:induction false} LoadExactly(r: Range, p: Pool, entries: seq<Record>)
    requires r.Valid() && Sound(r, p)
    requires forall i :: 0 <= i < |entries| ==>
               entries[i].Entry? && entries[i].domain in p.byDomain && p.byDomain[entries[i].domain] == entries[i].ip
    ensures LoadedSoFar(r, p, entries, Load(r, Fresh(r), entries))
    decreases |entries|
  {
    if entries != [] {
      var front, e := entries[..|entries| - 1], entries[|entries| - 1];
      LoadExactly(r, p, front);
      LoadOneMore(r, p, front, Load(r, Fresh(r), front), e);
      assert entries == front + [e];
    }
  }

  lemma AllListed(r: Range, p: Pool, b: Bucket, entries: seq<Record>)
    requires Sound(r, p) && Mirrors(b, p) && Lists(entries, b)
    ensures forall i :: 0 <= i < |entries| ==>
              entries[i].Entry? && entries[i].domain in p.byDomain && p.byDomain[entries[i].domain] == entries[i].ip
    ensures forall d :: d in p.byDomain ==> Entry(p.byDomain[d], d) in entries
    ensures forall ip :: ip in p.byIp ==> Entry(ip, p.byIp[ip]) in entries
  {
    forall i | 0 <= i < |entries|
      ensures entries[i].Entry? && entries[i].domain in p.byDomain && p.byDomain[entries[i].domain] == entries[i].ip
    {
      assert entries[i] in entries;
    }
  }

  lemma MapsAgree<K, V>(a: map<K, V>, b: map<K, V>)
    requires a.Keys == b.Keys && forall k :: k in a.Keys ==> a[k] == b[k]
    ensures a == b
  {
  }

  lemma SameMappings(r: Range, p: Pool, entries: seq<Record>, q: Pool)
    requires LoadedSoFar(r, p, entries, q)
    requires forall d :: d in p.byDomain ==> Entry(p.byDomain[d], d) in entries
    requires forall ip :: ip in p.byIp ==> Entry(ip, p.byIp[ip]) in entries
    ensures q.byDomain == p.byDomain && q.byIp == p.byIp
  {
    assert q.byDomain.Keys <= p.byDomain.Keys && p.byDomain.Keys <= q.byDomain.Keys;
    forall ip: int | ip in p.byIp.Keys ensures ip in q.byIp.Keys { assert Entry(ip, p.byIp[ip]) in entries; }
    forall ip: int | ip in q.byIp.Keys ensures ip in p.byIp.Keys { assert ip in q.byIp; }
    assert q.byIp.Keys == p.byIp.Keys;
    forall ip: int | ip in q.byIp.Keys ensures q.byIp[ip] == p.byIp[ip] { assert ip in q.byIp; }
    MapsAgree(q.byIp, p.byIp);
  }

  /** A restart on the same subnet restores exactly the mappings the bucket mirrors, in whatever order
      they are read, and leaves the cursor in range and past every restored address. */
  lemma LoadRestores(r: Range, p: Pool, b: Bucket, entries: seq<Record>)
    requires r.Valid() && Sound(r, p) && Mirrors(b, p) && Lists(entries, b)
    ensures var q := Load(r, Fresh(r), entries);
            && q.byDomain == p.byDomain && q.byIp == p.byIp && Sound(r, q)
            && forall ip :: ip in q.byIp ==> ip < q.next
  {
    AllListed(r, p, b, entries);
    LoadExactly(r, p, entries);
    SameMappings(r, p, entries, Load(r, Fresh(r), entries));
  }

  // ---------------------------------------------------------------- loading anything

  /** Every domain record is stored under its own domain, as all writes leave it. */
  ghost predicate OwnRecords(b: Bucket) {
    forall d :: DomainKey(d) in b ==> b[DomainKey(d)].Entry? && b[DomainKey(d)].domain == d
  }

  /** Records to be loaded: entries, at most one for a domain. */
  ghost predicate OnePerDomain(entries: seq<Record>) {
    && (forall i :: 0 <= i < |entries| ==> entries[i].Entry?)
    && forall e, f :: e in entries && f in entries && e.domain == f.domain ==> e == f
  }

  ghost predicate Taken(r: Range, entries: seq<Record>, e: Record) {
    e in entries && e.Entry? && r.Contains(e.ip)
  }

  /** `q` has a mapping for every record taken and no other; of several with one address, `byIp` has one. */
  ghost predicate HoldsTaken(r: Range, entries: seq<Record>, q: Pool) {
    && (forall e :: Taken(r, entries, e) ==> e.domain in q.byDomain && q.byDomain[e.domain] == e.ip && e.ip in q.byIp)
    && (forall d :: d in q.byDomain ==> Taken(r, entries, Entry(q.byDomain[d], d)))
    && (forall ip :: ip in q.byIp ==> Taken(r, entries, Entry(ip, q.byIp[ip])))
    && r.Contains(q.next)
  }

  lemma TakeOneMore(r: Range, front: seq<Record>, q: Pool, e: Record)
    requires r.Valid() && OnePerDomain(front + [e]) && HoldsTaken(r, front, q) && e.Entry?
    ensures HoldsTaken(r, front + [e], LoadOne(r, q, e))
  {
    var all, q' := front + [e], LoadOne(r, q, e);
    assert e in all && forall x :: x in all <==> x in front || x == e;
    forall x | Taken(r, all, x)
      ensures x.domain in q'.byDomain && q'.byDomain[x.domain] == x.ip && x.ip in q'.byIp
    {
      if x != e { assert Taken(r, front, x); }
    }
    forall d | d in q'.byDomain ensures Taken(r, all, Entry(q'.byDomain[d], d)) {
      if d in q.byDomain { assert Taken(r, front, Entry(q.byDomain[d], d)); }
    }
    forall ip | ip in q'.byIp ensures Taken(r, all, Entry(ip, q'.byIp[ip])) {
      if ip in q.byIp { assert Taken(r, front, Entry(ip, q.byIp[ip])); }
    }
  }

  lemma {:induction false} LoadHoldsTaken(r: Range, entries: seq<Record>)
    requires r.Valid() && OnePerDomain(entries)
    ensures HoldsTaken(r, entries, Load(r, Fresh(r), entries))
    decreases |entries|
  {
    if entries != [] {
      var front, e := entries[..|entries| - 1], entries[|entries| - 1];
      assert entries == front + [e];
      LoadHoldsTaken(r, front);
      TakeOneMore(r, front, Load(r, Fresh(r), front), e);
    }
  }

  /** Of the records in range all are allocatable, and no two have the same address. */
  ghost predicate Loadable(r: Range, entries: seq<Record>) {
    && (forall e :: Taken(r, entries, e) ==> r.Allocatable(e.ip))
    && forall e, f :: Taken(r, entries, e) && Taken(r, entries, f) && e.ip == f.ip ==> e == f
  }

  /** Loading takes reserved addresses and repeated ones without question: it gives a sound pool if and only
      if the stored records have neither. */
  lemma LoadIsSoundExactly(r: Range, entries: seq<Record>)
    requires r.Valid() && OnePerDomain(entries)
    ensures Sound(r, Load(r, Fresh(r), entries)) <==> Loadable(r, entries)
  {
    LoadHoldsTaken(r, entries);
    var q := Load(r, Fresh(r), entries);
    if Sound(r, q) { SoundIsLoadable(r, entries, q); }
    if Loadable(r, entries) { LoadableIsSound(r, entries, q); }
  }

  /** Records that make an unsound pool: two domains with one address. */
  lemma LoadCanRepeatAnAddress(r: Range)
    requires r.Valid()
    ensures var entries := [Entry(r.First(), "a"), Entry(r.First(), "b")];
            OnePerDomain(entries) && !Sound(r, Load(r, Fresh(r), entries))
  {
    var e, f := Entry(r.First(), "a"), Entry(r.First(), "b");
    assert Taken(r, [e, f], e) && Taken(r, [e, f], f);
    LoadIsSoundExactly(r, [e, f]);
  }

  lemma SoundIsLoadable(r: Range, entries: seq<Record>, q: Pool)
    requires HoldsTaken(r, entries, q) && Sound(r, q)
    ensures Loadable(r, entries)
  {
    forall e, f | Taken(r, entries, e) && Taken(r, entries, f) && e.ip == f.ip ensures e == f {
      assert q.byIp[e.ip] == e.domain && q.byIp[f.ip] == f.domain;
    }
  }

  lemma LoadableIsSound(r: Range, entries: seq<Record>, q: Pool)
    requires HoldsTaken(r, entries, q) && Loadable(r, entries)
    ensures Sound(r, q)
  {
    forall d | d in q.byDomain ensures q.byDomain[d] in q.byIp && q.byIp[q.byDomain[d]] == d {
      var ip := q.byDomain[d];
      assert Taken(r, entries, Entry(ip, d)) && Taken(r, entries, Entry(ip, q.byIp[ip]));
    }
    forall ip | ip in q.byIp ensures q.byIp[ip] in q.byDomain && q.byDomain[q.byIp[ip]] == ip {
      assert Taken(r, entries, Entry(ip, q.byIp[ip]));
    }
  }
}
