/** The running fake-IP pool and its bucket, proved against the pool states of `FakeIpPool`. */
module FakeIpService {
  import opened Shifts
  import opened FakeIpPool

  /** The persisted two-way index. Each write is its own transaction; here all of them succeed. */
  class FakeIpBucket {
    var records: Bucket

    constructor ()
      ensures records == map[]
    {
      records := map[];
    }

    method PutFakeIP(domain: string, ip: int)
      modifies this
      ensures records == Put(old(records), domain, ip)
    {
      records := records[DomainKey(domain) := Entry(ip, domain)];
      records := records[IpKey(ip) := DomainOf(domain)];
    }

    method DeleteFakeIP(domain: string, ip: int)
      modifies this
      ensures records == Deleted(old(records), domain, ip)
    {
      records := records - {DomainKey(domain)};
      records := records - {IpKey(ip)};
    }

    /** Only the "domain:" keys give entries; the order is that of the bucket. */
    method GetAllFakeIPs() returns (entries: seq<Record>)
      requires OwnRecords(records)
      ensures Lists(entries, records)
    {
      var todo := records.Keys;
      entries := [];
      while todo != {}
        invariant todo <= records.Keys
        invariant forall i :: 0 <= i < |entries| ==> entries[i].Entry? && DomainKey(entries[i].domain) !in todo
        invariant forall i, j :: 0 <= i < j < |entries| ==> entries[i] != entries[j]
        invariant forall e :: e in entries ==>
                    e.Entry? && DomainKey(e.domain) in records && records[DomainKey(e.domain)] == e
        invariant forall k :: k in records && k !in todo && k.DomainKey? ==> records[k] in entries
      {
        var k :| k in todo;
        todo := todo - {k};
        if k.DomainKey? { entries := entries + [records[k]]; }
      }
    }
  }

  class FakeIPPool {
    ghost const range: Range
    const poolStart: int
    const poolEnd: int
    const reserved: set<int>
    var domainToIP: map<string, int>
    var ipToDomain: map<int, string>
    var nextIP: int
    const bucket: FakeIpBucket

    ghost predicate Valid() {
      && range.Valid()
      && poolStart == range.start && poolEnd == range.End()
      && forall ip :: range.Contains(ip) ==> (ip in reserved <==> !range.Allocatable(ip))
    }

    function State(): Pool
      reads this
    {
      Pool(domainToIP, ipToDomain, nextIP)
    }

    /** A subnet with its network and broadcast address and the first `skip` addresses set aside. */
    constructor (r: Range, bucket: FakeIpBucket)
      requires r.Valid()
      ensures Valid() && range == r && this.bucket == bucket
      ensures State() == Fresh(r) && Sound(r, State())
      ensures poolStart == r.start && poolEnd == r.start + Pow2(r.hostBits) - 1 && nextIP == r.start + r.skip + 1
      ensures forall ip :: ip in reserved <==> ip == poolEnd || r.start <= ip <= r.start + r.skip
    {
      var total := Pow2(r.hostBits);
      var start, end := r.start, r.start + total - 1;
      var taken := {start, end};
      for i := 0 to r.skip + 1
        invariant forall k :: k in taken <==> k == start || k == end || start <= k < start + i
      {
        taken := taken + {start + i};
      }
      range, poolStart, poolEnd, reserved := r, start, end, taken;
      domainToIP, ipToDomain, nextIP := map[], map[], start + r.skip + 1;
      this.bucket := bucket;
    }

    /** The address of a domain, allocating one if it has none. */
    method Lookup(domain: string) returns (ip: int)
      requires Valid() && Sound(range, State())
      modifies this, bucket
      ensures State() == Looked(range, old(State()), domain) && Sound(range, State())
      ensures domain in domainToIP && ip == domainToIP[domain] && ip !in reserved && poolStart <= ip <= poolEnd
      ensures bucket.records == BucketAfter(range, old(State()), old(bucket.records), Op.Lookup(domain))
    {
      LookedSound(range, State(), domain);
      if domain in domainToIP { return domainToIP[domain]; }
      ip := Advance();
      if ip in ipToDomain {
        var oldDomain := ipToDomain[ip];
        domainToIP := domainToIP - {oldDomain};
        bucket.DeleteFakeIP(oldDomain, ip);
      }
      domainToIP := domainToIP[domain := ip];
      ipToDomain := ipToDomain[ip := domain];
      bucket.PutFakeIP(domain, ip);
    }

    /** The allocation loop: step over reserved addresses, wrapping at the end of the pool. It ends
        because an allocatable address exists. */
    method Advance() returns (ip: int)
      requires Valid() && range.Contains(nextIP)
      modifies this`nextIP
      ensures ip == range.Settles(old(nextIP)) && range.Allocatable(ip) && nextIP == ip + 1
    {
      while true
        invariant range.Contains(nextIP) && range.Settles(nextIP) == range.Settles(old(nextIP))
        decreases if range.Allocatable(nextIP) then 0
                  else if nextIP < range.First() then range.First() - nextIP
                  else range.First() - range.start + 1
      {
        ip := nextIP;
        nextIP := nextIP + 1;
        if nextIP > poolEnd { nextIP := poolStart; }
        if ip !in reserved { return; }
      }
    }

    method Release(domain: string)
      requires Valid() && Sound(range, State())
      modifies this, bucket
      ensures State() == Released(old(State()), domain) && Sound(range, State())
      ensures bucket.records == BucketAfter(range, old(State()), old(bucket.records), Op.Release(domain))
    {
      ReleasedSound(range, State(), domain);
      if domain in domainToIP {
        var ip := domainToIP[domain];
        ipToDomain := ipToDomain - {ip};
        domainToIP := domainToIP - {domain};
        bucket.DeleteFakeIP(domain, ip);
      }
    }

    /** Reads the stored records back, whatever they are, in the order `entries` in which they come. */
    method LoadFromDB() returns (ghost entries: seq<Record>)
      requires Valid() && OwnRecords(bucket.records)
      modifies this
      ensures Lists(entries, bucket.records) && State() == Load(range, old(State()), entries)
      ensures old(State()) == Fresh(range) ==> (Sound(range, State()) <==> Loadable(range, entries))
    {
      var mappings := bucket.GetAllFakeIPs();
      ghost var before := State();
      for i := 0 to |mappings|
        invariant State() == Load(range, before, mappings[..i])
      {
        assert mappings[..i + 1][..i] == mappings[..i];
        LoadEntry(mappings[i]);
      }
      assert mappings[..|mappings|] == mappings;
      entries := mappings;
      LoadIsSoundExactly(range, entries);
    }

    /** An address outside the pool is skipped; one inside is taken as it is, and the cursor moves past it. */
    method LoadEntry(e: Record)
      requires Valid() && e.Entry?
      modifies this
      ensures State() == LoadOne(range, old(State()), e)
    {
      if poolStart <= e.ip <= poolEnd {
        domainToIP := domainToIP[e.domain := e.ip];
        ipToDomain := ipToDomain[e.ip := e.domain];
        if e.ip >= nextIP {
          nextIP := e.ip + 1;
          if nextIP > poolEnd { nextIP := poolStart; }
        }
      }
    }

    /** Inside the pool and not one of the reserved addresses. */
    predicate InAllocRange(ip: int)
      requires Valid()
      ensures InAllocRange(ip) <==> range.Allocatable(ip)
    {
      poolStart <= ip <= poolEnd && ip !in reserved
    }
  }
}
