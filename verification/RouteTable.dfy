/**
  What longest-prefix routing means. `Scan` walks the inserted prefixes in order and compares them with
  the address as numbers. `LongestMatch` asks a table keyed by bit strings, which is what the trie
  implements. Both give the same answer.
 */
module RouteTable {
  import opened Basics
  import opened Bytes
  import opened Addresses

  datatype Route<R> = Route(net: seq<byte>, len: nat, target: R)

  ghost predicate WellFormed<R>(history: seq<Route<R>>) {
    forall i :: 0 <= i < |history| ==> |history[i].net| == 4 && history[i].len <= 32
  }

  ghost function Key<R>(r: Route<R>): Bits
    requires |r.net| == 4 && r.len <= 32
  {
    Leading(r.net, r.len)
  }

  ghost function Front<T>(s: seq<T>): seq<T>
    requires s != []
  {
    s[..|s| - 1]
  }

  ghost function Last<T>(s: seq<T>): T
    requires s != []
  {
    s[|s| - 1]
  }

  /** The table after a history of inserts. */
  ghost function TableOf<R>(history: seq<Route<R>>): map<Bits, R>
    requires WellFormed(history)
    decreases |history|
  {
    if history == [] then map[] else TableOf(Front(history))[Key(Last(history)) := Last(history).target]
  }

  /** The longest leading part of `bits` that is in the table. */
  ghost function LongestMatch<R>(table: map<Bits, R>, bits: Bits): Option<R>
    decreases |bits|
  {
    if bits in table then Some(table[bits])
    else if bits == [] then None
    else LongestMatch(table, Front(bits))
  }

  datatype Best<R> = NoRoute | Best(len: nat, target: R)

  function Target<R>(b: Best<R>): Option<R> {
    if b.NoRoute? then None else Some(b.target)
  }

  /** Keep the longest prefix that contains the address; among equal lengths the later insert wins. */
  ghost function Scan<R>(history: seq<Route<R>>, ip: seq<byte>): Best<R>
    requires WellFormed(history) && |ip| == 4
    decreases |history|
  {
    if history == [] then NoRoute
    else
      var last, best := Last(history), Scan(Front(history), ip);
      if Contains(last.net, last.len, ip) && (best.NoRoute? || last.len >= best.len) then Best(last.len, last.target)
      else best
  }

  // ---------------------------------------------------------------- both agree

  /** `best` is right for a table: the entry at its length is the target, and no longer one matches. */
  ghost predicate RightFor<R>(table: map<Bits, R>, bits: Bits, best: Best<R>) {
    && (best.Best? ==> best.len <= |bits| && bits[..best.len] in table && table[bits[..best.len]] == best.target)
    && forall k :: 0 <= k <= |bits| && (best.NoRoute? || k > best.len) ==> bits[..k] !in table
  }

  lemma {:induction false} RightIsLongest<R>(table: map<Bits, R>, bits: Bits, best: Best<R>)
    requires RightFor(table, bits, best)
    ensures LongestMatch(table, bits) == Target(best)
    decreases |bits|
  {
    assert bits[..|bits|] == bits;
    if bits !in table && bits != [] {
      forall k | 0 <= k <= |bits| - 1 ensures Front(bits)[..k] == bits[..k] {}
      RightIsLongest(table, Front(bits), best);
    }
  }

  lemma AddOne<R>(table: map<Bits, R>, bits: Bits, best: Best<R>, key: Bits, target: R)
    requires RightFor(table, bits, best)
    ensures RightFor(table[key := target], bits,
                     if key <= bits && (best.NoRoute? || |key| >= best.len) then Best(|key|, target) else best)
  {
    if key <= bits {
      assert bits[..|key|] == key;
      forall k | 0 <= k <= |bits| && k != |key| ensures bits[..k] != key { assert |bits[..k]| == k; }
    } else {
      forall k | 0 <= k <= |bits| ensures bits[..k] != key { assert bits[..k] <= bits; }
    }
  }

  lemma ContainsIsPrefix(net: seq<byte>, len: nat, ip: seq<byte>)
    requires |net| == 4 && |ip| == 4 && len <= 32
    ensures Contains(net, len, ip) <==> Leading(net, len) <= Leading(ip, 32)
  {
    ContainsIsLeading(net, len, ip);
    LeadingPrefix(ip, 32, len);
  }

  lemma {:induction false} ScanIsRight<R>(history: seq<Route<R>>, ip: seq<byte>)
    requires WellFormed(history) && |ip| == 4
    ensures RightFor(TableOf(history), Leading(ip, 32), Scan(history, ip))
    decreases |history|
  {
    if history != [] {
      var last := Last(history);
      ScanIsRight(Front(history), ip);
      ContainsIsPrefix(last.net, last.len, ip);
      AddOne(TableOf(Front(history)), Leading(ip, 32), Scan(Front(history), ip), Key(last), last.target);
    }
  }

  /** Looking up the table of a history is the linear scan of that history. */
  lemma LookupIsScan<R>(history: seq<Route<R>>, ip: seq<byte>)
    requires WellFormed(history) && |ip| == 4
    ensures LongestMatch(TableOf(history), Leading(ip, 32)) == Target(Scan(history, ip))
  {
    ScanIsRight(history, ip);
    RightIsLongest(TableOf(history), Leading(ip, 32), Scan(history, ip));
  }

  // ---------------------------------------------------------------- the order of inserts

  ghost predicate DistinctPrefixes<R>(history: seq<Route<R>>)
    requires WellFormed(history)
  {
    forall i, j :: 0 <= i < j < |history| ==> Key(history[i]) != Key(history[j])
  }

  lemma {:induction false} EntryFromInsert<R>(history: seq<Route<R>>, key: Bits)
    requires WellFormed(history) && key in TableOf(history)
    ensures exists i :: 0 <= i < |history| && Key(history[i]) == key && history[i].target == TableOf(history)[key]
    decreases |history|
  {
    if key == Key(Last(history)) {
      assert history[|history| - 1] == Last(history);
    } else {
      EntryFromInsert(Front(history), key);
      var i :| 0 <= i < |Front(history)| && Key(Front(history)[i]) == key &&
          Front(history)[i].target == TableOf(Front(history))[key];
      assert history[i] == Front(history)[i];
    }
  }

  lemma {:induction false} InsertGivesEntry<R>(history: seq<Route<R>>, i: nat)
    requires WellFormed(history) && DistinctPrefixes(history) && i < |history|
    ensures Key(history[i]) in TableOf(history) && TableOf(history)[Key(history[i])] == history[i].target
    decreases |history|
  {
    if i < |history| - 1 {
      assert Front(history)[i] == history[i];
      InsertGivesEntry(Front(history), i);
    }
  }

  lemma EntriesCarryOver<R>(h1: seq<Route<R>>, h2: seq<Route<R>>, key: Bits)
    requires WellFormed(h1) && WellFormed(h2) && DistinctPrefixes(h2)
    requires forall r :: r in h1 ==> r in h2
    requires key in TableOf(h1)
    ensures key in TableOf(h2) && TableOf(h2)[key] == TableOf(h1)[key]
  {
    EntryFromInsert(h1, key);
    var i :| 0 <= i < |h1| && Key(h1[i]) == key && h1[i].target == TableOf(h1)[key];
    assert h1[i] in h2;
    var j :| 0 <= j < |h2| && h2[j] == h1[i];
    InsertGivesEntry(h2, j);
  }

  /** Without equal prefixes the order of the inserts does not matter. */
  lemma OrderDoesNotMatter<R>(h1: seq<Route<R>>, h2: seq<Route<R>>, ip: seq<byte>)
    requires WellFormed(h1) && WellFormed(h2) && |ip| == 4
    requires DistinctPrefixes(h1) && DistinctPrefixes(h2)
    requires forall r :: r in h1 <==> r in h2
    ensures Target(Scan(h1, ip)) == Target(Scan(h2, ip))
  {
    forall key | key in TableOf(h1) ensures key in TableOf(h2) && TableOf(h2)[key] == TableOf(h1)[key] {
      EntriesCarryOver(h1, h2, key);
    }
    forall key | key in TableOf(h2) ensures key in TableOf(h1) { EntriesCarryOver(h2, h1, key); }
    assert TableOf(h1) == TableOf(h2);
    LookupIsScan(h1, ip);
    LookupIsScan(h2, ip);
  }
}
