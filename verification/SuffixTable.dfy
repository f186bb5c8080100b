/**
  Domain-suffix routing as a table: which suffixes were inserted with which nodes, what it means for a
  suffix to match a domain, and why label paths are the right key.
 */
module SuffixTable {
  import opened Basics
  import opened Dotted

  const DOT: char := '.'

  /** Reversed labels, as the trie is walked: "www.example.com" is ["com", "example", "www"]. */
  type Path = seq<string>

  /** ASCII lower case. */
  function ToLower(s: string): string {
    seq(|s|, i requires 0 <= i < |s| => if 'A' <= s[i] <= 'Z' then s[i] - 'A' + 'a' else s[i])
  }

  /** Lower case without one leading dot. */
  function Normal(s: string): string {
    var l := ToLower(s);
    if l != [] && l[0] == DOT then l[1..] else l
  }

  /** Equal, or the upper and the lower case of one letter. */
  predicate SameLetter(x: char, y: char) {
    || x == y
    || ('A' <= x <= 'Z' && y as int == x as int + 32)
    || ('A' <= y <= 'Z' && x as int == y as int + 32)
  }

  /** Two names have one normal form exactly when, one leading dot aside, they differ only in case. */
  lemma NormalFormsMeet(a: string, b: string, x: string, y: string)
    requires a == "." + x || (a == x && !("." <= a))
    requires b == "." + y || (b == y && !("." <= b))
    ensures Normal(a) == Normal(b) <==> |x| == |y| && forall i :: 0 <= i < |x| ==> SameLetter(x[i], y[i])
  {
    NormalIsLower(a, x);
    NormalIsLower(b, y);
    if Normal(a) == Normal(b) {
      assert |x| == |ToLower(x)| && |y| == |ToLower(y)|;
      forall i | 0 <= i < |x| ensures SameLetter(x[i], y[i]) { assert ToLower(x)[i] == ToLower(y)[i]; }
    }
  }

  lemma NormalIsLower(a: string, x: string)
    requires a == "." + x || (a == x && !("." <= a))
    ensures Normal(a) == ToLower(x)
  {
    var l := ToLower(a);
    if a == "." + x {
      assert a[0] == DOT && l[0] == DOT;
      assert forall i :: 0 <= i < |x| ==> x[i] == a[i + 1];
      assert l[1..] == ToLower(x);
    }
  }

  function Reverse<T>(s: seq<T>): (r: seq<T>)
    ensures |r| == |s|
  {
    if s == [] then [] else Reverse(s[1..]) + [s[0]]
  }

  lemma {:induction false} ReverseAt<T>(s: seq<T>, i: nat)
    requires i < |s|
    ensures Reverse(s)[i] == s[|s| - 1 - i]
  {
    if i < |s| - 1 { ReverseAt(s[1..], i); }
  }

  lemma {:induction false} ReverseAppend<T>(a: seq<T>, b: seq<T>)
    ensures Reverse(a + b) == Reverse(b) + Reverse(a)
  {
    if a == [] {
      assert a + b == b;
    } else {
      assert (a + b)[1..] == a[1..] + b;
      ReverseAppend(a[1..], b);
    }
  }

  lemma {:induction false} ReverseTwice<T>(a: seq<T>)
    ensures Reverse(Reverse(a)) == a
  {
    if a != [] {
      ReverseAppend(Reverse(a[1..]), [a[0]]);
      ReverseTwice(a[1..]);
      assert Reverse([a[0]]) == [a[0]];
    }
  }

  function PathOf(name: string): Path {
    Reverse(Split(name, DOT))
  }

  function NameOf(path: Path): string {
    Join(Reverse(path), DOT)
  }

  lemma NameOfPath(name: string)
    ensures NameOf(PathOf(name)) == name
  {
    ReverseTwice(Split(name, DOT));
    JoinOfSplit(name, DOT);
  }

  // ---------------------------------------------------------------- matching

  /** Equal, or ending in a dot and the suffix. */
  predicate Matches(suffix: string, domain: string) {
    domain == suffix || EndsWith(domain, [DOT] + suffix)
  }

  predicate EndsWith(s: string, tail: string) {
    |tail| <= |s| && s[|s| - |tail|..] == tail
  }

  lemma MatchIsPathPrefix(suffix: string, domain: string)
    ensures Matches(suffix, domain) ==> PathOf(suffix) <= PathOf(domain)
  {
    if domain != suffix && EndsWith(domain, [DOT] + suffix) {
      var a := domain[..|domain| - |suffix| - 1];
      assert domain == a + ([DOT] + suffix) == a + [DOT] + suffix;
      SplitAtDot(a, suffix, DOT);
      ReverseAppend(Split(a, DOT), Split(suffix, DOT));
    }
  }

  lemma EndsWithTail(head: string, tail: string)
    ensures EndsWith(head + tail, tail)
  {
  }

  lemma JoinedMatches(front: seq<string>, suffix: string, domain: string, labels: seq<string>)
    requires Join(labels, DOT) == suffix && labels != []
    requires Join(front + labels, DOT) == domain
    ensures Matches(suffix, domain)
  {
    if front == [] {
      assert front + labels == labels;
    } else {
      JoinAppend(front, labels, DOT);
      var head := Join(front, DOT);
      assert domain == head + ([DOT] + suffix);
      EndsWithTail(head, [DOT] + suffix);
    }
  }

  lemma PathPrefixIsMatch(suffix: string, domain: string)
    ensures PathOf(suffix) <= PathOf(domain) ==> Matches(suffix, domain)
  {
    if PathOf(suffix) <= PathOf(domain) {
      var rest := PathOf(domain)[|PathOf(suffix)|..];
      assert PathOf(domain) == PathOf(suffix) + rest;
      ReverseAppend(PathOf(suffix), rest);
      ReverseTwice(Split(suffix, DOT));
      ReverseTwice(Split(domain, DOT));
      JoinOfSplit(suffix, DOT);
      JoinOfSplit(domain, DOT);
      JoinedMatches(Reverse(rest), suffix, domain, Split(suffix, DOT));
    }
  }

  /** Label alignment is exactly "equal, or ends with dot plus suffix", for every suffix and domain. */
  lemma AlignmentIsMatch(suffix: string, domain: string)
    ensures PathOf(suffix) <= PathOf(domain) <==> Matches(suffix, domain)
  {
    MatchIsPathPrefix(suffix, domain);
    PathPrefixIsMatch(suffix, domain);
  }

  /** A deeper path is a strictly longer name. */
  lemma NameLength(path: Path, k: nat)
    requires k < |path|
    ensures |NameOf(path[..k + 1])| == |NameOf(path[..k])| + |path[k]| + if k > 0 then 1 else 0
  {
    assert path[..k + 1] == path[..k] + [path[k]];
    ReverseAppend(path[..k], [path[k]]);
    assert Reverse([path[k]]) == [path[k]];
    if k > 0 { JoinAppend([path[k]], Reverse(path[..k]), DOT); }
  }

  lemma {:induction false} DeeperIsLonger(path: Path, j: nat, k: nat)
    requires 0 < j <= k <= |path|
    ensures |NameOf(path[..j])| + (k - j) <= |NameOf(path[..k])|
    decreases k
  {
    if j < k {
      DeeperIsLonger(path, j, k - 1);
      NameLength(path, k - 1);
    }
  }

  // ---------------------------------------------------------------- the table

  datatype Source = Static | Dynamic
  datatype Entry = Entry(nodeID: string, source: Source)

  type Table = map<Path, seq<Entry>>

  function At(table: Table, path: Path): seq<Entry> {
    if path in table then table[path] else []
  }

  predicate Has(entries: seq<Entry>, nodeID: string) {
    exists i :: 0 <= i < |entries| && entries[i].nodeID == nodeID
  }

  /** A node is listed once; a second insert for it changes nothing. */
  function Added(entries: seq<Entry>, nodeID: string, source: Source): seq<Entry> {
    if Has(entries, nodeID) then entries else entries + [Entry(nodeID, source)]
  }

  datatype Insertion = Insertion(suffix: string, nodeID: string, source: Source)

  function Inserted(table: Table, ins: Insertion): Table {
    var path := PathOf(Normal(ins.suffix));
    table[path := Added(At(table, path), ins.nodeID, ins.source)]
  }

  function TableOf(history: seq<Insertion>): Table
    decreases |history|
  {
    if history == [] then map[] else Inserted(TableOf(history[..|history| - 1]), history[|history| - 1])
  }

  ghost predicate DistinctNodes(entries: seq<Entry>) {
    forall i, j :: 0 <= i < j < |entries| ==> entries[i].nodeID != entries[j].nodeID
  }

  /** The first insert of a node for a path, if there is one. */
  ghost function FirstInsert(history: seq<Insertion>, path: Path, nodeID: string): Option<Source>
    decreases |history|
  {
    if history == [] then None
    else
      var earlier := FirstInsert(history[..|history| - 1], path, nodeID);
      var last := history[|history| - 1];
      if earlier.Some? then earlier
      else if PathOf(Normal(last.suffix)) == path && last.nodeID == nodeID then Some(last.source)
      else None
  }

  /** Per suffix: distinct nodes, non-empty when listed at all, and each node with its first source. */
  lemma {:induction false} FirstInsertKept(history: seq<Insertion>, path: Path)
    ensures DistinctNodes(At(TableOf(history), path))
    ensures path in TableOf(history) ==> TableOf(history)[path] != []
    ensures forall id, src :: Entry(id, src) in At(TableOf(history), path) <==>
            FirstInsert(history, path, id) == Some(src)
    decreases |history|
  {
    if history != [] {
      var front, last := history[..|history| - 1], history[|history| - 1];
      FirstInsertKept(front, path);
      var entries := At(TableOf(front), path);
      if PathOf(Normal(last.suffix)) == path {
        assert At(TableOf(history), path) == Added(entries, last.nodeID, last.source);
        forall id, src
          ensures Entry(id, src) in Added(entries, last.nodeID, last.source) <==>
                  FirstInsert(history, path, id) == Some(src)
        {
          AddedExact(entries, last.nodeID, last.source, id, src);
          HasIsFirst(front, path, entries, id);
        }
      }
    }
  }

  lemma AddedExact(entries: seq<Entry>, nodeID: string, source: Source, id: string, src: Source)
    ensures Entry(id, src) in Added(entries, nodeID, source) <==>
            Entry(id, src) in entries || (!Has(entries, nodeID) && id == nodeID && src == source)
  {
  }

  lemma HasIsFirst(front: seq<Insertion>, path: Path, entries: seq<Entry>, id: string)
    requires forall i, src :: Entry(i, src) in entries <==> FirstInsert(front, path, i) == Some(src)
    ensures Has(entries, id) <==> FirstInsert(front, path, id).Some?
  {
    if Has(entries, id) {
      var k :| 0 <= k < |entries| && entries[k].nodeID == id;
      assert Entry(id, entries[k].source) in entries;
    }
    if FirstInsert(front, path, id).Some? {
      assert Entry(id, FirstInsert(front, path, id).value) in entries;
    }
  }

  // ---------------------------------------------------------------- the longest match

  /** How many labels of `path` the deepest listed prefix has. */
  ghost function Deepest(table: Table, path: Path): Option<nat>
    decreases |path|
  {
    if path in table then Some(|path|)
    else if path == [] then None
    else Deepest(table, path[..|path| - 1])
  }

  lemma {:induction false} DeepestIsDeepest(table: Table, path: Path)
    ensures Deepest(table, path).Some? ==>
              Deepest(table, path).value <= |path| && path[..Deepest(table, path).value] in table
    ensures forall k :: 0 <= k <= |path| && path[..k] in table ==>
              Deepest(table, path).Some? && k <= Deepest(table, path).value
    decreases |path|
  {
    assert path[..|path|] == path;
    if path !in table && path != [] {
      var front := path[..|path| - 1];
      DeepestIsDeepest(table, front);
      assert forall k :: 0 <= k <= |front| ==> front[..k] == path[..k];
    }
  }

  /** The answer a lookup owes: the entries of the longest matching suffix and that suffix's length. */
  ghost predicate IsLongest(table: Table, domain: string, entries: seq<Entry>, length: nat) {
    if exists s :: PathOf(s) in table && Matches(s, domain) then
      exists s :: IsLongestSuffix(table, domain, s) && entries == table[PathOf(s)] && length == |s|
    else
      entries == [] && length == 0
  }

  ghost predicate IsLongestSuffix(table: Table, domain: string, s: string) {
    && PathOf(s) in table && Matches(s, domain)
    && forall s' :: PathOf(s') in table && Matches(s', domain) ==> |s'| <= |s|
  }

  lemma {:induction false} PathOfName(path: Path)
    requires path != [] && DotFree(path, DOT)
    ensures PathOf(NameOf(path)) == path
  {
    ReverseAppend(path[..|path| - 1], [path[|path| - 1]]);
    assert path == path[..|path| - 1] + [path[|path| - 1]];
    DotFreeReverse(path);
    SplitOfJoin(Reverse(path));
    ReverseTwice(path);
  }

  lemma DotFreeReverse(path: Path)
    requires DotFree(path, DOT)
    ensures DotFree(Reverse(path), DOT)
  {
    forall i | 0 <= i < |path| ensures DOT !in Reverse(path)[i] { ReverseAt(path, i); }
  }

  lemma {:induction false} SplitDotFree(l: string)
    requires DOT !in l
    ensures Split(l, DOT) == [l]
  {
    if l != [] {
      SplitDotFree(l[1..]);
      assert l == [l[0]] + l[1..];
    }
  }

  lemma {:induction false} SplitOfJoin(labels: seq<string>)
    requires labels != [] && DotFree(labels, DOT)
    ensures Split(Join(labels, DOT), DOT) == labels
  {
    SplitDotFree(labels[0]);
    if |labels| > 1 {
      SplitAtDot(labels[0], Join(labels[1..], DOT), DOT);
      SplitOfJoin(labels[1..]);
      assert labels == [labels[0]] + labels[1..];
    } else {
      assert labels == [labels[0]];
    }
  }

  lemma PrefixOfDomainPath(domain: string, k: nat)
    requires 0 < k <= |PathOf(domain)|
    ensures PathOf(NameOf(PathOf(domain)[..k])) == PathOf(domain)[..k]
  {
    SplitIsDotFree(domain, DOT);
    DotFreeReverse(Split(domain, DOT));
    PathOfName(PathOf(domain)[..k]);
  }

  /** Going down the labels of the domain and remembering the last listed path gives the longest match. */
  lemma DeepestIsLongest(table: Table, domain: string)
    requires [] !in table
    ensures match Deepest(table, PathOf(domain))
            case None => IsLongest(table, domain, [], 0)
            case Some(k) => 0 < k <= |PathOf(domain)| && PathOf(domain)[..k] in table &&
                            IsLongest(table, domain, table[PathOf(domain)[..k]], |NameOf(PathOf(domain)[..k])|)
  {
    var path := PathOf(domain);
    DeepestIsDeepest(table, path);
    forall s | PathOf(s) in table && Matches(s, domain)
      ensures |PathOf(s)| <= |path| && path[..|PathOf(s)|] == PathOf(s) && NameOf(PathOf(s)) == s
    {
      AlignmentIsMatch(s, domain);
      NameOfPath(s);
    }
    match Deepest(table, path)
    case None =>
    case Some(k) =>
      assert path[..0] == [];
      var best := NameOf(path[..k]);
      PrefixOfDomainPath(domain, k);
      AlignmentIsMatch(best, domain);
      forall s | PathOf(s) in table && Matches(s, domain) ensures |s| <= |best| {
        var j := |PathOf(s)|;
        assert path[..j] == PathOf(s) && NameOf(path[..j]) == s;
        DeeperIsLonger(path, j, k);
      }
      assert IsLongestSuffix(table, domain, best);
  }
}
