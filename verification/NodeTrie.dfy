/** The mutable label trie of domain routes, proved to implement the table of `SuffixTable`. */
module NodeTrie {
  import opened Basics
  import opened Dotted
  import opened SuffixTable

  class TrieNode {
    var children: map<string, TrieNode>
    var entries: seq<Entry>

    constructor ()
      ensures children == map[] && entries == []
    {
      children, entries := map[], [];
    }

    function Child(lab: string): TrieNode?
      reads this
    {
      if lab in children then children[lab] else null
    }
  }

  /** The labels of a name, last one first. */
  method SplitLabels(domain: string) returns (reversed: Path)
    ensures reversed == PathOf(domain)
  {
    var parts := Split(domain, DOT);
    var n := |parts|;
    reversed := [];
    for i := 0 to n
      invariant |reversed| == i && forall k :: 0 <= k < i ==> reversed[k] == parts[n - 1 - k]
    {
      reversed := reversed + [parts[n - 1 - i]];
    }
    forall k | 0 <= k < n ensures reversed[k] == Reverse(parts)[k] { ReverseAt(parts, k); }
  }

  class Trie {
    const root: TrieNode
    /** Which node stands for which path. */
    ghost var nodes: map<Path, TrieNode>

    ghost predicate Valid()
      reads this, nodes.Values
    {
      && [] in nodes && nodes[[]] == root && root.entries == []
      && (forall p, l :: p in nodes ==> nodes[p].Child(l) == if p + [l] in nodes then nodes[p + [l]] else null)
      && (forall p, q :: p in nodes && q in nodes && nodes[p] == nodes[q] ==> p == q)
      && (forall p, l :: p + [l] in nodes ==> p in nodes)
    }

    /** The listed suffixes: paths whose node has entries. */
    ghost function Contents(): Table
      reads this, nodes.Values
    {
      map p | p in nodes && nodes[p].entries != [] :: nodes[p].entries
    }

    constructor ()
      ensures Valid() && Contents() == map[] && fresh(nodes.Values)
    {
      var n := new TrieNode();
      root := n;
      nodes := map[[] := n];
    }

    method Insert(suffix: string, nodeID: string, source: Source)
      requires Valid()
      modifies this`nodes, nodes.Values
      ensures Valid() && fresh(nodes.Values - old(nodes.Values))
      ensures Contents() == Inserted(old(Contents()), Insertion(suffix, nodeID, source))
    {
      var labels := SplitLabels(Normal(suffix));
      var node := root;
      ghost var table, before := Contents(), nodes.Values;
      for i := 0 to |labels|
        invariant Valid() && Contents() == table && fresh(nodes.Values - before)
        invariant labels[..i] in nodes && nodes[labels[..i]] == node
      {
        assert labels[..i + 1] == labels[..i] + [labels[i]];
        node := Descend(node, labels[..i], labels[i]);
      }
      assert labels[..|labels|] == labels;
      AddEntry(node, labels, nodeID, source);
    }

    /** Lists the node unless it is listed already. */
    method AddEntry(node: TrieNode, ghost path: Path, nodeID: string, source: Source)
      requires Valid() && path in nodes && nodes[path] == node && path != []
      modifies node`entries
      ensures Valid() && Contents() == old(Contents())[path := Added(At(old(Contents()), path), nodeID, source)]
    {
      for i := 0 to |node.entries|
        invariant node.entries == old(node.entries)
        invariant forall k :: 0 <= k < i ==> node.entries[k].nodeID != nodeID
      {
        if node.entries[i].nodeID == nodeID { return; }
      }
      node.entries := node.entries + [Entry(nodeID, source)];
    }

    method Descend(node: TrieNode, ghost path: Path, lab: string) returns (child: TrieNode)
      requires Valid() && path in nodes && nodes[path] == node
      modifies this`nodes, node`children
      ensures Valid() && Contents() == old(Contents())
      ensures nodes.Values >= old(nodes.Values) && fresh(nodes.Values - old(nodes.Values))
      ensures path + [lab] in nodes && nodes[path + [lab]] == child
    {
      assert lab in node.children ==> node.Child(lab) == node.children[lab];
      if lab in node.children { return node.children[lab]; }
      child := AddChild(node, path, lab);
    }

    method AddChild(node: TrieNode, ghost path: Path, lab: string) returns (child: TrieNode)
      requires Valid() && path in nodes && nodes[path] == node && lab !in node.children
      modifies this`nodes, node`children
      ensures Valid() && Contents() == old(Contents())
      ensures nodes.Values >= old(nodes.Values) && fresh(nodes.Values - old(nodes.Values))
      ensures path + [lab] in nodes && nodes[path + [lab]] == child
    {
      child := new TrieNode();
      ghost var before, at, table := nodes, path + [lab], Contents();
      node.children := node.children[lab := child];
      nodes := nodes[at := child];
      NewKey(before, at, child);
      assert Contents() == table by {
        assert forall p :: p in before ==> nodes[p] == before[p] && nodes[p].entries == old(before[p].entries);
        assert child.entries == [];
      }
      forall p, l | p in nodes
        ensures nodes[p].Child(l) == if p + [l] in nodes then nodes[p + [l]] else null
      {
        SnocEqual(p, l, path, lab);
        if p == at { assert p + [l] !in before; }
      }
      forall p, l | p + [l] in nodes ensures p in nodes { SnocEqual(p, l, path, lab); }
    }

    /** The entries of the longest inserted suffix that matches the domain, and that suffix's length. */
    method Lookup(domain: string) returns (bestEntries: seq<Entry>, bestLen: nat)
      requires Valid()
      ensures IsLongest(Contents(), Normal(domain), bestEntries, bestLen)
    {
      var labels := SplitLabels(Normal(domain));
      var node := root;
      bestEntries, bestLen := [], 0;
      var accumulated := 0;
      var i := 0;
      assert labels[..0] == [];
      while i < |labels|
        invariant i <= |labels|
        invariant labels[..i] in nodes && nodes[labels[..i]] == node
        invariant accumulated == |NameOf(labels[..i])|
        invariant Remembers(Contents(), labels, i, bestEntries, bestLen)
      {
        assert labels[..i + 1] == labels[..i] + [labels[i]];
        assert node.Child(labels[i]) == if labels[i] in node.children then node.children[labels[i]] else null;
        if labels[i] !in node.children {
          StopsHere(labels, i, |labels|);
          break;
        }
        node := node.children[labels[i]];
        NameLength(labels, i);
        RemembersStep(Contents(), labels, i, bestEntries, bestLen);
        accumulated := accumulated + |labels[i]|;
        if i > 0 { accumulated := accumulated + 1; }
        i := i + 1;
        if |node.entries| > 0 { bestEntries, bestLen := node.entries, accumulated; }
      }
      RemembersAll(Contents(), Normal(domain), i, bestEntries, bestLen);
    }

    /** A missing node has nothing below it. */
    lemma {:induction false} NothingBelow(labels: Path, i: nat, k: nat)
      requires Valid() && i < k <= |labels| && labels[..i + 1] !in nodes
      ensures labels[..k] !in nodes
      decreases k
    {
      if k > i + 1 {
        NothingBelow(labels, i, k - 1);
        assert labels[..k] == labels[..k - 1] + [labels[k - 1]];
      }
    }

    lemma {:induction false} StopsHere(labels: Path, i: nat, k: nat)
      requires Valid() && i < k <= |labels| && labels[..i + 1] !in nodes
      ensures Deepest(Contents(), labels[..k]) == Deepest(Contents(), labels[..i])
      decreases k
    {
      NothingBelow(labels, i, k);
      assert labels[..k][..k - 1] == labels[..k - 1];
      if k > i + 1 { StopsHere(labels, i, k - 1); }
    }
  }

  /** The running best after `i` labels. */
  ghost predicate Remembers(table: Table, labels: Path, i: nat, entries: seq<Entry>, length: nat)
    requires i <= |labels|
  {
    match Deepest(table, labels[..i])
    case None => entries == [] && length == 0
    case Some(k) => k <= i && labels[..k] in table && entries == table[labels[..k]] && length == |NameOf(labels[..k])|
  }

  lemma RemembersStep(table: Table, labels: Path, i: nat, entries: seq<Entry>, length: nat)
    requires i < |labels| && Remembers(table, labels, i, entries, length)
    ensures if labels[..i + 1] in table
            then Remembers(table, labels, i + 1, table[labels[..i + 1]], |NameOf(labels[..i + 1])|)
            else Remembers(table, labels, i + 1, entries, length)
  {
    assert labels[..i + 1][..i] == labels[..i];
  }

  /** Once nothing deeper is listed, what is remembered is the answer. */
  lemma RemembersAll(table: Table, domain: string, i: nat, entries: seq<Entry>, length: nat)
    requires [] !in table && i <= |PathOf(domain)| && Remembers(table, PathOf(domain), i, entries, length)
    requires Deepest(table, PathOf(domain)[..|PathOf(domain)|]) == Deepest(table, PathOf(domain)[..i])
    ensures IsLongest(table, domain, entries, length)
  {
    assert PathOf(domain)[..|PathOf(domain)|] == PathOf(domain);
    DeepestIsLongest(table, domain);
  }

  /** A trie filled by any list of inserts holds exactly the table of that list. */
  method Build(history: seq<Insertion>) returns (t: Trie)
    ensures fresh(t) && t.Valid() && t.Contents() == TableOf(history)
  {
    t := new Trie();
    for i := 0 to |history|
      invariant fresh(t) && fresh(t.nodes.Values) && t.Valid() && t.Contents() == TableOf(history[..i])
    {
      assert history[..i + 1][..i] == history[..i];
      t.Insert(history[i].suffix, history[i].nodeID, history[i].source);
    }
    assert history[..|history|] == history;
  }
}
