/**
  The trie of a query's paths (QueryNode, QueryArena, the trie loop of parse_query_tree
  and assign_word_ids, query/expressions.h) and evaluate_query (query/query_helpers.h).

  Nodes live in an arena and name each other by index.  Each node has a label, the keys
  on the way to it from the root; the labels of the finished trie are exactly the
  prefixes of the paths put in.
*/
module QueryTrie {
  import opened Bytes
  import opened QueryAst
  import opened QueryMeaning
  import opened QueryDnf
  import opened QueryParser

  const MAX_NODES: nat := 128

  datatype Key = Key(term: Term, negated: bool)

  function KeyOf(t: TermData): Key {
    Key(TermOf(t), t.negated)
  }

  function Keys(p: Path): (r: seq<Key>)
    ensures |r| == |p| && forall i | 0 <= i < |r| :: r[i] == KeyOf(p[i])
  {
    seq(|p|, i requires 0 <= i < |p| => KeyOf(p[i]))
  }

  datatype QueryNode = QueryNode(val: Text, isNegated: bool, isPhrase: bool, wordId: int, children: seq<nat>)

  function NodeKey(n: QueryNode): Key {
    Key(Term(n.val, n.isPhrase), n.isNegated)
  }

  type Labels = seq<seq<Key>>

  /** The nodes form a tree under node 0, labelled by its paths; children come after their parents. */
  ghost predicate Linked(nodes: seq<QueryNode>, labels: Labels) {
    && |labels| == |nodes| > 0 && labels[0] == [] && nodes[0].val == []
    && (forall i, j | 0 <= i < j < |labels| :: labels[i] != labels[j])
    && (forall i | 0 < i < |nodes| :: labels[i] != [] && labels[i][|labels[i]| - 1] == NodeKey(nodes[i]))
    && (forall i, k | 0 <= i < |nodes| && 0 <= k < |nodes[i].children| :: ChildOf(nodes, labels, i, nodes[i].children[k]))
    && (forall c | 0 < c < |nodes| :: HasParent(nodes, c))
  }

  ghost predicate HasParent(nodes: seq<QueryNode>, c: nat)
    requires c <= |nodes|
  {
    exists i :: 0 <= i < c && c in nodes[i].children
  }

  predicate Unnumbered(nodes: seq<QueryNode>) {
    forall i | 0 <= i < |nodes| :: nodes[i].wordId == -1
  }

  ghost predicate Begins(l: seq<Key>, keys: seq<Key>) {
    l <= keys
  }

  ghost predicate ChildOf(nodes: seq<QueryNode>, labels: Labels, i: nat, c: nat)
    requires |labels| == |nodes| && i < |nodes|
  {
    i < c < |nodes| && labels[c] == labels[i] + [NodeKey(nodes[c])]
  }

  /** The labels are the prefixes of the paths. */
  ghost predicate Prefixes(labels: Labels, paths: seq<Path>) {
    forall l :: l in labels <==> l == [] || exists p :: 0 <= p < |paths| && Begins(l, Keys(paths[p]))
  }

  /** The node with one key more is a child, if there is one. */
  lemma OneKeyMore(nodes: seq<QueryNode>, labels: Labels, i: nat, key: Key, c: nat)
    requires Linked(nodes, labels) && i < |nodes| && c < |nodes| && labels[c] == labels[i] + [key]
    ensures c in nodes[i].children && NodeKey(nodes[c]) == key
  {
    assert HasParent(nodes, c);
    var j :| 0 <= j < c && c in nodes[j].children;
    var k :| 0 <= k < |nodes[j].children| && nodes[j].children[k] == c;
    assert ChildOf(nodes, labels, j, c);
    assert labels[c][..|labels[c]| - 1] == labels[j] == labels[i];
  }

  /** Hanging a new node below `curr` keeps the tree. */
  lemma NewChildLinked(nodes: seq<QueryNode>, labels: Labels, curr: nat, n: QueryNode)
    requires Linked(nodes, labels) && curr < |nodes| && n.children == []
    requires labels[curr] + [NodeKey(n)] !in labels
    ensures Linked(WithChild(nodes, curr, n), labels + [labels[curr] + [NodeKey(n)]])
  {
    hide NodeKey;
    var next, labels' := WithChild(nodes, curr, n), labels + [labels[curr] + [NodeKey(n)]];
    assert forall i | 0 <= i < |nodes| :: NodeKey(next[i]) == NodeKey(nodes[i]) by { SameKeys(nodes, curr, n); }
    forall i, k | 0 <= i < |next| && 0 <= k < |next[i].children| ensures ChildOf(next, labels', i, next[i].children[k]) {
      if k < |nodes[i].children| { assert ChildOf(nodes, labels, i, nodes[i].children[k]); }
    }
    forall c | 0 < c < |next| ensures HasParent(next, c) {
      ParentsKept(nodes, curr, n, c);
    }
  }

  lemma SameKeys(nodes: seq<QueryNode>, curr: nat, n: QueryNode)
    requires curr < |nodes|
    ensures forall i | 0 <= i < |nodes| :: NodeKey(WithChild(nodes, curr, n)[i]) == NodeKey(nodes[i])
  {
  }

  lemma ParentsKept(nodes: seq<QueryNode>, curr: nat, n: QueryNode, c: nat)
    requires curr < |nodes| && 0 < c <= |nodes| && (c < |nodes| ==> HasParent(nodes, c))
    ensures HasParent(WithChild(nodes, curr, n), c)
  {
    var next := WithChild(nodes, curr, n);
    if c < |nodes| {
      var i :| 0 <= i < c && c in nodes[i].children;
      assert c in next[i].children;
    } else {
      assert next[curr].children[|nodes[curr].children|] == c;
    }
  }

  function WithChild(nodes: seq<QueryNode>, curr: nat, n: QueryNode): seq<QueryNode>
    requires curr < |nodes|
  {
    nodes[curr := nodes[curr].(children := nodes[curr].children + [|nodes|])] + [n]
  }

  class QueryArena {
    var nodes: seq<QueryNode>
    ghost var labels: Labels

    ghost predicate Valid()
      reads this
    {
      |nodes| == |labels| <= MAX_NODES && Linked(nodes, labels)
    }

    /** The arena with its root. */
    constructor ()
      ensures Valid() && labels == [[]] && Unnumbered(nodes)
    {
      nodes := [QueryNode([], false, false, -1, [])];
      labels := [[]];
    }

    /** The child of `curr` with this term, or a new one; there is none when the arena is full. */
    method Descend(curr: nat, t: TermData) returns (r: Result<nat>)
      requires Valid() && curr < |nodes| && Unnumbered(nodes)
      modifies this
      ensures r.Err? ==>
                && r.error == ArenaFull && old(|nodes|) == MAX_NODES
                && Valid() && labels == old(labels) && labels[curr] + [KeyOf(t)] !in labels
      ensures r.Ok? ==>
                && Valid() && Unnumbered(nodes) && |nodes| >= old(|nodes|) && r.value < |nodes|
                && labels[r.value] == old(labels)[curr] + [KeyOf(t)]
                && labels == old(labels) + if labels[r.value] in old(labels) then [] else [labels[r.value]]
    {
      hide Linked;
      RootLabel(nodes, labels);
      var found, at := FindChild(curr, t);
      if found {
        assert labels[at] in labels;
        return Ok(at);
      }
      if |nodes| >= MAX_NODES { return Err(ArenaFull); }
      var n := QueryNode(t.val, t.negated, t.isPhrase, -1, []);
      NewChildLinked(nodes, labels, curr, n);
      nodes, labels := WithChild(nodes, curr, n), labels + [labels[curr] + [KeyOf(t)]];
      RootLabel(nodes, labels);
      r := Ok(|nodes| - 1);
    }

    /** The search among the children of `curr`. */
    method FindChild(curr: nat, t: TermData) returns (found: bool, at: nat)
      requires Valid() && curr < |nodes|
      ensures found ==> at < |nodes| && labels[at] == labels[curr] + [KeyOf(t)]
      ensures !found ==> labels[curr] + [KeyOf(t)] !in labels
    {
      hide Linked;
      var children := nodes[curr].children;
      for c := 0 to |children|
        invariant forall d | 0 <= d < c :: children[d] < |nodes| && NodeKey(nodes[children[d]]) != KeyOf(t)
      {
        ChildInRange(nodes, labels, curr, c);
        var child := nodes[children[c]];
        if child.isNegated == t.negated && child.isPhrase == t.isPhrase && child.val == t.val {
          return true, children[c];
        }
      }
      NotAmongChildren(nodes, labels, curr, KeyOf(t));
      return false, 0;
    }

    /** One path of the trie loop; it stops at a prefix for which there is no room. */
    method AddPath(path: Path) returns (r: Result<nat>)
      requires Valid() && Unnumbered(nodes)
      modifies this
      ensures Valid() && forall l | l in labels :: l in old(labels) || Begins(l, Keys(path))
      ensures r.Err? ==> r.error == ArenaFull && |labels| == MAX_NODES && exists l :: Begins(l, Keys(path)) && l !in labels
      ensures r.Ok? ==> Unnumbered(nodes) && forall l :: l in labels <==> l in old(labels) || Begins(l, Keys(path))
    {
      hide Linked;
      var curr: nat := 0;
      ghost var keys, before := Keys(path), labels;
      RootLabel(nodes, labels);
      assert keys[..0] == [];
      for t := 0 to |path|
        invariant Valid() && Unnumbered(nodes) && curr < |nodes| && labels[curr] == keys[..t]
        invariant forall l :: l in labels <==> l in before || Begins(l, keys[..t])
      {
        forall l: seq<Key> ensures Begins(l, keys[..t]) ==> Begins(l, keys) { BeginsPart(l, keys, t); }
        var next := Descend(curr, path[t]);
        assert keys[..t + 1] == keys[..t] + [KeyOf(path[t])];
        if next.Err? {
          assert Begins(keys[..t + 1], keys);
          return next;
        }
        curr := next.value;
        forall l: seq<Key> ensures Begins(l, keys[..t + 1]) <==> Begins(l, keys[..t]) || l == keys[..t + 1] {
          PrefixOfOneMore(l, keys, t);
        }
      }
      assert keys[..|path|] == keys;
      r := Ok(curr);
    }

    /** The trie loop: all paths.  It fails exactly when they have more different prefixes than there are nodes. */
    method AddPaths(paths: seq<Path>) returns (r: Result<nat>)
      requires Valid() && labels == [[]] && Unnumbered(nodes)
      modifies this
      ensures r.Err? <==> |PrefixSet(paths)| > MAX_NODES
      ensures r.Err? ==> r.error == ArenaFull
      ensures r.Ok? ==> Valid() && Unnumbered(nodes) && Prefixes(labels, paths)
    {
      hide Linked, PrefixSet;
      PrefixSetIs(paths);
      for p := 0 to |paths|
        invariant Valid() && Unnumbered(nodes)
        invariant forall l :: l in labels <==> l == [] || exists q :: 0 <= q < p && Begins(l, Keys(paths[q]))
      {
        var added := AddPath(paths[p]);
        if added.Err? {
          ghost var l :| Begins(l, Keys(paths[p])) && l !in labels;
          LabelsAreDifferent(nodes, labels);
          NoRoom(labels, PrefixSet(paths), l);
          return added;
        }
      }
      LabelsAreDifferent(nodes, labels);
      AllThere(labels, PrefixSet(paths));
      r := Ok(0);
    }
  }

  /** The different prefixes of the paths, the empty one among them. */
  ghost function PrefixSet(paths: seq<Path>): set<seq<Key>> {
    {[]} + set p, n | 0 <= p < |paths| && 0 <= n <= |paths[p]| :: Keys(paths[p])[..n]
  }

  lemma PrefixSetIs(paths: seq<Path>)
    ensures forall l :: l in PrefixSet(paths) <==> l == [] || exists q :: 0 <= q < |paths| && Begins(l, Keys(paths[q]))
  {
    forall q, l | 0 <= q < |paths| && Begins(l, Keys(paths[q])) ensures l in PrefixSet(paths) {
      assert l == Keys(paths[q])[..|l|];
    }
    forall q, n | 0 <= q < |paths| && 0 <= n <= |paths[q]| ensures Begins(Keys(paths[q])[..n], Keys(paths[q])) {}
  }

  lemma BeginsPart(l: seq<Key>, keys: seq<Key>, t: nat)
    requires t <= |keys|
    ensures Begins(l, keys[..t]) ==> Begins(l, keys)
  {
    if Begins(l, keys[..t]) { assert keys[..|l|] == keys[..t][..|l|]; }
  }

  lemma LabelsAreDifferent(nodes: seq<QueryNode>, labels: Labels)
    requires Linked(nodes, labels)
    ensures forall i, j | 0 <= i < j < |labels| :: labels[i] != labels[j]
  {
  }

  /** A list without repetitions has as many members as places. */
  lemma {:induction false} DifferentCount<X>(s: seq<X>)
    requires forall i, j | 0 <= i < j < |s| :: s[i] != s[j]
    ensures |set x | x in s| == |s|
    decreases |s|
  {
    if s != [] {
      var last := |s| - 1;
      DifferentCount(s[..last]);
      assert s == s[..last] + [s[last]];
      assert (set x | x in s) == (set x | x in s[..last]) + {s[last]};
    }
  }

  lemma {:induction false} SubsetCount<X>(a: set<X>, b: set<X>)
    requires a <= b
    ensures |a| <= |b|
  {
    assert b == a + (b - a);
  }

  lemma NoRoom(labels: Labels, all: set<seq<Key>>, l: seq<Key>)
    requires forall i, j | 0 <= i < j < |labels| :: labels[i] != labels[j]
    requires (forall k | k in labels :: k in all) && l in all && l !in labels
    ensures |labels| < |all|
  {
    var there := set k | k in labels;
    DifferentCount(labels);
    SubsetCount(there + {l}, all);
  }

  lemma AllThere(labels: Labels, all: set<seq<Key>>)
    requires forall i, j | 0 <= i < j < |labels| :: labels[i] != labels[j]
    requires forall k :: k in labels <==> k in all
    ensures |labels| == |all|
  {
    DifferentCount(labels);
    assert (set k | k in labels) == all;
  }

  /** A path has at most one prefix more than terms, so few terms always fit. */
  lemma {:induction false} FewPrefixes(paths: seq<Path>)
    ensures |PrefixSet(paths)| <= 1 + Terms(paths)
    decreases |paths|
  {
    if paths == [] {
      assert PrefixSet(paths) == {[]};
    } else {
      var before, last := paths[..|paths| - 1], Keys(paths[|paths| - 1]);
      FewPrefixes(before);
      var more := Parts(last, |last|);
      forall l | l in PrefixSet(paths) ensures l in PrefixSet(before) + more {
        PrefixMore(paths, l);
        if l <= last { assert l == last[..|l|]; }
      }
      SubsetCount(PrefixSet(paths), PrefixSet(before) + more);
    }
  }

  lemma PrefixMore(paths: seq<Path>, l: seq<Key>)
    requires paths != [] && l in PrefixSet(paths)
    ensures l in PrefixSet(paths[..|paths| - 1]) || (l != [] && Begins(l, Keys(paths[|paths| - 1])))
  {
    hide PrefixSet;
    PrefixSetIs(paths);
    PrefixSetIs(paths[..|paths| - 1]);
    if l != [] {
      var q :| 0 <= q < |paths| && Begins(l, Keys(paths[q]));
      assert q < |paths| - 1 ==> paths[..|paths| - 1][q] == paths[q];
    }
  }

  /** The prefixes of at least one and at most k keys. */
  ghost function Parts(keys: seq<Key>, k: nat): (r: set<seq<Key>>)
    requires k <= |keys|
    ensures |r| <= k && forall n | 1 <= n <= k :: keys[..n] in r
  {
    if k == 0 then {} else Parts(keys, k - 1) + {keys[..k]}
  }

  /** How many terms the paths have in all. */
  function Terms(paths: seq<Path>): nat {
    if paths == [] then 0 else Terms(paths[..|paths| - 1]) + |paths[|paths| - 1]|
  }

  lemma ChildInRange(nodes: seq<QueryNode>, labels: Labels, i: nat, k: nat)
    requires Linked(nodes, labels) && i < |nodes| && k < |nodes[i].children|
    ensures var c := nodes[i].children[k]; i < c < |nodes| && labels[c] == labels[i] + [NodeKey(nodes[c])]
  {
    assert ChildOf(nodes, labels, i, nodes[i].children[k]);
  }

  lemma NotAmongChildren(nodes: seq<QueryNode>, labels: Labels, i: nat, key: Key)
    requires Linked(nodes, labels) && i < |nodes|
    requires forall k | 0 <= k < |nodes[i].children| :: nodes[i].children[k] < |nodes| && NodeKey(nodes[nodes[i].children[k]]) != key
    ensures labels[i] + [key] !in labels
  {
    if labels[i] + [key] in labels {
      var c :| 0 <= c < |labels| && labels[c] == labels[i] + [key];
      OneKeyMore(nodes, labels, i, key, c);
    }
  }

  lemma RootLabel(nodes: seq<QueryNode>, labels: Labels)
    requires Linked(nodes, labels)
    ensures |labels| == |nodes| > 0 && labels[0] == [] && [] in labels && forall l: seq<Key> :: Begins(l, []) <==> l == []
  {
    assert labels[0] in labels;
  }

  lemma PrefixOfOneMore(l: seq<Key>, keys: seq<Key>, t: nat)
    requires t < |keys|
    ensures Begins(l, keys[..t + 1]) <==> Begins(l, keys[..t]) || l == keys[..t + 1]
  {
    if l <= keys[..t + 1] && |l| <= t {
      assert keys[..t + 1][..|l|] == keys[..t][..|l|];
    }
    if l <= keys[..t] { assert keys[..t + 1][..|l|] == keys[..t][..|l|]; }
  }

  // ---------------------------------------------------------------- word ids

  function TermAt(n: QueryNode): Term {
    Term(n.val, n.isPhrase)
  }

  /** A node with a text names its term in the dictionary; one without keeps id -1. */
  predicate Numbered(n: QueryNode, dict: seq<Term>) {
    if n.val == [] then n.wordId == -1
    else 0 <= n.wordId < |dict| && dict[n.wordId] == TermAt(n)
  }

  ghost predicate Distinct(dict: seq<Term>) {
    forall i, j | 0 <= i < j < |dict| :: dict[i] != dict[j]
  }

  /** Only word ids differ. */
  ghost predicate SameTree(a: seq<QueryNode>, b: seq<QueryNode>) {
    |a| == |b| && forall i | 0 <= i < |a| :: a[i].(wordId := -1) == b[i].(wordId := -1)
  }

  /** Nodes at or below `node`. */
  ghost predicate Below(labels: Labels, node: nat, j: nat)
    requires node < |labels| && j < |labels|
  {
    labels[node] <= labels[j]
  }

  /** After the walk from `node`: every node below it is numbered, the rest is as it was. */
  ghost predicate NumberedBelow(before: seq<QueryNode>, nodes: seq<QueryNode>, labels: Labels, node: nat, dict: seq<Term>)
    requires |before| == |nodes| == |labels| && node < |labels|
  {
    forall j | 0 <= j < |nodes| :: if Below(labels, node, j) then Numbered(nodes[j], dict) else nodes[j] == before[j]
  }

  lemma SameTreeLinked(a: seq<QueryNode>, b: seq<QueryNode>, labels: Labels)
    requires Linked(a, labels) && SameTree(a, b)
    ensures Linked(b, labels)
  {
    assert forall i | 0 <= i < |a| :: NodeKey(a[i]) == NodeKey(b[i]) && a[i].children == b[i].children;
    forall i, k | 0 <= i < |b| && 0 <= k < |b[i].children| ensures ChildOf(b, labels, i, b[i].children[k]) {
      assert ChildOf(a, labels, i, a[i].children[k]);
    }
    forall c | 0 < c < |b| ensures HasParent(b, c) {
      assert HasParent(a, c);
      var i :| 0 <= i < c && c in a[i].children;
      assert c in b[i].children;
    }
  }

  /** The look-up in the dictionary, which grows when the term is new. */
  method NumberOf(t: Term, dict: seq<Term>) returns (id: nat, next: seq<Term>)
    requires Distinct(dict)
    ensures Distinct(next) && dict <= next && id < |next| && next[id] == t
    ensures forall u :: u in next <==> u in dict || u == t
  {
    for i := 0 to |dict|
      invariant forall j | 0 <= j < i :: dict[j] != t
    {
      if dict[i] == t { return i, dict; }
    }
    return |dict|, dict + [t];
  }

  lemma {:induction false} PrefixClosed(nodes: seq<QueryNode>, labels: Labels, j: nat, n: nat)
    requires Linked(nodes, labels) && j < |nodes| && n <= |labels[j]|
    ensures labels[j][..n] in labels
    decreases j
  {
    if n == |labels[j]| {
      assert labels[j][..n] == labels[j];
    } else {
      assert HasParent(nodes, j);
      var i :| 0 <= i < j && j in nodes[i].children;
      var k :| 0 <= k < |nodes[i].children| && nodes[i].children[k] == j;
      assert ChildOf(nodes, labels, i, j);
      PrefixClosed(nodes, labels, i, n);
      assert labels[j][..n] == labels[i][..n];
    }
  }

  lemma PrefixLength(a: seq<Key>, b: seq<Key>)
    requires a <= b
    ensures |a| <= |b| && (|a| == |b| ==> a == b)
  {
  }

  /** Towards a node below: one of the children leads there. */
  lemma ChildToward(nodes: seq<QueryNode>, labels: Labels, i: nat, j: nat) returns (k: nat)
    requires Linked(nodes, labels) && i < |nodes| && j < |nodes| && i != j && Below(labels, i, j)
    ensures k < |nodes[i].children| && nodes[i].children[k] < |nodes| && Below(labels, nodes[i].children[k], j)
  {
    var n := |labels[i]|;
    PrefixLength(labels[i], labels[j]);
    PrefixClosed(nodes, labels, j, n + 1);
    var c :| 0 <= c < |labels| && labels[c] == labels[j][..n + 1];
    assert labels[c] == labels[i] + [labels[j][n]];
    OneKeyMore(nodes, labels, i, labels[j][n], c);
    k :| 0 <= k < |nodes[i].children| && nodes[i].children[k] == c;
  }

  lemma ChildBelow(nodes: seq<QueryNode>, labels: Labels, i: nat, k: nat, j: nat)
    requires Linked(nodes, labels) && i < |nodes| && k < |nodes[i].children| && j < |nodes|
    ensures nodes[i].children[k] < |nodes|
    ensures Below(labels, nodes[i].children[k], j) ==> Below(labels, i, j) && i != j
  {
    assert ChildOf(nodes, labels, i, nodes[i].children[k]);
  }

  predicate InRange(children: seq<nat>, n: nat) {
    forall i | 0 <= i < |children| :: children[i] < n
  }

  /** Numbered already when the first k children of `node` have been walked. */
  ghost predicate Walked(labels: Labels, node: nat, children: seq<nat>, k: nat, j: nat)
    requires node < |labels| && j < |labels| && k <= |children| && InRange(children, |labels|)
  {
    j == node || exists i :: 0 <= i < k && Below(labels, children[i], j)
  }

  ghost predicate NumberedSoFar(before: seq<QueryNode>, nodes: seq<QueryNode>, labels: Labels, node: nat,
      children: seq<nat>, k: nat, dict: seq<Term>)
    requires |before| == |nodes| == |labels| && node < |labels| && k <= |children| && InRange(children, |labels|)
  {
    forall j | 0 <= j < |nodes| :: if Walked(labels, node, children, k, j) then Numbered(nodes[j], dict) else nodes[j] == before[j]
  }

  lemma OneChildWalked(before: seq<QueryNode>, mid: seq<QueryNode>, nodes: seq<QueryNode>, labels: Labels, node: nat,
      children: seq<nat>, k: nat, dict: seq<Term>, next: seq<Term>)
    requires |before| == |mid| == |nodes| == |labels| && node < |labels| && k < |children| && InRange(children, |labels|)
    requires NumberedSoFar(before, mid, labels, node, children, k, dict) && dict <= next
    requires NumberedBelow(mid, nodes, labels, children[k], next)
    ensures NumberedSoFar(before, nodes, labels, node, children, k + 1, next)
  {
    hide Below;
    forall j | 0 <= j < |nodes|
      ensures if Walked(labels, node, children, k + 1, j) then Numbered(nodes[j], next) else nodes[j] == before[j]
    {
      assert Walked(labels, node, children, k + 1, j) <==> Walked(labels, node, children, k, j) || Below(labels, children[k], j);
    }
  }

  lemma AllChildrenWalked(before: seq<QueryNode>, nodes: seq<QueryNode>, tree: seq<QueryNode>, labels: Labels, node: nat, dict: seq<Term>)
    requires |before| == |nodes| == |labels| == |tree| && node < |labels| && Linked(tree, labels)
    requires InRange(tree[node].children, |labels|)
    requires NumberedSoFar(before, nodes, labels, node, tree[node].children, |tree[node].children|, dict)
    ensures NumberedBelow(before, nodes, labels, node, dict)
  {
    var children := tree[node].children;
    forall j | 0 <= j < |nodes| ensures Walked(labels, node, children, |children|, j) <==> Below(labels, node, j) {
      if Below(labels, node, j) && j != node {
        var k := ChildToward(tree, labels, node, j);
      }
      if Walked(labels, node, children, |children|, j) && j != node {
        var k :| 0 <= k < |children| && Below(labels, children[k], j);
        ChildBelow(tree, labels, node, k, j);
      }
    }
  }

  /** assign_word_ids: depth first, each text gets the id of its term in the dictionary. */
  method AssignWordIds(arena: QueryArena, node: nat, dict: seq<Term>) returns (next: seq<Term>)
    requires arena.Valid() && node < |arena.nodes| && Distinct(dict)
    requires forall j | 0 <= j < |arena.nodes| && arena.nodes[j].val == [] :: arena.nodes[j].wordId == -1
    modifies arena`nodes
    ensures arena.Valid() && SameTree(old(arena.nodes), arena.nodes)
    ensures Distinct(next) && dict <= next
    ensures NumberedBelow(old(arena.nodes), arena.nodes, arena.labels, node, next)
    ensures forall j | 0 <= j < |arena.nodes| && arena.nodes[j].val == [] :: arena.nodes[j].wordId == -1
    decreases MAX_NODES - node
  {
    hide Linked, NumberedSoFar, NumberedBelow, Distinct;
    next := dict;
    ghost var before := arena.nodes;
    ChildrenInRange(before, arena.labels, node);
    if |arena.nodes[node].val| > 0 {
      var id;
      id, next := NumberOf(TermAt(arena.nodes[node]), dict);
      arena.nodes := arena.nodes[node := arena.nodes[node].(wordId := id)];
    }
    NodeNumbered(before, arena.nodes, arena.labels, node, next);
    SameTreeLinked(before, arena.nodes, arena.labels);
    var children := arena.nodes[node].children;
    for i := 0 to |children|
      invariant arena.Valid() && SameTree(before, arena.nodes) && Distinct(next) && dict <= next
      invariant NumberedSoFar(before, arena.nodes, arena.labels, node, children, i, next)
      invariant forall j | 0 <= j < |arena.nodes| && arena.nodes[j].val == [] :: arena.nodes[j].wordId == -1
    {
      ghost var mid, was := arena.nodes, next;
      next := AssignWordIds(arena, children[i], next);
      OneChildWalked(before, mid, arena.nodes, arena.labels, node, children, i, was, next);
    }
    AllChildrenWalked(before, arena.nodes, before, arena.labels, node, next);
  }

  lemma ChildrenInRange(nodes: seq<QueryNode>, labels: Labels, node: nat)
    requires Linked(nodes, labels) && node < |nodes|
    ensures InRange(nodes[node].children, |labels|)
    ensures forall k | 0 <= k < |nodes[node].children| :: node < nodes[node].children[k]
  {
    forall k | 0 <= k < |nodes[node].children| ensures node < nodes[node].children[k] < |labels| {
      assert ChildOf(nodes, labels, node, nodes[node].children[k]);
    }
  }

  lemma NodeNumbered(before: seq<QueryNode>, nodes: seq<QueryNode>, labels: Labels, node: nat, dict: seq<Term>)
    requires |before| == |nodes| == |labels| && node < |labels| && InRange(before[node].children, |labels|)
    requires Numbered(nodes[node], dict) && forall j | 0 <= j < |nodes| && j != node :: nodes[j] == before[j]
    ensures NumberedSoFar(before, nodes, labels, node, before[node].children, 0, dict)
  {
  }

  // ---------------------------------------------------------------- evaluate_query

  /** The arena is ready to be evaluated: linked, and every node but the root is numbered. */
  ghost predicate Ready(nodes: seq<QueryNode>, labels: Labels, dict: seq<Term>) {
    && Linked(nodes, labels)
    && nodes[0].wordId == -1
    && forall i | 0 < i < |nodes| :: Numbered(nodes[i], dict)
  }

  /** Children come after their parents, and ids name entries of the found vector. */
  predicate Evaluable(nodes: seq<QueryNode>, found: seq<bool>) {
    && (forall i, k | 0 <= i < |nodes| && 0 <= k < |nodes[i].children| :: i < nodes[i].children[k] < |nodes|)
    && forall i | 0 <= i < |nodes| :: nodes[i].wordId < |found|
  }

  /** evaluate_query */
  predicate Evaluate(nodes: seq<QueryNode>, node: nat, found: seq<bool>)
    requires Evaluable(nodes, found) && node < |nodes|
    decreases |nodes| - node
  {
    var n := nodes[node];
    if n.wordId < 0 then exists k | 0 <= k < |n.children| :: Evaluate(nodes, n.children[k], found)
    else if found[n.wordId] == n.isNegated then false
    else n.children == [] || exists k | 0 <= k < |n.children| :: Evaluate(nodes, n.children[k], found)
  }

  /**
    A node without a text keeps id -1 and is taken for a root: whatever its sign and
    whatever was found, it is true exactly when one of its children is, so an empty
    phrase at the end of a path makes the path false and elsewhere counts as satisfied.
  */
  lemma EmptyText(nodes: seq<QueryNode>, node: nat, dict: seq<Term>, found: seq<bool>)
    requires node < |nodes| && nodes[node].val == [] && Numbered(nodes[node], dict) && Evaluable(nodes, found)
    ensures nodes[node].children == [] ==> !Evaluate(nodes, node, found)
    ensures forall k | 0 <= k < |nodes[node].children| && Evaluate(nodes, nodes[node].children[k], found) :: Evaluate(nodes, node, found)
    ensures Evaluate(nodes, node, found) ==>
              exists k :: 0 <= k < |nodes[node].children| && Evaluate(nodes, nodes[node].children[k], found)
  {
  }

  function FoundVector(dict: seq<Term>, found: Found): (r: seq<bool>)
    ensures |r| == |dict| && forall i | 0 <= i < |r| :: r[i] == found(dict[i])
  {
    seq(|dict|, i requires 0 <= i < |dict| => found(dict[i]))
  }

  /** A key lets the walk through when it is satisfied, or has no text. */
  predicate KeyPasses(key: Key, found: Found) {
    key.term.val == [] || found(key.term) != key.negated
  }

  /** The keys of a label from place `from` on let the walk through. */
  predicate KeysPass(l: seq<Key>, from: nat, found: Found) {
    forall k | from <= k < |l| :: KeyPasses(l[k], found)
  }

  predicate EndsInText(l: seq<Key>) {
    l != [] && l[|l| - 1].term.val != []
  }

  lemma ReadyIsEvaluable(nodes: seq<QueryNode>, labels: Labels, dict: seq<Term>, found: Found)
    requires Ready(nodes, labels, dict)
    ensures Evaluable(nodes, FoundVector(dict, found))
  {
    forall i, k | 0 <= i < |nodes| && 0 <= k < |nodes[i].children| ensures i < nodes[i].children[k] < |nodes| {
      ChildInRange(nodes, labels, i, k);
    }
  }

  /** A leaf with a text below `node`, and everything from `node` down to it lets the walk through. */
  ghost predicate LeafReached(nodes: seq<QueryNode>, labels: Labels, node: nat, from: nat, found: Found)
    requires |labels| == |nodes| && node < |nodes|
  {
    exists j :: LeafAt(nodes, labels, node, from, found, j)
  }

  ghost predicate LeafAt(nodes: seq<QueryNode>, labels: Labels, node: nat, from: nat, found: Found, j: nat)
    requires |labels| == |nodes| && node < |nodes|
  {
    j < |nodes| && nodes[j].children == [] && EndsInText(labels[j]) && Below(labels, node, j) && KeysPass(labels[j], from, found)
  }

  /** Below the root, a node evaluates to true exactly when a satisfied leaf is reached through it. */
  lemma {:induction false} EvaluateNode(nodes: seq<QueryNode>, labels: Labels, dict: seq<Term>, node: nat, found: Found)
    requires Ready(nodes, labels, dict) && 0 < node < |nodes| && Evaluable(nodes, FoundVector(dict, found))
    ensures Evaluate(nodes, node, FoundVector(dict, found)) <==> LeafReached(nodes, labels, node, |labels[node]| - 1, found)
    decreases |nodes| - node
  {
    hide Linked, Evaluable, KeysPass, Below, KeyPasses;
    var n, v := nodes[node], FoundVector(dict, found);
    OwnKey(nodes, labels, dict, node, found);
    if n.children == [] {
      LeafItself(nodes, labels, node, found);
    } else {
      forall k | 0 <= k < |n.children|
        ensures node < n.children[k] < |nodes| && |labels[n.children[k]]| == |labels[node]| + 1
        ensures Evaluate(nodes, n.children[k], v) <==> LeafReached(nodes, labels, n.children[k], |labels[node]|, found)
      {
        ChildInRange(nodes, labels, node, k);
        EvaluateNode(nodes, labels, dict, n.children[k], found);
      }
      ReachedThroughChild(nodes, labels, node, found);
      ReachedWithOwnKey(nodes, labels, node, found);
    }
  }

  /** The check a node makes on its own key; without a text it has id -1 and makes none. */
  lemma OwnKey(nodes: seq<QueryNode>, labels: Labels, dict: seq<Term>, node: nat, found: Found)
    requires Ready(nodes, labels, dict) && 0 < node < |nodes|
    ensures |labels| == |nodes| && labels[node] != []
    ensures nodes[node].wordId < 0 <==> !EndsInText(labels[node])
    ensures nodes[node].wordId < 0 ==> KeyPasses(labels[node][|labels[node]| - 1], found)
    ensures nodes[node].wordId >= 0 ==>
              && nodes[node].wordId < |dict|
              && (FoundVector(dict, found)[nodes[node].wordId] != nodes[node].isNegated
                  <==> KeyPasses(labels[node][|labels[node]| - 1], found))
  {
  }

  lemma LeafItself(nodes: seq<QueryNode>, labels: Labels, node: nat, found: Found)
    requires Linked(nodes, labels) && 0 < node < |nodes| && nodes[node].children == []
    ensures LeafReached(nodes, labels, node, |labels[node]| - 1, found) <==>
            EndsInText(labels[node]) && KeyPasses(labels[node][|labels[node]| - 1], found)
  {
    var from := |labels[node]| - 1;
    forall j | LeafAt(nodes, labels, node, from, found, j) ensures j == node {
      if j != node { var k := ChildToward(nodes, labels, node, j); }
    }
    if EndsInText(labels[node]) && KeyPasses(labels[node][from], found) { assert LeafAt(nodes, labels, node, from, found, node); }
  }

  /** An inner node is not a leaf, so leaves below it are below its children. */
  lemma ReachedThroughChild(nodes: seq<QueryNode>, labels: Labels, node: nat, found: Found)
    requires Linked(nodes, labels) && |labels| == |nodes| && node < |nodes| && nodes[node].children != []
    requires forall k | 0 <= k < |nodes[node].children| :: nodes[node].children[k] < |nodes|
    ensures LeafReached(nodes, labels, node, |labels[node]|, found) <==>
            exists k | 0 <= k < |nodes[node].children| ::
              LeafReached(nodes, labels, nodes[node].children[k], |labels[node]|, found)
  {
    hide KeysPass, Linked, Below;
    var from := |labels[node]|;
    if j :| LeafAt(nodes, labels, node, from, found, j) {
      var k := ChildToward(nodes, labels, node, j);
      assert LeafAt(nodes, labels, nodes[node].children[k], from, found, j);
    }
    forall k | 0 <= k < |nodes[node].children| && LeafReached(nodes, labels, nodes[node].children[k], from, found)
      ensures LeafReached(nodes, labels, node, from, found)
    {
      var j :| LeafAt(nodes, labels, nodes[node].children[k], from, found, j);
      ChildBelow(nodes, labels, node, k, j);
      assert LeafAt(nodes, labels, node, from, found, j);
    }
  }

  lemma ReachedWithOwnKey(nodes: seq<QueryNode>, labels: Labels, node: nat, found: Found)
    requires Linked(nodes, labels) && 0 < node < |nodes|
    ensures LeafReached(nodes, labels, node, |labels[node]| - 1, found) <==>
            KeyPasses(labels[node][|labels[node]| - 1], found) && LeafReached(nodes, labels, node, |labels[node]|, found)
  {
    var from := |labels[node]| - 1;
    forall j: nat | j < |nodes| && Below(labels, node, j)
      ensures LeafAt(nodes, labels, node, from, found, j) <==>
              KeyPasses(labels[node][from], found) && LeafAt(nodes, labels, node, from + 1, found, j)
    {
      assert labels[j][from] == labels[node][from];
    }
  }

  /** The root is true exactly when some leaf's whole label lets the walk through. */
  lemma EvaluateRoot(nodes: seq<QueryNode>, labels: Labels, dict: seq<Term>, found: Found)
    requires Ready(nodes, labels, dict) && Evaluable(nodes, FoundVector(dict, found))
    ensures Evaluate(nodes, 0, FoundVector(dict, found)) <==>
            nodes[0].children != [] && LeafReached(nodes, labels, 0, 0, found)
  {
    hide Linked, Evaluable, KeysPass, Below, EndsInText;
    var v := FoundVector(dict, found);
    RootLabel(nodes, labels);
    forall k | 0 <= k < |nodes[0].children|
      ensures 0 < nodes[0].children[k] < |nodes|
      ensures Evaluate(nodes, nodes[0].children[k], v) <==> LeafReached(nodes, labels, nodes[0].children[k], 0, found)
    {
      ChildInRange(nodes, labels, 0, k);
      EvaluateNode(nodes, labels, dict, nodes[0].children[k], found);
    }
    if nodes[0].children != [] { ReachedThroughChild(nodes, labels, 0, found); }
  }

  // ---------------------------------------------------------------- what the trie answers

  /** A path that no other path extends. */
  ghost predicate Unextended(paths: seq<Path>, p: nat)
    requires p < |paths|
  {
    forall q | 0 <= q < |paths| && Begins(Keys(paths[p]), Keys(paths[q])) :: |paths[q]| == |paths[p]|
  }

  /** What the trie asks of a path: it ends in a text, and every term with a text is satisfied. */
  predicate Passes(p: Path, found: Found) {
    p != [] && p[|p| - 1].val != [] && forall t | t in p && t.val != [] :: Sat(t, found)
  }

  /** On a path whose terms all have a text that is the path's meaning. */
  lemma PassesIsTrue(p: Path, found: Found)
    requires p != [] && forall t | t in p :: t.val != []
    ensures Passes(p, found) <==> PathTrue(p, found)
  {
    assert p[|p| - 1] in p;
  }

  lemma PathKeys(p: Path, found: Found)
    ensures Passes(p, found) <==> EndsInText(Keys(p)) && KeysPass(Keys(p), 0, found)
  {
    forall k | 0 <= k < |p| ensures p[k] in p && (KeyPasses(Keys(p)[k], found) <==> p[k].val == [] || Sat(p[k], found)) {}
    if KeysPass(Keys(p), 0, found) {
      forall t | t in p && t.val != [] ensures Sat(t, found) {
        var k :| 0 <= k < |p| && p[k] == t;
        assert KeyPasses(Keys(p)[k], found);
      }
    }
  }

  /** A leaf carries a path that no other path extends, and each such path ends on a leaf. */
  lemma LeavesAreUnextended(nodes: seq<QueryNode>, labels: Labels, paths: seq<Path>, j: nat)
    requires Linked(nodes, labels) && Prefixes(labels, paths) && j < |nodes| == |labels| && nodes[j].children == [] && labels[j] != []
    ensures exists p :: 0 <= p < |paths| && Keys(paths[p]) == labels[j] && Unextended(paths, p)
  {
    hide Linked;
    assert labels[j] in labels;
    var p :| 0 <= p < |paths| && Begins(labels[j], Keys(paths[p]));
    NothingBeyond(nodes, labels, paths, j, p);
    forall q | 0 <= q < |paths| && Begins(Keys(paths[p]), Keys(paths[q])) ensures |paths[q]| == |paths[p]| {
      NothingBeyond(nodes, labels, paths, j, q);
    }
  }

  /** A path that starts with a leaf's label is that label. */
  lemma NothingBeyond(nodes: seq<QueryNode>, labels: Labels, paths: seq<Path>, j: nat, q: nat)
    requires Linked(nodes, labels) && Prefixes(labels, paths) && j < |nodes| == |labels| && nodes[j].children == []
    requires q < |paths| && Begins(labels[j], Keys(paths[q]))
    ensures Keys(paths[q]) == labels[j]
  {
    var keys := Keys(paths[q]);
    assert Begins(keys, keys) && keys in labels;
    var i :| 0 <= i < |labels| && labels[i] == keys;
    if i != j { var k := ChildToward(nodes, labels, j, i); }
  }

  lemma UnextendedAreLeaves(nodes: seq<QueryNode>, labels: Labels, paths: seq<Path>, p: nat)
    requires Linked(nodes, labels) && Prefixes(labels, paths) && p < |paths| && Unextended(paths, p)
    ensures exists j :: 0 <= j < |nodes| == |labels| && labels[j] == Keys(paths[p]) && (paths[p] != [] ==> nodes[j].children == [])
  {
    var keys := Keys(paths[p]);
    assert Begins(keys, keys) && keys in labels;
    var j :| 0 <= j < |labels| && labels[j] == keys;
    if nodes[j].children != [] && paths[p] != [] {
      ChildInRange(nodes, labels, j, 0);
      var c := nodes[j].children[0];
      assert labels[c] in labels;
      var q :| 0 <= q < |paths| && Begins(labels[c], Keys(paths[q]));
      BeginsThrough(labels[j], labels[c], Keys(paths[q]));
    }
  }

  lemma BeginsThrough(a: seq<Key>, b: seq<Key>, c: seq<Key>)
    requires a <= b <= c && |a| < |b|
    ensures Begins(a, c) && |a| < |c|
  {
    assert c[..|a|] == b[..|a|];
  }

  /**
    What evaluate_query answers, for every assignment: true exactly when the walk passes
    some path that is not a proper prefix of another path.
  */
  lemma EvaluatesUnextended(nodes: seq<QueryNode>, labels: Labels, dict: seq<Term>, paths: seq<Path>, found: Found)
    requires Ready(nodes, labels, dict) && Prefixes(labels, paths)
    ensures Evaluable(nodes, FoundVector(dict, found))
    ensures Evaluate(nodes, 0, FoundVector(dict, found)) <==>
            exists p :: 0 <= p < |paths| && Unextended(paths, p) && Passes(paths[p], found)
  {
    hide Linked, KeysPass, EndsInText, Evaluable, Evaluate, Unextended, Passes, Prefixes, NodeKey;
    ReadyIsEvaluable(nodes, labels, dict, found);
    EvaluateRoot(nodes, labels, dict, found);
    RootLabel(nodes, labels);
    if Evaluate(nodes, 0, FoundVector(dict, found)) {
      var j: nat :| LeafAt(nodes, labels, 0, 0, found, j);
      LeafIsNotRoot(nodes, labels, j);
      LeavesAreUnextended(nodes, labels, paths, j);
      var p :| 0 <= p < |paths| && Keys(paths[p]) == labels[j] && Unextended(paths, p);
      PathKeys(paths[p], found);
    }
    if p :| 0 <= p < |paths| && Unextended(paths, p) && Passes(paths[p], found) {
      PassedHasTerms(paths[p], found);
      UnextendedAreLeaves(nodes, labels, paths, p);
      PathKeys(paths[p], found);
      var j :| 0 <= j < |nodes| && labels[j] == Keys(paths[p]) && nodes[j].children == [];
      RootHasChildren(nodes, labels, j);
      assert LeafAt(nodes, labels, 0, 0, found, j);
    }
  }

  lemma PassedHasTerms(p: Path, found: Found)
    requires Passes(p, found)
    ensures p != []
  {
  }

  lemma LeafIsNotRoot(nodes: seq<QueryNode>, labels: Labels, j: nat)
    requires Linked(nodes, labels) && nodes[0].children != [] && j < |nodes| && nodes[j].children == []
    ensures labels[j] != []
  {
  }

  lemma RootHasChildren(nodes: seq<QueryNode>, labels: Labels, j: nat)
    requires Linked(nodes, labels) && j < |nodes| && labels[j] != []
    ensures nodes[0].children != [] && Below(labels, 0, j)
  {
    var k := ChildToward(nodes, labels, 0, j);
  }
}
