/**
  The cache of robots.txt rules (class RobotsManager, parser/RobotsManager.h and
  fetchAndParse in parser/RobotsManager.cpp): a doubly linked list between two dummy
  nodes, most recently used first, and a map from domains to its nodes.  Fetching and
  parsing a robots.txt is an oracle: its answer is a parameter.
*/
module RobotsCache {
  import opened Bytes
  import opened RobotsRules

  datatype Entry = Entry(domain: Text, rules: seq<Rule>)

  // ---------------------------------------------------------------- what a cache is

  ghost predicate DistinctDomains(entries: seq<Entry>) {
    forall i, j | 0 <= i < j < |entries| :: entries[i].domain != entries[j].domain
  }

  function Find(entries: seq<Entry>, domain: Text): (i: nat)
    ensures i <= |entries| && (i < |entries| ==> entries[i].domain == domain)
    ensures forall j | 0 <= j < i :: entries[j].domain != domain
  {
    if entries == [] || entries[0].domain == domain then 0 else 1 + Find(entries[1..], domain)
  }

  /** One access: a hit moves to the front with its rules, a miss evicts the last entry if the cache is full. */
  function Access(entries: seq<Entry>, capacity: nat, domain: Text, fetched: seq<Rule>): seq<Entry>
  {
    var i := Find(entries, domain);
    if i < |entries| then [entries[i]] + entries[..i] + entries[i + 1..]
    else [Entry(domain, fetched)] + (if |entries| >= capacity > 0 then entries[..|entries| - 1] else entries)
  }

  // ---------------------------------------------------------------- whole runs

  datatype Request = Request(domain: Text, fetched: seq<Rule>)

  function Cache(history: seq<Request>, capacity: nat): seq<Entry> {
    if history == [] then []
    else
      var last := history[|history| - 1];
      Access(Cache(history[..|history| - 1], capacity), capacity, last.domain, last.fetched)
  }

  /** The domains of a history, most recent access first, each once. */
  function Recent(history: seq<Request>): seq<Text> {
    if history == [] then []
    else
      var last := history[|history| - 1].domain;
      [last] + Removed(Recent(history[..|history| - 1]), last)
  }

  function Removed(domains: seq<Text>, d: Text): seq<Text> {
    if domains == [] then []
    else (if domains[0] == d then [] else [domains[0]]) + Removed(domains[1..], d)
  }

  /** The rules fetched at the last access that missed. */
  function Stored(history: seq<Request>, capacity: nat, domain: Text): Option<seq<Rule>> {
    if history == [] then None
    else
      var before, last := history[..|history| - 1], history[|history| - 1];
      if last.domain == domain && Find(Cache(before, capacity), domain) == |Cache(before, capacity)| then Some(last.fetched)
      else Stored(before, capacity, domain)
  }

  function Domains(entries: seq<Entry>): (r: seq<Text>)
    ensures |r| == |entries| && forall i | 0 <= i < |r| :: r[i] == entries[i].domain
  {
    seq(|entries|, i requires 0 <= i < |entries| => entries[i].domain)
  }

  function First(domains: seq<Text>, n: nat): seq<Text> {
    if n < |domains| then domains[..n] else domains
  }

  ghost predicate DistinctTexts(s: seq<Text>) {
    forall i, j | 0 <= i < j < |s| :: s[i] != s[j]
  }

  lemma {:induction false} RemovedExact(s: seq<Text>, d: Text)
    requires DistinctTexts(s)
    ensures DistinctTexts(Removed(s, d))
    ensures forall x :: x in Removed(s, d) <==> x in s && x != d
  {
    if s != [] {
      RemovedExact(s[1..], d);
      var rest := Removed(s[1..], d);
      forall i | 0 <= i < |rest| ensures rest[i] != s[0] {
        assert rest[i] in rest;
        assert forall j | 0 <= j < |s[1..]| :: s[1..][j] == s[j + 1] != s[0];
      }
    }
  }

  /** Removing the element at place k of a distinct list. */
  lemma {:induction false} RemovedAt(s: seq<Text>, d: Text, k: nat)
    requires DistinctTexts(s) && k < |s| && s[k] == d
    ensures Removed(s, d) == s[..k] + s[k + 1..]
  {
    if k == 0 {
      RemovedNone(s[1..], d);
    } else {
      RemovedAt(s[1..], d, k - 1);
      assert s[1..][..k - 1] == s[1..k] && s[1..][k..] == s[k + 1..];
      assert s[..k] == [s[0]] + s[1..k];
    }
  }

  lemma {:induction false} RemovedNone(s: seq<Text>, d: Text)
    requires d !in s
    ensures Removed(s, d) == s
  {
    if s != [] {
      assert s[0] in s;
      RemovedNone(s[1..], d);
      assert s == [s[0]] + s[1..];
    }
  }

  ghost predicate Asked(history: seq<Request>, d: Text) {
    exists i :: 0 <= i < |history| && history[i].domain == d
  }

  /** The recency list holds the domains asked for, each once. */
  lemma {:induction false} RecentDistinct(history: seq<Request>)
    ensures DistinctTexts(Recent(history))
    ensures forall d :: d in Recent(history) <==> Asked(history, d)
  {
    if history != [] {
      hide Removed, Asked;
      var before, last := history[..|history| - 1], history[|history| - 1];
      RecentDistinct(before);
      RemovedExact(Recent(before), last.domain);
      var rest := Removed(Recent(before), last.domain);
      assert forall i | 0 <= i < |rest| :: rest[i] in rest;
      assert history == before + [last];
      forall d ensures d in Recent(history) <==> Asked(history, d) { AskedMore(before, last, d); }
    }
  }

  lemma AskedMore(before: seq<Request>, last: Request, d: Text)
    ensures Asked(before + [last], d) <==> d == last.domain || Asked(before, d)
  {
    var history := before + [last];
    assert history[|before|].domain == last.domain;
    if i :| 0 <= i < |before| && before[i].domain == d { assert history[i].domain == d; }
  }

  lemma CutHit(recent: seq<Text>, doms: seq<Text>, capacity: nat, i: nat)
    requires DistinctTexts(recent) && doms == First(recent, capacity) && i < |doms|
    ensures [doms[i]] + doms[..i] + doms[i + 1..] == First([doms[i]] + Removed(recent, doms[i]), capacity)
  {
    hide Removed;
    RemovedAt(recent, doms[i], i);
    assert [doms[i]] + (recent[..i] + recent[i + 1..]) == [doms[i]] + recent[..i] + recent[i + 1..];
  }

  lemma CutMiss(recent: seq<Text>, doms: seq<Text>, capacity: nat, d: Text)
    requires DistinctTexts(recent) && 0 < capacity && doms == First(recent, capacity) && d !in doms
    ensures [d] + (if |doms| >= capacity then doms[..|doms| - 1] else doms) == First([d] + Removed(recent, d), capacity)
  {
    hide Removed;
    if d in recent {
      var k :| 0 <= k < |recent| && recent[k] == d;
      RemovedAt(recent, d, k);
      assert forall j | 0 <= j < |doms| :: recent[j] == doms[j] && doms[j] in doms;
      assert recent[..k] + recent[k + 1..] == Removed(recent, d);
      assert (recent[..k] + recent[k + 1..])[..capacity - 1] == recent[..capacity - 1];
      assert ([d] + Removed(recent, d))[..capacity] == [d] + Removed(recent, d)[..capacity - 1];
    } else {
      RemovedNone(recent, d);
    }
  }

  /** One access on the recency list, cut at the capacity, is one access of the cache. */
  lemma CutAccess(recent: seq<Text>, entries: seq<Entry>, capacity: nat, domain: Text, fetched: seq<Rule>)
    requires DistinctTexts(recent) && 0 < capacity && Domains(entries) == First(recent, capacity)
    ensures Domains(Access(entries, capacity, domain, fetched)) == First([domain] + Removed(recent, domain), capacity)
  {
    hide Removed, First, Domains;
    var i, doms := Find(entries, domain), Domains(entries);
    assert Domains([Entry(domain, fetched)]) == [domain];
    if i < |entries| {
      CutHit(recent, doms, capacity, i);
      DomainsOf(entries, i);
      DomainsJoin([entries[i]], entries[..i]);
      DomainsJoin([entries[i]] + entries[..i], entries[i + 1..]);
    } else {
      CutMiss(recent, doms, capacity, domain);
      var kept := if |entries| >= capacity then entries[..|entries| - 1] else entries;
      DomainsJoin([Entry(domain, fetched)], kept);
      if |entries| >= capacity { DomainsOf(entries, |entries| - 1); }
    }
  }

  lemma DomainsJoin(a: seq<Entry>, b: seq<Entry>)
    ensures Domains(a + b) == Domains(a) + Domains(b)
  {
  }

  lemma DomainsOf(entries: seq<Entry>, i: nat)
    requires i < |entries|
    ensures Domains([entries[i]]) == [Domains(entries)[i]]
    ensures Domains(entries[..i]) == Domains(entries)[..i]
    ensures Domains(entries[i + 1..]) == Domains(entries)[i + 1..]
  {
  }

  /**
    After any run the cache holds exactly the most recently used distinct domains, at most
    `capacity` of them, most recent first, each with the rules fetched at its last miss.
  */
  lemma {:induction false} CacheIsRecent(history: seq<Request>, capacity: nat)
    requires 0 < capacity
    ensures Domains(Cache(history, capacity)) == First(Recent(history), capacity)
    ensures DistinctDomains(Cache(history, capacity))
    ensures forall e | e in Cache(history, capacity) :: Stored(history, capacity, e.domain) == Some(e.rules)
  {
    RecentDistinct(history);
    if history == [] {
    } else {
      var before, last := history[..|history| - 1], history[|history| - 1];
      CacheIsRecent(before, capacity);
      RecentDistinct(before);
      CutAccess(Recent(before), Cache(before, capacity), capacity, last.domain, last.fetched);
      FirstDistinct(Recent(history), Cache(history, capacity), capacity);
      StoredAfter(history, capacity);
    }
  }

  lemma FirstDistinct(recent: seq<Text>, entries: seq<Entry>, capacity: nat)
    requires DistinctTexts(recent) && Domains(entries) == First(recent, capacity)
    ensures DistinctDomains(entries)
  {
    assert forall i | 0 <= i < |entries| :: entries[i].domain == Domains(entries)[i] == recent[i];
  }

  lemma StoredAfter(history: seq<Request>, capacity: nat)
    requires history != [] && 0 < capacity
    requires var before := history[..|history| - 1];
             && DistinctDomains(Cache(before, capacity))
             && forall e | e in Cache(before, capacity) :: Stored(before, capacity, e.domain) == Some(e.rules)
    ensures forall e | e in Cache(history, capacity) :: Stored(history, capacity, e.domain) == Some(e.rules)
  {
    hide Stored, Access;
    var before, last := history[..|history| - 1], history[|history| - 1];
    var entries := Cache(before, capacity);
    forall e | e in Cache(history, capacity) ensures Stored(history, capacity, e.domain) == Some(e.rules) {
      StoredStep(history, capacity, e.domain);
      AccessHolds(entries, capacity, last.domain, last.fetched, e);
    }
  }

  /** What the cache holds after an access was there before, but for a fetched entry. */
  lemma AccessHolds(entries: seq<Entry>, capacity: nat, domain: Text, fetched: seq<Rule>, e: Entry)
    requires e in Access(entries, capacity, domain, fetched)
    ensures if Find(entries, domain) == |entries| && e.domain == domain then e.rules == fetched else e in entries
  {
  }

  lemma StoredStep(history: seq<Request>, capacity: nat, domain: Text)
    requires history != []
    ensures var before, last := history[..|history| - 1], history[|history| - 1];
            Stored(history, capacity, domain) ==
            if last.domain == domain && Find(Cache(before, capacity), domain) == |Cache(before, capacity)| then Some(last.fetched)
            else Stored(before, capacity, domain)
  {
  }

  // ---------------------------------------------------------------- the linked list

  class Node {
    const domain: Text
    const rules: seq<Rule>
    var prev: Node?
    var next: Node?

    constructor (domain: Text, rules: seq<Rule>)
      ensures this.domain == domain && this.rules == rules && prev == null && next == null
    {
      this.domain, this.rules, prev, next := domain, rules, null, null;
    }
  }

  /** The map's nodes are the listed ones, each under its domain. */
  ghost predicate Mapped(cacheMap: map<Text, Node>, order: seq<Node>) {
    && (forall d | d in cacheMap :: cacheMap[d] in order && cacheMap[d].domain == d)
    && (forall i | 0 <= i < |order| :: order[i].domain in cacheMap && cacheMap[order[i].domain] == order[i])
  }

  function EntriesOf(order: seq<Node>): (es: seq<Entry>)
    ensures |es| == |order| && forall i | 0 <= i < |es| :: es[i] == Entry(order[i].domain, order[i].rules)
  {
    seq(|order|, i requires 0 <= i < |order| => Entry(order[i].domain, order[i].rules))
  }

  /** The nodes are linked both ways, in this order, each once. */
  ghost predicate Chained(c: seq<Node>)
    reads c
  {
    && (forall i, j | 0 <= i < j < |c| :: c[i] != c[j])
    && (forall i | 0 <= i < |c| - 1 :: c[i].next == c[i + 1])
    && (forall i | 0 < i < |c| :: c[i].prev == c[i - 1])
  }

  lemma LinkedBack(c: seq<Node>, i: nat)
    requires Chained(c) && 0 < i < |c|
    ensures c[i].prev == c[i - 1]
  {
  }

  /** The last node between the dummies, and the chain without it. */
  lemma LastInChain(head: Node, order: seq<Node>, tail: Node)
    requires order != []
    ensures var c, n := [head] + order + [tail], |order|;
            && c[n] == order[n - 1] && c[n + 1] == tail && (c[n - 1] == head || c[n - 1] in order)
            && [head] + order[..n - 1] + [tail] == c[..n] + c[n + 1..]
  {
  }

  /** Taking a node out: its neighbours are joined. */
  method Unlink(n: Node, ghost c: seq<Node>, ghost i: nat, ghost before: Node, ghost after: Node)
    requires Chained(c) && 0 < i < |c| - 1 && c[i] == n && c[i - 1] == before && c[i + 1] == after
    modifies before`next, after`prev
    ensures Chained(c[..i] + c[i + 1..])
  {
    assert n.prev == c[i - 1] && n.next == c[i + 1];
    n.prev.next := n.next;
    n.next.prev := n.prev;
  }

  /** Putting a node behind the head. */
  method LinkFirst(head: Node, n: Node, ghost c: seq<Node>, ghost second: Node)
    requires Chained(c) && |c| >= 2 && c[0] == head && c[1] == second && n !in c
    modifies n`prev, n`next, head`next, second`prev
    ensures Chained([head, n] + c[1..])
  {
    assert head.next == c[1];
    n.next := head.next;
    n.prev := head;
    head.next.prev := n;
    head.next := n;
  }

  class RobotsManager {
    const capacity: nat
    var currentSize: nat
    const head: Node
    const tail: Node
    var cacheMap: map<Text, Node>

    /** The nodes between the dummies. */
    ghost var order: seq<Node>

    ghost function Chain(): seq<Node>
      reads this
    {
      [head] + order + [tail]
    }

    ghost predicate Valid()
      reads this, head, tail, order
    {
      Chained(Chain()) && |order| == currentSize && Mapped(cacheMap, order)
    }

    /** What the cache holds, most recently used first. */
    ghost function Entries(): seq<Entry>
      reads this
    {
      EntriesOf(order)
    }

    constructor (capacity: nat)
      ensures Valid() && Entries() == [] && this.capacity == capacity && fresh(Chain())
    {
      this.capacity, currentSize, cacheMap, order := capacity, 0, map[], [];
      var h := new Node([], []);
      var t := new Node([], []);
      h.next := t;
      t.prev := h;
      head, tail := h, t;
    }

    /** fetchAndParse: the cached node, or a new one for the fetched rules, after evicting the last if need be. */
    method FetchAndParse(domain: Text, fetched: seq<Rule>) returns (node: Node)
      requires Valid() && 0 < capacity
      modifies this, head, tail, order
      ensures Valid() && node in order && node.domain == domain
      ensures forall n | n in order :: n in old(order) || fresh(n)
      ensures if Find(old(Entries()), domain) < |old(order)| then order == old(order) && node == order[Find(old(Entries()), domain)]
              else node == order[0] && order[1..] == Kept(old(order), capacity) && node.rules == fetched
    {
      hide Chained, Mapped;
      FoundAt(cacheMap, order, domain);
      if domain in cacheMap { return cacheMap[domain]; }
      if currentSize >= capacity { EvictLast(); }
      node := new Node(domain, fetched);
      InsertFirst(node);
    }

    /** The least recently used node goes. */
    method EvictLast()
      requires Valid() && |order| > 0
      modifies this, head, tail, order
      ensures Valid() && order == old(order)[..|old(order)| - 1]
      ensures cacheMap == old(cacheMap) - {old(order)[|old(order)| - 1].domain}
    {
      hide Mapped, Chained;
      ghost var n := |order|;
      ghost var c := Chain();
      LastInChain(head, order, tail);
      LinkedBack(c, n + 1);
      DistinctNodes();
      LastMapped(cacheMap, order);
      var lru := tail.prev;
      Unlink(lru, c, n, c[n - 1], tail);
      cacheMap := cacheMap - {lru.domain};
      currentSize := currentSize - 1;
      order := order[..n - 1];
    }

    method InsertFirst(node: Node)
      requires Valid() && node !in Chain() && node !in order && node.domain !in cacheMap
      modifies this, head, tail, order, node
      ensures Valid() && order == [node] + old(order)
    {
      hide Mapped, Chained;
      ghost var c := Chain();
      assert c[1] == tail || c[1] in order;
      FirstMapped(cacheMap, order, node);
      LinkFirst(head, node, c, c[1]);
      cacheMap := cacheMap[node.domain := node];
      currentSize := currentSize + 1;
      order := [node] + order;
      assert Chain() == [head, node] + c[1..];
    }

    /** The move to the front in checkStatus. */
    method MoveFirst(node: Node, ghost i: nat)
      requires Valid() && i < |order| && order[i] == node
      modifies this`order, head, tail, order
      ensures Valid() && order == [node] + old(order)[..i] + old(order)[i + 1..]
    {
      hide Mapped, Chained;
      ghost var c := Chain();
      assert c[i + 1] == node;
      assert c[i] == head || c[i] in order;
      assert c[i + 2] == tail || c[i + 2] in order;
      MovedMapped(cacheMap, order, i);
      NotInRest(c, i + 1);
      Unlink(node, c, i + 1, c[i], c[i + 2]);
      ghost var rest := c[..i + 1] + c[i + 2..];
      assert rest[1] == tail || rest[1] in order;
      LinkFirst(head, node, rest, rest[1]);
      order := [node] + order[..i] + order[i + 1..];
      assert Chain() == [head, node] + rest[1..];
    }

    /** checkStatus: may this URL path be crawled?  The domain becomes the most recently used. */
    method CheckStatus(domain: Text, userAgent: Text, path: Text, fetched: seq<Rule>) returns (allowed: bool)
      requires Valid() && 0 < capacity
      requires SortedRules(fetched) && RulesSorted(order)
      modifies this, head, tail, order
      ensures Valid() && Entries() == Access(old(Entries()), capacity, domain, fetched)
      ensures forall n | n in order :: n in old(order) || fresh(n)
      ensures |order| > 0 && order[0].domain == domain
      ensures RulesSorted(order)
      ensures allowed <==> !Denied(order[0].rules, userAgent, DecodedPath(path))
    {
      hide Chained, Mapped, Denied, RulesSorted, Access;
      ghost var before := order;
      var node := FetchAndParse(domain, fetched);
      ghost var i, mid := PlaceOf(order, node), order;
      FirstPlace(order, node);
      DistinctNodes();
      MoveFirst(node, i);
      AccessMoves(before, mid, i, capacity, domain, fetched);
      StaySorted(before, mid, i, capacity, fetched);
      var delay;
      allowed, delay := PathAllowed(node.rules, userAgent, path);
    }

    lemma DistinctNodes()
      requires Valid()
      ensures forall i, j | 0 <= i < j < |order| :: order[i] != order[j]
    {
      hide Mapped;
      assert forall i | 0 <= i < |order| :: order[i] == Chain()[i + 1];
    }
  }

  ghost predicate SortedRules(rules: seq<Rule>) {
    forall i | 0 <= i < |rules| :: WellSorted(rules[i])
  }

  /** Every cached file's groups are sorted as the parser leaves them. */
  ghost predicate RulesSorted(order: seq<Node>) {
    forall n | n in order :: SortedRules(n.rules)
  }

  lemma StaySorted(before: seq<Node>, mid: seq<Node>, i: nat, capacity: nat, fetched: seq<Rule>)
    requires RulesSorted(before) && SortedRules(fetched) && i < |mid|
    requires mid == before || (mid[1..] == Kept(before, capacity) && mid[0].rules == fetched)
    ensures SortedRules(mid[i].rules) && RulesSorted([mid[i]] + mid[..i] + mid[i + 1..])
  {
    hide SortedRules;
    forall n | n in mid ensures SortedRules(n.rules) {
      if n != mid[0] && mid != before { assert n in mid[1..]; }
    }
  }

  /** What an eviction leaves. */
  function Kept<X>(s: seq<X>, capacity: nat): seq<X> {
    if |s| >= capacity > 0 then s[..|s| - 1] else s
  }

  lemma FirstPlace(order: seq<Node>, n: Node)
    requires n in order
    ensures order[0] == n ==> PlaceOf(order, n) == 0
  {
  }

  /** Fetching and then moving to the front is one access. */
  lemma AccessMoves(before: seq<Node>, mid: seq<Node>, i: nat, capacity: nat, domain: Text, fetched: seq<Rule>)
    requires i < |mid| && mid[i].domain == domain && 0 < capacity
    requires forall a, b | 0 <= a < b < |mid| :: mid[a] != mid[b]
    requires var k := Find(EntriesOf(before), domain);
             if k < |before| then mid == before && mid[i] == before[k]
             else i == 0 && mid[1..] == Kept(before, capacity) && mid[0].rules == fetched
    ensures EntriesOf([mid[i]] + mid[..i] + mid[i + 1..]) == Access(EntriesOf(before), capacity, domain, fetched)
  {
    var k := Find(EntriesOf(before), domain);
    MovedEntries(mid, i);
    if k < |before| {
      assert i == k;
    } else {
      assert EntriesOf(mid) == [Entry(domain, fetched)] + EntriesOf(mid[1..]);
      assert EntriesOf(Kept(before, capacity)) == Kept(EntriesOf(before), capacity);
      assert [EntriesOf(mid)[0]] + EntriesOf(mid)[..0] + EntriesOf(mid)[1..] == EntriesOf(mid);
    }
  }

  /** A cached domain's node stands at its place in the order. */
  lemma FoundAt(cacheMap: map<Text, Node>, order: seq<Node>, domain: Text)
    requires Mapped(cacheMap, order)
    ensures var i := Find(EntriesOf(order), domain);
            if domain in cacheMap then i < |order| && cacheMap[domain] == order[i] else i == |order|
  {
    var i := Find(EntriesOf(order), domain);
    if domain in cacheMap {
      var k :| 0 <= k < |order| && order[k] == cacheMap[domain];
      assert EntriesOf(order)[k].domain == domain;
    }
  }

  lemma LastMapped(cacheMap: map<Text, Node>, order: seq<Node>)
    requires Mapped(cacheMap, order) && |order| > 0 && forall i, j | 0 <= i < j < |order| :: order[i] != order[j]
    ensures Mapped(cacheMap - {order[|order| - 1].domain}, order[..|order| - 1])
  {
    var d, less := order[|order| - 1].domain, order[..|order| - 1];
    forall x | x in cacheMap - {d} ensures cacheMap[x] in less {
      var k :| 0 <= k < |order| && order[k] == cacheMap[x];
      assert less[k] == cacheMap[x];
    }
    forall i | 0 <= i < |less| ensures less[i].domain != d {
      assert cacheMap[order[i].domain] == order[i];
    }
  }

  lemma FirstMapped(cacheMap: map<Text, Node>, order: seq<Node>, node: Node)
    requires Mapped(cacheMap, order) && node.domain !in cacheMap
    ensures Mapped(cacheMap[node.domain := node], [node] + order)
  {
    var more := [node] + order;
    assert more[0] == node;
    forall x | x in cacheMap ensures cacheMap[x] in more {
      var k :| 0 <= k < |order| && order[k] == cacheMap[x];
      assert more[k + 1] == cacheMap[x];
    }
  }

  lemma MovedMapped(cacheMap: map<Text, Node>, order: seq<Node>, i: nat)
    requires Mapped(cacheMap, order) && i < |order|
    ensures Mapped(cacheMap, [order[i]] + order[..i] + order[i + 1..])
  {
    var moved := [order[i]] + order[..i] + order[i + 1..];
    forall x | x in cacheMap ensures cacheMap[x] in moved {
      var k :| 0 <= k < |order| && order[k] == cacheMap[x];
      assert moved[if k == i then 0 else if k < i then k + 1 else k] == cacheMap[x];
    }
  }

  lemma NotInRest(c: seq<Node>, i: nat)
    requires Chained(c) && i < |c|
    ensures c[i] !in c[..i] + c[i + 1..]
  {
  }

  /** The move, seen on the entries: the accessed one is first, the others keep their order. */
  lemma MovedEntries(order: seq<Node>, i: nat)
    requires i < |order|
    ensures var es := EntriesOf(order);
            EntriesOf([order[i]] + order[..i] + order[i + 1..]) == [es[i]] + es[..i] + es[i + 1..]
  {
  }

  ghost function PlaceOf(order: seq<Node>, n: Node): (i: nat)
    requires n in order
    ensures i < |order| && order[i] == n
  {
    if order[0] == n then 0 else 1 + PlaceOf(order[1..], n)
  }
}
