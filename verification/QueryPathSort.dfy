/**
  Ordering the terms of each path so that shared ones come first (parse_query_tree,
  query/expressions.h): count every term, then bubble sort each path by count, ties by
  the order of appearance.
*/
module QueryPathSort {
  import opened QueryAst
  import opened QueryMeaning
  import opened QueryDnf

  /** Terms are compared by sign, kind and text, not by id. */
  predicate SameTerm(a: TermData, b: TermData) {
    a.negated == b.negated && a.isPhrase == b.isPhrase && a.val == b.val
  }

  /** How often a term occurs in a list. */
  function Occurrences(terms: seq<TermData>, t: TermData): nat {
    if terms == [] then 0
    else Occurrences(terms[..|terms| - 1], t) + if SameTerm(terms[|terms| - 1], t) then 1 else 0
  }

  function Flat(ps: seq<Path>): seq<TermData> {
    if ps == [] then [] else Flat(ps[..|ps| - 1]) + ps[|ps| - 1]
  }

  lemma {:induction false} OccurrencesOfSame(terms: seq<TermData>, a: TermData, b: TermData)
    requires SameTerm(a, b)
    ensures Occurrences(terms, a) == Occurrences(terms, b)
  {
    if terms != [] { OccurrencesOfSame(terms[..|terms| - 1], a, b); }
  }

  // ---------------------------------------------------------------- counting

  datatype TermFreq = TermFreq(term: TermData, count: nat)

  /** One entry for each different term seen, with its exact count. */
  ghost predicate Tally(freqs: seq<TermFreq>, seen: seq<TermData>) {
    && (forall f | 0 <= f < |freqs| :: freqs[f].count == Occurrences(seen, freqs[f].term))
    && (forall f, g | 0 <= f < g < |freqs| :: !SameTerm(freqs[f].term, freqs[g].term))
    && (forall t | t in seen :: exists f :: 0 <= f < |freqs| && SameTerm(freqs[f].term, t))
  }

  method CountTerms(paths: seq<Path>) returns (freqs: seq<TermFreq>)
    ensures Tally(freqs, Flat(paths))
  {
    hide Tally, SameTerm;
    freqs := [];
    TallyNothing();
    for p := 0 to |paths|
      invariant Tally(freqs, Flat(paths[..p]))
    {
      ghost var before := Flat(paths[..p]);
      assert before + paths[p][..0] == before;
      for t := 0 to |paths[p]|
        invariant Tally(freqs, before + paths[p][..t])
      {
        freqs := CountOne(freqs, paths[p][t], before + paths[p][..t]);
        assert before + paths[p][..t] + [paths[p][t]] == before + paths[p][..t + 1];
      }
      assert paths[..p + 1][..p] == paths[..p] && paths[p][..|paths[p]|] == paths[p];
    }
    assert paths[..|paths|] == paths;
  }

  lemma TallyNothing()
    ensures Tally([], Flat([]))
  {
  }

  method CountOne(freqs: seq<TermFreq>, t: TermData, ghost seen: seq<TermData>) returns (next: seq<TermFreq>)
    requires Tally(freqs, seen)
    ensures Tally(next, seen + [t])
  {
    hide Tally, SameTerm;
    for f := 0 to |freqs|
      invariant forall g | 0 <= g < f :: !SameTerm(freqs[g].term, t)
    {
      if SameTerm(freqs[f].term, t) {
        CountAgain(freqs, seen, t, f);
        return freqs[f := freqs[f].(count := freqs[f].count + 1)];
      }
    }
    CountFirst(freqs, seen, t);
    next := freqs + [TermFreq(t, 1)];
  }

  lemma CountAgain(freqs: seq<TermFreq>, seen: seq<TermData>, t: TermData, f: nat)
    requires Tally(freqs, seen) && f < |freqs| && SameTerm(freqs[f].term, t)
    ensures Tally(freqs[f := freqs[f].(count := freqs[f].count + 1)], seen + [t])
  {
    hide Occurrences;
    var next, all := freqs[f := freqs[f].(count := freqs[f].count + 1)], seen + [t];
    forall g | 0 <= g < |freqs| ensures next[g].count == Occurrences(all, next[g].term) && next[g].term == freqs[g].term {
      OneOccurrenceMore(seen, t, freqs[g].term);
      assert g < f ==> !SameTerm(freqs[g].term, freqs[f].term);
      assert g > f ==> !SameTerm(freqs[f].term, freqs[g].term);
    }
    forall u | u in all ensures exists g :: 0 <= g < |next| && SameTerm(next[g].term, u) {
      var g := if u in seen then WhereCounted(freqs, seen, u) else f;
      assert SameTerm(next[g].term, u);
    }
  }

  lemma OneOccurrenceMore(seen: seq<TermData>, t: TermData, u: TermData)
    ensures Occurrences(seen + [t], u) == Occurrences(seen, u) + if SameTerm(t, u) then 1 else 0
  {
    assert (seen + [t])[..|seen|] == seen;
  }

  ghost function WhereCounted(freqs: seq<TermFreq>, seen: seq<TermData>, u: TermData): (g: nat)
    requires Tally(freqs, seen) && u in seen
    ensures g < |freqs| && SameTerm(freqs[g].term, u)
  {
    var g :| 0 <= g < |freqs| && SameTerm(freqs[g].term, u);
    g
  }

  lemma {:induction false} NoneSeen(seen: seq<TermData>, t: TermData)
    requires forall u | u in seen :: !SameTerm(u, t)
    ensures Occurrences(seen, t) == 0
  {
    if seen != [] { NoneSeen(seen[..|seen| - 1], t); }
  }

  lemma CountFirst(freqs: seq<TermFreq>, seen: seq<TermData>, t: TermData)
    requires Tally(freqs, seen) && forall g | 0 <= g < |freqs| :: !SameTerm(freqs[g].term, t)
    ensures Tally(freqs + [TermFreq(t, 1)], seen + [t])
  {
    var next, all := freqs + [TermFreq(t, 1)], seen + [t];
    assert all[..|all| - 1] == seen;
    forall u | u in seen ensures !SameTerm(u, t) {
      var g :| 0 <= g < |freqs| && SameTerm(freqs[g].term, u);
    }
    NoneSeen(seen, t);
    forall g | 0 <= g < |next| ensures next[g].count == Occurrences(all, next[g].term) {
      if g < |freqs| { assert next[g] == freqs[g]; }
    }
    forall u | u in all ensures exists g :: 0 <= g < |next| && SameTerm(next[g].term, u) {
      if u in seen {
        var g :| 0 <= g < |freqs| && SameTerm(freqs[g].term, u);
        assert SameTerm(next[g].term, u);
      } else {
        assert SameTerm(next[|freqs|].term, u);
      }
    }
  }

  /** The search for a term's count. */
  method FreqOf(freqs: seq<TermFreq>, t: TermData, ghost seen: seq<TermData>) returns (freq: nat)
    requires Tally(freqs, seen)
    ensures freq == Occurrences(seen, t)
  {
    freq := 0;
    ghost var at := -1;
    for f := 0 to |freqs|
      invariant at == -1 ==> freq == 0 && forall g | 0 <= g < f :: !SameTerm(freqs[g].term, t)
      invariant at != -1 ==> 0 <= at < f && SameTerm(freqs[at].term, t) && freq == freqs[at].count
    {
      if SameTerm(freqs[f].term, t) {
        if at != -1 { assert !SameTerm(freqs[at].term, freqs[f].term); }
        freq, at := freqs[f].count, f;
      }
    }
    if at != -1 {
      OccurrencesOfSame(seen, freqs[at].term, t);
    } else {
      forall u | u in seen ensures !SameTerm(u, t) {
        var g :| 0 <= g < |freqs| && SameTerm(freqs[g].term, u);
      }
      NoneSeen(seen, t);
    }
  }

  // ---------------------------------------------------------------- sorting

  /** The order inside a path: more occurrences first, then the smaller id. */
  predicate OutOfOrder(all: seq<TermData>, a: TermData, b: TermData) {
    Occurrences(all, a) < Occurrences(all, b) || (Occurrences(all, a) == Occurrences(all, b) && a.id > b.id)
  }

  predicate Sorted(all: seq<TermData>, terms: Path) {
    forall i, j | 0 <= i < j < |terms| :: !OutOfOrder(all, terms[i], terms[j])
  }

  /** The last places are sorted, and hold nothing that belongs before an earlier term. */
  predicate SortedFrom(all: seq<TermData>, terms: Path, k: nat) {
    forall i, j | 0 <= i < j < |terms| && k <= j :: !OutOfOrder(all, terms[i], terms[j])
  }

  /** The bubble sort of one path. */
  method SortPath(path: Path, freqs: seq<TermFreq>, ghost all: seq<TermData>) returns (terms: Path)
    requires Tally(freqs, all)
    ensures Sorted(all, terms) && multiset(terms) == multiset(path)
    ensures forall i, j | 0 <= i < j < |terms| ::
              var m, n := Occurrences(all, terms[i]), Occurrences(all, terms[j]); m > n || (m == n && terms[i].id <= terms[j].id)
  {
    hide Tally, OutOfOrder, SortedFrom;
    terms := path;
    SortedFromEnd(all, terms);
    for i := 0 to |terms|
      invariant |terms| == |path| && multiset(terms) == multiset(path)
      invariant SortedFrom(all, terms, |terms| - i)
    {
      terms := BubbleUp(terms, |terms| - i - 1, freqs, all);
    }
    SortedFromAll(all, terms);
    MostFrequentFirst(all, terms);
  }

  lemma MostFrequentFirst(all: seq<TermData>, terms: Path)
    requires Sorted(all, terms)
    ensures forall i, j | 0 <= i < j < |terms| ::
              var m, n := Occurrences(all, terms[i]), Occurrences(all, terms[j]); m > n || (m == n && terms[i].id <= terms[j].id)
  {
  }

  lemma SortedFromEnd(all: seq<TermData>, terms: Path)
    ensures SortedFrom(all, terms, |terms|)
  {
  }

  lemma SortedFromAll(all: seq<TermData>, terms: Path)
    requires SortedFrom(all, terms, 0)
    ensures Sorted(all, terms)
  {
  }

  /** One pass: the term that belongs last among terms 0..last moves to place `last`. */
  method BubbleUp(path: Path, last: nat, freqs: seq<TermFreq>, ghost all: seq<TermData>) returns (terms: Path)
    requires Tally(freqs, all) && last < |path| && SortedFrom(all, path, last + 1)
    ensures |terms| == |path| && multiset(terms) == multiset(path) && SortedFrom(all, terms, last)
  {
    hide Tally, OutOfOrder, SortedFrom, UpTo;
    terms := path;
    UpToStart(all, terms, last);
    for j := 0 to last
      invariant |terms| == |path| && multiset(terms) == multiset(path)
      invariant UpTo(all, terms, last, j)
    {
      var a := FreqOf(freqs, terms[j], all);
      var b := FreqOf(freqs, terms[j + 1], all);
      UpToStep(all, terms, last, j);
      if a < b || (a == b && terms[j].id > terms[j + 1].id) {
        SwapKeeps(terms, j);
        terms := terms[j := terms[j + 1]][j + 1 := terms[j]];
      }
    }
    UpToEnd(all, terms, last);
  }

  /** Within a pass: what lies after `last` is in place, and term j belongs after all before it. */
  predicate UpTo(all: seq<TermData>, terms: Path, last: nat, j: nat) {
    && j <= last < |terms| && SortedFrom(all, terms, last + 1)
    && forall i | 0 <= i < j :: !OutOfOrder(all, terms[i], terms[j])
  }

  lemma UpToStart(all: seq<TermData>, terms: Path, last: nat)
    requires last < |terms| && SortedFrom(all, terms, last + 1)
    ensures UpTo(all, terms, last, 0)
  {
  }

  lemma UpToEnd(all: seq<TermData>, terms: Path, last: nat)
    requires UpTo(all, terms, last, last)
    ensures SortedFrom(all, terms, last)
  {
    hide OutOfOrder;
  }

  lemma UpToStep(all: seq<TermData>, terms: Path, last: nat, j: nat)
    requires j < last && UpTo(all, terms, last, j)
    ensures var a, b := Occurrences(all, terms[j]), Occurrences(all, terms[j + 1]);
            if a < b || (a == b && terms[j].id > terms[j + 1].id)
            then UpTo(all, terms[j := terms[j + 1]][j + 1 := terms[j]], last, j + 1)
            else UpTo(all, terms, last, j + 1)
  {
  }

  lemma SwapKeeps(terms: Path, j: nat)
    requires j + 1 < |terms|
    ensures multiset(terms[j := terms[j + 1]][j + 1 := terms[j]]) == multiset(terms)
  {
  }

  /** The sorted paths are the paths, each in its order. */
  ghost predicate SortedPaths(sorted: seq<Path>, paths: seq<Path>) {
    && |sorted| == |paths|
    && forall p | 0 <= p < |paths| :: Sorted(Flat(paths), sorted[p]) && multiset(sorted[p]) == multiset(paths[p])
  }

  method SortPaths(paths: seq<Path>) returns (sorted: seq<Path>)
    ensures SortedPaths(sorted, paths)
  {
    hide Sorted, Tally;
    var freqs := CountTerms(paths);
    sorted := paths;
    for p := 0 to |paths|
      invariant |sorted| == |paths| && forall q | p <= q < |paths| :: sorted[q] == paths[q]
      invariant forall q | 0 <= q < p :: Sorted(Flat(paths), sorted[q]) && multiset(sorted[q]) == multiset(paths[q])
    {
      var terms := SortPath(sorted[p], freqs, Flat(paths));
      sorted := sorted[p := terms];
    }
  }

  /** Sorting changes the meaning of no path. */
  lemma SortedMeaning(sorted: seq<Path>, paths: seq<Path>, found: Found)
    requires SortedPaths(sorted, paths)
    ensures forall p | 0 <= p < |paths| :: PathTrue(sorted[p], found) <==> PathTrue(paths[p], found)
    ensures AnyTrue(sorted, found) <==> AnyTrue(paths, found)
  {
    hide Sorted, Sat;
    forall p | 0 <= p < |paths| ensures PathTrue(sorted[p], found) <==> PathTrue(paths[p], found) {
      SameTerms(sorted[p], paths[p]);
    }
  }

  lemma SameTerms(a: Path, b: Path)
    requires multiset(a) == multiset(b)
    ensures forall t :: t in a <==> t in b
    ensures |a| == |b|
  {
    assert |multiset(a)| == |a| && |multiset(b)| == |b|;
    forall t ensures t in a <==> t in b {
      assert t in a <==> t in multiset(a);
      assert t in b <==> t in multiset(b);
    }
  }
}
