/**
  The paths of a query: its disjunctive normal form (get_dnf, query/expressions.h), and
  why the front end's test on paths agrees with the test each chunk makes on the tree.
*/
module QueryDnf {
  import opened QueryAst
  import opened QueryMeaning

  type Path = seq<TermData>

  /** `x` followed by each path of `ys`. */
  function Extend(x: Path, ys: seq<Path>): (r: seq<Path>)
    ensures |r| == |ys| && forall i | 0 <= i < |r| :: r[i] == x + ys[i]
  {
    seq(|ys|, i requires 0 <= i < |ys| => x + ys[i])
  }

  /** Each path of `xs` with each path of `ys`. */
  function Cross(xs: seq<Path>, ys: seq<Path>): seq<Path> {
    if xs == [] then [] else Cross(xs[..|xs| - 1], ys) + Extend(xs[|xs| - 1], ys)
  }

  function Dnf(a: Ast): seq<Path>
    decreases a, 0
  {
    match a
    case AstTerm(t) => [[t]]
    case AstAnd(cs) => DnfAnd(cs, |cs|)
    case AstOr(cs) => DnfOr(cs, |cs|)
  }

  function DnfAnd(cs: seq<Ast>, k: nat): seq<Path>
    requires k <= |cs|
    decreases cs, k
  {
    if k == 0 then [[]] else Cross(DnfAnd(cs, k - 1), Dnf(cs[k - 1]))
  }

  function DnfOr(cs: seq<Ast>, k: nat): seq<Path>
    requires k <= |cs|
    decreases cs, k
  {
    if k == 0 then [] else DnfOr(cs, k - 1) + Dnf(cs[k - 1])
  }

  // ---------------------------------------------------------------- get_dnf as it runs

  /** get_dnf */
  method GetDnf(a: Ast) returns (res: seq<Path>)
    ensures res == Dnf(a)
    decreases a, 0
  {
    match a
    case AstTerm(t) =>
      res := [[t]];
    case AstOr(cs) =>
      res := [];
      for i := 0 to |cs|
        invariant res == DnfOr(cs, i)
      {
        var sub := GetDnf(cs[i]);
        res := res + sub;
      }
    case AstAnd(cs) =>
      res := [[]];
      for i := 0 to |cs|
        invariant res == DnfAnd(cs, i)
      {
        var sub := GetDnf(cs[i]);
        res := CrossPaths(res, sub);
      }
  }

  method CrossPaths(xs: seq<Path>, ys: seq<Path>) returns (next: seq<Path>)
    ensures next == Cross(xs, ys)
  {
    next := [];
    for r := 0 to |xs|
      invariant next == Cross(xs[..r], ys)
    {
      ghost var before := next;
      for s := 0 to |ys|
        invariant next == before + Extend(xs[r], ys)[..s]
      {
        next := next + [xs[r] + ys[s]];
      }
      assert xs[..r + 1][..r] == xs[..r];
      assert Extend(xs[r], ys)[..|ys|] == Extend(xs[r], ys);
    }
    assert xs[..|xs|] == xs;
  }

  // ---------------------------------------------------------------- meaning

  predicate PathTrue(p: Path, found: Found) {
    forall t | t in p :: Sat(t, found)
  }

  predicate AnyTrue(ps: seq<Path>, found: Found) {
    exists i | 0 <= i < |ps| :: PathTrue(ps[i], found)
  }

  lemma PathsJoin(x: Path, y: Path, found: Found)
    ensures PathTrue(x + y, found) <==> PathTrue(x, found) && PathTrue(y, found)
  {
    assert forall t :: t in x + y <==> t in x || t in y;
  }

  lemma AnyTrueJoin(xs: seq<Path>, ys: seq<Path>, found: Found)
    ensures AnyTrue(xs + ys, found) <==> AnyTrue(xs, found) || AnyTrue(ys, found)
  {
    hide PathTrue;
    var all := xs + ys;
    forall i | 0 <= i < |xs| ensures all[i] == xs[i] {}
    forall i | 0 <= i < |ys| ensures all[|xs| + i] == ys[i] {}
    if AnyTrue(ys, found) {
      var i :| 0 <= i < |ys| && PathTrue(ys[i], found);
      assert PathTrue(all[|xs| + i], found);
    }
    if AnyTrue(xs, found) {
      var i :| 0 <= i < |xs| && PathTrue(xs[i], found);
      assert PathTrue(all[i], found);
    }
  }

  lemma ExtendMeaning(x: Path, ys: seq<Path>, found: Found)
    ensures AnyTrue(Extend(x, ys), found) <==> PathTrue(x, found) && AnyTrue(ys, found)
  {
    hide PathTrue;
    forall i | 0 <= i < |ys| ensures PathTrue(Extend(x, ys)[i], found) <==> PathTrue(x, found) && PathTrue(ys[i], found) {
      PathsJoin(x, ys[i], found);
    }
    if PathTrue(x, found) && AnyTrue(ys, found) {
      var i :| 0 <= i < |ys| && PathTrue(ys[i], found);
      assert PathTrue(Extend(x, ys)[i], found);
    }
  }

  lemma {:induction false} CrossMeaning(xs: seq<Path>, ys: seq<Path>, found: Found)
    ensures AnyTrue(Cross(xs, ys), found) <==> AnyTrue(xs, found) && AnyTrue(ys, found)
  {
    hide PathTrue;
    if xs != [] {
      var last := |xs| - 1;
      CrossMeaning(xs[..last], ys, found);
      ExtendMeaning(xs[last], ys, found);
      AnyTrueJoin(Cross(xs[..last], ys), Extend(xs[last], ys), found);
      AnyTrueJoin(xs[..last], [xs[last]], found);
      assert xs == xs[..last] + [xs[last]];
    }
  }

  /** The normal form means what the tree means. */
  lemma {:induction false} DnfMeaning(a: Ast, found: Found)
    ensures AnyTrue(Dnf(a), found) <==> True(a, found)
    decreases a, 1
  {
    match a
    case AstTerm(t) =>
      OneTerm(t, found);
    case AstAnd(cs) => DnfAndMeaning(cs, |cs|, found);
    case AstOr(cs) => DnfOrMeaning(cs, |cs|, found);
  }

  lemma OneTerm(t: TermData, found: Found)
    ensures AnyTrue([[t]], found) <==> Sat(t, found)
  {
    assert PathTrue([t], found) <==> Sat(t, found);
    assert [[t]][0] == [t];
  }

  lemma {:induction false} DnfAndMeaning(cs: seq<Ast>, k: nat, found: Found)
    requires k <= |cs|
    ensures AnyTrue(DnfAnd(cs, k), found) <==> forall i | 0 <= i < k :: True(cs[i], found)
    decreases cs, 0, k
  {
    if k == 0 {
      assert PathTrue([[]][0], found);
    } else {
      DnfAndMeaning(cs, k - 1, found);
      DnfMeaning(cs[k - 1], found);
      CrossMeaning(DnfAnd(cs, k - 1), Dnf(cs[k - 1]), found);
    }
  }

  lemma {:induction false} DnfOrMeaning(cs: seq<Ast>, k: nat, found: Found)
    requires k <= |cs|
    ensures AnyTrue(DnfOr(cs, k), found) <==> exists i | 0 <= i < k :: True(cs[i], found)
    decreases cs, 0, k
  {
    if k > 0 {
      DnfOrMeaning(cs, k - 1, found);
      DnfMeaning(cs[k - 1], found);
      AnyTrueJoin(DnfOr(cs, k - 1), Dnf(cs[k - 1]), found);
    }
  }

  // ---------------------------------------------------------------- the two rejection tests

  predicate HasPositive(p: Path) {
    exists t :: t in p && !t.negated
  }

  /** The front end's test: no path is made of negated terms only. */
  predicate AllPositive(ps: seq<Path>) {
    forall i | 0 <= i < |ps| :: HasPositive(ps[i])
  }

  lemma AllPositiveJoin(xs: seq<Path>, ys: seq<Path>)
    ensures AllPositive(xs + ys) <==> AllPositive(xs) && AllPositive(ys)
  {
    hide HasPositive;
    var all := xs + ys;
    assert forall i | 0 <= i < |xs| :: xs[i] == all[i];
    assert forall i | 0 <= i < |ys| :: ys[i] == all[|xs| + i];
  }

  lemma ExtendPositive(x: Path, ys: seq<Path>)
    requires |ys| > 0
    ensures AllPositive(Extend(x, ys)) <==> HasPositive(x) || AllPositive(ys)
  {
    hide HasPositive;
    forall i | 0 <= i < |ys| ensures HasPositive(Extend(x, ys)[i]) <==> HasPositive(x) || HasPositive(ys[i]) {
      JoinPositive(x, ys[i]);
    }
    if AllPositive(Extend(x, ys)) && !HasPositive(x) {
      forall i | 0 <= i < |ys| ensures HasPositive(ys[i]) { assert HasPositive(Extend(x, ys)[i]); }
    }
  }

  lemma JoinPositive(x: Path, y: Path)
    ensures HasPositive(x + y) <==> HasPositive(x) || HasPositive(y)
  {
    assert forall t :: t in x + y <==> t in x || t in y;
  }

  lemma {:induction false} CrossPositive(xs: seq<Path>, ys: seq<Path>)
    requires |xs| > 0 && |ys| > 0
    ensures |Cross(xs, ys)| > 0
    ensures AllPositive(Cross(xs, ys)) <==> AllPositive(xs) || AllPositive(ys)
  {
    hide HasPositive;
    var last := |xs| - 1;
    ExtendPositive(xs[last], ys);
    AllPositiveJoin(Cross(xs[..last], ys), Extend(xs[last], ys));
    AllPositiveJoin(xs[..last], [xs[last]]);
    assert xs == xs[..last] + [xs[last]];
    if |xs| > 1 {
      CrossPositive(xs[..last], ys);
    } else {
      assert xs[..last] == [];
    }
  }

  /** On a parsed tree the two tests agree: driveable means every path has a positive term. */
  lemma {:induction false} DriveableIffPositive(a: Ast)
    requires Proper(a)
    ensures |Dnf(a)| > 0 && (Driveable(a) <==> AllPositive(Dnf(a)))
    decreases a, 1
  {
    match a
    case AstTerm(t) =>
      assert t in [[t]][0] && forall u :: u in [t] ==> u == t;
    case AstAnd(cs) => AndPositive(cs, |cs|);
    case AstOr(cs) => OrPositive(cs, |cs|);
  }

  lemma {:induction false} AndPositive(cs: seq<Ast>, k: nat)
    requires k <= |cs| && forall i | 0 <= i < |cs| :: Proper(cs[i])
    ensures |DnfAnd(cs, k)| > 0
    ensures AllPositive(DnfAnd(cs, k)) <==> exists i | 0 <= i < k :: Driveable(cs[i])
    decreases cs, 0, k
  {
    hide HasPositive;
    if k == 0 {
      NothingPositive();
    } else {
      AndPositive(cs, k - 1);
      DriveableIffPositive(cs[k - 1]);
      CrossPositive(DnfAnd(cs, k - 1), Dnf(cs[k - 1]));
    }
  }

  lemma NothingPositive()
    ensures !AllPositive([[]])
  {
    assert !HasPositive([[]][0]);
  }

  lemma {:induction false} OrPositive(cs: seq<Ast>, k: nat)
    requires k <= |cs| && forall i | 0 <= i < |cs| :: Proper(cs[i])
    ensures k > 0 ==> |DnfOr(cs, k)| > 0
    ensures AllPositive(DnfOr(cs, k)) <==> forall i | 0 <= i < k :: Driveable(cs[i])
    decreases cs, 0, k
  {
    hide HasPositive;
    if k > 0 {
      OrPositive(cs, k - 1);
      DriveableIffPositive(cs[k - 1]);
      AllPositiveJoin(DnfOr(cs, k - 1), Dnf(cs[k - 1]));
    }
  }

  // ---------------------------------------------------------------- where the terms come from

  /** Every leaf satisfies `ok`. */
  predicate EveryLeaf(a: Ast, ok: TermData -> bool) {
    match a
    case AstTerm(t) => ok(t)
    case AstAnd(cs) => forall i | 0 <= i < |cs| :: EveryLeaf(cs[i], ok)
    case AstOr(cs) => forall i | 0 <= i < |cs| :: EveryLeaf(cs[i], ok)
  }

  predicate EveryTerm(ps: seq<Path>, ok: TermData -> bool) {
    forall i, t | 0 <= i < |ps| && t in ps[i] :: ok(t)
  }

  lemma {:induction false} CrossTerms(xs: seq<Path>, ys: seq<Path>, ok: TermData -> bool)
    requires EveryTerm(xs, ok) && EveryTerm(ys, ok)
    ensures EveryTerm(Cross(xs, ys), ok)
  {
    if xs != [] {
      CrossTerms(xs[..|xs| - 1], ys, ok);
    }
  }

  /** The paths hold leaves of the tree only. */
  lemma {:induction false} DnfTerms(a: Ast, ok: TermData -> bool)
    requires EveryLeaf(a, ok)
    ensures EveryTerm(Dnf(a), ok)
    decreases a, 1
  {
    match a
    case AstTerm(_) =>
    case AstAnd(cs) => DnfAndTerms(cs, |cs|, ok);
    case AstOr(cs) => DnfOrTerms(cs, |cs|, ok);
  }

  lemma {:induction false} DnfAndTerms(cs: seq<Ast>, k: nat, ok: TermData -> bool)
    requires k <= |cs| && forall i | 0 <= i < |cs| :: EveryLeaf(cs[i], ok)
    ensures EveryTerm(DnfAnd(cs, k), ok)
    decreases cs, 0, k
  {
    if k > 0 {
      DnfAndTerms(cs, k - 1, ok);
      DnfTerms(cs[k - 1], ok);
      CrossTerms(DnfAnd(cs, k - 1), Dnf(cs[k - 1]), ok);
    }
  }

  lemma {:induction false} DnfOrTerms(cs: seq<Ast>, k: nat, ok: TermData -> bool)
    requires k <= |cs| && forall i | 0 <= i < |cs| :: EveryLeaf(cs[i], ok)
    ensures EveryTerm(DnfOr(cs, k), ok)
    decreases cs, 0, k
  {
    if k > 0 {
      DnfOrTerms(cs, k - 1, ok);
      DnfTerms(cs[k - 1], ok);
    }
  }
}
