/**
  Path patterns of robots.txt (class Wildcard, UrlDecode and FindSubstring of
  parser/RobotsManager.cpp): '*' stands for any text, a final '$' anchors the end
  (section 2.2.3 of RFC 9309).  Texts hold no NUL byte.
*/
module RobotsWildcard {
  import opened Bytes

  const STAR: byte := 42
  const DOLLAR: byte := 36
  const SLASH: byte := 47
  const PERCENT: byte := 37
  const DIGIT_0: byte := 48

  // ---------------------------------------------------------------- what a pattern matches

  function Stars(w: Text): nat {
    if w == [] then 0 else (if w[0] == STAR then 1 else 0) + Stars(w[1..])
  }

  /** The pattern with its stars filled in, one text for each. */
  function Filled(w: Text, gaps: seq<Text>): Text
    requires |gaps| == Stars(w)
  {
    if w == [] then []
    else if w[0] == STAR then gaps[0] + Filled(w[1..], gaps[1..])
    else [w[0]] + Filled(w[1..], gaps)
  }

  /** Some filling of the stars starts the path, or is the path when the end is anchored. */
  ghost predicate Accepts(w: Text, anchored: bool, path: Text) {
    exists gaps :: FilledBy(w, anchored, path, gaps)
  }

  ghost predicate FilledBy(w: Text, anchored: bool, path: Text, gaps: seq<Text>) {
    |gaps| == Stars(w) && Filled(w, gaps) <= path && (anchored ==> Filled(w, gaps) == path)
  }

  lemma AcceptsNothingMore(anchored: bool, path: Text)
    ensures Accepts([], anchored, path) <==> !anchored || path == []
  {
    if !anchored || path == [] { assert FilledBy([], anchored, path, []); }
  }

  /** A literal must be the next byte of the path. */
  lemma AcceptsLiteral(c: byte, w: Text, anchored: bool, path: Text)
    requires c != STAR
    ensures Accepts([c] + w, anchored, path) <==> path != [] && path[0] == c && Accepts(w, anchored, path[1..])
  {
    var v := [c] + w;
    assert v[1..] == w;
    if Accepts(v, anchored, path) {
      var gaps :| FilledBy(v, anchored, path, gaps);
      assert Filled(v, gaps) == [c] + Filled(w, gaps);
      TailOfPrefix(c, Filled(w, gaps), path);
      assert FilledBy(w, anchored, path[1..], gaps);
    }
    if path != [] && path[0] == c && Accepts(w, anchored, path[1..]) {
      var gaps :| FilledBy(w, anchored, path[1..], gaps);
      assert path == [c] + path[1..];
      assert Filled(v, gaps) == [c] + Filled(w, gaps);
      assert FilledBy(v, anchored, path, gaps);
    }
  }

  lemma TailOfPrefix(c: byte, rest: Text, path: Text)
    requires [c] + rest <= path
    ensures path != [] && path[0] == c && rest <= path[1..]
    ensures [c] + rest == path ==> rest == path[1..]
  {
    assert path[..1 + |rest|] == [c] + rest;
    assert path[1..][..|rest|] == path[..1 + |rest|][1..] == rest;
  }

  /** A star swallows any part of the path. */
  lemma AcceptsStar(w: Text, anchored: bool, path: Text)
    ensures Accepts([STAR] + w, anchored, path) <==> exists k :: 0 <= k <= |path| && Accepts(w, anchored, path[k..])
  {
    var v := [STAR] + w;
    assert v[1..] == w;
    if Accepts(v, anchored, path) {
      var gaps :| FilledBy(v, anchored, path, gaps);
      var k := |gaps[0]|;
      DropPrefix(gaps[0], Filled(w, gaps[1..]), path);
      assert FilledBy(w, anchored, path[k..], gaps[1..]);
    }
    if k :| 0 <= k <= |path| && Accepts(w, anchored, path[k..]) {
      var gaps :| FilledBy(w, anchored, path[k..], gaps);
      var all := [path[..k]] + gaps;
      assert all[1..] == gaps;
      assert path == path[..k] + path[k..];
      assert Filled(v, all) == path[..k] + Filled(w, gaps);
      assert FilledBy(v, anchored, path, all);
    }
  }

  lemma DropPrefix(a: Text, b: Text, path: Text)
    requires a + b <= path
    ensures |a| <= |path| && b <= path[|a|..] && (a + b == path ==> b == path[|a|..])
  {
    assert path[..|a + b|] == a + b;
    assert path[|a|..][..|b|] == path[..|a + b|][|a|..] == b;
  }

  /** So does a run of stars. */
  lemma {:induction false} AcceptsStars(n: nat, w: Text, anchored: bool, path: Text)
    requires n > 0
    ensures Accepts(seq(n, i => STAR) + w, anchored, path) <==> exists k :: 0 <= k <= |path| && Accepts(w, anchored, path[k..])
  {
    hide Accepts;
    var stars := seq(n, i => STAR);
    if n == 1 {
      assert stars == [STAR];
      AcceptsStar(w, anchored, path);
    } else {
      var rest := seq(n - 1, i => STAR) + w;
      assert stars + w == [STAR] + rest;
      AcceptsStar(rest, anchored, path);
      forall k | 0 <= k <= |path|
        ensures Accepts(rest, anchored, path[k..]) <==> exists m :: k <= m <= |path| && Accepts(w, anchored, path[m..])
      {
        AcceptsStars(n - 1, w, anchored, path[k..]);
        forall l | 0 <= l <= |path| - k ensures path[k..][l..] == path[k + l..] {}
        if l :| 0 <= l <= |path[k..]| && Accepts(w, anchored, path[k..][l..]) { assert Accepts(w, anchored, path[k + l..]); }
        if m :| k <= m <= |path| && Accepts(w, anchored, path[m..]) { assert Accepts(w, anchored, path[k..][m - k..]); }
      }
      if k :| 0 <= k <= |path| && Accepts(w, anchored, path[k..]) { assert path[0..] == path; assert Accepts(rest, anchored, path[0..]); }
    }
  }

  /** Wildcard::Match, for a pattern from which a final '$' has been taken (`anchored`). */
  method Match(wildcard: Text, anchored: bool, path: Text) returns (matches: bool)
    ensures matches <==> Accepts(wildcard, anchored, path)
    decreases |wildcard|
  {
    hide Accepts;
    var i, j := 0, 0;
    assert wildcard[0..] == wildcard && path[0..] == path;
    while i < |wildcard|
      invariant i <= |wildcard| && j <= |path|
      invariant Accepts(wildcard, anchored, path) <==> Accepts(wildcard[i..], anchored, path[j..])
    {
      if wildcard[i] != STAR {
        LiteralAhead(wildcard, i, anchored, path, j);
        if j < |path| && wildcard[i] == path[j] {
          i, j := i + 1, j + 1;
        } else {
          return false;
        }
      } else {
        var start := i;
        while i < |wildcard| && wildcard[i] == STAR
          invariant start <= i <= |wildcard| && forall k | start <= k < i :: wildcard[k] == STAR
        {
          i := i + 1;
        }
        StarsAhead(wildcard, start, i, anchored, path, j);
        if i == |wildcard| {
          EndAfterStars(anchored, path, j);
          assert wildcard[i..] == [];
          return true;
        }
        ghost var from := j;
        while j < |path|
          invariant from <= j <= |path|
          invariant Accepts(wildcard, anchored, path) <==> exists k :: from <= k <= |path| && Accepts(wildcard[i..], anchored, path[k..])
          invariant forall k | from <= k < j :: !Accepts(wildcard[i..], anchored, path[k..])
        {
          var rest := Match(wildcard[i..], anchored, path[j..]);
          if rest {
            SuffixAccepted(wildcard[i..], anchored, path, from, j);
            return true;
          }
          j := j + 1;
        }
        LiteralAhead(wildcard, i, anchored, path, |path|);
        return false;
      }
    }
    AcceptsNothingMore(anchored, path[j..]);
    assert wildcard[i..] == [];
    return !anchored || j == |path|;
  }

  lemma LiteralAhead(w: Text, i: nat, anchored: bool, path: Text, j: nat)
    requires i < |w| && w[i] != STAR && j <= |path|
    ensures Accepts(w[i..], anchored, path[j..]) <==>
            j < |path| && w[i] == path[j] && Accepts(w[i + 1..], anchored, path[j + 1..])
  {
    hide Accepts;
    assert w[i..] == [w[i]] + w[i + 1..];
    AcceptsLiteral(w[i], w[i + 1..], anchored, path[j..]);
    if j < |path| { assert path[j..][1..] == path[j + 1..]; }
  }

  lemma StarsAhead(w: Text, start: nat, i: nat, anchored: bool, path: Text, j: nat)
    requires start < i <= |w| && j <= |path| && forall k | start <= k < i :: w[k] == STAR
    ensures Accepts(w[start..], anchored, path[j..]) <==> exists k :: j <= k <= |path| && Accepts(w[i..], anchored, path[k..])
  {
    hide Accepts;
    assert w[start..] == seq(i - start, k => STAR) + w[i..];
    AcceptsStars(i - start, w[i..], anchored, path[j..]);
    forall k | j <= k <= |path| ensures path[j..][k - j..] == path[k..] {}
    if l :| 0 <= l <= |path[j..]| && Accepts(w[i..], anchored, path[j..][l..]) { assert Accepts(w[i..], anchored, path[j + l..]); }
    if k :| j <= k <= |path| && Accepts(w[i..], anchored, path[k..]) { assert Accepts(w[i..], anchored, path[j..][k - j..]); }
  }

  lemma SuffixAccepted(w: Text, anchored: bool, path: Text, from: nat, j: nat)
    requires from <= j <= |path| && Accepts(w, anchored, path[j..])
    ensures exists k :: from <= k <= |path| && Accepts(w, anchored, path[k..])
  {
  }

  lemma EndAfterStars(anchored: bool, path: Text, j: nat)
    requires j <= |path|
    ensures exists k :: j <= k <= |path| && Accepts([], anchored, path[k..])
  {
    AcceptsNothingMore(anchored, path[|path|..]);
  }

  // ---------------------------------------------------------------- percent encoding

  /** HexLiteralCharacter; -1 when the byte is no hex digit. */
  function HexDigit(c: byte): (h: int)
    ensures -1 <= h < 16
  {
    if 48 <= c <= 57 then c - 48
    else if 97 <= c <= 102 then c - 97 + 10
    else if 65 <= c <= 70 then c - 65 + 10
    else -1
  }

  const HEX_LOWER: Text := [48, 49, 50, 51, 52, 53, 54, 55, 56, 57, 97, 98, 99, 100, 101, 102]
  const HEX_UPPER: Text := [48, 49, 50, 51, 52, 53, 54, 55, 56, 57, 65, 66, 67, 68, 69, 70]

  /** The digits 0 to 9 and the letters a to f of either case, and nothing else. */
  lemma HexDigitsAre(c: byte)
    ensures forall h | 0 <= h < 16 :: HexDigit(HEX_LOWER[h]) == h && HexDigit(HEX_UPPER[h]) == h
    ensures HexDigit(c) == -1 <==> c !in HEX_LOWER && c !in HEX_UPPER
  {
    if HexDigit(c) >= 0 { assert HEX_LOWER[HexDigit(c)] == c || HEX_UPPER[HexDigit(c)] == c; }
  }

  /** The bytes UrlDecode writes: %xx is decoded unless it is %2f; an escape cut short by the end is dropped. */
  function Decoded(s: Text): Text
    decreases |s|
  {
    if s == [] then []
    else if s[0] != PERCENT then [s[0]] + Decoded(s[1..])
    else if |s| < 3 then []
    else if IsEscape(s) then [HexDigit(s[1]) * 16 + HexDigit(s[2])] + Decoded(s[3..])
    else [PERCENT] + Decoded(s[1..])
  }

  predicate IsEscape(s: Text) {
    |s| >= 3 && s[0] == PERCENT && HexDigit(s[1]) >= 0 && HexDigit(s[2]) >= 0 && HexDigit(s[1]) * 16 + HexDigit(s[2]) != SLASH
  }

  /** A decoded %00 ends the text. */
  function UpToNul(s: Text): Text {
    if s == [] || s[0] == 0 then [] else [s[0]] + UpToNul(s[1..])
  }

  /** UrlDecode */
  method UrlDecode(path: Text) returns (decode: Text)
    ensures decode == UpToNul(Decoded(path))
  {
    hide Decoded;
    var p := 0;
    var buffer: Text := [];
    assert path[0..] == path;
    while p < |path|
      invariant p <= |path| && buffer + Decoded(path[p..]) == Decoded(path)
    {
      DecodedStep(path, p);
      var out: Text, next := [path[p]], p + 1;
      if path[p] == PERCENT {
        if p + 2 >= |path| {
          out, next := [], |path|;
        } else {
          var hi, lo := HexDigit(path[p + 1]), HexDigit(path[p + 2]);
          if hi >= 0 && lo >= 0 && hi * 16 + lo != SLASH {
            out, next := [hi * 16 + lo], p + 3;
          }
        }
      }
      Regrouped(buffer, out, Decoded(path[next..]));
      buffer, p := buffer + out, next;
    }
    DecodedStep(path, |path|);
    assert path[p..] == path[|path|..] && buffer + [] == buffer;
    decode := CString(buffer);
  }

  lemma Regrouped(a: Text, b: Text, c: Text)
    ensures a + (b + c) == (a + b) + c
  {
  }

  lemma DecodedStep(path: Text, p: nat)
    requires p <= |path|
    ensures p == |path| ==> Decoded(path[p..]) == []
    ensures p < |path| && path[p] != PERCENT ==> Decoded(path[p..]) == [path[p]] + Decoded(path[p + 1..])
    ensures p < |path| && path[p] == PERCENT && p + 2 >= |path| ==> Decoded(path[p..]) == [] == Decoded(path[|path|..])
    ensures p + 2 < |path| && path[p] == PERCENT ==>
              var hi, lo := HexDigit(path[p + 1]), HexDigit(path[p + 2]);
              Decoded(path[p..]) == if hi >= 0 && lo >= 0 && hi * 16 + lo != SLASH
                                    then [hi * 16 + lo] + Decoded(path[p + 3..])
                                    else [PERCENT] + Decoded(path[p + 1..])
  {
    var s := path[p..];
    if p < |path| {
      assert s[0] == path[p] && s[1..] == path[p + 1..];
      if p + 2 < |path| { assert s[1] == path[p + 1] && s[2] == path[p + 2] && s[3..] == path[p + 3..]; }
    }
  }

  method CString(buffer: Text) returns (s: Text)
    ensures s == UpToNul(buffer)
  {
    s := [];
    var i := 0;
    assert buffer[0..] == buffer;
    while i < |buffer|
      invariant i <= |buffer| && s + UpToNul(buffer[i..]) == UpToNul(buffer)
    {
      assert buffer[i..][1..] == buffer[i + 1..];
      if buffer[i] == 0 { return; }
      s, i := s + [buffer[i]], i + 1;
    }
  }

  function HexChar(h: nat): byte
    requires h < 16
  {
    if h < 10 then 48 + h else 65 + h - 10
  }

  /** A text with every byte but '/' percent-encoded. */
  function Encoded(s: Text): Text {
    if s == [] then []
    else (if s[0] == SLASH then [SLASH] else [PERCENT, HexChar(s[0] / 16), HexChar(s[0] % 16)]) + Encoded(s[1..])
  }

  /** Decoding undoes encoding, byte for byte. */
  lemma {:induction false} DecodeEncoded(s: Text)
    requires 0 !in s
    ensures UpToNul(Decoded(Encoded(s))) == s
  {
    if s != [] {
      DecodeEncoded(s[1..]);
      var rest := Encoded(s[1..]);
      var e := Encoded(s);
      if s[0] == SLASH {
        assert e == [SLASH] + rest && e[1..] == rest;
      } else {
        assert e[0] == PERCENT && e[1] == HexChar(s[0] / 16) && e[2] == HexChar(s[0] % 16) && e[3..] == rest;
        assert HexDigit(e[1]) == s[0] / 16 && HexDigit(e[2]) == s[0] % 16;
        assert IsEscape(e);
      }
      assert Decoded(e) == [s[0]] + Decoded(rest);
      assert s == [s[0]] + s[1..];
    }
  }

  // ---------------------------------------------------------------- what decoding loses

  /** The decoding that the comments of UrlDecode describe: what is no escape, or escapes a '/', is literal text. */
  function Unescaped(s: Text): Text
    decreases |s|
  {
    if s == [] then []
    else if IsEscape(s) then [HexDigit(s[1]) * 16 + HexDigit(s[2])] + Unescaped(s[3..])
    else [s[0]] + Unescaped(s[1..])
  }

  /** A percent sign with fewer than two bytes after it. */
  predicate CutShort(s: Text) {
    exists i | 0 <= i < |s| :: i + 2 >= |s| && s[i] == PERCENT
  }

  /** A zero byte, written out or as %00. */
  predicate SpellsZero(s: Text) {
    0 in s || exists i | 0 <= i < |s| :: ZeroEscape(s, i)
  }

  predicate ZeroEscape(s: Text, i: nat) {
    i + 2 < |s| && s[i] == PERCENT && s[i + 1] == DIGIT_0 && s[i + 2] == DIGIT_0
  }

  /** UrlDecode keeps what its comments say exactly on the texts without a cut escape and without a zero byte. */
  lemma DecodesAsDocumented(s: Text)
    ensures UpToNul(Decoded(s)) == Unescaped(s) <==> !CutShort(s) && !SpellsZero(s)
  {
    CutIsDropped(s);
    ZeroIsSpelled(s);
    NulEnds(Decoded(s));
  }

  lemma NulEnds(s: Text)
    ensures |UpToNul(s)| <= |s|
    ensures UpToNul(s) == s <==> 0 !in s
  {
  }

  lemma {:induction false} CutIsDropped(s: Text)
    ensures CutShort(s) ==> |Decoded(s)| < |Unescaped(s)|
    ensures !CutShort(s) ==> Decoded(s) == Unescaped(s)
    decreases |s|
  {
    hide CutShort;
    if s != [] {
      var n := if IsEscape(s) then 3 else 1;
      CutIsDropped(s[n..]);
      CutFurtherOn(s, n);
    } else {
      NothingCut();
    }
  }

  lemma NothingCut()
    ensures !CutShort([])
  {
  }

  /** A step of the decoding passes over no percent sign but the first. */
  lemma CutFurtherOn(s: Text, n: nat)
    requires s != [] && n == if IsEscape(s) then 3 else 1
    ensures CutShort(s) <==> (|s| < 3 && s[0] == PERCENT) || CutShort(s[n..])
  {
    var rest := s[n..];
    if CutShort(s) && !(|s| < 3 && s[0] == PERCENT) {
      var i :| 0 <= i < |s| && i + 2 >= |s| && s[i] == PERCENT;
      assert HexDigit(PERCENT) == -1;
      assert rest[i - n] == PERCENT;
    }
    if CutShort(rest) {
      var i :| 0 <= i < |rest| && i + 2 >= |rest| && rest[i] == PERCENT;
      assert s[i + n] == PERCENT;
    }
    if |s| < 3 && s[0] == PERCENT { assert 0 + 2 >= |s| && s[0] == PERCENT; }
  }

  lemma {:induction false} ZeroIsSpelled(s: Text)
    ensures 0 in Unescaped(s) <==> SpellsZero(s)
    decreases |s|
  {
    hide SpellsZero;
    if s != [] {
      var n := if IsEscape(s) then 3 else 1;
      ZeroIsSpelled(s[n..]);
      ZeroFurtherOn(s, n);
    } else {
      NoZeroSpelled();
    }
  }

  lemma NoZeroSpelled()
    ensures !SpellsZero([])
  {
  }

  lemma ZeroFurtherOn(s: Text, n: nat)
    requires s != [] && n == if IsEscape(s) then 3 else 1
    ensures SpellsZero(s) <==> s[0] == 0 || ZeroEscape(s, 0) || SpellsZero(s[n..])
  {
    var rest := s[n..];
    if 0 in s {
      var i :| 0 <= i < |s| && s[i] == 0;
      assert HexDigit(0) == -1;
      assert i == 0 || rest[i - n] == 0;
    }
    forall i: nat | 0 < i < |s| && ZeroEscape(s, i) ensures SpellsZero(rest) {
      assert HexDigit(PERCENT) == -1;
      assert ZeroEscape(rest, i - n);
    }
    if i :| 0 <= i < |rest| && ZeroEscape(rest, i) { assert ZeroEscape(s, i + n); }
  }

  /** "a%4" is read as "a", although the comments keep it. */
  lemma CutEscapeDropped()
    ensures UpToNul(Decoded([97, 37, 52])) == [97] && Unescaped([97, 37, 52]) == [97, 37, 52]
  {
    var s: Text := [97, 37, 52];
    assert s[1..] == [37, 52] && [37, 52][1..] == [52];
    assert Unescaped([52]) == [52] && Unescaped([37, 52]) == [37, 52];
    assert Decoded([37, 52]) == [];
  }

  /** "a%00b" is read as "a". */
  lemma ZeroEnds()
    ensures UpToNul(Decoded([97, 37, 48, 48, 98])) == [97]
    ensures Unescaped([97, 37, 48, 48, 98]) == [97, 0, 98]
  {
    var s: Text := [97, 37, 48, 48, 98];
    var t: Text := [37, 48, 48, 98];
    assert s[1..] == t && t[3..] == [98] && IsEscape(t);
    assert Decoded([98]) == [98] == Unescaped([98]);
    assert Decoded(t) == [0, 98] == Unescaped(t);
  }

  // ---------------------------------------------------------------- patterns

  datatype Pattern = Pattern(text: Text, literalBytes: nat, endsInDollarSign: bool)

  function Literals(s: Text): nat {
    if s == [] then 0 else Literals(s[..|s| - 1]) + if s[|s| - 1] != STAR then 1 else 0
  }

  /** The argument without its first slash. */
  function Body(arg: Text): Text {
    if arg != [] && arg[0] == SLASH then arg[1..] else arg
  }

  /** What the constructor makes of a decoded argument; a final '$' counts as a literal byte. */
  function PatternOf(arg: Text): Pattern {
    var body := Body(arg);
    var anchored := body != [] && body[|body| - 1] == DOLLAR;
    Pattern(if anchored then body[..|body| - 1] else body, Literals(body), anchored)
  }

  /** Every byte but a '*' (42) is counted. */
  lemma {:induction false} LiteralsAreNotStars(s: Text)
    ensures Literals(s) + multiset(s)[42] == |s|
  {
    if s != [] {
      LiteralsAreNotStars(s[..|s| - 1]);
      assert s == s[..|s| - 1] + [s[|s| - 1]];
    }
  }

  /** A pattern as it is written: perhaps a '/' (47) before it, which is skipped, and perhaps a '$' (36) as anchor after it. */
  lemma PatternIs(slash: bool, w: Text, anchored: bool)
    requires !slash ==> w == [] || w[0] != 47
    requires !anchored ==> w == [] || w[|w| - 1] != 36
    ensures PatternOf((if slash then [47] else []) + w + if anchored then [36] else []) ==
            Pattern(w, |w| - multiset(w)[42] + (if anchored then 1 else 0), anchored)
  {
    hide Literals, Body, PatternOf;
    var slashes: Text, anchors: Text := if slash then [47] else [], if anchored then [36] else [];
    Regrouped(slashes, w, anchors);
    BodyIs(slash, w + anchors);
    OfBody(slashes + w + anchors, w, anchored);
    LiteralsIn(w, anchored);
  }

  lemma LiteralsIn(w: Text, anchored: bool)
    ensures Literals(w + if anchored then [36] else []) == |w| - multiset(w)[42] + if anchored then 1 else 0
  {
    hide Literals;
    LiteralsAreNotStars(w + if anchored then [36] else []);
    StarsIn(w, anchored);
  }

  lemma OfBody(arg: Text, w: Text, anchored: bool)
    requires Body(arg) == w + if anchored then [36] else []
    requires !anchored ==> w == [] || w[|w| - 1] != 36
    ensures PatternOf(arg) == Pattern(w, Literals(w + if anchored then [36] else []), anchored)
  {
    hide Literals, Body;
    if anchored { assert (w + [36])[..|w|] == w; } else { assert w + [] == w; }
  }

  lemma StarsIn(w: Text, anchored: bool)
    ensures multiset(w + if anchored then [36] else [])[42] == multiset(w)[42]
  {
    if anchored { assert multiset(w + [36]) == multiset(w) + multiset{36}; } else { assert w + [] == w; }
  }

  lemma BodyIs(slash: bool, body: Text)
    requires !slash ==> body == [] || body[0] != 47
    ensures Body((if slash then [47] else []) + body) == body
  {
    if slash { assert ([47] + body)[1..] == body; } else { assert [] + body == body; }
  }

  /** The constructor of Wildcard. */
  method Compile(arg: Text) returns (p: Pattern)
    ensures p == PatternOf(arg)
  {
    var body := if |arg| > 0 && arg[0] == SLASH then arg[1..] else arg;
    var text, literalBytes, anchored := [], 0, false;
    for i := 0 to |body|
      invariant literalBytes == Literals(body[..i])
      invariant anchored <==> 0 < i == |body| && body[i - 1] == DOLLAR
      invariant text == if anchored then body[..i - 1] else body[..i]
    {
      assert body[..i + 1][..i] == body[..i];
      if body[i] != STAR { literalBytes := literalBytes + 1; }
      if body[i] == DOLLAR && i + 1 == |body| {
        anchored := true;
      } else {
        text := text + [body[i]];
      }
    }
    assert body[..|body|] == body;
    p := Pattern(text, literalBytes, anchored);
  }

  // ---------------------------------------------------------------- user agents

  /** tolower on ASCII letters. */
  function Lower(c: byte): byte {
    if 65 <= c <= 90 then c + 32 else c
  }

  /** Equal, or a letter from A (65) to Z (90) and the same one from a to z. */
  predicate SameLetter(c: byte, d: byte) {
    c == d || (65 <= c <= 90 && d == c + 32) || (65 <= d <= 90 && c == d + 32)
  }

  lemma LowerIsSame(c: byte, d: byte)
    ensures Lower(c) == Lower(d) <==> SameLetter(c, d)
  {
  }

  ghost predicate OccursAt(a: Text, b: Text, k: nat) {
    k + |a| <= |b| && forall i | 0 <= i < |a| :: SameLetter(a[i], b[k + i])
  }

  /** The same text but for the case of letters. */
  ghost predicate Recased(a: Text, b: Text) {
    |a| == |b| && forall i | 0 <= i < |a| :: SameLetter(a[i], b[i])
  }

  /** Where a name occurs does not depend on the case of either text. */
  lemma RecasedOccurs(a: Text, a': Text, b: Text, b': Text, k: nat)
    requires Recased(a, a') && Recased(b, b')
    ensures OccursAt(a, b, k) <==> OccursAt(a', b', k)
  {
    if k + |a| <= |b| {
      forall i | 0 <= i < |a| ensures SameLetter(a[i], b[k + i]) <==> SameLetter(a'[i], b'[k + i]) {
        SameThroughout(a[i], a'[i], b[k + i], b'[k + i]);
      }
    }
  }

  lemma SameThroughout(a: byte, a': byte, b: byte, b': byte)
    requires SameLetter(a, a') && SameLetter(b, b')
    ensures SameLetter(a, b) <==> SameLetter(a', b')
  {
    LowerIsSame(a, a');
    LowerIsSame(b, b');
    LowerIsSame(a, b);
    LowerIsSame(a', b');
  }

  /** FindSubstring: is `a` a part of `b`, whatever the case? */
  method FindSubstring(a: Text, b: Text) returns (found: bool)
    ensures found <==> exists k :: OccursAt(a, b, k)
  {
    if |a| == 0 {
      assert OccursAt(a, b, 0);
      return true;
    }
    for k := 0 to |b|
      invariant forall j | 0 <= j < k :: !OccursAt(a, b, j)
    {
      var i := 0;
      while i < |a| && k + i < |b| && Lower(a[i]) == Lower(b[k + i])
        invariant 0 <= i <= |a| && k + i <= |b|
        invariant forall j | 0 <= j < i :: SameLetter(a[j], b[k + j])
      {
        LowerIsSame(a[i], b[k + i]);
        i := i + 1;
      }
      if i < |a| && k + i < |b| { LowerIsSame(a[i], b[k + i]); }
      if i == |a| {
        assert OccursAt(a, b, k);
        return true;
      }
      assert !OccursAt(a, b, k);
    }
    found := false;
  }
}
