/**
  The tokenizer of query/expressions.h: words, quoted phrases, parentheses, pipes and
  minus signs.  A minus sign inside a word belongs to the word.
*/
module QueryTokens {
  import opened Bytes
  import opened QueryParser

  const OPEN: byte := 40
  const CLOSE: byte := 41
  const BAR: byte := 124
  const DASH: byte := 45
  const QUOTE: byte := 34

  predicate IsSpace(c: byte) {
    c == SPACE || c == TAB || c == NEWLINE || c == RETURN
  }

  predicate EndsWord(c: byte) {
    IsSpace(c) || c == OPEN || c == CLOSE || c == BAR || c == QUOTE
  }

  function WordLength(s: Text): (n: nat)
    ensures n <= |s| && (forall i | 0 <= i < n :: !EndsWord(s[i])) && (n < |s| ==> EndsWord(s[n]))
  {
    if s == [] || EndsWord(s[0]) then 0 else 1 + WordLength(s[1..])
  }

  function QuoteLength(s: Text): (n: nat)
    ensures n <= |s| && (forall i | 0 <= i < n :: s[i] != QUOTE) && (n < |s| ==> s[n] == QUOTE)
  {
    if s == [] || s[0] == QUOTE then 0 else 1 + QuoteLength(s[1..])
  }

  /** The tokens of a text, read off its front. */
  function Lex(s: Text): seq<Token>
    decreases |s|
  {
    if s == [] then []
    else if IsSpace(s[0]) then Lex(s[1..])
    else if s[0] == OPEN then [LParen] + Lex(s[1..])
    else if s[0] == CLOSE then [RParen] + Lex(s[1..])
    else if s[0] == BAR then [Pipe] + Lex(s[1..])
    else if s[0] == DASH then [Minus] + Lex(s[1..])
    else if s[0] == QUOTE then
      var n := QuoteLength(s[1..]);
      [Phrase(s[1..][..n])] + Lex(if n < |s| - 1 then s[n + 2..] else [])
    else
      var n := WordLength(s);
      [Word(s[..n])] + Lex(s[n..])
  }

  // ---------------------------------------------------------------- the tokenizer as it runs

  /** tokenize */
  method Tokenize(str: Text) returns (tokens: seq<Token>)
    ensures tokens == Lex(str)
  {
    hide Lex, SoFar;
    tokens := [];
    var i := 0;
    NothingRead(str);
    while i < |str|
      invariant i <= |str| && SoFar(str, i, tokens)
    {
      while i < |str| && IsSpace(str[i])
        invariant i <= |str| && SoFar(str, i, tokens)
      {
        SpaceRead(str, i, tokens);
        i := i + 1;
      }
      if i >= |str| { break; }
      ghost var at, before := i, tokens;
      LexStep(str, i);
      if str[i] == OPEN {
        tokens, i := tokens + [LParen], i + 1;
      } else if str[i] == CLOSE {
        tokens, i := tokens + [RParen], i + 1;
      } else if str[i] == BAR {
        tokens, i := tokens + [Pipe], i + 1;
      } else if str[i] == DASH {
        tokens, i := tokens + [Minus], i + 1;
      } else if str[i] == QUOTE {
        var phrase;
        phrase, i := ScanPhrase(str, i);
        tokens := tokens + [phrase];
      } else {
        var word;
        word, i := ScanWord(str, i);
        tokens := tokens + [word];
      }
      OneRead(str, at, before, tokens[|before|], i);
    }
    AllRead(str, tokens);
  }

  /** The tokens read, followed by those of the rest, are the text's. */
  ghost predicate SoFar(str: Text, i: nat, tokens: seq<Token>) {
    i <= |str| && tokens + Lex(str[i..]) == Lex(str)
  }

  lemma NothingRead(str: Text)
    ensures SoFar(str, 0, [])
  {
    assert str[0..] == str;
  }

  lemma SpaceRead(str: Text, i: nat, tokens: seq<Token>)
    requires i < |str| && IsSpace(str[i]) && SoFar(str, i, tokens)
    ensures SoFar(str, i + 1, tokens)
  {
    LexStep(str, i);
  }

  lemma OneRead(str: Text, at: nat, tokens: seq<Token>, t: Token, next: nat)
    requires SoFar(str, at, tokens) && next <= |str| && Lex(str[at..]) == [t] + Lex(str[next..])
    ensures SoFar(str, next, tokens + [t])
  {
  }

  lemma AllRead(str: Text, tokens: seq<Token>)
    requires SoFar(str, |str|, tokens)
    ensures tokens == Lex(str)
  {
  }

  /** A phrase runs to the next quote, or to the end. */
  method ScanPhrase(str: Text, at: nat) returns (t: Token, next: nat)
    requires at < |str| && str[at] == QUOTE
    ensures at < next <= |str| && Lex(str[at..]) == [t] + Lex(str[next..])
  {
    hide Lex;
    var i := at + 1;
    while i < |str| && str[i] != QUOTE
      invariant at < i <= |str| && forall j | at < j < i :: str[j] != QUOTE
    {
      i := i + 1;
    }
    LexPhrase(str, at + 1, i);
    t := Phrase(str[at + 1..i]);
    next := if i < |str| then i + 1 else i;
  }

  method ScanWord(str: Text, at: nat) returns (t: Token, next: nat)
    requires at < |str| && !EndsWord(str[at]) && str[at] != DASH
    ensures at < next <= |str| && Lex(str[at..]) == [t] + Lex(str[next..])
  {
    hide Lex;
    var i := at;
    while i < |str| && !EndsWord(str[i])
      invariant at <= i <= |str| && forall j | at <= j < i :: !EndsWord(str[j])
    {
      i := i + 1;
    }
    LexWord(str, at, i);
    t, next := Word(str[at..i]), i;
  }

  lemma LexStep(s: Text, i: nat)
    requires i <= |s|
    ensures i == |s| ==> Lex(s[i..]) == []
    ensures i < |s| && IsSpace(s[i]) ==> Lex(s[i..]) == Lex(s[i + 1..])
    ensures i < |s| && s[i] == OPEN ==> Lex(s[i..]) == [LParen] + Lex(s[i + 1..])
    ensures i < |s| && s[i] == CLOSE ==> Lex(s[i..]) == [RParen] + Lex(s[i + 1..])
    ensures i < |s| && s[i] == BAR ==> Lex(s[i..]) == [Pipe] + Lex(s[i + 1..])
    ensures i < |s| && s[i] == DASH ==> Lex(s[i..]) == [Minus] + Lex(s[i + 1..])
  {
    if i < |s| { assert s[i..][1..] == s[i + 1..]; }
  }

  lemma LexWord(s: Text, start: nat, end: nat)
    requires start < |s| && start <= end <= |s|
    requires forall j | start <= j < end :: !EndsWord(s[j])
    requires end < |s| ==> EndsWord(s[end])
    requires !EndsWord(s[start]) && s[start] != DASH
    ensures start < end && Lex(s[start..]) == [Word(s[start..end])] + Lex(s[end..])
  {
    var u := s[start..];
    var n := WordLength(u);
    assert forall j | 0 <= j < |u| :: u[j] == s[start + j];
    assert n == end - start;
    assert u[..n] == s[start..end] && u[n..] == s[end..];
  }

  lemma LexPhrase(s: Text, start: nat, end: nat)
    requires 0 < start <= end <= |s| && s[start - 1] == QUOTE
    requires forall j | start <= j < end :: s[j] != QUOTE
    requires end < |s| ==> s[end] == QUOTE
    ensures Lex(s[start - 1..]) == [Phrase(s[start..end])] + Lex(if end < |s| then s[end + 1..] else [])
    ensures s[|s|..] == []
  {
    hide Lex;
    var w := s[start - 1..];
    QuoteEnds(s, start, end);
    assert w[1..] == s[start..];
    LexQuoted(w);
    assert s[start..][..end - start] == s[start..end];
    if end < |s| { assert w[end - start + 2..] == s[end + 1..]; }
  }

  lemma QuoteEnds(s: Text, start: nat, end: nat)
    requires start <= end <= |s|
    requires forall j | start <= j < end :: s[j] != QUOTE
    requires end < |s| ==> s[end] == QUOTE
    ensures QuoteLength(s[start..]) == end - start
  {
    var u := s[start..];
    assert forall j | 0 <= j < |u| :: u[j] == s[start + j];
  }

  lemma LexQuoted(w: Text)
    requires w != [] && w[0] == QUOTE
    ensures var n := QuoteLength(w[1..]);
            Lex(w) == [Phrase(w[1..][..n])] + Lex(if n < |w| - 1 then w[n + 2..] else [])
  {
  }

  // ---------------------------------------------------------------- the tokens, byte by byte

  /** Tab, newline, return, space, '"', '(', ')' and '|'. */
  predicate Breaks(c: byte) {
    c in [9, 10, 13, 32, 34, 40, 41, 124]
  }

  /** A word as it is written: it does not start with '-' (45), but may have one inside. */
  predicate WordText(w: Text) {
    w != [] && w[0] != 45 && forall i | 0 <= i < |w| :: !Breaks(w[i])
  }

  lemma BreaksEndWords(c: byte)
    ensures EndsWord(c) <==> Breaks(c)
  {
  }

  /** A word goes on to the next byte that breaks it, or to the end. */
  lemma WordIsWhole(w: Text, rest: Text)
    requires WordText(w) && (rest == [] || Breaks(rest[0]))
    ensures Lex(w + rest) == [Word(w)] + Lex(rest)
  {
    hide Lex;
    forall i | 0 <= i < |w| ensures !EndsWord(w[i]) { BreaksEndWords(w[i]); }
    if rest == [] {
      assert w + rest == w && w[0..] == w && w[|w|..] == rest;
      LexWord(w, 0, |w|);
      assert w[0..|w|] == w;
    } else {
      BreaksEndWords(rest[0]);
      LexSpelledWord(w, rest);
    }
  }

  /** Space is passed over, and each sign is a token wherever it begins. */
  lemma SignsStand(rest: Text)
    ensures Lex([]) == []
    ensures forall c | c in [9, 10, 13, 32] :: Lex([c] + rest) == Lex(rest)
    ensures Lex([40] + rest) == [LParen] + Lex(rest) && Lex([41] + rest) == [RParen] + Lex(rest)
    ensures Lex([124] + rest) == [Pipe] + Lex(rest) && Lex([45] + rest) == [Minus] + Lex(rest)
  {
    assert forall c: byte :: ([c] + rest)[1..] == rest;
  }

  /** A phrase is what stands between two '"', or after the last one. */
  lemma QuotesEnclose(v: Text, rest: Text)
    requires 34 !in v
    ensures Lex([34] + v + [34] + rest) == [Phrase(v)] + Lex(rest)
    ensures Lex([34] + v) == [Phrase(v)]
  {
    hide Lex;
    LexSpelledPhrase(v, rest);
    var s := [34] + v;
    LexPhrase(s, 1, |s|);
    SignsStand([]);
    assert s[0..] == s && s[1..|s|] == v;
  }

  /** Words need no spaces around the signs between them. */
  lemma SignsNeedNoSpace(v: Text, w: Text)
    requires WordText(v) && WordText(w)
    ensures Lex(v + [124] + w) == [Word(v), Pipe, Word(w)]
    ensures Lex([40] + v + [41] + w) == [LParen, Word(v), RParen, Word(w)]
    ensures Lex(v + [34] + w + [34]) == [Word(v), Phrase(w)]
    ensures Lex([45] + v) == [Minus, Word(v)]
  {
    hide Lex;
    SignsStand([]);
    SignsStand(w);
    SignsStand(v);
    WordIsWhole(w, []);
    WordIsWhole(v, []);
    assert w + [] == w && v + [] == v;
    WordIsWhole(v, [124] + w);
    assert v + [124] + w == v + ([124] + w);
    WordIsWhole(v, [41] + w);
    SignsStand(v + ([41] + w));
    assert [40] + v + [41] + w == [40] + (v + ([41] + w));
    QuotesEnclose(w, []);
    assert [34] + w + [34] + [] == [34] + w + [34];
    WordIsWhole(v, [34] + w + [34]);
    assert v + [34] + w + [34] == v + ([34] + w + [34]);
  }

  /** "spider-man" is one word, as the tokenizer's comment on dashes inside words asks. */
  lemma DashInsideWord()
    ensures Lex([115, 112, 105, 100, 101, 114, 45, 109, 97, 110]) == [Word([115, 112, 105, 100, 101, 114, 45, 109, 97, 110])]
  {
    var w: Text := [115, 112, 105, 100, 101, 114, 45, 109, 97, 110];
    hide Lex;
    SignsStand([]);
    WordIsWhole(w, []);
    assert w + [] == w;
  }

  // ---------------------------------------------------------------- which tokens there are

  /** A word is not empty, holds no separator, and does not start with a minus sign; a phrase holds no quote. */
  predicate Lexable(t: Token) {
    match t
    case Word(v) => v != [] && v[0] != DASH && forall i | 0 <= i < |v| :: !EndsWord(v[i])
    case Phrase(v) => QUOTE !in v
    case _ => true
  }

  /** A text for a token list: each token written out and followed by a space. */
  function Render(ts: seq<Token>): Text {
    if ts == [] then [] else Spelling(ts[0]) + [SPACE] + Render(ts[1..])
  }

  function Spelling(t: Token): Text {
    match t
    case Word(v) => v
    case Phrase(v) => [QUOTE] + v + [QUOTE]
    case LParen => [OPEN]
    case RParen => [CLOSE]
    case Pipe => [BAR]
    case Minus => [DASH]
  }

  lemma {:induction false} LexedIsLexable(s: Text)
    ensures forall t | t in Lex(s) :: Lexable(t)
    decreases |s|
  {
    if s == [] {
    } else if IsSpace(s[0]) || s[0] == OPEN || s[0] == CLOSE || s[0] == BAR || s[0] == DASH {
      LexedIsLexable(s[1..]);
    } else if s[0] == QUOTE {
      var n := QuoteLength(s[1..]);
      LexedIsLexable(if n < |s| - 1 then s[n + 2..] else []);
    } else {
      LexedIsLexable(s[WordLength(s)..]);
    }
  }

  /** Rendering and lexing again gives back the tokens, for any tokens there can be. */
  lemma {:induction false} LexRender(ts: seq<Token>)
    requires forall t | t in ts :: Lexable(t)
    ensures Lex(Render(ts)) == ts
  {
    hide Lex, Render;
    if ts == [] {
      RenderNone();
    } else {
      assert ts == [ts[0]] + ts[1..];
      LexRender(ts[1..]);
      RenderCons(ts[0], ts[1..]);
      LexSpelling(ts[0], Render(ts[1..]));
    }
  }

  lemma RenderNone()
    ensures Lex(Render([])) == []
  {
  }

  lemma RenderCons(t: Token, ts: seq<Token>)
    ensures Render([t] + ts) == Spelling(t) + [SPACE] + Render(ts)
  {
    assert ([t] + ts)[1..] == ts;
  }

  lemma LexSpelling(t: Token, rest: Text)
    requires Lexable(t)
    ensures Lex(Spelling(t) + [SPACE] + rest) == [t] + Lex(rest)
  {
    hide Lex;
    var after := [SPACE] + rest;
    assert Spelling(t) + [SPACE] + rest == Spelling(t) + after;
    LexSpelledSpace(rest);
    match t
    case Word(v) => LexSpelledWord(v, after);
    case Phrase(v) => LexSpelledPhrase(v, after);
    case _ => LexSpelledSign(t, after);
  }

  lemma LexSpelledSpace(rest: Text)
    ensures Lex([SPACE] + rest) == Lex(rest)
  {
    assert ([SPACE] + rest)[1..] == rest;
  }

  lemma LexSpelledSign(t: Token, rest: Text)
    requires !t.Word? && !t.Phrase?
    ensures Lex(Spelling(t) + rest) == [t] + Lex(rest)
  {
    assert (Spelling(t) + rest)[1..] == rest;
  }

  lemma LexSpelledWord(v: Text, rest: Text)
    requires Lexable(Word(v)) && rest != [] && EndsWord(rest[0])
    ensures Lex(v + rest) == [Word(v)] + Lex(rest)
  {
    hide Lex;
    var s := v + rest;
    LexWord(s, 0, |v|);
    assert s[0..] == s && s[0..|v|] == v && s[|v|..] == rest;
  }

  lemma LexSpelledPhrase(v: Text, rest: Text)
    requires Lexable(Phrase(v))
    ensures Lex([QUOTE] + v + [QUOTE] + rest) == [Phrase(v)] + Lex(rest)
  {
    hide Lex;
    var s := [QUOTE] + v + [QUOTE] + rest;
    LexPhrase(s, 1, 1 + |v|);
    assert s[0..] == s && s[1..1 + |v|] == v && s[2 + |v|..] == rest;
  }

  /** Lexing loses nothing that a second rendering and lexing would show. */
  lemma LexIsStable(s: Text)
    ensures Lex(Render(Lex(s))) == Lex(s)
  {
    LexedIsLexable(s);
    LexRender(Lex(s));
  }
}
