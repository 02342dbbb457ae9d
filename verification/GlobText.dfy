/** Glob patterns as text: what is written for a list of tokens, and that it means what they say. */
module GlobText {
  import opened Glob

  // ---- text in its place

  /** The text w stands at i. */
  predicate StandsAt(p: string, i: nat, w: string) { i + |w| <= |p| && p[i..i + |w|] == w }

  lemma StandsBehind(p: string, i: nat, v: string, w: string)
    requires StandsAt(p, i, v + w)
    ensures StandsAt(p, i, v) && StandsAt(p, i + |v|, w)
  {
    var whole := p[i..i + |v + w|];
    assert p[i..i + |v|] == whole[..|v|] && p[i + |v|..i + |v| + |w|] == whole[|v|..];
  }

  lemma StandsFirst(p: string, i: nat, w: string)
    requires w != [] && StandsAt(p, i, w)
    ensures p[i] == w[0]
  {
    assert p[i] == p[i..i + |w|][0];
  }

  lemma StandsLast(p: string, i: nat, v: string, w: string)
    requires i <= |p| && p[i..] == v + w
    ensures StandsAt(p, i, v) && i + |v| <= |p| && p[i + |v|..] == w
  {
    assert p[i..i + |v|] == p[i..][..|v|] && p[i + |v|..] == p[i..][|v|..];
  }

  // ---- classes

  function SpanText(x: Span): string {
    if x.lo == x.hi then [x.lo] else [x.lo, '-', x.hi]
  }

  function SpansText(spans: seq<Span>): (t: string)
    ensures spans != [] ==> |t| > 0 && t[0] == spans[0].lo
  {
    if spans == [] then [] else SpanText(spans[0]) + SpansText(spans[1..])
  }

  /**
   * Nothing in the text reads otherwise: no terminator, no closing bracket but as the very first character, and no
   * hyphen behind a single character but as the very last.
   */
  predicate Clear(spans: seq<Span>)
    requires spans != []
  {
    var x, more := spans[0], spans[1..];
    && x.lo != '\0' && x.hi != '\0' && (x.lo != x.hi ==> x.hi != ']')
    && (more != [] ==>
          && more[0].lo != ']'
          && (x.lo == x.hi && more[0].lo == '-' ==> more == [Span('-', '-')])
          && Clear(more))
  }

  /** The text of the spans and a closing bracket stand at k. */
  predicate WrittenAt(p: string, k: nat, spans: seq<Span>) {
    StandsAt(p, k, SpansText(spans) + "]")
  }

  lemma WrittenFirst(p: string, k: nat, spans: seq<Span>)
    requires spans != [] && WrittenAt(p, k, spans)
    ensures
      var n := |SpanText(spans[0])|;
      && At(p, k) == spans[0].lo
      && (n == 3 ==> At(p, k + 1) == '-' && At(p, k + 2) == spans[0].hi)
      && WrittenAt(p, k + n, spans[1..])
      && At(p, k + n) == if |spans| == 1 then ']' else spans[1].lo
  {
    var v, more := SpanText(spans[0]), SpansText(spans[1..]) + "]";
    assert SpansText(spans) + "]" == v + more;
    StandsBehind(p, k, v, more);
    StandsFirst(p, k, v);
    StandsFirst(p, k + |v|, more);
    if |v| == 3 { Three(p, k, v); }
  }

  lemma Three(p: string, k: nat, v: string)
    requires |v| == 3 && StandsAt(p, k, v)
    ensures At(p, k + 1) == v[1] && At(p, k + 2) == v[2]
  {
    assert p[k + 1] == p[k..k + 3][1] && p[k + 2] == p[k..k + 3][2];
  }

  /** Spans whose text reads clearly are read back from it. */
  lemma {:induction false} ParsesBack(p: string, k: nat, spans: seq<Span>)
    requires spans != [] && Clear(spans) && WrittenAt(p, k, spans)
    ensures ParseSpans(p, k) == Closed(spans, k + |SpansText(spans)| + 1)
    decreases |spans|
  {
    var n, more := |SpanText(spans[0])|, spans[1..];
    WrittenFirst(p, k, spans);
    assert spans == [spans[0]] + more;
    if more != [] {
      ParsesBack(p, k + n, more);
      WrittenFirst(p, k + n, more);
    }
  }

  /** Without a closing bracket behind its first character a class is malformed. */
  lemma {:induction false} NoCloser(p: string, k: nat)
    requires forall m :: k < m < |p| ==> p[m] != ']'
    ensures ParseSpans(p, k) == Malformed
    decreases |p| - k
  {
    if k < |p| {
      var range := At(p, k + 1) == '-' && At(p, k + 2) != ']';
      NoCloser(p, if range then k + 3 else k + 1);
    }
  }

  // ---- whole patterns

  /** One character against a token, in so many words. */
  ghost predicate Takes(t: Token, c: char) {
    match t
    case Any => true
    case Literal(d) => c == d
    case Class(spans, inverted) => inverted != exists k :: 0 <= k < |spans| && spans[k].lo <= c <= spans[k].hi
    case _ => false
  }

  /** What a list of tokens means: a star stands for any characters, every other token for one. */
  ghost predicate Means(tokens: seq<Token>, s: string)
    decreases |tokens|
  {
    if tokens == [] then s == []
    else if tokens[0] == Star then exists k :: 0 <= k <= |s| && Means(tokens[1..], s[k..])
    else s != [] && Takes(tokens[0], s[0]) && Means(tokens[1..], s[1..])
  }

  predicate Writable(t: Token) {
    match t
    case End => false
    case Class(spans, inverted) => spans != [] && Clear(spans) && (!inverted ==> spans[0].lo != '!')
    case _ => true
  }

  function TokenText(t: Token): (r: string)
    requires Writable(t)
    ensures r != []
  {
    match t
    case Any => "?"
    case Star => "*"
    case Literal(c) => ['\\', c]
    case Class(spans, inverted) => ClassText(spans, inverted)
  }

  predicate AllWritable(tokens: seq<Token>) { forall k :: 0 <= k < |tokens| ==> Writable(tokens[k]) }

  function Text(tokens: seq<Token>): string
    requires AllWritable(tokens)
  {
    if tokens == [] then "" else TokenText(tokens[0]) + Text(tokens[1..])
  }

  /** The characters of a class in its text. */
  lemma ClassStands(p: string, i: nat, spans: seq<Span>, inverted: bool)
    requires spans != [] && StandsAt(p, i, ClassText(spans, inverted))
    ensures p[i] == '[' && (inverted ==> At(p, i + 1) == '!') && (!inverted ==> At(p, i + 1) == spans[0].lo)
    ensures
      var k := if inverted then i + 2 else i + 1;
      WrittenAt(p, k, spans) && k + |SpansText(spans)| + 1 == i + |ClassText(spans, inverted)|
  {
    var bang, rest := if inverted then "!" else "", SpansText(spans) + "]";
    StandsBehind(p, i, "[", bang + rest);
    StandsBehind(p, i + 1, bang, rest);
    StandsFirst(p, i, "[");
    StandsFirst(p, i + 1, if inverted then bang else rest);
  }

  function ClassText(spans: seq<Span>, inverted: bool): string {
    "[" + ((if inverted then "!" else "") + (SpansText(spans) + "]"))
  }

  lemma LexClass(p: string, i: nat, spans: seq<Span>, inverted: bool)
    requires spans != [] && Clear(spans) && (!inverted ==> spans[0].lo != '!')
    requires StandsAt(p, i, ClassText(spans, inverted))
    ensures Lex(p, i) == (Class(spans, inverted), i + |ClassText(spans, inverted)|)
  {
    ClassStands(p, i, spans, inverted);
    LexSpans(p, i, spans, inverted, if inverted then i + 2 else i + 1);
  }

  lemma LexSpans(p: string, i: nat, spans: seq<Span>, inverted: bool, k: nat)
    requires spans != [] && Clear(spans) && i < |p| && p[i] == '[' && (At(p, i + 1) == '!' <==> inverted)
    requires k == (if inverted then i + 2 else i + 1) && WrittenAt(p, k, spans)
    ensures Lex(p, i) == (Class(spans, inverted), k + |SpansText(spans)| + 1)
  {
    ParsesBack(p, k, spans);
    LexBracket(p, i, spans, inverted, k + |SpansText(spans)| + 1);
  }

  lemma LexBracket(p: string, i: nat, spans: seq<Span>, inverted: bool, end: nat)
    requires i < |p| && p[i] == '[' && (At(p, i + 1) == '!' <==> inverted)
    requires ParseSpans(p, if inverted then i + 2 else i + 1) == Closed(spans, end)
    ensures Lex(p, i) == (Class(spans, inverted), end)
  {}

  /** The token at the place where it is written, whatever stands before and behind it. */
  lemma LexBack(p: string, i: nat, t: Token)
    requires Writable(t) && StandsAt(p, i, TokenText(t))
    ensures Lex(p, i) == (t, i + |TokenText(t)|)
  {
    match t
    case Any => StandsFirst(p, i, TokenText(t));
    case Star => StandsFirst(p, i, TokenText(t));
    case Literal(c) =>
      StandsFirst(p, i, TokenText(t));
      assert p[i + 1] == p[i..i + 2][1];
    case Class(spans, inverted) =>
      LexClass(p, i, spans, inverted);
  }

  /** The tokens are written from i to the end. */
  predicate EndsWith(p: string, i: nat, tokens: seq<Token>) {
    AllWritable(tokens) && i <= |p| && p[i..] == Text(tokens)
  }

  lemma TokensStand(p: string, i: nat, tokens: seq<Token>)
    requires tokens != [] && EndsWith(p, i, tokens)
    ensures
      var w := TokenText(tokens[0]);
      StandsAt(p, i, w) && EndsWith(p, i + |w|, tokens[1..])
  {
    StandsLast(p, i, TokenText(tokens[0]), Text(tokens[1..]));
  }

  lemma FirstToken(p: string, i: nat, tokens: seq<Token>)
    requires tokens != [] && EndsWith(p, i, tokens)
    ensures Tok(p, i) == tokens[0] != End && EndsWith(p, Next(p, i), tokens[1..])
  {
    TokensStand(p, i, tokens);
    LexBack(p, i, tokens[0]);
  }

  /** A pattern written from tokens matches exactly what the tokens mean. */
  lemma {:induction false} TextMeans(p: string, i: nat, tokens: seq<Token>, s: string, j: nat)
    requires EndsWith(p, i, tokens) && j <= |s|
    ensures Matches(p, i, s, j) <==> Means(tokens, s[j..])
    decreases |tokens|, 1
  {
    if tokens == [] {
      assert s[j..] == [] <==> j == |s|;
    } else {
      FirstToken(p, i, tokens);
      if tokens[0] == Star {
        StarText(p, i, tokens, s, j);
      } else if j < |s| {
        TextMeans(p, Next(p, i), tokens[1..], s, j + 1);
        assert s[j..][1..] == s[j + 1..];
      }
    }
  }

  ghost predicate MeansFrom(tokens: seq<Token>, s: string, k: nat) { k <= |s| && Means(tokens, s[k..]) }

  lemma StarMeans(tokens: seq<Token>, s: string, j: nat)
    requires tokens != [] && tokens[0] == Star && j <= |s|
    ensures Means(tokens, s[j..]) <==> exists k :: j <= k && MeansFrom(tokens[1..], s, k)
  {
    var rest := tokens[1..];
    if Means(tokens, s[j..]) {
      var k :| 0 <= k <= |s[j..]| && Means(rest, s[j..][k..]);
      assert s[j..][k..] == s[j + k..];
      assert MeansFrom(rest, s, j + k);
    }
    if k: nat :| j <= k && MeansFrom(rest, s, k) {
      assert s[j..][k - j..] == s[k..];
    }
  }

  lemma {:induction false} StarText(p: string, i: nat, tokens: seq<Token>, s: string, j: nat)
    requires EndsWith(p, i, tokens) && tokens != [] && tokens[0] == Star && j <= |s|
    ensures Matches(p, i, s, j) <==> Means(tokens, s[j..])
    decreases |tokens|, 0
  {
    FirstToken(p, i, tokens);
    var n, rest := Next(p, i), tokens[1..];
    forall k: nat | j <= k <= |s| ensures MeansFrom(rest, s, k) <==> Matches(p, n, s, k) {
      TextMeans(p, n, rest, s, k);
    }
    StarMeans(tokens, s, j);
    StarSearch(p, i, s, j);
    assert (exists k :: j <= k && MeansFrom(rest, s, k)) <==> MatchesLater(p, n, s, j);
  }

  lemma StarSearch(p: string, i: nat, s: string, j: nat)
    requires Tok(p, i) == Star && j <= |s|
    ensures Matches(p, i, s, j) <==> MatchesLater(p, Next(p, i), s, j)
  {
    StarMeaning(p, i, s, j);
  }

  function Escaped(s: string): (tokens: seq<Token>)
    ensures |tokens| == |s| && AllWritable(tokens) && forall k :: 0 <= k < |s| ==> tokens[k] == Literal(s[k])
  {
    seq(|s|, k requires 0 <= k < |s| => Literal(s[k]))
  }

  lemma {:induction false} LiteralsMean(s: string, t: string)
    ensures Means(Escaped(s), t) <==> t == s
    decreases |s|
  {
    if s != [] && t != [] {
      assert Escaped(s)[1..] == Escaped(s[1..]);
      LiteralsMean(s[1..], t[1..]);
      assert s == [s[0]] + s[1..] && t == [t[0]] + t[1..];
    }
  }

  /** A string with a backslash before every character is a pattern that matches exactly that string. */
  lemma EscapedMatchesItself(s: string, t: string)
    ensures Matches(Text(Escaped(s)), 0, t, 0) <==> t == s
  {
    assert t[0..] == t && Text(Escaped(s))[0..] == Text(Escaped(s));
    TextMeans(Text(Escaped(s)), 0, Escaped(s), t, 0);
    LiteralsMean(s, t);
  }

  /** Characters with no meaning of their own, and a bracket that nothing closes, stand for themselves. */
  lemma PlainIsLiteral(p: string, i: nat)
    requires i < |p| && p[i] != '?' && p[i] != '*' && p[i] != '\\'
    requires p[i] == '[' ==> forall m :: i + 1 < m < |p| ==> p[m] != ']'
    ensures Lex(p, i) == (Literal(p[i]), i + 1)
  {
    if p[i] == '[' { NoCloser(p, if At(p, i + 1) == '!' then i + 2 else i + 1); }
  }
}
