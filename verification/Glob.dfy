/** glob_match: shell-style matching with single-level backtracking, against a recursive match relation. */
module Glob {
  import opened Options

  /** C strings: the terminator is not part of the sequence and occurs nowhere in it. */
  predicate CString(s: string) {
    forall i :: 0 <= i < |s| ==> s[i] != '\0'
  }

  /** s[i], reading the terminator at the end. */
  function At(s: string, i: nat): char {
    if i < |s| then s[i] else '\0'
  }

  // ---- tokens

  datatype Span = Span(lo: char, hi: char)
  datatype Spans = Malformed | Closed(spans: seq<Span>, end: nat)
  datatype Token = End | Any | Star | Literal(c: char) | Class(spans: seq<Span>, inverted: bool)

  /** The spans of a class whose next span starts at k, up to the closing bracket. */
  function ParseSpans(p: string, k: nat): (r: Spans)
    ensures r.Closed? ==> k < r.end <= |p| && r.spans != []
    decreases |p| - k
  {
    var a := At(p, k);
    if k >= |p| || a == '\0' then Malformed
    else
      var range := At(p, k + 1) == '-' && At(p, k + 2) != ']';
      var b := if range then At(p, k + 2) else a;
      var next := if range then k + 3 else k + 1;
      if b == '\0' then Malformed
      else if At(p, next) == ']' then Closed([Span(a, b)], next + 1)
      else
        match ParseSpans(p, next)
        case Malformed => Malformed
        case Closed(spans, end) => Closed([Span(a, b)] + spans, end)
  }

  predicate InSpans(spans: seq<Span>, c: char) {
    exists k :: 0 <= k < |spans| && spans[k].lo <= c <= spans[k].hi
  }

  /** The token at i and the position after it. An unclosed '[' and an escaped character are literals. */
  function Lex(p: string, i: nat): (r: (Token, nat))
    ensures r.0 != End ==> i < r.1 <= |p|
  {
    if i >= |p| then (End, i)
    else if p[i] == '?' then (Any, i + 1)
    else if p[i] == '*' then (Star, i + 1)
    else if p[i] == '[' then
      var inverted := At(p, i + 1) == '!';
      match ParseSpans(p, if inverted then i + 2 else i + 1)
      case Malformed => (Literal('['), i + 1)
      case Closed(spans, end) => (Class(spans, inverted), end)
    else if p[i] == '\\' then
      if i + 1 < |p| then (Literal(p[i + 1]), i + 2) else (End, i + 1)
    else (Literal(p[i]), i + 1)
  }

  function Tok(p: string, i: nat): Token { Lex(p, i).0 }

  function Next(p: string, i: nat): (n: nat)
    requires Tok(p, i) != End
    ensures i < n <= |p|
  {
    Lex(p, i).1
  }

  /** One character against a one-character token. */
  predicate Accepts(t: Token, c: char) {
    match t
    case Any => true
    case Literal(d) => c == d
    case Class(spans, inverted) => InSpans(spans, c) != inverted
    case End => false
    case Star => false
  }

  /** The match relation: pattern from i against string from j. */
  predicate Matches(p: string, i: nat, s: string, j: nat)
    requires j <= |s|
    decreases |p| - i, |s| - j
  {
    var t := Tok(p, i);
    if t == End then j == |s|
    else if t == Star then Matches(p, Next(p, i), s, j) || (j < |s| && Matches(p, i, s, j + 1))
    else j < |s| && Accepts(t, s[j]) && Matches(p, Next(p, i), s, j + 1)
  }

  // ---- the algorithm, token by token

  datatype Outcome = Matched | NotMatched | Overrun
  datatype Backtrack = Backtrack(pat: nat, str: nat)

  /** What the loop returns from a given state. Overrun: it would read past the string's terminator. */
  function Run(p: string, i: nat, s: string, j: nat, back: Option<Backtrack>): Outcome
    requires j <= |s|
    requires back.Some? ==> back.value.str <= j
    decreases if back.Some? then |s| - back.value.str else |s| + 1, |p| - i
  {
    var t := Tok(p, i);
    if t == Star then
      if Next(p, i) >= |p| then Matched
      else Run(p, Next(p, i), s, j, Some(Backtrack(Next(p, i), j)))
    else if t == End && j == |s| then Matched
    else if j < |s| && Accepts(t, s[j]) then Run(p, Next(p, i), s, j + 1, back)
    else if j == |s| && t.Class? && t.inverted then Overrun
    else if j == |s| || back.None? then NotMatched
    else Run(p, back.value.pat, s, back.value.str + 1, Some(Backtrack(back.value.pat, back.value.str + 1)))
  }

  // ---- correctness of backing up only to the last star

  /** Some suffix of s from j on matches the pattern from i. */
  ghost predicate MatchesLater(p: string, i: nat, s: string, j: nat) {
    exists k :: j <= k <= |s| && Matches(p, i, s, k)
  }

  lemma {:induction false} StarMeaning(p: string, i: nat, s: string, j: nat)
    requires Tok(p, i) == Star && j <= |s|
    ensures Matches(p, i, s, j) <==> MatchesLater(p, Next(p, i), s, j)
    decreases |s| - j
  {
    if j < |s| { StarMeaning(p, i, s, j + 1); }
  }

  /** From a, n one-character tokens lead to b. */
  predicate Segment(p: string, a: nat, b: nat, n: nat)
    decreases n
  {
    if n == 0 then a == b else Tok(p, a) != End && Tok(p, a) != Star && Segment(p, Next(p, a), b, n - 1)
  }

  lemma {:induction false} SegmentExtend(p: string, a: nat, b: nat, n: nat)
    requires Segment(p, a, b, n) && Tok(p, b) != End && Tok(p, b) != Star
    ensures Segment(p, a, Next(p, b), n + 1)
    decreases n
  {
    if n > 0 { SegmentExtend(p, Next(p, a), b, n - 1); }
  }

  lemma {:induction false} SegmentMatch(p: string, a: nat, b: nat, n: nat, s: string, k: nat)
    requires Segment(p, a, b, n) && k <= |s| && Matches(p, a, s, k)
    ensures k + n <= |s| && Matches(p, b, s, k + n)
    decreases n
  {
    if n > 0 { SegmentMatch(p, Next(p, a), b, n - 1, s, k + 1); }
  }

  /** What is known while scanning: the current attempt starts at the last star and has used n characters. */
  ghost predicate Trying(p: string, i: nat, s: string, j: nat, back: Option<Backtrack>)
    requires j <= |s|
  {
    back.Some? ==>
      var b := back.value;
      b.str <= j && Segment(p, b.pat, i, j - b.str) && (Matches(p, i, s, j) ==> Matches(p, b.pat, s, b.str))
  }

  /** The question the remaining run has to answer. */
  ghost predicate Answer(p: string, i: nat, s: string, j: nat, back: Option<Backtrack>)
    requires j <= |s|
  {
    match back
    case None => Matches(p, i, s, j)
    case Some(b) => MatchesLater(p, b.pat, s, b.str)
  }

  /** At the end of the string a one-character token fails, and so does every later attempt. */
  lemma NoLaterMatch(p: string, i: nat, s: string, back: Option<Backtrack>)
    requires Trying(p, i, s, |s|, back) && Tok(p, i) != Star && Tok(p, i) != End
    ensures !Answer(p, i, s, |s|, back)
  {
    if back.Some? {
      var b := back.value;
      if MatchesLater(p, b.pat, s, b.str) {
        var k :| b.str <= k <= |s| && Matches(p, b.pat, s, k);
        SegmentMatch(p, b.pat, i, |s| - b.str, s, k);
        assert false;
      }
    }
  }

  /** A second star makes the first one irrelevant: any match of the first segment can start where this one did. */
  lemma NewStar(p: string, i: nat, s: string, j: nat, back: Option<Backtrack>)
    requires j <= |s| && Trying(p, i, s, j, back) && Tok(p, i) == Star
    ensures Answer(p, i, s, j, back) <==> MatchesLater(p, Next(p, i), s, j)
  {
    StarMeaning(p, i, s, j);
    if back.Some? {
      var b := back.value;
      if MatchesLater(p, b.pat, s, b.str) {
        var k :| b.str <= k <= |s| && Matches(p, b.pat, s, k);
        SegmentMatch(p, b.pat, i, j - b.str, s, k);
        StarMeaning(p, i, s, k + (j - b.str));
        var m :| k + (j - b.str) <= m <= |s| && Matches(p, Next(p, i), s, m);
      }
    }
  }

  /** The attempt starting at the last star failed: only later starts remain. */
  lemma RetryLater(p: string, i: nat, s: string, j: nat, b: Backtrack)
    requires j < |s| && Trying(p, i, s, j, Some(b)) && !Matches(p, i, s, j)
    ensures MatchesLater(p, b.pat, s, b.str) <==> MatchesLater(p, b.pat, s, b.str + 1)
  {
    if Matches(p, b.pat, s, b.str) {
      SegmentMatch(p, b.pat, i, j - b.str, s, b.str);
      assert false;
    }
  }

  lemma {:induction false} RunCorrect(p: string, i: nat, s: string, j: nat, back: Option<Backtrack>)
    requires j <= |s| && (back.Some? ==> back.value.str <= j) && Trying(p, i, s, j, back)
    ensures Run(p, i, s, j, back) == Matched <==> Answer(p, i, s, j, back)
    decreases if back.Some? then |s| - back.value.str else |s| + 1, |p| - i
  {
    var t := Tok(p, i);
    if t == Star {
      NewStar(p, i, s, j, back);
      var n := Next(p, i);
      if n >= |p| {
        assert Matches(p, n, s, |s|);
      } else {
        RunCorrect(p, n, s, j, Some(Backtrack(n, j)));
      }
    } else if t == End && j == |s| {
    } else if j < |s| && Accepts(t, s[j]) {
      if back.Some? { SegmentExtend(p, back.value.pat, i, j - back.value.str); }
      RunCorrect(p, Next(p, i), s, j + 1, back);
    } else if j == |s| {
      NoLaterMatch(p, i, s, back);
    } else if back.Some? {
      var b := back.value;
      RetryLater(p, i, s, j, b);
      RunCorrect(p, b.pat, s, b.str + 1, Some(Backtrack(b.pat, b.str + 1)));
    }
  }

  /** For every pattern and string, the algorithm answers yes exactly when the pattern matches. */
  lemma GlobCorrect(p: string, s: string)
    ensures Run(p, 0, s, 0, None) == Matched <==> Matches(p, 0, s, 0)
  {
    RunCorrect(p, 0, s, 0, None);
  }

  // ---- negated classes accept the terminator

  predicate Satisfiable(t: Token) {
    match t
    case Any => true
    case Literal(_) => true
    case Class(spans, inverted) => inverted || exists k :: 0 <= k < |spans| && spans[k].lo <= spans[k].hi
    case End => false
    case Star => false
  }

  /** The pattern has a negated class that some string can lead up to. A caller can test this on the pattern alone. */
  predicate ReachesNegated(p: string, i: nat)
    decreases |p| - i
  {
    var t := Tok(p, i);
    t != End && ((t.Class? && t.inverted) || ((t == Star || Satisfiable(t)) && ReachesNegated(p, Next(p, i))))
  }

  lemma {:induction false} OverrunReaches(p: string, i: nat, s: string, j: nat, back: Option<Backtrack>)
    requires j <= |s| && (back.Some? ==> back.value.str <= j)
    requires Run(p, i, s, j, back) == Overrun
    ensures ReachesNegated(p, i) || (back.Some? && ReachesNegated(p, back.value.pat))
    decreases if back.Some? then |s| - back.value.str else |s| + 1, |p| - i
  {
    var t := Tok(p, i);
    if t == Star {
      OverrunReaches(p, Next(p, i), s, j, Some(Backtrack(Next(p, i), j)));
    } else if j < |s| && Accepts(t, s[j]) {
      OverrunReaches(p, Next(p, i), s, j + 1, back);
    } else if j < |s| {
      var b := back.value;
      OverrunReaches(p, b.pat, s, b.str + 1, Some(Backtrack(b.pat, b.str + 1)));
    }
  }

  /** A character the token accepts. */
  function Sample(t: Token): (c: char)
    requires Satisfiable(t) && !(t.Class? && t.inverted)
    ensures Accepts(t, c)
  {
    match t
    case Any => 'x'
    case Literal(d) => d
    case Class(spans, _) => FirstMember(spans)
  }

  function FirstMember(spans: seq<Span>): (c: char)
    requires exists k :: 0 <= k < |spans| && spans[k].lo <= spans[k].hi
    ensures InSpans(spans, c)
    decreases |spans|
  {
    if spans[0].lo <= spans[0].hi then spans[0].lo
    else
      var c := FirstMember(spans[1..]);
      assert InSpans(spans, c) by {
        var k :| 0 <= k < |spans[1..]| && spans[1..][k].lo <= c <= spans[1..][k].hi;
        assert spans[k + 1] == spans[1..][k];
      }
      c
  }

  /** A string that walks straight to the negated class and then ends. */
  function Lead(p: string, i: nat): string
    requires ReachesNegated(p, i)
    decreases |p| - i
  {
    var t := Tok(p, i);
    if t.Class? && t.inverted then []
    else if t == Star then Lead(p, Next(p, i))
    else [Sample(t)] + Lead(p, Next(p, i))
  }

  lemma {:induction false} LeadOverruns(p: string, i: nat, s: string, j: nat, back: Option<Backtrack>)
    requires j <= |s| && (back.Some? ==> back.value.str <= j)
    requires ReachesNegated(p, i) && s[j..] == Lead(p, i)
    ensures Run(p, i, s, j, back) == Overrun
    decreases |p| - i
  {
    var t := Tok(p, i);
    if t.Class? && t.inverted {
    } else if t == Star {
      assert Tok(p, Next(p, i)) != End;
      LeadOverruns(p, Next(p, i), s, j, Some(Backtrack(Next(p, i), j)));
    } else {
      assert s[j] == Lead(p, i)[0];
      assert s[j + 1..] == Lead(p, i)[1..];
      LeadOverruns(p, Next(p, i), s, j + 1, back);
    }
  }

  lemma {:induction false} LeadIsCString(p: string, i: nat)
    requires CString(p) && ReachesNegated(p, i)
    ensures CString(Lead(p, i))
    decreases |p| - i
  {
    var t := Tok(p, i);
    if !(t.Class? && t.inverted) {
      LeadIsCString(p, Next(p, i));
      if t.Class? { SpansSkipNul(p, i + 1); }
    }
  }

  /** A pattern can make the matcher read past the terminator exactly when it reaches a negated class. */
  lemma OverrunPossibleIff(p: string)
    requires CString(p)
    ensures (exists s :: CString(s) && Run(p, 0, s, 0, None) == Overrun) <==> ReachesNegated(p, 0)
  {
    if ReachesNegated(p, 0) {
      var s := Lead(p, 0);
      assert s[0..] == s;
      LeadOverruns(p, 0, s, 0, None);
      LeadIsCString(p, 0);
    }
    if exists s :: CString(s) && Run(p, 0, s, 0, None) == Overrun {
      var s :| CString(s) && Run(p, 0, s, 0, None) == Overrun;
      OverrunReaches(p, 0, s, 0, None);
    }
  }

  // ---- the code

  /** The span loop of a character class starting at k: malformed, or whether c is in it and where it ends. */
  method ScanClass(pat: string, k: nat, c: char) returns (malformed: bool, found: bool, end: nat)
    requires CString(pat) && k <= |pat|
    ensures malformed <==> ParseSpans(pat, k) == Malformed
    ensures !malformed ==> end == ParseSpans(pat, k).end && (found <==> InSpans(ParseSpans(pat, k).spans, c))
  {
    found, end := false, k;
    var a := At(pat, end);
    end := end + 1;
    while true
      invariant 0 < end <= |pat| + 1 && a == At(pat, end - 1)
      invariant Continues(ParseSpans(pat, k), ParseSpans(pat, end - 1), found, c)
      decreases |pat| + 1 - end
    {
      ghost var rest := ParseSpans(pat, end - 1);
      var b := a;
      if a == '\0' {
        return true, found, end;
      }
      if At(pat, end) == '-' && At(pat, end + 1) != ']' {
        b := At(pat, end + 1);
        if b == '\0' {
          return true, found, end;
        }
        end := end + 2;
      }
      found := found || (a <= c <= b);
      if rest.Closed? { InSpansHead(rest.spans, c); }
      a := At(pat, end);
      end := end + 1;
      if a == ']' {
        return false, found, end;
      }
      assert rest.Closed? ==> ParseSpans(pat, end - 1).spans == rest.spans[1..];
    }
  }

  /** whole is answered by what was found so far together with rest. */
  ghost predicate Continues(whole: Spans, rest: Spans, found: bool, c: char) {
    match rest
    case Malformed => whole == Malformed
    case Closed(spans, end) =>
      whole.Closed? && whole.end == end && (InSpans(whole.spans, c) <==> found || InSpans(spans, c))
  }

  lemma InSpansHead(spans: seq<Span>, c: char)
    requires spans != []
    ensures InSpans(spans, c) <==> spans[0].lo <= c <= spans[0].hi || InSpans(spans[1..], c)
  {
    if InSpans(spans[1..], c) {
      var k :| 0 <= k < |spans[1..]| && spans[1..][k].lo <= c <= spans[1..][k].hi;
      assert spans[k + 1] == spans[1..][k];
    }
    if InSpans(spans, c) {
      var k :| 0 <= k < |spans| && spans[k].lo <= c <= spans[k].hi;
      if k > 0 { assert spans[1..][k - 1] == spans[k]; }
    }
  }

  /** No span contains the terminator. */
  lemma {:induction false} SpansSkipNul(p: string, k: nat)
    requires ParseSpans(p, k).Closed?
    ensures !InSpans(ParseSpans(p, k).spans, '\0')
    decreases |p| - k
  {
    var range := At(p, k + 1) == '-' && At(p, k + 2) != ']';
    var next := if range then k + 3 else k + 1;
    InSpansHead(ParseSpans(p, k).spans, '\0');
    if At(p, next) != ']' {
      SpansSkipNul(p, next);
      assert ParseSpans(p, k).spans[1..] == ParseSpans(p, next).spans;
    }
  }

  /** glob_match: yes exactly on a match; a read past the terminator only for patterns that reach a negated class. */
  method GlobMatch(pat: string, str: string) returns (r: Outcome)
    requires CString(pat) && CString(str)
    ensures r == Matched <==> Matches(pat, 0, str, 0)
    ensures r == Overrun ==> ReachesNegated(pat, 0)
  {
    r := MatchLoop(pat, str);
    GlobCorrect(pat, str);
    OverrunPossibleIff(pat);
  }

  /** The loop over pattern and string cursors. */
  method MatchLoop(pat: string, str: string) returns (r: Outcome)
    requires CString(pat) && CString(str)
    ensures r == Run(pat, 0, str, 0, None)
  {
    var back: Option<Backtrack> := None;
    var i: nat, j: nat := 0, 0;
    while true
      invariant i <= |pat| && j <= |str|
      invariant back.Some? ==> back.value.str <= j && back.value.pat <= |pat|
      invariant Run(pat, 0, str, 0, None) == Run(pat, i, str, j, back)
      decreases if back.Some? then |str| - back.value.str else |str| + 1, |pat| - i
    {
      var c, d := At(str, j), At(pat, i);
      var retry := false;
      if d == '?' {
        if c == '\0' { return NotMatched; }
        i, j := i + 1, j + 1;
      } else if d == '*' {
        if At(pat, i + 1) == '\0' { return Matched; }
        i := i + 1;
        back := Some(Backtrack(i, j));
      } else {
        var move := OneToken(pat, str, i, j);
        match move
        case BothEnd => return Matched;
        case PastEnd => return Overrun;
        case Take(next) => i, j := next, j + 1;
        case Refuse => retry := true;
      }
      if retry {
        if c == '\0' || back.None? { return NotMatched; }
        i, j := back.value.pat, back.value.str + 1;
        back := Some(Backtrack(i, j));
      }
    }
  }

  /** What a class, an escape or a literal does with the next character. */
  datatype Move = Take(next: nat) | Refuse | BothEnd | PastEnd

  /** The cases of the switch for one character: class, escape, literal. */
  method OneToken(pat: string, str: string, i: nat, j: nat) returns (m: Move)
    requires CString(pat) && CString(str) && i <= |pat| && j <= |str| && At(pat, i) != '?' && At(pat, i) != '*'
    ensures Tok(pat, i) != Star
    ensures m.BothEnd? <==> Tok(pat, i) == End && j == |str|
    ensures m.PastEnd? <==> j == |str| && Tok(pat, i).Class? && Tok(pat, i).inverted
    ensures m.Take? <==> j < |str| && Accepts(Tok(pat, i), str[j])
    ensures m.Take? ==> Tok(pat, i) != End && m.next == Next(pat, i)
  {
    var c, d, next := At(str, j), At(pat, i), i + 1;
    if d == '[' {
      var inverted := At(pat, i + 1) == '!';
      var malformed, found, end := ScanClass(pat, if inverted then i + 2 else i + 1, c);
      if !malformed {
        SpansSkipNul(pat, if inverted then i + 2 else i + 1);
        if found == inverted { return Refuse; }
        if j >= |str| { return PastEnd; }
        return Take(end);
      }
    } else if d == '\\' {
      d := At(pat, i + 1);
      next := i + 2;
    }
    if c != d { return Refuse; }
    if d == '\0' { return BothEnd; }
    return Take(next);
  }
}
