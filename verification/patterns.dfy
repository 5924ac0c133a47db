/**
  The five fixed join/leave regular expressions of `process_chat`, written
  as token patterns instead of a general regex engine.

  Every pattern has the shape `HEAD (GROUP) TAIL`, where HEAD is the
  date-time prefix plus the fixed text before the user name, GROUP is the
  lazy capture group (`.+?` or `.*?`) and TAIL is what must follow it.
  HEAD and TAIL are sequences of tokens: a run of ASCII digits (`\d+`) or
  a literal. `Match` tries a pattern at one offset, the start of the
  string; `Search` tries each offset from the left, as `re.search` does.
 */
module Patterns {
  import opened Text

  datatype Tok = Digits | Lit(text: string)

  /** A lazy `.+?` (minUser 1) or `.*?` (minUser 0) group between two token sequences. */
  datatype Pattern = Pattern(head: seq<Tok>, minUser: nat, tail: seq<Tok>)

  /** Consume one token from the front of `s`; a digit run is consumed greedily. */
  function Step(s: string, t: Tok): (r: Option<string>)
    ensures r.Some? ==> |r.value| <= |s| && r.value == s[|s| - |r.value|..]
  {
    match t
    case Digits =>
      var n := LeadingDigits(s);
      if n == 0 then None else Some(s[n..])
    case Lit(l) =>
      if IsPrefix(l, s) then Some(s[|l|..]) else None
  }

  /** Match `toks` at the front of `s`, returning the unconsumed rest. */
  function MatchToks(s: string, toks: seq<Tok>): (r: Option<string>)
    decreases |toks|
    ensures r.Some? ==> |r.value| <= |s|
  {
    if toks == [] then Some(s)
    else
      match Step(s, toks[0])
      case None => None
      case Some(rest) => MatchToks(rest, toks[1..])
  }

  /**
    The language of a token sequence, as a regular expression defines it:
    `\d+` may stand for any non-empty digit string, with no greediness.
   */
  ghost predicate InLang(w: string, toks: seq<Tok>)
    decreases |toks|
  {
    if toks == [] then w == []
    else
      match toks[0]
      case Digits =>
        exists n: nat :: 1 <= n <= |w| && AllDigits(w[..n]) && InLang(w[n..], toks[1..])
      case Lit(l) =>
        IsPrefix(l, w) && InLang(w[|l|..], toks[1..])
  }

  /**
    Every digit run except a final one is followed by a literal that starts
    with a non-digit, so a greedy `\d+` never has to give characters back.
   */
  predicate WellFormed(toks: seq<Tok>) {
    forall i :: 0 <= i < |toks| - 1 && toks[i].Digits? ==>
      toks[i + 1].Lit? && |toks[i + 1].text| > 0 && !IsDigit(toks[i + 1].text[0])
  }

  predicate EndsWithDigits(toks: seq<Tok>) {
    |toks| > 0 && toks[|toks| - 1].Digits?
  }

  /** What one successful step consumed: a digit run, or the literal. */
  lemma StepSplit(s: string, t: Tok) returns (n: nat)
    requires Step(s, t).Some?
    ensures n <= |s| && Step(s, t).value == s[n..]
    ensures t.Digits? ==> 1 <= n && AllDigits(s[..n])
    ensures t.Lit? ==> s[..n] == t.text
  {
    match t
    case Digits =>
      n := LeadingDigits(s);
    case Lit(l) =>
      n := |l|;
  }

  /** Build a word of `[t] + rest` from a word of `t` and a word of `rest`. */
  lemma InLangCons(d: string, c: string, t: Tok, rest: seq<Tok>)
    requires t.Digits? ==> 1 <= |d| && AllDigits(d)
    requires t.Lit? ==> d == t.text
    requires InLang(c, rest)
    ensures InLang(d + c, [t] + rest)
  {
    var toks := [t] + rest;
    var w := d + c;
    assert toks[0] == t && toks[1..] == rest;
    assert w[..|d|] == d && w[|d|..] == c;
    match t
    case Digits =>
      assert 1 <= |d| <= |w| && AllDigits(w[..|d|]) && InLang(w[|d|..], toks[1..]);
    case Lit(l) =>
  }

  /** Take a word of a non-empty token sequence apart after its first token. */
  lemma InLangHead(w: string, toks: seq<Tok>) returns (n: nat)
    requires InLang(w, toks) && toks != []
    ensures n <= |w| && InLang(w[n..], toks[1..])
    ensures toks[0].Digits? ==> 1 <= n && AllDigits(w[..n])
    ensures toks[0].Lit? ==> w[..n] == toks[0].text
  {
    match toks[0]
    case Digits =>
      n :| 1 <= n <= |w| && AllDigits(w[..n]) && InLang(w[n..], toks[1..]);
    case Lit(l) =>
      n := |l|;
  }

  /** A sequence is its first `n` elements followed by the rest. */
  lemma Rejoin<T>(s: seq<T>, n: nat)
    requires n <= |s|
    ensures s == s[..n] + s[n..]
  {
  }

  /** Cutting `a + b` inside `a`. */
  lemma RejoinAppend<T>(a: seq<T>, n: nat, b: seq<T>)
    requires n <= |a|
    ensures a[..n] + (a[n..] + b) == a + b
  {
    assert a == a[..n] + a[n..];
  }

  /** `s` cut after `n` characters, with the rest split again into `c + r`. */
  lemma SplitAfter(s: string, n: nat, c: string, r: string)
    requires n <= |s| && s[n..] == c + r
    ensures s == (s[..n] + c) + r && s[..|s| - |r|] == s[..n] + c
  {
    assert s == s[..n] + s[n..];
  }

  /** Matching a concatenation is matching the parts one after the other. */
  lemma {:induction false} MatchToksAppend(s: string, a: seq<Tok>, b: seq<Tok>)
    decreases |a|
    ensures MatchToks(s, a + b) ==
      (match MatchToks(s, a) case None => None case Some(m) => MatchToks(m, b))
  {
    if a == [] {
      assert a + b == b;
    } else {
      assert (a + b)[0] == a[0];
      assert (a + b)[1..] == a[1..] + b;
      match Step(s, a[0])
      case None =>
      case Some(rest) => MatchToksAppend(rest, a[1..], b);
    }
  }

  /**
    Whatever the greedy matcher consumes is a word of the pattern's
    language, and the input is that word followed by the rest.
   */
  lemma {:induction false} MatchToksSound(s: string, toks: seq<Tok>)
    decreases |toks|
    requires MatchToks(s, toks).Some?
    ensures var r := MatchToks(s, toks).value;
      |r| <= |s| && s == s[..|s| - |r|] + r && InLang(s[..|s| - |r|], toks)
  {
    if toks == [] {
      assert s[..|s| - |s|] == [];
    } else {
      var n := StepSplit(s, toks[0]);
      var rest := s[n..];
      var r := MatchToks(rest, toks[1..]).value;
      MatchToksSound(rest, toks[1..]);
      var c := rest[..|rest| - |r|];
      var w := s[..n] + c;
      InLangCons(s[..n], c, toks[0], toks[1..]);
      assert [toks[0]] + toks[1..] == toks;
      assert MatchToks(s, toks) == Some(r);
      SplitAfter(s, n, c, r);
    }
  }

  /**
    For a well-formed pattern the greedy matcher finds every word of the
    language: on `w + r` with `w` in the language it stops exactly at `r`.
   */
  lemma {:induction false} MatchToksComplete(w: string, r: string, toks: seq<Tok>)
    decreases |toks|
    requires WellFormed(toks) && InLang(w, toks)
    requires EndsWithDigits(toks) && |r| > 0 ==> !IsDigit(r[0])
    ensures MatchToks(w + r, toks) == Some(r)
  {
    if toks == [] {
      assert w + r == r;
    } else {
      WellFormedTail(toks);
      var n := StepOnWord(w, r, toks);
      MatchToksComplete(w[n..], r, toks[1..]);
    }
  }

  lemma WellFormedTail(toks: seq<Tok>)
    requires WellFormed(toks) && toks != []
    ensures WellFormed(toks[1..])
    ensures EndsWithDigits(toks[1..]) ==> EndsWithDigits(toks)
  {
    forall i | 0 <= i < |toks[1..]| - 1 && toks[1..][i].Digits?
      ensures toks[1..][i + 1].Lit? && |toks[1..][i + 1].text| > 0
        && !IsDigit(toks[1..][i + 1].text[0])
    {
      assert toks[1..][i] == toks[i + 1];
    }
  }

  /** The greedy first step on a word of the language consumes exactly its first token's part. */
  lemma StepOnWord(w: string, r: string, toks: seq<Tok>) returns (n: nat)
    requires WellFormed(toks) && InLang(w, toks) && toks != []
    requires EndsWithDigits(toks) && |r| > 0 ==> !IsDigit(r[0])
    ensures n <= |w| && InLang(w[n..], toks[1..])
    ensures Step(w + r, toks[0]) == Some(w[n..] + r)
  {
    n := InLangHead(w, toks);
    var t := w[n..] + r;
    RejoinAppend(w, n, r);
    if toks[0].Digits? {
      if |toks| > 1 {
        var n1 := InLangHead(w[n..], toks[1..]);
        assert toks[1..][0] == toks[1];
        assert t[0] == w[n..][..n1][0];
      } else {
        assert w[n..] == [];
      }
      LeadingDigitsOfRun(w[..n], t);
    } else {
      assert IsPrefix(toks[0].text, w[..n] + t);
    }
  }

  /**
    A well-formed pattern that ends in a literal can be matched in only one
    way at the front of a string, so a backtracking engine has no other
    split to fall back on.
   */
  lemma PrefixUnique(w1: string, r1: string, w2: string, r2: string, toks: seq<Tok>)
    requires WellFormed(toks) && !EndsWithDigits(toks)
    requires InLang(w1, toks) && InLang(w2, toks)
    requires w1 + r1 == w2 + r2
    ensures w1 == w2 && r1 == r2
  {
    MatchToksComplete(w1, r1, toks);
    MatchToksComplete(w2, r2, toks);
    assert w1 == (w1 + r1)[..|w1|];
  }

  /** The language of a concatenation contains the concatenated words. */
  lemma {:induction false} InLangAppend(a: string, ta: seq<Tok>, b: string, tb: seq<Tok>)
    decreases |ta|
    requires InLang(a, ta) && InLang(b, tb)
    ensures InLang(a + b, ta + tb)
  {
    if ta == [] {
      assert a + b == b && ta + tb == tb;
    } else {
      var n := InLangHead(a, ta);
      InLangAppend(a[n..], ta[1..], b, tb);
      InLangCons(a[..n], a[n..] + b, ta[0], ta[1..] + tb);
      RejoinAppend(ta, 1, tb);
      assert ta[..1] == [ta[0]];
      RejoinAppend(a, n, b);
    }
  }

  /** No literal of `toks` contains `c`. */
  predicate LitsAvoid(toks: seq<Tok>, c: char) {
    forall j :: 0 <= j < |toks| && toks[j].Lit? ==> c !in toks[j].text
  }

  /** A word of the language is made of digits and literal characters only. */
  lemma {:induction false} InLangAvoids(w: string, toks: seq<Tok>, c: char)
    decreases |toks|
    requires InLang(w, toks) && LitsAvoid(toks, c) && !IsDigit(c)
    ensures c !in w
  {
    if toks != [] {
      assert LitsAvoid(toks[1..], c) by {
        forall j | 0 <= j < |toks[1..]| && toks[1..][j].Lit?
          ensures c !in toks[1..][j].text
        {
          assert toks[1..][j] == toks[j + 1];
        }
      }
      var n := InLangHead(w, toks);
      InLangAvoids(w[n..], toks[1..], c);
      assert w == w[..n] + w[n..];
      assert c !in w[..n];
    }
  }

  /** A word of a language that ends in a digit run ends in a digit. */
  lemma {:induction false} InLangEndsWithDigit(w: string, toks: seq<Tok>)
    decreases |toks|
    requires InLang(w, toks) && EndsWithDigits(toks)
    ensures |w| > 0 && IsDigit(w[|w| - 1])
  {
    var n := InLangHead(w, toks);
    if |toks| == 1 {
      assert w[n..] == [];
      assert w[..n][|w| - 1] == w[|w| - 1];
    } else {
      assert EndsWithDigits(toks[1..]);
      InLangEndsWithDigit(w[n..], toks[1..]);
      assert w[n..][|w[n..]| - 1] == w[|w| - 1];
    }
  }

  // ---------------------------------------------------------------------
  // The lazy capture group
  // ---------------------------------------------------------------------

  /** The tail of the pattern matches `body` at offset `j`. */
  predicate TailAt(body: string, j: nat, tail: seq<Tok>) {
    j <= |body| && MatchToks(body[j..], tail).Some?
  }

  /** Once a prefix holds a newline, every longer prefix does too. */
  lemma NewlineStays(body: string, a: nat)
    requires a <= |body| && '\n' in body[..a]
    ensures forall b: nat :: a <= b <= |body| ==> '\n' in body[..b]
  {
    var k :| 0 <= k < a && body[..a][k] == '\n';
    forall b: nat | a <= b <= |body|
      ensures '\n' in body[..b]
    {
      assert body[..b][k] == '\n';
    }
  }

  /**
    Grow the group one character at a time from `j`, as a lazy group does,
    stopping at the first offset where the tail matches; `.` never matches
    a newline, so a newline ends the search.
   */
  function LazyFrom(body: string, j: nat, tail: seq<Tok>): (r: Option<nat>)
    requires j <= |body| && '\n' !in body[..j]
    decreases |body| - j
    ensures r.Some? ==> j <= r.value <= |body| && '\n' !in body[..r.value]
    ensures r.Some? ==> TailAt(body, r.value, tail)
  {
    if TailAt(body, j, tail) then Some(j)
    else if j == |body| || body[j] == '\n' then None
    else
      NewlineFreeStep(body, j);
      LazyFrom(body, j + 1, tail)
  }

  /** The offset `LazyFrom` stops at is the first one where the tail matches. */
  lemma {:induction false} LazyFromFirst(body: string, j: nat, tail: seq<Tok>)
    requires j <= |body| && '\n' !in body[..j]
    decreases |body| - j
    ensures LazyFrom(body, j, tail).Some? ==>
      forall i: nat :: j <= i < LazyFrom(body, j, tail).value ==> !TailAt(body, i, tail)
  {
    if !TailAt(body, j, tail) && j < |body| && body[j] != '\n' {
      NewlineFreeStep(body, j);
      LazyFromFirst(body, j + 1, tail);
    }
  }

  /** When `LazyFrom` fails, the tail matches at no newline-free offset from `j` on. */
  lemma {:induction false} LazyFromNone(body: string, j: nat, tail: seq<Tok>)
    requires j <= |body| && '\n' !in body[..j]
    decreases |body| - j
    ensures LazyFrom(body, j, tail).None? ==>
      forall i: nat :: j <= i <= |body| && '\n' !in body[..i] ==> !TailAt(body, i, tail)
  {
    if !TailAt(body, j, tail) && j < |body| {
      if body[j] == '\n' {
        assert body[..j + 1][j] == '\n';
        NewlineStays(body, j + 1);
      } else {
        NewlineFreeStep(body, j);
        LazyFromNone(body, j + 1, tail);
      }
    }
  }

  lemma NewlineFreeStep(body: string, j: nat)
    requires j < |body| && '\n' !in body[..j] && body[j] != '\n'
    ensures '\n' !in body[..j + 1]
  {
    assert body[..j + 1] == body[..j] + [body[j]];
  }

  /**
    `u` is what a lazy group with at least `min` characters captures at the
    front of `body`: the shortest newline-free prefix after which the tail
    matches.
   */
  ghost predicate IsLazyGroup(body: string, min: nat, tail: seq<Tok>, u: string) {
    && IsPrefix(u, body)
    && min <= |u|
    && '\n' !in u
    && TailAt(body, |u|, tail)
    && forall j: nat :: min <= j < |u| ==> !TailAt(body, j, tail)
  }

  function LazyGroup(body: string, min: nat, tail: seq<Tok>): (r: Option<string>)
    ensures r.Some? ==> IsLazyGroup(body, min, tail, r.value)
    ensures r.None? ==>
      forall j: nat :: min <= j <= |body| && '\n' !in body[..j] ==> !TailAt(body, j, tail)
  {
    if min > |body| then None
    else if '\n' in body[..min] then
      NewlineStays(body, min);
      None
    else
      match LazyFrom(body, min, tail)
      case None =>
        LazyFromNone(body, min, tail);
        None
      case Some(j) =>
        LazyFromFirst(body, min, tail);
        Some(body[..j])
  }

  /** The lazy group is determined by the body: there is at most one. */
  lemma LazyGroupUnique(body: string, min: nat, tail: seq<Tok>, u: string, v: string)
    requires IsLazyGroup(body, min, tail, u) && IsLazyGroup(body, min, tail, v)
    ensures u == v
  {
    assert |u| == |v|;
    assert u == body[..|u|];
  }

  /** A lazy group exists as soon as some newline-free offset lets the tail match. */
  lemma LazyGroupFound(body: string, min: nat, tail: seq<Tok>, u: string)
    requires IsLazyGroup(body, min, tail, u)
    ensures LazyGroup(body, min, tail) == Some(u)
  {
    assert body[..|u|] == u;
    var r := LazyGroup(body, min, tail);
    assert r.Some?;
    LazyGroupUnique(body, min, tail, r.value, u);
  }

  /** A tail that is a single literal matches exactly where that literal occurs. */
  lemma TailLitAt(body: string, j: nat, l: string)
    requires j <= |body|
    ensures TailAt(body, j, [Lit(l)]) <==> OccursAt(body, l, j)
  {
    var t := body[j..];
    assert [Lit(l)][1..] == [];
    assert MatchToks(t, [Lit(l)]).Some? <==> Step(t, Lit(l)).Some?;
    assert Step(t, Lit(l)).Some? <==> IsPrefix(l, t);
    if j + |l| <= |body| {
      assert t[..|l|] == body[j..j + |l|];
    }
  }

  /** A tail that starts with a literal can match only where that literal occurs. */
  lemma TailStartsWithLit(body: string, j: nat, l: string, rest: seq<Tok>)
    ensures TailAt(body, j, [Lit(l)] + rest) ==> OccursAt(body, l, j)
  {
    if TailAt(body, j, [Lit(l)] + rest) {
      assert ([Lit(l)] + rest)[0] == Lit(l);
      assert body[j..][..|l|] == body[j..j + |l|];
    }
  }

  /** `re.search(pattern, line).group(1)` for a match at the start of `line`. */
  function Match(p: Pattern, line: string): (r: Option<string>)
    ensures r.Some? ==>
      MatchToks(line, p.head).Some? &&
      IsLazyGroup(MatchToks(line, p.head).value, p.minUser, p.tail, r.value)
  {
    match MatchToks(line, p.head)
    case None => None
    case Some(body) => LazyGroup(body, p.minUser, p.tail)
  }

  lemma ConcatAssoc(a: string, b: string, c: string, d: string)
    ensures a + (b + (c + d)) == a + b + c + d
  {
  }

  // ---------------------------------------------------------------------
  // Agreement with the regular-expression reading
  // ---------------------------------------------------------------------

  predicate WellFormedPattern(p: Pattern) {
    WellFormed(p.head) && !EndsWithDigits(p.head) && WellFormed(p.tail) && !EndsWithDigits(p.tail)
  }

  /**
    The pattern, tried at the start of `line`, can match with capture group
    `u`: some word of HEAD, then `u`, then some word of TAIL.
   */
  ghost predicate RegexGroup(p: Pattern, line: string, u: string) {
    && p.minUser <= |u|
    && '\n' !in u
    && exists h: string, w: string ::
         InLang(h, p.head) && InLang(w, p.tail) && IsPrefix(h + u + w, line)
  }

  /** Slicing a string at the ends of three consecutive pieces of a prefix. */
  lemma PrefixPieces(line: string, h: string, u: string, w: string)
    requires IsPrefix(h + u + w, line)
    ensures line == h + line[|h|..]
    ensures line[|h|..] == u + line[|h| + |u|..]
    ensures line[|h| + |u|..] == w + line[|h| + |u| + |w|..]
  {
    var x := h + u + w;
    forall i | 0 <= i < |x|
      ensures line[i] == x[i]
    {
      assert line[..|x|][i] == line[i];
    }
    assert line[..|h|] == h by {
      forall i | 0 <= i < |h| ensures line[i] == h[i] { assert x[i] == h[i]; }
    }
    assert line[|h|..][..|u|] == u by {
      forall i | 0 <= i < |u| ensures line[|h| + i] == u[i] { assert x[|h| + i] == u[i]; }
    }
    assert line[|h| + |u|..][..|w|] == w by {
      forall i | 0 <= i < |w| ensures line[|h| + |u| + i] == w[i] {
        assert x[|h| + |u| + i] == w[i];
      }
    }
    Rejoin(line, |h|);
    Rejoin(line[|h|..], |u|);
    Rejoin(line[|h| + |u|..], |w|);
    assert line[|h|..][|u|..] == line[|h| + |u|..];
    assert line[|h| + |u|..][|w|..] == line[|h| + |u| + |w|..];
  }

  /**
    Any regex match pins HEAD to what the greedy matcher consumes, and the
    group to a prefix of the rest after which TAIL matches.
   */
  lemma RegexGroupPinned(p: Pattern, line: string, u: string)
    requires WellFormedPattern(p)
    requires RegexGroup(p, line, u)
    ensures MatchToks(line, p.head).Some?
    ensures IsPrefix(u, MatchToks(line, p.head).value)
    ensures TailAt(MatchToks(line, p.head).value, |u|, p.tail)
  {
    var h: string, w: string :|
      InLang(h, p.head) && InLang(w, p.tail) && IsPrefix(h + u + w, line);
    PiecesPinned(p.head, p.tail, line, h, u, w);
  }

  lemma PiecesPinned(head: seq<Tok>, tail: seq<Tok>, line: string, h: string, u: string, w: string)
    requires WellFormed(head) && !EndsWithDigits(head)
    requires WellFormed(tail) && !EndsWithDigits(tail)
    requires InLang(h, head) && InLang(w, tail) && IsPrefix(h + u + w, line)
    ensures MatchToks(line, head) == Some(line[|h|..])
    ensures IsPrefix(u, line[|h|..])
    ensures TailAt(line[|h|..], |u|, tail)
  {
    PrefixPieces(line, h, u, w);
    var body := line[|h|..];
    MatchToksComplete(h, body, head);
    var after := line[|h| + |u|..];
    assert body[|u|..] == after;
    MatchToksComplete(w, after[|w|..], tail);
  }

  /** What `Match` captures is a regex match. */
  lemma MatchIsRegexGroup(p: Pattern, line: string)
    requires Match(p, line).Some?
    ensures RegexGroup(p, line, Match(p, line).value)
  {
    GroupIsRegexGroup(p, line, MatchToks(line, p.head).value, Match(p, line).value);
  }

  lemma GroupIsRegexGroup(p: Pattern, line: string, body: string, u: string)
    requires MatchToks(line, p.head) == Some(body)
    requires IsLazyGroup(body, p.minUser, p.tail, u)
    ensures RegexGroup(p, line, u)
  {
    MatchToksSound(line, p.head);
    var h := line[..|line| - |body|];
    var after := body[|u|..];
    assert body == u + after;
    MatchToksSound(after, p.tail);
    var r := MatchToks(after, p.tail).value;
    var w := after[..|after| - |r|];
    ConcatAssoc(h, u, w, r);
    RegexGroupIntro(p, line, h, u, w, r);
  }

  lemma RegexGroupIntro(p: Pattern, line: string, h: string, u: string, w: string, r: string)
    requires p.minUser <= |u| && '\n' !in u
    requires InLang(h, p.head) && InLang(w, p.tail) && line == h + u + w + r
    ensures RegexGroup(p, line, u)
  {
    assert line[..|h + u + w|] == h + u + w;
  }

  /** The pattern matches whenever the regular expression has some match. */
  lemma RegexGroupFound(p: Pattern, line: string, v: string)
    requires WellFormedPattern(p)
    requires RegexGroup(p, line, v)
    ensures Match(p, line).Some?
    ensures |Match(p, line).value| <= |v|
  {
    RegexGroupPinned(p, line, v);
    var body := MatchToks(line, p.head).value;
    assert body[..|v|] == v;
  }

  /** Two regex groups of the same length at the start of a line are equal. */
  lemma RegexGroupSameLength(p: Pattern, line: string, u: string, v: string)
    requires WellFormedPattern(p)
    requires RegexGroup(p, line, u) && RegexGroup(p, line, v) && |u| == |v|
    ensures u == v
  {
    RegexGroupPinned(p, line, u);
    RegexGroupPinned(p, line, v);
    var body := MatchToks(line, p.head).value;
    assert u == body[..|u|] && v == body[..|v|];
  }

  /**
    `Match` is the regular expression's answer: it captures exactly the
    shortest group with which the pattern matches at the start of the line,
    and fails exactly when there is no such match.
   */
  lemma MatchIsShortestRegexGroup(p: Pattern, line: string, u: string)
    requires WellFormedPattern(p)
    ensures Match(p, line) == Some(u) <==>
      RegexGroup(p, line, u) && forall v :: |v| < |u| ==> !RegexGroup(p, line, v)
    ensures Match(p, line).None? <==> forall v :: !RegexGroup(p, line, v)
  {
    var m := Match(p, line);
    forall v | RegexGroup(p, line, v)
      ensures m.Some? && |m.value| <= |v|
    {
      RegexGroupFound(p, line, v);
    }
    if m.Some? {
      MatchIsRegexGroup(p, line);
      if RegexGroup(p, line, u) && |m.value| == |u| {
        RegexGroupSameLength(p, line, m.value, u);
      }
    }
  }

  // ---------------------------------------------------------------------
  // Searching a line
  // ---------------------------------------------------------------------

  /** The first offset at or after `i` where the pattern matches the rest of the line. */
  function FirstMatchFrom(p: Pattern, line: string, i: nat): (r: Option<nat>)
    requires i <= |line|
    decreases |line| - i
    ensures r.Some? ==> i <= r.value <= |line| && Match(p, line[r.value..]).Some?
    ensures forall j: nat :: i <= j <= |line| && (r.None? || j < r.value) ==> Match(p, line[j..]).None?
  {
    if Match(p, line[i..]).Some? then Some(i)
    else if i == |line| then None
    else FirstMatchFrom(p, line, i + 1)
  }

  /**
    `re.search(pattern, line).group(1)`: the pattern is tried at every
    offset from the left, and the first offset where it matches decides
    the group.
   */
  function Search(p: Pattern, line: string): (r: Option<string>)
    ensures r.None? <==> forall j: nat :: j <= |line| ==> Match(p, line[j..]).None?
    ensures Match(p, line).Some? ==> r == Match(p, line)
  {
    assert line[0..] == line;
    match FirstMatchFrom(p, line, 0)
    case None => None
    case Some(j) => Match(p, line[j..])
  }

  /** The offset where a successful search matched. */
  lemma SearchOffset(p: Pattern, line: string) returns (j: nat)
    requires Search(p, line).Some?
    ensures j <= |line| && Search(p, line) == Match(p, line[j..])
    ensures forall k: nat :: k < j ==> Match(p, line[k..]).None?
    ensures Match(p, line).Some? ==> j == 0
  {
    j := FirstMatchFrom(p, line, 0).value;
    assert line[0..] == line;
  }

  /** The regular expression matches the line at offset `j`. */
  ghost predicate MatchesAt(p: Pattern, line: string, j: nat) {
    j <= |line| && exists v :: RegexGroup(p, line[j..], v)
  }

  /** `u` is the shortest group with which the regular expression matches at offset `j`. */
  ghost predicate ShortestAt(p: Pattern, line: string, j: nat, u: string) {
    && j <= |line|
    && RegexGroup(p, line[j..], u)
    && forall v :: |v| < |u| ==> !RegexGroup(p, line[j..], v)
  }

  /**
    `Search` is the regular expression's search: it fails exactly when the
    pattern matches at no offset, and otherwise captures the shortest group
    at the leftmost offset where the pattern matches.
   */
  lemma SearchIsLeftmostShortest(p: Pattern, line: string, u: string)
    requires WellFormedPattern(p)
    ensures Search(p, line).None? <==> forall j: nat :: !MatchesAt(p, line, j)
    ensures Search(p, line) == Some(u) <==>
      exists j: nat :: ShortestAt(p, line, j, u) && forall k: nat :: k < j ==> !MatchesAt(p, line, k)
  {
    SearchNoneIffNoMatch(p, line);
    SearchFindsLeftmost(p, line, u);
    forall j: nat | ShortestAt(p, line, j, u) && forall k: nat :: k < j ==> !MatchesAt(p, line, k)
      ensures Search(p, line) == Some(u)
    {
      LeftmostIsFound(p, line, u, j);
    }
  }

  /** At one offset, `Match` is the regular expression's answer there. */
  lemma MatchAtOffset(p: Pattern, line: string, j: nat, u: string)
    requires WellFormedPattern(p) && j <= |line|
    ensures Match(p, line[j..]).None? <==> !MatchesAt(p, line, j)
    ensures Match(p, line[j..]) == Some(u) <==> ShortestAt(p, line, j, u)
  {
    MatchIsShortestRegexGroup(p, line[j..], u);
  }

  lemma SearchNoneIffNoMatch(p: Pattern, line: string)
    requires WellFormedPattern(p)
    ensures Search(p, line).None? <==> forall j: nat :: !MatchesAt(p, line, j)
  {
    forall j: nat | j <= |line|
      ensures Match(p, line[j..]).None? <==> !MatchesAt(p, line, j)
    {
      MatchAtOffset(p, line, j, "");
    }
  }

  lemma SearchFindsLeftmost(p: Pattern, line: string, u: string)
    requires WellFormedPattern(p)
    ensures Search(p, line) == Some(u) ==>
      exists j: nat :: ShortestAt(p, line, j, u) && forall k: nat :: k < j ==> !MatchesAt(p, line, k)
  {
    var r := FirstMatchFrom(p, line, 0);
    if r.Some? {
      var j := r.value;
      MatchAtOffset(p, line, j, u);
      forall k: nat | k < j
        ensures !MatchesAt(p, line, k)
      {
        MatchAtOffset(p, line, k, u);
      }
    }
  }

  lemma LeftmostIsFound(p: Pattern, line: string, u: string, j: nat)
    requires WellFormedPattern(p)
    requires ShortestAt(p, line, j, u)
    requires forall k: nat :: k < j ==> !MatchesAt(p, line, k)
    ensures Search(p, line) == Some(u)
  {
    MatchAtOffset(p, line, j, u);
    var r := FirstMatchFrom(p, line, 0);
    MatchAtOffset(p, line, r.value, u);
  }

  // ---------------------------------------------------------------------
  // The pattern tables of process_chat
  // ---------------------------------------------------------------------

  /** The separator between the date-time and the message body. */
  const Sep: string := " - "

  /** `\d+/\d+/\d+, \d+:\d+` */
  const EnglishStamp: seq<Tok> :=
    [Digits, Lit("/"), Digits, Lit("/"), Digits, Lit(", "), Digits, Lit(":"), Digits]

  /** `\d+\.\d+\.\d+, \d+:\d+` */
  const HebrewStamp: seq<Tok> :=
    [Digits, Lit("."), Digits, Lit("."), Digits, Lit(", "), Digits, Lit(":"), Digits]

  /** Right-to-left mark, then "ההצטרפות של " ("the joining of "). */
  const HebrewJoinLead: string :=
    "\U{200F}\U{05D4}\U{05D4}\U{05E6}\U{05D8}\U{05E8}\U{05E4}\U{05D5}\U{05EA} \U{05E9}\U{05DC} "

  /** " בוצעה" ("was carried out"). */
  const HebrewJoinTail: string := " \U{05D1}\U{05D5}\U{05E6}\U{05E2}\U{05D4}"

  /** " יצא/ה" ("left", both genders). */
  const HebrewLeaveTail: string := " \U{05D9}\U{05E6}\U{05D0}/\U{05D4}"

  /** `... - (.+?) joined using this community's invite link` */
  const EnglishJoin: Pattern :=
    Pattern(EnglishStamp + [Lit(Sep)], 1, [Lit(" joined using this community's invite link")])

  /** `... - \u200fההצטרפות של (.*?) בוצעה` */
  const HebrewJoin: Pattern :=
    Pattern(HebrewStamp + [Lit(Sep), Lit(HebrewJoinLead)], 0, [Lit(HebrewJoinTail)])

  /** `... - (.+?) left` */
  const EnglishLeave: Pattern :=
    Pattern(EnglishStamp + [Lit(Sep)], 1, [Lit(" left")])

  /** `... - (.*?) יצא/ה` */
  const HebrewLeave: Pattern :=
    Pattern(HebrewStamp + [Lit(Sep)], 0, [Lit(HebrewLeaveTail)])

  /** `... - (.+?), and \d+ others left` */
  const EnglishMultiLeave: Pattern :=
    Pattern(EnglishStamp + [Lit(Sep)], 1, [Lit(", and "), Digits, Lit(" others left")])

  const JoinPatterns: seq<Pattern> := [EnglishJoin, HebrewJoin]

  const LeavePatterns: seq<Pattern> := [EnglishLeave, HebrewLeave, EnglishMultiLeave]

  /** A date-time stamp followed by literals is well formed. */
  lemma StampHeadWellFormed(stamp: seq<Tok>, lits: seq<Tok>)
    requires stamp == EnglishStamp || stamp == HebrewStamp
    requires forall k :: 0 <= k < |lits| ==> lits[k].Lit?
    requires |lits| > 0 && |lits[0].text| > 0 && !IsDigit(lits[0].text[0])
    ensures WellFormed(stamp + lits)
  {
    var t := stamp + lits;
    forall i | 0 <= i < |t| - 1 && t[i].Digits?
      ensures t[i + 1].Lit? && |t[i + 1].text| > 0 && !IsDigit(t[i + 1].text[0])
    {
      if i + 1 < |stamp| {
        assert i % 2 == 0;
        assert t[i + 1] == stamp[i + 1];
      } else {
        assert t[i + 1] == lits[i + 1 - |stamp|];
      }
    }
  }

  /**
    All five patterns are well formed, so `Match` is the shortest regex
    match for each of them.
   */
  lemma TablesWellFormed()
    ensures forall p :: p in JoinPatterns + LeavePatterns ==> WellFormedPattern(p)
  {
    StampHeadWellFormed(EnglishStamp, [Lit(Sep)]);
    StampHeadWellFormed(HebrewStamp, [Lit(Sep)]);
    StampHeadWellFormed(HebrewStamp, [Lit(Sep), Lit(HebrewJoinLead)]);
    var multi := EnglishMultiLeave.tail;
    assert WellFormed(multi) by {
      forall i | 0 <= i < |multi| - 1 && multi[i].Digits?
        ensures multi[i + 1].Lit? && |multi[i + 1].text| > 0 && !IsDigit(multi[i + 1].text[0])
      {
        assert i == 1;
      }
    }
  }
}
