/**
  What the extractor records for the line shapes the patterns are written
  for: the timestamp text of any matching line, and the two events of a
  "X, and N others left" line.
 */
module LineShapes {
  import opened Text
  import opened Patterns
  import opened Extract

  /** A stamp holds no '-' in its literals and ends in a digit run. */
  predicate StampShape(stamp: seq<Tok>) {
    LitsAvoid(stamp, '-') && EndsWithDigits(stamp)
  }

  lemma StampsHaveShape()
    ensures StampShape(EnglishStamp) && StampShape(HebrewStamp)
  {
  }

  /** " - " cannot start inside a date-time stamp, whatever follows it. */
  lemma NoSepInStamp(d: string, r1: string, stamp: seq<Tok>)
    requires StampShape(stamp)
    requires InLang(d, stamp)
    ensures forall i: nat :: i < |d| ==> !OccursAt(d + r1, Sep, i)
  {
    InLangAvoids(d, stamp, '-');
    InLangEndsWithDigit(d, stamp);
    var line := d + r1;
    forall i: nat | i < |d|
      ensures !OccursAt(line, Sep, i)
    {
      if i + |Sep| <= |line| {
        if i + 1 < |d| {
          assert line[i..i + |Sep|][1] == d[i + 1];
        } else {
          assert line[i..i + |Sep|][0] == d[|d| - 1];
        }
      }
    }
  }

  /** A stamp-then-separator head splits the line into the stamp and a rest starting with " - ". */
  lemma StampThenSep(line: string, stamp: seq<Tok>, rest: seq<Tok>) returns (d: string, r1: string)
    requires MatchToks(line, stamp + ([Lit(Sep)] + rest)).Some?
    ensures line == d + r1 && InLang(d, stamp) && IsPrefix(Sep, r1)
  {
    MatchToksAppend(line, stamp, [Lit(Sep)] + rest);
    r1 := MatchToks(line, stamp).value;
    MatchToksSound(line, stamp);
    d := line[..|line| - |r1|];
    assert ([Lit(Sep)] + rest)[0] == Lit(Sep);
  }

  /**
    When a date-time stamp followed by " - " matches at the front of a
    line, the text before the first " - " is exactly the stamp: the stamp
    holds no '-' and ends in a digit, so " - " cannot start inside it.
   */
  lemma StampBeforeSep(line: string, stamp: seq<Tok>, rest: seq<Tok>) returns (d: string)
    requires StampShape(stamp)
    requires MatchToks(line, stamp + ([Lit(Sep)] + rest)).Some?
    ensures InLang(d, stamp) && IsPrefix(d + Sep, line) && OccursAt(line, Sep, |d|)
    ensures StampText(line) == d
  {
    var r1;
    d, r1 := StampThenSep(line, stamp, rest);
    var after := r1[|Sep|..];
    assert r1 == Sep + after;
    SepAfterStamp(line, d, after, stamp);
  }

  lemma SepAfterStamp(line: string, d: string, after: string, stamp: seq<Tok>)
    requires StampShape(stamp) && InLang(d, stamp)
    requires line == d + (Sep + after)
    ensures IsPrefix(d + Sep, line) && OccursAt(line, Sep, |d|)
    ensures StampText(line) == d
  {
    assert line == d + Sep + after;
    StampOfLine(d, after, stamp);
    PrefixOfThree(d, Sep, after);
  }

  lemma PrefixOfThree(a: string, b: string, c: string)
    ensures IsPrefix(a + b, a + b + c) && OccursAt(a + b + c, b, |a|)
  {
    assert (a + b + c)[..|a + b|] == a + b;
    assert (a + b + c)[|a|..|a| + |b|] == b;
  }

  /** Every head of the five patterns is a date-time stamp, " - ", and possibly more literals. */
  lemma HeadShape(p: Pattern) returns (stamp: seq<Tok>, rest: seq<Tok>)
    requires p in JoinPatterns + LeavePatterns
    ensures stamp == EnglishStamp || stamp == HebrewStamp
    ensures StampShape(stamp)
    ensures p.head == stamp + ([Lit(Sep)] + rest)
  {
    StampsHaveShape();
    if p == HebrewJoin {
      stamp, rest := HebrewStamp, [Lit(HebrewJoinLead)];
    } else if p == HebrewLeave {
      stamp, rest := HebrewStamp, [];
    } else {
      stamp, rest := EnglishStamp, [];
    }
  }

  /**
    For every one of the five patterns, a line that `re.search` matches
    contains " - ", so `line.split(' - ')[:2]` unpacks into two parts. The
    search matches at offset `j`, the leftmost offset where the pattern
    matches, and a date-time stamp `d` and " - " start there;
    the timestamp text is a prefix of the line up to the end of that
    stamp, and it is the stamp itself when the pattern matches at the
    start of the line.
   */
  lemma SearchStamp(p: Pattern, line: string) returns (j: nat, d: string)
    requires p in JoinPatterns + LeavePatterns
    requires Search(p, line).Some?
    ensures Contains(line, Sep)
    ensures j + |d| <= |line| && line[j..j + |d|] == d && OccursAt(line, Sep, j + |d|)
    ensures InLang(d, EnglishStamp) || InLang(d, HebrewStamp)
    ensures Search(p, line) == Match(p, line[j..])
    ensures forall k: nat :: k < j ==> Match(p, line[k..]).None?
    ensures IsPrefix(StampText(line), line[..j + |d|])
    ensures Match(p, line).Some? ==> j == 0 && StampText(line) == d
  {
    var stamp, rest := HeadShape(p);
    j, d := StampOfSearch(p, line, stamp, rest);
  }

  /** `SearchStamp` for any pattern whose head is a stamp, " - " and more literals. */
  lemma StampOfSearch(p: Pattern, line: string, stamp: seq<Tok>, rest: seq<Tok>) returns (j: nat, d: string)
    requires StampShape(stamp) && (stamp == EnglishStamp || stamp == HebrewStamp)
    requires p.head == stamp + ([Lit(Sep)] + rest)
    requires Search(p, line).Some?
    ensures Contains(line, Sep)
    ensures j + |d| <= |line| && line[j..j + |d|] == d && OccursAt(line, Sep, j + |d|)
    ensures InLang(d, stamp)
    ensures Search(p, line) == Match(p, line[j..])
    ensures forall k: nat :: k < j ==> Match(p, line[k..]).None?
    ensures IsPrefix(StampText(line), line[..j + |d|])
    ensures Match(p, line).Some? ==> j == 0 && StampText(line) == d
  {
    j := SearchOffset(p, line);
    d := StampAtOffset(p, line, j, stamp, rest);
  }

  /** Where a pattern matches at offset `j`, a stamp and " - " start there. */
  lemma StampAtOffset(p: Pattern, line: string, j: nat, stamp: seq<Tok>, rest: seq<Tok>) returns (d: string)
    requires StampShape(stamp)
    requires p.head == stamp + ([Lit(Sep)] + rest)
    requires j <= |line| && Match(p, line[j..]).Some?
    ensures j + |d| <= |line| && line[j..j + |d|] == d && OccursAt(line, Sep, j + |d|)
    ensures InLang(d, stamp)
    ensures StampText(line[j..]) == d
    ensures IsPrefix(StampText(line), line[..j + |d|])
  {
    d := StampBeforeSep(line[j..], stamp, rest);
    ShiftToLine(line, j, d);
  }

  /** A stamp and " - " at the front of `line[j..]` sit at offset `j` of `line`. */
  lemma ShiftToLine(line: string, j: nat, d: string)
    requires j <= |line| && IsPrefix(d + Sep, line[j..])
    ensures j + |d| + |Sep| <= |line| && line[j..j + |d|] == d && OccursAt(line, Sep, j + |d|)
    ensures IsPrefix(StampText(line), line[..j + |d|])
  {
    var t := line[j..];
    assert t[..|d|] == (d + Sep)[..|d|] == d;
    assert t[|d|..|d| + |Sep|] == (d + Sep)[|d|..] == Sep;
    assert line[j..j + |d|] == t[..|d|];
    assert line[j + |d|..j + |d| + |Sep|] == t[|d|..|d| + |Sep|];
    BeforeFirstBound(line, Sep, j + |d|);
  }

  // ---------------------------------------------------------------------
  // The "X, and N others left" line
  // ---------------------------------------------------------------------

  /** A stamp word followed by " - " is consumed by the head, leaving the message body. */
  lemma StampHeadMatches(d: string, body: string, stamp: seq<Tok>)
    requires stamp == EnglishStamp || stamp == HebrewStamp
    requires InLang(d, stamp)
    ensures MatchToks(d + Sep + body, stamp + [Lit(Sep)]) == Some(body)
  {
    LitWord(Sep);
    InLangAppend(d, stamp, Sep, [Lit(Sep)]);
    StampHeadWellFormed(stamp, [Lit(Sep)]);
    MatchToksComplete(d + Sep, body, stamp + [Lit(Sep)]);
  }

  /** The text ", and N others left" after the name, for a digit string N. */
  function MultiText(n: string): string {
    ", and " + n + " others left"
  }

  /** `a`, a digit run, `b` is a word of `[Lit(a), Digits, Lit(b)]`. */
  lemma DigitsBetween(a: string, n: string, b: string)
    requires |n| > 0 && AllDigits(n)
    ensures InLang(a + n + b, [Lit(a), Digits, Lit(b)])
  {
    DigitsWord(n, b);
    var w, toks := a + (n + b), [Lit(a)] + [Digits, Lit(b)];
    InLangCons(a, n + b, Lit(a), [Digits, Lit(b)]);
    assert w == a + n + b && toks == [Lit(a), Digits, Lit(b)];
  }

  lemma DigitsWord(n: string, b: string)
    requires |n| > 0 && AllDigits(n)
    ensures InLang(n + b, [Digits, Lit(b)])
  {
    LitWord(b);
    InLangCons(n, b, Digits, [Lit(b)]);
    assert [Digits] + [Lit(b)] == [Digits, Lit(b)];
  }

  lemma LitWord(b: string)
    ensures InLang(b, [Lit(b)])
  {
    assert b[|b|..] == [];
  }

  lemma MultiTailWord(n: string)
    requires |n| > 0 && AllDigits(n)
    ensures InLang(MultiText(n), EnglishMultiLeave.tail)
  {
    DigitsBetween(", and ", n, " others left");
  }

  /** In `MultiText(n)` the letter 'l' occurs only in the final "left". */
  lemma OnlyFinalLeft(n: string)
    requires AllDigits(n)
    ensures forall k: nat :: k + 5 < |MultiText(n)| ==> !OccursAt(MultiText(n), " left", k)
    ensures OccursAt(MultiText(n), " left", |MultiText(n)| - 5)
  {
    var t := MultiText(n);
    var last := " others left";
    assert t == ", and " + n + last;
    forall m | 1 <= m < |t| - 4
      ensures t[m] != 'l'
    {
      if m < 6 {
        assert t[m] == ", and "[m];
      } else if m < 6 + |n| {
        assert t[m] == n[m - 6];
      } else {
        assert t[m] == last[m - 6 - |n|];
      }
    }
    forall k: nat | k + 5 < |t|
      ensures !OccursAt(t, " left", k)
    {
      assert t[k..k + 5][1] == t[k + 1];
    }
    assert t[|t| - 5..] == " left";
  }

  /** Occurrences in `t` are occurrences in `a + t`, shifted by `|a|`. */
  lemma OccursShift(a: string, t: string, pat: string, k: nat)
    ensures OccursAt(a + t, pat, |a| + k) <==> OccursAt(t, pat, k)
  {
    if k + |pat| <= |t| {
      assert (a + t)[|a| + k..|a| + k + |pat|] == t[k..k + |pat|];
    }
  }

  /** In "X, and N others left" the only " left" is the final one, when X holds none. */
  lemma OnlyLeftOfMulti(x: string, n: string)
    requires |x| > 0 && !Contains(x, " left")
    requires AllDigits(n)
    ensures forall j: nat :: j + 5 < |x + MultiText(n)| ==> !OccursAt(x + MultiText(n), " left", j)
    ensures OccursAt(x + MultiText(n), " left", |x + MultiText(n)| - 5)
  {
    var t := MultiText(n);
    OnlyFinalLeft(n);
    NoOccurrenceAcross(x, t, " left");
    forall j: nat | |x| < j && j + 5 < |x + t|
      ensures !OccursAt(x + t, " left", j)
    {
      OccursShift(x, t, " left", j - |x|);
    }
    OccursShift(x, t, " left", |t| - 5);
  }

  lemma DigitsHaveNoNewline(n: string)
    requires AllDigits(n)
    ensures '\n' !in n
  {
    forall k | 0 <= k < |n| ensures n[k] != '\n' { assert IsDigit(n[k]); }
  }

  /**
    `re` lazy `(.+?) left` on "X, and N others left" followed by `e`
    stops at that "left", whatever `e` is.
   */
  lemma LeaveGroupOfMulti(x: string, n: string, e: string)
    requires |x| > 0 && '\n' !in x && !Contains(x, " left")
    requires |n| > 0 && AllDigits(n)
    ensures LazyGroup(x + MultiText(n) + e, 1, EnglishLeave.tail) == Some(x + ", and " + n + " others")
  {
    var a := x + MultiText(n);
    var body := a + e;
    var u := x + ", and " + n + " others";
    var tail := [Lit(" left")];
    assert a == u + " left";
    assert body[..|u|] == u;
    OnlyLeftOfMulti(x, n);
    forall j: nat | 1 <= j < |u|
      ensures !TailAt(body, j, tail)
    {
      TailLitAt(body, j, " left");
      OccursBeforeEnd(a, e, " left", j);
    }
    TailLitAt(body, |u|, " left");
    OccursBeforeEnd(a, e, " left", |u|);
    DigitsHaveNoNewline(n);
    assert IsLazyGroup(body, 1, tail, u);
    LazyGroupFound(body, 1, tail, u);
  }

  /** An occurrence that ends inside `a` is one in `a + e`, and conversely. */
  lemma OccursBeforeEnd(a: string, e: string, pat: string, j: nat)
    requires j + |pat| <= |a|
    ensures OccursAt(a + e, pat, j) <==> OccursAt(a, pat, j)
  {
    assert (a + e)[j..j + |pat|] == a[j..j + |pat|];
  }

  /** The tail `, and \d+ others left` matches right after X ... */
  lemma MultiTailAfter(x: string, n: string, e: string)
    requires |n| > 0 && AllDigits(n)
    ensures TailAt(x + MultiText(n) + e, |x|, EnglishMultiLeave.tail)
  {
    var t := MultiText(n);
    assert (x + t + e)[|x|..] == t + e;
    MultiTailWord(n);
    TablesWellFormed();
    assert (JoinPatterns + LeavePatterns)[4] == EnglishMultiLeave;
    MatchToksComplete(t, e, EnglishMultiLeave.tail);
  }

  /**
    ... and nowhere inside an X that holds no " left": a tail starting in
    X would need its own " left" either inside "X, and N others" or at or
    past the final one, and in the second case its digit run would have to
    cover the space of ", and ".
   */
  lemma MultiTailNotInside(x: string, n: string, e: string)
    requires |x| > 0 && !Contains(x, " left")
    requires AllDigits(n)
    ensures forall j: nat :: j < |x| ==> !TailAt(x + MultiText(n) + e, j, EnglishMultiLeave.tail)
  {
    forall j: nat | j < |x|
      ensures !TailAt(x + MultiText(n) + e, j, EnglishMultiLeave.tail)
    {
      MultiTailNotAt(x, n, e, j);
    }
  }

  lemma MultiTailNotAt(x: string, n: string, e: string, j: nat)
    requires |x| > 0 && !Contains(x, " left")
    requires AllDigits(n)
    requires j < |x|
    ensures !TailAt(x + MultiText(n) + e, j, EnglishMultiLeave.tail)
  {
    var a := x + MultiText(n);
    var body := a + e;
    if TailAt(body, j, EnglishMultiLeave.tail) {
      var k := MultiTailPartsAt(body, j);
      var p := j + 13 + k;
      if p + 5 < |a| {
        OccursBeforeEnd(a, e, " left", p);
        OnlyLeftOfMulti(x, n);
      } else {
        SpaceOfMulti(x, n, e);
        DigitInRun(body, j + 6, k, |x| + 5);
      }
    }
  }

  /** The space of ", and " in "X, and N others left" followed by `e`. */
  lemma SpaceOfMulti(x: string, n: string, e: string)
    ensures |x| + 5 < |x + MultiText(n) + e| && (x + MultiText(n) + e)[|x| + 5] == ' '
  {
    assert (x + MultiText(n) + e)[|x| + 5] == MultiText(n)[5];
  }

  /** `MultiTailParts` for a tail matched at offset `j` of `body`. */
  lemma MultiTailPartsAt(body: string, j: nat) returns (k: nat)
    requires TailAt(body, j, EnglishMultiLeave.tail)
    ensures 1 <= k && j + 18 + k <= |body|
    ensures AllDigits(body[j + 6..j + 6 + k])
    ensures OccursAt(body, " left", j + 13 + k)
  {
    var s := body[j..];
    k := MultiTailParts(s);
    assert s[6..6 + k] == body[j + 6..j + 6 + k];
    assert s[13 + k..18 + k] == body[j + 13 + k..j + 18 + k];
  }

  lemma DigitInRun(s: string, i: nat, k: nat, q: nat)
    requires i + k <= |s| && AllDigits(s[i..i + k])
    requires i <= q < i + k
    ensures IsDigit(s[q])
  {
    assert s[i..i + k][q - i] == s[q];
  }

  /** Text the tail `, and \d+ others left` matches at its front: ", and ", `k` digits, " others left". */
  lemma MultiTailParts(s: string) returns (k: nat)
    requires MatchToks(s, EnglishMultiLeave.tail).Some?
    ensures 1 <= k && 18 + k <= |s|
    ensures AllDigits(s[6..6 + k])
    ensures OccursAt(s, " left", 13 + k)
  {
    var toks := EnglishMultiLeave.tail;
    assert toks == [Lit(", and "), Digits, Lit(" others left")];
    assert IsPrefix(", and ", s);
    var s1 := s[6..];
    assert MatchToks(s1, toks[1..]).Some?;
    k := LeadingDigits(s1);
    var s2 := s1[k..];
    assert toks[1..][1..] == [Lit(" others left")];
    assert MatchToks(s2, [Lit(" others left")]).Some?;
    assert IsPrefix(" others left", s2);
    assert s[6..6 + k] == s1[..k];
    assert s[13 + k..18 + k] == s2[7..12];
  }

  /** `re` lazy `(.+?), and \d+ others left` on "X, and N others left" captures X. */
  lemma MultiGroupOfMulti(x: string, n: string, e: string)
    requires |x| > 0 && '\n' !in x && !Contains(x, " left")
    requires |n| > 0 && AllDigits(n)
    ensures LazyGroup(x + MultiText(n) + e, 1, EnglishMultiLeave.tail) == Some(x)
  {
    var body := x + MultiText(n) + e;
    assert body[..|x|] == x;
    MultiTailAfter(x, n, e);
    MultiTailNotInside(x, n, e);
    assert IsLazyGroup(body, 1, EnglishMultiLeave.tail, x);
    LazyGroupFound(body, 1, EnglishMultiLeave.tail, x);
  }

  /** The stamp of a line that starts with an English or Hebrew stamp and " - ". */
  lemma StampOfLine(d: string, rest: string, stamp: seq<Tok>)
    requires StampShape(stamp)
    requires InLang(d, stamp)
    ensures StampText(d + Sep + rest) == d
  {
    NoSepInStamp(d, Sep + rest, stamp);
    assert (d + (Sep + rest))[|d|..|d| + |Sep|] == Sep;
    BeforeFirstAt(d, Sep + rest, Sep);
    assert d + (Sep + rest) == d + Sep + rest;
  }

  /** The plain leave pattern captures "X, and N others" on "D - X, and N others left". */
  lemma LeaveOnMulti(d: string, x: string, n: string, e: string)
    requires InLang(d, EnglishStamp)
    requires |x| > 0 && '\n' !in x && !Contains(x, " left")
    requires |n| > 0 && AllDigits(n)
    ensures Match(EnglishLeave, d + Sep + (x + MultiText(n) + e)) == Some(x + ", and " + n + " others")
  {
    StampHeadMatches(d, x + MultiText(n) + e, EnglishStamp);
    LeaveGroupOfMulti(x, n, e);
  }

  /** The multiple-leave pattern captures "X" on "D - X, and N others left". */
  lemma MultiOnMulti(d: string, x: string, n: string, e: string)
    requires InLang(d, EnglishStamp)
    requires |x| > 0 && '\n' !in x && !Contains(x, " left")
    requires |n| > 0 && AllDigits(n)
    ensures Match(EnglishMultiLeave, d + Sep + (x + MultiText(n) + e)) == Some(x)
  {
    StampHeadMatches(d, x + MultiText(n) + e, EnglishStamp);
    MultiGroupOfMulti(x, n, e);
  }

  /**
    A line "D - X, and N others left" (English stamp D, N a digit run,
    X a single-line name with no " left"), followed by an ending `e` such
    as the "\n" a file line keeps, yields two leave events with timestamp
    D: one for "X, and N others" from the plain leave pattern and one for
    "X" from the multiple-leave pattern. The one further condition is that
    the Hebrew leave pattern does not find the line too, which would add a
    third event; `MultiLineCommasSafe` and `MultiLineDotsSafe` give it for
    comma-free and for dot-free X and `e`.
   */
  lemma MultiLeaveLine(d: string, x: string, n: string, e: string)
    requires InLang(d, EnglishStamp)
    requires |x| > 0 && '\n' !in x && !Contains(x, " left")
    requires |n| > 0 && AllDigits(n)
    requires Search(HebrewLeave, d + Sep + x + MultiText(n) + e).None?
    ensures LineEvents(d + Sep + x + MultiText(n) + e, LeavePatterns) ==
      [RawEvent(d, x + ", and " + n + " others"), RawEvent(d, x)]
  {
    var line := d + Sep + (x + MultiText(n) + e);
    var u := x + ", and " + n + " others";
    Regroup(d, Sep, x, MultiText(n), e);
    MultiLeaveHits(d, x, n, e);
    StampsHaveShape();
    StampOfLine(d, x + MultiText(n) + e, EnglishStamp);
    CollectHitNoneHit(d, u, x);
    assert LineEvents(line, LeavePatterns) == [RawEvent(d, u), RawEvent(d, x)];
    Regroup(d, Sep, x, MultiText(n), e);
  }

  lemma MultiLeaveHits(d: string, x: string, n: string, e: string)
    requires InLang(d, EnglishStamp)
    requires |x| > 0 && '\n' !in x && !Contains(x, " left")
    requires |n| > 0 && AllDigits(n)
    requires Search(HebrewLeave, d + Sep + (x + MultiText(n) + e)).None?
    ensures Matches(d + Sep + (x + MultiText(n) + e), LeavePatterns) ==
      [Some(x + ", and " + n + " others"), None, Some(x)]
  {
    var line := d + Sep + (x + MultiText(n) + e);
    LeaveOnMulti(d, x, n, e);
    MultiOnMulti(d, x, n, e);
    LeaveHits(line, x + ", and " + n + " others", x);
  }

  lemma Regroup(a: string, b: string, c: string, m: string, e: string)
    ensures a + b + (c + m + e) == a + b + c + m + e
  {
  }

  /** The three leave patterns' outcomes on a line the plain and multiple patterns match at its start. */
  lemma LeaveHits(line: string, a: string, b: string)
    requires Match(EnglishLeave, line) == Some(a)
    requires Search(HebrewLeave, line).None?
    requires Match(EnglishMultiLeave, line) == Some(b)
    ensures Matches(line, LeavePatterns) == [Some(a), None, Some(b)]
  {
    assert LeavePatterns == [EnglishLeave, HebrewLeave, EnglishMultiLeave];
    MatchesOfThree(line, LeavePatterns);
  }

  lemma MatchesOfThree(line: string, pats: seq<Pattern>)
    requires |pats| == 3
    ensures Matches(line, pats) == [Search(pats[0], line), Search(pats[1], line), Search(pats[2], line)]
  {
    SeqOfThree(Matches(line, pats));
  }

  lemma SeqOfThree<T>(r: seq<T>)
    requires |r| == 3
    ensures r == [r[0], r[1], r[2]]
  {
  }

  lemma CollectHitNoneHit(stamp: string, a: string, b: string)
    ensures Collect(stamp, [Some(a), None, Some(b)]) == [RawEvent(stamp, a), RawEvent(stamp, b)]
  {
    var hits := [Some(a), None, Some(b)];
    assert hits[1..] == [None, Some(b)];
    assert hits[1..][1..] == [Some(b)];
    assert hits[1..][1..][1..] == [];
    assert Collect(stamp, hits[1..][1..]) == [RawEvent(stamp, b)];
    assert Collect(stamp, hits[1..]) == [RawEvent(stamp, b)];
  }

  // ---------------------------------------------------------------------
  // Where a Hebrew stamp can occur
  // ---------------------------------------------------------------------

  /**
    `w` has a '.' somewhere before a comma whose next-but-one character is
    a digit, as every text holding a Hebrew stamp "D.M.Y, H:M" does.
   */
  ghost predicate DotThenCommaDigit(w: string) {
    exists q: nat, c: nat :: q < c && c + 2 < |w| && w[q] == '.' && w[c] == ',' && IsDigit(w[c + 2])
  }

  /** The Hebrew leave pattern matches only text that holds a Hebrew stamp. */
  lemma HebrewLeaveNeedsDot(w: string)
    ensures Match(HebrewLeave, w).Some? ==> DotThenCommaDigit(w)
  {
    if Match(HebrewLeave, w).Some? {
      HebrewStampNeedsDot(w, [Lit(Sep)]);
    }
  }

  lemma HebrewStampNeedsDot(w: string, rest: seq<Tok>)
    requires MatchToks(w, HebrewStamp + rest).Some?
    ensures DotThenCommaDigit(w)
  {
    HebrewStampSplits(rest);
    MatchToksAppend(w, HebrewDate, TimeToks + rest);
    MatchToksSound(w, HebrewDate);
    var m := MatchToks(w, HebrewDate).value;
    var h := w[..|w| - |m|];
    var q := DotInFront(h);
    CommaThenDigit(m, TimeToks + rest);
    DotCommaOfParts(w, h, m, q);
  }

  /** `\d+\.\d+\.\d+`, the date of a Hebrew stamp. */
  const HebrewDate: seq<Tok> := [Digits, Lit("."), Digits, Lit("."), Digits]

  /** `, \d+:\d+`, the time of either stamp. */
  const TimeToks: seq<Tok> := [Lit(", "), Digits, Lit(":"), Digits]

  lemma HebrewStampSplits(rest: seq<Tok>)
    ensures HebrewStamp + rest == HebrewDate + (TimeToks + rest)
    ensures (TimeToks + rest)[0] == Lit(", ") && (TimeToks + rest)[1] == Digits
  {
    assert HebrewStamp == HebrewDate + TimeToks;
  }

  lemma DotCommaOfParts(w: string, h: string, m: string, q: nat)
    requires w == h + m && q < |h| && h[q] == '.'
    requires |m| > 2 && m[0] == ',' && IsDigit(m[2])
    ensures DotThenCommaDigit(w)
  {
    assert w[q] == '.' && w[|h|] == ',' && IsDigit(w[|h| + 2]);
  }

  /** An English stamp "D/M/Y, H:M" holds no '.'. */
  lemma EnglishStampHasNoDot(d: string)
    requires InLang(d, EnglishStamp)
    ensures '.' !in d
  {
    EnglishLitsAvoidDot();
    InLangAvoids(d, EnglishStamp, '.');
  }

  lemma EnglishLitsAvoidDot()
    ensures LitsAvoid(EnglishStamp, '.')
  {
  }

  /** A word of "\d+\.\d+\.\d+" holds a '.'. */
  lemma DotInFront(h: string) returns (q: nat)
    requires InLang(h, HebrewDate)
    ensures q < |h| && h[q] == '.'
  {
    var toks := HebrewDate;
    q := InLangHead(h, toks);
    assert toks[1..][0] == Lit(".");
    var n := InLangHead(h[q..], toks[1..]);
    assert h[q..][..n] == ".";
    assert h[q..][..n][0] == h[q];
  }

  /** Text that ", " and a digit run match at its front starts with a comma and, two on, a digit. */
  lemma CommaThenDigit(m: string, back: seq<Tok>)
    requires |back| >= 2 && back[0] == Lit(", ") && back[1] == Digits
    requires MatchToks(m, back).Some?
    ensures |m| > 2 && m[0] == ',' && IsDigit(m[2])
  {
    assert IsPrefix(", ", m);
    var after := m[2..];
    assert back[1..][0] == Digits;
    assert MatchToks(after, back[1..]).Some?;
    var n := LeadingDigits(after);
    assert n > 0;
    assert after[..n][0] == m[2];
  }

  /** No '.' occurs before index `c` of `l`. */
  ghost predicate NoDotBefore(l: string, c: nat) {
    forall q: nat :: q < c && q < |l| ==> l[q] != '.'
  }

  /** Every comma of `l` has no '.' before it, or no digit two characters on. */
  ghost predicate CommasSafe(l: string) {
    forall c: nat :: c + 2 < |l| && l[c] == ',' ==> !IsDigit(l[c + 2]) || NoDotBefore(l, c)
  }

  /** A line whose commas are all safe holds no Hebrew stamp at any offset. */
  lemma NoDotCommaDigitAnywhere(l: string)
    requires CommasSafe(l)
    ensures forall j: nat :: j <= |l| ==> !DotThenCommaDigit(l[j..])
  {
    forall j: nat, q: nat, c: nat |
      j <= |l| && q < c && c + 2 < |l| - j && l[j..][q] == '.' && l[j..][c] == ','
      ensures !IsDigit(l[j..][c + 2])
    {
      assert l[j + q] == '.' && l[j + c] == ',';
      assert l[j..][c + 2] == l[j + c + 2];
    }
  }

  /** `re.search` with the Hebrew leave pattern finds nothing on a line whose commas are all safe. */
  lemma HebrewLeaveNowhere(l: string)
    requires CommasSafe(l)
    ensures Search(HebrewLeave, l).None?
  {
    NoDotCommaDigitAnywhere(l);
    forall j: nat | j <= |l|
      ensures Match(HebrewLeave, l[j..]).None?
    {
      HebrewLeaveNeedsDot(l[j..]);
    }
  }

  /**
    On "D - X, and N others left" followed by a comma-free `e` the only
    commas are the one in the English stamp D, which holds no '.', and
    the one of ", and"; so the Hebrew leave pattern finds nothing there.
   */
  lemma MultiLineCommasSafe(d: string, x: string, n: string, e: string)
    requires InLang(d, EnglishStamp)
    requires ',' !in x && ',' !in e
    requires AllDigits(n)
    ensures CommasSafe(d + Sep + x + MultiText(n) + e)
    ensures Search(HebrewLeave, d + Sep + x + MultiText(n) + e).None?
  {
    var l := d + Sep + x + MultiText(n) + e;
    EnglishStampHasNoDot(d);
    NoCommaPastStamp(d, x, n, e);
    NoDotInStamp(d, Sep + x + MultiText(n) + e, |d|);
    OneCommaPast(l, |d|, |d| + |Sep| + |x|);
    HebrewLeaveNowhere(l);
  }

  /**
    "D - X, and N others left" followed by `e`, with X and `e` holding no
    '.', holds no '.' at all, so it holds no Hebrew stamp and the Hebrew
    leave pattern finds nothing there, whatever commas X holds.
   */
  lemma MultiLineDotsSafe(d: string, x: string, n: string, e: string)
    requires InLang(d, EnglishStamp)
    requires '.' !in x && '.' !in e
    requires AllDigits(n)
    ensures CommasSafe(d + Sep + x + MultiText(n) + e)
    ensures Search(HebrewLeave, d + Sep + x + MultiText(n) + e).None?
  {
    var l := d + Sep + x + MultiText(n) + e;
    EnglishStampHasNoDot(d);
    MultiTextHasNoDot(n);
    assert '.' !in l;
    DotFreeIsSafe(l);
    HebrewLeaveNowhere(l);
  }

  lemma MultiTextHasNoDot(n: string)
    requires AllDigits(n)
    ensures '.' !in MultiText(n)
  {
    forall k | 0 <= k < |n| ensures n[k] != '.' { assert IsDigit(n[k]); }
    assert MultiText(n) == ", and " + n + " others left";
  }

  /** Text without a '.' has only safe commas. */
  lemma DotFreeIsSafe(l: string)
    requires '.' !in l
    ensures CommasSafe(l)
  {
    forall c: nat | c + 2 < |l| && l[c] == ','
      ensures NoDotBefore(l, c)
    {
    }
  }

  /**
    A string is safe when no '.' occurs before index `k` and past `k` its
    only comma, at `c1`, has no digit two characters on.
   */
  lemma OneCommaPast(l: string, k: nat, c1: nat)
    requires NoDotBefore(l, k)
    requires forall c :: k <= c < |l| && c != c1 ==> l[c] != ','
    requires c1 + 2 < |l| && l[c1 + 2] == 'a'
    ensures CommasSafe(l)
  {
    forall c: nat | c + 2 < |l| && l[c] == ','
      ensures !IsDigit(l[c + 2]) || NoDotBefore(l, c)
    {
    }
  }

  lemma NoDotInStamp(d: string, rest: string, c: nat)
    requires '.' !in d && c <= |d|
    ensures NoDotBefore(d + rest, c)
  {
    forall q: nat | q < c
      ensures (d + rest)[q] != '.'
    {
      assert (d + rest)[q] == d[q];
    }
  }

  /** Past the stamp, the only comma of "D - X, and N others left" opens ", and". */
  lemma NoCommaPastStamp(d: string, x: string, n: string, e: string)
    requires ',' !in x && ',' !in e
    requires AllDigits(n)
    ensures forall c :: |d| <= c < |d + Sep + x + MultiText(n) + e| && c != |d| + |Sep| + |x| ==>
      (d + Sep + x + MultiText(n) + e)[c] != ','
    ensures (d + Sep + x + MultiText(n) + e)[|d| + |Sep| + |x| + 2] == 'a'
    ensures d + Sep + x + MultiText(n) + e == d + (Sep + x + MultiText(n) + e)
  {
    var l := d + Sep + x + MultiText(n) + e;
    var c1 := |d| + |Sep| + |x|;
    var m := MultiText(n) + e;
    assert ',' !in m[1..] by {
      assert m[1..] == " and " + n + " others left" + e;
      assert ',' !in n;
    }
    forall c | |d| <= c < |l| && c != c1
      ensures l[c] != ','
    {
      if c < |d| + |Sep| {
        assert l[c] == Sep[c - |d|];
      } else if c < c1 {
        assert l[c] == x[c - |d| - |Sep|];
      } else {
        assert l[c] == m[1..][c - c1 - 1];
      }
    }
    assert l[c1 + 2] == m[2];
  }
}
