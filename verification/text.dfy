/**
  Small string toolkit shared by the pattern matcher and the extractor:
  an Option type, prefixes, ASCII digit runs, and the "text before the
  first separator" that Python's `str.split(sep)[0]` computes.
  Strings are `seq<char>`; no encoding or normalisation is modelled.
 */
module Text {

  datatype Option<+T> = None | Some(value: T)

  /** `\d` of a regular expression, restricted to ASCII digits. */
  predicate IsDigit(c: char) {
    '0' <= c <= '9'
  }

  predicate AllDigits(s: string) {
    forall k :: 0 <= k < |s| ==> IsDigit(s[k])
  }

  predicate IsPrefix(p: string, s: string) {
    |p| <= |s| && s[..|p|] == p
  }

  /** `pat` occurs in `s` starting at index `i`. */
  predicate OccursAt(s: string, pat: string, i: nat) {
    i + |pat| <= |s| && s[i..i + |pat|] == pat
  }

  ghost predicate Contains(s: string, pat: string) {
    exists i: nat :: OccursAt(s, pat, i)
  }

  /** Length of the run of digits at the start of `s` (what a greedy `\d+` consumes). */
  function LeadingDigits(s: string): (n: nat)
    ensures n <= |s|
    ensures AllDigits(s[..n])
    ensures n < |s| ==> !IsDigit(s[n])
  {
    if |s| > 0 && IsDigit(s[0]) then
      var m := LeadingDigits(s[1..]);
      assert s[..1 + m] == [s[0]] + s[1..][..m];
      1 + m
    else
      0
  }

  /** The digit run of `d + t` is exactly `d` when `t` does not start with a digit. */
  lemma {:induction false} LeadingDigitsOfRun(d: string, t: string)
    requires AllDigits(d)
    requires |t| == 0 || !IsDigit(t[0])
    ensures LeadingDigits(d + t) == |d|
  {
    if |d| > 0 {
      assert (d + t)[1..] == d[1..] + t;
      LeadingDigitsOfRun(d[1..], t);
    } else {
      assert d + t == t;
    }
  }

  /** The first index at or after `from` where `pat` occurs in `s`, if any. */
  function FindFrom(s: string, pat: string, from: nat): (r: Option<nat>)
    decreases |s| - from
    ensures r.Some? ==> from <= r.value && OccursAt(s, pat, r.value)
    ensures r.Some? ==> forall i: nat :: from <= i < r.value ==> !OccursAt(s, pat, i)
    ensures r.None? ==> forall i: nat :: from <= i ==> !OccursAt(s, pat, i)
  {
    if from + |pat| > |s| then None
    else if OccursAt(s, pat, from) then Some(from)
    else FindFrom(s, pat, from + 1)
  }

  /**
    Python's `s.split(sep)[0]`: the text before the first occurrence of
    `sep`, or all of `s` when `sep` does not occur. Python rejects an
    empty separator, hence the precondition.
   */
  function BeforeFirst(s: string, sep: string): (r: string)
    requires |sep| > 0
    ensures IsPrefix(r, s)
    ensures forall i: nat :: i < |r| ==> !OccursAt(s, sep, i)
    ensures |r| < |s| ==> OccursAt(s, sep, |r|)
    ensures |r| == |s| ==> forall i: nat :: !OccursAt(s, sep, i)
  {
    match FindFrom(s, sep, 0)
    case Some(i) => s[..i]
    case None => s
  }

  /** The text before the first `sep` ends no later than any occurrence of `sep`. */
  lemma BeforeFirstBound(s: string, sep: string, i: nat)
    requires |sep| > 0 && OccursAt(s, sep, i)
    ensures IsPrefix(BeforeFirst(s, sep), s[..i])
  {
    var r := BeforeFirst(s, sep);
    assert |r| <= i;
    assert s[..i][..|r|] == s[..|r|];
  }

  /**
    When `sep` occurs in `a + b` at `|a|` and cannot start inside `a`,
    the text before the first `sep` is exactly `a`.
   */
  lemma BeforeFirstAt(a: string, b: string, sep: string)
    requires |sep| > 0
    requires OccursAt(a + b, sep, |a|)
    requires forall i: nat :: i < |a| ==> !OccursAt(a + b, sep, i)
    ensures BeforeFirst(a + b, sep) == a
  {
    var r := BeforeFirst(a + b, sep);
    assert |r| == |a|;
    assert r == (a + b)[..|a|];
  }

  /**
    An occurrence of `pat` in `a + b` cannot start at or before `|a|` when
    `pat` does not occur inside `a` and the first character of `b` is not
    a character of `pat`.
   */
  lemma NoOccurrenceAcross(a: string, b: string, pat: string)
    requires |pat| > 0 && |b| > 0
    requires !Contains(a, pat)
    requires b[0] !in pat
    ensures forall i: nat :: i <= |a| ==> !OccursAt(a + b, pat, i)
  {
    forall i: nat | i <= |a|
      ensures !OccursAt(a + b, pat, i)
    {
      if i + |pat| <= |a| {
        assert (a + b)[i..i + |pat|] == a[i..i + |pat|];
        assert !OccursAt(a, pat, i);
      } else if i + |pat| <= |a + b| {
        assert (a + b)[i..i + |pat|][|a| - i] == b[0];
      }
    }
  }

  /** The concatenation of a sequence of blocks, in order. */
  function Concat<T>(xs: seq<seq<T>>): seq<T> {
    if xs == [] then [] else Concat(xs[..|xs| - 1]) + xs[|xs| - 1]
  }

  /** An element of the concatenation is an element of one of the blocks, and conversely. */
  lemma {:induction false} ConcatMembers<T(!new)>(xs: seq<seq<T>>)
    decreases |xs|
    ensures forall e :: e in Concat(xs) <==> exists i :: 0 <= i < |xs| && e in xs[i]
  {
    if xs != [] {
      var init := xs[..|xs| - 1];
      ConcatMembers(init);
      assert forall i :: 0 <= i < |init| ==> init[i] == xs[i];
    }
  }

  lemma {:induction false} ConcatAppend<T(!new)>(xs: seq<seq<T>>, ys: seq<seq<T>>)
    decreases |ys|
    ensures Concat(xs + ys) == Concat(xs) + Concat(ys)
  {
    if ys == [] {
      assert xs + ys == xs;
    } else {
      var ys' := ys[..|ys| - 1];
      assert (xs + ys)[..|xs + ys| - 1] == xs + ys';
      assert (xs + ys)[|xs + ys| - 1] == ys[|ys| - 1];
      ConcatAppend(xs, ys');
    }
  }

  /** One more block of a prefix appends its contents. */
  lemma ConcatPrefix<T>(xs: seq<seq<T>>, i: nat)
    requires i < |xs|
    ensures Concat(xs[..i + 1]) == Concat(xs[..i]) + xs[i]
  {
    assert xs[..i + 1][..i] == xs[..i];
  }

  lemma {:induction false} ConcatEmpty<T(!new)>(xs: seq<seq<T>>)
    decreases |xs|
    requires forall i :: 0 <= i < |xs| ==> xs[i] == []
    ensures Concat(xs) == []
  {
    if xs != [] {
      ConcatEmpty(xs[..|xs| - 1]);
    }
  }
}
