/**
  Event extraction of `process_chat`: every line is tried against the two
  join patterns and the three leave patterns, and every pattern that
  matches appends one (timestamp text, user) pair to `join_data` or
  `leave_data`. The timestamp text is the part of the line before the
  first " - ".
 */
module Extract {
  import opened Text
  import opened Patterns

  /** One entry of `join_data` or `leave_data`: the raw timestamp text and the captured user. */
  datatype RawEvent = RawEvent(stamp: string, user: string)

  /** `line.split(' - ')[0]` */
  function StampText(line: string): string {
    BeforeFirst(line, Sep)
  }

  /** The outcome of `re.search` for each pattern, in pattern order. */
  function Matches(line: string, pats: seq<Pattern>): (r: seq<Option<string>>)
    ensures |r| == |pats|
    ensures forall k :: 0 <= k < |pats| ==> r[k] == Search(pats[k], line)
  {
    seq(|pats|, k requires 0 <= k < |pats| => Search(pats[k], line))
  }

  /** One event per hit, in hit order, all stamped with `stamp`. */
  function Collect(stamp: string, hits: seq<Option<string>>): (r: seq<RawEvent>)
    decreases |hits|
    ensures |r| <= |hits|
    ensures r == [] <==> forall k :: 0 <= k < |hits| ==> hits[k].None?
    ensures forall e :: e in r ==> e.stamp == stamp && Some(e.user) in hits
    ensures forall k :: 0 <= k < |hits| && hits[k].Some? ==> RawEvent(stamp, hits[k].value) in r
  {
    if hits == [] then []
    else
      var rest := Collect(stamp, hits[1..]);
      assert forall k :: 1 <= k < |hits| ==> hits[k] == hits[1..][k - 1];
      match hits[0]
      case None => rest
      case Some(u) => [RawEvent(stamp, u)] + rest
  }

  /** How many of `hits` are matches. */
  function CountSome<T>(hits: seq<Option<T>>): nat {
    if hits == [] then 0 else (if hits[0].Some? then 1 else 0) + CountSome(hits[1..])
  }

  /**
    `Collect` keeps every match exactly once and in order: there are as
    many events as matches, and the match at position `k` yields the event
    right after those of the matches before it.
   */
  lemma CollectInOrder(stamp: string, hits: seq<Option<string>>)
    ensures |Collect(stamp, hits)| == CountSome(hits)
    ensures forall k :: 0 <= k < |hits| && hits[k].Some? ==>
      CountSome(hits[..k]) < |Collect(stamp, hits)| &&
      Collect(stamp, hits)[CountSome(hits[..k])] == RawEvent(stamp, hits[k].value)
  {
    CollectLength(stamp, hits);
    forall k | 0 <= k < |hits| && hits[k].Some?
      ensures CountSome(hits[..k]) < |Collect(stamp, hits)| &&
        Collect(stamp, hits)[CountSome(hits[..k])] == RawEvent(stamp, hits[k].value)
    {
      CollectAt(stamp, hits, k);
    }
  }

  lemma {:induction false} CollectLength(stamp: string, hits: seq<Option<string>>)
    decreases |hits|
    ensures |Collect(stamp, hits)| == CountSome(hits)
  {
    if hits != [] {
      CollectLength(stamp, hits[1..]);
    }
  }

  /** The match at position `k` yields the event after those of the earlier matches. */
  lemma {:induction false} CollectAt(stamp: string, hits: seq<Option<string>>, k: nat)
    requires k < |hits| && hits[k].Some?
    decreases k
    ensures CountSome(hits[..k]) < |Collect(stamp, hits)|
    ensures Collect(stamp, hits)[CountSome(hits[..k])] == RawEvent(stamp, hits[k].value)
  {
    if k == 0 {
      assert hits[..0] == [];
      CollectFirst(stamp, hits);
    } else {
      var tl := hits[1..];
      assert tl[k - 1] == hits[k];
      CollectAt(stamp, tl, k - 1);
      CountSomeCons(hits, k);
      CollectShift(stamp, hits, CountSome(tl[..k - 1]));
    }
  }

  lemma CollectFirst(stamp: string, hits: seq<Option<string>>)
    requires |hits| > 0 && hits[0].Some?
    ensures |Collect(stamp, hits)| > 0 && Collect(stamp, hits)[0] == RawEvent(stamp, hits[0].value)
  {
  }

  /** Past the first hit's event, `Collect` continues with the events of the other hits. */
  lemma CollectShift(stamp: string, hits: seq<Option<string>>, j: nat)
    requires |hits| > 0 && j < |Collect(stamp, hits[1..])|
    ensures var c0 := if hits[0].Some? then 1 else 0;
      c0 + j < |Collect(stamp, hits)| && Collect(stamp, hits)[c0 + j] == Collect(stamp, hits[1..])[j]
  {
    CollectCons(stamp, hits);
    IndexPast(HitEvents(stamp, hits[0]), Collect(stamp, hits[1..]), j);
  }

  /** The events one hit contributes. */
  function HitEvents(stamp: string, h: Option<string>): (r: seq<RawEvent>)
    ensures |r| == if h.Some? then 1 else 0
  {
    match h
    case Some(u) => [RawEvent(stamp, u)]
    case None => []
  }

  lemma CollectCons(stamp: string, hits: seq<Option<string>>)
    requires |hits| > 0
    ensures Collect(stamp, hits) == HitEvents(stamp, hits[0]) + Collect(stamp, hits[1..])
  {
    if hits[0].None? {
      assert [] + Collect(stamp, hits[1..]) == Collect(stamp, hits[1..]);
    }
  }

  lemma IndexPast<T>(h: seq<T>, rest: seq<T>, j: nat)
    requires j < |rest|
    ensures |h| + j < |h + rest| && (h + rest)[|h| + j] == rest[j]
  {
  }

  lemma CountSomeCons<T>(hits: seq<Option<T>>, k: nat)
    requires 0 < k <= |hits|
    ensures CountSome(hits[..k]) == (if hits[0].Some? then 1 else 0) + CountSome(hits[1..][..k - 1])
  {
    assert hits[..k][1..] == hits[1..][..k - 1];
  }

  /** `e` is what some pattern of `pats` records for `line`. */
  ghost predicate FromLine(e: RawEvent, line: string, pats: seq<Pattern>) {
    e.stamp == StampText(line) && exists k :: 0 <= k < |pats| && Search(pats[k], line) == Some(e.user)
  }

  /** The events one line contributes: one per matching pattern, in pattern order. */
  function LineEvents(line: string, pats: seq<Pattern>): seq<RawEvent> {
    Collect(StampText(line), Matches(line, pats))
  }

  /**
    A line yields no event exactly when no pattern matches it; otherwise
    every event it yields comes from a matching pattern and every matching
    pattern yields one, all stamped with the text before the first " - ".
    There is one event per matching pattern, in pattern order: pattern `k`
    yields the event after those of the matching patterns before it.
   */
  lemma LineEventsSpec(line: string, pats: seq<Pattern>)
    ensures |LineEvents(line, pats)| <= |pats|
    ensures LineEvents(line, pats) == [] <==> forall k :: 0 <= k < |pats| ==> Search(pats[k], line).None?
    ensures forall e :: e in LineEvents(line, pats) ==> FromLine(e, line, pats)
    ensures forall k :: 0 <= k < |pats| && Search(pats[k], line).Some? ==>
      RawEvent(StampText(line), Search(pats[k], line).value) in LineEvents(line, pats)
    ensures |LineEvents(line, pats)| == CountSome(Matches(line, pats))
    ensures forall k :: 0 <= k < |pats| && Search(pats[k], line).Some? ==>
      CountSome(Matches(line, pats[..k])) < |LineEvents(line, pats)| &&
      LineEvents(line, pats)[CountSome(Matches(line, pats[..k]))] ==
        RawEvent(StampText(line), Search(pats[k], line).value)
  {
    LineEventsEmpty(line, pats);
    LineEventsSound(line, pats);
    LineEventsComplete(line, pats);
    LineEventsInOrder(line, pats);
  }

  lemma LineEventsInOrder(line: string, pats: seq<Pattern>)
    ensures |LineEvents(line, pats)| == CountSome(Matches(line, pats))
    ensures forall k :: 0 <= k < |pats| && Search(pats[k], line).Some? ==>
      CountSome(Matches(line, pats[..k])) < |LineEvents(line, pats)| &&
      LineEvents(line, pats)[CountSome(Matches(line, pats[..k]))] ==
        RawEvent(StampText(line), Search(pats[k], line).value)
  {
    var hits := Matches(line, pats);
    CollectInOrder(StampText(line), hits);
    forall k | 0 <= k < |pats|
      ensures Matches(line, pats[..k]) == hits[..k]
    {
      MatchesPrefix(line, pats, k);
    }
  }

  lemma MatchesPrefix(line: string, pats: seq<Pattern>, k: nat)
    requires k <= |pats|
    ensures Matches(line, pats[..k]) == Matches(line, pats)[..k]
  {
  }

  lemma LineEventsEmpty(line: string, pats: seq<Pattern>)
    ensures LineEvents(line, pats) == [] <==> forall k :: 0 <= k < |pats| ==> Search(pats[k], line).None?
  {
    var hits := Matches(line, pats);
    assert forall k :: 0 <= k < |pats| ==> hits[k] == Search(pats[k], line);
  }

  lemma LineEventsSound(line: string, pats: seq<Pattern>)
    ensures forall e :: e in LineEvents(line, pats) ==> FromLine(e, line, pats)
  {
    var hits := Matches(line, pats);
    var r := Collect(StampText(line), hits);
    assert forall e :: e in r ==> exists k :: 0 <= k < |hits| && hits[k] == Some(e.user);
  }

  lemma LineEventsComplete(line: string, pats: seq<Pattern>)
    ensures forall k :: 0 <= k < |pats| && Search(pats[k], line).Some? ==>
      RawEvent(StampText(line), Search(pats[k], line).value) in LineEvents(line, pats)
  {
    var hits := Matches(line, pats);
    assert forall k :: 0 <= k < |pats| ==> hits[k] == Search(pats[k], line);
  }

  /** Appending one hit appends its event, if any, after the earlier ones. */
  lemma {:induction false} CollectAppend(stamp: string, hits: seq<Option<string>>, h: Option<string>)
    decreases |hits|
    ensures Collect(stamp, hits + [h]) == Collect(stamp, hits) +
      (match h case Some(u) => [RawEvent(stamp, u)] case None => [])
  {
    if hits == [] {
      assert [h][1..] == [];
    } else {
      assert (hits + [h])[0] == hits[0];
      assert (hits + [h])[1..] == hits[1..] + [h];
      CollectAppend(stamp, hits[1..], h);
    }
  }

  /**
    Trying one more pattern appends exactly one event when it matches and
    nothing when it does not, after the earlier patterns' events.
   */
  lemma PrefixEvents(line: string, pats: seq<Pattern>, p: Pattern)
    ensures LineEvents(line, pats + [p]) == LineEvents(line, pats) +
      (match Search(p, line) case Some(u) => [RawEvent(StampText(line), u)] case None => [])
  {
    assert Matches(line, pats + [p]) == Matches(line, pats) + [Search(p, line)];
    CollectAppend(StampText(line), Matches(line, pats), Search(p, line));
  }

  /** The events of each line, one block per line. */
  function PerLine(lines: seq<string>, pats: seq<Pattern>): (r: seq<seq<RawEvent>>)
    ensures |r| == |lines|
    ensures forall i :: 0 <= i < |lines| ==> r[i] == LineEvents(lines[i], pats)
  {
    seq(|lines|, i requires 0 <= i < |lines| => LineEvents(lines[i], pats))
  }

  /** The events of all lines, line by line, in line order. */
  function Scan(lines: seq<string>, pats: seq<Pattern>): seq<RawEvent> {
    Concat(PerLine(lines, pats))
  }

  /** The scan holds exactly the events of the individual lines. */
  lemma ScanMembers(lines: seq<string>, pats: seq<Pattern>)
    ensures forall e :: e in Scan(lines, pats) <==>
      exists i :: 0 <= i < |lines| && e in LineEvents(lines[i], pats)
  {
    ConcatMembers(PerLine(lines, pats));
  }

  /** Scanning two blocks of lines is scanning one and then the other. */
  lemma ScanAppend(a: seq<string>, b: seq<string>, pats: seq<Pattern>)
    ensures Scan(a + b, pats) == Scan(a, pats) + Scan(b, pats)
  {
    var pa, pb := PerLine(a, pats), PerLine(b, pats);
    PerLineAppend(a, b, pats);
    ConcatAppend(pa, pb);
  }

  lemma PerLineAppend(a: seq<string>, b: seq<string>, pats: seq<Pattern>)
    ensures PerLine(a + b, pats) == PerLine(a, pats) + PerLine(b, pats)
  {
    var pab, pa, pb := PerLine(a + b, pats), PerLine(a, pats), PerLine(b, pats);
    forall i | 0 <= i < |pab|
      ensures pab[i] == (pa + pb)[i]
    {
      if i < |a| {
        assert (a + b)[i] == a[i];
      } else {
        assert (a + b)[i] == b[i - |a|];
      }
    }
  }

  /** Scanning one more line appends that line's events. */
  lemma ScanOneMore(lines: seq<string>, i: nat, pats: seq<Pattern>)
    requires i < |lines|
    ensures Scan(lines[..i + 1], pats) == Scan(lines[..i], pats) + LineEvents(lines[i], pats)
  {
    var all := PerLine(lines, pats);
    PerLinePrefix(lines, i, pats);
    PerLinePrefix(lines, i + 1, pats);
    ConcatPrefix(all, i);
  }

  lemma PerLinePrefix(lines: seq<string>, i: nat, pats: seq<Pattern>)
    requires i <= |lines|
    ensures PerLine(lines[..i], pats) == PerLine(lines, pats)[..i]
  {
    var a, b := PerLine(lines[..i], pats), PerLine(lines, pats)[..i];
    forall k | 0 <= k < i
      ensures a[k] == b[k]
    {
      assert lines[..i][k] == lines[k];
    }
  }

  /** Lines that no pattern matches contribute no event. */
  lemma ScanOfUnmatched(lines: seq<string>, pats: seq<Pattern>)
    requires forall i, k :: 0 <= i < |lines| && 0 <= k < |pats| ==> Search(pats[k], lines[i]).None?
    ensures Scan(lines, pats) == []
  {
    var blocks := PerLine(lines, pats);
    forall i | 0 <= i < |blocks|
      ensures blocks[i] == []
    {
      assert forall k :: 0 <= k < |pats| ==> Search(pats[k], lines[i]).None?;
    }
    ConcatEmpty(blocks);
  }

  /** Removing lines that no pattern matches, from anywhere, leaves the events as they were. */
  lemma ScanSkipsUnmatched(a: seq<string>, noise: seq<string>, b: seq<string>, pats: seq<Pattern>)
    requires forall i, k :: 0 <= i < |noise| && 0 <= k < |pats| ==> Search(pats[k], noise[i]).None?
    ensures Scan(a + noise + b, pats) == Scan(a + b, pats)
  {
    ScanOfUnmatched(noise, pats);
    var sa, sb := Scan(a, pats), Scan(b, pats);
    ScanAppend(a, noise, pats);
    assert Scan(a + noise, pats) == sa + [];
    ScanAppend(a + noise, b, pats);
    ScanAppend(a, b, pats);
    assert sa + [] == sa;
  }

  /**
    Every pair of a scan is what some pattern records for some line, and
    every pattern that finds a line records its pair.
   */
  lemma ScanFromLines(lines: seq<string>, pats: seq<Pattern>)
    ensures forall e :: e in Scan(lines, pats) ==> exists i :: 0 <= i < |lines| && FromLine(e, lines[i], pats)
    ensures forall i, k :: 0 <= i < |lines| && 0 <= k < |pats| && Search(pats[k], lines[i]).Some? ==>
      RawEvent(StampText(lines[i]), Search(pats[k], lines[i]).value) in Scan(lines, pats)
  {
    ScanMembers(lines, pats);
    forall e | e in Scan(lines, pats)
      ensures exists i :: 0 <= i < |lines| && FromLine(e, lines[i], pats)
    {
      var i :| 0 <= i < |lines| && e in LineEvents(lines[i], pats);
      LineEventsSound(lines[i], pats);
    }
    forall i, k | 0 <= i < |lines| && 0 <= k < |pats| && Search(pats[k], lines[i]).Some?
      ensures RawEvent(StampText(lines[i]), Search(pats[k], lines[i]).value) in Scan(lines, pats)
    {
      LineEventsComplete(lines[i], pats);
    }
  }

  /** `join_data`: the pairs the join patterns record, and all of them. */
  function JoinData(lines: seq<string>): (r: seq<RawEvent>)
    ensures forall e :: e in r ==> exists i :: 0 <= i < |lines| && FromLine(e, lines[i], JoinPatterns)
    ensures forall i, k :: 0 <= i < |lines| && 0 <= k < |JoinPatterns| && Search(JoinPatterns[k], lines[i]).Some? ==>
      RawEvent(StampText(lines[i]), Search(JoinPatterns[k], lines[i]).value) in r
  {
    ScanFromLines(lines, JoinPatterns);
    Scan(lines, JoinPatterns)
  }

  /** `leave_data`: the pairs the leave patterns record, and all of them. */
  function LeaveData(lines: seq<string>): (r: seq<RawEvent>)
    ensures forall e :: e in r ==> exists i :: 0 <= i < |lines| && FromLine(e, lines[i], LeavePatterns)
    ensures forall i, k :: 0 <= i < |lines| && 0 <= k < |LeavePatterns| && Search(LeavePatterns[k], lines[i]).Some? ==>
      RawEvent(StampText(lines[i]), Search(LeavePatterns[k], lines[i]).value) in r
  {
    ScanFromLines(lines, LeavePatterns);
    Scan(lines, LeavePatterns)
  }

  /**
    The extraction loop of `process_chat`: for each line in order, try the
    join patterns and then the leave patterns, appending one entry per
    matching pattern.
   */
  method CollectEvents(lines: seq<string>) returns (joinData: seq<RawEvent>, leaveData: seq<RawEvent>)
    ensures joinData == JoinData(lines) && leaveData == LeaveData(lines)
  {
    joinData, leaveData := [], [];
    var i := 0;
    while i < |lines|
      invariant 0 <= i <= |lines|
      invariant joinData == Scan(lines[..i], JoinPatterns)
      invariant leaveData == Scan(lines[..i], LeavePatterns)
    {
      var line := lines[i];
      joinData := TryPatterns(line, JoinPatterns, joinData);
      leaveData := TryPatterns(line, LeavePatterns, leaveData);
      ScanOneMore(lines, i, JoinPatterns);
      ScanOneMore(lines, i, LeavePatterns);
      i := i + 1;
    }
    assert lines[..i] == lines;
  }

  /** The inner loop: try each pattern on `line`, appending to `data` on a match. */
  method TryPatterns(line: string, pats: seq<Pattern>, data: seq<RawEvent>) returns (r: seq<RawEvent>)
    ensures r == data + LineEvents(line, pats)
  {
    ghost var hits := Matches(line, pats);
    var stamp := StampText(line);
    r := data;
    var j := 0;
    while j < |pats|
      invariant 0 <= j <= |pats|
      invariant r == data + Collect(stamp, hits[..j])
    {
      var m := Search(pats[j], line);
      assert hits[j] == m;
      TakeOneMore(hits, j);
      CollectAppend(stamp, hits[..j], m);
      AppendAssoc(data, Collect(stamp, hits[..j]),
        match m case Some(u) => [RawEvent(stamp, u)] case None => []);
      if m.Some? {
        r := r + [RawEvent(stamp, m.value)];
      }
      j := j + 1;
    }
    assert hits[..j] == hits;
  }

  lemma AppendAssoc<T>(a: seq<T>, b: seq<T>, c: seq<T>)
    ensures (a + b) + c == a + (b + c)
  {
  }

  lemma TakeOneMore<T>(s: seq<T>, j: nat)
    requires j < |s|
    ensures s[..j + 1] == s[..j] + [s[j]]
  {
  }
}
