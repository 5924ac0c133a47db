/**
  `process_chat` end to end: extract the join and leave pairs, build the
  event rows, sort them by timestamp, keep each user's last action as a
  status, and sort the table so that "In" rows come first.
 */
module Chat {
  import opened Text
  import opened Patterns
  import opened Extract
  import opened Reduce

  /** `df_combined` after `pd.to_datetime`: every join pair, then every leave pair. */
  function Events(lines: seq<string>, parse: string -> Option<int>): seq<Event> {
    Combine(JoinData(lines), LeaveData(lines), parse)
  }

  /**
    `table` is a possible return value of `process_chat` on `lines`, with
    `sorted` the order the timestamp sort left the event rows in. pandas'
    sorts are not stable, so there may be several.
   */
  ghost function IsOutcome(lines: seq<string>, parse: string -> Option<int>,
                           sorted: seq<Event>, table: seq<Row>): (r: bool)
    ensures r <==>
      && multiset(sorted) == multiset(Events(lines, parse)) && StampSorted(sorted)
      && multiset(table) == multiset(Table(sorted)) && InBeforeOut(table)
  {
    IsStampSort(Events(lines, parse), sorted) && IsStatusSort(Table(sorted), table)
  }

  /**
    Every outcome has exactly one row per user named by some join or
    leave event, and no other row.
   */
  lemma OneRowPerUser(lines: seq<string>, parse: string -> Option<int>,
                      sorted: seq<Event>, table: seq<Row>)
    requires IsOutcome(lines, parse, sorted, table)
    ensures DistinctRows(table)
    ensures RowUsers(table) == Users(Events(lines, parse))
  {
    PermutedRows(Table(sorted), table);
    PermutedUsers(Events(lines, parse), sorted);
  }

  /** A user's status is the mapped action of that user's last event in the sorted rows. */
  lemma StatusFollowsLastEvent(lines: seq<string>, parse: string -> Option<int>,
                               sorted: seq<Event>, table: seq<Row>)
    requires IsOutcome(lines, parse, sorted, table)
    ensures forall x :: x in table ==>
      LastAction(sorted, x.user).Some? && x.status == StatusOf(LastAction(sorted, x.user).value)
  {
    PermutedRows(Table(sorted), table);
  }

  /**
    When no two events of a user share a timestamp, every outcome gives
    that user "In" exactly when the user's latest event is a join; an
    unparsable (NaT) timestamp counts as later than every real one.
   */
  lemma StatusFollowsLatestEvent(lines: seq<string>, parse: string -> Option<int>,
                                 sorted: seq<Event>, table: seq<Row>)
    requires IsOutcome(lines, parse, sorted, table)
    ensures forall k :: 0 <= k < |table| && UniqueStamps(Events(lines, parse), table[k].user) ==>
      (table[k].status == In <==> IsLatest(Events(lines, parse), table[k].user, Joined))
  {
    var events := Events(lines, parse);
    OneRowPerUser(lines, parse, sorted, table);
    StatusFollowsLastEvent(lines, parse, sorted, table);
    forall k | 0 <= k < |table| && UniqueStamps(events, table[k].user)
      ensures table[k].status == In <==> IsLatest(events, table[k].user, Joined)
    {
      assert table[k] in table;
      RowStatusIsLatest(events, sorted, table[k]);
    }
  }

  /** One row whose status is its user's last sorted action, read against the unsorted events. */
  lemma RowStatusIsLatest(events: seq<Event>, sorted: seq<Event>, x: Row)
    requires IsStampSort(events, sorted)
    requires x.user in Users(events) && UniqueStamps(events, x.user)
    requires LastAction(sorted, x.user).Some? && x.status == StatusOf(LastAction(sorted, x.user).value)
    ensures x.status == In <==> IsLatest(events, x.user, Joined)
  {
    LastOfSortedIsLatest(events, sorted, x.user);
    var a := LastAction(sorted, x.user).value;
    if IsLatest(events, x.user, Joined) {
      LatestUnique(events, x.user, a, Joined);
    }
  }

  /**
    When no user has two events with the same timestamp, every outcome
    holds the same rows: only their order within a status may differ.
   */
  lemma OutcomesAgree(lines: seq<string>, parse: string -> Option<int>,
                      sorted1: seq<Event>, table1: seq<Row>,
                      sorted2: seq<Event>, table2: seq<Row>)
    requires IsOutcome(lines, parse, sorted1, table1)
    requires IsOutcome(lines, parse, sorted2, table2)
    requires forall u :: UniqueStamps(Events(lines, parse), u)
    ensures forall x :: x in table1 <==> x in table2
  {
    OneRowPerUser(lines, parse, sorted1, table1);
    OneRowPerUser(lines, parse, sorted2, table2);
    StatusFollowsLatestEvent(lines, parse, sorted1, table1);
    StatusFollowsLatestEvent(lines, parse, sorted2, table2);
    forall x | x in table1
      ensures x in table2
    {
      SameUserSameRow(lines, parse, table1, table2, x);
    }
    forall x | x in table2
      ensures x in table1
    {
      SameUserSameRow(lines, parse, table2, table1, x);
    }
  }

  lemma SameUserSameRow(lines: seq<string>, parse: string -> Option<int>,
                        t1: seq<Row>, t2: seq<Row>, x: Row)
    requires RowUsers(t1) == RowUsers(t2)
    requires UniqueStamps(Events(lines, parse), x.user)
    requires forall k :: 0 <= k < |t1| && UniqueStamps(Events(lines, parse), t1[k].user) ==>
      (t1[k].status == In <==> IsLatest(Events(lines, parse), t1[k].user, Joined))
    requires forall k :: 0 <= k < |t2| && UniqueStamps(Events(lines, parse), t2[k].user) ==>
      (t2[k].status == In <==> IsLatest(Events(lines, parse), t2[k].user, Joined))
    requires x in t1
    ensures x in t2
  {
    var i :| 0 <= i < |t1| && t1[i] == x;
    assert x.user in RowUsers(t2);
    var j :| 0 <= j < |t2| && t2[j].user == x.user;
    assert t2[j].status == x.status;
  }

  /** An empty transcript gives an empty table, whatever the sorts do. */
  lemma EmptyInput(parse: string -> Option<int>, sorted: seq<Event>, table: seq<Row>)
    requires IsOutcome([], parse, sorted, table)
    ensures table == []
  {
    assert Events([], parse) == [];
    assert sorted == [];
    assert Table([]) == [];
  }

  /**
    Lines that no pattern matches (ordinary chat messages) change nothing:
    removing them from anywhere in the transcript leaves the events as
    they were.
   */
  lemma UnmatchedLinesIgnored(a: seq<string>, noise: seq<string>, b: seq<string>,
                              parse: string -> Option<int>)
    requires forall i, k :: 0 <= i < |noise| && 0 <= k < |JoinPatterns + LeavePatterns| ==>
      Search((JoinPatterns + LeavePatterns)[k], noise[i]).None?
    ensures Events(a + noise + b, parse) == Events(a + b, parse)
  {
    forall i, k | 0 <= i < |noise| && 0 <= k < |JoinPatterns|
      ensures Search(JoinPatterns[k], noise[i]).None?
    {
      assert (JoinPatterns + LeavePatterns)[k] == JoinPatterns[k];
    }
    forall i, k | 0 <= i < |noise| && 0 <= k < |LeavePatterns|
      ensures Search(LeavePatterns[k], noise[i]).None?
    {
      assert (JoinPatterns + LeavePatterns)[|JoinPatterns| + k] == LeavePatterns[k];
    }
    ScanSkipsUnmatched(a, noise, b, JoinPatterns);
    ScanSkipsUnmatched(a, noise, b, LeavePatterns);
  }

  /**
    `process_chat` with the stable sorts of this model: one of the
    possible outcomes, so every theorem above applies to it.
   */
  function ProcessChat(lines: seq<string>, parse: string -> Option<int>): (table: seq<Row>)
    ensures IsOutcome(lines, parse, SortByStamp(Events(lines, parse)), table)
    ensures DistinctRows(table) && RowUsers(table) == Users(Events(lines, parse))
    ensures InBeforeOut(table)
    ensures forall k :: 0 <= k < |table| && UniqueStamps(Events(lines, parse), table[k].user) ==>
      (table[k].status == In <==> IsLatest(Events(lines, parse), table[k].user, Joined))
  {
    var sorted := SortByStamp(Events(lines, parse));
    var table := OrderByStatus(Table(sorted));
    OneRowPerUser(lines, parse, sorted, table);
    StatusFollowsLatestEvent(lines, parse, sorted, table);
    table
  }
}
