/**
  The pandas half of `process_chat`: tag the raw pairs with their action,
  concatenate joins before leaves, coerce the timestamp text, sort by
  timestamp, keep each user's last action, map it to a status, drop
  duplicate users and sort by status.

  pandas' default sort is not stable, so a sort is modelled by what any
  correct outcome satisfies (`IsStampSort`, `IsStatusSort`); the concrete
  functions below are one such outcome.
 */
module Reduce {
  import opened Text
  import opened Extract

  datatype Action = Joined | Left

  datatype Status = In | Out

  /**
    One row of `df_combined` after `pd.to_datetime(..., errors='coerce')`:
    `stamp` is the instant in nanoseconds, or None for NaT.
   */
  datatype Event = Event(stamp: Option<int>, user: string, action: Action)

  /** One row of `groupby('User').last()['Action']`. */
  datatype Group = Group(user: string, action: Action)

  /** One row of the returned table. */
  datatype Row = Row(user: string, status: Status)

  // ---------------------------------------------------------------------
  // Combining and coercing
  // ---------------------------------------------------------------------

  /** One data frame of `(Datetime, User)` pairs with a constant `Action` column, timestamps coerced. */
  function Tag(raws: seq<RawEvent>, a: Action, parse: string -> Option<int>): (r: seq<Event>)
    ensures |r| == |raws|
    ensures forall i :: 0 <= i < |raws| ==> r[i] == Event(parse(raws[i].stamp), raws[i].user, a)
  {
    seq(|raws|, i requires 0 <= i < |raws| => Event(parse(raws[i].stamp), raws[i].user, a))
  }

  /**
    `pd.concat([df_joins, df_leaves])` followed by `pd.to_datetime` with
    `errors='coerce'`: every join, then every leave, each keeping its
    user, with an unparsable timestamp kept as NaT rather than dropped.
   */
  function Combine(joins: seq<RawEvent>, leaves: seq<RawEvent>, parse: string -> Option<int>): (r: seq<Event>)
    ensures |r| == |joins| + |leaves|
    ensures forall i :: 0 <= i < |joins| ==>
      r[i] == Event(parse(joins[i].stamp), joins[i].user, Joined)
    ensures forall i :: 0 <= i < |leaves| ==>
      r[|joins| + i] == Event(parse(leaves[i].stamp), leaves[i].user, Left)
  {
    Tag(joins, Joined, parse) + Tag(leaves, Left, parse)
  }

  /** Users that occur in a sequence of events. */
  function Users(s: seq<Event>): (r: set<string>)
    ensures forall u :: u in r <==> exists i :: 0 <= i < |s| && s[i].user == u
  {
    if s == [] then {}
    else
      var init := s[..|s| - 1];
      assert forall i :: 0 <= i < |init| ==> init[i] == s[i];
      Users(init) + {s[|s| - 1].user}
  }

  /** A raw pair whose timestamp does not parse still yields an event, with a NaT timestamp. */
  lemma NullStampsKept(joins: seq<RawEvent>, leaves: seq<RawEvent>, parse: string -> Option<int>)
    ensures forall i :: 0 <= i < |joins| && parse(joins[i].stamp).None? ==>
      Event(None, joins[i].user, Joined) in Combine(joins, leaves, parse)
    ensures forall i :: 0 <= i < |leaves| && parse(leaves[i].stamp).None? ==>
      Event(None, leaves[i].user, Left) in Combine(joins, leaves, parse)
  {
    var r := Combine(joins, leaves, parse);
    forall k | |joins| <= k < |r|
      ensures r[k] in r
    {
    }
  }

  // ---------------------------------------------------------------------
  // Sorting by timestamp
  // ---------------------------------------------------------------------

  /** Timestamp order of `sort_values`: instants ascending, NaT after every instant. */
  predicate KeyLe(a: Option<int>, b: Option<int>) {
    b.None? || (a.Some? && a.value <= b.value)
  }

  predicate StampSorted(s: seq<Event>) {
    forall i, j :: 0 <= i < j < |s| ==> KeyLe(s[i].stamp, s[j].stamp)
  }

  /**
    `dst` is a possible result of `sort_values(by='Datetime')` on `src`:
    the same rows, in timestamp order. Rows with equal timestamps may come
    in any order, as pandas' default sort is not stable.
   */
  ghost predicate IsStampSort(src: seq<Event>, dst: seq<Event>) {
    multiset(src) == multiset(dst) && StampSorted(dst)
  }

  /** Insert `e` after every row whose timestamp is not later than its own. */
  function InsertByStamp(e: Event, s: seq<Event>): (r: seq<Event>)
    requires StampSorted(s)
    ensures multiset(r) == multiset(s) + multiset{e}
    ensures StampSorted(r)
  {
    if s == [] then [e]
    else if KeyLe(e.stamp, s[0].stamp) && !KeyLe(s[0].stamp, e.stamp) then
      InsertFront(e, s);
      [e] + s
    else
      SortedTail(s);
      var rest := InsertByStamp(e, s[1..]);
      InsertBehind(e, s, rest);
      [s[0]] + rest
  }

  lemma SortedTail(s: seq<Event>)
    requires |s| > 0 && StampSorted(s)
    ensures StampSorted(s[1..])
    ensures forall x :: x in s[1..] ==> KeyLe(s[0].stamp, x.stamp)
  {
  }

  /** `e` strictly before the first row goes in front. */
  lemma InsertFront(e: Event, s: seq<Event>)
    requires |s| > 0 && StampSorted(s) && KeyLe(e.stamp, s[0].stamp)
    ensures multiset([e] + s) == multiset(s) + multiset{e}
    ensures StampSorted([e] + s)
  {
    var r := [e] + s;
    forall i, j | 0 <= i < j < |r|
      ensures KeyLe(r[i].stamp, r[j].stamp)
    {
      if i == 0 {
        assert r[j] == s[j - 1];
      } else {
        assert r[i] == s[i - 1] && r[j] == s[j - 1];
      }
    }
  }

  /** `e` not before the first row goes into the rest, behind it. */
  lemma InsertBehind(e: Event, s: seq<Event>, rest: seq<Event>)
    requires |s| > 0 && KeyLe(s[0].stamp, e.stamp)
    requires forall x :: x in s[1..] ==> KeyLe(s[0].stamp, x.stamp)
    requires multiset(rest) == multiset(s[1..]) + multiset{e} && StampSorted(rest)
    ensures multiset([s[0]] + rest) == multiset(s) + multiset{e}
    ensures StampSorted([s[0]] + rest)
  {
    MultisetCons(s);
    var r := [s[0]] + rest;
    forall x | x in rest
      ensures KeyLe(s[0].stamp, x.stamp)
    {
      assert x in multiset(rest);
      if x != e {
        assert x in multiset(s[1..]);
      }
    }
    forall i, j | 0 <= i < j < |r|
      ensures KeyLe(r[i].stamp, r[j].stamp)
    {
      assert r[j] == rest[j - 1];
      if i > 0 {
        assert r[i] == rest[i - 1];
      }
    }
  }

  /** A stable insertion sort by timestamp: one admissible outcome of `sort_values`. */
  function SortByStamp(s: seq<Event>): (r: seq<Event>)
    ensures IsStampSort(s, r)
  {
    if s == [] then []
    else
      assert s == s[..|s| - 1] + [s[|s| - 1]];
      InsertByStamp(s[|s| - 1], SortByStamp(s[..|s| - 1]))
  }

  // ---------------------------------------------------------------------
  // groupby('User').last()
  // ---------------------------------------------------------------------

  /** The position of the last event of user `u` in `s`, if any. */
  function LastIndex(s: seq<Event>, u: string): (r: Option<nat>)
    ensures r.Some? ==> r.value < |s| && s[r.value].user == u
    ensures r.Some? ==> forall j :: r.value < j < |s| ==> s[j].user != u
    ensures r.None? <==> u !in Users(s)
  {
    if s == [] then None
    else if s[|s| - 1].user == u then Some(|s| - 1)
    else
      var init := s[..|s| - 1];
      assert forall j :: 0 <= j < |init| ==> init[j] == s[j];
      LastIndex(init, u)
  }

  /** The action of the last event of user `u` in `s`: what `.last()` keeps. */
  function LastAction(s: seq<Event>, u: string): Option<Action> {
    match LastIndex(s, u)
    case None => None
    case Some(i) => Some(s[i].action)
  }

  /** The users of some groups: those of their rows, since each row keeps its group's user. */
  function GroupUsers(t: seq<Group>): (r: set<string>)
    ensures forall u :: u in r <==> exists k :: 0 <= k < |t| && t[k].user == u
  {
    var rows := Rows(t);
    assert forall k :: 0 <= k < |t| ==> rows[k].user == t[k].user;
    RowUsers(rows)
  }

  predicate DistinctGroups(t: seq<Group>) {
    forall i, j :: 0 <= i < j < |t| ==> t[i].user != t[j].user
  }

  /** Record `g` for its user: replace that user's group, or append a new one. */
  function Upsert(t: seq<Group>, g: Group): (r: seq<Group>)
    requires DistinctGroups(t)
    ensures DistinctGroups(r)
    ensures GroupUsers(r) == GroupUsers(t) + {g.user}
    ensures forall k :: 0 <= k < |r| && r[k].user == g.user ==> r[k] == g
    ensures forall k :: 0 <= k < |r| && r[k].user != g.user ==> r[k] in t
  {
    if t == [] then [g]
    else if t[0].user == g.user then
      UpsertAtHead(t, g);
      [g] + t[1..]
    else
      DistinctTail(t);
      var rest := Upsert(t[1..], g);
      UpsertPastHead(t, g, rest);
      [t[0]] + rest
  }

  lemma DistinctTail(t: seq<Group>)
    requires |t| > 0 && DistinctGroups(t)
    ensures DistinctGroups(t[1..])
    ensures t[0].user !in GroupUsers(t[1..])
  {
    assert forall k :: 0 <= k < |t| - 1 ==> t[1..][k] == t[k + 1];
  }

  /** The first group is `g`'s user's: replacing it is the whole update. */
  lemma UpsertAtHead(t: seq<Group>, g: Group)
    requires |t| > 0 && DistinctGroups(t) && t[0].user == g.user
    ensures DistinctGroups([g] + t[1..])
    ensures GroupUsers([g] + t[1..]) == GroupUsers(t) + {g.user}
    ensures forall k :: 0 <= k < |t| && ([g] + t[1..])[k].user == g.user ==> ([g] + t[1..])[k] == g
    ensures forall k :: 0 <= k < |t| && ([g] + t[1..])[k].user != g.user ==> ([g] + t[1..])[k] in t
  {
    var r := [g] + t[1..];
    GroupUsersCons(r);
    GroupUsersCons(t);
    assert r[1..] == t[1..];
    forall k | 1 <= k < |r|
      ensures r[k] == t[k] && r[k].user != g.user
    {
    }
    forall i, j | 0 <= i < j < |r|
      ensures r[i].user != r[j].user
    {
      assert t[i].user == r[i].user;
    }
  }

  lemma GroupUsersCons(t: seq<Group>)
    requires |t| > 0
    ensures GroupUsers(t) == {t[0].user} + GroupUsers(t[1..])
  {
  }

  /** The first group is another user's: it stays, ahead of the updated rest. */
  lemma UpsertPastHead(t: seq<Group>, g: Group, rest: seq<Group>)
    requires |t| > 0 && t[0].user != g.user
    requires t[0].user !in GroupUsers(t[1..])
    requires DistinctGroups(rest)
    requires GroupUsers(rest) == GroupUsers(t[1..]) + {g.user}
    requires forall k :: 0 <= k < |rest| && rest[k].user == g.user ==> rest[k] == g
    requires forall k :: 0 <= k < |rest| && rest[k].user != g.user ==> rest[k] in t[1..]
    ensures DistinctGroups([t[0]] + rest)
    ensures GroupUsers([t[0]] + rest) == GroupUsers(t) + {g.user}
    ensures forall k :: 0 <= k < |rest| + 1 && ([t[0]] + rest)[k].user == g.user ==> ([t[0]] + rest)[k] == g
    ensures forall k :: 0 <= k < |rest| + 1 && ([t[0]] + rest)[k].user != g.user ==> ([t[0]] + rest)[k] in t
  {
    PastHeadUsers(t, g, rest);
    PrependDistinct(t[0], rest);
    PrependKeeps(t, g, rest);
  }

  lemma PastHeadUsers(t: seq<Group>, g: Group, rest: seq<Group>)
    requires |t| > 0
    requires GroupUsers(rest) == GroupUsers(t[1..]) + {g.user}
    ensures GroupUsers([t[0]] + rest) == GroupUsers(t) + {g.user}
  {
    var r := [t[0]] + rest;
    assert r[1..] == rest;
    GroupUsersCons(r);
    GroupUsersCons(t);
  }

  /** Putting a group of a new user in front keeps the groups distinct. */
  lemma PrependDistinct(h: Group, rest: seq<Group>)
    requires h.user !in GroupUsers(rest) && DistinctGroups(rest)
    ensures DistinctGroups([h] + rest)
  {
    var r := [h] + rest;
    forall i, j | 0 <= i < j < |r|
      ensures r[i].user != r[j].user
    {
      assert r[j] == rest[j - 1];
      if i > 0 {
        assert r[i] == rest[i - 1];
      }
    }
  }

  lemma PrependKeeps(t: seq<Group>, g: Group, rest: seq<Group>)
    requires |t| > 0 && t[0].user != g.user
    requires forall k :: 0 <= k < |rest| && rest[k].user == g.user ==> rest[k] == g
    requires forall k :: 0 <= k < |rest| && rest[k].user != g.user ==> rest[k] in t[1..]
    ensures forall k :: 0 <= k < |rest| + 1 && ([t[0]] + rest)[k].user == g.user ==> ([t[0]] + rest)[k] == g
    ensures forall k :: 0 <= k < |rest| + 1 && ([t[0]] + rest)[k].user != g.user ==> ([t[0]] + rest)[k] in t
  {
    var r := [t[0]] + rest;
    forall k | 1 <= k < |r|
      ensures r[k] == rest[k - 1]
    {
    }
    forall x | x in t[1..]
      ensures x in t
    {
    }
  }

  /**
    `groupby('User').last()['Action']` on rows in the order given: one
    group per user that occurs, holding the action of that user's last row.
   */
  function GroupLast(s: seq<Event>): (r: seq<Group>)
    ensures DistinctGroups(r)
    ensures GroupUsers(r) == Users(s)
    ensures forall k :: 0 <= k < |r| ==> LastAction(s, r[k].user) == Some(r[k].action)
  {
    if s == [] then []
    else
      var init, e := s[..|s| - 1], s[|s| - 1];
      assert s == init + [e];
      GroupLastStep(init, e, GroupLast(init));
      Upsert(GroupLast(init), Group(e.user, e.action))
  }

  /** Recording one more event keeps the groups distinct, complete and at each user's last action. */
  lemma GroupLastStep(init: seq<Event>, e: Event, t: seq<Group>)
    requires DistinctGroups(t) && GroupUsers(t) == Users(init)
    requires forall k :: 0 <= k < |t| ==> LastAction(init, t[k].user) == Some(t[k].action)
    ensures DistinctGroups(Upsert(t, Group(e.user, e.action)))
    ensures GroupUsers(Upsert(t, Group(e.user, e.action))) == Users(init + [e])
    ensures forall k :: 0 <= k < |Upsert(t, Group(e.user, e.action))| ==>
      LastAction(init + [e], Upsert(t, Group(e.user, e.action))[k].user) == Some(Upsert(t, Group(e.user, e.action))[k].action)
  {
    GroupLastUsers(init, e, t);
    GroupLastActions(init, e, t);
  }

  lemma GroupLastUsers(init: seq<Event>, e: Event, t: seq<Group>)
    requires DistinctGroups(t) && GroupUsers(t) == Users(init)
    ensures GroupUsers(Upsert(t, Group(e.user, e.action))) == Users(init + [e])
  {
    var s := init + [e];
    assert s[..|s| - 1] == init;
    UsersOfInit(s);
  }

  lemma GroupLastActions(init: seq<Event>, e: Event, t: seq<Group>)
    requires DistinctGroups(t)
    requires forall k :: 0 <= k < |t| ==> LastAction(init, t[k].user) == Some(t[k].action)
    ensures forall k :: 0 <= k < |Upsert(t, Group(e.user, e.action))| ==>
      LastAction(init + [e], Upsert(t, Group(e.user, e.action))[k].user) == Some(Upsert(t, Group(e.user, e.action))[k].action)
  {
    var r := Upsert(t, Group(e.user, e.action));
    forall k | 0 <= k < |r|
      ensures LastAction(init + [e], r[k].user) == Some(r[k].action)
    {
      GroupLastActionOf(init, e, t, r[k]);
    }
  }

  /** A group of the updated table holds its user's last action, `e`'s or an earlier one. */
  lemma GroupLastActionOf(init: seq<Event>, e: Event, t: seq<Group>, x: Group)
    requires forall k :: 0 <= k < |t| ==> LastAction(init, t[k].user) == Some(t[k].action)
    requires x.user == e.user ==> x == Group(e.user, e.action)
    requires x.user != e.user ==> x in t
    ensures LastAction(init + [e], x.user) == Some(x.action)
  {
    var s := init + [e];
    assert s[..|s| - 1] == init;
    if x.user != e.user {
      var m :| 0 <= m < |t| && t[m] == x;
      LastActionOfInit(s, x.user);
    }
  }

  lemma UsersOfInit(s: seq<Event>)
    requires |s| > 0
    ensures Users(s) == Users(s[..|s| - 1]) + {s[|s| - 1].user}
  {
    var init := s[..|s| - 1];
    assert forall j :: 0 <= j < |init| ==> init[j] == s[j];
  }

  /** Appending an event of another user does not change a user's last action. */
  lemma LastActionOfInit(s: seq<Event>, u: string)
    requires |s| > 0 && s[|s| - 1].user != u
    ensures LastAction(s, u) == LastAction(s[..|s| - 1], u)
  {
  }

  // ---------------------------------------------------------------------
  // Status, de-duplication and the final order
  // ---------------------------------------------------------------------

  /** `.map({'Joined': 'In', 'Left': 'Out'})` */
  function StatusOf(a: Action): (s: Status)
    ensures s == In <==> a == Joined
    ensures s == Out <==> a == Left
  {
    match a
    case Joined => In
    case Left => Out
  }

  /** `final_status[['User', 'Status']]` after the map. */
  function Rows(t: seq<Group>): (r: seq<Row>)
    ensures |r| == |t|
    ensures forall k :: 0 <= k < |t| ==> r[k] == Row(t[k].user, StatusOf(t[k].action))
  {
    seq(|t|, k requires 0 <= k < |t| => Row(t[k].user, StatusOf(t[k].action)))
  }

  function RowUsers(rows: seq<Row>): (r: set<string>)
    ensures forall u :: u in r <==> exists k :: 0 <= k < |rows| && rows[k].user == u
  {
    if rows == [] then {}
    else
      assert forall k :: 1 <= k < |rows| ==> rows[k] == rows[1..][k - 1];
      {rows[0].user} + RowUsers(rows[1..])
  }

  predicate DistinctRows(rows: seq<Row>) {
    forall i, j :: 0 <= i < j < |rows| ==> rows[i].user != rows[j].user
  }

  /** Row `i` is the last row of its user. */
  predicate LastOfUser(rows: seq<Row>, i: nat) {
    i < |rows| && forall j :: i < j < |rows| ==> rows[j].user != rows[i].user
  }

  /**
    `drop_duplicates(subset='User', keep='last')`: keep, in order, exactly
    the rows after which their user does not occur again.
   */
  function DropDuplicates(rows: seq<Row>): (r: seq<Row>)
    ensures DistinctRows(r)
    ensures RowUsers(r) == RowUsers(rows)
    ensures forall x :: x in r <==> exists i: nat :: LastOfUser(rows, i) && rows[i] == x
  {
    if rows == [] then []
    else
      var rest := DropDuplicates(rows[1..]);
      if rows[0].user in RowUsers(rows[1..]) then
        DropSkip(rows, rest);
        rest
      else
        DropKeep(rows, rest);
        DropKeepMembers(rows, rest);
        [rows[0]] + rest
  }

  /** A first row whose user recurs is dropped; the outcome for the others stands. */
  lemma DropSkip(rows: seq<Row>, rest: seq<Row>)
    requires |rows| > 0 && rows[0].user in RowUsers(rows[1..])
    requires RowUsers(rest) == RowUsers(rows[1..])
    requires forall x :: x in rest <==> exists i: nat :: LastOfUser(rows[1..], i) && rows[1..][i] == x
    ensures RowUsers(rest) == RowUsers(rows)
    ensures forall x :: x in rest <==> exists i: nat :: LastOfUser(rows, i) && rows[i] == x
  {
    RowUsersCons(rows);
    LastOfTail(rows, rest);
    assert !LastOfUser(rows, 0);
  }

  /** Keeping a first row that is its user's last adds exactly that row to the kept ones. */
  lemma DropKeepMembers(rows: seq<Row>, rest: seq<Row>)
    requires |rows| > 0 && LastOfUser(rows, 0)
    requires forall x :: x in rest <==> exists i: nat :: LastOfUser(rows[1..], i) && rows[1..][i] == x
    ensures forall x :: x in [rows[0]] + rest <==> exists i: nat :: LastOfUser(rows, i) && rows[i] == x
  {
    LastOfTail(rows, rest);
  }

  lemma RowUsersCons(rows: seq<Row>)
    requires |rows| > 0
    ensures RowUsers(rows) == {rows[0].user} + RowUsers(rows[1..])
  {
    assert forall i :: 1 <= i < |rows| ==> rows[i] == rows[1..][i - 1];
  }

  /** A first row whose user does not recur is its user's last row, and keeping it keeps the rows distinct. */
  lemma DropKeep(rows: seq<Row>, rest: seq<Row>)
    requires |rows| > 0 && rows[0].user !in RowUsers(rows[1..])
    requires DistinctRows(rest) && RowUsers(rest) == RowUsers(rows[1..])
    ensures LastOfUser(rows, 0)
    ensures DistinctRows([rows[0]] + rest)
    ensures RowUsers([rows[0]] + rest) == RowUsers(rows)
  {
    forall j | 0 < j < |rows|
      ensures rows[j].user != rows[0].user
    {
      assert rows[j] == rows[1..][j - 1];
    }
    var r := [rows[0]] + rest;
    RowUsersCons(r);
    RowUsersCons(rows);
    assert r[1..] == rest;
    forall i, j | 0 <= i < j < |r|
      ensures r[i].user != r[j].user
    {
      if i == 0 {
        assert r[j] == rest[j - 1];
      } else {
        assert r[i] == rest[i - 1] && r[j] == rest[j - 1];
      }
    }
  }

  /** The last rows of the users of `rows[1..]` are the last rows of theirs in `rows`, shifted by one. */
  lemma LastOfTail(rows: seq<Row>, rest: seq<Row>)
    requires |rows| > 0
    requires forall x :: x in rest <==> exists i: nat :: LastOfUser(rows[1..], i) && rows[1..][i] == x
    ensures forall x :: x in rest ==> exists i: nat :: LastOfUser(rows, i) && rows[i] == x
    ensures forall i: nat :: 1 <= i && LastOfUser(rows, i) ==> rows[i] in rest
  {
    forall x | x in rest
      ensures exists i: nat :: LastOfUser(rows, i) && rows[i] == x
    {
      var i: nat :| LastOfUser(rows[1..], i) && rows[1..][i] == x;
      assert LastOfUser(rows, i + 1);
    }
    forall i: nat | 1 <= i && LastOfUser(rows, i)
      ensures rows[i] in rest
    {
      assert LastOfUser(rows[1..], i - 1) && rows[1..][i - 1] == rows[i];
    }
  }

  /** With one row per user already, `drop_duplicates` changes nothing. */
  lemma {:induction false} DropDuplicatesNoOp(rows: seq<Row>)
    decreases |rows|
    requires DistinctRows(rows)
    ensures DropDuplicates(rows) == rows
  {
    if rows != [] {
      var tail := rows[1..];
      assert DistinctRows(tail) by {
        forall i, j | 0 <= i < j < |tail|
          ensures tail[i].user != tail[j].user
        {
          assert tail[i] == rows[i + 1] && tail[j] == rows[j + 1];
        }
      }
      DropDuplicatesNoOp(tail);
      assert rows[0].user !in RowUsers(tail) by {
        forall k | 0 <= k < |tail|
          ensures tail[k].user != rows[0].user
        {
          assert tail[k] == rows[k + 1];
        }
      }
      assert rows == [rows[0]] + tail;
    }
  }

  /** No Out row comes before an In row. */
  predicate InBeforeOut(rows: seq<Row>) {
    forall i, j :: 0 <= i < j < |rows| ==> !(rows[i].status == Out && rows[j].status == In)
  }

  /**
    `dst` is a possible result of `sort_values(by='Status')` on `src`:
    the same rows, every "In" before every "Out" ("In" < "Out" as
    strings); rows with the same status may come in any order.
   */
  ghost predicate IsStatusSort(src: seq<Row>, dst: seq<Row>) {
    multiset(src) == multiset(dst) && InBeforeOut(dst)
  }

  /** The rows of `rows` with status `st`, in order. */
  function WithStatus(rows: seq<Row>, st: Status): (r: seq<Row>)
    ensures forall k :: 0 <= k < |r| ==> r[k].status == st
  {
    if rows == [] then []
    else
      var rest := WithStatus(rows[1..], st);
      if rows[0].status == st then [rows[0]] + rest else rest
  }

  /** Splitting by status loses and invents no row. */
  lemma {:induction false} WithStatusSplits(rows: seq<Row>)
    decreases |rows|
    ensures multiset(WithStatus(rows, In)) + multiset(WithStatus(rows, Out)) == multiset(rows)
  {
    if rows != [] {
      WithStatusSplits(rows[1..]);
      WithStatusCons(rows);
      MultisetCons(rows);
    }
  }

  lemma WithStatusCons(rows: seq<Row>)
    requires |rows| > 0
    ensures rows[0].status == In ==>
      WithStatus(rows, In) == [rows[0]] + WithStatus(rows[1..], In) && WithStatus(rows, Out) == WithStatus(rows[1..], Out)
    ensures rows[0].status == Out ==>
      WithStatus(rows, In) == WithStatus(rows[1..], In) && WithStatus(rows, Out) == [rows[0]] + WithStatus(rows[1..], Out)
  {
  }

  lemma MultisetCons<T>(s: seq<T>)
    requires |s| > 0
    ensures multiset(s) == multiset{s[0]} + multiset(s[1..])
  {
    assert s == [s[0]] + s[1..];
  }

  /** A stable partition, In rows then Out rows: one admissible outcome of the status sort. */
  function OrderByStatus(rows: seq<Row>): (r: seq<Row>)
    ensures IsStatusSort(rows, r)
  {
    var ins := WithStatus(rows, In);
    var outs := WithStatus(rows, Out);
    WithStatusSplits(rows);
    var r := ins + outs;
    assert forall k :: |ins| <= k < |r| ==> r[k] == outs[k - |ins|];
    r
  }

  /**
    The table before the final sort: exactly one row per user of
    `sorted`, and that row's status is the mapped action of the user's
    last event in `sorted`.
   */
  function Table(sorted: seq<Event>): (r: seq<Row>)
    ensures DistinctRows(r)
    ensures RowUsers(r) == Users(sorted)
    ensures forall x :: x in r ==>
      LastAction(sorted, x.user).Some? && x.status == StatusOf(LastAction(sorted, x.user).value)
  {
    var t := GroupLast(sorted);
    RowsOfGroups(t);
    DropDuplicatesNoOp(Rows(t));
    DropDuplicates(Rows(t))
  }

  // ---------------------------------------------------------------------
  // What the table says
  // ---------------------------------------------------------------------

  lemma RowsOfGroups(t: seq<Group>)
    requires DistinctGroups(t)
    ensures DistinctRows(Rows(t))
    ensures RowUsers(Rows(t)) == GroupUsers(t)
  {
  }

  /** A permutation of rows has the same rows and users, and keeps users distinct. */
  lemma PermutedRows(a: seq<Row>, b: seq<Row>)
    requires multiset(a) == multiset(b)
    ensures forall x :: x in a <==> x in b
    ensures RowUsers(a) == RowUsers(b)
    ensures DistinctRows(a) ==> DistinctRows(b)
  {
    forall x
      ensures x in a <==> x in b
    {
      assert x in a <==> x in multiset(a);
      assert x in b <==> x in multiset(b);
    }
    forall u | u in RowUsers(a)
      ensures u in RowUsers(b)
    {
      var k :| 0 <= k < |a| && a[k].user == u;
      assert a[k] in a;
      var m :| 0 <= m < |b| && b[m] == a[k];
    }
    forall u | u in RowUsers(b)
      ensures u in RowUsers(a)
    {
      var k :| 0 <= k < |b| && b[k].user == u;
      assert b[k] in b;
      var m :| 0 <= m < |a| && a[m] == b[k];
    }
    if DistinctRows(a) {
      forall i, j | 0 <= i < j < |b|
        ensures b[i].user != b[j].user
      {
        UsersStayApart(a, b, i, j);
      }
    }
  }

  /** A row occurs at most once in a sequence of rows with distinct users. */
  lemma {:induction false} CountOfDistinct(a: seq<Row>, x: Row)
    decreases |a|
    requires DistinctRows(a)
    ensures multiset(a)[x] <= 1
  {
    if a != [] {
      var rest := a[1..];
      assert a == [a[0]] + rest;
      assert DistinctRows(rest) by {
        forall i, j | 0 <= i < j < |rest|
          ensures rest[i].user != rest[j].user
        {
          assert rest[i] == a[i + 1] && rest[j] == a[j + 1];
        }
      }
      CountOfDistinct(rest, x);
      assert a[0] !in rest by {
        forall k | 0 <= k < |rest|
          ensures rest[k] != a[0]
        {
          assert rest[k] == a[k + 1];
        }
      }
    }
  }

  /** A row at two positions occurs at least twice. */
  lemma CountOfPair(b: seq<Row>, i: nat, j: nat)
    requires i < j < |b|
    ensures b[i] == b[j] ==> multiset(b)[b[i]] >= 2
  {
    assert b == b[..j] + b[j..];
    assert b[..j][i] == b[i];
    assert b[j..][0] == b[j];
  }

  /** In a permutation of rows with distinct users, two positions hold different users. */
  lemma UsersStayApart(a: seq<Row>, b: seq<Row>, i: nat, j: nat)
    requires multiset(a) == multiset(b) && DistinctRows(a)
    requires i < j < |b|
    ensures b[i].user != b[j].user
  {
    CountOfDistinct(a, b[i]);
    CountOfPair(b, i, j);
    assert b[i] in multiset(a) && b[j] in multiset(a);
    var p :| 0 <= p < |a| && a[p] == b[i];
    var q :| 0 <= q < |a| && a[q] == b[j];
    assert p != q;
  }

  /** Sorting keeps the set of users. */
  lemma PermutedUsers(a: seq<Event>, b: seq<Event>)
    requires multiset(a) == multiset(b)
    ensures Users(a) == Users(b)
  {
    forall u | u in Users(a)
      ensures u in Users(b)
    {
      var k :| 0 <= k < |a| && a[k].user == u;
      assert a[k] in multiset(b);
      var m :| 0 <= m < |b| && b[m] == a[k];
    }
    forall u | u in Users(b)
      ensures u in Users(a)
    {
      var k :| 0 <= k < |b| && b[k].user == u;
      assert b[k] in multiset(a);
      var m :| 0 <= m < |a| && a[m] == b[k];
    }
  }

  /** `e` is an event of user `u` with an action `a` and a timestamp no other event of `u` exceeds. */
  ghost predicate IsLatest(s: seq<Event>, u: string, a: Action) {
    exists i :: 0 <= i < |s| && s[i].user == u && s[i].action == a &&
      forall j :: 0 <= j < |s| && s[j].user == u ==> KeyLe(s[j].stamp, s[i].stamp)
  }

  /** No two events of user `u` share a timestamp (two NaT count as equal). */
  ghost predicate UniqueStamps(s: seq<Event>, u: string) {
    forall i, j :: 0 <= i < j < |s| && s[i].user == u && s[j].user == u ==> s[i].stamp != s[j].stamp
  }

  /**
    Whatever order the timestamp sort leaves equal timestamps in, the last
    event of a user in the sorted rows is one of that user's latest events.
   */
  lemma LastOfSortedIsLatest(src: seq<Event>, dst: seq<Event>, u: string)
    requires IsStampSort(src, dst)
    requires u in Users(src)
    ensures LastAction(dst, u).Some?
    ensures IsLatest(src, u, LastAction(dst, u).value)
  {
    assert forall x :: x in src <==> x in dst by {
      forall x ensures x in src <==> x in dst {
        assert x in src <==> x in multiset(src);
        assert x in dst <==> x in multiset(dst);
      }
    }
    var k :| 0 <= k < |src| && src[k].user == u;
    assert src[k] in src;
    var m :| 0 <= m < |dst| && dst[m] == src[k];
    assert u in Users(dst);
    var i := LastIndex(dst, u).value;
    var e := dst[i];
    assert e in dst;
    var w :| 0 <= w < |src| && src[w] == e;
    forall j | 0 <= j < |src| && src[j].user == u
      ensures KeyLe(src[j].stamp, e.stamp)
    {
      assert src[j] in src;
      var n :| 0 <= n < |dst| && dst[n] == src[j];
      assert n <= i;
    }
  }

  /** Timestamps that are each no later than the other are equal. */
  lemma KeyLeAntisymmetric(a: Option<int>, b: Option<int>)
    requires KeyLe(a, b) && KeyLe(b, a)
    ensures a == b
  {
  }

  /** With unique timestamps the latest event of a user, hence its action, is unique. */
  lemma LatestUnique(s: seq<Event>, u: string, a: Action, b: Action)
    requires UniqueStamps(s, u)
    requires IsLatest(s, u, a) && IsLatest(s, u, b)
    ensures a == b
  {
    var i :| 0 <= i < |s| && s[i].user == u && s[i].action == a &&
      forall j :: 0 <= j < |s| && s[j].user == u ==> KeyLe(s[j].stamp, s[i].stamp);
    var k :| 0 <= k < |s| && s[k].user == u && s[k].action == b &&
      forall j :: 0 <= j < |s| && s[j].user == u ==> KeyLe(s[j].stamp, s[k].stamp);
    KeyLeAntisymmetric(s[i].stamp, s[k].stamp);
    assert i == k;
  }

  /**
    Equal timestamps leave the outcome open: a join and a leave of the
    same user at the same instant can be sorted either way, and the
    user's last action differs between the two.
   */
  lemma TiesAreUnresolved(t: Option<int>, u: string)
    ensures var j, l := Event(t, u, Joined), Event(t, u, Left);
      IsStampSort([j, l], [j, l]) && IsStampSort([j, l], [l, j]) &&
      LastAction([j, l], u) == Some(Left) && LastAction([l, j], u) == Some(Joined)
  {
    var j, l := Event(t, u, Joined), Event(t, u, Left);
    assert multiset([j, l]) == multiset([l, j]);
    assert [j, l][..1] == [j];
    assert [l, j][..1] == [l];
  }
}
