# WhatsApp group status extractor, modelled in Dafny

`process_chat` in `app.py` reads an exported WhatsApp group chat and
returns a table with one row per member who ever joined or left. Each row
says whether the member is still in the group ("In") or has left ("Out").
The function works in two stages, and this project models both.

1. **Extraction** (lines 7-34). Every line is tried against two join
   patterns and three leave patterns, in English and in Hebrew. Each
   pattern that `re.search` finds appends one pair to `join_data` or
   `leave_data`. A pair is the timestamp text (the part of the line before
   the first `" - "`) and the captured user name.
2. **Reduction** (lines 37-55). The pairs become event rows tagged
   `Joined` or `Left`, joins before leaves. The timestamps are coerced
   with `pd.to_datetime(errors='coerce')` and the rows are sorted by
   timestamp. Each user keeps the action of their last row, mapped to
   In/Out. Duplicate users are dropped, keeping the last, and the table is
   sorted so that In rows come before Out rows.

The modules follow that structure:

- `text.dfy` (`Text`): strings as `seq<char>`, ASCII digit runs, and
  `str.split(sep)[0]`.
- `patterns.dfy` (`Patterns`): the five regular expressions as token
  patterns.
  - A head is made of digit runs (`\d+`) and literals, followed by a lazy
    group (`.+?` or `.*?`) and a tail.
  - `Match` tries a pattern at the start of a string; `Search` tries every
    offset from the left, as `re.search` does.
  - Lemmas show that this is the regular expression's answer: the
    leftmost offset, and the shortest group there.
- `extract.dfy` (`Extract`): the extraction loop. It has a functional
  definition (`JoinData`, `LeaveData`) and the nested loops as methods
  proved equal to it.
- `lines.dfy` (`LineShapes`): what the patterns do on the line shapes they
  were written for, covering the timestamp text of a matched line and the
  "X, and N others left" line.
- `reduce.dfy` (`Reduce`): the pandas steps.
  - The two sorts are not stable in pandas, so each is specified as a
    relation: `IsStampSort` and `IsStatusSort` admit any permutation
    ordered by the key.
  - Concrete stable versions are one admissible outcome.
- `chat.dfy` (`Chat`): the whole function, end to end. `IsOutcome` holds
  for every table `process_chat` may return, and the theorems hold for
  all of them.

Three behaviours of `app.py` are worth stating explicitly:

- An unparsable timestamp does not raise. It becomes NaT, the row is
  kept, and the timestamp sort places it after every real instant.
- Equal timestamps are not tie-broken by line order. The sorts are not
  stable, so such a user's status is not determined
  (`Reduce.TiesAreUnresolved`).
- A line "D - X, and N others left" yields two leave events, not one:
  one for the user "X, and N others", from the plain leave pattern, and
  one for "X" (`LineShapes.MultiLeaveLine`).

## Model

| member | source | states |
|---|---|---|
| Text.BeforeFirst | app.py:25 | `line.split(' - ')[0]`: the result is a prefix of the line, " - " does not start inside it, and " - " starts right after it unless the line has no " - " at all, in which case it is the whole line |
| Text.BeforeFirstBound | app.py:25 | the timestamp text ends no later than any occurrence of " - " |
| Patterns.MatchIsShortestRegexGroup | app.py:7-15 | tried at the start of a string, a pattern captures exactly the shortest group with which head, group and tail can match, and fails exactly when no such match exists |
| Patterns.Match | app.py:23 | one attempt of the regular expression at the front of a string: when it captures, the head matched the front and the capture is the shortest newline-free group, at least the pattern's minimum length, that the tail follows |
| Patterns.Search | app.py:23 | `re.search` finds nothing exactly when the pattern matches at no offset, and it agrees with the match at the start of the line whenever there is one |
| Patterns.SearchIsLeftmostShortest | app.py:23 | `re.search` fails exactly when the regular expression matches at no offset; otherwise it captures `u` exactly when `u` is the shortest group at the leftmost matching offset |
| Patterns.SearchOffset | app.py:23 | a successful search matched at an offset before which the pattern matches nowhere, and that offset is 0 when the pattern matches at the start |
| Patterns.LazyFromFirst | app.py:8-14 | the lazy group stops at the first length from which the tail matches |
| Patterns.LazyFromNone | app.py:8-14 | when the lazy group fails, no newline-free length lets the tail match |
| Patterns.LazyGroup | app.py:8-14 | the captured group is a newline-free prefix of the body, at least the minimum length, followed by the tail, and no shorter such prefix exists; it fails only when no length works |
| Patterns.PrefixUnique | app.py:7-15 | a head can match a line in only one way, so a backtracking engine has no other split of the stamp to try |
| Patterns.TablesWellFormed | app.py:7-15 | every `\d+` of the five patterns is followed by a non-digit literal, so greedy digit runs never need to give characters back |
| Extract.Collect | app.py:24-27 | the pairs of one line, all stamped with its timestamp text: at most one per pattern, none exactly when no pattern matched, every pair comes from a match, and every match gives a pair |
| Extract.CollectInOrder | app.py:22-27 | exactly one pair per match, in pattern order: there are as many pairs as matches, and the match of pattern `k` gives the pair right after those of the matching patterns before it |
| Extract.LineEventsSpec | app.py:22-27 | a line adds no pair exactly when no pattern finds it; otherwise it adds exactly one pair for each pattern that finds it, in pattern order, and no other pair |
| Extract.PrefixEvents | app.py:29-34 | trying one more pattern appends one pair after the earlier ones when it matches, and nothing when it does not |
| Extract.ScanMembers | app.py:21-34 | the pairs collected over all lines are exactly the pairs of the individual lines |
| Extract.ScanAppend | app.py:21 | scanning two blocks of lines gives the first block's pairs followed by the second's |
| Extract.ScanOfUnmatched | app.py:21-34 | lines that no pattern finds add no pair |
| Extract.ScanSkipsUnmatched | app.py:21-34 | removing such lines from anywhere leaves `join_data` and `leave_data` unchanged |
| Extract.TryPatterns | app.py:29-34 | the inner loop over the patterns appends exactly the line's pairs to the data it is given |
| Extract.ScanFromLines | app.py:21-34 | every collected pair is what some pattern records for some line, and every pattern that finds a line records its pair |
| Extract.JoinData | app.py:17-27 | `join_data` holds only pairs the join patterns record for some line, stamped with that line's timestamp text, and holds every such pair |
| Extract.LeaveData | app.py:18-34 | `leave_data` holds only pairs the leave patterns record for some line, stamped with that line's timestamp text, and holds every such pair |
| Extract.CollectEvents | app.py:17-34 | the two nested loops build `join_data` and `leave_data` as the line-by-line concatenation of every line's pairs |
| LineShapes.SearchStamp | app.py:23-25 | a line any pattern finds contains " - ", so the two-way unpacking cannot fail. The search's match is at the leftmost offset where the pattern matches, and a date-time stamp and " - " start there. The timestamp text is a prefix of the line ending no later than the end of that stamp, and it is exactly that stamp when the match starts the line |
| LineShapes.StampBeforeSep | app.py:25 | when a stamp and " - " start a line, the timestamp text is exactly that stamp, because " - " cannot start inside a stamp |
| LineShapes.HebrewLeaveNeedsDot | app.py:13 | the Hebrew leave pattern matches only text holding a '.' before a comma with a digit two characters on |
| LineShapes.HebrewLeaveNowhere | app.py:13 | on a line where no comma has both a '.' before it and a digit two characters on, the Hebrew leave pattern finds nothing at any offset |
| LineShapes.MultiLineCommasSafe | app.py:13-14 | on "D - X, and N others left" followed by an ending E, where D is an English stamp, N a digit run, and X and E hold no comma, no comma has both a '.' before it and a digit two characters on, so the Hebrew leave pattern finds nothing |
| LineShapes.MultiLineDotsSafe | app.py:13-14 | the same holds when X and E hold no '.', whatever commas they hold: the line then has no '.', which every Hebrew stamp needs |
| LineShapes.MultiLeaveLine | app.py:11-15 | "D - X, and N others left" followed by an ending E (such as the "\n" a file line keeps) yields exactly two leave pairs, in order: ("D", "X, and N others") from the plain leave pattern and ("D", "X") from the multiple-leave pattern; this holds for an English stamp D, a non-empty digit run N, any non-empty X with no newline and no " left", and any ending E, provided the Hebrew leave pattern does not find the line as well (it would add a third pair); `MultiLineCommasSafe` and `MultiLineDotsSafe` give that proviso for comma-free and for dot-free X and E |
| Reduce.Combine | app.py:37-42 | `pd.concat` then `to_datetime`: every join row, then every leave row, each with its user, its action and its coerced timestamp |
| Reduce.NullStampsKept | app.py:42 | a pair whose timestamp does not parse is kept as a NaT row, not dropped |
| Reduce.InsertByStamp | app.py:43 | inserting a row into timestamp-sorted rows keeps them sorted and adds exactly that row |
| Reduce.SortByStamp | app.py:43 | the result is a permutation of the rows in timestamp order, NaT last |
| Reduce.LastIndex | app.py:45 | finds the position of a user's last row, after which that user does not occur; it fails exactly when the user has no row |
| Reduce.Upsert | app.py:45 | recording a user's group keeps users distinct, adds the user, gives that user the new action and leaves the other groups as they were |
| Reduce.GroupLast | app.py:45 | `groupby('User').last()`: one group per user that occurs, no other, each holding the action of that user's last row |
| Reduce.StatusOf | app.py:46 | the map sends `Joined` to In and `Left` to Out, and nothing else to either |
| Reduce.DropDuplicates | app.py:50 | `drop_duplicates(keep='last')` leaves distinct users and the same set of users, and keeps exactly the rows after which their user does not recur |
| Reduce.DropDuplicatesNoOp | app.py:50 | after `groupby` the users are already distinct, so dropping duplicates changes nothing |
| Reduce.WithStatusSplits | app.py:53 | splitting the rows by status loses no row and invents none |
| Reduce.OrderByStatus | app.py:53 | the stable In-then-Out partition is a permutation with no Out row before an In row |
| Reduce.Table | app.py:45-50 | before the final sort the table has exactly one row per user of the sorted events, holding the mapped action of that user's last sorted event |
| Reduce.PermutedRows | app.py:53 | the status sort keeps the rows, the users and their distinctness |
| Reduce.PermutedUsers | app.py:43 | the timestamp sort keeps the set of users |
| Reduce.LastOfSortedIsLatest | app.py:43-45 | whatever order the sort gives equal timestamps, a user's last sorted row is one of that user's latest events |
| Reduce.LatestUnique | app.py:45 | when a user's timestamps are distinct, that user's latest action is unique |
| Reduce.TiesAreUnresolved | app.py:43 | a join and a leave of one user at the same instant may be sorted either way, and the user's last action differs between the two orders |
| Chat.IsOutcome | app.py:43-53 | a table is a possible result exactly when the event rows were permuted into timestamp order and the table's rows are a permutation of the per-user rows with no Out row before an In row |
| Chat.OneRowPerUser | app.py:45-55 | every possible returned table has exactly one row per user named by some join or leave, and no other row |
| Chat.StatusFollowsLastEvent | app.py:45-47 | each row's status is In for a last sorted action `Joined` and Out for `Left` |
| Chat.StatusFollowsLatestEvent | app.py:42-53 | for a user whose timestamps are distinct, the status is In exactly when that user's latest event is a join, with NaT counting as latest |
| Chat.RowStatusIsLatest | app.py:45-46 | for a user whose events have distinct timestamps, a row built from that user's last sorted action says In exactly when the user's latest event is a join |
| Chat.OutcomesAgree | app.py:43-53 | when no user has two events at the same instant, all possible tables hold the same set of rows |
| Chat.EmptyInput | app.py:36-55 | a transcript with no lines gives an empty table |
| Chat.UnmatchedLinesIgnored | app.py:21-34 | ordinary chat lines that no pattern finds, inserted anywhere, do not change the events |
| Chat.ProcessChat | app.py:5-55 | the stable-sort run returns a possible table; it has one row per user of the events, In rows before Out rows, and In exactly when the user's latest event is a join for users with distinct timestamps |

## Left out

- The Streamlit page, the upload, the temporary file and the Excel download (`app.py` lines 62-102, and `save_df_to_excel` at lines 57-60) are user interface and file output, not logic.
- Opening and decoding the file (line 20): the model takes the transcript as a sequence of lines. As written, `app.py` does not run. Line 5 has a stray `(`, and line 21 iterates over a name `lines` that is never defined. The model iterates over the file's lines, which is evidently what was meant.
- `pd.to_datetime`'s date grammar is a parameter `parse: string -> Option<int>`. `None` stands for NaT and an instant is an unbounded integer. How pandas reads day/month order and the datetime64 range is not modelled.
- `\d` matches ASCII digits only. Python's `\d` on `str` also matches other Unicode decimal digits.
- `.` excludes only `'\n'`, as in Python without `re.DOTALL`.
- No other regular-expression feature is modelled: the five patterns use none.
- Chat.ProcessChat: picks stable sorts, a stable insertion sort by timestamp and a stable In/Out partition. pandas' sort algorithm, and the order it gives equal keys, is not modelled. Every theorem is therefore stated for all admissible orders (`Chat.IsOutcome`), not for pandas' order.
- `groupby` emits users in sorted key order, and the order of rows with the same status in the returned table depends on it. Only the In-before-Out order is stated.
- The DataFrame index that `reset_index` and the sorts leave behind is not modelled, and neither are the column names or dtypes.
