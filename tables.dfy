/** The queries of the repositories as functions over the table contents,
    the integrity conditions the tables keep, and what the mutators do to
    them.

    The polls table is a sequence whose entry `i` is the poll with id
    `i + 1` (ids are handed out by autoincrement and polls are never
    deleted); the other tables are sequences in insertion order. */
module Tables {
  import opened Wrappers
  import opened Models
  import Sorting

  // ---------------------------------------------------------------------
  // Polls
  // ---------------------------------------------------------------------

  predicate IsPollId(polls: seq<Poll>, id: int) {
    1 <= id <= |polls|
  }

  /** `get_poll_by_id`. */
  function GetPollById(polls: seq<Poll>, id: int): (r: Option<Poll>)
    ensures r.Some? <==> IsPollId(polls, id)
    ensures r.Some? ==> r.value == polls[id - 1]
  {
    if IsPollId(polls, id) then Some(polls[id - 1]) else None
  }

  /** The polls table after `close_poll` on a stored poll: whatever its
      status was, the poll gets the given one and a closing time. */
  function CloseAt(polls: seq<Poll>, pollId: int, status: PollStatus, t: Timestamp): (r: seq<Poll>)
    requires IsPollId(polls, pollId)
    ensures SameHistory(polls, r)
    ensures r[pollId - 1].status == status && r[pollId - 1].closedAt == Some(t)
    ensures forall i :: 0 <= i < |polls| && i != pollId - 1 ==> r[i] == polls[i]
  {
    polls[pollId - 1 := polls[pollId - 1].(status := status, closedAt := Some(t))]
  }

  /** The chat `get_or_create_chat` returns. */
  function ChatOrNew(chats: map<int, Chat>, chatId: int): Chat {
    if chatId in chats then chats[chatId] else NewChat(chatId)
  }

  /** The chat `reset_history` leaves: the next history version, no last
      poll, nothing else changed. */
  function ResetChat(c: Chat): Chat {
    c.(historyVersion := c.historyVersion + 1, lastPollId := None)
  }

  /** The polls table after `reject_poll_if_active_by_poll_id`: the poll
      with the id turns from active to rejected; every other row, and a
      poll that is not active, is left as it was. */
  function RejectIfActive(polls: seq<Poll>, pollId: int): (r: seq<Poll>)
    ensures SameHistory(polls, r)
    ensures forall i :: 0 <= i < |polls| && polls[i].status != Active ==> r[i] == polls[i]
    ensures forall i :: 0 <= i < |polls| && i != pollId - 1 ==> r[i] == polls[i]
    ensures IsPollId(polls, pollId) && polls[pollId - 1].status == Active ==> r[pollId - 1].status == Rejected
  {
    if IsPollId(polls, pollId) && polls[pollId - 1].status == Active
    then polls[pollId - 1 := polls[pollId - 1].(status := Rejected)]
    else polls
  }

  /** `get_poll_by_tg_id`: the id of the poll whose Telegram id is `tg`
      (the first one, should there be several). */
  function GetPollByTgId(polls: seq<Poll>, tg: string): (r: Option<int>)
    ensures r.Some? ==> IsPollId(polls, r.value) && polls[r.value - 1].tgPollId == tg
    ensures r.Some? ==> forall i :: 0 <= i < r.value - 1 ==> polls[i].tgPollId != tg
    ensures r.None? <==> forall i :: 0 <= i < |polls| ==> polls[i].tgPollId != tg
  {
    if polls == [] then None
    else
      var r := GetPollByTgId(polls[..|polls| - 1], tg);
      if r.Some? then r
      else if polls[|polls| - 1].tgPollId == tg then Some(|polls|)
      else None
  }

  /** `get_active_poll_for_chat`: the chat's most recently created poll
      among those still "active". */
  function GetActivePollForChat(polls: seq<Poll>, chatId: int): (r: Option<int>)
    ensures r.Some? ==> (IsPollId(polls, r.value)
                         && polls[r.value - 1].chatId == chatId && polls[r.value - 1].status == Active)
    ensures r.Some? ==> forall i :: 0 <= i < |polls| && polls[i].chatId == chatId && polls[i].status == Active
                           ==> polls[i].createdAt <= polls[r.value - 1].createdAt
    ensures r.None? <==> forall i :: 0 <= i < |polls| ==> !(polls[i].chatId == chatId && polls[i].status == Active)
  {
    if polls == [] then None
    else
      var r := GetActivePollForChat(polls[..|polls| - 1], chatId);
      var last := polls[|polls| - 1];
      if last.chatId == chatId && last.status == Active
         && (r.None? || polls[r.value - 1].createdAt < last.createdAt)
      then Some(|polls|)
      else r
  }

  // ---------------------------------------------------------------------
  // Options
  // ---------------------------------------------------------------------

  /** The option rows `create_poll` adds for the poll `pollId`: one per text,
      with the text's position as its index and no votes. */
  function OptionRows(pollId: int, texts: seq<string>): (r: seq<PollOption>)
    ensures |r| == |texts|
    ensures forall k :: 0 <= k < |texts| ==> r[k] == NewOption(pollId, k, texts[k])
  {
    if texts == [] then []
    else OptionRows(pollId, texts[..|texts| - 1]) + [NewOption(pollId, |texts| - 1, texts[|texts| - 1])]
  }

  /** No two options of one poll share an index. */
  ghost predicate OptionKeysUnique(options: seq<PollOption>) {
    forall i, j :: OptionKeysDiffer(options, i, j)
  }

  /** Rows i < j of the options table have different (poll, index) keys. */
  predicate OptionKeysDiffer(options: seq<PollOption>, i: int, j: int) {
    0 <= i < j < |options| ==>
      options[i].pollId != options[j].pollId || options[i].index != options[j].index
  }

  /** The option lookup of `append_code_line_from_poll`: the option of the
      poll with the given index. */
  function FindOption(options: seq<PollOption>, pollId: int, index: int): (r: Option<PollOption>)
    ensures r.Some? ==> r.value in options && r.value.pollId == pollId && r.value.index == index
    ensures r.None? <==> forall i :: 0 <= i < |options| ==> !(options[i].pollId == pollId && options[i].index == index)
  {
    if options == [] then None
    else
      var r := FindOption(options[..|options| - 1], pollId, index);
      var last := options[|options| - 1];
      if r.Some? then r
      else if last.pollId == pollId && last.index == index then Some(last)
      else None
  }

  /** `get_winner`: an option of the poll with the most votes, or None when
      the poll has no options. Which of several tied options comes back is
      not fixed by the query; this one returns the earliest row. */
  function GetWinner(options: seq<PollOption>, pollId: int): (r: Option<PollOption>)
    ensures r.Some? ==> r.value in options && r.value.pollId == pollId
    ensures r.Some? ==> forall i :: 0 <= i < |options| && options[i].pollId == pollId
                           ==> options[i].votes <= r.value.votes
    ensures r.None? <==> forall i :: 0 <= i < |options| ==> options[i].pollId != pollId
  {
    if options == [] then None
    else
      var r := GetWinner(options[..|options| - 1], pollId);
      var last := options[|options| - 1];
      if last.pollId == pollId && (r.None? || r.value.votes < last.votes) then Some(last)
      else r
  }

  /** An option of `options` is the only row with its (poll, index) key. */
  lemma KeyedOption(options: seq<PollOption>, a: PollOption, b: PollOption)
    requires OptionKeysUnique(options) && a in options && b in options
    requires a.pollId == b.pollId && a.index == b.index
    ensures a == b
  {
    var i :| 0 <= i < |options| && options[i] == a;
    var j :| 0 <= j < |options| && options[j] == b;
    assert OptionKeysDiffer(options, i, j) && OptionKeysDiffer(options, j, i);
  }

  /** Looking the winner up again by its index, as
      `append_code_line_from_poll` does, finds the winner itself. */
  lemma FindWinner(options: seq<PollOption>, pollId: int)
    requires OptionKeysUnique(options) && GetWinner(options, pollId).Some?
    ensures FindOption(options, pollId, GetWinner(options, pollId).value.index) == GetWinner(options, pollId)
  {
    var w := GetWinner(options, pollId).value;
    var found := FindOption(options, pollId, w.index);
    assert found.Some? by {
      var k :| 0 <= k < |options| && options[k] == w;
    }
    KeyedOption(options, found.value, w);
  }

  // ---------------------------------------------------------------------
  // Votes
  // ---------------------------------------------------------------------

  /** A user id as Python's `if user_id:` sees it: neither None nor 0. */
  predicate IsTruthyUser(userId: Option<int>) {
    userId.Some? && userId.value != 0
  }

  /** At most one vote row per (poll, identified user). */
  ghost predicate VoteKeysUnique(votes: seq<PollVote>) {
    forall i, j :: VoteKeysDiffer(votes, i, j)
  }

  /** Rows i < j of the votes table, the first with a user, have different
      (poll, user) keys. */
  predicate VoteKeysDiffer(votes: seq<PollVote>, i: int, j: int) {
    0 <= i < j < |votes| && votes[i].userId.Some? ==>
      votes[i].pollId != votes[j].pollId || votes[i].userId != votes[j].userId
  }

  /** The lookup of `add_or_update_vote`: the position of the user's vote
      row for the poll. */
  function FindVote(votes: seq<PollVote>, pollId: int, userId: int): (r: Option<nat>)
    ensures r.Some? ==> r.value < |votes| && votes[r.value].pollId == pollId && votes[r.value].userId == Some(userId)
    ensures r.Some? ==> forall i :: 0 <= i < r.value ==> !(votes[i].pollId == pollId && votes[i].userId == Some(userId))
    ensures r.None? <==> forall i :: 0 <= i < |votes| ==> !(votes[i].pollId == pollId && votes[i].userId == Some(userId))
  {
    if votes == [] then None
    else
      var r := FindVote(votes[..|votes| - 1], pollId, userId);
      var last := votes[|votes| - 1];
      if r.Some? then r
      else if last.pollId == pollId && last.userId == Some(userId) then Some(|votes| - 1)
      else None
  }

  /** The vote table after `add_or_update_vote` for an identified user: the
      user's row for the poll gets the new index and time, or a row is added. */
  function UpsertVote(votes: seq<PollVote>, pollId: int, userId: int, optionIndex: int, now: Timestamp): (r: seq<PollVote>)
    ensures |r| == |votes| + (if FindVote(votes, pollId, userId).Some? then 0 else 1)
    ensures FindVote(r, pollId, userId).Some?
    ensures r[FindVote(r, pollId, userId).value] == PollVote(pollId, Some(userId), optionIndex, now)
    ensures forall k :: 0 <= k < |votes| && FindVote(votes, pollId, userId) != Some(k) ==> r[k] == votes[k]
  {
    var v := PollVote(pollId, Some(userId), optionIndex, now);
    match FindVote(votes, pollId, userId)
    case Some(i) =>
      FindVoteAfterUpdate(votes, i, v, pollId, userId);
      votes[i := v]
    case None =>
      FindVoteAppendNew(votes, v, pollId, userId);
      votes + [v]
  }

  /** The number of vote rows of the poll for the given option index: what
      `count(id) ... group by option_index` yields for that index. */
  function Tally(votes: seq<PollVote>, pollId: int, index: int): nat {
    if votes == [] then 0
    else
      var last := votes[|votes| - 1];
      Tally(votes[..|votes| - 1], pollId, index) + (if last.pollId == pollId && last.optionIndex == index then 1 else 0)
  }

  /** The number of vote rows of the poll by the given user. */
  function VoterRows(votes: seq<PollVote>, pollId: int, userId: int): nat {
    if votes == [] then 0
    else
      var last := votes[|votes| - 1];
      VoterRows(votes[..|votes| - 1], pollId, userId) + (if last.pollId == pollId && last.userId == Some(userId) then 1 else 0)
  }

  /** The `GROUP BY option_index` count of the poll's vote rows: the indices
      that have votes, each with its number of rows. */
  function GroupCounts(votes: seq<PollVote>, pollId: int): (counts: map<int, nat>)
    ensures forall index :: index in counts ==> counts[index] == Tally(votes, pollId, index) > 0
    ensures forall index :: index !in counts ==> Tally(votes, pollId, index) == 0
  {
    var indices := set v | v in votes && v.pollId == pollId :: v.optionIndex;
    forall index | index !in indices ensures Tally(votes, pollId, index) == 0 {
      TallyZero(votes, pollId, index);
    }
    forall index | index in indices ensures Tally(votes, pollId, index) > 0 {
      var v :| v in votes && v.pollId == pollId && v.optionIndex == index;
      TallyPositive(votes, pollId, v);
    }
    map index | index in indices :: Tally(votes, pollId, index)
  }

  lemma {:induction false} TallyZero(votes: seq<PollVote>, pollId: int, index: int)
    requires forall v :: v in votes ==> !(v.pollId == pollId && v.optionIndex == index)
    ensures Tally(votes, pollId, index) == 0
  {
    if votes != [] {
      TallyZero(votes[..|votes| - 1], pollId, index);
    }
  }

  lemma {:induction false} TallyPositive(votes: seq<PollVote>, pollId: int, v: PollVote)
    requires v in votes && v.pollId == pollId
    ensures Tally(votes, pollId, v.optionIndex) > 0
  {
    var last := votes[|votes| - 1];
    if last != v {
      TallyPositive(votes[..|votes| - 1], pollId, v);
    }
  }

  /** The options table after `recalc_votes_for_poll`: each option of the
      poll gets the number of the poll's votes for its index; every other
      row, and every other column, is as before. */
  function Recount(options: seq<PollOption>, votes: seq<PollVote>, pollId: int): (r: seq<PollOption>)
    ensures |r| == |options|
    ensures forall i :: 0 <= i < |r| && r[i].pollId == pollId ==> r[i].votes == Tally(votes, pollId, r[i].index)
    ensures forall i :: 0 <= i < |r| ==> r[i].(votes := options[i].votes) == options[i]
    ensures forall i :: 0 <= i < |r| && options[i].pollId != pollId ==> r[i] == options[i]
  {
    seq(|options|, i requires 0 <= i < |options| =>
      if options[i].pollId == pollId then options[i].(votes := Tally(votes, pollId, options[i].index)) else options[i])
  }

  lemma TallyAppend(votes: seq<PollVote>, v: PollVote, pollId: int, index: int)
    ensures Tally(votes + [v], pollId, index)
         == Tally(votes, pollId, index) + (if v.pollId == pollId && v.optionIndex == index then 1 else 0)
  {
    assert (votes + [v])[..|votes|] == votes;
  }

  /** Replacing one vote row changes the tally by what the old row counted
      and what the new one counts. */
  lemma {:induction false} TallyUpdate(votes: seq<PollVote>, k: nat, v: PollVote, pollId: int, index: int)
    requires k < |votes|
    ensures Tally(votes[k := v], pollId, index)
              + (if votes[k].pollId == pollId && votes[k].optionIndex == index then 1 else 0)
         == Tally(votes, pollId, index)
              + (if v.pollId == pollId && v.optionIndex == index then 1 else 0)
  {
    var n := |votes|;
    var init := votes[..n - 1];
    if k == n - 1 {
      assert votes[k := v] == init + [v];
      assert votes == init + [votes[n - 1]];
      TallyAppend(init, v, pollId, index);
      TallyAppend(init, votes[n - 1], pollId, index);
    } else {
      TallyUpdate(init, k, v, pollId, index);
      assert votes[k := v] == init[k := v] + [votes[n - 1]];
      assert votes == init + [votes[n - 1]];
      TallyAppend(init[k := v], votes[n - 1], pollId, index);
      TallyAppend(init, votes[n - 1], pollId, index);
    }
  }

  /** Under the uniqueness of vote keys, a user has one row for the poll
      exactly when the lookup finds one. */
  lemma {:induction false} VoterRowsAtMostOne(votes: seq<PollVote>, pollId: int, userId: int)
    requires VoteKeysUnique(votes)
    ensures VoterRows(votes, pollId, userId) == if FindVote(votes, pollId, userId).Some? then 1 else 0
  {
    if votes != [] {
      var init, last := votes[..|votes| - 1], votes[|votes| - 1];
      forall i, j ensures VoteKeysDiffer(init, i, j) {
        assert VoteKeysDiffer(votes, i, j);
      }
      VoterRowsAtMostOne(init, pollId, userId);
      var found := FindVote(init, pollId, userId);
      if found.Some? {
        assert VoteKeysDiffer(votes, found.value, |votes| - 1);
      }
    }
  }

  /** `add_or_update_vote` keeps at most one row per (poll, user). */
  lemma UpsertKeepsKeysUnique(votes: seq<PollVote>, pollId: int, userId: int, optionIndex: int, now: Timestamp)
    requires VoteKeysUnique(votes)
    ensures VoteKeysUnique(UpsertVote(votes, pollId, userId, optionIndex, now))
  {
    var r := UpsertVote(votes, pollId, userId, optionIndex, now);
    match FindVote(votes, pollId, userId)
    case Some(k) =>
      forall i, j ensures VoteKeysDiffer(r, i, j) {
        assert VoteKeysDiffer(votes, i, j);
      }
    case None =>
      forall i, j ensures VoteKeysDiffer(r, i, j) {
        if 0 <= i < j < |r| {
          if j == |votes| {
            assert r[i] == votes[i];
          } else {
            assert VoteKeysDiffer(votes, i, j);
          }
        }
      }
  }

  /** After `add_or_update_vote` the user has exactly one row for the poll,
      and it holds the index just given; the table grows only when the user
      had no row yet. */
  lemma UpsertSingleRow(votes: seq<PollVote>, pollId: int, userId: int, optionIndex: int, now: Timestamp)
    requires VoteKeysUnique(votes)
    ensures var r := UpsertVote(votes, pollId, userId, optionIndex, now);
            && VoterRows(r, pollId, userId) == 1
            && FindVote(r, pollId, userId).Some?
            && r[FindVote(r, pollId, userId).value].optionIndex == optionIndex
            && |r| == |votes| + (if FindVote(votes, pollId, userId).Some? then 0 else 1)
  {
    var r := UpsertVote(votes, pollId, userId, optionIndex, now);
    UpsertKeepsKeysUnique(votes, pollId, userId, optionIndex, now);
    VoterRowsAtMostOne(r, pollId, userId);
    match FindVote(votes, pollId, userId)
    case Some(k) =>
      assert r[k].pollId == pollId && r[k].userId == Some(userId);
    case None =>
      assert r[|votes|].pollId == pollId && r[|votes|].userId == Some(userId);
  }

  lemma FindVoteAppendNew(votes: seq<PollVote>, v: PollVote, pollId: int, userId: int)
    requires FindVote(votes, pollId, userId).None?
    requires v.pollId == pollId && v.userId == Some(userId)
    ensures FindVote(votes + [v], pollId, userId) == Some(|votes|)
  {
    assert (votes + [v])[..|votes|] == votes;
  }

  lemma FindVoteAfterUpdate(votes: seq<PollVote>, k: nat, v: PollVote, pollId: int, userId: int)
    requires FindVote(votes, pollId, userId) == Some(k)
    requires v.pollId == pollId && v.userId == Some(userId)
    ensures FindVote(votes[k := v], pollId, userId) == Some(k)
  {
    assert votes[k := v][k] == v;
  }

  /** A user who votes twice in a poll leaves the table as if only the
      second vote had been cast. */
  lemma UpsertLastWins(votes: seq<PollVote>, pollId: int, userId: int, i1: int, t1: Timestamp, i2: int, t2: Timestamp)
    ensures UpsertVote(UpsertVote(votes, pollId, userId, i1, t1), pollId, userId, i2, t2)
         == UpsertVote(votes, pollId, userId, i2, t2)
  {
    match FindVote(votes, pollId, userId)
    case Some(k) =>
      FindVoteAfterUpdate(votes, k, votes[k].(optionIndex := i1, answeredAt := t1), pollId, userId);
    case None =>
      FindVoteAppendNew(votes, PollVote(pollId, Some(userId), i1, t1), pollId, userId);
  }

  /** The tallies after `add_or_update_vote`: the user's previous choice, if
      any, loses the user's vote and the new choice gains it. */
  lemma UpsertTally(votes: seq<PollVote>, pollId: int, userId: int, optionIndex: int, now: Timestamp, index: int)
    ensures var prev := FindVote(votes, pollId, userId);
            (Tally(UpsertVote(votes, pollId, userId, optionIndex, now), pollId, index)
               + (if prev.Some? && votes[prev.value].optionIndex == index then 1 else 0)
             == Tally(votes, pollId, index) + (if optionIndex == index then 1 else 0))
  {
    match FindVote(votes, pollId, userId)
    case Some(k) =>
      TallyUpdate(votes, k, votes[k].(optionIndex := optionIndex, answeredAt := now), pollId, index);
    case None =>
      TallyAppend(votes, PollVote(pollId, Some(userId), optionIndex, now), pollId, index);
  }

  /** Recounting twice gives what recounting once gave. */
  lemma RecountIdempotent(options: seq<PollOption>, votes: seq<PollVote>, pollId: int)
    ensures Recount(Recount(options, votes, pollId), votes, pollId) == Recount(options, votes, pollId)
  {
  }

  /** A vote for another poll, or for an index no option of the poll has,
      changes nothing in the recount. */
  lemma RecountIgnoresUnmatchedVote(options: seq<PollOption>, votes: seq<PollVote>, v: PollVote, pollId: int)
    requires v.pollId != pollId || forall i :: 0 <= i < |options| && options[i].pollId == pollId ==> options[i].index != v.optionIndex
    ensures Recount(options, votes + [v], pollId) == Recount(options, votes, pollId)
  {
    forall i | 0 <= i < |options| && options[i].pollId == pollId {
      TallyAppend(votes, v, pollId, options[i].index);
    }
  }
  /** A recount changes no key, so the keys stay unique. */
  lemma RecountKeepsKeysUnique(options: seq<PollOption>, votes: seq<PollVote>, pollId: int)
    requires OptionKeysUnique(options)
    ensures OptionKeysUnique(Recount(options, votes, pollId))
  {
    var r := Recount(options, votes, pollId);
    forall i, j ensures OptionKeysDiffer(r, i, j) {
      if 0 <= i < j < |r| {
        assert r[i].(votes := options[i].votes) == options[i];
        assert r[j].(votes := options[j].votes) == options[j];
        assert OptionKeysDiffer(options, i, j);
      }
    }
  }

  /** After a recount the winner is an option of the poll with the most
      votes cast for it, and there is one exactly when the poll has
      options. */
  lemma RecountWinner(options: seq<PollOption>, votes: seq<PollVote>, pollId: int)
    ensures var w := GetWinner(Recount(options, votes, pollId), pollId);
            && (w.None? <==> GetWinner(options, pollId).None?)
            && (w.Some? ==>
                  && w.value.votes == Tally(votes, pollId, w.value.index)
                  && forall i :: 0 <= i < |options| && options[i].pollId == pollId
                       ==> Tally(votes, pollId, options[i].index) <= w.value.votes)
  {
    var r := Recount(options, votes, pollId);
    forall i | 0 <= i < |options| ensures r[i].pollId == options[i].pollId && r[i].index == options[i].index {
      assert r[i].(votes := options[i].votes) == options[i];
    }
  }


  // ---------------------------------------------------------------------
  // Code lines
  // ---------------------------------------------------------------------

  /** The row is one of the chat's lines and its poll has the given history
      version (the join condition of both code queries). */
  predicate InHistory(l: CodeLine, polls: seq<Poll>, chatId: int, version: int) {
    l.chatId == chatId && IsPollId(polls, l.pollId) && polls[l.pollId - 1].historyVersion == version
  }

  /** `code_lines JOIN polls` restricted to the chat and the version, in
      table order. */
  function HistoryLines(lines: seq<CodeLine>, polls: seq<Poll>, chatId: int, version: int): (r: seq<CodeLine>)
    ensures |r| <= |lines|
    ensures forall k :: 0 <= k < |r| ==> r[k] in lines && InHistory(r[k], polls, chatId, version)
  {
    if lines == [] then []
    else
      var last := lines[|lines| - 1];
      HistoryLines(lines[..|lines| - 1], polls, chatId, version) + (if InHistory(last, polls, chatId, version) then [last] else [])
  }

  /** The join keeps exactly the rows of the chat whose poll has the
      version, in table order. */
  lemma {:induction false} HistoryLinesSelected(lines: seq<CodeLine>, polls: seq<Poll>, chatId: int, version: int)
    ensures var r := HistoryLines(lines, polls, chatId, version);
            && |r| <= |lines|
            && (forall k :: 0 <= k < |r| ==> r[k] in lines && InHistory(r[k], polls, chatId, version))
            && (forall l :: l in lines && InHistory(l, polls, chatId, version) ==> l in r)
  {
    if lines != [] {
      HistoryLinesSelected(lines[..|lines| - 1], polls, chatId, version);
      assert lines == lines[..|lines| - 1] + [lines[|lines| - 1]];
    }
  }

  /** SQL `max(line_number)`: None over no rows. */
  function MaxLineNumber(ls: seq<CodeLine>): (r: Option<int>)
    ensures r.None? <==> ls == []
    ensures r.Some? ==> forall k :: 0 <= k < |ls| ==> ls[k].lineNumber <= r.value
    ensures r.Some? ==> exists k :: 0 <= k < |ls| && ls[k].lineNumber == r.value
  {
    if ls == [] then None
    else
      var last := ls[|ls| - 1];
      match MaxLineNumber(ls[..|ls| - 1])
      case None => Some(last.lineNumber)
      case Some(m) => Some(if m < last.lineNumber then last.lineNumber else m)
  }

  /** The `line_number` that `append_code_line_from_poll` gives a new line. */
  function NextLineNumber(lines: seq<CodeLine>, polls: seq<Poll>, chatId: int, version: int): (n: int)
    ensures HistoryLines(lines, polls, chatId, version) == [] ==> n == 1
    ensures forall k :: 0 <= k < |HistoryLines(lines, polls, chatId, version)| ==>
              HistoryLines(lines, polls, chatId, version)[k].lineNumber < n
  {
    match MaxLineNumber(HistoryLines(lines, polls, chatId, version))
    case None => 1
    case Some(m) => m + 1
  }

  /** The next line number is one more than the largest among the chat's
      lines of `version`, or 1 when there are none. */
  lemma NextLineNumberIsNext(lines: seq<CodeLine>, polls: seq<Poll>, chatId: int, version: int)
    ensures var h := HistoryLines(lines, polls, chatId, version);
            var n := NextLineNumber(lines, polls, chatId, version);
            && (forall l :: l in h ==> l.lineNumber < n)
            && (h == [] ==> n == 1)
            && (h != [] ==> exists l :: l in h && l.lineNumber == n - 1)
  {
    var h := HistoryLines(lines, polls, chatId, version);
    assert forall l :: l in h ==> exists k :: 0 <= k < |h| && h[k] == l;
  }

  function LineNumberOf(l: CodeLine): int {
    l.lineNumber
  }

  /** The rows with `is_final` set. */
  function FinalLines(ls: seq<CodeLine>): (r: seq<CodeLine>)
    ensures |r| <= |ls|
    ensures forall k :: 0 <= k < |r| ==> r[k] in ls && r[k].isFinal
    ensures forall k :: 0 <= k < |ls| && ls[k].isFinal ==> ls[k] in r
  {
    if ls == [] then []
    else FinalLines(ls[..|ls| - 1]) + (if ls[|ls| - 1].isFinal then [ls[|ls| - 1]] else [])
  }

  /** The rows `get_current_code` selects, in its `ORDER BY line_number`. */
  function CurrentLines(lines: seq<CodeLine>, polls: seq<Poll>, chatId: int, version: int): seq<CodeLine> {
    Sorting.SortBy(FinalLines(HistoryLines(lines, polls, chatId, version)), LineNumberOf)
  }

  function Texts(ls: seq<CodeLine>): (r: seq<string>)
    ensures |r| == |ls| && forall k :: 0 <= k < |ls| ==> r[k] == ls[k].codeLine
  {
    seq(|ls|, k requires 0 <= k < |ls| => ls[k].codeLine)
  }

  /** `get_current_code`: the texts of the chat's final lines of `version`. */
  function GetCurrentCode(lines: seq<CodeLine>, polls: seq<Poll>, chatId: int, version: int): (r: seq<string>)
    ensures |r| <= |lines|
    ensures forall k :: 0 <= k < |r| ==>
              exists l :: l in lines && l.isFinal && InHistory(l, polls, chatId, version) && l.codeLine == r[k]
  {
    CurrentLinesSelected(lines, polls, chatId, version);
    Texts(CurrentLines(lines, polls, chatId, version))
  }

  /** What `get_current_code` returns: exactly the chat's final lines of the
      version, each once, in ascending line number. */
  lemma CurrentLinesSelected(lines: seq<CodeLine>, polls: seq<Poll>, chatId: int, version: int)
    ensures var r := CurrentLines(lines, polls, chatId, version);
            && Sorting.SortedBy(r, LineNumberOf)
            && multiset(r) == multiset(FinalLines(HistoryLines(lines, polls, chatId, version)))
            && forall k :: 0 <= k < |r| ==> r[k] in lines && r[k].isFinal && InHistory(r[k], polls, chatId, version)
  {
    var f := FinalLines(HistoryLines(lines, polls, chatId, version));
    var r := CurrentLines(lines, polls, chatId, version);
    HistoryLinesSelected(lines, polls, chatId, version);
    Sorting.SortBySorted(f, LineNumberOf);
    forall k | 0 <= k < |r|
      ensures r[k] in lines && r[k].isFinal && InHistory(r[k], polls, chatId, version)
    {
      assert r[k] in multiset(r);
      assert r[k] in multiset(f);
      var j :| 0 <= j < |f| && f[j] == r[k];
      var h := HistoryLines(lines, polls, chatId, version);
      assert f[j] in h;
      var i :| 0 <= i < |h| && h[i] == f[j];
    }
  }

  /** The lines of a version are numbered 1, 2, ... in the order they were
      appended. */
  predicate Numbered(ls: seq<CodeLine>) {
    forall k :: 0 <= k < |ls| ==> ls[k].lineNumber == k + 1
  }

  /** A line points at an existing poll of its own chat and is final. */
  predicate LineOfItsPoll(l: CodeLine, polls: seq<Poll>) {
    IsPollId(polls, l.pollId) && l.chatId == polls[l.pollId - 1].chatId && l.isFinal
  }

  /** The condition the DataManager's transactions keep on chats, polls and
      code lines:
      - every poll belongs to a stored chat and its version is at most the
        chat's current version (a poll is stamped with the version at its
        creation, and versions only grow);
      - every line comes from an existing poll of the same chat;
      - in every chat, the lines of the current version are numbered
        1, 2, ... in the order they were appended. */
  ghost predicate HistoryConsistent(chats: map<int, Chat>, polls: seq<Poll>, lines: seq<CodeLine>) {
    && (forall i :: PollOfKnownVersion(chats, polls, i))
    && (forall i :: LineAt(lines, polls, i))
    && (forall c :: CurrentNumbered(chats, polls, lines, c))
  }

  /** The chat stored under key `c` (if any) has id `c`. */
  predicate ChatKeyed(chats: map<int, Chat>, c: int) {
    c in chats ==> chats[c].id == c
  }

  /** Storing a chat under its own id keeps the chats keyed by id. */
  lemma StoreKeepsKeyed(chats: map<int, Chat>, chat: Chat, chats': map<int, Chat>)
    requires forall c :: ChatKeyed(chats, c)
    requires chats' == chats[chat.id := chat]
    ensures forall c :: ChatKeyed(chats', c)
  {
    forall c ensures ChatKeyed(chats', c) {
      assert ChatKeyed(chats, c);
    }
  }

  /** Options keep pointing at stored polls when polls are only added, the
      existing options keep their poll and the new ones belong to stored
      polls. */
  lemma OptionsFollowPolls(polls: seq<Poll>, options: seq<PollOption>, polls': seq<Poll>, options': seq<PollOption>)
    requires forall i :: OptionOfStoredPoll(polls, options, i)
    requires |polls| <= |polls'| && |options| <= |options'|
    requires forall i :: 0 <= i < |options| ==> options'[i].pollId == options[i].pollId
    requires forall i :: |options| <= i < |options'| ==> IsPollId(polls', options'[i].pollId)
    ensures forall i :: OptionOfStoredPoll(polls', options', i)
  {
    forall i ensures OptionOfStoredPoll(polls', options', i) {
      assert OptionOfStoredPoll(polls, options, i);
    }
  }

  /** Row `i` of the options (if there is one) belongs to a stored poll. */
  predicate OptionOfStoredPoll(polls: seq<Poll>, options: seq<PollOption>, i: int) {
    0 <= i < |options| ==> IsPollId(polls, options[i].pollId)
  }

  /** Row `i` of the polls (if there is one) belongs to a stored chat and
      carries a version the chat has reached. */
  predicate PollOfKnownVersion(chats: map<int, Chat>, polls: seq<Poll>, i: int) {
    0 <= i < |polls| ==>
      polls[i].chatId in chats && polls[i].historyVersion <= chats[polls[i].chatId].historyVersion
  }

  /** Row `i` of the code lines (if there is one) comes from a poll of its chat. */
  predicate LineAt(lines: seq<CodeLine>, polls: seq<Poll>, i: int) {
    0 <= i < |lines| ==> LineOfItsPoll(lines[i], polls)
  }

  /** The lines of chat `c`'s current version are numbered 1, 2, ... */
  predicate CurrentNumbered(chats: map<int, Chat>, polls: seq<Poll>, lines: seq<CodeLine>, c: int) {
    c in chats ==> Numbered(HistoryLines(lines, polls, c, chats[c].historyVersion))
  }

  /** Two polls tables that agree on every poll's chat and version. */
  predicate SameHistory(polls: seq<Poll>, polls': seq<Poll>) {
    |polls| == |polls'|
    && forall i :: 0 <= i < |polls| ==>
         polls[i].chatId == polls'[i].chatId && polls[i].historyVersion == polls'[i].historyVersion
  }

  lemma HistoryLinesAppend(lines: seq<CodeLine>, l: CodeLine, polls: seq<Poll>, chatId: int, version: int)
    ensures HistoryLines(lines + [l], polls, chatId, version)
         == HistoryLines(lines, polls, chatId, version) + (if InHistory(l, polls, chatId, version) then [l] else [])
  {
    assert (lines + [l])[..|lines|] == lines;
  }

  lemma {:induction false} HistoryLinesSameHistory(lines: seq<CodeLine>, polls: seq<Poll>, polls': seq<Poll>, chatId: int, version: int)
    requires SameHistory(polls, polls')
    ensures HistoryLines(lines, polls, chatId, version) == HistoryLines(lines, polls', chatId, version)
  {
    if lines != [] {
      HistoryLinesSameHistory(lines[..|lines| - 1], polls, polls', chatId, version);
    }
  }

  lemma {:induction false} HistoryLinesNewPoll(lines: seq<CodeLine>, polls: seq<Poll>, p: Poll, chatId: int, version: int)
    requires forall i :: 0 <= i < |lines| ==> lines[i].pollId <= |polls|
    ensures HistoryLines(lines, polls + [p], chatId, version) == HistoryLines(lines, polls, chatId, version)
  {
    if lines != [] {
      HistoryLinesNewPoll(lines[..|lines| - 1], polls, p, chatId, version);
      var last := lines[|lines| - 1];
      if IsPollId(polls, last.pollId) {
        assert (polls + [p])[last.pollId - 1] == polls[last.pollId - 1];
      }
    }
  }

  lemma {:induction false} HistoryLinesNone(lines: seq<CodeLine>, polls: seq<Poll>, chatId: int, version: int)
    requires forall i :: 0 <= i < |lines| ==> !InHistory(lines[i], polls, chatId, version)
    ensures HistoryLines(lines, polls, chatId, version) == []
  {
    if lines != [] {
      HistoryLinesNone(lines[..|lines| - 1], polls, chatId, version);
    }
  }

  lemma {:induction false} MaxOfNumbered(ls: seq<CodeLine>)
    requires Numbered(ls)
    ensures MaxLineNumber(ls) == if ls == [] then None else Some(|ls|)
  {
    if ls != [] {
      MaxOfNumbered(ls[..|ls| - 1]);
    }
  }

  lemma {:induction false} FinalLinesAllFinal(ls: seq<CodeLine>)
    requires forall k :: 0 <= k < |ls| ==> ls[k].isFinal
    ensures FinalLines(ls) == ls
  {
    if ls != [] {
      var init, last := ls[..|ls| - 1], ls[|ls| - 1];
      assert forall k :: 0 <= k < |init| ==> init[k] == ls[k];
      FinalLinesAllFinal(init);
      assert last.isFinal && ls == init + [last];
    }
  }

  /** Where the history is consistent, `get_current_code` gives the texts of
      the chat's current lines in the order they were appended. */
  lemma CurrentCodeInAppendOrder(chats: map<int, Chat>, polls: seq<Poll>, lines: seq<CodeLine>, chatId: int)
    requires HistoryConsistent(chats, polls, lines) && chatId in chats
    ensures var h := HistoryLines(lines, polls, chatId, chats[chatId].historyVersion);
            && Numbered(h)
            && GetCurrentCode(lines, polls, chatId, chats[chatId].historyVersion) == Texts(h)
  {
    var h := HistoryLines(lines, polls, chatId, chats[chatId].historyVersion);
    assert CurrentNumbered(chats, polls, lines, chatId);
    HistoryLinesSelected(lines, polls, chatId, chats[chatId].historyVersion);
    forall k | 0 <= k < |h| ensures h[k].isFinal {
      var i :| 0 <= i < |lines| && lines[i] == h[k];
      assert LineAt(lines, polls, i);
    }
    FinalLinesAllFinal(h);
    Sorting.SortBySortedIsIdentity(h, LineNumberOf);
  }

  /** A new chat (version 1) has no lines yet. */
  lemma NewChatKeepsHistory(chats: map<int, Chat>, polls: seq<Poll>, lines: seq<CodeLine>, chatId: int)
    requires HistoryConsistent(chats, polls, lines) && chatId !in chats
    ensures HistoryConsistent(chats[chatId := NewChat(chatId)], polls, lines)
  {
    var chats' := chats[chatId := NewChat(chatId)];
    forall i | 0 <= i < |lines| ensures !InHistory(lines[i], polls, chatId, 1) {
      assert LineAt(lines, polls, i);
      assert PollOfKnownVersion(chats, polls, lines[i].pollId - 1);
    }
    HistoryLinesNone(lines, polls, chatId, 1);
    forall c ensures CurrentNumbered(chats', polls, lines, c) {
      if c != chatId {
        assert CurrentNumbered(chats, polls, lines, c);
      }
    }
    forall i ensures PollOfKnownVersion(chats', polls, i) {
      assert PollOfKnownVersion(chats, polls, i);
    }
  }

  /** `reset_history` moves the chat to a version no poll has yet, so the new
      version starts with no lines, and the consistency of the history is
      kept. Other columns of the chat row may be changed along with it. */
  lemma ResetKeepsHistory(chats: map<int, Chat>, polls: seq<Poll>, lines: seq<CodeLine>, chatId: int, reset: Chat)
    requires HistoryConsistent(chats, polls, lines) && chatId in chats
    requires reset.historyVersion == chats[chatId].historyVersion + 1
    ensures HistoryLines(lines, polls, chatId, reset.historyVersion) == []
    ensures HistoryConsistent(chats[chatId := reset], polls, lines)
  {
    var chats' := chats[chatId := reset];
    forall i | 0 <= i < |lines| ensures !InHistory(lines[i], polls, chatId, reset.historyVersion) {
      assert LineAt(lines, polls, i);
      assert PollOfKnownVersion(chats, polls, lines[i].pollId - 1);
    }
    HistoryLinesNone(lines, polls, chatId, reset.historyVersion);
    forall c ensures CurrentNumbered(chats', polls, lines, c) {
      if c != chatId {
        assert CurrentNumbered(chats, polls, lines, c);
      }
    }
    forall i ensures PollOfKnownVersion(chats', polls, i) {
      assert PollOfKnownVersion(chats, polls, i);
    }
  }

  /** Changing a poll's status or closing time keeps the history consistent. */
  lemma SameHistoryKeepsHistory(chats: map<int, Chat>, polls: seq<Poll>, polls': seq<Poll>, lines: seq<CodeLine>)
    requires HistoryConsistent(chats, polls, lines) && SameHistory(polls, polls')
    ensures HistoryConsistent(chats, polls', lines)
  {
    forall c | c in chats ensures CurrentNumbered(chats, polls', lines, c) {
      assert CurrentNumbered(chats, polls, lines, c);
      HistoryLinesSameHistory(lines, polls, polls', c, chats[c].historyVersion);
    }
    forall i ensures LineAt(lines, polls', i) {
      assert LineAt(lines, polls, i);
    }
    forall i ensures PollOfKnownVersion(chats, polls', i) {
      assert PollOfKnownVersion(chats, polls, i);
    }
  }

  /** `create_poll` stamps the poll with the chat's current version and
      points the chat at it; the history stays consistent. */
  lemma CreatePollKeepsHistory(chats: map<int, Chat>, polls: seq<Poll>, lines: seq<CodeLine>, p: Poll, lastPollId: Option<int>)
    requires HistoryConsistent(chats, polls, lines)
    requires p.chatId in chats && p.historyVersion == chats[p.chatId].historyVersion
    ensures HistoryConsistent(chats[p.chatId := chats[p.chatId].(lastPollId := lastPollId)], polls + [p], lines)
  {
    var chats' := chats[p.chatId := chats[p.chatId].(lastPollId := lastPollId)];
    var polls' := polls + [p];
    forall i | 0 <= i < |lines| ensures lines[i].pollId <= |polls| {
      assert LineAt(lines, polls, i);
    }
    forall i ensures LineAt(lines, polls', i) {
      assert LineAt(lines, polls, i);
      if 0 <= i < |lines| {
        assert polls'[lines[i].pollId - 1] == polls[lines[i].pollId - 1];
      }
    }
    forall c | c in chats' ensures CurrentNumbered(chats', polls', lines, c) {
      assert CurrentNumbered(chats, polls, lines, c);
      HistoryLinesNewPoll(lines, polls, p, c, chats'[c].historyVersion);
      assert chats'[c].historyVersion == chats[c].historyVersion;
    }
    forall i ensures PollOfKnownVersion(chats', polls', i) {
      assert PollOfKnownVersion(chats, polls, i);
      if 0 <= i < |polls| {
        assert polls'[i] == polls[i];
      }
    }
  }

  /** `append_code_line_from_poll` as the DataManager calls it (for the
      poll's own chat) keeps the history consistent. When the poll belongs
      to the chat's current version the new line is the next one of that
      version; a poll of an older version leaves the current lines as they
      were. */
  lemma AppendKeepsHistory(chats: map<int, Chat>, polls: seq<Poll>, lines: seq<CodeLine>, pollId: int, text: string)
    requires HistoryConsistent(chats, polls, lines) && IsPollId(polls, pollId) && polls[pollId - 1].chatId in chats
    ensures var c := polls[pollId - 1].chatId;
            var cur := chats[c].historyVersion;
            var line := CodeLine(c, pollId, NextLineNumber(lines, polls, c, cur), text, true);
            && HistoryConsistent(chats, polls, lines + [line])
            && (polls[pollId - 1].historyVersion == cur ==>
                  && line.lineNumber == |HistoryLines(lines, polls, c, cur)| + 1
                  && HistoryLines(lines + [line], polls, c, cur) == HistoryLines(lines, polls, c, cur) + [line])
            && (polls[pollId - 1].historyVersion != cur ==>
                  HistoryLines(lines + [line], polls, c, cur) == HistoryLines(lines, polls, c, cur))
  {
    var c := polls[pollId - 1].chatId;
    var cur := chats[c].historyVersion;
    var line := CodeLine(c, pollId, NextLineNumber(lines, polls, c, cur), text, true);
    assert CurrentNumbered(chats, polls, lines, c);
    NextLineOfNumbered(lines, polls, c, cur);
    AppendKeepsNumbering(chats, polls, lines, line);
    HistoryLinesAppend(lines, line, polls, c, cur);
    assert InHistory(line, polls, c, cur) <==> polls[pollId - 1].historyVersion == cur;
  }

  /** The line `append_code_line_from_poll` adds keeps the history
      consistent. */
  lemma AppendLineKeepsHistory(chats: map<int, Chat>, polls: seq<Poll>, lines: seq<CodeLine>, line: CodeLine)
    requires HistoryConsistent(chats, polls, lines) && LineOfItsPoll(line, polls) && line.chatId in chats
    requires line.lineNumber == NextLineNumber(lines, polls, line.chatId, chats[line.chatId].historyVersion)
    ensures HistoryConsistent(chats, polls, lines + [line])
  {
    assert CurrentNumbered(chats, polls, lines, line.chatId);
    NextLineOfNumbered(lines, polls, line.chatId, chats[line.chatId].historyVersion);
    AppendKeepsNumbering(chats, polls, lines, line);
  }

  /** In a numbered version the next line number is one past the count. */
  lemma NextLineOfNumbered(lines: seq<CodeLine>, polls: seq<Poll>, chatId: int, version: int)
    requires Numbered(HistoryLines(lines, polls, chatId, version))
    ensures NextLineNumber(lines, polls, chatId, version) == |HistoryLines(lines, polls, chatId, version)| + 1
  {
    MaxOfNumbered(HistoryLines(lines, polls, chatId, version));
  }

  lemma AppendKeepsNumbering(chats: map<int, Chat>, polls: seq<Poll>, lines: seq<CodeLine>, line: CodeLine)
    requires HistoryConsistent(chats, polls, lines) && LineOfItsPoll(line, polls)
    requires line.chatId in chats
    requires line.lineNumber == |HistoryLines(lines, polls, line.chatId, chats[line.chatId].historyVersion)| + 1
    ensures HistoryConsistent(chats, polls, lines + [line])
  {
    var lines' := lines + [line];
    forall d | d in chats ensures CurrentNumbered(chats, polls, lines', d) {
      assert CurrentNumbered(chats, polls, lines, d);
      HistoryLinesAppend(lines, line, polls, d, chats[d].historyVersion);
    }
    forall i ensures LineAt(lines', polls, i) {
      assert LineAt(lines, polls, i);
      if 0 <= i < |lines| {
        assert lines'[i] == lines[i];
      }
    }
  }

  /** A line is numbered from the chat's current version even when its poll
      belongs to an older one: a poll of version 1 that is resolved after the
      chat moved to version 2 gets line number 1 again, next to the line 1
      that version 1 already has. */
  lemma LateAppendReusesLineNumber()
    ensures var polls := [Poll(7, "p1", 1, Closed, 0, Some(1), None, 1), Poll(7, "p2", 2, Rejected, 2, None, None, 1)];
            var lines := [CodeLine(7, 1, 1, "a = 1", true)];
            var n := NextLineNumber(lines, polls, 7, 2);
            var lines' := lines + [CodeLine(7, 2, n, "b = 2", true)];
            && n == 1
            && |HistoryLines(lines', polls, 7, 1)| == 2
            && HistoryLines(lines', polls, 7, 1)[0].lineNumber == HistoryLines(lines', polls, 7, 1)[1].lineNumber
  {
    var polls := [Poll(7, "p1", 1, Closed, 0, Some(1), None, 1), Poll(7, "p2", 2, Rejected, 2, None, None, 1)];
    var lines := [CodeLine(7, 1, 1, "a = 1", true)];
    HistoryLinesNone(lines, polls, 7, 2);
    var lines' := lines + [CodeLine(7, 2, 1, "b = 2", true)];
    HistoryLinesAppend(lines, CodeLine(7, 2, 1, "b = 2", true), polls, 7, 1);
    HistoryLinesAppend([], lines[0], polls, 7, 1);
    assert [] + [lines[0]] == lines;
  }

  /** The rows that `delete_all_code_for_chat` leaves: every line of the
      other chats, in order. */
  function LinesWithoutChat(lines: seq<CodeLine>, chatId: int): (r: seq<CodeLine>)
    ensures forall k :: 0 <= k < |r| ==> r[k] in lines && r[k].chatId != chatId
    ensures forall k :: 0 <= k < |lines| && lines[k].chatId != chatId ==> lines[k] in r
  {
    if lines == [] then []
    else
      var last := lines[|lines| - 1];
      LinesWithoutChat(lines[..|lines| - 1], chatId) + (if last.chatId != chatId then [last] else [])
  }

  /** Deleting a chat's lines empties every version of that chat and leaves
      the other chats' histories as they were. */
  lemma {:induction false} HistoryLinesWithoutChat(lines: seq<CodeLine>, polls: seq<Poll>, chatId: int, c: int, version: int)
    ensures HistoryLines(LinesWithoutChat(lines, chatId), polls, c, version)
         == if c == chatId then [] else HistoryLines(lines, polls, c, version)
  {
    if lines != [] {
      var init, last := lines[..|lines| - 1], lines[|lines| - 1];
      var kept := LinesWithoutChat(init, chatId);
      assert lines == init + [last];
      HistoryLinesWithoutChat(init, polls, chatId, c, version);
      HistoryLinesAppend(init, last, polls, c, version);
      if last.chatId != chatId {
        assert LinesWithoutChat(lines, chatId) == kept + [last];
        HistoryLinesAppend(kept, last, polls, c, version);
      } else {
        assert LinesWithoutChat(lines, chatId) == kept;
        assert c != chatId ==> !InHistory(last, polls, c, version);
      }
    }
  }

  /** `delete_all_code_for_chat` keeps the history consistent. */
  lemma DeleteKeepsHistory(chats: map<int, Chat>, polls: seq<Poll>, lines: seq<CodeLine>, chatId: int)
    requires HistoryConsistent(chats, polls, lines)
    ensures HistoryConsistent(chats, polls, LinesWithoutChat(lines, chatId))
  {
    var lines' := LinesWithoutChat(lines, chatId);
    forall c | c in chats ensures CurrentNumbered(chats, polls, lines', c) {
      assert CurrentNumbered(chats, polls, lines, c);
      HistoryLinesWithoutChat(lines, polls, chatId, c, chats[c].historyVersion);
    }
    forall i | 0 <= i < |lines'| ensures LineAt(lines', polls, i) {
      var j :| 0 <= j < |lines| && lines[j] == lines'[i];
      assert LineAt(lines, polls, j);
    }
  }

  /** `set_last_poll` changes no chat's key or version, so the history stays
      consistent. */
  lemma LastPollKeepsHistory(chats: map<int, Chat>, polls: seq<Poll>, lines: seq<CodeLine>, chatId: int, lastPollId: Option<int>)
    requires HistoryConsistent(chats, polls, lines) && chatId in chats
    ensures HistoryConsistent(chats[chatId := chats[chatId].(lastPollId := lastPollId)], polls, lines)
  {
    var chats' := chats[chatId := chats[chatId].(lastPollId := lastPollId)];
    forall c ensures CurrentNumbered(chats', polls, lines, c) {
      assert CurrentNumbered(chats, polls, lines, c);
    }
    forall i ensures PollOfKnownVersion(chats', polls, i) {
      assert PollOfKnownVersion(chats, polls, i);
    }
  }

  // ---------------------------------------------------------------------
  // Completed snapshots and logs
  // ---------------------------------------------------------------------

  /** `get_last_completed_for_chat`: the chat's most recent snapshot, of any
      version. */
  function GetLastCompletedForChat(completed: seq<CompletedCode>, chatId: int): (r: Option<CompletedCode>)
    ensures r.Some? ==> r.value in completed && r.value.chatId == chatId
    ensures r.Some? ==> forall i :: 0 <= i < |completed| && completed[i].chatId == chatId
                           ==> completed[i].createdAt <= r.value.createdAt
    ensures r.None? <==> forall i :: 0 <= i < |completed| ==> completed[i].chatId != chatId
  {
    if completed == [] then None
    else
      var r := GetLastCompletedForChat(completed[..|completed| - 1], chatId);
      var last := completed[|completed| - 1];
      if last.chatId == chatId && (r.None? || r.value.createdAt < last.createdAt) then Some(last)
      else r
  }

  /** `get_last_logs`: the newest `limit` log rows, oldest first. A negative
      limit is no limit to the SQLite backend the bot runs on. */
  function GetLastLogs(logs: seq<LogEntry>, limit: int): (r: seq<LogEntry>)
    ensures |r| == if 0 <= limit < |logs| then limit else |logs|
    ensures forall k :: 0 <= k < |r| ==> r[k] == logs[|logs| - |r| + k]
  {
    if 0 <= limit < |logs| then logs[|logs| - limit..] else logs
  }
}
