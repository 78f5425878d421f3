/** The database and the mutating methods of its repositories
    (`ChatsRepository`, `PollsRepository`, `CodeRepository`,
    `CompletedCodeRepository`, `SchedulerRepository`, `LogsRepository`).
    The read-only queries are the functions of module Tables, applied to the
    fields of a `Database`. */
module Repositories {
  import opened Wrappers
  import opened Models
  import opened Tables

  /** The contents of every table; what a rolled-back unit of work returns to. */
  datatype Snapshot = Snapshot(
    chats: map<int, Chat>,
    polls: seq<Poll>,
    options: seq<PollOption>,
    votes: seq<PollVote>,
    codeLines: seq<CodeLine>,
    completed: seq<CompletedCode>,
    scheduler: Option<SchedulerState>,
    logs: seq<LogEntry>)

  class Database {
    var chats: map<int, Chat>
    var polls: seq<Poll>
    var options: seq<PollOption>
    var votes: seq<PollVote>
    var codeLines: seq<CodeLine>
    var completed: seq<CompletedCode>
    var scheduler: Option<SchedulerState>
    var logs: seq<LogEntry>
    /** The abstract clock that stands for `datetime.now()`. */
    var clock: Timestamp

    /** What the repositories keep true of the tables: chats keyed by their
        id, options of stored polls, one option per (poll, index) as
        `create_poll` writes them and one vote per (poll, identified user) as
        `add_or_update_vote` upserts them. The schema itself declares none of
        these keys. That polls belong to stored chats is part of
        Tables.HistoryConsistent. */
    ghost predicate Valid()
      reads this
    {
      && (forall c :: ChatKeyed(chats, c))
      && (forall i :: OptionOfStoredPoll(polls, options, i))
      && OptionKeysUnique(options)
      && VoteKeysUnique(votes)
    }

    /** Valid, and the code history is consistent (see Tables.HistoryConsistent). */
    ghost predicate Consistent()
      reads this
    {
      Valid() && HistoryConsistent(chats, polls, codeLines)
    }

    constructor ()
      ensures Consistent()
      ensures chats == map[] && polls == [] && options == [] && votes == []
      ensures codeLines == [] && completed == [] && scheduler == None && logs == []
    {
      chats, polls, options, votes := map[], [], [], [];
      codeLines, completed, scheduler, logs := [], [], None, [];
      clock := 0;
    }

    function Snap(): Snapshot
      reads this
    {
      Snapshot(chats, polls, options, votes, codeLines, completed, scheduler, logs)
    }

    /** The rollback of a unit of work: every table is as in `s`. Time is
        not rolled back. */
    method Rollback(s: Snapshot)
      modifies this`chats, this`polls, this`options, this`votes
      modifies this`codeLines, this`completed, this`scheduler, this`logs
      ensures Snap() == s
    {
      chats, polls, options, votes := s.chats, s.polls, s.options, s.votes;
      codeLines, completed, scheduler, logs := s.codeLines, s.completed, s.scheduler, s.logs;
    }

    /** `datetime.now()`: a time later than every earlier one. */
    method Now() returns (t: Timestamp)
      modifies this`clock
      ensures t == old(clock) && clock == old(clock) + 1
    {
      t := clock;
      clock := clock + 1;
    }

    // ----- ChatsRepository -----

    /** `get_chat`: the chat row with the id, if there is one. */
    function GetChat(chatId: int): (r: Option<Chat>)
      reads this
      ensures r.Some? <==> chatId in chats
      ensures r.Some? ==> r.value == chats[chatId]
    {
      if chatId in chats then Some(chats[chatId]) else None
    }

    /** `get_or_create_chat`: the stored chat, or a new one with the column
        defaults. */
    method GetOrCreateChat(chatId: int) returns (chat: Chat)
      requires Consistent()
      modifies this`chats
      ensures Consistent() && chatId in chats && chat == chats[chatId]
      ensures chatId in old(chats) ==> chats == old(chats)
      ensures chatId !in old(chats) ==> chats == old(chats)[chatId := NewChat(chatId)]
    {
      if chatId in chats {
        chat := chats[chatId];
      } else {
        NewChatKeepsHistory(chats, polls, codeLines, chatId);
        chat := NewChat(chatId);
        StoreKeepsKeyed(chats, chat, chats[chatId := chat]);
        chats := chats[chatId := chat];
      }
    }

    /** `reset_history`: the chat (created if absent) moves to the next
        history version and forgets its last poll. No poll, option, vote or
        line is touched. */
    method ResetHistory(chatId: int) returns (chat: Chat)
      requires Consistent()
      modifies this`chats
      ensures Consistent()
      ensures chat == ResetChat(ChatOrNew(old(chats), chatId)) && chats == old(chats)[chatId := chat]
      ensures HistoryLines(codeLines, polls, chatId, chat.historyVersion) == []
    {
      var c := GetOrCreateChat(chatId);
      chat := ResetChat(c);
      assert ChatKeyed(chats, chatId);
      StoreKeepsKeyed(chats, chat, chats[chatId := chat]);
      ResetKeepsHistory(chats, polls, codeLines, chatId, chat);
      chats := chats[chatId := chat];
    }

    /** `set_last_poll`: an UPDATE, so a missing chat is left missing. */
    method SetLastPoll(chatId: int, pollId: Option<int>)
      requires Consistent()
      modifies this`chats
      ensures Consistent()
      ensures chats == if chatId in old(chats) then old(chats)[chatId := old(chats)[chatId].(lastPollId := pollId)] else old(chats)
    {
      if chatId in chats {
        assert ChatKeyed(chats, chatId);
        StoreKeepsKeyed(chats, chats[chatId].(lastPollId := pollId), chats[chatId := chats[chatId].(lastPollId := pollId)]);
        LastPollKeepsHistory(chats, polls, codeLines, chatId, pollId);
        chats := chats[chatId := chats[chatId].(lastPollId := pollId)];
      }
    }

    // ----- PollsRepository -----

    /** `create_poll`: a new active poll stamped with the chat's history
        version, one option per text numbered 0..n-1 with no votes, and the
        chat now points at the new poll. */
    method CreatePoll(chatId: int, texts: seq<string>, tgPollId: string, tgMessageId: int, timeoutAt: Option<int>)
      returns (pollId: int)
      requires Consistent() && chatId in chats
      modifies this`polls, this`options, this`chats, this`clock
      ensures Consistent()
      ensures pollId == |old(polls)| + 1
      ensures polls == old(polls) + [Poll(chatId, tgPollId, tgMessageId, Active, old(clock), None, timeoutAt,
                                          old(chats)[chatId].historyVersion)]
      ensures options == old(options) + OptionRows(pollId, texts)
      ensures chats == old(chats)[chatId := old(chats)[chatId].(lastPollId := Some(pollId))]
      ensures clock == old(clock) + 1
    {
      var chat := chats[chatId];
      var now := Now();
      polls := polls + [Poll(chatId, tgPollId, tgMessageId, Active, now, None, timeoutAt, chat.historyVersion)];
      pollId := |polls|;
      var idx := 0;
      while idx < |texts|
        invariant 0 <= idx <= |texts|
        invariant options == old(options) + OptionRows(pollId, texts[..idx])
        invariant polls == old(polls) + [Poll(chatId, tgPollId, tgMessageId, Active, now, None, timeoutAt, chat.historyVersion)]
        invariant chats == old(chats) && clock == old(clock) + 1 && pollId == |polls|
      {
        assert texts[..idx + 1][..idx] == texts[..idx];
        options := options + [NewOption(pollId, idx, texts[idx])];
        idx := idx + 1;
      }
      assert texts[..idx] == texts;
      CreatePollKeepsHistory(old(chats), old(polls), codeLines, polls[pollId - 1], Some(pollId));
      assert ChatKeyed(chats, chatId);
      StoreKeepsKeyed(chats, chat.(lastPollId := Some(pollId)), chats[chatId := chat.(lastPollId := Some(pollId))]);
      chats := chats[chatId := chat.(lastPollId := Some(pollId))];
      OptionsFollowPolls(old(polls), old(options), polls, options);
      forall i, j ensures OptionKeysDiffer(options, i, j) {
        if 0 <= i < j < |old(options)| {
          assert OptionKeysDiffer(old(options), i, j);
        } else if 0 <= i < |old(options)| <= j < |options| {
          assert OptionOfStoredPoll(old(polls), old(options), i);
        }
      }
    }

    /** `reject_poll_if_active_by_poll_id`: only an active poll becomes
        rejected; a missing or finished poll is left alone. */
    method RejectPollIfActiveByPollId(pollId: int)
      requires Consistent()
      modifies this`polls
      ensures Consistent()
      ensures polls == RejectIfActive(old(polls), pollId)
    {
      var poll := GetPollById(polls, pollId);
      if poll.Some? && poll.value.status == Active {
        ghost var polls0 := polls;
        polls := polls[pollId - 1 := poll.value.(status := Rejected)];
        SameHistoryKeepsHistory(chats, polls0, polls, codeLines);
        OptionsFollowPolls(polls0, options, polls, options);
      }
    }

    /** `close_poll`: whatever the poll's status was, it gets the given one
        and a closing time; None is left alone. */
    method ClosePoll(pollId: Option<int>, status: PollStatus)
      requires Consistent() && (pollId.Some? ==> IsPollId(polls, pollId.value))
      modifies this`polls, this`clock
      ensures Consistent()
      ensures pollId.None? ==> polls == old(polls) && clock == old(clock)
      ensures pollId.Some? ==>
                && polls == CloseAt(old(polls), pollId.value, status, old(clock))
                && clock == old(clock) + 1
    {
      if pollId.Some? {
        var id := pollId.value;
        var now := Now();
        ghost var polls0 := polls;
        polls := CloseAt(polls, id, status, now);
        SameHistoryKeepsHistory(chats, polls0, polls, codeLines);
        OptionsFollowPolls(polls0, options, polls, options);
      }
    }

    /** `add_or_update_vote`. An identified user's row for the poll is
        updated in place or added; neither the poll's status nor the index
        is checked. With no user (None or 0) the method reads `now` before
        assigning it and raises, adding nothing. */
    method AddOrUpdateVote(pollId: int, userId: Option<int>, optionIndex: int) returns (r: Outcome<Raised>)
      requires Consistent()
      modifies this`votes, this`clock
      ensures Consistent()
      ensures IsTruthyUser(userId) ==>
                && r == Pass
                && votes == UpsertVote(old(votes), pollId, userId.value, optionIndex, old(clock))
                && clock == old(clock) + 1
      ensures !IsTruthyUser(userId) ==>
                r == Fail(UnboundLocalError("now")) && votes == old(votes) && clock == old(clock)
    {
      if IsTruthyUser(userId) {
        var found := FindVote(votes, pollId, userId.value);
        var now := Now();
        UpsertKeepsKeysUnique(votes, pollId, userId.value, optionIndex, now);
        match found {
          case None =>
            votes := votes + [PollVote(pollId, userId, optionIndex, now)];
          case Some(i) =>
            votes := votes[i := votes[i].(optionIndex := optionIndex, answeredAt := now)];
        }
        r := Pass;
      } else {
        r := Fail(UnboundLocalError("now"));
      }
    }

    /** `recalc_votes_for_poll`: every option of the poll gets the number of
        the poll's vote rows with its index, 0 when there are none. */
    method RecalcVotesForPoll(pollId: int)
      requires Consistent()
      modifies this`options
      ensures Consistent()
      ensures options == Recount(old(options), votes, pollId)
    {
      var counts := GroupCounts(votes, pollId);
      var i := 0;
      while i < |options|
        invariant 0 <= i <= |options| == |old(options)|
        invariant forall k :: 0 <= k < i ==> options[k] == Recount(old(options), votes, pollId)[k]
        invariant forall k :: i <= k < |options| ==> options[k] == old(options)[k]
      {
        if options[i].pollId == pollId {
          var idx := options[i].index;
          options := options[i := options[i].(votes := if idx in counts then counts[idx] else 0)];
        }
        i := i + 1;
      }
      assert options == Recount(old(options), votes, pollId);
      RecountKeepsKeysUnique(old(options), votes, pollId);
      forall k | 0 <= k < |options| ensures options[k].pollId == old(options)[k].pollId {
        assert options[k].(votes := old(options)[k].votes) == old(options)[k];
      }
      OptionsFollowPolls(polls, old(options), polls, options);
    }

    /** `update_telegram_ids`: binds the Telegram ids of an existing poll. */
    method UpdateTelegramIds(pollId: int, tgPollId: string, tgMessageId: int) returns (found: bool)
      requires Consistent()
      modifies this`polls
      ensures Consistent()
      ensures found == IsPollId(old(polls), pollId)
      ensures found ==> polls == old(polls)[pollId - 1 := old(polls)[pollId - 1].(tgPollId := tgPollId, tgMessageId := tgMessageId)]
      ensures !found ==> polls == old(polls)
    {
      found := IsPollId(polls, pollId);
      if found {
        ghost var polls0 := polls;
        polls := polls[pollId - 1 := polls[pollId - 1].(tgPollId := tgPollId, tgMessageId := tgMessageId)];
        SameHistoryKeepsHistory(chats, polls0, polls, codeLines);
        OptionsFollowPolls(polls0, options, polls, options);
      }
    }

    // ----- CodeRepository -----

    /** `append_code_line_from_poll`: raises when the poll has no option
        with the index; otherwise adds one final line with the option's
        text, numbered after the chat's lines of the chat's CURRENT history
        version. */
    method AppendCodeLineFromPoll(chatId: int, pollId: int, winningOptionIndex: int) returns (r: Result<CodeLine, Raised>)
      requires Consistent() && IsPollId(polls, pollId) && chatId == polls[pollId - 1].chatId && chatId in chats
      modifies this`codeLines
      ensures Consistent()
      ensures FindOption(options, pollId, winningOptionIndex).None? ==>
                r == Err(ValueError("Winning PollOption not found")) && codeLines == old(codeLines)
      ensures FindOption(options, pollId, winningOptionIndex).Some? ==>
                && r == Ok(CodeLine(chatId, pollId,
                                    NextLineNumber(old(codeLines), polls, chatId, chats[chatId].historyVersion),
                                    FindOption(options, pollId, winningOptionIndex).value.codeLine, true))
                && codeLines == old(codeLines) + [r.value]
    {
      var option := FindOption(options, pollId, winningOptionIndex);
      if option.None? {
        return Err(ValueError("Winning PollOption not found"));
      }
      var lineNumber := NextLineNumber(codeLines, polls, chatId, chats[chatId].historyVersion);
      var line := CodeLine(chatId, pollId, lineNumber, option.value.codeLine, true);
      AppendLineKeepsHistory(chats, polls, codeLines, line);
      codeLines := codeLines + [line];
      r := Ok(line);
    }

    /** `delete_all_code_for_chat`. */
    method DeleteAllCodeForChat(chatId: int)
      requires Consistent()
      modifies this`codeLines
      ensures Consistent()
      ensures codeLines == LinesWithoutChat(old(codeLines), chatId)
    {
      DeleteKeepsHistory(chats, polls, codeLines, chatId);
      codeLines := LinesWithoutChat(codeLines, chatId);
    }

    // ----- CompletedCodeRepository -----

    /** `save_completed_code`: a snapshot stamped with the chat's current
        history version. */
    method SaveCompletedCode(chatId: int, codeText: string) returns (row: CompletedCode)
      requires chatId in chats
      modifies this`completed, this`clock
      ensures row == CompletedCode(chatId, chats[chatId].historyVersion, codeText, old(clock))
      ensures completed == old(completed) + [row] && clock == old(clock) + 1
    {
      var now := Now();
      row := CompletedCode(chatId, chats[chatId].historyVersion, codeText, now);
      completed := completed + [row];
    }

    // ----- SchedulerRepository -----

    /** `get_state`: the singleton row, created on first use with both times
        set to now. */
    method GetState() returns (state: SchedulerState)
      modifies this`scheduler, this`clock
      ensures old(scheduler).Some? ==> state == old(scheduler).value && scheduler == old(scheduler) && clock == old(clock)
      ensures old(scheduler).None? ==>
                state == SchedulerState(old(clock), old(clock)) && scheduler == Some(state) && clock == old(clock) + 1
    {
      if scheduler.Some? {
        state := scheduler.value;
      } else {
        var now := Now();
        state := SchedulerState(now, now);
        scheduler := Some(state);
      }
    }

    // ----- LogsRepository -----

    /** `add_log`. */
    method AddLog(level: string, message: string) returns (entry: LogEntry)
      modifies this`logs, this`clock
      ensures entry == LogEntry(old(clock), level, message)
      ensures logs == old(logs) + [entry] && clock == old(clock) + 1
    {
      var now := Now();
      entry := LogEntry(now, level, message);
      logs := logs + [entry];
    }
  }
}
