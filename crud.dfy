/** `DataManager`: each method is one unit of work over the database, either
    committed whole or, when an exception escapes, rolled back. */
module Crud {
  import opened Wrappers
  import opened Models
  import opened Tables
  import opened Repositories
  import Strings

  const NoHistoryMessage: string := "В этом чате нет истории кода."
  const NoCodeYetMessage: string := "Код пока не создан — ещё не завершено ни одного опроса ⏳"
  const NoChatMessage: string := "Нет истории кода."
  const SavedMessage: string := "Готово! Код успешно дополнён. Отправляю файл..."

  class DataManager {
    const db: Database

    constructor (db: Database)
      ensures this.db == db
    {
      this.db := db;
    }

    /** `clear_chat_history`: the chat (created if absent) has its last poll
        rejected when that poll is still active, then moves to the next
        history version with no last poll; its current code is then empty. */
    method ClearChatHistory(chatId: int)
      requires db.Consistent()
      modifies db`chats, db`polls
      ensures db.Consistent()
      ensures var before := ChatOrNew(old(db.chats), chatId);
              && db.chats == old(db.chats)[chatId := ResetChat(before)]
              && db.polls == if before.lastPollId.Some? then RejectIfActive(old(db.polls), before.lastPollId.value) else old(db.polls)
      ensures Tables.GetCurrentCode(db.codeLines, db.polls, chatId, db.chats[chatId].historyVersion) == []
    {
      var chat := db.GetOrCreateChat(chatId);
      if chat.lastPollId.Some? {
        db.RejectPollIfActiveByPollId(chat.lastPollId.value);
      }
      var reset := db.ResetHistory(chatId);
    }

    /** `register_poll`: creates the poll and its options for a stored
        chat. For a chat that is not stored, `create_poll` reads `chat.id`
        of None and raises, and nothing is stored. */
    method RegisterPoll(tgPollId: string, chatId: int, messageId: int, texts: seq<string>, timeoutAt: Option<int>)
      returns (r: Outcome<Raised>)
      requires db.Consistent()
      modifies db`polls, db`options, db`chats, db`clock
      ensures db.Consistent()
      ensures chatId !in old(db.chats) ==>
                && r == Fail(AttributeError("id"))
                && db.polls == old(db.polls) && db.options == old(db.options)
                && db.chats == old(db.chats) && db.clock == old(db.clock)
      ensures chatId in old(db.chats) ==>
                var pollId := |old(db.polls)| + 1;
                && r == Pass
                && db.polls == old(db.polls) + [Poll(chatId, tgPollId, messageId, Active, old(db.clock), None, timeoutAt,
                                                     old(db.chats)[chatId].historyVersion)]
                && db.options == old(db.options) + OptionRows(pollId, texts)
                && db.chats == old(db.chats)[chatId := old(db.chats)[chatId].(lastPollId := Some(pollId))]
                && db.clock == old(db.clock) + 1
    {
      var chat := db.GetChat(chatId);
      if chat.None? {
        return Fail(AttributeError("id"));
      }
      var pollId := db.CreatePoll(chatId, texts, tgPollId, messageId, timeoutAt);
      r := Pass;
    }

    /** `get_current_code` with markdown off: a message when the chat is
        unknown or has no line in its current version, otherwise the texts of
        those lines joined by newlines, which under the history invariant is
        the order in which they were appended. */
    function GetCurrentCode(chatId: int): (r: (bool, string))
      requires db.Consistent()
      reads db
      ensures chatId !in db.chats ==> r == (false, NoHistoryMessage)
      ensures chatId in db.chats ==>
                var h := HistoryLines(db.codeLines, db.polls, chatId, db.chats[chatId].historyVersion);
                && (h == [] ==> r == (false, NoCodeYetMessage))
                && (h != [] ==> r == (true, Strings.Join(Texts(h), '\n')))
    {
      if chatId !in db.chats then (false, NoHistoryMessage)
      else
        var lines := Tables.GetCurrentCode(db.codeLines, db.polls, chatId, db.chats[chatId].historyVersion);
        CurrentCodeInAppendOrder(db.chats, db.polls, db.codeLines, chatId);
        if lines == [] then (false, NoCodeYetMessage)
        else (true, Strings.Join(lines, '\n'))
    }

    /** The text `GetCurrentCode` sends splits back into the chat's current
        lines when no line holds a newline. */
    lemma CurrentCodeSplitsBack(chatId: int)
      requires db.Consistent() && chatId in db.chats
      requires forall i :: 0 <= i < |db.codeLines| ==> '\n' !in db.codeLines[i].codeLine
      ensures var r := GetCurrentCode(chatId);
              r.0 ==> Strings.Split(r.1, '\n')
                      == Texts(HistoryLines(db.codeLines, db.polls, chatId, db.chats[chatId].historyVersion))
    {
      var h := HistoryLines(db.codeLines, db.polls, chatId, db.chats[chatId].historyVersion);
      if h != [] {
        HistoryLinesSelected(db.codeLines, db.polls, chatId, db.chats[chatId].historyVersion);
        Strings.SplitJoin(Texts(h), '\n');
      }
    }

    /** `close_poll`: an empty Telegram id does nothing; otherwise the poll
        with that id, if any, is closed whatever its status, and its id is
        returned. */
    method ClosePoll(tgPollId: string) returns (poll: Option<int>)
      requires db.Consistent()
      modifies db`polls, db`clock
      ensures db.Consistent()
      ensures tgPollId == [] ==> poll == None
      ensures tgPollId != [] ==> poll == GetPollByTgId(old(db.polls), tgPollId)
      ensures poll.None? ==> db.polls == old(db.polls) && db.clock == old(db.clock)
      ensures poll.Some? ==>
                && db.polls == CloseAt(old(db.polls), poll.value, Closed, old(db.clock))
                && db.clock == old(db.clock) + 1
    {
      poll := None;
      if tgPollId != [] {
        poll := GetPollByTgId(db.polls, tgPollId);
        db.ClosePoll(poll, Closed);
      }
    }

    /** `get_last_poll_tg_id_by_chat_id`: the Telegram id of the chat's last
        poll, or None when there is no chat, no last poll, no such poll or an
        empty Telegram id. */
    function GetLastPollTgIdByChatId(chatId: int): (r: Option<string>)
      reads db
      ensures r.Some? <==> (&& chatId in db.chats
                            && db.chats[chatId].lastPollId.Some?
                            && IsPollId(db.polls, db.chats[chatId].lastPollId.value)
                            && db.polls[db.chats[chatId].lastPollId.value - 1].tgPollId != [])
      ensures r.Some? ==> r.value == db.polls[db.chats[chatId].lastPollId.value - 1].tgPollId
    {
      match db.GetChat(chatId)
      case None => None
      case Some(chat) =>
        if chat.lastPollId.None? || chat.lastPollId.value == 0 then None
        else
          match GetPollById(db.polls, chat.lastPollId.value)
          case None => None
          case Some(p) => if p.tgPollId == [] then None else Some(p.tgPollId)
    }

    /** `save_complete_code`: for a stored chat, one snapshot of the
        completed text stamped with the chat's current version; for an
        unknown chat, nothing. */
    method SaveCompleteCode(chatId: int, baseCodeText: string, completedCodeText: string) returns (ok: bool, msg: string)
      requires db.Consistent()
      modifies db`completed, db`clock
      ensures db.Consistent()
      ensures ok <==> chatId in db.chats
      ensures !ok ==> msg == NoChatMessage && db.completed == old(db.completed) && db.clock == old(db.clock)
      ensures ok ==> && msg == SavedMessage
                     && db.completed == old(db.completed) + [CompletedCode(chatId, db.chats[chatId].historyVersion, completedCodeText, old(db.clock))]
                     && db.clock == old(db.clock) + 1
    {
      ok, msg := false, NoChatMessage;
      if chatId in db.chats {
        var row := db.SaveCompletedCode(chatId, completedCodeText);
        ok, msg := true, SavedMessage;
      }
    }

    /** `finishing_poll_process`. An unknown Telegram id gives None and
        changes nothing. Otherwise, whatever the poll's status was, it is
        closed, its tallies recounted, an option with the most votes chosen
        and its text appended as a code line. A poll with no options has no
        winner: reading `winner.index` raises and every table is as before. */
    method FinishingPollProcess(tgPollId: string) returns (r: Result<Option<PollOption>, Raised>)
      requires db.Consistent()
      modifies db`chats, db`polls, db`options, db`votes, db`codeLines, db`completed, db`scheduler, db`logs, db`clock
      ensures db.Consistent()
      ensures db.scheduler == old(db.scheduler) && db.logs == old(db.logs)
      ensures var id := GetPollByTgId(old(db.polls), tgPollId);
              && (id.None? ==> r == Ok(None) && db.Snap() == old(db.Snap()) && db.clock == old(db.clock))
              && (id.Some? && GetWinner(old(db.options), id.value).None? ==>
                    r == Err(AttributeError("index")) && db.Snap() == old(db.Snap()))
      ensures var id := GetPollByTgId(old(db.polls), tgPollId);
              id.Some? && GetWinner(old(db.options), id.value).Some? ==> r.Ok? && r.value.Some?
      ensures r.Ok? && r.value.Some? ==>
                && GetPollByTgId(old(db.polls), tgPollId).Some?
                && var pollId := GetPollByTgId(old(db.polls), tgPollId).value;
                   var chatId := old(db.polls)[pollId - 1].chatId;
                   var polls' := CloseAt(old(db.polls), pollId, Closed, old(db.clock));
                   var options' := Recount(old(db.options), old(db.votes), pollId);
                   && r.value == GetWinner(options', pollId)
                   && chatId in old(db.chats)
                   && db.polls == polls'
                   && db.options == options'
                   && db.codeLines == old(db.codeLines)
                        + [CodeLine(chatId, pollId, NextLineNumber(old(db.codeLines), polls', chatId, old(db.chats)[chatId].historyVersion),
                                    r.value.value.codeLine, true)]
                   && db.chats == old(db.chats) && db.votes == old(db.votes) && db.completed == old(db.completed)
                   && db.clock == old(db.clock) + 1
    {
      var saved := db.Snap();
      var id := GetPollByTgId(db.polls, tgPollId);
      if id.None? {
        return Ok(None);
      }
      var winner := CloseAndAppendWinner(id.value);
      if winner.None? {
        db.Rollback(saved);
        return Err(AttributeError("index"));
      }
      r := Ok(winner);
    }

    /** The work of `finishing_poll_process` once the poll is found: it is
        closed, its tallies are recounted, and the winner's text (if there is
        a winner) is appended as the chat's next code line. */
    method CloseAndAppendWinner(pollId: int) returns (winner: Option<PollOption>)
      requires db.Consistent() && IsPollId(db.polls, pollId)
      modifies db`polls, db`options, db`codeLines, db`clock
      ensures db.Consistent()
      ensures db.polls == CloseAt(old(db.polls), pollId, Closed, old(db.clock))
      ensures db.options == Recount(old(db.options), db.votes, pollId)
      ensures winner == GetWinner(db.options, pollId)
      ensures winner.None? ==> db.codeLines == old(db.codeLines)
      ensures winner.Some? ==>
                var chatId := old(db.polls)[pollId - 1].chatId;
                && chatId in db.chats
                && db.codeLines == old(db.codeLines)
                     + [CodeLine(chatId, pollId, NextLineNumber(old(db.codeLines), db.polls, chatId, db.chats[chatId].historyVersion),
                                 winner.value.codeLine, true)]
      ensures db.clock == old(db.clock) + 1
    {
      var chatId := db.polls[pollId - 1].chatId;
      assert PollOfKnownVersion(db.chats, db.polls, pollId - 1);
      CloseAndRecount(pollId);
      winner := GetWinner(db.options, pollId);
      if winner.Some? {
        AppendWinningLine(chatId, pollId, winner.value);
      }
    }

    /** The first two steps of `finishing_poll_process`: the poll is closed
        and its options' tallies are recounted from the votes. */
    method CloseAndRecount(pollId: int)
      requires db.Consistent() && IsPollId(db.polls, pollId)
      modifies db`polls, db`options, db`clock
      ensures db.Consistent()
      ensures db.polls == CloseAt(old(db.polls), pollId, Closed, old(db.clock))
      ensures db.options == Recount(old(db.options), db.votes, pollId)
      ensures db.clock == old(db.clock) + 1
    {
      db.ClosePoll(Some(pollId), Closed);
      db.RecalcVotesForPoll(pollId);
    }

    /** The last step of `finishing_poll_process`: the chat is read back
        and the winner's text is appended as its next code line. */
    method AppendWinningLine(chatId: int, pollId: int, winner: PollOption)
      requires db.Consistent() && IsPollId(db.polls, pollId) && chatId == db.polls[pollId - 1].chatId
      requires chatId in db.chats && GetWinner(db.options, pollId) == Some(winner)
      modifies db`codeLines
      ensures db.Consistent()
      ensures db.codeLines == old(db.codeLines)
                + [CodeLine(chatId, pollId, NextLineNumber(old(db.codeLines), db.polls, chatId, db.chats[chatId].historyVersion),
                            winner.codeLine, true)]
    {
      assert ChatKeyed(db.chats, chatId);
      var chat := db.GetChat(chatId);
      FindWinner(db.options, pollId);
      var line := db.AppendCodeLineFromPoll(chat.value.id, pollId, winner.index);
    }

    /** `register_poll_answer`: the vote goes to the poll with the Telegram
        id, with no check of its status or of the index. An unknown Telegram
        id (reading `poll.id` of None) and a vote without a user both raise,
        and no vote is stored. */
    method RegisterPollAnswer(tgPollId: string, userId: Option<int>, optionIndex: int) returns (r: Outcome<Raised>)
      requires db.Consistent()
      modifies db`votes, db`clock
      ensures db.Consistent()
      ensures var id := GetPollByTgId(old(db.polls), tgPollId);
              && (id.None? ==> r == Fail(AttributeError("id")) && db.votes == old(db.votes) && db.clock == old(db.clock))
              && (id.Some? && !IsTruthyUser(userId) ==>
                    r == Fail(UnboundLocalError("now")) && db.votes == old(db.votes) && db.clock == old(db.clock))
              && (id.Some? && IsTruthyUser(userId) ==>
                    && r == Pass
                    && db.votes == UpsertVote(old(db.votes), id.value, userId.value, optionIndex, old(db.clock))
                    && db.clock == old(db.clock) + 1)
    {
      var id := GetPollByTgId(db.polls, tgPollId);
      if id.None? {
        return Fail(AttributeError("id"));
      }
      r := db.AddOrUpdateVote(id.value, userId, optionIndex);
    }
  }
}
