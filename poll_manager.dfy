/** The in-memory registry of open Telegram polls, `PollManager`
    (src/app/polls.py): poll metadata by Telegram poll id, and the last poll
    sent to each chat. */
module PollRegistry {
  import opened Wrappers
  import opened Models

  /** What `register_poll` stores for a poll. The payload is an opaque
      dictionary; its entries are kept as strings. */
  datatype PollRecord = PollRecord(chatId: int, messageId: int, options: seq<string>, payload: map<string, string>)

  /** An answer option of a Telegram poll as the bot receives it back. */
  datatype TgOption = TgOption(text: string, voterCount: nat)

  class PollManager {
    /** `_polls`: Telegram poll id to its record. */
    var polls: map<string, PollRecord>
    /** `_chats`: chat id to the id of the last poll registered for it. */
    var chats: map<int, string>

    constructor ()
      ensures polls == map[] && chats == map[]
    {
      polls := map[];
      chats := map[];
    }

    /** `get`. */
    function Get(pollId: string): (r: Option<PollRecord>)
      reads this
      ensures r.Some? <==> pollId in polls
      ensures r.Some? ==> r.value == polls[pollId]
    {
      if pollId in polls then Some(polls[pollId]) else None
    }

    /** `get_last_poll_id_by_chat_id`. */
    function GetLastPollIdByChatId(chatId: int): (r: Option<string>)
      reads this
      ensures r.Some? <==> chatId in chats
      ensures r.Some? ==> r.value == chats[chatId]
    {
      if chatId in chats then Some(chats[chatId]) else None
    }

    /** `register_poll`: the record (with `payload or {}`) replaces any
        earlier one under the same id, and the poll becomes the chat's last
        poll. */
    method RegisterPoll(pollId: string, chatId: int, messageId: int, options: seq<string>,
                        payload: Option<map<string, string>>)
      modifies this
      ensures polls == old(polls)[pollId := PollRecord(chatId, messageId, options,
                                                       if payload.Some? then payload.value else map[])]
      ensures chats == old(chats)[chatId := pollId]
      ensures Get(pollId) == Some(PollRecord(chatId, messageId, options, if payload.Some? then payload.value else map[]))
      ensures GetLastPollIdByChatId(chatId) == Some(pollId)
    {
      polls := polls[pollId := PollRecord(chatId, messageId, options, if payload.Some? then payload.value else map[])];
      chats := chats[chatId := pollId];
    }

    /** `pop`: hands back the record and forgets it; the chats' last polls
        are left as they are, so a chat can still point at a popped poll. */
    method Pop(pollId: string) returns (r: Option<PollRecord>)
      modifies this`polls
      ensures r == old(Get(pollId))
      ensures polls == old(polls) - {pollId}
      ensures Get(pollId) == None
      ensures chats == old(chats)
    {
      r := Get(pollId);
      polls := polls - {pollId};
    }

    /** The lookup of `close_poll`: an unregistered poll gives None and the
        bot is not asked anything; a registered one gives the chat and
        message that `stop_poll` is asked to stop. */
    function StopTarget(pollId: string): (r: Option<(int, int)>)
      reads this
      ensures r.None? <==> pollId !in polls
      ensures r.Some? ==> r.value == (polls[pollId].chatId, polls[pollId].messageId)
    {
      match Get(pollId)
      case None => None
      case Some(rec) => Some((rec.chatId, rec.messageId))
    }
  }

  /** The index `max(range(n), key=voter_count)` picks: the first option
      with the greatest count. */
  function BestOptionIndex(options: seq<TgOption>): (i: nat)
    requires |options| > 0
    ensures i < |options|
    ensures forall j :: 0 <= j < |options| ==> options[j].voterCount <= options[i].voterCount
    ensures forall j :: 0 <= j < i ==> options[j].voterCount < options[i].voterCount
  {
    if |options| == 1 then 0
    else
      var b := BestOptionIndex(options[..|options| - 1]);
      if options[|options| - 1].voterCount > options[b].voterCount then |options| - 1 else b
  }

  /** `extract_winner`: the text of the first option with the most votes;
      a poll with no options makes `max` raise. */
  function ExtractWinner(options: seq<TgOption>): (r: Result<string, Raised>)
    ensures r.Err? <==> options == []
    ensures r.Ok? ==> exists i :: 0 <= i < |options| && r.value == options[i].text
                        && (forall j :: 0 <= j < |options| ==> options[j].voterCount <= options[i].voterCount)
                        && (forall j :: 0 <= j < i ==> options[j].voterCount < options[i].voterCount)
  {
    if options == [] then Err(ValueError("max() arg is an empty sequence"))
    else Ok(options[BestOptionIndex(options)].text)
  }
}
