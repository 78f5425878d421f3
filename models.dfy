/** The rows of the game's database: one datatype per table, with the column
    defaults and the `poll_status_check` constraint.

    Timestamps are values of an abstract clock: every `datetime.now()` call
    whose value the model keeps advances it, and the calls that only set
    `updated_at` do not. Telegram ids are plain integers and strings;
    the JSON blobs (`admin_ids`, `llm_request`, `llm_response`,
    `active_jobs`, a log's `context`) are not represented. */
module Models {
  import opened Wrappers

  type Timestamp = nat

  /** The Python exceptions the modelled code can raise; the unit of work
      rolls its transaction back when one escapes. */
  datatype Raised =
    | AttributeError(attribute: string)
    | UnboundLocalError(variable: string)
    | ValueError(message: string)

  /** The values `poll_status_check` admits. */
  datatype PollStatus = Active | Closed | Failed | Rejected

  /** The string stored in the `status` column. */
  function StatusName(s: PollStatus): string {
    match s
    case Active => "active"
    case Closed => "closed"
    case Failed => "failed"
    case Rejected => "rejected"
  }

  /** The check constraint: a status string is accepted exactly when it is
      the name of one of the four statuses. */
  function ParseStatus(name: string): (r: Option<PollStatus>)
    ensures r.Some? ==> StatusName(r.value) == name
    ensures r.None? ==> forall s :: StatusName(s) != name
  {
    if name == "active" then Some(Active)
    else if name == "closed" then Some(Closed)
    else if name == "failed" then Some(Failed)
    else if name == "rejected" then Some(Rejected)
    else None
  }

  /** A chat, keyed by its Telegram id. `historyVersion` is the epoch of the
      code history; `lastPollId` points at the chat's latest poll. */
  datatype Chat = Chat(id: int, isActive: bool, lastPollId: Option<int>, historyVersion: int)

  /** A poll; its local id is its position in the polls table, from 1. */
  datatype Poll = Poll(
    chatId: int,
    tgPollId: string,
    tgMessageId: int,
    status: PollStatus,
    createdAt: Timestamp,
    closedAt: Option<Timestamp>,
    timeoutAt: Option<int>,
    historyVersion: int)

  /** One answer of a poll; `votes` is a cache that the recount refreshes. */
  datatype PollOption = PollOption(pollId: int, index: int, codeLine: string, votes: int)

  /** One vote row; the user column is nullable. */
  datatype PollVote = PollVote(pollId: int, userId: Option<int>, optionIndex: int, answeredAt: Timestamp)

  /** A line of the program; it has no version of its own, its version is
      that of the poll `pollId`. */
  datatype CodeLine = CodeLine(chatId: int, pollId: int, lineNumber: int, codeLine: string, isFinal: bool)

  /** A snapshot of a completed program, stamped with the chat's version. */
  datatype CompletedCode = CompletedCode(chatId: int, historyVersion: int, codeText: string, createdAt: Timestamp)

  /** The singleton row (id 1) the scheduler keeps. */
  datatype SchedulerState = SchedulerState(nextRunAt: Timestamp, uptimeStartedAt: Timestamp)

  datatype LogEntry = LogEntry(createdAt: Timestamp, level: string, message: string)

  /** A chat row as `Chats(id=chat_id)` creates it: the column defaults. */
  function NewChat(id: int): (c: Chat)
    ensures c.id == id && c.isActive && c.lastPollId == None && c.historyVersion == 1
  {
    Chat(id, true, None, 1)
  }

  /** An option row as `create_poll` adds it: no votes yet. */
  function NewOption(pollId: int, index: int, text: string): (o: PollOption)
    ensures o.pollId == pollId && o.index == index && o.codeLine == text && o.votes == 0
  {
    PollOption(pollId, index, text, 0)
  }

  /** Every status has exactly one name, and the constraint accepts it. */
  lemma StatusNamesAccepted(s: PollStatus)
    ensures ParseStatus(StatusName(s)) == Some(s)
  {
  }
}
