/** The role decision of `get_user_role` (src/app/utils.py). The roles
    enumeration lives in `app/enums.py`, which is not part of this model; its
    four members are the ones the code refers to. The administrators of a
    group chat come from a Telegram call and are passed in with the chat. */
module Roles {
  import opened Wrappers

  datatype Role = Owner | Admin | GroupAdmin | User

  /** The chat an event came from: its Telegram type and the ids of its
      administrators as `get_administrators()` would report them. */
  datatype EventChat = EventChat(chatType: string, administrators: seq<int>)

  /** The hard-coded list of bot administrators. */
  const FixedAdminIds: seq<int> := [94408817, 123456789]

  /** `get_user_role`: a fixed administrator is Admin anywhere; otherwise
      an administrator of a non-private chat is GroupAdmin; everyone else
      is User. Owner is never returned. */
  function GetUserRole(userId: int, chat: Option<EventChat>): (r: Role)
    ensures userId in FixedAdminIds ==> r == Admin
    ensures r == Admin ==> userId in FixedAdminIds
    ensures r == GroupAdmin <==>
              && userId !in FixedAdminIds
              && chat.Some? && chat.value.chatType != "private"
              && userId in chat.value.administrators
    ensures (chat.None? || chat.value.chatType == "private") ==> r != GroupAdmin
    ensures r != Owner
  {
    if userId in FixedAdminIds then Admin
    else if chat.Some? && chat.value.chatType != "private" && userId in chat.value.administrators then GroupAdmin
    else User
  }

  /** Outside a group only the fixed administrators are more than users:
      the chat's own administrators do not count in a private chat. */
  lemma PrivateChatIgnoresChatAdmins(userId: int, admins: seq<int>)
    ensures GetUserRole(userId, Some(EventChat("private", admins))) == GetUserRole(userId, None)
    ensures GetUserRole(userId, None) == if userId in FixedAdminIds then Admin else User
  {
  }
}
