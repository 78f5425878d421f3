/** The reply keyboards of src/app/keyboards.py: the command table of each
    role and the split of its buttons into rows of three. The commands
    enumeration lives in `app/enums.py`, which is not part of this model, so
    the text of each command (`CommandsEnum.X.value`) is a parameter. */
module Keyboards {
  import opened Wrappers
  import opened Models
  import opened Roles

  datatype Command = Code | Start | CodeCompleted | SendNow | Health | Logs | Allogs

  const UserCommands: seq<Command> := [Code]
  const AdminCommands: seq<Command> := UserCommands + [Start, CodeCompleted, SendNow]
  const OwnerCommands: seq<Command> := AdminCommands + [Health, Logs, Allogs]

  /** Each table extends the one below it. */
  lemma CommandTablesNested()
    ensures UserCommands <= AdminCommands <= OwnerCommands
    ensures |UserCommands| == 1 && |AdminCommands| == 4 && |OwnerCommands| == 7
  {
  }

  /** `ROLE_KEYBOARDS.get(role, [])`: the bot administrator gets the owner
      table, a chat administrator the admin table, a user the user table;
      Owner has no entry and gets no commands. */
  function RoleCommands(role: Role): (r: seq<Command>)
    ensures r <= OwnerCommands
    ensures r == [] <==> role == Owner
  {
    match role
    case Admin => OwnerCommands
    case GroupAdmin => AdminCommands
    case User => UserCommands
    case Owner => []
  }

  /** What each role sees, as prefixes of one another. */
  lemma RoleCommandsNested()
    ensures RoleCommands(User) <= RoleCommands(GroupAdmin) <= RoleCommands(Admin)
    ensures RoleCommands(Owner) == []
  {
  }

  /** The consecutive slices of `lst` of length `size`, the last one
      possibly shorter. */
  function Chunks<T>(lst: seq<T>, size: nat): seq<seq<T>>
    requires size > 0
    decreases |lst|
  {
    if lst == [] then []
    else if |lst| <= size then [lst]
    else [lst[..size]] + Chunks(lst[size..], size)
  }

  /** `chunk_list(lst, size)`: a zero step makes `range` raise; a negative
      step gives an empty range and so no chunks. */
  function ChunkList<T>(lst: seq<T>, size: int): (r: Result<seq<seq<T>>, Raised>)
    ensures size == 0 <==> r.Err?
    ensures size < 0 ==> r == Ok([])
    ensures size > 0 ==> r == Ok(Chunks(lst, size))
  {
    if size == 0 then Err(ValueError("range() arg 3 must not be zero"))
    else if size < 0 then Ok([])
    else Ok(Chunks(lst, size))
  }

  function Flatten<T>(chunks: seq<seq<T>>): seq<T> {
    if chunks == [] then [] else chunks[0] + Flatten(chunks[1..])
  }

  /** Concatenating the chunks gives the list back. */
  lemma {:induction false} ChunksFlatten<T>(lst: seq<T>, size: nat)
    requires size > 0
    ensures Flatten(Chunks(lst, size)) == lst
    decreases |lst|
  {
    if lst != [] && |lst| > size {
      ChunksFlatten(lst[size..], size);
      assert lst[..size] + lst[size..] == lst;
    }
  }

  /** Every chunk has between 1 and `size` elements, every chunk but the
      last has exactly `size`, and only the empty list has no chunks. */
  lemma {:induction false} ChunksShape<T>(lst: seq<T>, size: nat)
    requires size > 0
    ensures var r := Chunks(lst, size);
            && (r == [] <==> lst == [])
            && (forall k :: 0 <= k < |r| ==> 1 <= |r[k]| <= size)
            && (forall k :: 0 <= k < |r| - 1 ==> |r[k]| == size)
    decreases |lst|
  {
    if lst != [] && |lst| > size {
      ChunksShape(lst[size..], size);
      var r := Chunks(lst, size);
      assert r == [lst[..size]] + Chunks(lst[size..], size);
    }
  }

  /** The button texts of a role, "/" + the command's text, in table order. */
  function Buttons(role: Role, value: Command -> string): (b: seq<string>)
    ensures |b| == |RoleCommands(role)|
    ensures forall k :: 0 <= k < |b| ==> b[k] == "/" + value(RoleCommands(role)[k])
  {
    seq(|RoleCommands(role)|, k requires 0 <= k < |RoleCommands(role)| => "/" + value(RoleCommands(role)[k]))
  }

  /** `get_keyboard_for_role`, as its rows of button texts: the role's
      buttons in table order, at most three to a row and with no empty row;
      a role with no table gets no rows. */
  function GetKeyboardForRole(role: Role, value: Command -> string): (rows: seq<seq<string>>)
    ensures Flatten(rows) == Buttons(role, value)
    ensures forall k :: 0 <= k < |rows| ==> 1 <= |rows[k]| <= 3
    ensures role == Owner <==> rows == []
  {
    ChunksFlatten(Buttons(role, value), 3);
    ChunksShape(Buttons(role, value), 3);
    Chunks(Buttons(role, value), 3)
  }
}
