/**
  The connection handler of index.js as a stateful object: the shared `users`
  object and the log of broadcasts the handlers have made, with one method per
  Socket.IO event. Each method runs to completion before the next is called,
  as Node runs one event at a time.
*/
module ChatServer {
  import opened Wrappers
  import opened Registry
  import opened Events

  class Hub {
    /** The `users` object: socket id to `{nickname, room}`, in key order. */
    var users: Registry
    /** Every `to(room).emit(...)` made so far, oldest first. */
    var log: seq<Emit>

    ghost predicate Valid()
      reads this
    {
      UniqueIds(users)
    }

    constructor ()
      ensures Valid() && users == [] && log == []
    {
      users := [];
      log := [];
    }

    /** The `for (const id in users)` loop of `updateUserList`. */
    method ScanRoom(room: string) returns (usersInRoom: seq<string>)
      ensures usersInRoom == MembersOf(users, room)
    {
      usersInRoom := [];
      var i := 0;
      while i < |users|
        invariant 0 <= i <= |users|
        invariant usersInRoom == MembersOf(users[..i], room)
      {
        assert users[..i + 1][..i] == users[..i];
        if users[i].room == room {
          usersInRoom := usersInRoom + [users[i].nickname];
        }
        i := i + 1;
      }
      assert users[..|users|] == users;
    }

    /** `updateUserList(room)`: scan the registry and send the list to the room. */
    method UpdateUserList(room: string)
      modifies this`log
      ensures log == old(log) + [UserListEmit(users, room)]
    {
      var usersInRoom := ScanRoom(room);
      log := log + [Emit(room, None, UpdateUserListEvent, UserList(room, usersInRoom))];
    }

    /** The 'join room' handler. */
    method JoinRoom(id: string, nickname: string, room: string)
      requires Valid()
      modifies this
      ensures Valid()
      ensures users == Events.JoinRoom(old(users), id, nickname, room).users
      ensures log == old(log) + Events.JoinRoom(old(users), id, nickname, room).emits
    {
      PutLeavesOthers(users, id, nickname, room);
      users := Put(users, id, nickname, room);
      log := log + [Emit(room, Some(id), SystemMessageEvent, Text(JoinedText(nickname)))];
      UpdateUserList(room);
    }

    /** The 'chat message' handler. */
    method ChatMessage(id: string, message: string)
      requires Valid()
      modifies this`log
      ensures Valid()
      ensures users == old(users)
      ensures log == old(log) + Events.ChatMessage(users, id, message).emits
    {
      var user := Lookup(users, id);
      if user.None? {
        return;
      }
      log := log + [Emit(user.value.room, None, ChatMessageEvent, ChatLine(user.value.nickname, message))];
    }

    /** The 'disconnect' handler. */
    method Disconnect(id: string)
      requires Valid()
      modifies this
      ensures Valid()
      ensures users == Events.Disconnect(old(users), id).users
      ensures log == old(log) + Events.Disconnect(old(users), id).emits
    {
      var user := Lookup(users, id);
      if user.Some? {
        var nickname, room := user.value.nickname, user.value.room;
        DeleteKeepsUniqueIds(users, id);
        users := Delete(users, id);
        log := log + [Emit(room, None, SystemMessageEvent, Text(LeftText(nickname)))];
        UpdateUserList(room);
      }
    }
  }
}
