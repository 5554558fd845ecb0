/**
  What each Socket.IO handler of index.js does to the registry and which
  broadcasts it emits, as functions of the registry before the event. Node runs
  one event handler to completion before the next, so each handler is one
  step from a registry to a registry plus the emits it made, in order.
*/
module Events {
  import opened Wrappers
  import opened Registry

  /** The payload of a server-to-room event. */
  datatype Payload =
    | Text(text: string)                                 // 'system message'
    | UserList(roomName: string, userList: seq<string>)   // 'update user list'
    | ChatLine(nickname: string, message: string)         // 'chat message'

  /**
    One `to(room).emit(event, payload)`. `excluding` is the emitting socket
    for `socket.to(room)` and `None` for `io.to(room)`; which sockets are in
    the room is Socket.IO's business and is not modelled.
  */
  datatype Emit = Emit(room: string, excluding: Option<string>, event: string, payload: Payload)

  const SystemMessageEvent := "system message"
  const UpdateUserListEvent := "update user list"
  const ChatMessageEvent := "chat message"

  function JoinedText(nickname: string): string {
    nickname + " has joined the event."
  }

  function LeftText(nickname: string): string {
    nickname + " has left the event."
  }

  /** The broadcast `updateUserList(room)` makes when the registry is `r`. */
  function UserListEmit(r: Registry, room: string): (e: Emit)
    ensures e.payload.UserList? && e.payload.roomName == e.room == room
    ensures |e.payload.userList| <= |r|
  {
    Emit(room, None, UpdateUserListEvent, UserList(room, MembersOf(r, room)))
  }

  /** The registry after a handler ran, and the broadcasts it made in order. */
  datatype Outcome = Outcome(users: Registry, emits: seq<Emit>)

  /** The 'join room' handler. */
  function JoinRoom(r: Registry, id: string, nickname: string, room: string): (o: Outcome)
    ensures Lookup(o.users, id) == Some(User(nickname, room))
    ensures |o.emits| == 2 && o.emits[0].excluding == Some(id) && o.emits[1].excluding == None
  {
    var r' := Put(r, id, nickname, room);
    Outcome(r', [Emit(room, Some(id), SystemMessageEvent, Text(JoinedText(nickname))), UserListEmit(r', room)])
  }

  /** The 'chat message' handler. */
  function ChatMessage(r: Registry, id: string, message: string): (o: Outcome)
    ensures o.users == r
    ensures |o.emits| == if Has(r, id) then 1 else 0
  {
    match Lookup(r, id)
    case None => Outcome(r, [])
    case Some(u) => Outcome(r, [Emit(u.room, None, ChatMessageEvent, ChatLine(u.nickname, message))])
  }

  /** The 'disconnect' handler. */
  function Disconnect(r: Registry, id: string): (o: Outcome)
    ensures !Has(r, id) ==> o == Outcome(r, [])
    ensures Has(r, id) ==> |o.users| == |r| - 1 && |o.emits| == 2
  {
    match Lookup(r, id)
    case None => Outcome(r, [])
    case Some(u) =>
      var r' := Delete(r, id);
      Outcome(r', [Emit(u.room, None, SystemMessageEvent, Text(LeftText(u.nickname))), UserListEmit(r', u.room)])
  }

  /** An incoming event, tagged with the id of the socket it came from. */
  datatype Event =
    | Joining(id: string, nickname: string, room: string)
    | Sending(id: string, message: string)
    | Disconnecting(id: string)

  /** Dispatch of one event to its handler. */
  function Step(r: Registry, e: Event): (o: Outcome)
    ensures |o.emits| <= 2
    ensures e.Sending? ==> o.users == r
  {
    match e
    case Joining(id, nickname, room) => JoinRoom(r, id, nickname, room)
    case Sending(id, message) => ChatMessage(r, id, message)
    case Disconnecting(id) => Disconnect(r, id)
  }

  /** Events handled one after another; the emits of all of them, in order. */
  function Run(r: Registry, es: seq<Event>): (o: Outcome)
    ensures |o.emits| <= 2 * |es|
    ensures (forall k :: 0 <= k < |es| ==> es[k].Sending?) ==> o.users == r
    decreases |es|
  {
    if es == [] then Outcome(r, [])
    else
      var first := Step(r, es[0]);
      var rest := Run(first.users, es[1..]);
      Outcome(rest.users, first.emits + rest.emits)
  }

  // ---------------------------------------------------------------------------
  // Properties of the handlers

  /**
    A join emits two broadcasts to the joined room: the announcement, which
    leaves out the joining socket, then the member list of the registry after
    the join, which now holds the joiner's nickname once more than it would
    without the id.
  */
  lemma JoinAnnouncesThenLists(r: Registry, id: string, nickname: string, room: string)
    ensures var o := JoinRoom(r, id, nickname, room);
            && o.users == Put(r, id, nickname, room)
            && o.emits[1] == UserListEmit(o.users, room)
            && |o.emits| == 2
            && o.emits[0] == Emit(room, Some(id), SystemMessageEvent, Text(nickname + " has joined the event."))
            && o.emits[1].room == room && o.emits[1].excluding == None
            && o.emits[1].event == UpdateUserListEvent
            && o.emits[1].payload.UserList? && o.emits[1].payload.roomName == room
            && multiset(o.emits[1].payload.userList)
               == multiset(MembersOf(Delete(r, id), room)) + multiset{nickname}
            && nickname in o.emits[1].payload.userList
  {
    PutMembers(r, id, nickname, room, room);
    var list := MembersOf(Put(r, id, nickname, room), room);
    assert nickname in multiset(list);
  }

  /**
    A second join from a registered id moves it to the new room without a word
    to the old one: nothing is emitted to the old room, yet the old room's
    member list has lost the id's nickname.
  */
  lemma RejoinIsSilentForOldRoom(r: Registry, id: string, nickname: string, room: string)
    requires Lookup(r, id).Some? && Lookup(r, id).value.room != room
    ensures var o := JoinRoom(r, id, nickname, room);
            forall k :: 0 <= k < |o.emits| ==> o.emits[k].room == room
    ensures var prev := Lookup(r, id).value;
            multiset(MembersOf(JoinRoom(r, id, nickname, room).users, prev.room))
            == multiset(MembersOf(r, prev.room)) - multiset{prev.nickname}
  {
    var prev := Lookup(r, id).value;
    var after := MembersOf(Put(r, id, nickname, room), prev.room);
    var removed := MembersOf(Delete(r, id), prev.room);
    assert after == removed by {
      PutMembers(r, id, nickname, room, prev.room);
    }
    assert multiset(removed) == multiset(MembersOf(r, prev.room)) - multiset{prev.nickname} by {
      DeleteMembers(r, id, prev.room);
    }
  }

  /** A chat from a registered id goes to that id's whole room, sender included. */
  lemma ChatEchoesToWholeRoom(r: Registry, id: string, message: string)
    requires Has(r, id)
    ensures var o := ChatMessage(r, id, message);
            var u := Lookup(r, id).value;
            && o.users == r
            && o.emits == [Emit(u.room, None, ChatMessageEvent, ChatLine(u.nickname, message))]
  {
  }

  /** An id with no entry triggers nothing: no emit and no change. */
  lemma UnjoinedIsSilent(r: Registry, id: string, message: string)
    requires !Has(r, id)
    ensures ChatMessage(r, id, message) == Outcome(r, [])
    ensures Disconnect(r, id) == Outcome(r, [])
  {
  }

  /**
    A disconnect of a registered id removes it before it lists its old room:
    the list is the old room's list with one occurrence of the departed
    nickname taken out, preceded by the "has left" announcement.
  */
  lemma DisconnectListsWithoutDeparted(r: Registry, id: string)
    requires Has(r, id)
    ensures var o := Disconnect(r, id);
            var u := Lookup(r, id).value;
            && |o.emits| == 2
            && o.emits[0] == Emit(u.room, None, SystemMessageEvent, Text(u.nickname + " has left the event."))
            && o.users == Delete(r, id)
            && o.emits[1] == UserListEmit(o.users, u.room)
            && o.emits[1].room == u.room && o.emits[1].excluding == None
            && o.emits[1].event == UpdateUserListEvent
            && o.emits[1].payload.UserList? && o.emits[1].payload.roomName == u.room
            && |o.emits[1].payload.userList| == |MembersOf(r, u.room)| - 1
            && multiset(o.emits[1].payload.userList) == multiset(MembersOf(r, u.room)) - multiset{u.nickname}
  {
    DeleteMembers(r, id, Lookup(r, id).value.room);
  }

  /**
    After a disconnect the id is unjoined: a later chat from it is dropped and
    a repeated disconnect changes nothing and emits nothing.
  */
  lemma DisconnectIsFinal(r: Registry, id: string, message: string)
    requires UniqueIds(r)
    ensures var o := Disconnect(r, id);
            && !Has(o.users, id)
            && ChatMessage(o.users, id, message) == Outcome(o.users, [])
            && Disconnect(o.users, id) == Outcome(o.users, [])
  {
    DeleteKeepsUniqueIds(r, id);
  }

  /** Every member list a handler emits is the scan of the registry it leaves behind. */
  lemma ListsAreCurrent(r: Registry, e: Event)
    ensures var o := Step(r, e);
            forall k :: 0 <= k < |o.emits| && o.emits[k].event == UpdateUserListEvent ==>
              o.emits[k] == UserListEmit(o.users, o.emits[k].room)
  {
  }

  /** One handler keeps object keys unique. */
  lemma StepKeepsUniqueIds(r: Registry, e: Event)
    requires UniqueIds(r)
    ensures UniqueIds(Step(r, e).users)
  {
    match e
    case Joining(id, nickname, room) => PutLeavesOthers(r, id, nickname, room);
    case Sending(_, _) =>
    case Disconnecting(id) => DeleteKeepsUniqueIds(r, id);
  }

  /** Object keys stay unique whatever sequence of events arrives. */
  lemma {:induction false} RunKeepsUniqueIds(r: Registry, es: seq<Event>)
    requires UniqueIds(r)
    ensures UniqueIds(Run(r, es).users)
    decreases |es|
  {
    if es != [] {
      StepKeepsUniqueIds(r, es[0]);
      RunKeepsUniqueIds(Step(r, es[0]).users, es[1..]);
    }
  }

  // The texts and the four steps of the scenario below, one lemma each.

  lemma AliceJoinedText()
    ensures JoinedText("Alice") == "Alice has joined the event."
  {
  }

  lemma BobJoinedText()
    ensures JoinedText("Bob") == "Bob has joined the event."
  {
  }

  lemma BobLeftText()
    ensures LeftText("Bob") == "Bob has left the event."
  {
  }

  lemma AliceJoins()
    ensures JoinRoom([], "a", "Alice", "general") == Outcome([Entry("a", "Alice", "general")], [
              Emit("general", Some("a"), SystemMessageEvent, Text(JoinedText("Alice"))),
              Emit("general", None, UpdateUserListEvent, UserList("general", ["Alice"]))])
  {
    var r1 := [Entry("a", "Alice", "general")];
    assert Put([], "a", "Alice", "general") == r1;
    assert MembersOf(r1, "general") == ["Alice"] by {
      assert r1[..0] == [];
    }
  }

  lemma BobJoins()
    ensures JoinRoom([Entry("a", "Alice", "general")], "b", "Bob", "general")
            == Outcome([Entry("a", "Alice", "general"), Entry("b", "Bob", "general")], [
                 Emit("general", Some("b"), SystemMessageEvent, Text(JoinedText("Bob"))),
                 Emit("general", None, UpdateUserListEvent, UserList("general", ["Alice", "Bob"]))])
  {
    var r1, r2 := [Entry("a", "Alice", "general")], [Entry("a", "Alice", "general"), Entry("b", "Bob", "general")];
    assert Put(r1, "b", "Bob", "general") == r2 by {
      assert IndexOf(r1, "b") == 1;
    }
    assert MembersOf(r2, "general") == ["Alice", "Bob"] by {
      assert r2[..1] == r1 && r1[..0] == [];
    }
  }

  lemma AliceSaysHi()
    ensures ChatMessage([Entry("a", "Alice", "general"), Entry("b", "Bob", "general")], "a", "hi")
            == Outcome([Entry("a", "Alice", "general"), Entry("b", "Bob", "general")],
                       [Emit("general", None, ChatMessageEvent, ChatLine("Alice", "hi"))])
  {
    assert IndexOf([Entry("a", "Alice", "general"), Entry("b", "Bob", "general")], "a") == 0;
  }

  lemma BobLeaves()
    ensures Disconnect([Entry("a", "Alice", "general"), Entry("b", "Bob", "general")], "b")
            == Outcome([Entry("a", "Alice", "general")], [
                 Emit("general", None, SystemMessageEvent, Text(LeftText("Bob"))),
                 Emit("general", None, UpdateUserListEvent, UserList("general", ["Alice"]))])
  {
    var r1, r2 := [Entry("a", "Alice", "general")], [Entry("a", "Alice", "general"), Entry("b", "Bob", "general")];
    assert IndexOf(r2, "b") == 1;
    assert Delete(r2, "b") == r1 by {
      assert r2[..1] == r1;
    }
    assert MembersOf(r1, "general") == ["Alice"] by {
      assert r1[..0] == [];
    }
  }

  /**
    Alice joins "general", Bob joins "general", Alice says "hi", Bob
    disconnects.
  */
  lemma GeneralRoomScenario()
    ensures var o := Run([], [Joining("a", "Alice", "general"), Joining("b", "Bob", "general"),
                              Sending("a", "hi"), Disconnecting("b")]);
            && o.users == [Entry("a", "Alice", "general")]
            && o.emits == [
                 Emit("general", Some("a"), SystemMessageEvent, Text("Alice has joined the event.")),
                 Emit("general", None, UpdateUserListEvent, UserList("general", ["Alice"])),
                 Emit("general", Some("b"), SystemMessageEvent, Text("Bob has joined the event.")),
                 Emit("general", None, UpdateUserListEvent, UserList("general", ["Alice", "Bob"])),
                 Emit("general", None, ChatMessageEvent, ChatLine("Alice", "hi")),
                 Emit("general", None, SystemMessageEvent, Text("Bob has left the event.")),
                 Emit("general", None, UpdateUserListEvent, UserList("general", ["Alice"]))]
  {
    var es := [Joining("a", "Alice", "general"), Joining("b", "Bob", "general"),
               Sending("a", "hi"), Disconnecting("b")];
    AliceJoinedText();
    BobJoinedText();
    BobLeftText();
    AliceJoins();
    BobJoins();
    AliceSaysHi();
    BobLeaves();
    assert es[1..][1..][1..][1..] == [];
  }
}
