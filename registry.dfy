/**
  The session registry: the `users` object of index.js (line 17), which maps a
  socket id to `{nickname, room}`.

  A JavaScript object iterates its own string keys (none of which is an array
  index here) in insertion order; assigning to an existing key keeps its place,
  `delete` removes it and a new key goes to the end (ECMA-262, section 10.1.11.1,
  OrdinaryOwnPropertyKeys). The registry is therefore an association list of
  entries in that order, with at most one entry per id.
*/
module Registry {
  import opened Wrappers

  /** One own property of `users`: key `id`, value `{nickname, room}`. */
  datatype Entry = Entry(id: string, nickname: string, room: string)

  /** The value stored under a key. */
  datatype User = User(nickname: string, room: string)

  type Registry = seq<Entry>

  /** Object keys are unique. */
  predicate UniqueIds(r: Registry) {
    forall i, j :: 0 <= i < j < |r| ==> r[i].id != r[j].id
  }

  /** True when `id` is an own key of the registry. */
  predicate Has(r: Registry, id: string) {
    IndexOf(r, id) < |r|
  }

  /** The position of the key `id`, or `|r|` when it is absent. */
  function IndexOf(r: Registry, id: string): (k: nat)
    ensures k <= |r|
    ensures k < |r| ==> r[k].id == id
    ensures forall i :: 0 <= i < k ==> r[i].id != id
  {
    if r == [] then 0
    else if r[0].id == id then 0
    else 1 + IndexOf(r[1..], id)
  }

  /** Any position that is the first one holding `id` (or `|r|` when no
      position holds it) is the one `IndexOf` finds. */
  lemma IndexOfIs(r: Registry, id: string, k: nat)
    requires k <= |r|
    requires k < |r| ==> r[k].id == id
    requires forall i :: 0 <= i < k ==> r[i].id != id
    ensures IndexOf(r, id) == k
  {
  }

  /** `users[id]`: the record stored under `id`, if any. */
  function Lookup(r: Registry, id: string): (u: Option<User>)
    ensures u.Some? <==> Has(r, id)
    ensures u.Some? ==> r[IndexOf(r, id)] == Entry(id, u.value.nickname, u.value.room)
  {
    var k := IndexOf(r, id);
    if k < |r| then Some(User(r[k].nickname, r[k].room)) else None
  }

  /** `users[id] = {nickname, room}`: overwrite in place or append at the end. */
  function Put(r: Registry, id: string, nickname: string, room: string): (r': Registry)
    ensures Lookup(r', id) == Some(User(nickname, room))
    ensures |r'| == if Has(r, id) then |r| else |r| + 1
  {
    var k := IndexOf(r, id);
    var e := Entry(id, nickname, room);
    var r' := if k < |r| then r[k := e] else r + [e];
    IndexOfIs(r', id, k);
    r'
  }

  /**
    Storing under `id` changes the registry at the id's own position only (a
    new id is appended): every other id keeps its record and its position,
    and keys stay unique.
  */
  lemma PutLeavesOthers(r: Registry, id: string, nickname: string, room: string)
    ensures var r' := Put(r, id, nickname, room);
            && (forall other :: other != id ==> Lookup(r', other) == Lookup(r, other))
            && (forall i :: 0 <= i < |r| && i != IndexOf(r, id) ==> r'[i] == r[i])
            && (Has(r, id) ==> r'[IndexOf(r, id)] == Entry(id, nickname, room))
            && (!Has(r, id) ==> r'[|r|] == Entry(id, nickname, room))
            && (UniqueIds(r) ==> UniqueIds(r'))
  {
    var k := IndexOf(r, id);
    var e := Entry(id, nickname, room);
    var r' := Put(r, id, nickname, room);
    assert r' == if k < |r| then r[k := e] else r + [e];
    assert forall i :: 0 <= i < |r'| && i != k ==> r'[i] == r[i];
    assert r'[k] == e;
    forall other | other != id
      ensures Lookup(r', other) == Lookup(r, other)
    {
      var j := IndexOf(r, other);
      IndexOfIs(r', other, if j < |r| then j else |r'|);
    }
  }

  /** `delete users[id]`: drop the key, keeping the others in order. */
  function Delete(r: Registry, id: string): (r': Registry)
    ensures !Has(r, id) ==> r' == r
    ensures Has(r, id) ==> |r'| == |r| - 1
  {
    var k := IndexOf(r, id);
    if k < |r| then r[..k] + r[k + 1..] else r
  }

  /** Deleting `id` keeps the entries before it in place and moves those after it up by one. */
  lemma DeleteShifts(r: Registry, id: string)
    requires Has(r, id)
    ensures var r', k := Delete(r, id), IndexOf(r, id);
            forall i :: 0 <= i < |r'| ==> r'[i] == r[if i < k then i else i + 1]
  {
    var k := IndexOf(r, id);
    var r' := Delete(r, id);
    assert r' == r[..k] + r[k + 1..];
    forall i | 0 <= i < |r'|
      ensures r'[i] == r[if i < k then i else i + 1]
    {
      if i < k {
        assert r'[i] == r[..k][i];
      } else {
        assert r'[i] == r[k + 1..][i - k];
      }
    }
  }

  /** Deleting `id` leaves the record of every other id as it was. */
  lemma DeleteLeavesOthers(r: Registry, id: string, other: string)
    requires other != id
    ensures Lookup(Delete(r, id), other) == Lookup(r, other)
  {
    var k := IndexOf(r, id);
    if k < |r| {
      DeleteShifts(r, id);
      var j := IndexOf(r, other);
      IndexOfIs(Delete(r, id), other, if j < k then j else j - 1);
    }
  }

  /** With unique keys, deleting `id` keeps the keys unique and leaves no entry for `id`. */
  lemma DeleteKeepsUniqueIds(r: Registry, id: string)
    requires UniqueIds(r)
    ensures UniqueIds(Delete(r, id)) && !Has(Delete(r, id), id)
  {
    if Has(r, id) {
      DeleteShifts(r, id);
    }
  }

  /**
    The nicknames of the entries whose room is `room`, in registry order,
    duplicates kept: what the `for...in` scan of `updateUserList` collects.
    Defined from the end so that scanning a prefix extends it by one entry.
  */
  function MembersOf(r: Registry, room: string): (names: seq<string>)
    ensures |names| <= |r|
  {
    if r == [] then []
    else
      var last := r[|r| - 1];
      MembersOf(r[..|r| - 1], room) + (if last.room == room then [last.nickname] else [])
  }

  /** The positions of the entries whose room is `room`, in increasing order. */
  function RoomPositions(r: Registry, room: string): (p: seq<nat>)
    ensures forall j :: 0 <= j < |p| ==> p[j] < |r| && r[p[j]].room == room
    ensures forall j, k :: 0 <= j < k < |p| ==> p[j] < p[k]
    ensures forall i :: 0 <= i < |r| && r[i].room == room ==> i in p
  {
    if r == [] then []
    else RoomPositions(r[..|r| - 1], room) + (if r[|r| - 1].room == room then [|r| - 1] else [])
  }

  /** Scanning two registries one after the other collects the two lists in turn. */
  lemma {:induction false} MembersOfConcat(a: Registry, b: Registry, room: string)
    ensures MembersOf(a + b, room) == MembersOf(a, room) + MembersOf(b, room)
    decreases |b|
  {
    if b == [] {
      assert a + b == a;
    } else {
      var ab := a + b;
      assert ab[..|ab| - 1] == a + b[..|b| - 1];
      assert ab[|ab| - 1] == b[|b| - 1];
      MembersOfConcat(a, b[..|b| - 1], room);
    }
  }

  /** A nickname is listed for `room` exactly when some entry of that room carries it. */
  lemma {:induction false} MembersOfContains(r: Registry, room: string, n: string)
    ensures n in MembersOf(r, room) <==> exists i :: 0 <= i < |r| && r[i].room == room && r[i].nickname == n
    decreases |r|
  {
    if r != [] {
      var front := r[..|r| - 1];
      MembersOfContains(front, room, n);
      assert forall i :: 0 <= i < |front| ==> front[i] == r[i];
    }
  }

  /** The scan of a single entry. */
  lemma MembersOfOne(e: Entry, room: string)
    ensures MembersOf([e], room) == if e.room == room then [e.nickname] else []
  {
    assert [e][..0] == [];
  }

  /**
    The user list of a room is exactly the nicknames of the entries whose room
    matches, one per entry (duplicates kept), in registry order.
  */
  lemma {:induction false} MembersOfAt(r: Registry, room: string)
    ensures |MembersOf(r, room)| == |RoomPositions(r, room)|
    ensures forall j :: 0 <= j < |MembersOf(r, room)| ==>
              MembersOf(r, room)[j] == r[RoomPositions(r, room)[j]].nickname
    decreases |r|
  {
    if r != [] {
      var front := r[..|r| - 1];
      var last := r[|r| - 1];
      MembersOfAt(front, room);
      var m, mf := MembersOf(r, room), MembersOf(front, room);
      var p, pf := RoomPositions(r, room), RoomPositions(front, room);
      assert m == mf + (if last.room == room then [last.nickname] else []);
      assert p == pf + (if last.room == room then [|r| - 1] else []);
      forall j | 0 <= j < |m|
        ensures m[j] == r[p[j]].nickname
      {
        if j < |mf| {
          assert m[j] == mf[j] && p[j] == pf[j];
          assert front[pf[j]] == r[pf[j]];
        }
      }
    }
  }

  /**
    Removing a key takes exactly that entry's nickname out of its room's list
    (one occurrence of it) and leaves every other room's list as it was.
  */
  lemma DeleteMembers(r: Registry, id: string, room: string)
    ensures var before := MembersOf(r, room);
            var after := MembersOf(Delete(r, id), room);
            match Lookup(r, id)
            case Some(u) =>
              if u.room == room
              then |after| == |before| - 1 && multiset(after) == multiset(before) - multiset{u.nickname}
              else after == before
            case None => after == before
  {
    var k := IndexOf(r, id);
    if k < |r| {
      DeleteMembersInOrder(r, id, room);
      var front, back := MembersOf(r[..k], room), MembersOf(r[k + 1..], room);
      if r[k].room == room {
        MultisetInsert(front, r[k].nickname, back);
      } else {
        ConcatEmpty(front, back);
      }
    }
  }

  /**
    In order: the list after deleting `id` is the list of the entries before
    it followed by the list of the entries after it, and the list before the
    delete had the departed nickname between the two when it was in the room.
  */
  lemma DeleteMembersInOrder(r: Registry, id: string, room: string)
    requires Has(r, id)
    ensures var k := IndexOf(r, id);
            var front, back := MembersOf(r[..k], room), MembersOf(r[k + 1..], room);
            && MembersOf(Delete(r, id), room) == front + back
            && MembersOf(r, room) == front + (if r[k].room == room then [r[k].nickname] else []) + back
  {
    var k := IndexOf(r, id);
    assert r == r[..k] + [r[k]] + r[k + 1..];
    assert Delete(r, id) == r[..k] + r[k + 1..];
    MembersOfConcat(r[..k], r[k + 1..], room);
    MembersOfInsert(r[..k], r[k], r[k + 1..], room);
  }

  lemma MultisetInsert<T>(a: seq<T>, x: T, b: seq<T>)
    ensures multiset(a + [x] + b) == multiset(a + b) + multiset{x}
  {
    assert a + [x] + b == a + ([x] + b);
  }

  /** Inserting one entry between two parts of a registry inserts its
      nickname, when it belongs to the room, between their two lists. */
  lemma MembersOfInsert(front: Registry, e: Entry, back: Registry, q: string)
    ensures e.room == q ==> MembersOf(front + [e] + back, q) == MembersOf(front, q) + [e.nickname] + MembersOf(back, q)
    ensures e.room != q ==> MembersOf(front + [e] + back, q) == MembersOf(front, q) + MembersOf(back, q)
  {
    MembersOfConcat(front + [e], back, q);
    MembersOfConcat(front, [e], q);
    MembersOfOne(e, q);
    if e.room != q {
      ConcatEmpty(MembersOf(front, q), MembersOf(back, q));
    }
  }

  lemma ConcatEmpty<T>(a: seq<T>, b: seq<T>)
    ensures a + [] + b == a + b
  {
  }

  /** `Put` writes the new entry where `Delete` would have removed the old
      one, or at the end. */
  lemma PutSplit(r: Registry, id: string, nickname: string, room: string)
    ensures var k := IndexOf(r, id);
            var d := Delete(r, id);
            k <= |d| && Put(r, id, nickname, room) == d[..k] + [Entry(id, nickname, room)] + d[k..]
  {
    var k := IndexOf(r, id);
    var e := Entry(id, nickname, room);
    if k < |r| {
      assert Delete(r, id) == r[..k] + r[k + 1..];
      assert Put(r, id, nickname, room) == r[k := e];
      assert (r[..k] + r[k + 1..])[..k] == r[..k];
      assert (r[..k] + r[k + 1..])[k..] == r[k + 1..];
      assert r[k := e] == r[..k] + [e] + r[k + 1..];
    } else {
      assert Delete(r, id) == r;
    }
  }

  /**
    Storing `{nickname, room}` under `id` takes the id's old entry out of every
    list, as `delete` would, and adds `nickname` once to the list of `room`.
  */
  lemma PutMembers(r: Registry, id: string, nickname: string, room: string, q: string)
    ensures q != room ==> MembersOf(Put(r, id, nickname, room), q) == MembersOf(Delete(r, id), q)
    ensures q == room ==> |MembersOf(Put(r, id, nickname, room), q)| == |MembersOf(Delete(r, id), q)| + 1
    ensures q == room ==> multiset(MembersOf(Put(r, id, nickname, room), q))
                          == multiset(MembersOf(Delete(r, id), q)) + multiset{nickname}
  {
    var k := IndexOf(r, id);
    var d := Delete(r, id);
    PutSplit(r, id, nickname, room);
    MembersOfInsert(d[..k], Entry(id, nickname, room), d[k..], q);
    assert d == d[..k] + d[k..];
    MembersOfConcat(d[..k], d[k..], q);
    var a, b := MembersOf(d[..k], q), MembersOf(d[k..], q);
    if room == q {
      assert MembersOf(Put(r, id, nickname, room), q) == a + [nickname] + b;
      MultisetInsert(a, nickname, b);
    }
  }
}
