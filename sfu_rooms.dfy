/**
 * The room registry of the SFU server: `users`, a map from a room to the
 * ordered list of publishers whose media track has arrived, each with the
 * stream that track belongs to.
 */
module SfuRooms {
  import opened Common

  /** The opaque media stream `e.streams[0]` of a track event. */
  datatype Stream = Stream(token: nat)

  /** One entry `{id, stream}` of a room's list. */
  datatype Member = Member(id: SocketId, stream: Stream)

  type Rooms = map<RoomId, seq<Member>>

  /** Some entry of `members` carries `id`. */
  predicate Includes(members: seq<Member>, id: SocketId) {
    exists i :: 0 <= i < |members| && members[i].id == id
  }

  predicate DistinctIds(members: seq<Member>) {
    forall i, j :: 0 <= i < j < |members| ==> members[i].id != members[j].id
  }

  /** What every operation keeps: no room is empty, and no publisher is listed twice in a room. */
  predicate RoomsWf(users: Rooms) {
    forall r :: r in users ==> users[r] != [] && DistinctIds(users[r])
  }

  /** The room's list, or the empty list for an unknown room. */
  function RoomOf(users: Rooms, roomID: RoomId): seq<Member> {
    if roomID in users then users[roomID] else []
  }

  function Ids(members: seq<Member>): (r: seq<SocketId>)
    ensures |r| == |members|
    ensures forall i :: 0 <= i < |members| ==> r[i] == members[i].id
  {
    seq(|members|, i requires 0 <= i < |members| => members[i].id)
  }

  /** Number of entries of `members` that carry `id`. */
  function CountId(members: seq<Member>, id: SocketId): nat {
    if members == [] then 0
    else CountId(members[..|members| - 1], id) + (if members[|members| - 1].id == id then 1 else 0)
  }

  /** The ids of `members` in list order, leaving out every entry that carries `id`. */
  function OtherIds(members: seq<Member>, id: SocketId): (r: seq<SocketId>)
    ensures |r| <= |members|
    ensures id !in r
  {
    if members == [] then []
    else
      var last := members[|members| - 1];
      OtherIds(members[..|members| - 1], id) + (if last.id == id then [] else [last.id])
  }

  /** The answer to "who else publishes in this room": nothing for an unknown room. */
  function OthersInRoom(users: Rooms, roomID: RoomId, id: SocketId): (r: seq<SocketId>)
    ensures id !in r
    ensures roomID !in users ==> r == []
    ensures |r| <= |RoomOf(users, roomID)|
  {
    if roomID in users then OtherIds(users[roomID], id) else []
  }

  lemma {:induction false} OtherIdsMembership(members: seq<Member>, id: SocketId, x: SocketId)
    ensures x in OtherIds(members, id) <==> x != id && Includes(members, x)
  {
    if members != [] {
      var init, last := members[..|members| - 1], members[|members| - 1];
      OtherIdsMembership(init, id, x);
      assert members == init + [last];
      if Includes(members, x) && x != last.id {
        var i :| 0 <= i < |members| && members[i].id == x;
        assert init[i].id == x;
      }
      if Includes(init, x) {
        var i :| 0 <= i < |init| && init[i].id == x;
        assert members[i].id == x;
      }
    }
  }

  lemma {:induction false} OtherIdsLength(members: seq<Member>, id: SocketId)
    ensures |OtherIds(members, id)| + CountId(members, id) == |members|
  {
    if members != [] {
      OtherIdsLength(members[..|members| - 1], id);
    }
  }

  /** The query distributes over concatenation, so it keeps the room's insertion order. */
  lemma {:induction false} OtherIdsAppend(a: seq<Member>, b: seq<Member>, id: SocketId)
    ensures OtherIds(a + b, id) == OtherIds(a, id) + OtherIds(b, id)
  {
    if b != [] {
      var init := b[..|b| - 1];
      assert (a + b)[..|a + b| - 1] == a + init;
      OtherIdsAppend(a, init, id);
    } else {
      assert a + b == a;
    }
  }

  /** When the caller is not listed, the answer is every id of the room, in order. */
  lemma {:induction false} OtherIdsWhenAbsent(members: seq<Member>, id: SocketId)
    requires !Includes(members, id)
    ensures OtherIds(members, id) == Ids(members)
  {
    if members != [] {
      var init := members[..|members| - 1];
      forall i | 0 <= i < |init| ensures init[i].id != id {
        assert init[i] == members[i];
      }
      OtherIdsWhenAbsent(init, id);
      assert members[|members| - 1].id != id;
      assert Ids(members) == Ids(init) + [members[|members| - 1].id];
    }
  }

  /** The caller never appears in its own answer, whatever the room holds. */
  lemma CallerNeverListed(users: Rooms, roomID: RoomId, id: SocketId)
    ensures id !in OthersInRoom(users, roomID, id)
    ensures roomID !in users ==> OthersInRoom(users, roomID, id) == []
  {
    if roomID in users {
      OtherIdsMembership(users[roomID], id, id);
    }
  }

  // ---------------------------------------------------------------------
  // deleteUser

  /** The entries of `members` whose id differs from `id`, in list order. */
  function WithoutMember(members: seq<Member>, id: SocketId): (r: seq<Member>)
    ensures |r| <= |members|
    ensures forall m :: m in r <==> m in members && m.id != id
    ensures !Includes(r, id)
  {
    if members == [] then []
    else
      var init, last := members[..|members| - 1], members[|members| - 1];
      assert members == init + [last];
      WithoutMember(init, id) + (if last.id == id then [] else [last])
  }

  lemma {:induction false} WithoutMemberDistinct(members: seq<Member>, id: SocketId)
    requires DistinctIds(members)
    ensures DistinctIds(WithoutMember(members, id))
  {
    if members != [] {
      var init, last := members[..|members| - 1], members[|members| - 1];
      assert DistinctIds(init);
      WithoutMemberDistinct(init, id);
      var w := WithoutMember(init, id);
      if last.id != id {
        forall i | 0 <= i < |w| ensures w[i].id != last.id {
          assert w[i] in init;
          var k :| 0 <= k < |init| && init[k] == w[i];
          assert members[k] == w[i];
        }
      }
    }
  }

  /** The filter keeps list order: it distributes over concatenation. */
  lemma {:induction false} WithoutMemberAppend(a: seq<Member>, b: seq<Member>, id: SocketId)
    ensures WithoutMember(a + b, id) == WithoutMember(a, id) + WithoutMember(b, id)
  {
    if b != [] {
      var init := b[..|b| - 1];
      assert (a + b)[..|a + b| - 1] == a + init;
      WithoutMemberAppend(a, init, id);
    } else {
      assert a + b == a;
    }
  }

  /** Some entry of `members` carries an id other than `id`. */
  predicate HasOtherThan(members: seq<Member>, id: SocketId) {
    exists i :: 0 <= i < |members| && members[i].id != id
  }

  /** The filter leaves something exactly when some entry carries another id. */
  lemma WithoutMemberEmpty(members: seq<Member>, id: SocketId)
    ensures WithoutMember(members, id) != [] <==> HasOtherThan(members, id)
  {
    var rest := WithoutMember(members, id);
    if HasOtherThan(members, id) {
      var i :| 0 <= i < |members| && members[i].id != id;
      assert members[i] in rest;
    }
    if rest != [] {
      assert rest[0] in members;
      var i :| 0 <= i < |members| && members[i] == rest[0];
    }
  }

  /** The room after deleteUser removed `socketID`: the rest, or no room at all once it is empty. */
  function RemoveFromRoom(users: Rooms, roomID: RoomId, socketID: SocketId): (r: Rooms)
    requires roomID in users
    ensures forall k :: k != roomID ==> (k in r <==> k in users)
    ensures forall k :: k != roomID && k in users ==> r[k] == users[k]
    ensures roomID in r ==> r[roomID] != [] && !Includes(r[roomID], socketID)
  {
    var rest := WithoutMember(users[roomID], socketID);
    if |rest| == 0 then users - {roomID} else users[roomID := rest]
  }

  lemma RemoveFromRoomSpec(users: Rooms, roomID: RoomId, socketID: SocketId)
    requires roomID in users
    ensures var r := RemoveFromRoom(users, roomID, socketID);
      && (forall k :: k != roomID ==> (k in r <==> k in users))
      && (forall k :: k != roomID && k in users ==> r[k] == users[k])
      && (roomID in r <==> HasOtherThan(users[roomID], socketID))
      && (roomID in r ==> r[roomID] == WithoutMember(users[roomID], socketID) && !Includes(r[roomID], socketID))
      && (RoomsWf(users) ==> RoomsWf(r))
  {
    WithoutMemberEmpty(users[roomID], socketID);
    if RoomsWf(users) {
      WithoutMemberDistinct(users[roomID], socketID);
    }
  }

  // ---------------------------------------------------------------------
  // ontrack: confirming a publisher in its room

  datatype Confirmation = Confirmation(users: Rooms, entered: bool)

  /** The room update of the ingest connection's track event; `entered` says whether userEnter goes out. */
  function Confirm(users: Rooms, roomID: RoomId, socketID: SocketId, stream: Stream): (c: Confirmation)
    ensures roomID in c.users && Includes(c.users[roomID], socketID)
    ensures !c.entered ==> c.users == users
  {
    if roomID in users then
      if !Includes(users[roomID], socketID) then
        var l := users[roomID] + [Member(socketID, stream)];
        assert l[|l| - 1].id == socketID;
        Confirmation(users[roomID := l], true)
      else
        Confirmation(users, false)
    else
      var l := [Member(socketID, stream)];
      assert l[0].id == socketID;
      Confirmation(users[roomID := l], true)
  }

  /** The publisher is listed afterwards; the list grows by exactly its entry when, and only when, userEnter is sent. */
  lemma ConfirmAppendsOnce(users: Rooms, roomID: RoomId, socketID: SocketId, stream: Stream)
    ensures var c := Confirm(users, roomID, socketID, stream);
      && roomID in c.users
      && Includes(c.users[roomID], socketID)
      && (forall k :: k != roomID ==> (k in c.users <==> k in users))
      && (forall k :: k != roomID && k in users ==> c.users[k] == users[k])
      && (c.entered <==> |c.users[roomID]| == |RoomOf(users, roomID)| + 1)
      && (c.entered <==> !Includes(RoomOf(users, roomID), socketID))
      && (c.entered ==> c.users[roomID] == RoomOf(users, roomID) + [Member(socketID, stream)])
      && (!c.entered ==> c.users == users)
  {
    var c := Confirm(users, roomID, socketID, stream);
    var old_ := RoomOf(users, roomID);
    if !Includes(old_, socketID) {
      assert c.users[roomID][|old_|].id == socketID;
    }
  }

  /** A second track event for a confirmed publisher changes nothing and sends nothing. */
  lemma ConfirmIdempotent(users: Rooms, roomID: RoomId, socketID: SocketId, s1: Stream, s2: Stream)
    ensures var c1 := Confirm(users, roomID, socketID, s1);
      var c2 := Confirm(c1.users, roomID, socketID, s2);
      c2.users == c1.users && !c2.entered
  {
    ConfirmAppendsOnce(users, roomID, socketID, s1);
  }

  lemma ConfirmKeepsWf(users: Rooms, roomID: RoomId, socketID: SocketId, stream: Stream)
    requires RoomsWf(users)
    ensures RoomsWf(Confirm(users, roomID, socketID, stream).users)
  {
    var c := Confirm(users, roomID, socketID, stream);
    if roomID in users && !Includes(users[roomID], socketID) {
      var l := c.users[roomID];
      forall i, j | 0 <= i < j < |l| ensures l[i].id != l[j].id {
        if j == |l| - 1 {
          assert users[roomID][i].id == l[i].id;
        } else {
          assert users[roomID][i] == l[i] && users[roomID][j] == l[j];
        }
      }
    }
  }

  /** Every other member's later query sees the newly confirmed publisher at the end of its answer. */
  lemma OthersSeeNewPublisher(users: Rooms, roomID: RoomId, socketID: SocketId, stream: Stream, asker: SocketId)
    requires asker != socketID
    ensures var c := Confirm(users, roomID, socketID, stream);
      c.entered ==> OthersInRoom(c.users, roomID, asker) == OthersInRoom(users, roomID, asker) + [socketID]
  {
    var c := Confirm(users, roomID, socketID, stream);
    if c.entered {
      var old_ := RoomOf(users, roomID);
      ConfirmAppendsOnce(users, roomID, socketID, stream);
      OtherIdsAppend(old_, [Member(socketID, stream)], asker);
      assert [Member(socketID, stream)][..0] == [];
    }
  }

  // ---------------------------------------------------------------------
  // the publisher's stream attached to a new egress connection

  /** The entries of `members` that carry `id`, in list order. */
  function MembersWithId(members: seq<Member>, id: SocketId): (r: seq<Member>)
    ensures forall m :: m in r <==> m in members && m.id == id
  {
    if members == [] then []
    else
      var init, last := members[..|members| - 1], members[|members| - 1];
      assert members == init + [last];
      MembersWithId(init, id) + (if last.id == id then [last] else [])
  }

  /**
   * The stream of the room's first entry for the publisher; None where the
   * room or such an entry is missing, the two cases in which the lookup throws.
   */
  function PublisherStream(users: Rooms, roomID: RoomId, senderSocketID: SocketId): (r: Option<Stream>)
    ensures r.Some? ==> roomID in users && Member(senderSocketID, r.value) in users[roomID]
  {
    if roomID !in users then None
    else
      var sendUser := MembersWithId(users[roomID], senderSocketID);
      if sendUser == [] then None else Some(sendUser[0].stream)
  }

  /** A stream is found exactly for a confirmed publisher of the room, and it is that publisher's own stream. */
  lemma PublisherStreamSpec(users: Rooms, roomID: RoomId, senderSocketID: SocketId, stream: Stream)
    ensures PublisherStream(users, roomID, senderSocketID).Some?
        <==> roomID in users && Includes(users[roomID], senderSocketID)
    ensures PublisherStream(users, roomID, senderSocketID) == Some(stream)
        ==> Member(senderSocketID, stream) in users[roomID]
    ensures RoomsWf(users) && roomID in users && Member(senderSocketID, stream) in users[roomID]
        ==> PublisherStream(users, roomID, senderSocketID) == Some(stream)
  {
    if roomID in users {
      var room := users[roomID];
      var sendUser := MembersWithId(room, senderSocketID);
      if Includes(room, senderSocketID) {
        var i :| 0 <= i < |room| && room[i].id == senderSocketID;
        assert room[i] in sendUser;
      }
      if sendUser != [] {
        assert sendUser[0] in room;
        var k :| 0 <= k < |room| && room[k] == sendUser[0];
        if RoomsWf(users) && Member(senderSocketID, stream) in room {
          var j :| 0 <= j < |room| && room[j] == Member(senderSocketID, stream);
          assert room[j].id == room[k].id;
        }
      }
    }
  }
}
