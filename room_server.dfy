/**
 * The two-party signaling server: rooms of at most `Maximum` sockets, each
 * entry `{id, email}`, a socket-to-room index, and relays of offers, answers
 * and candidates to every other connected socket.
 */
module TwoPartyServer {
  import opened Common

  /** The capacity of a room. */
  const Maximum: nat := 2

  /** One entry `{id, email}` of a room. */
  datatype Peer = Peer(id: SocketId, email: string)

  /** A relayed session description or candidate; the server never looks inside it. */
  datatype Payload = Payload(token: nat)

  /** How a message is addressed. */
  datatype Address =
    | ToRoom(name: string)                                  // io.sockets.to(name)
    | ToRoomExceptSender(name: string, sender: SocketId)    // socket.to(name)
    | BroadcastExceptSender(sender: SocketId)               // socket.broadcast
    // socket.broadcast.to(target) where target is the room's remaining list, or undefined, rather than a room name
    | ToListExceptSender(target: Option<seq<Peer>>, sender: SocketId)

  datatype Msg =
    | RoomFull
    | AllUsers(users: seq<Peer>)
    | GetOffer(sdp: Payload)
    | GetAnswer(sdp: Payload)
    | GetCandidate(candidate: Payload)
    | UserExit(id: SocketId)

  datatype Outbound = Emit(to: Address, msg: Msg)

  datatype Registry = Registry(users: map<RoomId, seq<Peer>>, socketToRoom: map<SocketId, RoomId>)

  /** The registry after a handler, and what it sent. */
  datatype Reply = Reply(reg: Registry, out: seq<Outbound>)

  /** The entries of `room` whose id differs from `id`, in room order. */
  function WithoutPeer(room: seq<Peer>, id: SocketId): (r: seq<Peer>)
    ensures |r| <= |room|
    ensures forall p :: p in r <==> p in room && p.id != id
  {
    if room == [] then []
    else
      var init, last := room[..|room| - 1], room[|room| - 1];
      assert room == init + [last];
      WithoutPeer(init, id) + (if last.id == id then [] else [last])
  }

  /** The filter keeps the room's order: it distributes over concatenation. */
  lemma {:induction false} WithoutPeerAppend(a: seq<Peer>, b: seq<Peer>, id: SocketId)
    ensures WithoutPeer(a + b, id) == WithoutPeer(a, id) + WithoutPeer(b, id)
  {
    if b != [] {
      var init := b[..|b| - 1];
      assert (a + b)[..|a + b| - 1] == a + init;
      WithoutPeerAppend(a, init, id);
    } else {
      assert a + b == a;
    }
  }

  /** Every room is non-empty and holds at most `Maximum` entries. */
  predicate Bounded(users: map<RoomId, seq<Peer>>) {
    forall r :: r in users ==> 0 < |users[r]| <= Maximum
  }

  function RoomOf(users: map<RoomId, seq<Peer>>, room: RoomId): seq<Peer> {
    if room in users then users[room] else []
  }

  /** The part of join_room after the capacity check: store the room, index the socket, list the others. */
  function Admit(g: Registry, self: SocketId, room: RoomId, members: seq<Peer>): Reply {
    Reply(Registry(g.users[room := members], g.socketToRoom[self := room]),
          [Emit(ToRoom(self), AllUsers(WithoutPeer(members, self)))])
  }

  /**
   * join_room from socket `self`: exactly one message goes out; it is room_full,
   * with nothing changed, exactly when the room already holds `Maximum` entries;
   * otherwise the joiner is in its room and the index, and is not in its own list.
   */
  function AfterJoin(g: Registry, self: SocketId, room: RoomId, email: string): (r: Reply)
    ensures |r.out| == 1
    ensures r.out[0].msg.RoomFull? <==> room in g.users && |g.users[room]| == Maximum
    ensures r.out[0].msg.RoomFull? ==> r.reg == g
    ensures !r.out[0].msg.RoomFull? ==>
      && r.out[0].msg.AllUsers?
      && room in r.reg.users && Peer(self, email) in r.reg.users[room]
      && r.reg.socketToRoom == g.socketToRoom[self := room]
      && (forall p :: p in r.out[0].msg.users ==> p.id != self)
  {
    if room in g.users then
      if |g.users[room]| == Maximum then Reply(g, [Emit(ToRoomExceptSender(self, self), RoomFull)])
      else Admit(g, self, room, g.users[room] + [Peer(self, email)])
    else Admit(g, self, room, [Peer(self, email)])
  }

  /**
   * disconnect of socket `self`: the socket index is kept, the socket has no
   * entry left in its room, and at most one message, user_exit for `self`, goes out.
   */
  function AfterDisconnect(g: Registry, self: SocketId): (r: Reply)
    ensures r.reg.socketToRoom == g.socketToRoom
    ensures |r.out| <= 1
    ensures forall o :: o in r.out ==> o.msg == UserExit(self) && o.to.ToListExceptSender? && o.to.sender == self
    ensures self in g.socketToRoom && g.socketToRoom[self] in r.reg.users ==>
      forall p :: p in r.reg.users[g.socketToRoom[self]] ==> p.id != self
  {
    if self in g.socketToRoom && g.socketToRoom[self] in g.users then
      var roomID := g.socketToRoom[self];
      var room := WithoutPeer(g.users[roomID], self);
      if |room| == 0 then Reply(Registry(g.users - {roomID}, g.socketToRoom), [])
      else Reply(Registry(g.users[roomID := room], g.socketToRoom), [Emit(ToListExceptSender(Some(room), self), UserExit(self))])
    else
      Reply(g, [Emit(ToListExceptSender(None, self), UserExit(self))])
  }

  /** A full room refuses the joiner: nothing changes and only room_full is sent. */
  lemma JoinFullRefuses(g: Registry, self: SocketId, room: RoomId, email: string)
    requires room in g.users && |g.users[room]| == Maximum
    ensures AfterJoin(g, self, room, email) == Reply(g, [Emit(ToRoomExceptSender(self, self), RoomFull)])
  {
  }

  /**
   * Otherwise the joiner is appended to the room (created if absent), indexed,
   * and told the room's earlier entries other than itself, in order; in a
   * bounded registry that is at most one peer.
   */
  lemma JoinAdmits(g: Registry, self: SocketId, room: RoomId, email: string)
    requires !(room in g.users && |g.users[room]| == Maximum)
    ensures var r := AfterJoin(g, self, room, email);
      && r.reg.users == g.users[room := RoomOf(g.users, room) + [Peer(self, email)]]
      && r.reg.socketToRoom == g.socketToRoom[self := room]
      && r.out == [Emit(ToRoom(self), AllUsers(WithoutPeer(RoomOf(g.users, room), self)))]
      && (forall p :: p in r.out[0].msg.users ==> p.id != self)
      && (Bounded(g.users) ==> |r.out[0].msg.users| < Maximum)
  {
    var before := RoomOf(g.users, room);
    WithoutPeerAppend(before, [Peer(self, email)], self);
    assert [Peer(self, email)][..0] == [];
    assert WithoutPeer([Peer(self, email)], self) == [];
    assert WithoutPeer(before + [Peer(self, email)], self) == WithoutPeer(before, self);
    if room !in g.users {
      assert [] + [Peer(self, email)] == [Peer(self, email)];
    }
  }

  lemma JoinKeepsBound(g: Registry, self: SocketId, room: RoomId, email: string)
    requires Bounded(g.users)
    ensures Bounded(AfterJoin(g, self, room, email).reg.users)
  {
  }

  /**
   * disconnect never clears the socket index; in a known room it drops all of
   * the socket's entries and keeps every other entry in order, deleting the
   * room, and sending nothing, exactly when none is left; otherwise it sends
   * one user_exit for the socket, addressed with the remaining list, or with
   * nothing when the socket or its room is unknown.
   */
  lemma DisconnectSpec(g: Registry, self: SocketId)
    ensures var r := AfterDisconnect(g, self);
      && r.reg.socketToRoom == g.socketToRoom
      && (self in g.socketToRoom && g.socketToRoom[self] in g.users ==>
            var roomID := g.socketToRoom[self];
            && (forall k :: k != roomID ==> (k in r.reg.users <==> k in g.users))
            && (forall k :: k != roomID && k in g.users ==> r.reg.users[k] == g.users[k])
            && (roomID in r.reg.users ==> r.reg.users[roomID] == WithoutPeer(g.users[roomID], self))
            && (roomID in r.reg.users ==> forall p :: p in r.reg.users[roomID] ==> p.id != self)
            && (forall p :: p in g.users[roomID] && p.id != self ==> roomID in r.reg.users && p in r.reg.users[roomID])
            && (roomID !in r.reg.users <==> forall p :: p in g.users[roomID] ==> p.id == self)
            && (r.out == [] <==> roomID !in r.reg.users)
            && (roomID in r.reg.users ==>
                  r.out == [Emit(ToListExceptSender(Some(r.reg.users[roomID]), self), UserExit(self))]))
      && (!(self in g.socketToRoom && g.socketToRoom[self] in g.users) ==>
            r.reg == g && r.out == [Emit(ToListExceptSender(None, self), UserExit(self))])
  {
    if self in g.socketToRoom && g.socketToRoom[self] in g.users {
      var roomID := g.socketToRoom[self];
      var room := WithoutPeer(g.users[roomID], self);
      if room != [] {
        assert room[0] in g.users[roomID];
      }
    }
  }

  lemma DisconnectKeepsBound(g: Registry, self: SocketId)
    requires Bounded(g.users)
    ensures Bounded(AfterDisconnect(g, self).reg.users)
  {
  }

  /** The inbound events of the server. */
  datatype Event =
    | JoinRoom(self: SocketId, room: RoomId, email: string)
    | Disconnect(self: SocketId)
    | Offer(self: SocketId, sdp: Payload)
    | Answer(self: SocketId, sdp: Payload)
    | Candidate(self: SocketId, candidate: Payload)

  /** One event: at most one message goes out, and only join and disconnect change the registry. */
  function Handle(g: Registry, e: Event): (r: Reply)
    ensures |r.out| <= 1
    ensures !(e.JoinRoom? || e.Disconnect?) ==> r.reg == g
    ensures e.Disconnect? ==> r.reg.socketToRoom == g.socketToRoom
  {
    match e
    case JoinRoom(self, room, email) => AfterJoin(g, self, room, email)
    case Disconnect(self) => AfterDisconnect(g, self)
    case Offer(self, sdp) => Reply(g, [Emit(BroadcastExceptSender(self), GetOffer(sdp))])
    case Answer(self, sdp) => Reply(g, [Emit(BroadcastExceptSender(self), GetAnswer(sdp))])
    case Candidate(self, candidate) => Reply(g, [Emit(BroadcastExceptSender(self), GetCandidate(candidate))])
  }

  /** The registry after handling `events` in order. */
  function Run(g: Registry, events: seq<Event>): Registry
    decreases |events|
  {
    if events == [] then g else Run(Handle(g, events[0]).reg, events[1..])
  }

  /** The relays change nothing, and each forwards its payload unchanged to everyone but the sender. */
  lemma RelaysOnlyForward(g: Registry, e: Event)
    requires e.Offer? || e.Answer? || e.Candidate?
    ensures var r := Handle(g, e);
      && r.reg == g
      && |r.out| == 1
      && r.out[0].to == BroadcastExceptSender(e.self)
      && (e.Offer? ==> r.out[0].msg == GetOffer(e.sdp))
      && (e.Answer? ==> r.out[0].msg == GetAnswer(e.sdp))
      && (e.Candidate? ==> r.out[0].msg == GetCandidate(e.candidate))
  {
  }

  /** No sequence of events takes a room past `Maximum` entries or leaves an empty room behind. */
  lemma {:induction false} RunKeepsBound(g: Registry, events: seq<Event>)
    requires Bounded(g.users)
    ensures Bounded(Run(g, events).users)
    decreases |events|
  {
    if events != [] {
      var e := events[0];
      match e {
        case JoinRoom(self, room, email) => JoinKeepsBound(g, self, room, email);
        case Disconnect(self) => DisconnectKeepsBound(g, self);
        case _ =>
      }
      RunKeepsBound(Handle(g, e).reg, events[1..]);
    }
  }

  /** From the server's start, every room ever holds one or two entries. */
  lemma EveryRoomAtMostTwo(events: seq<Event>)
    ensures forall r :: r in Run(Registry(map[], map[]), events).users ==>
      0 < |Run(Registry(map[], map[]), events).users[r]| <= 2
  {
    RunKeepsBound(Registry(map[], map[]), events);
  }

  class RoomServer {
    var users: map<RoomId, seq<Peer>>
    var socketToRoom: map<SocketId, RoomId>

    function Snapshot(): Registry
      reads this
    {
      Registry(users, socketToRoom)
    }

    ghost predicate Valid()
      reads this
    {
      Bounded(users)
    }

    constructor ()
      ensures Valid() && Snapshot() == Registry(map[], map[])
    {
      users, socketToRoom := map[], map[];
    }

    /** join_room. */
    method JoinRoom(self: SocketId, room: RoomId, email: string) returns (out: seq<Outbound>)
      requires Valid()
      modifies this
      ensures Valid()
      ensures Reply(Snapshot(), out) == AfterJoin(old(Snapshot()), self, room, email)
    {
      JoinKeepsBound(Snapshot(), self, room, email);
      if room in users {
        var length := |users[room]|;
        if length == Maximum {
          out := [Emit(ToRoomExceptSender(self, self), RoomFull)];
          return;
        }
        users := users[room := users[room] + [Peer(self, email)]];
      } else {
        users := users[room := [Peer(self, email)]];
      }
      socketToRoom := socketToRoom[self := room];
      var usersInThisRoom := WithoutPeer(users[room], self);
      out := [Emit(ToRoom(self), AllUsers(usersInThisRoom))];
    }

    /** disconnect. */
    method Disconnect(self: SocketId) returns (out: seq<Outbound>)
      requires Valid()
      modifies this
      ensures Valid()
      ensures Reply(Snapshot(), out) == AfterDisconnect(old(Snapshot()), self)
    {
      DisconnectKeepsBound(Snapshot(), self);
      var room: Option<seq<Peer>> := None;
      if self in socketToRoom && socketToRoom[self] in users {
        var roomID := socketToRoom[self];
        var rest := WithoutPeer(users[roomID], self);
        room := Some(rest);
        users := users[roomID := rest];
        if |rest| == 0 {
          users := users - {roomID};
          return [];
        }
      }
      out := [Emit(ToListExceptSender(room, self), UserExit(self))];
    }

    /** offer: relayed as getOffer. */
    method Offer(self: SocketId, sdp: Payload) returns (out: seq<Outbound>)
      ensures Reply(Snapshot(), out) == Handle(Snapshot(), Event.Offer(self, sdp))
    {
      out := [Emit(BroadcastExceptSender(self), GetOffer(sdp))];
    }

    /** answer: relayed as getAnswer. */
    method Answer(self: SocketId, sdp: Payload) returns (out: seq<Outbound>)
      ensures Reply(Snapshot(), out) == Handle(Snapshot(), Event.Answer(self, sdp))
    {
      out := [Emit(BroadcastExceptSender(self), GetAnswer(sdp))];
    }

    /** candidate: relayed as getCandidate. */
    method Candidate(self: SocketId, candidate: Payload) returns (out: seq<Outbound>)
      ensures Reply(Snapshot(), out) == Handle(Snapshot(), Event.Candidate(self, candidate))
    {
      out := [Emit(BroadcastExceptSender(self), GetCandidate(candidate))];
    }
  }
}
