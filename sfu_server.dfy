/**
 * The SFU signaling server: its four registries as fields of one object whose
 * operations update them in place, and the socket handlers that look entries
 * up and say which message goes to whom.
 *
 * Peer connections are handles numbered in creation order (`issued` counts
 * them); `close()` adds a handle to `closed`. The media engine's negotiation
 * (setRemoteDescription, createAnswer, setLocalDescription) is a parameter:
 * the answer it produced, or None when one of its steps rejected.
 */
module SfuServer {
  import opened Common
  import opened SfuRooms
  import opened SfuLinks

  /** An opaque session description produced by the media engine. */
  datatype Sdp = Sdp(token: nat)

  /** How a message is addressed: `io.to(name)`, or `socket.to(name)` / `socket.broadcast.to(name)` from `sender`. */
  datatype Address = ToRoom(name: string) | ToRoomExceptSender(name: string, sender: SocketId)

  datatype Msg =
    | AllUsers(users: seq<SocketId>)
    | GetSenderAnswer(sdp: Sdp)
    | GetReceiverAnswer(id: SocketId, sdp: Sdp)
    | UserEnter(id: SocketId)

  datatype Outbound = Emit(to: Address, msg: Msg)

  /** isIncluded: whether some entry of `members` carries `id`. */
  method IsIncluded(members: seq<Member>, id: SocketId) returns (b: bool)
    ensures b <==> Includes(members, id)
  {
    var len := |members|;
    for i := 0 to len
      invariant forall j :: 0 <= j < i ==> members[j].id != id
    {
      if members[i].id == id {
        return true;
      }
    }
    return false;
  }

  class Server {
    /** Publisher id to its ingest connection. */
    var receiverPCs: map<SocketId, Pc>
    /** Publisher id to its egress entries, one per subscriber connection. */
    var senderPCs: Senders
    /** Room to its confirmed publishers, in confirmation order. */
    var users: Rooms
    /** Socket id to the room its last publish offer named. */
    var socketToRoom: map<SocketId, RoomId>
    /** Handles whose `close()` has run. */
    var closed: set<Pc>
    /** Number of handles created so far; the next one is `issued`. */
    var issued: nat

    ghost predicate Valid()
      reads this
    {
      && RoomsWf(users)
      && (forall k :: k in receiverPCs ==> receiverPCs[k] < issued)
      && (forall a, b :: a in receiverPCs && b in receiverPCs && receiverPCs[a] == receiverPCs[b] ==> a == b)
      && SendersBelow(senderPCs, issued)
      && ClosedBelow(closed, issued)
    }

    constructor ()
      ensures Valid()
      ensures receiverPCs == map[] && senderPCs == map[] && users == map[] && socketToRoom == map[]
      ensures closed == {} && issued == 0
    {
      receiverPCs, senderPCs, users, socketToRoom := map[], map[], map[], map[];
      closed, issued := {}, 0;
    }

    // -------------------------------------------------------------------
    // queries

    /** getOtherUsersInRoom: the room's publishers other than `socketID`, in order; nothing for an unknown room. */
    method GetOtherUsersInRoom(socketID: SocketId, roomID: RoomId) returns (allUsers: seq<SocketId>)
      ensures allUsers == OthersInRoom(users, roomID, socketID)
    {
      allUsers := [];
      if roomID !in users {
        return;
      }
      var room := users[roomID];
      var len := |room|;
      for i := 0 to len
        invariant allUsers == OtherIds(room[..i], socketID)
      {
        assert room[..i + 1][..i] == room[..i];
        if room[i].id == socketID {
          continue;
        }
        allUsers := allUsers + [room[i].id];
      }
      assert room[..len] == room;
    }

    // -------------------------------------------------------------------
    // the connection factory's registry updates

    /**
     * createReceiverPeerConnection: a fresh handle becomes the publisher's only
     * ingest entry. A previous handle for the publisher is dropped from the
     * registry without being closed.
     */
    method CreateReceiverPeerConnection(socketID: SocketId) returns (pc: Pc)
      requires Valid()
      modifies this
      ensures Valid()
      ensures pc == old(issued) && issued == old(issued) + 1
      ensures receiverPCs == old(receiverPCs)[socketID := pc]
      ensures pc !in old(receiverPCs).Values && pc !in closed
      ensures socketID in old(receiverPCs) ==>
        old(receiverPCs)[socketID] !in receiverPCs.Values && old(receiverPCs)[socketID] !in closed - old(closed)
      ensures closed == old(closed)
      ensures senderPCs == old(senderPCs) && users == old(users) && socketToRoom == old(socketToRoom)
    {
      pc := issued;
      issued := issued + 1;
      // both branches of the source bind the key to the new handle
      receiverPCs := receiverPCs[socketID := pc];
    }

    /**
     * The ingest connection's track event: the publisher `socketID`, bound at
     * creation to `roomID` and to the socket `self` that sent the offer, is
     * confirmed in its room; userEnter goes to the rest of the room only when
     * the room's list grew.
     */
    method OnTrack(self: SocketId, socketID: SocketId, roomID: RoomId, stream: Stream) returns (out: seq<Outbound>)
      requires Valid()
      modifies this
      ensures Valid()
      ensures var c := Confirm(old(users), roomID, socketID, stream);
        && users == c.users
        && out == if c.entered then [Emit(ToRoomExceptSender(roomID, self), UserEnter(socketID))] else []
      ensures receiverPCs == old(receiverPCs) && senderPCs == old(senderPCs)
      ensures socketToRoom == old(socketToRoom) && closed == old(closed) && issued == old(issued)
    {
      ConfirmKeepsWf(users, roomID, socketID, stream);
      if roomID in users {
        var included := IsIncluded(users[roomID], socketID);
        if !included {
          users := users[roomID := users[roomID] + [Member(socketID, stream)]];
        } else {
          return [];
        }
      } else {
        users := users[roomID := [Member(socketID, stream)]];
      }
      out := [Emit(ToRoomExceptSender(roomID, self), UserEnter(socketID))];
    }

    /**
     * createSenderPeerConnection: a fresh handle is appended to the publisher's
     * egress list (older entries for the same subscriber stay), and then the
     * publisher's stream is looked up in the room; `attached` is None where
     * that lookup throws, which happens after the registry has changed.
     */
    method CreateSenderPeerConnection(receiverSocketID: SocketId, senderSocketID: SocketId, roomID: RoomId)
      returns (pc: Pc, attached: Option<Stream>)
      requires Valid()
      modifies this
      ensures Valid()
      ensures pc == old(issued) && issued == old(issued) + 1
      ensures senderPCs == AddEgress(old(senderPCs), senderSocketID, receiverSocketID, pc)
      ensures attached == PublisherStream(users, roomID, senderSocketID)
      ensures receiverPCs == old(receiverPCs) && users == old(users)
      ensures socketToRoom == old(socketToRoom) && closed == old(closed)
    {
      pc := issued;
      issued := issued + 1;
      if senderSocketID in senderPCs {
        // the source filters out this subscriber's older entries but discards the result
        senderPCs := senderPCs[senderSocketID := senderPCs[senderSocketID] + [Egress(receiverSocketID, pc)]];
      } else {
        senderPCs := senderPCs[senderSocketID := [Egress(receiverSocketID, pc)]];
        assert EgressOf(old(senderPCs), senderSocketID) + [Egress(receiverSocketID, pc)] == [Egress(receiverSocketID, pc)];
      }
      attached := PublisherStream(users, roomID, senderSocketID);
    }

    // -------------------------------------------------------------------
    // teardown

    /** deleteUser: nothing for an unknown room; else the socket leaves the room and the socket index. */
    method DeleteUser(socketID: SocketId, roomID: RoomId)
      requires Valid()
      modifies this
      ensures Valid()
      ensures roomID !in old(users) ==> users == old(users) && socketToRoom == old(socketToRoom)
      ensures roomID in old(users) ==>
        users == RemoveFromRoom(old(users), roomID, socketID) && socketToRoom == old(socketToRoom) - {socketID}
      ensures receiverPCs == old(receiverPCs) && senderPCs == old(senderPCs)
      ensures closed == old(closed) && issued == old(issued)
    {
      if roomID !in users {
        return;
      }
      RemoveFromRoomSpec(users, roomID, socketID);
      var roomUsers := WithoutMember(users[roomID], socketID);
      users := users[roomID := roomUsers];
      if |roomUsers| == 0 {
        users := users - {roomID};
      }
      socketToRoom := socketToRoom - {socketID};
    }

    /** closeRecevierPC: nothing without an entry; else the handle is closed and its key removed. */
    method CloseReceiverPC(socketID: SocketId)
      requires Valid()
      modifies this
      ensures Valid()
      ensures socketID !in old(receiverPCs) ==> receiverPCs == old(receiverPCs) && closed == old(closed)
      ensures socketID in old(receiverPCs) ==>
        closed == old(closed) + {old(receiverPCs)[socketID]} && receiverPCs == old(receiverPCs) - {socketID}
      ensures socketID !in receiverPCs
      ensures senderPCs == old(senderPCs) && users == old(users)
      ensures socketToRoom == old(socketToRoom) && issued == old(issued)
    {
      if socketID !in receiverPCs {
        return;
      }
      closed := closed + {receiverPCs[socketID]};
      receiverPCs := receiverPCs - {socketID};
    }

    /**
     * closeSenderPCs: the state CloseSenders describes; `ok` is false where the
     * loop throws, leaving what it had done so far.
     */
    method CloseSenderPCs(socketID: SocketId) returns (ok: bool)
      requires Valid()
      modifies this
      ensures Valid()
      ensures var t := CloseSenders(old(senderPCs), old(closed), socketID);
        ok == t.ok && senderPCs == t.senders && closed == t.closed
      ensures receiverPCs == old(receiverPCs) && users == old(users)
      ensures socketToRoom == old(socketToRoom) && issued == old(issued)
    {
      if socketID !in senderPCs {
        return true;
      }
      var len := |senderPCs[socketID]|;
      ghost var sp0, closed0 := senderPCs, closed;
      for i := 0 to len
        invariant socketID in senderPCs
        invariant CloseLoop(sp0, closed0, socketID, 0, len) == CloseLoop(senderPCs, closed, socketID, i, len)
        invariant SendersBelow(senderPCs, issued) && ClosedBelow(closed, issued)
        invariant receiverPCs == old(receiverPCs) && users == old(users)
        invariant socketToRoom == old(socketToRoom) && issued == old(issued)
      {
        ghost var step := CloseStep(senderPCs, closed, socketID, i);
        CloseStepBelow(senderPCs, closed, socketID, i, issued);
        var list := senderPCs[socketID];
        if i >= |list| {
          // senderPCs[socketID][i] is undefined: reading its pc throws
          assert step == Teardown(senderPCs, closed, false);
          return false;
        }
        var e := list[i];
        closed := closed + {e.pc};
        if e.id !in senderPCs {
          // the subscriber has no list of its own: calling filter on it throws
          assert step == Teardown(senderPCs, closed, false);
          return false;
        }
        var others := senderPCs[e.id];
        var senderPC := OnlyId(others, socketID);
        if senderPC != [] {
          closed := closed + {senderPC[0].pc};
          senderPCs := senderPCs[e.id := WithoutId(others, socketID)];
        }
        assert step == Teardown(senderPCs, closed, true);
      }
      senderPCs := senderPCs - {socketID};
      ok := true;
    }

    // -------------------------------------------------------------------
    // the socket handlers

    /** joinRoom: only a query; the answer goes to the joiner. */
    method JoinRoom(id: SocketId, roomID: RoomId) returns (out: seq<Outbound>)
      ensures out == [Emit(ToRoom(id), AllUsers(OthersInRoom(users, roomID, id)))]
      ensures id !in out[0].msg.users
    {
      var allUsers := GetOtherUsersInRoom(id, roomID);
      CallerNeverListed(users, roomID, id);
      out := [Emit(ToRoom(id), AllUsers(allUsers))];
    }

    /**
     * senderOffer: records the room, creates the ingest connection, and sends
     * the engine's answer back to the publisher when negotiation succeeded.
     */
    method SenderOffer(senderSocketID: SocketId, roomID: RoomId, answer: Option<Sdp>) returns (out: seq<Outbound>)
      requires Valid()
      modifies this
      ensures Valid()
      ensures socketToRoom == old(socketToRoom)[senderSocketID := roomID]
      ensures receiverPCs == old(receiverPCs)[senderSocketID := old(issued)] && issued == old(issued) + 1
      ensures out == if answer.Some? then [Emit(ToRoom(senderSocketID), GetSenderAnswer(answer.value))] else []
      ensures senderPCs == old(senderPCs) && users == old(users) && closed == old(closed)
    {
      socketToRoom := socketToRoom[senderSocketID := roomID];
      var pc := CreateReceiverPeerConnection(senderSocketID);
      if answer.Some? {
        out := [Emit(ToRoom(senderSocketID), GetSenderAnswer(answer.value))];
      } else {
        out := [];
      }
    }

    /** senderCandidate: the ingest handle that receives the candidate; None where the lookup throws. */
    method SenderCandidate(senderSocketID: SocketId) returns (target: Option<Pc>)
      ensures target.Some? <==> senderSocketID in receiverPCs
      ensures target.Some? ==> receiverPCs[senderSocketID] == target.value
    {
      if senderSocketID in receiverPCs {
        target := Some(receiverPCs[senderSocketID]);
      } else {
        target := None;
      }
    }

    /**
     * receiverOffer: creates the egress connection; the answer goes to the
     * subscriber only when the publisher's stream was found and negotiation
     * succeeded. The egress entry stays registered in every case.
     */
    method ReceiverOffer(receiverSocketID: SocketId, senderSocketID: SocketId, roomID: RoomId, answer: Option<Sdp>)
      returns (out: seq<Outbound>)
      requires Valid()
      modifies this
      ensures Valid()
      ensures senderPCs == AddEgress(old(senderPCs), senderSocketID, receiverSocketID, old(issued))
      ensures issued == old(issued) + 1
      ensures out == if roomID in users && Includes(users[roomID], senderSocketID) && answer.Some?
                     then [Emit(ToRoom(receiverSocketID), GetReceiverAnswer(senderSocketID, answer.value))]
                     else []
      ensures receiverPCs == old(receiverPCs) && users == old(users)
      ensures socketToRoom == old(socketToRoom) && closed == old(closed)
    {
      var pc, attached := CreateSenderPeerConnection(receiverSocketID, senderSocketID, roomID);
      PublisherStreamSpec(users, roomID, senderSocketID, Stream(0));
      if attached.Some? && answer.Some? {
        out := [Emit(ToRoom(receiverSocketID), GetReceiverAnswer(senderSocketID, answer.value))];
      } else {
        out := [];
      }
    }

    /** receiverCandidate: the egress handle that receives the candidate; None where the lookup throws. */
    method ReceiverCandidate(receiverSocketID: SocketId, senderSocketID: SocketId) returns (target: Option<Pc>)
      ensures target == EgressTarget(senderPCs, senderSocketID, receiverSocketID)
      ensures target.Some? <==> senderSocketID in senderPCs && HasId(senderPCs[senderSocketID], receiverSocketID)
    {
      TargetSpec(senderPCs, senderSocketID, receiverSocketID);
      if senderSocketID !in senderPCs {
        return None;
      }
      var senderPC := OnlyId(senderPCs[senderSocketID], receiverSocketID);
      if senderPC == [] {
        return None;
      }
      target := Some(senderPC[0].pc);
    }

    /**
     * disconnect: the handler's first statement logs an identifier that is not
     * declared, which throws before any cleanup; nothing changes and nothing is sent.
     */
    method Disconnect(self: SocketId) returns (out: seq<Outbound>)
      ensures out == []
    {
      out := [];
    }
  }
}
