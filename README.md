# WebRTC signaling servers, modelled in Dafny

This project models the signaling core of two WebRTC servers written for Node.js with socket.io.

- **The SFU server** (`webrtc-sfu/server/server.js`) terminates every publisher's media on a server-side peer connection (the *ingest* connection) and opens one server-side connection per subscriber to forward it (an *egress* connection). It keeps four registries:
  - `receiverPCs`: publisher to ingest connection;
  - `senderPCs`: publisher to a list of `{id, pc}` egress entries, one per subscriber connection;
  - `users`: room to the ordered list of confirmed publishers `{id, stream}`;
  - `socketToRoom`: socket to room.
- **The two-party server** (`webrtc-basic/server/server.js`) only relays offers, answers and ICE candidates between browsers. Its rooms hold at most two `{id, email}` entries.

Files:

- `common.dfy`: socket and room identifiers, and `Option`.
- `sfu_rooms.dfy` (module `SfuRooms`): the SFU's room registry as values. It covers the other-publishers query, track confirmation, user deletion and the publisher-stream lookup, with their lemmas.
- `sfu_links.dfy` (module `SfuLinks`): the SFU's egress registry as values. It covers entry creation and the candidate-target lookup. It also models the `closeSenderPCs` loop step by step (`CloseStep`, `CloseLoop`, `CloseSenders`) against reference definitions of its intended effect (`Detach`, `PcsOf`, `Counterparts`).
- `sfu_server.dfy` (module `SfuServer`): class `Server`. Its fields are the four registries, plus the set of closed connection handles and a counter of handles issued. Its methods update the fields in place and are proved against the functions above. The socket handlers are methods that return the messages they emit, each with the socket.io addressing form it uses.
- `room_server.dfy` (module `TwoPartyServer`): the two-party server. `AfterJoin` and `AfterDisconnect` are pure specifications over a registry value, and `Run` replays a trace of events. Class `RoomServer` holds the two maps, and its methods are proved against those functions.

Modelling conventions:

- **Connection handles.** A peer connection is a natural-number handle, numbered in creation order. `close()` puts a handle in `closed`.
- **Media engine.** Negotiation (`setRemoteDescription`, `createAnswer`, `setLocalDescription`) is a parameter. It is the engine's answer, or `None` when one of the steps rejected.
- **Exceptions.** A handler that throws inside its `try` is modelled by where it stops. State changed before the throw stays changed, and messages after it are not sent.

The model follows the code as written, including these behaviours:

- The SFU's `joinRoom` handler does not record the socket-to-room index. Only `senderOffer` does (line 195).
- A second offer for the same (publisher, subscriber) pair appends a second egress entry. The filter on line 89 discards its result, so older entries are not removed (`SfuLinks.AddEgressKeepsDuplicates`, `SfuLinks.TwoOffersTwoLinks`).
- A second ingest offer creates a new connection and replaces the registry entry. It does not close the old connection (`SfuServer.Server.CreateReceiverPeerConnection`).
- `closeSenderPCs` has no per-entry isolation. It throws partway, leaving its key in place and the rest of its work undone, when any of these holds:
  - a listed subscriber has no list of its own;
  - an entry other than the last points at the departing socket itself.

  (`SfuLinks.CloseSendersOkIff`, `SfuLinks.CloseSendersPartialFailure`)
- The SFU's `disconnect` handler reads an undeclared identifier on line 264, outside its `try`. That throws before any cleanup runs, so none of `deleteUser`, `closeRecevierPC`, `closeSenderPCs` or the `userExit` broadcast happens (`SfuServer.Server.Disconnect`). Those three operations are modelled and proved on their own.

## Model

| member | source | states |
|---|---|---|
| SfuServer.IsIncluded | webrtc-sfu/server/server.js:30-37 | true exactly when some entry of the list carries the id |
| SfuServer.Server.constructor | webrtc-sfu/server/server.js:12-15 | all four registries start empty, no handle issued or closed |
| SfuServer.Server.GetOtherUsersInRoom | webrtc-sfu/server/server.js:120-134 | the loop returns the room's publisher ids other than the caller, in room order, and nothing for an unknown room |
| SfuRooms.OtherIdsMembership | webrtc-sfu/server/server.js:127-131 | an id is in the answer if and only if it differs from the caller and some entry of the room carries it |
| SfuRooms.OtherIdsLength | webrtc-sfu/server/server.js:127-131 | answer length plus the number of the caller's entries equals the room's size |
| SfuRooms.OtherIdsAppend | webrtc-sfu/server/server.js:127-131 | the query distributes over concatenation, so the answer keeps the room's insertion order |
| SfuRooms.OtherIdsWhenAbsent | webrtc-sfu/server/server.js:127-131 | for a caller not in the room the answer is every id of the room, in order |
| SfuRooms.CallerNeverListed | webrtc-sfu/server/server.js:120-134 | the caller never appears in its own answer; an unknown room gives the empty answer |
| SfuRooms.OtherIds | webrtc-sfu/server/server.js:123-133 | the answer is never longer than the room and never contains the caller (membership in both directions: `SfuRooms.OtherIdsMembership`) |
| SfuRooms.OthersInRoom | webrtc-sfu/server/server.js:120-134 | an unknown room gives the empty answer; the caller is never listed; the answer is at most the room's size |
| SfuServer.Server.CreateReceiverPeerConnection | webrtc-sfu/server/server.js:39-45 | a fresh handle becomes the publisher's only ingest entry; a previous handle leaves the registry without being closed; nothing else changes |
| SfuServer.Server.OnTrack | webrtc-sfu/server/server.js:60-79 | the room becomes `Confirm` of the old rooms; userEnter goes to the room except the offering socket exactly when the publisher was added |
| SfuRooms.ConfirmAppendsOnce | webrtc-sfu/server/server.js:63-78 | after a track the publisher is listed; the room grows by exactly its entry, at the end, if and only if it was not listed before, and that is when userEnter is sent; other rooms are untouched |
| SfuRooms.ConfirmIdempotent | webrtc-sfu/server/server.js:63-69 | a repeated track event for a confirmed publisher changes nothing and sends nothing |
| SfuRooms.ConfirmKeepsWf | webrtc-sfu/server/server.js:63-77 | confirmation keeps every room non-empty and free of duplicate ids |
| SfuRooms.OthersSeeNewPublisher | webrtc-sfu/server/server.js:63-78 | when userEnter is sent, every other member's later query answers its old answer followed by the new publisher |
| SfuRooms.Confirm | webrtc-sfu/server/server.js:63-78 | afterwards the publisher is listed in its room; when userEnter is not sent the rooms are unchanged (the full rule: `SfuRooms.ConfirmAppendsOnce`) |
| SfuRooms.MembersWithId | webrtc-sfu/server/server.js:112 | the filter keeps exactly the entries carrying the id |
| SfuRooms.PublisherStreamSpec | webrtc-sfu/server/server.js:112-115 | a stream is found if and only if the room exists and lists the publisher; it is that publisher's own stream |
| SfuRooms.PublisherStream | webrtc-sfu/server/server.js:112-113 | a stream found is the publisher's own entry in that room (both directions: `SfuRooms.PublisherStreamSpec`) |
| SfuServer.Server.CreateSenderPeerConnection | webrtc-sfu/server/server.js:84-115 | a fresh handle is appended to the publisher's egress list with older entries kept; the attached stream is the lookup's result, and the registry has changed even when the lookup throws |
| SfuLinks.AddEgressKeepsDuplicates | webrtc-sfu/server/server.js:88-95 | the publisher's list grows by one entry, the new one last; the pair's entry count grows by one; other lists are untouched |
| SfuLinks.TwoOffersTwoLinks | webrtc-sfu/server/server.js:88-95 | two offers for one pair leave two entries for that pair |
| SfuLinks.AddEgress | webrtc-sfu/server/server.js:88-95 | the new entry is in the publisher's list, every older entry stays, and other publishers' lists are untouched |
| SfuRooms.WithoutMember | webrtc-sfu/server/server.js:141 | the filter keeps exactly the entries not carrying the id, never grows and leaves no entry for the id |
| SfuRooms.WithoutMemberDistinct | webrtc-sfu/server/server.js:141 | filtering keeps a list free of duplicate ids |
| SfuRooms.WithoutMemberAppend | webrtc-sfu/server/server.js:141 | the filter keeps the room's order: it distributes over concatenation |
| SfuRooms.WithoutMemberEmpty | webrtc-sfu/server/server.js:141-143 | the filtered room is non-empty if and only if some entry carries another id |
| SfuRooms.RemoveFromRoomSpec | webrtc-sfu/server/server.js:139-145 | the room keeps its other entries and is deleted if and only if no other entry remained; other rooms are untouched; the room invariant is preserved |
| SfuRooms.RemoveFromRoom | webrtc-sfu/server/server.js:139-145 | other rooms are untouched; a room that remains is non-empty and has no entry for the socket |
| SfuServer.Server.DeleteUser | webrtc-sfu/server/server.js:136-147 | nothing changes for an unknown room; otherwise the room becomes `RemoveFromRoom` of the old rooms and the socket leaves the socket index |
| SfuServer.Server.CloseReceiverPC | webrtc-sfu/server/server.js:149-156 | without an entry nothing changes; otherwise that handle is closed, its key removed, and no lookup for the socket succeeds afterwards |
| SfuLinks.OnlyId | webrtc-sfu/server/server.js:167 | the filter keeps exactly the entries pointing at the id |
| SfuLinks.WithoutId | webrtc-sfu/server/server.js:170 | the filter keeps exactly the entries not pointing at the id |
| SfuLinks.CloseStep | webrtc-sfu/server/server.js:165-171 | one iteration keeps the registry's keys, only adds closed handles and never lengthens the departing socket's list |
| SfuLinks.CloseLoop | webrtc-sfu/server/server.js:163-172 | the loop keeps the registry's keys and only adds closed handles |
| SfuServer.Server.CloseSenderPCs | webrtc-sfu/server/server.js:158-175 | the in-place loop leaves exactly the registry and closed set that `CloseSenders` describes, and reports whether it completed |
| SfuLinks.CloseSendersOkIff | webrtc-sfu/server/server.js:158-175 | without a list nothing changes; with one, the teardown completes if and only if every listed subscriber has a list and only the last entry may point at the socket itself |
| SfuLinks.CloseSendersEffect | webrtc-sfu/server/server.js:158-175 | a completed teardown equals the reference: each subscriber's list is detached from the socket, the key is dropped, and the socket's handles and their counterparts are closed |
| SfuLinks.CloseSendersDetaches | webrtc-sfu/server/server.js:166-174 | after completion the socket has no list; every subscriber's list has lost all its entries for the socket; every other list is unchanged |
| SfuLinks.CloseSendersCloses | webrtc-sfu/server/server.js:165-171 | after completion every handle of the socket's own entries, and each subscriber's first entry back to the socket, is closed |
| SfuLinks.CloseSendersPartialFailure | webrtc-sfu/server/server.js:166-167 | a subscriber without its own list makes the teardown throw with the socket's key still present |
| SfuLinks.CloseSenders | webrtc-sfu/server/server.js:158-175 | handles are only ever added to the closed set; on completion exactly the socket's key is gone; on a throw the keys are unchanged and the socket's key remains |
| SfuServer.Server.JoinRoom | webrtc-sfu/server/server.js:180-189 | the joiner receives allUsers with the other publishers of the room, never including itself; no registry changes |
| SfuServer.Server.SenderOffer | webrtc-sfu/server/server.js:191-208 | the socket index records the room, a fresh ingest handle is registered, and getSenderAnswer goes to the publisher only when negotiation succeeded |
| SfuServer.Server.SenderCandidate | webrtc-sfu/server/server.js:210-219 | the candidate's target is the publisher's ingest handle, absent exactly when the publisher has none |
| SfuServer.Server.ReceiverOffer | webrtc-sfu/server/server.js:225-248 | the egress entry is appended in every case; getReceiverAnswer goes to the subscriber only when the publisher is confirmed in the room and negotiation succeeded |
| SfuLinks.TargetSpec | webrtc-sfu/server/server.js:254-257 | a candidate target exists if and only if the publisher's list has an entry for the subscriber, and the target is one of the pair's handles |
| SfuLinks.CandidateGoesToOldest | webrtc-sfu/server/server.js:254-257 | after another offer for a pair, candidates still go to the pair's first entry; the new handle receives them only if it is the first |
| SfuLinks.EgressTarget | webrtc-sfu/server/server.js:254-257 | a target found is the handle of one of the pair's own entries (both directions: `SfuLinks.TargetSpec`) |
| SfuServer.Server.ReceiverCandidate | webrtc-sfu/server/server.js:250-261 | the target is the pair's first egress handle, absent exactly when the publisher has no list or no entry for the subscriber |
| SfuServer.Server.Disconnect | webrtc-sfu/server/server.js:263-277 | the handler throws on its first statement: no registry changes and nothing is sent |
| TwoPartyServer.RoomServer.constructor | webrtc-basic/server/server.js:12-13 | both maps start empty |
| TwoPartyServer.WithoutPeer | webrtc-basic/server/server.js:43-45 | the filter keeps exactly the entries whose id differs, never grows |
| TwoPartyServer.WithoutPeerAppend | webrtc-basic/server/server.js:43-45 | the filter keeps order: it distributes over concatenation |
| TwoPartyServer.JoinFullRefuses | webrtc-basic/server/server.js:21-28 | a room already holding two entries refuses the joiner: nothing changes and only room_full is sent, addressed to the joiner's own id |
| TwoPartyServer.JoinAdmits | webrtc-basic/server/server.js:19-50 | otherwise the joiner is appended to its room, or the room is created; the index records the room; all_users lists the earlier entries other than the joiner, never the joiner, and at most one peer in a bounded registry |
| TwoPartyServer.JoinKeepsBound | webrtc-basic/server/server.js:14-35 | join keeps every room at one or two entries |
| TwoPartyServer.AfterJoin | webrtc-basic/server/server.js:19-50 | exactly one message goes out; it is room_full, with nothing changed, if and only if the room already holds two entries; otherwise the joiner is in its room and in the index and absent from its own all_users |
| TwoPartyServer.DisconnectSpec | webrtc-basic/server/server.js:71-93 | the socket index is never cleared; in a known room the socket's entries go and every other entry stays, in order; the room is deleted, and nothing is sent, exactly when no other entry remained; otherwise exactly one user_exit for the socket goes to all but the socket, addressed with the remaining list, or with nothing when the socket or its room is unknown |
| TwoPartyServer.DisconnectKeepsBound | webrtc-basic/server/server.js:78-88 | disconnect keeps every room at one or two entries |
| TwoPartyServer.AfterDisconnect | webrtc-basic/server/server.js:71-93 | the socket index is kept; at most one message goes out, user_exit for the socket to all but the socket; no entry of the socket remains in its room |
| TwoPartyServer.Handle | webrtc-basic/server/server.js:19-93 | each event sends at most one message; only join and disconnect change the registry, and disconnect never changes the index |
| TwoPartyServer.RelaysOnlyForward | webrtc-basic/server/server.js:53-68 | offer, answer and candidate change nothing and forward the payload unchanged to every socket but the sender |
| TwoPartyServer.RunKeepsBound | webrtc-basic/server/server.js:14-93 | no sequence of events takes a room past two entries or leaves an empty room |
| TwoPartyServer.EveryRoomAtMostTwo | webrtc-basic/server/server.js:14 | from the server's start, every room ever holds one or two entries |
| TwoPartyServer.RoomServer.JoinRoom | webrtc-basic/server/server.js:19-50 | the in-place handler leaves the registry and output of `AfterJoin` and keeps the room bound |
| TwoPartyServer.RoomServer.Disconnect | webrtc-basic/server/server.js:71-93 | the in-place handler leaves the registry and output of `AfterDisconnect` and keeps the room bound |
| TwoPartyServer.RoomServer.Offer | webrtc-basic/server/server.js:53-56 | getOffer with the same payload goes to every socket but the sender; no state changes |
| TwoPartyServer.RoomServer.Answer | webrtc-basic/server/server.js:59-62 | getAnswer with the same payload goes to every socket but the sender; no state changes |
| TwoPartyServer.RoomServer.Candidate | webrtc-basic/server/server.js:65-68 | getCandidate with the same payload goes to every socket but the sender; no state changes |

## Left out

- **Clients.** The React clients of both servers are not part of this model.
- **Media engine.** The `wrtc` engine is represented only by the answer it produced or its failure. Description and candidate application, track forwarding (`getTracks`, `addTrack`) and connection state are not modelled.
- **Engine ICE candidates.** The `onicecandidate` reactions emit `getSenderCandidate` and `getReceiverCandidate` with engine-produced candidates (`webrtc-sfu/server/server.js:47-53`, `97-105`). They are not modelled because the candidates come from the engine.
- **Connection-state log.** The `oniceconnectionstatechange` reactions only log, and are not modelled.
- **Message delivery.** socket.io delivery is not modelled. Messages are returned with the addressing form they use: own-socket room, room except sender, broadcast except sender. `socket.join` is also not modelled.
  - The cases the two-party server addresses oddly are recorded, not resolved. `room_full` goes to `socket.to(socket.id)`, which excludes the joiner itself. `user_exit` is addressed with the remaining list, or undefined, where a room name is expected.
- **Asynchronous interleaving.** Handlers suspend at each engine step. The model takes each handler as one step, with the engine's outcome given.
- **JavaScript object keys.** An absent room or socket is modelled as an absent key. A missing socket-to-room entry gives `undefined`, which the two-party server then uses as the key `"undefined"`. That coercion, and inherited `Object.prototype` keys, are not modelled.
- **Logging.** Console logging is left out.
- **The SFU disconnect exception.** `SfuServer.Server.Disconnect` states that nothing changes and nothing is sent. One thing is not modelled: whether the uncaught exception in the listener ends the process.
- **Ingest uniqueness.** `SfuServer.Server.Valid` keeps ingest handles unique per publisher and every registered handle below `issued`. It says nothing about connections the registry no longer references.
