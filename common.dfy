/** Identifiers and wrappers shared by the two signaling servers. */
module Common {

  /** A socket id, assigned by the transport when a client connects. */
  type SocketId = string

  /** A room name, chosen by the clients. */
  type RoomId = string

  datatype Option<+T> = None | Some(value: T)
}
