/**
 * rchat/clients/socketio_client.py: the socket event names, the presence
 * map `users` and the per-connection sessions kept by the socket server.
 * What the server sends is recorded in an outbox instead of going out.
 */
module SocketServer {
  import opened Wrappers
  import opened Schemas
  import opened MessageModels

  /** A socket connection id. */
  type Sid = string

  datatype SocketEvent = NewMessage | UpdateMessage | DeleteMessage | ReadMessage | Error

  /** The wire name of each event of `SocketioEventsEnum`. */
  function EventName(e: SocketEvent): (name: string)
    ensures |name| >= 3 && name[0] == '_' && name[|name| - 1] == '_'
  {
    match e
    case NewMessage => "_new_message_"
    case UpdateMessage => "_update_message_"
    case DeleteMessage => "_delete_message_"
    case ReadMessage => "_read_message_"
    case Error => "_error_"
  }

  /** The event a wire name stands for, as the enum's lookup by value finds it. */
  function EventOf(name: string): (e: Option<SocketEvent>)
    ensures e.Some? ==> EventName(e.value) == name
    ensures e.None? ==> forall ev :: EventName(ev) != name
  {
    if name == "_new_message_" then Some(NewMessage)
    else if name == "_update_message_" then Some(UpdateMessage)
    else if name == "_delete_message_" then Some(DeleteMessage)
    else if name == "_read_message_" then Some(ReadMessage)
    else if name == "_error_" then Some(Error)
    else None
  }

  /** Every event is found again from its wire name. */
  lemma EventNameRoundTrip(e: SocketEvent)
    ensures EventOf(EventName(e)) == Some(e)
  {
  }

  /** The five wire names are pairwise distinct, so each names one handler. */
  lemma {:induction false} EventNamesDistinct(e1: SocketEvent, e2: SocketEvent)
    requires e1 != e2
    ensures EventName(e1) != EventName(e2)
  {
    EventNameRoundTrip(e1);
    EventNameRoundTrip(e2);
  }

  /** The status of an error event; the handlers only ever report invalid data. */
  datatype ErrorStatus = InvalidData

  datatype ErrorMessage = NewMessageError(newStatus: NewMessageStatus) | ReadMessageError(readStatus: ReadMessageStatus)

  datatype Payload =
    | ErrorPayload(status: ErrorStatus, sourceEvent: SocketEvent, errorMsg: ErrorMessage)
    | ReadPayload(read: ReadMessageResponse)

  /** What the server does to the outside: an event sent to one connection, or a connection closed. */
  datatype Action = Emit(to: Sid, event: SocketEvent, payload: Payload) | Disconnect(sid: Sid)

  /**
   * The keys of the presence map. The read handler looks users up by user
   * id, the disconnect handler removes connection ids: one map holds both.
   */
  datatype PresenceKey = UserKey(user: UserId) | SidKey(sid: Sid)

  class Server {
    /** `users`: presence, from a key to the connection to send to. */
    var users: map<PresenceKey, Sid>
    /** The `user_id` stored in each connection's session. */
    var sessions: map<Sid, UserId>
    /** Everything sent or closed so far, in order. */
    var outbox: seq<Action>

    constructor()
      ensures users == map[] && sessions == map[] && outbox == []
    {
      users := map[];
      sessions := map[];
      outbox := [];
    }

    /**
     * `connect`: with no authorization header the handler raises and the
     * connection is refused with nothing recorded; a token the check
     * refuses closes the connection and stores no session; a good token
     * stores its user id in the connection's session.
     */
    method Connect(sid: Sid, authorization: Option<string>, checkToken: string -> Option<UserId>)
      returns (accepted: bool)
      modifies this`sessions, this`outbox
      ensures accepted <==> authorization.Some? && checkToken(authorization.value).Some?
      ensures authorization.None? ==> sessions == old(sessions) && outbox == old(outbox)
      ensures (authorization.Some? && checkToken(authorization.value).None? ==>
                 sessions == old(sessions) && outbox == old(outbox) + [Disconnect(sid)])
      ensures (accepted ==>
                 sessions == old(sessions)[sid := checkToken(authorization.value).value] && outbox == old(outbox))
    {
      if authorization.None? {
        return false;
      }
      var session := checkToken(authorization.value);
      if session.None? {
        outbox := outbox + [Disconnect(sid)];
        return false;
      }
      sessions := sessions[sid := session.value];
      accepted := true;
    }

    /**
     * `disconnect`: removes the connection's entry from the presence map,
     * if there is one, and leaves every other entry as it was.
     */
    method HandleDisconnect(sid: Sid)
      modifies this`users
      ensures users == old(users) - {SidKey(sid)}
      ensures SidKey(sid) !in old(users) ==> users == old(users)
      ensures forall k :: k in old(users) && k != SidKey(sid) ==> k in users && users[k] == old(users)[k]
    {
      users := users - {SidKey(sid)};
    }

    /** `emit`: sends one event to one connection. */
    method Send(to: Sid, event: SocketEvent, payload: Payload)
      modifies this`outbox
      ensures outbox == old(outbox) + [Emit(to, event, payload)]
    {
      outbox := outbox + [Emit(to, event, payload)];
    }

    /** `emit_error_event`: tells one connection that its event was refused, and why. */
    method EmitError(to: Sid, sourceEvent: SocketEvent, errorMsg: ErrorMessage)
      modifies this`outbox
      ensures outbox == old(outbox) + [Emit(to, Error, ErrorPayload(InvalidData, sourceEvent, errorMsg))]
    {
      Send(to, Error, ErrorPayload(InvalidData, sourceEvent, errorMsg));
    }
  }
}
