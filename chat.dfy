/**
  The server state shared by the handlers: the users table, the messages
  table and the log of what the server hands to Socket.IO (room joins and
  emitted events). Each handler is modelled as running to completion before
  the next starts.
 */
module Chat {
  import opened Wrappers
  import opened Rooms
  import opened Timestamps
  import opened Presence
  import opened History

  /** The logged-in user of a request (Flask-Login's current_user). */
  datatype Principal = Principal(id: int, username: string)

  datatype Event =
      /** join_room(room) for the requesting user's connection */
    | JoinedRoom(user: int, room: string)
      /** emit('load_messages', history) back to the requesting connection only */
    | LoadMessages(to: int, history: seq<HistoryEntry>)
      /** emit('receive_message', {sender, body, room}, room=room) */
    | ReceiveMessage(room: string, sender: string, body: string)

  /** An emitted message is the last row of the table as it stood when it was
      emitted (`stored` rows), and it goes to the room of that row's pair. */
  predicate Persisted(e: Event, stored: nat, messages: seq<Message>)
    requires e.ReceiveMessage?
  {
    && 1 <= stored <= |messages|
    && e.room == RoomName(messages[stored - 1].sender, messages[stored - 1].receiver)
    && e.body == messages[stored - 1].body
  }

  predicate AllPersisted(events: seq<Event>, stored: seq<nat>, messages: seq<Message>)
    requires |events| == |stored|
  {
    forall k | 0 <= k < |events| :: events[k].ReceiveMessage? ==> Persisted(events[k], stored[k], messages)
  }

  predicate IdsSequential(messages: seq<Message>) {
    forall i | 0 <= i < |messages| :: messages[i].id == i + 1
  }

  lemma AllPersistedAppendEvent(events: seq<Event>, stored: seq<nat>, messages: seq<Message>, e: Event)
    requires |events| == |stored| && AllPersisted(events, stored, messages)
    requires e.ReceiveMessage? ==> Persisted(e, |messages|, messages)
    ensures AllPersisted(events + [e], stored + [|messages|], messages)
  {
    var all, allStored := events + [e], stored + [|messages|];
    assert forall k | 0 <= k < |events| :: all[k] == events[k] && allStored[k] == stored[k];
  }

  lemma AllPersistedAppendMessage(events: seq<Event>, stored: seq<nat>, messages: seq<Message>, m: Message)
    requires |events| == |stored| && AllPersisted(events, stored, messages)
    ensures AllPersisted(events, stored, messages + [m])
  {
    var all := messages + [m];
    forall k | 0 <= k < |events| && events[k].ReceiveMessage?
      ensures Persisted(events[k], stored[k], all)
    {
      var i := stored[k] - 1;
      assert all[i] == messages[i];
    }
  }

  /** The server invariant on the values of its state. */
  predicate Consistent(users: seq<UserRow>, messages: seq<Message>, events: seq<Event>, stored: seq<nat>) {
    && DistinctIds(users)
    && IdsSequential(messages)
    && |stored| == |events|
    && AllPersisted(events, stored, messages)
  }

  /** The UPDATE of last_active keeps the invariant. */
  lemma ConsistentAfterTouch(users: seq<UserRow>, messages: seq<Message>, events: seq<Event>, stored: seq<nat>,
                             id: int, stamp: string)
    requires Consistent(users, messages, events, stored)
    ensures Consistent(SetLastActive(users, id, stamp), messages, events, stored)
  {
    SetLastActiveKeepsIds(users, id, stamp);
  }

  /** A join or a load_messages reply keeps the invariant. */
  lemma ConsistentAfterReply(users: seq<UserRow>, messages: seq<Message>, events: seq<Event>, stored: seq<nat>, e: Event)
    requires Consistent(users, messages, events, stored)
    requires !e.ReceiveMessage?
    ensures Consistent(users, messages, events + [e], stored + [|messages|])
  {
    AllPersistedAppendEvent(events, stored, messages, e);
  }

  /** Inserting the row with the next id, then emitting it to its pair's room,
      keeps the invariant. */
  lemma ConsistentAfterSend(users: seq<UserRow>, messages: seq<Message>, events: seq<Event>, stored: seq<nat>,
                            m: Message, e: Event)
    requires Consistent(users, messages, events, stored)
    requires m.id == |messages| + 1
    requires e.ReceiveMessage? && e.room == RoomName(m.sender, m.receiver) && e.body == m.body
    ensures Consistent(users, messages + [m], events + [e], stored + [|messages| + 1])
  {
    var all := messages + [m];
    AllPersistedAppendMessage(events, stored, messages, m);
    assert all[|messages|] == m;
    assert Persisted(e, |all|, all);
    AllPersistedAppendEvent(events, stored, all, e);
    assert forall i | 0 <= i < |messages| :: all[i] == messages[i];
  }

  class ChatServer {
    var users: seq<UserRow>
    var messages: seq<Message>
    var events: seq<Event>
    /** For each event, the number of rows in the messages table when it happened. */
    ghost var stored: seq<nat>

    ghost predicate Valid()
      reads this
    {
      Consistent(users, messages, events, stored)
    }

    /** A server started on the tables left by earlier runs (init_db creates them only
        when they do not exist); nothing has been joined or emitted yet. */
    constructor (initialUsers: seq<UserRow>, initialMessages: seq<Message>)
      requires DistinctIds(initialUsers) && IdsSequential(initialMessages)
      ensures Valid()
      ensures users == initialUsers && messages == initialMessages && events == []
    {
      users := initialUsers;
      messages := initialMessages;
      events := [];
      stored := [];
    }

    /** update_last_active: stores the text of `now` in the row with that id, if there is one. */
    method TouchUser(userId: int, now: DateTime)
      requires Valid() && ValidDateTime(now)
      modifies this
      ensures Valid()
      ensures users == SetLastActive(old(users), userId, FormatDateTime(now))
      ensures messages == old(messages) && events == old(events) && stored == old(stored)
    {
      var stamp := FormatDateTime(now);
      ConsistentAfterTouch(users, messages, events, stored, userId, stamp);
      users := SetLastActive(users, userId, stamp);
    }

    /** The index page: fetch the other users, record this user's activity (at
        `touchedAt`), then list the fetched rows with their online flag at `now`. */
    method Index(me: Principal, touchedAt: DateTime, now: DateTime)
      returns (peers: Result<seq<PeerEntry>, TimestampError>)
      requires Valid() && ValidDateTime(touchedAt) && ValidDateTime(now)
      modifies this
      ensures Valid()
      ensures peers == PeerList(SelectOthers(old(users), me.id), ToInstant(now))
      ensures users == SetLastActive(old(users), me.id, FormatDateTime(touchedAt))
      ensures messages == old(messages) && events == old(events) && stored == old(stored)
    {
      var fetched := SelectOthers(users, me.id);
      TouchUser(me.id, touchedAt);
      peers := ListPeers(fetched, ToInstant(now));
    }

    /** Logs a join and a reply to the requesting connection; neither is a broadcast. */
    method RecordReplies(joined: Event, replay: Event)
      requires Valid() && !joined.ReceiveMessage? && !replay.ReceiveMessage?
      modifies this
      ensures Valid()
      ensures events == old(events) + [joined, replay]
      ensures stored == old(stored) + [|messages|, |messages|]
      ensures users == old(users) && messages == old(messages)
    {
      ghost var mark := |messages|;
      ConsistentAfterReply(users, messages, events, stored, joined);
      ConsistentAfterReply(users, messages, events + [joined], stored + [mark], replay);
      assert events + [joined] + [replay] == events + [joined, replay];
      assert stored + [mark] + [mark] == stored + [mark, mark];
      events, stored := events + [joined, replay], stored + [mark, mark];
    }

    /** handle_join_chat: join the pair's room, then send this user the pair's history. */
    method JoinChat(me: Principal, receiverId: int) returns (loaded: seq<HistoryEntry>)
      requires Valid()
      modifies this
      ensures Valid()
      ensures loaded == Transcript(users, PairHistory(users, messages, me.id, receiverId))
      ensures events == old(events) + [JoinedRoom(me.id, RoomName(me.id, receiverId)), LoadMessages(me.id, loaded)]
      ensures stored == old(stored) + [|messages|, |messages|]
      ensures users == old(users) && messages == old(messages)
    {
      loaded := Transcript(users, PairHistory(users, messages, me.id, receiverId));
      RecordReplies(JoinedRoom(me.id, RoomName(me.id, receiverId)), LoadMessages(me.id, loaded));
    }

    /** Logs the insert of the row with the next id and its emit to the pair's room. */
    method RecordSend(m: Message, e: Event)
      requires Valid()
      requires m.id == |messages| + 1
      requires e.ReceiveMessage? && e.room == RoomName(m.sender, m.receiver) && e.body == m.body
      modifies this
      ensures Valid()
      ensures messages == old(messages) + [m] && events == old(events) + [e]
      ensures stored == old(stored) + [|messages|]
      ensures users == old(users)
    {
      ConsistentAfterSend(users, messages, events, stored, m, e);
      messages := messages + [m];
      events, stored := events + [e], stored + [|messages|];
    }

    /** handle_send_message: insert the row, and only when the insert succeeded emit
        it to the pair's room. `writeSucceeds` is the outcome of the sqlite write;
        when it fails the handler raises before the emit. No check on the body. */
    method SendMessage(me: Principal, receiverId: int, body: string, sentAt: int, writeSucceeds: bool)
      returns (delivered: bool)
      requires Valid()
      modifies this
      ensures Valid()
      ensures delivered == writeSucceeds
      ensures users == old(users)
      ensures delivered ==>
                && messages == old(messages) + [Message(|old(messages)| + 1, me.id, receiverId, body, sentAt)]
                && events == old(events) + [ReceiveMessage(RoomName(me.id, receiverId), me.username, body)]
                && stored == old(stored) + [|messages|]
      ensures !delivered ==> messages == old(messages) && events == old(events) && stored == old(stored)
    {
      if !writeSucceeds {
        return false;
      }
      RecordSend(Message(|messages| + 1, me.id, receiverId, body, sentAt),
                 ReceiveMessage(RoomName(me.id, receiverId), me.username, body));
      delivered := true;
    }
  }

  /** The receiver opens the private chat, then the sender writes to them: the
      message is emitted to exactly the room the receiver joined. */
  method JoinThenSend(server: ChatServer, sender: Principal, receiver: Principal, body: string, sentAt: int)
    requires server.Valid()
    modifies server
    ensures server.Valid()
    ensures var n := |old(server.events)|;
            && |server.events| == n + 3
            && server.events[n] == JoinedRoom(receiver.id, RoomName(receiver.id, sender.id))
            && server.events[n + 2] == ReceiveMessage(server.events[n].room, sender.username, body)
  {
    ghost var n := |server.events|;
    var _ := server.JoinChat(receiver, sender.id);
    ghost var joined := server.events[n];
    var _ := server.SendMessage(sender, receiver.id, body, sentAt, true);
    assert server.events[n] == joined;
    RoomNameSymmetric(sender.id, receiver.id);
  }
}
