/** rchat/repository/chat.py: the `chat` and `chat_user` tables and their queries. */
module ChatRepo {
  import opened Wrappers
  import opened Schemas
  import opened Sorting
  import MessageRepo

  ghost predicate IdsUnique(chats: seq<Chat>)
  {
    forall i, j :: 0 <= i < j < |chats| ==> chats[i].id != chats[j].id
  }

  /** `get_by_id`: the chat with that id, or None. */
  function GetById(chats: seq<Chat>, id: ChatId): (r: Option<Chat>)
    ensures r.None? <==> forall i :: 0 <= i < |chats| ==> chats[i].id != id
    ensures r.Some? ==> r.value.id == id && r.value in chats
  {
    if chats == [] then None
    else if chats[0].id == id then Some(chats[0])
    else
      var r := GetById(chats[1..], id);
      assert forall i :: 1 <= i < |chats| ==> chats[i] == chats[1..][i - 1];
      r
  }

  /** `get_chat_participant_users`: the user of every `chat_user` row of the chat, in table order. */
  function GetChatParticipantUsers(chatUsers: seq<ChatUser>, chatId: ChatId): (us: seq<UserId>)
    ensures forall u :: u in us <==> exists row :: row in chatUsers && row.chatId == chatId && row.userId == u
    ensures |us| <= |chatUsers|
  {
    if chatUsers == [] then []
    else
      var rest := GetChatParticipantUsers(chatUsers[1..], chatId);
      assert forall row :: row in chatUsers <==> row == chatUsers[0] || row in chatUsers[1..];
      if chatUsers[0].chatId == chatId then [chatUsers[0].userId] + rest else rest
  }

  /** A new `chat_user` row adds its user to its chat's participants and changes no other chat's. */
  lemma {:induction false} ParticipantsAfterAdd(chatUsers: seq<ChatUser>, row: ChatUser, chatId: ChatId)
    ensures GetChatParticipantUsers(chatUsers + [row], chatId) ==
      GetChatParticipantUsers(chatUsers, chatId) + (if row.chatId == chatId then [row.userId] else [])
  {
    if chatUsers != [] {
      assert (chatUsers + [row])[1..] == chatUsers[1..] + [row];
      ParticipantsAfterAdd(chatUsers[1..], row, chatId);
    }
  }

  predicate IsParticipant(chatUsers: seq<ChatUser>, chatId: ChatId, userId: UserId)
  {
    userId in GetChatParticipantUsers(chatUsers, chatId)
  }

  /** The sort key for chats that have messages: later last message first. */
  function NewestFirst(rows: seq<MessageRepo.MessageRow>, c: Chat): int
  {
    var t := MessageRepo.MaxTimestamp(rows, c.id);
    if t.Some? then -t.value else 0
  }

  function NewestFirstKey(rows: seq<MessageRepo.MessageRow>): Chat -> int
  {
    (c: Chat) => NewestFirst(rows, c)
  }

  function ParticipatesIn(chatUsers: seq<ChatUser>, userId: UserId): Chat -> bool
  {
    (c: Chat) => IsParticipant(chatUsers, c.id, userId)
  }

  function HasMessage(rows: seq<MessageRepo.MessageRow>): Chat -> bool
  {
    (c: Chat) => MessageRepo.MaxTimestamp(rows, c.id).Some?
  }

  function HasNoMessage(rows: seq<MessageRepo.MessageRow>): Chat -> bool
  {
    (c: Chat) => MessageRepo.MaxTimestamp(rows, c.id).None?
  }

  /** `order by last_message_timestamp desc`, where Postgres puts chats with no message (NULL) first. */
  ghost predicate UserChatsOrder(rows: seq<MessageRepo.MessageRow>, a: Chat, b: Chat)
  {
    var ta, tb := MessageRepo.MaxTimestamp(rows, a.id), MessageRepo.MaxTimestamp(rows, b.id);
    ta.None? || (tb.Some? && tb.value <= ta.value)
  }

  /**
   * `get_user_chats`: the chats that have a `chat_user` row for the user,
   * newest last message first, chats without any message ahead of all others
   * (NULL sorts first in a descending order); ties keep table order.
   */
  function GetUserChats(chats: seq<Chat>, chatUsers: seq<ChatUser>, rows: seq<MessageRepo.MessageRow>, userId: UserId)
    : (r: seq<Chat>)
  {
    var mine := Filter(chats, ParticipatesIn(chatUsers, userId));
    var silent := Filter(mine, HasNoMessage(rows));
    var active := Filter(mine, HasMessage(rows));
    silent + SortBy(active, NewestFirstKey(rows))
  }

  /** A user's chat list holds exactly the chats the user participates in. */
  lemma UserChatsMembers(chats: seq<Chat>, chatUsers: seq<ChatUser>, rows: seq<MessageRepo.MessageRow>, userId: UserId)
    ensures forall c :: c in GetUserChats(chats, chatUsers, rows, userId) <==>
      c in chats && IsParticipant(chatUsers, c.id, userId)
  {
    var mine := Filter(chats, ParticipatesIn(chatUsers, userId));
    var silent := Filter(mine, HasNoMessage(rows));
    var active := Filter(mine, HasMessage(rows));
    var sorted := SortBy(active, NewestFirstKey(rows));
    assert GetUserChats(chats, chatUsers, rows, userId) == silent + sorted;
    forall c ensures c in silent + sorted <==> c in chats && IsParticipant(chatUsers, c.id, userId) {
      assert c in sorted <==> c in multiset(sorted);
      assert c in active <==> c in multiset(active);
      FilterMember(chats, ParticipatesIn(chatUsers, userId), c);
      FilterMember(mine, HasNoMessage(rows), c);
      FilterMember(mine, HasMessage(rows), c);
    }
  }

  /** A user's chat list is ordered by last message, newest first, chats with no message first. */
  lemma UserChatsOrdered(chats: seq<Chat>, chatUsers: seq<ChatUser>, rows: seq<MessageRepo.MessageRow>, userId: UserId)
    ensures var r := GetUserChats(chats, chatUsers, rows, userId);
      forall i, j :: 0 <= i < j < |r| ==> UserChatsOrder(rows, r[i], r[j])
  {
    var mine := Filter(chats, ParticipatesIn(chatUsers, userId));
    var silent := Filter(mine, HasNoMessage(rows));
    var active := Filter(mine, HasMessage(rows));
    var sorted := SortBy(active, NewestFirstKey(rows));
    ActiveChatsOrdered(active, rows, sorted);
    assert forall k :: 0 <= k < |silent| ==> HasNoMessage(rows)(silent[k]);
    ConcatOrdered(silent, sorted, rows);
  }

  /** Chats that all have messages, sorted by the newest-first key, are in chat-list order. */
  lemma ActiveChatsOrdered(active: seq<Chat>, rows: seq<MessageRepo.MessageRow>, sorted: seq<Chat>)
    requires forall k :: 0 <= k < |active| ==> HasMessage(rows)(active[k])
    requires sorted == SortBy(active, NewestFirstKey(rows))
    ensures forall i, j :: 0 <= i < j < |sorted| ==> UserChatsOrder(rows, sorted[i], sorted[j])
  {
    var key := NewestFirstKey(rows);
    SortBySorted(active, key);
    forall k | 0 <= k < |sorted| ensures HasMessage(rows)(sorted[k]) {
      assert sorted[k] in multiset(active);
    }
    forall i, j | 0 <= i < j < |sorted| ensures UserChatsOrder(rows, sorted[i], sorted[j]) {
      assert key(sorted[i]) <= key(sorted[j]);
      assert HasMessage(rows)(sorted[i]) && HasMessage(rows)(sorted[j]);
    }
  }

  /** Chats with no message followed by ordered chats with messages are in chat-list order. */
  lemma ConcatOrdered(silent: seq<Chat>, sorted: seq<Chat>, rows: seq<MessageRepo.MessageRow>)
    requires forall k :: 0 <= k < |silent| ==> HasNoMessage(rows)(silent[k])
    requires forall i, j :: 0 <= i < j < |sorted| ==> UserChatsOrder(rows, sorted[i], sorted[j])
    ensures var r := silent + sorted;
      forall i, j :: 0 <= i < j < |r| ==> UserChatsOrder(rows, r[i], r[j])
  {
    var r := silent + sorted;
    forall i, j | 0 <= i < j < |r| ensures UserChatsOrder(rows, r[i], r[j]) {
      if i < |silent| {
        assert HasNoMessage(rows)(r[i]);
      } else {
        assert r[i] == sorted[i - |silent|] && r[j] == sorted[j - |silent|];
      }
    }
  }

  /** Each chat of the user appears as often in the list as in the table: once, when ids are unique. */
  lemma UserChatsPermutation(chats: seq<Chat>, chatUsers: seq<ChatUser>, rows: seq<MessageRepo.MessageRow>, userId: UserId)
    ensures multiset(GetUserChats(chats, chatUsers, rows, userId)) ==
      multiset(Filter(chats, ParticipatesIn(chatUsers, userId)))
  {
    var mine := Filter(chats, ParticipatesIn(chatUsers, userId));
    FilterPartition(mine, rows);
  }

  /** Chats with and chats without a message split the chats between them. */
  lemma {:induction false} FilterPartition(s: seq<Chat>, rows: seq<MessageRepo.MessageRow>)
    ensures multiset(Filter(s, HasNoMessage(rows))) + multiset(Filter(s, HasMessage(rows))) == multiset(s)
  {
    if s != [] {
      var h, t := s[0], s[1..];
      var p, q := HasNoMessage(rows), HasMessage(rows);
      FilterPartition(t, rows);
      assert multiset(s) == multiset{h} + multiset(t) by { assert s == [h] + t; }
      if p(h) {
        assert multiset(Filter(s, p)) == multiset{h} + multiset(Filter(t, p)) by {
          assert Filter(s, p) == [h] + Filter(t, p);
        }
        assert Filter(s, q) == Filter(t, q);
      } else {
        assert multiset(Filter(s, q)) == multiset{h} + multiset(Filter(t, q)) by {
          assert Filter(s, q) == [h] + Filter(t, q);
        }
        assert Filter(s, p) == Filter(t, p);
      }
    }
  }

  /** A private chat in which two different users of `users` both participate. */
  predicate PrivateWith(chatUsers: seq<ChatUser>, c: Chat, users: seq<UserId>)
  {
    && c.chatType == Private
    && exists u1, u2 :: u1 in users && u2 in users && u1 != u2
         && IsParticipant(chatUsers, c.id, u1) && IsParticipant(chatUsers, c.id, u2)
  }

  /**
   * `get_private_chat_with_users`: the first private chat, in table order,
   * in which two distinct users of the list both participate; None if none.
   */
  function GetPrivateChatWithUsers(chats: seq<Chat>, chatUsers: seq<ChatUser>, users: seq<UserId>)
    : (r: Option<Chat>)
    ensures r.Some? ==> r.value in chats && PrivateWith(chatUsers, r.value, users)
    ensures r.None? <==> forall c :: c in chats ==> !PrivateWith(chatUsers, c, users)
  {
    if chats == [] then None
    else if PrivateWith(chatUsers, chats[0], users) then Some(chats[0])
    else
      var r := GetPrivateChatWithUsers(chats[1..], chatUsers, users);
      assert forall c :: c in chats <==> c == chats[0] || c in chats[1..];
      r
  }

  /** The row `returning *` gives back for a chat created at `now`. */
  function StoredChat(create: ChatCreate, now: Timestamp): (c: Chat)
    ensures c.id == create.id && c.chatType == create.chatType && c.name == create.name
    ensures c.createdTimestamp == now
  {
    Chat(create.id, create.chatType, create.name, create.avatarPhotoId, create.description, now)
  }

  class ChatRepository {
    var chats: seq<Chat>
    var chatUsers: seq<ChatUser>

    ghost predicate Valid()
      reads this
    {
      IdsUnique(chats)
    }

    constructor()
      ensures Valid() && chats == [] && chatUsers == []
    {
      chats := [];
      chatUsers := [];
    }

    /**
     * `create_chat`: inserts the chat, stamped with the current time, and
     * returns it; `get_by_id` then finds it. An id already in the table
     * violates the primary key and nothing is written.
     */
    method CreateChat(create: ChatCreate, now: Timestamp) returns (r: Result<Chat, Fault>)
      requires Valid()
      modifies this
      ensures Valid() && chatUsers == old(chatUsers)
      ensures GetById(old(chats), create.id).Some? ==> r == Failure(UniqueViolation) && chats == old(chats)
      ensures GetById(old(chats), create.id).None? ==>
        r == Success(StoredChat(create, now)) && chats == old(chats) + [r.value]
      ensures r.Success? ==> GetById(chats, r.value.id) == Some(r.value)
    {
      if GetById(chats, create.id).Some? {
        return Failure(UniqueViolation);
      }
      var c := StoredChat(create, now);
      chats := chats + [c];
      GetByIdAppended(old(chats), c);
      r := Success(c);
    }

    /**
     * `add_chat_participant`: appends one `chat_user` row; role defaults to
     * member, the adder and the last available message to null.
     */
    method AddChatParticipant(chatId: ChatId, userId: UserId, addedByUser: Option<UserId> := None,
                              role: UserChatRole := Member, lastAvailableMessage: Option<MessageId> := None)
      modifies this`chatUsers
      ensures chatUsers == old(chatUsers) + [ChatUser(chatId, userId, addedByUser, role, lastAvailableMessage)]
      ensures IsParticipant(chatUsers, chatId, userId)
      ensures forall other :: other != chatId ==>
        GetChatParticipantUsers(chatUsers, other) == GetChatParticipantUsers(old(chatUsers), other)
    {
      var row := ChatUser(chatId, userId, addedByUser, role, lastAvailableMessage);
      chatUsers := chatUsers + [row];
      ParticipantsAfterAdd(old(chatUsers), row, chatId);
      forall other | other != chatId
        ensures GetChatParticipantUsers(chatUsers, other) == GetChatParticipantUsers(old(chatUsers), other)
      {
        ParticipantsAfterAdd(old(chatUsers), row, other);
      }
    }
  }

  /** A chat appended to a table that lacks its id is what `get_by_id` finds for that id. */
  lemma {:induction false} GetByIdAppended(chats: seq<Chat>, c: Chat)
    requires GetById(chats, c.id).None?
    ensures GetById(chats + [c], c.id) == Some(c)
  {
    if chats != [] {
      assert (chats + [c])[1..] == chats[1..] + [c];
      GetByIdAppended(chats[1..], c);
    }
  }
}
