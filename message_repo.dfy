/** rchat/repository/message.py: the `message` table and its queries. */
module MessageRepo {
  import opened Wrappers
  import opened Schemas
  import opened Sorting

  /** A row of the `message` table: the message and its serial `order_id` column. */
  datatype MessageRow = MessageRow(message: Message, orderId: int)

  ghost predicate IdsUnique(rows: seq<MessageRow>)
  {
    forall i, j :: 0 <= i < j < |rows| ==> rows[i].message.id != rows[j].message.id
  }

  /** `get_by_id`: `select * from "message" where "id" = $1`. */
  function GetById(rows: seq<MessageRow>, id: MessageId): (r: Option<Message>)
    ensures r.None? <==> forall i :: 0 <= i < |rows| ==> rows[i].message.id != id
    ensures r.Some? ==> r.value.id == id && exists i :: 0 <= i < |rows| && rows[i].message == r.value
  {
    if rows == [] then None
    else if rows[0].message.id == id then Some(rows[0].message)
    else
      var r := GetById(rows[1..], id);
      assert r.Some? ==> rows[1..][0..] == rows[1..];
      r
  }

  /** In a table with unique ids, the message stored at index `i` is the one found by its id. */
  lemma {:induction false} GetByIdFindsRow(rows: seq<MessageRow>, i: nat)
    requires IdsUnique(rows) && i < |rows|
    ensures GetById(rows, rows[i].message.id) == Some(rows[i].message)
  {
    if i > 0 {
      GetByIdFindsRow(rows[1..], i - 1);
    }
  }

  /** The messages of `chatId` whose order id is above `lastOrderId`, in table order. */
  function Selected(rows: seq<MessageRow>, chatId: ChatId, lastOrderId: int): (ms: seq<Message>)
    ensures forall k :: 0 <= k < |ms| ==> ms[k].chatId == chatId
    ensures forall k :: 0 <= k < |ms| ==>
              exists row :: row in rows && row.message == ms[k] && row.orderId > lastOrderId
    ensures forall row :: row in rows && row.message.chatId == chatId && row.orderId > lastOrderId ==>
              row.message in ms
  {
    var chosen := Filter(rows, (row: MessageRow) => row.message.chatId == chatId && row.orderId > lastOrderId);
    var ms := seq(|chosen|, (k: int) requires 0 <= k < |chosen| => chosen[k].message);
    assert forall row :: row in rows && row.message.chatId == chatId && row.orderId > lastOrderId ==>
      row.message in ms by {
      forall row | row in rows && row.message.chatId == chatId && row.orderId > lastOrderId
        ensures row.message in ms
      {
        var i :| 0 <= i < |rows| && rows[i] == row;
        assert row in chosen;
        var k :| 0 <= k < |chosen| && chosen[k] == row;
        assert ms[k] == row.message;
      }
    }
    ms
  }

  function CreatedAt(m: Message): int
  {
    m.createdTimestamp
  }

  /**
   * `get_chat_messages`: the chat's messages after `last_order_id`, ordered
   * by creation time ascending, at most `limit` of them. A negative limit
   * is refused by the database.
   */
  function GetChatMessages(rows: seq<MessageRow>, chatId: ChatId, lastOrderId: int, limit: int)
    : (r: Result<seq<Message>, Fault>)
    ensures r.Failure? <==> limit < 0
    ensures r.Failure? ==> r.error == NegativeLimit
  {
    if limit < 0 then Failure(NegativeLimit)
    else Success(Take(SortBy(Selected(rows, chatId, lastOrderId), CreatedAt), limit))
  }

  /**
   * What a page of messages is: each of the requested chat with an order id
   * above `lastOrderId`, and as many as there are, up to `limit`.
   */
  lemma GetChatMessagesPage(rows: seq<MessageRow>, chatId: ChatId, lastOrderId: int, limit: int)
    requires 0 <= limit
    ensures var ms := GetChatMessages(rows, chatId, lastOrderId, limit).value;
      var all := Selected(rows, chatId, lastOrderId);
      && |ms| == (if limit < |all| then limit else |all|)
      && (forall k :: 0 <= k < |ms| ==> ms[k].chatId == chatId)
      && (forall k :: 0 <= k < |ms| ==>
            exists row :: row in rows && row.message == ms[k] && row.orderId > lastOrderId)
  {
    var all := Selected(rows, chatId, lastOrderId);
    var ms := Take(SortBy(all, CreatedAt), limit);
    forall k | 0 <= k < |ms|
      ensures ms[k] in all
    {
      assert ms[k] in multiset(all);
    }
  }

  /**
   * A page is ordered by ascending creation time, takes each stored message
   * at most once, and no message left out is older than one taken.
   */
  lemma GetChatMessagesEarliest(rows: seq<MessageRow>, chatId: ChatId, lastOrderId: int, limit: int)
    requires 0 <= limit
    ensures var ms := GetChatMessages(rows, chatId, lastOrderId, limit).value;
      var all := Selected(rows, chatId, lastOrderId);
      && (forall j, k :: 0 <= j < k < |ms| ==> ms[j].createdTimestamp <= ms[k].createdTimestamp)
      && multiset(ms) <= multiset(all)
      && (forall m, k :: m in multiset(all) - multiset(ms) && 0 <= k < |ms| ==>
            ms[k].createdTimestamp <= m.createdTimestamp)
  {
    var all := Selected(rows, chatId, lastOrderId);
    SortBySorted(all, CreatedAt);
    TakeSorted(SortBy(all, CreatedAt), limit, CreatedAt);
  }

  /** The latest `created_timestamp` among the chat's messages; None when it has none. */
  function MaxTimestamp(rows: seq<MessageRow>, chatId: ChatId): (t: Option<Timestamp>)
    ensures t.None? <==> forall i :: 0 <= i < |rows| ==> rows[i].message.chatId != chatId
    ensures t.Some? ==> (exists i :: 0 <= i < |rows| && rows[i].message.chatId == chatId
                                  && rows[i].message.createdTimestamp == t.value)
    ensures t.Some? ==> (forall i :: 0 <= i < |rows| && rows[i].message.chatId == chatId
                                  ==> rows[i].message.createdTimestamp <= t.value)
  {
    if rows == [] then None
    else
      var rest := MaxTimestamp(rows[1..], chatId);
      assert forall i :: 1 <= i < |rows| ==> rows[i] == rows[1..][i - 1];
      if rows[0].message.chatId != chatId then rest
      else if rest.None? || rest.value < rows[0].message.createdTimestamp then Some(rows[0].message.createdTimestamp)
      else rest
  }

  /** The first message of the chat, in table order, created at `t`. */
  function FirstCreatedAt(rows: seq<MessageRow>, chatId: ChatId, t: Timestamp): (r: Option<Message>)
    ensures r.None? <==> forall i :: 0 <= i < |rows| ==>
      !(rows[i].message.chatId == chatId && rows[i].message.createdTimestamp == t)
    ensures r.Some? ==> (r.value.chatId == chatId && r.value.createdTimestamp == t
                         && exists i :: 0 <= i < |rows| && rows[i].message == r.value)
  {
    if rows == [] then None
    else if rows[0].message.chatId == chatId && rows[0].message.createdTimestamp == t then Some(rows[0].message)
    else
      var r := FirstCreatedAt(rows[1..], chatId, t);
      assert forall i :: 1 <= i < |rows| ==> rows[i] == rows[1..][i - 1];
      r
  }

  /**
   * `get_last_chat_message`: a message of the chat whose creation time is
   * the chat's latest, or None when the chat has no message.
   */
  function GetLastChatMessage(rows: seq<MessageRow>, chatId: ChatId): (r: Option<Message>)
    ensures r.Some? ==> MaxTimestamp(rows, chatId) == Some(r.value.createdTimestamp)
    ensures r.None? <==> forall i :: 0 <= i < |rows| ==> rows[i].message.chatId != chatId
    ensures r.Some? ==> r.value.chatId == chatId && exists i :: 0 <= i < |rows| && rows[i].message == r.value
    ensures r.Some? ==> (forall i :: 0 <= i < |rows| && rows[i].message.chatId == chatId
                                  ==> rows[i].message.createdTimestamp <= r.value.createdTimestamp)
  {
    var t := MaxTimestamp(rows, chatId);
    if t.None? then None else FirstCreatedAt(rows, chatId, t.value)
  }

  /** The row `returning *` gives back for an inserted message created at `now`. */
  function StoredMessage(create: MessageCreate, now: Timestamp): (m: Message)
    ensures m.id == create.id && m.chatId == create.chatId && m.senderUserId == create.senderUserId
    ensures m.createdTimestamp == now
    ensures m.replyToMessage == create.replyToMessageId && m.forwardedMessage == create.forwardedMessageId
  {
    Message(create.id, create.messageType, create.chatId, create.senderUserId, None, create.messageText,
            None, None, create.replyToMessageId, create.forwardedMessageId, create.isSilent, None, now)
  }

  class MessageRepository {
    var rows: seq<MessageRow>
    /** The next value of the `order_id` serial. */
    var nextOrderId: int
    /** The read markers: pairs (message id, reader). */
    var readMarkers: set<(MessageId, UserId)>

    ghost predicate Valid()
      reads this
    {
      && IdsUnique(rows)
      && 1 <= nextOrderId
      && forall i :: 0 <= i < |rows| ==> 1 <= rows[i].orderId < nextOrderId
    }

    constructor()
      ensures Valid() && rows == [] && readMarkers == {}
    {
      rows := [];
      nextOrderId := 1;
      readMarkers := {};
    }

    /**
     * `create_message`: appends the message with the next order id and the
     * current time; an id already in the table violates the primary key
     * and nothing is written.
     */
    method CreateMessage(create: MessageCreate, now: Timestamp) returns (r: Result<Message, Fault>)
      requires Valid()
      modifies this
      ensures Valid() && readMarkers == old(readMarkers)
      ensures GetById(old(rows), create.id).Some? ==>
        r == Failure(UniqueViolation) && rows == old(rows) && nextOrderId == old(nextOrderId)
      ensures GetById(old(rows), create.id).None? ==>
        && r == Success(StoredMessage(create, now))
        && rows == old(rows) + [MessageRow(r.value, old(nextOrderId))]
        && nextOrderId == old(nextOrderId) + 1
      ensures r.Success? ==> GetById(rows, r.value.id) == Some(r.value)
    {
      if GetById(rows, create.id).Some? {
        return Failure(UniqueViolation);
      }
      var m := StoredMessage(create, now);
      rows := rows + [MessageRow(m, nextOrderId)];
      nextOrderId := nextOrderId + 1;
      GetByIdFindsRow(rows, |rows| - 1);
      r := Success(m);
    }

    /**
     * `mark_message_as_read`: inserts the read marker if it is absent;
     * true exactly when it was absent.
     */
    method MarkMessageAsRead(messageId: MessageId, readByUser: UserId) returns (isMarked: bool)
      modifies this`readMarkers
      ensures isMarked <==> (messageId, readByUser) !in old(readMarkers)
      ensures readMarkers == old(readMarkers) + {(messageId, readByUser)}
    {
      isMarked := (messageId, readByUser) !in readMarkers;
      readMarkers := readMarkers + {(messageId, readByUser)};
    }
  }
}
