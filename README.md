# rchat request logic in Dafny

This project models the request logic of the rchat messaging backend, run over an in-memory store. It covers:

- the socket handlers for new messages and read receipts;
- the `/message/list` and `/chat/list` endpoints;
- the chat and message repositories, read as tables rather than SQL, and the session insert;
- the SQL-building helper;
- the socket server's event names, presence map and sessions;
- the normalisation of the user-search string.

Each repository is a class that holds its tables as sequences (`chats`, `chatUsers`, message `rows`) and inserts into them with methods. Each query is a function over those tables, written for what the query means:

- a `where` filter;
- `order by` as a stable sort on an integer key;
- `limit` as a prefix;
- `max`.

Queries without an `order by` answer in table order. The view helpers are functions over the tables. The endpoints and socket handlers are methods, and each one states its whole new state. Between them they change these fields and no others:

- the socket server's `outbox`, which records every event the modelled code sends and every connection it closes (`HandleNewMessage`, `HandleReadMessage`, `Connect`); what helpers outside the model send is there only where it is an input (`broadcast`);
- the message table's `rows` and `nextOrderId`, when `HandleNewMessage` stores a message through `CreateMessage`;
- the message table's `readMarkers`, when `HandleReadMessage` marks a message read, and when either handler adds the markers of `mark_unread_messages_before_as_read`;
- the socket server's `sessions`, when `Connect` accepts a token;
- the socket server's presence map `users`, when `HandleDisconnect` removes a connection's entry.

The `/message/list` and `/chat/list` endpoints change nothing.

Python faults that end a request, such as an `AttributeError` on `None`, a failed `assert`, a pydantic validation error or a database error, are kept as values of the `Fault` datatype. Building a response therefore yields a `Result`.

Two places where the documentation and the code disagree. The model follows the code in both:

- **Message order.** The `/message/list` docstring says messages come newest first. The query orders by `created_timestamp` ascending, and that is what `MessageRepo.GetChatMessages` does.
- **Empty chats in the chat list.** In a descending order, Postgres puts a chat with no message (a NULL `last_message_timestamp`) first. `ChatRepo.GetUserChats` does the same: chats with no messages come first, in table order, and then the others, newest first.

Two choices that fill gaps:

- **Presence map.** `sio.users` is looked up by user id in the read handler, but popped by connection id on disconnect, and nothing shown ever inserts into it. The model gives it keys of a datatype `UserKey(user) | SidKey(sid)`, the two kinds of key the Python dict is used with.
- **Missing helper.** `rchat/views/chat/views.py` imports a `get_chat_name` that the helper module does not define. The helper there is `get_chat_name_and_avatar`, and the chat-list item takes the name half of its answer.

## Model

| member | source | states |
|---|---|---|
| Sorting.SortBySorted | rchat/repository/message.py:38 | the stable sort behind `order by` returns its input in non-decreasing key order (multiset equality comes from `SortBy`) |
| Sorting.TakeSorted | rchat/repository/message.py:38 | `limit` takes a sorted prefix, and no element left behind has a smaller key than one taken |
| Sorting.FilterMember | rchat/repository/message.py:37 | a `where` filter keeps an element exactly when it is in the table and meets the condition |
| SqlBuild.NatToStringInjective | rchat/repository/helpers.py:21 | different numbers print differently |
| SqlBuild.PlaceholdersDistinct | rchat/repository/helpers.py:21 | the i-th placeholder is `$` followed by i+1, and no two placeholders coincide |
| SqlBuild.JoinSplitRoundTrip | rchat/repository/helpers.py:24-26 | joining comma-free names with `", "` loses nothing: splitting the result gives the names back |
| SqlBuild.Join | rchat/repository/helpers.py:24-28 | the joined text starts with the first part and ends with the last one (the round trip is stated by `JoinSplitRoundTrip`) |
| SqlBuild.Dump | rchat/repository/helpers.py:14 | with `exclude_none` the dump is exactly the model's non-None fields in declaration order (`Sorting.Filter` with `HasValue`): every non-None field is kept and no None value remains; without it the dump is the whole model |
| SqlBuild.CollectParts | rchat/repository/helpers.py:16-22 | the loop fills three lists of the dump's length, entry by entry: the field's name, `$(i+1)` and the field's value |
| SqlBuild.BuildModel | rchat/repository/helpers.py:10-28 | `build_model`, with `exclude_none` false by default: the names and placeholders joined by `", "`, the values in dump order, and no None value under `exclude_none` |
| SessionRepo.SessionDump | rchat/repository/session.py:6-12 | a session dumps to its six declared fields |
| SessionRepo.SessionColumns | rchat/repository/session.py:28-29 | the dump's column names and values come in declaration order |
| SessionRepo.SessionInsertRoundTrip | rchat/repository/session.py:28-36 | reading the inserted row back column by column gives the session: names and values stay aligned |
| SessionRepo.SessionInsertShape | rchat/repository/session.py:29-30 | the column list splits back into the six field names, and the placeholder list splits back into `$1..$6` |
| SessionRepo.SessionInsert | rchat/repository/session.py:28-36 | the insert goes to the `session` table with one value per dumped field (the column list and placeholders are stated by `SessionInsertShape`) |
| SessionRepo.SessionRepository.Create | rchat/repository/session.py:19-38 | the new session is active, has no country, takes its user, ip and user agent from the arguments and its id from the token, and is exactly what is inserted and returned |
| MessageRepo.GetById | rchat/repository/message.py:45-59 | None exactly when no row has the id; otherwise a stored message with that id |
| MessageRepo.GetByIdFindsRow | rchat/repository/message.py:45-59 | in a table with unique ids, looking up the id of the row at index i finds that row's message |
| MessageRepo.Selected | rchat/repository/message.py:35-37 | exactly the messages of the chat whose `order_id` is above `last_order_id` |
| MessageRepo.GetChatMessages | rchat/repository/message.py:29-43 | the query is refused exactly when the limit is negative |
| MessageRepo.GetChatMessagesPage | rchat/repository/message.py:35-38 | every message on the page is of the chat and has `order_id` above `last_order_id`; the page holds min(limit, matches) messages |
| MessageRepo.GetChatMessagesEarliest | rchat/repository/message.py:38 | the page ascends by `created_timestamp`, takes each match at most once, and no match left out is older than one taken |
| MessageRepo.MaxTimestamp | rchat/repository/message.py:65-66 | None exactly when the chat has no message; otherwise the creation time of one of its messages, and no message of it is later |
| MessageRepo.FirstCreatedAt | rchat/repository/message.py:63-64 | a stored message of the chat created at the given time, or None exactly when there is none |
| MessageRepo.GetLastChatMessage | rchat/repository/message.py:61-75 | None exactly when the chat has no message; otherwise a stored message of the chat whose creation time is the chat's maximum |
| MessageRepo.MessageRepository.constructor | rchat/repository/message.py:10-12 | the tables start empty |
| MessageRepo.StoredMessage | rchat/repository/message.py:18-27 | the row `returning *` gives back keeps the id, chat, sender and references of what was inserted and is stamped with the creation time |
| MessageRepo.MessageRepository.CreateMessage | rchat/repository/message.py:14-27 | a new id is appended with the next `order_id` and is found by `get_by_id` afterwards; an id already present violates the key and nothing changes |
| MessageRepo.MessageRepository.MarkMessageAsRead | rchat/views/message/views.py:254-257 | inserts the marker if absent, and answers true exactly when it was absent |
| ChatRepo.GetById | rchat/repository/chat.py:60-73 | None exactly when no chat has the id; otherwise a stored chat with that id |
| ChatRepo.GetChatParticipantUsers | rchat/repository/chat.py:75-85 | a user is listed exactly when there is a `chat_user` row for that chat and user |
| ChatRepo.ParticipantsAfterAdd | rchat/repository/chat.py:29-58 | a new `chat_user` row adds its user at the end of its own chat's participants and changes no other chat's |
| ChatRepo.GetUserChats | rchat/repository/chat.py:87-125 | `get_user_chats`: the user's chats, message-less ones first, then newest last message first; its meaning is stated by `UserChatsMembers`, `UserChatsOrdered` and `UserChatsPermutation` |
| ChatRepo.UserChatsMembers | rchat/repository/chat.py:87-125 | a user's chats are exactly the chats with a participant row for the user |
| ChatRepo.UserChatsOrdered | rchat/repository/chat.py:120 | chats with no message come first; the rest follow by latest message, newest first |
| ChatRepo.ActiveChatsOrdered | rchat/repository/chat.py:120 | chats that all have messages, sorted by the negated latest time, are newest first |
| ChatRepo.ConcatOrdered | rchat/repository/chat.py:120 | chats without messages, followed by chats ordered newest first, are in chat-list order |
| ChatRepo.UserChatsPermutation | rchat/repository/chat.py:87-125 | the list holds each of the user's chats as often as the table does |
| ChatRepo.GetPrivateChatWithUsers | rchat/repository/chat.py:127-155 | a result is a stored private chat in which two distinct listed users both participate; None exactly when no chat is such |
| ChatRepo.ChatRepository.constructor | rchat/repository/chat.py:10-12 | the tables start empty |
| ChatRepo.StoredChat | rchat/repository/chat.py:18-27 | the row `returning *` gives back keeps the id, type and name of what was inserted and is stamped with the creation time |
| ChatRepo.ChatRepository.CreateChat | rchat/repository/chat.py:14-27 | a chat with a new id is appended and then found by `get_by_id`; an id already present violates the key and nothing changes |
| ChatRepo.ChatRepository.AddChatParticipant | rchat/repository/chat.py:29-58 | appends one row, with role defaulting to member and the adder and last message to null; the user is then a participant, and every other chat's participants are unchanged |
| ChatRepo.GetByIdAppended | rchat/repository/chat.py:14-27 | a chat appended to a table without its id is what the lookup by that id finds |
| Media.AvatarUrl | rchat/views/message/helpers.py:68-72 | the avatar link is None exactly when the photo id is absent |
| MessageHelpers.GetMessageSender | rchat/views/message/helpers.py:62-89 | a success is a user sender or a chat sender, never both. A user sender fails exactly when the user is missing, and otherwise carries the user's id, first name and avatar. A chat sender fails exactly when the chat is missing or has no name, and otherwise carries the chat's id, name and avatar |
| MessageHelpers.ResolveRef | rchat/views/message/helpers.py:19-21 | a reference resolves exactly when it is present and some row has that id, to that stored message |
| MessageHelpers.Referenced | rchat/views/message/helpers.py:33-45 | None exactly when the reference does not resolve; otherwise the target's id, type, text and sender; a fault exactly when the target's sender faults |
| MessageHelpers.ResponseFor | rchat/services/message.py:31-71 | an entry fails exactly when the forward, the reply or the sender fails. Otherwise it copies the message's fields, sets `created_at` to `created_timestamp`, carries the resolved references and the sender, and leaves audio, video and the readers empty |
| MessageHelpers.ResponseAsWritten | rchat/views/message/helpers.py:19-31 | as written, an entry whose forward reference resolves always faults, and otherwise equals the intended entry |
| MessageHelpers.ForwardedMessageBreaksList | rchat/views/message/helpers.py:23 | for a concrete forward of a stored message, the written entry faults and the intended entry exists |
| MessageHelpers.GetChatMessagesList | rchat/views/message/helpers.py:8-59 | as written: a negative limit is refused; the list is complete exactly when every fetched message has a written entry, and then holds those entries in order; a fault is that of the first message without one; a page with a resolving forward always faults |
| MessageHelpers.EntriesAsWritten | rchat/views/message/helpers.py:17-59 | the loop as written gives one entry per message in order, or the fault of the first message without one |
| MessageService.GetChatMessagesList | rchat/services/message.py:24-72 | a negative limit is refused; a complete list has one entry per fetched message, in order; a fault is that of the first message without an entry |
| MessageService.Entries | rchat/services/message.py:30-72 | the loop gives one entry per message in order, or the fault of the first message without one |
| MessageService.ListFollowsPage | rchat/services/message.py:27-72 | a complete list is of the requested chat, keeps the page's ids in place, and ascends by `created_at` |
| MessageService.IsChatExist | rchat/services/message.py:103-105 | true exactly when some chat has the id |
| MessageService.IsUserChatParticipant | rchat/services/message.py:107-111 | true exactly when a `chat_user` row joins the user to the chat |
| ChatHelpers.OtherParticipant | rchat/views/chat/helpers.py:24-28 | the first participant unless that is the viewer, then the second; an index error exactly when the list is empty, or when it has only the viewer |
| ChatHelpers.OtherOfPair | rchat/views/chat/helpers.py:24-28 | of two distinct participants, one being the viewer, the other one is chosen, never the viewer |
| ChatHelpers.GetChatNameAndAvatar | rchat/views/chat/helpers.py:7-44 | a private chat shows the other participant's first name and avatar (an unknown user or a bad index faults); any other chat shows its own name, which must be present and non-empty, and its own avatar, None exactly when the photo id is absent |
| ChatHelpers.NamedChatSameForAllViewers | rchat/views/chat/helpers.py:37-44 | a non-private chat looks the same to every viewer |
| ChatHelpers.PrivateChatNamedAfterOther | rchat/views/chat/helpers.py:18-35 | a private chat between two distinct known users is named, for either of them, after the other one |
| ChatViews.ItemFor | rchat/views/chat/views.py:27-53 | an item faults exactly when the name or the last message's sender faults. Otherwise it copies the chat's id and type, uses the chat's own avatar (None exactly when absent), and has no last message exactly when the chat has none. A last message copies the chat's newest message: id, type, text, time and sender |
| ChatViews.GetChatList | rchat/views/chat/views.py:17-56 | a complete list has one item per chat of `get_user_chats`, in the same order; a fault is that of the first chat without an item |
| ChatViews.ChatListShowsOwnChats | rchat/views/chat/views.py:23-54 | a complete list shows exactly the viewer's chats: each item is of a chat the viewer takes part in, and every such chat has an item |
| ChatViews.OwnChatsListed | rchat/views/chat/views.py:23-27 | items carrying, in place, the ids of the user's chats list exactly the user's chats |
| ChatViews.ItemShowsChat | rchat/views/chat/views.py:36-53 | an item keeps its chat's id and type, and the time of the chat's newest message |
| ChatViews.ItemsKeepChats | rchat/views/chat/views.py:37-40 | every item of a complete list carries its chat's id and type |
| ChatViews.ChatListNewestFirst | rchat/views/chat/views.py:17-25 | a complete list has chats without messages first and the others by last message, newest first |
| SocketServer.EventName | rchat/clients/socketio_client.py:15-20 | every event name is wrapped in underscores |
| SocketServer.EventOf | rchat/clients/socketio_client.py:15-20 | looking up an event by name finds the event with that name, and None exactly when no event has it |
| SocketServer.EventNameRoundTrip | rchat/clients/socketio_client.py:15-20 | every event is found again from its name |
| SocketServer.EventNamesDistinct | rchat/clients/socketio_client.py:15-20 | the five event names are pairwise distinct |
| SocketServer.Server.constructor | rchat/clients/socketio_client.py:24-29 | the presence map, the sessions and the outbox start empty |
| SocketServer.Server.Connect | rchat/clients/socketio_client.py:102-112 | with no authorization header nothing is recorded; a refused token closes the connection and stores no session; a good token stores its user id in the connection's session |
| SocketServer.Server.HandleDisconnect | rchat/clients/socketio_client.py:115-118 | the connection's key is removed, nothing happens if it is absent, and every other entry is unchanged |
| SocketServer.Server.Send | rchat/views/message/views.py:284-288 | one event is appended to the outbox, addressed to one connection |
| SocketServer.Server.EmitError | rchat/views/message/views.py:108-114 | one invalid-data error event naming the refused event and the reason is sent to the connection |
| MessageViews.NewMessageDecision | rchat/views/message/views.py:99-187 | each refusal holds exactly when its guard is the first to fail: not a participant gives chat_not_found; reply and forward together, or a reply target outside the chat, give cannot_reply_this_message; a forward target that is missing or in a chat the sender has left gives cannot_forward_this_message. An accepted message is a text message of the resolved chat by the sender, whatever chat id the body named |
| MessageViews.ReplyAndForwardRefusedUnread | rchat/views/message/views.py:117-130 | replying and forwarding at once is refused whatever the message table holds, so before any lookup |
| MessageViews.ForwardFromOtherChat | rchat/views/message/views.py:153-180 | a message from another chat of the sender may be forwarded, and the new message still belongs to the resolved chat |
| MessageViews.HandleNewMessage | rchat/views/message/views.py:83-196 | a refusal sends exactly one error event to the sender and changes no table; an accepted message is stored as the decision built it at the next order id, the counter moves by one, the broadcast of `create_and_send_message` is sent and the markers of `mark_unread_messages_before_as_read` are added; an id already taken ends the request with nothing changed |
| MessageViews.ReadDecision | rchat/views/message/views.py:203-271 | each refusal holds exactly when its guard is the first to fail, in order: message in the named chat, reader a participant, reader not the author, not read yet; an accepted receipt names a message of that chat |
| MessageViews.MarkersAfter | rchat/views/message/views.py:254-257 | a receipt adds at most its own marker and removes none |
| MessageViews.ReadIdempotent | rchat/views/message/views.py:254-271 | sending a receipt again leaves the markers as they are; a receipt that was marked is then refused as already read, and one refused earlier is refused for the same reason |
| MessageViews.ErrorEvent | rchat/views/message/views.py:108-114 | the error event goes back to the requesting connection as an `_error_` event naming the refused event and the reason |
| MessageViews.ReceiptTo | rchat/views/message/views.py:283-288 | a participant gets at most one receipt, and one exactly when the presence map has an entry for them |
| MessageViews.FanOut | rchat/views/message/views.py:282-288 | the broadcast sends at most one event per participant |
| MessageViews.FanOutSendsReceipt | rchat/views/message/views.py:282-288 | every event the broadcast sends is a `read_message` event carrying the receipt |
| MessageViews.FanOutAppend | rchat/views/message/views.py:282-288 | one more participant adds exactly that participant's receipt at the end |
| MessageViews.FanOutReachesPresent | rchat/views/message/views.py:279-288 | the broadcast sends one receipt to each participant in the presence map, in participant order, to that participant's connection, and nothing to the others |
| MessageViews.HandleReadMessage | rchat/views/message/views.py:199-288 | the marker set is updated as the guards decide, plus the markers of `mark_unread_messages_before_as_read` on acceptance; a refusal sends one error event to the reader; an accepted receipt broadcasts (chat, message, reader) to the present participants of the message's chat |
| MessageViews.GetChatMessages | rchat/views/message/views.py:38-80 | `last_order_id` defaults to 0; 400 chat_not_found exactly when the chat is missing; 400 user_not_in_chat exactly when the viewer is not in it; otherwise the message list, complete exactly when every fetched message has an entry; a fault raised while building it is that of the first message without one |
| UserViews.StripLeading | rchat/views/user/views.py:32 | removes exactly the leading run of whitespace |
| UserViews.StripTrailing | rchat/views/user/views.py:32 | removes exactly the trailing run of whitespace |
| UserViews.Strip | rchat/views/user/views.py:32 | the stripped string is a contiguous part of the input, everything cut before and after it is whitespace, and it neither starts nor ends with whitespace |
| UserViews.StripTrimmed | rchat/views/user/views.py:32 | cutting the leading whitespace and then the trailing whitespace leaves the input trimmed at one offset, with only whitespace cut on either side |
| UserViews.DropAts | rchat/views/user/views.py:33-34 | when the stripped string starts with `@`, the whole leading run of `@` is cut and nothing else; the result never starts with `@` |
| UserViews.StripAts | rchat/views/user/views.py:34 | removes the whole leading run of `@`, not just the first character |
| UserViews.NormaliseMatch | rchat/views/user/views.py:32-34 | the search string never starts with `@`; it is a suffix of the stripped input, and what was cut off is all `@` |
| UserViews.NormaliseNoTrailingSpace | rchat/views/user/views.py:32-34 | the search string never ends with whitespace |
| UserViews.NormaliseKeepsCleanInput | rchat/views/user/views.py:32-34 | an input with no surrounding whitespace and no leading `@` is searched for unchanged |

## Left out

- The database, the connection pool and the SQL text are not modelled. Each query is modelled by what it returns. These choices the database leaves open are resolved by table order:
  - ties in `order by created_timestamp` (rchat/repository/message.py:38);
  - ties among chats with the same latest timestamp, and the order of the chats with no message (NULL timestamp), in `order by last_message_timestamp desc` (rchat/repository/chat.py:120), since `ChatRepo.GetUserChats` sorts stably;
  - which message `get_last_chat_message`'s `fetchrow` returns when several share the latest timestamp (rchat/repository/message.py:70): `MessageRepo.FirstCreatedAt` picks the first in table order;
  - the row `fetchrow` picks from an unordered `select distinct`.
- Socket.io transport (`emit`, `disconnect`, ASGI mounting) is not modelled: sending is an append to the server's outbox. The JSON echo of the refused body (`data=...model_dump_json()`) is not kept in error events.
- `get_user_id_from_socket_session` is not part of this model. It is read as the lookup of the connection's stored session; a connection without one makes the handler stop with no effect.
- `validate_message_body_and_get_chat` is not part of this model. The chat it settles on is a parameter (`validated`), and None means it already answered and nothing else happens.
- Private-chat creation on a first message is not modelled. The handler's documentation (rchat/views/message/views.py:87-89) says that writing to a user with whom the sender has no chat creates a private chat and adds both users; that would happen inside `validate_message_body_and_get_chat`, whose body is not shown.
- MessageViews.HandleNewMessage: takes the chat tables and the outbox as they stand after `validate_message_body_and_get_chat` ran. Any private chat it created, with its participant rows, is already in `chatRepo`, and `chatRepo` is outside the frame. The answer the helper sends when it returns None is not recorded in the outbox.
- `create_and_send_message` is not part of this model. Its storing of the message is modelled via `CreateMessage`. What it sends is the input `broadcast` of `HandleNewMessage`, appended to the outbox as given; nothing ties it to the chat's participants.
- `MessageCreate` is not part of this model: rchat/repository/message.py:7 imports it from rchat/schemas/message.py, which does not define it. The model assumes it carries the body's `reply_to_message_id` and `forwarded_message_id` into the stored `reply_to_message` and `forwarded_message`. Since `build_model` uses field names as column names, the real class would need fields named after those columns.
- `MessageRepository.mark_message_as_read` is not part of this model: rchat/repository/message.py does not define it. It is assumed to insert the (message, user) marker if it is absent and to return whether it did, which is what rchat/views/message/views.py:254-257 relies on.
- `mark_unread_messages_before_as_read` is not part of this model; its body is not shown. The markers it adds are the input `caughtUp` of both handlers, added as given; nothing ties them to the chat, the message order or the reader.
- `sio.emit_error_event` is not part of this model. It is taken to send one `_error_` event to the given connection.
- `SocketioErrorStatusEnum` is not part of this model. Its one value used here, `invalid_data`, is the only `ErrorStatus`.
- The string values of the status enums (`NewMessageStatusEnum`, `ReadMessageStatusEnum`, `ChatMessagesStatusEnum`) are not shown, so they are modelled as datatype constructors without wire strings.
- The user and media repositories are not modelled. Users are a map from id to user, and `get_media_url` is the stub that returns `""`.
- The user lookup is modelled as the call the helpers intend, not as written. rchat/repository/user.py:11 declares `get_by_id(self, id)`, but rchat/views/message/helpers.py:67, rchat/services/message.py:79 and rchat/views/chat/helpers.py:29 call it with the keyword `id_=`. In Python that call raises `TypeError` before any lookup, so every user sender and every private-chat name would fault. The model does not capture this fault.
- The user row is modelled as the `User` of rchat/schemas/user.py, which has `first_name` and `avatar_photo_id`. The repository returns the `User` of rchat/views/auth/models.py:17-23, which has neither field, so reading them would raise `AttributeError`. The model does not capture this fault either.
- SocketServer.Server.Connect: stores the session of an accepted token. rchat/clients/socketio_client.py:110 opens the session with a plain `with sio.session(sid)`; if the library's session object supports only `async with`, that line raises before `user_id` is stored. The library is not part of this model, so that fault is not captured.
- Authentication is not modelled. The token check is a function parameter of `Connect`; JWT encoding, geo-IP lookup, the clock and `token_urlsafe` (the session id `token`, the time `now`) are inputs.
- Concurrency between handlers is not modelled; handlers run one at a time.
- When a token is refused, the transport may later call the disconnect handler. That call is not chained onto `Connect`: `HandleDisconnect` is a separate method.
- Validation that pydantic enforces declaratively (regexes, lengths, UUID versions) is not modelled; ids are integers and timestamps are integers.
- The commented-out event dispatch in rchat/clients/socketio_client.py, the application wiring, migrations, middlewares and the auth endpoints are not part of this model.
- MessageViews.HandleNewMessage: states the broadcast of the new message and the catch-up read marking only as the unconstrained inputs `broadcast` and `caughtUp`, since neither helper's body is shown.
- MessageViews.HandleReadMessage: states the catch-up read marking only as the unconstrained input `caughtUp`, for the same reason.
- MessageViews.GetChatMessages: answers with the corrected message list (`MessageService.GetChatMessagesList`), not the list as written in rchat/views/message/helpers.py; see Findings.

## Findings

| source | as written | input that shows it | evidently intended | confidence | as-written member | corrected member |
|---|---|---|---|---|---|---|
| rchat/views/message/helpers.py:23 | the forwarded message's sender is asked of `app_state.get_message_sender`, a method the application state object does not have | a chat page holding message 11 that forwards stored message 10: building its entry raises `AttributeError` | call the module's own `get_message_sender`, as the reply branch does and as `MessageService.get_chat_messages_list` does | not executed | MessageHelpers.ResponseAsWritten | MessageHelpers.ResponseFor |
