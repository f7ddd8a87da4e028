/**
 * rchat/views/chat/helpers.py: the name and avatar a chat is shown with
 * to one viewer. A private chat is shown as the other participant; any
 * other chat as itself.
 */
module ChatHelpers {
  import opened Wrappers
  import opened Schemas
  import Media
  import ChatRepo

  /**
   * The participant a private chat is named after: the first one unless
   * that is the viewer, then the second. Indexing past the end faults.
   */
  function OtherParticipant(participants: seq<UserId>, viewer: UserId): (r: Result<UserId, Fault>)
    ensures r.Failure? <==> |participants| == 0 || (participants[0] == viewer && |participants| < 2)
    ensures r.Failure? ==> r.error == ParticipantIndexError
    ensures r.Success? && participants[0] != viewer ==> r.value == participants[0]
    ensures r.Success? && participants[0] == viewer ==> r.value == participants[1]
  {
    if |participants| == 0 then Failure(ParticipantIndexError)
    else if participants[0] != viewer then Success(participants[0])
    else if |participants| < 2 then Failure(ParticipantIndexError)
    else Success(participants[1])
  }

  /** Of two distinct participants, the viewer is shown the one that is not the viewer. */
  lemma OtherOfPair(a: UserId, b: UserId, viewer: UserId)
    requires a != b && (viewer == a || viewer == b)
    ensures OtherParticipant([a, b], viewer).Success?
    ensures OtherParticipant([a, b], viewer).value != viewer
    ensures OtherParticipant([a, b], viewer).value in {a, b}
  {
  }

  /**
   * `get_chat_name_and_avatar`: for a private chat the other
   * participant's first name and avatar (an unknown user is read as None
   * and faults); for any other chat its own name, which must be present
   * and non-empty, and its own avatar.
   */
  function GetChatNameAndAvatar(users: map<UserId, User>, chatUsers: seq<ChatUser>, chat: Chat, viewer: UserId)
    : (r: Result<(string, Option<string>), Fault>)
    ensures (chat.chatType != Private ==>
               (r.Failure? <==> chat.name.None? || chat.name.value == "")
               && (r.Failure? ==> r.error == ChatNameAssertion))
    ensures (chat.chatType != Private && r.Success? ==>
               && Some(r.value.0) == chat.name
               && (r.value.1.None? <==> chat.avatarPhotoId.None?))
    ensures (chat.chatType == Private ==>
               var other := OtherParticipant(ChatRepo.GetChatParticipantUsers(chatUsers, chat.id), viewer);
               && (r.Failure? <==> other.Failure? || other.value !in users)
               && (r.Success? ==>
                     && r.value.0 == users[other.value].firstName
                     && (r.value.1.None? <==> users[other.value].avatarPhotoId.None?)))
  {
    if chat.chatType == Private then
      var other := OtherParticipant(ChatRepo.GetChatParticipantUsers(chatUsers, chat.id), viewer);
      if other.Failure? then Failure(other.error)
      else if other.value !in users then Failure(NoneHasNoAttribute)
      else
        var u := users[other.value];
        Success((u.firstName, Media.AvatarUrl(u.avatarPhotoId)))
    else if chat.name.None? || chat.name.value == "" then Failure(ChatNameAssertion)
    else Success((chat.name.value, Media.AvatarUrl(chat.avatarPhotoId)))
  }

  /** A group or channel looks the same to every viewer. */
  lemma NamedChatSameForAllViewers(users: map<UserId, User>, chatUsers: seq<ChatUser>, chat: Chat,
                                   v1: UserId, v2: UserId)
    requires chat.chatType != Private
    ensures GetChatNameAndAvatar(users, chatUsers, chat, v1) == GetChatNameAndAvatar(users, chatUsers, chat, v2)
  {
  }

  /**
   * A private chat between two distinct users, seen by one of them, is
   * named after the other one.
   */
  lemma {:induction false} PrivateChatNamedAfterOther(users: map<UserId, User>, chatUsers: seq<ChatUser>,
                                                      chat: Chat, a: UserId, b: UserId, viewer: UserId)
    requires chat.chatType == Private
    requires ChatRepo.GetChatParticipantUsers(chatUsers, chat.id) == [a, b]
    requires a != b && (viewer == a || viewer == b)
    requires a in users && b in users
    ensures (var other := if viewer == a then b else a;
             && other != viewer
             && GetChatNameAndAvatar(users, chatUsers, chat, viewer).Success?
             && GetChatNameAndAvatar(users, chatUsers, chat, viewer).value.0 == users[other].firstName)
  {
    OtherOfPair(a, b, viewer);
  }
}
