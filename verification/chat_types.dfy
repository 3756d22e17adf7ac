/** The chat payload delivered by the upstream feed and the parsed form
    the formatter works on. Fields the program reads defensively,
    falling back to a default when absent (the badge list, the message and
    its fragments, the reply), are optional here. */
module ChatTypes {
  import opened Wrappers

  /** The `type` tag of a message fragment, with the payload each kind
      carries. `OtherFragment` stands for a tag outside the declared union,
      which the program still has to handle at run time. */
  datatype FragmentKind =
    | TextFragment
    | EmoteFragment(emoteId: string, emoteSetId: string)
    | CheermoteFragment(prefix: string, bits: int, tier: int)
    | MentionFragment(userId: string, userName: string, userLogin: string)
    | OtherFragment(tag: string)

  datatype MessageFragment = MessageFragment(kind: FragmentKind, text: string)

  datatype Badge = Badge(setId: string, id: string, info: string)

  datatype ReplyInfo = ReplyInfo(
    parentMessageId: string,
    parentUserId: string,
    parentUserLogin: string,
    parentUserName: string,
    parentMessageBody: string,
    threadMessageId: Option<string>,
    threadUserId: Option<string>,
    threadUserLogin: Option<string>,
    threadUserName: Option<string>)

  datatype MessageBody = MessageBody(text: Option<string>, fragments: Option<seq<MessageFragment>>)

  datatype ChatMessage = ChatMessage(
    broadcasterUserId: string,
    broadcasterUserLogin: string,
    broadcasterUserName: string,
    chatterUserId: string,
    chatterUserLogin: string,
    chatterUserName: string,
    messageId: string,
    message: Option<MessageBody>,
    color: Option<string>,
    badges: Option<seq<Badge>>,
    messageType: string,
    cheerBits: Option<int>,
    reply: Option<ReplyInfo>,
    channelPointsCustomRewardId: Option<string>,
    sourceBroadcasterUserId: Option<string>,
    sourceBroadcasterUserLogin: Option<string>,
    sourceBroadcasterUserName: Option<string>,
    sourceMessageId: Option<string>,
    sourceBadges: Option<seq<Badge>>)

  datatype UserRole = Broadcaster | Moderator | Vip | Subscriber | Regular

  datatype ParsedChatMessage = ParsedChatMessage(
    messageId: string,
    userName: string,
    displayName: string,
    message: string,
    role: UserRole,
    color: Option<string>,
    isSubscriber: bool,
    isModerator: bool,
    isBroadcaster: bool,
    isVip: bool,
    replyToUser: Option<string>,
    badges: seq<Badge>)
}
