/** The message service: parsing an upstream chat payload and rendering
    chat lines, link-status notices and the welcome screen as PETSCII
    text. */
module Messages {
  import opened Wrappers
  import opened JsString
  import opened PetsciiCodes
  import opened PetsciiService
  import opened ChatTypes

  // ---------------------------------------------------------------------
  // Parsing

  /** True exactly when some badge in the list has set id `setId`. */
  function HasBadge(badges: seq<Badge>, setId: string): (r: bool)
    ensures r <==> exists i :: 0 <= i < |badges| && badges[i].setId == setId
    decreases |badges|
  {
    if |badges| == 0 then false
    else badges[0].setId == setId || HasBadge(badges[1..], setId)
  }

  /** The message's badges; a payload without a badge list has none. */
  function BadgesOf(data: ChatMessage): seq<Badge>
  {
    data.badges.GetOr([])
  }

  /** The message's fragments; none when the message or its fragment list
      is absent. */
  function FragmentsOf(data: ChatMessage): seq<MessageFragment>
  {
    if data.message.Some? then data.message.value.fragments.GetOr([]) else []
  }

  /** The message's raw text; empty when the message or its text is absent. */
  function RawTextOf(data: ChatMessage): string
  {
    if data.message.Some? then data.message.value.text.GetOr("") else ""
  }

  /** Fragments that carry readable text: everything but emotes and
      cheermotes (unknown tags included). */
  predicate IsSpoken(f: MessageFragment)
  {
    !f.kind.EmoteFragment? && !f.kind.CheermoteFragment?
  }

  /** The texts of the spoken fragments, in order, concatenated with no
      separator. */
  function SpokenText(fs: seq<MessageFragment>): string
    decreases |fs|
  {
    if |fs| == 0 then ""
    else (if IsSpoken(fs[0]) then fs[0].text else "") + SpokenText(fs[1..])
  }

  lemma {:induction false} SpokenTextAppend(a: seq<MessageFragment>, b: seq<MessageFragment>)
    ensures SpokenText(a + b) == SpokenText(a) + SpokenText(b)
    decreases |a|
  {
    if |a| == 0 {
      assert a + b == b;
    } else {
      assert (a + b)[0] == a[0];
      assert (a + b)[1..] == a[1..] + b;
      SpokenTextAppend(a[1..], b);
    }
  }

  /** `extractTextFromFragments`: the raw text, untrimmed, when there are
      no fragments; otherwise the trimmed text of the spoken fragments. */
  function ExtractText(data: ChatMessage): (r: string)
    ensures |FragmentsOf(data)| == 0 ==> r == RawTextOf(data)
    ensures |FragmentsOf(data)| > 0 && |r| > 0 ==> !IsWhitespace(r[0]) && !IsWhitespace(r[|r| - 1])
    ensures |FragmentsOf(data)| > 0 ==> (r == "" <==> AllWhitespace(SpokenText(FragmentsOf(data))))
    ensures |FragmentsOf(data)| > 0 ==>
      var t := SpokenText(FragmentsOf(data));
      exists k :: 0 <= k && k + |r| <= |t| && r == t[k..k + |r|]
                  && AllWhitespace(t[..k]) && AllWhitespace(t[k + |r|..])
  {
    var fragments := FragmentsOf(data);
    if |fragments| == 0 then RawTextOf(data)
    else Trim(SpokenText(fragments))
  }

  /** The payload with its fragment list replaced. */
  function WithFragments(data: ChatMessage, fs: seq<MessageFragment>): (d: ChatMessage)
    ensures FragmentsOf(d) == fs
  {
    var text := if data.message.Some? then data.message.value.text else None;
    data.(message := Some(MessageBody(text, Some(fs))))
  }

  /** An emote or cheermote inserted anywhere into a non-empty fragment
      list leaves the extracted text unchanged. */
  lemma ExtractIgnoresEmotes(data: ChatMessage, i: nat, f: MessageFragment)
    requires |FragmentsOf(data)| > 0 && i <= |FragmentsOf(data)|
    requires f.kind.EmoteFragment? || f.kind.CheermoteFragment?
    ensures ExtractText(WithFragments(data, FragmentsOf(data)[..i] + [f] + FragmentsOf(data)[i..]))
            == ExtractText(data)
  {
    var fs := FragmentsOf(data);
    var gs := fs[..i] + [f] + fs[i..];
    SpokenSkipsInserted(fs, i, f);
    assert FragmentsOf(WithFragments(data, gs)) == gs;
  }

  lemma SpokenSkipsInserted(fs: seq<MessageFragment>, i: nat, f: MessageFragment)
    requires i <= |fs|
    requires !IsSpoken(f)
    ensures SpokenText(fs[..i] + [f] + fs[i..]) == SpokenText(fs)
  {
    var a, b := fs[..i], fs[i..];
    assert fs == a + b;
    assert SpokenText([f]) == "" by {
      assert [f][1..] == [];
    }
    calc {
      SpokenText(a + [f] + b);
      { SpokenTextAppend(a + [f], b); }
      SpokenText(a + [f]) + SpokenText(b);
      { SpokenTextAppend(a, [f]); }
      SpokenText(a) + SpokenText(b);
      { SpokenTextAppend(a, b); }
      SpokenText(fs);
    }
  }

  /** A message made only of emotes and cheermotes yields no text, even
      when its raw text is not empty. */
  lemma {:induction false} ExtractEmoteOnly(data: ChatMessage)
    requires |FragmentsOf(data)| > 0
    requires forall j :: 0 <= j < |FragmentsOf(data)| ==> !IsSpoken(FragmentsOf(data)[j])
    ensures ExtractText(data) == ""
  {
    SpokenOfUnspoken(FragmentsOf(data));
    assert AllWhitespace("");
  }

  lemma {:induction false} SpokenOfUnspoken(fs: seq<MessageFragment>)
    requires forall j :: 0 <= j < |fs| ==> !IsSpoken(fs[j])
    ensures SpokenText(fs) == ""
    decreases |fs|
  {
    if |fs| > 0 {
      SpokenOfUnspoken(fs[1..]);
    }
  }

  /** The role: the first of broadcaster, moderator, vip, subscriber that
      applies, else regular. */
  function RoleFor(isBroadcaster: bool, isModerator: bool, isVip: bool, isSubscriber: bool): UserRole
  {
    if isBroadcaster then Broadcaster
    else if isModerator then Moderator
    else if isVip then Vip
    else if isSubscriber then Subscriber
    else Regular
  }

  /** The name of the user being replied to; none when there is no reply
      or the name is empty. */
  function ReplyToUserOf(data: ChatMessage): Option<string>
  {
    if data.reply.Some? && data.reply.value.parentUserName != "" then Some(data.reply.value.parentUserName)
    else None
  }

  /** `parseMessage`. */
  function ParseMessage(data: ChatMessage): (p: ParsedChatMessage)
    ensures p.isBroadcaster <==> exists i :: 0 <= i < |BadgesOf(data)| && BadgesOf(data)[i].setId == "broadcaster"
    ensures p.isModerator <==> exists i :: 0 <= i < |BadgesOf(data)| && BadgesOf(data)[i].setId == "moderator"
    ensures p.isVip <==> exists i :: 0 <= i < |BadgesOf(data)| && BadgesOf(data)[i].setId == "vip"
    ensures p.isSubscriber <==> exists i :: 0 <= i < |BadgesOf(data)| && BadgesOf(data)[i].setId == "subscriber"
    ensures p.role == Broadcaster <==> p.isBroadcaster
    ensures p.role == Moderator <==> !p.isBroadcaster && p.isModerator
    ensures p.role == Vip <==> !p.isBroadcaster && !p.isModerator && p.isVip
    ensures p.role == Subscriber <==> !p.isBroadcaster && !p.isModerator && !p.isVip && p.isSubscriber
    ensures p.role == Regular <==> !p.isBroadcaster && !p.isModerator && !p.isVip && !p.isSubscriber
    ensures p.replyToUser.Some? <==> data.reply.Some? && data.reply.value.parentUserName != ""
    ensures p.replyToUser.Some? ==> p.replyToUser.value == data.reply.value.parentUserName
    ensures p.userName == data.chatterUserLogin && p.displayName == data.chatterUserName
    ensures p.messageId == data.messageId && p.color == data.color && p.badges == BadgesOf(data)
    ensures p.message == ExtractText(data)
  {
    var badges := BadgesOf(data);
    var isBroadcaster := HasBadge(badges, "broadcaster");
    var isModerator := HasBadge(badges, "moderator");
    var isVip := HasBadge(badges, "vip");
    var isSubscriber := HasBadge(badges, "subscriber");
    ParsedChatMessage(
      data.messageId, data.chatterUserLogin, data.chatterUserName, ExtractText(data),
      RoleFor(isBroadcaster, isModerator, isVip, isSubscriber), data.color,
      isSubscriber, isModerator, isBroadcaster, isVip, ReplyToUserOf(data), badges)
  }

  // ---------------------------------------------------------------------
  // Chat lines

  /** The user-name colour and the optional reverse-video switch, assigned
      in the service's order: subscriber, then moderator, then broadcaster
      overriding both. */
  function UserStyle(p: ParsedChatMessage): (style: (string, char))
    ensures p.isBroadcaster ==> style == ("", Char(Pink))
    ensures !p.isBroadcaster && p.isModerator ==> style == (Str(ReverseOn), Char(Green))
    ensures !p.isBroadcaster && !p.isModerator && p.isSubscriber ==> style == (Str(ReverseOn), Char(White))
    ensures !p.isBroadcaster && !p.isModerator && !p.isSubscriber ==> style == ("", Char(White))
  {
    var inverter0, color0 := "", Char(White);
    var inverter1 := if p.isSubscriber then Str(ReverseOn) else inverter0;
    var inverter2 := if p.isModerator then Str(ReverseOn) else inverter1;
    var color2 := if p.isModerator then Char(Green) else color0;
    if p.isBroadcaster then ("", Char(Pink)) else (inverter2, color2)
  }

  /** A vip badge alone changes nothing in how the user name is drawn. */
  lemma VipUnstyled(p: ParsedChatMessage)
    ensures UserStyle(p.(isVip := true)) == UserStyle(p.(isVip := false))
  {
  }

  /** The text searched for when highlighting a reply. */
  function ReplyMention(user: string): string
  {
    "@" + LowerAscii(user)
  }

  /** The mention drawn in reverse white, then back to light blue. */
  function HighlightedMention(user: string): string
  {
    Str(ReverseOn) + Str(White) + "@" + LowerAscii(user) + Str(LightBlue) + Str(ReverseOff)
  }

  /** Reply highlighting: only the first occurrence of the mention is
      rewritten. */
  function Highlight(body: string, replyToUser: Option<string>): string
  {
    if replyToUser.Some? && replyToUser.value != "" then
      ReplaceFirst(body, ReplyMention(replyToUser.value), HighlightedMention(replyToUser.value))
    else body
  }

  /** Without a reply the body is not touched; with one, a body that does
      not mention the replied-to user is not touched either, and otherwise
      exactly the first mention is replaced. */
  lemma HighlightFirstOnly(body: string, replyToUser: Option<string>, i: nat)
    ensures replyToUser.None? ==> Highlight(body, replyToUser) == body
    ensures replyToUser.Some? && (forall k :: 0 <= k <= |body| ==> !OccursAt(body, ReplyMention(replyToUser.value), k))
            ==> Highlight(body, replyToUser) == body
    ensures replyToUser.Some? && replyToUser.value != ""
            && OccursAt(body, ReplyMention(replyToUser.value), i)
            && (forall k :: 0 <= k < i ==> !OccursAt(body, ReplyMention(replyToUser.value), k))
            ==> Highlight(body, replyToUser)
                == body[..i] + HighlightedMention(replyToUser.value) + body[i + |ReplyMention(replyToUser.value)|..]
  {
    if replyToUser.Some? && replyToUser.value != "" && OccursAt(body, ReplyMention(replyToUser.value), i)
       && (forall k :: 0 <= k < i ==> !OccursAt(body, ReplyMention(replyToUser.value), k)) {
      ReplaceFirstAt(body, ReplyMention(replyToUser.value), HighlightedMention(replyToUser.value), i);
    }
  }

  /** The layout of a chat line: the reverse switch and colour, the user
      name, a reverse-off, `: `, light blue, the body and two returns. */
  function ChatLine(inverter: string, colour: char, name: string, body: string): string
  {
    inverter + [colour] + name + Str(ReverseOff) + ": " + Str(LightBlue) + body + "\r\r"
  }

  lemma ChatLineLatin1(inverter: string, colour: char, name: string, body: string)
    requires Latin1(inverter) && colour as int < 256 && Latin1(name) && Latin1(body)
    ensures Latin1(ChatLine(inverter, colour, name, body))
  {
    Latin1Append(inverter, [colour]);
    Latin1Append(inverter + [colour], name);
    Latin1Append(inverter + [colour] + name, Str(ReverseOff) + ": " + Str(LightBlue));
    assert inverter + [colour] + name + (Str(ReverseOff) + ": " + Str(LightBlue))
        == inverter + [colour] + name + Str(ReverseOff) + ": " + Str(LightBlue);
    var front := inverter + [colour] + name + Str(ReverseOff) + ": " + Str(LightBlue);
    Latin1Append(front, body);
    Latin1Append(front + body, "\r\r");
  }

  /** `formatForC64`: nothing for a message with no displayable character;
      otherwise the styled lower-case user name, `: `, the sanitised body
      in light blue with the reply mention highlighted, and two returns. */
  function FormatForC64(p: ParsedChatMessage): (r: string)
    ensures r == "" <==> Words(p.message) == ""
    ensures r != "" ==>
      r == ChatLine(
             if p.isBroadcaster then "" else if p.isModerator || p.isSubscriber then Str(ReverseOn) else "",
             if p.isBroadcaster then Char(Pink) else if p.isModerator then Char(Green) else Char(White),
             LowerAscii(p.userName),
             Highlight(CleanMessage(p.message, DefaultMaxLength), p.replyToUser))
  {
    var body := CleanMessage(p.message, DefaultMaxLength);
    if body == "" then ""
    else
      var style := UserStyle(p);
      ChatLine(style.0, style.1, LowerAscii(p.userName), Highlight(body, p.replyToUser))
  }

  lemma LowerLatin1(s: string)
    requires Latin1(s)
    ensures Latin1(LowerAscii(s))
  {
  }

  lemma SanitisedLatin1(body: string)
    requires AllAllowed(body)
    ensures Latin1(body)
  {
    forall i | 0 <= i < |body| ensures body[i] as int < 256 {
      AllowedIsPrintableAscii(body[i]);
    }
  }

  lemma HighlightLatin1(body: string, replyToUser: Option<string>)
    requires Latin1(body)
    requires replyToUser.Some? ==> Latin1(replyToUser.value)
    ensures Latin1(Highlight(body, replyToUser))
  {
    if replyToUser.Some? && replyToUser.value != "" {
      var u := replyToUser.value;
      LowerLatin1(u);
      var front := Str(ReverseOn) + Str(White) + "@";
      Latin1Append(front, LowerAscii(u));
      Latin1Append(front + LowerAscii(u), Str(LightBlue) + Str(ReverseOff));
      assert front + LowerAscii(u) + (Str(LightBlue) + Str(ReverseOff)) == HighlightedMention(u);
      ReplaceFirstLatin1(body, ReplyMention(u), HighlightedMention(u));
    }
  }

  /** Every code unit of a chat line fits in the one byte the terminal
      receives when the user names do. */
  lemma FormatForC64Latin1(p: ParsedChatMessage)
    requires Latin1(p.userName)
    requires p.replyToUser.Some? ==> Latin1(p.replyToUser.value)
    ensures Latin1(FormatForC64(p))
  {
    var body := CleanMessage(p.message, DefaultMaxLength);
    if body != "" {
      StyledLineLatin1(p, body);
    }
  }

  /** The chat line for any sanitised body. */
  lemma StyledLineLatin1(p: ParsedChatMessage, body: string)
    requires Latin1(p.userName)
    requires p.replyToUser.Some? ==> Latin1(p.replyToUser.value)
    requires AllAllowed(body)
    ensures var style := UserStyle(p);
      Latin1(ChatLine(style.0, style.1, LowerAscii(p.userName), Highlight(body, p.replyToUser)))
  {
    var style := UserStyle(p);
    var lit := Highlight(body, p.replyToUser);
    assert Latin1(lit) by {
      SanitisedLatin1(body);
      HighlightLatin1(body, p.replyToUser);
    }
    assert Latin1(LowerAscii(p.userName)) by {
      LowerLatin1(p.userName);
    }
    ChatLineLatin1(style.0, style.1, LowerAscii(p.userName), lit);
  }

  // ---------------------------------------------------------------------
  // Fixed texts

  /** `getPusherStatusMessage(isConnected)`. */
  function PusherStatusMessage(isConnected: bool): (r: string)
    ensures |r| > 5 && Latin1(r)
    ensures r[0] == '\r' && r[2] == Char(ReverseOn)
    ensures r[1] == (if isConnected then Char(Green) else Char(Red))
    ensures r[|r| - 3..] == Str(ReverseOff) + "\r\r"
  {
    var text := if isConnected then " cyberspace link restored " else " twitch link lost ";
    var colour := if isConnected then Green else Red;
    var r := "\r" + Str(colour) + Str(ReverseOn) + text + Str(ReverseOff) + "\r\r";
    assert r[|r| - 3..] == Str(ReverseOff) + "\r\r";
    r
  }

  /** The two link-status notices differ, so a terminal can tell a restored
      link from a lost one. */
  lemma StatusMessagesDistinct()
    ensures PusherStatusMessage(true) != PusherStatusMessage(false)
  {
    assert PusherStatusMessage(true)[1] != PusherStatusMessage(false)[1];
  }

  /** `getReconnectingMessage()`. */
  function ReconnectingMessage(): (r: string)
    ensures |r| > 5 && Latin1(r)
    ensures r[0] == '\r' && r[1] == Char(Yellow) && r[2] == Char(ReverseOn)
    ensures r[|r| - 3..] == Str(ReverseOff) + "\r\r"
  {
    "\r" + Str(Yellow) + Str(ReverseOn) + " reconnecting to twitch... " + Str(ReverseOff) + "\r\r"
  }

  /** The banner line the welcome screen underscores. */
  function VersionLine(version: string): string
  {
    "commodore 64 terminal rev:" + version
  }

  /** `getWelcomeMessage(version)`: clear screen, banner, the underscored
      version line, the status lines with the "down" to "up" animation,
      and `ready.`. */
  function WelcomeMessage(version: string): (r: string)
    ensures |r| > 8 && r[..5] == Str(Clear) + "\r\r\r\r"
    ensures r[|r| - 8..] == Str(Cyan) + "ready.\r"
    ensures |r| == 193 + 2 * |version|
  {
    var banner := Str(Clear) + "\r\r\r\r"
      + Str(LightGrey) + "*** " + Str(White) + "welcome to the "
      + Str(Pink) + "neon " + Str(Cyan) + "void " + Str(LightGrey) + "***\r\r";
    var status := Str(Green) + "all systems are operational\r"
      + Str(LightGreen) + "cyberspace link is "
      + Str(Red) + Str(ReverseOn) + "down" + Str(ReverseOff)
      + RepeatChar(' ', 8) + RepeatChar(Char(Delete), 8)
      + RepeatChar(Char(Delete), 4)
      + Str(Green) + Str(ReverseOn) + "up" + Str(ReverseOff) + "\r\r\r"
      + Str(Cyan) + "ready.\r";
    var r := banner + DrawUnderscore(VersionLine(version), Str(LightBlue), Str(LightGrey)) + status;
    assert r[..5] == banner[..5];
    assert r[|r| - 8..] == status[|status| - 8..];
    r
  }
}
