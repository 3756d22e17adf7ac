# C64 terminal relay — a Dafny model

The system relays a Twitch chat to Commodore 64 machines over raw TCP.
An upstream relay (`PusherService`) holds a pusher-js subscription to a
chat-scanner channel. A formatter (`MessageService`, `PetsciiService`)
turns each chat message into a PETSCII line. A gateway (`C64SocketGateway`)
admits peers by IP allow-list and keeps one session per peer
(`ClientSessionManager`). Each session has a queue of character codes, and
a 100 ms transmission loop writes one byte from that queue per tick.

The model is functional. Every operation is a pure function over immutable
records; time, the library's signals and socket write failures are
parameters; emitted events are returned as a sequence.

| module | file | models |
|---|---|---|
| `Wrappers` | wrappers.dfy | `Option` |
| `JsString` | jsstring.dfy | the ECMAScript string built-ins the code uses: UTF-16 code units, `trim`, `split`, `join`, ASCII `toLowerCase`, `indexOf`/first `replace`, `repeat` |
| `PetsciiCodes` | petscii_codes.dfy | the `PETSCII` table and the `ALLOWED_CHARS_PATTERN` class |
| `PetsciiService` | petscii_service.dfy | `cleanMessage` stage by stage, `drawUnderscore`, `addDelete` |
| `ChatTypes` | chat_types.dfy | the chat-scanner payload types |
| `Messages` | messages.dfy | `parseMessage`, `extractTextFromFragments`, `formatForC64`, the welcome, status and reconnect screens |
| `Sessions` | sessions.dfy | the session registry |
| `Relay` | relay.dfy | the upstream relay's flags, reconnect timer and health check as a state machine |
| `Gateway` | gateway.dfy | IP unwrap, allow-list and admission, the transmit tick, the event bridge, and the gateway as a whole with its pending timers |

Modelling choices:

- A Dafny `char` stands for one UTF-16 code unit.
  - Session queues hold the code units as `nat`.
  - A socket write sends the low eight bits of a code unit, as `Buffer.from([c])` does.
- The registry is an insertion-order sequence plus a map.
  - Re-adding a key keeps its first position, as a JavaScript `Map` does.
  - `toJSON` lists sessions in that order.
- A session's `timer` names the transmission loop that last re-armed on it.
  - The gateway keeps the pending ticks as a map from loop id to the address that loop's closure re-reads.
  - Two loops on one address are therefore visible, not assumed away.
- The relay's reconnect timer is a flag. A timer that is not pending cannot fire.
- What the pusher-js client reports is a set of input signals:
  - connected, disconnected or error;
  - chat;
  - the state the health check reads.

  Whether building the client throws is a boolean input.
- In the source, a pending reconnect timer does not imply that the relay is down.
  - The health check, or the gateway on admission, can call `connect()` while the timer is pending.
  - `Relay.PendingTimerWhileConnected` exhibits a run that ends connected with the timer still pending.
  - When that timer fires, its `connect()` only clears the timer.

## Model

| member | source | states |
|---|---|---|
| Sessions.Add | src/c64-socket/client-session.ts:16-32 | the new session is filed under `remoteAddress:remotePort`, with the raw remote address as its ip, an empty queue, no timer and both timestamps at `now`; any old entry under that key is replaced and every other key is untouched; the key keeps its first position |
| Sessions.Remove | src/c64-socket/client-session.ts:38-44 | the address is gone afterwards, every other session is as before, an absent address leaves the registry equal, and the size drops by one exactly when the key was present; a present key is cut out of the iteration order with the keys before and after it kept in order |
| Sessions.RemovedPosition | src/c64-socket/client-session.ts:38-44 | removing a filed address from a well-formed registry cuts it out of the iteration order at its own position |
| Sessions.WithoutAt | src/c64-socket/client-session.ts:38-44 | in an order without repeats, dropping the key at its position leaves the keys before it and those after it, in order |
| Sessions.AddToBuffer | src/c64-socket/client-session.ts:54-61 | the message's code units are appended in order to that session's queue only, and an absent address changes nothing |
| Sessions.BroadcastToAll | src/c64-socket/client-session.ts:63-69 | every session's queue grows by the message's code units after its existing content; the key set and order are unchanged |
| Sessions.AddToEachEffect | src/c64-socket/client-session.ts:63-69 | appending to each listed address in turn appends the message exactly once to each listed session and leaves the rest alone |
| Sessions.BroadcastIsAddToEach | src/c64-socket/client-session.ts:63-69 | broadcasting equals appending to each address in iteration order |
| Sessions.OrderCountsSessions | src/c64-socket/client-session.ts:14 | the iteration order lists each key once, so its length is the number of sessions |
| Sessions.Count | src/c64-socket/client-session.ts:50-52 | the count is the number of distinct keys |
| Sessions.DisconnectAll | src/c64-socket/client-session.ts:71-85 | it returns the number of sessions held before the call and leaves the registry empty |
| Sessions.ToJson | src/c64-socket/client-session.ts:87-92 | exactly `count()` entries, entry i holding the address and open time of the i-th session in insertion order |
| Gateway.ExtractIp | src/c64-socket/c64-socket.gateway.ts:130-136 | a `::ffff:`-prefixed address loses exactly that prefix; any other address is returned as it is |
| Gateway.ExtractIpOfMapped | src/c64-socket/c64-socket.gateway.ts:130-136 | unwrapping a mapped address gives back the IPv4 part |
| Gateway.ExtractIpIdentity | src/c64-socket/c64-socket.gateway.ts:130-136 | the address is returned unchanged if and only if it lacks the prefix |
| Gateway.ExtractIpUnwrapsOnce | src/c64-socket/c64-socket.gateway.ts:130-136 | a doubly mapped address is unwrapped once per call, not recursively |
| Gateway.TrimEach | src/c64-socket/c64-socket.gateway.ts:44 | piece by piece, each piece trimmed |
| Gateway.ParseAllowList | src/c64-socket/c64-socket.gateway.ts:40-44 | the list is never empty, and every entry is comma-free and already trimmed |
| Gateway.AllowListLength | src/c64-socket/c64-socket.gateway.ts:40-44 | one entry more than there are commas in the configured (or default) string |
| Gateway.DefaultAllowList | src/c64-socket/c64-socket.gateway.ts:29 | without configuration the list is exactly `["127.0.0.1"]` |
| Gateway.AllowListRoundTrip | src/c64-socket/c64-socket.gateway.ts:40-44 | joining any comma-free entries with commas and parsing gives each entry with its surrounding whitespace trimmed, so already trimmed entries come back exactly |
| Gateway.AdmittedByConfig | src/c64-socket/c64-socket.gateway.ts:40-44 | an address is admitted exactly when some comma-separated piece of the configured string, once trimmed, equals it |
| Gateway.SingleEntry | src/c64-socket/c64-socket.gateway.ts:40-44 | a configuration of one trimmed, comma-free entry parses to exactly that entry |
| Gateway.AllowListOfPair | src/c64-socket/c64-socket.gateway.ts:40-44 | two comma-free pieces around one comma parse to their two trimmed forms |
| Gateway.TrailingCommaAdmitsAddressless | src/c64-socket/c64-socket.gateway.ts:44 | a trailing comma in the configuration adds the empty entry, which admits a socket whose remote address is missing |
| Gateway.TrailingCommaEntries | src/c64-socket/c64-socket.gateway.ts:40-44 | `entry,` parses to the entry followed by the empty string |
| Gateway.ToByte | src/c64-socket/c64-socket.gateway.ts:153 | the byte is the code unit modulo 256, and code units below 256 pass through |
| Gateway.Bytes | src/c64-socket/c64-socket.gateway.ts:153 | element by element, each code unit's low byte |
| Gateway.BytesOfLatin1 | src/c64-socket/c64-socket.gateway.ts:153 | a message whose characters are all below 256 is written byte for byte |
| Gateway.Tick | src/c64-socket/c64-socket.gateway.ts:142-172 | on an absent address, nothing and no reschedule; otherwise the head code unit's low byte is written and the rest stay in order; a failed write removes the session and ends the loop; an idle tick queues the status line and stamps `now` if and only if more than 120000 ms have passed; every other tick re-arms this loop on the session; other sessions are untouched |
| Gateway.DrainFifo | src/c64-socket/c64-socket.gateway.ts:150-153 | n successful ticks write the low bytes of the first n queued code units in order and leave the remaining queue in order |
| Gateway.DrainKeepsOthers | src/c64-socket/c64-socket.gateway.ts:142-172 | draining one session changes no other session and keeps the order |
| Gateway.DrainStep | src/c64-socket/c64-socket.gateway.ts:150-171 | a successful tick on a non-empty queue, at any time and with any status line, takes the write branch: it writes the head's low byte, shifts exactly one code unit off the queue, changes no other session and re-arms the loop |
| Gateway.Shift | src/c64-socket/c64-socket.gateway.ts:150-171 | taking the head off a non-empty queue leaves the rest of that queue in order, keeps the registry well formed and changes no other session or the order |
| Gateway.DeliveredVerbatim | src/c64-socket/c64-socket.gateway.ts:150-153 | a message with all characters below 256, queued on an empty queue, is written out exactly as the message over as many ticks as it has characters |
| Gateway.NoticeSpacing | src/c64-socket/c64-socket.gateway.ts:159-168 | within 120000 ms of the last status line, an idle tick queues nothing |
| Gateway.IdleNoticeOnce | src/c64-socket/c64-socket.gateway.ts:159-168 | after an idle tick has queued the status line, no tick in the next 120000 ms queues another |
| Gateway.Notice | src/c64-socket/c64-socket.gateway.ts:179-202 | a chat event's line is empty exactly when its extracted text has no displayable character; a status event maps to the status screen for that flag and a reconnect event to the reconnect screen, both never empty and byte-sized |
| Gateway.Bridge | src/c64-socket/c64-socket.gateway.ts:179-202 | each event's line is appended to every session's queue; a chat message that formats to nothing leaves the registry equal |
| Gateway.BridgeAll | src/c64-socket/c64-socket.gateway.ts:179-202 | a sequence of events appends the concatenation of their lines to every session |
| Gateway.Init | src/c64-socket/c64-socket.gateway.ts:38-44 | start-up has the parsed allow-list and no sessions, and satisfies the gateway invariant |
| Gateway.RunTick | src/c64-socket/c64-socket.gateway.ts:142-172 | a fired tick re-arms its loop when the tick reschedules; otherwise the timer the session held is cancelled |
| Gateway.HandleConnection | src/c64-socket/c64-socket.gateway.ts:81-128 | a peer whose unwrapped address is not allowed changes nothing; otherwise one new loop and one pending welcome are added, and the relay is asked to connect only when it is neither connected nor connecting; with the relay up, the session is filed fresh, its first tick is armed, and no other session changes |
| Gateway.Admit | src/c64-socket/c64-socket.gateway.ts:98-112 | admission files the peer's session and takes one new loop id, schedules one welcome and keeps the allow-list; the relay is left alone when connected or connecting, otherwise asked to connect; with the relay up, the session is fresh under the peer's key and every other key is unchanged; the new loop is ready for its first tick |
| Gateway.TickedInv | src/c64-socket/c64-socket.gateway.ts:142-172 | after any tick the invariant holds again: the ticked session is armed by the re-armed loop or removed with its timer cancelled, and every other session keeps the tick it held |
| Gateway.TickKeepsArmed | src/c64-socket/c64-socket.gateway.ts:142-172 | after a tick every filed session is armed by a pending loop that re-reads its address |
| Gateway.FiledSessionIsServed | src/c64-socket/c64-socket.gateway.ts:142-172 | every filed session with queued data holds a pending tick, and firing that tick writes the session's first queued code unit to its socket |
| Gateway.Upstream | src/pusher/pusher.service.ts:78-219 | a relay input steps the relay, and whatever it emits is bridged to every session |
| Gateway.DeliverWelcome | src/c64-socket/c64-socket.gateway.ts:105-109 | a due welcome queues the welcome screen on whatever session is filed under that address by then, and is consumed |
| Gateway.FireTick | src/c64-socket/c64-socket.gateway.ts:171 | a pending tick runs once and is consumed; a cancelled tick does nothing |
| Gateway.Close | src/c64-socket/c64-socket.gateway.ts:119-127 | the close and error handlers remove by the captured address and cancel the tick that session held |
| Gateway.DisconnectAllClients | src/c64-socket/c64-socket.gateway.ts:213-215 | every session is gone and every tick a session held is cancelled; ticks of loops no session held, pending welcomes, the next loop id, the relay and the allow-list are kept |
| Gateway.Step | src/c64-socket/c64-socket.gateway.ts:81-202 | every input keeps the gateway invariant and the allow-list. The invariant says every filed session holds the tick of a pending loop that re-reads its address, and that loop ids are below the next id and the relay flags exclusive. A tick writes at most one byte, and only connections and ticks write |
| Gateway.Run | src/c64-socket/c64-socket.gateway.ts:81-202 | any run of inputs keeps the invariant and the allow-list |
| Gateway.AdmissionWhileRelayDown | src/c64-socket/c64-socket.gateway.ts:98-112 | admitting a peer while the relay is idle and its client throws queues the reconnect screen on every session, the newcomer included; the first tick writes a carriage return to the newcomer at once, and the reconnect timer is pending |
| Gateway.AdmitWhileRelayUp | src/c64-socket/c64-socket.gateway.ts:98-112 | with the relay up, admission writes nothing, leaves the relay alone, files a fresh session holding the new loop's tick, and schedules one welcome |
| Gateway.ReAddSharesAddress | src/c64-socket/client-session.ts:30 | two peers with the same address leave both loops pending on that address, two welcomes due, and only the second peer's session filed |
| Gateway.StaleCloseRemovesNewSession | src/c64-socket/c64-socket.gateway.ts:119-127 | an old connection's close handler removes the session now filed under its address, and cancels only that session's tick while the other loop stays pending |
| Gateway.AnyLoopDrainsFiledSession | src/c64-socket/c64-socket.gateway.ts:144-153 | any loop pending on an address writes the head of whatever session is filed there, to that session's socket |
| Gateway.TwoWelcomesQueueTwice | src/c64-socket/c64-socket.gateway.ts:106-109 | two welcomes due for one address queue the welcome screen twice on that session |
| Gateway.FirstWelcomeByte | src/message/message.service.ts:126 | the welcome screen starts with the clear-screen code 147 |
| Relay.ScheduleReconnect | src/pusher/pusher.service.ts:173-185 | with a timer pending, nothing happens; otherwise one reconnect event is emitted and the timer is armed |
| Relay.Connect | src/pusher/pusher.service.ts:78-83 | a no-op while connecting or connected; otherwise connecting, or, if building the client throws, not connecting with a reconnect scheduled; the flags stay exclusive |
| Relay.OnConnected | src/pusher/pusher.service.ts:95-101 | sets connected, clears connecting, stamps the activity time and always emits status true |
| Relay.OnDisconnected | src/pusher/pusher.service.ts:103-123 | clears both flags, emits status false only if it was connected, then schedules a reconnect |
| Relay.OnChatMessage | src/pusher/pusher.service.ts:137-144 | the counter goes up by exactly one, the activity time is stamped, the payload is emitted, and the flags are untouched |
| Relay.OnReconnectTimer | src/pusher/pusher.service.ts:181-184 | the timer is cleared before `connect()`, which is a no-op when connected or connecting |
| Relay.Disconnect | src/pusher/pusher.service.ts:163-171 | both flags and the timer are cleared; the counter and activity time are kept |
| Relay.Reconcile | src/pusher/pusher.service.ts:193-203 | reported connected while believed down sets connected; reported neither connected nor connecting while believed connected clears both; otherwise the belief stands |
| Relay.HealthCheck | src/pusher/pusher.service.ts:189-210 | after reconciling, `connect()` is invoked if and only if both flags are false |
| Relay.ForceReconnect | src/pusher/pusher.service.ts:213-219 | returns false and changes nothing if and only if connected or connecting; otherwise it connects and returns true |
| Relay.GetStatus | src/pusher/pusher.service.ts:221-232 | reports the flags, the counter, the configured channel (by default the built-in one) and the last activity time, and the time since activity, now minus that time, exactly when there was activity |
| Relay.Next | src/pusher/pusher.service.ts:78-219 | every input keeps the two flags from both being set, and only a chat message moves the counter, by one |
| Relay.RunInvariant | src/pusher/pusher.service.ts:83-201 | along any run the flags stay exclusive, and the counter grows by exactly the number of chat messages |
| Relay.ReachableExclusive | src/pusher/pusher.service.ts:25-28 | every state reachable from start-up has exclusive flags |
| Relay.SingleFlightReconnect | src/pusher/pusher.service.ts:173-185 | two disconnects in a row emit one reconnect event and leave one timer pending |
| Relay.PendingTimerWhileConnected | src/pusher/pusher.service.ts:181-209 | a run can end connected with a reconnect timer still pending, whose firing only clears the timer |
| Messages.HasBadge | src/message/message.service.ts:21-24 | true exactly when some badge has that set id |
| Messages.ParseMessage | src/message/message.service.ts:18-49 | each flag holds exactly when a badge with that set id exists (missing badges count as none); the role is the first match of broadcaster, moderator, vip, subscriber, else regular; the reply user is the parent user name when present and non-empty; the text is the extracted text |
| Messages.ExtractText | src/message/message.service.ts:54-68 | with no fragments, the raw text as it is; otherwise a contiguous slice of the spoken fragments' text with only whitespace before and after it, not starting or ending with whitespace, and empty exactly when that text is all whitespace |
| Messages.ExtractIgnoresEmotes | src/message/message.service.ts:63-64 | inserting an emote or cheermote fragment anywhere does not change the extracted text |
| Messages.ExtractEmoteOnly | src/message/message.service.ts:63-67 | a message made only of emotes and cheermotes extracts to the empty string |
| Messages.UserStyle | src/message/message.service.ts:93-108 | broadcaster pink without reverse; else moderator green with reverse; else subscriber white with reverse; else white without reverse |
| Messages.VipUnstyled | src/message/message.service.ts:93-108 | the VIP flag does not affect the style |
| Messages.HighlightFirstOnly | src/message/message.service.ts:84-90 | without a reply user, or with no mention of them, the body is unchanged; otherwise exactly the first mention is replaced by the highlighted one |
| Messages.FormatForC64 | src/message/message.service.ts:73-116 | empty exactly when the message has no displayable character; otherwise reverse, colour, the lower-case user name, reverse-off, `: `, light blue, the highlighted sanitised body and two returns |
| Messages.FormatForC64Latin1 | src/message/message.service.ts:111-113 | with a byte-sized user name and reply name, every character of the line fits in a byte |
| Messages.PusherStatusMessage | src/message/message.service.ts:196-210 | starts with a return, green for restored and red for lost, then reverse on; ends with reverse off and two returns; every character fits in a byte |
| Messages.StatusMessagesDistinct | src/message/message.service.ts:196-210 | the restored and lost screens differ |
| Messages.ReconnectingMessage | src/message/message.service.ts:215-222 | a return, yellow, reverse on, ending with reverse off and two returns, all byte-sized |
| Messages.WelcomeMessage | src/message/message.service.ts:121-154 | starts with clear and four returns, ends with cyan `ready.` and a return, and grows by two characters per version character |
| PetsciiCodes.CodeValue | src/petscii/petscii.constants.ts:4-52 | every table entry is a code below 256 |
| PetsciiCodes.Str | src/petscii/petscii.constants.ts:4-52 | every table entry is a single character |
| PetsciiCodes.AllowedIsPrintableAscii | src/petscii/petscii.constants.ts:55-56 | the allowed class holds only printable ASCII, with no tab, CR or LF |
| PetsciiCodes.AllowedWhitespaceIsSpace | src/petscii/petscii.constants.ts:55-56 | the only whitespace in the class is the space |
| PetsciiCodes.AllowedClosedUnderLower | src/petscii/petscii.constants.ts:55-56 | lowercasing a member yields a member, `.` and space are members, and upper-case letters lower to a different member |
| PetsciiCodes.TableAgainstClass | src/petscii/petscii.constants.ts:4-56 | a table entry is in the allowed class exactly when it is CURSOR_UP or one of the letter-coded glyphs |
| PetsciiCodes.ControlsOutsideClass | src/petscii/petscii.constants.ts:6-36 | the colours, reverse on/off, clear, home, delete, return and the other cursor codes lie outside the class |
| PetsciiCodes.CursorUpAsWritten | src/petscii/petscii.constants.ts:27 | CURSOR_UP as written is `[`, a member of the allowed class |
| PetsciiCodes.CursorUpCorrected | src/petscii/petscii.constants.ts:27 | the PETSCII cursor-up code, 145, lies outside the allowed class |
| PetsciiCodes.CursorControlsOutsideClass | src/petscii/petscii.constants.ts:25-28 | with the corrected code, all four cursor controls lie outside the class |
| PetsciiService.MatchAll | src/petscii/petscii.service.ts:17 | the global match yields at least one piece, and every piece lies in the class |
| PetsciiService.MatchAllKeepsWords | src/petscii/petscii.service.ts:17 | the pieces together keep every displayable character of the input in order |
| PetsciiService.DropBlankKeepsWords | src/petscii/petscii.service.ts:19 | dropping blank pieces keeps every displayable character |
| PetsciiService.JoinSpaceKeepsWords | src/petscii/petscii.service.ts:20 | joining with spaces keeps every displayable character |
| PetsciiService.CollapseFromSingleSpaces | src/petscii/petscii.service.ts:27 | after collapsing, no two spaces are adjacent, and none leads after a space |
| PetsciiService.CollapseFromKeepsWords | src/petscii/petscii.service.ts:27 | collapsing keeps every displayable character |
| PetsciiService.LowerKeepsWords | src/petscii/petscii.service.ts:24 | lowercasing commutes with keeping the displayable characters |
| PetsciiService.SanitiseShape | src/petscii/petscii.service.ts:14-27 | the untruncated result is clean (in the class, no upper case, no double, leading or trailing space), holds the lower-cased displayable characters of the input in order, and is exactly the tokens of the lower-cased input joined by single spaces |
| PetsciiService.SanitiseClean | src/petscii/petscii.service.ts:14-27 | the untruncated result is clean and holds exactly the lower-cased displayable characters of the input in order |
| PetsciiService.SanitiseTokens | src/petscii/petscii.service.ts:14-27 | sanitising keeps the maximal runs of displayable characters of the lower-cased input |
| PetsciiService.CleanIsJoinOfTokens | src/petscii/petscii.service.ts:20-27 | a clean string is its own runs of displayable characters joined by single spaces |
| PetsciiService.TokensAppend | src/petscii/petscii.service.ts:17-20 | concatenating two strings that do not cut a run at the seam concatenates their runs |
| PetsciiService.MatchAllTokens | src/petscii/petscii.service.ts:17 | the matches of the allowed-characters pattern carry exactly the runs of the text they were taken from |
| PetsciiService.DropBlankTokens | src/petscii/petscii.service.ts:19 | dropping blank matches loses no run |
| PetsciiService.TrimTokens | src/petscii/petscii.service.ts:14 | trimming keeps the runs |
| PetsciiService.TokensLower | src/petscii/petscii.service.ts:24 | the runs of the lower-cased text are the lower-cased runs |
| PetsciiService.CollapseTokens | src/petscii/petscii.service.ts:27 | collapsing whitespace after any prefix that ends outside a run keeps the runs |
| PetsciiService.SanitiseFixpoint | src/petscii/petscii.service.ts:14-27 | an already clean string is left as it is |
| PetsciiService.TruncatedShape | src/petscii/petscii.service.ts:30-32 | a truncated result is the first maxLength characters followed by `...` |
| PetsciiService.CleanMessage | src/petscii/petscii.service.ts:13-35 | every character is in the class with no upper case and no double space, and none leads with a space; empty exactly when the input has no displayable character; within maxLength it is exactly the runs of displayable characters of the lower-cased input joined by single spaces, with no trailing space; beyond it, the first maxLength characters of that join followed by `...` |
| PetsciiService.CleanMessageIdempotent | src/petscii/petscii.service.ts:13-35 | cleaning an untruncated result again changes nothing |
| PetsciiService.DrawUnderscore | src/petscii/petscii.service.ts:40-50 | the colour and the text, a return, the underscore colour, one up-underscore per text character, a return and the colour again, at those exact positions |
| PetsciiService.AddDelete | src/petscii/petscii.service.ts:55-59 | a return, 40 cursor-lefts, a return and 40 deletes: 82 characters |
| JsString.Trim | src/petscii/petscii.service.ts:14 | the result is a contiguous slice of the input with only whitespace before and after it, neither starts nor ends with whitespace, and is empty exactly when the input is all whitespace |
| JsString.TrimSlice | src/petscii/petscii.service.ts:14 | the offset at which the trimmed text sits in the input, with only whitespace before it and after it |
| JsString.TrimParts | src/petscii/petscii.service.ts:14 | the input is all-whitespace text, then the trimmed text, then all-whitespace text |
| JsString.TrimIdempotent | src/petscii/petscii.service.ts:21 | trimming twice is trimming once |
| JsString.SplitJoin | src/c64-socket/c64-socket.gateway.ts:44 | joining the pieces of a split with the separator gives back the string |
| JsString.JoinSplit | src/c64-socket/c64-socket.gateway.ts:44 | splitting a join of separator-free pieces gives back the pieces |
| JsString.SplitCount | src/c64-socket/c64-socket.gateway.ts:44 | a split has one more piece than there are separators |
| JsString.LowerAscii | src/message/message.service.ts:112 | same length, with each upper-case ASCII letter's code raised by 32 to give its lower-case letter, and everything else kept |
| JsString.IndexOfFrom | src/message/message.service.ts:89 | the first occurrence at or after the start, or none exactly when there is no occurrence |
| JsString.ReplaceFirstAt | src/message/message.service.ts:89 | replacing the first occurrence splices the replacement in at that index only |

## Left out

- `getEphemeralMessage` (src/message/message.service.ts:159-191) formats dates with `Intl` and a time zone. The idle status line is an opaque string parameter of the tick.
- `$` patterns in a `String.replace` replacement are not expanded. The replacement text is taken literally; it contains `$` only if a reply user name does.
- `toLowerCase` is modelled on ASCII letters only. Non-ASCII user names are lowered as they are.
- Surrogate pairs are not treated specially. Each code unit is one `char`, as `charCodeAt` sees it.
- TCP server creation, `listen`, `setNoDelay` and the socket event wiring are I/O. Admission, ticks, welcome timers and close handlers are explicit inputs of `Gateway.Step`.
- `socket.destroy()` for refused and disconnected peers is not modelled; no bytes are written.
- The internals of the pusher-js client are a foreign library: client construction, subscription, `cleanup`, and the subscription-succeeded and subscription-error handlers. Its signals, the health check's reading of its state, and whether construction throws are inputs; a late signal from a torn-down client is one more input.
- `onModuleInit` of the relay and its 30 s health-check interval are not modelled as timers. The first `connect()` and each health-check tick are inputs.
- Timer durations are not modelled: the 100 ms tick (src/c64-socket/c64-socket.gateway.ts:171), the 500 ms welcome delay (src/c64-socket/c64-socket.gateway.ts:105-108) and the 5 s reconnect delay (src/pusher/pusher.service.ts:181-184). Pending timers fire as inputs in any order the run chooses.
- Event-emitter dispatch is modelled as the returned event sequence, bridged at once.
- The logger and log shipping are not part of this model.
- The HTTP API controller, `getUptime`, `getStartTime` and the bootstrap and module files are not part of this model.
- The gateway reads `Date.now()` and `new Date()` separately within a tick. The model uses one `now` per tick.
- The chat payload's fields that the core never reads are carried in `ChatTypes` but not interpreted. These are the `source_*` fields, the reply's `thread_*` fields, `cheer`, `message_type` and `channel_points_custom_reward_id`.
- Gateway.TrailingCommaAdmitsAddressless: stated for one comma-free entry without surrounding whitespace, followed by a comma, not for every configuration ending in a comma, because the single-entry case already shows the empty entry admitting an address-less socket.
- Gateway.HandleConnection: its contract spells out the admitted case in full only when the relay is already connected or connecting. The case where admission starts a connection is stated by `Gateway.AdmissionWhileRelayDown` for a client whose construction throws.
- Relay.Connect: a successful `connect()` only sets `connecting`. The library's later signals arrive as separate inputs.

## Findings

| source | as written | input that shows it | evidently intended | confidence | as-written member | corrected member |
|---|---|---|---|---|---|---|
| src/petscii/petscii.constants.ts:27 | `CURSOR_UP` is code 91, which is `[`, and it lies inside the allowed character class | the PETSCII table entry `CURSOR_UP` itself, code 91. The discrepancy is latent: no code in this core emits `CURSOR_UP`, and a chat `[` survives sanitising either way because `[` is in the allowed class. A caller that did emit `CURSOR_UP` would print a bracket instead of moving the cursor up | PETSCII cursor-up, code 145, outside the allowed class like the other cursor controls | not executed | PetsciiCodes.CursorUpAsWritten | PetsciiCodes.CursorUpCorrected |
