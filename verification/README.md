# Verified cores of the XMPP client

A Dafny model of the parts of the client whose correctness is not visible from one
function at a time, with proofs about all inputs, all runs and all reachable states.
`dafny verify dfyconfig.toml` checks the project.

| file | what it models |
|---|---|
| `Links.dfy`, `Inline.dfy`, `Styling.dfy` | the message-styling parser: URL splitting, inline styles, lines and quotes |
| `Messages.dfy` | what a correct parse of a message is, and that the parser computes the only one |
| `Text.dfy`, `Chars.dfy`, `Wrappers.dfy` | strings, lines, character classes, optional values and results |
| `RateLimiter.dfy`, `Outbox.dfy` | the outbound token bucket and the outbox it guards |
| `DedupCache.dfy`, `Arrivals.dfy` | the bounded cache of seen message ids, and the routes with their checks |
| `Addresses.dfy` | taking addresses apart |
| `OmemoFanOut.dfy` | encrypting one message for every trusted device of a peer |
| `Receipts.dfy`, `Conversations.dfy`, `Occupants.dfy`, `ChatScreen.dfy` | the chat screen: receipts, open and active conversations, unread counters, room occupants |
| `AvatarCrop.dfy` | the avatar crop square |
| `DataForms.dfy`, `Fingerprint.dfy` | printing and reading form fields and key fingerprints |

Code that updates objects or loops is modelled by classes and methods, each proved
equal to a specification function; the theorems are lemmas about those functions.
Parsers are also characterised by predicates (`IsParse`, `IsUrlSplit`, `IsStyling`) that say what
a correct result is without saying how it is found, and the lemmas prove that the
computed result is the only one that satisfies them. Runs of events are characterised
by the events themselves (`IsActive`, `UnreadMessages`, `Counts`, `Reports`, `InRoom`, `IsContact`),
not by replaying them.

Choices that hold throughout: strings are sequences of characters and offsets count
characters; floating-point numbers are reals; clocks, random keys, database failures
and the outcome of pickling are inputs; hash maps are maps.

## Where the code differs from what it says

- `CropState::crop_rect` says the square stays inside the image. It does exactly when
  the zoomed diameter rounds to at most the shorter edge (`SquareInsideIff`);
  `SquareCanStickOut` is a concrete state in which it does not.
- The middle of the crop square is within 1.25 pixels of the requested centre, except
  exactly when the diameter saturates the 32-bit pixel type and the centre is past half
  of its range (`CropAccurateIff`, with `SaturatedCropInaccurate` as the instance).
- The engine says the user interface must not receive a message twice. Over every run
  it receives none twice exactly when all copies of a message that pass the checks ask
  the cache for the same id, each while that id is among the last 500 different ones
  asked for (`NoMessageTwiceIff`; `NoMessageTwiceIffOneKey` for runs the cache can hold). It fails
  for a message that comes as a carbon and from the archive, which ask for different ids
  (`CarbonShownAgainFromArchive`), and for one passed on without asking
  (`DirectMessageShownTwice`).
- Blocking a sender does not stop their encrypted messages, nor those of the other
  routes that do not ask the block list (`BlockedSenderShownIff`, with
  `EncryptedShownDespiteLists` as the instance).
- `handle_message` says it skips messages of ignored occupants, but asks the room's list
  for the room instead of the nick. A message of an ignored occupant is stopped exactly
  when it is a room message, or the room itself is on the list where that is asked
  (`IgnoredOccupantShownIff`, with `IgnoredOccupantShownInPrivate` as the instance).
- A failure in the OMEMO loop sends nothing but keeps the ratchet steps of the devices
  before the failing one. The store is as before exactly when none of these has a
  session (`FailureLeavesStoreIff`, with `FailureKeepsRatchetStep` as the instance).
- Only the first value of a form field is read, also for the field types that XEP-0004,
  section 3.3, lets have several. Reading and printing keeps the values exactly when
  there is at most one (`ValuesKeptIff`, with `SecondChoiceLost` as the instance).

## Model

| member | source | states |
|---|---|---|
| Messages.ParseCharacterised | src/ui/styling.rs:166-257 | For every message the computed spans are the one and only list that renders to the message text and whose spans, without the newlines at their ends, are those of its lines in order, after one for the break of an empty first line |
| Messages.LineCharacterised | src/ui/styling.rs:184-202 | The spans of a line are the one and only ones: a line that starts with `>` and a space is one quote without them; any other is split on URLs, which become links, before the rest is styled |
| Messages.QuotesAreExact | src/ui/styling.rs:185-191 | The texts of the quotes in a message are, in order, exactly its lines that start with `>` and a space, without these two characters |
| Messages.QuotesAreQuotedLines | src/ui/styling.rs:185-191 | A quoted line gives that one span; no other line gives a quote |
| Messages.CoresOfLines | src/ui/styling.rs:173-182 | Line breaks are only ever put behind the last span so far; only the break of an empty first line has a span of its own |
| Styling.ParseIsLossless | src/ui/styling.rs:166-257 | For every message, putting markers and newlines back around the parsed spans gives the message text, with CR LF read as LF and one final line ending dropped |
| Styling.ParsedAlikeIffSameText | src/ui/styling.rs:166-205 | Two messages parse to the same spans exactly when they are the same text up to line endings |
| Styling.ParseRespectsUrls | src/ui/styling.rs:184-203 | In every message each link starts with a known scheme and has no whitespace, and no plain or styled span contains a scheme |
| Styling.SchemesLieInLinks | src/ui/styling.rs:193-202 | Every occurrence of a scheme in a line that is not a quote lies wholly inside one link span, whose text is the stretch of the line at that span's place |
| Styling.LineRendersBack | src/ui/styling.rs:184-202 | The spans of one line contain no newline and render back to the line |
| Styling.LinesRenderBack | src/ui/styling.rs:173-182 | Attaching each newline to the span before it, or to a span of its own, loses no line and no line break |
| Styling.Parse | src/ui/styling.rs:166-205 | The loop over lines, with its three ways of attaching newlines, computes the spans that the theorems are about |
| Styling.ParseLine | src/ui/styling.rs:184-202 | One pass of that loop: a quote line becomes one span, any other line is split on URLs before it is styled |
| Text.JoinLinesIsNormalise | src/ui/styling.rs:173 | Splitting into lines and joining them equals a character-level normalisation of line endings |
| Text.FirstLine | src/ui/styling.rs:173 | A line ends at LF or CR LF, which both are taken off, or at the end of the text |
| Text.JoinInjective | src/ui/styling.rs:173-182 | Joined lines determine the lines, except that no line and one empty line join alike |
| Chars.WhitespaceIs | src/ui/styling.rs:229 | The 25 characters that count as whitespace |
| Inline.StylingCharacterised | src/ui/styling.rs:208-257 | The inline spans are the one and only list that tiles the text with plain stretches that open nothing and styled spans closed at their first valid close |
| Inline.OneStyledSpan | src/ui/styling.rs:208-292 | A text with two equal delimiters and no other styles what they enclose, as bold, italics, code or struck out, exactly if the first stands at the start or after whitespace, the enclosed text hugs both, and the second stands at the end or before whitespace or ASCII punctuation |
| Inline.InlineShape | src/ui/styling.rs:208-292 | Styled spans are not empty, begin and end without whitespace, stand first or after whitespace; plain and styled spans strictly alternate; markers put back give the text |
| Inline.ParseInline | src/ui/styling.rs:208-257 | The scanning loop with its plain-text buffer appends exactly those spans to the list |
| Inline.FindClose | src/ui/styling.rs:267-292 | Finds the least position that validly closes, and none only if no position does |
| Links.SplitCharacterised | src/ui/styling.rs:79-121 | The segments are the one and only tiling of the text in which URLs and other text alternate, other text has no scheme start, and each URL extends as far as it can |
| Links.OneUrl | src/ui/styling.rs:64-157 | For each of the five schemes, a URL followed by one of the five punctuation marks keeps it exactly if it is a bracket that the URL opens; otherwise the mark is text of its own |
| Links.SchemeLiesInUrl | src/ui/styling.rs:79-121 | A scheme that starts inside a segment lies wholly inside it, and the segment is a URL |
| Links.SplitUrls | src/ui/styling.rs:79-121 | The loop over the remaining text terminates and computes those segments |
| Links.UrlAtExtent | src/ui/styling.rs:101-115 | Stripping never cuts into the scheme, the URL has no whitespace, and the character after it is whitespace or trailing punctuation |
| Links.EarliestScheme | src/ui/styling.rs:84-88 | The minimum of the first matches of the five schemes is the first position where any of them starts |
| Links.StrippedIsLongestStable | src/ui/styling.rs:124-157 | What is kept is the longest prefix that needs no further stripping, and only that |
| Links.StripTrailingPunct | src/ui/styling.rs:124-157 | The result is a prefix that needs no stripping, and every longer prefix does |
| RateLimiter.GreedyIsOptimal | src/xmpp/engine.rs:117-130 | After any number of polls the limiter has accepted at least as many stanzas as any schedule of the same polls that keeps burst plus refill in every window |
| RateLimiter.LimiterMeetsRate | src/xmpp/engine.rs:117-130 | In every window of polls at most the burst plus the refill is accepted |
| RateLimiter.BucketFacts | src/xmpp/engine.rs:117-130 | Over any run tokens stay between zero and the capacity, and the last refill is the last poll |
| RateLimiter.DeniedPollIsFree | src/xmpp/engine.rs:117-130 | After a denied poll the next poll finds and decides what it would have without it |
| RateLimiter.PollWithoutTime | src/xmpp/engine.rs:117-130 | A poll at the time of the last one, or earlier, brings no tokens and uses what is there |
| RateLimiter.AcceptsAfterOneRefill | src/xmpp/engine.rs:117-130 | A bucket that can hold a token accepts once it has had time to refill one |
| RateLimiter.StanzaRateLimiter.TryConsume | src/xmpp/engine.rs:117-130 | The new bucket and the decision, for clocks that may also stand still or run backwards |
| RateLimiter.StanzaRateLimiter.constructor | src/xmpp/engine.rs:106-113 | A new limiter starts full |
| Outbox.StanzasConserved | src/xmpp/engine.rs:420-462 | Over any interleaving of enqueues and passes, what was handed over followed by what waits is what was enqueued, in order |
| Outbox.SendRateBounded | src/xmpp/engine.rs:337 | In every run, stanzas sent within T seconds number at most 30 + 10 T |
| Outbox.NoScheduleSendsMore | src/xmpp/engine.rs:424-462 | No sending schedule for the same polls that keeps 30 + 10 T in every window would have sent more |
| Outbox.WaitsOnlyWhenDenied | src/xmpp/engine.rs:424-435 | After a pass, stanzas wait only if less than one token is left |
| Outbox.SessionLoop.Drain | src/xmpp/engine.rs:424-462 | The draining loop with push-front on denial performs one pass of the specification |
| DedupCache.MessageIdCache.IsNewMsgId | src/xmpp/engine.rs:1196-1212 | An id is new iff it is empty or not in the queue; the set stays the set of the queue, without repeats and with at most 500 entries |
| DedupCache.QueueIsLastAccepted | src/xmpp/engine.rs:1196-1212 | After any run the queue is the last 500 of all ids ever accepted |
| DedupCache.AcceptedIffNotRecent | src/xmpp/engine.rs:1196-1212 | After any run a nonempty id is accepted exactly when it is not among the last 500 accepted |
| DedupCache.AcceptedSpread | src/xmpp/engine.rs:413-416 | Any 501 accepted ids in a row are pairwise different |
| DedupCache.AcceptedAgainAfter500 | src/xmpp/engine.rs:1204-1208 | An id is accepted again exactly when at least 500 others were accepted since |
| Arrivals.NoMessageTwiceIff | src/xmpp/engine.rs:413-416 | If each id belongs to one message, no message is shown twice over a run of any length exactly when all its copies that pass the checks ask for the same id, each while it is among the last 500 different ids asked for |
| Arrivals.NoMessageTwiceIffRemembered | src/xmpp/engine.rs:1196-1212 | The same with the guard of the cache: each further copy comes while its id is among the last 500 accepted |
| Arrivals.AcceptedAreFirsts | src/xmpp/engine.rs:1196-1212 | While every repeated id comes in time, the accepted ids are the different ids asked for, in the order in which they were first asked for |
| Arrivals.NoMessageTwiceIffOneKey | src/xmpp/engine.rs:1300-1516 | For runs the cache can hold (at most 501 arrivals, or at most 500 different ids before the last one) every copy comes in time, so the condition is that all copies that pass ask for the same id |
| Arrivals.SameKeyShownFarApart | src/xmpp/engine.rs:1196-1212 | In every run, two messages shown for the same id have at least 500 shown messages between them |
| Arrivals.ShownBefore | src/xmpp/engine.rs:1196-1212 | No message is lost: what passes the checks is shown, or something with the same id was shown before |
| Arrivals.CarbonShownAgainFromArchive | src/xmpp/engine.rs:1326-1373 | A carbon and the archived copy of the same message are both shown, as they ask for the stanza id and the archive id |
| Arrivals.DirectMessageShownTwice | src/xmpp/engine.rs:1550-1558 | A message passed on directly and its archived copy are both shown, in either order and with any ids |
| Arrivals.PassedIsShownIffNew | src/xmpp/engine.rs:1287-1516 | After any run, a message that passes the checks of its route and asks the cache is shown exactly when its id is empty or not among the last 500 accepted |
| Arrivals.StoppedLeavesNoTrace | src/xmpp/engine.rs:1289-1374 | A message that a check its route makes stops (nick on the room's list for room messages, the room itself on it in `handle_message`, blocked sender, no body, forged carbon wrapper) changes nothing that is shown or remembered before or after |
| Arrivals.BlockedSenderShownIff | src/xmpp/engine.rs:1490-1517 | A message of a blocked sender that would be shown otherwise is shown and remembered exactly when it comes as a room message, sent carbon or encrypted |
| Arrivals.ForgedShownIff | src/xmpp/engine.rs:1345-1363 | A carbon whose wrapper is not from the own address, and that would be shown otherwise, is neither shown nor remembered; only room and archived messages, which are tried before that check, are |
| Arrivals.BodilessShownIff | src/xmpp/engine.rs:1313-1371 | A message without a body that would be shown otherwise is shown and remembered exactly when it is a room message or encrypted |
| Arrivals.RepeatShownIff | src/xmpp/engine.rs:1299-1516 | The same message twice in a row is shown twice exactly when it has no id or goes through `handle_message` |
| Arrivals.EncryptedShownDespiteLists | src/xmpp/engine.rs:1490-1517 | An encrypted message is shown whatever the block list and the ignore lists hold |
| Arrivals.IgnoredOccupantShownIff | src/xmpp/handlers/message.rs:227-233 | A message of an ignored occupant that would be shown otherwise is stopped exactly when it is a room message, or goes through `handle_message` while the room's own address is on the room's list |
| Arrivals.IgnoredOccupantShownInPrivate | src/xmpp/handlers/message.rs:227-233 | A private message of an ignored occupant is shown, the same occupant's room message is not |
| Arrivals.Dispatch | src/xmpp/engine.rs:1287-1558 | The checks of the six routes in their order decide, with the cache, whether an event is sent; it is historical exactly from the archive and encrypted exactly when decrypted; a message stopped by an earlier check is not recorded |
| Arrivals.HandleMessage | src/xmpp/handlers/message.rs:209-265 | Passes on a message with a body unless its bare sender is blocked or, for a sender with a slash, the room's ignore list holds the room's own address; never asks the cache |
| DedupCache.NothingForgotten | src/xmpp/engine.rs:1204-1208 | A run of at most 500 different ids is remembered completely |
| OmemoFanOut.EncryptAndSend | src/xmpp/handlers/iq.rs:561-675 | The answer in terms of the store before the call, and exactly which stored sessions were advanced, on success and on every kind of failure |
| OmemoFanOut.FanOut | src/xmpp/handlers/iq.rs:599-647 | The loop over trusted devices: slots, missing ids and advanced sessions, each judged on the sessions before the call; it stops at the first failure |
| OmemoFanOut.MessageKeysExact | src/xmpp/handlers/iq.rs:587-647 | The slots are for exactly the trusted devices with a stored session, in store order, one each; the header carries the own device id and the nonce |
| OmemoFanOut.EverySlotReadable | src/xmpp/handlers/iq.rs:624-646 | If the other end of a session opens what the ratchet encrypts, every slot gives its own device the message key |
| OmemoFanOut.Partition | src/xmpp/handlers/iq.rs:599-647 | Slots and missing ids split the trusted devices without loss or repetition |
| OmemoFanOut.SlotsAreSessions | src/xmpp/handlers/iq.rs:611-646 | The split is by whether a session is stored, and both halves keep the order |
| OmemoFanOut.MessageIff | src/xmpp/handlers/iq.rs:568-656 | A message is built exactly when every step works for every trusted device and some trusted device has a session |
| OmemoFanOut.NoSessionsIff | src/xmpp/handlers/iq.rs:587-654 | `NoSessions` is answered exactly when all succeeds up to the loop, some device is trusted, every trusted device's row loads and none has a session; it names the trusted devices in order |
| OmemoFanOut.OtherIff | src/xmpp/handlers/iq.rs:568-634 | `Other` is answered exactly when a step before the loop fails, or loading, reading, storing or saving the session of some trusted device |
| OmemoFanOut.SuccessAdvancesExactly | src/xmpp/handlers/iq.rs:620-634 | With a message, the stored session of each trusted device is the old one after encrypting the message key once; every other session is as it was |
| OmemoFanOut.DeviceOutcome | src/xmpp/handlers/iq.rs:599-646 | A device fails exactly when its row does not load or its session cannot be read, stored or saved; else it is missing without a session, and gets a slot with the key its session encrypts |
| OmemoFanOut.TrustedIsFilter | src/xmpp/modules/omemo/store.rs:47-49 | The devices encrypted to are those trusted by hand or on first use, and no others |
| OmemoFanOut.NoTrustedDevicesIff | src/xmpp/handlers/iq.rs:580-593 | `NoTrustedDevices` exactly when identity and device list were read and no device may be encrypted to |
| OmemoFanOut.FailureLeavesStoreIff | src/xmpp/handlers/iq.rs:604-634 | If encrypting moves the ratchet, a call that fails in the loop leaves the store as it was exactly when no trusted device before the failing one has a stored session |
| OmemoFanOut.FailureKeepsRatchetStep | src/xmpp/handlers/iq.rs:604-634 | One stored session before a device whose session cannot be loaded: nothing is sent and the first session has moved on |
| OmemoFanOut.NoSessionsListsAll | src/xmpp/handlers/iq.rs:649-654 | `NoSessions` names every trusted device in order, none has a session, and no session changed |
| Receipts.StateIsStrongestReceipt | src/ui/conversation/update.rs:281-294 | A message is read if some read receipt came, else delivered if some delivery receipt came |
| Receipts.OrderAndRepetitionIrrelevant | src/ui/conversation/update.rs:281-294 | Reordering or repeating receipts never changes the final states |
| Receipts.ConversationView.OnMessageDelivered | src/ui/conversation/update.rs:281-288 | A delivery receipt never downgrades a read message |
| Addresses.OccupantParts | src/xmpp/handlers/message.rs:221-229 | Both ways of taking an occupant's address apart find the same room |
| Addresses.Bare | src/ui/chat.rs:261 | The part of an address before its first slash, or all of it |
| Conversations.ActiveIsOpen | src/ui/chat.rs:452-586 | After every run of events the active conversation is an open one |
| Conversations.ActiveIsLastActivated | src/ui/chat.rs:452-586 | The active conversation is the one last selected or configured and not removed since |
| Conversations.OpenIffNotRemoved | src/ui/chat.rs:206-286 | A conversation is open exactly when something opened it and nothing has removed it since |
| Conversations.UnreadCountsMessages | src/ui/chat.rs:284-287 | A counter is the number of messages received since the last selection while the conversation was not active |
| Conversations.ReceiptsOverRun | src/ui/chat.rs:392-403 | In an open conversation the states come from exactly the receipts that arrived since it was last opened |
| Occupants.OccupantsAreLatest | src/ui/chat.rs:213-256 | After every run a room's list has distinct nicks, holds exactly those whose latest presence was available with the role and affiliation of that presence, in order of arrival |
| Occupants.UpdatesAreReports | src/ui/chat.rs:365-370 | What counts as an update: a room presence as it is, and the presence of an occupant's address in a room joined before, as that of a participant without affiliation |
| Occupants.PresenceUpdatesRoom | src/ui/chat.rs:365-370 | After any run with the join, the presence of an occupant leaves an entry with the nick exactly if available, as a participant without affiliation; all other entries, rooms and contacts are as before |
| Occupants.ContactsAreLatest | src/ui/chat.rs:365-374 | The contact list shows the latest presence of everybody who was no occupant of a joined room at the time |
| Addresses.SplitOnce | src/ui/chat.rs:367 | The two parts put together with a slash are the address, the first has no slash; none only without a slash |
| Occupants.PanelsShowOccupants | src/ui/chat.rs:213-255 | Every panel shows the room's list and everybody on it is available; a room has a panel exactly if it was joined or reported on |
| ChatScreen.SidebarScreen.IncrementUnread | src/ui/sidebar.rs:148-150 | One more for the address, starting from zero; other counters unchanged |
| ChatScreen.SidebarScreen.ClearUnread | src/ui/sidebar.rs:153-155 | The counter is gone; other counters unchanged |
| ChatScreen.ChatScreen.SelectContact | src/ui/chat.rs:452-465 | Opens, activates and clears the counter, and changes no room |
| ChatScreen.ChatScreen.OnRoomConfigured | src/ui/chat.rs:578-586 | Opens and activates, leaving the counter, and changes no room |
| ChatScreen.ChatScreen.RemoveConversation | src/ui/chat.rs:511-529 | Drops the conversation, leaving its counter, and deactivates it if it was active |
| ChatScreen.ChatScreen.PrefillConversations | src/ui/chat.rs:194-210 | Opens all stored conversations that are not open and keeps the receipts of the others |
| ChatScreen.ChatScreen.OnMessageReceived | src/ui/chat.rs:260-287 | Opens the sender's conversation and counts the message unless that conversation is active |
| ChatScreen.ChatScreen.OnAcknowledged | src/ui/chat.rs:556-570 | A receipt changes an open conversation and is dropped for any other |
| ChatScreen.ChatScreen.OnJoinRoom | src/ui/chat.rs:213-218 | Records the room and gives it an empty panel unless it has one |
| ChatScreen.ChatScreen.OnMucPresence | src/ui/chat.rs:221-256 | Updates the shadow list and copies it to the panel |
| ChatScreen.ChatScreen.OnPresence | src/ui/chat.rs:365-374 | Presence from a joined room's occupant goes to the room, any other to the contact list |
| AvatarCrop.CropAccurateIff | src/store/avatar_crop.rs:55-72 | On each axis of every reachable state on which no edge acts, the middle of the computed square is more than -1.25 and at most 0.25 pixels off, except exactly when the diameter saturates and the centre is past half the range |
| AvatarCrop.SmallImagesAccurate | src/store/avatar_crop.rs:55-72 | Images with an edge below 2^30 pixels are always cropped that accurately |
| AvatarCrop.SaturatedCropInaccurate | src/store/avatar_crop.rs:62 | A reachable state in which the saturating cast puts the middle more than a billion pixels off |
| AvatarCrop.AccuracyIsTight | src/store/avatar_crop.rs:62-69 | Reachable crops reach the upper bound and come as near to the lower one as wanted |
| AvatarCrop.CropStartsInside | src/store/avatar_crop.rs:64-69 | After any operations the start leaves room for the square, or for the axis if that is shorter |
| AvatarCrop.CropIsBest | src/store/avatar_crop.rs:55-72 | In every reachable state the side is the diameter, rounded, and on each axis the start is, of all from which the square fits (or 0), the nearest to the truncated `center - radius` |
| AvatarCrop.CropTouchesEdges | src/store/avatar_crop.rs:64-69 | Where an edge acts the square touches it: the left or upper one always, the right or lower one if the square fits |
| AvatarCrop.SquareInsideIff | src/store/avatar_crop.rs:64-71 | The square is inside the image exactly when the diameter rounds to at most the shorter edge, in particular whenever twice the radius, zoomed, is at most 1 |
| AvatarCrop.SquareCanStickOut | src/store/avatar_crop.rs:64-71 | A reachable state in which the square is larger than the image |
| AvatarCrop.CropNotEmpty | src/store/avatar_crop.rs:61-62 | The side is positive exactly when the diameter is at least half a pixel, hence for all images of at least 3 by 3 pixels, and not for all of 2 by 2 |
| AvatarCrop.RunInRange | src/store/avatar_crop.rs:25-50 | Any operations keep centre, radius and zoom in their ranges |
| AvatarCrop.CenterIsSumOfMoves | src/store/avatar_crop.rs:25-40 | The centre starts in the middle and moves on both axes by the sum of the moves as long as no edge stops it |
| AvatarCrop.PanUndoneIff | src/store/avatar_crop.rs:37-40 | Moving there and back returns to the start exactly if on each axis the move stays on the image or crosses all of it |
| AvatarCrop.SettingsAreLast | src/store/avatar_crop.rs:25-50 | Zoom and radius are the last ones set, clamped to 1 to 4 and 0.1 to 0.5, or 1 and 0.4 |
| AvatarCrop.CropState.Pan | src/store/avatar_crop.rs:37-40 | Moves the centre, clamped, and nothing else |
| AvatarCrop.CropState.SetZoom | src/store/avatar_crop.rs:43-45 | Sets the clamped zoom and nothing else |
| AvatarCrop.CropState.SetRadius | src/store/avatar_crop.rs:48-50 | Sets the clamped radius and nothing else |
| DataForms.RoundTrip | src/ui/data_forms.rs:76-173 | Reading a printed field gives the field back, with any list of options |
| DataForms.ReprintIsFixed | src/ui/data_forms.rs:76-173 | Printing what was read from any element is a fixed point after one pass |
| DataForms.PrintedShape | src/ui/data_forms.rs:134-173 | A printed field is a `field` element of the form namespace with its attributes, then the value and the flag it has, then its options in order with label and value |
| DataForms.TypeNamesOfForms | src/ui/data_forms.rs:121-132 | The names of the ten types |
| DataForms.OptionReadIs | src/ui/data_forms.rs:99-108 | An option is read exactly if it has a value; its first value counts and labels it for want of a label |
| DataForms.NodeRead | src/ui/data_forms.rs:93-108 | All text directly inside an element is its text, and all child elements are its children, in order |
| DataForms.AppendedChildRead | src/ui/data_forms.rs:93-108 | What one more child changes in what is read: the first value, the required flag, the options in order |
| DataForms.TypeOfName | src/ui/data_forms.rs:78-90 | Each of the ten type names reads as its type, and no other name reads as anything but a single line of text |
| DataForms.BareOptionsRead | src/ui/data_forms.rs:99-108 | An option without a label is labelled with its value, one without a value is skipped |
| DataForms.ValuesKeptIff | src/ui/data_forms.rs:93-140 | Reading and printing any field keeps its first value, and keeps all values exactly when there is at most one |
| DataForms.SecondChoiceLost | src/ui/data_forms.rs:93-96 | A list of two chosen values comes back with the first only |
| DataForms.LaterValuesLost | src/ui/data_forms.rs:93-96 | A second value in a field is never read |
| DataForms.ToElement | src/ui/data_forms.rs:120-173 | The printing loop produces an element that reads back as the field |
| Fingerprint.FormatInvertible | src/ui/omemo_trust.rs:245-255 | Removing the spaces and decoding the digits gives the key back |
| Fingerprint.FormatInjective | src/ui/omemo_trust.rs:245-255 | Different keys are shown differently, the empty key included |
| Fingerprint.FormatShape | src/ui/omemo_trust.rs:249-254 | n bytes give 2n uppercase digits with a space exactly at every ninth character |

## Left out

- Byte offsets in UTF-8 and floating-point rounding: offsets count characters and numbers are reals.
- ChatScreen.SidebarScreen.IncrementUnread: does not model the 32-bit counter, which would overflow after 2^32 messages from one contact.
- ChatScreen.ChatScreen.OnAcknowledged: conversations are values in the map, since the map owns them; the object form of the two receipt arms is `Receipts.ConversationView`.
- Outbox.SessionLoop.Drain: does not model stream management, which the constant `sm_enabled` switches off, nor a transport that fails, for which the code logs and drops the stanza after it was handed over.
- OmemoFanOut.EncryptAndSend: does not model the XML of the message or the Olm and AES primitives, which are functions given to the call.
- Arrivals.HandleMessage: invitations, reactions, corrections, retractions, receipts, error messages and messages without a sender, which end in it before a message is passed on, are not arrivals; nor is the delivery receipt it may send.
- Arrivals.Dispatch: which branch takes a stanza is an input, as are the block and ignore lists, as they stand when a message arrives; stanzas that show no message (avatar, location and device list events) are not arrivals.
- Message bodies, previews, typing, reactions, corrections, drafts and pending commands of the chat screen: no property spans them.
- The muted and archived sets of the sidebar and the order of its contacts.
- Cropping and encoding of pixels (`crop_to_avatar`): the image library is not part of this model.
- Whole forms (`DataForm::from_element`) and the rendering of fields.
- Views, styles, settings, login, vCard, spam report and block list screens; sockets, TLS, DNS, SASL, uploads, notifications, audio; SQL schemas and configuration files.
- Inbound OMEMO decryption and pre-key rotation; archive catch-up and sync; multi-account switching.
