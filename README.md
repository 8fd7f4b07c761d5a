# Thanksgiving Day — a Dafny model of the message core

The application lets visitors post short gratitude messages, in Russian,
and shows them as floating bubbles on a display page. This project models
its core in Dafny and proves properties of that model:

- `Strings` (`strings.dfy`): the JavaScript string built-ins the core relies
  on. These are `toLowerCase` for Basic Latin and Cyrillic, the whitespace
  class `\s`, `trim`, `split(/\s+/)` with the empty tokens filtered out,
  `includes`, and the decimal rendering of a number.
- `Moderation` (`moderation.dfy`, lib/moderation.ts): the forbidden-word list,
  `moderateText` with its token pass and phrase pass, `validateTextLength`
  and `validateMessage`.
- `Constants` (`constants.dfy`, lib/constants.ts): the duration and concurrency
  constants and `normalizeDuration`.
- `MessageContainer` (`message_container.dfy`, components/MessageContainer.tsx):
  - reading-time durations and height estimates;
  - padded rectangle collisions;
  - the bounded random placement search;
  - the class `MessageRotation`, the bubbles on screen with their admission
    and completion.
- `Store` (`store.dfy`): the stored message record as the routes see it.
- `Schedule` (`schedule.dfy`, app/api/schedule/route.ts): the evenly spaced
  broadcast schedule.
- `MessagesRoute` (`messages_route.dfy`, app/api/messages/route.ts): the
  ordered validation chain of `POST /api/messages`, its responses, and the
  lazily created table. The class `Route` holds the `tableInitialized` flag.
- `Page` (`page.dfy`, app/page.tsx): the submission page as the class
  `Home`. It holds the typewriter placeholder, the input handlers, and the
  submit flow with its response handling. Lemmas also connect the page's
  request to the route's decision.

Each `Math.random()` draw, the clock, the window size, and the store's
answers are inputs to the model. Placement draws come from an oracle
`rnd: nat -> real`. Each timer callback and each run of a React effect is
one method call.

Where the code and its documented intent differ, the model follows the code:

- Moderation has no allow-list, no transliteration and no whitespace
  collapsing. A text is rejected when any token is a substring of a
  forbidden word. The word "за" is a substring of "залупа". So every example
  the page suggests is rejected (`Page.ExampleTextsRejected`), and so is
  "Спасибо за родителей" (`Moderation.ThanksForParentsRejected`).
- The phrase pass over the whole lower-cased text does not catch words
  spread over several tokens. Every forbidden word is written in Cyrillic
  letters only, so an occurrence never spans whitespace or punctuation and
  the token pass has already rejected the text (`Moderation.PhrasePassDead`,
  `Moderation.TokenVerdict`).
- `POST /api/messages` stores `duration || 5` as given. It applies no
  clamping into [3, 10] and does not use the default of 4
  (`MessagesRoute.StoredDurationCases`). Only `normalizeDuration` clamps,
  and the route does not call it.

## Model

| member | source | states |
|---|---|---|
| Strings.LowerChar | lib/moderation.ts:42 | the result is never an upper-case letter, and it differs from the input exactly when the input is upper-case |
| Strings.ToLowerIdempotent | lib/moderation.ts:42 | lower-casing twice gives the same text as lower-casing once |
| Strings.ToLowerOfLower | lib/moderation.ts:42 | a text without upper-case letters is its own lower-case form |
| Strings.Includes | lib/moderation.ts:52 | `includes` is true exactly when the substring occurs as a contiguous slice at some index |
| Strings.Words | lib/moderation.ts:46 | every token of `split(/\s+/)` after filtering is non-empty, holds no whitespace and occurs in the text |
| Strings.WordsCons | lib/moderation.ts:46 | a word followed by whitespace or by the end is the first token, followed by the tokens of the rest |
| Strings.WordAt | lib/moderation.ts:46 | a run of non-space characters with whitespace or an end of the text on both sides is one of the tokens |
| Strings.InsideOneWord | lib/moderation.ts:46 | a non-empty piece of the text without whitespace lies inside one of the tokens |
| Strings.WordsBounded | lib/moderation.ts:46 | conversely, every token occurs in the text with whitespace or an end of the text on both sides, so no token is a piece of a longer run |
| Strings.Trim | lib/moderation.ts:76 | `trim` gives the empty string exactly for a blank text; otherwise the slice of the text that starts and ends with a non-space character and has only whitespace before and after it |
| Strings.TrimIdempotent | app/api/messages/route.ts:53 | trimming an already trimmed text changes nothing |
| Strings.DecimalRoundTrip | lib/moderation.ts:81 | reading back the decimal rendering of a number gives the number |
| Moderation.Clean | lib/moderation.ts:45 | every punctuation character of the class is replaced by a space and every other character is kept, in place, so the length is unchanged |
| Moderation.ModerateText | lib/moderation.ts:41-72 | an accepted text is returned unchanged; every rejection carries the one reason "Текст содержит недопустимые слова" |
| Moderation.WordHitIff | lib/moderation.ts:50-58 | the inner loop of the token pass hits exactly when some forbidden word contains the token or is contained in it |
| Moderation.TokenHitIff | lib/moderation.ts:49-59 | the two nested loops of the token pass hit exactly when some token and some forbidden word contain one another |
| Moderation.PhraseHitIff | lib/moderation.ts:62-69 | the loop of the phrase pass hits exactly when some forbidden word occurs in the lower-cased text |
| Moderation.ModerationVerdict | lib/moderation.ts:41-72 | a text is rejected exactly when its lower-cased form contains a forbidden word, or one of its punctuation-free tokens is a substring of a forbidden word |
| Moderation.TokenContainmentSubsumed | lib/moderation.ts:45-52 | a token that contains a forbidden word puts that word in the lower-cased text too |
| Moderation.TokenPassSubsumed | lib/moderation.ts:49-69 | the token pass only ever adds the rejections where a token is a substring of a forbidden word |
| Moderation.ShortTokenRejected | lib/moderation.ts:49-57 | a token that is a substring of a forbidden word gets the text rejected |
| Moderation.ForbiddenSubstringRejected | lib/moderation.ts:62-68 | a forbidden word anywhere in the lower-cased text gets the text rejected; with this list it always lies inside one token, so the token pass rejects it first |
| Moderation.ForbiddenWordsCyrillic | lib/moderation.ts:2-38 | every listed word is a non-empty run of the lower-case letters а–я and ё, so none holds whitespace or punctuation |
| Moderation.ForbiddenWordInsideToken | lib/moderation.ts:42-46 | a forbidden word in the lower-cased text lies inside one token of the punctuation-free text |
| Moderation.PhrasePassDead | lib/moderation.ts:49-69 | every text the phrase pass would reject has already been rejected by the token pass |
| Moderation.TokenVerdict | lib/moderation.ts:41-72 | a text is rejected exactly when one of its punctuation-free tokens and a forbidden word contain one another; the phrase pass never decides |
| Moderation.ValidateTextLength | lib/moderation.ts:75-85 | valid exactly when not blank and at most `maxLength` long; a blank text gets the empty reason before its length is checked; a longer one gets the too-long reason |
| Moderation.ValidateMessage | lib/moderation.ts:88-102 | valid exactly when not blank, at most 300 characters long and accepted by moderation; a length failure is returned as is, and every other failure has the moderation reason |
| Moderation.TooLongReasonText | lib/moderation.ts:81 | the too-long reason for the limit 300 is "Текст не может быть длиннее 300 символов" |
| Moderation.ValidateMessageReasonNonEmpty | lib/moderation.ts:88-102 | every rejection reason is non-empty |
| Moderation.ZaInsideForbidden | lib/moderation.ts:12 | "за" is a substring of the forbidden word "залупа" |
| Moderation.ZaToken | lib/moderation.ts:42-46 | a standalone "за" or "За" is still a token after lower-casing and punctuation removal |
| Moderation.StandaloneZaRejected | lib/moderation.ts:41-72 | any text of at most 300 characters holding the word "за" on its own is rejected as containing forbidden words |
| Moderation.ThanksForParentsRejected | lib/moderation.ts:41-72 | "Спасибо за родителей" is rejected |
| Moderation.ForbiddenWordAloneRejected | lib/moderation.ts:62-68 | the forbidden word "дурак" alone is rejected |
| Constants.NormalizeDuration | lib/constants.ts:25-30 | the normalised duration always lies in [3, 10] |
| Constants.NormalizeDefault | lib/constants.ts:26-28 | absent, zero and negative durations give the default of 4 |
| Constants.NormalizeClamp | lib/constants.ts:29 | a positive duration is kept in range, raised to 3 below it and lowered to 10 above it |
| Constants.NormalizeIdempotent | lib/constants.ts:25-30 | normalising twice gives the same value as normalising once |
| Constants.ConstantsOrdered | lib/constants.ts:3-18 | the concurrency caps are ordered and the default duration lies in range |
| MessageContainer.CalculateDuration | components/MessageContainer.tsx:22-27 | the display time always lies in [2, 8] seconds |
| MessageContainer.CalculateDurationByLength | components/MessageContainer.tsx:22-27 | up to 300 characters the time is 2 s plus one second per 50 characters; from 300 on it is 8 s |
| MessageContainer.CalculateDurationMonotone | components/MessageContainer.tsx:22-27 | a longer text is shown at least as long |
| MessageContainer.LineCount | components/MessageContainer.tsx:34 | the ceiling division gives the fewest lines that hold the text |
| MessageContainer.CharsPerLine | components/MessageContainer.tsx:33 | the characters per line are the floor of a tenth of the width, at least 1 |
| MessageContainer.EstimateMessageHeight | components/MessageContainer.tsx:30-36 | the estimated height is at least 60 px |
| MessageContainer.EstimateAtBubbleWidth | components/MessageContainer.tsx:30-36 | at 280 px a line holds 28 characters; up to 28 characters the height is 60 px, beyond it 24 px plus 22.4 px per line |
| MessageContainer.CollisionIffNotSeparated | components/MessageContainer.tsx:39-50 | two rectangles collide exactly when neither their horizontal nor their vertical gap exceeds the padding |
| MessageContainer.CollisionSymmetric | components/MessageContainer.tsx:39-50 | the collision test does not depend on the order of the rectangles |
| MessageContainer.CollisionReflexive | components/MessageContainer.tsx:39-50 | a rectangle of non-negative size collides with itself |
| MessageContainer.ScaleBelow | components/MessageContainer.tsx:65-66 | a draw in [0, 1) scales into [0, range) |
| MessageContainer.CandidateInViewport | components/MessageContainer.tsx:65-66 | a candidate lies inside the viewport less the 20 px margins |
| MessageContainer.HasCollision | components/MessageContainer.tsx:69-76 | the inner loop reports a collision exactly when some existing bubble collides with the candidate |
| MessageContainer.GetRandomPosition | components/MessageContainer.tsx:53-88 | the result is the first collision-free candidate among the first `maxAttempts`, or the next unchecked draw when all of them collide |
| MessageContainer.RemoveId | components/MessageContainer.tsx:111 | the filter keeps only bubbles of the list whose id differs |
| MessageContainer.RemoveIdAppend | components/MessageContainer.tsx:111 | filtering distributes over concatenation, so order is kept |
| MessageContainer.RemoveIdKeepsOthers | components/MessageContainer.tsx:111 | every bubble with another id is kept |
| MessageContainer.RemoveIdAbsent | components/MessageContainer.tsx:111 | with no bubble of that id the list is unchanged |
| MessageContainer.MessageRotation.constructor | components/MessageContainer.tsx:90-93 | the component starts with no bubbles, index 0 and a zero window size; an absent `maxConcurrent` prop becomes 4 |
| MessageContainer.MessageRotation.Resize | components/MessageContainer.tsx:96-107 | the resize listener records the window size and keeps the invariant |
| MessageContainer.MessageRotation.Admit | components/MessageContainer.tsx:115-145 | a bubble is admitted exactly when there are texts, the window has a width and a slot is free; it gets the next text in cyclic order, a position from the placement search and its reading time, and the index moves on by one mod the number of texts; at most `maxConcurrent` bubbles stay on screen |
| MessageContainer.MessageRotation.Complete | components/MessageContainer.tsx:110-112 | completion removes exactly the bubbles with that id |
| Schedule.BuildSchedule | app/api/schedule/route.ts:21-29 | the schedule has one slot per message; slots never overlap and all end inside the cycle of n times 5 s |
| Schedule.Get | app/api/schedule/route.ts:7-46 | the status is 200 exactly when the messages could be fetched; a failed fetch gives 500 with the schedule error |
| Schedule.EmptySchedule | app/api/schedule/route.ts:11-18 | with no messages the schedule and the cycle are empty, without the interval and duration fields |
| Schedule.ScheduleEntries | app/api/schedule/route.ts:21-38 | slot i copies message i's id and text and starts i intervals into the cycle for 4 s |
| Schedule.ShowTimesIncrease | app/api/schedule/route.ts:25 | show times strictly increase along the schedule |
| MessagesRoute.StoredDuration | app/api/messages/route.ts:56 | the stored duration is truthy, and a truthy duration passes unchanged |
| MessagesRoute.DecidePost | app/api/messages/route.ts:27-57 | an inserted text is trimmed, non-empty and at most 300 characters long; every rejection reason is non-empty |
| MessagesRoute.TextCheckedFirst | app/api/messages/route.ts:28-33 | anything but a non-empty string as text is refused as missing text, whatever the other fields hold |
| MessagesRoute.PositionsCheckedSecond | app/api/messages/route.ts:35-40 | with a text present, a missing or non-numeric position is refused next |
| MessagesRoute.ValidationDecides | app/api/messages/route.ts:43-57 | with text and positions present, an invalid text is refused with the reason `validateMessage` gives, and a valid one is inserted trimmed with `duration \|\| 5` |
| MessagesRoute.TrimmedBodyDecides | app/api/messages/route.ts:43-57 | a body with an already trimmed text, numeric positions and a non-zero number as duration is refused exactly when `validateMessage` refuses the text, with its reason, and is otherwise inserted exactly as sent |
| MessagesRoute.EmptyStringIsMissingText | app/api/messages/route.ts:28-33 | an empty string is refused as missing text, not with the empty-text reason of `validateTextLength` |
| MessagesRoute.StoredDurationCases | app/api/messages/route.ts:56 | absent and zero durations are stored as 5; any other number, even above 10 or negative, is stored unchanged |
| MessagesRoute.PostResponse | app/api/messages/route.ts:20-79 | the status is 201, 400 or 500; 201 exactly with the created body, whose `success` is true; every error body carries a non-empty message |
| MessagesRoute.ResponseClassification | app/api/messages/route.ts:20-79 | the status is 400 exactly for a rejected body, 201 exactly when the store returns a record, whose fields the body copies, and otherwise 500 with the generic message |
| MessagesRoute.RejectionIgnoresStore | app/api/messages/route.ts:27-49 | a rejected body is answered with 400 without the store, so any two stores give the same response |
| MessagesRoute.Route.constructor | app/api/messages/route.ts:6 | the table starts uninitialised |
| MessagesRoute.Route.EnsureTableExists | app/api/messages/route.ts:8-17 | creation is attempted exactly while the table is uninitialised; the flag becomes true only when a creation succeeds, and then stays true |
| MessagesRoute.Route.Post | app/api/messages/route.ts:20-79 | the table step runs first and does not change the response |
| Page.RoundNearest | app/page.tsx:115-116 | `Math.round` gives an integer at most half a unit away |
| Page.SubmittedDuration | app/page.tsx:103-105 | the submitted duration lies in [2, 8] |
| Page.SubmittedDurationAgrees | app/page.tsx:103-105 | the page's duration formula equals the display's `calculateDuration` |
| Page.PageRequest | app/page.tsx:99-118 | the request carries the trimmed input, and a duration in [2, 8] that is the display's `calculateDuration` of the untrimmed input |
| Page.DurationFromUntrimmedInput | app/page.tsx:105-114 | the duration follows the untrimmed input: "a " is sent as "a" with 2.04 s, while "a" alone would give 2.02 s |
| Page.RequestPositionInViewport | app/page.tsx:99-100 | with draws in [0, 1), the rounded position lies within [50, width - 249.5] x [50, height - 149.5] |
| Page.FailureMessage | app/page.tsx:123-140 | a failed response shows the server's `error` when it is non-empty and the generic message when it is absent or empty; a thrown error shows its own message |
| Page.DisabledIffBlocked | app/page.tsx:372 | the button is disabled exactly when the submit guard of line 91 ignores a submission |
| Page.Submission | app/page.tsx:91-118 | nothing is sent exactly when the guard blocks; otherwise the page request, whose text is non-empty |
| Page.OutcomeOf | app/page.tsx:123 | the response counts as ok exactly for a 2xx status |
| Page.PageRequestTrimmed | app/page.tsx:105-117 | a request for a non-blank input carries a non-empty text with no whitespace at either end and a non-zero duration |
| Page.PageRequestDecision | app/page.tsx:113-118 | a request from the page passes the route's presence checks, so the server inserts it unchanged exactly when `validateMessage` accepts the trimmed text and otherwise refuses it with that reason |
| Page.RejectionReasonShown | app/page.tsx:121-140 | a refused message gets a 400, and the page shows the reason `validateMessage` gave |
| Page.ExampleTextsRejected | app/page.tsx:6 | each example the placeholder suggests would be refused as containing forbidden words |
| Page.Home.constructor | app/page.tsx:11-20 | the initial state: first example, empty texts, nothing in flight, no error |
| Page.Home.RunEffect | app/page.tsx:48-87 | while idle it schedules one typing step while shorter than the example, a pause that clears `isTyping` at full length, or one deleting step; it moves to the next example mod 3 only when deleting reaches the empty text; otherwise it clears the placeholder and both flags; the placeholder stays a prefix of the current example |
| Page.Home.FireTimer | app/page.tsx:56-72 | a typing step adds exactly one character of the example, the pause sets `isDeleting`, and a deleting step removes exactly the last character |
| Page.Home.Focus | app/page.tsx:242 | focusing sets `isFocused` and changes nothing else |
| Page.Home.Blur | app/page.tsx:243 | blurring clears `isFocused` and changes nothing else |
| Page.Home.Change | app/page.tsx:235-240 | editing sets the input and hides a displayed error |
| Page.Home.BeginSubmit | app/page.tsx:89-119 | a blocked submit changes nothing; otherwise submitting starts, success and error are cleared, and the page request is sent |
| Page.Home.HandleResponse | app/page.tsx:121-141 | every outcome ends the submission; success sets `isSuccess` without an error; a failure shows the failure message |
| Page.Home.SuccessTimeout | app/page.tsx:132-135 | two seconds after success the success state ends and the input is emptied |

## Left out

- lib/db.ts (the pool, the SQL, the 30-second active window and the hourly deactivation sweep) is not part of this model. The routes take the store's answers as inputs, and `Store.Message` keeps only the fields the routes read.
- lib/socket-handler.ts and server.ts are socket and HTTP wiring with broadcast.
- The `message:new` handler of lib/socket-server.ts (lines 44-61) is not modelled. It repeats the chain of `POST /api/messages`: `validateMessage`, then `addMessage` with the trimmed text and `duration || 5`. It skips the route's presence checks, so a text that is not a string throws inside `validateMessage` (at `text.trim()`, lib/moderation.ts:76) and the handler answers `message:error`.
- components/MessageBubble.tsx, app/layout.tsx, app/messages/page.tsx and next.config.js are animation, markup and configuration. So are the title animation, the ripple effect and the mobile detection of app/page.tsx.
- app/api/time/route.ts only returns the clock.
- `GET /api/messages` (app/api/messages/route.ts:82-112) is left out. It parses a limit and copies rows, and it calls the same table step that `MessagesRoute.Route.EnsureTableExists` models.
- `getAllMessages`, which app/api/schedule/route.ts imports, is not defined in lib/db.ts. `Schedule.Get` takes the fetched list, or its absence, as input.
- Schedule.Get: `None` stands for a fetch that threw. The `!messages` branch (app/api/schedule/route.ts:11), where the fetch returns no list at all and the answer is 200 with an empty schedule, is not expressible in the model.
- `MESSAGE_TIMING` (lib/constants.ts:9-12) is declared but read by no code of the core. The schedule route uses its own `MESSAGE_INTERVAL`, modelled as `Schedule.MessageInterval`.
- `Math.random()`, `Date.now()` and the window size are inputs. This covers the spawn delay of 1 to 3 s, bubble ids, positions and `serverTime`. Timer delays are not modelled; a firing timer is a method call.
- Numbers are unbounded reals without NaN or infinities. JSON number parsing is not modelled.
- Text length is counted in Unicode characters, not in JavaScript UTF-16 code units. The two differ only outside the Basic Multilingual Plane.
- Strings.LowerChar: lower-cases only Basic Latin and Cyrillic (А–Я, Ѐ–Џ), not the full Unicode case mapping of `toLowerCase`.
- MessageContainer.EstimateMessageHeight: requires a width of at least 10 px. Below that the source divides by zero. Every caller passes 280.
- MessageContainer.GetRandomPosition: requires a bubble width of at least 10 px, for the same reason.
- MessageContainer.MessageRotation.Admit: the `messages` and `maxConcurrent` props are fixed per instance. A prop change that leaves `messageIndex` past the end of a shorter list is not modelled.
- MessageContainer.MessageRotation.Admit: the effect's early return and the setter's re-check are folded into one step. The admission timer is cancelled and re-armed by each dependency change, and the model leaves that cancellation out.
- Page.Home.RunEffect: React runs the effect after a render in which a dependency changed. The caller decides when that happens, and the model does not derive it.
- Page.Home.HandleResponse: requires a submission in flight. It models the continuation of `BeginSubmit`, not a call of its own.
- Bubble ids are taken as given, and their uniqueness is not modelled.
