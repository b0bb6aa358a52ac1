# Chat widget core, modelled in Dafny

This project models the logic at the core of `app.js`, the script behind a small documentation-assistant
chat widget. Four modules make up the model:

- `Text` (`text.dfy`) holds the string library calls the widget uses. These are `trim`, ASCII
  `toLowerCase`, `includes` and `join`.
- `HtmlEscape` (`escape.dfy`) models `escapeHtml`. This encoder turns the five characters `& < > " '`
  into character references before a message text goes into the log's markup.
- `MockReply` (`reply.dfy`) models `simpleReply` and the reply delay. `simpleReply` is the scripted
  bot's ordered, first-match-wins rule table: greeting, docs tip or echo. The reply delay is
  `1000 + min(1200, 20 * length)`.
- `Conversation` (`conversation.dfy`) models the message store as the class `Chat`.
  - `messages` is `state.messages`, which only grows at the end.
  - `typing` is `state.typing`.
  - There is a timer clock `now`.
  - `pending` is the queue of scheduled `setTimeout` callbacks.
  - The class methods are the submit handler, `pushUser`, `mockBot`, the status and reply callbacks,
    and the attachment handler.
  - `FireNext` is one turn of the event loop. It runs the earliest-due timer, taking the one scheduled
    first on a tie, and moves the clock to its due time.

The invariant `Consistent` ties the log, the clock and the queue together:

- No timer is overdue.
- Every pending status timer targets a user message whose status is still behind the status the timer
  will write.
- The status timers of one message fall due in status order.

`Submit`, `PushUser`, `MockBot`, `AttachFiles`, `Wait` and each event-loop turn (`FireNext`) preserve
the invariant. That is why the status of a message only ever moves forward, Sending → Sent →
Delivered → Read. The status callback `ApplyStatus` on its own overwrites the status unconditionally,
as the source does, and keeps the invariant only when `FireNext` runs it as the earliest timer.

`SubmitThenRunTimers` runs one whole exchange: a submission on an empty log, followed by every timer
in delay order.

Ids (`crypto.randomUUID`) and timestamps (`Date.now`) are parameters. Ids must be fresh. A status timer
refers to its message by position in the log. In the source the callback holds the message object
itself, and because the log is append-only that object's position never changes.

## Model

| member | source | states |
|---|---|---|
| Text.Trim | app.js:73 | trimming never lengthens the text |
| Text.TrimSlice | app.js:73 | the trimmed text is a slice `s[i..j]` with only whitespace before `i` and from `j` on, and when non-empty it neither starts nor ends with whitespace |
| Text.TrimEmpty | app.js:73-74 | the trimmed text is empty exactly when the input is all whitespace, which is when the handler returns early |
| Text.TrimIdempotent | app.js:73 | trimming a trimmed text changes nothing |
| Text.LowerChar | app.js:114 | upper-case ASCII letters map to lower-case letters and every other character is kept |
| Text.ToLowerAscii | app.js:114 | lowercasing keeps the length and maps every character independently |
| Text.ToLowerIdempotent | app.js:114 | lowercasing twice is lowercasing once |
| Text.Includes | app.js:115-116 | `includes`: the empty needle is always found, and a found needle is no longer than the text; `IncludesIff` gives the full characterisation |
| Text.IncludesIff | app.js:115-116 | the left-to-right scan answers true exactly when the needle occurs at some offset |
| Text.IncludesInContext | app.js:117 | a substring of a text is also found in any text that embeds it |
| Text.Join | app.js:124 | joining no names gives the empty text, and joining one name gives that name |
| Text.JoinSnoc | app.js:124 | joining one more name appends the separator and that name |
| Text.JoinLength | app.js:124 | the joined text is as long as all names plus one separator between each pair |
| HtmlEscape.Entity | app.js:58 | each special character becomes a reference starting with `&`, and any other character is kept |
| HtmlEscape.Escape | app.js:58 | `escapeHtml`: the output is never shorter than the input and is empty only for empty input; `EscapeIsSafe`, `EscapeConcat` and `UnescapeEscape` state its guarantees |
| HtmlEscape.EscapeIsSafe | app.js:58 | the output has no `<`, `>`, `"` or `'`, and every `&` in it starts one of the five references |
| HtmlEscape.EscapeConcat | app.js:58 | escaping `a + b` is escaping `a` followed by escaping `b` |
| HtmlEscape.EscapeLength | app.js:58 | the output is never shorter than the input, and is strictly longer when there is a special character |
| HtmlEscape.EscapeFixedPoints | app.js:58 | a text is left unchanged exactly when it has none of the five special characters |
| HtmlEscape.KeepsPlainText | app.js:58 | a text without special characters is returned as it is |
| HtmlEscape.UnescapeEscape | app.js:58 | decoding the five references gives back the original text, so nothing is lost |
| HtmlEscape.EscapeInjective | app.js:58 | two different texts never escape to the same markup |
| MockReply.Echo | app.js:117 | the echo template embeds the user's text unchanged between its fixed prefix and suffix |
| MockReply.SimpleReply | app.js:113-118 | `simpleReply`: the reply is always the greeting, the docs tip or the echo of the text; `SimpleReplyRules` says which one, in rule order |
| MockReply.RepliesDistinct | app.js:115-117 | greeting, docs tip and echo are three different replies |
| MockReply.SimpleReplyRules | app.js:113-117 | greeting iff the lowercased text has "hello" or "hi"; docs tip iff it has no greeting word but has "doc" or "search"; echo iff it has neither |
| MockReply.RuleIgnoresCase | app.js:114 | texts that lowercase alike get the same rule |
| MockReply.EchoQuotesText | app.js:117 | when neither keyword rule fires, the reply is the echo, and it contains the text as typed |
| MockReply.OpeningHiGreets | app.js:115 | any text that opens with "hi" or "Hi" is greeted, whatever follows |
| MockReply.GreetingBeatsDocs | app.js:115-116 | "hi there, can you search docs" gets the greeting, not the docs tip |
| MockReply.SubstringGreets | app.js:115 | "this" is greeted because "hi" matches inside it |
| MockReply.UpperCaseGreets | app.js:114-115 | "HELLO" is greeted |
| MockReply.ReplyDelay | app.js:110 | the delay lies in [1000, 2200], is 2200 for every length of 60 or more, and is below 2200 for shorter texts |
| MockReply.ReplyDelayMonotone | app.js:110 | a longer text never gets a quicker reply, and below the cap each extra character adds exactly 20 |
| Conversation.StatusTimers | app.js:94-96 | `pushUser` schedules three timers for its message, each due after now, strictly increasing in due time and in the status they write |
| Conversation.AdvancedTransitive | app.js:92-96 | two consecutive steps that each keep earlier messages and only raise statuses make one such step |
| Conversation.AppendKeepsWellFormed | app.js:91-92 | appending a message with a fresh id that carries a status exactly when it is the user's keeps ids unique and statuses on user messages only |
| Conversation.SetStatusKeepsWellFormed | app.js:94-96 | overwriting the status of a user message keeps the log well formed |
| Conversation.EarliestUnique | app.js:94-96 | the timer the event loop runs next is uniquely determined |
| Conversation.ScheduleUserMessage | app.js:90-97 | appending a user message in state Sending with its three status timers keeps the schedule consistent |
| Conversation.ScheduleReply | app.js:103-110 | scheduling a reply that is not overdue keeps the schedule consistent |
| Conversation.FireStatus | app.js:94-96 | the next status timer targets a user message and writes a status ahead of its current one, so the log advances, and the schedule stays consistent |
| Conversation.FireReply | app.js:104-107 | running the next reply timer and appending the bot message keeps the schedule consistent |
| Conversation.Chat.constructor | app.js:13-18 | the store starts with the loaded messages, not typing, and with nothing scheduled |
| Conversation.Chat.Submit | app.js:69-79 | whitespace-only input changes nothing; otherwise exactly one user message holding the trimmed text in state Sending is appended, its three status timers and one reply timer are scheduled, typing is set, and earlier messages are untouched |
| Conversation.Chat.PushUser | app.js:90-97 | one user message in state Sending is appended and exactly its three status timers are scheduled |
| Conversation.Chat.MockBot | app.js:100-112 | typing is set and one reply timer is scheduled, carrying the reply computed now and due after the length-dependent delay |
| Conversation.Chat.ApplyStatus | app.js:94-96 | the status callback overwrites the status of its message and changes nothing else |
| Conversation.Chat.DeliverReply | app.js:104-107 | typing is cleared and a bot message without a status is appended |
| Conversation.Chat.AttachFiles | app.js:122-126 | no files changes nothing; otherwise one user message "Attached: " plus the names joined by ", " is appended with its three status timers, and no reply is scheduled |
| Conversation.Chat.Wait | app.js:69 | time passes up to a user event with no timer falling due before it, and the invariant is kept |
| Conversation.Chat.NextTimer | app.js:94-96 | finds the earliest-due timer, taking the first scheduled on ties |
| Conversation.Chat.FireNext | app.js:94-107 | runs that timer: a status timer raises its message's status, a reply timer appends the bot message; the log only advances, stays well formed, and the schedule stays consistent |
| Conversation.RunStatusTimer | app.js:94-96 | on a one-message log, a status timer due before all others writes its status and leaves the rest of the queue |
| Conversation.RunReplyTimer | app.js:104-107 | when the reply is the only pending timer, running it appends the bot message and empties the queue |
| Conversation.SubmitOnEmptyLog | app.js:69-79 | submitting on an empty log leaves one Sending message and exactly four timers: Sent at 150, Delivered at 600, Read at 900, and the reply at the reply delay |
| Conversation.RunStatusTimers | app.js:94-96 | the three status timers run in delay order and the message reads Sent, Delivered and Read at 150, 600 and 900 |
| Conversation.RunAllTimers | app.js:94-107 | after the status timers, the reply is appended last and without a status |
| Conversation.SubmitThenRunTimers | app.js:69-110 | one submission followed by every timer: statuses Sending, Sent, Delivered, Read at 0, 150, 600, 900, then the bot message with the rule-table reply at the reply delay |
| Conversation.HelloIsGreeted | app.js:113-115 | "Hello" survives trimming, is greeted, and is answered after 1100 |

## Left out

- DOM wiring is not modelled: element lookups, open/close, focus, the keydown handlers, `autoGrow`,
  the typing indicator's attributes, and the markup template in `render` (app.js:1-11, 23-31, 46-55,
  80-88). The typing indicator is made visible (app.js:71-72) before the empty-input check, so an
  empty submit still shows it. Only `state.typing` is modelled.
- `setStatus` (app.js:63-66) is not modelled. It looks for a `.msg__status` element that `render`
  never emits, so it updates nothing. Only the `m.status` overwrite is modelled.
- `localStorage` and JSON persistence are not modelled (app.js:16-17, 37, 56). The constructor takes
  the already parsed message list. `JSON.parse` has no fallback for malformed stored data, and the
  model does not add one.
- `Conversation.Chat.constructor`: does not require the loaded list to be well formed. A stored
  status string other than the four statuses cannot be represented.
- Locale formatting of timestamps (`fmt`, `toLocaleTimeString`, `toLocaleString`) is not modelled.
- The theme toggle is not modelled.
- `crypto.randomUUID`, `Date.now`, `matchMedia` and `requestAnimationFrame` are foreign calls. Ids
  and timestamps are parameters, and freshness of ids is a precondition.
- Real-time `setTimeout` is not modelled. Time is a clock that moves only when `FireNext` runs a
  timer or `Wait` lets time pass before a user event; there is no concurrency.
- Text.ToLowerAscii: lowercases ASCII letters only, where `toLowerCase` applies full Unicode case
  mapping.
- MockReply.ReplyDelay: takes the length in Unicode scalar values, where `userText.length` counts
  UTF-16 code units. The two differ for characters outside the Basic Multilingual Plane.
- JavaScript strings are UTF-16 and may hold unpaired surrogates, for instance in a textarea value or
  a file name. A Dafny `char` is a Unicode scalar value, so such strings cannot be represented.
- Text.Trim: the whitespace set is the ECMAScript WhiteSpace and LineTerminator characters as of
  Unicode 15. Changes to the Zs category in later Unicode versions are not followed.
- Conversation.Chat.AttachFiles: takes the file names as a list. A missing `files` list (the `?.`
  in app.js:123) is the same as an empty one.
