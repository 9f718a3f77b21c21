# line-reflection-bot: the event handler, in Dafny

This project models `handleEvent`, the webhook handler of a LINE chat bot
that keeps a diary of what a user tells it. For each inbound event the
handler does the following:

- It drops every event that is not a text message, with no reply.
- It trims the text with JavaScript's `trim`.
- If the trimmed text contains the phrase 查詢今日紀錄 ("look up today's
  records"), it answers with a numbered list of the user's messages from the
  current local day. Otherwise, if the text contains 查詢本週紀錄 ("look up
  this week's records"), it answers with the user's messages from the current
  ISO week.
- Any other text, the empty text included, is appended to the `messages`
  table as a row `(user_id, content, created_at)`. The handler then replies
  with an acknowledgement that quotes the text.

Modules, leaf first:

- `Text` (text.dfy): JavaScript `trim`, `includes` and `some`, decimal
  rendering of a list number, and `join('\n')` with its inverse `split('\n')`.
- `TimeWindow` (window.dfy): the local day and the local ISO week (Monday
  00:00 to Sunday 23:59:59.999) of an instant. Instants are epoch
  milliseconds. The server's zone is a fixed offset. It also has the bounds
  as the code actually sends them, rounded down to whole seconds.
- `Reply` (reply.dfy): the fixed texts, the numbered list and the
  acknowledgement.
- `Messages` (messages.dfy): the rows of the `messages` table, the query's
  filter, its `created_at` ordering, and a `MessageStore` class whose
  `Insert` appends and whose `Query` reads.
- `Bot` (bot.dfy): the event datatype, the classification and the
  `HandleEvent` method.

Where the store or the reply transport is called, the model takes what it
cannot see as parameters:

- `now` is the clock.
- `offset` is the server's zone offset.
- `queryFails` and `insertFails` say whether the store reports an error.

The reply the handler sends is `HandleEvent`'s return value.

A few facts about the handler that the model keeps:

- There is no postback handling: every event that is not a text message is
  dropped.
- There is no guard against empty text, so a blank message is stored
  as "".
- Both window ends are inclusive (`gte`/`lte`).
- A query with no results replies with the title followed by the "no
  records" sentence.

## Model

| member | source | states |
|---|---|---|
| `Text.TrimStart` | index.js:12 | the result is a suffix of the input, everything dropped is whitespace or a line terminator, and the result does not start with one |
| `Text.TrimEnd` | index.js:12 | the result is a prefix of the input, everything dropped is whitespace or a line terminator, and the result does not end with one |
| `Text.Trim` | index.js:12 | the trimmed message is an infix of the text with only whitespace and line terminators cut off around it, and it neither starts nor ends with such a character |
| `Text.TrimIdempotent` | index.js:12 | trimming the trimmed message again changes nothing |
| `Text.TrimAllTrimmable` | index.js:12 | a text made only of whitespace trims to the empty text |
| `Text.Contains` | index.js:18 | the empty keyword is always contained, and a contained keyword is no longer than the message |
| `Text.ContainsIff` | index.js:18 | `includes` as scanned holds exactly when the keyword occurs at some index of the message |
| `Text.ContainsAny` | index.js:18 | `keywords.some(kw => userMessage.includes(kw))` holds exactly when some keyword of the list is contained |
| `Text.NatToString` | index.js:43 | the list number `${i + 1}` is a non-empty run of decimal digits with no leading zero |
| `Text.NatToStringRoundTrip` | index.js:43 | reading the rendered list number back as decimal gives the number |
| `Text.JoinLines` | index.js:43 | the joined text starts with the first line, followed by a newline when there is a second |
| `Text.SplitLinesPrefix` | index.js:43 | splitting a newline-free line followed by more text glues the line onto the first piece |
| `Text.SplitJoinLines` | index.js:43 | splitting the newline-joined list lines on newlines gives the lines back when none holds a newline |
| `TimeWindow.TodayWindow` | index.js:23-24 | today's window starts at a local midnight, contains now, and both ends are inclusive, 24 hours minus 1 ms apart |
| `TimeWindow.TodayWindowIsLocalDay` | index.js:23-31 | an instant lies in the millisecond window (the bounds before `.format()`) exactly when it falls on the same local day as now |
| `TimeWindow.WeekWindow` | index.js:55-56 | this week's window starts at local 00:00 of a Monday, contains now, and both ends are inclusive, 7 days minus 1 ms apart |
| `TimeWindow.WeekWindowIsIsoWeek` | index.js:55-63 | an instant lies in the millisecond window (the bounds before `.format()`) exactly when it falls in the same local ISO week as now |
| `TimeWindow.TodayWithinWeek` | index.js:23-56 | today's window lies inside this week's window |
| `TimeWindow.ToWholeSecond` | index.js:23-24 | `.utc().format()` turns a bound into the largest whole second not after it |
| `TimeWindow.SentWindow` | index.js:23-24 | each bound the store receives is the window's bound rounded down to a whole second |
| `TimeWindow.SentWindowDropsLastSecond` | index.js:23-31 | with the formatted bounds, a window that ends on the last millisecond of a second loses exactly its last 999 ms |
| `TimeWindow.WindowsAlignedToSeconds` | index.js:23-24 | when the zone offset is whole seconds, both windows start on a whole second and end on the last millisecond of a second |
| `TimeWindow.LastMillisecondMissed` | index.js:23-31 | a record at 23:59:59.999 local time is in that day's window and no later day's, and one at Sunday 23:59:59.999 is in that week's window, but the bounds as sent leave out both |
| `Reply.NumberedLines` | index.js:43 | one line per record, in the given order, line i being `ItemLine(i, content)`, the template "i. content"; when no content holds a newline, no line holds one |
| `Reply.FormatList` | index.js:42-48 | the reply starts with the title; with no records the rest is the fixed "no records" sentence, otherwise the title is followed directly by the first numbered line, "1. content" of the first record |
| `Reply.FormatListEmpty` | index.js:42-48 | with no records the reply is the title followed by the fixed "no records" sentence |
| `Reply.FormatListLines` | index.js:42-48 | with n records the reply is the title followed by text that splits into exactly n lines, line i being "i. content_i" |
| `Reply.AckText` | index.js:101 | the acknowledgement is the fixed opening, the message and the fixed closing, and nothing more |
| `Reply.AckEchoes` | index.js:99-102 | the acknowledgement holds the message verbatim between the fixed opening and closing phrases |
| `Reply.AckInjective` | index.js:101 | different messages are acknowledged with different texts |
| `Messages.Select` | index.js:29-31 | the filter keeps no more rows than the table has, and every kept row belongs to the user and lies in the window |
| `Messages.SelectCounts` | index.js:29-31 | the filter keeps every row of the user inside the window as often as it occurs in the table, and drops every other row |
| `Messages.SelectMembers` | index.js:29-31 | a row is selected exactly when it is in the table, belongs to the user, and has `start <= created_at <= end` |
| `Messages.InsertByTime` | index.js:32 | inserting into an ascending list keeps it ascending and adds exactly the one row |
| `Messages.OrderByCreatedAt` | index.js:32 | the ordered result is ascending by `created_at` and is a permutation of the selected rows |
| `Messages.OrderByCreatedAtSorted` | index.js:32 | ordering rows that are already ascending leaves them as they are |
| `Messages.InsertLast` | index.js:32 | a row not earlier than every row of an ascending list is placed at its end |
| `Messages.MessageStore.Insert` | index.js:86-92 | a successful insert appends exactly the given row; a failed one leaves the table as it was |
| `Messages.MessageStore.Query` | index.js:26-32 | the query fails exactly when the store reports an error; otherwise it returns the user's rows inside the window, no other rows, as a permutation of the matching rows in ascending `created_at` order, and changes nothing |
| `Bot.Classify` | index.js:18-53 | a today query exactly when the today phrase occurs in the message; a week query exactly when the today phrase does not occur and the week phrase does; otherwise the trimmed message itself is to be stored |
| `Bot.TodayPhraseWins` | index.js:21-53 | a message containing both phrases is a today query |
| `Bot.OtherTextStored` | index.js:53-89 | a message containing neither phrase is stored unchanged |
| `Bot.BlankTextStoredEmpty` | index.js:12-21 | a text made only of blanks is stored as the empty text, because there is no empty-text guard |
| `Bot.PaddedTextStoredTrimmed` | index.js:12 | " hello\n" is stored as "hello" |
| `Bot.PhraseInsideText` | index.js:53 | a week phrase inside a longer sentence still makes a week query |
| `Bot.IsTextMessage` | index.js:8 | the handler goes on only for an event of type 'message' whose message is of type 'text' |
| `Bot.HistoryReply` | index.js:34-48 | a failed query is answered with the fixed failure text; a successful one with text starting with the period's title |
| `Bot.TodayQueryMissesLastMillisecond` | index.js:23-31 | the today query as the handler sends it returns nothing for a row written at 23:59:59.999 local time, though the row lies in the local day |
| `Bot.HistoryReplyOnError` | index.js:34-39 | a failed query is answered with the fixed failure text alone, not with the title and a list |
| `Bot.HistoryReplyEmpty` | index.js:42-48 | a query that found nothing is answered with the period's title and its fixed "no records" sentence |
| `Bot.HistoryReplyLines` | index.js:42-48 | a query that found n records is answered with the period's title and n lines, line i being "i. content" of the i-th record in the order returned |
| `Bot.HandleEvent` | index.js:1-106 | a non-text event gives no reply and leaves the table unchanged. A query intent leaves the table unchanged and replies with the formatted result of the query over the old table, filtered with the window's bounds rounded down to whole seconds as `.utc().format()` sends them. Any other text appends exactly one row (the sender, the trimmed text, now) unless the insert fails, and in both cases replies with the acknowledgement of the trimmed text. Every reply goes to the event's reply token |

## Left out

- Binding the rich menu (`linkRichMenu(userId, DEFAULT_RICH_MENU_ID)`, index.js:5) is left out. It is a network call, and the function and its menu id are defined outside index.js. It is awaited before the type check at index.js:8, so it runs for every event, the dropped ones included; if it rejected, the handler would stop before any query, insert or reply, which the model does not show.
- The logging (`console.log`, `console.error`) is left out.
- The `try`/`catch` around the acknowledgement send (index.js:98-105) is left out. It only handles a failed transport.
- `async`/`await`, and handling several events of one delivery concurrently, are left out.
- The store client and the reply transport are not modelled. Their outcomes are parameters (`queryFails`, `insertFails`), and the reply is a returned value.
- Events without a `source` object are left out. In index.js:2 reading `event.source.userId` throws when `source` is missing; when only `userId` is missing, the handler goes on with `undefined`. The model's events always carry a user id.
- The time zone database is not modelled. Local time is UTC plus a fixed offset, so daylight-saving changes are not captured.
- The ISO-8601 text of `created_at` is not modelled. Instants are epoch milliseconds, and the only formatting effect kept is `.format()` dropping milliseconds.
- `HandleEvent` takes one clock reading, `now`. The source calls `dayjs()` separately for the start and the end of each window (index.js:23-24, 55-56), and reads the clock again with `new Date()` for `created_at` (index.js:90), which keeps milliseconds. So a query made across local midnight can get the start of one day and the end of the next; the model does not capture that.
- `Messages.OrderByCreatedAt`: the store does not say how rows with equal `created_at` are ordered. The model keeps their table order.
- `Messages.MessageStore.Insert`: the model assumes a failed insert adds no row.
- `Reply.FormatListLines` is stated only for contents without a line break. A content that holds a newline produces more lines in the reply than there are records.
- `Bot.HistoryReplyLines` is stated only for contents without a line break, for the same reason.

## Findings

| source | as written | input that shows it | evidently intended | confidence | as-written member | corrected member |
|---|---|---|---|---|---|---|
| index.js:23-31 | `dayjs().endOf('day').utc().format()` renders the end of the day without milliseconds (23:59:59.000), so `lte` leaves out every record of the last 999 ms of the day | zone UTC+8, now = 1700000000000 (2023-11-15 06:13:20 local); record at 1700063999999 (23:59:59.999 local that day) | every record of the local day, up to 23:59:59.999, is listed | medium, not executed | `TimeWindow.LastMillisecondMissed` | `TimeWindow.TodayWindowIsLocalDay` |
| index.js:55-63 | `dayjs().endOf('isoWeek').utc().format()` drops the milliseconds of Sunday 23:59:59.999 in the same way | zone UTC+8, now = 1700000000000; record at 1700409599999 (Sunday 2023-11-19 23:59:59.999 local) | every record of the local ISO week, up to Sunday 23:59:59.999, is listed | medium, not executed | `TimeWindow.LastMillisecondMissed` | `TimeWindow.WeekWindowIsIsoWeek` |
