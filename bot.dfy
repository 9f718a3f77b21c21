/** The webhook's event handler, `handleEvent` in index.js: it drops every
    event that is not a text message, trims the text, answers the two history
    queries from the `messages` table, and otherwise stores the text and
    acknowledges it. */
module Bot {
  import opened Text
  import opened TimeWindow
  import opened Messages
  import opened Reply

  datatype Option<T> = None | Some(value: T)

  /** The literal phrases that ask for today's and this week's records. */
  const TodayPhrase: string := "查詢今日紀錄"
  const WeekPhrase: string := "查詢本週紀錄"

  /** `event.message`: a message of type 'text' carries its text; a message
      of any other type (sticker, image, ...) carries nothing the handler
      reads. */
  datatype Message = TextMessage(text: string) | OtherMessage

  /** An inbound event: one of type 'message', or one of any other type
      (follow, postback, ...). Both carry the sender's `source.userId`. */
  datatype Event =
    | MessageEvent(userId: string, replyToken: string, message: Message)
    | OtherEvent(userId: string, replyToken: string)

  /** `event.type === 'message' && event.message.type === 'text'` */
  predicate IsTextMessage(ev: Event)
  {
    ev.MessageEvent? && ev.message.TextMessage?
  }

  /** What a text message asks for. */
  datatype Intent = QueryToday | QueryWeek | Store(text: string)

  /** The two history periods. */
  datatype Period = Today | Week

  /** The decision of the handler on the trimmed text: the today phrase is
      looked for first, then the week phrase, anywhere in the text; any other
      text, the empty text included, is to be stored as it is. */
  function Classify(message: string): (intent: Intent)
    ensures intent == QueryToday <==> exists i: nat :: OccursAt(message, TodayPhrase, i)
    ensures intent == QueryWeek <==>
              && !(exists i: nat :: OccursAt(message, TodayPhrase, i))
              && exists i: nat :: OccursAt(message, WeekPhrase, i)
    ensures intent.Store? ==> intent.text == message
  {
    ContainsIff(message, TodayPhrase);
    ContainsIff(message, WeekPhrase);
    assert [TodayPhrase][0] == TodayPhrase && [WeekPhrase][0] == WeekPhrase;
    if ContainsAny(message, [TodayPhrase]) then QueryToday
    else if ContainsAny(message, [WeekPhrase]) then QueryWeek
    else Store(message)
  }

  /** A text holding both phrases is a today query: the week phrase is never
      looked at. */
  lemma TodayPhraseWins(message: string, i: nat, j: nat)
    requires OccursAt(message, TodayPhrase, i) && OccursAt(message, WeekPhrase, j)
    ensures Classify(message) == QueryToday
  {
  }

  /** A text holding neither phrase is stored as it is. */
  lemma OtherTextStored(message: string)
    requires forall i: nat :: !OccursAt(message, TodayPhrase, i) && !OccursAt(message, WeekPhrase, i)
    ensures Classify(message) == Store(message)
  {
  }

  /** There is no guard against empty text: a text of blanks is stored as
      the empty text. */
  lemma BlankTextStoredEmpty(text: string)
    requires AllTrimmable(text)
    ensures Classify(Trim(text)) == Store("")
  {
    TrimAllTrimmable(text);
    assert !OccursAt("", TodayPhrase, 0);
  }

  /** Surrounding blanks are trimmed before the decision: " hello\n" is
      stored as "hello". */
  lemma PaddedTextStoredTrimmed()
    ensures Classify(Trim(" hello\n")) == Store("hello")
  {
    TrimHello();
    assert !Contains("hello", TodayPhrase) && !Contains("hello", WeekPhrase);
    assert !ContainsAny("hello", [TodayPhrase]) && !ContainsAny("hello", [WeekPhrase]);
  }

  lemma TrimHello()
    ensures Trim(" hello\n") == "hello"
  {
    assert " hello\n"[1..] == "hello\n" && !IsTrimmable('h');
    assert TrimStart(" hello\n") == "hello\n";
    assert "hello\n"[..5] == "hello" && !IsTrimmable('o');
    assert TrimEnd("hello\n") == "hello";
  }

  /** A phrase inside a longer text still counts: asking "請幫我查詢本週紀錄"
      ("please look up this week's records for me") is a week query. */
  lemma PhraseInsideText()
    ensures Classify("請幫我查詢本週紀錄") == QueryWeek
  {
    var m := "請幫我查詢本週紀錄";
    assert OccursAt(m, WeekPhrase, 3);
    forall i: nat
      ensures !OccursAt(m, TodayPhrase, i)
    {
      if i + 6 <= 9 {
        assert m[i + 2] != TodayPhrase[2];
      }
    }
  }

  function Title(period: Period): string
  {
    if period == Today then TodayTitle else WeekTitle
  }

  function EmptyMessage(period: Period): string
  {
    if period == Today then TodayEmpty else WeekEmpty
  }

  /** `data.map(msg => msg.content)`: the contents, in the rows' order. */
  function Contents(rows: seq<Row>): seq<string>
  {
    seq(|rows|, i requires 0 <= i < |rows| => rows[i].content)
  }

  /** The reply text of a history query, given what the query returned. */
  function HistoryReply(period: Period, result: QueryResult): (text: string)
    ensures result.QueryError? ==> text == QueryFailed
    ensures result.QueryOk? ==> |Title(period)| <= |text| && text[..|Title(period)|] == Title(period)
  {
    match result
    case QueryError => QueryFailed
    case QueryOk(rows) => FormatList(Title(period), EmptyMessage(period), Contents(rows))
  }

  /** A failed query is answered with the fixed failure text alone. */
  lemma HistoryReplyOnError(period: Period)
    ensures HistoryReply(period, QueryError) == QueryFailed
    ensures HistoryReply(period, QueryError) != Title(period) + EmptyMessage(period)
  {
    assert QueryFailed[0] != Title(period)[0];
  }

  /** A query that found nothing is answered with the title and the fixed
      "no records" sentence of its period. */
  lemma HistoryReplyEmpty(period: Period)
    ensures HistoryReply(period, QueryOk([])) == Title(period) + EmptyMessage(period)
  {
  }

  /** A query that found n rows, none of whose contents spans a line break,
      is answered with the title followed by n lines; line i reads
      "i. content" of the i-th row, counted from 1, in the order returned. */
  lemma HistoryReplyLines(period: Period, rows: seq<Row>)
    requires |rows| > 0
    requires forall k :: 0 <= k < |rows| ==> NoNewline(rows[k].content)
    ensures var text := HistoryReply(period, QueryOk(rows));
            && |Title(period)| <= |text|
            && text[..|Title(period)|] == Title(period)
            && var lines := SplitLines(text[|Title(period)|..]);
               && |lines| == |rows|
               && forall i :: 0 <= i < |rows| ==> lines[i] == NatToString(i + 1) + ". " + rows[i].content
  {
    FormatListLines(Title(period), EmptyMessage(period), Contents(rows));
  }

  /** What the handler's today query returns for a sender whose only row was
      written at 23:59:59.999 local time (UTC+8): the whole-second bounds it
      sends leave the row out, although the row lies in that local day. */
  lemma TodayQueryMissesLastMillisecond(userId: string, content: string)
    ensures var offset, now := 8 * 3_600_000, 1_700_000_000_000;
            var row := Row(userId, content, 1_700_063_999_999);
            && Select([row], userId, SentWindow(TodayWindow(now, offset))) == []
            && Select([row], userId, TodayWindow(now, offset)) == [row]
  {
    LastMillisecondMissed();
    var row := Row(userId, content, 1_700_063_999_999);
    assert [row][..0] == [];
  }

  /** The reply to send: the reply token of the event and a text. */
  datatype Outgoing = Outgoing(replyToken: string, text: string)

  /** `handleEvent`. `now` is the clock reading the handler takes, both for
      the query windows and for the new row's `created_at`. The queries filter
      with the window bounds as `.utc().format()` sends them, to the whole
      second (`SentWindow`). `offset` is the
      server's zone offset; `queryFails` and `insertFails` say whether the
      store reports an error on the call. The returned value is the reply
      sent through `replyMessage`, if any. */
  method HandleEvent(store: MessageStore, ev: Event, now: int, offset: int, queryFails: bool, insertFails: bool)
    returns (reply: Option<Outgoing>)
    modifies store
    ensures !IsTextMessage(ev) ==> reply == None && store.rows == old(store.rows)
    ensures IsTextMessage(ev) ==> reply.Some? && reply.value.replyToken == ev.replyToken
    ensures IsTextMessage(ev) && Classify(Trim(ev.message.text)) == QueryToday ==>
              && store.rows == old(store.rows)
              && reply.value.text == HistoryReply(Today, if queryFails then QueryError else
                   QueryOk(OrderByCreatedAt(Select(old(store.rows), ev.userId, SentWindow(TodayWindow(now, offset))))))
    ensures IsTextMessage(ev) && Classify(Trim(ev.message.text)) == QueryWeek ==>
              && store.rows == old(store.rows)
              && reply.value.text == HistoryReply(Week, if queryFails then QueryError else
                   QueryOk(OrderByCreatedAt(Select(old(store.rows), ev.userId, SentWindow(WeekWindow(now, offset))))))
    ensures IsTextMessage(ev) && Classify(Trim(ev.message.text)).Store? ==>
              && store.rows == (if insertFails then old(store.rows) else old(store.rows) + [Row(ev.userId, Trim(ev.message.text), now)])
              && reply.value.text == AckText(Trim(ev.message.text))
  {
    if !IsTextMessage(ev) {
      return None;
    }
    var message := Trim(ev.message.text);
    match Classify(message)
    case QueryToday =>
      var result := store.Query(ev.userId, SentWindow(TodayWindow(now, offset)), queryFails);
      reply := Some(Outgoing(ev.replyToken, HistoryReply(Today, result)));
    case QueryWeek =>
      var result := store.Query(ev.userId, SentWindow(WeekWindow(now, offset)), queryFails);
      reply := Some(Outgoing(ev.replyToken, HistoryReply(Week, result)));
    case Store(_) =>
      var _ := store.Insert(Row(ev.userId, message, now), insertFails);
      reply := Some(Outgoing(ev.replyToken, AckText(message)));
  }
}
