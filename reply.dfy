/** The texts the handler replies with: the numbered history list of a query,
    the fixed failure text, and the acknowledgement of a stored message. */
module Reply {
  import opened Text

  const TodayTitle: string := "📅 今日紀錄：\n"
  const WeekTitle: string := "🗓️ 本週紀錄：\n"
  const TodayEmpty: string := "你今天還沒有留下任何紀錄喔！"
  const WeekEmpty: string := "這週你還沒有留下任何紀錄喔！"
  const QueryFailed: string := "查詢失敗，請稍後再試～"
  const AckPrefix: string := "你說的是：「"
  const AckSuffix: string := "」\n這句話我已經記起來了喔！"

  /** One list line, `${i + 1}. ${content}` for the item at index `i`. */
  function ItemLine(number: nat, content: string): string
  {
    NatToString(number) + ". " + content
  }

  /** `data.map((msg, i) => ...)`: the numbered lines, counted from 1. */
  function NumberedLines(contents: seq<string>): (lines: seq<string>)
    ensures |lines| == |contents|
    ensures forall i :: 0 <= i < |contents| ==> lines[i] == ItemLine(i + 1, contents[i])
    ensures (forall k :: 0 <= k < |contents| ==> NoNewline(contents[k])) ==>
              forall k :: 0 <= k < |lines| ==> NoNewline(lines[k])
  {
    var lines := seq(|contents|, i requires 0 <= i < |contents| => ItemLine(i + 1, contents[i]));
    forall k | 0 <= k < |lines| && NoNewline(contents[k])
      ensures NoNewline(lines[k])
    {
      var digits := NatToString(k + 1);
      assert lines[k] == digits + (". " + contents[k]);
      forall j | 0 <= j < |lines[k]|
        ensures lines[k][j] != '\n'
      {
        if j < |digits| {
          assert IsDigit(digits[j]);
        } else if j >= |digits| + 2 {
          assert lines[k][j] == contents[k][j - |digits| - 2];
        }
      }
    }
    lines
  }

  /** The reply to a successful query: the title, then either the numbered
      lines joined by newlines or, when nothing was found, the fixed
      "no records" sentence. */
  function FormatList(title: string, emptyMsg: string, contents: seq<string>): (r: string)
    ensures |title| <= |r| && r[..|title|] == title
    ensures |contents| == 0 ==> r[|title|..] == emptyMsg
    ensures |contents| > 0 ==>
              && |title| + |ItemLine(1, contents[0])| <= |r|
              && r[|title|..|title| + |ItemLine(1, contents[0])|] == ItemLine(1, contents[0])
  {
    var r := title + (if |contents| == 0 then emptyMsg else JoinLines(NumberedLines(contents)));
    assert |contents| > 0 ==> r == title + JoinLines(NumberedLines(contents));
    r
  }

  /** With no records the reply is exactly the title and the fixed sentence. */
  lemma FormatListEmpty(title: string, emptyMsg: string)
    ensures FormatList(title, emptyMsg, []) == title + emptyMsg
  {
  }

  /** With n records none of which spans a line break, the text after the
      title splits into exactly n lines, line i reading "i. content", counted
      from 1 and in the order given. */
  lemma {:induction false} FormatListLines(title: string, emptyMsg: string, contents: seq<string>)
    requires |contents| > 0
    requires forall k :: 0 <= k < |contents| ==> NoNewline(contents[k])
    ensures |FormatList(title, emptyMsg, contents)| >= |title|
    ensures FormatList(title, emptyMsg, contents)[..|title|] == title
    ensures var lines := SplitLines(FormatList(title, emptyMsg, contents)[|title|..]);
            && |lines| == |contents|
            && forall i :: 0 <= i < |contents| ==> lines[i] == NatToString(i + 1) + ". " + contents[i]
  {
    var lines := NumberedLines(contents);
    var body := JoinLines(lines);
    var r := FormatList(title, emptyMsg, contents);
    assert r == title + body;
    assert r[|title|..] == body;
    SplitJoinLines(lines);
  }

  /** `你說的是：「${userMessage}」\n這句話我已經記起來了喔！` */
  function AckText(message: string): (r: string)
    ensures |r| == |AckPrefix| + |message| + |AckSuffix|
  {
    AckPrefix + message + AckSuffix
  }

  /** The acknowledgement quotes the message verbatim, between the fixed
      opening and closing phrases, so the message can be read back from it. */
  lemma AckEchoes(message: string)
    ensures AckText(message)[..|AckPrefix|] == AckPrefix
    ensures AckText(message)[|AckPrefix|..|AckPrefix| + |message|] == message
    ensures AckText(message)[|AckPrefix| + |message|..] == AckSuffix
  {
  }

  /** Different messages get different acknowledgements. */
  lemma AckInjective(m1: string, m2: string)
    requires AckText(m1) == AckText(m2)
    ensures m1 == m2
  {
    AckEchoes(m1);
    AckEchoes(m2);
  }
}
