/** String helpers the handler relies on: JavaScript's `String.prototype.trim`,
    `String.prototype.includes`, decimal rendering of a line number, and
    joining/splitting on the newline character. */
module Text {

  /** The characters `trim` removes: ECMAScript WhiteSpace (tab, vertical tab,
      form feed, space, no-break space, byte order mark and every other
      space separator) and LineTerminator (LF, CR, LS, PS). */
  predicate IsTrimmable(c: char)
  {
    || c == '\t' || c == '\n' || c == '\U{B}' || c == '\U{C}' || c == '\r' || c == ' '
    || c == '\U{A0}' || c == '\U{1680}' || ('\U{2000}' <= c <= '\U{200A}')
    || c == '\U{2028}' || c == '\U{2029}' || c == '\U{202F}' || c == '\U{205F}'
    || c == '\U{3000}' || c == '\U{FEFF}'
  }

  predicate AllTrimmable(s: string)
  {
    forall k :: 0 <= k < |s| ==> IsTrimmable(s[k])
  }

  /** Drops the trimmable characters at the front. */
  function TrimStart(s: string): (r: string)
    ensures |r| <= |s| && r == s[|s| - |r|..]
    ensures AllTrimmable(s[..|s| - |r|])
    ensures |r| > 0 ==> !IsTrimmable(r[0])
  {
    if |s| > 0 && IsTrimmable(s[0]) then TrimStart(s[1..]) else s
  }

  /** Drops the trimmable characters at the back. */
  function TrimEnd(s: string): (r: string)
    ensures |r| <= |s| && r == s[..|r|]
    ensures AllTrimmable(s[|r|..])
    ensures |r| > 0 ==> !IsTrimmable(r[|r| - 1])
  {
    if |s| > 0 && IsTrimmable(s[|s| - 1]) then TrimEnd(s[..|s| - 1]) else s
  }

  /** `r` is `s` with the trimmable run `s[..i]` cut off the front and a
      trimmable run cut off the back. */
  ghost predicate TrimmedAt(s: string, r: string, i: nat)
  {
    && i + |r| <= |s|
    && r == s[i..i + |r|]
    && AllTrimmable(s[..i])
    && AllTrimmable(s[i + |r|..])
  }

  /** `String.prototype.trim`: the longest infix of `s` whose first and last
      characters are not trimmable, once every trimmable character around it
      is gone. */
  function Trim(s: string): (r: string)
    ensures exists i: nat :: TrimmedAt(s, r, i)
    ensures |r| > 0 ==> !IsTrimmable(r[0]) && !IsTrimmable(r[|r| - 1])
  {
    var front := TrimStart(s);
    var r := TrimEnd(front);
    var i := |s| - |front|;
    assert s[i..i + |r|] == r;
    assert s[i + |r|..] == front[|r|..];
    assert AllTrimmable(s[..i]) && AllTrimmable(front[|r|..]);
    assert TrimmedAt(s, r, i);
    r
  }

  /** Trimming a trimmed text changes nothing. */
  lemma TrimIdempotent(s: string)
    ensures Trim(Trim(s)) == Trim(s)
  {
    var r := Trim(s);
    if |r| > 0 {
      assert TrimStart(r) == r;
      assert TrimEnd(r) == r;
    }
  }

  /** A text made only of trimmable characters trims to the empty text. */
  lemma TrimAllTrimmable(s: string)
    requires AllTrimmable(s)
    ensures Trim(s) == ""
  {
  }

  // ---------------------------------------------------------------- includes

  /** `kw` occurs in `s` starting at index `i`. */
  ghost predicate OccursAt(s: string, kw: string, i: nat)
  {
    i + |kw| <= |s| && s[i..i + |kw|] == kw
  }

  /** `String.prototype.includes`, by scanning each start position. */
  function Contains(s: string, kw: string): (b: bool)
    ensures |kw| == 0 ==> b
    ensures b ==> |kw| <= |s|
    decreases |s|
  {
    |kw| <= |s| && (s[..|kw|] == kw || Contains(s[1..], kw))
  }

  /** `Contains` holds exactly when `kw` occurs somewhere in `s`. */
  lemma {:induction false} ContainsIff(s: string, kw: string)
    ensures Contains(s, kw) <==> exists i: nat :: OccursAt(s, kw, i)
    decreases |s|
  {
    if Contains(s, kw) {
      if s[..|kw|] == kw {
        assert OccursAt(s, kw, 0);
      } else {
        ContainsIff(s[1..], kw);
        var i: nat :| OccursAt(s[1..], kw, i);
        assert s[i + 1..i + 1 + |kw|] == s[1..][i..i + |kw|];
        assert OccursAt(s, kw, i + 1);
      }
    }
    if exists i: nat :: OccursAt(s, kw, i) {
      var i: nat :| OccursAt(s, kw, i);
      if i > 0 {
        assert s[1..][i - 1..i - 1 + |kw|] == s[i..i + |kw|];
        assert OccursAt(s[1..], kw, i - 1);
        ContainsIff(s[1..], kw);
      } else {
        assert s[..|kw|] == s[0..|kw|];
      }
    }
  }

  /** `keywords.some(kw => s.includes(kw))`. */
  function ContainsAny(s: string, keywords: seq<string>): (b: bool)
    ensures b <==> exists k :: 0 <= k < |keywords| && Contains(s, keywords[k])
  {
    if |keywords| == 0 then false
    else Contains(s, keywords[0]) || ContainsAny(s, keywords[1..])
  }

  // ------------------------------------------------------------ decimal text

  predicate IsDigit(c: char)
  {
    '0' <= c <= '9'
  }

  function DigitChar(d: nat): (c: char)
    requires d < 10
    ensures IsDigit(c) && (c as int) - ('0' as int) == d
  {
    "0123456789"[d]
  }

  /** The decimal rendering JavaScript gives a non-negative integer in a
      template literal: no sign, no leading zero. */
  function NatToString(n: nat): (s: string)
    ensures |s| >= 1 && forall k :: 0 <= k < |s| ==> IsDigit(s[k])
    ensures |s| > 1 ==> s[0] != '0'
    decreases n
  {
    if n < 10 then [DigitChar(n)] else NatToString(n / 10) + [DigitChar(n % 10)]
  }

  /** The value a string of decimal digits denotes. */
  function DigitsValue(s: string): int
    requires forall k :: 0 <= k < |s| ==> IsDigit(s[k])
  {
    if |s| == 0 then 0
    else 10 * DigitsValue(s[..|s| - 1]) + ((s[|s| - 1] as int) - ('0' as int))
  }

  /** Reading the rendering back gives the number. */
  lemma {:induction false} NatToStringRoundTrip(n: nat)
    ensures DigitsValue(NatToString(n)) == n
    decreases n
  {
    var s := NatToString(n);
    if n >= 10 {
      NatToStringRoundTrip(n / 10);
      assert s[..|s| - 1] == NatToString(n / 10);
    }
  }

  // ------------------------------------------------------ newline join/split

  /** `lines.join('\n')`. */
  function JoinLines(lines: seq<string>): (r: string)
    ensures |lines| > 0 ==> |lines[0]| <= |r| && r[..|lines[0]|] == lines[0]
    ensures |lines| > 1 ==> |lines[0]| < |r| && r[|lines[0]|] == '\n'
  {
    if |lines| == 0 then ""
    else if |lines| == 1 then lines[0]
    else lines[0] + "\n" + JoinLines(lines[1..])
  }

  /** `s.split('\n')`: the pieces between newlines, always at least one. */
  function SplitLines(s: string): (pieces: seq<string>)
    ensures |pieces| >= 1
    decreases |s|
  {
    if |s| == 0 then [""]
    else if s[0] == '\n' then [""] + SplitLines(s[1..])
    else
      var rest := SplitLines(s[1..]);
      [[s[0]] + rest[0]] + rest[1..]
  }

  predicate NoNewline(s: string)
  {
    forall k :: 0 <= k < |s| ==> s[k] != '\n'
  }

  /** A newline-free prefix glues onto the first piece of what follows. */
  lemma {:induction false} SplitLinesPrefix(line: string, t: string)
    requires NoNewline(line)
    ensures SplitLines(line + t) == [line + SplitLines(t)[0]] + SplitLines(t)[1..]
    decreases |line|
  {
    if |line| > 0 {
      assert (line + t)[1..] == line[1..] + t;
      SplitLinesPrefix(line[1..], t);
      assert [line[0]] + (line[1..] + SplitLines(t)[0]) == line + SplitLines(t)[0];
    } else {
      var pieces := SplitLines(t);
      assert line + t == t && line + pieces[0] == pieces[0];
      assert pieces == [pieces[0]] + pieces[1..];
    }
  }

  /** Splitting newline-free lines joined by newlines gives the lines back. */
  lemma {:induction false} SplitJoinLines(lines: seq<string>)
    requires |lines| >= 1
    requires forall k :: 0 <= k < |lines| ==> NoNewline(lines[k])
    ensures SplitLines(JoinLines(lines)) == lines
    decreases |lines|
  {
    if |lines| == 1 {
      SplitLinesPrefix(lines[0], "");
      assert lines[0] + "" == lines[0];
    } else {
      var tail := JoinLines(lines[1..]);
      SplitJoinLines(lines[1..]);
      assert JoinLines(lines) == lines[0] + ("\n" + tail);
      SplitLinesPrefix(lines[0], "\n" + tail);
      assert ("\n" + tail)[1..] == tail;
      assert SplitLines("\n" + tail) == [""] + lines[1..];
      assert lines[0] + "" == lines[0];
    }
  }
}
