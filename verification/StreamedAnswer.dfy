/** The in-progress value of the JSON `answer` field of a streamed reply. */
module StreamedAnswer {
  import opened Text

  const MARKER := "\"answer\""

  /** The text after the first occurrence of `needle`. */
  function After(raw: string, needle: string): Option<string> {
    match FindText(raw, 0, needle)
    case None => None
    case Some(start) => Some(raw[start + |needle|..])
  }

  /** The four escapes that are resolved; every other one shows nothing. */
  function Resolved(c: char): string {
    match c
    case 'n' => "\n"
    case 't' => "\t"
    case '"' => "\""
    case '\\' => "\\"
    case _ => ""
  }

  /** What is shown of a string body, up to its closing quote or the end of what has arrived. */
  function Shown(body: string, escaped: bool): string {
    if body == "" then ""
    else if escaped then Resolved(body[0]) + Shown(body[1..], false)
    else if body[0] == '\\' then Shown(body[1..], true)
    else if body[0] == '"' then ""
    else [body[0]] + Shown(body[1..], false)
  }

  function ShownValue(value: string): string {
    if value == "" || value[0] != '"' then "" else Shown(value[1..], false)
  }

  function PartialAnswer(raw: string): string {
    match After(raw, MARKER)
    case None => ""
    case Some(rest) =>
      match After(rest, ":")
      case None => ""
      case Some(value) => ShownValue(StripLeft(value))
  }

  /** What one round of the loop appends, and whether the next character is escaped. */
  function Round(ch: char, escaped: bool): (string, bool)
    requires escaped || ch != '"'
  {
    if escaped then (Resolved(ch), false)
    else if ch == '\\' then ("", true)
    else ([ch], false)
  }

  lemma ShownRound(body: string, i: nat, escaped: bool, out: string)
    requires i < |body| && (escaped || body[i] != '"')
    ensures out + Shown(body[i..], escaped)
         == out + Round(body[i], escaped).0 + Shown(body[i + 1..], Round(body[i], escaped).1)
  {
    var rest := body[i..];
    assert rest[0] == body[i] && rest[1..] == body[i + 1..];
    hide Resolved;
    var piece := Round(body[i], escaped).0;
    assert Shown(rest, escaped) == piece + Shown(body[i + 1..], Round(body[i], escaped).1);
  }

  method ShowBody(body: string) returns (out: string)
    ensures out == Shown(body, false)
  {
    var escaped := false;
    out := "";
    assert body[0..] == body;
    for i := 0 to |body|
      invariant out + Shown(body[i..], escaped) == Shown(body, false)
    {
      var ch := body[i];
      if !escaped && ch == '"' {
        assert body[i..][0] == ch;
        break;
      }
      ShownRound(body, i, escaped, out);
      hide Shown;
      if escaped {
        out := out + Resolved(ch);
        escaped := false;
        continue;
      }
      if ch == '\\' {
        escaped := true;
        assert out + "" == out;
        continue;
      }
      out := out + [ch];
    }
  }

  method PartialAnswerText(raw: string) returns (shown: string)
    ensures shown == PartialAnswer(raw)
  {
    hide FindText, StripLeft, Shown;
    var start := FindText(raw, 0, MARKER);
    if start.None? { return ""; }
    var rest := raw[start.value + |MARKER|..];
    var colon := FindText(rest, 0, ":");
    if colon.None? { return ""; }
    rest := StripLeft(rest[colon.value + 1..]);
    if rest == "" || rest[0] != '"' { return ""; }
    shown := ShowBody(rest[1..]);
  }

  // ------------------------------------------------------------------ monotone

  lemma AtExtended(raw: string, more: string, k: nat, needle: string)
    ensures At(raw, k, needle) ==> At(raw + more, k, needle)
    ensures At(raw + more, k, needle) && k + |needle| <= |raw| ==> At(raw, k, needle)
  {
    if k + |needle| <= |raw| { assert (raw + more)[k..k + |needle|] == raw[k..k + |needle|]; }
  }

  lemma {:induction false} FindExtended(raw: string, more: string, i: nat, needle: string)
    requires i <= |raw| && FindText(raw, i, needle).Some?
    ensures FindText(raw + more, i, needle) == FindText(raw, i, needle)
    decreases |raw| - i
  {
    AtExtended(raw, more, i, needle);
    if !At(raw, i, needle) {
      if i == |raw| { assert false; }
      FindExtended(raw, more, i + 1, needle);
      NeedleFits(raw, i, needle);
    }
  }

  lemma NeedleFits(raw: string, i: nat, needle: string)
    requires i < |raw| && FindText(raw, i + 1, needle).Some?
    ensures i + |needle| <= |raw|
  {
  }

  lemma AfterExtended(raw: string, more: string, needle: string)
    requires After(raw, needle).Some?
    ensures After(raw + more, needle) == Some(After(raw, needle).value + more)
  {
    FindExtended(raw, more, 0, needle);
    var start := FindText(raw, 0, needle).value;
    assert (raw + more)[start + |needle|..] == raw[start + |needle|..] + more;
  }

  lemma {:induction false} StripLeftExtended(s: string, more: string)
    requires StripLeft(s) != ""
    ensures StripLeft(s + more) == StripLeft(s) + more
  {
    assert (s + more)[0] == s[0];
    if IsSpace(s[0]) {
      assert (s + more)[1..] == s[1..] + more;
      StripLeftExtended(s[1..], more);
    }
  }

  lemma {:induction false} ShownExtended(body: string, more: string, escaped: bool)
    ensures Shown(body, escaped) <= Shown(body + more, escaped)
    decreases |body|
  {
    if body != "" {
      assert (body + more)[0] == body[0] && (body + more)[1..] == body[1..] + more;
      ShownExtended(body[1..], more, !escaped && body[0] == '\\');
    }
  }

  lemma ShownValueExtended(v: string, more: string)
    requires v != ""
    ensures ShownValue(v) <= ShownValue(v + more)
  {
    hide Shown;
    var longer := v + more;
    assert longer[0] == v[0] && longer[1..] == v[1..] + more;
    ShownExtended(v[1..], more, false);
  }

  lemma ValueMonotone(value: string, more: string)
    ensures ShownValue(StripLeft(value)) <= ShownValue(StripLeft(value + more))
  {
    assert ShownValue("") == "";
    hide StripLeft, ShownValue;
    if StripLeft(value) != "" {
      StripLeftExtended(value, more);
      ShownValueExtended(StripLeft(value), more);
    }
  }

  /** What has been shown stays: more text only ever extends it. */
  lemma Monotone(raw: string, more: string)
    ensures PartialAnswer(raw) <= PartialAnswer(raw + more)
  {
    hide After, ShownValue, StripLeft;
    if After(raw, MARKER).Some? {
      AfterExtended(raw, more, MARKER);
      var rest := After(raw, MARKER).value;
      if After(rest, ":").Some? {
        AfterExtended(rest, more, ":");
        ValueMonotone(After(rest, ":").value, more);
      }
    }
  }

  // --------------------------------------------------------- the answer itself

  function EscapeOne(c: char): string {
    if c == '\n' then "\\n" else
    if c == '\t' then "\\t" else
    if c == '"' then "\\\"" else
    if c == '\\' then "\\\\" else [c]
  }

  function EscapeAnswer(s: string): string {
    if s == "" then "" else EscapeOne(s[0]) + EscapeAnswer(s[1..])
  }

  ghost predicate Blank(s: string) {
    forall i :: 0 <= i < |s| ==> IsSpace(s[i])
  }

  /** A reply with a member "answer", up to the closing quote of its value, a string with this body. */
  ghost function ReplyWith(head: string, gap: string, pad: string, body: string): string {
    head + (MARKER + (gap + (":" + (pad + ("\"" + (body + "\""))))))
  }

  ghost function ReplyText(head: string, gap: string, pad: string, answer: string): string {
    ReplyWith(head, gap, pad, EscapeAnswer(answer))
  }

  lemma {:induction false} ShownIsAnswer(answer: string, tail: string)
    ensures Shown(EscapeAnswer(answer) + "\"" + tail, false) == answer
  {
    var body := EscapeAnswer(answer) + "\"" + tail;
    if answer != "" {
      var e, rest := EscapeOne(answer[0]), EscapeAnswer(answer[1..]) + "\"" + tail;
      ShownIsAnswer(answer[1..], tail);
      assert body == e + rest;
      if |e| == 2 {
        assert body[0] == e[0] && body[1..][0] == e[1] && body[1..][1..] == rest;
      } else {
        assert body[0] == e[0] && body[1..] == rest;
      }
      assert [answer[0]] + answer[1..] == answer;
    }
  }

  /** The marker starts nowhere in `head`, not even completed by what follows. */
  ghost predicate Clear(head: string, rest: string) {
    forall k | 0 <= k < |head| :: !At(head + rest, k, MARKER)
  }

  lemma NoQuoteIsClear(head: string, rest: string)
    requires '"' !in head
    ensures Clear(head, rest)
  {
    forall k | 0 <= k < |head| ensures !At(head + rest, k, MARKER) {
      assert head[k] in head && (head + rest)[k] == head[k];
      hide At;
      if At(head + rest, k, MARKER) { AtIndex(head + rest, k, MARKER, 0); }
    }
  }

  /** What stands in front of the first marker is not looked at. */
  lemma AfterClear(head: string, rest: string)
    requires Clear(head, rest)
    ensures After(head + rest, MARKER) == After(rest, MARKER)
  {
    FindsAfterClear(head, rest, 0);
    var found := FindText(rest, 0, MARKER);
    if found.Some? {
      var n := found.value + |MARKER|;
      assert (head + rest)[|head| + n..] == rest[n..];
    }
  }

  lemma {:induction false} FindsAfterClear(head: string, rest: string, i: nat)
    requires i <= |head| && Clear(head, rest)
    ensures FindText(head + rest, i, MARKER) ==
      match FindText(rest, 0, MARKER)
      case None => None
      case Some(start) => Some(|head| + start)
    decreases |head| - i
  {
    if i < |head| {
      FindsAfterClear(head, rest, i + 1);
    } else {
      FindsShifted(head, rest, 0);
    }
  }

  lemma AtShifted(head: string, rest: string, i: nat, needle: string)
    ensures At(head + rest, |head| + i, needle) <==> At(rest, i, needle)
  {
    if i + |needle| <= |rest| {
      assert (head + rest)[|head| + i..|head| + i + |needle|] == rest[i..i + |needle|];
    }
  }

  lemma {:induction false} FindsShifted(head: string, rest: string, i: nat)
    requires i <= |rest|
    ensures FindText(head + rest, |head| + i, MARKER) ==
      match FindText(rest, i, MARKER)
      case None => None
      case Some(start) => Some(|head| + start)
    decreases |rest| - i
  {
    AtShifted(head, rest, i, MARKER);
    hide At;
    if i < |rest| { FindsShifted(head, rest, i + 1); }
  }

  lemma ClearExtended(head: string, rest: string)
    requires Clear(head, MARKER)
    ensures Clear(head, MARKER + rest)
  {
    forall k | 0 <= k < |head| ensures !At(head + (MARKER + rest), k, MARKER) {
      assert head + (MARKER + rest) == (head + MARKER) + rest;
      AtExtended(head + MARKER, rest, k, MARKER);
    }
  }

  /** The first occurrence of a needle is found when its first character occurs nowhere before. */
  lemma {:induction false} AfterHead(head: string, needle: string, rest: string)
    requires needle != "" && needle[0] !in head
    ensures After(head + (needle + rest), needle) == Some(rest)
  {
    var raw := head + (needle + rest);
    FindsAfterHead(raw, 0, |head|, needle) by {
      assert raw[|head|..|head| + |needle|] == needle;
      forall k | 0 <= k < |head| ensures raw[k] != needle[0] { assert head[k] in head; }
    }
    assert raw[|head| + |needle|..] == rest;
  }

  lemma {:induction false} FindsAfterHead(raw: string, i: nat, start: nat, needle: string)
    requires i <= start && At(raw, start, needle) && needle != ""
    requires forall k :: i <= k < start ==> raw[k] != needle[0]
    ensures FindText(raw, i, needle) == Some(start)
    decreases start - i
  {
    if i < start {
      if At(raw, i, needle) { AtIndex(raw, i, needle, 0); }
      FindsAfterHead(raw, i + 1, start, needle);
    }
  }

  lemma {:induction false} StripsPad(pad: string, rest: string)
    requires Blank(pad) && rest != "" && !IsSpace(rest[0])
    ensures StripLeft(pad + rest) == rest
  {
    if pad == "" {
      assert pad + rest == rest;
    } else {
      assert (pad + rest)[0] == pad[0] && (pad + rest)[1..] == pad[1..] + rest;
      StripsPad(pad[1..], rest);
    }
  }

  lemma ColonBehind(gap: string, value: string)
    requires Blank(gap)
    ensures After(gap + (":" + value), ":") == Some(value)
  {
    forall i | 0 <= i < |gap| ensures gap[i] != ':' { assert IsSpace(gap[i]); }
    AfterHead(gap, ":", value);
  }

  /** What is shown is the value behind the first marker. */
  lemma MarkedShows(head: string, gap: string, value: string)
    requires Clear(head, MARKER) && Blank(gap)
    ensures PartialAnswer(head + (MARKER + (gap + (":" + value)))) == ShownValue(StripLeft(value))
  {
    hide After, ShownValue, StripLeft, Clear, Blank;
    var rest := gap + (":" + value);
    ClearExtended(head, rest);
    AfterClear(head, MARKER + rest);
    AfterHead("", MARKER, rest);
    assert "" + (MARKER + rest) == MARKER + rest;
    ColonBehind(gap, value);
  }

  /** What is shown of such a reply is what is shown of the body. */
  lemma ReplyShowsBody(head: string, gap: string, pad: string, body: string, tail: string)
    requires Clear(head, MARKER) && Blank(gap) && Blank(pad)
    ensures PartialAnswer(ReplyWith(head, gap, pad, body) + tail) == Shown(body + "\"" + tail, false)
  {
    hide PartialAnswer, Clear, Shown, StripLeft;
    var value := "\"" + (body + "\"" + tail);
    assert ReplyWith(head, gap, pad, body) + tail == head + (MARKER + (gap + (":" + (pad + value))));
    MarkedShows(head, gap, pad + value);
    StripsPad(pad, value);
    assert value[1..] == body + "\"" + tail;
  }

  /** Once the string is complete the shown text is the answer, whatever follows. */
  lemma CompleteIsAnswer(head: string, gap: string, pad: string, answer: string, tail: string)
    requires Clear(head, MARKER) && Blank(gap) && Blank(pad)
    ensures PartialAnswer(ReplyText(head, gap, pad, answer) + tail) == answer
  {
    ReplyShowsBody(head, gap, pad, EscapeAnswer(answer), tail);
    ShownIsAnswer(answer, tail);
  }

  /** At every cut of such a reply the shown text is a prefix of the answer, and from the closing quote on it
      is the whole answer. */
  lemma NeverContradicts(head: string, gap: string, pad: string, answer: string, tail: string, n: nat)
    requires Clear(head, MARKER) && Blank(gap) && Blank(pad)
    requires n <= |ReplyText(head, gap, pad, answer) + tail|
    ensures var raw, done := ReplyText(head, gap, pad, answer) + tail, |ReplyText(head, gap, pad, answer)|;
      PartialAnswer(raw[..n]) <= answer && (n >= done ==> PartialAnswer(raw[..n]) == answer)
  {
    var reply := ReplyText(head, gap, pad, answer);
    var raw := reply + tail;
    CompleteIsAnswer(head, gap, pad, answer, tail);
    assert raw == raw[..n] + raw[n..];
    Monotone(raw[..n], raw[n..]);
    if n >= |reply| {
      assert raw[..n] == reply + tail[..n - |reply|];
      CompleteIsAnswer(head, gap, pad, answer, tail[..n - |reply|]);
    }
  }

  /** Nothing is shown before the name has arrived, nor of a value that is no string, nor before its opening quote. */
  lemma NoStringShowsNothing(head: string, gap: string, pad: string, value: string)
    requires Clear(head, MARKER) && Blank(gap) && Blank(pad)
    requires value == "" || (value[0] != '"' && !IsSpace(value[0]))
    ensures PartialAnswer(head + (MARKER + (gap + (":" + (pad + value))))) == ""
    ensures FindText(head, 0, MARKER) == None ==> PartialAnswer(head) == ""
  {
    hide PartialAnswer, Clear;
    MarkedShows(head, gap, pad + value);
    if value == "" {
      assert pad + value == pad;
      BlankStrips(pad);
    } else {
      StripsPad(pad, value);
    }
    NoMarkerShowsNothing(head);
  }

  lemma NoMarkerShowsNothing(head: string)
    ensures FindText(head, 0, MARKER) == None ==> PartialAnswer(head) == ""
  {
  }

  lemma {:induction false} BlankStrips(pad: string)
    requires Blank(pad)
    ensures StripLeft(pad) == ""
  {
    if pad != "" { BlankStrips(pad[1..]); }
  }
}
