/** Which member of a streamed JSON object is displayed as its answer. */
module StreamedFields {
  import opened Text
  import opened StreamedAnswer

  /** One member whose value is a text, with what is written before its name and around its colon. */
  datatype Field = Field(before: string, name: string, gap: string, pad: string, value: string)

  ghost predicate Proper(f: Field) {
    && (forall c <- f.before :: IsSpace(c) || c == '{' || c == ',')
    && ':' !in f.name && Blank(f.gap) && Blank(f.pad)
  }

  /** What is written after the last member. */
  ghost predicate Closing(tail: string) {
    '"' !in tail && ':' !in tail && (tail == "" || tail[0] != 'a')
  }

  function Quote(s: string): string {
    "\"" + (EscapeAnswer(s) + "\"")
  }

  function FieldsText(fields: seq<Field>, tail: string): string {
    if fields == [] then tail else
      var f := fields[0];
      f.before + (Quote(f.name) + (f.gap + (":" + (f.pad + (Quote(f.value) + FieldsText(fields[1..], tail))))))
  }

  /** The quoted text is the marker or ends in it. */
  predicate EndsInMarker(s: string) {
    s == "answer" || EndsInQuote(s)
  }

  predicate EndsInQuote(s: string) {
    |s| >= 7 && s[|s| - 7..] == "\"answer"
  }

  /** The member that is displayed: of the first name that ends in the marker, or behind the first value that does,
      whichever comes first. */
  function Displayed(fields: seq<Field>): nat {
    if fields == [] || EndsInMarker(fields[0].name) then 0
    else if EndsInMarker(fields[0].value) then 1
    else 1 + Displayed(fields[1..])
  }

  // ----------------------------------------------- the marker in written texts

  lemma {:induction false} EscapeAppend(a: string, b: string)
    ensures EscapeAnswer(a + b) == EscapeAnswer(a) + EscapeAnswer(b)
  {
    if a == "" {
      assert a + b == b;
    } else {
      assert (a + b)[1..] == a[1..] + b;
      EscapeAppend(a[1..], b);
    }
  }

  lemma {:induction false} EscapeNoColon(s: string)
    requires ':' !in s
    ensures ':' !in EscapeAnswer(s)
  {
    if s != "" {
      assert s[0] in s && forall c <- s[1..] :: c in s;
      EscapeNoColon(s[1..]);
      assert ':' !in EscapeOne(s[0]);
      hide EscapeOne;
    }
  }

  lemma EscapeAnswerWord()
    ensures EscapeAnswer("answer") == "answer" && EscapeAnswer("\"answer") == "\\\"answer"
  {
    assert EscapeAnswer("answer") == EscapeOne('a') + (EscapeOne('n') + EscapeAnswer("swer")) by {
      assert "answer"[1..] == "nswer" && "nswer"[1..] == "swer";
    }
    assert EscapeAnswer("swer") == EscapeOne('s') + (EscapeOne('w') + EscapeAnswer("er")) by {
      assert "swer"[1..] == "wer" && "wer"[1..] == "er";
    }
    assert EscapeAnswer("er") == EscapeOne('e') + (EscapeOne('r') + "") by {
      assert "er"[1..] == "r" && "r"[1..] == "";
    }
    assert "\"answer"[1..] == "answer";
  }

  lemma HeadAt(text: string, wanted: string)
    requires wanted != ""
    ensures At(text, 0, wanted) <==> text != "" && text[0] == wanted[0] && At(text[1..], 0, wanted[1..])
  {
    if |wanted| <= |text| {
      assert text[0..|wanted|][0] == text[0] && text[0..|wanted|][1..] == text[1..][0..|wanted| - 1];
      assert [wanted[0]] + wanted[1..] == wanted;
      assert [text[0]] + text[1..][0..|wanted| - 1] == text[0..|wanted|];
    }
  }

  /** An escaped text starts with some letters and a quote only by being these letters and ending there. */
  lemma {:induction false} StartsWith(u: string, t: string, q: char, rest: string)
    requires (forall c <- t :: 'a' <= c <= 'z') && (q == '"' || q == '\\')
    ensures At(EscapeAnswer(u) + ([q] + rest), 0, t + "\"") <==> u == t && q == '"'
    decreases |u|
  {
    var text, wanted := EscapeAnswer(u) + ([q] + rest), t + "\"";
    HeadAt(text, wanted);
    assert At(text[1..], 0, "");
    assert t != "" ==> wanted[0] == t[0] && t[0] in t;
    hide At;
    if u == "" {
      assert text == [q] + rest;
    } else {
      var e := EscapeOne(u[0]);
      assert text == e + (EscapeAnswer(u[1..]) + ([q] + rest));
      if t == "" {
        assert text[0] == e[0] && e[0] != '"';
      } else {
        assert wanted[1..] == t[1..] + "\"";
        assert forall c <- t[1..] :: c in t;
        assert u == t <==> u[0] == t[0] && u[1..] == t[1..] by {
          assert [u[0]] + u[1..] == u && [t[0]] + t[1..] == t;
        }
        if e == [t[0]] {
          StartsWith(u[1..], t[1..], q, rest);
          assert text[1..] == EscapeAnswer(u[1..]) + ([q] + rest);
        }
      }
    }
  }

  /** A quote starts the marker exactly when "answer" and a quote follow. */
  lemma QuoteStarts(text: string)
    requires text != "" && text[0] == '"'
    ensures At(text, 0, MARKER) <==> At(text[1..], 0, "answer\"")
  {
    HeadAt(text, MARKER);
    assert MARKER[1..] == "answer\"";
  }

  lemma ClearJoin(a: string, b: string, rest: string)
    requires Clear(a, b + rest) && Clear(b, rest)
    ensures Clear(a + b, rest)
  {
    assert a + (b + rest) == (a + b) + rest;
    forall k | 0 <= k < |a + b| ensures !At((a + b) + rest, k, MARKER) {
      if k >= |a| { AtShifted(a, b + rest, k - |a|, MARKER); }
    }
  }

  lemma CharIsClear(c: char, rest: string)
    ensures Clear([c], rest) <==> !(c == '"' && At(rest, 0, "answer\""))
  {
    var text := [c] + rest;
    assert text[1..] == rest && text[0] == c;
    if c == '"' { QuoteStarts(text); } else { HeadAt(text, MARKER); }
    assert Clear([c], rest) <==> !At(text, 0, MARKER);
  }

  lemma OneIsClear(c: char, more: string)
    requires c == '"' ==> !At(more, 0, "answer\"")
    ensures Clear(EscapeOne(c), more)
  {
    hide Clear, At;
    CharIsClear('\\', [EscapeOne(c)[|EscapeOne(c)| - 1]] + more);
    CharIsClear(EscapeOne(c)[|EscapeOne(c)| - 1], more);
    if |EscapeOne(c)| == 2 {
      ClearJoin("\\", [EscapeOne(c)[1]], more);
      assert "\\" + [EscapeOne(c)[1]] == EscapeOne(c);
    } else {
      assert [EscapeOne(c)[0]] == EscapeOne(c);
    }
  }

  /** Within an escaped text the marker starts only at a quote with nothing but "answer" behind it. */
  lemma {:induction false} EscapedIsClear(w: string, q: char, rest: string)
    requires q == '\\' || (q == '"' && !EndsInQuote(w))
    ensures Clear(EscapeAnswer(w), [q] + rest)
  {
    if w != "" {
      var more := EscapeAnswer(w[1..]) + ([q] + rest);
      assert [w[0]] + w[1..] == w;
      EscapedIsClear(w[1..], q, rest);
      StartsWith(w[1..], "answer", q, rest);
      assert "answer" + "\"" == "answer\"";
      assert w[1..] == "answer" && w[0] == '"' ==> w[|w| - 7..] == "\"answer";
      hide Clear, At;
      OneIsClear(w[0], more);
      ClearJoin(EscapeOne(w[0]), EscapeAnswer(w[1..]), [q] + rest);
    }
  }

  lemma QuotedIsClear(s: string, rest: string)
    requires !EndsInMarker(s) && (rest == "" || rest[0] != 'a')
    ensures Clear(Quote(s), rest)
  {
    hide Clear;
    StartsWith(s, "answer", '"', rest);
    assert "answer" + "\"" == "answer\"";
    HeadAt(rest, "answer\"");
    hide At;
    EscapedIsClear(s, '"', rest);
    CharIsClear('"', rest);
    ClearJoin(EscapeAnswer(s), "\"", rest);
    assert EscapeAnswer(s) + (['"'] + rest) == (EscapeAnswer(s) + "\"") + rest;
    CharIsClear('"', (EscapeAnswer(s) + "\"") + rest);
    ClearJoin("\"", EscapeAnswer(s) + "\"", rest);
  }

  lemma EndsEscaped(s: string)
    requires EndsInQuote(s)
    ensures EscapeAnswer(s) == EscapeAnswer(s[..|s| - 7]) + "\\\"answer"
  {
    assert s == s[..|s| - 7] + "\"answer";
    EscapeAppend(s[..|s| - 7], "\"answer");
    EscapeAnswerWord();
  }

  lemma OpenIsClear(w: string, rest: string)
    ensures Clear("\"" + (EscapeAnswer(w) + "\\"), rest)
  {
    hide Clear, At, EscapeAnswer;
    StartsWith(w, "answer", '\\', rest);
    assert "answer" + "\"" == "answer\"";
    EscapedIsClear(w, '\\', rest);
    CharIsClear('\\', rest);
    ClearJoin(EscapeAnswer(w), "\\", rest);
    assert EscapeAnswer(w) + (['\\'] + rest) == (EscapeAnswer(w) + "\\") + rest;
    CharIsClear('"', (EscapeAnswer(w) + "\\") + rest);
    ClearJoin("\"", EscapeAnswer(w) + "\\", rest);
  }

  lemma MarkerParts(x: string, rest: string)
    ensures ("\"" + ((x + "\\\"answer") + "\"")) + rest == ("\"" + (x + "\\")) + (MARKER + rest)
  {
    assert "\\\"answer" + "\"" == "\\" + MARKER;
    assert (x + "\\\"answer") + "\"" == x + ("\\\"answer" + "\"");
    assert x + ("\\" + MARKER) == (x + "\\") + MARKER;
    assert "\"" + ((x + "\\") + MARKER) == ("\"" + (x + "\\")) + MARKER;
  }

  /** Behind a quoted text that ends in the marker, the search goes on. */
  lemma AfterQuoted(s: string, rest: string)
    requires EndsInMarker(s)
    ensures After(Quote(s) + rest, MARKER) == Some(rest)
  {
    hide After, EscapeAnswer, Clear;
    if s == "answer" {
      EscapeAnswerWord();
      assert Quote(s) == MARKER;
      hide *;
      AfterHead("", MARKER, rest);
      assert "" + (MARKER + rest) == MARKER + rest;
    } else {
      EndsEscaped(s);
      AfterOpen(EscapeAnswer(s[..|s| - 7]), s[..|s| - 7], rest);
    }
  }

  lemma AfterOpen(x: string, w: string, rest: string)
    requires x == EscapeAnswer(w)
    ensures After(("\"" + ((x + "\\\"answer") + "\"")) + rest, MARKER) == Some(rest)
  {
    hide *;
    MarkerParts(x, rest);
    OpenIsClear(w, MARKER + rest);
    AfterClear("\"" + (x + "\\"), MARKER + rest);
    AfterHead("", MARKER, rest);
    assert "" + (MARKER + rest) == MARKER + rest;
  }

  // ------------------------------------------------------ what is displayed

  /** What is written behind a name. */
  function Behind(f: Field, rest: string): string {
    f.gap + (":" + (f.pad + (Quote(f.value) + rest)))
  }

  lemma ValueShows(pad: string, value: string, rest: string)
    requires Blank(pad)
    ensures ShownValue(StripLeft(pad + (Quote(value) + rest))) == value
  {
    hide StripLeft, Shown, EscapeAnswer, Blank;
    var body := EscapeAnswer(value) + "\"" + rest;
    assert Quote(value) + rest == "\"" + body;
    StripsPad(pad, "\"" + body);
    ShownIsAnswer(value, rest);
    assert ("\"" + body)[1..] == body;
  }

  lemma FirstIsNoLetter(f: Field, rest: string)
    requires Proper(f)
    ensures Behind(f, rest)[0] != 'a'
  {
    hide Quote;
    if f.gap != "" { assert Behind(f, rest)[0] == f.gap[0] && IsSpace(f.gap[0]); }
  }

  lemma RestIsNoLetter(fields: seq<Field>, tail: string)
    requires Closing(tail) && forall f <- fields :: Proper(f)
    ensures var text := FieldsText(fields, tail); text == "" || text[0] != 'a'
  {
    if fields != [] {
      var f := fields[0];
      var more := Quote(f.name) + Behind(f, FieldsText(fields[1..], tail));
      assert more[0] == '"' && !IsSpace('a');
      assert FieldsText(fields, tail) == f.before + more;
      hide Quote, Behind, IsSpace;
      assert Proper(f);
      if f.before == "" {
        assert f.before + more == more;
      } else {
        assert (f.before + more)[0] == f.before[0] && f.before[0] in f.before;
      }
    }
  }

  lemma BeforeIsClear(f: Field, rest: string)
    requires Proper(f)
    ensures After(f.before + rest, MARKER) == After(rest, MARKER)
  {
    assert '"' !in f.before;
    NoQuoteIsClear(f.before, rest);
    AfterClear(f.before, rest);
  }

  lemma ColonIsPlain(f: Field)
    requires Proper(f)
    ensures '"' !in f.gap + (":" + f.pad) && ':' !in f.before && ':' !in f.gap
  {
    assert forall c <- f.gap :: IsSpace(c);
    assert forall c <- f.pad :: IsSpace(c);
    assert !IsSpace('"') && !IsSpace(':');
    hide IsSpace;
  }

  /** A name that does not end in the marker is passed over, with the white space and the colon behind it. */
  lemma NameIsPassed(f: Field, rest: string)
    requires Proper(f) && !EndsInMarker(f.name)
    ensures After(f.before + (Quote(f.name) + Behind(f, rest)), MARKER) == After(Quote(f.value) + rest, MARKER)
  {
    hide Quote, EndsInMarker, After, Clear;
    FirstIsNoLetter(f, rest);
    ColonIsPlain(f);
    hide Proper;
    BeforeIsClear(f, Quote(f.name) + Behind(f, rest));
    QuotedIsClear(f.name, Behind(f, rest));
    AfterClear(Quote(f.name), Behind(f, rest));
    var between, value := f.gap + (":" + f.pad), Quote(f.value) + rest;
    assert Behind(f, rest) == between + value;
    NoQuoteIsClear(between, value);
    AfterClear(between, value);
  }

  /** A name that ends in the marker has its own value displayed. */
  lemma NameDisplays(f: Field, rest: string)
    requires Proper(f) && EndsInMarker(f.name)
    ensures PartialAnswer(f.before + (Quote(f.name) + Behind(f, rest))) == f.value
  {
    hide Quote, EndsInMarker, After, ShownValue, StripLeft;
    BeforeIsClear(f, Quote(f.name) + Behind(f, rest));
    AfterQuoted(f.name, Behind(f, rest));
    ColonBehind(f.gap, f.pad + (Quote(f.value) + rest));
    ValueShows(f.pad, f.value, rest);
  }

  lemma AfterName(f: Field, rest: string)
    requires Proper(f)
    ensures After(f.before + (Quote(f.name) + Behind(f, rest)), ":") == Some(f.pad + (Quote(f.value) + rest))
  {
    EscapeNoColon(f.name);
    ColonIsPlain(f);
    assert ':' !in Quote(f.name) by { hide EscapeAnswer; }
    hide After, Quote, Proper;
    var head, more := f.before + (Quote(f.name) + f.gap), f.pad + (Quote(f.value) + rest);
    assert ':' !in head;
    AfterHead(head, ":", more);
    assert head + (":" + more) == f.before + (Quote(f.name) + Behind(f, rest));
  }

  /** Behind a value that ends in the marker, the next colon is that of the next member. */
  lemma NextDisplays(fields: seq<Field>, tail: string)
    requires Closing(tail) && forall f <- fields :: Proper(f)
    ensures match After(FieldsText(fields, tail), ":")
            case None => fields == []
            case Some(value) => fields != [] && ShownValue(StripLeft(value)) == fields[0].value
  {
    if fields == [] {
      var found := FindText(tail, 0, ":");
      if found.Some? { AtIndex(tail, found.value, ":", 0); }
    } else {
      var f, rest := fields[0], FieldsText(fields[1..], tail);
      assert Proper(f);
      hide After, ShownValue, StripLeft, Quote;
      AfterName(f, rest);
      ValueShows(f.pad, f.value, rest);
    }
  }

  lemma NothingDisplayed(tail: string)
    requires Closing(tail)
    ensures PartialAnswer(tail) == ""
  {
    NoQuoteIsClear(tail, "");
    AfterClear(tail, "");
    assert tail + "" == tail && FindText("", 0, MARKER) == None;
  }

  /** Of a complete object, what is displayed is the whole value of that member, or nothing when there is none. */
  lemma {:induction false} DisplayedIsShown(fields: seq<Field>, tail: string)
    requires Closing(tail) && forall f <- fields :: Proper(f)
    ensures PartialAnswer(FieldsText(fields, tail))
         == if Displayed(fields) < |fields| then fields[Displayed(fields)].value else ""
  {
    hide Proper, Closing, Quote, EndsInMarker, After, ShownValue, StripLeft;
    if fields == [] {
      NothingDisplayed(tail);
    } else {
      var f, rest := fields[0], FieldsText(fields[1..], tail);
      assert FieldsText(fields, tail) == f.before + (Quote(f.name) + Behind(f, rest));
      if EndsInMarker(f.name) {
        NameDisplays(f, rest);
      } else {
        NameIsPassed(f, rest);
        if EndsInMarker(f.value) {
          AfterQuoted(f.value, rest);
          NextDisplays(fields[1..], tail);
        } else {
          RestIsNoLetter(fields[1..], tail);
          QuotedIsClear(f.value, rest);
          AfterClear(Quote(f.value), rest);
          DisplayedIsShown(fields[1..], tail);
        }
      }
    }
  }

  /** Where the member "answer" may stand: it is the displayed one exactly when no name before it ends in the marker,
      nor any value before it but the one just before. */
  lemma {:induction false} AnswerIsDisplayed(fields: seq<Field>, j: nat)
    requires j < |fields| && fields[j].name == "answer"
    ensures Displayed(fields) == j <==>
      forall i :: 0 <= i < j ==> !EndsInMarker(fields[i].name) && (EndsInMarker(fields[i].value) ==> i + 1 == j)
  {
    hide EndsInQuote;
    if j > 0 && !EndsInMarker(fields[0].name) && !EndsInMarker(fields[0].value) {
      var rest := fields[1..];
      AnswerIsDisplayed(rest, j - 1);
      assert forall i :: 0 <= i < j - 1 ==> rest[i] == fields[i + 1];
      assert forall i :: 1 <= i < j ==> fields[i] == rest[i - 1];
    }
  }

  /** At every cut of the object the display shows a prefix of the answer, and of the whole object all of it, exactly
      when "answer" is the displayed member, or has the same text as the displayed one. */
  lemma RightExactly(fields: seq<Field>, tail: string, j: nat)
    requires Closing(tail) && forall f <- fields :: Proper(f)
    requires j < |fields| && fields[j].name == "answer"
    ensures var text, answer := FieldsText(fields, tail), fields[j].value;
      && Displayed(fields) < |fields|
      && (PartialAnswer(text) == answer && (forall n: nat :: n <= |text| ==> PartialAnswer(text[..n]) <= answer)
          <==> Displayed(fields) == j || fields[Displayed(fields)].value == answer)
  {
    hide Proper, Closing, EndsInMarker, PartialAnswer, FieldsText;
    var text := FieldsText(fields, tail);
    DisplayedIsShown(fields, tail);
    DisplayedIsThere(fields, j);
    forall n: nat | n <= |text| ensures PartialAnswer(text[..n]) <= PartialAnswer(text) {
      assert text == text[..n] + text[n..];
      Monotone(text[..n], text[n..]);
    }
  }

  lemma {:induction false} DisplayedIsThere(fields: seq<Field>, j: nat)
    requires j < |fields| && fields[j].name == "answer"
    ensures Displayed(fields) <= j
  {
    hide EndsInQuote;
    if j > 0 { DisplayedIsThere(fields[1..], j - 1); }
  }

  /** A reply {"kind":"answer","title":"T","answer":"hi"}, whose title is displayed as its answer. */
  lemma TitleIsDisplayed()
    ensures var fields := [Field("{", "kind", "", "", "answer"), Field(",", "title", "", "", "T"),
                           Field(",", "answer", "", "", "hi")];
      PartialAnswer(FieldsText(fields, "}")) == "T"
  {
    var fields := [Field("{", "kind", "", "", "answer"), Field(",", "title", "", "", "T"),
                   Field(",", "answer", "", "", "hi")];
    hide PartialAnswer, FieldsText;
    DisplayedIsShown(fields, "}");
  }
}
