/** What the reader gets wrong: array loops that never end, and an escape branch that is never taken. */
module TypeScriptFaults {
  import opened Text
  import opened Decimal
  import opened Dictionaries
  import opened TypeScript
  import opened TypeScriptProgress
  import opened TypeScriptRoundTrip

  // ------------------------------------------------------------ endless arrays

  /** A literal of white space alone that `_skip_ws_comments` does not skip. */
  predicate BlankItem(c: string, i: nat) {
    i < |c| && c[i] !in "{[\"'`,}]\n" && Strip(c[i..LiteralEnd(c, i)]) == ""
  }

  /** A round of the array loop does not move on exactly when its item is such a literal. */
  lemma RoundStays(c: string, i: nat)
    requires i < |c| && SkipBlank(c, i) == i && c[i] != ']'
    ensures (ReadValue(c, i).Done? && SkipComma(c, ReadValue(c, i).next) <= i) <==> BlankItem(c, i)
  {
    hide SkipBlank, Strip, LiteralValue, ReadMembers, ReadItems, ReadString;
  }

  /** The items at which the array loops start a round while a value is read, in order; a loop that does not move
      on is left. */
  ghost function ItemsOfValue(c: string, start: nat): seq<nat>
    decreases Left(c, start), 0
  {
    var i := SkipBlank(c, start);
    if i >= |c| then [] else
    if c[i] == '{' then ItemsOfMembers(c, i + 1) else
    if c[i] == '[' then ItemsOfList(c, i + 1) else []
  }

  ghost function ItemsOfMembers(c: string, start: nat): seq<nat>
    decreases Left(c, start), 1
  {
    var i := SkipBlank(c, start);
    if i >= |c| || c[i] == '}' then [] else
      match ReadKey(c, i)
      case None => ItemsOfMembers(c, i + 1)
      case Some(key) =>
        var at := SkipBlank(c, key.next);
        ItemsOfValue(c, at) +
        match ReadValue(c, at)
        case Raised(_) => []
        case Done(_, next) => ItemsOfMembers(c, SkipComma(c, next))
  }

  ghost function ItemsOfList(c: string, start: nat): seq<nat>
    decreases Left(c, start), 1
  {
    var i := SkipBlank(c, start);
    if i >= |c| || c[i] == ']' then [] else
      [i] + ItemsOfValue(c, i) +
      match ReadValue(c, i)
      case Raised(_) => []
      case Done(_, next) => if SkipComma(c, next) <= i then [] else ItemsOfList(c, SkipComma(c, next))
  }

  ghost predicate ReachesBlank(c: string, items: seq<nat>) {
    exists i <- items :: BlankItem(c, i)
  }

  lemma ReachesEither(c: string, a: seq<nat>, b: seq<nat>)
    ensures ReachesBlank(c, a + b) <==> ReachesBlank(c, a) || ReachesBlank(c, b)
  {
    hide BlankItem;
  }

  lemma {:induction false} ValueEndlessExactly(c: string, start: nat)
    ensures ReadValue(c, start) == Raised(Endless) <==> ReachesBlank(c, ItemsOfValue(c, start))
    decreases Left(c, start), 0
  {
    hide SkipBlank, Strip, LiteralValue, ReachesBlank, ReadString;
    NothingReached(c);
    var i := SkipBlank(c, start);
    if i < |c| {
      if c[i] == '{' {
        MembersEndlessExactly(c, i + 1, []);
      } else if c[i] == '[' {
        ListEndlessExactly(c, i + 1, []);
      }
    }
    hide ReadMembers, ReadItems, ReadString, ItemsOfMembers, ItemsOfList;
  }

  lemma NothingReached(c: string)
    ensures !ReachesBlank(c, [])
  {
  }

  lemma {:induction false} MembersEndlessExactly(c: string, start: nat, result: seq<Member>)
    ensures ReadMembers(c, start, result) == Raised(Endless) <==> ReachesBlank(c, ItemsOfMembers(c, start))
    decreases Left(c, start), 1
  {
    hide SkipBlank, ReachesBlank, ReadKey, Put, ReadValue, ItemsOfValue;
    NothingReached(c);
    var i := SkipBlank(c, start);
    if i < |c| && c[i] != '}' {
      match ReadKey(c, i) {
        case None => MembersEndlessExactly(c, i + 1, result);
        case Some(key) =>
          var at := SkipBlank(c, key.next);
          ValueEndlessExactly(c, at);
          match ReadValue(c, at) {
            case Done(value, next) =>
              MembersEndlessExactly(c, SkipComma(c, next), Put(result, key.text, value));
              ReachesEither(c, ItemsOfValue(c, at), ItemsOfMembers(c, SkipComma(c, next)));
            case Raised(_) =>
              ReachesEither(c, ItemsOfValue(c, at), []);
          }
      }
    }
  }

  lemma {:induction false} ListEndlessExactly(c: string, start: nat, result: seq<Value>)
    ensures ReadItems(c, start, result) == Raised(Endless) <==> ReachesBlank(c, ItemsOfList(c, start))
    decreases Left(c, start), 1
  {
    NothingReached(c);
    SkipsTwice(c, start);
    hide SkipBlank, ReachesBlank, ReadValue, ItemsOfValue, BlankItem;
    var i := SkipBlank(c, start);
    if i < |c| && c[i] != ']' {
      RoundStays(c, i);
      ValueEndlessExactly(c, i);
      ReachesOne(c, i);
      var v := ReadValue(c, i);
      var rest := if v.Raised? || SkipComma(c, v.next) <= i then [] else ItemsOfList(c, SkipComma(c, v.next));
      ReachesEither(c, [i], ItemsOfValue(c, i));
      ReachesEither(c, [i] + ItemsOfValue(c, i), rest);
      if v.Done? && SkipComma(c, v.next) > i { ListEndlessExactly(c, SkipComma(c, v.next), result + [v.value]); }
      if BlankItem(c, i) { BlankIsDone(c, i); }
    }
  }

  lemma ReachesOne(c: string, i: nat)
    ensures ReachesBlank(c, [i]) <==> BlankItem(c, i)
  {
    hide BlankItem;
    assert i in [i];
  }

  lemma BlankIsDone(c: string, i: nat)
    requires BlankItem(c, i) && SkipBlank(c, i) == i
    ensures ReadValue(c, i).Done?
  {
    hide SkipBlank, Strip, LiteralValue, ReadMembers, ReadItems, ReadString;
  }

  /** Skipping blanks again skips nothing. */
  lemma {:induction false} SkipsTwice(c: string, i: nat)
    ensures SkipBlank(c, SkipBlank(c, i)) == SkipBlank(c, i)
    decreases Left(c, i)
  {
    if i < |c| {
      if c[i] in " \t\n\r" {
        SkipsTwice(c, i + 1);
      } else if At(c, i, "//") {
        AtIndex(c, i, "//", 0);
        SkipsTwice(c, LineEnd(c, i));
      } else if At(c, i, "/*") {
        SkipsTwice(c, CommentEnd(c, i + 2) + 2);
      }
    }
  }

  /** The parser never ends on a file exactly when it has an export for the locale and reading its value comes to
      an array item of white space alone that is not skipped. */
  lemma FileEndlessExactly(c: string, locale: string)
    ensures var brace := FindExport(c, 0, ExportName(locale));
      ReadFile(c, locale) == Raised(Endless) <==> brace.Some? && ReachesBlank(c, ItemsOfValue(c, brace.value))
  {
    var brace := FindExport(c, 0, ExportName(locale));
    if brace.Some? { ValueEndlessExactly(c, brace.value); }
  }

  /** An array opened in front of a vertical tab. */
  const TAB_LIST := "a: [\U{0B}"

  ghost function TabFile(locale: string): string {
    DECLARE + ExportName(locale) + TYPED + TAB_LIST
  }

  lemma StripsBlank(s: string)
    requires |s| == 1 && IsSpace(s[0])
    ensures Strip(s) == ""
  {
    assert s[1..] == "" && StripLeft(s) == StripLeft("");
  }

  /** The last character of a text is an item of white space alone when it is a vertical tab. */
  lemma TabIsBlankItem(c: string, i: nat)
    requires |c| == i + 1 && c[i] == '\U{0B}'
    ensures BlankItem(c, i) && SkipBlank(c, i) == i
  {
    hide Strip, SkipBlank;
    SkipStops(c, i);
    assert LiteralEnd(c, i + 1) == i + 1;
    assert LiteralEnd(c, i) == i + 1;
    hide LiteralEnd;
    var item := c[i..i + 1];
    assert |item| == 1 && IsSpace(item[0]);
    StripsBlank(item);
  }

  ghost predicate HasTabList(c: string, k: nat) {
    |c| == k + 5 && c[k] == 'a' && c[k + 1] == ':' && c[k + 2] == ' ' && c[k + 3] == '[' && c[k + 4] == '\U{0B}'
  }

  lemma TabKey(c: string, k: nat)
    requires HasTabList(c, k)
    ensures SkipBlank(c, k) == k && ReadKey(c, k) == Some(Key("a", k + 2))
    ensures SkipBlank(c, k + 2) == k + 3 && SkipBlank(c, k + 3) == k + 3
  {
    assert At(c, k, "a");
    hide SkipBlank, ReadKey, At;
    ReadsWordKey(c, k, "a");
    SkipStops(c, k);
    SkipStops(c, k + 3);
    SkipsOneBlank(c, k + 2);
  }

  lemma TabItems(c: string, k: nat)
    requires HasTabList(c, k)
    ensures ReadItems(c, k + 4, []) == Raised(Endless)
  {
    hide SkipBlank, BlankItem, ReadItems, ReadValue, ItemsOfList;
    TabIsBlankItem(c, k + 4);
    ListEndlessExactly(c, k + 4, []);
    ItemsStart(c, k + 4);
  }

  lemma ItemsStart(c: string, i: nat)
    requires i < |c| && SkipBlank(c, i) == i && c[i] != ']'
    ensures i in ItemsOfList(c, i)
  {
    hide SkipBlank, ReadValue, ItemsOfValue;
    assert ItemsOfList(c, i)[0] == i;
  }

  lemma TabListEndless(c: string, k: nat)
    requires HasTabList(c, k)
    ensures ReadMembers(c, k, []) == Raised(Endless)
  {
    hide SkipBlank, ReadKey, ReadItems, ReadString, LiteralValue;
    TabKey(c, k);
    TabItems(c, k);
    assert ReadValue(c, k + 3) == Raised(Endless);
    hide ReadValue;
  }

  lemma FourParts(a: string, b: string, d: string, e: string)
    ensures var c := a + b + d + e;
      At(c, 0, a) && At(c, |a|, b) && At(c, |a| + |b|, d) && At(c, |a| + |b| + |d|, e)
  {
    var c := a + b + d + e;
    assert c[0..|a|] == a && c[|a|..|a| + |b|] == b;
    assert c[|a| + |b|..|a| + |b| + |d|] == d && c[|a| + |b| + |d|..|a| + |b| + |d| + |e|] == e;
  }

  lemma TabListStands(c: string, k: nat)
    requires At(c, k, TAB_LIST) && |c| == k + |TAB_LIST|
    ensures HasTabList(c, k)
  {
    hide At;
    AtIndex(c, k, TAB_LIST, 0);
    AtIndex(c, k, TAB_LIST, 1);
    AtIndex(c, k, TAB_LIST, 2);
    AtIndex(c, k, TAB_LIST, 3);
    AtIndex(c, k, TAB_LIST, 4);
  }

  /** For every locale, a file on which the parser never ends. */
  lemma EndlessFile(locale: string)
    ensures ReadFile(TabFile(locale), locale) == Raised(Endless)
  {
    hide SkipBlank, ReadMembers, ReadItems, ReadString, LiteralValue, At, ExportAt, ExportName, HasTabList;
    var c, name := TabFile(locale), ExportName(locale);
    var brace := |DECLARE| + |name| + |TYPED| - 1;
    FourParts(DECLARE, name, TYPED, TAB_LIST);
    ExportHere(c, 0, name);
    AtIndex(c, |DECLARE| + |name|, TYPED, |TYPED| - 1);
    TabListStands(c, brace + 1);
    TabListEndless(c, brace + 1);
    BraceReadsMembers(c, brace);
    FindsAt(c, 0, 0, name);
  }

  lemma BraceReadsMembers(c: string, brace: nat)
    requires brace < |c| && c[brace] == '{' && ReadMembers(c, brace + 1, []).Raised?
    ensures ReadValue(c, brace) == Raised(ReadMembers(c, brace + 1, []).error)
  {
    hide SkipBlank, ReadMembers, ReadItems, ReadString, LiteralValue, LiteralEnd, Strip;
    SkipStops(c, brace);
  }

  // ------------------------------------------------------ where a literal ends

  /** The first `n` characters end at the last one that is not white space. */
  ghost predicate EndsAt(s: string, n: nat) {
    0 < n <= |s| && !IsSpace(s[n - 1]) && forall k :: n <= k < |s| ==> IsSpace(s[k])
  }

  lemma StrippedLengthIsEnd(s: string)
    requires s != ""
    ensures EndsAt(s, |Strip(s)|) <==> !IsSpace(s[0])
  {
    hide IsSpace, StripLeft, StripRight;
    var rest := StripLeft(s);
    var literal := StripRight(rest);
    var from := |s| - |rest|;
    if from == 0 {
      assert rest == s && literal == s[..|literal|];
    } else if literal != "" {
      var last := |literal| - 1;
      assert literal[last] == rest[last] == s[from + last];
      assert !IsSpace(s[from + last]);
    }
  }

  lemma LiteralStep(c: string, i: nat)
    requires i < |c| && SkipBlank(c, i) == i && c[i] !in "{[\"'`,}]\n"
    ensures i < LiteralEnd(c, i) <= |c|
    ensures var literal := Strip(c[i..LiteralEnd(c, i)]);
      ReadValue(c, i) == Done(LiteralValue(literal), i + |literal|)
  {
    hide SkipBlank, Strip, LiteralValue, ReadMembers, ReadItems, ReadString;
  }

  /** The index after a literal counts the stripped literal from where the unstripped one starts; so it is the
      literal's end exactly when no white space stands in front. */
  lemma LiteralEndExactly(c: string, i: nat)
    requires i < |c| && SkipBlank(c, i) == i && c[i] !in "{[\"'`,}]\n"
    ensures var r := ReadValue(c, i);
      r.Done? && (EndsAt(c[i..LiteralEnd(c, i)], r.next - i) <==> !IsSpace(c[i]))
  {
    hide SkipBlank, LiteralValue, ReadValue, LiteralEnd, IsSpace, Strip, EndsAt;
    LiteralStep(c, i);
    StrippedLengthIsEnd(c[i..LiteralEnd(c, i)]);
  }

  lemma LetterIsText()
    ensures LiteralValue("e") == Str("e")
  {
    var e := "e";
    assert !IsDecimal(e[0]) && !IsInt(e);
    assert DigitsEnd(e, 0) == 0;
    assert Lower(e)[0] == 'e' && e[0..] == e;
    assert !IsFloat(e);
  }

  /** A literal item up to an index where a bracket closes the array, read by one round of the array loop. */
  lemma ReadsLiteralItem(c: string, i: nat, end: nat, literal: string, result: seq<Value>)
    requires i < end < |c| && c[end] == ']' && SkipBlank(c, i) == i && c[i] !in "{[\"'`,}]\n"
    requires forall k :: i <= k < end ==> c[k] !in ",}]\n"
    requires Strip(c[i..end]) == literal && literal != ""
    requires i + |literal| <= end && SkipBlank(c, i + |literal|) == i + |literal| && c[i + |literal|] != ','
    ensures ReadItems(c, i, result) == ReadItems(c, i + |literal|, result + [LiteralValue(literal)])
  {
    hide SkipBlank, LiteralValue, ReadValue, LiteralEnd, Strip;
    LiteralRuns(c, i, end);
    LiteralStep(c, i);
    assert c[i] != ']' && SkipComma(c, i + |literal|) == i + |literal|;
    hide SkipComma;
  }

  lemma {:induction false} LiteralRuns(c: string, i: nat, end: nat)
    requires i <= end < |c| && c[end] == ']' && forall k :: i <= k < end ==> c[k] !in ",}]\n"
    ensures LiteralEnd(c, i) == end
    decreases end - i
  {
    if i < end { LiteralRuns(c, i + 1, end); }
  }

  lemma StripsNoBreakSpace()
    ensures Strip("\U{A0}true") == "true"
  {
    var item := "\U{A0}true";
    assert IsSpace(item[0]) && !IsSpace(item[1]) && !IsSpace(item[4]);
    hide IsSpace;
    assert item[1..] == "true";
    assert StripLeft(item) == item[1..];
    assert StripRight(item[1..]) == item[1..];
  }

  const SPACED_LIST := "[\U{A0}true]"

  lemma SpacedChars()
    ensures var c := SPACED_LIST;
      && |c| == 7 && c[1..6] == "\U{A0}true" && c[5..6] == "e" && c[1] == '\U{A0}' && c[5] == 'e' && c[6] == ']'
      && forall k :: 1 <= k < 6 ==> c[k] !in "{[\"'`,}]\n"
  {
  }

  lemma SpacedSkips()
    ensures SkipBlank(SPACED_LIST, 1) == 1 && SkipBlank(SPACED_LIST, 5) == 5 && SkipBlank(SPACED_LIST, 6) == 6
  {
    var c := SPACED_LIST;
    SpacedChars();
    hide At;
    if At(c, 1, "//") { AtIndex(c, 1, "//", 0); }
    if At(c, 1, "/*") { AtIndex(c, 1, "/*", 0); }
    SkipStops(c, 5);
    SkipStops(c, 6);
  }

  lemma ItemsEnd(c: string, i: nat, result: seq<Value>)
    requires i < |c| && SkipBlank(c, i) == i && c[i] == ']'
    ensures ReadItems(c, i, result) == Done(result, i)
  {
    hide SkipBlank, ReadValue;
  }

  /** What is left behind the skipped end of the literal is a text of its own. */
  lemma SpacedTail(c: string)
    requires |c| == 7 && c[5..6] == "e" && c[5] !in "{[\"'`,}]\n" && c[6] == ']'
    requires SkipBlank(c, 5) == 5 && SkipBlank(c, 6) == 6
    ensures ReadItems(c, 5, [Bool(true)]) == Done([Bool(true)] + [Str("e")], 6)
  {
    hide SkipBlank, LiteralValue, Strip, ReadItems;
    assert !IsSpace('e');
    StripIdle("e");
    LetterIsText();
    ReadsLiteralItem(c, 5, 6, "e", [Bool(true)]);
    ItemsEnd(c, 6, [Bool(true)] + [Str("e")]);
  }

  /** A literal behind white space that is not skipped is partly read again, as a further item. */
  lemma LiteralReadAgain()
    ensures ReadItems(SPACED_LIST, 1, []) == Done([Bool(true), Str("e")], 6)
  {
    hide SkipBlank, Strip, ReadItems;
    SpacedChars();
    SpacedSkips();
    SpacedRead(SPACED_LIST);
  }

  lemma SpacedRead(c: string)
    requires |c| == 7 && c[1..6] == "\U{A0}true" && c[5..6] == "e" && c[5] == 'e' && c[6] == ']'
    requires forall k :: 1 <= k < 6 ==> c[k] !in "{[\"'`,}]\n"
    requires SkipBlank(c, 1) == 1 && SkipBlank(c, 5) == 5 && SkipBlank(c, 6) == 6
    ensures ReadItems(c, 1, []) == Done([Bool(true), Str("e")], 6)
  {
    hide SkipBlank, Strip, ReadItems;
    assert LiteralValue("true") == Bool(true);
    hide LiteralValue;
    StripsNoBreakSpace();
    ReadsLiteralItem(c, 1, 6, "true", []);
    SpacedTail(c);
    assert [] + [Bool(true)] == [Bool(true)] && [Bool(true)] + [Str("e")] == [Bool(true), Str("e")];
  }

  // --------------------------------------------------------- braced code points

  /** `content[i:j]`. */
  function Slice(c: string, i: nat, j: nat): string {
    if i >= |c| || j <= i then "" else if j <= |c| then c[i..j] else c[i..]
  }

  /** The test of the source for an escape with a braced code point, and for its closing brace. */
  predicate TakesBraced(c: string, i: nat) {
    Slice(c, i + 2, i + 4) == "{" && exists close :: i + 3 <= close < |c| && c[close] == '}'
  }

  /** It compares two characters with one, so it holds at the end of the text only, where nothing can close. */
  lemma BracedIsNeverTaken(c: string, i: nat)
    ensures !TakesBraced(c, i)
  {
  }

  /** A braced code point is therefore read as the letter u and what stands in the braces. */
  lemma BracedReadsAsText(c: string, i: nat, quote: char, out: string)
    requires i + 2 < |c| && c[i] == '\\' && c[i + 1] == 'u' && c[i + 2] == '{' && quote != '{'
    ensures ReadString(c, i, quote, out) == ReadString(c, i + 3, quote, out + "u{")
  {
    assert HexAt(c, i + 2, 4) ==> HexDigit(c[i + 2..i + 6][0]) >= 0;
    hide HexAt;
    assert ReadString(c, i, quote, out) == ReadString(c, i + 2, quote, out + "u");
    assert out + "u" + ['{'] == out + "u{";
  }
}
