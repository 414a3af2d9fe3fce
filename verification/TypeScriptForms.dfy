/** What the printer writes and the reader makes of the forms of TypeScript, told in their characters. */
module TypeScriptForms {
  import opened Text
  import opened Decimal
  import opened Dictionaries
  import opened TypeScript

  // -------------------------------------------------------------- export names

  /** ASCII letters, digits, underscore and dollar. */
  ghost predicate NameCode(c: char) {
    65 <= c as int <= 90 || 97 <= c as int <= 122 || 48 <= c as int <= 57 || c as int == 95 || c as int == 36
  }

  lemma {:induction false} NameIsKept(s: string)
    requires forall c <- s :: NameCode(c)
    ensures NameChars(s) == s
  {
    if s != "" {
      assert s[0] in s && forall c <- s[1..] :: c in s;
      NameIsKept(s[1..]);
      assert [s[0]] + s[1..] == s;
    }
  }

  lemma {:induction false} OtherIsDropped(before: string, c: char, after: string)
    requires !NameCode(c)
    ensures NameChars(before + [c] + after) == NameChars(before + after)
  {
    var s := before + [c] + after;
    if before == "" {
      assert s[0] == c && s[1..] == after && before + after == after;
    } else {
      OtherIsDropped(before[1..], c, after);
      assert s[0] == before[0] && s[1..] == before[1..] + [c] + after;
      assert (before + after)[0] == before[0] && (before + after)[1..] == before[1..] + after;
    }
  }

  /** The export name is the locale without its other characters, behind an underscore when nothing is left or it starts
      with a digit. */
  lemma ExportNameSays(locale: string, kept: string)
    requires NameChars(locale) == kept
    ensures kept == "" ==> ExportName(locale) == "_"
    ensures kept != "" && 48 <= kept[0] as int <= 57 ==> ExportName(locale) == "_" + kept
    ensures kept != "" && !(48 <= kept[0] as int <= 57) ==> ExportName(locale) == kept
  {
  }

  lemma RegionChars()
    ensures NameChars("pt-BR") == "ptBR"
  {
    assert !NameCode('-') && forall c <- "ptBR" :: NameCode(c);
    hide NameCode, NameChars;
    OtherIsDropped("pt", '-', "BR");
    assert "pt" + ['-'] + "BR" == "pt-BR" && "pt" + "BR" == "ptBR";
    NameIsKept("ptBR");
  }

  lemma ExportNameOfRegion()
    ensures ExportName("pt-BR") == "ptBR"
  {
    RegionChars();
    hide NameChars;
    ExportNameSays("pt-BR", "ptBR");
  }

  // ------------------------------------------------------------------ printing

  /** The lines of a printed file. */
  lemma PrintedLines(locale: string, members: seq<Member>)
    ensures PrintFile(locale, members)
         == Join(["import type { Dictionary } from \"./en\";"] + [""]
                 + ["export const " + ExportName(locale) + ": Dictionary = {"]
                 + MemberLines(members, 1) + ["};"] + [""], "\n")
  {
    var head := "export const " + ExportName(locale) + ": Dictionary = {";
    assert [IMPORT_LINE, "", head] + MemberLines(members, 1) + ["};", ""]
        == [IMPORT_LINE] + [""] + [head] + MemberLines(members, 1) + ["};"] + [""];
  }

  /** Empty containers and leaves; null is printed as the text None. */
  lemma PrintedLeaves(indent: nat, n: int, text: string)
    ensures Print(Obj([]), indent) == "{}" && Print(List([]), indent) == "[]"
    ensures Print(Bool(true), indent) == "true" && Print(Bool(false), indent) == "false"
    ensures Print(Int(n), indent) == IntText(n) && Print(Str(text), indent) == "\"" + EscapeText(text) + "\""
    ensures Print(Null, indent) == "\"None\""
  {
    NoneIsPlain();
    hide IntText, EscapeText;
  }

  /** Two spaces a level: of a dict or list in a dict, the opening bracket behind the colon, a line an entry with a comma at
      its end, and the closing bracket back at the level of its line. */
  lemma PrintedDict(key: string, inner: string, n: int)
    ensures MemberLines([Member(key, Obj([Member(inner, Int(n))]))], 1)
         == ["  " + key + ": " + ("{\n" + (("    " + inner + ": " + IntText(n) + ",\n") + "  }")) + ","]
  {
    var dict := Obj([Member(inner, Int(n))]);
    assert Spaces(2) == "  " && Spaces(4) == "    " && "  " + "}" == "  }";
    assert [Member(key, dict)][1..] == [] && MemberLines([], 1) == [];
    hide IntText, Spaces, Print;
    OneMember(inner, n);
  }

  lemma PrintedList(key: string, n: int)
    ensures MemberLines([Member(key, List([Int(n)]))], 1)
         == ["  " + key + ": " + ("[\n" + (("    " + IntText(n) + ",\n") + "  ]")) + ","]
  {
    var list := List([Int(n)]);
    assert Spaces(2) == "  " && Spaces(4) == "    " && "  " + "]" == "  ]";
    assert [Member(key, list)][1..] == [] && MemberLines([], 1) == [];
    hide IntText, Spaces, Print;
    OneItem(n);
  }

  lemma NoneIsPlain()
    ensures EscapeText("None") == "None"
  {
    assert "None"[1..] == "one" && "one"[1..] == "ne" && "ne"[1..] == "e" && "e"[1..] == "";
    assert EscapeText("e") == "e" && EscapeText("ne") == "n" + "e";
    assert EscapeText("one") == "o" + "ne";
  }

  lemma OneMember(inner: string, n: int)
    ensures Print(Obj([Member(inner, Int(n))]), 1)
         == "{\n" + ((Spaces(4) + inner + ": " + IntText(n) + ",\n") + (Spaces(2) + "}"))
  {
    var ms := [Member(inner, Int(n))];
    assert ms[1..] == [];
    hide IntText, Spaces;
    var line := Spaces(4) + inner + ": " + IntText(n) + ",";
    assert MemberLines(ms, 2) == [line];
    ThreeLines("{", line, Spaces(2) + "}");
  }

  lemma OneItem(n: int)
    ensures Print(List([Int(n)]), 1) == "[\n" + ((Spaces(4) + IntText(n) + ",\n") + (Spaces(2) + "]"))
  {
    var items := [Int(n)];
    assert items[1..] == [];
    hide IntText, Spaces;
    var line := Spaces(4) + IntText(n) + ",";
    assert ItemLines(items, 2) == [line];
    ThreeLines("[", line, Spaces(2) + "]");
  }

  lemma ThreeLines(a: string, b: string, c: string)
    ensures Join([a] + [b] + [c], "\n") == a + "\n" + ((b + "\n") + c)
  {
    var all := [a] + [b] + [c];
    assert all[1..] == [b, c] && [b, c][1..] == [c];
    assert Join([b, c], "\n") == (b + "\n") + c;
    assert Join(all, "\n") == a + "\n" + Join([b, c], "\n");
  }

  // ------------------------------------------------------- blanks and comments

  /** A line comment is skipped up to the end of its line, or of the text. */
  lemma LineCommentIsSkipped(c: string, i: nat, text: string)
    requires At(c, i, "//" + text) && '\n' !in text
    requires i + 2 + |text| == |c| || (i + 2 + |text| < |c| && c[i + 2 + |text|] == '\n')
    ensures SkipBlank(c, i) == SkipBlank(c, i + 2 + |text|)
  {
    AtConcat(c, i, "//", text);
    AtIndex(c, i, "//", 0);
    AtIndex(c, i, "//", 1);
    forall k | i <= k < i + 2 + |text| ensures c[k] != '\n' {
      if k >= i + 2 {
        AtIndex(c, i + 2, text, k - i - 2);
        assert text[k - i - 2] in text;
      }
    }
    LineRuns(c, i, i + 2 + |text|);
    hide LineEnd;
  }

  lemma {:induction false} LineRuns(c: string, i: nat, end: nat)
    requires i <= end <= |c| && (forall k :: i <= k < end ==> c[k] != '\n') && (end == |c| || c[end] == '\n')
    ensures LineEnd(c, i) == end
    decreases end - i
  {
    if i < end { LineRuns(c, i + 1, end); }
  }

  lemma NoLineComment(c: string, i: nat)
    requires i + 1 < |c| && c[i + 1] != '/'
    ensures !At(c, i, "//")
  {
    hide At;
    if At(c, i, "//") { AtIndex(c, i, "//", 1); }
  }

  /** A block comment is skipped up to its first end. */
  lemma BlockCommentIsSkipped(c: string, i: nat, end: nat)
    requires At(c, i, "/*") && i + 2 <= end && At(c, end, "*/") && forall k: nat :: i + 2 <= k < end ==> !At(c, k, "*/")
    ensures SkipBlank(c, i) == SkipBlank(c, end + 2)
  {
    AtIndex(c, i, "/*", 0);
    AtIndex(c, i, "/*", 1);
    NoLineComment(c, i);
    CommentRuns(c, i + 2, end);
    hide CommentEnd, At;
  }

  lemma {:induction false} CommentRuns(c: string, i: nat, end: nat)
    requires i <= end && At(c, end, "*/") && forall k: nat :: i <= k < end ==> !At(c, k, "*/")
    ensures CommentEnd(c, i) == end
    decreases end - i
  {
    hide At;
    assert end + 2 <= |c| by { AtIndex(c, end, "*/", 1); }
    if i < end { CommentRuns(c, i + 1, end); }
  }

  /** Nothing else than the four blanks and comments is skipped. */
  lemma {:induction false} SkipsOnlyBlanks(c: string, i: nat)
    ensures i < |c| && c[i] in " \t\n\r" ==> SkipBlank(c, i) == SkipBlank(c, i + 1)
    ensures i < |c| && c[i] !in " \t\n\r" && !At(c, i, "//") && !At(c, i, "/*") ==> SkipBlank(c, i) == i
    ensures i >= |c| ==> SkipBlank(c, i) == i
  {
  }

  // ------------------------------------------------------------------- strings

  /** The value of hexadecimal digits, most significant first. */
  ghost function FourDigits(a: char, b: char, c: char, d: char): int {
    4096 * HexDigit(a) + 256 * HexDigit(b) + 16 * HexDigit(c) + HexDigit(d)
  }

  lemma HexOfFour(s: string)
    requires |s| == 4 && forall i :: 0 <= i < 4 ==> HexDigit(s[i]) >= 0
    ensures HexOf(s) == FourDigits(s[0], s[1], s[2], s[3]) && HexOf(s[..2]) == 16 * HexDigit(s[0]) + HexDigit(s[1])
  {
    assert s[..3][..2] == s[..2] && s[..2][..1] == s[..1] && s[..1][..0] == "";
    hide HexDigit;
    assert HexOf("") == 0;
    assert HexOf(s[..1]) == HexDigit(s[0]);
    assert HexOf(s[..2]) == 16 * HexOf(s[..1]) + HexDigit(s[1]);
    assert HexOf(s[..3]) == 16 * HexOf(s[..2]) + HexDigit(s[2]);
    assert HexOf(s) == 16 * HexOf(s[..3]) + HexDigit(s[3]);
  }

  /** An escape with four hexadecimal digits stands for the character with that code, and is six characters long; that
      of a lone surrogate for the replacement character. */
  lemma CodeEscape(c: string, i: nat)
    requires i + 6 <= |c| && c[i] == '\\' && c[i + 1] == 'u' && forall k :: i + 2 <= k < i + 6 ==> HexDigit(c[k]) >= 0
    ensures var code := FourDigits(c[i + 2], c[i + 3], c[i + 4], c[i + 5]);
      && ReadEscape(c, i).next == i + 6 && |ReadEscape(c, i).text| == 1
      && ReadEscape(c, i).text[0] as int == if 0xD800 <= code <= 0xDFFF then 0xFFFD else code
  {
    var s := c[i + 2..i + 6];
    assert s[0] == c[i + 2] && s[1] == c[i + 3] && s[2] == c[i + 4] && s[3] == c[i + 5];
    assert IsHex(s);
    HexOfFour(s);
    hide HexDigit, HexOf;
  }

  /** An escape with two hexadecimal digits is four characters long. */
  lemma ByteEscape(c: string, i: nat)
    requires i + 4 <= |c| && c[i] == '\\' && c[i + 1] == 'x' && HexDigit(c[i + 2]) >= 0 && HexDigit(c[i + 3]) >= 0
    ensures ReadEscape(c, i).next == i + 4 && |ReadEscape(c, i).text| == 1
    ensures ReadEscape(c, i).text[0] as int == 16 * HexDigit(c[i + 2]) + HexDigit(c[i + 3])
  {
    var s := c[i + 2..i + 4];
    assert s[0] == c[i + 2] && s[1] == c[i + 3] && s[..1][..0] == "";
    assert HexOf(s) == 16 * HexOf(s[..1]) + HexDigit(s[1]);
    assert HexOf(s[..1]) == HexDigit(s[0]);
    hide HexDigit, HexOf;
  }

  lemma HexStands(c: string, i: nat, n: nat)
    ensures HexAt(c, i, n) ==> i + n <= |c| && forall k :: i <= k < i + n ==> HexDigit(c[k]) >= 0
  {
    if HexAt(c, i, n) {
      var s := c[i..i + n];
      assert forall k :: i <= k < i + n ==> c[k] == s[k - i];
    }
  }

  /** Behind a backslash n, t and r stand for the control characters, and every other character for itself, u and x
      without their digits included. */
  lemma PlainEscapes(c: string, i: nat)
    requires i + 1 < |c| && c[i] == '\\'
    requires c[i + 1] == 'u' ==> !(i + 6 <= |c| && forall k :: i + 2 <= k < i + 6 ==> HexDigit(c[k]) >= 0)
    requires c[i + 1] == 'x' ==> !(i + 4 <= |c| && forall k :: i + 2 <= k < i + 4 ==> HexDigit(c[k]) >= 0)
    ensures ReadEscape(c, i).next == i + 2 && |ReadEscape(c, i).text| == 1
    ensures var x := ReadEscape(c, i).text[0] as int;
      x == if c[i + 1] == 'n' then 10 else if c[i + 1] == 't' then 9 else if c[i + 1] == 'r' then 13 else c[i + 1] as int
  {
    HexStands(c, i + 2, 4);
    HexStands(c, i + 2, 2);
    hide HexAt;
    hide HexDigit;
  }

  /** A backslash with a character behind it is an escape, before the closing quote is looked for; one at the end of the
      text is itself. */
  lemma BackslashIsRead(c: string, i: nat, quote: char, out: string)
    requires i < |c| && c[i] == '\\' && quote != '\\'
    ensures i + 1 < |c| ==>
      ReadString(c, i, quote, out) == ReadString(c, ReadEscape(c, i).next, quote, out + ReadEscape(c, i).text)
    ensures i + 1 == |c| ==> ReadString(c, i, quote, out) == Piece(out + "\\", |c|)
  {
    hide ReadEscape;
  }

  /** Characters other than the quote and the backslash are read as they are, in strings of either quote and in
      templates, up to the quote or the end of the text. */
  lemma {:induction false} ReadsPlain(c: string, i: nat, s: string, quote: char, out: string)
    requires At(c, i, s) && quote !in s && '\\' !in s
    requires i + |s| == |c| || (i + |s| < |c| && c[i + |s|] == quote && quote != '\\')
    ensures ReadString(c, i, quote, out) == Piece(out + s, i + |s|)
    decreases |s|
  {
    if s == "" {
      assert out + s == out;
    } else {
      AtIndex(c, i, s, 0);
      assert s == [s[0]] + s[1..] && s[0] in s;
      AtConcat(c, i, [s[0]], s[1..]);
      assert forall x <- s[1..] :: x in s;
      ReadsPlain(c, i + 1, s[1..], quote, out + [s[0]]);
      assert out + [s[0]] + s[1..] == out + s;
    }
  }

  // ---------------------------------------------------------------------- keys

  /** Among ASCII characters, letters, digits and underscores make words, and the ten digits are digits. */
  lemma WordsAreAscii(c: char)
    requires c < '\U{80}'
    ensures IsWord(c) <==> 65 <= c as int <= 90 || 97 <= c as int <= 122 || 48 <= c as int <= 57 || c as int == 95
    ensures IsDecimal(c) <==> 48 <= c as int <= 57
  {
  }

  lemma {:induction false} ColonBehind(c: string, i: nat, gap: string)
    requires At(c, i, gap + ":") && forall x <- gap :: IsSpace(x)
    ensures ColonAfter(c, i) == Some(i + |gap| + 1)
  {
    AtConcat(c, i, gap, ":");
    AtIndex(c, i + |gap|, ":", 0);
    forall k | i <= k < i + |gap| ensures IsSpace(c[k]) {
      AtIndex(c, i, gap, k - i);
      assert gap[k - i] in gap;
    }
    assert !IsSpace(':');
    SpacesRun(c, i, i + |gap|);
    hide SkipSpaces, IsSpace;
  }

  lemma {:induction false} SpacesRun(c: string, i: nat, end: nat)
    requires i <= end < |c| && (forall k :: i <= k < end ==> IsSpace(c[k])) && !IsSpace(c[end])
    ensures SkipSpaces(c, i) == end
    decreases end - i
  {
    hide IsSpace;
    if i < end { SpacesRun(c, i + 1, end); }
  }

  /** No colon behind the white space: no key. */
  lemma NoColon(c: string, i: nat, end: nat)
    requires i <= end <= |c| && (forall k :: i <= k < end ==> IsSpace(c[k]))
    requires end == |c| || (!IsSpace(c[end]) && c[end] != ':')
    ensures ColonAfter(c, i) == None
  {
    if end < |c| { SpacesRun(c, i, end); } else { SpacesToEnd(c, i); }
    hide SkipSpaces, IsSpace;
  }

  lemma {:induction false} SpacesToEnd(c: string, i: nat)
    requires i <= |c| && forall k :: i <= k < |c| ==> IsSpace(c[k])
    ensures SkipSpaces(c, i) == |c|
    decreases |c| - i
  {
    hide IsSpace;
    if i < |c| { SpacesToEnd(c, i + 1); }
  }

  /** One character of a quoted key as it is written: itself, or behind a backslash. */
  datatype Unit = Bare(x: char) | Escaped(x: char)

  ghost predicate IsUnit(u: Unit, quote: char) {
    match u
    case Bare(x) => x != quote && x != '\\'
    case Escaped(x) => x != '\n'
  }

  ghost function Written(units: seq<Unit>): string {
    if units == [] then "" else
      (match units[0] case Bare(x) => [x] case Escaped(x) => ['\\', x]) + Written(units[1..])
  }

  ghost function Meant(units: seq<Unit>): string {
    if units == [] then "" else [units[0].x] + Meant(units[1..])
  }

  lemma {:induction false} KeyIsMeant(units: seq<Unit>, quote: char)
    requires forall u <- units :: IsUnit(u, quote)
    ensures Unescaped(Written(units)) == Meant(units)
  {
    if units != [] {
      var u, rest := units[0], Written(units[1..]);
      assert u in units && forall v <- units[1..] :: v in units;
      KeyIsMeant(units[1..], quote);
      match u {
        case Bare(x) => assert ([x] + rest)[1..] == rest;
        case Escaped(x) => assert (['\\', x] + rest)[2..] == rest;
      }
    }
  }

  lemma {:induction false} QuoteEndsKey(c: string, i: nat, units: seq<Unit>, quote: char, colon: nat)
    requires quote == '"' || quote == '\''
    requires (forall u <- units :: IsUnit(u, quote)) && At(c, i, Written(units) + [quote])
    requires ColonAfter(c, i + |Written(units)| + 1) == Some(colon)
    ensures QuotedKeyEnd(c, i, quote) == Some((i + |Written(units)|, colon))
    decreases |units|
  {
    hide ColonAfter, At;
    var text := Written(units);
    if units == [] {
      AtIndex(c, i, text + [quote], 0);
    } else {
      var u, rest := units[0], Written(units[1..]);
      assert u in units && forall v <- units[1..] :: v in units;
      var e := match u case Bare(x) => [x] case Escaped(x) => ['\\', x];
      assert text + [quote] == e + (rest + [quote]);
      AtConcat(c, i, e, rest + [quote]);
      AtIndex(c, i, e, 0);
      if |e| == 2 { AtIndex(c, i, e, 1); }
      QuoteEndsKey(c, i + |e|, units[1..], quote, colon);
    }
  }

  lemma AtSlice(c: string, i: nat, s: string)
    requires At(c, i, s)
    ensures i + |s| <= |c| && c[i..i + |s|] == s
  {
  }

  /** A quoted key, with escapes, white space before its colon: the key is what its characters mean, and the index that
      behind the colon. */
  lemma QuotedKeyReads(c: string, i: nat, units: seq<Unit>, quote: char, gap: string)
    requires quote == '"' || quote == '\''
    requires (forall u <- units :: IsUnit(u, quote)) && forall x <- gap :: IsSpace(x)
    requires At(c, i, [quote] + ((Written(units) + [quote]) + (gap + ":")))
    ensures i < |c| && ReadKey(c, i) == Some(Key(Meant(units), i + |Written(units)| + |gap| + 3))
  {
    hide QuotedKeyEnd, ColonAfter, Unescaped, At, Written, Meant, IsUnit, IsSpace, WordEnd;
    var text := Written(units);
    AtConcat(c, i, [quote], (text + [quote]) + (gap + ":"));
    AtConcat(c, i + 1, text + [quote], gap + ":");
    AtIndex(c, i, [quote], 0);
    AtConcat(c, i + 1, text, [quote]);
    AtSlice(c, i + 1, text);
    ColonBehind(c, i + |text| + 2, gap);
    QuoteEndsKey(c, i + 1, units, quote, i + |text| + |gap| + 3);
    KeyIsMeant(units, quote);
  }

  /** A word in front of white space and a colon is a key; a character that is neither quote nor part of a word starts
      none. */
  lemma WordKeyReads(c: string, i: nat, word: string, gap: string)
    requires word != "" && (forall x <- word :: IsWord(x)) && forall x <- gap :: IsSpace(x)
    requires At(c, i, word + (gap + ":"))
    ensures i < |c| && ReadKey(c, i) == Some(Key(word, i + |word| + |gap| + 1))
  {
    hide ReadKey, WordEnd, ColonAfter, Unescaped, At, IsSpace, IsWord;
    AtConcat(c, i, word, gap + ":");
    WordStands(c, i, word, gap);
    ColonBehind(c, i + |word|, gap);
    NoBackslash(word);
    KeyFrom(c, i, i + |word|);
  }

  lemma WordStands(c: string, i: nat, word: string, gap: string)
    requires word != "" && (forall x <- word :: IsWord(x)) && forall x <- gap :: IsSpace(x)
    requires At(c, i, word) && At(c, i + |word|, gap + ":")
    ensures i + |word| < |c| && WordEnd(c, i) == i + |word| && c[i..i + |word|] == word && c[i] != '"' && c[i] != '\''
  {
    assert !IsWord('"') && !IsWord('\'');
    hide WordEnd, At, IsSpace, IsWord;
    AtIndex(c, i, word, 0);
    assert word[0] in word;
    AtIndex(c, i + |word|, gap + ":", 0);
    SpaceIsNoWord(gap);
    WordRuns(c, i, word);
  }

  lemma KeyFrom(c: string, i: nat, j: nat)
    requires i < j <= |c| && WordEnd(c, i) == j && ColonAfter(c, j).Some? && c[i] != '"' && c[i] != '\''
    ensures ReadKey(c, i) == Some(Key(Unescaped(c[i..j]), ColonAfter(c, j).value))
  {
    hide WordEnd, ColonAfter, Unescaped, QuotedKeyEnd;
  }

  lemma SpaceIsNoWord(gap: string)
    requires forall x <- gap :: IsSpace(x)
    ensures !IsWord((gap + ":")[0])
  {
    if gap != "" { assert gap[0] in gap && (gap + ":")[0] == gap[0]; }
  }

  lemma {:induction false} WordRuns(c: string, i: nat, word: string)
    requires At(c, i, word) && (forall x <- word :: IsWord(x)) && i + |word| < |c| && !IsWord(c[i + |word|])
    ensures WordEnd(c, i) == i + |word| && c[i..i + |word|] == word
    decreases |word|
  {
    hide IsWord;
    if word != "" {
      AtIndex(c, i, word, 0);
      assert word == [word[0]] + word[1..] && word[0] in word;
      AtConcat(c, i, [word[0]], word[1..]);
      assert forall x <- word[1..] :: x in word;
      WordRuns(c, i + 1, word[1..]);
    }
  }

  lemma {:induction false} NoBackslash(word: string)
    requires forall x <- word :: IsWord(x)
    ensures Unescaped(word) == word
  {
    if word != "" {
      assert word[0] in word && forall x <- word[1..] :: x in word;
      NoBackslash(word[1..]);
      assert [word[0]] + word[1..] == word;
    }
  }

  lemma NoKeyStarts(c: string, i: nat)
    requires i < |c| && !IsWord(c[i]) && c[i] != '"' && c[i] != '\''
    ensures ReadKey(c, i) == None
  {
  }

  // ------------------------------------------------------------------ literals

  /** Nothing, or digits with single underscores between them. */
  ghost predicate IsDigitsText(t: string) {
    t == "" || WithoutUnderscores(t).Some?
  }

  lemma {:induction false} DigitsRun(s: string, i: nat, t: string)
    requires At(s, i, t) && IsDigitsText(t)
    requires i + |t| == |s| || (i + |t| < |s| && !IsDecimal(s[i + |t|]) && s[i + |t|] != '_')
    ensures DigitsEnd(s, i) == i + |t|
    decreases |t|
  {
    if t != "" {
      AtIndex(s, i, t, 0);
      assert t == [t[0]] + t[1..];
      AtConcat(s, i, [t[0]], t[1..]);
      if |t| > 1 {
        AtIndex(s, i, t, 1);
        if t[1] == '_' {
          assert |t| == 2 ==> t[2..] == "";
          assert WithoutUnderscores("") == None && |t| > 2;
          AtIndex(s, i, t, 2);
          assert t == t[..2] + t[2..];
          AtConcat(s, i, t[..2], t[2..]);
          hide At, IsDecimal;
          DigitsRun(s, i + 2, t[2..]);
        } else {
          hide At, IsDecimal;
          DigitsRun(s, i + 1, t[1..]);
        }
      }
    }
  }

  lemma {:induction false} DigitsAre(s: string, i: nat)
    requires i <= |s|
    ensures DigitsEnd(s, i) <= |s| && IsDigitsText(s[i..DigitsEnd(s, i)])
    decreases |s| - i
  {
    assert !IsDecimal('_');
    hide IsDecimal;
    var e := DigitsEnd(s, i);
    var t := s[i..e];
    if i < |s| && IsDecimal(s[i]) {
      assert t[0] == s[i];
      if i + 2 < |s| && s[i + 1] == '_' && IsDecimal(s[i + 2]) {
        DigitsAre(s, i + 2);
        assert t[2..] == s[i + 2..e] && t[1] == '_';
      } else {
        DigitsAre(s, i + 1);
        assert t[1..] == s[i + 1..e];
      }
    }
  }

  /** Capital letters become small ones, and nothing else changes. */
  lemma LowerSays(s: string, i: nat)
    requires i < |s|
    ensures |Lower(s)| == |s|
    ensures Lower(s)[i] as int == if 65 <= s[i] as int <= 90 then s[i] as int + 32 else s[i] as int
  {
  }

  /** A number with a fraction, an exponent, or neither. */
  datatype Spelling = Spelling(sign: string, whole: string, fraction: Option<string>, power: Option<string>, powerSign: string,
                               exponent: string)

  ghost function Spelled(f: Spelling): string {
    f.sign + (f.whole + (FractionText(f) + PowerText(f)))
  }

  ghost function FractionText(f: Spelling): string {
    if f.fraction.Some? then "." + f.fraction.value else ""
  }

  ghost function PowerText(f: Spelling): string {
    if f.power.Some? then f.power.value + (f.powerSign + f.exponent) else ""
  }

  ghost predicate IsSign(s: string) {
    s == "" || s == "+" || s == "-"
  }

  ghost predicate IsSpelling(f: Spelling) {
    && IsSign(f.sign) && IsDigitsText(f.whole)
    && (f.fraction.Some? ==> IsDigitsText(f.fraction.value))
    && (f.whole != "" || (f.fraction.Some? && f.fraction.value != ""))
    && IsPower(f.power, f.powerSign, f.exponent)
  }

  ghost predicate IsPower(power: Option<string>, sign: string, exponent: string) {
    power.Some? ==> (power.value == "e" || power.value == "E") && IsSign(sign) && IsDigitsText(exponent) && exponent != ""
  }

  lemma SignRun(s: string, i: nat, sign: string)
    requires At(s, i, sign) && IsSign(sign)
    requires sign == "" ==> i >= |s| || (s[i] != '+' && s[i] != '-')
    ensures SignEnd(s, i) == i + |sign|
  {
    if sign != "" { AtIndex(s, i, sign, 0); }
  }

  lemma {:induction false} DigitsFirst(t: string)
    requires IsDigitsText(t) && t != ""
    ensures IsDecimal(t[0]) && t[0] != '+' && t[0] != '-' && t[0] != '.' && t[0] != '_'
  {
  }

  lemma LettersAreNoDigits()
    ensures !IsDecimal('.') && !IsDecimal('e') && !IsDecimal('E') && !IsDecimal('+') && !IsDecimal('-')
  {
  }

  ghost function WholeEnd(f: Spelling): nat {
    |f.sign| + |f.whole|
  }

  ghost function FractionEnd(f: Spelling): nat {
    WholeEnd(f) + |FractionText(f)|
  }

  lemma PowerEnds(f: Spelling)
    requires IsSpelling(f) && f.power.Some?
    ensures var s, i := Spelled(f), FractionEnd(f);
      && i < |s| && s[i] == f.power.value[0] && SignEnd(s, i + 1) == i + 1 + |f.powerSign|
      && DigitsEnd(s, i + 1 + |f.powerSign|) == |s| && |s| > i + 1 + |f.powerSign|
  {
    hide At, IsDigitsText, IsSign, Spelled, FractionText, FractionEnd, WholeEnd, IsDecimal;
    PartsStand(f);
    DigitsFirst(f.exponent);
    assert |f.power.value| == 1 && |PowerText(f)| == 1 + |f.powerSign| + |f.exponent|;
    hide IsSpelling, PowerText;
    PowerRuns(Spelled(f), FractionEnd(f), f.power.value, f.powerSign, f.exponent);
  }

  lemma PowerRuns(s: string, i: nat, power: string, sign: string, exponent: string)
    requires |power| == 1 && IsSign(sign) && IsDigitsText(exponent) && exponent != ""
    requires exponent[0] != '+' && exponent[0] != '-'
    requires At(s, i, power) && At(s, i + 1, sign) && At(s, i + 1 + |sign|, exponent)
    requires |s| == i + 1 + |sign| + |exponent|
    ensures s[i] == power[0] && SignEnd(s, i + 1) == i + 1 + |sign| && DigitsEnd(s, i + 1 + |sign|) == |s|
  {
    hide At, IsDigitsText, SignEnd, DigitsEnd;
    AtIndex(s, i, power, 0);
    AtIndex(s, i + 1 + |sign|, exponent, 0);
    SignRun(s, i + 1, sign);
    DigitsRun(s, i + 1 + |sign|, exponent);
  }

  lemma NumberStops(f: Spelling)
    requires IsSpelling(f)
    ensures var s, i := Spelled(f), FractionEnd(f);
      i <= |s| && (f.power.None? ==> i == |s|) && (i < |s| ==> !IsDecimal(s[i]) && s[i] != '.' && s[i] != '_')
  {
    LettersAreNoDigits();
    hide Spelled, At, IsDecimal, IsDigitsText, FractionText, IsSign;
    PartsStand(f);
    if f.power.Some? { AtIndex(Spelled(f), FractionEnd(f), f.power.value, 0); }
  }

  /** What follows the digits behind the point, or the digits before it, is no digit. */
  lemma FractionEnds(f: Spelling)
    requires IsSpelling(f)
    ensures var s, i := Spelled(f), WholeEnd(f);
      && FractionEnd(f) <= |s| && (f.power.None? ==> FractionEnd(f) == |s|)
      && (f.fraction.Some? ==> i < |s| && s[i] == '.' && DigitsEnd(s, i + 1) == FractionEnd(f))
      && (f.fraction.None? ==> !(i < |s| && (s[i] == '.' || s[i] == '_' || IsDecimal(s[i]))))
  {
    hide Spelled, At, IsDecimal, IsDigitsText, IsSign, IsPower;
    var s, i := Spelled(f), WholeEnd(f);
    PartsStand(f);
    NumberStops(f);
    if f.fraction.Some? {
      AtIndex(s, i, ".", 0);
      DigitsRun(s, i + 1, f.fraction.value);
    }
  }

  lemma WholeEnds(f: Spelling)
    requires IsSpelling(f)
    ensures var s := Spelled(f); SignEnd(s, 0) == |f.sign| && DigitsEnd(s, |f.sign|) == WholeEnd(f)
  {
    var s := Spelled(f);
    LettersAreNoDigits();
    PartsStand(f);
    FractionEnds(f);
    if f.whole != "" { DigitsFirst(f.whole); }
    hide Spelled, At, IsDecimal, IsDigitsText, FractionText;
    if f.whole != "" { AtIndex(s, |f.sign|, f.whole, 0); }
    DigitsRun(s, |f.sign|, f.whole);
    SignRun(s, 0, f.sign);
  }

  lemma PartsStand(f: Spelling)
    ensures var s := Spelled(f);
      && At(s, 0, f.sign) && At(s, |f.sign|, f.whole) && |s| == FractionEnd(f) + |PowerText(f)|
      && (f.fraction.Some? ==> At(s, WholeEnd(f), ".") && At(s, WholeEnd(f) + 1, f.fraction.value))
      && (f.power.Some? ==> At(s, FractionEnd(f), f.power.value) && At(s, FractionEnd(f) + |f.power.value|, f.powerSign)
                            && At(s, FractionEnd(f) + |f.power.value| + |f.powerSign|, f.exponent))
  {
    hide At, FractionText, PowerText;
    var s := Spelled(f);
    var tail := FractionText(f) + PowerText(f);
    AtItself(s);
    AtConcat(s, 0, f.sign, f.whole + tail);
    AtConcat(s, |f.sign|, f.whole, tail);
    AtConcat(s, |f.sign| + |f.whole|, FractionText(f), PowerText(f));
    hide Spelled;
    if f.fraction.Some? { FractionStands(f, s, WholeEnd(f)); }
    if f.power.Some? { PowerStands(f, s, FractionEnd(f)); }
  }

  lemma AtItself(s: string)
    ensures At(s, 0, s)
  {
    assert s[0..|s|] == s;
  }

  lemma FractionStands(f: Spelling, s: string, i: nat)
    requires At(s, i, FractionText(f)) && f.fraction.Some?
    ensures At(s, i, ".") && At(s, i + 1, f.fraction.value)
  {
    hide At;
    AtConcat(s, i, ".", f.fraction.value);
  }

  lemma PowerStands(f: Spelling, s: string, i: nat)
    requires At(s, i, PowerText(f)) && f.power.Some?
    ensures At(s, i, f.power.value) && At(s, i + |f.power.value|, f.powerSign)
    ensures At(s, i + |f.power.value| + |f.powerSign|, f.exponent)
  {
    hide At;
    AtConcat(s, i, f.power.value, f.powerSign + f.exponent);
    AtConcat(s, i + |f.power.value|, f.powerSign, f.exponent);
  }

  /** Where the parts of a number end. */
  ghost predicate NumberEnds(s: string, start: nat, whole: nat, point: bool, fraction: nat) {
    && start == SignEnd(s, 0) && whole == DigitsEnd(s, start) && (point <==> whole < |s| && s[whole] == '.')
    && fraction == (if point then DigitsEnd(s, whole + 1) else whole)
    && (whole > start || (point && fraction > whole + 1))
  }

  ghost predicate PowerFollows(s: string, fraction: nat) {
    && fraction < |s| && (s[fraction] == 'e' || s[fraction] == 'E')
    && DigitsEnd(s, SignEnd(s, fraction + 1)) == |s| && |s| > SignEnd(s, fraction + 1)
  }

  lemma FloatIsNumber(s: string, start: nat, whole: nat, point: bool, fraction: nat)
    requires start == SignEnd(s, 0) && whole == DigitsEnd(s, start) && (point <==> whole < |s| && s[whole] == '.')
    requires fraction == if point then DigitsEnd(s, whole + 1) else whole
    ensures IsFloat(s) <==>
      || (start <= |s| && Lower(s[start..]) in ["inf", "infinity", "nan"])
      || (NumberEnds(s, start, whole, point, fraction) && (fraction == |s| || PowerFollows(s, fraction)))
  {
    hide DigitsEnd, SignEnd, Lower;
  }

  lemma SpelledNumberEnds(f: Spelling)
    requires IsSpelling(f)
    ensures NumberEnds(Spelled(f), |f.sign|, WholeEnd(f), f.fraction.Some?, FractionEnd(f))
    ensures f.power.None? ==> FractionEnd(f) == |Spelled(f)|
  {
    WholeEnds(f);
    FractionEnds(f);
    hide Spelled, DigitsEnd, SignEnd, IsDigitsText, IsDecimal, IsSign;
  }

  lemma SpelledPowerFollows(f: Spelling)
    requires IsSpelling(f) && f.power.Some?
    ensures PowerFollows(Spelled(f), FractionEnd(f))
  {
    PowerEnds(f);
    hide Spelled, DigitsEnd, SignEnd, IsDigitsText, IsDecimal, IsSign, FractionEnd;
  }

  lemma SpelledIsFloat(f: Spelling)
    requires IsSpelling(f)
    ensures IsFloat(Spelled(f))
  {
    hide Spelled, DigitsEnd, SignEnd, Lower, IsFloat, IsSpelling, FractionEnd, WholeEnd, PowerFollows;
    SpelledNumberEnds(f);
    if f.power.Some? { SpelledPowerFollows(f); }
    FloatIsNumber(Spelled(f), |f.sign|, WholeEnd(f), f.fraction.Some?, FractionEnd(f));
  }

  /** A sign or none and one of three words, in letters of either case. */
  ghost predicate IsNamed(s: string) {
    exists sign, word :: IsSign(sign) && s == sign + word && Lower(word) in {"inf", "infinity", "nan"}
  }

  lemma SignIs(s: string, i: nat)
    requires i <= |s|
    ensures i <= SignEnd(s, i) <= |s| && IsSign(s[i..SignEnd(s, i)])
  {
  }

  /** Whatever is taken for a float is such a number or word. */
  lemma FloatIsSpelled(s: string)
    requires IsFloat(s)
    ensures IsNamed(s) || exists f :: IsSpelling(f) && Spelled(f) == s
  {
    hide DigitsEnd, SignEnd, Lower, IsDigitsText, Spelled, IsSpelling;
    var start := SignEnd(s, 0);
    SignIs(s, 0);
    assert s == s[0..start] + s[start..];
    if Lower(s[start..]) !in ["inf", "infinity", "nan"] {
      var f := SpellingOf(s);
    }
  }

  lemma SpellingOf(s: string) returns (f: Spelling)
    requires IsFloat(s) && SignEnd(s, 0) <= |s| && Lower(s[SignEnd(s, 0)..]) !in ["inf", "infinity", "nan"]
    ensures IsSpelling(f) && Spelled(f) == s
  {
    hide DigitsEnd, SignEnd, Lower, IsDigitsText, IsFloat, IsSpelling, Spelled;
    var start := SignEnd(s, 0);
    var whole := DigitsEnd(s, start);
    var point := whole < |s| && s[whole] == '.';
    var fraction := if point then DigitsEnd(s, whole + 1) else whole;
    FloatIsNumber(s, start, whole, point, fraction);
    f := SpellingFrom(s, start, whole, point, fraction);
  }

  lemma SpellingFrom(s: string, start: nat, whole: nat, point: bool, fraction: nat) returns (f: Spelling)
    requires NumberEnds(s, start, whole, point, fraction) && (fraction == |s| || PowerFollows(s, fraction))
    ensures IsSpelling(f) && Spelled(f) == s
  {
    SignIs(s, 0);
    DigitsAre(s, start);
    if point { DigitsAre(s, whole + 1); }
    assert start <= whole <= fraction <= |s|;
    var sign, digits := s[0..start], s[start..whole];
    var after := if point then Some(s[whole + 1..fraction]) else None;
    assert digits != "" || (point && after.value != "");
    assert IsDigitsText(digits) && (point ==> IsDigitsText(after.value));
    hide DigitsEnd, SignEnd, IsDigitsText, IsDecimal, IsSign, PowerFollows, IsPower, Spelled, NumberEnds;
    var tail := TailOf(s, fraction);
    f := Spelling(sign, digits, after, tail.power, tail.powerSign, tail.exponent);
    assert PowerText(f) == PowerText(tail);
    hide PowerText;
    SlicesJoin(s, start, whole, point, fraction, f);
  }

  lemma SlicesJoin(s: string, start: nat, whole: nat, point: bool, fraction: nat, f: Spelling)
    requires start <= whole <= fraction <= |s| && f.sign == s[0..start] && f.whole == s[start..whole]
    requires if point then whole < fraction && s[whole] == '.' && f.fraction == Some(s[whole + 1..fraction])
             else whole == fraction && f.fraction == None
    requires PowerText(f) == s[fraction..]
    ensures Spelled(f) == s
  {
    hide PowerText;
    assert FractionText(f) == s[whole..fraction];
    assert s == s[0..start] + (s[start..whole] + (s[whole..fraction] + s[fraction..]));
  }

  /** The power and exponent behind a number, if any. */
  lemma TailOf(s: string, fraction: nat) returns (f: Spelling)
    requires fraction == |s| || PowerFollows(s, fraction)
    ensures IsPower(f.power, f.powerSign, f.exponent)
    ensures fraction <= |s| && PowerText(f) == s[fraction..]
  {
    hide DigitsEnd, SignEnd, IsDigitsText, IsDecimal;
    if fraction == |s| {
      f := Spelling("", "", None, None, "", "");
    } else {
      SignIs(s, fraction + 1);
      var exponent := SignEnd(s, fraction + 1);
      DigitsAre(s, exponent);
      f := Spelling("", "", None, Some([s[fraction]]), s[fraction + 1..exponent], s[exponent..]);
      assert s[exponent..] == s[exponent..|s|];
      assert s[fraction..] == [s[fraction]] + (s[fraction + 1..exponent] + s[exponent..]);
    }
  }

  lemma NamedIsFloat(s: string)
    requires IsNamed(s)
    ensures IsFloat(s)
  {
    var sign, word :| IsSign(sign) && s == sign + word && Lower(word) in {"inf", "infinity", "nan"};
    assert |Lower(word)| == |word| && word != "";
    assert Lower(word)[0] == 'i' || Lower(word)[0] == 'n';
    if sign == "" {
      assert s == word && s[0..] == word;
    } else {
      assert s[0] == sign[0] && s[1..] == word;
    }
    hide Lower, DigitsEnd;
  }

  /** What a literal is read as: the two truth values, a run of digits with or without a dash as the integer it spells,
      otherwise a number or word that `float` knows, otherwise its own text. */
  lemma LiteralSays(s: string)
    ensures s == "true" ==> LiteralValue(s) == Bool(true)
    ensures s == "false" ==> LiteralValue(s) == Bool(false)
    ensures s != "true" && s != "false" ==>
      LiteralValue(s) == if IsInt(s) then Int(IntOf(s)) else if IsNamed(s) || IsNumber(s) then Float(s) else Str(s)
  {
    FloatExactly(s);
    hide IsFloat, IsInt, IntOf, IsNamed, IsNumber;
  }

  ghost predicate IsNumber(s: string) {
    exists f :: IsSpelling(f) && Spelled(f) == s
  }

  lemma FloatExactly(s: string)
    ensures IsFloat(s) <==> IsNamed(s) || IsNumber(s)
  {
    hide IsNamed, IsSpelling, Spelled;
    if IsFloat(s) { FloatIsSpelled(s); }
    hide IsFloat;
    if IsNamed(s) { NamedIsFloat(s); }
    forall f | IsSpelling(f) && Spelled(f) == s ensures IsFloat(s) { SpelledIsFloat(f); }
  }

  // ------------------------------------------------------------------ the export

  lemma SkipsGap(c: string, i: nat, gap: string)
    requires At(c, i, gap) && (forall x <- gap :: IsSpace(x)) && i + |gap| < |c| && !IsSpace(c[i + |gap|])
    ensures SkipSpaces(c, i) == i + |gap|
  {
    forall k | i <= k < i + |gap| ensures IsSpace(c[k]) {
      AtIndex(c, i, gap, k - i);
      assert gap[k - i] in gap;
    }
    SpacesRun(c, i, i + |gap|);
  }

  lemma LetterIsNoSpace()
    ensures !IsSpace('c') && !IsSpace('=') && !IsSpace('{') && !IsSpace(':')
  {
  }

  lemma AtEnds(c: string, i: nat, s: string)
    requires At(c, i, s)
    ensures i + |s| <= |c|
  {
  }

  /** Nothing, or a colon and a type without an equals sign. */
  ghost predicate IsTyped(t: string) {
    t == "" || (|t| >= 2 && t[0] == ':' && '=' !in t)
  }

  datatype Declaration = Declaration(first: string, second: string, gap: string, typed: string, pad: string)

  /** White space between the two words and the name, and behind them white space, a type or none, an equals sign, white
      space and the brace. */
  ghost predicate IsDeclaration(d: Declaration) {
    && d.first != "" && d.second != "" && IsTyped(d.typed)
    && IsGap(d.first) && IsGap(d.second) && IsGap(d.gap) && IsGap(d.pad)
  }

  ghost predicate IsGap(s: string) {
    forall x <- s :: IsSpace(x)
  }

  ghost function Declared(d: Declaration): string {
    d.gap + (d.typed + ("=" + (d.pad + "{")))
  }

  ghost function Declares(d: Declaration, name: string): string {
    "export" + (d.first + ("const" + (d.second + (name + Declared(d)))))
  }

  /** A declaration of `name` stands at `p`, and its last character, the brace, at `brace`. */
  ghost predicate DeclaredAt(c: string, p: nat, name: string, brace: nat) {
    exists d :: IsDeclaration(d) && At(c, p, Declares(d, name)) && brace == p + |Declares(d, name)| - 1
  }

  ghost predicate EndsAt(c: string, k: nat, equals: nat, brace: nat) {
    && k < |c| && equals == (if c[k] == ':' then FindChar(c, k + 1, '=') else k) && equals < |c| && c[equals] == '='
    && equals != k + 1 && SkipSpaces(c, equals + 1) == brace && brace < |c| && c[brace] == '{'
  }

  lemma TypeEnds(c: string, k: nat, typed: string, pad: string)
    requires At(c, k, typed + ("=" + (pad + "{"))) && IsTyped(typed) && forall x <- pad :: IsSpace(x)
    ensures EndsAt(c, k, k + |typed|, k + |typed| + 1 + |pad|) && k < |c| && !IsSpace(c[k])
  {
    hide IsSpace, At, SkipSpaces, FindChar;
    AtConcat(c, k, typed, "=" + (pad + "{"));
    AtConcat(c, k + |typed|, "=", pad + "{");
    AtConcat(c, k + |typed| + 1, pad, "{");
    AtIndex(c, k + |typed|, "=", 0);
    AtIndex(c, k + |typed| + 1 + |pad|, "{", 0);
    LetterIsNoSpace();
    if typed != "" {
      AtIndex(c, k, typed, 0);
      forall j | k + 1 <= j < k + |typed| ensures c[j] != '=' {
        AtIndex(c, k, typed, j - k);
        assert typed[j - k] in typed;
      }
      FindsFirst(c, k + 1, k + |typed|, '=');
    }
    SkipsGap(c, k + |typed| + 1, pad);
  }

  lemma FindsFirst(c: string, i: nat, j: nat, wanted: char)
    requires i <= j < |c| && c[j] == wanted && forall k :: i <= k < j ==> c[k] != wanted
    ensures FindChar(c, i, wanted) == j
  {
    assert FindChar(c, i, wanted) <= j;
  }

  lemma NameFound(c: string, i: nat, name: string, d: Declaration)
    requires name != "" && !IsSpace(name[0]) && IsDeclaration(d) && At(c, i, d.second + (name + Declared(d)))
    ensures SkipSpaces(c, i) == i + |d.second| && At(c, i + |d.second|, name)
    ensures var k := i + |d.second| + |name| + |d.gap|;
      SkipSpaces(c, i + |d.second| + |name|) == k && EndsAt(c, k, k + |d.typed|, k + |d.typed| + 1 + |d.pad|)
  {
    hide IsSpace, At, SkipSpaces, IsTyped, EndsAt;
    var j := i + |d.second|;
    AtConcat(c, i, d.second, name + Declared(d));
    AtConcat(c, j, name, Declared(d));
    AtConcat(c, j + |name|, d.gap, d.typed + ("=" + (d.pad + "{")));
    AtIndex(c, j, name, 0);
    TypeEnds(c, j + |name| + |d.gap|, d.typed, d.pad);
    SkipsGap(c, i, d.second);
    SkipsGap(c, j + |name|, d.gap);
  }

  lemma ExportFound(c: string, p: nat, name: string, d: Declaration)
    requires name != "" && !IsSpace(name[0]) && IsDeclaration(d) && At(c, p, Declares(d, name))
    ensures ExportAt(c, p, name) == Some(p + |Declares(d, name)| - 1)
  {
    hide IsSpace, At, SkipSpaces, IsTyped, FindChar;
    var rest := d.second + (name + Declared(d));
    var i := p + 6 + |d.first|;
    AtConcat(c, p, "export", d.first + ("const" + rest));
    AtConcat(c, p + 6, d.first, "const" + rest);
    AtConcat(c, i, "const", rest);
    AtIndex(c, i, "const", 0);
    LetterIsNoSpace();
    SkipsGap(c, p + 6, d.first);
    NameFound(c, i + 5, name, d);
  }

  lemma SlicesAre(c: string, i: nat, j: nat)
    requires i <= j <= |c| && forall k :: i <= k < j ==> IsSpace(c[k])
    ensures forall x <- c[i..j] :: IsSpace(x)
  {
  }

  lemma AtSliceOf(c: string, i: nat, j: nat, rest: string)
    requires i <= j <= |c| && At(c, j, rest)
    ensures At(c, i, c[i..j] + rest)
  {
  }

  lemma AtBoth(c: string, i: nat, s: string, rest: string)
    requires At(c, i, s) && At(c, i + |s|, rest)
    ensures At(c, i, s + rest)
  {
  }

  lemma TypeStands(c: string, k: nat, equals: nat, brace: nat)
    requires EndsAt(c, k, equals, brace)
    ensures k <= equals < brace < |c| && IsTyped(c[k..equals]) && IsGap(c[equals + 1..brace])
    ensures At(c, k, c[k..equals] + ("=" + (c[equals + 1..brace] + "{")))
  {
    hide IsSpace;
    var pad := c[equals + 1..brace];
    SpacesSkipped(c, equals + 1);
    assert At(c, brace, "{") && At(c, equals, "=");
    hide At;
    AtSliceOf(c, equals + 1, brace, "{");
    AtBoth(c, equals, "=", pad + "{");
    AtSliceOf(c, k, equals, "=" + (pad + "{"));
  }

  lemma PartsAreDeclared(c: string, p: nat, name: string, d: Declaration)
    requires At(c, p, "export") && At(c, p + 6, d.first) && At(c, p + 6 + |d.first|, "const")
    requires At(c, p + 11 + |d.first|, d.second + (name + Declared(d)))
    ensures At(c, p, Declares(d, name))
  {
    hide At, Declared;
    var rest := d.second + (name + Declared(d));
    AtBoth(c, p + 6 + |d.first|, "const", rest);
    AtBoth(c, p + 6, d.first, "const" + rest);
    AtBoth(c, p, "export", d.first + ("const" + rest));
  }

  lemma AtSelf(c: string, i: nat, j: nat)
    requires i <= j <= |c|
    ensures At(c, i, c[i..j])
  {
  }

  lemma ExportStands(c: string, p: nat, name: string)
    requires ExportAt(c, p, name).Some?
    ensures DeclaredAt(c, p, name, ExportAt(c, p, name).value)
  {
    hide IsSpace, At, IsTyped, IsGap, SkipSpaces, FindChar, DeclaredAt;
    var i := SkipSpaces(c, p + 6);
    var j := SkipSpaces(c, i + 5);
    var k := SkipSpaces(c, j + |name|);
    var equals := if k < |c| && c[k] == ':' then FindChar(c, k + 1, '=') else k;
    var brace := SkipSpaces(c, equals + 1);
    AtEnds(c, p, "export");
    AtEnds(c, i, "const");
    AtEnds(c, j, name);
    SpacesSkipped(c, p + 6);
    SpacesSkipped(c, i + 5);
    SpacesSkipped(c, j + |name|);
    var d := Declaration(c[p + 6..i], c[i + 5..j], c[j + |name|..k], c[k..equals], c[equals + 1..brace]);
    StandsAt(c, p, name, i, j, k, equals, brace, d);
  }

  /** What stands from the white space before the name on. */
  lemma NameStands(c: string, i: nat, j: nat, k: nat, name: string, d: Declaration)
    requires i <= j <= |c| && At(c, j, name) && j + |name| <= k <= |c|
    requires d.second == c[i..j] && d.gap == c[j + |name|..k] && At(c, k, d.typed + ("=" + (d.pad + "{")))
    ensures At(c, i, d.second + (name + Declared(d)))
  {
    hide At;
    AtSliceOf(c, j + |name|, k, d.typed + ("=" + (d.pad + "{")));
    AtBoth(c, j, name, Declared(d));
    AtSliceOf(c, i, j, name + Declared(d));
  }

  lemma StandsAt(c: string, p: nat, name: string, i: nat, j: nat, k: nat, equals: nat, brace: nat, d: Declaration)
    requires At(c, p, "export") && p + 6 < i && At(c, i, "const") && i + 5 < j && At(c, j, name) && j + |name| <= k
    requires EndsAt(c, k, equals, brace) && i <= |c| && j <= |c| && k <= equals < brace
    requires IsGap(c[p + 6..i]) && IsGap(c[i + 5..j]) && IsGap(c[j + |name|..k])
    requires d == Declaration(c[p + 6..i], c[i + 5..j], c[j + |name|..k], c[k..equals], c[equals + 1..brace])
    ensures DeclaredAt(c, p, name, brace)
  {
    TypeStands(c, k, equals, brace);
    assert |d.first| == i - p - 6 && |d.second| == j - i - 5 && |d.gap| == k - j - |name|;
    assert |d.typed| == equals - k && |d.pad| == brace - equals - 1;
    hide IsGap, At, IsTyped, EndsAt, Declared;
    assert IsDeclaration(d);
    hide IsDeclaration;
    NameStands(c, i + 5, j, k, name, d);
    AtSelf(c, p + 6, i);
    Declare(c, p, i, name, d, brace);
  }

  lemma Declare(c: string, p: nat, i: nat, name: string, d: Declaration, brace: nat)
    requires IsDeclaration(d) && At(c, p, "export") && At(c, p + 6, d.first) && i == p + 6 + |d.first| && At(c, i, "const")
    requires At(c, i + 5, d.second + (name + Declared(d)))
    requires brace == p + 12 + |d.first| + |d.second| + |name| + |d.gap| + |d.typed| + |d.pad|
    ensures DeclaredAt(c, p, name, brace)
  {
    hide At, IsDeclaration;
    DeclaresLength(d, name);
    PartsAreDeclared(c, p, name, d);
    hide Declares, Declared;
  }

  lemma DeclaresLength(d: Declaration, name: string)
    ensures |Declares(d, name)| == 13 + |d.first| + |d.second| + |name| + |d.gap| + |d.typed| + |d.pad|
  {
  }

  lemma SpacesSkipped(c: string, i: nat)
    requires i <= |c|
    ensures i <= SkipSpaces(c, i) <= |c| && IsGap(c[i..SkipSpaces(c, i)])
  {
    hide IsSpace;
    SkippedAreSpaces(c, i);
    SlicesAre(c, i, SkipSpaces(c, i));
  }

  lemma {:induction false} SkippedAreSpaces(c: string, i: nat)
    requires i <= |c|
    ensures SkipSpaces(c, i) <= |c| && forall k :: i <= k < SkipSpaces(c, i) ==> IsSpace(c[k])
    decreases |c| - i
  {
    hide IsSpace;
    if i < |c| && IsSpace(c[i]) { SkippedAreSpaces(c, i + 1); }
  }

  /** The pattern of the export matches at `p`, and ends on `brace`, exactly when a declaration stands there. */
  lemma ExportAtExactly(c: string, p: nat, name: string, brace: nat)
    requires name != "" && !IsSpace(name[0])
    ensures ExportAt(c, p, name) == Some(brace) <==> DeclaredAt(c, p, name, brace)
  {
    hide IsSpace, At, ExportAt, IsDeclaration, Declares;
    if ExportAt(c, p, name).Some? { ExportStands(c, p, name); }
    forall d | IsDeclaration(d) && At(c, p, Declares(d, name))
      ensures ExportAt(c, p, name) == Some(p + |Declares(d, name)| - 1)
    {
      ExportFound(c, p, name, d);
    }
  }

  /** The search stops at the brace of the first declaration of the name, and nowhere when the text has none. */
  lemma {:induction false} FindExportExactly(c: string, p: nat, name: string, brace: nat)
    requires name != "" && !IsSpace(name[0])
    ensures FindExport(c, p, name) == Some(brace)
       <==> exists q: nat :: p <= q && DeclaredAt(c, q, name, brace)
                          && forall k: nat, b: nat :: p <= k < q ==> !DeclaredAt(c, k, name, b)
    decreases |c| - p
  {
    hide DeclaredAt, ExportAt, IsSpace;
    forall k: nat, b: nat | p <= k ensures ExportAt(c, k, name) == Some(b) <==> DeclaredAt(c, k, name, b) {
      ExportAtExactly(c, k, name, b);
    }
    if p >= |c| {
      forall k: nat, b: nat | p <= k ensures !DeclaredAt(c, k, name, b) { NoDeclarationBehind(c, k, name, b); }
    } else if ExportAt(c, p, name).Some? {
      assert DeclaredAt(c, p, name, ExportAt(c, p, name).value);
    } else {
      FindExportExactly(c, p + 1, name, brace);
    }
  }

  lemma NoDeclarationBehind(c: string, p: nat, name: string, brace: nat)
    requires p >= |c|
    ensures !DeclaredAt(c, p, name, brace)
  {
  }

  /** A file is read at the brace of the first declaration of the locale's export, and refused when it has none. */
  lemma FileIsReadAtFirst(c: string, locale: string)
    ensures (forall q: nat, brace: nat :: !DeclaredAt(c, q, ExportName(locale), brace))
       ==> ReadFile(c, locale) == Raised(NoExport)
    ensures forall q: nat, brace: nat ::
      DeclaredAt(c, q, ExportName(locale), brace)
      && (forall k: nat, b: nat :: k < q ==> !DeclaredAt(c, k, ExportName(locale), b))
      ==> ReadFile(c, locale) == ReadValue(c, brace)
  {
    hide DeclaredAt, FindExport, ReadValue;
    var name := ExportName(locale);
    NameStarts(locale);
    forall brace: nat ensures FindExport(c, 0, name) == Some(brace)
         <==> exists q: nat :: DeclaredAt(c, q, name, brace)
                            && forall k: nat, b: nat :: k < q ==> !DeclaredAt(c, k, name, b)
    {
      FindExportExactly(c, 0, name, brace);
    }
    forall q: nat, brace: nat | DeclaredAt(c, q, name, brace)
        && forall k: nat, b: nat :: k < q ==> !DeclaredAt(c, k, name, b)
      ensures ReadFile(c, locale) == ReadValue(c, brace)
    {
      assert FindExport(c, 0, name) == Some(brace);
    }
    if FindExport(c, 0, name).Some? {
      assert FindExport(c, 0, name) == Some(FindExport(c, 0, name).value);
    }
  }

  lemma NameStarts(locale: string)
    ensures ExportName(locale) != "" && !IsSpace(ExportName(locale)[0])
  {
    assert ExportName(locale)[0] in ExportName(locale);
    hide ExportName;
  }
}
