/** Reading a printed dictionary gives the dictionary back. The lemmas follow the printer, from texts and literals
    to members, items and the file, and say where the index of the reader stands after each. */
module TypeScriptRoundTrip {
  import opened Text
  import opened Decimal
  import opened Dictionaries
  import opened TypeScript

  /** Word keys, distinct in every object, and string, integer or boolean leaves. */
  ghost predicate Printable(v: Value)
    decreases v, 1
  {
    match v
    case Obj(ms) => PrintableMembers(ms)
    case List(items) => forall i :: 0 <= i < |items| ==> Printable(items[i])
    case Str(_) => true
    case Int(_) => true
    case Bool(_) => true
    case Null => false
    case Float(_) => false
  }

  ghost predicate PrintableMembers(ms: seq<Member>)
    decreases ms, 0
  {
    && Distinct(ms)
    && forall i :: 0 <= i < |ms| ==> IsWordKey(ms[i].key) && Printable(ms[i].value)
  }

  ghost predicate IsWordKey(k: string) {
    k != "" && forall c <- k :: IsWord(c)
  }

  /** Lines, each ended by a line feed. */
  ghost function Block(lines: seq<string>): string {
    if lines == [] then "" else lines[0] + "\n" + Block(lines[1..])
  }

  lemma {:induction false} JoinIsBlock(lines: seq<string>, last: string)
    ensures Join(lines + [last], "\n") == Block(lines) + last
  {
    if lines == [] {
      assert lines + [last] == [last];
    } else {
      JoinIsBlock(lines[1..], last);
      assert (lines + [last])[1..] == lines[1..] + [last];
      assert lines[0] + "\n" + (Block(lines[1..]) + last) == lines[0] + "\n" + Block(lines[1..]) + last;
    }
  }

  lemma JoinBracketed(first: string, lines: seq<string>, last: string)
    ensures Join([first] + lines + [last], "\n") == first + "\n" + Block(lines) + last
  {
    JoinIsBlock([first] + lines, last);
    assert ([first] + lines)[1..] == lines;
  }

  lemma {:induction false} BlockSplits(c: string, i: nat, a: seq<string>, b: seq<string>)
    requires At(c, i, Block(a + b))
    ensures At(c, i, Block(a)) && At(c, i + |Block(a)|, Block(b))
    decreases |a|
  {
    hide At;
    if a == [] {
      assert a + b == b;
      AtNothing(c, i, Block(b));
    } else {
      assert (a + b)[1..] == a[1..] + b && (a + b)[0] == a[0];
      BlockLine(c, i, a + b);
      BlockSplits(c, i + |a[0]| + 1, a[1..], b);
      hide Block;
      BlockOfLine(c, i, a);
    }
  }

  lemma AtNothing(c: string, i: nat, s: string)
    requires At(c, i, s)
    ensures At(c, i, "")
  {
  }

  lemma BlockOfLine(c: string, i: nat, lines: seq<string>)
    requires lines != [] && At(c, i, lines[0]) && At(c, i + |lines[0]|, "\n")
    requires At(c, i + |lines[0]| + 1, Block(lines[1..]))
    ensures At(c, i, Block(lines)) && |Block(lines)| == |lines[0]| + 1 + |Block(lines[1..])|
  {
    hide At;
    AtConcat(c, i, lines[0] + "\n", Block(lines[1..]));
    AtConcat(c, i, lines[0], "\n");
  }

  lemma BlockLine(c: string, i: nat, lines: seq<string>)
    requires lines != [] && At(c, i, Block(lines))
    ensures At(c, i, lines[0]) && At(c, i + |lines[0]|, "\n")
    ensures At(c, i + |lines[0]| + 1, Block(lines[1..]))
    ensures |Block(lines)| == |lines[0]| + 1 + |Block(lines[1..])|
  {
    hide At;
    AtConcat(c, i, lines[0] + "\n", Block(lines[1..]));
    AtConcat(c, i, lines[0], "\n");
  }

  // ------------------------------------------------------------- small readers

  ghost predicate IsStop(c: string, i: nat) {
    i < |c| && c[i] !in " \t\n\r/"
  }

  lemma SkipStops(c: string, i: nat)
    requires IsStop(c, i)
    ensures SkipBlank(c, i) == i
  {
    assert c[i] != '/';
    if At(c, i, "//") { AtIndex(c, i, "//", 0); }
    if At(c, i, "/*") { AtIndex(c, i, "/*", 0); }
  }

  lemma {:induction false} SkipsSpaces(c: string, i: nat, n: nat)
    requires At(c, i, Spaces(n)) && IsStop(c, i + n)
    ensures SkipBlank(c, i) == i + n
    decreases n
  {
    if n == 0 {
      SkipStops(c, i);
    } else {
      AtIndex(c, i, Spaces(n), 0);
      AtConcat(c, i, [' '], Spaces(n - 1));
      assert [' '] + Spaces(n - 1) == Spaces(n);
      SkipsSpaces(c, i + 1, n - 1);
    }
  }

  /** A line feed, then the indent of the next line. */
  lemma SkipsIndent(c: string, i: nat, n: nat)
    requires i < |c| && c[i] == '\n' && At(c, i + 1, Spaces(n)) && IsStop(c, i + 1 + n)
    ensures SkipBlank(c, i) == i + 1 + n
  {
    SkipsSpaces(c, i + 1, n);
  }

  lemma {:induction false} WordEnds(c: string, i: nat, k: string)
    requires At(c, i, k) && (forall x <- k :: IsWord(x))
    requires i + |k| < |c| && !IsWord(c[i + |k|])
    ensures WordEnd(c, i) == i + |k|
    decreases |k|
  {
    if k != "" {
      AtIndex(c, i, k, 0);
      AtConcat(c, i, [k[0]], k[1..]);
      assert [k[0]] + k[1..] == k;
      WordEnds(c, i + 1, k[1..]);
    }
  }

  lemma {:induction false} UnescapedPlain(s: string)
    requires '\\' !in s
    ensures Unescaped(s) == s
  {
    if s != "" {
      UnescapedPlain(s[1..]);
    }
  }

  lemma ReadsWordKey(c: string, i: nat, k: string)
    requires IsWordKey(k) && At(c, i, k) && i + |k| < |c| && c[i + |k|] == ':'
    ensures i < |c| && ReadKey(c, i) == Some(Key(k, i + |k| + 1))
  {
    hide At, WordEnd, IsWord, IsSpace, Unescaped, QuotedKeyEnd, IsWordKey;
    WordKeyParts(c, i, k);
    assert SkipSpaces(c, i + |k|) == i + |k|;
  }

  lemma WordKeyParts(c: string, i: nat, k: string)
    requires IsWordKey(k) && At(c, i, k) && i + |k| < |c| && c[i + |k|] == ':'
    ensures c[i..i + |k|] == k && k != "" && WordEnd(c, i) == i + |k|
    ensures Unescaped(k) == k && c[i] != '"' && c[i] != '\'' && !IsSpace(':')
  {
    AtIndex(c, i, k, 0);
    assert k[0] in k;
    WordEnds(c, i, k);
    assert '\\' !in k by { forall x <- k ensures x != '\\' {} }
    UnescapedPlain(k);
  }

  lemma {:induction false} ReadsQuoted(c: string, i: nat, s: string, out: string)
    requires At(c, i, EscapeText(s)) && At(c, i + |EscapeText(s)|, "\"")
    ensures ReadString(c, i, '"', out) == Piece(out + s, i + |EscapeText(s)|)
    decreases |s|
  {
    hide At;
    AtIndex(c, i + |EscapeText(s)|, "\"", 0);
    if s == "" {
      assert out + s == out;
    } else {
      var e := EscapeChar(s[0]);
      hide ReadEscape;
      AtConcat(c, i, e, EscapeText(s[1..]));
      AtConcat(c, i + |e|, EscapeText(s[1..]), "\"");
      ReadsEscapeChar(c, i, s[0], out);
      ReadsQuoted(c, i + |e|, s[1..], out + [s[0]]);
      assert out + s == out + [s[0]] + s[1..];
    }
  }

  lemma ReadsEscapeChar(c: string, i: nat, x: char, out: string)
    requires At(c, i, EscapeChar(x)) && i + |EscapeChar(x)| < |c|
    ensures ReadString(c, i, '"', out) == ReadString(c, i + |EscapeChar(x)|, '"', out + [x])
  {
    var e := EscapeChar(x);
    AtIndex(c, i, e, 0);
    if |e| == 2 {
      AtIndex(c, i, e, 1);
      hide At, ReadString;
      assert ReadEscape(c, i) == Piece([x], i + 2);
    }
  }

  lemma {:induction false} LiteralEnds(c: string, i: nat, s: string)
    requires At(c, i, s + ",") && forall x <- s :: x !in ",}]\n"
    ensures LiteralEnd(c, i) == i + |s|
    decreases |s|
  {
    AtConcat(c, i, s, ",");
    if s == "" {
      AtIndex(c, i, ",", 0);
    } else {
      AtIndex(c, i, s, 0);
      AtConcat(c, i, [s[0]], s[1..]);
      assert [s[0]] + s[1..] == s;
      AtConcat(c, i + 1, s[1..], ",");
      LiteralEnds(c, i + 1, s[1..]);
    }
  }

  ghost predicate IsLiteral(s: string) {
    s != "" && forall x <- s :: IsDigit(x) || x == '-' || 'a' <= x <= 'z'
  }

  lemma StripLiteral(s: string)
    requires IsLiteral(s)
    ensures Strip(s) == s
  {
    forall x <- s ensures !IsSpace(x) {}
    assert s[0] in s && s[|s| - 1] in s;
    StripIdle(s);
  }

  lemma ReadsLiteral(c: string, i: nat, s: string)
    requires IsLiteral(s) && At(c, i, s) && At(c, i + |s|, ",")
    ensures ReadValue(c, i) == Done(LiteralValue(s), i + |s|)
  {
    hide At, SkipBlank, Strip, LiteralEnd, LiteralValue, IsStop, ReadMembers, ReadItems, ReadString, IsLiteral;
    LiteralSlice(c, i, s);
    LiteralStops(c, i, s);
    SkipStops(c, i);
    StripLiteral(s);
  }

  lemma LiteralSlice(c: string, i: nat, s: string)
    requires IsLiteral(s) && At(c, i, s) && At(c, i + |s|, ",")
    ensures i + |s| <= |c| && c[i..i + |s|] == s && s != "" && LiteralEnd(c, i) == i + |s|
  {
    AtConcat(c, i, s, ",");
    forall x <- s ensures x !in ",}]\n" {}
    LiteralEnds(c, i, s);
  }

  lemma LiteralStops(c: string, i: nat, s: string)
    requires IsLiteral(s) && At(c, i, s)
    ensures IsStop(c, i) && c[i] !in "{[\"'`"
  {
    AtIndex(c, i, s, 0);
    assert s[0] in s;
  }

  lemma IntIsLiteral(n: int)
    ensures IsLiteral(IntText(n)) && LiteralValue(IntText(n)) == Int(n)
  {
    hide IsFloat, Lower, IsDecimal, DigitsEnd;
    var digits := NatText(if n < 0 then -n else n);
    assert forall x <- digits :: IsDigit(x);
    assert digits[0] in digits;
    IntRoundTrip(n);
    hide NatText, NatOf, IsInt, IntOf, IsFloat;
    assert IntText(n)[0] == if n < 0 then '-' else digits[0];
  }

  lemma BoolIsLiteral(b: bool)
    ensures IsLiteral(if b then "true" else "false")
    ensures LiteralValue(if b then "true" else "false") == Bool(b)
  {
    assert "true" != "false" by { assert |"true"| != |"false"|; }
  }

  // ------------------------------------------------------------- whole values

  lemma IntStarts(n: int)
    ensures IntText(n) != "" && IntText(n)[0] !in " \t\n\r/}]"
  {
    IntIsLiteral(n);
    assert IntText(n)[0] in IntText(n);
  }

  /** Nothing printed starts with a blank, a comment or a closing bracket. */
  lemma PrintStarts(v: Value, indent: nat)
    requires Printable(v)
    ensures Print(v, indent) != "" && Print(v, indent)[0] !in " \t\n\r/}]"
  {
    hide MemberLines, ItemLines, Join, Block, IntText, IsLiteral, LiteralValue, EscapeText, Spaces;
    match v {
      case Obj(ms) => if ms != [] { JoinBracketed("{", MemberLines(ms, indent + 1), Spaces(2 * indent) + "}"); }
      case List(items) => if items != [] { JoinBracketed("[", ItemLines(items, indent + 1), Spaces(2 * indent) + "]"); }
      case Int(n) => IntStarts(n);
      case _ =>
    }
  }

  lemma PrintedIsStop(c: string, i: nat, v: Value, indent: nat)
    requires Printable(v) && At(c, i, Print(v, indent))
    ensures IsStop(c, i) && c[i] != ']'
  {
    PrintStarts(v, indent);
    hide Print, Printable;
    AtIndex(c, i, Print(v, indent), 0);
  }

  /** What stands where in the text of a non-empty container. */
  lemma ContainerParts(c: string, i: nat, open: string, lines: seq<string>, pad: nat, close: string)
    requires At(c, i, Join([open] + lines + [Spaces(pad) + close], "\n"))
    ensures var j := i + |open|;
      && At(c, i, open) && At(c, j, "\n")
      && At(c, j + 1, Block(lines))
      && At(c, j + 1 + |Block(lines)|, Spaces(pad))
      && At(c, j + 1 + |Block(lines)| + pad, close)
    ensures |Join([open] + lines + [Spaces(pad) + close], "\n")| == |open| + 1 + |Block(lines)| + pad + |close|
  {
    hide At;
    JoinBracketed(open, lines, Spaces(pad) + close);
    AtConcat(c, i, open + "\n" + Block(lines), Spaces(pad) + close);
    AtConcat(c, i, open + "\n", Block(lines));
    AtConcat(c, i, open, "\n");
    AtConcat(c, i + |open| + 1 + |Block(lines)|, Spaces(pad), close);
  }

  /** A printed value followed by a comma reads back as itself, ending at the comma. */
  lemma {:induction false} ReadsValue(c: string, i: nat, v: Value, indent: nat)
    requires Printable(v) && At(c, i, Print(v, indent)) && At(c, i + |Print(v, indent)|, ",")
    ensures ReadValue(c, i) == Done(v, i + |Print(v, indent)|)
    decreases v, 1
  {
    PrintedIsStop(c, i, v, indent);
    SkipStops(c, i);
    hide At, SkipBlank, IsStop, ReadValue, Print;
    match v {
      case Obj(ms) => ReadsObject(c, i, ms, indent);
      case List(items) => ReadsList(c, i, items, indent);
      case _ => ReadsLeaf(c, i, v, indent);
    }
  }

  lemma ReadsLeaf(c: string, i: nat, v: Value, indent: nat)
    requires IsLeaf(v) && Printable(v) && At(c, i, Print(v, indent)) && At(c, i + |Print(v, indent)|, ",")
    requires SkipBlank(c, i) == i
    ensures ReadValue(c, i) == Done(v, i + |Print(v, indent)|)
  {
    hide At, SkipBlank, ReadValue, IntText, LiteralValue, IsLiteral;
    match v {
      case Str(s) => ReadsText(c, i, s);
      case Int(n) =>
        IntIsLiteral(n);
        ReadsLiteral(c, i, IntText(n));
      case Bool(b) =>
        BoolIsLiteral(b);
        ReadsLiteral(c, i, if b then "true" else "false");
    }
  }

  lemma ReadsText(c: string, i: nat, s: string)
    requires At(c, i, Quoted(s)) && SkipBlank(c, i) == i
    ensures ReadValue(c, i) == Done(Str(s), i + |Quoted(s)|)
  {
    hide At, SkipBlank, EscapeText, ReadMembers, ReadItems, ReadString;
    AtConcat(c, i, "\"" + EscapeText(s), "\"");
    AtConcat(c, i, "\"", EscapeText(s));
    AtConcat(c, i + 1, EscapeText(s), "\"");
    AtIndex(c, i, "\"", 0);
    ReadsQuoted(c, i + 1, s, "");
    assert "" + s == s;
  }

  lemma ReadsEmpty(c: string, i: nat, v: Value)
    requires SkipBlank(c, i) == i
    requires (v == Obj([]) && At(c, i, "{}")) || (v == List([]) && At(c, i, "[]"))
    ensures ReadValue(c, i) == Done(v, i + 2)
  {
    var text := if v.Obj? then "{}" else "[]";
    AtIndex(c, i, text, 0);
    AtIndex(c, i, text, 1);
    SkipStops(c, i + 1);
  }

  lemma {:induction false} ReadsObject(c: string, i: nat, ms: seq<Member>, indent: nat)
    requires PrintableMembers(ms) && At(c, i, Print(Obj(ms), indent)) && SkipBlank(c, i) == i
    ensures ReadValue(c, i) == Done(Obj(ms), i + |Print(Obj(ms), indent)|)
    decreases ms, 3
  {
    hide At, SkipBlank, MemberLines, ReadMembers, ReadItems, ReadString, Join, Block;
    if ms == [] {
      ReadsEmpty(c, i, Obj([]));
    } else {
      ContainerParts(c, i, "{", MemberLines(ms, indent + 1), 2 * indent, "}");
      AtIndex(c, i, "{", 0);
      assert [] + ms == ms;
      ReadsMembers(c, i + 1, ms, indent + 1, 2 * indent, []);
    }
  }

  /** From the line feed before the first member to the closing brace. */
  lemma {:induction false} ReadsMembers(c: string, i: nat, ms: seq<Member>, indent: nat, pad: nat, result: seq<Member>)
    requires At(c, i, "\n") && At(c, i + 1, Block(MemberLines(ms, indent)))
    requires At(c, i + 1 + |Block(MemberLines(ms, indent))|, Spaces(pad))
    requires At(c, i + 1 + |Block(MemberLines(ms, indent))| + pad, "}")
    requires Distinct(result + ms)
    requires forall k :: 0 <= k < |ms| ==> IsWordKey(ms[k].key) && Printable(ms[k].value)
    ensures ReadMembers(c, i, result)
         == Done(result + ms, i + 1 + |Block(MemberLines(ms, indent))| + pad)
    decreases ms, 2
  {
    hide At, SkipBlank, Print, ReadKey, ReadValue, Printable, SkipComma, IsStop, IsWordKey, Block;
    if ms == [] {
      NoLines();
      ReadsClose(c, i, pad, "}");
      assert result + ms == result;
    } else {
      var k, v, rest := ms[0].key, ms[0].value, MemberLines(ms[1..], indent);
      var j, p := i + 1 + 2 * indent, Print(v, indent);
      BlockLine(c, i + 1, MemberLines(ms, indent));
      assert MemberLines(ms, indent)[1..] == rest;
      hide MemberLines;
      ReadsEntry(c, i, k, v, indent);
      PutNew(result, ms);
      assert result + [ms[0]] + ms[1..] == result + ms;
      ReadsMembers(c, j + |k| + 2 + |p| + 1, ms[1..], indent, pad, result + [ms[0]]);
    }
  }

  lemma NoLines()
    ensures Block([]) == ""
  {
  }

  lemma PutNew(result: seq<Member>, ms: seq<Member>)
    requires ms != [] && Distinct(result + ms)
    ensures Put(result, ms[0].key, ms[0].value) == result + [ms[0]]
  {
    var all := result + ms;
    forall j | 0 <= j < |result|
      ensures result[j].key != ms[0].key
    {
      assert all[j] == result[j] && all[|result|] == ms[0];
    }
  }

  /** The line of a closing bracket. */
  lemma ReadsClose(c: string, i: nat, pad: nat, close: string)
    requires close == "}" || close == "]"
    requires At(c, i, "\n") && At(c, i + 1, Spaces(pad)) && At(c, i + 1 + pad, close)
    ensures SkipBlank(c, i) == i + 1 + pad < |c| && c[i + 1 + pad] == close[0]
  {
    hide At, SkipBlank;
    AtIndex(c, i, "\n", 0);
    AtIndex(c, i + 1 + pad, close, 0);
    SkipsIndent(c, i, pad);
  }

  /** The indent, key, colon, value and comma of one member. */
  lemma {:induction false} ReadsEntry(c: string, i: nat, k: string, v: Value, indent: nat)
    requires IsWordKey(k) && Printable(v)
    requires At(c, i, "\n") && At(c, i + 1, Spaces(2 * indent) + k + ": " + Print(v, indent) + ",")
    ensures var j, a := i + 1 + 2 * indent, i + 1 + 2 * indent + |k| + 2;
      && SkipBlank(c, i) == j < |c| && c[j] != '}'
      && ReadKey(c, j) == Some(Key(k, a - 1))
      && SkipBlank(c, a - 1) == a
      && ReadValue(c, a) == Done(v, a + |Print(v, indent)|)
      && SkipComma(c, a + |Print(v, indent)|) == a + |Print(v, indent)| + 1
    decreases v, 2
  {
    hide At, SkipBlank, Print, ReadKey, ReadValue, Printable;
    var j, p, pad := i + 1 + 2 * indent, Print(v, indent), Spaces(2 * indent);
    var a := j + |k| + 1;
    AtConcat(c, i + 1, pad + k + ": " + p, ",");
    AtConcat(c, i + 1, pad + k + ": ", p);
    AtConcat(c, i + 1, pad + k, ": ");
    AtConcat(c, i + 1, pad, k);
    AtIndex(c, i, "\n", 0);
    AtIndex(c, j + |k|, ": ", 0);
    AtIndex(c, a - 1, ": ", 1);
    AtIndex(c, a + 1 + |p|, ",", 0);
    ReadsWordKey(c, j, k);
    KeyIsStop(c, j, k);
    SkipsIndent(c, i, 2 * indent);
    PrintedIsStop(c, a + 1, v, indent);
    SkipsOneBlank(c, a);
    ReadsValue(c, a + 1, v, indent);
    SkipStops(c, a + 1 + |p|);
  }

  lemma SkipsOneBlank(c: string, i: nat)
    requires i < |c| && c[i] == ' ' && IsStop(c, i + 1)
    ensures SkipBlank(c, i) == i + 1
  {
    SkipStops(c, i + 1);
  }

  lemma KeyIsStop(c: string, i: nat, k: string)
    requires IsWordKey(k) && At(c, i, k)
    ensures IsStop(c, i) && c[i] != '}'
  {
    AtIndex(c, i, k, 0);
    assert k[0] in k;
  }

  lemma {:induction false} ReadsList(c: string, i: nat, items: seq<Value>, indent: nat)
    requires Printable(List(items)) && At(c, i, Print(List(items), indent)) && SkipBlank(c, i) == i
    ensures ReadValue(c, i) == Done(List(items), i + |Print(List(items), indent)|)
    decreases items, 3
  {
    hide At, SkipBlank, ItemLines, ReadMembers, ReadItems, ReadString, Join, Block;
    if items == [] {
      ReadsEmpty(c, i, List([]));
    } else {
      ContainerParts(c, i, "[", ItemLines(items, indent + 1), 2 * indent, "]");
      AtIndex(c, i, "[", 0);
      assert [] + items == items;
      ReadsItems(c, i + 1, items, indent + 1, 2 * indent, []);
    }
  }

  /** From the line feed before the first item to the closing bracket. */
  lemma {:induction false} ReadsItems(c: string, i: nat, items: seq<Value>, indent: nat, pad: nat, result: seq<Value>)
    requires At(c, i, "\n") && At(c, i + 1, Block(ItemLines(items, indent)))
    requires At(c, i + 1 + |Block(ItemLines(items, indent))|, Spaces(pad))
    requires At(c, i + 1 + |Block(ItemLines(items, indent))| + pad, "]")
    requires forall k :: 0 <= k < |items| ==> Printable(items[k])
    ensures ReadItems(c, i, result)
         == Done(result + items, i + 1 + |Block(ItemLines(items, indent))| + pad)
    decreases items, 2
  {
    hide At, SkipBlank, Print, ReadValue, Printable, SkipComma, Block;
    if items == [] {
      NoLines();
      ReadsClose(c, i, pad, "]");
      assert result + items == result;
    } else {
      var j, p := i + 1 + 2 * indent, Print(items[0], indent);
      BlockLine(c, i + 1, ItemLines(items, indent));
      assert ItemLines(items, indent)[1..] == ItemLines(items[1..], indent);
      hide ItemLines;
      ReadsItem(c, i, items[0], indent);
      assert result + [items[0]] + items[1..] == result + items;
      ReadsItems(c, j + |p| + 1, items[1..], indent, pad, result + [items[0]]);
    }
  }

  /** The indent, value and comma of one item. */
  lemma {:induction false} ReadsItem(c: string, i: nat, v: Value, indent: nat)
    requires Printable(v)
    requires At(c, i, "\n") && At(c, i + 1, Spaces(2 * indent) + Print(v, indent) + ",")
    ensures var j := i + 1 + 2 * indent;
      && SkipBlank(c, i) == j < |c| && c[j] != ']'
      && ReadValue(c, j) == Done(v, j + |Print(v, indent)|)
      && SkipComma(c, j + |Print(v, indent)|) == j + |Print(v, indent)| + 1
    decreases v, 2
  {
    hide At, SkipBlank, Print, ReadValue, Printable;
    var j, p := i + 1 + 2 * indent, Print(v, indent);
    AtConcat(c, i + 1, Spaces(2 * indent) + p, ",");
    AtConcat(c, i + 1, Spaces(2 * indent), p);
    AtIndex(c, i, "\n", 0);
    AtIndex(c, j + |p|, ",", 0);
    PrintedIsStop(c, j, v, indent);
    SkipsIndent(c, i, 2 * indent);
    ReadsValue(c, j, v, indent);
    SkipStops(c, j + |p|);
  }

  // --------------------------------------------------------------- whole files

  const DECLARE := "export const "
  const TYPED := ": Dictionary = {"

  /** Reading the printed file gives back the dictionary, members in the same order. */
  lemma {:induction false} FileRoundTrip(locale: string, ms: seq<Member>)
    requires PrintableMembers(ms)
    ensures ReadFile(PrintFile(locale, ms), locale).Done?
    ensures ReadFile(PrintFile(locale, ms), locale).value == Obj(ms)
  {
    var c, name := PrintFile(locale, ms), ExportName(locale);
    FileParts(locale, ms);
    hide At, SkipBlank, MemberLines, Block, ReadMembers, ReadItems, ReadString, FindExport, PrintFile, ExportName;
    var start := |IMPORT_LINE| + 2;
    var brace := start + |DECLARE| + |name| + |TYPED| - 1;
    FindsExport(c, name);
    assert [] + ms == ms;
    ReadsMembers(c, brace + 1, ms, 1, 0, []);
    SkipStops(c, brace);
  }

  lemma FileParts(locale: string, ms: seq<Member>)
    ensures FileAt(PrintFile(locale, ms), IMPORT_LINE, DECLARE, ExportName(locale), TYPED, MemberLines(ms, 1))
  {
    FileLines(locale, ms);
    FileSplits(PrintFile(locale, ms), IMPORT_LINE, DECLARE, ExportName(locale), TYPED, MemberLines(ms, 1));
  }

  /** What stands where in a printed file. */
  ghost predicate FileAt(c: string, first: string, declare: string, name: string, typed: string, members: seq<string>) {
    var start := |first| + 2;
    var i := start + |declare| + |name| + |typed|;
    && At(c, 0, first) && At(c, |first|, "\n") && At(c, |first| + 1, "\n")
    && At(c, start, declare) && At(c, start + |declare|, name) && At(c, start + |declare| + |name|, typed)
    && At(c, i, "\n")
    && At(c, i + 1, Block(members))
    && At(c, i + 1 + |Block(members)|, Spaces(0))
    && At(c, i + 1 + |Block(members)| + 0, "}")
  }

  lemma FileSplits(c: string, first: string, declare: string, name: string, typed: string, members: seq<string>)
    requires At(c, 0, Block([first, "", declare + name + typed] + (members + ["};"])))
    ensures FileAt(c, first, declare, name, typed, members)
  {
    hide At, Block;
    var third, start := declare + name + typed, |first| + 2;
    var i := start + |third|;
    BlockSplits(c, 0, [first, "", third], members + ["};"]);
    ThreeLines(c, first, third);
    BlockSplits(c, i + 1, members, ["};"]);
    BlockLine(c, i + 1 + |Block(members)|, ["};"]);
    assert "};" == "}" + ";" && Spaces(0) + "}" == "}";
    AtConcat(c, i + 1 + |Block(members)|, "}", ";");
    AtConcat(c, start, declare + name, typed);
    AtConcat(c, start, declare, name);
    AtConcat(c, i + 1 + |Block(members)|, Spaces(0), "}");
  }

  lemma FileLines(locale: string, ms: seq<Member>)
    ensures var third := DECLARE + ExportName(locale) + TYPED;
      At(PrintFile(locale, ms), 0, Block([IMPORT_LINE, "", third] + (MemberLines(ms, 1) + ["};"])))
  {
    var third := DECLARE + ExportName(locale) + TYPED;
    var lines := [IMPORT_LINE, "", third] + (MemberLines(ms, 1) + ["};"]);
    assert third == "export const " + ExportName(locale) + ": Dictionary = {";
    assert [IMPORT_LINE, "", third] + MemberLines(ms, 1) + ["};", ""] == lines + [""];
    assert PrintFile(locale, ms) == Join(lines + [""], "\n");
    JoinIsBlock(lines, "");
    hide MemberLines, ExportName, Join, Block;
  }

  lemma ThreeLines(c: string, first: string, third: string)
    requires At(c, 0, Block([first, "", third]))
    ensures At(c, 0, first) && At(c, |first|, "\n") && At(c, |first| + 1, "\n")
    ensures At(c, |first| + 2, third) && At(c, |first| + 2 + |third|, "\n")
    ensures |Block([first, "", third])| == |first| + 2 + |third| + 1
  {
    BlockLine(c, 0, [first, "", third]);
    assert [first, "", third][1..] == ["", third];
    BlockLine(c, |first| + 1, ["", third]);
    assert ["", third][1..] == [third];
    BlockLine(c, |first| + 2, [third]);
    NoLines();
    assert [third][1..] == [];
  }

  lemma {:induction false} FindsExport(c: string, name: string)
    requires name != "" && forall x <- name :: IsNameChar(x)
    requires At(c, 0, IMPORT_LINE) && At(c, |IMPORT_LINE|, "\n") && At(c, |IMPORT_LINE| + 1, "\n")
    requires var start := |IMPORT_LINE| + 2;
      At(c, start, DECLARE) && At(c, start + |DECLARE|, name) && At(c, start + |DECLARE| + |name|, TYPED)
    ensures var brace := |IMPORT_LINE| + 2 + |DECLARE| + |name| + |TYPED| - 1;
      brace < |c| && c[brace] == '{' && FindExport(c, 0, name) == Some(brace)
  {
    var start := |IMPORT_LINE| + 2;
    forall p: nat | p < start
      ensures !At(c, p, "export")
    {
      if At(c, p, "export") { NoExportInHead(c, p); }
    }
    hide At, ExportAt;
    ExportHere(c, start, name);
    AtIndex(c, start + |DECLARE| + |name|, TYPED, |TYPED| - 1);
    FindsAt(c, 0, start, name);
  }

  lemma NoExportInHead(c: string, p: nat)
    requires At(c, 0, IMPORT_LINE) && At(c, |IMPORT_LINE|, "\n") && At(c, |IMPORT_LINE| + 1, "\n")
    requires p < |IMPORT_LINE| + 2
    ensures !At(c, p, "export")
  {
    if At(c, p, "export") {
      AtIndex(c, p, "export", 0);
      AtIndex(c, p, "export", 1);
      hide At;
      AtIndex(c, |IMPORT_LINE|, "\n", 0);
      AtIndex(c, |IMPORT_LINE| + 1, "\n", 0);
      if p + 1 < |IMPORT_LINE| {
        AtIndex(c, 0, IMPORT_LINE, p + 1);
      }
    }
  }

  lemma {:induction false} FindsAt(c: string, p: nat, q: nat, name: string)
    requires p <= q < |c| && ExportAt(c, q, name).Some?
    requires forall k: nat :: p <= k < q ==> !At(c, k, "export")
    ensures FindExport(c, p, name) == ExportAt(c, q, name)
    decreases q - p
  {
    if p < q {
      FindsAt(c, p + 1, q, name);
    }
  }

  lemma SkipsOneSpace(c: string, i: nat)
    requires i + 1 < |c| && c[i] == ' ' && !IsSpace(c[i + 1])
    ensures SkipSpaces(c, i) == i + 1
  {
  }

  lemma ExportHere(c: string, p: nat, name: string)
    requires name != "" && forall x <- name :: IsNameChar(x)
    requires At(c, p, DECLARE) && At(c, p + |DECLARE|, name) && At(c, p + |DECLARE| + |name|, TYPED)
    ensures ExportAt(c, p, name) == Some(p + |DECLARE| + |name| + |TYPED| - 1)
  {
    var k := p + 13 + |name|;
    assert k + |TYPED| <= |c|;
    hide At, SkipSpaces, IsSpace, FindChar;
    DeclareParts(c, p);
    NameIsNoSpace(name);
    AtIndex(c, p + 13, name, 0);
    TypedParts(c, k);
    SkipsOneSpace(c, p + 6);
    SkipsOneSpace(c, p + 12);
    SkipsOneSpace(c, k + 14);
  }

  lemma DeclareParts(c: string, p: nat)
    requires At(c, p, DECLARE)
    ensures p + 13 <= |c| && At(c, p, "export") && At(c, p + 7, "const")
    ensures c[p + 6] == ' ' && c[p + 7] == 'c' && c[p + 12] == ' '
  {
    assert DECLARE == "export" + " " + "const" + " ";
    hide At;
    AtConcat(c, p, "export" + " " + "const", " ");
    AtConcat(c, p, "export" + " ", "const");
    AtConcat(c, p, "export", " ");
    AtIndex(c, p + 6, " ", 0);
    AtIndex(c, p + 7, "const", 0);
    AtIndex(c, p + 12, " ", 0);
  }

  lemma TypedParts(c: string, k: nat)
    requires At(c, k, TYPED)
    ensures k + 16 <= |c| && c[k] == ':' && c[k + 13] == '=' && c[k + 14] == ' ' && c[k + 15] == '{'
    ensures FindChar(c, k + 1, '=') == k + 13
  {
    forall d: nat | d < 16
      ensures k + d < |c| && c[k + d] == TYPED[d]
    {
      AtIndex(c, k, TYPED, d);
    }
    hide At;
    assert c[k + 13] == TYPED[13] && c[k + 14] == TYPED[14] && c[k + 15] == TYPED[15] && c[k + 0] == TYPED[0];
    forall j | k + 1 <= j < k + 13
      ensures c[j] != '='
    {
      assert c[k + (j - k)] == TYPED[j - k];
    }
    FindsChar(c, k + 1, k + 13, '=');
  }

  lemma NameIsNoSpace(name: string)
    requires name != "" && forall x <- name :: IsNameChar(x)
    ensures !IsSpace(name[0]) && !IsSpace('c') && !IsSpace(':') && !IsSpace('{')
  {
    assert name[0] in name;
  }

  lemma FindsChar(c: string, i: nat, j: nat, wanted: char)
    requires i <= j < |c| && c[j] == wanted
    requires forall k :: i <= k < j ==> c[k] != wanted
    ensures FindChar(c, i, wanted) == j
  {
    assert FindChar(c, i, wanted) <= j;
  }
}
