/** The printer and the reader as the loops the translation manager runs. */
module TypeScriptLoops {
  import opened Text
  import opened Decimal
  import opened Dictionaries
  import opened TypeScript

  method SerializeValue(v: Value, indent: nat) returns (text: string)
    ensures text == Print(v, indent)
    decreases v
  {
    match v {
      case Obj(ms) =>
        if ms == [] { return "{}"; }
        var lines := ["{"];
        for i := 0 to |ms|
          invariant lines + MemberLines(ms[i..], indent + 1) == ["{"] + MemberLines(ms, indent + 1)
        {
          var value := SerializeValue(ms[i].value, indent + 1);
          assert ms[i..][1..] == ms[i + 1..];
          lines := lines + [Spaces(2 * (indent + 1)) + ms[i].key + ": " + value + ","];
        }
        assert lines == ["{"] + MemberLines(ms, indent + 1);
        text := Join(lines + [Spaces(2 * indent) + "}"], "\n");
      case List(items) =>
        if items == [] { return "[]"; }
        var lines := ["["];
        for i := 0 to |items|
          invariant lines + ItemLines(items[i..], indent + 1) == ["["] + ItemLines(items, indent + 1)
        {
          var value := SerializeValue(items[i], indent + 1);
          assert items[i..][1..] == items[i + 1..];
          lines := lines + [Spaces(2 * (indent + 1)) + value + ","];
        }
        assert lines == ["["] + ItemLines(items, indent + 1);
        text := Join(lines + [Spaces(2 * indent) + "]"], "\n");
      case Bool(b) => text := if b then "true" else "false";
      case Int(n) => text := IntText(n);
      case Str(s) => text := Quoted(s);
      case Null => text := Quoted("None");
      case Float(literal) => text := literal;
    }
  }

  method SerializeFile(locale: string, ms: seq<Member>) returns (text: string)
    ensures text == PrintFile(locale, ms)
  {
    var lines := [IMPORT_LINE, "", "export const " + ExportName(locale) + ": Dictionary = {"];
    ghost var head := lines;
    for i := 0 to |ms|
      invariant lines + MemberLines(ms[i..], 1) == head + MemberLines(ms, 1)
    {
      var value := SerializeValue(ms[i].value, 1);
      assert ms[i..][1..] == ms[i + 1..];
      lines := lines + [Spaces(2) + ms[i].key + ": " + value + ","];
    }
    assert lines == head + MemberLines(ms, 1);
    text := Join(lines + ["};", ""], "\n");
  }

  method SkipWsComments(c: string, start: nat) returns (i: nat)
    ensures i == SkipBlank(c, start)
  {
    hide At;
    i := start;
    while i < |c|
      invariant SkipBlank(c, i) == SkipBlank(c, start)
      decreases Left(c, i)
    {
      ghost var before := i;
      if c[i] in " \t\n\r" {
        i := i + 1;
      } else if At(c, i, "//") {
        AtIndex(c, i, "//", 0);
        while i < |c| && c[i] != '\n'
          invariant before <= i && LineEnd(c, i) == LineEnd(c, before)
          decreases Left(c, i)
        {
          i := i + 1;
        }
      } else if At(c, i, "/*") {
        i := i + 2;
        while i < |c| - 1 && !At(c, i, "*/")
          invariant before + 2 <= i && CommentEnd(c, i) == CommentEnd(c, before + 2)
          decreases Left(c, i)
        {
          i := i + 1;
        }
        i := i + 2;
      } else {
        break;
      }
    }
  }

  method TsString(c: string, start: nat) returns (r: Piece)
    requires start < |c|
    ensures r == ReadString(c, start + 1, c[start], "")
  {
    var quote, out := c[start], "";
    var i: nat := start + 1;
    while i < |c|
      invariant ReadString(c, i, quote, out) == ReadString(c, start + 1, quote, "")
      decreases Left(c, i)
    {
      if c[i] == '\\' && i + 1 < |c| {
        var e := ReadEscape(c, i);
        out, i := out + e.text, e.next;
      } else if c[i] == quote {
        return Piece(out, i);
      } else {
        out, i := out + [c[i]], i + 1;
      }
    }
    r := Piece(out, i);
  }

  method TsValue(c: string, start: nat) returns (r: Parsed<Value>)
    ensures r == ReadValue(c, start)
    decreases Left(c, start), 0
  {
    hide SkipBlank, ReadMembers, ReadItems, ReadString, LiteralValue, LiteralEnd, Strip;
    var i := SkipWsComments(c, start);
    if i >= |c| { return Raised(IndexError); }
    if c[i] == '{' {
      var o := TsObject(c, i);
      return match o case Raised(e) => Raised(e) case Done(ms, end) => Done(Obj(ms), end + 1);
    }
    if c[i] == '[' {
      var a := TsArray(c, i);
      return match a case Raised(e) => Raised(e) case Done(items, end) => Done(List(items), end + 1);
    }
    if c[i] in "\"'`" {
      var s := TsString(c, i);
      return Done(Str(s.text), s.next + 1);
    }
    var end := LiteralEnd(c, i);
    if end == i { return Raised(NoLiteral); }
    var literal := Strip(c[i..end]);
    r := Done(LiteralValue(literal), i + |literal|);
  }

  method TsObject(c: string, start: nat) returns (r: Parsed<seq<Member>>)
    requires start < |c|
    ensures r == ReadMembers(c, start + 1, [])
    decreases Left(c, start + 1), 1
  {
    hide SkipBlank, ReadValue, ReadKey, Put;
    var result := [];
    var i: nat := start + 1;
    while true
      invariant start < i
      invariant ReadMembers(c, i, result) == ReadMembers(c, start + 1, [])
      decreases Left(c, i)
    {
      i := SkipWsComments(c, i);
      if i >= |c| || c[i] == '}' { return Done(result, i); }
      var key := ReadKey(c, i);
      if key.None? {
        i := i + 1;
        continue;
      }
      var j := SkipWsComments(c, key.value.next);
      var value := TsValue(c, j);
      if value.Raised? { return Raised(value.error); }
      result := Put(result, key.value.text, value.value);
      i := SkipWsComments(c, value.next);
      if i < |c| && c[i] == ',' { i := i + 1; }
    }
  }

  method TsArray(c: string, start: nat) returns (r: Parsed<seq<Value>>)
    requires start < |c|
    ensures r == ReadItems(c, start + 1, [])
    decreases Left(c, start + 1), 1
  {
    hide SkipBlank, ReadValue, ReadKey, Put;
    var result := [];
    var i: nat := start + 1;
    while true
      invariant start < i
      invariant ReadItems(c, i, result) == ReadItems(c, start + 1, [])
      decreases Left(c, i)
    {
      i := SkipWsComments(c, i);
      if i >= |c| || c[i] == ']' { return Done(result, i); }
      var value := TsValue(c, i);
      if value.Raised? { return Raised(value.error); }
      result := result + [value.value];
      var next := SkipWsComments(c, value.next);
      if next < |c| && c[next] == ',' { next := next + 1; }
      // The source would repeat this round for ever.
      if next <= i { return Raised(Endless); }
      i := next;
    }
  }

  method ParseTsObject(c: string, locale: string) returns (r: Parsed<Value>)
    ensures r == ReadFile(c, locale)
  {
    var brace := FindExport(c, 0, ExportName(locale));
    if brace.None? { return Raised(NoExport); }
    r := TsValue(c, brace.value);
  }
}
