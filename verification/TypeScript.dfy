/** TypeScript dictionaries: the text the translation manager prints, and the values it reads back. */
module TypeScript {
  import opened Text
  import opened Decimal
  import opened Dictionaries
  import opened Unicode

  // ---------------------------------------------------------------- printing

  function Spaces(n: nat): (s: string)
    ensures |s| == n && forall c <- s :: c == ' '
  {
    seq(n, _ => ' ')
  }

  function EscapeChar(c: char): string {
    if c == '\\' then "\\\\" else
    if c == '"' then "\\\"" else
    if c == '\n' then "\\n" else [c]
  }

  function EscapeText(s: string): string {
    if s == "" then "" else EscapeChar(s[0]) + EscapeText(s[1..])
  }

  function Quoted(s: string): string {
    "\"" + EscapeText(s) + "\""
  }

  function Print(v: Value, indent: nat): string
    decreases v, 1
  {
    match v
    case Obj(ms) =>
      if ms == [] then "{}" else
        Join(["{"] + MemberLines(ms, indent + 1) + [Spaces(2 * indent) + "}"], "\n")
    case List(items) =>
      if items == [] then "[]" else
        Join(["["] + ItemLines(items, indent + 1) + [Spaces(2 * indent) + "]"], "\n")
    case Bool(b) => if b then "true" else "false"
    case Int(n) => IntText(n)
    case Str(s) => Quoted(s)
    case Null => Quoted("None")
    case Float(literal) => literal
  }

  function MemberLines(ms: seq<Member>, indent: nat): seq<string>
    decreases ms, 0
  {
    if ms == [] then [] else
      [Spaces(2 * indent) + ms[0].key + ": " + Print(ms[0].value, indent) + ","]
      + MemberLines(ms[1..], indent)
  }

  function ItemLines(items: seq<Value>, indent: nat): seq<string>
    decreases items, 0
  {
    if items == [] then [] else
      [Spaces(2 * indent) + Print(items[0], indent) + ","] + ItemLines(items[1..], indent)
  }

  predicate IsNameChar(c: char) {
    'A' <= c <= 'Z' || 'a' <= c <= 'z' || '0' <= c <= '9' || c == '_' || c == '$'
  }

  function NameChars(s: string): (r: string)
    ensures forall c <- r :: IsNameChar(c)
  {
    if s == "" then "" else (if IsNameChar(s[0]) then [s[0]] else "") + NameChars(s[1..])
  }

  function ExportName(locale: string): (r: string)
    ensures r != "" && forall c <- r :: IsNameChar(c)
  {
    var name := NameChars(locale);
    if name != "" && !IsDigit(name[0]) then name else "_" + name
  }

  const IMPORT_LINE := "import type { Dictionary } from \"./en\";"

  function PrintFile(locale: string, members: seq<Member>): string {
    Join([IMPORT_LINE, "", "export const " + ExportName(locale) + ": Dictionary = {"]
         + MemberLines(members, 1) + ["};", ""], "\n")
  }

  // ----------------------------------------------------------------- reading

  datatype Error =
    | IndexError                // the text ends where a value is wanted
    | NoLiteral                 // `None.group`: a value is wanted at one of , } ] newline
    | Endless                   // the array loop meets a literal of white space alone and never moves on
    | NoExport                  // no `export const` object for the locale

  datatype Parsed<+T> = Done(value: T, next: nat) | Raised(error: Error)

  /** A text that was read and the index after it. */
  datatype Piece = Piece(text: string, next: nat)

  function Left(c: string, i: nat): nat {
    if i < |c| then |c| - i else 0
  }

  function LineEnd(c: string, i: nat): (j: nat)
    ensures i <= j
    ensures i < |c| && c[i] != '\n' ==> i < j
    decreases Left(c, i)
  {
    if i < |c| && c[i] != '\n' then LineEnd(c, i + 1) else i
  }

  function CommentEnd(c: string, i: nat): (j: nat)
    ensures i <= j
    decreases Left(c, i)
  {
    if i < |c| - 1 && !At(c, i, "*/") then CommentEnd(c, i + 1) else i
  }

  function SkipBlank(c: string, i: nat): (j: nat)
    ensures i <= j
    decreases Left(c, i)
  {
    if i >= |c| then i
    else if c[i] in " \t\n\r" then SkipBlank(c, i + 1)
    else if At(c, i, "//") then
      AtIndex(c, i, "//", 0);
      SkipBlank(c, LineEnd(c, i))
    else if At(c, i, "/*") then SkipBlank(c, CommentEnd(c, i + 2) + 2)
    else i
  }

  function SkipSpaces(c: string, i: nat): (j: nat)
    ensures i <= j
    decreases Left(c, i)
  {
    if i < |c| && IsSpace(c[i]) then SkipSpaces(c, i + 1) else i
  }

  /** The class `\w`. */
  predicate IsWord(c: char) {
    || 'A' <= c <= 'Z' || 'a' <= c <= 'z' || '0' <= c <= '9' || c == '_'
    || (c >= '\U{80}' && !IsSpace(c) && c in WORD_CHARS)
  }

  function WordEnd(c: string, i: nat): (j: nat)
    ensures i <= j
    ensures i < |c| && IsWord(c[i]) ==> i < j
    ensures j <= |c| || j == i
    decreases Left(c, i)
  {
    if i < |c| && IsWord(c[i]) then WordEnd(c, i + 1) else i
  }

  datatype Key = Key(text: string, next: nat)

  /** White space and the colon after a key; the index after the colon. */
  function ColonAfter(c: string, i: nat): (r: Option<nat>)
    ensures r.Some? ==> i < r.value
  {
    var j := SkipSpaces(c, i);
    if j < |c| && c[j] == ':' then Some(j + 1) else None
  }

  /** The key body `(?:\\.|[^q])*` followed by the quote and a colon, with the regular expression's
      own order of attempts: the escape pair first, then one character, then the end. */
  function QuotedKeyEnd(c: string, i: nat, quote: char): (r: Option<(nat, nat)>)
    ensures r.Some? ==> i <= r.value.0 < |c| && r.value.0 < r.value.1
    decreases Left(c, i)
  {
    if i >= |c| then None else
      var pair := if c[i] == '\\' && i + 1 < |c| && c[i + 1] != '\n'
                  then QuotedKeyEnd(c, i + 2, quote) else None;
      if pair.Some? then pair else
        var single := if c[i] != quote then QuotedKeyEnd(c, i + 1, quote) else None;
        if single.Some? then single else
        if c[i] == quote && ColonAfter(c, i + 1).Some? then Some((i, ColonAfter(c, i + 1).value))
        else None
  }

  /** `re.sub(r"\\(.)", r"\1", key)`. */
  function Unescaped(s: string): string {
    if s == "" then ""
    else if s[0] == '\\' && |s| > 1 && s[1] != '\n' then [s[1]] + Unescaped(s[2..])
    else [s[0]] + Unescaped(s[1..])
  }

  function ReadKey(c: string, i: nat): (r: Option<Key>)
    requires i < |c|
    ensures r.Some? ==> i < r.value.next
  {
    if c[i] == '"' || c[i] == '\'' then
      match QuotedKeyEnd(c, i + 1, c[i])
      case Some(ends) => Some(Key(Unescaped(c[i + 1..ends.0]), ends.1))
      case None => None
    else
      var j := WordEnd(c, i);
      if j == i || ColonAfter(c, j).None? then None
      else Some(Key(Unescaped(c[i..j]), ColonAfter(c, j).value))
  }

  /** `chr(code)`; for a lone surrogate, which a Dafny character cannot be, the replacement character. */
  function Chr(code: nat): char {
    if code < 0xD800 || 0xE000 <= code <= 0x10FFFF then code as char else '\U{FFFD}'
  }

  function PlainEscape(c: char): char {
    match c
    case 'n' => '\n'
    case 't' => '\t'
    case 'r' => '\r'
    case _ => c
  }

  predicate HexAt(c: string, i: nat, n: nat) {
    i + n <= |c| && IsHex(c[i..i + n])
  }

  function HexValue(c: string, i: nat, n: nat): nat
    requires HexAt(c, i, n)
  {
    HexOf(c[i..i + n])
  }

  /** A backslash at `i` with a character after it: what it stands for and the index after it. The branch of the
      source for braced code points compares two characters with one and is never taken. */
  function ReadEscape(c: string, i: nat): (r: Piece)
    requires i + 1 < |c|
    ensures i < r.next
  {
    var kind := c[i + 1];
    if kind == 'u' && HexAt(c, i + 2, 4) then Piece([Chr(HexValue(c, i + 2, 4))], i + 6)
    else if kind == 'x' && HexAt(c, i + 2, 2) then Piece([Chr(HexValue(c, i + 2, 2))], i + 4)
    else Piece([PlainEscape(kind)], i + 2)
  }

  /** The text up to the closing quote; an unterminated string ends with the content. */
  function ReadString(c: string, i: nat, quote: char, out: string): (r: Piece)
    ensures i <= r.next
    decreases Left(c, i)
  {
    if i >= |c| then Piece(out, i)
    else if c[i] == '\\' && i + 1 < |c| then
      var e := ReadEscape(c, i);
      ReadString(c, e.next, quote, out + e.text)
    else if c[i] == quote then Piece(out, i)
    else ReadString(c, i + 1, quote, out + [c[i]])
  }

  function LiteralEnd(c: string, i: nat): (j: nat)
    ensures i <= j
    ensures j <= |c| || j == i
    decreases Left(c, i)
  {
    if i < |c| && c[i] !in ",}]\n" then LiteralEnd(c, i + 1) else i
  }

  /** The end of `digit (_? digit)*` at an index; the index itself when there is no digit. */
  function DigitsEnd(s: string, i: nat): (j: nat)
    ensures i <= j && (j <= |s| || j == i)
    decreases Left(s, i)
  {
    if i >= |s| || !IsDecimal(s[i]) then i
    else if i + 2 < |s| && s[i + 1] == '_' && IsDecimal(s[i + 2]) then DigitsEnd(s, i + 2)
    else DigitsEnd(s, i + 1)
  }

  function SignEnd(s: string, i: nat): nat {
    if i < |s| && (s[i] == '+' || s[i] == '-') then i + 1 else i
  }

  function Lower(s: string): string {
    seq(|s|, i requires 0 <= i < |s| => if 'A' <= s[i] <= 'Z' then 'a' + (s[i] as int - 'A' as int) as char else s[i])
  }

  /** The texts without surrounding white space that `float()` accepts. */
  predicate IsFloat(s: string) {
    var start := SignEnd(s, 0);
    var whole := DigitsEnd(s, start);
    var point := whole < |s| && s[whole] == '.';
    var fraction := if point then DigitsEnd(s, whole + 1) else whole;
    var digits := whole > start || (point && fraction > whole + 1);
    var power := fraction < |s| && (s[fraction] == 'e' || s[fraction] == 'E');
    var exponent := if power then SignEnd(s, fraction + 1) else fraction;
    || (start <= |s| && Lower(s[start..]) in ["inf", "infinity", "nan"])
    || (digits && fraction == |s|)
    || (digits && power && DigitsEnd(s, exponent) > exponent && DigitsEnd(s, exponent) == |s|)
  }

  function LiteralValue(literal: string): Value {
    if literal == "true" || literal == "false" then Bool(literal == "true")
    else if IsInt(literal) then Int(IntOf(literal))
    else if IsFloat(literal) then Float(literal)
    else Str(literal)
  }

  function ReadValue(c: string, start: nat): (r: Parsed<Value>)
    ensures r.Done? ==> start <= r.next
    decreases Left(c, start), 0
  {
    var i := SkipBlank(c, start);
    if i >= |c| then Raised(IndexError)
    else if c[i] == '{' then
      match ReadMembers(c, i + 1, [])
      case Raised(error) => Raised(error)
      case Done(members, end) => Done(Obj(members), end + 1)
    else if c[i] == '[' then
      match ReadItems(c, i + 1, [])
      case Raised(error) => Raised(error)
      case Done(items, end) => Done(List(items), end + 1)
    else if c[i] in "\"'`" then
      var s := ReadString(c, i + 1, c[i], "");
      Done(Str(s.text), s.next + 1)
    else
      var end := LiteralEnd(c, i);
      if end == i then Raised(NoLiteral) else
        var literal := Strip(c[i..end]);
        Done(LiteralValue(literal), i + |literal|)
  }

  /** The index after a comma, when one follows the blanks at `i`. */
  function SkipComma(c: string, i: nat): (j: nat)
    ensures i <= j
  {
    var k := SkipBlank(c, i);
    if k < |c| && c[k] == ',' then k + 1 else k
  }

  /** Members up to the closing brace (or the end of the content), added to `result`. */
  function ReadMembers(c: string, start: nat, result: seq<Member>): (r: Parsed<seq<Member>>)
    ensures r.Done? ==> start <= r.next
    decreases Left(c, start), 1
  {
    var i := SkipBlank(c, start);
    if i >= |c| || c[i] == '}' then Done(result, i) else
      match ReadKey(c, i)
      case None => ReadMembers(c, i + 1, result)
      case Some(key) =>
        match ReadValue(c, SkipBlank(c, key.next))
        case Raised(error) => Raised(error)
        case Done(value, next) => ReadMembers(c, SkipComma(c, next), Put(result, key.text, value))
  }

  /** Items up to the closing bracket (or the end of the content), added to `result`. */
  function ReadItems(c: string, start: nat, result: seq<Value>): (r: Parsed<seq<Value>>)
    ensures r.Done? ==> start <= r.next
    decreases Left(c, start), 1
  {
    var i := SkipBlank(c, start);
    if i >= |c| || c[i] == ']' then Done(result, i) else
      match ReadValue(c, i)
      case Raised(error) => Raised(error)
      case Done(value, next) =>
        if SkipComma(c, next) <= i then Raised(Endless)
        else ReadItems(c, SkipComma(c, next), result + [value])
  }

  /** The pattern `export\s+const\s+NAME(?:\s*:[^=]+?)?\s*=\s*\{` at `p`; the index of its brace. */
  function ExportAt(c: string, p: nat, name: string): (r: Option<nat>)
    ensures r.Some? ==> r.value < |c|
  {
    if !At(c, p, "export") then None else
      var i := SkipSpaces(c, p + 6);
      if i == p + 6 || !At(c, i, "const") then None else
        var j := SkipSpaces(c, i + 5);
        if j == i + 5 || !At(c, j, name) then None else
          var k := SkipSpaces(c, j + |name|);
          var equals := if k < |c| && c[k] == ':' then FindChar(c, k + 1, '=') else k;
          if equals >= |c| || c[equals] != '=' || equals == k + 1 then None else
            var brace := SkipSpaces(c, equals + 1);
            if brace < |c| && c[brace] == '{' then Some(brace) else None
  }

  function FindExport(c: string, p: nat, name: string): (r: Option<nat>)
    ensures r.Some? ==> r.value < |c|
    decreases Left(c, p)
  {
    if p >= |c| then None
    else if ExportAt(c, p, name).Some? then ExportAt(c, p, name)
    else FindExport(c, p + 1, name)
  }

  function ReadFile(c: string, locale: string): (r: Parsed<Value>) {
    match FindExport(c, 0, ExportName(locale))
    case None => Raised(NoExport)
    case Some(brace) => ReadValue(c, brace)
  }
}
