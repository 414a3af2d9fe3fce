/** Which JSON strings the streamed display shows as they decode (section 7 of RFC 8259). */
module StreamedEscapes {
  import opened Text
  import opened StreamedAnswer

  /** One unit of a string body: a character as it is, a backslash and one character, or a backslash, u and four
      hexadecimal digits. */
  datatype Unit = Raw(c: char) | Short(c: char) | Code(digits: string)

  predicate IsUnit(u: Unit) {
    match u
    case Raw(c) => c >= ' ' && c != '"' && c != '\\'
    case Short(c) => c in "\"\\/bfnrt"
    case Code(digits) => |digits| == 4 && IsHex(digits)
  }

  predicate IsBody(units: seq<Unit>) {
    forall i :: 0 <= i < |units| ==> IsUnit(units[i])
  }

  function UnitText(u: Unit): string {
    match u
    case Raw(c) => [c]
    case Short(c) => ['\\', c]
    case Code(digits) => "\\u" + digits
  }

  function BodyText(units: seq<Unit>): string {
    if units == [] then "" else UnitText(units[0]) + BodyText(units[1..])
  }

  // ------------------------------------------------------------------ decoding

  function ShortCode(c: char): int {
    match c
    case 'n' => 10
    case 't' => 9
    case 'r' => 13
    case 'b' => 8
    case 'f' => 12
    case _ => c as int
  }

  function UnitCode(u: Unit): int
    requires IsUnit(u)
  {
    match u
    case Raw(c) => c as int
    case Short(c) => ShortCode(c)
    case Code(digits) => HexOf(digits)
  }

  /** Two escapes that together stand for one character beyond the first 65536. */
  predicate IsPair(units: seq<Unit>)
    requires IsBody(units)
  {
    && |units| >= 2 && units[0].Code? && units[1].Code?
    && 0xD800 <= UnitCode(units[0]) < 0xDC00 && 0xDC00 <= UnitCode(units[1]) < 0xE000
  }

  /** The code points of the string; a surrogate without its partner stands for itself, as in `json.loads`. */
  function Decoded(units: seq<Unit>): seq<int>
    requires IsBody(units)
  {
    if units == [] then []
    else if IsPair(units) then
      [0x1_0000 + (UnitCode(units[0]) - 0xD800) * 0x400 + (UnitCode(units[1]) - 0xDC00)] + Decoded(units[2..])
    else [UnitCode(units[0])] + Decoded(units[1..])
  }

  function Codes(s: string): seq<int> {
    seq(|s|, i requires 0 <= i < |s| => s[i] as int)
  }

  // ------------------------------------------------------------- what is shown

  function UnitShown(u: Unit): string {
    match u
    case Raw(c) => [c]
    case Short(c) => Resolved(c)
    case Code(digits) => digits
  }

  function BodyShown(units: seq<Unit>): string {
    if units == [] then "" else UnitShown(units[0]) + BodyShown(units[1..])
  }

  lemma {:induction false} HexIsShown(digits: string, rest: string)
    requires forall i :: 0 <= i < |digits| ==> HexDigit(digits[i]) >= 0
    ensures Shown(digits + rest, false) == digits + Shown(rest, false)
  {
    if digits == "" {
      assert digits + rest == rest;
    } else {
      HexIsShown(digits[1..], rest);
      assert HexDigit(digits[0]) >= 0;
      assert (digits + rest)[0] == digits[0] && (digits + rest)[1..] == digits[1..] + rest;
      assert [digits[0]] + digits[1..] == digits;
    }
  }

  /** Every unit is shown by itself: an escape that is not resolved shows nothing, and of a coded character the
      four digits. */
  lemma UnitIsShown(u: Unit, rest: string)
    requires IsUnit(u)
    ensures Shown(UnitText(u) + rest, false) == UnitShown(u) + Shown(rest, false)
  {
    var text := UnitText(u) + rest;
    match u {
      case Raw(c) =>
        assert text[0] == c && text[1..] == rest;
      case Short(c) =>
        assert text[0] == '\\' && text[1..][0] == c && text[1..][1..] == rest;
      case Code(digits) =>
        assert text[0] == '\\' && text[1..][0] == 'u' && text[1..][1..] == digits + rest;
        assert Shown(text[1..], true) == Resolved('u') + Shown(digits + rest, false);
        HexIsShown(digits, rest);
    }
  }

  lemma {:induction false} BodyIsShown(units: seq<Unit>, tail: string)
    requires IsBody(units)
    ensures Shown(BodyText(units) + ("\"" + tail), false) == BodyShown(units)
  {
    if units == [] {
      assert "" + ("\"" + tail) == "\"" + tail;
    } else {
      var rest := BodyText(units[1..]) + ("\"" + tail);
      BodyIsShown(units[1..], tail);
      UnitIsShown(units[0], rest);
      hide Shown, UnitText, UnitShown;
      assert BodyText(units) + ("\"" + tail) == UnitText(units[0]) + rest;
    }
  }

  // ------------------------------------------------------------------ counting

  /** The escapes that are resolved as JSON has them. */
  predicate IsResolved(u: Unit) {
    u.Raw? || (u.Short? && u.c in "nt\"\\")
  }

  /** The characters of the other short escapes: slash, backspace, form feed and carriage return. */
  predicate IsDroppedCode(n: int) {
    n == 0x2F || n == 8 || n == 12 || n == 13
  }

  ghost function DroppedCodes(codes: seq<int>): nat {
    if codes == [] then 0 else (if IsDroppedCode(codes[0]) then 1 else 0) + DroppedCodes(codes[1..])
  }

  ghost function DroppedUnits(units: seq<Unit>): nat {
    if units == [] then 0 else
      (if units[0].Short? && !IsResolved(units[0]) then 1 else 0) + DroppedUnits(units[1..])
  }

  ghost function CodedUnits(units: seq<Unit>): nat {
    if units == [] then 0 else (if units[0].Code? then 1 else 0) + CodedUnits(units[1..])
  }

  lemma {:induction false} DroppedCodesAppend(a: seq<int>, b: seq<int>)
    ensures DroppedCodes(a + b) == DroppedCodes(a) + DroppedCodes(b)
  {
    if a == [] {
      assert a + b == b;
    } else {
      DroppedCodesAppend(a[1..], b);
      assert (a + b)[1..] == a[1..] + b;
    }
  }

  lemma CodesAppend(a: string, b: string)
    ensures Codes(a + b) == Codes(a) + Codes(b)
  {
  }

  /** What one unit shows, against what it stands for. */
  lemma UnitCounts(u: Unit)
    requires IsUnit(u)
    ensures u.Code? || IsResolved(u) || u.Short?
    ensures var shown := UnitShown(u);
      && (u.Code? ==> !IsResolved(u) && |shown| == 4 && DroppedCodes(Codes(shown)) == 0)
      && (IsResolved(u) ==> |shown| == 1 && Codes(shown) == [UnitCode(u)])
      && (u.Short? && !IsResolved(u) ==> shown == "" && IsDroppedCode(UnitCode(u)))
  {
    if u.Code? { HexNotDropped(Codes(u.digits), u.digits); }
  }

  lemma {:induction false} HexNotDropped(codes: seq<int>, digits: string)
    requires |codes| == |digits|
    requires forall i :: 0 <= i < |digits| ==> HexDigit(digits[i]) >= 0 && codes[i] == digits[i] as int
    ensures DroppedCodes(codes) == 0
  {
    if codes != [] {
      assert HexDigit(digits[0]) >= 0;
      HexNotDropped(codes[1..], digits[1..]);
    }
  }

  /** Dropped escapes are missing from what is shown, and each coded character adds three characters or more. */
  lemma {:induction false} BodyCounts(units: seq<Unit>)
    requires IsBody(units)
    ensures DroppedCodes(Codes(BodyShown(units))) + DroppedUnits(units) <= DroppedCodes(Decoded(units))
    ensures |Decoded(units)| + 3 * CodedUnits(units) <= |BodyShown(units)| + DroppedUnits(units)
    decreases |units|
  {
    hide IsDroppedCode, UnitShown, UnitCode, IsResolved, IsUnit;
    assert DroppedCodes([]) == 0;
    if units != [] {
      ShownCounts(units);
      UnitCounts(units[0]);
      if IsPair(units) {
        BodyCounts(units[2..]);
        ShownCounts(units[1..]);
        UnitCounts(units[1]);
        assert units[1..][1..] == units[2..];
        DroppedCodesAppend([Decoded(units)[0]], Decoded(units[2..]));
      } else {
        BodyCounts(units[1..]);
        var code := UnitCode(units[0]);
        DroppedCodesAppend([code], Decoded(units[1..]));
        assert [code][1..] == [];
        assert DroppedCodes([code]) == if IsDroppedCode(code) then 1 else 0;
        assert Codes("") == [];
      }
    }
  }

  lemma ShownCounts(units: seq<Unit>)
    requires units != []
    ensures DroppedCodes(Codes(BodyShown(units)))
         == DroppedCodes(Codes(UnitShown(units[0]))) + DroppedCodes(Codes(BodyShown(units[1..])))
    ensures |BodyShown(units)| == |UnitShown(units[0])| + |BodyShown(units[1..])|
  {
    hide UnitShown;
    CodesAppend(UnitShown(units[0]), BodyShown(units[1..]));
    DroppedCodesAppend(Codes(UnitShown(units[0])), Codes(BodyShown(units[1..])));
  }

  ghost predicate AllResolved(units: seq<Unit>) {
    forall i :: 0 <= i < |units| ==> IsResolved(units[i])
  }

  lemma {:induction false} ResolvedExactly(units: seq<Unit>)
    requires IsBody(units)
    ensures AllResolved(units) <==> DroppedUnits(units) == 0 && CodedUnits(units) == 0
  {
    if units != [] {
      ResolvedExactly(units[1..]);
      assert forall i :: 0 < i < |units| ==> units[i] == units[1..][i - 1];
    }
  }

  lemma {:induction false} ResolvedIsShown(units: seq<Unit>)
    requires IsBody(units) && AllResolved(units)
    ensures Codes(BodyShown(units)) == Decoded(units)
  {
    if units != [] {
      ResolvedIsShown(units[1..]);
      UnitCounts(units[0]);
      assert IsResolved(units[0]) && !units[0].Code?;
      CodesAppend(UnitShown(units[0]), BodyShown(units[1..]));
      hide UnitShown, UnitCode, IsResolved;
    }
  }

  /** A complete answer is shown as it decodes exactly when its escapes are all line feeds, tabs, quotes and
      backslashes. */
  lemma ShownExactly(head: string, gap: string, pad: string, units: seq<Unit>, tail: string)
    requires Clear(head, MARKER) && Blank(gap) && Blank(pad) && IsBody(units)
    ensures Codes(PartialAnswer(ReplyWith(head, gap, pad, BodyText(units)) + tail)) == Decoded(units)
        <==> AllResolved(units)
  {
    ReplyShowsBody(head, gap, pad, BodyText(units), tail);
    BodyIsShown(units, tail);
    hide *;
    var body := BodyText(units);
    assert body + "\"" + tail == body + ("\"" + tail);
    BodyCounts(units);
    ResolvedExactly(units);
    if AllResolved(units) { ResolvedIsShown(units); }
    assert |Codes(BodyShown(units))| == |BodyShown(units)| by { CodesLength(BodyShown(units)); }
  }

  lemma CodesLength(s: string)
    ensures |Codes(s)| == |s|
  {
  }

  /** The escape for é. */
  ghost function AcuteE(): (u: Unit)
    ensures IsUnit(u)
  {
    var digits := "00e9";
    assert HexDigit(digits[0]) == 0 && HexDigit(digits[1]) == 0 && HexDigit(digits[2]) == 14 && HexDigit(digits[3]) == 9;
    Code(digits)
  }

  lemma OneUnit(u: Unit)
    requires IsUnit(u)
    ensures BodyText([u]) == UnitText(u) && BodyShown([u]) == UnitShown(u) && |Decoded([u])| == 1
  {
    hide UnitText, UnitShown, UnitCode, IsUnit;
    assert [u][1..] == [] && BodyText([]) == "" && BodyShown([]) == "";
    assert UnitText(u) + "" == UnitText(u) && UnitShown(u) + "" == UnitShown(u);
  }

  lemma AcuteUnit()
    ensures UnitText(AcuteE()) == "\\u00e9" && UnitShown(AcuteE()) == "00e9"
  {
    hide HexDigit, IsHex;
  }

  lemma AcuteReply()
    ensures ReplyWith("{", "", "", "\\u00e9") + "}" == "{\"answer\":\"\\u00e9\"}"
  {
  }

  /** A reply that holds one character and shows four. */
  lemma CodedAnswerContradicts()
    ensures PartialAnswer("{\"answer\":\"\\u00e9\"}") == "00e9"
    ensures |Decoded([AcuteE()])| == 1
  {
    hide *;
    OneUnit(AcuteE());
    AcuteUnit();
    AcuteReply();
    UnitReplyShows(AcuteE());
  }

  lemma UnitReplyShows(u: Unit)
    requires IsUnit(u)
    ensures PartialAnswer(ReplyWith("{", "", "", UnitText(u)) + "}") == UnitShown(u)
  {
    hide Shown, PartialAnswer, BodyText, BodyShown, UnitText, UnitShown, ReplyWith, IsUnit;
    OneUnit(u);
    BodyIsShown([u], "}");
    NoQuoteIsClear("{", MARKER);
    ReplyShowsBody("{", "", "", UnitText(u), "}");
    assert UnitText(u) + "\"" + "}" == UnitText(u) + ("\"" + "}");
  }

  // ----------------------------------------------------- what decoding comes to

  /** The short escapes stand for backspace, tab, line feed, form feed and carriage return, and for themselves. */
  lemma ShortEscapes()
    ensures UnitCode(Short('b')) == 8 && UnitCode(Short('t')) == 9 && UnitCode(Short('n')) == 10
    ensures UnitCode(Short('f')) == 12 && UnitCode(Short('r')) == 13
    ensures UnitCode(Short('"')) == 34 && UnitCode(Short('/')) == 47 && UnitCode(Short('\\')) == 92
  {
  }

  /** The two surrogates of a code point beyond the first 65536 decode to it. */
  lemma PairDecodes(code: int, high: Unit, low: Unit, rest: seq<Unit>)
    requires IsUnit(high) && IsUnit(low) && IsBody(rest)
    requires high.Code? && low.Code? && 0x1_0000 <= code <= 0x10_FFFF
    requires HexOf(high.digits) == 0xD800 + (code - 0x1_0000) / 0x400
    requires HexOf(low.digits) == 0xDC00 + (code - 0x1_0000) % 0x400
    ensures IsBody([high, low] + rest) && Decoded([high, low] + rest) == [code] + Decoded(rest)
  {
    var units := [high, low] + rest;
    assert units[0] == high && units[1] == low && units[2..] == rest;
    assert forall i :: 2 <= i < |units| ==> units[i] == rest[i - 2];
    hide HexOf, IsUnit;
  }

  /** Every other unit decodes by itself, a surrogate without its partner included. */
  lemma SingleDecodes(unit: Unit, rest: seq<Unit>)
    requires IsUnit(unit) && IsBody(rest)
    requires !(unit.Code? && 0xD800 <= HexOf(unit.digits) <= 0xDBFF && rest != [] && rest[0].Code?
               && 0xDC00 <= HexOf(rest[0].digits) <= 0xDFFF)
    ensures IsBody([unit] + rest) && Decoded([unit] + rest) == [UnitCode(unit)] + Decoded(rest)
  {
    var units := [unit] + rest;
    assert units[0] == unit && units[1..] == rest && (rest != [] ==> units[1] == rest[0]);
    assert forall i :: 1 <= i < |units| ==> units[i] == rest[i - 1];
    hide HexOf, IsUnit;
  }
}
