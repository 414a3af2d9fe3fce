/** Decimal notation as `str(int)` writes it and `int(str)` reads it. */
module Decimal {
  import opened Text
  import opened Unicode

  predicate IsDigit(c: char) { '0' <= c <= '9' }

  /** Not empty and ASCII digits only, as `str(int)` writes numbers that are not negative. */
  predicate IsNumeral(s: string) {
    s != "" && forall c <- s :: IsDigit(c)
  }

  /** The class `\d`. */
  predicate IsDecimal(c: char) {
    IsDigit(c) || (c >= '\U{80}' && !IsSpace(c) && c in DECIMAL_CHARS)
  }

  function DecimalValue(c: char): nat
    requires IsDecimal(c)
  {
    if IsDigit(c) then c as int - '0' as int else DECIMAL_CHARS[c]
  }

  /** The pattern `\d+` on a whole text. */
  predicate IsDecimals(s: string) {
    s != "" && forall c <- s :: IsDecimal(c)
  }

  /** `str.isdigit`. */
  predicate IsDigits(s: string) {
    s != "" && forall c <- s :: IsDecimal(c) || (c >= '\U{80}' && c in DIGIT_CHARS)
  }

  function DigitChar(d: nat): (c: char)
    requires d < 10
    ensures IsDigit(c) && c as int - '0' as int == d
  {
    '0' + d as char
  }

  function NatText(n: nat): (s: string)
    ensures IsNumeral(s)
  {
    if n < 10 then [DigitChar(n)] else NatText(n / 10) + [DigitChar(n % 10)]
  }

  function NatOf(s: string): nat
    requires forall c <- s :: IsDecimal(c)
  {
    if s == "" then 0 else
      var last := s[|s| - 1];
      assert IsDecimal(last);
      10 * NatOf(s[..|s| - 1]) + DecimalValue(last)
  }

  lemma {:induction false} NatRoundTrip(n: nat)
    ensures NatOf(NatText(n)) == n
  {
    if n < 10 {
      assert NatText(n)[..0] == "";
    } else {
      NatRoundTrip(n / 10);
      assert NatText(n)[..|NatText(n)| - 1] == NatText(n / 10);
    }
  }

  function IntText(n: int): string {
    if n < 0 then "-" + NatText(-n) else NatText(n)
  }

  /** The pattern `-?\d+` on a whole text. */
  predicate IsInt(s: string) {
    IsDecimals(s) || (s != "" && s[0] == '-' && IsDecimals(s[1..]))
  }

  function IntOf(s: string): int
    requires IsInt(s)
  {
    if IsDecimals(s) then NatOf(s) else -(NatOf(s[1..]) as int)
  }

  lemma IntRoundTrip(n: int)
    ensures IsInt(IntText(n)) && IntOf(IntText(n)) == n
  {
    var digits := NatText(if n < 0 then -n else n);
    NatRoundTrip(if n < 0 then -n else n);
    hide NatText, NatOf;
    if n < 0 {
      assert IntText(n)[1..] == digits;
      assert !IsDecimal(IntText(n)[0]);
    }
  }

  // ------------------------------------------------------------- the int() form

  /** `digit (_? digit)*` without its underscores. */
  function WithoutUnderscores(s: string): (r: Option<string>)
    ensures r.Some? ==> IsDecimals(r.value)
  {
    if s == "" || !IsDecimal(s[0]) then None
    else if |s| == 1 then Some(s)
    else
      match WithoutUnderscores(if s[1] == '_' then s[2..] else s[1..])
      case None => None
      case Some(rest) => Some([s[0]] + rest)
  }

  /** `int(s)`: blanks around, one sign, and single underscores between digits are allowed; None is the
      `ValueError`. */
  function ParseInt(s: string): Option<int> {
    var t := Strip(s);
    var signed := t != "" && (t[0] == '+' || t[0] == '-');
    match WithoutUnderscores(if signed then t[1..] else t)
    case None => None
    case Some(digits) => Some(if signed && t[0] == '-' then -(NatOf(digits) as int) else NatOf(digits))
  }

  lemma {:induction false} DecimalsAreKept(s: string)
    requires IsDecimals(s)
    ensures WithoutUnderscores(s) == Some(s)
  {
    if |s| > 1 {
      DecimalsAreKept(s[1..]);
      assert s[1] in s && [s[0]] + s[1..] == s;
    }
  }

  /** `int` reads what `\d+` matches as the number it spells. */
  lemma DecimalsParse(s: string)
    requires IsDecimals(s)
    ensures ParseInt(s) == Some(NatOf(s))
  {
    assert s[0] in s && s[|s| - 1] in s;
    StripIdle(s);
    DecimalsAreKept(s);
  }

  /** What `isdigit` accepts has no sign. */
  lemma DigitsHaveNoSign(s: string)
    requires IsDigits(s)
    ensures ParseInt(s).Some? ==> ParseInt(s).value >= 0
  {
    var t := Strip(s);
    if t != "" {
      var l := StripLeft(s);
      assert t[0] == l[0] && l[0] in s;
    }
  }

  // ------------------------------------------------------- what the forms mean

  /** The pattern matches digits, and digits behind one dash, which stand for the negative number. */
  lemma IntExactly(s: string, n: int)
    ensures (IsInt(s) && IntOf(s) == n)
        <==> (IsDecimals(s) && n == NatOf(s)) || exists d :: IsDecimals(d) && s == "-" + d && n == -(NatOf(d) as int)
  {
    if s != "" && s[0] == '-' { assert s == "-" + s[1..] && s[0] in s; }
    forall d | IsDecimals(d) && s == "-" + d ensures s[1..] == d && s[0] in s {}
  }

  ghost function Together(groups: seq<string>): string {
    if groups == [] then "" else groups[0] + Together(groups[1..])
  }

  /** Groups of digits with one underscore between any two. */
  ghost predicate AreGroups(groups: seq<string>) {
    groups != [] && forall g <- groups :: IsDecimals(g)
  }

  lemma {:induction false} FirstGroup(g: string, rest: string)
    requires IsDecimals(g)
    ensures WithoutUnderscores(g + ("_" + rest)) ==
      match WithoutUnderscores(rest) case None => None case Some(digits) => Some(g + digits)
    decreases |g|
  {
    var s := g + ("_" + rest);
    assert g[0] in g && s[0] == g[0];
    if |g| == 1 {
      assert s[1] == '_' && s[2..] == rest && [s[0]] == g;
    } else {
      assert s[1] == g[1] && g[1] in g && s[1..] == g[1..] + ("_" + rest);
      FirstGroup(g[1..], rest);
      assert forall digits: string :: [g[0]] + (g[1..] + digits) == g + digits;
    }
  }

  lemma {:induction false} GroupsAreRead(groups: seq<string>)
    requires AreGroups(groups)
    ensures WithoutUnderscores(Join(groups, "_")) == Some(Together(groups))
  {
    if |groups| == 1 {
      DecimalsAreKept(groups[0]);
      assert Together(groups[1..]) == "" && groups[0] + "" == groups[0];
    } else {
      GroupsAreRead(groups[1..]);
      FirstGroup(groups[0], Join(groups[1..], "_"));
      assert groups[0] + "_" + Join(groups[1..], "_") == groups[0] + ("_" + Join(groups[1..], "_"));
    }
  }

  /** Whatever is read is such groups. */
  lemma {:induction false} ReadGroups(s: string) returns (groups: seq<string>)
    requires WithoutUnderscores(s).Some?
    ensures AreGroups(groups) && s == Join(groups, "_")
    decreases |s|
  {
    if |s| == 1 {
      groups := [s];
      assert IsDecimals(s);
    } else if s[1] == '_' {
      var rest := ReadGroups(s[2..]);
      groups := [[s[0]]] + rest;
      assert IsDecimals([s[0]]);
      assert groups[1..] == rest && s == [s[0]] + "_" + s[2..];
    } else {
      var rest := ReadGroups(s[1..]);
      var first := [s[0]] + rest[0];
      groups := [first] + rest[1..];
      assert rest[0] in rest && IsDecimals(first);
      assert groups[1..] == rest[1..] && s == [s[0]] + s[1..];
      if |rest| > 1 {
        var tail := Join(rest[1..], "_");
        assert [s[0]] + (rest[0] + "_" + tail) == first + "_" + tail;
      }
    }
  }

  /** What `int` accepts: blanks around one sign or none and digits with single underscores between them. */
  ghost predicate SpellsInt(s: string, sign: string, groups: seq<string>, n: int) {
    && sign in {"", "+", "-"} && AreGroups(groups) && Strip(s) == sign + Join(groups, "_")
    && WithoutUnderscores(Join(groups, "_")) == Some(Together(groups))
    && n == if sign == "-" then -(NatOf(Together(groups)) as int) else NatOf(Together(groups))
  }

  lemma {:induction false} GroupsStart(groups: seq<string>)
    requires AreGroups(groups)
    ensures Join(groups, "_") != "" && Join(groups, "_")[0] != '+' && Join(groups, "_")[0] != '-'
  {
    assert groups[0] in groups && groups[0][0] in groups[0];
    assert Join(groups, "_")[0] == groups[0][0];
  }

  lemma ParseIntExactly(s: string, n: int)
    ensures ParseInt(s) == Some(n) <==> exists sign, groups :: SpellsInt(s, sign, groups, n)
  {
    var t := Strip(s);
    hide Strip, NatOf, WithoutUnderscores, IsDecimal;
    if ParseInt(s) == Some(n) {
      var sign := if t != "" && (t[0] == '+' || t[0] == '-') then [t[0]] else "";
      var body := t[|sign|..];
      var groups := ReadGroups(body);
      GroupsAreRead(groups);
      assert t == sign + body;
      assert SpellsInt(s, sign, groups, n);
    }
    forall sign, groups | SpellsInt(s, sign, groups, n) ensures ParseInt(s) == Some(n) {
      GroupsStart(groups);
      assert t[|sign|..] == Join(groups, "_");
    }
  }
}
