/** Python strings as sequences of characters: the white space that `str.strip` and the regular-expression class
    `\s` agree on, cutting and joining, text found at an index, and the order of strings by code point. */
module Text {

  datatype Option<+T> = None | Some(value: T)

  predicate IsSpace(c: char) {
    || '\t' <= c <= '\r'
    || '\U{1C}' <= c <= ' '
    || c == '\U{85}' || c == '\U{A0}' || c == '\U{1680}' || c == '\U{202F}' || c == '\U{205F}' || c == '\U{3000}'
    || '\U{2000}' <= c <= '\U{200A}'
    || '\U{2028}' <= c <= '\U{2029}'
  }

  function StripLeft(s: string): (r: string)
    ensures |r| <= |s| && r == s[|s| - |r|..]
    ensures forall k :: 0 <= k < |s| - |r| ==> IsSpace(s[k])
    ensures r != "" ==> !IsSpace(r[0])
  {
    if s != "" && IsSpace(s[0]) then StripLeft(s[1..]) else s
  }

  function StripRight(s: string): (r: string)
    ensures r <= s
    ensures forall k :: |r| <= k < |s| ==> IsSpace(s[k])
    ensures r != "" ==> !IsSpace(r[|r| - 1])
  {
    if s != "" && IsSpace(s[|s| - 1]) then StripRight(s[..|s| - 1]) else s
  }

  function Strip(s: string): string {
    StripRight(StripLeft(s))
  }

  /** Nothing is stripped from a text without white space at its ends. */
  lemma StripIdle(s: string)
    requires s != "" ==> !IsSpace(s[0]) && !IsSpace(s[|s| - 1])
    ensures Strip(s) == s
  {
    assert StripLeft(s) == s;
    assert StripRight(s) == s;
  }

  /** Of a text between white space exactly the text is left, and of white space alone nothing. */
  lemma StripTakesEnds(front: string, body: string, back: string)
    requires (forall x <- front :: IsSpace(x)) && forall x <- back :: IsSpace(x)
    requires if body == "" then back == "" else !IsSpace(body[0]) && !IsSpace(body[|body| - 1])
    ensures Strip(front + (body + back)) == body
  {
    hide IsSpace, StripLeft, StripRight;
    var s := front + (body + back);
    forall k | 0 <= k < |front| ensures IsSpace(s[k]) { assert front[k] in front; }
    assert body != "" ==> s[|front|] == body[0];
    var r := StripLeft(s);
    assert r != "" ==> r[0] == s[|s| - |r|];
    assert |r| == |body + back| && r == body + back;
    forall k | |body| <= k < |r| ensures IsSpace(r[k]) { assert r[k] == back[k - |body|] && back[k - |body|] in back; }
    assert body != "" ==> r[|body| - 1] == body[|body| - 1];
    var u := StripRight(r);
    assert u != "" ==> u[|u| - 1] == r[|u| - 1];
    assert |u| == |body| && u == body;
  }

  /** The text `s` stands in `c` at index `i`. */
  predicate At(c: string, i: nat, s: string) {
    i + |s| <= |c| && c[i..i + |s|] == s
  }

  lemma AtConcat(c: string, i: nat, a: string, b: string)
    ensures At(c, i, a + b) <==> At(c, i, a) && At(c, i + |a|, b)
  {
    if i + |a| + |b| <= |c| {
      assert c[i..i + |a + b|] == c[i..i + |a|] + c[i + |a|..i + |a| + |b|];
      assert (a + b)[..|a|] == a && (a + b)[|a|..] == b;
      assert c[i..i + |a + b|][..|a|] == c[i..i + |a|];
      assert c[i..i + |a + b|][|a|..] == c[i + |a|..i + |a| + |b|];
    }
  }

  lemma AtIndex(c: string, i: nat, s: string, k: nat)
    requires At(c, i, s) && k < |s|
    ensures i + k < |c| && c[i + k] == s[k]
  {
    assert c[i..i + |s|][k] == c[i + k];
  }

  // ---------------------------------------------------------------- searching

  /** The first index from `i` on of a character for which `wanted` holds, or the length. */
  function FindWhere(s: string, i: nat, wanted: char -> bool): (j: nat)
    ensures i <= j && (i <= |s| ==> j <= |s|)
    ensures j < |s| ==> wanted(s[j])
    ensures forall k :: i <= k < j && k < |s| ==> !wanted(s[k])
    decreases if i < |s| then |s| - i else 0
  {
    if i < |s| && !wanted(s[i]) then FindWhere(s, i + 1, wanted) else i
  }

  function FindChar(s: string, i: nat, wanted: char): (j: nat)
    ensures i <= j && (i <= |s| ==> j <= |s|)
    ensures j < |s| ==> s[j] == wanted
    ensures forall k :: i <= k < j && k < |s| ==> s[k] != wanted
  {
    FindWhere(s, i, c => c == wanted)
  }

  /** `raw.find(needle)` from `i` on. */
  function FindText(raw: string, i: nat, needle: string): (r: Option<nat>)
    requires i <= |raw|
    ensures r.Some? ==> i <= r.value && At(raw, r.value, needle)
    ensures forall k: nat :: i <= k < (if r.Some? then r.value else |raw| + 1) ==> !At(raw, k, needle)
    decreases |raw| - i
  {
    if At(raw, i, needle) then Some(i)
    else if i < |raw| then FindText(raw, i + 1, needle) else None
  }

  // ---------------------------------------------------- cutting and joining

  function Join(parts: seq<string>, separator: string): string {
    if parts == [] then "" else
    if |parts| == 1 then parts[0] else
      parts[0] + separator + Join(parts[1..], separator)
  }

  function Split(s: string, separator: char): (parts: seq<string>)
    ensures parts != []
  {
    if s == "" then [""] else
      var rest := Split(s[1..], separator);
      if s[0] == separator then [""] + rest else [[s[0]] + rest[0]] + rest[1..]
  }

  lemma SplitPlain(s: string, separator: char)
    requires separator !in s
    ensures Split(s, separator) == [s]
  {
    if s != "" {
      SplitPlain(s[1..], separator);
      assert [s[0]] + s[1..] == s;
    }
  }

  lemma {:induction false} SplitFirst(s: string, t: string, separator: char)
    requires separator !in s
    ensures Split(s + [separator] + t, separator) == [s] + Split(t, separator)
  {
    var u := s + [separator] + t;
    if s == "" {
      assert u[1..] == t;
    } else {
      SplitFirst(s[1..], t, separator);
      assert u[1..] == s[1..] + [separator] + t;
      assert [s[0]] + s[1..] == s;
    }
  }

  /** Splitting undoes joining whenever no part contains the separator. */
  lemma {:induction false} SplitJoin(parts: seq<string>, separator: char)
    requires parts != [] && forall p <- parts :: separator !in p
    ensures Split(Join(parts, [separator]), separator) == parts
  {
    hide Split;
    if |parts| == 1 {
      SplitPlain(parts[0], separator);
    } else {
      var rest := Join(parts[1..], [separator]);
      assert Join(parts, [separator]) == parts[0] + [separator] + rest;
      hide Join;
      SplitJoin(parts[1..], separator);
      SplitFirst(parts[0], rest, separator);
      assert [parts[0]] + parts[1..] == parts;
    }
  }

  /** Joining undoes splitting, and the parts never contain the separator. */
  lemma {:induction false} JoinSplit(s: string, separator: char)
    ensures Join(Split(s, separator), [separator]) == s
    ensures forall p <- Split(s, separator) :: separator !in p
  {
    if s != "" {
      var rest := Split(s[1..], separator);
      JoinSplit(s[1..], separator);
      assert [s[0]] + s[1..] == s;
      if s[0] == separator {
        assert ([""] + rest)[1..] == rest;
      } else {
        assert ([[s[0]] + rest[0]] + rest[1..])[1..] == rest[1..];
        forall p <- Split(s, separator) ensures separator !in p {
          if p != [s[0]] + rest[0] { assert p in rest; }
        }
      }
    }
  }

  lemma {:induction false} SplitLast(s: string, t: string, separator: char)
    requires separator !in t
    ensures Split(s + [separator] + t, separator) == Split(s, separator) + [t]
  {
    var u := s + [separator] + t;
    if s == "" {
      SplitPlain(t, separator);
      assert u[1..] == t;
    } else {
      SplitLast(s[1..], t, separator);
      assert u[1..] == s[1..] + [separator] + t;
    }
  }

  /** A lower-case hexadecimal digit. */
  function HexChar(d: nat): char
    requires d < 16
  {
    if d < 10 then '0' + d as char else 'a' + (d - 10) as char
  }

  /** The value of a hexadecimal digit of either case, or -1. */
  function HexDigit(c: char): (d: int)
    ensures -1 <= d < 16
  {
    if '0' <= c <= '9' then c as int - '0' as int
    else if 'a' <= c <= 'f' then c as int - 'a' as int + 10
    else if 'A' <= c <= 'F' then c as int - 'A' as int + 10
    else -1
  }

  predicate IsHex(s: string) {
    s != "" && forall i :: 0 <= i < |s| ==> HexDigit(s[i]) >= 0
  }

  function HexOf(s: string): nat
    requires forall i :: 0 <= i < |s| ==> HexDigit(s[i]) >= 0
  {
    if s == "" then 0 else 16 * HexOf(s[..|s| - 1]) + HexDigit(s[|s| - 1])
  }

  // --------------------------------------------------------- order of strings

  /** `a <= b` on strings: by code point, a proper prefix first. */
  predicate AtMost(a: string, b: string) {
    a == "" || (b != "" && (a[0] < b[0] || (a[0] == b[0] && AtMost(a[1..], b[1..]))))
  }

  lemma {:induction false} AtMostTotal(a: string, b: string)
    ensures AtMost(a, b) || AtMost(b, a)
    ensures AtMost(a, b) && AtMost(b, a) ==> a == b
  {
    if a != "" && b != "" && a[0] == b[0] {
      AtMostTotal(a[1..], b[1..]);
      assert [a[0]] + a[1..] == a && [b[0]] + b[1..] == b;
    }
  }

  lemma {:induction false} AtMostTransitive(a: string, b: string, c: string)
    requires AtMost(a, b) && AtMost(b, c)
    ensures AtMost(a, c)
  {
    if a != "" && a[0] == b[0] && b[0] == c[0] { AtMostTransitive(a[1..], b[1..], c[1..]); }
  }

  /** `a < b` on strings. */
  predicate Less(a: string, b: string) {
    b != "" && (a == "" || a[0] < b[0] || (a[0] == b[0] && Less(a[1..], b[1..])))
  }

  lemma {:induction false} LessIsNotAtMost(a: string, b: string)
    ensures Less(a, b) <==> !AtMost(b, a)
  {
    if a != "" && b != "" && a[0] == b[0] { LessIsNotAtMost(a[1..], b[1..]); }
  }

  lemma LessTotal(a: string, b: string)
    ensures Less(a, b) || Less(b, a) || a == b
    ensures !(Less(a, b) && Less(b, a))
  {
    LessIsNotAtMost(a, b);
    LessIsNotAtMost(b, a);
    AtMostTotal(a, b);
  }

  lemma LessTransitive(a: string, b: string, c: string)
    requires !Less(b, a) && Less(b, c)
    ensures Less(a, c)
  {
    LessIsNotAtMost(b, a);
    LessIsNotAtMost(b, c);
    LessIsNotAtMost(a, c);
    if AtMost(c, a) { AtMostTransitive(c, a, b); }
  }

  lemma {:induction false} LessSnoc(a: string, b: string, x: char, y: char)
    requires |a| == |b|
    ensures Less(a + [x], b + [y]) <==> Less(a, b) || (a == b && x < y)
    decreases |a|
  {
    if a != "" {
      var c, d := a + [x], b + [y];
      assert c[0] == a[0] && d[0] == b[0] && c[1..] == a[1..] + [x] && d[1..] == b[1..] + [y];
      LessSnoc(a[1..], b[1..], x, y);
      assert [a[0]] + a[1..] == a && [b[0]] + b[1..] == b;
    } else {
      assert a + [x] == [x] && b + [y] == [y];
      assert [x][1..] == "" && [y][1..] == "";
    }
  }

  /** A shorter text on the right: only its own length of the left text matters. */
  lemma {:induction false} LessPrefix(a: string, b: string)
    requires |b| <= |a|
    ensures Less(a, b) <==> Less(a[..|b|], b)
    decreases |b|
  {
    if b != "" {
      LessPrefix(a[1..], b[1..]);
      assert a[..|b|][1..] == a[1..][..|b| - 1];
    }
  }
}
