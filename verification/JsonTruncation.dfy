/** What is recovered from a truncated flat object of texts (sections 4 and 7 of RFC 8259): the prefix is cut at its
    newest boundary, and what was open there is closed. */
module JsonTruncation {
  import opened Text
  import opened Dictionaries
  import opened Rebalance
  import opened ExtractJson

  datatype Field = Field(key: string, text: string)

  function EscapeJson(c: char): string {
    if c == '"' then "\\\"" else
    if c == '\\' then "\\\\" else
    if c == '\n' then "\\n" else
    if c == '\r' then "\\r" else
    if c == '\t' then "\\t" else
    if c == '\U{08}' then "\\b" else
    if c == '\U{0C}' then "\\f" else
    if c < ' ' then "\\u00" + [HexChar(c as int / 16), HexChar(c as int % 16)] else [c]
  }

  function Escaped(s: string): string {
    if s == "" then "" else EscapeJson(s[0]) + Escaped(s[1..])
  }

  function Quote(s: string): string {
    "\"" + Escaped(s) + "\""
  }

  function FieldText(f: Field): string {
    Quote(f.key) + ":" + Quote(f.text)
  }

  function Body(fs: seq<Field>): string {
    if fs == [] then "" else
    if |fs| == 1 then FieldText(fs[0]) else FieldText(fs[0]) + "," + Body(fs[1..])
  }

  /** `json.dumps(fields, separators=(",", ":"))`, with non-ASCII characters left as they are. */
  function ObjectText(fs: seq<Field>): string {
    "{" + Body(fs) + "}"
  }

  function FlatValue(fs: seq<Field>): Value {
    Obj(seq(|fs|, i requires 0 <= i < |fs| => Member(fs[i].key, Str(fs[i].text))))
  }

  ghost predicate DistinctFields(fs: seq<Field>) {
    forall i, j :: 0 <= i < j < |fs| ==> fs[i].key != fs[j].key
  }

  /** Keys in which no cut can fall. */
  ghost predicate UncutKeys(fs: seq<Field>) {
    forall i :: 0 <= i < |fs| ==> forall c <- fs[i].key :: !IsBoundary(c)
  }

  /** What is asked of `json.loads`: that it reads compact flat objects back, and that whatever it accepts
      has its strings and brackets closed. */
  ghost predicate ReadsFlat(loads: Loads) {
    && (forall fs: seq<Field> | DistinctFields(fs) :: loads(ObjectText(fs)) == Some(FlatValue(fs)))
    && (forall t: string | loads(t).Some? :: Balanced(t))
  }

  /** An initial run of the fields, only the last text of which may be cut to a prefix. */
  ghost predicate IsCut(cut: seq<Field>, fs: seq<Field>) {
    && 1 <= |cut| <= |fs|
    && (forall i :: 0 <= i < |cut| - 1 ==> cut[i] == fs[i])
    && cut[|cut| - 1].key == fs[|cut| - 1].key
    && cut[|cut| - 1].text <= fs[|cut| - 1].text
  }

  const OPEN := State(['{'], false, false)

  // ------------------------------------------------------------- scanning text

  lemma {:induction false} PlainIsBody(s: string)
    requires forall i :: 0 <= i < |s| ==> s[i] != '"' && s[i] != '\\'
    ensures IsBody(s)
  {
    if s != "" { PlainIsBody(s[1..]); }
  }

  lemma UnitOfBody(c: char)
    ensures IsBody(EscapeJson(c)) && EscapeJson(c) != ""
  {
    var e := EscapeJson(c);
    if |e| == 6 {
      PlainIsBody(e[2..]);
    } else {
    }
  }

  lemma {:induction false} EscapedIsBody(s: string)
    ensures IsBody(Escaped(s))
  {
    if s != "" {
      EscapedIsBody(s[1..]);
      UnitOfBody(s[0]);
      BodyAppend(EscapeJson(s[0]), Escaped(s[1..]));
    }
  }

  lemma QuoteScans(s: string, st: State)
    requires !st.inString && !st.escape
    ensures Scan(st, Quote(s)) == Some(st)
  {
    EscapedIsBody(s);
    ChunkScans(st, Quoted(Escaped(s)));
  }

  /** A text over which the brackets stay as they are. */
  ghost predicate Quiet(text: string, st: State) {
    forall j | 0 <= j <= |text| :: Scan(st, text[..j]).Some? && Scan(st, text[..j]).value.stack == st.stack
  }

  lemma {:induction false} BodyPrefixScans(st: State, body: string, j: nat)
    requires IsBody(body) && st.inString && !st.escape && j <= |body|
    ensures Scan(st, body[..j]).Some?
    ensures Scan(st, body[..j]).value.inString && Scan(st, body[..j]).value.stack == st.stack
    decreases |body|
  {
    if j > 0 {
      assert body[..j][0] == body[0];
      if body[0] == '\\' {
        if j > 1 {
          assert body[..j][1..][0] == body[1] && body[..j][1..][1..] == body[2..][..j - 2];
          BodyPrefixScans(st, body[2..], j - 2);
        } else {
          assert body[..j][1..] == "";
        }
      } else {
        assert body[..j][1..] == body[1..][..j - 1];
        BodyPrefixScans(st, body[1..], j - 1);
      }
    }
  }

  lemma QuoteQuiet(s: string, st: State)
    requires !st.inString && !st.escape
    ensures Quiet(Quote(s), st)
  {
    var q, within := Quote(s), st.(inString := true);
    QuoteScans(s, st);
    EscapedIsBody(s);
    forall j | 0 <= j <= |q|
      ensures Scan(st, q[..j]).Some? && Scan(st, q[..j]).value.stack == st.stack
    {
      if 0 < j < |q| {
        assert q[..j] == "\"" + Escaped(s)[..j - 1];
        ScanAppend(st, "\"", Escaped(s)[..j - 1]);
        ScanOne(st, '"');
        BodyPrefixScans(within, Escaped(s), j - 1);
      } else if j == |q| {
        assert q[..j] == q;
      }
    }
  }

  lemma QuietAppend(a: string, b: string, st: State)
    requires Quiet(a, st) && Scan(st, a) == Some(st) && Quiet(b, st)
    ensures Quiet(a + b, st)
  {
    forall j | 0 <= j <= |a + b|
      ensures Scan(st, (a + b)[..j]).Some? && Scan(st, (a + b)[..j]).value.stack == st.stack
    {
      if j <= |a| {
        assert (a + b)[..j] == a[..j];
      } else {
        assert (a + b)[..j] == a + b[..j - |a|];
        ScanAppend(st, a, b[..j - |a|]);
      }
    }
  }

  lemma MarkQuiet(c: char, st: State)
    requires !st.inString && !st.escape && (c == ':' || c == ',')
    ensures Quiet([c], st) && Scan(st, [c]) == Some(st)
  {
    ScanOne(st, c);
    assert [c][..1] == [c];
  }

  lemma FieldQuiet(f: Field)
    ensures Quiet(FieldText(f), OPEN) && Scan(OPEN, FieldText(f)) == Some(OPEN)
  {
    hide Quiet, Quote, Scan;
    QuoteScans(f.key, OPEN);
    QuoteScans(f.text, OPEN);
    QuoteQuiet(f.key, OPEN);
    QuoteQuiet(f.text, OPEN);
    MarkQuiet(':', OPEN);
    ScanAppend(OPEN, Quote(f.key), ":");
    ScanAppend(OPEN, Quote(f.key) + ":", Quote(f.text));
    QuietAppend(Quote(f.key), ":", OPEN);
    QuietAppend(Quote(f.key) + ":", Quote(f.text), OPEN);
  }

  lemma {:induction false} BodyQuiet(fs: seq<Field>)
    ensures Quiet(Body(fs), OPEN) && Scan(OPEN, Body(fs)) == Some(OPEN)
  {
    if fs != [] {
      FieldQuiet(fs[0]);
      if |fs| > 1 {
        hide Quiet, FieldText, Scan;
        BodyQuiet(fs[1..]);
        MarkQuiet(',', OPEN);
        ScanAppend(OPEN, FieldText(fs[0]), ",");
        ScanAppend(OPEN, FieldText(fs[0]) + ",", Body(fs[1..]));
        QuietAppend(FieldText(fs[0]), ",", OPEN);
        QuietAppend(FieldText(fs[0]) + ",", Body(fs[1..]), OPEN);
      }
    }
  }

  lemma OpenScans(text: string)
    ensures Scan(START, "{" + text) == Scan(OPEN, text)
  {
    ScanOne(START, '{');
    assert START.stack + ['{'] == ['{'];
    ScanAppend(START, "{", text);
  }

  /** A printed object is balanced, and none of its proper prefixes is. */
  lemma OnlyWholeIsBalanced(fs: seq<Field>, m: nat)
    requires 1 <= m <= |ObjectText(fs)|
    ensures Balanced(ObjectText(fs)[..m]) <==> m == |ObjectText(fs)|
  {
    var t, body := ObjectText(fs), Body(fs);
    BodyQuiet(fs);
    BalancedIsScanned(t[..m]);
    if m == |t| {
      assert t[..m] == "{" + (body + "}");
      OpenScans(body + "}");
      ScanAppend(OPEN, body, "}");
      ScanOne(OPEN, '}');
    } else {
      assert t[..m] == "{" + body[..m - 1];
      OpenScans(body[..m - 1]);
    }
  }

  // ----------------------------------------------------------------- cutting

  lemma BoundaryIsRaw(c: char, x: nat)
    requires x < |EscapeJson(c)| && IsBoundary(EscapeJson(c)[x])
    ensures EscapeJson(c) == [c] && x == 0
  {
  }

  /** A boundary inside an escaped text lies between two of its characters. */
  lemma {:induction false} EscapedCut(s: string, x: nat) returns (y: nat)
    requires x < |Escaped(s)| && IsBoundary(Escaped(s)[x])
    ensures y < |s| && Escaped(s)[..x] == Escaped(s[..y]) && IsBoundary(s[y])
    decreases |s|
  {
    var e := EscapeJson(s[0]);
    if x < |e| {
      BoundaryIsRaw(s[0], x);
      y := 0;
    } else {
      y := EscapedCut(s[1..], x - |e|);
      y := y + 1;
      assert s[..y][1..] == s[1..][..y - 1];
      assert Escaped(s)[..x] == e + Escaped(s[1..])[..x - |e|];
    }
  }

  lemma {:induction false} NoBoundary(s: string)
    requires forall i :: 0 <= i < |s| ==> !IsBoundary(s[i])
    ensures forall x :: 0 <= x < |Escaped(s)| ==> !IsBoundary(Escaped(s)[x])
  {
    if s != "" {
      NoBoundary(s[1..]);
      var e := EscapeJson(s[0]);
      forall x: nat | x < |e| ensures !IsBoundary(e[x]) {
        if IsBoundary(e[x]) { BoundaryIsRaw(s[0], x); }
      }
    }
  }

  lemma HeadIsPlain(key: string)
    requires forall i :: 0 <= i < |key| ==> !IsBoundary(key[i])
    ensures var head := Quote(key) + ":\""; forall k :: 0 <= k < |head| ==> !IsBoundary(head[k])
  {
    NoBoundary(key);
    hide Escaped;
  }

  /** The field that holds a boundary holds it in its text. */
  lemma FieldCut(f: Field, j: nat) returns (cut: Field)
    requires j < |FieldText(f)| && IsBoundary(FieldText(f)[j]) && forall i :: 0 <= i < |f.key| ==> !IsBoundary(f.key[i])
    ensures cut.key == f.key && cut.text <= f.text && FieldText(f)[..j] + "\"" == FieldText(cut)
  {
    var head, text := Quote(f.key) + ":\"", Escaped(f.text);
    hide Escaped, Quote, FieldText, IsBoundary;
    FieldParts(f);
    HeadIsPlain(f.key);
    QuoteIsNoBoundary();
    assert j >= |head|;
    var x := j - |head|;
    assert FieldText(f)[j] == (text + "\"")[x];
    assert x < |text| && IsBoundary(text[x]);
    var y := EscapedCut(f.text, x);
    cut := Field(f.key, f.text[..y]);
    FieldParts(cut);
    assert FieldText(f)[..j] == head + text[..x];
  }

  lemma QuoteIsNoBoundary()
    ensures !IsBoundary('"')
  {
  }

  lemma FieldParts(f: Field)
    ensures FieldText(f) == (Quote(f.key) + ":\"") + (Escaped(f.text) + "\"")
  {
    assert ":\"" == ":" + "\"";
    hide Escaped;
  }

  lemma BodyUnfolds(fs: seq<Field>)
    requires |fs| > 1
    ensures Body(fs) == FieldText(fs[0]) + ("," + Body(fs[1..]))
  {
  }

  /** The text up to a boundary is the text of a cut, its last quote missing when the boundary is inside a text. */
  lemma {:induction false} BodyCut(fs: seq<Field>, j: nat) returns (cut: seq<Field>)
    requires UncutKeys(fs) && j < |Body(fs)| && IsBoundary(Body(fs)[j])
    ensures IsCut(cut, fs) && (Body(fs)[..j] == Body(cut) || Body(fs)[..j] + "\"" == Body(cut))
    decreases |fs|
  {
    hide FieldText;
    var first := FieldText(fs[0]);
    if |fs| > 1 { BodyUnfolds(fs); }
    if j < |first| {
      assert Body(fs)[j] == first[j] && Body(fs)[..j] == first[..j];
      var f := FieldCut(fs[0], j);
      cut := [f];
    } else if j == |first| {
      cut := [fs[0]];
      assert Body(fs)[..j] == first;
    } else {
      var k := j - |first| - 1;
      assert Body(fs)[j] == Body(fs[1..])[k];
      var rest := BodyCut(fs[1..], k);
      cut := [fs[0]] + rest;
      assert cut[1..] == rest;
      BodyUnfolds(cut);
      hide Body;
    }
  }

  /** Rebalancing at a boundary gives the text of a cut. */
  lemma CutRebalances(fs: seq<Field>, b: nat) returns (cut: seq<Field>)
    requires UncutKeys(fs) && 1 <= b < |ObjectText(fs)| - 1 && IsBoundary(ObjectText(fs)[b])
    ensures IsCut(cut, fs) && RebalancedPrefix(ObjectText(fs)[..b]) == Some(ObjectText(cut))
  {
    var t, body := ObjectText(fs), Body(fs);
    assert t[b] == body[b - 1] && t[..b] == "{" + body[..b - 1];
    cut := BodyCut(fs, b - 1);
    BodyQuiet(cut);
    BodyQuiet(fs);
    hide Body, Scan, Quiet, RebalancedPrefix;
    assert Scan(OPEN, body[..b - 1]).Some? by { QuietHere(body, b - 1); }
    Completes(body[..b - 1], Body(cut));
  }

  lemma QuietHere(body: string, j: nat)
    requires Quiet(body, OPEN) && j <= |body|
    ensures Scan(OPEN, body[..j]).Some?
  {
  }

  /** An object text without its last brace, or without its last quote and brace, is completed. */
  lemma Completes(before: string, body: string)
    requires Scan(OPEN, before).Some? && Scan(OPEN, body) == Some(OPEN)
    requires before == body || before + "\"" == body
    ensures RebalancedPrefix("{" + before) == Some("{" + body + "}")
  {
    var st := Scan(OPEN, before).value;
    OpenScans(before);
    if before != body {
      ScanAppend(OPEN, before, "\"");
      ScanOne(st, '"');
    }
    hide Scan;
    assert st == OPEN || st == OPEN.(inString := true);
    assert ['{'][..0] == [];
    assert Closing(['{']) == "}";
    assert "{" + before + "" + "}" == "{" + before + "}";
    assert "{" + before + "\"" == "{" + (before + "\"");
  }

  // ------------------------------------------------------------- truncation

  lemma StripKeepsBoundaries(p: string)
    requires p != "" && p[0] == '{'
    ensures 1 <= |Strip(p)| <= |p| && Strip(p) == p[..|Strip(p)|]
    ensures forall i :: 0 <= i < |p| && IsBoundary(p[i]) ==> i < |Strip(p)|
  {
    assert StripLeft(p) == p;
    assert forall i :: 0 <= i < |p| && (i == 0 || IsBoundary(p[i])) ==> !IsSpace(p[i]);
    hide IsSpace, StripLeft, StripRight, IsBoundary;
  }

  lemma StripsToPrefix(p: string)
    requires p != "" && p[0] == '{'
    ensures 1 <= |Unwrapped(p)| <= |p| && Unwrapped(p) == p[..|Unwrapped(p)|]
    ensures forall i :: 0 <= i < |p| && IsBoundary(p[i]) ==> i < |Unwrapped(p)|
  {
    StripKeepsBoundaries(p);
    hide Strip, IsBoundary, Unfenced;
    var t := Strip(p);
    assert t[0] == '{';
    assert !StartsWith(t, "```") by { assert "```"[0] == '`'; }
  }

  /** The candidate for cutting, and its newest boundary. */
  lemma CandidateCut(u: string, i: nat)
    requires u != "" && u[0] == '{' && 1 <= i < |u| && IsBoundary(u[i])
    ensures Candidate(u).Some? && 1 < |Candidate(u).value| <= |u|
    ensures Candidate(u).value == u[..|Candidate(u).value|]
    ensures 1 <= LastBoundary(Candidate(u).value, |Candidate(u).value|)
  {
    assert FindChar(u, 0, '{') == 0;
    var last, c := LastBrace(u, |u|), Candidate(u).value;
    if last.Some? && 0 < last.value {
      assert IsBoundary(c[|c| - 1]);
    } else {
      assert c == u && IsBoundary(c[i]);
    }
  }

  /** Which prefix the extraction cuts, and where first. */
  lemma FirstCut(t: string, n: nat, i: nat) returns (m: nat, b: nat)
    requires 1 <= i < n < |t| && t[0] == '{' && IsBoundary(t[i])
    ensures var u := Unwrapped(t[..n]);
      && 1 <= |u| <= n && u == t[..|u|]
      && 1 <= b < m <= n && IsBoundary(t[b])
      && Candidate(u) == Some(t[..m]) && LastBoundary(t[..m], |t[..m]|) == b
  {
    var p := t[..n];
    assert p[0] == t[0] && p[i] == t[i];
    hide Unwrapped, Candidate, LastBoundary, IsBoundary;
    StripsToPrefix(p);
    var u := Unwrapped(p);
    Prefixes(t, n, |u|);
    CandidateCut(u, i);
    var c := Candidate(u).value;
    m := |c|;
    Prefixes(t, |u|, m);
    b := LastBoundary(c, |c|);
  }

  lemma Prefixes(t: string, n: nat, m: nat)
    requires m <= n <= |t|
    ensures t[..n][..m] == t[..m]
    ensures forall i :: 0 <= i < m ==> t[..m][i] == t[i]
  {
  }

  /** Neither the unwrapped text nor the candidate is balanced, and the newest cut gives an initial run. */
  ghost predicate Recovers(text: string, cut: seq<Field>) {
    var candidate := Candidate(Unwrapped(text));
    && !Balanced(Unwrapped(text))
    && candidate.Some? && !Balanced(candidate.value) && |candidate.value| > 1
    && var b := LastBoundary(candidate.value, |candidate.value|);
       b >= 1 && RebalancedPrefix(candidate.value[..b]) == Some(ObjectText(cut))
  }

  lemma CutFound(fs: seq<Field>, n: nat, i: nat) returns (cut: seq<Field>)
    requires UncutKeys(fs) && 1 <= i < n < |ObjectText(fs)| && IsBoundary(ObjectText(fs)[i])
    ensures IsCut(cut, fs) && Recovers(ObjectText(fs)[..n], cut)
  {
    var t := ObjectText(fs);
    assert t[0] == '{';
    hide ObjectText, Unwrapped, Candidate, LastBoundary, RebalancedPrefix, Balanced, IsCut, UncutKeys, IsBoundary;
    var m, b := FirstCut(t, n, i);
    OnlyWholeIsBalanced(fs, |Unwrapped(t[..n])|);
    OnlyWholeIsBalanced(fs, m);
    cut := CutRebalances(fs, b);
    Prefixes(t, m, b);
  }

  /** From every proper prefix that holds a boundary after its first character, the extraction returns a cut
      of the object: an initial run of its fields, only the last text of which may be shortened. */
  lemma TruncationRecovers(loads: Loads, fs: seq<Field>, n: nat, i: nat) returns (cut: seq<Field>)
    requires ReadsFlat(loads) && DistinctFields(fs) && UncutKeys(fs)
    requires 1 <= i < n < |ObjectText(fs)| && IsBoundary(ObjectText(fs)[i])
    ensures IsCut(cut, fs) && Extract(loads, ObjectText(fs)[..n]) == Some(FlatValue(cut))
  {
    cut := CutFound(fs, n, i);
    CutIsDistinct(cut, fs);
    hide ReadsFlat, Recovers, Extract, ObjectText, IsCut, DistinctFields, UncutKeys, FlatValue;
    LoadsCut(loads, ObjectText(fs)[..n], cut);
  }

  lemma CutIsDistinct(cut: seq<Field>, fs: seq<Field>)
    requires IsCut(cut, fs) && DistinctFields(fs)
    ensures DistinctFields(cut)
  {
    assert forall i :: 0 <= i < |cut| ==> cut[i].key == fs[i].key;
  }

  lemma LoadsCut(loads: Loads, text: string, cut: seq<Field>)
    requires ReadsFlat(loads) && DistinctFields(cut) && Recovers(text, cut)
    ensures Extract(loads, text) == Some(FlatValue(cut))
  {
    var u := Unwrapped(text);
    hide Balanced, Unwrapped, Candidate, LastBoundary, RebalancedPrefix, ObjectText, FlatValue;
    assert loads(u) == None && loads(Candidate(u).value) == None;
    assert loads(ObjectText(cut)) == Some(FlatValue(cut));
  }
}
