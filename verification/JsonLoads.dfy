/** `json.loads` on the compact flat objects of texts that `json.dumps` prints: a reader that meets what the
    truncation results ask of it, so that they are not empty. */
module JsonLoads {
  import opened Text
  import opened Dictionaries
  import opened Rebalance
  import opened ExtractJson
  import opened JsonTruncation

  /** One character of a string, plain or escaped, and the index after it. */
  function ReadUnit(t: string, i: nat): (r: Option<(char, nat)>)
    requires i < |t|
    ensures r.Some? ==> i < r.value.1 <= |t|
  {
    if t[i] < ' ' || t[i] == '"' then None
    else if t[i] != '\\' then Some((t[i], i + 1))
    else if i + 1 >= |t| then None
    else match t[i + 1]
      case '"' => Some(('"', i + 2))
      case '\\' => Some(('\\', i + 2))
      case 'n' => Some(('\n', i + 2))
      case 'r' => Some(('\r', i + 2))
      case 't' => Some(('\t', i + 2))
      case 'b' => Some(('\U{08}', i + 2))
      case 'f' => Some(('\U{0C}', i + 2))
      case 'u' =>
        if i + 6 <= |t| && t[i + 2] == '0' && t[i + 3] == '0' && 0 <= HexDigit(t[i + 4]) < 2 && HexDigit(t[i + 5]) >= 0
        then Some(((16 * HexDigit(t[i + 4]) + HexDigit(t[i + 5])) as char, i + 6)) else None
      case _ => None
  }

  /** The text up to the closing quote, and the index after the quote. */
  function ReadText(t: string, i: nat): (r: Option<(string, nat)>)
    ensures r.Some? ==> i < r.value.1 <= |t|
    decreases if i < |t| then |t| - i else 0
  {
    if i >= |t| then None
    else if t[i] == '"' then Some(("", i + 1))
    else match ReadUnit(t, i)
      case None => None
      case Some(unit) =>
        match ReadText(t, unit.1)
        case None => None
        case Some(rest) => Some(([unit.0] + rest.0, rest.1))
  }

  function ReadQuoted(t: string, i: nat): (r: Option<(string, nat)>)
    ensures r.Some? ==> i < r.value.1 <= |t|
  {
    if i < |t| && t[i] == '"' then ReadText(t, i + 1) else None
  }

  function ReadFields(t: string, i: nat): (r: Option<(seq<Field>, nat)>)
    decreases if i < |t| then |t| - i else 0
  {
    match ReadQuoted(t, i)
    case None => None
    case Some(key) =>
      if key.1 >= |t| || t[key.1] != ':' then None else
        match ReadQuoted(t, key.1 + 1)
        case None => None
        case Some(text) =>
          var first := Field(key.0, text.0);
          if text.1 < |t| && t[text.1] == ',' then
            (match ReadFields(t, text.1 + 1)
             case None => None
             case Some(rest) => Some(([first] + rest.0, rest.1)))
          else Some(([first], text.1))
  }

  /** Reads exactly the printed objects with distinct keys. */
  ghost function LoadsCompact(t: string): Option<Value> {
    if t == "{}" then Some(FlatValue([])) else
      match ReadFields(t, 1)
      case None => None
      case Some(read) =>
        if DistinctFields(read.0) && ObjectText(read.0) == t then Some(FlatValue(read.0)) else None
  }

  lemma {:induction false} ReadsUnit(t: string, i: nat, c: char)
    requires At(t, i, EscapeJson(c)) && i < |t|
    ensures ReadUnit(t, i) == Some((c, i + |EscapeJson(c)|))
  {
    var e := EscapeJson(c);
    AtIndex(t, i, e, 0);
    if |e| > 1 { AtIndex(t, i, e, 1); }
    if |e| == 6 {
      AtIndex(t, i, e, 2);
      AtIndex(t, i, e, 3);
      AtIndex(t, i, e, 4);
      AtIndex(t, i, e, 5);
    }
  }

  lemma {:induction false} ReadsText(t: string, i: nat, s: string)
    requires At(t, i, Escaped(s)) && At(t, i + |Escaped(s)|, "\"")
    ensures ReadText(t, i) == Some((s, i + |Escaped(s)| + 1))
    decreases |s|
  {
    hide At, ReadUnit;
    AtIndex(t, i + |Escaped(s)|, "\"", 0);
    if s != "" {
      var e := EscapeJson(s[0]);
      AtConcat(t, i, e, Escaped(s[1..]));
      UnitStarts(t, i, s[0]);
      ReadsUnit(t, i, s[0]);
      ReadsText(t, i + |e|, s[1..]);
      assert [s[0]] + s[1..] == s;
    }
  }

  lemma UnitStarts(t: string, i: nat, c: char)
    requires At(t, i, EscapeJson(c))
    ensures i < |t| && t[i] != '"'
  {
    AtIndex(t, i, EscapeJson(c), 0);
  }

  lemma ReadsQuoted(t: string, i: nat, s: string)
    requires At(t, i, Quote(s))
    ensures ReadQuoted(t, i) == Some((s, i + |Quote(s)|))
  {
    hide At, Escaped, ReadText;
    AtConcat(t, i, "\"" + Escaped(s), "\"");
    AtConcat(t, i, "\"", Escaped(s));
    AtIndex(t, i, "\"", 0);
    ReadsText(t, i + 1, s);
  }

  lemma {:induction false} ReadsFields(t: string, i: nat, fs: seq<Field>)
    requires fs != [] && At(t, i, Body(fs)) && i + |Body(fs)| < |t| && t[i + |Body(fs)|] == '}'
    ensures ReadFields(t, i) == Some((fs, i + |Body(fs)|))
    decreases |fs|
  {
    hide At, Quote, ReadQuoted;
    var first := FieldText(fs[0]);
    if |fs| > 1 {
      AtConcat(t, i, first + ",", Body(fs[1..]));
      AtConcat(t, i, first, ",");
      AtIndex(t, i + |first|, ",", 0);
      ReadsFields(t, i + |first| + 1, fs[1..]);
      assert [fs[0]] + fs[1..] == fs;
    } else {
      assert [fs[0]] == fs;
    }
    ReadsField(t, i, fs[0]);
  }

  lemma ReadsField(t: string, i: nat, f: Field)
    requires At(t, i, FieldText(f))
    ensures var j := i + |Quote(f.key)|;
      && ReadQuoted(t, i) == Some((f.key, j)) && j < |t| && t[j] == ':'
      && ReadQuoted(t, j + 1) == Some((f.text, i + |FieldText(f)|))
  {
    hide At, Quote, ReadQuoted;
    AtConcat(t, i, Quote(f.key) + ":", Quote(f.text));
    AtConcat(t, i, Quote(f.key), ":");
    AtIndex(t, i + |Quote(f.key)|, ":", 0);
    ReadsQuoted(t, i, f.key);
    ReadsQuoted(t, i + |Quote(f.key)| + 1, f.text);
  }

  lemma ReadsObject(fs: seq<Field>)
    requires DistinctFields(fs)
    ensures LoadsCompact(ObjectText(fs)) == Some(FlatValue(fs))
  {
    var t := ObjectText(fs);
    if fs != [] {
      assert At(t, 1, Body(fs)) && t[1 + |Body(fs)|] == '}';
      ReadsFields(t, 1, fs);
      assert |Body(fs)| > 0;
      hide ReadFields, Body, FlatValue, DistinctFields;
    } else {
      assert t == "{}";
    }
  }

  /** Such a reader exists: the requirements on `json.loads` can be met. */
  lemma CompactReadsFlat()
    ensures ReadsFlat(LoadsCompact)
  {
    forall fs: seq<Field> | DistinctFields(fs) ensures LoadsCompact(ObjectText(fs)) == Some(FlatValue(fs)) {
      ReadsObject(fs);
    }
    forall t: string | LoadsCompact(t).Some? ensures Balanced(t) {
      var fs := if t == "{}" then [] else ReadFields(t, 1).value.0;
      assert ObjectText(fs) == t && t[..|t|] == t;
      OnlyWholeIsBalanced(fs, |t|);
    }
  }
}
