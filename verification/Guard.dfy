/** The guard that compares inline tags and placeholders through joined sorted strings. */
module Guard {
  import opened Text

  // ------------------------------------------------------------------ findall

  predicate IsClose(c: char) { c == '>' }

  predicate IsBrace(c: char) { c == '{' || c == '}' }

  /** The end of the match of `<[^>]+>` at `i`. */
  function TagAt(s: string, i: nat): (r: Option<nat>)
    requires i < |s|
    ensures r.Some? ==> i < r.value <= |s| && IsTag(s[i..r.value])
  {
    var j := FindWhere(s, i + 1, IsClose);
    if s[i] == '<' && j < |s| && j > i + 1 then
      var t := s[i..j + 1];
      assert t[0] == '<' && t[|t| - 1] == '>' && forall k :: 1 <= k < |t| - 1 ==> t[k] == s[i + k];
      Some(j + 1)
    else None
  }

  /** The end of the match of `\{\{[^{}]*\}\}|\{[^{}]+\}` at `i`. */
  function PlaceholderAt(s: string, i: nat): (r: Option<nat>)
    requires i < |s|
    ensures r.Some? ==> i < r.value <= |s| && IsPlaceholder(s[i..r.value])
  {
    if s[i] != '{' then None else
      var double := if i + 1 < |s| && s[i + 1] == '{' then FindWhere(s, i + 2, IsBrace) else |s|;
      if double + 1 < |s| && s[double] == '}' && s[double + 1] == '}' then
        var t := s[i..double + 2];
        assert forall k :: 2 <= k < |t| - 2 ==> t[k] == s[i + k];
        Some(double + 2)
      else
        var single := FindWhere(s, i + 1, IsBrace);
        if single < |s| && single > i + 1 && s[single] == '}' then
          var t := s[i..single + 1];
          assert forall k :: 1 <= k < |t| - 1 ==> t[k] == s[i + k];
          Some(single + 1)
        else None
  }

  function Tags(s: string, i: nat): (r: seq<string>)
    requires i <= |s|
    ensures forall t <- r :: IsTag(t)
    decreases |s| - i
  {
    if i == |s| then [] else
      match TagAt(s, i)
      case Some(end) => [s[i..end]] + Tags(s, end)
      case None => Tags(s, i + 1)
  }

  function Placeholders(s: string, i: nat): (r: seq<string>)
    requires i <= |s|
    ensures forall t <- r :: IsPlaceholder(t)
    decreases |s| - i
  {
    if i == |s| then [] else
      match PlaceholderAt(s, i)
      case Some(end) => [s[i..end]] + Placeholders(s, end)
      case None => Placeholders(s, i + 1)
  }

  ghost predicate IsTag(t: string) {
    |t| >= 3 && t[0] == '<' && t[|t| - 1] == '>' && forall k :: 1 <= k < |t| - 1 ==> t[k] != '>'
  }

  ghost predicate IsDouble(t: string) {
    && |t| >= 4 && t[0] == '{' && t[1] == '{' && t[|t| - 2] == '}' && t[|t| - 1] == '}'
    && forall k :: 2 <= k < |t| - 2 ==> !IsBrace(t[k])
  }

  ghost predicate IsSingle(t: string) {
    |t| >= 3 && t[0] == '{' && t[|t| - 1] == '}' && forall k :: 1 <= k < |t| - 1 ==> !IsBrace(t[k])
  }

  ghost predicate IsPlaceholder(t: string) {
    IsDouble(t) || IsSingle(t)
  }

  // ------------------------------------------------------------------ sorted

  function InsertSorted(t: string, ts: seq<string>): seq<string> {
    if ts == [] || AtMost(t, ts[0]) then [t] + ts else [ts[0]] + InsertSorted(t, ts[1..])
  }

  function Sorted(ts: seq<string>): seq<string> {
    if ts == [] then [] else InsertSorted(ts[0], Sorted(ts[1..]))
  }

  function Concat(ts: seq<string>): string {
    if ts == [] then "" else ts[0] + Concat(ts[1..])
  }

  function TagsOf(s: string): string {
    Concat(Sorted(Tags(s, 0)))
  }

  function PlaceholdersOf(s: string): string {
    Concat(Sorted(Placeholders(s, 0)))
  }

  /** A reply of the model: a text, or anything else. */
  datatype Reply = Text(text: string) | NotText

  function GuardTranslation(source: string, candidate: Reply): Option<string> {
    if candidate.NotText? then None else
      var text := Strip(candidate.text);
      if text == "" then None
      else if TagsOf(source) != TagsOf(text) then None
      else if PlaceholdersOf(source) != PlaceholdersOf(text) then None
      else Some(text)
  }

  ghost predicate InOrder(ts: seq<string>) {
    forall i, j :: 0 <= i < j < |ts| ==> AtMost(ts[i], ts[j])
  }

  lemma {:induction false} InsertSortedKeeps(t: string, ts: seq<string>)
    requires InOrder(ts)
    ensures InOrder(InsertSorted(t, ts)) && multiset(InsertSorted(t, ts)) == multiset(ts) + multiset{t}
  {
    hide AtMost;
    if ts != [] {
      assert ts == [ts[0]] + ts[1..];
      AtMostTotal(t, ts[0]);
      if AtMost(t, ts[0]) {
        forall j | 0 <= j < |ts| ensures AtMost(t, ts[j]) {
          if j > 0 { AtMostTransitive(t, ts[0], ts[j]); }
        }
      } else {
        var rest := InsertSorted(t, ts[1..]);
        InsertSortedKeeps(t, ts[1..]);
        forall x | x in rest ensures AtMost(ts[0], x) {
          assert x in multiset(rest);
          assert x == t || x in ts[1..];
        }
      }
    }
  }

  lemma {:induction false} SortedSorts(ts: seq<string>)
    ensures InOrder(Sorted(ts)) && multiset(Sorted(ts)) == multiset(ts)
  {
    if ts != [] {
      assert ts == [ts[0]] + ts[1..];
      SortedSorts(ts[1..]);
      InsertSortedKeeps(ts[0], Sorted(ts[1..]));
    }
  }

  /** A multiset has one sorted sequence. */
  lemma {:induction false} SortedUnique(a: seq<string>, b: seq<string>)
    requires InOrder(a) && InOrder(b) && multiset(a) == multiset(b)
    ensures a == b
    decreases |a|
  {
    assert |multiset(a)| == |a| && |multiset(b)| == |b|;
    if a != [] {
      SameFirst(a, b);
      DropFirst(a);
      DropFirst(b);
      SortedUnique(a[1..], b[1..]);
      assert a == [a[0]] + a[1..] && b == [b[0]] + b[1..];
    }
  }

  lemma DropFirst(a: seq<string>)
    requires a != []
    ensures multiset(a[1..]) == multiset(a) - multiset{a[0]}
  {
    assert a == [a[0]] + a[1..];
  }

  lemma SameFirst(a: seq<string>, b: seq<string>)
    requires a != [] && b != [] && InOrder(a) && InOrder(b) && multiset(a) == multiset(b)
    ensures a[0] == b[0]
  {
    assert a[0] in multiset(b) && b[0] in multiset(a);
    var i :| 0 <= i < |b| && b[i] == a[0];
    var j :| 0 <= j < |a| && a[j] == b[0];
    AtMostTotal(a[0], b[0]);
    AtMostTotal(a[0], a[0]);
    hide AtMost;
    assert AtMost(b[0], b[i]) && AtMost(a[0], a[j]);
  }

  // ------------------------------------------------------- unique decoding

  /** Tokens that are not empty and of which none is a proper prefix of another. */
  ghost predicate Code(token: string -> bool) {
    && (forall x | token(x) :: x != "")
    && (forall x, y | token(x) && token(y) && x <= y :: x == y)
  }

  ghost predicate AllOf(ts: seq<string>, token: string -> bool) {
    forall i :: 0 <= i < |ts| ==> token(ts[i])
  }

  lemma {:induction false} ConcatInjective(a: seq<string>, b: seq<string>, token: string -> bool)
    requires Code(token) && AllOf(a, token) && AllOf(b, token) && Concat(a) == Concat(b)
    ensures a == b
    decreases |a|
  {
    if a != [] {
      var c, x, y := Concat(a), a[0], b[0];
      assert x == c[..|x|] && y == c[..|y|];
      assert x <= y || y <= x;
      assert Concat(a[1..]) == c[|a[0]|..] && Concat(b[1..]) == c[|b[0]|..];
      ConcatInjective(a[1..], b[1..], token);
      assert a == [a[0]] + a[1..] && b == [b[0]] + b[1..];
    }
  }

  lemma TagPrefix(x: string, y: string)
    requires IsTag(x) && IsTag(y) && x <= y
    ensures x == y
  {
    assert y[|x| - 1] == x[|x| - 1];
  }

  lemma PlaceholderPrefix(x: string, y: string)
    requires IsPlaceholder(x) && IsPlaceholder(y) && x <= y
    ensures x == y
  {
    assert y[0] == x[0] && y[1] == x[1] && y[|x| - 1] == x[|x| - 1] && y[|x| - 2] == x[|x| - 2];
  }

  lemma SortedTokens(a: seq<string>, token: string -> bool)
    requires AllOf(a, token)
    ensures AllOf(Sorted(a), token)
  {
    SortedSorts(a);
    forall i | 0 <= i < |Sorted(a)| ensures token(Sorted(a)[i]) {
      assert Sorted(a)[i] in multiset(Sorted(a));
      assert Sorted(a)[i] in a;
    }
  }

  /** The joined sorted tokens of a code are equal exactly when the multisets of tokens are. */
  lemma CanonicalFaithful(a: seq<string>, b: seq<string>, token: string -> bool)
    requires Code(token) && AllOf(a, token) && AllOf(b, token)
    ensures Concat(Sorted(a)) == Concat(Sorted(b)) <==> multiset(a) == multiset(b)
  {
    hide Code, AllOf, Concat, Sorted, InOrder;
    SortedSorts(a);
    SortedSorts(b);
    SortedTokens(a, token);
    SortedTokens(b, token);
    if Concat(Sorted(a)) == Concat(Sorted(b)) { ConcatInjective(Sorted(a), Sorted(b), token); }
    if multiset(a) == multiset(b) { SortedUnique(Sorted(a), Sorted(b)); }
  }

  lemma TagsFaithful(s: string, t: string)
    ensures TagsOf(s) == TagsOf(t) <==> multiset(Tags(s, 0)) == multiset(Tags(t, 0))
  {
    assert Code(IsTag) by {
      forall x, y | IsTag(x) && IsTag(y) && x <= y ensures x == y { TagPrefix(x, y); }
    }
    CanonicalFaithful(Tags(s, 0), Tags(t, 0), IsTag);
  }

  lemma PlaceholdersFaithful(s: string, t: string)
    ensures PlaceholdersOf(s) == PlaceholdersOf(t) <==> multiset(Placeholders(s, 0)) == multiset(Placeholders(t, 0))
  {
    assert Code(IsPlaceholder) by {
      forall x, y | IsPlaceholder(x) && IsPlaceholder(y) && x <= y ensures x == y { PlaceholderPrefix(x, y); }
    }
    CanonicalFaithful(Placeholders(s, 0), Placeholders(t, 0), IsPlaceholder);
  }

  /** The guard accepts exactly the texts that are not blank and keep both multisets, and returns them
      stripped. */
  lemma GuardExact(source: string, candidate: Reply, accepted: string)
    ensures GuardTranslation(source, candidate) == Some(accepted)
        <==> (candidate.Text? && accepted == Strip(candidate.text) && accepted != ""
              && multiset(Tags(source, 0)) == multiset(Tags(accepted, 0))
              && multiset(Placeholders(source, 0)) == multiset(Placeholders(accepted, 0)))
  {
    TagsFaithful(source, accepted);
    PlaceholdersFaithful(source, accepted);
  }

  // -------------------------------------------------------- what findall finds

  /** No token starts in `s` from `from` to before `to`. */
  ghost predicate NoneStarts(s: string, from: nat, to: nat, token: string -> bool) {
    forall a, e | from <= a < to && a < e <= |s| :: !token(s[a..e])
  }

  /** `ts` are the tokens of `s` from `i` on, left to right, each the first that starts behind the one before. */
  ghost predicate FindsAll(s: string, i: nat, ts: seq<string>, token: string -> bool)
    decreases |ts|
  {
    && i <= |s|
    && if ts == [] then NoneStarts(s, i, |s|, token) else
         exists a: nat :: i <= a && StandsAt(s, a, ts[0], token) && NoneStarts(s, i, a, token)
                          && FindsAll(s, a + |ts[0]|, ts[1..], token)
  }

  ghost predicate StandsAt(s: string, a: nat, t: string, token: string -> bool) {
    t != "" && token(t) && a + |t| <= |s| && s[a..a + |t|] == t
  }

  lemma StandsThere(s: string, a: nat, e: nat, token: string -> bool)
    requires a < e <= |s| && token(s[a..e])
    ensures StandsAt(s, a, s[a..e], token)
  {
  }

  /** Where one starts, the tokens of a code have one end. */
  lemma SameEnd(s: string, a: nat, d: nat, e: nat, token: string -> bool)
    requires Code(token) && a < d <= |s| && a < e <= |s| && token(s[a..d]) && token(s[a..e])
    ensures d == e
  {
    var x, y := s[a..d], s[a..e];
    assert d <= e ==> x <= y;
    assert e <= d ==> y <= x;
  }

  lemma FirstFound(s: string, i: nat, ts: seq<string>, token: string -> bool) returns (a: nat)
    requires ts != [] && FindsAll(s, i, ts, token)
    ensures i <= a < a + |ts[0]| <= |s| && s[a..a + |ts[0]|] == ts[0] && token(s[a..a + |ts[0]|])
    ensures NoneStarts(s, i, a, token) && FindsAll(s, a + |ts[0]|, ts[1..], token)
  {
    a :| i <= a && StandsAt(s, a, ts[0], token) && NoneStarts(s, i, a, token)
         && FindsAll(s, a + |ts[0]|, ts[1..], token);
  }

  lemma SamePlace(s: string, i: nat, a: nat, d: nat, b: nat, e: nat, token: string -> bool)
    requires i <= a < d <= |s| && token(s[a..d]) && NoneStarts(s, i, a, token)
    requires i <= b < e <= |s| && token(s[b..e]) && NoneStarts(s, i, b, token)
    ensures a == b
  {
  }

  lemma {:induction false} FindsOnce(s: string, i: nat, ts: seq<string>, us: seq<string>, token: string -> bool)
    requires Code(token) && FindsAll(s, i, ts, token) && FindsAll(s, i, us, token)
    ensures ts == us
    decreases |ts|
  {
    if ts == [] || us == [] {
      if ts != [] { var a := FirstFound(s, i, ts, token); }
      if us != [] { var b := FirstFound(s, i, us, token); }
    } else {
      hide FindsAll, NoneStarts, Code;
      var a := FirstFound(s, i, ts, token);
      var b := FirstFound(s, i, us, token);
      SamePlace(s, i, a, a + |ts[0]|, b, b + |us[0]|, token);
      SameEnd(s, a, a + |ts[0]|, a + |us[0]|, token);
      FindsOnce(s, a + |ts[0]|, ts[1..], us[1..], token);
      assert [ts[0]] + ts[1..] == ts && [us[0]] + us[1..] == us;
    }
  }

  /** One character further on, when no token starts here. */
  lemma FindsFurther(s: string, i: nat, ts: seq<string>, token: string -> bool)
    requires i < |s| && NoneStarts(s, i, i + 1, token) && FindsAll(s, i + 1, ts, token)
    ensures FindsAll(s, i, ts, token)
  {
    if ts != [] {
      var a: nat :| i + 1 <= a && StandsAt(s, a, ts[0], token) && NoneStarts(s, i + 1, a, token)
                    && FindsAll(s, a + |ts[0]|, ts[1..], token);
      assert NoneStarts(s, i, a, token);
    }
  }

  lemma FindsHere(s: string, i: nat, e: nat, ts: seq<string>, token: string -> bool)
    requires i < e <= |s| && token(s[i..e]) && FindsAll(s, e, ts, token)
    ensures FindsAll(s, i, [s[i..e]] + ts, token)
  {
    var all := [s[i..e]] + ts;
    assert all[0] == s[i..e] && all[1..] == ts;
    StandsThere(s, i, e, token);
    assert NoneStarts(s, i, i, token);
    assert StandsAt(s, i, all[0], token) && FindsAll(s, i + |all[0]|, all[1..], token);
  }

  lemma TagEnd(s: string, i: nat, e: nat)
    requires i < e <= |s| && IsTag(s[i..e])
    ensures TagAt(s, i) == Some(e)
  {
    var t := s[i..e];
    assert s[i] == t[0] && s[e - 1] == t[|t| - 1];
    assert forall k :: i + 1 <= k < e - 1 ==> s[k] == t[k - i];
  }

  lemma TagEnds(s: string, i: nat)
    requires i < |s| && TagAt(s, i).None?
    ensures NoneStarts(s, i, i + 1, IsTag)
  {
    forall e | i < e <= |s| ensures !IsTag(s[i..e]) {
      if IsTag(s[i..e]) { TagEnd(s, i, e); }
    }
  }

  lemma PlaceholderEnd(s: string, i: nat, e: nat)
    requires i < e <= |s| && IsPlaceholder(s[i..e])
    ensures PlaceholderAt(s, i) == Some(e)
  {
    var t := s[i..e];
    assert s[i] == t[0] && s[i + 1] == t[1] && s[e - 1] == t[|t| - 1] && s[e - 2] == t[|t| - 2];
    if IsDouble(t) {
      assert forall k :: i + 2 <= k < e - 2 ==> s[k] == t[k - i];
      assert FindWhere(s, i + 2, IsBrace) == e - 2;
    } else {
      assert forall k :: i + 1 <= k < e - 1 ==> s[k] == t[k - i];
      assert FindWhere(s, i + 1, IsBrace) == e - 1;
    }
  }

  lemma PlaceholderEnds(s: string, i: nat)
    requires i < |s| && PlaceholderAt(s, i).None?
    ensures NoneStarts(s, i, i + 1, IsPlaceholder)
  {
    forall e | i < e <= |s| ensures !IsPlaceholder(s[i..e]) {
      if IsPlaceholder(s[i..e]) { PlaceholderEnd(s, i, e); }
    }
  }

  lemma TagsAreCode()
    ensures Code(IsTag) && Code(IsPlaceholder)
  {
    forall x, y | IsTag(x) && IsTag(y) && x <= y ensures x == y { TagPrefix(x, y); }
    forall x, y | IsPlaceholder(x) && IsPlaceholder(y) && x <= y ensures x == y { PlaceholderPrefix(x, y); }
  }

  lemma {:induction false} FindsTags(s: string, i: nat)
    requires i <= |s|
    ensures FindsAll(s, i, Tags(s, i), IsTag)
    decreases |s| - i
  {
    hide FindsAll, IsTag, NoneStarts;
    if i == |s| {
      NothingLeft(s, IsTag);
    } else {
      var end := TagAt(s, i);
      hide TagAt;
      if end.Some? {
        FindsTags(s, end.value);
        FindsHere(s, i, end.value, Tags(s, end.value), IsTag);
      } else {
        TagEnds(s, i);
        FindsTags(s, i + 1);
        FindsFurther(s, i, Tags(s, i + 1), IsTag);
      }
    }
  }

  lemma {:induction false} FindsPlaceholders(s: string, i: nat)
    requires i <= |s|
    ensures FindsAll(s, i, Placeholders(s, i), IsPlaceholder)
    decreases |s| - i
  {
    hide FindsAll, IsPlaceholder, NoneStarts;
    if i == |s| {
      NothingLeft(s, IsPlaceholder);
    } else {
      var end := PlaceholderAt(s, i);
      hide PlaceholderAt;
      if end.Some? {
        FindsPlaceholders(s, end.value);
        FindsHere(s, i, end.value, Placeholders(s, end.value), IsPlaceholder);
      } else {
        PlaceholderEnds(s, i);
        FindsPlaceholders(s, i + 1);
        FindsFurther(s, i, Placeholders(s, i + 1), IsPlaceholder);
      }
    }
  }

  lemma NothingLeft(s: string, token: string -> bool)
    ensures FindsAll(s, |s|, [], token)
  {
  }

  /** What is listed are exactly the tags of the text, one after the other. */
  lemma TagsExactly(s: string, ts: seq<string>)
    ensures ts == Tags(s, 0) <==> FindsAll(s, 0, ts, IsTag)
  {
    hide FindsAll, Tags;
    TagsAreCode();
    FindsTags(s, 0);
    if FindsAll(s, 0, ts, IsTag) { FindsOnce(s, 0, ts, Tags(s, 0), IsTag); }
  }

  lemma PlaceholdersExactly(s: string, ts: seq<string>)
    ensures ts == Placeholders(s, 0) <==> FindsAll(s, 0, ts, IsPlaceholder)
  {
    hide FindsAll, Placeholders;
    TagsAreCode();
    FindsPlaceholders(s, 0);
    if FindsAll(s, 0, ts, IsPlaceholder) { FindsOnce(s, 0, ts, Placeholders(s, 0), IsPlaceholder); }
  }

  /** Pieces of text with tokens between them. */
  ghost function Woven(pieces: seq<string>, tokens: seq<string>): string
    requires |pieces| == |tokens| + 1
  {
    if tokens == [] then pieces[0] else pieces[0] + (tokens[0] + Woven(pieces[1..], tokens[1..]))
  }

  lemma PieceIsFree(s: string, from: nat, to: nat, token: string -> bool, open: char)
    requires to <= |s| && forall t | token(t) :: t != "" && t[0] == open
    requires forall k :: from <= k < to ==> s[k] != open
    ensures NoneStarts(s, from, to, token)
  {
    forall a, e | from <= a < to && a < e <= |s| ensures !token(s[a..e]) {
      assert s[a..e][0] == s[a];
    }
  }

  /** Between pieces without the character that opens a token, exactly the tokens woven in are found. */
  lemma {:induction false} WovenFinds(head: string, pieces: seq<string>, tokens: seq<string>, token: string -> bool, open: char)
    requires |pieces| == |tokens| + 1 && AllOf(tokens, token)
    requires forall t | token(t) :: t != "" && t[0] == open
    requires forall i :: 0 <= i < |pieces| ==> open !in pieces[i]
    ensures FindsAll(head + Woven(pieces, tokens), |head|, tokens, token)
    decreases |tokens|
  {
    var s := head + Woven(pieces, tokens);
    var a := |head| + |pieces[0]|;
    assert forall k :: |head| <= k < a ==> s[k] == pieces[0][k - |head|];
    PieceIsFree(s, |head|, a, token, open);
    if tokens != [] {
      var longer := head + (pieces[0] + tokens[0]);
      assert s == longer + Woven(pieces[1..], tokens[1..]);
      assert s[a..a + |tokens[0]|] == tokens[0];
      WovenFinds(longer, pieces[1..], tokens[1..], token, open);
    }
  }

  lemma WovenTags(pieces: seq<string>, tokens: seq<string>)
    requires |pieces| == |tokens| + 1 && AllOf(tokens, IsTag) && forall i :: 0 <= i < |pieces| ==> '<' !in pieces[i]
    ensures Tags(Woven(pieces, tokens), 0) == tokens
  {
    WovenFinds("", pieces, tokens, IsTag, '<');
    assert "" + Woven(pieces, tokens) == Woven(pieces, tokens);
    TagsExactly(Woven(pieces, tokens), tokens);
  }

  lemma WovenPlaceholders(pieces: seq<string>, tokens: seq<string>)
    requires |pieces| == |tokens| + 1 && AllOf(tokens, IsPlaceholder)
    requires forall i :: 0 <= i < |pieces| ==> '{' !in pieces[i]
    ensures Placeholders(Woven(pieces, tokens), 0) == tokens
  {
    WovenFinds("", pieces, tokens, IsPlaceholder, '{');
    assert "" + Woven(pieces, tokens) == Woven(pieces, tokens);
    PlaceholdersExactly(Woven(pieces, tokens), tokens);
  }

  /** The guard accepts exactly the stripped texts that are not blank and have the tags and the placeholders of the
      source, as often, in whatever order. */
  lemma GuardKeepsTokens(source: string, candidate: Reply, accepted: string, sourceTags: seq<string>, tags: seq<string>,
                         sourcePlaceholders: seq<string>, placeholders: seq<string>)
    requires FindsAll(source, 0, sourceTags, IsTag) && FindsAll(accepted, 0, tags, IsTag)
    requires FindsAll(source, 0, sourcePlaceholders, IsPlaceholder) && FindsAll(accepted, 0, placeholders, IsPlaceholder)
    ensures GuardTranslation(source, candidate) == Some(accepted)
        <==> (candidate.Text? && accepted == Strip(candidate.text) && accepted != ""
              && multiset(sourceTags) == multiset(tags) && multiset(sourcePlaceholders) == multiset(placeholders))
  {
    hide GuardTranslation, Tags, Placeholders, FindsAll, Strip;
    TagsExactly(source, sourceTags);
    TagsExactly(accepted, tags);
    PlaceholdersExactly(source, sourcePlaceholders);
    PlaceholdersExactly(accepted, placeholders);
    GuardExact(source, candidate, accepted);
  }
}
