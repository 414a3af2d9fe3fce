/** When the reader comes to an end. */
module TypeScriptProgress {
  import opened Text
  import opened Dictionaries
  import opened TypeScript

  /** The only white space is the four blanks that `_skip_ws_comments` skips. */
  ghost predicate PlainBlanks(c: string) {
    forall k :: 0 <= k < |c| && IsSpace(c[k]) ==> c[k] in " \t\n\r"
  }

  lemma {:induction false} SkipsAllBlanks(c: string, i: nat)
    ensures var j := SkipBlank(c, i); j < |c| ==> c[j] !in " \t\n\r"
    decreases Left(c, i)
  {
    if i < |c| {
      if c[i] in " \t\n\r" {
        SkipsAllBlanks(c, i + 1);
      } else if At(c, i, "//") {
        AtIndex(c, i, "//", 0);
        SkipsAllBlanks(c, LineEnd(c, i));
      } else if At(c, i, "/*") {
        SkipsAllBlanks(c, CommentEnd(c, i + 2) + 2);
      }
    }
  }

  lemma StripKeepsFirst(s: string)
    requires s != "" && !IsSpace(s[0])
    ensures Strip(s) != ""
  {
    var t := StripLeft(s);
    assert t == s && |t| - 1 >= |StripRight(t)| ==> IsSpace(t[|t| - 1]);
    if |s| > 1 && IsSpace(s[|s| - 1]) { StripKeepsFirst(s[..|s| - 1]); }
  }

  /** Over plain blanks every value moves the reader on, so no array loop is endless. */
  lemma {:induction false} ValueAdvances(c: string, start: nat)
    requires PlainBlanks(c)
    ensures match ReadValue(c, start)
            case Done(_, next) => SkipBlank(c, start) < next
            case Raised(error) => error != Endless
    decreases Left(c, start), 0
  {
    var i := SkipBlank(c, start);
    SkipsAllBlanks(c, start);
    hide SkipBlank, IsSpace, Strip, LiteralValue, ReadMembers, ReadItems, ReadString, LiteralEnd;
    if i < |c| {
      if c[i] == '{' {
        MembersAdvance(c, i + 1, []);
      } else if c[i] == '[' {
        ItemsAdvance(c, i + 1, []);
      } else if c[i] !in "\"'`" && LiteralEnd(c, i) > i {
        StripKeepsFirst(c[i..LiteralEnd(c, i)]);
      }
    }
  }

  lemma {:induction false} MembersAdvance(c: string, start: nat, result: seq<Member>)
    requires PlainBlanks(c)
    ensures ReadMembers(c, start, result) != Raised(Endless)
    decreases Left(c, start), 1
  {
    var i := SkipBlank(c, start);
    if i < |c| && c[i] != '}' {
      match ReadKey(c, i) {
        case None => MembersAdvance(c, i + 1, result);
        case Some(key) =>
          ValueAdvances(c, SkipBlank(c, key.next));
          var v := ReadValue(c, SkipBlank(c, key.next));
          if v.Done? { MembersAdvance(c, SkipComma(c, v.next), Put(result, key.text, v.value)); }
      }
    }
  }

  lemma {:induction false} ItemsAdvance(c: string, start: nat, result: seq<Value>)
    requires PlainBlanks(c)
    ensures ReadItems(c, start, result) != Raised(Endless)
    decreases Left(c, start), 1
  {
    var i := SkipBlank(c, start);
    if i < |c| && c[i] != ']' {
      ValueAdvances(c, i);
      var v := ReadValue(c, i);
      if v.Done? { ItemsAdvance(c, SkipComma(c, v.next), result + [v.value]); }
    }
  }

  /** The reader ends on every file whose white space is plain. */
  lemma FileEnds(c: string, locale: string)
    requires PlainBlanks(c)
    ensures ReadFile(c, locale) != Raised(Endless)
  {
    var brace := FindExport(c, 0, ExportName(locale));
    if brace.Some? { ValueAdvances(c, brace.value); }
  }
}
