/** Closing what a truncated JSON text left open. */
module Rebalance {
  import opened Text

  /** The variables of the scan: the open brackets, and the two flags. */
  datatype State = State(stack: seq<char>, inString: bool, escape: bool)

  const START := State([], false, false)

  function Closer(open: char): char {
    if open == '{' then '}' else ']'
  }

  predicate IsOpener(c: char) { c == '{' || c == '[' }

  predicate IsCloser(c: char) { c == '}' || c == ']' }

  /** One round of the loop; None where the source returns. */
  function Next(st: State, c: char): Option<State> {
    if st.inString then
      if st.escape then Some(st.(escape := false))
      else if c == '\\' then Some(st.(escape := true))
      else if c == '"' then Some(st.(inString := false))
      else Some(st)
    else if c == '"' then Some(st.(inString := true))
    else if IsOpener(c) then Some(st.(stack := st.stack + [c]))
    else if IsCloser(c) then
      if st.stack == [] || Closer(st.stack[|st.stack| - 1]) != c then None
      else Some(st.(stack := st.stack[..|st.stack| - 1]))
    else Some(st)
  }

  function Scan(st: State, text: string): Option<State>
    decreases |text|
  {
    if text == "" then Some(st) else
      match Next(st, text[0])
      case None => None
      case Some(next) => Scan(next, text[1..])
  }

  /** The closers of the open brackets, innermost first. */
  function Closing(stack: seq<char>): string {
    if stack == [] then "" else [Closer(stack[|stack| - 1])] + Closing(stack[..|stack| - 1])
  }

  function RebalancedPrefix(prefix: string): Option<string> {
    match Scan(START, prefix)
    case None => None
    case Some(st) =>
      if st.escape then None
      else Some(prefix + (if st.inString then "\"" else "") + Closing(st.stack))
  }

  method CloseOpen(prefix: string) returns (repaired: Option<string>)
    ensures repaired == RebalancedPrefix(prefix)
  {
    var stack: seq<char> := [];
    var inString, escape := false, false;
    for i := 0 to |prefix|
      invariant Scan(State(stack, inString, escape), prefix[i..]) == Scan(START, prefix)
    {
      var ch := prefix[i];
      assert prefix[i..][1..] == prefix[i + 1..];
      if inString {
        if escape {
          escape := false;
        } else if ch == '\\' {
          escape := true;
        } else if ch == '"' {
          inString := false;
        }
        continue;
      }
      if ch == '"' {
        inString := true;
      } else if IsOpener(ch) {
        stack := stack + [ch];
      } else if IsCloser(ch) {
        if stack == [] || Closer(stack[|stack| - 1]) != ch { return None; }
        stack := stack[..|stack| - 1];
      }
    }
    if escape { return None; }
    var text := if inString then prefix + "\"" else prefix;
    if stack != [] { text := text + Closing(stack); }
    assert prefix[|prefix|..] == "" && prefix + "" == prefix && text + "" == text;
    repaired := Some(text);
  }

  // -------------------------------------------------------- a grammar of text

  /** JSON-like text as a tree: a character outside strings that is no quote or bracket, a string, or a
      bracketed group. */
  datatype Chunk =
    | Plain(c: char)
    | Quoted(body: string)
    | Group(open: char, inner: seq<Chunk>)

  /** Escape pairs and characters other than quote and backslash. */
  ghost predicate IsBody(body: string) {
    body == ""
    || (body[0] == '\\' && |body| >= 2 && IsBody(body[2..]))
    || (body[0] != '\\' && body[0] != '"' && IsBody(body[1..]))
  }

  ghost predicate IsChunk(k: Chunk) {
    match k
    case Plain(c) => c !in "\"{}[]"
    case Quoted(body) => IsBody(body)
    case Group(open, inner) => open in "{[" && forall i :: 0 <= i < |inner| ==> IsChunk(inner[i])
  }

  ghost predicate AreChunks(ks: seq<Chunk>) {
    forall i :: 0 <= i < |ks| ==> IsChunk(ks[i])
  }

  ghost function ChunkText(k: Chunk): string
    decreases k, 0
  {
    match k
    case Plain(c) => [c]
    case Quoted(body) => "\"" + body + "\""
    case Group(open, inner) => [open] + ChunksText(inner) + if open == '{' then "}" else "]"
  }

  ghost function ChunksText(ks: seq<Chunk>): string
    decreases ks, 0
  {
    if ks == [] then "" else ChunksText(ks[..|ks| - 1]) + ChunkText(ks[|ks| - 1])
  }

  /** Every string is closed and every bracket has its partner. */
  ghost predicate Balanced(text: string) {
    exists ks: seq<Chunk> :: AreChunks(ks) && ChunksText(ks) == text
  }

  // ------------------------------------------------------ balanced text scans

  ghost function Then(found: Option<State>, text: string): Option<State> {
    match found case None => None case Some(st) => Scan(st, text)
  }

  lemma {:induction false} ScanAppend(st: State, a: string, b: string)
    ensures Scan(st, a + b) == Then(Scan(st, a), b)
    decreases |a|
  {
    if a == "" {
      assert a + b == b;
    } else {
      assert (a + b)[1..] == a[1..] + b;
      if Next(st, a[0]).Some? { ScanAppend(Next(st, a[0]).value, a[1..], b); }
    }
  }

  lemma ScanOne(st: State, c: char)
    ensures Scan(st, [c]) == Next(st, c)
  {
  }

  lemma {:induction false} BodyScans(st: State, body: string)
    requires IsBody(body) && st.inString && !st.escape
    ensures Scan(st, body) == Some(st)
    decreases |body|
  {
    if body != "" {
      if body[0] == '\\' {
        assert body[1..][1..] == body[2..] && body[1..][0] == body[1];
        BodyScans(st, body[2..]);
      } else {
        BodyScans(st, body[1..]);
      }
    }
  }

  lemma {:induction false} ChunkScans(st: State, k: Chunk)
    requires IsChunk(k) && !st.inString && !st.escape
    ensures Scan(st, ChunkText(k)) == Some(st)
    decreases k, 0
  {
    match k {
      case Plain(c) =>
      case Quoted(body) =>
        var within := st.(inString := true);
        BodyScans(within, body);
        ScanOne(st, '"');
        ScanOne(within, '"');
        ScanAppend(st, "\"", body);
        ScanAppend(st, "\"" + body, "\"");
      case Group(open, inner) =>
        var within := st.(stack := st.stack + [open]);
        assert within.stack[..|within.stack| - 1] == st.stack;
        ChunksScan(within, inner);
        ScanOne(st, open);
        ScanOne(within, Closer(open));
        ScanAppend(st, [open], ChunksText(inner));
        ScanAppend(st, [open] + ChunksText(inner), [Closer(open)]);
    }
  }

  lemma {:induction false} ChunksScan(st: State, ks: seq<Chunk>)
    requires AreChunks(ks) && !st.inString && !st.escape
    ensures Scan(st, ChunksText(ks)) == Some(st)
    decreases ks, 0
  {
    if ks != [] {
      ChunksScan(st, ks[..|ks| - 1]);
      ChunkScans(st, ks[|ks| - 1]);
      ScanAppend(st, ChunksText(ks[..|ks| - 1]), ChunkText(ks[|ks| - 1]));
    }
  }

  // ------------------------------------------------------ scanned text parses

  /** The text of the layers between the open brackets. */
  ghost function LayersText(layers: seq<seq<Chunk>>, stack: seq<char>): string
    requires |layers| == |stack| + 1
    decreases |stack|
  {
    var n := |stack|;
    if n == 0 then ChunksText(layers[0]) else
      LayersText(layers[..n], stack[..n - 1]) + [stack[n - 1]] + ChunksText(layers[n])
  }

  ghost predicate IsParse(text: string, st: State, layers: seq<seq<Chunk>>, body: string) {
    && |layers| == |st.stack| + 1
    && (forall i :: 0 <= i < |layers| ==> AreChunks(layers[i]))
    && (forall i :: 0 <= i < |st.stack| ==> IsOpener(st.stack[i]))
    && (st.escape ==> st.inString)
    && (if st.inString then
          && text == LayersText(layers, st.stack) + "\"" + (if st.escape then body + "\\" else body)
          && IsBody(body)
        else text == LayersText(layers, st.stack))
  }

  lemma {:induction false} BodyAppend(body: string, more: string)
    requires IsBody(body) && IsBody(more)
    ensures IsBody(body + more)
    decreases |body|
  {
    if body == "" {
      assert body + more == more;
    } else if body[0] == '\\' {
      assert (body + more)[2..] == body[2..] + more && (body + more)[0] == '\\';
      BodyAppend(body[2..], more);
    } else {
      assert (body + more)[1..] == body[1..] + more && (body + more)[0] == body[0];
      BodyAppend(body[1..], more);
    }
  }

  /** A chunk put at the end of the innermost layer. */
  lemma LayersAppend(layers: seq<seq<Chunk>>, stack: seq<char>, k: Chunk) returns (more: seq<seq<Chunk>>)
    requires |layers| == |stack| + 1 && IsChunk(k) && forall i :: 0 <= i < |layers| ==> AreChunks(layers[i])
    ensures |more| == |layers| && forall i :: 0 <= i < |more| ==> AreChunks(more[i])
    ensures LayersText(more, stack) == LayersText(layers, stack) + ChunkText(k)
  {
    var n := |stack|;
    var last := layers[n] + [k];
    more := layers[..n] + [last];
    assert last[..|last| - 1] == layers[n];
    assert more[..n] == layers[..n];
  }

  /** The innermost bracket closed: its layer becomes a chunk of the layer around it. */
  lemma LayersClose(layers: seq<seq<Chunk>>, stack: seq<char>) returns (more: seq<seq<Chunk>>)
    requires |layers| == |stack| + 1 && stack != [] && IsOpener(stack[|stack| - 1])
    requires forall i :: 0 <= i < |layers| ==> AreChunks(layers[i])
    ensures |more| == |stack| && forall i :: 0 <= i < |more| ==> AreChunks(more[i])
    ensures LayersText(more, stack[..|stack| - 1])
         == LayersText(layers, stack) + [Closer(stack[|stack| - 1])]
  {
    var n := |stack|;
    var group := Group(stack[n - 1], layers[n]);
    more := LayersAppend(layers[..n], stack[..n - 1], group);
    var outer, inner := LayersText(layers[..n], stack[..n - 1]), ChunksText(layers[n]);
    assert outer + ([stack[n - 1]] + inner + [Closer(stack[n - 1])]) == outer + [stack[n - 1]] + inner + [Closer(stack[n - 1])];
  }

  lemma ParseInString(text: string, st: State, layers: seq<seq<Chunk>>, body: string, c: char)
    returns (next: seq<seq<Chunk>>, more: string)
    requires IsParse(text, st, layers, body) && st.inString
    ensures IsParse(text + [c], Next(st, c).value, next, more)
  {
    next, more := layers, body;
    assert IsBody(body) ==> IsChunk(Quoted(body)) && ChunkText(Quoted(body)) == "\"" + body + "\"";
    hide ChunkText, ChunksText, IsChunk;
    if st.escape || (c != '"' && c != '\\') {
      var unit := if st.escape then ['\\', c] else [c];
      more := body + unit;
      BodyAppend(body, unit);
      hide IsBody, LayersText, AreChunks;
      assert text + [c] == LayersText(layers, st.stack) + "\"" + more;
    } else if c == '"' {
      next := LayersAppend(layers, st.stack, Quoted(body));
      hide IsBody, LayersText, AreChunks;
      assert LayersText(layers, st.stack) + ("\"" + body + "\"") == text + [c];
    } else {
      hide IsBody, LayersText, AreChunks;
      assert text + [c] == LayersText(layers, st.stack) + "\"" + (body + "\\");
    }
  }

  lemma ParseOutside(text: string, st: State, layers: seq<seq<Chunk>>, c: char)
    returns (next: seq<seq<Chunk>>)
    requires IsParse(text, st, layers, "") && !st.inString && Next(st, c).Some?
    ensures IsParse(text + [c], Next(st, c).value, next, "")
  {
    next := layers;
    if c == '"' {
      assert text + [c] == text + "\"" + "";
    } else if IsOpener(c) {
      next := layers + [[]];
    } else if IsCloser(c) {
      next := LayersClose(layers, st.stack);
    } else {
      next := LayersAppend(layers, st.stack, Plain(c));
    }
  }

  lemma {:induction false} ScannedParses(text: string) returns (layers: seq<seq<Chunk>>, body: string)
    requires Scan(START, text).Some?
    ensures IsParse(text, Scan(START, text).value, layers, body)
    decreases |text|
  {
    if text == "" {
      layers, body := [[]], "";
    } else {
      var n := |text| - 1;
      var before, c := text[..n], text[n];
      assert text == before + [c];
      ScanAppend(START, before, [c]);
      var st := Scan(START, before).value;
      ScanOne(st, c);
      layers, body := ScannedParses(before);
      if st.inString {
        layers, body := ParseInString(before, st, layers, body, c);
      } else {
        body := "";
        layers := ParseOutside(before, st, layers, c);
      }
    }
  }

  /** A text scans to no open string or bracket exactly when it is balanced. */
  lemma BalancedIsScanned(text: string)
    ensures Balanced(text) <==> Scan(START, text) == Some(START)
  {
    if Balanced(text) {
      var ks :| AreChunks(ks) && ChunksText(ks) == text;
      ChunksScan(START, ks);
    }
    if Scan(START, text) == Some(START) {
      var layers, body := ScannedParses(text);
      assert AreChunks(layers[0]) && ChunksText(layers[0]) == text;
    }
  }

  // ------------------------------------------------------------- exact, minimal

  /** How many characters at least it takes to close everything. */
  ghost function Need(st: State): nat {
    |st.stack| + if st.inString then 1 else 0
  }

  lemma {:induction false} NeedIsNeeded(st: State, text: string)
    requires Scan(st, text).Some?
    ensures Need(st) <= |text| + Need(Scan(st, text).value)
    decreases |text|
  {
    if text != "" { NeedIsNeeded(Next(st, text[0]).value, text[1..]); }
  }

  lemma {:induction false} ClosingScans(stack: seq<char>)
    requires forall i :: 0 <= i < |stack| ==> IsOpener(stack[i])
    ensures Scan(State(stack, false, false), Closing(stack)) == Some(START)
    ensures |Closing(stack)| == |stack|
    decreases |stack|
  {
    if stack != [] {
      ClosingScans(stack[..|stack| - 1]);
      assert Closing(stack)[1..] == Closing(stack[..|stack| - 1]);
    }
  }

  lemma ClosesState(prefix: string, st: State)
    requires Scan(START, prefix) == Some(st) && !st.escape
    ensures var closing := (if st.inString then "\"" else "") + Closing(st.stack);
      Scan(START, prefix + closing) == Some(START) && |closing| == Need(st)
  {
    var layers, body := ScannedParses(prefix);
    var quote := if st.inString then "\"" else "";
    ClosingScans(st.stack);
    ScanAppend(START, prefix, quote + Closing(st.stack));
    ScanAppend(st, quote, Closing(st.stack));
    if st.inString { ScanOne(st, '"'); }
  }

  /** What comes back is the shortest balanced extension of the prefix. */
  lemma RebalancedIsShortest(prefix: string, repaired: string)
    requires RebalancedPrefix(prefix) == Some(repaired)
    ensures prefix <= repaired && Balanced(repaired)
    ensures forall more: string :: Balanced(prefix + more) ==> |repaired| <= |prefix + more|
  {
    var st := Scan(START, prefix).value;
    ClosesState(prefix, st);
    assert repaired == prefix + ((if st.inString then "\"" else "") + Closing(st.stack));
    BalancedIsScanned(repaired);
    forall more: string | Balanced(prefix + more) ensures |repaired| <= |prefix + more| {
      BalancedIsScanned(prefix + more);
      ScanAppend(START, prefix, more);
      NeedIsNeeded(st, more);
    }
  }

  /** The prefix ends on a backslash inside a string whose escaped character is missing. */
  ghost predicate EndsOnBackslash(prefix: string) {
    Scan(START, prefix).Some? && Scan(START, prefix).value.escape
  }

  /** Nothing comes back exactly when no extension is balanced or the prefix ends on a pending backslash. */
  lemma RefusedExactly(prefix: string)
    ensures RebalancedPrefix(prefix) == None
       <==> (forall more: string :: !Balanced(prefix + more)) || EndsOnBackslash(prefix)
  {
    var found := Scan(START, prefix);
    if found.None? {
      forall more: string ensures !Balanced(prefix + more) {
        BalancedIsScanned(prefix + more);
        ScanAppend(START, prefix, more);
      }
    } else if !found.value.escape {
      ClosesState(prefix, found.value);
      var closing := (if found.value.inString then "\"" else "") + Closing(found.value.stack);
      BalancedIsScanned(prefix + closing);
    }
  }

  /** A pending backslash says that the text before it ends inside a string, and only there is an
      extension refused that exists. */
  lemma BackslashHasExtension(prefix: string)
    requires EndsOnBackslash(prefix)
    ensures exists more: string :: Balanced(prefix + more)
    ensures prefix != "" && prefix[|prefix| - 1] == '\\'
  {
    var st := Scan(START, prefix).value;
    var layers, body := ScannedParses(prefix);
    assert prefix == LayersText(layers, st.stack) + "\"" + (body + "\\");
    var longer := prefix + "\\";
    ScanAppend(START, prefix, "\\");
    ScanOne(st, '\\');
    ClosesState(longer, st.(escape := false));
    var closing := "\"" + Closing(st.stack);
    BalancedIsScanned(longer + closing);
    assert longer + closing == prefix + ("\\" + closing);
  }
}
