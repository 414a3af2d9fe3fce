/** Best-effort extraction of a JSON object from a model reply. */
module ExtractJson {
  import opened Text
  import opened Dictionaries
  import opened Rebalance

  /** `json.loads`: the value of a JSON text, or None for a `JSONDecodeError`. */
  type Loads = string -> Option<Value>

  const MAX_CUTS := 64

  /** Last index before `end` of a character of a boundary, or 0 when there is none. */
  function LastBoundary(s: string, end: nat): (j: nat)
    requires end <= |s|
    ensures j <= end && (j > 0 ==> j < end && IsBoundary(s[j]))
    ensures forall k :: j < k < end ==> !IsBoundary(s[k])
    decreases end
  {
    if end == 0 then 0 else if IsBoundary(s[end - 1]) then end - 1 else LastBoundary(s, end - 1)
  }

  predicate IsBoundary(c: char) { c == '}' || c == ',' }

  /** Last index of a closing brace, or None. */
  function LastBrace(s: string, end: nat): (j: Option<nat>)
    requires end <= |s|
    ensures j.Some? ==> j.value < end && s[j.value] == '}'
    ensures forall k :: (if j.Some? then j.value else -1) < k < end ==> s[k] != '}'
    decreases end
  {
    if end == 0 then None else if s[end - 1] == '}' then Some(end - 1) else LastBrace(s, end - 1)
  }

  predicate StartsWith(s: string, start: string) {
    |start| <= |s| && s[..|start|] == start
  }

  /** What follows the opening fence. */
  function Opened(text: string): string
    requires StartsWith(text, "```")
  {
    StripLeft(if StartsWith(text[3..], "json") then text[7..] else text[3..])
  }

  /** What precedes the closing fence, if there is one. */
  function Closed(body: string): string {
    if |body| >= 3 && body[|body| - 3..] == "```" then StripRight(body[..|body| - 3]) else body
  }

  /** The substitution that takes a code fence off a stripped text that starts with one. */
  function Unfenced(text: string): string
    requires StartsWith(text, "```")
  {
    Closed(Opened(text))
  }

  function Unwrapped(text: string): string {
    var t := Strip(text);
    if StartsWith(t, "```") then Unfenced(t) else t
  }

  /** The widest region between braces, or the whole text when it only starts with one. */
  function Candidate(t: string): (r: Option<string>)
    ensures r.Some? ==> r.value != ""
  {
    var first, last := FindChar(t, 0, '{'), LastBrace(t, |t|);
    if last.Some? && first < last.value then Some(t[first..last.value + 1])
    else if StartsWith(t, "{") then Some(t)
    else None
  }

  /** The cuts of the candidate at its boundaries, newest first, at most 64 of them. */
  function Cuts(loads: Loads, candidate: string, position: nat, attempts: nat): Option<Value>
    requires position <= |candidate|
    decreases position
  {
    if position <= 1 || attempts >= MAX_CUTS then None else
      var boundary := LastBoundary(candidate, position);
      if boundary < 1 then None else
        var repaired := RebalancedPrefix(candidate[..boundary]);
        if repaired.Some? && loads(repaired.value).Some? then loads(repaired.value)
        else Cuts(loads, candidate, boundary, attempts + 1)
  }

  function Extract(loads: Loads, text: string): Option<Value> {
    var t := Unwrapped(text);
    if loads(t).Some? then loads(t) else
      match Candidate(t)
      case None => None
      case Some(candidate) =>
        if loads(candidate).Some? then loads(candidate) else Cuts(loads, candidate, |candidate|, 0)
  }

  method TryCuts(loads: Loads, candidate: string) returns (r: Option<Value>)
    ensures r == Cuts(loads, candidate, |candidate|, 0)
  {
    hide RebalancedPrefix, LastBoundary;
    var attempts := 0;
    var position: nat := |candidate|;
    while position > 1 && attempts < MAX_CUTS
      invariant position <= |candidate|
      invariant Cuts(loads, candidate, position, attempts) == Cuts(loads, candidate, |candidate|, 0)
      decreases position
    {
      attempts := attempts + 1;
      var boundary := LastBoundary(candidate, position);
      if boundary < 1 { break; }
      var repaired := CloseOpen(candidate[..boundary]);
      if repaired.Some? && loads(repaired.value).Some? { return loads(repaired.value); }
      position := boundary;
    }
    r := None;
  }

  method ExtractObject(loads: Loads, text: string) returns (r: Option<Value>)
    ensures r == Extract(loads, text)
  {
    hide Unwrapped, Candidate, Cuts;
    var t := Unwrapped(text);
    if loads(t).Some? { return loads(t); }
    var candidate := Candidate(t);
    if candidate.None? { return None; }
    if loads(candidate.value).Some? { return loads(candidate.value); }
    r := TryCuts(loads, candidate.value);
  }

  // --------------------------------------------------------- the loop in general

  /** The boundaries between `from` and `to`. */
  ghost function Boundaries(candidate: string, from: nat, to: nat): set<nat>
    requires to <= |candidate|
  {
    set b: nat | from <= b < to && (candidate[b] == ',' || candidate[b] == '}') :: b
  }

  ghost function CutAt(loads: Loads, candidate: string, boundary: nat): Option<Value>
    requires boundary <= |candidate|
  {
    var repaired := RebalancedPrefix(candidate[..boundary]);
    if repaired.Some? then loads(repaired.value) else None
  }

  lemma BoundariesStep(candidate: string, b: nat, position: nat)
    requires position <= |candidate| && LastBoundary(candidate, position) >= 1
    ensures var newest := LastBoundary(candidate, position);
      && newest < position && IsBoundary(candidate[newest])
      && (b < newest ==>
            && Boundaries(candidate, b + 1, position) == Boundaries(candidate, b + 1, newest) + {newest}
            && |Boundaries(candidate, b + 1, position)| == |Boundaries(candidate, b + 1, newest)| + 1)
      && (b == newest ==> Boundaries(candidate, b + 1, position) == {})
  {
    var newest := LastBoundary(candidate, position);
    if b < newest {
      var all, some := Boundaries(candidate, b + 1, position), Boundaries(candidate, b + 1, newest);
      assert all == some + {newest} && newest !in some;
    }
  }

  /** What the loop returns is the newest cut that loads, with fewer than 64 newer boundaries. */
  lemma {:induction false} CutsFindNewest(loads: Loads, candidate: string, position: nat, attempts: nat) returns (b: nat)
    requires position <= |candidate| && attempts <= MAX_CUTS && Cuts(loads, candidate, position, attempts).Some?
    ensures 1 <= b < position && (candidate[b] == ',' || candidate[b] == '}')
    ensures Cuts(loads, candidate, position, attempts) == CutAt(loads, candidate, b)
    ensures |Boundaries(candidate, b + 1, position)| < 64 - attempts
    ensures forall n <- Boundaries(candidate, b + 1, position) :: CutAt(loads, candidate, n) == None
    decreases position
  {
    hide RebalancedPrefix, LastBoundary, Boundaries;
    b := LastBoundary(candidate, position);
    var newest := b;
    if CutAt(loads, candidate, b) == None { b := CutsFindNewest(loads, candidate, b, attempts + 1); }
    BoundariesStep(candidate, b, position);
  }

  /** The loop gives up only when none of the newest 64 boundaries loads. */
  lemma {:induction false} CutsFind(loads: Loads, candidate: string, position: nat, attempts: nat, b: nat)
    requires position <= |candidate| && attempts <= MAX_CUTS
    requires 1 <= b < position && (candidate[b] == ',' || candidate[b] == '}') && CutAt(loads, candidate, b).Some?
    requires |Boundaries(candidate, b + 1, position)| < 64 - attempts
    ensures Cuts(loads, candidate, position, attempts).Some?
    decreases position
  {
    var newest := LastBoundary(candidate, position);
    assert newest >= b;
    hide RebalancedPrefix, LastBoundary, Boundaries;
    BoundariesStep(candidate, b, position);
    if CutAt(loads, candidate, newest) == None { CutsFind(loads, candidate, newest, attempts + 1, b); }
  }

  // ---------------------------------------------------------- whole objects

  /** A text from its first brace to its last: an object with whatever it holds. */
  ghost predicate IsRegion(body: string) {
    |body| >= 2 && body[0] == '{' && body[|body| - 1] == '}'
  }

  lemma CandidateIsRegion(before: string, body: string, after: string)
    requires IsRegion(body) && '{' !in before && '}' !in after
    ensures Candidate(before + body + after) == Some(body)
  {
    var t := before + body + after;
    var last := |before| + |body| - 1;
    assert t[|before|] == '{' && t[last] == '}' && t[|before|..last + 1] == body;
    assert forall k :: 0 <= k < |before| ==> t[k] == before[k];
    assert forall k :: last < k < |t| ==> t[k] == after[k - last - 1];
  }

  /** A text that holds an object but does not load itself: what is loaded is the region from its first opening brace
      to its last closing brace. */
  lemma RegionIsLoaded(loads: Loads, text: string, before: string, body: string, after: string)
    requires Unwrapped(text) == before + body + after && loads(before + body + after).None?
    requires IsRegion(body) && '{' !in before && '}' !in after && loads(body).Some?
    ensures Extract(loads, text) == loads(body)
  {
    hide Unwrapped, Candidate, Cuts;
    CandidateIsRegion(before, body, after);
  }

  lemma {:induction false} StripsLeftOnly(s: string, rest: string)
    requires rest != "" && !IsSpace(rest[0])
    ensures StripLeft(s + rest) == StripLeft(s) + rest
  {
    if s == "" {
      assert s + rest == rest;
    } else {
      assert (s + rest)[0] == s[0] && (s + rest)[1..] == s[1..] + rest;
      hide IsSpace;
      if IsSpace(s[0]) { StripsLeftOnly(s[1..], rest); }
    }
  }

  lemma {:induction false} StripsRightOnly(rest: string, s: string)
    requires rest != "" && !IsSpace(rest[|rest| - 1])
    ensures StripRight(rest + s) == rest + StripRight(s)
    decreases |s|
  {
    var t := rest + s;
    if s == "" {
      assert t == rest;
    } else {
      assert t[|t| - 1] == s[|s| - 1] && t[..|t| - 1] == rest + s[..|s| - 1];
      hide IsSpace;
      if IsSpace(s[|s| - 1]) { StripsRightOnly(rest, s[..|s| - 1]); }
    }
  }

  lemma StripsAround(before: string, body: string, after: string)
    requires body != "" && !IsSpace(body[0]) && !IsSpace(body[|body| - 1])
    ensures Strip(before + body + after) == StripLeft(before) + body + StripRight(after)
  {
    hide StripLeft, StripRight, IsSpace;
    assert before + body + after == before + (body + after);
    StripsLeftOnly(before, body + after);
    var head := StripLeft(before) + body;
    assert StripLeft(before) + (body + after) == head + after;
    StripsRightOnly(head, after);
  }

  /** A reply with prose around an object: the prose is dropped and the object loaded. */
  lemma ProseReply(loads: Loads, before: string, body: string, after: string)
    requires IsRegion(body) && '{' !in before && '}' !in after
    requires var t := Strip(before + body + after); !StartsWith(t, "```") && loads(t).None?
    requires loads(body).Some?
    ensures Extract(loads, before + body + after) == loads(body)
  {
    StripsAround(before, body, after);
    hide StripLeft, StripRight, Candidate, Cuts, Strip;
    RegionIsLoaded(loads, before + body + after, StripLeft(before), body, StripRight(after));
  }

  /** A reply that is an object, with white space around it: it is loaded as it is. */
  lemma WholeReply(loads: Loads, before: string, body: string, after: string)
    requires body != "" && !IsSpace(body[0]) && !IsSpace(body[|body| - 1]) && !StartsWith(body, "```")
    requires StripLeft(before) == "" && StripRight(after) == "" && loads(body).Some?
    ensures Extract(loads, before + body + after) == loads(body)
  {
    hide StripLeft, StripRight, Strip, IsSpace, StartsWith, Candidate, Cuts;
    StripsAround(before, body, after);
    assert "" + body + "" == body;
  }

  const FENCE := "```"

  ghost function Fenced(name: string, gap: string, inner: string, pad: string): string {
    FENCE + (name + (gap + (inner + (pad + FENCE))))
  }

  lemma FenceEnds(name: string, gap: string, inner: string, pad: string)
    ensures var t := Fenced(name, gap, inner, pad);
      StartsWith(t, "```") && t != "" && !IsSpace(t[0]) && !IsSpace(t[|t| - 1])
  {
    var t := Fenced(name, gap, inner, pad);
    assert t == (FENCE + (name + (gap + (inner + pad)))) + FENCE;
    assert t[|t| - 1] == FENCE[2] && t[0] == FENCE[0] && t[..3] == FENCE;
  }

  lemma FenceOpens(name: string, gap: string, rest: string)
    requires name == "json" || (name == "" && !StartsWith(gap + rest, "json"))
    requires StripLeft(gap) == "" && rest != "" && !IsSpace(rest[0])
    ensures var t := FENCE + (name + (gap + rest)); StartsWith(t, "```") && Opened(t) == rest
  {
    hide StripLeft, IsSpace;
    var t := FENCE + (name + (gap + rest));
    assert t[..3] == FENCE && t[3..] == name + (gap + rest);
    if name == "json" {
      assert t[3..][..4] == "json" && t[7..] == gap + rest;
    } else {
      assert name + (gap + rest) == gap + rest;
    }
    StripsLeftOnly(gap, rest);
    assert "" + rest == rest;
  }

  lemma FenceCloses(inner: string, pad: string)
    requires inner != "" && !IsSpace(inner[|inner| - 1]) && StripRight(pad) == ""
    ensures Closed(inner + (pad + FENCE)) == inner
  {
    hide StripRight, IsSpace;
    var t := inner + (pad + FENCE);
    assert t == (inner + pad) + FENCE;
    assert t[|t| - 3..] == FENCE && t[..|t| - 3] == inner + pad;
    StripsRightOnly(inner, pad);
    assert inner + "" == inner;
  }

  lemma UnfencedIs(name: string, gap: string, inner: string, pad: string)
    requires name == "json" || (name == "" && !StartsWith(gap + (inner + (pad + FENCE)), "json"))
    requires inner != "" && !IsSpace(inner[0]) && !IsSpace(inner[|inner| - 1])
    requires StripLeft(gap) == "" && StripRight(pad) == ""
    ensures StartsWith(Fenced(name, gap, inner, pad), "```") && Unfenced(Fenced(name, gap, inner, pad)) == inner
  {
    hide StripLeft, StripRight, IsSpace, StartsWith, Opened, Closed;
    FenceOpens(name, gap, inner + (pad + FENCE));
    FenceCloses(inner, pad);
  }

  /** A code fence, named or not, with any white space inside and around it, is taken off. */
  lemma FenceIsTakenOff(lead: string, name: string, gap: string, inner: string, pad: string, trail: string)
    requires name == "json" || (name == "" && !StartsWith(gap + (inner + (pad + FENCE)), "json"))
    requires inner != "" && !IsSpace(inner[0]) && !IsSpace(inner[|inner| - 1])
    requires StripLeft(lead) == "" && StripLeft(gap) == "" && StripRight(pad) == "" && StripRight(trail) == ""
    ensures Unwrapped(lead + Fenced(name, gap, inner, pad) + trail) == inner
  {
    hide StripLeft, StripRight, IsSpace, Strip, StartsWith, Fenced, Unfenced;
    var fenced := Fenced(name, gap, inner, pad);
    FenceEnds(name, gap, inner, pad);
    StripsAround(lead, fenced, trail);
    assert "" + fenced + "" == fenced;
    UnfencedIs(name, gap, inner, pad);
  }

  lemma BlankIsSpace(gap: string)
    requires StripLeft(gap) == ""
    ensures gap != "" ==> IsSpace(gap[0])
  {
    hide IsSpace;
  }

  lemma BareParts()
    ensures StartsWith(FENCE, "```") && Opened(FENCE) == "" && Closed(FENCE) == "" && Closed("") == ""
  {
    assert FENCE[..3] == FENCE && FENCE[3..] == "" && FENCE[..0] == "" && FENCE[0..] == FENCE;
    assert StripLeft("") == "" && StripRight("") == "";
    hide StripLeft, StripRight, IsSpace;
  }

  /** A reply that is only a fence leaves nothing, and so does a closing fence alone. */
  lemma BareFence()
    ensures Unwrapped(FENCE) == "" && Closed(FENCE) == ""
  {
    assert FENCE[0] == '`' && FENCE[2] == '`' && !IsSpace('`');
    hide StripLeft, StripRight, IsSpace, Opened, Closed, StartsWith;
    BareParts();
    StripIdle(FENCE);
    hide Strip;
  }

  lemma RegionStarts(gap: string, body: string, rest: string)
    requires IsRegion(body) && StripLeft(gap) == ""
    ensures !IsSpace(body[0]) && !IsSpace(body[|body| - 1]) && !StartsWith(gap + (body + rest), "json")
  {
    var t := gap + (body + rest);
    BlankIsSpace(gap);
    hide StripLeft;
    assert t[0] == (if gap == "" then '{' else gap[0]);
    assert !IsSpace('j') && t[0] != 'j';
    NoStart(t);
  }

  lemma NoStart(t: string)
    requires t != "" && t[0] != 'j'
    ensures !StartsWith(t, "json")
  {
    if |t| >= 4 { assert t[..4][0] == t[0]; }
  }

  /** A fenced reply, the object alone in its fence. */
  lemma FencedReply(loads: Loads, lead: string, name: string, gap: string, body: string, pad: string, trail: string)
    requires name == "json" || name == ""
    requires IsRegion(body) && loads(body).Some?
    requires StripLeft(lead) == "" && StripLeft(gap) == "" && StripRight(pad) == "" && StripRight(trail) == ""
    ensures Extract(loads, lead + Fenced(name, gap, body, pad) + trail) == loads(body)
  {
    hide Candidate, Cuts, Unwrapped, StripLeft, StripRight, StartsWith, Fenced;
    RegionStarts(gap, body, pad + FENCE);
    FenceIsTakenOff(lead, name, gap, body, pad, trail);
  }

  /** A fenced reply with prose around the object inside the fence. */
  lemma FencedProse(loads: Loads, lead: string, name: string, gap: string, before: string, body: string, after: string,
                    pad: string, trail: string)
    requires var inner := before + body + after;
      && (name == "json" || (name == "" && !StartsWith(gap + (inner + (pad + FENCE)), "json")))
      && inner != "" && !IsSpace(inner[0]) && !IsSpace(inner[|inner| - 1]) && loads(inner).None?
    requires StripLeft(lead) == "" && StripLeft(gap) == "" && StripRight(pad) == "" && StripRight(trail) == ""
    requires IsRegion(body) && '{' !in before && '}' !in after && loads(body).Some?
    ensures Extract(loads, lead + Fenced(name, gap, before + body + after, pad) + trail) == loads(body)
  {
    hide Candidate, Cuts, Unwrapped, StripLeft, StripRight, StartsWith, Fenced, IsSpace;
    FenceIsTakenOff(lead, name, gap, before + body + after, pad, trail);
    RegionIsLoaded(loads, lead + Fenced(name, gap, before + body + after, pad) + trail, before, body, after);
  }

  /** A text without a closing brace behind an opening one, that does not start with a brace, and does not load. */
  lemma NoRegionFails(loads: Loads, text: string)
    requires var t := Unwrapped(text);
      && loads(t).None? && (t == "" || t[0] != '{')
      && forall i, j :: 0 <= i < j < |t| ==> !(t[i] == '{' && t[j] == '}')
    ensures Extract(loads, text) == None
  {
    hide Unwrapped, Cuts;
    var t := Unwrapped(text);
    var first, last := FindChar(t, 0, '{'), LastBrace(t, |t|);
    if t != "" { assert t[..1][0] == t[0]; }
  }

  /** When neither the text nor its region loads, the cuts of the region decide: what is returned is the newest cut at a
      comma or closing brace that loads, and nothing exactly when none of the newest 64 does. */
  lemma CutsDecide(loads: Loads, text: string, region: string)
    requires loads(Unwrapped(text)).None? && Candidate(Unwrapped(text)) == Some(region) && loads(region).None?
    ensures Extract(loads, text).Some? <==> exists b: nat :: IsOfNewest64(region, b) && CutAt(loads, region, b).Some?
    ensures Extract(loads, text).Some? ==>
      exists b: nat :: IsOfNewest64(region, b) && CutAt(loads, region, b) == Extract(loads, text)
        && forall n :: b < n < |region| && (region[n] == ',' || region[n] == '}') ==> CutAt(loads, region, n) == None
  {
    hide Unwrapped, Candidate, Cuts, CutAt;
    if Extract(loads, text).Some? {
      var b := CutsFindNewest(loads, region, |region|, 0);
      assert IsOfNewest64(region, b);
      forall n | b < n < |region| && (region[n] == ',' || region[n] == '}') ensures CutAt(loads, region, n) == None {
        assert n in Boundaries(region, b + 1, |region|);
      }
    }
    forall b: nat | IsOfNewest64(region, b) && CutAt(loads, region, b).Some? ensures Extract(loads, text).Some? {
      CutsFind(loads, region, |region|, 0, b);
    }
  }

  /** A comma or closing brace behind the first character, with fewer than 64 of them behind it. */
  ghost predicate IsOfNewest64(region: string, b: nat) {
    && 1 <= b < |region| && (region[b] == ',' || region[b] == '}')
    && |Boundaries(region, b + 1, |region|)| < 64
  }
}
