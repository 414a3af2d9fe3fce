/** Putting flat keys together again, in whatever order they are visited. */
module FlatRebuild {
  import opened Text
  import opened Decimal
  import opened Dictionaries
  import opened FlatKeys
  import opened FlatPaths

  /** No key of any object is a number. */
  ghost predicate WordKeys(v: Value) {
    match v
    case Obj(ms) => forall i :: 0 <= i < |ms| ==> !IsDigits(ms[i].key) && WordKeys(ms[i].value)
    case List(items) => forall i :: 0 <= i < |items| ==> WordKeys(items[i])
    case _ => true
  }

  /** No key of any object below the root is a number. */
  ghost predicate WordKeysBelow(v: Value) {
    match v
    case Obj(ms) => forall i :: 0 <= i < |ms| ==> WordKeys(ms[i].value)
    case List(items) => forall i :: 0 <= i < |items| ==> WordKeys(items[i])
    case _ => true
  }

  /** `p` is built after the pattern of `s`: the same kinds of node at the same places, some of them
      still missing, and list items not reached yet padded with `Null`. */
  ghost predicate Fits(p: Value, s: Value) {
    match p
    case Obj(pm) =>
      && s.Obj? && Distinct(pm)
      && forall i :: 0 <= i < |pm| ==>
           Has(s.members, pm[i].key) && pm[i].value != Null && Fits(pm[i].value, Get(s.members, pm[i].key))
    case List(items) =>
      && s.List? && |items| <= |s.items|
      && forall i :: 0 <= i < |items| ==> items[i] == Null || Fits(items[i], s.items[i])
    case _ => IsLeaf(s)
  }

  /** A leaf that is not padding. */
  ghost function Real(found: Option<Value>): Option<Value> {
    if found == Some(Null) then None else found
  }

  ghost predicate RealLeaf(v: Value) {
    IsLeaf(v) && v != Null
  }

  lemma FreshFits(s: Value, path: Path)
    requires path != [] && Find(s, path).Some? && WordKeys(s)
    ensures Fits(Fresh(path[0]), s)
  {
  }

  lemma PutFits(pm: seq<Member>, s: Value, key: string, child: Value)
    requires Fits(Obj(pm), s) && Has(s.members, key) && child != Null && Fits(child, Get(s.members, key))
    ensures Fits(Obj(Put(pm, key, child)), s)
  {
    PutDistinct(pm, key, child);
    var r := Put(pm, key, child);
    forall i | 0 <= i < |r|
      ensures r[i] == Member(key, child) || (i < |pm| && r[i] == pm[i])
    {
    }
    hide Put, Get, Has, Distinct;
  }

  lemma SetFits(items: seq<Value>, s: Value, i: nat, child: Value)
    requires Fits(List(items), s) && i < |s.items| && Fits(child, s.items[i])
    ensures Fits(List(Pad(items, i + 1)[i := child]), s)
  {
    var r := Pad(items, i + 1)[i := child];
    assert |r| <= |s.items|;
    assert forall j :: 0 <= j < |r| ==> r[j] == if j == i then child else if j < |items| then items[j] else Null;
  }

  /** The container below `p` into which the rest of a path goes. */
  ghost function Below(p: Value, path: Path): Value
    requires |path| > 1 && !IsLeaf(p) && (p.List? ==> IsNumeral(path[0]))
  {
    match p
    case List(items) => ItemFor(Pad(items, NatOf(path[0]) + 1)[NatOf(path[0])], path[1])
    case Obj(ms) => MemberFor(ms, path[0], path[1])
  }

  /** The first part of a path into a pattern. */
  lemma FirstPart(p: Value, s: Value, path: Path)
    requires Fits(p, s) && p != Null && WordKeysBelow(s) && path != [] && Find(s, path).Some?
    ensures !IsLeaf(p) && Step(s, path[0]).Some? && Find(Step(s, path[0]).value, path[1..]).Some?
    ensures WordKeys(Step(s, path[0]).value)
    ensures p.List? ==> s.List? && IsNumeral(path[0]) && NatText(NatOf(path[0])) == path[0]
    ensures |path| > 1 ==> Fits(Below(p, path), Step(s, path[0]).value) && Below(p, path) != Null
    ensures |path| == 1 ==> IsLeaf(Step(s, path[0]).value)
    ensures |path| == 1 && Step(p, path[0]).Some? ==> IsLeaf(Step(p, path[0]).value)
  {
    var c := Step(s, path[0]).value;
    if p.Obj? && Has(p.members, path[0]) { assert p.members[IndexOf(p.members, path[0])].key == path[0]; }
    if |path| > 1 {
      FreshFits(c, path[1..]);
      assert path[1..][0] == path[1];
    }
  }

  /** A container with a child put under one part. */
  ghost function Placed(p: Value, part: string, child: Value): Value
    requires !IsLeaf(p) && (p.List? ==> IsNumeral(part))
  {
    match p
    case List(items) => List(Pad(items, NatOf(part) + 1)[NatOf(part) := child])
    case Obj(ms) => Obj(Put(ms, part, child))
  }

  lemma InsertPlaces(p: Value, path: Path, value: Value)
    requires path != [] && !IsLeaf(p) && (p.List? ==> IsNumeral(path[0]))
    ensures Insert(p, path, value) ==
      if |path| == 1 then Ok(Placed(p, path[0], value)) else
        match Insert(Below(p, path), path[1..], value)
        case Raises(error) => Raises(error)
        case Ok(child) => Ok(Placed(p, path[0], child))
  {
    hide ParseInt, Position, NatOf, NatText, IsDigits, Put, Get, Has, IndexOf, Fresh, Split;
    match p {
      case List(items) =>
        NumeralPosition(path[0], |items|);
        assert |path| > 1 ==> Below(p, path) == ItemFor(Pad(items, NatOf(path[0]) + 1)[NatOf(path[0])], path[1]);
        hide ItemFor;
      case Obj(ms) =>
        assert |path| > 1 ==> Below(p, path) == MemberFor(ms, path[0], path[1]);
        hide MemberFor;
    }
  }

  /** Inserting at the path of a leaf of the pattern never raises and keeps the pattern. */
  lemma {:induction false} InsertFits(p: Value, s: Value, path: Path, value: Value)
    requires Fits(p, s) && p != Null && WordKeysBelow(s) && path != [] && Find(s, path).Some? && RealLeaf(value)
    ensures Insert(p, path, value).Ok? && Fits(Insert(p, path, value).value, s)
    ensures Insert(p, path, value).value != Null
    decreases |path|
  {
    FirstPart(p, s, path);
    var next := Step(s, path[0]).value;
    if |path| > 1 { InsertFits(Below(p, path), next, path[1..], value); }
    InsertPlaces(p, path, value);
    hide Insert, Below, NatOf, IsNumeral;
    var child := if |path| == 1 then value else Insert(Below(p, path), path[1..], value).value;
    assert Fits(child, next);
    match p {
      case List(items) => SetFits(items, s, NatOf(path[0]), child);
      case Obj(ms) => PutFits(ms, s, path[0], child);
    }
    hide Fits, WordKeys, WordKeysBelow, Find, Put, Pad;
  }

  /** What an insertion does to the children of one node. */
  lemma InsertSteps(p: Value, path: Path, value: Value, part: string)
    requires path != [] && !IsLeaf(p) && Insert(p, path, value).Ok?
    requires p.List? ==> IsNumeral(path[0]) && NatText(NatOf(path[0])) == path[0]
    ensures |path| > 1 ==> Insert(Below(p, path), path[1..], value).Ok?
    ensures var r := Insert(p, path, value).value;
      if part == path[0] then
        Step(r, part) == Some(if |path| == 1 then value else Insert(Below(p, path), path[1..], value).value)
      else
        Step(r, part) == Step(p, part) || (Step(p, part) == None && Step(r, part) == Some(Null))
  {
    InsertPlaces(p, path, value);
    hide Insert, Below, Placed, Step;
    PlacedSteps(p, path[0], if |path| == 1 then value else Insert(Below(p, path), path[1..], value).value, part);
  }

  lemma PlacedSteps(p: Value, key: string, child: Value, part: string)
    requires !IsLeaf(p) && (p.List? ==> IsNumeral(key) && NatText(NatOf(key)) == key)
    ensures var r := Placed(p, key, child);
      if part == key then Step(r, part) == Some(child)
      else Step(r, part) == Step(p, part) || (Step(p, part) == None && Step(r, part) == Some(Null))
  {
    match p {
      case List(items) =>
        hide NatOf, NatText;
        if part != key && IsNumeral(part) && NatText(NatOf(part)) == part {
          assert NatOf(part) != NatOf(key);
        }
      case Obj(ms) =>
        PutGet(ms, key, child, part);
        hide Put;
    }
  }

  /** What an insertion changes below the pattern: the leaf at its own path, and nothing else. */
  lemma {:induction false} InsertFinds(p: Value, s: Value, path: Path, value: Value, q: Path)
    requires Fits(p, s) && p != Null && WordKeysBelow(s) && path != [] && Find(s, path).Some? && RealLeaf(value)
    ensures Insert(p, path, value).Ok?
    ensures Real(Find(Insert(p, path, value).value, q)) == if q == path then Some(value) else Real(Find(p, q))
    decreases |path|
  {
    InsertFits(p, s, path, value);
    FirstPart(p, s, path);
    var r := Insert(p, path, value).value;
    FindSteps(r, q);
    FindSteps(p, q);
    if q != [] {
      InsertSteps(p, path, value, q[0]);
      if q[0] == path[0] {
        SamePath(q, path);
        if |path| > 1 {
          InsertFinds(Below(p, path), Step(s, path[0]).value, path[1..], value, q[1..]);
          BelowIsStep(p, s, path, q[1..]);
        } else {
          FindSteps(value, q[1..]);
          if Step(p, q[0]).Some? { FindSteps(Step(p, q[0]).value, q[1..]); }
        }
      }
      FindSteps(Null, q[1..]);
    }
    hide Fits, WordKeys, WordKeysBelow, Below, IsNumeral, IsDigits, Step, Find, Node, PlainKeys;
  }

  lemma FindSteps(v: Value, q: Path)
    ensures IsLeaf(v) ==> Find(v, q) == if q == [] then Some(v) else None
    ensures !IsLeaf(v) && q == [] ==> Find(v, q) == None
    ensures q != [] ==> Find(v, q) == match Step(v, q[0]) case None => None case Some(c) => Find(c, q[1..])
  {
  }

  /** What is found below the container of the rest of a path was found there before. */
  lemma BelowIsStep(p: Value, s: Value, path: Path, q: Path)
    requires Fits(p, s) && p != Null && WordKeysBelow(s) && |path| > 1 && Find(s, path).Some?
    requires !IsLeaf(p) && (p.List? ==> IsNumeral(path[0]) && NatText(NatOf(path[0])) == path[0])
    ensures Real(Find(Below(p, path), q)) == match Step(p, path[0]) case None => None case Some(c) => Real(Find(c, q))
  {
    var was := Step(p, path[0]);
    FirstPart(p, s, path);
    if p.Obj? && Has(p.members, path[0]) { assert p.members[IndexOf(p.members, path[0])].key == path[0]; }
    assert was.Some? && was.value != Null ==> Below(p, path) == was.value;
    if !(was.Some? && was.value != Null) {
      assert Below(p, path) == Fresh(path[1]);
      assert Find(Fresh(path[1]), q) == None;
    }
  }

  lemma SamePath(q: Path, path: Path)
    requires q != [] && path != [] && q[0] == path[0]
    ensures q == path <==> q[1..] == path[1..]
  {
    assert [q[0]] + q[1..] == q && [path[0]] + path[1..] == path;
  }

  /** The flat entries belong to the leaves of one pattern. */
  ghost predicate EntriesOf(flat: map<string, Value>, s: Value) {
    forall k <- flat :: Find(s, Split(k, '.')).Some? && RealLeaf(flat[k])
  }

  lemma {:induction false} InsertAllFits(p: Value, s: Value, flat: map<string, Value>, order: seq<string>)
    requires Fits(p, s) && p != Null && WordKeysBelow(s) && EntriesOf(flat, s) && forall k <- order :: k in flat
    ensures var r := InsertAll(p, flat, order); r.Ok? && Fits(r.value, s) && r.value != Null
    decreases |order|
  {
    if order != [] {
      InsertFits(p, s, Split(order[0], '.'), flat[order[0]]);
      InsertAllFits(Insert(p, Split(order[0], '.'), flat[order[0]]).value, s, flat, order[1..]);
    }
  }

  lemma {:induction false} InsertAllFinds(p: Value, s: Value, flat: map<string, Value>, order: seq<string>, key: string)
    requires Fits(p, s) && p != Null && WordKeysBelow(s) && EntriesOf(flat, s) && forall k <- order :: k in flat
    ensures InsertAll(p, flat, order).Ok?
    ensures Real(Find(InsertAll(p, flat, order).value, Split(key, '.')))
         == if key in order then Some(flat[key]) else Real(Find(p, Split(key, '.')))
    decreases |order|
  {
    if order != [] {
      var k := order[0];
      InsertFits(p, s, Split(k, '.'), flat[k]);
      InsertFinds(p, s, Split(k, '.'), flat[k], Split(key, '.'));
      if Split(key, '.') == Split(k, '.') { SplitInjective(key, k); }
      InsertAllFinds(Insert(p, Split(k, '.'), flat[k]).value, s, flat, order[1..], key);
    }
  }

  ghost predicate Visits(order: seq<string>, keys: set<string>) {
    (forall k <- order :: k in keys) && (forall k <- keys :: k in order)
  }

  /** Whatever the visiting order, the entries of a pattern come together without an exception, fit the
      pattern, and are found again, each under its own key and nothing besides. */
  lemma UnflattenFinds(s: Value, flat: map<string, Value>, order: seq<string>)
    requires s.Obj? && WordKeysBelow(s) && EntriesOf(flat, s) && Visits(order, flat.Keys)
    ensures var u := Unflatten(flat, order);
      && u == InsertAll(Obj([]), flat, order) && u.Ok? && u.value.Obj? && Fits(u.value, s)
      && forall key: string :: Real(Find(u.value, Split(key, '.'))) == Lookup(flat, key)
  {
    var u := Unflatten(flat, order);
    NormalizeArraysIsIdle(flat, order);
    InsertAllFits(Obj([]), s, flat, order);
    InsertAllKeepsObj(Obj([]), flat, order);
    forall key: string ensures Real(Find(u.value, Split(key, '.'))) == Lookup(flat, key) {
      InsertAllFinds(Obj([]), s, flat, order, key);
    }
  }

  lemma {:induction false} InsertAllKeepsObj(p: Value, flat: map<string, Value>, order: seq<string>)
    requires p.Obj? && forall k <- order :: k in flat
    ensures var r := InsertAll(p, flat, order); r.Ok? ==> r.value.Obj?
    decreases |order|
  {
    if order != [] {
      var r := Insert(p, Split(order[0], '.'), flat[order[0]]);
      if r.Ok? { InsertAllKeepsObj(r.value, flat, order[1..]); }
    }
  }

  // ------------------------------------------------------------- round trip

  /** Python's `==`: the order of dict members does not matter. */
  ghost predicate Same(a: Value, b: Value) {
    match a
    case Obj(ms) =>
      && b.Obj?
      && (forall i :: 0 <= i < |ms| ==> Has(b.members, ms[i].key) && Same(ms[i].value, Get(b.members, ms[i].key)))
      && (forall i :: 0 <= i < |b.members| ==> Has(ms, b.members[i].key))
    case List(items) =>
      && b.List? && |items| == |b.items|
      && forall i :: 0 <= i < |items| ==> Same(items[i], b.items[i])
    case _ => a == b
  }

  /** No empty container and no None anywhere in `v`. */
  ghost predicate Full(v: Value) {
    match v
    case Obj(ms) => ms != [] && forall i :: 0 <= i < |ms| ==> Full(ms[i].value)
    case List(items) => items != [] && forall i :: 0 <= i < |items| ==> Full(items[i])
    case _ => v != Null
  }

  ghost predicate FullBelow(v: Value) {
    v.Obj? && forall i :: 0 <= i < |v.members| ==> Full(v.members[i].value)
  }

  lemma {:induction false} SomeLeaf(v: Value) returns (path: Path)
    requires Full(v) && PlainKeys(v)
    ensures PlainPath(path) && Find(v, path).Some? && Find(v, path) != Some(Null)
    decreases v
  {
    match v {
      case Obj(ms) =>
        var rest := SomeLeaf(ms[0].value);
        path := [ms[0].key] + rest;
        IndexOfMember(ms, 0);
      case List(items) =>
        var rest := SomeLeaf(items[0]);
        NatTextIsPlain(0);
        path := [NatText(0)] + rest;
      case _ => path := [];
    }
  }

  /** `u` holds every leaf of `t`. */
  ghost predicate Holds(u: Value, t: Value) {
    forall path: Path | PlainPath(path) && Find(t, path).Some? :: Find(u, path) == Find(t, path)
  }

  lemma HoldsChild(u: Value, t: Value, part: string)
    requires Holds(u, t) && PlainKey(part) && Step(t, part).Some? && Step(u, part).Some?
    ensures Holds(Step(u, part).value, Step(t, part).value)
  {
    var a, b := Step(u, part).value, Step(t, part).value;
    forall path: Path | PlainPath(path) && Find(b, path).Some?
      ensures Find(a, path) == Find(b, path)
    {
      var longer := [part] + path;
      assert longer[1..] == path && Find(t, longer) == Find(b, path) && Find(u, longer) == Find(a, path);
    }
  }

  lemma {:induction false} ReachesChild(u: Value, t: Value, part: string)
    requires Holds(u, t) && PlainKey(part) && Step(t, part).Some?
    requires Full(Step(t, part).value) && PlainKeys(Step(t, part).value)
    ensures Step(u, part).Some? && Step(u, part).value != Null
  {
    var rest := SomeLeaf(Step(t, part).value);
    var path := [part] + rest;
    assert path[1..] == rest && Find(t, path) == Find(Step(t, part).value, rest);
    assert Find(u, path) == Find(t, path);
    assert Step(u, part).Some?;
    assert Find(u, path) == Find(Step(u, part).value, rest);
  }

  lemma {:induction false} FitsAndHolds(u: Value, t: Value)
    requires Fits(u, t) && Holds(u, t) && PlainKeys(t) && (Full(t) || FullBelow(t)) && u != Null
    ensures Same(u, t)
    decreases t
  {
    match t {
      case Obj(ms) =>
        forall i | 0 <= i < |ms| ensures Has(u.members, ms[i].key) {
          IndexOfMember(ms, i);
          ReachesChild(u, t, ms[i].key);
        }
        forall i | 0 <= i < |u.members|
          ensures Has(ms, u.members[i].key) && Same(u.members[i].value, Get(ms, u.members[i].key))
        {
          IndexOfMember(u.members, i);
          HoldsChild(u, t, u.members[i].key);
          FitsAndHolds(u.members[i].value, ms[IndexOf(ms, u.members[i].key)].value);
        }
      case List(items) =>
        NatTextIsPlain(|items| - 1);
        ReachesChild(u, t, NatText(|items| - 1));
        forall i | 0 <= i < |items|
          ensures i < |u.items| && Same(u.items[i], items[i])
        {
          NatTextIsPlain(i);
          ReachesChild(u, t, NatText(i));
          HoldsChild(u, t, NatText(i));
          FitsAndHolds(u.items[i], items[i]);
        }
      case Null =>
      case _ =>
        assert Find(t, []) == Some(t) && Find(u, []) == Find(t, []);
    }
  }

  lemma {:induction false} PathHasKey(path: Path)
    requires path != [] && PlainPath(path)
    ensures Split(Join(path, "."), '.') == path
  {
    SplitJoin(path, '.');
  }

  lemma {:induction false} NoNullFound(v: Value, path: Path)
    requires Full(v) || FullBelow(v)
    ensures Find(v, path) != Some(Null)
    decreases |path|
  {
    if path != [] {
      var child := Step(v, path[0]);
      if child.Some? { NoNullFound(child.value, path[1..]); }
    }
  }

  lemma LeavesOfItself(t: Value)
    requires FullBelow(t) && PlainKeys(t)
    ensures EntriesOf(FlattenValues(t, ""), t) && forall k <- FlattenValues(t, "") :: IsLeaf(FlattenValues(t, "")[k])
  {
    var flat := FlattenValues(t, "");
    forall k <- flat ensures Find(t, Split(k, '.')) == Some(flat[k]) && RealLeaf(flat[k]) {
      FlattenRoot(t, k);
      NoNullFound(t, Split(k, '.'));
      assert Lookup(flat, k) == Some(flat[k]);
    }
  }

  /** `unflatten(flatten_values(t)) == t`, in whatever order the flat keys are visited. */
  lemma RoundTrip(t: Value, order: seq<string>)
    requires FullBelow(t) && PlainKeys(t) && WordKeysBelow(t) && Visits(order, FlattenValues(t, "").Keys)
    ensures var u := Unflatten(FlattenValues(t, ""), order); u.Ok? && Same(u.value, t)
  {
    hide FlattenValues, WordKeys, WordKeysBelow, PlainKeys, Split, Full, InsertAll, Unflatten;
    var flat := FlattenValues(t, "");
    LeavesOfItself(t);
    UnflattenFinds(t, flat, order);
    var u := Unflatten(flat, order).value;
    forall path: Path | PlainPath(path) && Find(t, path).Some? ensures Find(u, path) == Find(t, path) {
      if path != [] {
        PathHasKey(path);
        FlattenRoot(t, Join(path, "."));
        assert Real(Find(u, Split(Join(path, "."), '.'))) == Lookup(flat, Join(path, "."));
        NoNullFound(t, path);
      }
    }
    FitsAndHolds(u, t);
  }

  /** For text leaves that is `unflatten(flatten(t)) == t`. */
  lemma TextRoundTrip(t: Value, order: seq<string>)
    requires FullBelow(t) && PlainKeys(t) && WordKeysBelow(t) && Visits(order, Flatten(t).Keys)
    requires forall k <- FlattenValues(t, "") :: FlattenValues(t, "")[k].Str?
    ensures var u := Unflatten(map k | k in Flatten(t) :: Str(Flatten(t)[k]), order);
      u.Ok? && Same(u.value, t)
  {
    var flat := FlattenValues(t, "");
    assert Flatten(t).Keys == flat.Keys;
    assert (map k | k in Flatten(t) :: Str(Flatten(t)[k])) == flat;
    RoundTrip(t, order);
  }

  // ------------------------------------------------- why keys must be no numbers

  lemma InsertOne(part: string, value: Value)
    ensures Insert(Fresh(part), [part], value) ==
      if !IsDigits(part) then Ok(Obj([Member(part, value)])) else
        match Position(part, 0)
        case Raises(error) => Raises(error)
        case Ok(i) => Ok(List(Pad([], i + 1)[i := value]))
  {
    hide Position, IsDigits;
    assert Put([], part, value) == [Member(part, value)];
  }

  lemma InsertTwo(first: string, second: string, value: Value)
    ensures Insert(Obj([]), [first, second], value) ==
      match Insert(Fresh(second), [second], value)
      case Raises(error) => Raises(error)
      case Ok(child) => Ok(Obj([Member(first, child)]))
  {
    hide Position, IsDigits, Fresh;
    assert [first, second][1..] == [second];
    assert MemberFor([], first, second) == Fresh(second);
    assert forall child: Value :: Put([], first, child) == [Member(first, child)];
    hide Put, MemberFor;
  }

  /** What is built from one key of two parts. */
  lemma OneKeyBuilt(first: string, second: string, value: Value, flat: map<string, Value>, order: seq<string>)
    requires '.' !in first && '.' !in second && RealLeaf(value)
    requires order == [first + ['.'] + second] && flat == map[first + ['.'] + second := value]
    ensures Unflatten(flat, order) ==
      match Insert(Fresh(second), [second], value)
      case Raises(error) => Raises(error)
      case Ok(child) => Ok(Obj([Member(first, child)]))
  {
    NormalizeArraysIsIdle(flat, order);
    SplitFirst(first, second, '.');
    SplitPlain(second, '.');
    assert [first] + [second] == [first, second] && order[1..] == [];
    hide Split, Unflatten, Insert;
    InsertTwo(first, second, value);
    assert InsertAll(Obj([]), flat, order) == Insert(Obj([]), [first, second], value);
  }

  /** One key below another: a key that `isdigit` accepts gives a list, or raises when `int` refuses it. */
  lemma DigitKeyIsNoDict(first: string, key: string, value: Value)
    requires '.' !in first && '.' !in key && IsDigits(key) && RealLeaf(value)
    ensures var flat := map[first + ['.'] + key := value];
      match Unflatten(flat, [first + ['.'] + key])
      case Raises(error) => ParseInt(key).None? && error == ValueError
      case Ok(u) => Step(u, first).Some? && Step(u, first).value.List?
  {
    var flat := map[first + ['.'] + key := value];
    OneKeyBuilt(first, key, value, flat, [first + ['.'] + key]);
    InsertOne(key, value);
    DigitsHaveNoSign(key);
    hide Unflatten, Insert, IsDigits, ParseInt, Pad;
  }
}
