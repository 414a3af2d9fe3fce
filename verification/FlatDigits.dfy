/** Number-like keys: below the root they are what `unflatten` cannot give back in every order. */
module FlatDigits {
  import opened Text
  import opened Decimal
  import opened Dictionaries
  import opened FlatKeys
  import opened FlatPaths
  import opened FlatRebuild

  /** `q` leads from `c` to a dict with the number-like key `d`, through no dict by a number-like key. */
  ghost predicate Turns(c: Value, q: Path, d: string)
    decreases |q|
  {
    if q == [] then c.Obj? && Has(c.members, d) && IsDigits(d)
    else
      && Step(c, q[0]).Some? && (c.Obj? ==> !IsDigits(q[0]))
      && Turns(Step(c, q[0]).value, q[1..], d)
  }

  /** Along `q` the nodes of `p` are of the same kind as those of `c`, and the node at its end is a list. */
  ghost predicate Turned(p: Value, c: Value, q: Path)
    decreases |q|
  {
    if q == [] then p.List?
    else
      && !IsLeaf(p) && (p.List? <==> c.List?) && Step(p, q[0]).Some? && Step(c, q[0]).Some?
      && Turned(Step(p, q[0]).value, Step(c, q[0]).value, q[1..])
  }

  ghost predicate DictAt(c: Value, q: Path) {
    Node(c, q).Some? && Node(c, q).value.Obj?
  }

  lemma {:induction false} TurnsToDict(c: Value, q: Path, d: string)
    requires Turns(c, q, d)
    ensures DictAt(c, q)
    decreases |q|
  {
    if q != [] { TurnsToDict(Step(c, q[0]).value, q[1..], d); }
  }

  /** A dictionary with a number-like key somewhere, and a leaf below that key. */
  lemma {:induction false} SomeTurn(c: Value) returns (q: Path, d: string, path: Path)
    requires !WordKeys(c) && PlainKeys(c) && Full(c)
    ensures Turns(c, q, d) && q + [d] <= path && PlainPath(path) && Find(c, path).Some?
    decreases c
  {
    hide NatText, NatOf, IsNumeral, IsDigits;
    var part, child := "", c;
    match c {
      case Obj(ms) =>
        if i :| 0 <= i < |ms| && IsDigits(ms[i].key) {
          var rest := SomeLeaf(ms[i].value);
          IndexOfMember(ms, i);
          q, d, path := [], ms[i].key, [ms[i].key] + rest;
          assert path[1..] == rest;
          return;
        }
        var i :| 0 <= i < |ms| && !WordKeys(ms[i].value);
        IndexOfMember(ms, i);
        part, child := ms[i].key, ms[i].value;
      case List(items) =>
        var i :| 0 <= i < |items| && !WordKeys(items[i]);
        NatTextIsPlain(i);
        part, child := NatText(i), items[i];
    }
    var q', path';
    q', d, path' := SomeTurn(child);
    q, path := [part] + q', [part] + path';
    hide *;
    TurnsFurther(c, part, child, q', d, path');
  }

  lemma TurnsFurther(c: Value, part: string, child: Value, q: Path, d: string, path: Path)
    requires Step(c, part) == Some(child) && PlainKey(part) && (c.Obj? ==> !IsDigits(part))
    requires Turns(child, q, d) && q + [d] <= path && PlainPath(path) && Find(child, path).Some?
    ensures Turns(c, [part] + q, d) && [part] + q + [d] <= [part] + path
    ensures PlainPath([part] + path) && Find(c, [part] + path).Some?
  {
    var q', path' := [part] + q, [part] + path;
    assert q'[1..] == q && path'[1..] == path;
    hide Step, IsDigits;
  }

  lemma ListStaysList(items: seq<Value>, path: Path, value: Value)
    requires path != []
    ensures var r := Insert(List(items), path, value); r.Ok? ==> r.value.List?
  {
    hide Position, Pad, ItemFor;
  }

  /** The first key that runs through the number-like key makes a list of the dict above it. */
  lemma {:induction false} FirstTurns(c: Value, q: Path, d: string, path: Path, value: Value)
    requires Turns(c, q, d) && q + [d] <= path
    ensures var r := Insert(Fresh(path[0]), path, value); r.Ok? ==> Turned(r.value, c, q)
    decreases |q|
  {
    var start := Fresh(path[0]);
    if q == [] {
      assert path[0] == d;
      ListStaysList([], path, value);
    } else {
      assert path[0] == q[0] && path[1] == (q + [d])[1] && q[1..] + [d] <= path[1..];
      var next := Step(c, q[0]).value;
      FirstTurns(next, q[1..], d, path[1..], value);
      if c.List? { NumeralPosition(q[0], 0); }
      assert start.List? <==> c.List?;
      InsertPlaces(start, path, value);
      assert Below(start, path) == Fresh(path[1]);
      hide Insert, Below, Fresh, Placed;
      var child := Insert(Fresh(path[1]), path[1..], value);
      if child.Ok? { PlacedSteps(start, q[0], child.value, q[0]); }
    }
  }

  lemma BelowContainer(p: Value, path: Path)
    requires |path| > 1 && !IsLeaf(p) && Step(p, path[0]).Some? && !IsLeaf(Step(p, path[0]).value)
    ensures Below(p, path) == Step(p, path[0]).value
  {
    hide NatText, NatOf, Fresh;
  }

  lemma DictAtStep(c: Value, q: Path)
    requires DictAt(c, q) && q != []
    ensures Step(c, q[0]).Some? && !IsLeaf(Step(c, q[0]).value) && DictAt(Step(c, q[0]).value, q[1..])
  {
    var child := Step(c, q[0]).value;
    assert Node(c, q) == Node(child, q[1..]);
    if q[1..] != [] { assert Node(child, q[1..]).Some? ==> Step(child, q[1..][0]).Some?; }
  }

  /** No later key undoes it. */
  lemma {:induction false} StaysTurned(p: Value, c: Value, q: Path, path: Path, value: Value)
    requires Turned(p, c, q) && DictAt(c, q) && path != [] && Find(c, path).Some?
    ensures var r := Insert(p, path, value); r.Ok? ==> Turned(r.value, c, q)
    decreases |q|
  {
    hide Insert, Below, Fresh, NatText, NatOf, Find, Put, Pad, Get;
    FindSteps(c, path);
    if q == [] {
      ListStaysList(p.items, path, value);
    } else {
      assert p.List? ==> IsNumeral(path[0]) && NatText(NatOf(path[0])) == path[0];
      InsertPlaces(p, path, value);
      if path[0] == q[0] && |path| > 1 {
        BelowContainer(p, path);
        StaysTurned(Step(p, q[0]).value, Step(c, q[0]).value, q[1..], path[1..], value);
      }
      DictAtStep(c, q);
      if path[0] == q[0] { FindSteps(Step(c, q[0]).value, path[1..]); }
      var child := if |path| == 1 then Ok(value) else Insert(Below(p, path), path[1..], value);
      if child.Ok? { PlacedSteps(p, path[0], child.value, q[0]); }
    }
  }

  lemma {:induction false} AllStayTurned(p: Value, t: Value, q: Path, flat: map<string, Value>, order: seq<string>)
    requires Turned(p, t, q) && DictAt(t, q) && EntriesOf(flat, t) && forall k <- order :: k in flat
    ensures var r := InsertAll(p, flat, order); r.Ok? ==> Turned(r.value, t, q)
    decreases |order|
  {
    hide Turned, DictAt, Insert, Find, Split;
    if order != [] {
      StaysTurned(p, t, q, Split(order[0], '.'), flat[order[0]]);
      var r := Insert(p, Split(order[0], '.'), flat[order[0]]);
      if r.Ok? { AllStayTurned(r.value, t, q, flat, order[1..]); }
    }
  }

  lemma {:induction false} TurnedIsOther(u: Value, t: Value, q: Path)
    requires Turned(u, t, q) && DictAt(t, q)
    ensures !Same(u, t)
    decreases |q|
  {
    if q != [] {
      TurnedIsOther(Step(u, q[0]).value, Step(t, q[0]).value, q[1..]);
    }
  }

  lemma {:induction false} SomeOrder(keys: set<string>) returns (order: seq<string>)
    ensures Visits(order, keys)
    decreases |keys|
  {
    order := [];
    if keys != {} {
      var k :| k in keys;
      var rest := SomeOrder(keys - {k});
      order := [k] + rest;
    }
  }

  /** With a number-like key below the root, some order of the flat keys does not give the dictionary back. */
  lemma DigitsBreak(t: Value) returns (order: seq<string>)
    requires FullBelow(t) && PlainKeys(t) && !WordKeysBelow(t)
    ensures Visits(order, FlattenValues(t, "").Keys)
    ensures var u := Unflatten(FlattenValues(t, ""), order); !(u.Ok? && Same(u.value, t))
  {
    hide FlattenValues, Split, IsDigits, Insert;
    var flat := FlattenValues(t, "");
    var i :| 0 <= i < |t.members| && !WordKeys(t.members[i].value);
    IndexOfMember(t.members, i);
    var first, c := t.members[i].key, t.members[i].value;
    var below, d, rest := SomeTurn(c);
    var q, path := [first] + below, [first] + rest;
    assert q[1..] == below && path[1..] == rest;
    TurnsToDict(c, below, d);
    PathHasKey(path);
    var key := Join(path, ".");
    FlattenRoot(t, key);
    assert Lookup(flat, key).Some?;
    var others := SomeOrder(flat.Keys);
    order := [key] + others;
    RootTurns(t, first, below, d, rest, flat[key]);
    LeavesOfItself(t);
    var r := Insert(Obj([]), path, flat[key]);
    if r.Ok? { AllStayTurned(r.value, t, q, flat, others); }
    NormalizeArraysIsIdle(flat, order);
    assert order[1..] == others;
    var u := InsertAll(Obj([]), flat, order);
    if u.Ok? { TurnedIsOther(u.value, t, q); }
  }

  lemma RootTurns(t: Value, first: string, below: Path, d: string, rest: Path, value: Value)
    requires t.Obj? && Step(t, first).Some? && Turns(Step(t, first).value, below, d) && below + [d] <= rest
    ensures var r := Insert(Obj([]), [first] + rest, value); r.Ok? ==> Turned(r.value, t, [first] + below)
  {
    var path, q := [first] + rest, [first] + below;
    assert path[1..] == rest && q[1..] == below;
    FirstTurns(Step(t, first).value, below, d, rest, value);
    InsertPlaces(Obj([]), path, value);
    assert Below(Obj([]), path) == Fresh(rest[0]);
    var child := Insert(Fresh(rest[0]), rest, value);
    hide Insert, Below, Fresh, Placed;
    if child.Ok? { PlacedSteps(Obj([]), first, child.value, first); }
  }

  /** The flat keys give a dictionary back in every order exactly when no dict below its root has a number-like key. */
  lemma RoundTripExactly(t: Value)
    requires FullBelow(t) && PlainKeys(t)
    ensures (forall order | Visits(order, FlattenValues(t, "").Keys) ::
               var u := Unflatten(FlattenValues(t, ""), order); u.Ok? && Same(u.value, t))
       <==> WordKeysBelow(t)
  {
    hide FlattenValues, Unflatten, WordKeysBelow, Same, FullBelow, PlainKeys;
    if WordKeysBelow(t) {
      forall order | Visits(order, FlattenValues(t, "").Keys)
        ensures var u := Unflatten(FlattenValues(t, ""), order); u.Ok? && Same(u.value, t)
      {
        RoundTrip(t, order);
      }
    } else {
      var order := DigitsBreak(t);
    }
  }
}
