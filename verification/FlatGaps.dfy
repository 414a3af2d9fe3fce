/** Flat keys come together without padding exactly when they leave no gap in an array: what `unflatten` pads a
    list with stays behind wherever no flat key names the item. */
module FlatGaps {
  import opened Text
  import opened Decimal
  import opened Dictionaries
  import opened FlatKeys
  import opened FlatPaths
  import opened FlatRebuild

  /** Some key runs through the path. */
  ghost predicate Passes(keys: set<string>, path: Path) {
    exists k <- keys :: path <= Split(k, '.')
  }

  /** Wherever a key runs through item `m` of an array, some key runs through item `m - 1`; the root is no array. */
  ghost predicate Gapless(keys: set<string>) {
    forall k, i: nat, m: nat | k in keys && 0 < i < |Split(k, '.')| && m > 0 && Split(k, '.')[i] == NatText(m) ::
      Passes(keys, Split(k, '.')[..i] + [NatText(m - 1)])
  }

  ghost predicate NoHoles(v: Value) {
    match v
    case Obj(ms) => forall i :: 0 <= i < |ms| ==> NoHoles(ms[i].value)
    case List(items) => forall i :: 0 <= i < |items| ==> items[i] != Null && NoHoles(items[i])
    case _ => true
  }

  /** The last item of every array is not padding. */
  ghost predicate Tight(v: Value) {
    match v
    case Obj(ms) => forall i :: 0 <= i < |ms| ==> Tight(ms[i].value)
    case List(items) =>
      && (items != [] ==> items[|items| - 1] != Null)
      && forall i :: 0 <= i < |items| ==> Tight(items[i])
    case _ => true
  }

  ghost predicate Solid(v: Value, path: Path) {
    Node(v, path).Some? && Node(v, path).value != Null
  }

  lemma {:induction false} NodeAppend(v: Value, path: Path, part: string)
    ensures Node(v, path + [part]) == match Node(v, path) case None => None case Some(c) => Step(c, part)
    decreases |path|
  {
    var longer := path + [part];
    if path == [] {
      assert longer[1..] == [];
    } else {
      assert longer[1..] == path[1..] + [part];
      if Step(v, path[0]).Some? { NodeAppend(Step(v, path[0]).value, path[1..], part); }
    }
  }

  // ------------------------------------------------- what an insertion reaches

  lemma NodeSteps(v: Value, q: Path)
    ensures q == [] ==> Node(v, q) == Some(v)
    ensures q != [] ==> Node(v, q) == match Step(v, q[0]) case None => None case Some(c) => Node(c, q[1..])
    ensures IsLeaf(v) && q != [] ==> Node(v, q) == None
  {
  }

  lemma BelowIsSolid(p: Value, s: Value, path: Path, q: Path)
    requires Fits(p, s) && p != Null && WordKeysBelow(s) && |path| > 1 && Find(s, path).Some?
    requires !IsLeaf(p) && (p.List? ==> IsNumeral(path[0]) && NatText(NatOf(path[0])) == path[0])
    ensures q == [] || (Solid(Below(p, path), q) <==> Step(p, path[0]).Some? && Solid(Step(p, path[0]).value, q))
  {
    var was := Step(p, path[0]);
    FirstPart(p, s, path);
    if p.Obj? && Has(p.members, path[0]) { assert p.members[IndexOf(p.members, path[0])].key == path[0]; }
    assert was.Some? && was.value != Null ==> Below(p, path) == was.value;
    if q != [] && !(was.Some? && was.value != Null) {
      assert Below(p, path) == Fresh(path[1]);
      assert Node(Fresh(path[1]), q) == None;
    }
  }

  lemma {:induction false} InsertSolid(p: Value, s: Value, path: Path, value: Value, q: Path)
    requires Fits(p, s) && p != Null && WordKeysBelow(s) && path != [] && Find(s, path).Some? && RealLeaf(value)
    ensures Insert(p, path, value).Ok?
    ensures Solid(Insert(p, path, value).value, q) <==> Solid(p, q) || q <= path
    decreases |path|
  {
    InsertFits(p, s, path, value);
    FirstPart(p, s, path);
    NodeSteps(Insert(p, path, value).value, q);
    NodeSteps(p, q);
    if q != [] {
      InsertSteps(p, path, value, q[0]);
      if q[0] == path[0] {
        if |path| > 1 {
          InsertSolid(Below(p, path), Step(s, path[0]).value, path[1..], value, q[1..]);
          BelowIsSolid(p, s, path, q[1..]);
        } else {
          NodeSteps(value, q[1..]);
          if Step(p, q[0]).Some? { NodeSteps(Step(p, q[0]).value, q[1..]); }
        }
      }
      NodeSteps(Null, q[1..]);
    }
    hide Fits, WordKeys, WordKeysBelow, Below, IsNumeral, IsDigits, Step, Find, Node, PlainKeys;
  }

  lemma SetTight(items: seq<Value>, i: nat, child: Value)
    requires Tight(List(items)) && Tight(child) && child != Null
    ensures Tight(List(Pad(items, i + 1)[i := child])) && Tight(Pad(items, i + 1)[i])
  {
    var padded := Pad(items, i + 1);
    assert forall j :: 0 <= j < |padded| ==> Tight(padded[j]);
    assert |padded| - 1 == i || (padded == items && items[|items| - 1] != Null);
  }

  lemma PutTight(ms: seq<Member>, key: string, child: Value)
    requires Tight(Obj(ms)) && Tight(child)
    ensures Tight(Obj(Put(ms, key, child)))
  {
  }

  lemma {:induction false} InsertTight(p: Value, path: Path, value: Value)
    requires path != [] && RealLeaf(value) && Tight(p)
    ensures var r := Insert(p, path, value); r.Ok? ==> Tight(r.value) && r.value != Null
    decreases |path|
  {
    hide Pad, Put, Position;
    match p {
      case List(items) =>
        var i := Position(path[0], |items|);
        if i.Ok? {
          SetTight(items, i.value, value);
          if |path| > 1 {
            var below := ItemFor(Pad(items, i.value + 1)[i.value], path[1]);
            InsertTight(below, path[1..], value);
            var r := Insert(below, path[1..], value);
            if r.Ok? { SetTight(items, i.value, r.value); }
          }
        }
      case Obj(ms) =>
        PutTight(ms, path[0], value);
        if |path| > 1 {
          var below := MemberFor(ms, path[0], path[1]);
          InsertTight(below, path[1..], value);
          var r := Insert(below, path[1..], value);
          if r.Ok? { PutTight(ms, path[0], r.value); }
        }
      case _ =>
    }
  }

  ghost predicate Visited(order: seq<string>, q: Path) {
    exists k <- order :: q <= Split(k, '.')
  }

  lemma VisitedFirst(order: seq<string>, q: Path)
    requires order != []
    ensures Visited(order, q) <==> q <= Split(order[0], '.') || Visited(order[1..], q)
  {
    assert forall x :: x in order <==> x == order[0] || x in order[1..];
  }

  lemma {:induction false} InsertAllSolid(p: Value, s: Value, flat: map<string, Value>, order: seq<string>, q: Path)
    requires Fits(p, s) && p != Null && WordKeysBelow(s) && EntriesOf(flat, s) && forall k <- order :: k in flat
    ensures InsertAll(p, flat, order).Ok?
    ensures Solid(InsertAll(p, flat, order).value, q) <==> Solid(p, q) || Visited(order, q)
    decreases |order|
  {
    if order != [] {
      var k := order[0];
      InsertFits(p, s, Split(k, '.'), flat[k]);
      InsertSolid(p, s, Split(k, '.'), flat[k], q);
      InsertAllSolid(Insert(p, Split(k, '.'), flat[k]).value, s, flat, order[1..], q);
      VisitedFirst(order, q);
      hide Visited, Fits, WordKeys, WordKeysBelow, Solid, Insert, Split;
    }
  }

  lemma {:induction false} InsertAllTight(p: Value, flat: map<string, Value>, order: seq<string>)
    requires Tight(p) && forall k <- order :: k in flat && RealLeaf(flat[k])
    ensures var r := InsertAll(p, flat, order); r.Ok? ==> Tight(r.value)
    decreases |order|
  {
    if order != [] {
      InsertTight(p, Split(order[0], '.'), flat[order[0]]);
      var r := Insert(p, Split(order[0], '.'), flat[order[0]]);
      if r.Ok? { InsertAllTight(r.value, flat, order[1..]); }
    }
  }

  // ----------------------------------------------------------- gaps and holes

  /** The solid nodes of `u` are the places that keys run through. */
  ghost predicate SolidIsPassed(u: Value, keys: set<string>) {
    forall q: Path | q != [] :: Solid(u, q) <==> Passes(keys, q)
  }

  lemma {:induction false} ItemsAreSolid(u: Value, keys: set<string>, q: Path, items: seq<Value>, j: nat)
    requires SolidIsPassed(u, keys) && Gapless(keys) && Node(u, q) == Some(List(items)) && Tight(List(items))
    requires u.Obj? && j < |items|
    ensures items[j] != Null
    decreases |items| - j
  {
    if j + 1 < |items| {
      ItemsAreSolid(u, keys, q, items, j + 1);
      NatTextIsPlain(j + 1);
      NatTextIsPlain(j);
      NodeAppend(u, q, NatText(j + 1));
      NodeAppend(u, q, NatText(j));
      assert Solid(u, q + [NatText(j + 1)]);
      var k :| k in keys && q + [NatText(j + 1)] <= Split(k, '.');
      assert Split(k, '.')[..|q|] == q && Split(k, '.')[|q|] == NatText(j + 1);
      assert Passes(keys, Split(k, '.')[..|q|] + [NatText(j + 1 - 1)]);
      assert Solid(u, q + [NatText(j)]);
    }
  }

  lemma {:induction false} GaplessHasNoHoles(u: Value, keys: set<string>, q: Path, c: Value)
    requires SolidIsPassed(u, keys) && Gapless(keys) && Node(u, q) == Some(c) && Tight(c) && DistinctKeys(c)
    requires u.Obj?
    ensures NoHoles(c)
    decreases c
  {
    match c {
      case Obj(ms) =>
        forall i | 0 <= i < |ms| ensures NoHoles(ms[i].value) {
          NodeAppend(u, q, ms[i].key);
          IndexOfMember(ms, i);
          GaplessHasNoHoles(u, keys, q + [ms[i].key], ms[i].value);
        }
      case List(items) =>
        forall i | 0 <= i < |items| ensures items[i] != Null && NoHoles(items[i]) {
          ItemsAreSolid(u, keys, q, items, i);
          NatTextIsPlain(i);
          NodeAppend(u, q, NatText(i));
          GaplessHasNoHoles(u, keys, q + [NatText(i)], items[i]);
        }
      case _ =>
    }
  }

  ghost predicate DistinctKeys(v: Value) {
    match v
    case Obj(ms) => Distinct(ms) && forall i :: 0 <= i < |ms| ==> DistinctKeys(ms[i].value)
    case List(items) => forall i :: 0 <= i < |items| ==> DistinctKeys(items[i])
    case _ => true
  }

  lemma {:induction false} FitsDistinct(p: Value, s: Value)
    requires Fits(p, s)
    ensures DistinctKeys(p)
    decreases p
  {
    match p {
      case Obj(ms) =>
        forall i | 0 <= i < |ms| ensures DistinctKeys(ms[i].value) {
          FitsDistinct(ms[i].value, Get(s.members, ms[i].key));
        }
      case List(items) =>
        forall i | 0 <= i < |items| ensures DistinctKeys(items[i]) {
          if items[i] != Null { FitsDistinct(items[i], s.items[i]); }
        }
      case _ =>
    }
  }

  /** Below the pattern every node still fits, and a solid tree stays solid. */
  lemma {:induction false} NodeInherits(p: Value, s: Value, q: Path)
    requires Fits(p, s) && WordKeysBelow(s) && NoHoles(p) && Node(p, q).Some?
    ensures Node(s, q).Some? && Fits(Node(p, q).value, Node(s, q).value)
    ensures (q != [] ==> WordKeys(Node(s, q).value)) && NoHoles(Node(p, q).value)
    decreases |q|
  {
    if q != [] {
      if p.Obj? { assert p.members[IndexOf(p.members, q[0])].key == q[0]; }
      NodeInherits(Step(p, q[0]).value, Step(s, q[0]).value, q[1..]);
    }
  }

  lemma FitsHasWords(c: Value, d: Value, key: string)
    requires Fits(c, d) && WordKeys(d)
    ensures c.Obj? && Has(c.members, key) ==> !IsDigits(key)
  {
    if c.Obj? && Has(c.members, key) {
      assert c.members[IndexOf(c.members, key)].key == key;
      assert d.members[IndexOf(d.members, key)].key == key;
    }
  }

  /** A node with a numbered child is an array. */
  lemma NumberedIsList(u: Value, s: Value, q: Path, m: nat)
    requires Fits(u, s) && WordKeysBelow(s) && NoHoles(u)
    requires q != [] && Node(u, q).Some? && Step(Node(u, q).value, NatText(m)).Some? && m > 0
    ensures Node(u, q).value.List? && Step(Node(u, q).value, NatText(m - 1)).Some?
    ensures Step(Node(u, q).value, NatText(m - 1)) != Some(Null)
  {
    NatTextIsPlain(m);
    NatTextIsPlain(m - 1);
    NodeInherits(u, s, q);
    FitsHasWords(Node(u, q).value, Node(s, q).value, NatText(m));
    hide Node, Fits, WordKeys, WordKeysBelow;
  }

  lemma NumberedHasPrevious(u: Value, s: Value, keys: set<string>, q: Path, m: nat)
    requires SolidIsPassed(u, keys) && Fits(u, s) && WordKeysBelow(s) && NoHoles(u)
    requires q != [] && Passes(keys, q + [NatText(m)]) && m > 0
    ensures Passes(keys, q + [NatText(m - 1)])
  {
    hide NatText, Fits, WordKeys, WordKeysBelow, NoHoles, Step, Node;
    assert Solid(u, q + [NatText(m)]);
    NodeAppend(u, q, NatText(m));
    NodeAppend(u, q, NatText(m - 1));
    NumberedIsList(u, s, q, m);
    assert Solid(u, q + [NatText(m - 1)]);
  }

  lemma NoHolesIsGapless(u: Value, s: Value, keys: set<string>)
    requires SolidIsPassed(u, keys) && Fits(u, s) && WordKeysBelow(s) && NoHoles(u)
    ensures Gapless(keys)
  {
    hide NatText, Fits, WordKeys, WordKeysBelow, NoHoles, SolidIsPassed, Split;
    forall k, i: nat, m: nat | k in keys && 0 < i < |Split(k, '.')| && m > 0 && Split(k, '.')[i] == NatText(m)
      ensures Passes(keys, Split(k, '.')[..i] + [NatText(m - 1)])
    {
      assert Split(k, '.')[..i] + [NatText(m)] <= Split(k, '.');
      NumberedHasPrevious(u, s, keys, Split(k, '.')[..i], m);
    }
  }

  lemma {:induction false} NoHoleFound(v: Value, path: Path)
    requires NoHoles(v) && path != [] && NoNullMember(v)
    ensures Find(v, path) != Some(Null)
    decreases |path|
  {
    FindSteps(v, path);
    var child := Step(v, path[0]);
    if child.Some? {
      FindSteps(child.value, path[1..]);
      if |path| > 1 { NoHoleFound(child.value, path[1..]); }
    }
  }

  ghost predicate NoNullMember(v: Value) {
    match v
    case Obj(ms) => forall i :: 0 <= i < |ms| ==> ms[i].value != Null && NoNullMember(ms[i].value)
    case List(items) => forall i :: 0 <= i < |items| ==> NoNullMember(items[i])
    case _ => true
  }

  lemma {:induction false} FitsNoNullMember(p: Value, s: Value)
    requires Fits(p, s)
    ensures NoNullMember(p)
    decreases p
  {
    match p {
      case Obj(ms) =>
        forall i | 0 <= i < |ms| ensures NoNullMember(ms[i].value) {
          FitsNoNullMember(ms[i].value, Get(s.members, ms[i].key));
        }
      case List(items) =>
        forall i | 0 <= i < |items| ensures NoNullMember(items[i]) {
          if items[i] != Null { FitsNoNullMember(items[i], s.items[i]); }
        }
      case _ =>
    }
  }

  lemma {:induction false} SomeHole(v: Value) returns (path: Path)
    requires !NoHoles(v) && PlainKeys(v)
    ensures path != [] && PlainPath(path) && Find(v, path) == Some(Null)
    decreases v
  {
    var child, rest := Null, [];
    match v {
      case Obj(ms) =>
        var i :| 0 <= i < |ms| && !NoHoles(ms[i].value);
        child := ms[i].value;
        rest := SomeHole(child);
        IndexOfMember(ms, i);
        path := [ms[i].key] + rest;
      case List(items) =>
        var i: nat :| i < |items| && !(items[i] != Null && NoHoles(items[i]));
        child := items[i];
        if child != Null { rest := SomeHole(child); }
        NatTextIsPlain(i);
        path := [NatText(i)] + rest;
    }
    assert Step(v, path[0]) == Some(child) && path[1..] == rest;
    FindSteps(v, path);
    FindSteps(Null, []);
  }

  lemma {:induction false} FitsPlain(p: Value, s: Value)
    requires Fits(p, s) && PlainKeys(s)
    ensures PlainKeys(p)
    decreases p
  {
    match p {
      case Obj(ms) =>
        forall i | 0 <= i < |ms| ensures PlainKey(ms[i].key) && PlainKeys(ms[i].value) {
          assert s.members[IndexOf(s.members, ms[i].key)].key == ms[i].key;
          FitsPlain(ms[i].value, Get(s.members, ms[i].key));
        }
      case List(items) =>
        forall i | 0 <= i < |items| ensures PlainKeys(items[i]) {
          if items[i] != Null { FitsPlain(items[i], s.items[i]); }
        }
      case _ =>
    }
  }

  lemma UnflattenPasses(s: Value, flat: map<string, Value>, order: seq<string>)
    requires s.Obj? && WordKeysBelow(s) && EntriesOf(flat, s) && Visits(order, flat.Keys)
    ensures var u := InsertAll(Obj([]), flat, order);
      u.Ok? && Tight(u.value) && SolidIsPassed(u.value, flat.Keys)
  {
    hide WordKeys, WordKeysBelow, Find, Split, Insert, InsertAll;
    InsertAllFits(Obj([]), s, flat, order);
    InsertAllTight(Obj([]), flat, order);
    var u := InsertAll(Obj([]), flat, order).value;
    forall q: Path | q != [] ensures Solid(u, q) <==> Passes(flat.Keys, q) {
      InsertAllSolid(Obj([]), s, flat, order, q);
      assert Visited(order, q) <==> Passes(flat.Keys, q);
    }
  }

  /** What is known of an `unflatten` of entries that belong to a dictionary. */
  lemma UnflattenShape(s: Value, flat: map<string, Value>, order: seq<string>)
    requires s.Obj? && WordKeysBelow(s) && PlainKeys(s) && EntriesOf(flat, s) && Visits(order, flat.Keys)
    ensures var u := Unflatten(flat, order);
      && u.Ok? && u.value.Obj? && Fits(u.value, s) && PlainKeys(u.value)
      && (forall key: string :: Real(Find(u.value, Split(key, '.'))) == Lookup(flat, key))
      && (NoHoles(u.value) <==> Gapless(flat.Keys))
  {
    hide Fits, PlainKeys, WordKeys, WordKeysBelow, Find, Split, Real, NoHoles, Unflatten, InsertAll, Tight,
      SolidIsPassed, Gapless, DistinctKeys, EntriesOf;
    UnflattenFinds(s, flat, order);
    UnflattenPasses(s, flat, order);
    var u := Unflatten(flat, order).value;
    FitsPlain(u, s);
    FitsDistinct(u, s);
    if Gapless(flat.Keys) {
      assert Node(u, []) == Some(u);
      GaplessHasNoHoles(u, flat.Keys, [], u);
    }
    if NoHoles(u) { NoHolesIsGapless(u, s, flat.Keys); }
  }

  /** `flatten_values(unflatten(flat)) == flat` exactly when the keys leave no gap in an array. */
  lemma UnflattenExact(s: Value, flat: map<string, Value>, order: seq<string>)
    requires s.Obj? && WordKeysBelow(s) && PlainKeys(s) && EntriesOf(flat, s) && Visits(order, flat.Keys)
    ensures Unflatten(flat, order).Ok?
    ensures FlattenValues(Unflatten(flat, order).value, "") == flat <==> Gapless(flat.Keys)
  {
    UnflattenShape(s, flat, order);
    var u := Unflatten(flat, order).value;
    if NoHoles(u) {
      FitsNoNullMember(u, s);
      forall key: string ensures Find(u, Split(key, '.')) == Lookup(flat, key) {
        NoHoleFound(u, Split(key, '.'));
      }
      SameLeavesFlattenAlike(u, flat);
    } else {
      var path := SomeHole(u);
      PathHasKey(path);
      FlattenRoot(u, Join(path, "."));
      assert Lookup(FlattenValues(u, ""), Join(path, ".")) == Some(Null);
      if Join(path, ".") in flat { assert RealLeaf(flat[Join(path, ".")]); }
    }
  }
}
