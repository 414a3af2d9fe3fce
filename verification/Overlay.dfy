/** Laying flat translations over a nested dictionary. */
module Overlay {
  import opened Text
  import opened Decimal
  import opened Dictionaries
  import opened FlatKeys
  import opened FlatPaths
  import opened FlatRebuild
  import opened FlatGaps

  /** The nested `walk`: every leaf that has a translation is replaced, every other one is kept. */
  function Walk(v: Value, prefix: string, tr: map<string, Value>): Value
    decreases v, 1
  {
    match v
    case Obj(ms) => Obj(WalkMembers(ms, prefix, tr))
    case List(items) => List(WalkItems(items, prefix, 0, tr))
    case _ => if prefix in tr then tr[prefix] else v
  }

  function WalkMembers(ms: seq<Member>, prefix: string, tr: map<string, Value>): seq<Member>
    decreases ms, 0
  {
    if ms == [] then [] else
      [Member(ms[0].key, Walk(ms[0].value, Child(prefix, ms[0].key), tr))] + WalkMembers(ms[1..], prefix, tr)
  }

  function WalkItems(items: seq<Value>, prefix: string, start: nat, tr: map<string, Value>): seq<Value>
    decreases items, 0
  {
    if items == [] then [] else
      [Walk(items[0], prefix + "." + NatText(start), tr)] + WalkItems(items[1..], prefix, start + 1, tr)
  }

  function DeepMerge(base: seq<Member>, extra: seq<Member>): seq<Member>
    decreases extra
  {
    if extra == [] then base else
      DeepMerge(Put(base, extra[0].key, Merged(base, extra[0].key, extra[0].value)), extra[1..])
  }

  /** What one round of `deep_merge` stores under a key. */
  function Merged(base: seq<Member>, key: string, value: Value): Value
    decreases value
  {
    if value.Obj? && Has(base, key) && Get(base, key).Obj?
    then Obj(DeepMerge(Get(base, key).members, value.members)) else value
  }

  /** The translations whose key is no leaf of the dictionary. */
  function Pending(data: Value, tr: map<string, Value>): map<string, Value> {
    map k | k in tr && k !in FlattenValues(data, "") :: tr[k]
  }

  function OverlayTranslations(data: Value, tr: map<string, Value>, order: seq<string>): Outcome<Value>
    requires data.Obj? && (forall k <- tr :: IsLeaf(tr[k])) && Visits(order, Pending(data, tr).Keys)
  {
    var walked := WalkMembers(data.members, "", tr);
    if Pending(data, tr) == map[] then Ok(Obj(walked)) else
      match Unflatten(Pending(data, tr), order)
      case Raises(error) => Raises(error)
      case Ok(extra) =>
        UnflattenIsObj(Pending(data, tr), order);
        Ok(Obj(DeepMerge(walked, extra.members)))
  }

  lemma UnflattenIsObj(flat: map<string, Value>, order: seq<string>)
    requires forall k <- order :: k in flat && IsLeaf(flat[k])
    ensures var u := Unflatten(flat, order); u.Ok? ==> u.value.Obj?
  {
    NormalizeArraysIsIdle(flat, order);
    InsertAllKeepsObj(Obj([]), flat, order);
  }

  // ------------------------------------------------------------------- walking

  ghost function Override(found: Option<Value>, key: string, tr: map<string, Value>): Option<Value> {
    if found.Some? && key in tr then Some(tr[key]) else found
  }

  lemma {:induction false} WalkOverrides(v: Value, prefix: string, tr: map<string, Value>, key: string)
    requires forall k <- tr :: IsLeaf(tr[k])
    ensures Lookup(FlattenValues(Walk(v, prefix, tr), prefix), key)
         == Override(Lookup(FlattenValues(v, prefix), key), key, tr)
    decreases v, 1
  {
    match v {
      case Obj(ms) => WalkMembersOverrides(ms, prefix, tr, key);
      case List(items) => WalkItemsOverrides(items, prefix, 0, tr, key);
      case _ =>
    }
  }

  lemma {:induction false} WalkMembersOverrides(ms: seq<Member>, prefix: string, tr: map<string, Value>, key: string)
    requires forall k <- tr :: IsLeaf(tr[k])
    ensures Lookup(FlattenMembers(WalkMembers(ms, prefix, tr), prefix), key)
         == Override(Lookup(FlattenMembers(ms, prefix), key), key, tr)
    decreases ms, 0
  {
    if ms != [] {
      WalkOverrides(ms[0].value, Child(prefix, ms[0].key), tr, key);
      WalkMembersOverrides(ms[1..], prefix, tr, key);
      assert WalkMembers(ms, prefix, tr)[1..] == WalkMembers(ms[1..], prefix, tr);
    }
  }

  lemma {:induction false} WalkItemsOverrides(items: seq<Value>, prefix: string, start: nat, tr: map<string, Value>, key: string)
    requires forall k <- tr :: IsLeaf(tr[k])
    ensures Lookup(FlattenItems(WalkItems(items, prefix, start, tr), prefix, start), key)
         == Override(Lookup(FlattenItems(items, prefix, start), key), key, tr)
    decreases items, 0
  {
    if items != [] {
      WalkOverrides(items[0], prefix + "." + NatText(start), tr, key);
      WalkItemsOverrides(items[1..], prefix, start + 1, tr, key);
      assert WalkItems(items, prefix, start, tr)[1..] == WalkItems(items[1..], prefix, start + 1, tr);
    }
  }

  /** Two values with the same containers and keys, and leaves at the same places. */
  ghost predicate Alike(a: Value, b: Value) {
    match a
    case Obj(ms) =>
      && b.Obj? && |ms| == |b.members|
      && forall i :: 0 <= i < |ms| ==> ms[i].key == b.members[i].key && Alike(ms[i].value, b.members[i].value)
    case List(items) =>
      && b.List? && |items| == |b.items|
      && forall i :: 0 <= i < |items| ==> Alike(items[i], b.items[i])
    case _ => IsLeaf(b)
  }

  lemma {:induction false} WalkAlike(v: Value, prefix: string, tr: map<string, Value>)
    requires forall k <- tr :: IsLeaf(tr[k])
    ensures Alike(v, Walk(v, prefix, tr))
    decreases v, 1
  {
    match v {
      case Obj(ms) => WalkMembersAlike(ms, prefix, tr);
      case List(items) => WalkItemsAlike(items, prefix, 0, tr);
      case _ =>
    }
  }

  lemma {:induction false} WalkMembersAlike(ms: seq<Member>, prefix: string, tr: map<string, Value>)
    requires forall k <- tr :: IsLeaf(tr[k])
    ensures Alike(Obj(ms), Obj(WalkMembers(ms, prefix, tr)))
    decreases ms, 0
  {
    if ms != [] {
      WalkAlike(ms[0].value, Child(prefix, ms[0].key), tr);
      WalkMembersAlike(ms[1..], prefix, tr);
      var w := WalkMembers(ms, prefix, tr);
      assert w[1..] == WalkMembers(ms[1..], prefix, tr);
      assert forall i :: 1 <= i < |ms| ==> ms[i] == ms[1..][i - 1] && w[i] == w[1..][i - 1];
    }
  }

  lemma {:induction false} WalkItemsAlike(items: seq<Value>, prefix: string, start: nat, tr: map<string, Value>)
    requires forall k <- tr :: IsLeaf(tr[k])
    ensures Alike(List(items), List(WalkItems(items, prefix, start, tr)))
    decreases items, 0
  {
    if items != [] {
      WalkAlike(items[0], prefix + "." + NatText(start), tr);
      WalkItemsAlike(items[1..], prefix, start + 1, tr);
      var w := WalkItems(items, prefix, start, tr);
      assert w[1..] == WalkItems(items[1..], prefix, start + 1, tr);
      assert forall i :: 1 <= i < |items| ==> items[i] == items[1..][i - 1] && w[i] == w[1..][i - 1];
    }
  }

  lemma {:induction false} AlikePlain(a: Value, b: Value)
    requires Alike(a, b) && PlainKeys(a)
    ensures PlainKeys(b)
    decreases a
  {
    match a {
      case Obj(ms) =>
        forall i | 0 <= i < |ms| ensures PlainKeys(b.members[i].value) { AlikePlain(ms[i].value, b.members[i].value); }
      case List(items) =>
        forall i | 0 <= i < |items| ensures PlainKeys(b.items[i]) { AlikePlain(items[i], b.items[i]); }
      case _ =>
    }
  }

  // ------------------------------------------------------------------- merging

  /** No leaf below. */
  ghost predicate Bare(v: Value) {
    match v
    case Obj(ms) => forall i :: 0 <= i < |ms| ==> Bare(ms[i].value)
    case List(items) => forall i :: 0 <= i < |items| ==> Bare(items[i])
    case _ => false
  }

  /** Wherever the dictionary and the new keys both have a node, both nodes are objects, or the
      dictionary has no leaf there to lose. */
  ghost predicate Compatible(base: Value, extra: Value)
    decreases extra
  {
    if base.Obj? && extra.Obj? then
      forall i :: 0 <= i < |extra.members| && Has(base.members, extra.members[i].key) ==>
        Compatible(Get(base.members, extra.members[i].key), extra.members[i].value)
    else Bare(base)
  }

  lemma {:induction false} AlikeBare(a: Value, b: Value)
    requires Alike(a, b)
    ensures Bare(a) <==> Bare(b)
    decreases a
  {
    match a {
      case Obj(ms) =>
        forall i | 0 <= i < |ms| ensures Bare(ms[i].value) <==> Bare(b.members[i].value) {
          AlikeBare(ms[i].value, b.members[i].value);
        }
      case List(items) =>
        forall i | 0 <= i < |items| ensures Bare(items[i]) <==> Bare(b.items[i]) { AlikeBare(items[i], b.items[i]); }
      case _ =>
    }
  }

  lemma {:induction false} AlikeCompatible(a: Value, b: Value, extra: Value)
    requires Alike(a, b)
    ensures Compatible(a, extra) <==> Compatible(b, extra)
    decreases extra
  {
    AlikeBare(a, b);
    if a.Obj? && extra.Obj? {
      forall i | 0 <= i < |extra.members|
        ensures Has(a.members, extra.members[i].key) <==> Has(b.members, extra.members[i].key)
        ensures Has(a.members, extra.members[i].key) ==>
          (Compatible(Get(a.members, extra.members[i].key), extra.members[i].value)
           <==> Compatible(Get(b.members, extra.members[i].key), extra.members[i].value))
      {
        var key := extra.members[i].key;
        if Has(a.members, key) {
          AlikeCompatible(Get(a.members, key), Get(b.members, key), extra.members[i].value);
        }
      }
    }
  }

  lemma {:induction false} MergeSteps(base: seq<Member>, extra: seq<Member>, key: string)
    requires Distinct(extra)
    ensures Step(Obj(DeepMerge(base, extra)), key)
         == if Has(extra, key) then Some(Merged(base, key, Get(extra, key))) else Step(Obj(base), key)
    decreases |extra|
  {
    if extra != [] {
      var first := extra[0];
      var next := Put(base, first.key, Merged(base, first.key, first.value));
      PutGet(base, first.key, Merged(base, first.key, first.value), key);
      FirstMember(extra, key);
      MergeSteps(next, extra[1..], key);
    }
  }

  lemma {:induction false} MergePlain(base: seq<Member>, extra: seq<Member>)
    requires PlainMembers(base) && PlainMembers(extra)
    ensures PlainMembers(DeepMerge(base, extra))
    decreases extra
  {
    if extra != [] {
      var first := extra[0];
      if first.value.Obj? && Has(base, first.key) && Get(base, first.key).Obj? {
        MergePlain(Get(base, first.key).members, first.value.members);
      }
      var next := Put(base, first.key, Merged(base, first.key, first.value));
      PutDistinct(base, first.key, Merged(base, first.key, first.value));
      assert PlainMembers(next);
      MergePlain(next, extra[1..]);
    }
  }

  lemma {:induction false} BareFinds(v: Value, q: Path)
    requires Bare(v)
    ensures Find(v, q) == None
    decreases |q|
  {
    if q != [] && Step(v, q[0]).Some? { BareFinds(Step(v, q[0]).value, q[1..]); }
  }

  lemma {:induction false} LeafBelow(v: Value) returns (path: Path)
    requires !Bare(v) && PlainKeys(v)
    ensures PlainPath(path) && Find(v, path).Some?
    decreases v
  {
    path := [];
    match v {
      case Obj(ms) =>
        var i :| 0 <= i < |ms| && !Bare(ms[i].value);
        var rest := LeafBelow(ms[i].value);
        IndexOfMember(ms, i);
        path := [ms[i].key] + rest;
        assert path[1..] == rest;
      case List(items) =>
        var i: nat :| i < |items| && !Bare(items[i]);
        var rest := LeafBelow(items[i]);
        NatTextIsPlain(i);
        path := [NatText(i)] + rest;
        assert path[1..] == rest;
      case _ =>
    }
  }

  /** Over compatible values a merge takes every leaf of the new keys and keeps every other leaf. */
  lemma {:induction false} MergeFinds(base: seq<Member>, extra: seq<Member>, q: Path)
    requires Compatible(Obj(base), Obj(extra)) && DistinctKeys(Obj(extra))
    ensures Find(Obj(DeepMerge(base, extra)), q)
         == if Find(Obj(extra), q).Some? then Find(Obj(extra), q) else Find(Obj(base), q)
    decreases |q|
  {
    FindSteps(Obj(DeepMerge(base, extra)), q);
    FindSteps(Obj(base), q);
    FindSteps(Obj(extra), q);
    if q != [] {
      MergeSteps(base, extra, q[0]);
      if Has(extra, q[0]) {
        var e := Get(extra, q[0]);
        assert extra[IndexOf(extra, q[0])].key == q[0];
        if Has(base, q[0]) {
          var b := Get(base, q[0]);
          assert Compatible(b, e);
          if b.Obj? && e.Obj? { MergeFinds(b.members, e.members, q[1..]); } else { BareFinds(b, q[1..]); }
        }
      }
      hide DeepMerge, Find, Compatible, IndexOf;
    }
  }

  /** Every leaf of the dictionary is a value, and none of the new keys names it. */
  ghost predicate Apart(base: Value, extra: Value) {
    forall q: Path | PlainPath(q) && Find(base, q).Some? :: Find(base, q) != Some(Null) && Real(Find(extra, q)) == None
  }

  lemma ApartChild(base: Value, extra: Value, key: string)
    requires Apart(base, extra) && PlainKey(key) && Step(base, key).Some? && Step(extra, key).Some?
    ensures Apart(Step(base, key).value, Step(extra, key).value)
  {
    var b, e := Step(base, key).value, Step(extra, key).value;
    forall q: Path | PlainPath(q) && Find(b, q).Some?
      ensures Find(b, q) != Some(Null) && Real(Find(e, q)) == None
    {
      var longer := [key] + q;
      assert longer[1..] == q && Find(base, longer) == Find(b, q) && Find(extra, longer) == Find(e, q);
    }
  }

  /** Over incompatible values a merge loses a leaf of the dictionary. */
  lemma {:induction false} MergeLoses(base: seq<Member>, extra: seq<Member>) returns (q: Path)
    requires !Compatible(Obj(base), Obj(extra)) && DistinctKeys(Obj(extra)) && PlainMembers(base)
    requires Apart(Obj(base), Obj(extra))
    ensures q != [] && PlainPath(q) && Find(Obj(base), q).Some?
    ensures Find(Obj(DeepMerge(base, extra)), q) != Find(Obj(base), q)
    decreases extra
  {
    var i :| 0 <= i < |extra| && Has(base, extra[i].key) && !Compatible(Get(base, extra[i].key), extra[i].value);
    var key, e := extra[i].key, extra[i].value;
    var b := Get(base, key);
    IndexOfMember(extra, i);
    assert base[IndexOf(base, key)].key == key && Step(Obj(base), key) == Some(b) && Step(Obj(extra), key) == Some(e);
    ApartChild(Obj(base), Obj(extra), key);
    MergeSteps(base, extra, key);
    var rest;
    if b.Obj? && e.Obj? {
      rest := MergeLoses(b.members, e.members);
    } else {
      rest := LeafBelow(b);
    }
    q := [key] + rest;
    assert q[1..] == rest;
    FindSteps(Obj(DeepMerge(base, extra)), q);
    FindSteps(Obj(base), q);
    hide DeepMerge, Find, Compatible, Step, Bare;
  }

  /** A padded item of the new keys lies where a compatible dictionary has no leaf. */
  lemma {:induction false} HoleIsNew(base: Value, extra: Value, q: Path)
    requires Compatible(base, extra) && NoNullMember(extra) && extra != Null && Find(extra, q) == Some(Null)
    ensures Find(base, q) == None
    decreases |q|
  {
    FindSteps(base, q);
    FindSteps(extra, q);
    if base.Obj? && extra.Obj? {
      var i := IndexOf(extra.members, q[0]);
      assert extra.members[i].key == q[0];
      FindSteps(Get(extra.members, q[0]), q[1..]);
      if Has(base.members, q[0]) { HoleIsNew(Get(base.members, q[0]), extra.members[i].value, q[1..]); }
    } else {
      BareFinds(base, q);
    }
  }

  // ------------------------------------------------------------------- overlay

  ghost predicate NoNulls(data: Value) {
    forall k <- FlattenValues(data, "") :: FlattenValues(data, "")[k] != Null
  }

  /** The new keys all belong to one dictionary `s`. */
  ghost predicate Fitting(data: Value, tr: map<string, Value>, s: Value) {
    && s.Obj? && WordKeysBelow(s) && PlainKeys(s)
    && (forall k <- tr :: RealLeaf(tr[k]))
    && (forall k <- Pending(data, tr) :: Find(s, Split(k, '.')).Some?)
  }

  /** `overlay_translations` is the pointwise override of the flat dictionary exactly when the new keys
      leave no gap in an array and displace no leaf. */
  lemma {:induction false} OverlayExact(data: Value, tr: map<string, Value>, order: seq<string>, s: Value)
    requires data.Obj? && PlainKeys(data) && NoNulls(data) && Fitting(data, tr, s)
    requires Visits(order, Pending(data, tr).Keys)
    ensures var r, u := OverlayTranslations(data, tr, order), Unflatten(Pending(data, tr), order);
      && r.Ok? && u.Ok? && r.value.Obj? && PlainKeys(r.value)
      && (FlattenValues(r.value, "") == FlattenValues(data, "") + tr
          <==> Gapless(Pending(data, tr).Keys) && Compatible(data, u.value))
  {
    var pending := Pending(data, tr);
    UnflattenShape(s, pending, order);
    var u := Unflatten(pending, order).value;
    FitsDistinct(u, s);
    FitsNoNullMember(u, s);
    MergeExact(data, tr, u);
    if pending == map[] { NothingPending(order); }
    hide Walk, DeepMerge, Fits, WordKeys, WordKeysBelow, PlainKeys, Gapless, FlattenValues, NoHoles, Compatible;
  }

  /** The same, said of the nested form `u` of the new keys. */
  lemma MergeExact(data: Value, tr: map<string, Value>, u: Value)
    requires data.Obj? && PlainKeys(data) && NoNulls(data) && forall k <- tr :: RealLeaf(tr[k])
    requires u.Obj? && PlainKeys(u) && DistinctKeys(u) && NoNullMember(u)
    requires forall key: string :: Real(Find(u, Split(key, '.'))) == Lookup(Pending(data, tr), key)
    ensures var merged := Obj(DeepMerge(WalkMembers(data.members, "", tr), u.members));
      && PlainKeys(merged)
      && (FlattenValues(merged, "") == FlattenValues(data, "") + tr <==> NoHoles(u) && Compatible(data, u))
  {
    var walked := Walk(data, "", tr);
    WalkAlike(data, "", tr);
    AlikePlain(data, walked);
    AlikeCompatible(data, walked, u);
    var merged := Obj(DeepMerge(walked.members, u.members));
    MergePlain(walked.members, u.members);
    hide DeepMerge, PlainKeys, FlattenValues, NoHoles, Compatible;
    if !Compatible(walked, u) {
      WalkedApart(data, tr, u);
      var q := MergeLoses(walked.members, u.members);
      LeafChanged(data, tr, merged, q);
    } else if !NoHoles(u) {
      var q := SomeHole(u);
      HoleIsNew(walked, u, q);
      MergeFinds(walked.members, u.members, q);
      LeafAdded(data, tr, merged, q);
    } else {
      forall key: string
        ensures Find(merged, Split(key, '.')) == Lookup(FlattenValues(data, "") + tr, key)
      {
        NoHoleFound(u, Split(key, '.'));
        MergeFinds(walked.members, u.members, Split(key, '.'));
        WalkedFinds(data, tr, key);
      }
      SameLeavesFlattenAlike(merged, FlattenValues(data, "") + tr);
    }
  }

  lemma NothingPending(order: seq<string>)
    requires Visits(order, {})
    ensures Unflatten(map[], order) == Ok(Obj([]))
  {
    if order != [] {
      FirstIsIn(order);
      assert false;
    }
  }

  lemma FirstIsIn(order: seq<string>)
    ensures order != [] ==> order[0] in order
  {
  }

  /** The leaf that the walked dictionary has under a key. */
  lemma WalkedFinds(data: Value, tr: map<string, Value>, key: string)
    requires data.Obj? && PlainKeys(data) && forall k <- tr :: IsLeaf(tr[k])
    ensures Find(Walk(data, "", tr), Split(key, '.')) == Override(Lookup(FlattenValues(data, ""), key), key, tr)
  {
    WalkAlike(data, "", tr);
    AlikePlain(data, Walk(data, "", tr));
    FlattenRoot(Walk(data, "", tr), key);
    WalkOverrides(data, "", tr, key);
  }

  lemma WalkedApart(data: Value, tr: map<string, Value>, u: Value)
    requires data.Obj? && PlainKeys(data) && NoNulls(data) && (forall k <- tr :: RealLeaf(tr[k])) && u.Obj?
    requires forall key: string :: Real(Find(u, Split(key, '.'))) == Lookup(Pending(data, tr), key)
    ensures Apart(Walk(data, "", tr), u)
  {
    var walked := Walk(data, "", tr);
    forall q: Path | PlainPath(q) && Find(walked, q).Some?
      ensures Find(walked, q) != Some(Null) && Real(Find(u, q)) == None
    {
      if q != [] {
        PathHasKey(q);
        WalkedFinds(data, tr, Join(q, "."));
        assert Real(Find(u, Split(Join(q, "."), '.'))) == Lookup(Pending(data, tr), Join(q, "."));
      }
    }
  }

  lemma LeafChanged(data: Value, tr: map<string, Value>, merged: Value, q: Path)
    requires data.Obj? && PlainKeys(data) && (forall k <- tr :: IsLeaf(tr[k])) && merged.Obj? && PlainKeys(merged)
    requires q != [] && PlainPath(q) && Find(Walk(data, "", tr), q).Some?
    requires Find(merged, q) != Find(Walk(data, "", tr), q)
    ensures FlattenValues(merged, "") != FlattenValues(data, "") + tr
  {
    var key := Join(q, ".");
    PathHasKey(q);
    WalkedFinds(data, tr, key);
    FlattenRoot(merged, key);
    assert Lookup(FlattenValues(merged, ""), key) != Lookup(FlattenValues(data, "") + tr, key);
  }

  lemma LeafAdded(data: Value, tr: map<string, Value>, merged: Value, q: Path)
    requires data.Obj? && PlainKeys(data) && (forall k <- tr :: RealLeaf(tr[k])) && merged.Obj? && PlainKeys(merged)
    requires q != [] && PlainPath(q) && Find(Walk(data, "", tr), q) == None && Find(merged, q) == Some(Null)
    ensures FlattenValues(merged, "") != FlattenValues(data, "") + tr
  {
    var key := Join(q, ".");
    PathHasKey(q);
    WalkedFinds(data, tr, key);
    FlattenRoot(merged, key);
    assert Lookup(FlattenValues(merged, ""), key) != Lookup(FlattenValues(data, "") + tr, key);
  }

  // ------------------------------------------------------------- a lost leaf

  const TITLE := Obj([Member("title", Str("Hello"))])
  const LONG_TITLE := Obj([Member("long", Str("Bonjour"))])

  lemma LongTitleBuilt(flat: map<string, Value>)
    requires flat == map["title.long" := Str("Bonjour")]
    ensures Unflatten(flat, ["title.long"]) == Ok(Obj([Member("title", LONG_TITLE)]))
  {
    hide Unflatten, Insert;
    var first, second := "title", "long";
    assert first + ['.'] + second == "title.long";
    assert !IsDigits(second) by { assert second[0] in second && !IsDecimal(second[0]); }
    OneKeyBuilt(first, second, Str("Bonjour"), flat, ["title.long"]);
    InsertOne(second, Str("Bonjour"));
  }

  lemma TitleFlat(text: string, ms: seq<Member>, tr: map<string, Value>)
    requires ms == [Member("title", Str(text))] && "title" !in tr
    ensures FlattenValues(Obj(ms), "") == map["title" := Str(text)]
    ensures WalkMembers(ms, "", tr) == ms
  {
    assert ms[1..] == [] && Child("", "title") == "title";
    assert FlattenMembers([], "") == map[] && FlattenValues(Str(text), "title") == map["title" := Str(text)];
    assert FlattenMembers(ms, "") == map["title" := Str(text)] + FlattenMembers([], "");
    assert Walk(Str(text), "title", tr) == Str(text) && WalkMembers([], "", tr) == [];
  }

  lemma TitleMerged(base: seq<Member>, extra: seq<Member>)
    requires base == [Member("title", Str("Hello"))] && extra == [Member("title", LONG_TITLE)]
    ensures DeepMerge(base, extra) == extra
  {
    assert extra[1..] == [];
    assert Put(base, "title", LONG_TITLE) == extra;
  }

  /** The text "Hello" under "title" is gone once "title.long" is translated. */
  lemma TitleIsLost()
    ensures Visits(["title.long"], Pending(TITLE, map["title.long" := Str("Bonjour")]).Keys)
    ensures OverlayTranslations(TITLE, map["title.long" := Str("Bonjour")], ["title.long"])
         == Ok(Obj([Member("title", LONG_TITLE)]))
  {
    hide FlattenValues, WalkMembers, Unflatten, DeepMerge;
    var tr := map["title.long" := Str("Bonjour")];
    assert "title.long" != "title" by { assert |"title.long"| != |"title"|; }
    TitleFlat("Hello", TITLE.members, tr);
    assert Pending(TITLE, tr) == tr;
    assert "title.long" in tr && tr != map[];
    LongTitleBuilt(tr);
    hide Pending;
    var extra := [Member("title", LONG_TITLE)];
    assert Unflatten(Pending(TITLE, tr), ["title.long"]) == Ok(Obj(extra));
    TitleMerged(WalkMembers(TITLE.members, "", tr), extra);
  }
}
