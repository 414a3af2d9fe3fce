/** The loops of `unflatten`, `normalize_arrays` and `deep_merge`. */
module FlatLoops {
  import opened Text
  import opened Decimal
  import opened Dictionaries
  import opened FlatKeys
  import opened FlatRebuild
  import opened Overlay

  method UnflattenEntries(flat: map<string, Value>, order: seq<string>) returns (r: Outcome<Value>)
    requires forall k <- order :: k in flat
    ensures r == Unflatten(flat, order)
  {
    var root := Obj([]);
    for i := 0 to |order|
      invariant InsertAll(root, flat, order[i..]) == InsertAll(Obj([]), flat, order)
    {
      var next := Insert(root, Split(order[i], '.'), flat[order[i]]);
      assert order[i..][1..] == order[i + 1..];
      if next.Raises? { return Raises(next.error); }
      root := next.value;
    }
    r := NormalizeArrays(root);
  }

  method NormalizeArrays(v: Value) returns (r: Outcome<Value>)
    ensures r == Normalize(v)
    decreases v
  {
    match v {
      case Obj(ms) =>
        var done := [];
        assert ms[0..] == ms;
        PrependNone(NormalizeMembers(ms));
        for i := 0 to |ms|
          invariant NormalizeMembers(ms) == Prepend(done, NormalizeMembers(ms[i..]))
        {
          var child := NormalizeArrays(ms[i].value);
          assert ms[i..][1..] == ms[i + 1..];
          if child.Raises? { return Raises(child.error); }
          var value := AsList(child.value);
          if value.Raises? { return Raises(value.error); }
          PrependOne(done, Member(ms[i].key, value.value), NormalizeMembers(ms[i + 1..]));
          done := done + [Member(ms[i].key, value.value)];
        }
        assert done + [] == done;
        r := Ok(Obj(done));
      case List(items) =>
        var done := [];
        assert items[0..] == items;
        PrependNone(NormalizeItems(items));
        for i := 0 to |items|
          invariant NormalizeItems(items) == Prepend(done, NormalizeItems(items[i..]))
        {
          var item := NormalizeArrays(items[i]);
          assert items[i..][1..] == items[i + 1..];
          if item.Raises? { return Raises(item.error); }
          PrependOne(done, item.value, NormalizeItems(items[i + 1..]));
          done := done + [item.value];
        }
        assert done + [] == done;
        r := Ok(List(done));
      case _ => r := Ok(v);
    }
  }

  ghost function Prepend<T>(done: seq<T>, rest: Outcome<seq<T>>): Outcome<seq<T>> {
    match rest case Raises(e) => Raises(e) case Ok(r) => Ok(done + r)
  }

  lemma PrependNone<T>(rest: Outcome<seq<T>>)
    ensures Prepend([], rest) == rest
  {
    if rest.Ok? { assert [] + rest.value == rest.value; }
  }

  lemma PrependOne<T>(done: seq<T>, x: T, rest: Outcome<seq<T>>)
    ensures Prepend(done + [x], rest) == Prepend(done, Prepend([x], rest))
  {
    if rest.Ok? { assert done + [x] + rest.value == done + ([x] + rest.value); }
  }

  method DeepMergeInto(base: seq<Member>, extra: seq<Member>) returns (merged: seq<Member>)
    ensures merged == DeepMerge(base, extra)
    decreases extra
  {
    merged := base;
    for i := 0 to |extra|
      invariant DeepMerge(merged, extra[i..]) == DeepMerge(base, extra)
    {
      var key, value := extra[i].key, extra[i].value;
      assert extra[i..][1..] == extra[i + 1..];
      if value.Obj? && Has(merged, key) && Get(merged, key).Obj? {
        var child := DeepMergeInto(Get(merged, key).members, value.members);
        merged := Put(merged, key, Obj(child));
      } else {
        merged := Put(merged, key, value);
      }
    }
  }

  /** `overlay_translations`: the walked dictionary and, when any translation is left, its merge. */
  method OverlayPending(data: Value, tr: map<string, Value>, order: seq<string>) returns (r: Outcome<Value>)
    requires data.Obj? && (forall k <- tr :: IsLeaf(tr[k])) && Visits(order, Pending(data, tr).Keys)
    ensures r == OverlayTranslations(data, tr, order)
  {
    var walked := WalkMembers(data.members, "", tr);
    if Pending(data, tr) == map[] { return Ok(Obj(walked)); }
    var u := UnflattenEntries(Pending(data, tr), order);
    if u.Raises? { return Raises(u.error); }
    UnflattenIsObj(Pending(data, tr), order);
    var merged := DeepMergeInto(walked, u.value.members);
    r := Ok(Obj(merged));
  }
}
