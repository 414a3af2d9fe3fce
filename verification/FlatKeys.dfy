/** Flat "dotted.numeric" keys: taking a nested dictionary apart and putting one together. */
module FlatKeys {
  import opened Text
  import opened Decimal
  import opened Dictionaries

  // -------------------------------------------------------------- taking apart

  function Child(prefix: string, key: string): string {
    if prefix == "" then key else prefix + "." + key
  }

  /** `flatten_values`: every leaf under its dotted key; a later member overrides an earlier one. */
  function FlattenValues(v: Value, prefix: string): map<string, Value>
    decreases v, 1
  {
    match v
    case Obj(ms) => FlattenMembers(ms, prefix)
    case List(items) => FlattenItems(items, prefix, 0)
    case _ => map[prefix := v]
  }

  function FlattenMembers(ms: seq<Member>, prefix: string): map<string, Value>
    decreases ms, 0
  {
    if ms == [] then map[] else
      FlattenValues(ms[0].value, Child(prefix, ms[0].key)) + FlattenMembers(ms[1..], prefix)
  }

  function FlattenItems(items: seq<Value>, prefix: string, start: nat): map<string, Value>
    decreases items, 0
  {
    if items == [] then map[] else
      FlattenValues(items[0], prefix + "." + NatText(start)) + FlattenItems(items[1..], prefix, start + 1)
  }

  /** `"" if obj is None else str(obj)`. */
  function LeafText(v: Value): string
    requires IsLeaf(v)
  {
    match v
    case Null => ""
    case Str(s) => s
    case Int(n) => IntText(n)
    case Bool(b) => if b then "True" else "False"
    case Float(literal) => literal
  }

  lemma {:induction false} FlattenedAreLeaves(v: Value, prefix: string)
    ensures forall k <- FlattenValues(v, prefix) :: IsLeaf(FlattenValues(v, prefix)[k])
    decreases v, 1
  {
    match v {
      case Obj(ms) => MembersAreLeaves(ms, prefix);
      case List(items) => ItemsAreLeaves(items, prefix, 0);
      case _ =>
    }
  }

  lemma {:induction false} MembersAreLeaves(ms: seq<Member>, prefix: string)
    ensures forall k <- FlattenMembers(ms, prefix) :: IsLeaf(FlattenMembers(ms, prefix)[k])
    decreases ms, 0
  {
    if ms != [] {
      FlattenedAreLeaves(ms[0].value, Child(prefix, ms[0].key));
      MembersAreLeaves(ms[1..], prefix);
    }
  }

  lemma {:induction false} ItemsAreLeaves(items: seq<Value>, prefix: string, start: nat)
    ensures forall k <- FlattenItems(items, prefix, start) :: IsLeaf(FlattenItems(items, prefix, start)[k])
    decreases items, 0
  {
    if items != [] {
      FlattenedAreLeaves(items[0], prefix + "." + NatText(start));
      ItemsAreLeaves(items[1..], prefix, start + 1);
    }
  }

  /** `flatten`: the same keys with the text of each leaf. */
  function Flatten(v: Value): map<string, string> {
    FlattenedAreLeaves(v, "");
    var values := FlattenValues(v, "");
    map k | k in values :: LeafText(values[k])
  }

  // ---------------------------------------------------------- putting together

  datatype Outcome<+T> = Ok(value: T) | Raises(error: Error)

  datatype Error =
    | ValueError          // `int(part)` of a part that is no integer
    | IndexError          // a negative index beyond the start of the list
    | NotAContainer       // an item of a list that is neither None nor a container is descended into
    | KeyError            // `normalize_arrays` misses one of the keys 0, 1, 2, ...

  function Fresh(next: string): Value {
    if IsDigits(next) then List([]) else Obj([])
  }

  function Pad(items: seq<Value>, size: nat): (r: seq<Value>)
    ensures |items| <= |r| && size <= |r|
    ensures forall i :: 0 <= i < |items| ==> r[i] == items[i]
    ensures forall i :: |items| <= i < |r| ==> r[i] == Null
    ensures |r| == |items| || |r| == size
  {
    if |items| >= size then items else items + seq(size - |items|, _ => Null)
  }

  /** The container that the next part is put into. */
  function ItemFor(item: Value, next: string): Value {
    if item == Null then Fresh(next) else item
  }

  function MemberFor(ms: seq<Member>, part: string, next: string): Value {
    if Has(ms, part) && !IsLeaf(Get(ms, part)) then Get(ms, part) else Fresh(next)
  }

  /** The item that `node[int(part)]` names once the list is padded: a negative index counts from its end. */
  function Position(part: string, size: nat): Outcome<nat> {
    match ParseInt(part)
    case None => Raises(ValueError)
    case Some(i) => if i >= 0 then Ok(i) else if i + size >= 0 then Ok(i + size) else Raises(IndexError)
  }

  /** A numeral names the item it spells. */
  lemma NumeralPosition(part: string, size: nat)
    requires IsNumeral(part)
    ensures Position(part, size) == Ok(NatOf(part)) && IsDigits(part)
  {
    DecimalsParse(part);
  }

  /** One round of the loop of `unflatten`: the node with `value` put at the path `parts`. */
  function Insert(node: Value, parts: seq<string>, value: Value): Outcome<Value>
    requires parts != []
    decreases |parts|
  {
    var part := parts[0];
    match node
    case List(items) =>
      (match Position(part, |items|)
       case Raises(error) => Raises(error)
       case Ok(i) =>
         var padded := Pad(items, i + 1);
         if |parts| == 1 then Ok(List(padded[i := value])) else
           match Insert(ItemFor(padded[i], parts[1]), parts[1..], value)
           case Raises(error) => Raises(error)
           case Ok(child) => Ok(List(padded[i := child])))
    case Obj(ms) =>
      if |parts| == 1 then Ok(Obj(Put(ms, part, value))) else
        (match Insert(MemberFor(ms, part, parts[1]), parts[1..], value)
         case Raises(error) => Raises(error)
         case Ok(child) => Ok(Obj(Put(ms, part, child))))
    case _ => Raises(NotAContainer)
  }

  /** All keys in the order in which the dict is visited. */
  function InsertAll(node: Value, flat: map<string, Value>, order: seq<string>): Outcome<Value>
    requires forall k <- order :: k in flat
    decreases |order|
  {
    if order == [] then Ok(node) else
      match Insert(node, Split(order[0], '.'), flat[order[0]])
      case Raises(error) => Raises(error)
      case Ok(next) => InsertAll(next, flat, order[1..])
  }

  predicate AllDigits(ms: seq<Member>) {
    ms != [] && forall i :: 0 <= i < |ms| ==> IsDigits(ms[i].key)
  }

  /** A dict with keys 0, 1, 2, ... becomes a list. */
  function AsList(v: Value): Outcome<Value> {
    if !v.Obj? || !AllDigits(v.members) then Ok(v)
    else if forall i :: 0 <= i < |v.members| ==> Has(v.members, NatText(i)) then
      Ok(List(seq(|v.members|, i requires 0 <= i < |v.members| && Has(v.members, NatText(i)) =>
        Get(v.members, NatText(i)))))
    else Raises(KeyError)
  }

  function Normalize(v: Value): Outcome<Value>
    decreases v, 1
  {
    match v
    case Obj(ms) => (match NormalizeMembers(ms) case Raises(e) => Raises(e) case Ok(r) => Ok(Obj(r)))
    case List(items) => (match NormalizeItems(items) case Raises(e) => Raises(e) case Ok(r) => Ok(List(r)))
    case _ => Ok(v)
  }

  function NormalizeMembers(ms: seq<Member>): Outcome<seq<Member>>
    decreases ms, 0
  {
    if ms == [] then Ok([]) else
      match Normalize(ms[0].value)
      case Raises(e) => Raises(e)
      case Ok(child) =>
        match AsList(child)
        case Raises(e) => Raises(e)
        case Ok(value) =>
          match NormalizeMembers(ms[1..])
          case Raises(e) => Raises(e)
          case Ok(rest) => Ok([Member(ms[0].key, value)] + rest)
  }

  function NormalizeItems(items: seq<Value>): Outcome<seq<Value>>
    decreases items, 0
  {
    if items == [] then Ok([]) else
      match Normalize(items[0])
      case Raises(e) => Raises(e)
      case Ok(item) =>
        match NormalizeItems(items[1..])
        case Raises(e) => Raises(e)
        case Ok(rest) => Ok([item] + rest)
  }

  function Unflatten(flat: map<string, Value>, order: seq<string>): Outcome<Value>
    requires forall k <- order :: k in flat
  {
    match InsertAll(Obj([]), flat, order)
    case Raises(error) => Raises(error)
    case Ok(root) => Normalize(root)
  }

  // ------------------------------------------------- normalize_arrays is idle

  ghost predicate HasWord(v: Value) {
    v.Obj? ==> exists i :: 0 <= i < |v.members| && !IsDigits(v.members[i].key)
  }

  /** Below `v`, every object has a key that is not a number. */
  ghost predicate WordsBelow(v: Value) {
    match v
    case Obj(ms) => forall i :: 0 <= i < |ms| ==> HasWord(ms[i].value) && WordsBelow(ms[i].value)
    case List(items) => forall i :: 0 <= i < |items| ==> HasWord(items[i]) && WordsBelow(items[i])
    case _ => true
  }

  lemma PutHasWord(ms: seq<Member>, key: string, value: Value)
    requires HasWord(Obj(ms)) || !IsDigits(key)
    ensures HasWord(Obj(Put(ms, key, value)))
  {
    var r := Put(ms, key, value);
    if !IsDigits(key) {
      assert r[IndexOf(ms, key)].key == key;
    } else {
      var i :| 0 <= i < |ms| && !IsDigits(ms[i].key);
      assert r[i].key == ms[i].key;
    }
  }

  ghost predicate Worded(v: Value) {
    HasWord(v) && WordsBelow(v)
  }

  lemma PutKeepsWords(ms: seq<Member>, key: string, value: Value)
    requires WordsBelow(Obj(ms)) && Worded(value)
    ensures WordsBelow(Obj(Put(ms, key, value)))
  {
  }

  lemma SetKeepsWords(items: seq<Value>, i: nat, value: Value)
    requires WordsBelow(List(items)) && Worded(value)
    ensures Worded(List(Pad(items, i + 1)[i := value]))
  {
  }

  lemma ContainerHasWords(items: seq<Value>, i: nat, ms: seq<Member>, part: string, next: string)
    ensures WordsBelow(List(items)) ==> var c := ItemFor(Pad(items, i + 1)[i], next);
      WordsBelow(c) && (HasWord(c) || !IsDigits(next))
    ensures WordsBelow(Obj(ms)) ==> var c := MemberFor(ms, part, next);
      WordsBelow(c) && (HasWord(c) || !IsDigits(next))
  {
  }

  /** The value put into item `i` of a list has words below it. */
  lemma ListKeepsWords(items: seq<Value>, i: nat, parts: seq<string>, value: Value)
    requires parts != [] && Worded(value) && WordsBelow(List(items)) && Position(parts[0], |items|) == Ok(i)
    requires |parts| > 1 ==>
      var r := Insert(ItemFor(Pad(items, i + 1)[i], parts[1]), parts[1..], value); r.Ok? ==> Worded(r.value)
    ensures var r := Insert(List(items), parts, value); r.Ok? ==> Worded(r.value)
  {
    hide Worded, WordsBelow, Pad, Position, ItemFor;
    if |parts| == 1 {
      SetKeepsWords(items, i, value);
    } else {
      var r := Insert(ItemFor(Pad(items, i + 1)[i], parts[1]), parts[1..], value);
      if r.Ok? { SetKeepsWords(items, i, r.value); }
    }
  }

  /** So has the value put under the key of a dict, and the dict a word of its own if it or the key is one. */
  lemma MembersKeepWords(ms: seq<Member>, parts: seq<string>, value: Value)
    requires parts != [] && Worded(value) && WordsBelow(Obj(ms))
    requires |parts| > 1 ==>
      var r := Insert(MemberFor(ms, parts[0], parts[1]), parts[1..], value); r.Ok? ==> Worded(r.value)
    ensures var r := Insert(Obj(ms), parts, value);
      r.Ok? ==> WordsBelow(r.value) && (HasWord(Obj(ms)) || !IsDigits(parts[0]) ==> HasWord(r.value))
  {
    hide Worded, WordsBelow, HasWord, IsDigits, MemberFor, Put;
    var r := if |parts| == 1 then Ok(value) else Insert(MemberFor(ms, parts[0], parts[1]), parts[1..], value);
    if r.Ok? {
      PutKeepsWords(ms, parts[0], r.value);
      if HasWord(Obj(ms)) || !IsDigits(parts[0]) { PutHasWord(ms, parts[0], r.value); }
    }
  }

  lemma {:induction false} InsertKeepsWords(node: Value, parts: seq<string>, value: Value)
    requires parts != [] && IsLeaf(value) && WordsBelow(node)
    ensures match Insert(node, parts, value)
            case Raises(_) => true
            case Ok(r) => WordsBelow(r) && (HasWord(node) || !IsDigits(parts[0]) ==> HasWord(r))
    decreases |parts|
  {
    assert Worded(value);
    if node.List? && Position(parts[0], |node.items|).Ok? {
      var i := Position(parts[0], |node.items|).value;
      if |parts| > 1 {
        ContainerHasWords(node.items, i, [], parts[0], parts[1]);
        InsertKeepsWords(ItemFor(Pad(node.items, i + 1)[i], parts[1]), parts[1..], value);
      }
      hide Insert, WordsBelow, HasWord, IsDigits;
      ListKeepsWords(node.items, i, parts, value);
    } else if node.Obj? {
      if |parts| > 1 {
        ContainerHasWords([], 0, node.members, parts[0], parts[1]);
        InsertKeepsWords(MemberFor(node.members, parts[0], parts[1]), parts[1..], value);
      }
      hide Insert, WordsBelow, HasWord, IsDigits;
      MembersKeepWords(node.members, parts, value);
    }
  }

  lemma {:induction false} InsertAllKeepsWords(node: Value, flat: map<string, Value>, order: seq<string>)
    requires (forall k <- order :: k in flat && IsLeaf(flat[k])) && WordsBelow(node)
    ensures var r := InsertAll(node, flat, order); r.Ok? ==> WordsBelow(r.value)
    decreases |order|
  {
    if order != [] {
      InsertKeepsWords(node, Split(order[0], '.'), flat[order[0]]);
      var r := Insert(node, Split(order[0], '.'), flat[order[0]]);
      if r.Ok? { InsertAllKeepsWords(r.value, flat, order[1..]); }
    }
  }

  lemma {:induction false} NormalizeIdle(v: Value)
    requires WordsBelow(v)
    ensures Normalize(v) == Ok(v)
    decreases v, 1
  {
    match v {
      case Obj(ms) => NormalizeMembersIdle(ms);
      case List(items) => NormalizeItemsIdle(items);
      case _ =>
    }
  }

  lemma {:induction false} NormalizeMembersIdle(ms: seq<Member>)
    requires forall i :: 0 <= i < |ms| ==> HasWord(ms[i].value) && WordsBelow(ms[i].value)
    ensures NormalizeMembers(ms) == Ok(ms)
    decreases ms, 0
  {
    if ms != [] {
      NormalizeIdle(ms[0].value);
      NormalizeMembersIdle(ms[1..]);
      assert AsList(ms[0].value) == Ok(ms[0].value);
      assert [ms[0]] + ms[1..] == ms;
    }
  }

  lemma {:induction false} NormalizeItemsIdle(items: seq<Value>)
    requires forall i :: 0 <= i < |items| ==> WordsBelow(items[i])
    ensures NormalizeItems(items) == Ok(items)
    decreases items, 0
  {
    if items != [] {
      NormalizeIdle(items[0]);
      NormalizeItemsIdle(items[1..]);
      assert [items[0]] + items[1..] == items;
    }
  }

  /** `normalize_arrays` changes nothing on anything that `unflatten` builds, whatever the keys and
      the order in which they are visited. */
  lemma NormalizeArraysIsIdle(flat: map<string, Value>, order: seq<string>)
    requires forall k <- order :: k in flat && IsLeaf(flat[k])
    ensures Unflatten(flat, order) == InsertAll(Obj([]), flat, order)
  {
    InsertAllKeepsWords(Obj([]), flat, order);
    var r := InsertAll(Obj([]), flat, order);
    if r.Ok? { NormalizeIdle(r.value); }
  }

  // ---------------------------------------------------- what the pieces come to

  /** The text of a leaf: nothing for null, the text itself, decimal digits, True or False, the number as written. */
  lemma FlattenSays(v: Value, key: string)
    ensures key in Flatten(v) <==> key in FlattenValues(v, "")
    ensures key in Flatten(v) ==>
      var leaf, text := FlattenValues(v, "")[key], Flatten(v)[key];
      && (leaf == Null ==> text == "") && (leaf.Str? ==> text == leaf.text) && (leaf.Int? ==> text == IntText(leaf.number))
      && (leaf == Bool(true) ==> text == "True") && (leaf == Bool(false) ==> text == "False")
      && (leaf.Float? ==> text == leaf.literal) && !leaf.Obj? && !leaf.List?
  {
    FlattenedAreLeaves(v, "");
  }

  /** A negative index counts from the end of the list, and beyond its start raises. */
  lemma NegativeIndex(items: seq<Value>, part: string, value: Value)
    requires ParseInt(part).Some? && ParseInt(part).value < 0
    ensures var back := -ParseInt(part).value;
      Insert(List(items), [part], value)
      == if back <= |items| then Ok(List(items[|items| - back := value])) else Raises(IndexError)
  {
    hide ParseInt;
  }

  /** A part that is no integer raises in a list. */
  lemma NoIndex(items: seq<Value>, parts: seq<string>, value: Value)
    requires parts != [] && ParseInt(parts[0]).None?
    ensures Insert(List(items), parts, value) == Raises(ValueError)
  {
    hide ParseInt;
  }

  /** A dict that has exactly the keys 0, 1, 2, ... becomes the list of their values in numeric order; one whose keys are
      all numbers but not these raises; an empty one, and one with another key, stays. */
  lemma AsListSays(ms: seq<Member>)
    ensures ms == [] ==> AsList(Obj(ms)) == Ok(Obj([]))
    ensures (exists m <- ms :: !IsDigits(m.key)) ==> AsList(Obj(ms)) == Ok(Obj(ms))
    ensures ms != [] && (forall m <- ms :: IsDigits(m.key)) ==>
      if forall i :: 0 <= i < |ms| ==> Has(ms, NatText(i)) then
        && AsList(Obj(ms)).Ok? && AsList(Obj(ms)).value.List? && |AsList(Obj(ms)).value.items| == |ms|
        && forall i :: 0 <= i < |ms| ==> AsList(Obj(ms)).value.items[i] == Get(ms, NatText(i))
      else AsList(Obj(ms)) == Raises(KeyError)
  {
    hide IsDigits, NatText, Has, Get;
    assert AllDigits(ms) <==> ms != [] && forall m <- ms :: IsDigits(m.key);
  }
}
