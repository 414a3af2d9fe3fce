/** Translation dictionaries: the nested values that the translation manager reads, merges and prints, with their
    members in the order of insertion, as a Python dict keeps them. */
module Dictionaries {

  /** A Python dict is kept in insertion order, as a sequence of members with distinct keys.
      `Null` is Python's `None`; a float is known by its text. */
  datatype Value =
    | Null
    | Str(text: string)
    | Int(number: int)
    | Bool(flag: bool)
    | Float(literal: string)
    | List(items: seq<Value>)
    | Obj(members: seq<Member>)

  datatype Member = Member(key: string, value: Value)

  predicate IsLeaf(v: Value) {
    !v.List? && !v.Obj?
  }

  /** The position of a key, or the number of members when it is absent. */
  function IndexOf(ms: seq<Member>, key: string): (i: nat)
    ensures i <= |ms|
    ensures i < |ms| ==> ms[i].key == key
    ensures forall j :: 0 <= j < i ==> ms[j].key != key
  {
    if ms == [] || ms[0].key == key then 0 else 1 + IndexOf(ms[1..], key)
  }

  predicate Has(ms: seq<Member>, key: string) {
    IndexOf(ms, key) < |ms|
  }

  function Get(ms: seq<Member>, key: string): Value
    requires Has(ms, key)
  {
    ms[IndexOf(ms, key)].value
  }

  /** `d[key] = value`: an existing key keeps its place, a new one goes to the end. */
  function Put(ms: seq<Member>, key: string, value: Value): (r: seq<Member>)
  {
    var i := IndexOf(ms, key);
    if i < |ms| then ms[i := Member(key, value)] else ms + [Member(key, value)]
  }

  ghost predicate Distinct(ms: seq<Member>) {
    forall i, j :: 0 <= i < j < |ms| ==> ms[i].key != ms[j].key
  }

  lemma IndexOfMember(ms: seq<Member>, i: nat)
    requires Distinct(ms) && i < |ms|
    ensures IndexOf(ms, ms[i].key) == i
  {
    var j := IndexOf(ms, ms[i].key);
    assert j <= i;
  }

  lemma PutGet(ms: seq<Member>, key: string, value: Value, other: string)
    ensures Has(Put(ms, key, value), other) <==> other == key || Has(ms, other)
    ensures Has(Put(ms, key, value), other) ==>
              Get(Put(ms, key, value), other) == if other == key then value else Get(ms, other)
  {
    var r, i := Put(ms, key, value), IndexOf(ms, other);
    assert forall j :: 0 <= j < |ms| ==> r[j].key == ms[j].key;
    if i < |ms| {
      assert r[i].key == other;
    }
    if other == key && IndexOf(ms, key) == |ms| {
      assert r[|ms|].key == key;
    }
  }

  lemma PutDistinct(ms: seq<Member>, key: string, value: Value)
    requires Distinct(ms)
    ensures Distinct(Put(ms, key, value))
  {
  }
}
