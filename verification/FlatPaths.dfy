/** Dotted keys read as paths: which leaf of a dictionary a flat key names, and that flattening keeps exactly the
    leaves, each under the key that names it. */
module FlatPaths {
  import opened Text
  import opened Decimal
  import opened Dictionaries
  import opened FlatKeys

  type Path = seq<string>

  /** The child of a container under one part of a key. */
  ghost function Step(v: Value, part: string): Option<Value> {
    match v
    case Obj(ms) => if Has(ms, part) then Some(Get(ms, part)) else None
    case List(items) =>
      if IsNumeral(part) && NatOf(part) < |items| && NatText(NatOf(part)) == part
      then Some(items[NatOf(part)]) else None
    case _ => None
  }

  ghost function Node(v: Value, path: Path): Option<Value>
    decreases |path|
  {
    if path == [] then Some(v) else
      match Step(v, path[0])
      case None => None
      case Some(child) => Node(child, path[1..])
  }

  ghost function Find(v: Value, path: Path): Option<Value> {
    var node := Node(v, path);
    if node.Some? && IsLeaf(node.value) then node else None
  }

  predicate PlainKey(key: string) {
    key != "" && '.' !in key
  }

  /** Keys that are not empty and hold no dot, distinct in every object. */
  ghost predicate PlainKeys(v: Value)
    decreases v, 1
  {
    match v
    case Obj(ms) => PlainMembers(ms)
    case List(items) => forall i :: 0 <= i < |items| ==> PlainKeys(items[i])
    case _ => true
  }

  ghost predicate PlainMembers(ms: seq<Member>)
    decreases ms, 0
  {
    Distinct(ms) && forall i :: 0 <= i < |ms| ==> PlainKey(ms[i].key) && PlainKeys(ms[i].value)
  }

  ghost predicate PlainPath(path: Path) {
    forall part <- path :: PlainKey(part)
  }

  lemma NatTextIsPlain(n: nat)
    ensures PlainKey(NatText(n)) && IsNumeral(NatText(n)) && IsDigits(NatText(n)) && NatOf(NatText(n)) == n
  {
    NatRoundTrip(n);
    assert forall c <- NatText(n) :: IsDigit(c);
  }

  /** The prefix that stands for a path of plain keys. */
  ghost predicate Stands(prefix: string, path: Path) {
    if path == [] then prefix == "" else prefix != "" && Split(prefix, '.') == path
  }

  lemma ChildStands(prefix: string, path: Path, key: string)
    requires Stands(prefix, path) && PlainKey(key)
    ensures Stands(Child(prefix, key), path + [key])
  {
    if path == [] {
      SplitPlain(key, '.');
    } else {
      SplitLast(prefix, key, '.');
      assert prefix + "." + key == prefix + ['.'] + key;
    }
  }

  lemma SplitInjective(s: string, t: string)
    requires Split(s, '.') == Split(t, '.')
    ensures s == t
  {
    JoinSplit(s, '.');
    JoinSplit(t, '.');
  }

  /** The leaf that a flat key names below the node that stands at `path`. */
  ghost function Under(v: Value, path: Path, key: string): Option<Value> {
    var parts := Split(key, '.');
    if path <= parts then Find(v, parts[|path|..]) else None
  }

  ghost function Lookup<T>(m: map<string, T>, key: string): Option<T> {
    if key in m then Some(m[key]) else None
  }

  /** Flattening keeps exactly the leaves: a key is present with a value when its path names that leaf. */
  lemma {:induction false} FlattenFinds(v: Value, prefix: string, path: Path, key: string)
    requires PlainKeys(v) && Stands(prefix, path) && (path == [] ==> v.Obj?)
    ensures Lookup(FlattenValues(v, prefix), key) == Under(v, path, key)
    decreases v, 1
  {
    var parts := Split(key, '.');
    match v {
      case Obj(ms) =>
        FlattenMembersFinds(ms, prefix, path, key);
        if path <= parts && |path| < |parts| {
          assert parts[|path|..][1..] == parts[|path| + 1..];
        }
      case List(items) =>
        FlattenItemsFinds(items, prefix, path, key, 0);
        if path <= parts && |path| < |parts| {
          assert parts[|path|..][1..] == parts[|path| + 1..];
        }
      case _ =>
        if key == prefix {
          assert parts[|path|..] == [];
        } else if path <= parts && |parts| == |path| {
          assert parts == path;
          SplitInjective(key, prefix);
        }
    }
  }

  lemma {:induction false} FlattenMembersFinds(ms: seq<Member>, prefix: string, path: Path, key: string)
    requires PlainMembers(ms) && Stands(prefix, path)
    ensures var parts := Split(key, '.');
      Lookup(FlattenMembers(ms, prefix), key)
      == if path <= parts && |path| < |parts| && Has(ms, parts[|path|])
         then Find(Get(ms, parts[|path|]), parts[|path| + 1..]) else None
    decreases ms, 0
  {
    if ms != [] {
      var parts, first := Split(key, '.'), ms[0].key;
      ChildStands(prefix, path, first);
      FlattenFinds(ms[0].value, Child(prefix, first), path + [first], key);
      FlattenMembersFinds(ms[1..], prefix, path, key);
      UnderStep(ms[0].value, path, first, key);
      hide FlattenValues, Split, Find, Stands, Child, PlainKeys, Under;
      if path <= parts && |path| < |parts| { FirstMember(ms, parts[|path|]); }
    }
  }

  lemma UnderStep(v: Value, path: Path, part: string, key: string)
    ensures var parts := Split(key, '.');
      Under(v, path + [part], key)
      == if path <= parts && |path| < |parts| && parts[|path|] == part then Find(v, parts[|path| + 1..]) else None
  {
    hide Split, Find;
    var parts := Split(key, '.');
    if path <= parts && |path| < |parts| && parts[|path|] == part {
      assert path + [part] <= parts;
    }
  }

  lemma FirstMember(ms: seq<Member>, key: string)
    requires ms != [] && Distinct(ms)
    ensures Has(ms, key) <==> key == ms[0].key || Has(ms[1..], key)
    ensures Has(ms, key) ==> Get(ms, key) == if key == ms[0].key then ms[0].value else Get(ms[1..], key)
    ensures key == ms[0].key ==> !Has(ms[1..], key)
  {
    assert forall j :: 0 <= j < |ms[1..]| ==> ms[1..][j].key == ms[j + 1].key;
  }

  lemma {:induction false} FlattenItemsFinds(items: seq<Value>, prefix: string, path: Path, key: string, start: nat)
    requires (forall i :: 0 <= i < |items| ==> PlainKeys(items[i])) && Stands(prefix, path) && path != []
    ensures var parts := Split(key, '.');
      Lookup(FlattenItems(items, prefix, start), key)
      == if path <= parts && |path| < |parts| && IsNumeral(parts[|path|])
            && start <= NatOf(parts[|path|]) < start + |items| && NatText(NatOf(parts[|path|])) == parts[|path|]
         then Find(items[NatOf(parts[|path|]) - start], parts[|path| + 1..]) else None
    decreases items, 0
  {
    if items != [] {
      hide FlattenValues, Split, Find, PlainKeys, NatText, NatOf, IsNumeral, IsDigits, Under;
      var parts, first := Split(key, '.'), NatText(start);
      NatTextIsPlain(start);
      ChildStands(prefix, path, first);
      FlattenFinds(items[0], prefix + "." + first, path + [first], key);
      FlattenItemsFinds(items[1..], prefix, path, key, start + 1);
      UnderStep(items[0], path, first, key);
      hide Stands;
    }
  }

  lemma FlattenRoot(v: Value, key: string)
    requires PlainKeys(v) && v.Obj?
    ensures Lookup(FlattenValues(v, ""), key) == Find(v, Split(key, '.'))
  {
    FlattenFinds(v, "", [], key);
    assert Split(key, '.')[0..] == Split(key, '.');
  }

  /** Two dictionaries with the same leaves flatten alike. */
  lemma SameLeavesFlattenAlike(v: Value, m: map<string, Value>)
    requires PlainKeys(v) && v.Obj?
    requires forall key: string :: Find(v, Split(key, '.')) == Lookup(m, key)
    ensures FlattenValues(v, "") == m
  {
    var f := FlattenValues(v, "");
    forall key: string ensures Lookup(f, key) == Lookup(m, key) {
      FlattenRoot(v, key);
    }
    assert forall key :: key in f <==> key in m by {
      forall key: string ensures key in f <==> key in m { assert Lookup(f, key) == Lookup(m, key); }
    }
    forall key <- f ensures f[key] == m[key] { assert Lookup(f, key) == Lookup(m, key); }
  }
}
