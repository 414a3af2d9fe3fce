/** The process-local cache of embedding clients: least recently used clients are evicted and closed. */
module ModelCache {

  const MAX_EMBEDDING_MODELS := 8

  /** A built client: its number, and the key it was built for. */
  datatype Client<K> = Client(id: nat, key: K)

  /** The `OrderedDict`, oldest entry first. */
  datatype Entry<K> = Entry(key: K, client: Client<K>)

  ghost function KeysOf<K>(es: seq<Entry<K>>): seq<K> {
    if es == [] then [] else [es[0].key] + KeysOf(es[1..])
  }

  function Without<K(==)>(es: seq<Entry<K>>, key: K): seq<Entry<K>> {
    if es == [] then [] else (if es[0].key == key then [] else [es[0]]) + Without(es[1..], key)
  }

  /** `_cache.get(key)`. */
  function Find<K(==)>(es: seq<Entry<K>>, key: K): (i: nat)
    ensures i <= |es|
    ensures i < |es| ==> es[i].key == key
    ensures forall j :: 0 <= j < i ==> es[j].key != key
  {
    if es == [] || es[0].key == key then 0 else 1 + Find(es[1..], key)
  }

  /** `_cache[key] = client` and `move_to_end(key)`; with the client already cached, `move_to_end` alone. */
  function Stored<K(==)>(es: seq<Entry<K>>, key: K, client: Client<K>): seq<Entry<K>> {
    Without(es, key) + [Entry(key, client)]
  }

  /** The last `n` elements. */
  function Last<T>(s: seq<T>, n: nat): seq<T> {
    if |s| <= n then s else s[|s| - n..]
  }

  // ------------------------------------------------------------------ recency

  ghost function Minus<K>(s: seq<K>, key: K): seq<K> {
    if s == [] then [] else (if s[0] == key then [] else [s[0]]) + Minus(s[1..], key)
  }

  /** The keys of a history of requests, each once, in the order of their last request. */
  ghost function Recency<K>(history: seq<K>): seq<K> {
    if history == [] then [] else
      var n := |history| - 1;
      Minus(Recency(history[..n]), history[n]) + [history[n]]
  }

  /** The index of the last request of a key, or -1. */
  ghost function LastUse<K>(history: seq<K>, key: K): int {
    if history == [] then -1
    else if history[|history| - 1] == key then |history| - 1
    else LastUse(history[..|history| - 1], key)
  }

  /** Every key has its last request before those of all later keys. */
  ghost predicate Ascending<K>(s: seq<K>, history: seq<K>) {
    s == [] || ((forall k <- s[1..] :: LastUse(history, s[0]) < LastUse(history, k)) && Ascending(s[1..], history))
  }

  lemma {:induction false} MinusMembers<K>(s: seq<K>, key: K)
    ensures forall k :: k in Minus(s, key) <==> k in s && k != key
    ensures key !in s ==> Minus(s, key) == s
  {
    if s != [] {
      MinusMembers(s[1..], key);
      assert s == [s[0]] + s[1..];
    }
  }

  lemma {:induction false} MinusAscends<K>(s: seq<K>, key: K, history: seq<K>)
    requires Ascending(s, history)
    ensures Ascending(Minus(s, key), history)
  {
    hide LastUse;
    if s != [] {
      MinusAscends(s[1..], key, history);
      MinusMembers(s[1..], key);
      if s[0] == key {
        assert Minus(s, key) == Minus(s[1..], key);
      } else {
        assert Minus(s, key)[1..] == Minus(s[1..], key);
      }
    }
  }

  lemma {:induction false} MinusSize<K>(s: seq<K>, key: K, history: seq<K>)
    requires Ascending(s, history) && key in s
    ensures |Minus(s, key)| == |s| - 1
  {
    hide LastUse;
    MinusMembers(s[1..], key);
    if s[0] != key {
      assert key in s[1..];
      MinusSize(s[1..], key, history);
    }
  }

  lemma {:induction false} AscendingLater<K>(s: seq<K>, before: seq<K>, key: K)
    requires Ascending(s, before) && key !in s && forall k <- s :: LastUse(before, k) < |before|
    ensures Ascending(s + [key], before + [key])
  {
    if s == [] {
      assert (s + [key])[1..] == [];
    } else {
      AscendingLater(s[1..], before, key);
      assert (s + [key])[1..] == s[1..] + [key];
      forall k | k in s[1..] + [key] ensures LastUse(before + [key], s[0]) < LastUse(before + [key], k) {
        assert s[0] in s;
      }
    }
  }

  lemma {:induction false} LastUseBounded<K>(history: seq<K>, key: K)
    ensures LastUse(history, key) < |history|
    decreases |history|
  {
    if history != [] { LastUseBounded(history[..|history| - 1], key); }
  }

  /** Recency lists exactly the requested keys, by last request. */
  lemma {:induction false} RecencyAscends<K>(history: seq<K>)
    ensures Ascending(Recency(history), history)
    ensures forall k :: k in Recency(history) <==> k in history
    decreases |history|
  {
    if history != [] {
      var n := |history| - 1;
      var before, key := history[..n], history[n];
      assert history == before + [key];
      RecencyAscends(before);
      MinusAscends(Recency(before), key, before);
      MinusMembers(Recency(before), key);
      forall k | k in Minus(Recency(before), key) ensures LastUse(before, k) < |before| {
        LastUseBounded(before, k);
      }
      AscendingLater(Minus(Recency(before), key), before, key);
    }
  }

  ghost function Elements<K>(s: seq<K>): set<K> {
    set k | k in s
  }

  lemma {:induction false} AscendingDistinct<K>(s: seq<K>, history: seq<K>)
    requires Ascending(s, history)
    ensures |Elements(s)| == |s|
  {
    hide LastUse;
    if s != [] {
      AscendingDistinct(s[1..], history);
      assert s == [s[0]] + s[1..];
      assert Elements(s) == {s[0]} + Elements(s[1..]);
    }
  }

  ghost function Later<K>(s: seq<K>, history: seq<K>, key: K): set<K> {
    set k | k in s && LastUse(history, k) > LastUse(history, key)
  }

  /** In an ascending list the keys requested later than one of its keys are those behind it. */
  lemma {:induction false} LaterAreBehind<K>(s: seq<K>, history: seq<K>, p: nat)
    requires Ascending(s, history) && p < |s|
    ensures |Later(s, history, s[p])| == |s| - 1 - p
    decreases |s|
  {
    hide LastUse;
    assert s == [s[0]] + s[1..];
    if p == 0 {
      assert Later(s, history, s[0]) == Elements(s[1..]);
      AscendingDistinct(s[1..], history);
    } else {
      LaterAreBehind(s[1..], history, p - 1);
      assert s[p] == s[1..][p - 1] && s[p] in s[1..];
      assert Later(s, history, s[p]) == Later(s[1..], history, s[p]);
    }
  }

  /** The last 8 keys by recency are exactly the requested keys after whose last request fewer than 8 other
      keys were requested. */
  lemma CachedMeansRecent<K>(history: seq<K>, key: K)
    ensures (key in Last(Recency(history), 8)) <==>
        (key in history && |Later(history, history, key)| < 8)
  {
    var r := Recency(history);
    var skipped := |r| - |Last(r, MAX_EMBEDDING_MODELS)|;
    RecencyAscends(history);
    hide Recency, LastUse;
    assert Later(r, history, key) == Later(history, history, key);
    forall p: nat | p < |r| && r[p] == key
      ensures |Later(history, history, key)| == |r| - 1 - p
    {
      LaterAreBehind(r, history, p);
    }
    assert Last(r, MAX_EMBEDDING_MODELS) == r[skipped..];
  }

  lemma {:induction false} MinusAppend<K>(a: seq<K>, b: seq<K>, key: K)
    ensures Minus(a + b, key) == Minus(a, key) + Minus(b, key)
    decreases |a|
  {
    if a == [] {
      assert a + b == b;
    } else {
      assert (a + b)[1..] == a[1..] + b;
      MinusAppend(a[1..], b, key);
    }
  }

  lemma {:induction false} AscendingParts<K>(a: seq<K>, b: seq<K>, history: seq<K>)
    requires Ascending(a + b, history)
    ensures Ascending(a, history) && Ascending(b, history)
    ensures forall k :: k in b ==> k !in a
    decreases |a|
  {
    if a == [] {
      assert a + b == b;
    } else {
      assert (a + b)[1..] == a[1..] + b && (a + b)[0] == a[0];
      AscendingParts(a[1..], b, history);
      forall k | k in b ensures k !in a {
        assert k in a[1..] + b;
        assert LastUse(history, a[0]) < LastUse(history, k);
      }
      assert forall k :: k in a[1..] ==> k in a[1..] + b;
    }
  }

  /** Requesting a key keeps the cached keys the last 8 by recency. */
  lemma RequestKeepsLast<K>(recency: seq<K>, key: K, history: seq<K>)
    requires Ascending(recency, history)
    ensures var cached := Last(recency, 8);
      Last(Minus(cached, key) + [key], 8)
      == Last(Minus(recency, key) + [key], 8)
  {
    hide Ascending, Minus;
    var cached := Last(recency, MAX_EMBEDDING_MODELS);
    var dropped := recency[..|recency| - |cached|];
    assert recency == dropped + cached;
    MinusAppend(dropped, cached, key);
    AscendingParts(dropped, cached, history);
    assert Minus(recency, key) + [key] == Minus(dropped, key) + (Minus(cached, key) + [key]);
    MinusMembers(dropped, key);
    if key in cached {
      MinusSize(cached, key, history);
    } else {
      MinusMembers(cached, key);
    }
  }

  // ------------------------------------------------------------------- entries

  lemma {:induction false} StoredKeys<K>(es: seq<Entry<K>>, key: K, client: Client<K>)
    ensures KeysOf(Stored(es, key, client)) == Minus(KeysOf(es), key) + [key]
  {
    WithoutKeys(es, key);
    KeysOfAppend(Without(es, key), Entry(key, client));
  }

  lemma {:induction false} WithoutKeys<K>(es: seq<Entry<K>>, key: K)
    ensures KeysOf(Without(es, key)) == Minus(KeysOf(es), key)
  {
    if es != [] {
      WithoutKeys(es[1..], key);
      assert KeysOf(es)[1..] == KeysOf(es[1..]);
      if es[0].key == key {
        assert Without(es, key) == Without(es[1..], key);
        assert Minus(KeysOf(es), key) == Minus(KeysOf(es[1..]), key);
      } else {
        assert Without(es, key)[1..] == Without(es[1..], key);
      }
    }
  }

  lemma {:induction false} KeysOfAppend<K>(es: seq<Entry<K>>, e: Entry<K>)
    ensures KeysOf(es + [e]) == KeysOf(es) + [e.key]
  {
    if es == [] {
      assert es + [e] == [e];
      assert [e][1..] == [];
    } else {
      KeysOfAppend(es[1..], e);
      assert (es + [e])[1..] == es[1..] + [e];
    }
  }

  lemma {:induction false} KeysOfIndex<K>(es: seq<Entry<K>>)
    ensures |KeysOf(es)| == |es| && forall i :: 0 <= i < |es| ==> KeysOf(es)[i] == es[i].key
  {
    if es != [] { KeysOfIndex(es[1..]); }
  }

  lemma KeysOfLast<K>(es: seq<Entry<K>>, n: nat)
    ensures KeysOf(Last(es, n)) == Last(KeysOf(es), n)
  {
    KeysOfIndex(es);
    KeysOfIndex(Last(es, n));
  }

  lemma {:induction false} WithoutMembers<K>(es: seq<Entry<K>>, key: K)
    ensures forall e <- Without(es, key) :: e in es && e.key != key
    ensures Find(es, key) == |es| ==> Without(es, key) == es
  {
    if es != [] {
      WithoutMembers(es[1..], key);
      assert es == [es[0]] + es[1..];
    }
  }

  // ---------------------------------------------------------------- the cache

  /** Entries that hold open clients built for their keys. */
  ghost predicate Sound<K>(es: seq<Entry<K>>, closed: set<Client<K>>, built: nat) {
    && (forall e <- es :: e.client.key == e.key && e.client.id < built && e.client !in closed)
    && (forall c <- closed :: c.id < built)
  }

  /** One request: the entries afterwards, with `newest` the client that a miss builds. */
  function Requested<K(==)>(es: seq<Entry<K>>, key: K, newest: Client<K>): seq<Entry<K>> {
    var i := Find(es, key);
    if i < |es| then Stored(es, key, es[i].client) else Last(Stored(es, key, newest), MAX_EMBEDDING_MODELS)
  }

  lemma RequestRefines<K>(es: seq<Entry<K>>, key: K, newest: Client<K>, history: seq<K>)
    requires KeysOf(es) == Last(Recency(history), 8)
    ensures KeysOf(Requested(es, key, newest)) == Last(Recency(history + [key]), 8)
  {
    var i := Find(es, key);
    var client := if i < |es| then es[i].client else newest;
    assert (history + [key])[..|history|] == history;
    RecencyAscends(history);
    RequestKeepsLast(Recency(history), key, history);
    StoredKeys(es, key, client);
    KeysOfLast(Stored(es, key, client), MAX_EMBEDDING_MODELS);
    if i < |es| { HitKeepsSize(es, key, history); }
  }

  lemma HitKeepsSize<K>(es: seq<Entry<K>>, key: K, history: seq<K>)
    requires KeysOf(es) == Last(Recency(history), 8) && Find(es, key) < |es|
    ensures |Minus(KeysOf(es), key)| + 1 <= 8
  {
    var r, cached := Recency(history), KeysOf(es);
    RecencyAscends(history);
    KeysOfIndex(es);
    assert cached[Find(es, key)] == key;
    assert r == r[..|r| - |cached|] + cached;
    AscendingParts(r[..|r| - |cached|], cached, history);
    MinusSize(cached, key, history);
  }

  lemma SoundEntry<K>(es: seq<Entry<K>>, e: Entry<K>, closed: set<Client<K>>, built: nat)
    requires Sound(es, closed, built) && e in es
    ensures e.client.key == e.key && e.client !in closed && e.client.id < built
  {
  }

  /** Appending an entry with an open client, after dropping any entries, keeps the entries sound. */
  lemma SoundAppend<K>(es: seq<Entry<K>>, kept: seq<Entry<K>>, last: Entry<K>, closed: set<Client<K>>, built: nat)
    requires Sound(es, closed, built) && forall e <- kept :: e in es
    requires last.client.key == last.key && last.client !in closed && last.client.id < built
    ensures Sound(kept + [last], closed, built)
  {
    forall e | e in kept + [last] ensures e.client.key == e.key && e.client.id < built && e.client !in closed {
      assert e in kept || e == last;
    }
  }

  /** A hit keeps the entries sound. */
  lemma HitSound<K>(es: seq<Entry<K>>, key: K, closed: set<Client<K>>, built: nat)
    requires Sound(es, closed, built) && Find(es, key) < |es|
    ensures var client := es[Find(es, key)].client;
      client.key == key && client !in closed && Sound(Stored(es, key, client), closed, built)
  {
    WithoutMembers(es, key);
    var hit := es[Find(es, key)];
    hide Find, Without;
    assert hit in es;
    SoundEntry(es, hit, closed, built);
    forall e | e in Without(es, key) ensures e in es {}
    SoundAppend(es, Without(es, key), Entry(key, hit.client), closed, built);
  }

  /** The cached keys are distinct and at most 8. */
  lemma CachedDistinct<K>(es: seq<Entry<K>>, history: seq<K>)
    requires KeysOf(es) == Last(Recency(history), 8)
    ensures |es| <= 8
    ensures es != [] ==> forall e <- es[1..] :: e.key != es[0].key
  {
    KeysOfIndex(es);
    RecencyAscends(history);
    hide Recency, LastUse;
    var skipped := |Recency(history)| - |es|;
    assert Recency(history) == Recency(history)[..skipped] + KeysOf(es);
    AscendingParts(Recency(history)[..skipped], KeysOf(es), history);
    if es != [] {
      forall e | e in es[1..] ensures e.key != es[0].key {
        var i :| 0 <= i < |es[1..]| && es[1..][i] == e;
        assert KeysOf(es)[1..][i] == e.key;
      }
    }
  }

  /** Closing the first client closes no other entry's. */
  lemma EvictionSound<K>(es: seq<Entry<K>>, closed: set<Client<K>>, built: nat)
    requires es != [] && Sound(es, closed, built) && forall e <- es[1..] :: e.key != es[0].key
    ensures Sound(es[1..], closed + {es[0].client}, built)
  {
    SoundEntry(es, es[0], closed, built);
    forall e | e in es[1..]
      ensures e.client.key == e.key && e.client.id < built && e.client !in closed + {es[0].client}
    {
      SoundEntry(es, e, closed, built);
    }
  }

  /** A miss adds one entry, and closing the first of more than 8 closes no other entry's client. */
  lemma MissSound<K>(es: seq<Entry<K>>, key: K, closed: set<Client<K>>, built: nat)
    requires Sound(es, closed, built) && Find(es, key) == |es|
    requires es != [] ==> forall e <- es[1..] :: e.key != es[0].key
    ensures Stored(es, key, Client(built, key)) == es + [Entry(key, Client(built, key))]
    ensures Sound(es + [Entry(key, Client(built, key))], closed, built + 1)
    ensures es != [] ==>
      Sound(es[1..] + [Entry(key, Client(built, key))], closed + {es[0].client}, built + 1)
  {
    WithoutMembers(es, key);
    hide Find, Without;
    var last := Entry(key, Client(built, key));
    assert Sound(es, closed, built + 1) && last.client !in closed;
    if es != [] {
      EvictionSound(es, closed, built + 1);
      assert es[0].client.id < built by { SoundEntry(es, es[0], closed, built); }
    }
    hide Sound;
    SoundAppend(es, es, last, closed, built + 1);
    if es != [] {
      SoundAppend(es[1..], es[1..], last, closed + {es[0].client}, built + 1);
    }
  }

  /** The module's state used by one caller at a time. */
  class Cache<K(==)> {
    var entries: seq<Entry<K>>
    var closed: set<Client<K>>
    var built: nat
    ghost var history: seq<K>

    ghost predicate Valid()
      reads this
    {
      KeysOf(entries) == Last(Recency(history), 8) && Sound(entries, closed, built)
    }

    constructor ()
      ensures Valid() && entries == [] && closed == {} && built == 0 && history == []
    {
      entries, closed, built, history := [], {}, 0, [];
    }

    /** `get_embedding_model`: look-up, build and insert with nothing in between. */
    method GetEmbeddingModel(key: K) returns (client: Client<K>)
      requires Valid()
      modifies this
      ensures Valid() && history == old(history) + [key]
      ensures entries == Requested(old(entries), key, Client(old(built), key))
      ensures client.key == key && client !in closed && Entry(key, client) in entries
      ensures var hit := Find(old(entries), key);
        if hit < |old(entries)| then
          client == old(entries)[hit].client && closed == old(closed) && built == old(built)
        else
          && client == Client(old(built), key) && built == old(built) + 1
          && closed == old(closed)
               + if |old(entries)| >= 8 then {old(entries)[0].client} else {}
    {
      hide Find, Without, KeysOf, Recency, Sound;
      RequestRefines(entries, key, Client(built, key), history);
      var i := Find(entries, key);
      if i < |entries| {
        HitSound(entries, key, closed, built);
        client := entries[i].client;
        entries := Stored(entries, key, client);
        history := history + [key];
        assert entries[|entries| - 1] == Entry(key, client);
        return;
      }
      CachedDistinct(entries, history);
      MissSound(entries, key, closed, built);
      client := Client(built, key);
      built := built + 1;
      entries := Stored(entries, key, client);
      ghost var stored := entries;
      while |entries| > MAX_EMBEDDING_MODELS
        invariant |stored| <= MAX_EMBEDDING_MODELS + 1
        invariant entries == stored || (|stored| == MAX_EMBEDDING_MODELS + 1 && entries == stored[1..])
        invariant built == old(built) + 1 && history == old(history)
        invariant closed == old(closed) + if entries == stored then {} else {stored[0].client}
        decreases |entries|
      {
        closed := closed + {entries[0].client};
        entries := entries[1..];
      }
      history := history + [key];
      assert entries == Last(stored, MAX_EMBEDDING_MODELS);
      assert entries == stored || entries == old(entries)[1..] + [Entry(key, client)];
      assert entries[|entries| - 1] == Entry(key, client);
      SoundEntry(entries, Entry(key, client), closed, built);
    }

    /** `clear_embedding_models`: everything is dropped and closed. */
    method ClearEmbeddingModels()
      requires Valid()
      modifies this
      ensures Valid() && entries == [] && history == [] && built == old(built)
      ensures closed == old(closed) + set e | e in old(entries) :: e.client
    {
      history := [];
      ghost var all, n := entries, 0;
      while entries != []
        invariant n <= |all| && entries == all[n..] && built == old(built) && history == []
        invariant closed == old(closed) + set e | e in all[..n] :: e.client
        decreases |entries|
      {
        assert all[..n + 1] == all[..n] + [all[n]] && entries[0] == all[n];
        closed := closed + {entries[0].client};
        entries := entries[1..];
        n := n + 1;
      }
      assert all[..n] == all;
    }
  }
}
