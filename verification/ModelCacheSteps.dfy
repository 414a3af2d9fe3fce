/** The embedding-client cache used by many callers: the build lies between two locked steps. */
module ModelCacheSteps {
  import opened ModelCache
  import opened Text

  /** The identity of a resolved model: provider type, base URL, model name, key digest and timeout. */
  type Key = (string, string, string, string, string)

  /** Where a caller is inside `get_embedding_model`. */
  datatype Phase =
    | Idle
    | Missed(key: Key)
    | Built(client: Client<Key>)
    | Using(client: Client<Key>)

  /** `builds[i]` is the key client number `i` was built for; `closed` lists the clients in the order they
      were closed; `lost` lists the clients that a later insert of the same key replaced. */
  datatype State = State(
    entries: seq<Entry<Key>>,
    builds: seq<Key>,
    closed: seq<Client<Key>>,
    lost: seq<Client<Key>>,
    callers: seq<Phase>)

  datatype Action =
    | LookUp(i: nat, key: Key)
    | Build(i: nat)
    | BuildFails(i: nat)
    | Insert(i: nat)
    | Return(i: nat)
    | Clear

  function Init(callers: nat): State {
    State([], [], [], [], seq(callers, _ => Idle))
  }

  function Clients(es: seq<Entry<Key>>): seq<Client<Key>> {
    if es == [] then [] else [es[0].client] + Clients(es[1..])
  }

  predicate Enabled(s: State, a: Action) {
    match a
    case LookUp(i, _) => i < |s.callers| && s.callers[i].Idle?
    case Build(i) => i < |s.callers| && s.callers[i].Missed?
    case BuildFails(i) => i < |s.callers| && s.callers[i].Missed?
    case Insert(i) => i < |s.callers| && s.callers[i].Built?
    case Return(i) => i < |s.callers| && s.callers[i].Using?
    case Clear => true
  }

  function Move(s: State, i: nat, p: Phase): State
    requires i < |s.callers|
  {
    s.(callers := s.callers[i := p])
  }

  function Apply(s: State, a: Action): State
    requires Enabled(s, a)
  {
    match a
    case LookUp(i, key) =>
      var hit := Find(s.entries, key);
      if hit < |s.entries| then
        var client := s.entries[hit].client;
        Move(s, i, Using(client)).(entries := Stored(s.entries, key, client))
      else
        Move(s, i, Missed(key))
    case Build(i) =>
      var key := s.callers[i].key;
      Move(s, i, Built(Client(|s.builds|, key))).(builds := s.builds + [key])
    case BuildFails(i) => Move(s, i, Idle)
    case Insert(i) => Inserted(Move(s, i, Using(s.callers[i].client)), s.callers[i].client)
    case Return(i) => Move(s, i, Idle)
    case Clear => s.(entries := [], closed := s.closed + Clients(s.entries))
  }

  /** The client that storing under a key replaces, if any. */
  function Replaced(es: seq<Entry<Key>>, key: Key): seq<Client<Key>> {
    if Find(es, key) < |es| then [es[Find(es, key)].client] else []
  }

  /** The second locked step: store under the client's key, then evict and close down to 8. */
  function Inserted(s: State, client: Client<Key>): State {
    var stored := Stored(s.entries, client.key, client);
    var kept := Last(stored, MAX_EMBEDDING_MODELS);
    s.(entries := kept,
       closed := s.closed + Clients(stored[..|stored| - |kept|]),
       lost := s.lost + Replaced(s.entries, client.key))
  }

  /** The state after a run, or None when some action was not enabled. */
  ghost function Run(callers: nat, actions: seq<Action>): Option<State> {
    if actions == [] then Some(Init(callers)) else
      match Run(callers, actions[..|actions| - 1])
      case None => None
      case Some(s) =>
        var a := actions[|actions| - 1];
        if Enabled(s, a) then Some(Apply(s, a)) else None
  }

  // ---------------------------------------------------------------- accounting

  function Own(p: Phase): seq<Client<Key>> {
    if p.Built? then [p.client] else []
  }

  /** The clients built and not yet inserted. */
  function InFlight(callers: seq<Phase>): seq<Client<Key>> {
    if callers == [] then [] else Own(callers[0]) + InFlight(callers[1..])
  }

  /** How often a client is listed. */
  ghost function Times(clients: seq<Client<Key>>, c: Client<Key>): nat {
    if clients == [] then 0 else (if clients[0] == c then 1 else 0) + Times(clients[1..], c)
  }

  /** In how many places a client is: cached, closed, in flight or lost. */
  ghost function Places(s: State, c: Client<Key>): nat {
    Times(Clients(s.entries), c) + Times(s.closed, c) + Times(InFlight(s.callers), c) + Times(s.lost, c)
  }

  ghost predicate WasBuilt(s: State, c: Client<Key>) {
    c.id < |s.builds| && s.builds[c.id] == c.key
  }

  /** Every client ever built is in exactly one place, once, and nothing else is anywhere. */
  ghost predicate Conserved(s: State) {
    forall c :: Places(s, c) == if WasBuilt(s, c) then 1 else 0
  }

  ghost predicate DistinctKeys(es: seq<Entry<Key>>) {
    forall i, j :: 0 <= i < j < |es| ==> es[i].key != es[j].key
  }

  ghost predicate Shaped(es: seq<Entry<Key>>) {
    DistinctKeys(es) && forall e <- es :: e.client.key == e.key
  }

  ghost predicate Inv(s: State) {
    |s.entries| <= 8 && Shaped(s.entries) && Conserved(s)
  }

  lemma {:induction false} TimesAppend(a: seq<Client<Key>>, b: seq<Client<Key>>, c: Client<Key>)
    ensures Times(a + b, c) == Times(a, c) + Times(b, c)
    decreases |a|
  {
    if a == [] {
      assert a + b == b;
    } else {
      assert (a + b)[1..] == a[1..] + b;
      TimesAppend(a[1..], b, c);
    }
  }

  lemma TimesOne(x: Client<Key>, c: Client<Key>)
    ensures Times([x], c) == if x == c then 1 else 0
  {
    assert [x][1..] == [];
  }

  lemma {:induction false} ClientsAppend(a: seq<Entry<Key>>, b: seq<Entry<Key>>)
    ensures Clients(a + b) == Clients(a) + Clients(b)
    decreases |a|
  {
    if a == [] {
      assert a + b == b;
    } else {
      assert (a + b)[1..] == a[1..] + b;
      ClientsAppend(a[1..], b);
    }
  }

  lemma {:induction false} InFlightUpdate(callers: seq<Phase>, i: nat, p: Phase, c: Client<Key>)
    requires i < |callers|
    ensures Times(InFlight(callers[i := p]), c) + Times(Own(callers[i]), c)
         == Times(InFlight(callers), c) + Times(Own(p), c)
    decreases |callers|
  {
    hide Times, Own;
    var rest := callers[1..];
    TimesAppend(Own(callers[0]), InFlight(rest), c);
    if i == 0 {
      assert callers[i := p][1..] == rest;
      TimesAppend(Own(p), InFlight(rest), c);
    } else {
      InFlightUpdate(rest, i - 1, p, c);
      assert callers[i := p][1..] == rest[i - 1 := p];
      TimesAppend(Own(callers[0]), InFlight(rest[i - 1 := p]), c);
    }
  }

  lemma {:induction false} AbsentWithout(es: seq<Entry<Key>>, key: Key)
    requires forall i :: 0 <= i < |es| ==> es[i].key != key
    ensures Without(es, key) == es
  {
    if es != [] { AbsentWithout(es[1..], key); }
  }

  /** Storing a client replaces the one found under its key, if any. */
  lemma {:induction false} WithoutClients(es: seq<Entry<Key>>, key: Key, c: Client<Key>)
    requires DistinctKeys(es)
    ensures Times(Clients(Without(es, key)), c) + Times(Replaced(es, key), c) == Times(Clients(es), c)
    decreases |es|
  {
    if es != [] {
      var rest := es[1..];
      assert Clients(es)[1..] == Clients(rest);
      if es[0].key == key {
        AbsentWithout(rest, key);
        assert Without(es, key) == rest;
        TimesOne(es[0].client, c);
      } else {
        WithoutClients(rest, key, c);
        assert Replaced(es, key) == Replaced(rest, key);
        assert Without(es, key)[1..] == Without(rest, key);
        assert Clients(Without(es, key))[1..] == Clients(Without(rest, key));
      }
    }
  }

  lemma StoredClients(es: seq<Entry<Key>>, key: Key, client: Client<Key>, c: Client<Key>)
    requires DistinctKeys(es)
    ensures Times(Clients(Stored(es, key, client)), c) + Times(Replaced(es, key), c)
         == Times(Clients(es), c) + Times([client], c)
  {
    WithoutClients(es, key, c);
    ClientsAppend(Without(es, key), [Entry(key, client)]);
    assert [Entry(key, client)][1..] == [] && Clients([Entry(key, client)]) == [client];
    TimesAppend(Clients(Without(es, key)), [client], c);
  }

  lemma {:induction false} WithoutLength(es: seq<Entry<Key>>, key: Key)
    requires DistinctKeys(es)
    ensures |Without(es, key)| == if Find(es, key) < |es| then |es| - 1 else |es|
    ensures forall e <- Without(es, key) :: e in es && e.key != key
    decreases |es|
  {
    if es != [] {
      WithoutLength(es[1..], key);
      if es[0].key == key { AbsentWithout(es[1..], key); }
    }
  }

  lemma {:induction false} WithoutShaped(es: seq<Entry<Key>>, key: Key)
    requires Shaped(es)
    ensures Shaped(Without(es, key))
    decreases |es|
  {
    WithoutLength(es, key);
    hide Find;
    if es != [] {
      var rest := es[1..];
      assert forall e <- rest :: e in es;
      WithoutShaped(rest, key);
      if es[0].key != key {
        WithoutLength(rest, key);
        forall e | e in Without(rest, key) ensures e.key != es[0].key {
          var i :| 0 <= i < |rest| && rest[i] == e;
          assert es[i + 1] == e;
        }
        assert Without(es, key) == [es[0]] + Without(rest, key);
      } else {
        assert Without(es, key) == Without(rest, key);
      }
    }
  }

  /** Storing keeps the keys distinct and each client under its own key, adding at most one entry. */
  lemma StoredShaped(es: seq<Entry<Key>>, key: Key, client: Client<Key>)
    requires Shaped(es) && client.key == key
    ensures Shaped(Stored(es, key, client))
    ensures |Stored(es, key, client)| == if Find(es, key) < |es| then |es| else |es| + 1
  {
    WithoutShaped(es, key);
    WithoutLength(es, key);
    hide Find, Without;
    var kept := Without(es, key);
    var stored := Stored(es, key, client);
    forall e | e in stored ensures e.client.key == e.key {
      assert e in kept || e == Entry(key, client);
    }
    forall a, b | 0 <= a < b < |stored| ensures stored[a].key != stored[b].key {
      assert stored[a] == kept[a] && kept[a] in kept;
    }
  }

  lemma LookUpKeeps(s: State, i: nat, key: Key)
    requires Inv(s) && Enabled(s, LookUp(i, key))
    ensures Inv(Apply(s, LookUp(i, key)))
  {
    var hit := Find(s.entries, key);
    var t := Apply(s, LookUp(i, key));
    if hit < |s.entries| {
      assert s.entries[hit] in s.entries;
      StoredShaped(s.entries, key, s.entries[hit].client);
    }
    forall c ensures Places(t, c) == Places(s, c) {
      InFlightUpdate(s.callers, i, t.callers[i], c);
      if hit < |s.entries| { StoredClients(s.entries, key, s.entries[hit].client, c); }
    }
    hide Find, Stored, Clients, InFlight, Times;
    assert Conserved(t);
  }

  lemma BuildKeeps(s: State, i: nat)
    requires Inv(s) && Enabled(s, Build(i))
    ensures Inv(Apply(s, Build(i)))
  {
    var client := Client(|s.builds|, s.callers[i].key);
    var t := Apply(s, Build(i));
    forall c ensures Places(t, c) == Places(s, c) + if c == client then 1 else 0 {
      InFlightUpdate(s.callers, i, Built(client), c);
      TimesOne(client, c);
    }
    hide Clients, InFlight, Times;
    assert Conserved(t);
  }

  lemma InsertPlaces(s: State, i: nat, c: Client<Key>)
    requires Inv(s) && Enabled(s, Insert(i))
    ensures Places(Apply(s, Insert(i)), c) == Places(s, c)
  {
    var client := s.callers[i].client;
    var stored := Stored(s.entries, client.key, client);
    var kept := Last(stored, MAX_EMBEDDING_MODELS);
    var dropped := stored[..|stored| - |kept|];
    InFlightUpdate(s.callers, i, Using(client), c);
    StoredClients(s.entries, client.key, client, c);
    hide Find, Stored, Clients, InFlight, Times, Replaced;
    assert stored == dropped + kept;
    ClientsAppend(dropped, kept);
    TimesAppend(Clients(dropped), Clients(kept), c);
    TimesAppend(s.closed, Clients(dropped), c);
    TimesAppend(s.lost, Replaced(s.entries, client.key), c);
  }

  /** In flight, a client carries the key it was built for; inserting it keeps the entries in shape. */
  lemma InsertKeeps(s: State, i: nat)
    requires Inv(s) && Enabled(s, Insert(i))
    ensures Inv(Apply(s, Insert(i)))
  {
    var client := s.callers[i].client;
    var t := Apply(s, Insert(i));
    StoredShaped(s.entries, client.key, client);
    var stored := Stored(s.entries, client.key, client);
    assert forall e <- t.entries :: e in stored;
    assert Shaped(t.entries);
    forall c ensures Places(t, c) == Places(s, c) {
      InsertPlaces(s, i, c);
    }
    hide Find, Stored, Clients, InFlight, Times, Shaped;
    assert Conserved(t);
  }

  lemma MoveKeeps(s: State, i: nat, p: Phase)
    requires Inv(s) && i < |s.callers| && Own(s.callers[i]) == Own(p) == []
    ensures Inv(Move(s, i, p))
  {
    forall c ensures Places(Move(s, i, p), c) == Places(s, c) {
      InFlightUpdate(s.callers, i, p, c);
    }
  }

  lemma ClearKeeps(s: State)
    requires Inv(s)
    ensures Inv(Apply(s, Clear))
  {
    forall c ensures Places(Apply(s, Clear), c) == Places(s, c) {
      TimesAppend(s.closed, Clients(s.entries), c);
    }
  }

  lemma StepKeeps(s: State, a: Action)
    requires Inv(s) && Enabled(s, a)
    ensures Inv(Apply(s, a))
  {
    hide Inv;
    match a
    case LookUp(i, key) => LookUpKeeps(s, i, key);
    case Build(i) => BuildKeeps(s, i);
    case BuildFails(i) => MoveKeeps(s, i, Idle);
    case Insert(i) => InsertKeeps(s, i);
    case Return(i) => MoveKeeps(s, i, Idle);
    case Clear => ClearKeeps(s);
  }

  lemma {:induction false} NoneInFlight(callers: seq<Phase>)
    requires forall i :: 0 <= i < |callers| ==> callers[i].Idle?
    ensures InFlight(callers) == []
  {
    if callers != [] { NoneInFlight(callers[1..]); }
  }

  /** In every interleaving of any number of callers, at every moment: at most 8 entries with distinct keys,
      each holding a client built for its key, and every client in exactly one place. */
  lemma {:induction false} RunsConserve(callers: nat, actions: seq<Action>)
    requires Run(callers, actions).Some?
    ensures Inv(Run(callers, actions).value)
    decreases |actions|
  {
    if actions == [] {
      NoneInFlight(Init(callers).callers);
    } else {
      var n := |actions| - 1;
      RunsConserve(callers, actions[..n]);
      StepKeeps(Run(callers, actions[..n]).value, actions[n]);
    }
  }

  // ------------------------------------------------------------- consequences

  lemma StepKeepsLost(s: State, a: Action)
    requires Enabled(s, a)
    ensures s.lost <= Apply(s, a).lost
  {
    hide Find, Stored, Clients;
  }

  lemma {:induction false} LostGrows(callers: nat, actions: seq<Action>, n: nat)
    requires Run(callers, actions).Some? && n <= |actions|
    ensures Run(callers, actions[..n]).Some?
    ensures Run(callers, actions[..n]).value.lost <= Run(callers, actions).value.lost
    decreases |actions|
  {
    hide Apply, Enabled;
    if n < |actions| {
      var before := actions[..|actions| - 1];
      LostGrows(callers, before, n);
      assert actions[..n] == before[..n];
      StepKeepsLost(Run(callers, before).value, actions[|actions| - 1]);
    } else {
      assert actions[..n] == actions;
    }
  }

  lemma {:induction false} TimesMember(clients: seq<Client<Key>>, c: Client<Key>)
    ensures c in clients <==> Times(clients, c) > 0
  {
    if clients != [] {
      TimesMember(clients[1..], c);
      assert clients == [clients[0]] + clients[1..];
    }
  }

  /** No client is ever closed twice, and one that a same-key insert replaced is never closed at all. */
  lemma ClosedOnceLostNever(callers: nat, actions: seq<Action>, n: nat, c: Client<Key>)
    requires Run(callers, actions).Some? && n <= |actions|
    ensures Times(Run(callers, actions).value.closed, c) <= 1
    ensures Run(callers, actions[..n]).Some?
    ensures c in Run(callers, actions[..n]).value.lost ==> c !in Run(callers, actions).value.closed
  {
    LostGrows(callers, actions, n);
    RunsConserve(callers, actions);
    var s := Run(callers, actions).value;
    assert Places(s, c) <= 1;
    TimesMember(s.lost, c);
    TimesMember(s.closed, c);
  }

  /** A caller that missed and has not inserted yet is working on a key. */
  ghost predicate Pending(p: Phase, key: Key) {
    (p.Missed? && p.key == key) || (p.Built? && p.client.key == key)
  }

  /** Two callers are building for the same key at once. */
  ghost predicate Overlap(s: State) {
    exists i, j, key :: 0 <= i < j < |s.callers| && Pending(s.callers[i], key) && Pending(s.callers[j], key)
  }

  ghost predicate Apart(s: State) {
    && s.lost == []
    && forall i, key :: 0 <= i < |s.callers| && Pending(s.callers[i], key) ==> Find(s.entries, key) == |s.entries|
  }

  lemma {:induction false} FindAbsent(es: seq<Entry<Key>>, key: Key)
    ensures Find(es, key) == |es| <==> forall e <- es :: e.key != key
  {
    if es != [] {
      FindAbsent(es[1..], key);
      assert es == [es[0]] + es[1..];
    }
  }

  lemma ApartStep(s: State, a: Action)
    requires Inv(s) && Apart(s) && !Overlap(s) && Enabled(s, a)
    ensures Apart(Apply(s, a))
  {
    var t := Apply(s, a);
    forall i, key | 0 <= i < |t.callers| && Pending(t.callers[i], key)
      ensures Find(t.entries, key) == |t.entries|
    {
      FindAbsent(t.entries, key);
      FindAbsent(s.entries, key);
      forall e | e in t.entries ensures e.key != key {
        NewEntries(s, a, i, key, e);
      }
    }
  }

  lemma NewEntries(s: State, a: Action, i: nat, key: Key, e: Entry<Key>)
    requires Inv(s) && Apart(s) && !Overlap(s) && Enabled(s, a)
    requires i < |s.callers| && Pending(Apply(s, a).callers[i], key) && e in Apply(s, a).entries
    ensures e.key != key
  {
    FindAbsent(s.entries, key);
    match a
    case LookUp(j, k) =>
      WithoutLength(s.entries, k);
      if Find(s.entries, k) < |s.entries| {
        assert Pending(s.callers[i], key);
        assert e in Without(s.entries, k) || e.key == k;
      }
    case Insert(j) =>
      var client := s.callers[j].client;
      WithoutLength(s.entries, client.key);
      assert e in Stored(s.entries, client.key, client);
      assert e in Without(s.entries, client.key) || e.key == client.key;
      assert Pending(s.callers[j], client.key) && Pending(s.callers[i], key);
    case _ =>
  }

  // ------------------------------------------------------ exactly what is lost

  /** The action stores under a key that is cached at that moment. */
  predicate Replaces(s: State, a: Action) {
    a.Insert? && Enabled(s, a) && Find(s.entries, s.callers[a.i].client.key) < |s.entries|
  }

  lemma LostStep(s: State, a: Action)
    requires Enabled(s, a)
    ensures Apply(s, a).lost == s.lost <==> !Replaces(s, a)
    ensures s.lost <= Apply(s, a).lost
  {
    hide Find, Stored, Clients;
  }

  /** A run loses a client exactly when at some moment it stores under a key that is cached. */
  lemma {:induction false} LostExactly(callers: nat, actions: seq<Action>)
    requires Run(callers, actions).Some?
    ensures Run(callers, actions).value.lost != [] <==>
        exists n :: 0 <= n < |actions| && Run(callers, actions[..n]).Some?
                    && Replaces(Run(callers, actions[..n]).value, actions[n])
    decreases |actions|
  {
    hide Apply, Replaces, Enabled;
    if actions != [] {
      var m := |actions| - 1;
      var before := actions[..m];
      LostExactly(callers, before);
      LostStep(Run(callers, before).value, actions[m]);
      assert forall n :: 0 <= n < m ==> before[..n] == actions[..n] && before[n] == actions[n];
    }
  }

  lemma RunLonger(callers: nat, actions: seq<Action>, s: State, a: Action)
    requires Run(callers, actions) == Some(s) && Enabled(s, a)
    ensures Run(callers, actions + [a]) == Some(Apply(s, a))
  {
    assert (actions + [a])[..|actions|] == actions;
  }

  /** Two callers that ask for one key at once, and the second insert. */
  function TwoMisses(key: Key): seq<Action> {
    [LookUp(0, key)] + [LookUp(1, key)] + [Build(0)] + [Build(1)] + [Insert(0)] + [Insert(1)]
  }

  lemma StoredOne(key: Key, client: Client<Key>, later: Client<Key>)
    ensures Find([], key) == 0 && Stored([], key, client) == [Entry(key, client)]
    ensures Find([Entry(key, client)], key) == 0
    ensures Stored([Entry(key, client)], key, later) == [Entry(key, later)]
  {
    assert [Entry(key, client)][1..] == [];
  }

  lemma NothingOut()
    ensures Clients([]) == []
  {
  }

  /** A run that loses a client: the first caller uses it, it is not cached, and it is not closed. */
  lemma TwoMissesLose(key: Key)
    ensures var first, second := Client(0, key), Client(1, key);
      Run(2, TwoMisses(key))
      == Some(State([Entry(key, second)], [key, key], [], [first], [Using(first), Using(second)]))
  {
    var first, second := Client(0, key), Client(1, key);
    StoredOne(key, first, second);
    hide Find, Stored;
    var s0 := State([], [], [], [], [Idle, Idle]);
    assert Init(2) == s0 && Run(2, []) == Some(s0);
    var s1 := State([], [], [], [], [Missed(key), Idle]);
    assert Apply(s0, LookUp(0, key)) == s1;
    RunLonger(2, [], s0, LookUp(0, key));
    assert [] + [LookUp(0, key)] == [LookUp(0, key)];
    var s2 := State([], [], [], [], [Missed(key), Missed(key)]);
    assert Apply(s1, LookUp(1, key)) == s2;
    RunLonger(2, [LookUp(0, key)], s1, LookUp(1, key));
    var a2 := [LookUp(0, key)] + [LookUp(1, key)];
    TwoBuilds(key, a2, s2);
    hide Run, Apply;
    TwoInserts(key, a2 + [Build(0)] + [Build(1)]);
  }

  lemma TwoBuilds(key: Key, actions: seq<Action>, s: State)
    requires Run(2, actions) == Some(s) && s == State([], [], [], [], [Missed(key), Missed(key)])
    ensures Run(2, actions + [Build(0)] + [Build(1)])
         == Some(State([], [key, key], [], [], [Built(Client(0, key)), Built(Client(1, key))]))
  {
    var t := State([], [key], [], [], [Built(Client(0, key)), Missed(key)]);
    assert Apply(s, Build(0)) == t;
    hide Run;
    RunLonger(2, actions, s, Build(0));
    RunLonger(2, actions + [Build(0)], t, Build(1));
    assert [key] + [key] == [key, key];
    assert t.callers[1 := Built(Client(1, key))] == [Built(Client(0, key)), Built(Client(1, key))];
  }

  lemma TwoInserts(key: Key, actions: seq<Action>)
    requires Run(2, actions) == Some(State([], [key, key], [], [], [Built(Client(0, key)), Built(Client(1, key))]))
    ensures Run(2, actions + [Insert(0)] + [Insert(1)])
         == Some(State([Entry(key, Client(1, key))], [key, key], [], [Client(0, key)],
                       [Using(Client(0, key)), Using(Client(1, key))]))
  {
    var first, second := Client(0, key), Client(1, key);
    var s := State([], [key, key], [], [], [Built(first), Built(second)]);
    var t := State([Entry(key, first)], [key, key], [], [], [Using(first), Built(second)]);
    StoredOne(key, first, second);
    hide Find, Stored, Run;
    assert Apply(s, Insert(0)) == t;
    RunLonger(2, actions, s, Insert(0));
    RunLonger(2, actions + [Insert(0)], t, Insert(1));
    assert t.callers[1 := Using(second)] == [Using(first), Using(second)];
    assert Replaced(t.entries, key) == [first] && [] + [first] == [first];
    NothingOut();
  }

  // ---------------------------------------------------- exactly what is closed

  /** The action closes the client: everything cached is cleared, or the client is the oldest of 8 when a new key
      is stored. */
  predicate Closes(s: State, a: Action, c: Client<Key>) {
    || (a.Clear? && exists e <- s.entries :: e.client == c)
    || (a.Insert? && Enabled(s, a) && |s.entries| >= 8
        && Find(s.entries, s.callers[a.i].client.key) == |s.entries| && c == s.entries[0].client)
  }

  lemma {:induction false} ClientsMember(es: seq<Entry<Key>>, c: Client<Key>)
    ensures c in Clients(es) <==> exists e <- es :: e.client == c
  {
    if es != [] {
      ClientsMember(es[1..], c);
      assert es == [es[0]] + es[1..];
      assert Clients(es) == [es[0].client] + Clients(es[1..]);
      assert es[0] in es;
    }
  }

  /** What storing under a key pushes out of the cache. */
  lemma PushedOut(es: seq<Entry<Key>>, key: Key, client: Client<Key>)
    requires Shaped(es) && |es| <= 8 && client.key == key
    ensures var stored := Stored(es, key, client);
      var out := stored[..|stored| - |Last(stored, MAX_EMBEDDING_MODELS)|];
      Clients(out)
      == if |es| == 8 && Find(es, key) == |es| then [es[0].client] else []
  {
    StoredShaped(es, key, client);
    if Find(es, key) == |es| {
      AbsentWithout(es, key);
      hide Find, Without;
      assert Stored(es, key, client) == es + [Entry(key, client)];
      if |es| == MAX_EMBEDDING_MODELS { assert (es + [Entry(key, client)])[..1] == [es[0]] && [es[0]][1..] == []; }
    }
  }

  lemma ClosedStep(s: State, a: Action, c: Client<Key>)
    requires Inv(s) && Enabled(s, a)
    ensures c in Apply(s, a).closed <==> c in s.closed || Closes(s, a, c)
  {
    match a
    case Insert(i) =>
      PushedOut(s.entries, s.callers[i].client.key, s.callers[i].client);
      hide Find, Stored, Clients, Inv;
    case Clear =>
      ClientsMember(s.entries, c);
      hide Clients, Inv;
    case _ =>
      hide Find, Stored, Clients, Inv;
  }

  /** A run closes a client, used by a caller or not, exactly when at some moment it is cleared or pushed out. */
  lemma {:induction false} ClosedExactly(callers: nat, actions: seq<Action>, c: Client<Key>)
    requires Run(callers, actions).Some?
    ensures c in Run(callers, actions).value.closed <==>
        exists n :: 0 <= n < |actions| && Run(callers, actions[..n]).Some?
                    && Closes(Run(callers, actions[..n]).value, actions[n], c)
    decreases |actions|
  {
    hide Apply, Closes, Enabled, Inv;
    if actions != [] {
      var m := |actions| - 1;
      var before := actions[..m];
      ClosedExactly(callers, before, c);
      RunsConserve(callers, before);
      ClosedStep(Run(callers, before).value, actions[m], c);
      assert forall n :: 0 <= n < m ==> before[..n] == actions[..n] && before[n] == actions[n];
    }
  }

  /** Some caller is using the client. */
  ghost predicate InUse(s: State, c: Client<Key>) {
    exists i :: 0 <= i < |s.callers| && s.callers[i] == Using(c)
  }

  lemma CachedIsOpen(s: State, e: Entry<Key>)
    requires Inv(s) && e in s.entries
    ensures e.client !in s.closed
  {
    var c := e.client;
    assert Places(s, c) <= 1;
    ClientsMember(s.entries, c);
    TimesMember(Clients(s.entries), c);
    TimesMember(s.closed, c);
  }

  /** Whatever a caller is handed, on a hit or after a build, is cached and open. */
  lemma HandedOpen(s: State, a: Action)
    requires Inv(s) && Enabled(s, a) && (a.LookUp? || a.Insert?)
    ensures var t := Apply(s, a);
      t.callers[a.i].Using? ==>
        && t.callers[a.i].client !in t.closed
        && exists e <- t.entries :: e.client == t.callers[a.i].client
  {
    StepKeeps(s, a);
    hide Inv, Find, Without, Clients;
    var t := Apply(s, a);
    if t.callers[a.i].Using? {
      var e := t.entries[|t.entries| - 1];
      assert e.client == t.callers[a.i].client;
      CachedIsOpen(t, e);
    }
  }

  lemma ClosedInUseStep(s: State, a: Action, c: Client<Key>)
    requires Inv(s) && Enabled(s, a)
    ensures var t := Apply(s, a);
      InUse(t, c) && c in t.closed ==> InUse(s, c) && (c in s.closed || Closes(s, a, c))
    ensures var t := Apply(s, a);
      InUse(s, c) && Closes(s, a, c) ==> InUse(t, c) && c in t.closed
  {
    ClosedStep(s, a, c);
    if a.LookUp? || a.Insert? { HandedOpen(s, a); }
    var t := Apply(s, a);
    hide Find, Stored, Clients, Inv;
    if InUse(t, c) && c in t.closed {
      var j :| 0 <= j < |t.callers| && t.callers[j] == Using(c);
      assert s.callers[j] == Using(c);
    }
    if InUse(s, c) && Closes(s, a, c) {
      var j :| 0 <= j < |s.callers| && s.callers[j] == Using(c);
      assert t.callers[j] == Using(c);
    }
  }

  /** At some moment of a run a caller is using a closed client exactly when at some moment the client is cleared
      or pushed out under a caller that is using it. */
  lemma {:induction false} ClosedInUseExactly(callers: nat, actions: seq<Action>, c: Client<Key>)
    requires Run(callers, actions).Some?
    ensures
      (exists n :: 0 <= n <= |actions| && Run(callers, actions[..n]).Some?
                   && InUse(Run(callers, actions[..n]).value, c) && c in Run(callers, actions[..n]).value.closed)
      <==>
      (exists n :: 0 <= n < |actions| && Run(callers, actions[..n]).Some?
                   && InUse(Run(callers, actions[..n]).value, c)
                   && Closes(Run(callers, actions[..n]).value, actions[n], c))
    decreases |actions|
  {
    hide Apply, Closes, Enabled, Inv, InUse;
    if actions == [] {
      assert forall n :: 0 <= n <= |actions| ==> actions[..n] == [];
    } else {
      var m := |actions| - 1;
      var before := actions[..m];
      ClosedInUseExactly(callers, before, c);
      RunsConserve(callers, before);
      ClosedInUseStep(Run(callers, before).value, actions[m], c);
      assert forall n :: 0 <= n <= m ==> before[..n] == actions[..n];
      assert before[..m] == before && actions[..m + 1] == actions;
    }
  }

  /** A run that closes the client a caller is using. */
  lemma ClearClosesUsed(key: Key)
    ensures var client := Client(0, key);
      Run(1, [LookUp(0, key)] + [Build(0)] + [Insert(0)] + [Clear]) == Some(State([], [key], [client], [], [Using(client)]))
  {
    var client := Client(0, key);
    StoredOne(key, client, client);
    NothingOut();
    var s0, s1 := State([], [], [], [], [Idle]), State([], [], [], [], [Missed(key)]);
    var s2 := State([], [key], [], [], [Built(client)]);
    var s3 := State([Entry(key, client)], [key], [], [], [Using(client)]);
    assert Init(1) == s0 && Run(1, []) == Some(s0);
    hide Find, Stored, Run;
    assert Apply(s0, LookUp(0, key)) == s1;
    RunLonger(1, [], s0, LookUp(0, key));
    assert [] + [LookUp(0, key)] == [LookUp(0, key)];
    assert Apply(s1, Build(0)) == s2;
    RunLonger(1, [LookUp(0, key)], s1, Build(0));
    assert Apply(s2, Insert(0)) == s3;
    RunLonger(1, [LookUp(0, key)] + [Build(0)], s2, Insert(0));
    assert Clients(s3.entries) == [client] by { assert [Entry(key, client)][1..] == []; }
    hide Clients;
    RunLonger(1, [LookUp(0, key)] + [Build(0)] + [Insert(0)], s3, Clear);
    assert s3.closed + [client] == [client];
  }

  /** Clients are only ever lost when two callers build for the same key at once. */
  lemma {:induction false} LossNeedsOverlap(callers: nat, actions: seq<Action>)
    requires Run(callers, actions).Some? && Run(callers, actions).value.lost != []
    ensures exists n :: 0 <= n < |actions| && Run(callers, actions[..n]).Some?
                        && Overlap(Run(callers, actions[..n]).value)
  {
    if forall n :: 0 <= n < |actions| && Run(callers, actions[..n]).Some?
                   ==> !Overlap(Run(callers, actions[..n]).value) {
      ApartRun(callers, actions);
      assert false;
    }
  }

  lemma {:induction false} ApartRun(callers: nat, actions: seq<Action>)
    requires Run(callers, actions).Some?
    requires forall n :: 0 <= n < |actions| && Run(callers, actions[..n]).Some?
                         ==> !Overlap(Run(callers, actions[..n]).value)
    ensures Apart(Run(callers, actions).value)
    decreases |actions|
  {
    if actions != [] {
      var before := actions[..|actions| - 1];
      forall n | 0 <= n < |before| && Run(callers, before[..n]).Some?
        ensures !Overlap(Run(callers, before[..n]).value)
      {
        assert before[..n] == actions[..n];
      }
      ApartRun(callers, before);
      RunsConserve(callers, before);
      ApartStep(Run(callers, before).value, actions[|actions| - 1]);
    }
  }

  /** And then they are: of two callers that have built for the same key, the one that inserts second
      replaces the client of the first, which goes on using it, and nothing will close it. */
  lemma OverlapLoses(s: State, i: nat, j: nat)
    requires Inv(s) && i != j && Enabled(s, Insert(i)) && Enabled(s, Insert(j))
    requires s.callers[i].client.key == s.callers[j].client.key
    ensures var client := s.callers[i].client;
      var first := Apply(s, Insert(i));
      && Enabled(first, Insert(j))
      && var t := Apply(first, Insert(j));
      && t.lost == first.lost + [client] && t.callers[i] == Using(client) && t.closed == first.closed
  {
    var client := s.callers[i].client;
    var first := Apply(s, Insert(i));
    InsertKeeps(s, i);
    var p := |first.entries| - 1;
    assert first.entries[p] == Entry(client.key, client);
    var hit := Find(first.entries, client.key);
    assert hit == p;
    StoredShaped(first.entries, client.key, s.callers[j].client);
  }

  /** With nothing in between, look-up, build and insert are one request of the sequential cache. */
  lemma UninterruptedIsRequest(s: State, i: nat, key: Key)
    requires Inv(s) && Enabled(s, LookUp(i, key))
    ensures var t := Apply(s, LookUp(i, key));
      var u := if t.callers[i].Missed? then Apply(Apply(t, Build(i)), Insert(i)) else t;
      && u.entries == Requested(s.entries, key, Client(|s.builds|, key))
      && u.callers[i].Using? && u.callers[i].client.key == key && u.lost == s.lost
  {
    if Find(s.entries, key) < |s.entries| {
      assert s.entries[Find(s.entries, key)] in s.entries;
    }
  }
}
