/** Embedding batches: calls under a semaphore, audit rows afterwards. */
module EmbedFunnel {
  import opened Text

  type Vectors = seq<seq<real>>

  datatype Batch = Batch(texts: seq<string>, tokens: Option<nat>, tags: Option<string>)

  /** What one provider call does. */
  datatype Reply = Embedded(vectors: Vectors) | Failure(error: string)

  datatype Outcome = Outcome(vectors: Option<Vectors>, error: Option<string>, tokens: Option<nat>)

  /** One audit row of the ledger. */
  datatype Row = Row(provider: string, model: string, texts: nat, shape: Option<(nat, nat)>, tokens: Option<nat>,
                     ok: bool, error: string, tags: Option<string>)

  /** The batches of the call, the permits, the resolved model, and what the provider would answer to
      attempt `a` of batch `i`. */
  datatype Config = Config(batches: seq<Batch>, concurrency: nat, provider: string, model: string,
                           reply: (nat, nat) -> Reply)
  {
    function Attempts(): nat {
      if provider == "mock" then 1 else EMBED_ATTEMPTS
    }

    ghost predicate Valid() { concurrency >= 1 }
  }

  const EMBED_ATTEMPTS := 3

  /** `max(int(concurrency), 1)`, or the automatic choice: 1 on SQLite and 4 elsewhere. */
  function Permits(concurrency: Option<int>, configured: Option<int>, sqlite: bool): (n: nat)
    ensures n >= 1
    ensures forall c :: c >= 1 && (concurrency == Some(c) || (concurrency == None && configured == Some(c))) ==> n == c
    ensures forall c :: c <= 1 && (concurrency == Some(c) || (concurrency == None && configured == Some(c))) ==> n == 1
    ensures concurrency == None && configured == None ==> n == if sqlite then 1 else 4
  {
    match concurrency
    case Some(c) => if c > 1 then c else 1
    case None =>
      match configured
      case Some(c) => if c > 1 then c else 1
      case None => if sqlite then 1 else 4
  }

  // ------------------------------------------------------------ sequential parts

  /** The outcome of a batch from attempt `a` on. */
  ghost function OutcomeFrom(c: Config, i: nat, a: nat): Outcome
    requires i < |c.batches| && a < c.Attempts()
    decreases c.Attempts() - a
  {
    match c.reply(i, a)
    case Embedded(vs) => Outcome(Some(vs), None, c.batches[i].tokens)
    case Failure(error) =>
      if a + 1 >= c.Attempts() then Outcome(None, Some(error), c.batches[i].tokens) else OutcomeFrom(c, i, a + 1)
  }

  ghost function OutcomeOf(c: Config, i: nat): Outcome
    requires i < |c.batches|
  {
    OutcomeFrom(c, i, 0)
  }

  /** The retry loop of `_run_batch`. */
  method RunBatch(c: Config, i: nat) returns (outcome: Outcome)
    requires i < |c.batches|
    ensures outcome == OutcomeOf(c, i)
  {
    var lastError := "";
    for attempt := 0 to c.Attempts()
      invariant attempt < c.Attempts() ==> OutcomeFrom(c, i, attempt) == OutcomeOf(c, i)
      invariant attempt == c.Attempts() ==> OutcomeOf(c, i) == Outcome(None, Some(lastError), c.batches[i].tokens)
    {
      match c.reply(i, attempt) {
        case Embedded(vs) => return Outcome(Some(vs), None, c.batches[i].tokens);
        case Failure(error) => lastError := error;
      }
    }
    outcome := Outcome(None, Some(lastError), c.batches[i].tokens);
  }

  function Dimension(vs: Vectors): nat {
    if vs == [] then 0 else |vs[0]|
  }

  function First(s: string, n: nat): string {
    if |s| <= n then s else s[..n]
  }

  /** The row of one outcome; a failed batch records no token count and no provider type. */
  function RowFor(c: Config, batch: Batch, outcome: Outcome): Row {
    match outcome.vectors
    case Some(vs) =>
      Row(c.provider, c.model, |batch.texts|, Some((|vs|, Dimension(vs))), outcome.tokens, true, "", batch.tags)
    case None =>
      Row("unknown", c.model, |batch.texts|, None, None, false,
          First(if outcome.error.Some? then outcome.error.value else "", 1000), batch.tags)
  }

  // ------------------------------------------------------------- the machine

  datatype Phase =
    | Waiting                    // for a permit
    | Trying(attempt: nat)       // holds a permit, the call is under way
    | Sleeping(attempt: nat)     // holds a permit, backs off after a failed attempt
    | Settled(outcome: Outcome)

  datatype State = State(phases: seq<Phase>, audit: seq<Row>)

  datatype Action = Acquire(i: nat) | Attempt(i: nat) | Wake(i: nat) | Audit

  ghost function Init(c: Config): State {
    State(seq(|c.batches|, _ => Waiting), [])
  }

  ghost predicate Holds(p: Phase) {
    p.Trying? || p.Sleeping?
  }

  ghost function Holders(phases: seq<Phase>): nat {
    if phases == [] then 0 else (if Holds(phases[0]) then 1 else 0) + Holders(phases[1..])
  }

  ghost predicate AllSettled(s: State) {
    forall i :: 0 <= i < |s.phases| ==> s.phases[i].Settled?
  }

  ghost predicate Enabled(c: Config, s: State, a: Action) {
    match a
    case Acquire(i) => i < |s.phases| && s.phases[i].Waiting? && Holders(s.phases) < c.concurrency
    case Attempt(i) => i < |s.phases| && s.phases[i].Trying?
    case Wake(i) => i < |s.phases| && s.phases[i].Sleeping?
    case Audit => AllSettled(s) && |s.audit| < |s.phases|
  }

  ghost function Apply(c: Config, s: State, a: Action): State
    requires |s.phases| == |c.batches| && Enabled(c, s, a)
  {
    match a
    case Acquire(i) => s.(phases := s.phases[i := Trying(0)])
    case Attempt(i) =>
      var attempt := s.phases[i].attempt;
      (match c.reply(i, attempt)
       case Embedded(vs) => s.(phases := s.phases[i := Settled(Outcome(Some(vs), None, c.batches[i].tokens))])
       case Failure(error) =>
         if attempt + 1 >= c.Attempts()
         then s.(phases := s.phases[i := Settled(Outcome(None, Some(error), c.batches[i].tokens))])
         else s.(phases := s.phases[i := Sleeping(attempt)]))
    case Wake(i) => s.(phases := s.phases[i := Trying(s.phases[i].attempt + 1)])
    case Audit => s.(audit := s.audit + [RowFor(c, c.batches[|s.audit|], s.phases[|s.audit|].outcome)])
  }

  /** The state after a run, or None when some action was not enabled. */
  ghost function Run(c: Config, actions: seq<Action>): (s: Option<State>)
    ensures s.Some? ==> |s.value.phases| == |c.batches|
  {
    if actions == [] then Some(Init(c)) else
      match Run(c, actions[..|actions| - 1])
      case None => None
      case Some(s) =>
        var a := actions[|actions| - 1];
        if Enabled(c, s, a) then Some(Apply(c, s, a)) else None
  }

  // ---------------------------------------------------------------- invariant

  /** The phase of a batch agrees with the replies so far. */
  ghost predicate PhaseOk(c: Config, i: nat, p: Phase)
    requires i < |c.batches|
  {
    match p
    case Waiting => true
    case Trying(a) => a < c.Attempts() && OutcomeFrom(c, i, a) == OutcomeOf(c, i)
    case Sleeping(a) => a + 1 < c.Attempts() && OutcomeFrom(c, i, a + 1) == OutcomeOf(c, i)
    case Settled(o) => o == OutcomeOf(c, i)
  }

  ghost predicate Inv(c: Config, s: State)
    requires |s.phases| == |c.batches|
  {
    && Holders(s.phases) <= c.concurrency
    && (forall i :: 0 <= i < |s.phases| ==> PhaseOk(c, i, s.phases[i]))
    && (s.audit != [] ==> AllSettled(s))
    && |s.audit| <= |c.batches|
    && (forall k :: 0 <= k < |s.audit| ==> s.audit[k] == RowFor(c, c.batches[k], OutcomeOf(c, k)))
  }

  lemma {:induction false} HoldersUpdate(phases: seq<Phase>, i: nat, p: Phase)
    requires i < |phases|
    ensures Holders(phases[i := p])
         == Holders(phases) - (if Holds(phases[i]) then 1 else 0) + (if Holds(p) then 1 else 0)
    decreases |phases|
  {
    if i == 0 {
      assert phases[i := p][1..] == phases[1..];
    } else {
      HoldersUpdate(phases[1..], i - 1, p);
      assert phases[i := p][1..] == phases[1..][i - 1 := p];
    }
  }

  lemma PhaseStep(c: Config, s: State, a: Action)
    requires |s.phases| == |c.batches| && Inv(c, s) && Enabled(c, s, a) && !a.Audit?
    ensures var p := Apply(c, s, a).phases[a.i];
      && Apply(c, s, a) == s.(phases := s.phases[a.i := p])
      && PhaseOk(c, a.i, p) && s.audit == []
      && (Holds(p) ==> Holds(s.phases[a.i]) || Holders(s.phases) < c.concurrency)
  {
    assert PhaseOk(c, a.i, s.phases[a.i]) && !s.phases[a.i].Settled?;
  }

  lemma InvStep(c: Config, s: State, a: Action)
    requires c.Valid() && |s.phases| == |c.batches| && Inv(c, s) && Enabled(c, s, a)
    ensures Inv(c, Apply(c, s, a))
  {
    if !a.Audit? {
      PhaseStep(c, s, a);
      HoldersUpdate(s.phases, a.i, Apply(c, s, a).phases[a.i]);
      hide Apply, PhaseOk, RowFor, OutcomeFrom, Holders;
    }
  }

  lemma {:induction false} NobodyHolds(phases: seq<Phase>)
    requires forall i :: 0 <= i < |phases| ==> !Holds(phases[i])
    ensures Holders(phases) == 0
  {
    if phases != [] { NobodyHolds(phases[1..]); }
  }

  /** In every interleaving, at every moment: no more holders than permits, no audit row before all batches
      are settled, every settled batch with its own outcome, and the rows in input order. */
  lemma {:induction false} RunIsSafe(c: Config, actions: seq<Action>)
    requires c.Valid() && Run(c, actions).Some?
    ensures Inv(c, Run(c, actions).value)
    decreases |actions|
  {
    if actions == [] {
      NobodyHolds(Init(c).phases);
    } else {
      RunIsSafe(c, actions[..|actions| - 1]);
      InvStep(c, Run(c, actions[..|actions| - 1]).value, actions[|actions| - 1]);
    }
  }

  // ----------------------------------------------------------------- attempts

  /** How often a run calls the provider for a batch. */
  ghost function Tries(actions: seq<Action>, i: nat): nat {
    if actions == [] then 0 else
      Tries(actions[..|actions| - 1], i) + if actions[|actions| - 1] == Attempt(i) then 1 else 0
  }

  ghost predicate TriesOk(c: Config, tries: nat, p: Phase) {
    match p
    case Waiting => tries == 0
    case Trying(a) => tries == a < c.Attempts()
    case Sleeping(a) => tries == a + 1 < c.Attempts()
    case Settled(o) => 1 <= tries <= c.Attempts() && (o.error.Some? ==> tries == c.Attempts())
  }

  /** Each batch is tried at most three times, once when the provider is the mock; a batch that ends with an error has
      been tried that often. */
  lemma {:induction false} TriesAreBounded(c: Config, actions: seq<Action>, i: nat)
    requires c.Valid() && Run(c, actions).Some? && i < |c.batches|
    ensures TriesOk(c, Tries(actions, i), Run(c, actions).value.phases[i])
    ensures Tries(actions, i) <= c.Attempts() <= 3 && (c.provider == "mock" ==> Tries(actions, i) <= 1)
    ensures var p := Run(c, actions).value.phases[i];
      p.Settled? && p.outcome.error.Some? ==> Tries(actions, i) == if c.provider == "mock" then 1 else 3
    decreases |actions|
  {
    if actions != [] { TriesAreBounded(c, actions[..|actions| - 1], i); }
  }

  // -------------------------------------------------------------- termination

  ghost function Work(c: Config, p: Phase): nat {
    match p
    case Waiting => 2 * c.Attempts() + 2
    case Trying(a) => if a < c.Attempts() then 2 * (c.Attempts() - a) + 1 else 1
    case Sleeping(a) => if a < c.Attempts() then 2 * (c.Attempts() - a) else 2
    case Settled(_) => 0
  }

  ghost function WorkLeft(c: Config, phases: seq<Phase>): nat {
    if phases == [] then 0 else Work(c, phases[0]) + WorkLeft(c, phases[1..])
  }

  ghost function Measure(c: Config, s: State): int {
    WorkLeft(c, s.phases) + |c.batches| - |s.audit|
  }

  lemma {:induction false} WorkUpdate(c: Config, phases: seq<Phase>, i: nat, p: Phase)
    requires i < |phases|
    ensures WorkLeft(c, phases[i := p]) == WorkLeft(c, phases) - Work(c, phases[i]) + Work(c, p)
    decreases |phases|
  {
    if i == 0 {
      assert phases[i := p][1..] == phases[1..];
    } else {
      WorkUpdate(c, phases[1..], i - 1, p);
      assert phases[i := p][1..] == phases[1..][i - 1 := p];
    }
  }

  lemma StepDecreases(c: Config, s: State, a: Action)
    requires |s.phases| == |c.batches| && Inv(c, s) && Enabled(c, s, a)
    ensures Measure(c, Apply(c, s, a)) < Measure(c, s)
  {
    if !a.Audit? {
      assert PhaseOk(c, a.i, s.phases[a.i]);
      WorkUpdate(c, s.phases, a.i, Apply(c, s, a).phases[a.i]);
    }
  }

  lemma {:induction false} WorkAtStart(c: Config, n: nat)
    ensures WorkLeft(c, seq(n, _ => Waiting)) == n * (2 * c.Attempts() + 2)
  {
    if n > 0 {
      WorkAtStart(c, n - 1);
      assert seq(n, _ => Waiting)[1..] == seq(n - 1, _ => Waiting);
      assert n * (2 * c.Attempts() + 2) == (n - 1) * (2 * c.Attempts() + 2) + (2 * c.Attempts() + 2);
    }
  }

  lemma Product(n: nat, k: nat)
    requires k <= 8
    ensures n * k + n <= 9 * n
  {
    assert n * k <= n * 8;
  }

  /** No run is longer than nine steps a batch. */
  lemma {:induction false} RunsEnd(c: Config, actions: seq<Action>)
    requires c.Valid() && Run(c, actions).Some?
    ensures |actions| + Measure(c, Run(c, actions).value) <= Measure(c, Init(c))
    ensures |actions| <= 9 * |c.batches|
    decreases |actions|
  {
    RunIsSafe(c, actions);
    WorkAtStart(c, |c.batches|);
    Product(|c.batches|, 2 * c.Attempts() + 2);
    hide Apply, PhaseOk, RowFor, OutcomeFrom, Holders, Inv, Enabled, WorkLeft;
    if actions != [] {
      var before := actions[..|actions| - 1];
      RunIsSafe(c, before);
      RunsEnd(c, before);
      StepDecreases(c, Run(c, before).value, actions[|actions| - 1]);
    }
  }

  ghost predicate Done(s: State) {
    AllSettled(s) && |s.audit| == |s.phases|
  }

  lemma {:induction false} SomeHolder(phases: seq<Phase>) returns (i: nat)
    requires Holders(phases) > 0
    ensures i < |phases| && Holds(phases[i])
    decreases |phases|
  {
    if Holds(phases[0]) {
      i := 0;
    } else {
      i := SomeHolder(phases[1..]);
      i := i + 1;
    }
  }

  /** As long as the call is not done, some step can be taken: a permit is free or its holder can move. */
  lemma NeverStuck(c: Config, actions: seq<Action>) returns (a: Action)
    requires c.Valid() && Run(c, actions).Some? && !Done(Run(c, actions).value)
    ensures Enabled(c, Run(c, actions).value, a)
    ensures Run(c, actions + [a]).Some?
  {
    var s := Run(c, actions).value;
    RunIsSafe(c, actions);
    if AllSettled(s) {
      a := Audit;
    } else if Holders(s.phases) > 0 {
      var i := SomeHolder(s.phases);
      a := if s.phases[i].Trying? then Attempt(i) else Wake(i);
    } else {
      var i :| 0 <= i < |s.phases| && !s.phases[i].Settled?;
      if Holds(s.phases[i]) { HolderCounts(s.phases, i); }
      a := Acquire(i);
    }
    assert (actions + [a])[..|actions|] == actions;
  }

  lemma {:induction false} HolderCounts(phases: seq<Phase>, i: nat)
    requires i < |phases| && Holds(phases[i])
    ensures Holders(phases) > 0
    decreases |phases|
  {
    if i > 0 { HolderCounts(phases[1..], i - 1); }
  }

  // ------------------------------------------------------------------- result

  /** What came back for a batch: the vectors of its first attempt that succeeded, after failures only; or,
      when every allowed attempt failed, the error of the last one. Never both, never neither. */
  lemma {:induction false} OutcomeIsFirstSuccess(c: Config, i: nat, a: nat)
    requires i < |c.batches| && a < c.Attempts()
    ensures var o := OutcomeFrom(c, i, a);
      && o.tokens == c.batches[i].tokens
      && (o.vectors.Some? <==> o.error.None?)
      && (o.vectors.Some? <==> exists n :: a <= n < c.Attempts() && c.reply(i, n).Embedded?)
      && (o.vectors.Some? ==> exists n :: a <= n < c.Attempts() && c.reply(i, n) == Embedded(o.vectors.value)
                                && forall m :: a <= m < n ==> c.reply(i, m).Failure?)
      && (o.error.Some? ==> c.reply(i, c.Attempts() - 1) == Failure(o.error.value))
    decreases c.Attempts() - a
  {
    if c.reply(i, a).Embedded? {
      assert c.reply(i, a) == Embedded(OutcomeFrom(c, i, a).vectors.value);
    } else if a + 1 < c.Attempts() {
      OutcomeIsFirstSuccess(c, i, a + 1);
      var o := OutcomeFrom(c, i, a + 1);
      if o.vectors.Some? {
        var n :| a + 1 <= n < c.Attempts() && c.reply(i, n) == Embedded(o.vectors.value)
                 && forall m :: a + 1 <= m < n ==> c.reply(i, m).Failure?;
        assert forall m :: a <= m < n ==> c.reply(i, m).Failure?;
      }
    }
  }

  /** When the call is done, its results and its audit rows are the same for every interleaving: result `i`
      belongs to batch `i`, and there is exactly one row a batch, in input order. */
  lemma ResultsAreDetermined(c: Config, actions: seq<Action>)
    requires c.Valid() && Run(c, actions).Some? && Done(Run(c, actions).value)
    ensures var s := Run(c, actions).value;
      && s.phases == seq(|c.batches|, i requires 0 <= i < |c.batches| => Settled(OutcomeOf(c, i)))
      && s.audit == seq(|c.batches|, i requires 0 <= i < |c.batches| => RowFor(c, c.batches[i], OutcomeOf(c, i)))
  {
    RunIsSafe(c, actions);
    var s := Run(c, actions).value;
    assert forall i :: 0 <= i < |s.phases| ==> PhaseOk(c, i, s.phases[i]);
  }

  /** Some call of the batch succeeded: the first for the mock, one of the first three for any other provider. */
  ghost predicate Succeeds(c: Config, i: nat) {
    exists n :: 0 <= n < (if c.provider == "mock" then 1 else 3) && c.reply(i, n).Embedded?
  }

  /** What the audit row of a batch says: of a success the provider, the number and the width of the vectors and the
      batch's tokens; of a failure the last error, cut at 1000 characters, and no tokens. */
  ghost predicate RowTells(c: Config, i: nat, row: Row, o: Outcome)
    requires i < |c.batches|
  {
    && row.texts == |c.batches[i].texts| && row.tags == c.batches[i].tags && row.model == c.model
    && (row.ok <==> Succeeds(c, i))
    && (row.ok ==>
          && row.provider == c.provider && row.tokens == c.batches[i].tokens && row.error == ""
          && o.vectors.Some? && row.shape.Some? && row.shape.value.0 == |o.vectors.value|
          && row.shape.value.1 == if o.vectors.value == [] then 0 else |o.vectors.value[0]|)
    && (!row.ok ==>
          && row.provider == "unknown" && row.tokens == None && row.shape == None
          && c.reply(i, if c.provider == "mock" then 0 else 2).Failure?
          && var error := c.reply(i, if c.provider == "mock" then 0 else 2).error;
             row.error == if |error| > 1000 then error[..1000] else error)
  }

  /** When the call is done there is one row a batch, in input order, and each tells its batch's outcome. */
  lemma RowsTell(c: Config, actions: seq<Action>)
    requires c.Valid() && Run(c, actions).Some? && Done(Run(c, actions).value)
    ensures var s := Run(c, actions).value;
      && |s.audit| == |c.batches|
      && forall i :: 0 <= i < |c.batches| ==> s.phases[i].Settled? && RowTells(c, i, s.audit[i], s.phases[i].outcome)
  {
    ResultsAreDetermined(c, actions);
    hide Run;
    var s := Run(c, actions).value;
    forall i | 0 <= i < |c.batches|
      ensures s.phases[i].Settled? && RowTells(c, i, s.audit[i], s.phases[i].outcome)
    {
      OutcomeTells(c, i);
    }
  }

  lemma OutcomeTells(c: Config, i: nat)
    requires i < |c.batches|
    ensures RowTells(c, i, RowFor(c, c.batches[i], OutcomeOf(c, i)), OutcomeOf(c, i))
  {
    OutcomeIsFirstSuccess(c, i, 0);
    hide OutcomeFrom;
  }

  /** Left to itself, a call on SQLite has one request under way at a time, and elsewhere never more than four. */
  lemma AutomaticPermits(c: Config, sqlite: bool, actions: seq<Action>)
    requires c.concurrency == Permits(None, None, sqlite) && Run(c, actions).Some?
    ensures Holders(Run(c, actions).value.phases) <= if sqlite then 1 else 4
  {
    RunIsSafe(c, actions);
  }
}
