/** Token budgets: admission against the ledger of past calls, and what the ledger can then come to. */
module Budgets {
  import opened Text

  datatype Moment = Moment(year: int, month: int, day: int, micros: int)

  /** A UTC time: the micros count from midnight. */
  type Instant = m: Moment | 1 <= m.day && 0 <= m.micros witness Moment(1970, 1, 1, 0)

  predicate NotAfter(a: Instant, b: Instant) {
    a.year < b.year || (a.year == b.year &&
      (a.month < b.month || (a.month == b.month &&
        (a.day < b.day || (a.day == b.day && a.micros <= b.micros)))))
  }

  /** Times are ordered as they follow each other. */
  lemma TimesAreOrdered(a: Instant, b: Instant, c: Instant)
    ensures NotAfter(a, b) || NotAfter(b, a)
    ensures NotAfter(a, b) && NotAfter(b, a) ==> a == b
    ensures NotAfter(a, b) && NotAfter(b, c) ==> NotAfter(a, c)
  {
  }

  predicate KnownWindow(window: string) {
    window == "month" || window == "day"
  }

  /** `window_start`, for the two known windows. */
  function WindowStart(window: string, now: Instant): Instant
    requires KnownWindow(window)
  {
    if window == "month" then Moment(now.year, now.month, 1, 0) else Moment(now.year, now.month, now.day, 0)
  }

  datatype Budget = Budget(
    name: string, active: bool, task: Option<string>, user: Option<string>, window: string, maxTokens: int)

  datatype Row = Row(
    createdAt: Instant, status: string, task: string, user: Option<string>,
    tokensIn: Option<nat>, tokensOut: Option<nat>)

  /** The budgets whose scope covers a call. */
  predicate Matches(b: Budget, task: string, user: Option<string>) {
    b.active && (b.task.None? || b.task == Some(task)) && (b.user.None? || b.user == user)
  }

  function Matching(budgets: seq<Budget>, task: string, user: Option<string>): seq<Budget> {
    if budgets == [] then [] else
      (if Matches(budgets[0], task, user) then [budgets[0]] else []) + Matching(budgets[1..], task, user)
  }

  // ------------------------------------------------------------------- ledger

  predicate Counted(b: Budget, start: Instant, row: Row) {
    && NotAfter(start, row.createdAt) && row.status == "ok"
    && (b.task.Some? ==> row.task == b.task.value)
    && (b.user.Some? ==> row.user == b.user)
  }

  function Selected(ledger: seq<Row>, b: Budget, start: Instant): seq<Row> {
    if ledger == [] then [] else
      var n := |ledger| - 1;
      Selected(ledger[..n], b, start) + if Counted(b, start, ledger[n]) then [ledger[n]] else []
  }

  function Amount(tokens: Option<nat>): nat {
    if tokens.Some? then tokens.value else 0
  }

  function SumIn(rows: seq<Row>): nat {
    if rows == [] then 0 else SumIn(rows[..|rows| - 1]) + Amount(rows[|rows| - 1].tokensIn)
  }

  function SumOut(rows: seq<Row>): nat {
    if rows == [] then 0 else SumOut(rows[..|rows| - 1]) + Amount(rows[|rows| - 1].tokensOut)
  }

  /** `_consumed_since`: the two column sums over the selected rows. */
  function ConsumedSince(ledger: seq<Row>, b: Budget, start: Instant): nat {
    SumIn(Selected(ledger, b, start)) + SumOut(Selected(ledger, b, start))
  }

  // ----------------------------------------------------------- calendar windows

  /** The two times are on the same calendar day for a "day" budget, and in the same calendar month for a "month"
      budget. */
  ghost predicate SamePeriod(window: string, a: Instant, b: Instant) {
    && a.year == b.year && a.month == b.month
    && (window == "month" || (window == "day" && a.day == b.day))
  }

  /** A successful call in the budget's scope in the period of a time. */
  ghost predicate InPeriod(b: Budget, at: Instant, row: Row) {
    && row.status == "ok" && SamePeriod(b.window, row.createdAt, at)
    && (b.task == None || b.task == Some(row.task)) && (b.user == None || b.user == row.user)
  }

  /** The tokens of these calls, in and out; a missing count is none. */
  ghost function PeriodTokens(b: Budget, at: Instant, ledger: seq<Row>): nat {
    if ledger == [] then 0 else
      var row := ledger[|ledger| - 1];
      PeriodTokens(b, at, ledger[..|ledger| - 1])
      + if !InPeriod(b, at, row) then 0 else
          (match row.tokensIn case None => 0 case Some(n) => n) + (match row.tokensOut case None => 0 case Some(n) => n)
  }

  /** Windows are calendar periods. */
  lemma WindowsAreCalendar(window: string, a: Instant, b: Instant)
    ensures window == "day" ==>
      (WindowStart(window, a) == WindowStart(window, b) <==> a.year == b.year && a.month == b.month && a.day == b.day)
    ensures window == "month" ==>
      (WindowStart(window, a) == WindowStart(window, b) <==> a.year == b.year && a.month == b.month)
  {
  }

  /** Up to now, a row counts for a budget exactly when it is a successful call in its scope in the period of now. */
  lemma CountedIsInPeriod(b: Budget, row: Row, now: Instant)
    requires KnownWindow(b.window) && NotAfter(row.createdAt, now)
    ensures Counted(b, WindowStart(b.window, now), row) <==> InPeriod(b, now, row)
  {
  }

  /** The tokens inside one window are the tokens of one period. */
  lemma {:induction false} WindowIsPeriod(b: Budget, ledger: seq<Row>, at: Instant)
    requires KnownWindow(b.window)
    ensures WindowSum(b, WindowStart(b.window, at), ledger) == PeriodTokens(b, at, ledger)
  {
    if ledger != [] {
      var row := ledger[|ledger| - 1];
      WindowIsPeriod(b, ledger[..|ledger| - 1], at);
      WindowsAreCalendar(b.window, row.createdAt, at);
      hide WindowStart;
    }
  }

  // ---------------------------------------------------------------- admission

  predicate Exhausted(b: Budget, ledger: seq<Row>, now: Instant) {
    KnownWindow(b.window) && ConsumedSince(ledger, b, WindowStart(b.window, now)) >= b.maxTokens
  }

  predicate Admitted(budgets: seq<Budget>, ledger: seq<Row>, task: string, user: Option<string>, now: Instant) {
    forall b <- budgets :: Matches(b, task, user) ==> !Exhausted(b, ledger, now)
  }

  lemma {:induction false} MatchingAll(budgets: seq<Budget>, task: string, user: Option<string>)
    ensures forall b :: b in Matching(budgets, task, user) <==> b in budgets && Matches(b, task, user)
  {
    if budgets != [] {
      MatchingAll(budgets[1..], task, user);
      assert budgets == [budgets[0]] + budgets[1..];
    }
  }

  /** An active budget of a known window covers the call, and its period's tokens have reached its maximum. */
  ghost predicate UsedUp(b: Budget, ledger: seq<Row>, task: string, user: Option<string>, now: Instant) {
    && b.active && (b.task == None || b.task == Some(task)) && (b.user == None || b.user == user)
    && (b.window == "day" || b.window == "month") && PeriodTokens(b, now, ledger) >= b.maxTokens
  }

  /** The first budget in order that is used up. */
  ghost predicate FirstUsedUp(budgets: seq<Budget>, i: nat, ledger: seq<Row>, task: string, user: Option<string>,
                               now: Instant)
  {
    && i < |budgets| && UsedUp(budgets[i], ledger, task, user, now)
    && forall j :: 0 <= j < i ==> !UsedUp(budgets[j], ledger, task, user, now)
  }

  lemma UsedUpIsExhausted(b: Budget, ledger: seq<Row>, task: string, user: Option<string>, now: Instant)
    requires forall row <- ledger :: NotAfter(row.createdAt, now)
    ensures UsedUp(b, ledger, task, user, now) <==> Matches(b, task, user) && Exhausted(b, ledger, now)
  {
    if KnownWindow(b.window) { ConsumedIsWindowSum(b, ledger, now); }
    hide ConsumedSince, PeriodTokens, WindowStart;
  }

  /** The first exhausted budget among the matching ones is the first one used up. */
  lemma {:induction false} FirstOfMatching(budgets: seq<Budget>, i: nat, ledger: seq<Row>, task: string,
                                           user: Option<string>, now: Instant)
    requires forall row <- ledger :: NotAfter(row.createdAt, now)
    requires var rows := Matching(budgets, task, user);
      i < |rows| && Exhausted(rows[i], ledger, now) && forall j :: 0 <= j < i ==> !Exhausted(rows[j], ledger, now)
    ensures exists k: nat :: FirstUsedUp(budgets, k, ledger, task, user, now)
                        && budgets[k] == Matching(budgets, task, user)[i]
  {
    var b, rest := budgets[0], Matching(budgets[1..], task, user);
    var rows := Matching(budgets, task, user);
    assert rows == (if Matches(b, task, user) then [b] else []) + rest;
    UsedUpIsExhausted(b, ledger, task, user, now);
    hide Matching, Exhausted, UsedUp, Matches;
    if Matches(b, task, user) && i == 0 {
      assert FirstUsedUp(budgets, 0, ledger, task, user, now);
    } else {
      var down := if Matches(b, task, user) then i - 1 else i;
      assert forall j :: 0 <= j < down ==> rest[j] == rows[if Matches(b, task, user) then j + 1 else j];
      FirstOfMatching(budgets[1..], down, ledger, task, user, now);
      var k: nat :| FirstUsedUp(budgets[1..], k, ledger, task, user, now) && budgets[1..][k] == rest[down];
      assert Matches(b, task, user) ==> rows[0] == b;
      assert !UsedUp(b, ledger, task, user, now);
      forall j | 0 <= j < k + 1 ensures !UsedUp(budgets[j], ledger, task, user, now) {
        if j > 0 { assert budgets[j] == budgets[1..][j - 1]; }
      }
      assert FirstUsedUp(budgets, k + 1, ledger, task, user, now);
    }
  }

  lemma Enforced(budgets: seq<Budget>, ledger: seq<Row>, task: string, user: Option<string>, now: Instant)
    ensures (forall row <- ledger :: NotAfter(row.createdAt, now)) ==>
      && (Admitted(budgets, ledger, task, user, now) <==> forall b <- budgets :: !UsedUp(b, ledger, task, user, now))
      && forall i: nat | var rows := Matching(budgets, task, user);
             i < |rows| && Exhausted(rows[i], ledger, now) && forall j :: 0 <= j < i ==> !Exhausted(rows[j], ledger, now) ::
           exists k: nat :: FirstUsedUp(budgets, k, ledger, task, user, now) && budgets[k] == Matching(budgets, task, user)[i]
  {
    hide Matching, Exhausted, UsedUp, Matches;
    if forall row <- ledger :: NotAfter(row.createdAt, now) {
      forall b <- budgets
        ensures UsedUp(b, ledger, task, user, now) <==> Matches(b, task, user) && Exhausted(b, ledger, now)
      {
        UsedUpIsExhausted(b, ledger, task, user, now);
      }
      forall i: nat | var rows := Matching(budgets, task, user);
          i < |rows| && Exhausted(rows[i], ledger, now) && forall j :: 0 <= j < i ==> !Exhausted(rows[j], ledger, now)
        ensures exists k: nat :: FirstUsedUp(budgets, k, ledger, task, user, now)
                            && budgets[k] == Matching(budgets, task, user)[i]
      {
        FirstOfMatching(budgets, i, ledger, task, user, now);
      }
    }
  }

  /** `enforce_budgets`: the budget that stops the call, if any. Budgets with an unknown window stop nothing. */
  method EnforceBudgets(budgets: seq<Budget>, ledger: seq<Row>, task: string, user: Option<string>, now: Instant)
      returns (breach: Option<Budget>)
    ensures breach.None? <==> Admitted(budgets, ledger, task, user, now)
    ensures breach.Some? ==>
      exists i :: 0 <= i < |Matching(budgets, task, user)| && breach == Some(Matching(budgets, task, user)[i])
        && Exhausted(breach.value, ledger, now)
        && forall j :: 0 <= j < i ==> !Exhausted(Matching(budgets, task, user)[j], ledger, now)
    ensures (forall row <- ledger :: NotAfter(row.createdAt, now)) ==>
      match breach
      case None => forall b <- budgets :: !UsedUp(b, ledger, task, user, now)
      case Some(b) => exists i: nat :: FirstUsedUp(budgets, i, ledger, task, user, now) && b == budgets[i]
  {
    Enforced(budgets, ledger, task, user, now);
    MatchingAll(budgets, task, user);
    var rows := Matching(budgets, task, user);
    hide Matching, ConsumedSince, Matches, WindowStart;
    var i := 0;
    while i < |rows|
      invariant 0 <= i <= |rows|
      invariant forall j :: 0 <= j < i ==> !Exhausted(rows[j], ledger, now)
    {
      var b := rows[i];
      if KnownWindow(b.window) {
        var consumed := ConsumedSince(ledger, b, WindowStart(b.window, now));
        if consumed >= b.maxTokens {
          assert b in rows;
          return Some(b);
        }
      }
      i := i + 1;
    }
    return None;
  }

  // -------------------------------------------------------------------- windows

  /** Windows begin no later than their instants, later instants have no earlier windows, and a window begins
      in itself. */
  lemma WindowsAreOrdered(window: string, a: Instant, b: Instant)
    requires KnownWindow(window)
    ensures NotAfter(WindowStart(window, a), a)
    ensures NotAfter(a, b) ==> NotAfter(WindowStart(window, a), WindowStart(window, b))
    ensures WindowStart(window, WindowStart(window, a)) == WindowStart(window, a)
  {
  }

  /** Up to now, "since the start of the window" means "in the same window". */
  lemma SinceStartIsSameWindow(window: string, t: Instant, now: Instant)
    requires KnownWindow(window) && NotAfter(t, now)
    ensures NotAfter(WindowStart(window, now), t) <==> WindowStart(window, t) == WindowStart(window, now)
  {
  }

  // ---------------------------------------------------------------- the protocol

  /** A call: how much it may still record, and whether it is still in flight. */
  datatype Call = Call(task: string, user: Option<string>, left: nat, running: bool)

  datatype State = State(now: Instant, ledger: seq<Row>, calls: seq<Call>)

  datatype Action =
    | Tick(now: Instant)
    | Admit(task: string, user: Option<string>)
    | Record(i: nat, status: string, tokensIn: Option<nat>, tokensOut: Option<nat>)
    | Finish(i: nat)

  /** The budgets in force, how many calls that match a budget may be in flight at once, and how many tokens
      one call may come to. */
  datatype Setting = Setting(budgets: seq<Budget>, inFlight: nat, perCall: nat)

  function RowOf(s: State, a: Action): Row
    requires a.Record? && a.i < |s.calls|
  {
    Row(s.now, a.status, s.calls[a.i].task, s.calls[a.i].user, a.tokensIn, a.tokensOut)
  }

  function Spent(row: Row): nat {
    if row.status == "ok" then Amount(row.tokensIn) + Amount(row.tokensOut) else 0
  }

  /** The calls in flight that a budget covers. */
  function Running(b: Budget, calls: seq<Call>): nat {
    if calls == [] then 0 else
      Running(b, calls[1..]) + if calls[0].running && Matches(b, calls[0].task, calls[0].user) then 1 else 0
  }

  ghost predicate Enabled(g: Setting, s: State, a: Action) {
    match a
    case Tick(now) => NotAfter(s.now, now)
    case Admit(task, user) =>
      && Admitted(g.budgets, s.ledger, task, user, s.now)
      && forall b <- g.budgets :: Matches(b, task, user) ==> Running(b, s.calls) < g.inFlight
    case Record(i, _, _, _) => i < |s.calls| && s.calls[i].running && Spent(RowOf(s, a)) <= s.calls[i].left
    case Finish(i) => i < |s.calls|
  }

  function Apply(g: Setting, s: State, a: Action): State
    requires (a.Record? || a.Finish?) ==> a.i < |s.calls|
    requires a.Record? ==> Spent(RowOf(s, a)) <= s.calls[a.i].left
  {
    match a
    case Tick(now) => s.(now := now)
    case Admit(task, user) => s.(calls := s.calls + [Call(task, user, g.perCall, true)])
    case Record(i, _, _, _) =>
      var call := s.calls[i];
      s.(ledger := s.ledger + [RowOf(s, a)], calls := s.calls[i := call.(left := call.left - Spent(RowOf(s, a)))])
    case Finish(i) => s.(calls := s.calls[i := s.calls[i].(running := false)])
  }

  ghost function Run(g: Setting, start: Instant, actions: seq<Action>): Option<State> {
    if actions == [] then Some(State(start, [], [])) else
      match Run(g, start, actions[..|actions| - 1])
      case None => None
      case Some(s) =>
        var a := actions[|actions| - 1];
        if Enabled(g, s, a) then Some(Apply(g, s, a)) else None
  }

  // ------------------------------------------------------------------- the bound

  /** A row falls in a budget's scope and in the window that starts at `start`. */
  ghost predicate InWindow(b: Budget, start: Instant, row: Row)
    requires KnownWindow(b.window)
  {
    && WindowStart(b.window, row.createdAt) == start && row.status == "ok"
    && (b.task.Some? ==> row.task == b.task.value)
    && (b.user.Some? ==> row.user == b.user)
  }

  /** The tokens in the ledger inside one window of a budget. */
  ghost function WindowSum(b: Budget, start: Instant, ledger: seq<Row>): nat
    requires KnownWindow(b.window)
  {
    if ledger == [] then 0 else
      var row := ledger[|ledger| - 1];
      WindowSum(b, start, ledger[..|ledger| - 1]) + if InWindow(b, start, row) then Spent(row) else 0
  }

  /** What the calls in flight that a budget covers may still record. */
  ghost function Outstanding(b: Budget, calls: seq<Call>): nat {
    if calls == [] then 0 else
      Outstanding(b, calls[1..])
      + if calls[0].running && Matches(b, calls[0].task, calls[0].user) then calls[0].left else 0
  }

  /** The admission test and the sum's filter agree: the row of a call counts towards a budget in force, in the window
      it is written in, exactly when the budget matched the call. */
  lemma ScopesAgree(b: Budget, row: Row)
    requires b.active && row.status == "ok" && KnownWindow(b.window)
    ensures InWindow(b, WindowStart(b.window, row.createdAt), row) <==> Matches(b, row.task, row.user)
    ensures Counted(b, WindowStart(b.window, row.createdAt), row) <==> Matches(b, row.task, row.user)
  {
    WindowsAreOrdered(b.window, row.createdAt, row.createdAt);
  }

  lemma {:induction false} ConsumedIsWindowSum(b: Budget, ledger: seq<Row>, now: Instant)
    requires KnownWindow(b.window)
    requires forall row <- ledger :: NotAfter(row.createdAt, now)
    ensures ConsumedSince(ledger, b, WindowStart(b.window, now)) == WindowSum(b, WindowStart(b.window, now), ledger)
    ensures ConsumedSince(ledger, b, WindowStart(b.window, now)) == PeriodTokens(b, now, ledger)
  {
    hide PeriodTokens;
    var start := WindowStart(b.window, now);
    WindowIsPeriod(b, ledger, now);
    if ledger != [] {
      var n := |ledger| - 1;
      var row := ledger[n];
      ConsumedIsWindowSum(b, ledger[..n], now);
      SinceStartIsSameWindow(b.window, row.createdAt, now);
      hide WindowStart, NotAfter;
      var before := Selected(ledger[..n], b, start);
      if Counted(b, start, row) {
        assert Selected(ledger, b, start) == before + [row];
        assert (before + [row])[..|before|] == before;
      } else {
        assert Selected(ledger, b, start) == before;
      }
    }
  }

  lemma {:induction false} CallsUpdate(b: Budget, calls: seq<Call>, i: nat, c: Call)
    requires i < |calls| && c.task == calls[i].task && c.user == calls[i].user
    ensures var covered := Matches(b, c.task, c.user);
      && Outstanding(b, calls[i := c]) == Outstanding(b, calls)
           - (if calls[i].running && covered then calls[i].left else 0) + (if c.running && covered then c.left else 0)
      && Running(b, calls[i := c]) == Running(b, calls)
           - (if calls[i].running && covered then 1 else 0) + (if c.running && covered then 1 else 0)
    decreases |calls|
  {
    if i == 0 {
      assert calls[i := c][1..] == calls[1..];
    } else {
      CallsUpdate(b, calls[1..], i - 1, c);
      assert calls[i := c][1..] == calls[1..][i - 1 := c];
    }
  }

  lemma {:induction false} CallsAppend(b: Budget, calls: seq<Call>, c: Call)
    ensures var covered := c.running && Matches(b, c.task, c.user);
      && Outstanding(b, calls + [c]) == Outstanding(b, calls) + (if covered then c.left else 0)
      && Running(b, calls + [c]) == Running(b, calls) + (if covered then 1 else 0)
  {
    if calls == [] {
      assert [] + [c] == [c] && [c][1..] == [];
    } else {
      CallsAppend(b, calls[1..], c);
      assert (calls + [c])[1..] == calls[1..] + [c];
    }
  }

  lemma {:induction false} OutstandingBounded(b: Budget, calls: seq<Call>, perCall: nat)
    requires forall c <- calls :: c.left <= perCall
    ensures Outstanding(b, calls) <= Running(b, calls) * perCall
  {
    if calls != [] {
      OutstandingBounded(b, calls[1..], perCall);
      assert (Running(b, calls[1..]) + 1) * perCall == Running(b, calls[1..]) * perCall + perCall;
    }
  }

  ghost predicate InForce(g: Setting, b: Budget) {
    b in g.budgets && b.active && KnownWindow(b.window)
  }

  /** For one budget and one of its windows. */
  ghost predicate Inv(g: Setting, b: Budget, start: Instant, s: State)
    requires KnownWindow(b.window)
  {
    && (forall row <- s.ledger :: NotAfter(row.createdAt, s.now))
    && (forall c <- s.calls :: c.left <= g.perCall)
    && Running(b, s.calls) <= g.inFlight
    && WindowSum(b, start, s.ledger) <= Bound(g, b)
    && (NotAfter(WindowStart(b.window, s.now), start) ==>
        WindowSum(b, start, s.ledger) + Outstanding(b, s.calls) <= Bound(g, b))
  }

  /** A budget of less than one token admits nothing. */
  ghost function Bound(g: Setting, b: Budget): int {
    if b.maxTokens < 1 then 0 else b.maxTokens - 1 + g.inFlight * g.perCall
  }

  lemma {:induction false} EarlierWindowsAreEmpty(b: Budget, start: Instant, ledger: seq<Row>, now: Instant)
    requires KnownWindow(b.window) && forall row <- ledger :: NotAfter(row.createdAt, now)
    requires NotAfter(WindowStart(b.window, now), start) && WindowStart(b.window, now) != start
    ensures WindowSum(b, start, ledger) == 0
  {
    if ledger != [] {
      var n := |ledger| - 1;
      EarlierWindowsAreEmpty(b, start, ledger[..n], now);
      WindowsAreOrdered(b.window, ledger[n].createdAt, now);
    }
  }

  lemma AdmitKeeps(g: Setting, b: Budget, start: Instant, s: State, a: Action)
    requires InForce(g, b) && Inv(g, b, start, s) && a.Admit? && Enabled(g, s, a)
    ensures Inv(g, b, start, Apply(g, s, a))
  {
    var c := Call(a.task, a.user, g.perCall, true);
    var calls := s.calls + [c];
    CallsAppend(b, s.calls, c);
    assert forall d <- calls :: d in s.calls || d == c;
    OutstandingBounded(b, calls, g.perCall);
    if Matches(b, a.task, a.user) {
      assert !Exhausted(b, s.ledger, s.now) && b.maxTokens >= 1;
      assert Running(b, calls) <= g.inFlight;
      Times(Running(b, calls), g.inFlight, g.perCall);
      if NotAfter(WindowStart(b.window, s.now), start) {
        if WindowStart(b.window, s.now) == start {
          ConsumedIsWindowSum(b, s.ledger, s.now);
        } else {
          EarlierWindowsAreEmpty(b, start, s.ledger, s.now);
        }
      }
    }
  }

  lemma Times(a: nat, b: nat, c: nat)
    requires a <= b
    ensures a * c <= b * c
  {
  }

  lemma RecordKeeps(g: Setting, b: Budget, start: Instant, s: State, a: Action)
    requires InForce(g, b) && Inv(g, b, start, s) && a.Record? && Enabled(g, s, a)
    ensures Inv(g, b, start, Apply(g, s, a))
  {
    var row, t := RowOf(s, a), Apply(g, s, a);
    CallsUpdate(b, s.calls, a.i, t.calls[a.i]);
    assert t.ledger[..|s.ledger|] == s.ledger;
    hide WindowStart;
    assert WindowSum(b, start, t.ledger) == WindowSum(b, start, s.ledger) + if InWindow(b, start, row) then Spent(row) else 0;
    if InWindow(b, start, row) { ScopesAgree(b, row); }
    NotAfterSelf(s.now);
    NotAfterSelf(start);
    hide NotAfter, WindowSum, Outstanding, Running, Matches;
    assert forall r <- t.ledger :: r in s.ledger || r == row;
    forall c | c in t.calls ensures c.left <= g.perCall {
      assert s.calls[a.i] in s.calls;
      assert c in s.calls || c == t.calls[a.i];
    }
  }

  lemma NotAfterSelf(t: Instant)
    ensures NotAfter(t, t)
  {
  }

  lemma StepKeeps(g: Setting, b: Budget, start: Instant, s: State, a: Action)
    requires InForce(g, b) && Inv(g, b, start, s) && Enabled(g, s, a)
    ensures Inv(g, b, start, Apply(g, s, a))
  {
    match a
    case Tick(now) =>
      WindowsAreOrdered(b.window, s.now, now);
    case Admit(_, _) => AdmitKeeps(g, b, start, s, a);
    case Record(_, _, _, _) => RecordKeeps(g, b, start, s, a);
    case Finish(i) =>
      CallsUpdate(b, s.calls, i, s.calls[i].(running := false));
      forall c | c in Apply(g, s, a).calls ensures c.left <= g.perCall {
        assert s.calls[i] in s.calls;
        assert c in s.calls || c == s.calls[i].(running := false);
      }
  }

  /** Over every run of calls, each admitted against the ledger of its moment: with at most `inFlight` calls of
      a budget in flight and at most `perCall` tokens recorded for one, the ledger never holds more than
      `maxTokens - 1 + inFlight * perCall` tokens inside any one window of the budget, and none at all when
      `maxTokens` is below 1. */
  lemma {:induction false} BudgetBound(g: Setting, begin: Instant, actions: seq<Action>, b: Budget, start: Instant)
    requires InForce(g, b) && Run(g, begin, actions).Some?
    ensures WindowSum(b, start, Run(g, begin, actions).value.ledger) <= Bound(g, b)
    ensures Inv(g, b, start, Run(g, begin, actions).value)
    decreases |actions|
  {
    if actions == [] {
      Times(0, g.inFlight, g.perCall);
    } else {
      var n := |actions| - 1;
      BudgetBound(g, begin, actions[..n], b, start);
      StepKeeps(g, b, start, Run(g, begin, actions[..n]).value, actions[n]);
    }
  }

  /** The bound in calendar words: the tokens of any one day, or month, never exceed it. */
  lemma PeriodBound(g: Setting, begin: Instant, actions: seq<Action>, b: Budget, at: Instant)
    requires b in g.budgets && b.active && (b.window == "day" || b.window == "month") && Run(g, begin, actions).Some?
    ensures PeriodTokens(b, at, Run(g, begin, actions).value.ledger)
         <= if b.maxTokens < 1 then 0 else b.maxTokens - 1 + g.inFlight * g.perCall
  {
    BudgetBound(g, begin, actions, b, WindowStart(b.window, at));
    WindowIsPeriod(b, Run(g, begin, actions).value.ledger, at);
  }

  // ------------------------------------------------------------ the bound is met

  /** A call that a budget matches. */
  ghost function CoveredCall(g: Setting, b: Budget): Call {
    Call(if b.task.Some? then b.task.value else "", b.user, g.perCall, true)
  }

  /** A run without a tick that has spent so much in the first window and has so many calls open, none of which
      has recorded anything. */
  ghost predicate Reached(g: Setting, b: Budget, begin: Instant, actions: seq<Action>, spent: nat, open: nat)
    requires KnownWindow(b.window)
  {
    && Run(g, begin, actions).Some?
    && var s := Run(g, begin, actions).value;
    && s.now == begin
    && WindowSum(b, WindowStart(b.window, begin), s.ledger) == spent
    && Running(b, s.calls) == open <= |s.calls|
    && forall i :: |s.calls| - open <= i < |s.calls| ==> s.calls[i] == CoveredCall(g, b)
  }

  lemma RunLonger(g: Setting, begin: Instant, actions: seq<Action>, a: Action)
    requires Run(g, begin, actions).Some? && Enabled(g, Run(g, begin, actions).value, a)
    ensures Run(g, begin, actions + [a]) == Some(Apply(g, Run(g, begin, actions).value, a))
  {
    assert (actions + [a])[..|actions|] == actions;
  }

  lemma OpenOne(g: Setting, b: Budget, begin: Instant, actions: seq<Action>, spent: nat, open: nat)
      returns (longer: seq<Action>)
    requires InForce(g, b) && g.budgets == [b] && Reached(g, b, begin, actions, spent, open)
    requires spent < b.maxTokens && open < g.inFlight
    ensures Reached(g, b, begin, longer, spent, open + 1)
  {
    var s, c := Run(g, begin, actions).value, CoveredCall(g, b);
    longer := actions + [Admit(c.task, c.user)];
    BudgetBound(g, begin, actions, b, WindowStart(b.window, begin));
    ConsumedIsWindowSum(b, s.ledger, begin);
    RunLonger(g, begin, actions, Admit(c.task, c.user));
    CallsAppend(b, s.calls, c);
  }

  /** An open call records some tokens: they count in the window of the moment and in no other. */
  lemma RecordOne(g: Setting, b: Budget, begin: Instant, s: State, i: nat, tokens: nat)
    requires InForce(g, b) && s.now == begin && i < |s.calls| && s.calls[i] == CoveredCall(g, b) && tokens <= g.perCall
    ensures var record := Record(i, "ok", Some(tokens), None);
      && Enabled(g, s, record)
      && var t := Apply(g, s, record);
      && t.now == begin && t.calls == s.calls[i := s.calls[i].(left := g.perCall - tokens)]
      && Running(b, t.calls) == Running(b, s.calls)
      && forall start :: WindowSum(b, start, t.ledger)
           == WindowSum(b, start, s.ledger) + if start == WindowStart(b.window, begin) then tokens else 0
  {
    var record := Record(i, "ok", Some(tokens), None);
    var t := Apply(g, s, record);
    CallsUpdate(b, s.calls, i, t.calls[i]);
    hide Running;
    assert t.ledger[..|s.ledger|] == s.ledger;
  }

  /** A row that is not "ok" adds nothing to any period and takes nothing from what its call may still record. */
  lemma ErrorsAreFree(g: Setting, b: Budget, s: State, a: Action, at: Instant)
    requires a.Record? && a.status != "ok" && a.i < |s.calls| && s.calls[a.i].running
    ensures Enabled(g, s, a) && Apply(g, s, a).calls == s.calls
    ensures PeriodTokens(b, at, Apply(g, s, a).ledger) == PeriodTokens(b, at, s.ledger)
  {
    assert Apply(g, s, a).ledger[..|s.ledger|] == s.ledger;
  }

  /** The oldest open call records some tokens and ends. */
  lemma CloseOne(g: Setting, b: Budget, begin: Instant, actions: seq<Action>, spent: nat, open: nat, tokens: nat)
      returns (longer: seq<Action>)
    requires InForce(g, b) && Reached(g, b, begin, actions, spent, open) && open > 0 && tokens <= g.perCall
    ensures Reached(g, b, begin, longer, spent + tokens, open - 1)
  {
    hide Running, WindowSum, WindowStart, Run;
    var s := Run(g, begin, actions).value;
    var i := |s.calls| - open;
    var record := Record(i, "ok", Some(tokens), None);
    RecordOne(g, b, begin, s, i, tokens);
    var t := Apply(g, s, record);
    RunLonger(g, begin, actions, record);
    RunLonger(g, begin, actions + [record], Finish(i));
    longer := actions + [record] + [Finish(i)];
    CallsUpdate(b, t.calls, i, t.calls[i].(running := false));
  }

  lemma {:induction false} SpendOneByOne(g: Setting, b: Budget, begin: Instant, spent: nat)
      returns (actions: seq<Action>)
    requires InForce(g, b) && g.budgets == [b] && spent < b.maxTokens && g.inFlight >= 1 && g.perCall >= 1
    ensures Reached(g, b, begin, actions, spent, 0)
  {
    actions := [];
    if spent > 0 {
      actions := SpendOneByOne(g, b, begin, spent - 1);
      actions := OpenOne(g, b, begin, actions, spent - 1, 0);
      actions := CloseOne(g, b, begin, actions, spent - 1, 1, 1);
    }
  }

  lemma {:induction false} OpenAll(g: Setting, b: Budget, begin: Instant, before: seq<Action>, spent: nat, open: nat)
      returns (actions: seq<Action>)
    requires InForce(g, b) && g.budgets == [b] && Reached(g, b, begin, before, spent, 0)
    requires spent < b.maxTokens && open <= g.inFlight
    ensures Reached(g, b, begin, actions, spent, open)
  {
    actions := before;
    if open > 0 {
      actions := OpenAll(g, b, begin, before, spent, open - 1);
      actions := OpenOne(g, b, begin, actions, spent, open - 1);
    }
  }

  lemma {:induction false} CloseAll(g: Setting, b: Budget, begin: Instant, before: seq<Action>, spent: nat, open: nat)
      returns (actions: seq<Action>)
    requires InForce(g, b) && Reached(g, b, begin, before, spent, open)
    ensures Reached(g, b, begin, actions, spent + open * g.perCall, 0)
    decreases open
  {
    hide *;
    actions := before;
    Product(open, g.perCall);
    if open > 0 {
      actions := CloseOne(g, b, begin, before, spent, open, g.perCall);
      actions := CloseAll(g, b, begin, actions, spent + g.perCall, open - 1);
    }
  }

  lemma Product(a: nat, b: nat)
    ensures a * b >= 0 && (a > 0 ==> b + (a - 1) * b == a * b)
  {
  }

  /** The bound is exact: some run brings the ledger to it inside one window. */
  lemma BoundIsMet(b: Budget, begin: Instant, inFlight: nat, perCall: nat) returns (actions: seq<Action>)
    requires b.active && KnownWindow(b.window) && b.maxTokens >= 1 && inFlight >= 1 && perCall >= 1
    ensures var g := Setting([b], inFlight, perCall);
      && Run(g, begin, actions).Some?
      && WindowSum(b, WindowStart(b.window, begin), Run(g, begin, actions).value.ledger) == Bound(g, b)
      && PeriodTokens(b, begin, Run(g, begin, actions).value.ledger) == b.maxTokens - 1 + inFlight * perCall
  {
    var g := Setting([b], inFlight, perCall);
    actions := SpendOneByOne(g, b, begin, b.maxTokens - 1);
    actions := OpenAll(g, b, begin, actions, b.maxTokens - 1, inFlight);
    actions := CloseAll(g, b, begin, actions, b.maxTokens - 1, inFlight);
    WindowIsPeriod(b, Run(g, begin, actions).value.ledger, begin);
  }
}
