/** Backup retention. An archive is known by its stamp: the second its name spells out. */
module Backups {
  import opened Text

  const KEEP_DAILY := 14
  const KEEP_WEEKLY := 8
  const DAY := 86400

  /** The ISO week of a stamp, counted from the Monday before the epoch, which was a Thursday. */
  function Week(stamp: int): int {
    (stamp / DAY + 3) / 7
  }

  /** Midnight of a Monday: the first after the epoch was four days later. */
  ghost predicate IsMonday(second: int) {
    second % 604800 == 345600
  }

  /** The same Monday is the last one at or before both stamps. */
  ghost predicate SameWeek(a: int, b: int) {
    exists monday :: IsMonday(monday) && monday <= a < monday + 604800 && monday <= b < monday + 604800
  }

  lemma MondayOf(stamp: int)
    ensures var monday := 604800 * Week(stamp) - 259200; IsMonday(monday) && monday <= stamp < monday + 604800
  {
    var days := stamp / DAY;
    assert stamp == 86400 * days + stamp % 86400;
    assert days + 3 == 7 * Week(stamp) + (days + 3) % 7;
    assert 604800 * Week(stamp) - 259200 == 604800 * (Week(stamp) - 1) + 345600;
  }

  lemma OneMonday(a: int, b: int)
    requires IsMonday(a) && IsMonday(b) && a <= b < a + 604800
    ensures a == b
  {
  }

  /** Two stamps have the same week number exactly when they are between the same two Mondays. */
  lemma WeeksAreMondays(a: int, b: int)
    ensures Week(a) == Week(b) <==> SameWeek(a, b)
  {
    MondayOf(a);
    MondayOf(b);
    var mondayA, mondayB := 604800 * Week(a) - 259200, 604800 * Week(b) - 259200;
    hide Week, IsMonday;
    if SameWeek(a, b) {
      var monday :| IsMonday(monday) && monday <= a < monday + 604800 && monday <= b < monday + 604800;
      SameMonday(monday, mondayA, a);
      SameMonday(monday, mondayB, b);
    }
    if Week(a) == Week(b) { assert IsMonday(mondayA) && mondayA == mondayB; }
  }

  lemma SameMonday(x: int, y: int, stamp: int)
    requires IsMonday(x) && IsMonday(y) && x <= stamp < x + 604800 && y <= stamp < y + 604800
    ensures x == y
  {
    if x <= y { OneMonday(x, y); } else { OneMonday(y, x); }
  }

  // ------------------------------------------------------------------ listing

  lemma Element<T>(s: set<T>) returns (x: T)
    requires s != {}
    ensures x in s
  {
    x :| x in s;
  }

  lemma {:induction false} LeastExists(s: set<int>) returns (m: int)
    requires s != {}
    ensures m in s && forall y <- s :: m <= y
    decreases s
  {
    m := Element(s);
    var rest := s - {m};
    assert forall y <- s :: y == m || y in rest;
    if rest != {} {
      var least := LeastExists(rest);
      m := if least < m then least else m;
    }
  }

  function Least(s: set<int>): (m: int)
    requires s != {}
    ensures m in s && forall y <- s :: m <= y
  {
    assert exists m :: m in s && forall y <- s :: m <= y by {
      var least := LeastExists(s);
    }
    var m :| m in s && forall y <- s :: m <= y;
    m
  }

  /** `list_backups`: oldest first. */
  function Listed(s: set<int>): (c: seq<int>)
    ensures |c| == |s|
    decreases s
  {
    if s == {} then [] else
      var m := Least(s);
      [m] + Listed(s - {m})
  }

  ghost predicate Rising(c: seq<int>) {
    forall i, j :: 0 <= i < j < |c| ==> c[i] < c[j]
  }

  lemma {:induction false} ListedIsSorted(s: set<int>)
    ensures Rising(Listed(s))
    ensures forall x :: x in Listed(s) <==> x in s
    decreases s
  {
    if s != {} {
      var m := Least(s);
      var rest := Listed(s - {m});
      ListedIsSorted(s - {m});
      assert Listed(s) == [m] + rest;
      hide Listed;
      forall i | 0 <= i < |rest| ensures m < rest[i] {
        assert rest[i] in s - {m};
      }
    }
  }

  function Newer(s: set<int>, x: int): set<int> {
    set y | y in s && y > x
  }

  function Elements(c: seq<int>): set<int> {
    set x | x in c
  }

  lemma ElementsSplit(c: seq<int>)
    requires c != []
    ensures Elements(c) == {c[0]} + Elements(c[1..])
  {
    forall x ensures x in Elements(c) <==> x in {c[0]} + Elements(c[1..]) {
      assert c == [c[0]] + c[1..];
    }
  }

  lemma {:induction false} ElementsOf(c: seq<int>)
    requires Rising(c)
    ensures |Elements(c)| == |c|
  {
    if c != [] {
      ElementsOf(c[1..]);
      ElementsSplit(c);
      assert c[0] !in Elements(c[1..]);
    }
  }

  /** In the listing, an archive has as many newer ones as entries behind it. */
  lemma NewerIsBehind(s: set<int>, i: nat)
    requires i < |s|
    ensures |Newer(s, Listed(s)[i])| == |s| - 1 - i
  {
    var c := Listed(s);
    ListedIsSorted(s);
    hide Listed;
    ElementsOf(c[i + 1..]);
    forall y ensures y in Newer(s, c[i]) <==> y in Elements(c[i + 1..]) {
      if y in Newer(s, c[i]) {
        var j :| 0 <= j < |c| && c[j] == y;
        assert c[i + 1..][j - i - 1] == y;
      }
    }
    assert Newer(s, c[i]) == Elements(c[i + 1..]);
  }

  // ---------------------------------------------------------------- retention

  predicate NewestOfWeek(s: set<int>, x: int) {
    forall y <- s :: y > x ==> Week(y) != Week(x)
  }

  /** Among the newest 14, or the newest of its week. */
  predicate Survives(s: set<int>, x: int) {
    x in s && (|Newer(s, x)| < KEEP_DAILY || NewestOfWeek(s, x))
  }

  /** The archives left by `prune_backups`. */
  function Pruned(s: set<int>): (kept: set<int>)
    ensures kept <= s
  {
    if |s| <= KEEP_DAILY + KEEP_WEEKLY then s else set x | x in s && Survives(s, x)
  }

  /** The rule in its own numbers: up to 22 archives all stay; of more, those with fewer than 14 newer ones, and those
      with no newer one between the same two Mondays. */
  ghost predicate FollowsRule(before: set<int>, after: set<int>) {
    && after <= before
    && (|before| <= 22 ==> after == before)
    && (|before| > 22 ==> forall x <- before ::
          x in after <==> |set y | y in before && y > x| < 14 || forall y <- before :: y > x ==> !SameWeek(y, x))
  }

  lemma PrunedFollowsRule(s: set<int>)
    ensures FollowsRule(s, Pruned(s))
  {
    forall x, y | x in s && y in s ensures Week(y) == Week(x) <==> SameWeek(y, x) { WeeksAreMondays(y, x); }
    hide Week, SameWeek;
    forall x | x in s ensures (set y | y in s && y > x) == Newer(s, x) {}
  }

  lemma {:induction false} Subsets(a: set<int>, b: set<int>)
    requires a <= b
    ensures |a| <= |b|
  {
    if a != {} {
      var x := Element(a);
      Subsets(a - {x}, b - {x});
    }
  }

  /** A second prune deletes nothing. */
  lemma PruneTwice(s: set<int>)
    ensures Pruned(Pruned(s)) == Pruned(s)
  {
    var t := Pruned(s);
    forall x | x in t && |s| > KEEP_DAILY + KEEP_WEEKLY ensures Survives(t, x) {
      Subsets(Newer(t, x), Newer(s, x));
    }
  }

  lemma {:induction false} WeekHasNewest(s: set<int>, x: int) returns (newest: int)
    requires x in s
    ensures newest in s && newest >= x && Week(newest) == Week(x) && NewestOfWeek(s, newest)
    decreases Newer(s, x)
  {
    if NewestOfWeek(s, x) {
      newest := x;
    } else {
      var y :| y in s && y > x && Week(y) == Week(x);
      assert y in Newer(s, x) && y !in Newer(s, y) && Newer(s, y) <= Newer(s, x);
      newest := WeekHasNewest(s, y);
    }
  }

  /** Whatever is pruned, its week keeps an archive at least as new. */
  lemma EveryWeekSurvives(s: set<int>, x: int) returns (kept: int)
    requires x in s
    ensures kept in Pruned(s) && kept >= x && Week(kept) == Week(x)
  {
    kept := WeekHasNewest(s, x);
  }

  /** The newest 14 are the last 14 of the listing. */
  lemma DailyIsNewest(s: set<int>, x: int)
    requires |s| > KEEP_DAILY && x in s
    ensures x in Listed(s)[|s| - KEEP_DAILY..] <==> |Newer(s, x)| < KEEP_DAILY
  {
    var c := Listed(s);
    ListedIsSorted(s);
    var i :| 0 <= i < |c| && c[i] == x;
    NewerIsBehind(s, i);
    hide Listed, Newer;
    var tail := c[|s| - KEEP_DAILY..];
    if i >= |s| - KEEP_DAILY {
      assert tail[i - (|s| - KEEP_DAILY)] == x;
    } else {
      forall j | 0 <= j < |tail| ensures tail[j] != x {
        assert tail[j] == c[|s| - KEEP_DAILY + j];
      }
    }
  }

  // ------------------------------------------------------- how many are kept

  function Daily(s: set<int>): set<int> {
    set x | x in s && |Newer(s, x)| < KEEP_DAILY
  }

  /** The newest archives of their weeks that are not among the newest 14. */
  function Weekly(s: set<int>): set<int> {
    set x | x in s && |Newer(s, x)| >= KEEP_DAILY && NewestOfWeek(s, x)
  }

  function Weeks(s: set<int>): set<int> {
    set x | x in s :: Week(x)
  }

  /** The weeks whose newest archive has 14 or more newer ones. */
  function OldWeeks(s: set<int>): set<int> {
    Weeks(Weekly(s))
  }

  lemma {:induction false} OneAWeek(s: set<int>)
    requires forall x, y :: x in s && y in s && x != y ==> Week(x) != Week(y)
    ensures |Weeks(s)| == |s|
    decreases s
  {
    hide Week;
    if s != {} {
      var x := Element(s);
      OneAWeek(s - {x});
      assert s == (s - {x}) + {x};
      assert Weeks(s) == Weeks(s - {x}) + {Week(x)};
      assert Week(x) !in Weeks(s - {x});
    }
  }

  lemma DailyCount(s: set<int>)
    requires |s| > KEEP_DAILY
    ensures |Daily(s)| == KEEP_DAILY
  {
    var c := Listed(s);
    var tail := c[|s| - KEEP_DAILY..];
    ListedIsSorted(s);
    ElementsOf(tail);
    hide Listed, Newer, Rising, Week;
    forall j | 0 <= j < |tail| ensures tail[j] in s {
      assert c[|s| - KEEP_DAILY + j] == tail[j];
    }
    forall x | x in s ensures x in Daily(s) <==> x in tail {
      DailyIsNewest(s, x);
    }
    assert Daily(s) == Elements(tail);
  }

  /** Of more than 22 archives a prune keeps 14 and one for every week whose newest archive has 14 or more newer
      ones; so it keeps to 22 exactly when there are at most 8 such weeks. */
  lemma KeptCount(s: set<int>)
    requires |s| > KEEP_DAILY + KEEP_WEEKLY
    ensures |Pruned(s)| == KEEP_DAILY + |OldWeeks(s)|
    ensures |Pruned(s)| <= KEEP_DAILY + KEEP_WEEKLY <==> |OldWeeks(s)| <= KEEP_WEEKLY
  {
    DailyCount(s);
    hide Week, Newer;
    forall x, y | x in Weekly(s) && y in Weekly(s) && x != y ensures Week(x) != Week(y) {
      assert x > y || y > x;
    }
    OneAWeek(Weekly(s));
    assert Pruned(s) == Daily(s) + Weekly(s) && Daily(s) !! Weekly(s);
  }

  /** `n` archives a week apart. */
  function Stamps(n: nat): set<int> {
    set i | 0 <= i < n :: i * (7 * DAY)
  }

  lemma WeekOfStamp(i: nat)
    ensures Week(i * (7 * DAY)) == i
  {
    assert i * (7 * DAY) / DAY == 7 * i;
  }

  lemma {:induction false} StampsCount(n: nat)
    ensures |Stamps(n)| == n
  {
    if n > 0 {
      StampsCount(n - 1);
      assert Stamps(n) == Stamps(n - 1) + {(n - 1) * (7 * DAY)};
    }
  }

  /** All archives made a week apart stay, however many they are: there is no cap on the weeks kept. */
  lemma WeeklyArchivesStay(n: nat)
    ensures Pruned(Stamps(n)) == Stamps(n) && |Stamps(n)| == n
  {
    StampsCount(n);
    forall x | x in Stamps(n) ensures NewestOfWeek(Stamps(n), x) {
      forall y | y in Stamps(n) && y > x ensures Week(y) != Week(x) {
        var i :| 0 <= i < n && x == i * (7 * DAY);
        var j :| 0 <= j < n && y == j * (7 * DAY);
        WeekOfStamp(i);
        WeekOfStamp(j);
      }
    }
  }

  /** Of 40 weekly archives all 40 are kept, 26 of them beyond the daily ones. */
  lemma OverTheCap()
    ensures |Pruned(Stamps(40))| == 40 && |OldWeeks(Stamps(40))| == 26 > KEEP_WEEKLY
  {
    WeeklyArchivesStay(40);
    KeptCount(Stamps(40));
  }

  // -------------------------------------------------------------- the archives

  /** How `create_backup` can end: an archive written, or an exception that may leave a partial one behind. */
  datatype Creation<B> = Written(archive: B) | Failed(partial: Option<B>)

  class Archives<B> {
    var files: map<int, B>

    constructor (existing: map<int, B>)
      ensures files == existing
    {
      files := existing;
    }

    method PruneBackups() returns (removed: nat)
      modifies this
      ensures Restricted(files, old(files), Pruned(old(files).Keys))
      ensures FollowsRule(old(files).Keys, files.Keys)
      ensures removed == |old(files)| - |files|
    {
      PrunedFollowsRule(files.Keys);
      hide Listed, Survives, Remaining, Week, NewestOfWeek, FollowsRule;
      var candidates := Listed(files.Keys);
      assert |candidates| == |files|;
      removed := 0;
      if |candidates| <= KEEP_DAILY + KEEP_WEEKLY {
        return;
      }
      ListedIsSorted(files.Keys);
      var keep := ToKeep(candidates, files.Keys);
      RemainingEnds(files, keep, candidates);
      hide *;
      ghost var before := files;
      var i := 0;
      while i < |candidates|
        invariant 0 <= i <= |candidates|
        invariant files == Remaining(before, keep, candidates[i..])
        invariant removed == |before| - |files|
      {
        RemainingStep(before, keep, candidates, i);
        if candidates[i] !in keep {
          files := files - {candidates[i]};
          removed := removed + 1;
        }
        i := i + 1;
      }
      assert candidates[i..] == [];
    }

    /** `backup_if_due`: `now` is the clock at the test and `created` the clock in `create_backup`, both in
        microseconds. */
    method BackupIfDue(now: int, created: int, creation: Creation<B>) returns (archive: Option<int>)
      requires now <= created
      modifies this
      ensures files.Keys == Booted(old(files.Keys), Boot(now, created, creation.Written?, Leaves(creation)))
      ensures archive == if Due(old(files.Keys), now) && creation.Written? then Some(Stamp(created)) else None
      ensures archive.Some? <==> creation.Written? && NoneInLastDay(old(files).Keys, now)
      ensures archive.Some? ==> archive.value == created / 1_000_000 && archive.value in files && files[archive.value] == creation.archive
      ensures archive.Some? ==> FollowsRule(old(files).Keys + {archive.value}, files.Keys)
      ensures archive.None? && creation.Written? ==> files == old(files)
      ensures creation.Failed? ==>
        files == if creation.partial.Some? && NoneInLastDay(old(files).Keys, now)
                 then old(files)[created / 1_000_000 := creation.partial.value] else old(files)
      ensures forall x <- files :: x != Stamp(created) ==> x in old(files) && files[x] == old(files)[x]
    {
      DueTells(files.Keys, now);
      if Due(files.Keys, now) { BootIsDayLater(files.Keys, Boot(now, created, true, true)); }
      assert Stamp(created) == created / 1_000_000;
      hide Listed, Pruned, Week, Stamp, FollowsRule, NoneInLastDay, Newer, Survives;
      ghost var boot := Boot(now, created, creation.Written?, Leaves(creation));
      ghost var longer := files.Keys + {Stamp(created)};
      assert Booted(files.Keys, boot) == if !Due(files.Keys, now) || !Leaves(creation) then files.Keys
                                         else if creation.Written? then Pruned(longer) else longer;
      hide Booted;
      var existing := Listed(files.Keys);
      if existing != [] && now - existing[|existing| - 1] * MICROS < DAY * MICROS {
        return None;
      }
      assert Due(files.Keys, now);
      hide Due;
      match creation
      case Written(contents) =>
        files := files[Stamp(created) := contents];
        ghost var before := files;
        assert before.Keys == longer;
        var removed := PruneBackups();
        assert files.Keys == Pruned(before.Keys) <= before.Keys;
        assert forall x <- files :: files[x] == before[x];
        return Some(Stamp(created));
      case Failed(None) =>
        return None;
      case Failed(Some(contents)) =>
        files := files[Stamp(created) := contents];
        assert files.Keys == longer;
        return None;
    }
  }

  /** The files under some of the names, with their contents unchanged. */
  ghost predicate Restricted<B>(after: map<int, B>, before: map<int, B>, names: set<int>) {
    after.Keys == names <= before.Keys && forall x <- names :: after[x] == before[x]
  }

  /** The files while `todo` is still to be looked at. */
  ghost function Remaining<B>(before: map<int, B>, keep: set<int>, todo: seq<int>): map<int, B> {
    map x | x in before && (x in keep || x in todo) :: before[x]
  }

  lemma RemainingStep<B>(before: map<int, B>, keep: set<int>, c: seq<int>, i: nat)
    requires i < |c| && c[i] in before && Rising(c)
    ensures var now := Remaining(before, keep, c[i..]);
      && c[i] in now
      && Remaining(before, keep, c[i + 1..]) == if c[i] in keep then now else now - {c[i]}
  {
    assert c[i..] == [c[i]] + c[i + 1..];
    assert c[i] !in c[i + 1..];
  }

  /** Deleting starts with all files and ends with the survivors. */
  lemma RemainingEnds<B>(before: map<int, B>, keep: set<int>, c: seq<int>)
    requires forall x :: x in c <==> x in before
    requires forall x <- before :: x in keep <==> Survives(before.Keys, x)
    requires |before| > KEEP_DAILY + KEEP_WEEKLY
    ensures Remaining(before, keep, c[0..]) == before
    ensures Restricted(Remaining(before, keep, []), before, Pruned(before.Keys))
  {
    hide Survives;
    assert c[0..] == c && |before.Keys| == |before|;
    assert forall x <- before :: x in c[0..];
  }

  /** The newest archive of each week, later entries overwriting earlier ones. */
  method WeekBuckets(candidates: seq<int>) returns (buckets: map<int, int>)
    requires Rising(candidates)
    ensures forall w <- buckets :: buckets[w] in candidates && Week(buckets[w]) == w
    ensures forall x <- candidates :: Week(x) in buckets && x <= buckets[Week(x)]
  {
    buckets := map[];
    var i := 0;
    while i < |candidates|
      invariant 0 <= i <= |candidates|
      invariant forall w <- buckets :: buckets[w] in candidates && Week(buckets[w]) == w
      invariant forall j :: 0 <= j < i ==> Week(candidates[j]) in buckets && candidates[j] <= buckets[Week(candidates[j])]
    {
      buckets := buckets[Week(candidates[i]) := candidates[i]];
      i := i + 1;
    }
  }

  /** The newest 14 archives and the newest of every week. */
  method ToKeep(candidates: seq<int>, ghost s: set<int>) returns (keep: set<int>)
    requires candidates == Listed(s) && |s| > KEEP_DAILY
    ensures forall x <- s :: x in keep <==> Survives(s, x)
  {
    ListedIsSorted(s);
    hide Listed, Week, Survives;
    var daily := candidates[|candidates| - KEEP_DAILY..];
    var buckets := WeekBuckets(candidates);
    keep := KeepAll(Elements(daily), buckets);
    KeepIsSurvival(s, buckets, keep);
  }

  method KeepAll(daily: set<int>, buckets: map<int, int>) returns (keep: set<int>)
    ensures forall x :: x in keep <==> x in daily || exists w :: w in buckets && buckets[w] == x
  {
    keep := daily;
    var rest := buckets.Keys;
    while rest != {}
      invariant rest <= buckets.Keys
      invariant forall x :: x in keep <==> x in daily || exists w :: w in buckets && w !in rest && buckets[w] == x
      decreases rest
    {
      ghost var some := Element(rest);
      var w :| w in rest;
      keep := keep + {buckets[w]};
      rest := rest - {w};
    }
  }

  /** What the two loops keep is what survives. */
  lemma KeepIsSurvival(s: set<int>, buckets: map<int, int>, keep: set<int>)
    requires |s| > KEEP_DAILY
    requires forall w <- buckets :: buckets[w] in s && Week(buckets[w]) == w
    requires forall x <- s :: Week(x) in buckets && x <= buckets[Week(x)]
    requires forall x :: x in keep <==>
        x in Listed(s)[|s| - KEEP_DAILY..] || exists w :: w in buckets && buckets[w] == x
    ensures forall x <- s :: x in keep <==> Survives(s, x)
  {
    forall x | x in s ensures x in keep <==> Survives(s, x) {
      DailyIsNewest(s, x);
      hide Listed, Week, Newer;
      var w := Week(x);
      assert NewestOfWeek(s, x) <==> buckets[w] == x;
      assert (exists v :: v in buckets && buckets[v] == x) <==> buckets[w] == x;
    }
  }

  // -------------------------------------------------------------------- boots

  const MICROS := 1000000

  /** The second in an archive's name. */
  function Stamp(micros: int): int {
    micros / MICROS
  }

  /** One boot: the clock at the test, the clock in `create_backup`, whether it succeeds, and whether an
      archive is there afterwards. */
  datatype Boot = Boot(now: int, created: int, succeeds: bool, leaves: bool)

  function Leaves<B>(creation: Creation<B>): bool {
    creation.Written? || creation.partial.Some?
  }

  predicate Due(s: set<int>, now: int) {
    s == {} || now - Listed(s)[|s| - 1] * MICROS >= DAY * MICROS
  }

  /** The archives after a boot. */
  function Booted(s: set<int>, b: Boot): set<int> {
    if !Due(s, b.now) || !b.leaves then s
    else if b.succeeds then Pruned(s + {Stamp(b.created)})
    else s + {Stamp(b.created)}
  }

  ghost function BootedAll(s: set<int>, boots: seq<Boot>): set<int> {
    if boots == [] then s else Booted(BootedAll(s, boots[..|boots| - 1]), boots[|boots| - 1])
  }

  /** The stamps of the archives made by a run of boots, in order. */
  ghost function Made(s: set<int>, boots: seq<Boot>): seq<int> {
    if boots == [] then [] else
      var before := boots[..|boots| - 1];
      var b := boots[|boots| - 1];
      Made(s, before) + if Due(BootedAll(s, before), b.now) && b.leaves then [Stamp(b.created)] else []
  }

  /** No archive was stamped within the last 24 hours; `now` is in microseconds. */
  ghost predicate NoneInLastDay(s: set<int>, now: int) {
    forall x <- s :: now - x * 1_000_000 >= 24 * 3600 * 1_000_000
  }

  /** Then a backup is due, and only then. */
  lemma DueTells(s: set<int>, now: int)
    ensures Due(s, now) <==> NoneInLastDay(s, now)
  {
    var c := Listed(s);
    ListedIsSorted(s);
    hide Listed;
    if s != {} {
      var newest := c[|s| - 1];
      assert newest in c;
      forall x | x in s ensures x <= newest {
        var i :| 0 <= i < |c| && c[i] == x;
      }
    }
  }

  lemma DueIsDayLater(s: set<int>, now: int, created: int)
    requires now <= created && Due(s, now)
    ensures forall x <- s :: Stamp(created) >= x + DAY
  {
    var c := Listed(s);
    ListedIsSorted(s);
    hide Listed;
    forall x | x in s ensures Stamp(created) >= x + DAY {
      var i :| 0 <= i < |c| && c[i] == x;
    }
  }

  /** A boot that makes an archive stamps it a day or more after every other, and pruning never drops it. */
  lemma BootIsDayLater(s: set<int>, b: Boot)
    requires b.now <= b.created && Due(s, b.now) && b.leaves
    ensures forall x <- s :: Stamp(b.created) >= x + 86400
    ensures Stamp(b.created) in Booted(s, b) && forall x <- Booted(s, b) :: x <= Stamp(b.created)
  {
    DueIsDayLater(s, b.now, b.created);
    hide Listed, Due, Stamp, Week;
    assert NewestOfWeek(s + {Stamp(b.created)}, Stamp(b.created));
  }

  /** What a boot makes is a day or more after everything that was there or was made before. */
  lemma MadeIsDayLater(s: set<int>, before: seq<Boot>, b: Boot)
    requires b.now <= b.created && Due(BootedAll(s, before), b.now) && b.leaves
    ensures forall x | x in s || x in Made(s, before) :: Stamp(b.created) >= x + DAY
  {
    var t := BootedAll(s, before);
    WeeksSurvive(s, before);
    BootIsDayLater(t, b);
    hide *;
    forall x | x in s || x in Made(s, before) ensures Stamp(b.created) >= x + DAY {
      var y :| y in t && y >= x;
    }
  }

  /** The archives made are a day or more apart, the first a day or more after all that were there; the last
      is still there; and nothing else has appeared. */
  ghost predicate DaysApart(s: set<int>, made: seq<int>, after: set<int>) {
    && (forall i, j :: 0 <= i < j < |made| ==> made[j] >= made[i] + 86400)
    && (forall x, y :: x in s && y in made ==> y >= x + 86400)
    && (made != [] ==> made[|made| - 1] in after)
    && (forall x <- after :: x in s || x in made)
  }

  lemma DaysApartLonger(s: set<int>, made: seq<int>, before: set<int>, stamp: int, after: set<int>)
    requires DaysApart(s, made, before) && (forall x | x in s || x in made :: stamp >= x + DAY)
    requires stamp in after && forall x <- after :: x in before || x == stamp
    ensures DaysApart(s, made + [stamp], after)
  {
    var longer := made + [stamp];
    forall i, j | 0 <= i < j < |longer| ensures longer[j] >= longer[i] + DAY {
      if j == |made| { assert made[i] in made; }
    }
    forall x, y | x in s && y in longer ensures y >= x + DAY {
      assert y in made || y == stamp;
    }
  }

  /** Over any run of boots, from any archives. */
  lemma {:induction false} BootsAreDaysApart(s: set<int>, boots: seq<Boot>)
    requires forall b <- boots :: b.now <= b.created
    ensures DaysApart(s, Made(s, boots), BootedAll(s, boots))
    decreases |boots|
  {
    hide DaysApart;
    if boots == [] {
      NothingMade(s);
    } else {
      var before, b := boots[..|boots| - 1], boots[|boots| - 1];
      BootsAreDaysApart(s, before);
      var t, made := BootedAll(s, before), Made(s, before);
      if Due(t, b.now) && b.leaves {
        MadeIsDayLater(s, before, b);
        BootIsDayLater(t, b);
        assert Booted(t, b) <= t + {Stamp(b.created)};
        hide Booted, Due, Stamp;
        DaysApartLonger(s, made, t, Stamp(b.created), Booted(t, b));
      } else {
        assert Booted(t, b) == t && Made(s, boots) == made;
      }
    }
  }

  lemma NothingMade(s: set<int>)
    ensures DaysApart(s, [], s)
  {
  }

  /** Over any run of boots no week loses its last archive: whatever was there or was made still has one of its
      week, at least as new. */
  lemma {:induction false} WeeksSurvive(s: set<int>, boots: seq<Boot>)
    ensures forall x | x in s || x in Made(s, boots) ::
      exists y :: y in BootedAll(s, boots) && y >= x && Week(y) == Week(x)
    decreases |boots|
  {
    hide Week, Listed, Due, Stamp;
    if boots == [] {
      forall x | x in s || x in Made(s, boots)
        ensures exists y :: y in BootedAll(s, boots) && y >= x && Week(y) == Week(x)
      {
        assert x in BootedAll(s, boots);
      }
    } else {
      var before, b := boots[..|boots| - 1], boots[|boots| - 1];
      WeeksSurvive(s, before);
      var t := BootedAll(s, before);
      forall x | x in s || x in Made(s, boots)
        ensures exists y :: y in BootedAll(s, boots) && y >= x && Week(y) == Week(x)
      {
        var z: int;
        if x in s || x in Made(s, before) {
          z :| z in t && z >= x && Week(z) == Week(x);
        } else {
          z := x;
        }
        BootKeepsWeek(t, b, z);
      }
    }
  }

  lemma BootKeepsWeek(t: set<int>, b: Boot, z: int)
    requires z in t || (Due(t, b.now) && b.leaves && z == Stamp(b.created))
    ensures exists y :: y in Booted(t, b) && y >= z && Week(y) == Week(z)
  {
    hide Week, Listed, Stamp, Due;
    if Due(t, b.now) && b.leaves && b.succeeds {
      var y := EveryWeekSurvives(t + {Stamp(b.created)}, z);
      assert y in Booted(t, b);
    } else {
      assert z in Booted(t, b);
    }
  }
}
