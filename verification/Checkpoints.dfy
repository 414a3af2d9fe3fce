/** Checkpoint retention: a comparison of hexadecimal texts stands in for a comparison of times. */
module Checkpoints {
  import opened Text

  // ------------------------------------------------------- hexadecimal texts

  /** `n` in exactly `width` lower-case hexadecimal digits. */
  function Hex(n: nat, width: nat): (s: string)
    ensures |s| == width
  {
    if width == 0 then "" else Hex(n / 16, width - 1) + [HexChar(n % 16)]
  }

  function Pow16(n: nat): nat {
    if n == 0 then 1 else 16 * Pow16(n - 1)
  }

  /** Over zero-padded texts of one width the order of texts is the order of numbers. */
  lemma {:induction false} HexOrder(m: nat, n: nat, width: nat)
    requires m < Pow16(width) && n < Pow16(width)
    ensures Less(Hex(m, width), Hex(n, width)) <==> m < n
    ensures Hex(m, width) == Hex(n, width) <==> m == n
    decreases width
  {
    if width > 0 {
      HexOrder(m / 16, n / 16, width - 1);
      LessSnoc(Hex(m / 16, width - 1), Hex(n / 16, width - 1), HexChar(m % 16), HexChar(n % 16));
      SnocEqual(Hex(m / 16, width - 1), Hex(n / 16, width - 1), HexChar(m % 16), HexChar(n % 16));
    }
  }

  lemma SnocEqual(a: string, b: string, x: char, y: char)
    requires |a| == |b|
    ensures a + [x] == b + [y] <==> a == b && x == y
  {
    if a + [x] == b + [y] {
      assert (a + [x])[..|a|] == a && (b + [y])[..|b|] == b;
      assert (a + [x])[|a|] == x && (b + [y])[|b|] == y;
    }
  }

  // ------------------------------------------------------------------- UUIDv6

  /** A UUID version 6: a 60-bit count of 100 ns ticks since 1582-10-15, and the low 64 bits. */
  datatype Uuid = Uuid(ticks: nat, clock: nat, node: nat) {
    ghost predicate Valid() {
      ticks < TICKS && clock < 0x1_0000 && node < 0x1_0000_0000_0000
    }
  }

  /** The text of section 5.6 of RFC 9562: time_high-time_mid-6 time_low-clock-node. */
  function UuidText(u: Uuid): string {
    Hex(u.ticks / 0x1000_0000, 8) + "-" + Hex(u.ticks / 0x1000 % 0x1_0000, 4) + "-"
    + "6" + Hex(u.ticks % 0x1000, 3) + "-" + Hex(u.clock, 4) + "-" + Hex(u.node, 12)
  }

  /** `replace(checkpoint_id, '-', '')`. */
  function WithoutDashes(s: string): string {
    if s == "" then "" else (if s[0] == '-' then "" else [s[0]]) + WithoutDashes(s[1..])
  }

  lemma {:induction false} WithoutDashesAppend(a: string, b: string)
    ensures WithoutDashes(a + b) == WithoutDashes(a) + WithoutDashes(b)
    decreases |a|
  {
    if a == "" {
      assert a + b == b;
    } else {
      assert (a + b)[1..] == a[1..] + b;
      WithoutDashesAppend(a[1..], b);
    }
  }

  lemma {:induction false} HexHasNoDash(n: nat, width: nat)
    ensures WithoutDashes(Hex(n, width)) == Hex(n, width)
    decreases width
  {
    if width > 0 {
      HexHasNoDash(n / 16, width - 1);
      WithoutDashesAppend(Hex(n / 16, width - 1), [HexChar(n % 16)]);
      assert WithoutDashes([HexChar(n % 16)]) == [HexChar(n % 16)];
    }
  }

  ghost function Dashed(a: string, b: string, c: string, d: string, e: string): string {
    a + ("-" + (b + ("-" + ("6" + (c + ("-" + (d + ("-" + e))))))))
  }

  lemma DashedText(u: Uuid)
    ensures UuidText(u) == Dashed(Hex(u.ticks / 0x1000_0000, 8), Hex(u.ticks / 0x1000 % 0x1_0000, 4),
                                  Hex(u.ticks % 0x1000, 3), Hex(u.clock, 4), Hex(u.node, 12))
  {
    hide Hex;
  }

  lemma StripsDash(s: string, rest: string)
    requires WithoutDashes(s) == s
    ensures WithoutDashes(s + ("-" + rest)) == s + WithoutDashes(rest)
  {
    assert WithoutDashes("-") == "";
    hide WithoutDashes;
    WithoutDashesAppend(s, "-" + rest);
    WithoutDashesAppend("-", rest);
    assert "" + WithoutDashes(rest) == WithoutDashes(rest);
  }

  lemma StripsDashes(a: string, b: string, c: string, d: string, e: string)
    requires forall s <- {a, b, c, d, e} :: WithoutDashes(s) == s
    ensures WithoutDashes(Dashed(a, b, c, d, e)) == a + (b + ("6" + (c + (d + e))))
  {
    assert WithoutDashes("6") == "6";
    assert forall s <- {a, b, c, d, e} :: WithoutDashes(s) == s;
    hide WithoutDashes;
    StripsDash(d, e);
    StripsDash(c, d + ("-" + e));
    WithoutDashesAppend("6", c + ("-" + (d + ("-" + e))));
    StripsDash(b, "6" + (c + ("-" + (d + ("-" + e)))));
    StripsDash(a, b + ("-" + ("6" + (c + ("-" + (d + ("-" + e)))))));
  }

  /** The stripped text starts with the top 48 bits of the time in 12 digits. */
  lemma StrippedUuid(u: Uuid)
    requires u.Valid()
    ensures |WithoutDashes(UuidText(u))| == 32
    ensures WithoutDashes(UuidText(u))[..12] == Hex(u.ticks / 0x1000, 12)
  {
    var a, b, c := Hex(u.ticks / 0x1000_0000, 8), Hex(u.ticks / 0x1000 % 0x1_0000, 4), Hex(u.ticks % 0x1000, 3);
    var d, e := Hex(u.clock, 4), Hex(u.node, 12);
    HexHasNoDash(u.ticks / 0x1000_0000, 8);
    HexHasNoDash(u.ticks / 0x1000 % 0x1_0000, 4);
    HexHasNoDash(u.ticks % 0x1000, 3);
    HexHasNoDash(u.clock, 4);
    HexHasNoDash(u.node, 12);
    DashedText(u);
    StripsDashes(a, b, c, d, e);
    HexSplit(u.ticks / 0x1000);
    assert u.ticks / 0x1000 / 0x1_0000 == u.ticks / 0x1000_0000;
    hide Hex, WithoutDashes, Dashed, UuidText;
    assert (a + (b + ("6" + (c + (d + e)))))[..12] == a + b;
  }

  /** Two ids have the same text exactly when they are the same. */
  lemma UuidTextInjective(u: Uuid, v: Uuid)
    requires u.Valid() && v.Valid()
    ensures UuidText(u) == UuidText(v) <==> u == v
  {
    if UuidText(u) == UuidText(v) {
      var t := UuidText(u);
      UuidParts(u);
      UuidParts(v);
      hide UuidText;
      PowersOf16();
      HexOrder(u.ticks / 0x1000_0000, v.ticks / 0x1000_0000, 8);
      HexOrder(u.ticks / 0x1000 % 0x1_0000, v.ticks / 0x1000 % 0x1_0000, 4);
      HexOrder(u.ticks % 0x1000, v.ticks % 0x1000, 3);
      HexOrder(u.clock, v.clock, 4);
      HexOrder(u.node, v.node, 12);
      TicksParts(u.ticks);
      TicksParts(v.ticks);
    }
  }

  lemma UuidParts(u: Uuid)
    ensures var t := UuidText(u);
      && |t| == 36 && t[..8] == Hex(u.ticks / 0x1000_0000, 8) && t[9..13] == Hex(u.ticks / 0x1000 % 0x1_0000, 4)
      && t[15..18] == Hex(u.ticks % 0x1000, 3) && t[19..23] == Hex(u.clock, 4) && t[24..] == Hex(u.node, 12)
  {
    hide Hex;
  }

  lemma PowersOf16()
    ensures Pow16(3) == 0x1000 && Pow16(4) == 0x1_0000 && Pow16(8) == 0x1_0000_0000 && Pow16(12) == 0x1_0000_0000_0000
  {
    assert Pow16(4) == 0x1_0000;
    assert Pow16(8) == 0x1_0000 * Pow16(4);
    assert Pow16(12) == 0x1_0000 * Pow16(8);
  }

  lemma TicksParts(n: nat)
    ensures n == (n / 0x1000_0000) * 0x1000_0000 + (n / 0x1000 % 0x1_0000) * 0x1000 + n % 0x1000
  {
    assert n / 0x1000 / 0x1_0000 == n / 0x1000_0000;
  }

  lemma Digits(n: nat)
    ensures var r := n % 0x1_0000;
      && r % 16 == n % 16 && r / 16 % 16 == n / 16 % 16 && r / 16 / 16 % 16 == n / 16 / 16 % 16
      && r / 16 / 16 / 16 % 16 == n / 16 / 16 / 16 % 16
      && n / 16 / 16 / 16 / 16 == n / 0x1_0000 && r / 16 / 16 / 16 / 16 == 0
  {
    var h, r := n / 0x1_0000, n % 0x1_0000;
    assert n == 0x1_0000 * h + r;
    assert n / 16 == 0x1000 * h + r / 16;
    assert n / 16 / 16 == 0x100 * h + r / 16 / 16;
    assert n / 16 / 16 / 16 == 0x10 * h + r / 16 / 16 / 16;
  }

  /** Twelve digits are eight digits of the high part and four of the low part. */
  lemma HexSplit(n: nat)
    ensures Hex(n, 12) == Hex(n / 0x1_0000, 8) + Hex(n % 0x1_0000, 4)
  {
    Digits(n);
    HexUnfold4(n, 12);
    HexUnfold4(n % 0x1_0000, 4);
    assert Hex(n % 0x1_0000 / 16 / 16 / 16 / 16, 0) == "";
    hide Hex;
  }

  lemma HexUnfold4(n: nat, width: nat)
    requires width >= 4
    ensures Hex(n, width) == Hex(n / 16 / 16 / 16 / 16, width - 4)
      + [HexChar(n / 16 / 16 / 16 % 16), HexChar(n / 16 / 16 % 16), HexChar(n / 16 % 16), HexChar(n % 16)]
  {
    var a, b, c := n / 16, n / 16 / 16, n / 16 / 16 / 16;
    assert Hex(n, width) == Hex(a, width - 1) + [HexChar(n % 16)];
    assert Hex(a, width - 1) == Hex(b, width - 2) + [HexChar(a % 16)];
    assert Hex(b, width - 2) == Hex(c, width - 3) + [HexChar(b % 16)];
    assert Hex(c, width - 3) == Hex(c / 16, width - 4) + [HexChar(c % 16)];
    hide Hex, HexChar;
  }

  // ------------------------------------------------------------------ cutoff

  const GREGORIAN_100NS := 122192928000000000
  const MS_PER_100NS := 10_000
  const TICKS := 0x1000_0000_0000_0000

  /** The cutoff in 100 ns ticks. */
  function Cutoff(nowMs: int, ttlDays: int): int {
    (nowMs - ttlDays * 86_400_000) * MS_PER_100NS + GREGORIAN_100NS
  }

  /** Its top 48 bits in 12 digits; over 60-bit cutoffs the source's format pads and never overflows. */
  function StalePrefix(nowMs: int, ttlDays: int): string
    requires 0 <= Cutoff(nowMs, ttlDays) < TICKS
  {
    Hex(Cutoff(nowMs, ttlDays) / 0x1000, 12)
  }

  /** The comparison of texts is the comparison of the top 48 bits of the times. */
  lemma StaleIsOlder(u: Uuid, cutoff: nat)
    requires u.Valid() && cutoff < TICKS
    ensures Less(WithoutDashes(UuidText(u)), Hex(cutoff / 0x1000, 12)) <==> u.ticks / 0x1000 < cutoff / 0x1000
  {
    StrippedUuid(u);
    LessPrefix(WithoutDashes(UuidText(u)), Hex(cutoff / 0x1000, 12));
    HexOrder(u.ticks / 0x1000, cutoff / 0x1000, 12);
  }

  // ------------------------------------------------------------------ tables

  datatype Row = Row(thread: string, ns: string, id: Uuid) {
    function Text(): string { WithoutDashes(UuidText(id)) }

    predicate In(thread: string, ns: string) { this.thread == thread && this.ns == ns }
  }

  /** A row of `writes`; rows of `checkpoint_writes` and `checkpoint_blobs` have the same keys. */
  datatype Write = Write(thread: string, ns: string, id: Uuid, channel: string)

  /** `group by thread_id, checkpoint_ns having max(replace(checkpoint_id, '-', '')) < prefix`. */
  predicate Stale(rows: set<Row>, thread: string, ns: string, prefix: string) {
    exists m | m in rows ::
      && m.In(thread, ns) && Less(m.Text(), prefix)
      && forall r | r in rows && r.In(thread, ns) :: !Less(m.Text(), r.Text())
  }

  /** The server's join on both columns. */
  function KeptByPair(rows: set<Row>, prefix: string): set<Row> {
    set r | r in rows && !Stale(rows, r.thread, r.ns, prefix)
  }

  /** The desktop's `thread_id || checkpoint_ns in (...)`: a stale group with the same concatenated key. */
  predicate StaleByText(rows: set<Row>, key: string, prefix: string) {
    exists s | s in rows :: s.thread + s.ns == key && Stale(rows, s.thread, s.ns, prefix)
  }

  function KeptByText(rows: set<Row>, prefix: string): set<Row> {
    set r | r in rows && !StaleByText(rows, r.thread + r.ns, prefix)
  }

  predicate HasCheckpoint(rows: set<Row>, w: Write) {
    exists c | c in rows :: c.In(w.thread, w.ns) && UuidText(c.id) == UuidText(w.id)
  }

  predicate HasGroup(rows: set<Row>, w: Write) {
    exists c | c in rows :: c.In(w.thread, w.ns)
  }

  /** Writes whose own checkpoint is still there. */
  function WritesOf(writes: set<Write>, rows: set<Row>): set<Write> {
    set w | w in writes && HasCheckpoint(rows, w)
  }

  /** Rows whose thread and namespace still have some checkpoint. */
  function WritesOfGroups(writes: set<Write>, rows: set<Row>): set<Write> {
    set w | w in writes && HasGroup(rows, w)
  }

  ghost predicate ValidRows(rows: set<Row>) {
    forall r <- rows :: r.id.Valid()
  }

  // ------------------------------------------------------------ exact pruning

  /** A group has a row with the greatest text. */
  lemma {:induction false} GreatestRow(group: set<Row>) returns (m: Row)
    requires group != {}
    ensures m in group && forall r <- group :: !Less(m.Text(), r.Text())
    decreases |group|
  {
    var x :| x in group;
    LessTotal(x.Text(), x.Text());
    if group == {x} {
      m := x;
    } else {
      var rest := group - {x};
      var n := GreatestRow(rest);
      m := if Less(n.Text(), x.Text()) then x else n;
      LessTotal(n.Text(), x.Text());
      forall r <- group ensures !Less(m.Text(), r.Text()) {
        if r != x && Less(m.Text(), r.Text()) { LessTransitive(n.Text(), m.Text(), r.Text()); }
      }
    }
  }

  /** A group is stale exactly when the top 48 bits of each of its times, and so of its newest, are below those
      of the cutoff. */
  lemma StaleExactly(rows: set<Row>, r: Row, cutoff: nat)
    requires ValidRows(rows) && r in rows && cutoff < TICKS
    ensures Stale(rows, r.thread, r.ns, Hex(cutoff / 0x1000, 12))
       <==> forall x <- rows :: x.In(r.thread, r.ns) ==> x.id.ticks / 0x1000 < cutoff / 0x1000
  {
    var prefix := Hex(cutoff / 0x1000, 12);
    var group := set x | x in rows && x.In(r.thread, r.ns);
    assert r in group;
    var m := GreatestRow(group);
    forall x <- rows ensures Less(x.Text(), prefix) <==> x.id.ticks / 0x1000 < cutoff / 0x1000 {
      StaleIsOlder(x.id, cutoff);
    }
    hide Less, Hex, UuidText, WithoutDashes;
    forall x <- rows | x.In(r.thread, r.ns) && Less(m.Text(), prefix) ensures Less(x.Text(), prefix) {
      assert x in group;
      LessTransitive(x.Text(), m.Text(), prefix);
    }
    if Stale(rows, r.thread, r.ns, prefix) {
      var g :| g in rows && g.In(r.thread, r.ns) && Less(g.Text(), prefix)
               && forall x | x in rows && x.In(r.thread, r.ns) :: !Less(g.Text(), x.Text());
      assert m in rows && m.In(r.thread, r.ns);
      LessTransitive(m.Text(), g.Text(), prefix);
    }
  }

  /** Nothing within the TTL goes, and everything at least 4096 ticks older than the cutoff goes. */
  lemma WithinTtlStays(rows: set<Row>, r: Row, newest: Row, cutoff: nat)
    requires ValidRows(rows) && r in rows && newest in rows && newest.In(r.thread, r.ns) && cutoff < TICKS
    requires forall x <- rows :: x.In(r.thread, r.ns) ==> x.id.ticks <= newest.id.ticks
    ensures newest.id.ticks >= cutoff ==> r in KeptByPair(rows, Hex(cutoff / 0x1000, 12))
    ensures newest.id.ticks + 0x1000 <= cutoff ==> r !in KeptByPair(rows, Hex(cutoff / 0x1000, 12))
  {
    StaleExactly(rows, r, cutoff);
    forall x <- rows | x.In(r.thread, r.ns) ensures x.id.ticks / 0x1000 <= newest.id.ticks / 0x1000 {}
  }

  // ------------------------------------------------ one key instead of two

  /** The concatenated key prunes like the pair exactly when no fresh group shares it with a stale one. */
  lemma TextKeyExactly(rows: set<Row>, prefix: string)
    ensures KeptByText(rows, prefix) == KeptByPair(rows, prefix)
       <==> forall r, s | r in rows && s in rows && r.thread + r.ns == s.thread + s.ns ::
              Stale(rows, s.thread, s.ns, prefix) ==> Stale(rows, r.thread, r.ns, prefix)
  {
    hide Stale;
    if KeptByText(rows, prefix) == KeptByPair(rows, prefix) {
      forall r, s | r in rows && s in rows && r.thread + r.ns == s.thread + s.ns && Stale(rows, s.thread, s.ns, prefix)
        ensures Stale(rows, r.thread, r.ns, prefix)
      {
        assert r !in KeptByText(rows, prefix);
      }
    } else {
      var r :| r in KeptByText(rows, prefix) <==> r !in KeptByPair(rows, prefix);
      assert r in rows;
    }
  }

  /** No thread id is a proper prefix of another. */
  ghost predicate PrefixFree(rows: set<Row>) {
    forall r, s | r in rows && s in rows :: r.thread <= s.thread ==> r.thread == s.thread
  }

  /** Such thread ids are a case of it: the concatenated key then tells the groups apart. */
  lemma PrefixFreeThreads(rows: set<Row>, prefix: string)
    requires PrefixFree(rows)
    ensures KeptByText(rows, prefix) == KeptByPair(rows, prefix)
  {
    TextKeyExactly(rows, prefix);
    hide Stale;
    forall r, s | r in rows && s in rows && r.thread + r.ns == s.thread + s.ns
      ensures r.thread == s.thread && r.ns == s.ns
    {
      var key := r.thread + r.ns;
      assert key[..|r.thread|] == r.thread && key[..|s.thread|] == s.thread;
      assert r.thread <= s.thread || s.thread <= r.thread;
      assert key[|r.thread|..] == r.ns && key[|s.thread|..] == s.ns;
    }
  }

  /** The text of a UUID: 36 hexadecimal digits and dashes. */
  predicate IsUuidText(s: string) {
    |s| == 36 && forall c <- s :: c == '-' || HexDigit(c) >= 0
  }

  /** The thread ids the program makes: a run or job id, a path draft of a user, a turn of a chat. */
  ghost predicate IsThreadId(t: string) {
    || IsUuidText(t)
    || (exists user :: IsUuidText(user) && t == "path_draft:" + user)
    || (exists session, message :: IsUuidText(session) && IsUuidText(message) && t == "chat:" + session + ":" + message)
  }

  /** What tells the three forms apart: their length and first two characters. */
  lemma ThreadIdForm(t: string)
    requires IsThreadId(t)
    ensures IsUuidText(t) || (|t| == 47 && t[0] == 'p') || (|t| == 78 && t[..2] == "ch")
  {
    if !IsUuidText(t) {
      hide IsUuidText;
      if user :| IsUuidText(user) && t == "path_draft:" + user {
        assert t[0] == 'p' && |user| == 36;
      } else {
        var session, message :| IsUuidText(session) && IsUuidText(message) && t == "chat:" + session + ":" + message;
        assert t[0] == 'c' && t[1] == 'h' && |session| == |message| == 36;
      }
    }
  }

  /** The thread ids the program makes are prefix-free, whichever runs, users and chats there are. */
  lemma ThreadIdsArePrefixFree(rows: set<Row>)
    requires forall r <- rows :: IsThreadId(r.thread)
    ensures PrefixFree(rows)
  {
    hide IsThreadId;
    forall r, s | r in rows && s in rows && r.thread <= s.thread
      ensures r.thread == s.thread
    {
      ThreadIdForm(r.thread);
      ThreadIdForm(s.thread);
      assert s.thread[..|r.thread|] == r.thread;
      assert r.thread[0] == s.thread[0] && r.thread[1] == s.thread[1];
      assert r.thread[0] in r.thread && r.thread[1] in r.thread;
      assert |r.thread| == |s.thread| ==> s.thread[..|r.thread|] == s.thread;
      assert s.thread[..2] == "ch" ==> s.thread[1] == 'h';
    }
  }

  /** Where one is a prefix of the other, a stale group can take a fresh one along. */
  lemma ConcatenatedKeyCollides(aged: Uuid, young: Uuid, cutoff: nat)
    requires aged.Valid() && young.Valid() && cutoff < TICKS
    requires aged.ticks / 0x1000 < cutoff / 0x1000 <= young.ticks / 0x1000
    ensures var rows, prefix := {Row("a", "bc", aged), Row("ab", "c", young)}, Hex(cutoff / 0x1000, 12);
      KeptByPair(rows, prefix) == {Row("ab", "c", young)} && KeptByText(rows, prefix) == {}
  {
    var stale, recent := Row("a", "bc", aged), Row("ab", "c", young);
    assert "a" != "ab" && "a" + "bc" == "ab" + "c";
    StaleExactly({stale, recent}, stale, cutoff);
    StaleExactly({stale, recent}, recent, cutoff);
    hide Stale, Hex;
  }

  // ------------------------------------------------------------ second prune

  /** A second prune with the same cutoff removes nothing. */
  lemma PruneTwice(rows: set<Row>, writes: set<Write>, prefix: string)
    ensures var kept := KeptByText(rows, prefix);
      KeptByText(kept, prefix) == kept && WritesOf(WritesOf(writes, kept), kept) == WritesOf(writes, kept)
    ensures var kept := KeptByPair(rows, prefix);
      && KeptByPair(kept, prefix) == kept
      && WritesOfGroups(WritesOfGroups(writes, kept), kept) == WritesOfGroups(writes, kept)
  {
    var byText, byPair := KeptByText(rows, prefix), KeptByPair(rows, prefix);
    forall r | r in byText ensures r in KeptByText(byText, prefix) {
      forall s | s in byText && s.thread + s.ns == r.thread + r.ns ensures !Stale(byText, s.thread, s.ns, prefix) {}
    }
    forall r | r in byPair ensures r in KeptByPair(byPair, prefix) {}
  }

  // ------------------------------------------------------ the tables afterwards

  /** Some checkpoint of the group is as new as the cutoff, to 4096 ticks. */
  ghost predicate Recent(rows: set<Row>, thread: string, ns: string, cutoff: int) {
    exists x | x in rows :: x.In(thread, ns) && x.id.ticks / 0x1000 >= cutoff / 0x1000
  }

  /** A row stays on the server exactly when its group is recent. */
  lemma PairKeepsRecent(rows: set<Row>, cutoff: nat)
    requires ValidRows(rows) && cutoff < TICKS
    ensures forall r <- rows :: r in KeptByPair(rows, Hex(cutoff / 0x1000, 12)) <==> Recent(rows, r.thread, r.ns, cutoff)
  {
    forall r <- rows
      ensures r in KeptByPair(rows, Hex(cutoff / 0x1000, 12)) <==> Recent(rows, r.thread, r.ns, cutoff)
    {
      StaleExactly(rows, r, cutoff);
      hide Stale, Hex;
    }
  }

  /** On the desktop it stays exactly when every group is recent whose thread and namespace read as its own. */
  ghost predicate AllRecent(rows: set<Row>, r: Row, cutoff: int) {
    forall s <- rows :: s.thread + s.ns == r.thread + r.ns ==> Recent(rows, s.thread, s.ns, cutoff)
  }

  lemma TextKeepsRecent(rows: set<Row>, cutoff: nat)
    requires ValidRows(rows) && cutoff < TICKS
    ensures forall r <- rows :: r in KeptByText(rows, Hex(cutoff / 0x1000, 12)) <==> AllRecent(rows, r, cutoff)
    ensures PrefixFree(rows) ==>
      forall r <- rows :: r in KeptByText(rows, Hex(cutoff / 0x1000, 12)) <==> Recent(rows, r.thread, r.ns, cutoff)
  {
    var prefix := Hex(cutoff / 0x1000, 12);
    PairKeepsRecent(rows, cutoff);
    assert forall r <- rows :: Stale(rows, r.thread, r.ns, prefix) <==> !Recent(rows, r.thread, r.ns, cutoff);
    hide Stale, Hex, Recent;
    if PrefixFree(rows) { PrefixFreeThreads(rows, prefix); }
  }

  /** Some checkpoint of the group was written at a time of `ms` milliseconds since 1970, or later. */
  ghost predicate WrittenSince(rows: set<Row>, thread: string, ns: string, ms: int) {
    exists x | x in rows :: x.thread == thread && x.ns == ns && x.id.ticks >= 10_000 * ms + 122192928000000000
  }

  /** All checkpoints of the group were written 4096 ticks of 100 ns before that time, or earlier. */
  ghost predicate WrittenBefore(rows: set<Row>, thread: string, ns: string, ms: int) {
    forall x | x in rows :: x.thread == thread && x.ns == ns ==> x.id.ticks + 4096 <= 10_000 * ms + 122192928000000000
  }

  /** What lies within the time to live is recent, and what is 4096 ticks beyond it is not. */
  lemma RecentIsLive(rows: set<Row>, thread: string, ns: string, nowMs: int, ttlDays: int)
    ensures WrittenSince(rows, thread, ns, nowMs - ttlDays * 86_400_000)
      ==> Recent(rows, thread, ns, Cutoff(nowMs, ttlDays))
    ensures WrittenBefore(rows, thread, ns, nowMs - ttlDays * 86_400_000)
      ==> !Recent(rows, thread, ns, Cutoff(nowMs, ttlDays))
  {
    var cutoff := Cutoff(nowMs, ttlDays);
    assert cutoff == 10_000 * (nowMs - ttlDays * 86_400_000) + 122192928000000000;
    hide Cutoff;
    forall x | x in rows
      ensures x.id.ticks >= cutoff ==> x.id.ticks / 0x1000 >= cutoff / 0x1000
      ensures x.id.ticks + 4096 <= cutoff ==> x.id.ticks / 0x1000 < cutoff / 0x1000
    {
    }
  }

  /** Exactly the rows of groups that were written to within the time to live are left: of every group, told in
      milliseconds, whatever was not written in the last 4096 ticks before the limit. */
  ghost predicate KeepsLive(before: set<Row>, after: set<Row>, ms: int) {
    forall r | r in before ::
      && (WrittenSince(before, r.thread, r.ns, ms) ==> r in after)
      && (WrittenBefore(before, r.thread, r.ns, ms) ==> r !in after)
  }

  lemma RecentKeepsLive(before: set<Row>, after: set<Row>, nowMs: int, ttlDays: int)
    requires forall r <- before :: r in after <==> Recent(before, r.thread, r.ns, Cutoff(nowMs, ttlDays))
    ensures KeepsLive(before, after, nowMs - ttlDays * 86_400_000)
  {
    hide Cutoff, Recent, WrittenSince, WrittenBefore;
    forall r | r in before
      ensures WrittenSince(before, r.thread, r.ns, nowMs - ttlDays * 86_400_000) ==> r in after
      ensures WrittenBefore(before, r.thread, r.ns, nowMs - ttlDays * 86_400_000) ==> r !in after
    {
      RecentIsLive(before, r.thread, r.ns, nowMs, ttlDays);
    }
  }

  /** Of rows stamped at whole milliseconds, the limit is exact. */
  lemma WholeMilliseconds(rows: set<Row>, thread: string, ns: string, ms: int, at: Row -> int)
    requires forall x <- rows :: x.id.ticks == 10_000 * at(x) + 122192928000000000
    ensures WrittenSince(rows, thread, ns, ms) <==> exists x | x in rows :: x.thread == thread && x.ns == ns && at(x) >= ms
    ensures WrittenBefore(rows, thread, ns, ms) <==> forall x | x in rows :: x.thread == thread && x.ns == ns ==> at(x) <= ms - 1
  {
  }

  lemma CheckpointOfItsOwn(before: set<Row>, rows: set<Row>)
    requires ValidRows(before) && rows <= before
    ensures forall w: Write | w.id.Valid() ::
      HasCheckpoint(rows, w) <==> exists c | c in rows :: c.thread == w.thread && c.ns == w.ns && c.id == w.id
  {
    hide UuidText;
    forall w: Write, c: Row | w.id.Valid() && c in rows
      ensures UuidText(c.id) == UuidText(w.id) <==> c.id == w.id
    {
      assert c in before;
      UuidTextInjective(c.id, w.id);
    }
    forall w: Write | w.id.Valid()
      ensures HasCheckpoint(rows, w) <==> exists c | c in rows :: c.thread == w.thread && c.ns == w.ns && c.id == w.id
    {
      if HasCheckpoint(rows, w) {
        var c :| c in rows && c.In(w.thread, w.ns) && UuidText(c.id) == UuidText(w.id);
        assert c.id == w.id;
      }
    }
  }

  /** The saver's tables. */
  class Store {
    var checkpoints: set<Row>
    var writes: set<Write>
    var blobs: set<Write>

    /** `prune_checkpoints` on the desktop file. */
    method PruneDesktop(nowMs: int, ttlDays: int) returns (deleted: nat)
      requires 0 <= Cutoff(nowMs, ttlDays) < TICKS
      modifies this`checkpoints, this`writes
      ensures checkpoints <= old(checkpoints) && deleted == |old(checkpoints) - checkpoints|
      ensures ValidRows(old(checkpoints)) ==>
        forall r <- old(checkpoints) :: r in checkpoints <==> AllRecent(old(checkpoints), r, Cutoff(nowMs, ttlDays))
      ensures ValidRows(old(checkpoints)) && PrefixFree(old(checkpoints)) ==>
        forall r <- old(checkpoints) ::
          r in checkpoints <==> Recent(old(checkpoints), r.thread, r.ns, Cutoff(nowMs, ttlDays))
      ensures ValidRows(old(checkpoints)) && PrefixFree(old(checkpoints)) ==>
        KeepsLive(old(checkpoints), checkpoints, nowMs - ttlDays * 86_400_000)
      ensures writes <= old(writes) && forall w <- old(writes) :: w in writes <==> HasCheckpoint(checkpoints, w)
      ensures ValidRows(old(checkpoints)) ==>
        forall w | w in old(writes) && w.id.Valid() ::
          w in writes <==> exists c | c in checkpoints :: c.thread == w.thread && c.ns == w.ns && c.id == w.id
      ensures checkpoints == KeptByText(old(checkpoints), StalePrefix(nowMs, ttlDays))
    {
      var before := checkpoints;
      if ValidRows(before) { TextKeepsRecent(before, Cutoff(nowMs, ttlDays)); }
      hide Stale, Hex, Recent, AllRecent, PrefixFree, ValidRows, HasCheckpoint, KeepsLive;
      checkpoints := KeptByText(checkpoints, StalePrefix(nowMs, ttlDays));
      if ValidRows(before) && PrefixFree(before) { RecentKeepsLive(before, checkpoints, nowMs, ttlDays); }
      deleted := |before - checkpoints|;
      writes := WritesOf(writes, checkpoints);
      if ValidRows(before) { CheckpointOfItsOwn(before, checkpoints); }
    }

    /** `prune_postgres_checkpoints` on the server. */
    method PruneServer(nowMs: int, ttlDays: int) returns (removed: nat)
      requires 0 <= Cutoff(nowMs, ttlDays) < TICKS
      modifies this
      ensures checkpoints <= old(checkpoints) && removed == |old(checkpoints) - checkpoints|
      ensures ValidRows(old(checkpoints)) ==>
        forall r <- old(checkpoints) ::
          r in checkpoints <==> Recent(old(checkpoints), r.thread, r.ns, Cutoff(nowMs, ttlDays))
      ensures ValidRows(old(checkpoints)) ==>
        KeepsLive(old(checkpoints), checkpoints, nowMs - ttlDays * 86_400_000)
      ensures forall w <- old(blobs) ::
        w in blobs <==> exists c | c in checkpoints :: c.thread == w.thread && c.ns == w.ns
      ensures forall w <- old(writes) ::
        w in writes <==> exists c | c in checkpoints :: c.thread == w.thread && c.ns == w.ns
      ensures blobs <= old(blobs) && writes <= old(writes)
      ensures checkpoints == KeptByPair(old(checkpoints), StalePrefix(nowMs, ttlDays))
    {
      var before := checkpoints;
      if ValidRows(before) { PairKeepsRecent(before, Cutoff(nowMs, ttlDays)); }
      hide Stale, Hex, Recent, ValidRows, KeepsLive;
      checkpoints := KeptByPair(checkpoints, StalePrefix(nowMs, ttlDays));
      if ValidRows(before) { RecentKeepsLive(before, checkpoints, nowMs, ttlDays); }
      removed := |before - checkpoints|;
      blobs := WritesOfGroups(blobs, checkpoints);
      writes := WritesOfGroups(writes, checkpoints);
    }
  }
}
