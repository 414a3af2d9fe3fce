/** Startup repair: a corrupt database makes way for the newest usable snapshot. */
module DatabaseRepair {
  import Backups
  import opened Text

  type Bytes = string

  datatype Path = Path(directory: string, name: string)

  /** What extracting the database from an archive gives; damaged data raises after `partial` was written. */
  datatype Member = Intact(bytes: Bytes) | Damaged(partial: Bytes)

  /** An archive: one that cannot be opened, or its members by name. */
  datatype Archive = Unopenable | Readable(members: map<string, Member>)

  datatype Outcome = Fine | Repaired | Quarantined | Raised

  datatype Result = Result(outcome: Outcome, files: map<Path, Bytes>)

  /** What the repair works on: `database` and `snapshot` are where the database belongs and where an archive
      extracts it; `quarantine` is the timed name beside the database. On the desktop the database lives in
      the data directory, so the first two are the same path. */
  datatype Layout = Layout(directory: string, dataDirectory: string, name: string, corruptName: string) {
    function Database(): Path { Path(directory, name) }
    function Snapshot(): Path { Path(dataDirectory, name) }
    function Quarantine(): Path { Path(directory, corruptName) }
    predicate Valid() { corruptName != name }
    predicate Desktop() { directory == dataDirectory }
  }

  /** `path.replace(target)`. */
  function Replace(files: map<Path, Bytes>, path: Path, target: Path): map<Path, Bytes>
    requires path in files
  {
    if path == target then files else (files - {path})[target := files[path]]
  }

  /** One archive holds no database. */
  predicate Lacks(a: Archive, name: string) {
    a.Readable? && name !in a.members
  }

  predicate Usable(a: Archive, name: string, validates: Bytes -> bool) {
    a.Readable? && name in a.members && a.members[name].Intact? && validates(a.members[name].bytes)
  }

  /** Opening the archive, or extracting the database from it, raises. */
  predicate Broken(a: Archive, name: string) {
    a.Unopenable? || (name in a.members && a.members[name].Damaged?)
  }

  /** The archives' loop, newest first. */
  function Restored(l: Layout, archives: seq<Archive>, files: map<Path, Bytes>, validates: Bytes -> bool): Result {
    if archives == [] then Result(Quarantined, files) else
      var a := archives[0];
      if a.Unopenable? then Result(Raised, files)
      else if l.name !in a.members then Restored(l, archives[1..], files, validates)
      else
        match a.members[l.name]
        case Damaged(partial) => Result(Raised, files[l.Snapshot() := partial])
        case Intact(bytes) =>
          var extracted := files[l.Snapshot() := bytes];
          if validates(bytes) then Result(Repaired, Replace(extracted, l.Snapshot(), l.Database()))
          else Restored(l, archives[1..], extracted - {l.Snapshot()}, validates)
  }

  predicate Corrupt(l: Layout, files: map<Path, Bytes>, validates: Bytes -> bool) {
    l.Database() in files && !validates(files[l.Database()])
  }

  function VerifiedOrRepaired(l: Layout, archives: seq<Archive>, files: map<Path, Bytes>, validates: Bytes -> bool): Result {
    if !Corrupt(l, files, validates) then Result(Fine, files)
    else Restored(l, archives, Replace(files, l.Database(), l.Quarantine()), validates)
  }

  // ------------------------------------------------------------- what it leaves

  /** The newest archive that is usable or raises, or the number of archives when there is none. */
  function Decisive(archives: seq<Archive>, name: string, validates: Bytes -> bool): (d: nat)
    ensures d <= |archives|
    ensures d < |archives| ==> Usable(archives[d], name, validates) || Broken(archives[d], name)
    ensures forall i :: 0 <= i < d ==> !Usable(archives[i], name, validates) && !Broken(archives[i], name)
  {
    if archives == [] || Usable(archives[0], name, validates) || Broken(archives[0], name) then 0
    else 1 + Decisive(archives[1..], name, validates)
  }

  /** The bytes at the database path after the loop. */
  ghost function Expected(l: Layout, archives: seq<Archive>, validates: Bytes -> bool): Option<Bytes> {
    var d := Decisive(archives, l.name, validates);
    if d == |archives| then None
    else if Usable(archives[d], l.name, validates) then Some(archives[d].members[l.name].bytes)
    else if archives[d].Readable? && l.Desktop() then Some(archives[d].members[l.name].partial)
    else None
  }

  ghost predicate SameElsewhere(l: Layout, after: map<Path, Bytes>, before: map<Path, Bytes>) {
    forall p :: p != l.Database() && p != l.Snapshot() && p != l.Quarantine() ==> FileAt(after, p) == FileAt(before, p)
  }

  /** The file at a path. */
  function FileAt(files: map<Path, Bytes>, p: Path): Option<Bytes> {
    if p in files then Some(files[p]) else None
  }

  /** The loop ends as the newest usable or raising archive decides, and touches only the two database paths. */
  lemma {:induction false} LoopDecided(l: Layout, archives: seq<Archive>, files: map<Path, Bytes>,
                                       validates: Bytes -> bool)
    requires l.Valid() && l.Database() !in files
    ensures var d, r := Decisive(archives, l.name, validates), Restored(l, archives, files, validates);
      && r.outcome == (if d == |archives| then Quarantined
                       else if Usable(archives[d], l.name, validates) then Repaired else Raised)
      && FileAt(r.files, l.Database()) == Expected(l, archives, validates)
      && FileAt(r.files, l.Quarantine()) == FileAt(files, l.Quarantine())
      && SameElsewhere(l, r.files, files)
    decreases |archives|
  {
    if archives != [] && !Usable(archives[0], l.name, validates) && !Broken(archives[0], l.name) {
      var a, rest := archives[0], archives[1..];
      var next := if Lacks(a, l.name) then files else files[l.Snapshot() := a.members[l.name].bytes] - {l.Snapshot()};
      LoopDecided(l, rest, next, validates);
    }
  }

  /** With readable archives the database path ends empty or holding a file that validates; a corrupt original
      survives byte for byte under the quarantine name; "repaired" means the bytes come from the newest archive
      whose snapshot validates; and nothing else changes. */
  lemma NoCorruptDatabase(l: Layout, archives: seq<Archive>, files: map<Path, Bytes>, validates: Bytes -> bool)
    requires l.Valid() && forall a <- archives :: !Broken(a, l.name)
    ensures var r := VerifiedOrRepaired(l, archives, files, validates);
      && r.outcome != Raised
      && !Corrupt(l, r.files, validates)
      && (r.outcome == Fine <==> !Corrupt(l, files, validates))
      && (r.outcome == Fine ==> r.files == files)
      && (r.outcome != Fine ==> FileAt(r.files, l.Quarantine()) == FileAt(files, l.Database()))
      && (r.outcome == Quarantined ==> l.Database() !in r.files && forall a <- archives :: !Usable(a, l.name, validates))
      && (r.outcome == Repaired ==> FromNewestUsable(l, archives, r.files, validates))
      && SameElsewhere(l, r.files, files)
  {
    if Corrupt(l, files, validates) {
      LoopDecided(l, archives, Replace(files, l.Database(), l.Quarantine()), validates);
      var d := Decisive(archives, l.name, validates);
      if d < |archives| { assert archives[d] in archives; }
    }
  }

  ghost predicate FromNewestUsable(l: Layout, archives: seq<Archive>, files: map<Path, Bytes>,
                                   validates: Bytes -> bool) {
    exists d :: 0 <= d < |archives| && Usable(archives[d], l.name, validates)
                && (forall i :: 0 <= i < d ==> !Usable(archives[i], l.name, validates))
                && FileAt(files, l.Database()) == Some(archives[d].members[l.name].bytes)
  }

  /** The call raises exactly when the database is corrupt and, newest first, a broken archive comes before any
      usable one; the corrupt original is in quarantine even then. */
  lemma RaisesExactly(l: Layout, archives: seq<Archive>, files: map<Path, Bytes>, validates: Bytes -> bool)
    requires l.Valid()
    ensures var r := VerifiedOrRepaired(l, archives, files, validates);
      && (r.outcome == Raised <==> Corrupt(l, files, validates) && BrokenFirst(archives, l.name, validates))
      && (Corrupt(l, files, validates) ==> FileAt(r.files, l.Quarantine()) == FileAt(files, l.Database()))
  {
    if Corrupt(l, files, validates) {
      LoopDecided(l, archives, Replace(files, l.Database(), l.Quarantine()), validates);
      var d := Decisive(archives, l.name, validates);
      if d < |archives| && !Usable(archives[d], l.name, validates) { assert BrokenFirst(archives, l.name, validates); }
    }
  }

  ghost predicate BrokenFirst(archives: seq<Archive>, name: string, validates: Bytes -> bool) {
    exists d :: 0 <= d < |archives| && Broken(archives[d], name)
                && forall i :: 0 <= i < d ==> !Usable(archives[i], name, validates)
  }

  /** A corrupt database is left behind exactly on the desktop, when the first archive to raise does so while
      its database is being extracted and the bytes extracted until then do not validate. */
  lemma CorruptLeftExactly(l: Layout, archives: seq<Archive>, files: map<Path, Bytes>, validates: Bytes -> bool)
    requires l.Valid()
    ensures var d := Decisive(archives, l.name, validates);
      Corrupt(l, VerifiedOrRepaired(l, archives, files, validates).files, validates) <==>
        (Corrupt(l, files, validates) && l.Desktop() && d < |archives| && archives[d].Readable?
         && archives[d].members[l.name].Damaged? && !validates(archives[d].members[l.name].partial))
  {
    if Corrupt(l, files, validates) {
      LoopDecided(l, archives, Replace(files, l.Database(), l.Quarantine()), validates);
    }
  }

  /** A desktop whose one archive is damaged: the call raises and leaves half a database. */
  lemma DamagedArchiveLeavesCorrupt()
    ensures var l := Layout("data", "data", "app.db", "corrupt.db");
      var database, quarantine := Path("data", "app.db"), Path("data", "corrupt.db");
      VerifiedOrRepaired(l, [Readable(map["app.db" := Damaged("half")])], map[database := "bad"], s => s == "good")
      == Result(Raised, map[quarantine := "bad", database := "half"])
  {
    var l := Layout("data", "data", "app.db", "corrupt.db");
    var files := map[l.Database() := "bad"];
    assert "bad" != "good" by { assert |"bad"| != |"good"|; }
    assert "corrupt.db" != "app.db" by { assert |"corrupt.db"| != |"app.db"|; }
    var moved := Replace(files, l.Database(), l.Quarantine());
    assert moved == map[l.Quarantine() := "bad"];
    assert moved[l.Snapshot() := "half"] == map[l.Quarantine() := "bad", l.Database() := "half"];
  }

  // ------------------------------------------------------------ the file system

  lemma ArchivesOfStep(archives: map<int, Archive>, stamps: seq<int>, n: nat)
    requires n < |stamps| && stamps[n] in archives
    ensures var all := ArchivesOf(archives, stamps[..n + 1]);
      |all| > 0 && all[0] == archives[stamps[n]] && all[1..] == ArchivesOf(archives, stamps[..n])
  {
    assert stamps[..n + 1][..n] == stamps[..n];
  }

  /** The archives with some stamps, from the last stamp to the first. */
  function ArchivesOf(archives: map<int, Archive>, stamps: seq<int>): (r: seq<Archive>)
    ensures |r| <= |stamps|
  {
    if stamps == [] then [] else
      var n := |stamps| - 1;
      (if stamps[n] in archives then [archives[stamps[n]]] else []) + ArchivesOf(archives, stamps[..n])
  }

  lemma {:induction false} ArchiveAt(archives: map<int, Archive>, stamps: seq<int>)
    requires forall i :: 0 <= i < |stamps| ==> stamps[i] in archives
    ensures var all := ArchivesOf(archives, stamps);
      |all| == |stamps| && forall i :: 0 <= i < |stamps| ==> all[i] == archives[stamps[|stamps| - 1 - i]]
    decreases |stamps|
  {
    if stamps != [] {
      var n := |stamps| - 1;
      ArchiveAt(archives, stamps[..n]);
      assert stamps == stamps[..n] + [stamps[n]];
    }
  }

  /** The stamp is that of the newest archive that is usable or broken. */
  ghost predicate Decides(archives: map<int, Archive>, stamp: int, name: string, validates: Bytes -> bool) {
    && stamp in archives && (Usable(archives[stamp], name, validates) || Broken(archives[stamp], name))
    && forall t <- archives :: t > stamp ==> !Usable(archives[t], name, validates) && !Broken(archives[t], name)
  }

  /** Along the listing from its end, the deciding archive is the one with the greatest stamp that can decide. */
  lemma NewestDecides(archives: map<int, Archive>, name: string, validates: Bytes -> bool)
    ensures var all := ArchivesOf(archives, Backups.Listed(archives.Keys));
      var d := Decisive(all, name, validates);
      if d == |all| then forall t <- archives :: !Usable(archives[t], name, validates) && !Broken(archives[t], name)
      else exists stamp :: Decides(archives, stamp, name, validates) && archives[stamp] == all[d]
  {
    var stamps := Backups.Listed(archives.Keys);
    Backups.ListedIsSorted(archives.Keys);
    hide Backups.Listed, Usable, Broken, ArchivesOf, Decisive;
    ArchiveAt(archives, stamps);
    var all := ArchivesOf(archives, stamps);
    var d := Decisive(all, name, validates);
    forall t | t in archives && (d < |all| ==> t > stamps[|stamps| - 1 - d])
      ensures !Usable(archives[t], name, validates) && !Broken(archives[t], name)
    {
      var j := Behind(stamps, d, t);
      assert all[j] == archives[t];
    }
    if d < |all| {
      var stamp := stamps[|stamps| - 1 - d];
      assert stamp in stamps;
      assert all[d] == archives[stamp] && Decides(archives, stamp, name, validates);
    }
  }

  /** Where a stamp newer than the one at `d` from the end stands, counted from the end. */
  lemma Behind(stamps: seq<int>, d: nat, t: int) returns (j: nat)
    requires Backups.Rising(stamps) && t in stamps && d <= |stamps|
    requires d < |stamps| ==> t > stamps[|stamps| - 1 - d]
    ensures j < d && stamps[|stamps| - 1 - j] == t
  {
    var k :| 0 <= k < |stamps| && stamps[k] == t;
    j := |stamps| - 1 - k;
  }

  /** The outcome and the database told by the stamps. */
  lemma Told(archives: map<int, Archive>, l: Layout, files: map<Path, Bytes>, validates: Bytes -> bool)
    requires l.Valid()
    ensures var r := VerifiedOrRepaired(l, ArchivesOf(archives, Backups.Listed(archives.Keys)), files, validates);
      var database := FileAt(files, Path(l.directory, l.name));
      && (r.outcome == Fine <==> database.None? || validates(database.value))
      && (r.outcome == Fine ==> r.files == files)
      && (r.outcome != Fine ==> FileAt(r.files, Path(l.directory, l.corruptName)) == database)
      && (r.outcome == Repaired ==>
            exists stamp :: Decides(archives, stamp, l.name, validates) && Usable(archives[stamp], l.name, validates)
              && FileAt(r.files, Path(l.directory, l.name)) == Some(archives[stamp].members[l.name].bytes))
      && (r.outcome == Raised ==>
            exists stamp :: Decides(archives, stamp, l.name, validates) && Broken(archives[stamp], l.name))
      && (r.outcome == Quarantined ==>
            && Path(l.directory, l.name) !in r.files
            && forall stamp <- archives :: !Usable(archives[stamp], l.name, validates) && !Broken(archives[stamp], l.name))
  {
    var all := ArchivesOf(archives, Backups.Listed(archives.Keys));
    NewestDecides(archives, l.name, validates);
    hide ArchivesOf, Decides;
    if Corrupt(l, files, validates) {
      var moved := Replace(files, l.Database(), l.Quarantine());
      LoopDecided(l, all, moved, validates);
      hide Restored, Decisive;
    }
  }

  class DataDirectory {
    var files: map<Path, Bytes>
    const archives: map<int, Archive>

    constructor (files: map<Path, Bytes>, archives: map<int, Archive>)
      ensures this.files == files && this.archives == archives
    {
      this.files, this.archives := files, archives;
    }

    /** The archives, newest first. */
    ghost function NewestFirst(): seq<Archive> {
      ArchivesOf(archives, Backups.Listed(archives.Keys))
    }

    method VerifyOrRepairDatabase(l: Layout, validates: Bytes -> bool) returns (outcome: Outcome)
      requires l.Valid()
      modifies this
      ensures Result(outcome, files) == VerifiedOrRepaired(l, NewestFirst(), old(files), validates)
      ensures var database := FileAt(old(files), Path(l.directory, l.name));
        && (outcome == Fine <==> database.None? || validates(database.value))
        && (outcome == Fine ==> files == old(files))
        && (outcome != Fine ==> FileAt(files, Path(l.directory, l.corruptName)) == database)
      ensures outcome == Repaired ==>
        exists stamp :: Decides(archives, stamp, l.name, validates) && Usable(archives[stamp], l.name, validates)
          && FileAt(files, Path(l.directory, l.name)) == Some(archives[stamp].members[l.name].bytes)
      ensures outcome == Raised ==>
        exists stamp :: Decides(archives, stamp, l.name, validates) && Broken(archives[stamp], l.name)
      ensures outcome == Quarantined ==>
        && Path(l.directory, l.name) !in files
        && forall stamp <- archives :: !Usable(archives[stamp], l.name, validates) && !Broken(archives[stamp], l.name)
    {
      Told(archives, l, files, validates);
      if l.Database() !in files || validates(files[l.Database()]) {
        return Fine;
      }
      files := Replace(files, l.Database(), l.Quarantine());
      var listed := Backups.Listed(archives.Keys);
      Backups.ListedIsSorted(archives.Keys);
      ghost var expected := Restored(l, ArchivesOf(archives, listed), files, validates);
      hide Backups.Listed, Corrupt, ArchivesOf;
      var n := |listed|;
      assert listed[..n] == listed;
      while n > 0
        invariant 0 <= n <= |listed|
        invariant Restored(l, ArchivesOf(archives, listed[..n]), files, validates) == expected
      {
        n := n - 1;
        assert listed[n] in listed;
        ArchivesOfStep(archives, listed, n);
        var archive := archives[listed[n]];
        if archive.Unopenable? {
          return Raised;
        }
        if l.name in archive.members {
          match archive.members[l.name]
          case Damaged(partial) =>
            files := files[l.Snapshot() := partial];
            return Raised;
          case Intact(bytes) =>
            files := files[l.Snapshot() := bytes];
            if validates(files[l.Snapshot()]) {
              files := Replace(files, l.Snapshot(), l.Database());
              return Repaired;
            }
            files := files - {l.Snapshot()};
        }
      }
      return Quarantined;
    }
  }
}
