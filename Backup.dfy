/**
 * Backup retention (src-tauri/src/db/backup.rs). The backup directory is a
 * listing of file names; a regular backup is `flashnotes_<secs>.db`, where
 * `<secs>` is a `u64` count of seconds since the Unix epoch. From a listing
 * the model computes the time of the last backup, whether the next one is
 * due, and which files the cleanup removes so that the seven newest remain.
 */
module Backup {
  import opened Wrappers
  import opened Text
  import opened Decimal

  /** How many regular backups the cleanup keeps. */
  const MaxBackups: nat := 7
  /** A backup is due once this many seconds (24 hours) have passed since the last. */
  const BackupIntervalSecs: nat := 24 * 60 * 60

  const BackupPrefix: string := "flashnotes_"
  const BackupSuffix: string := ".db"
  const PremigrationPrefix: string := "flashnotes_premigration_"

  // ---- File names ----

  /** The position of the last `c` in `s`, if any. */
  function LastIndexOf(s: string, c: char): (r: Option<nat>)
    ensures r.Some? ==> r.value < |s|
    decreases |s|
  {
    if s == [] then None
    else if s[|s| - 1] == c then Some(|s| - 1)
    else LastIndexOf(s[..|s| - 1], c)
  }

  /** `LastIndexOf` finds the last `c`, and nothing when there is none. */
  lemma {:induction false} LastIndexOfFinds(s: string, c: char)
    ensures var r := LastIndexOf(s, c);
      r.Some? ==> s[r.value] == c && forall k :: r.value < k < |s| ==> s[k] != c
    ensures LastIndexOf(s, c).None? ==> forall k :: 0 <= k < |s| ==> s[k] != c
    decreases |s|
  {
    if s != [] && s[|s| - 1] != c {
      LastIndexOfFinds(s[..|s| - 1], c);
    }
  }

  /**
   * `Path::extension` of a bare file name: what follows the last `.`. A name
   * with no `.` after its first character has none, and neither has `..`.
   */
  function Extension(name: string): Option<string> {
    if name == ".." then None
    else
      match LastIndexOf(name, '.')
      case None => None
      case Some(i) => if i == 0 then None else Some(name[i + 1..])
  }

  /**
   * The extension is the text after the last `.`, which is preceded by a
   * non-empty stem; there is none exactly when the name is `..` or has no
   * `.` after its first character.
   */
  lemma ExtensionIsAfterLastDot(name: string)
    ensures Extension(name).None? <==> name == ".." || forall k :: 0 < k < |name| ==> name[k] != '.'
    ensures var r := Extension(name);
      r.Some? ==>
        |r.value| + 1 < |name| && name == name[..|name| - |r.value| - 1] + "." + r.value
        && forall k :: 0 <= k < |r.value| ==> r.value[k] != '.'
  {
    LastIndexOfFinds(name, '.');
    var dot := LastIndexOf(name, '.');
    if name != ".." && dot.Some? && dot.value != 0 {
      var i := dot.value;
      assert name == name[..i] + "." + name[i + 1..];
    }
  }

  /**
   * The timestamp of a regular backup: a name with the extension `db` that
   * is `flashnotes_`, a `u64` in decimal, and `.db`. Anything else, including
   * a name that is not valid UTF-8 (not representable here), has none.
   */
  function TimestampOf(name: string): Option<U64> {
    if Extension(name) != Some("db") then None
    else
      match StripPrefix(name, BackupPrefix)
      case None => None
      case Some(rest) =>
        match StripSuffix(rest, BackupSuffix)
        case None => None
        case Some(digits) => ParseU64(digits)
  }

  /** `format!("flashnotes_{}.db", timestamp)` */
  function BackupFileName(ts: U64): string {
    BackupPrefix + Format(ts) + BackupSuffix
  }

  /** `format!("flashnotes_premigration_{}.db", timestamp)` */
  function PremigrationFileName(ts: U64): string {
    PremigrationPrefix + Format(ts) + BackupSuffix
  }

  /** A non-empty stem followed by `.db` has the extension `db`. */
  lemma DbExtension(stem: string)
    requires stem != []
    ensures Extension(stem + BackupSuffix) == Some("db")
  {
    var name := stem + BackupSuffix;
    var a := name[..|name| - 1];
    var b := a[..|a| - 1];
    assert name[|name| - 1] == 'b' && a == stem + ".d" && a[|a| - 1] == 'd';
    assert b == stem + "." && b[|b| - 1] == '.';
    assert LastIndexOf(b, '.') == Some(|stem|);
    assert LastIndexOf(a, '.') == Some(|stem|);
    assert LastIndexOf(name, '.') == Some(|stem|);
    assert name[|stem| + 1..] == "db";
  }

  /**
   * The extension test is implied by the shape test: every name that is
   * `flashnotes_…​.db` has the extension `db`, so the timestamp of a name is
   * decided by its prefix, suffix and digits alone.
   */
  lemma ExtensionFilterRedundant(name: string, digits: string)
    requires name == BackupPrefix + digits + BackupSuffix
    ensures TimestampOf(name) == ParseU64(digits)
  {
    DbExtension(BackupPrefix + digits);
    assert name[..|BackupPrefix|] == BackupPrefix && name[|BackupPrefix|..] == digits + BackupSuffix;
    assert StripPrefix(name, BackupPrefix) == Some(digits + BackupSuffix);
    var rest := digits + BackupSuffix;
    assert rest[|rest| - |BackupSuffix|..] == BackupSuffix && rest[..|rest| - |BackupSuffix|] == digits;
    assert StripSuffix(digits + BackupSuffix, BackupSuffix) == Some(digits);
  }

  /** The name a backup is written under reads back as its timestamp. */
  lemma BackupNameRoundTrip(ts: U64)
    ensures TimestampOf(BackupFileName(ts)) == Some(ts)
  {
    ExtensionFilterRedundant(BackupFileName(ts), Format(ts));
    ParseFormatU64(ts);
  }

  /**
   * A pre-migration backup never has a timestamp: after `flashnotes_` comes
   * `premigration_`, which no `u64` starts with. So it is never the last
   * backup and never removed by the cleanup.
   */
  lemma PremigrationNeverParses(ts: U64)
    ensures TimestampOf(PremigrationFileName(ts)) == None
  {
    var digits := "premigration_" + Format(ts);
    assert PremigrationFileName(ts) == BackupPrefix + digits + BackupSuffix;
    ExtensionFilterRedundant(PremigrationFileName(ts), digits);
    assert digits[0] == 'p';
  }

  // ---- The listing ----

  /** A regular backup found in the listing, with its timestamp. */
  datatype BackupFile = BackupFile(name: string, ts: U64)

  /** The timestamp of each name of a listing, in listing order. */
  function Stamps(names: seq<string>): (stamps: seq<Option<U64>>)
    ensures |stamps| == |names|
  {
    seq(|names|, i requires 0 <= i < |names| => TimestampOf(names[i]))
  }

  /** The names whose stamp is present, paired with it, in listing order. */
  function Collect(names: seq<string>, stamps: seq<Option<U64>>): (bs: seq<BackupFile>)
    requires |stamps| == |names|
    ensures |bs| <= |names|
    decreases |names|
  {
    if names == [] then []
    else
      var rest := Collect(names[1..], stamps[1..]);
      match stamps[0]
      case Some(ts) => [BackupFile(names[0], ts)] + rest
      case None => rest
  }

  /** Each collected entry is a name of the listing with its stamp. */
  lemma {:induction false} CollectSound(names: seq<string>, stamps: seq<Option<U64>>, k: nat)
    requires |stamps| == |names| && k < |Collect(names, stamps)|
    ensures var b := Collect(names, stamps)[k];
      exists i :: 0 <= i < |names| && names[i] == b.name && stamps[i] == Some(b.ts)
    decreases |names|
  {
    var rest := Collect(names[1..], stamps[1..]);
    if stamps[0].Some? && k == 0 {
      assert names[0] == Collect(names, stamps)[k].name;
    } else {
      var k' := if stamps[0].Some? then k - 1 else k;
      assert Collect(names, stamps)[k] == rest[k'];
      CollectSound(names[1..], stamps[1..], k');
      var i :| 0 <= i < |names[1..]| && names[1..][i] == rest[k'].name && stamps[1..][i] == Some(rest[k'].ts);
      assert names[i + 1] == rest[k'].name && stamps[i + 1] == Some(rest[k'].ts);
    }
  }

  /** Every name of the listing that has a stamp is collected. */
  lemma {:induction false} CollectComplete(names: seq<string>, stamps: seq<Option<U64>>, i: nat)
    requires |stamps| == |names| && i < |names| && stamps[i].Some?
    ensures BackupFile(names[i], stamps[i].value) in Collect(names, stamps)
    decreases |names|
  {
    if i > 0 {
      CollectComplete(names[1..], stamps[1..], i - 1);
      assert names[1..][i - 1] == names[i] && stamps[1..][i - 1] == stamps[i];
    }
  }

  /** No name occurs twice, as in a directory listing. */
  predicate Distinct(names: seq<string>) {
    forall i, j :: 0 <= i < j < |names| ==> names[i] != names[j]
  }

  /** No two backups share a file name. */
  predicate NamesDistinct(bs: seq<BackupFile>) {
    forall i, j :: 0 <= i < j < |bs| ==> bs[i].name != bs[j].name
  }

  /** A backup put in front of others whose names all differ from its own. */
  lemma ConsNamesDistinct(b: BackupFile, rest: seq<BackupFile>)
    requires NamesDistinct(rest)
    requires forall k :: 0 <= k < |rest| ==> rest[k].name != b.name
    ensures NamesDistinct([b] + rest)
  {
    var r := [b] + rest;
    forall i, j | 0 <= i < j < |r| ensures r[i].name != r[j].name {
      assert r[j] == rest[j - 1];
      if i > 0 {
        assert r[i] == rest[i - 1];
      }
    }
  }

  /** Collecting from a listing without repeated names repeats no name. */
  lemma {:induction false} CollectDistinct(names: seq<string>, stamps: seq<Option<U64>>)
    requires |stamps| == |names| && Distinct(names)
    ensures NamesDistinct(Collect(names, stamps))
    decreases |names|
  {
    if names != [] {
      var rest := Collect(names[1..], stamps[1..]);
      CollectDistinct(names[1..], stamps[1..]);
      if stamps[0].Some? {
        forall k | 0 <= k < |rest| ensures rest[k].name != names[0] {
          CollectSound(names[1..], stamps[1..], k);
          var i :| 0 <= i < |names[1..]| && names[1..][i] == rest[k].name && stamps[1..][i] == Some(rest[k].ts);
          assert names[i + 1] == rest[k].name;
        }
        ConsNamesDistinct(BackupFile(names[0], stamps[0].value), rest);
      }
    }
  }

  /**
   * The `filter(extension == "db").filter_map(parse)` chain over a listing:
   * the names that have a timestamp, with it, in listing order.
   */
  function Backups(names: seq<string>): seq<BackupFile> {
    Collect(names, Stamps(names))
  }

  /** Only names of the listing are backups, each with its own timestamp. */
  lemma BackupsSound(names: seq<string>, k: nat)
    requires k < |Backups(names)|
    ensures Backups(names)[k].name in names
    ensures TimestampOf(Backups(names)[k].name) == Some(Backups(names)[k].ts)
  {
    CollectSound(names, Stamps(names), k);
    var i :| 0 <= i < |names| && names[i] == Backups(names)[k].name && Stamps(names)[i] == Some(Backups(names)[k].ts);
    assert Stamps(names)[i] == TimestampOf(names[i]);
  }

  /** Every name of the listing that has a timestamp is among the backups. */
  lemma BackupsComplete(names: seq<string>, i: nat)
    requires i < |names| && TimestampOf(names[i]).Some?
    ensures BackupFile(names[i], TimestampOf(names[i]).value) in Backups(names)
  {
    assert Stamps(names)[i] == TimestampOf(names[i]);
    CollectComplete(names, Stamps(names), i);
  }

  /** `.max()`: the greatest timestamp, `None` for no backups. */
  function Latest(bs: seq<BackupFile>): (r: Option<U64>)
    ensures r.None? <==> bs == []
    ensures r.Some? ==> exists k :: 0 <= k < |bs| && bs[k].ts == r.value
    ensures r.Some? ==> forall i :: 0 <= i < |bs| ==> bs[i].ts <= r.value
    decreases |bs|
  {
    if bs == [] then None
    else
      match Latest(bs[1..])
      case None => Some(bs[0].ts)
      case Some(m) =>
        if bs[0].ts >= m then Some(bs[0].ts)
        else
          var k :| 0 <= k < |bs[1..]| && bs[1..][k].ts == m;
          assert bs[k + 1].ts == m;
          Some(m)
  }

  /**
   * `get_last_backup_time`: the greatest timestamp among the regular
   * backups, and 0 when there is none or the directory cannot be listed
   * (`None`).
   */
  function LastBackupTime(dir: Option<seq<string>>): (r: U64)
    ensures dir.None? ==> r == 0
    ensures dir.Some? ==> forall i :: 0 <= i < |dir.value| && TimestampOf(dir.value[i]).Some? ==>
      TimestampOf(dir.value[i]).value <= r
    ensures dir.Some? && (exists i :: 0 <= i < |dir.value| && TimestampOf(dir.value[i]).Some?) ==>
      exists name :: name in dir.value && TimestampOf(name) == Some(r)
    ensures dir.Some? && (forall i :: 0 <= i < |dir.value| ==> TimestampOf(dir.value[i]).None?) ==> r == 0
  {
    match dir
    case None => 0
    case Some(names) =>
      LatestOfListing(names);
      Latest(Backups(names)).GetOr(0)
  }

  /**
   * The latest of the backups in a listing bounds every timestamp in it, and
   * is itself the timestamp of a name of the listing.
   */
  lemma LatestOfListing(names: seq<string>)
    ensures forall i :: 0 <= i < |names| && TimestampOf(names[i]).Some? ==>
      Latest(Backups(names)).Some? && TimestampOf(names[i]).value <= Latest(Backups(names)).value
    ensures Latest(Backups(names)).Some? ==>
      exists name :: name in names && TimestampOf(name) == Latest(Backups(names))
  {
    var bs := Backups(names);
    var latest := Latest(bs);
    forall i | 0 <= i < |names| && TimestampOf(names[i]).Some?
      ensures latest.Some? && TimestampOf(names[i]).value <= latest.value
    {
      BackupsComplete(names, i);
      var k :| 0 <= k < |bs| && bs[k] == BackupFile(names[i], TimestampOf(names[i]).value);
    }
    if latest.Some? {
      var k :| 0 <= k < |bs| && bs[k].ts == latest.value;
      BackupsSound(names, k);
    }
  }

  // ---- When a backup is due ----

  /** `a - b` on `u64` as a release build computes it: modulo 2^64. */
  function WrappingSub(a: U64, b: U64): (r: U64)
    ensures a >= b ==> r == a - b
    ensures a < b ==> r == a - b + U64Limit
  {
    (a - b) % U64Limit
  }

  /** `a.saturating_sub(b)` on `u64`. */
  function SaturatingSub(a: U64, b: U64): (r: U64)
    ensures a >= b ==> r == a - b
    ensures a < b ==> r == 0
  {
    if a >= b then a - b else 0
  }

  /**
   * `needs_backup` as written: `now - last_backup >= BACKUP_INTERVAL_SECS`
   * with an unguarded `u64` subtraction, which wraps in a release build
   * (and panics in a debug build) when the last backup is later than `now`.
   */
  function NeedsBackupAsWritten(now: U64, last: U64): bool {
    WrappingSub(now, last) >= BackupIntervalSecs
  }

  /**
   * `needs_backup` as intended: a backup is due exactly when 24 hours have
   * passed since the last one.
   */
  function NeedsBackup(now: U64, last: U64): (due: bool)
    ensures due <==> last + BackupIntervalSecs <= now
  {
    SaturatingSub(now, last) >= BackupIntervalSecs
  }

  /** While the clock has not gone back past the last backup, both agree. */
  lemma NeedsBackupAgrees(now: U64, last: U64)
    requires last <= now
    ensures NeedsBackupAsWritten(now, last) == NeedsBackup(now, last)
    ensures NeedsBackup(now, last) <==> now - last >= BackupIntervalSecs
  {
  }

  /**
   * When the last backup is dated after `now` (the clock was set back, or a
   * file carries a future timestamp), the subtraction as written wraps to a
   * huge number of seconds and reports a backup due, though none of the 24
   * hours has passed.
   */
  lemma NeedsBackupAsWrittenWraps(now: U64, last: U64)
    requires now < last <= now + (U64Limit - BackupIntervalSecs)
    ensures NeedsBackupAsWritten(now, last)
    ensures !NeedsBackup(now, last)
  {
  }

  /** With no backup at all, one is due from the first day after the epoch on. */
  lemma NeedsFirstBackup(now: U64, dir: Option<seq<string>>)
    requires dir.None? || forall i :: 0 <= i < |dir.value| ==> TimestampOf(dir.value[i]).None?
    ensures NeedsBackup(now, LastBackupTime(dir)) <==> now >= BackupIntervalSecs
  {
  }

  /**
   * Right after a backup was written under `now`, none is due: the new file
   * makes the last backup time at least `now`.
   */
  lemma NoBackupDueAfterBackup(names: seq<string>, now: U64)
    ensures LastBackupTime(Some(names + [BackupFileName(now)])) >= now
    ensures !NeedsBackup(now, LastBackupTime(Some(names + [BackupFileName(now)])))
  {
    var listing := names + [BackupFileName(now)];
    BackupNameRoundTrip(now);
    assert listing[|names|] == BackupFileName(now);
  }

  // ---- Cleanup ----

  /** Newest first: no entry is older than one after it. */
  predicate IsNewestFirst(bs: seq<BackupFile>) {
    forall i, j :: 0 <= i < j < |bs| ==> bs[i].ts >= bs[j].ts
  }

  /** Putting an entry at least as new as the head in front keeps the order. */
  lemma ConsNewestFirst(x: BackupFile, rest: seq<BackupFile>)
    requires IsNewestFirst(rest) && (rest != [] ==> rest[0].ts <= x.ts)
    ensures IsNewestFirst([x] + rest)
  {
    var r := [x] + rest;
    forall i, j | 0 <= i < j < |r| ensures r[i].ts >= r[j].ts {
      assert r[j] == rest[j - 1];
      if i > 0 {
        assert r[i] == rest[i - 1];
      } else {
        assert rest[j - 1].ts <= rest[0].ts;
      }
    }
  }

  /** Inserts `b` after every entry at least as new, before the first older one. */
  function InsertNewestFirst(sorted: seq<BackupFile>, b: BackupFile): (r: seq<BackupFile>)
    requires IsNewestFirst(sorted)
    ensures |r| == |sorted| + 1
    ensures r[0] == b || (sorted != [] && r[0] == sorted[0])
    ensures IsNewestFirst(r)
    ensures multiset(r) == multiset(sorted) + multiset{b}
    decreases |sorted|
  {
    if sorted == [] then [b]
    else if sorted[0].ts >= b.ts then
      var rest := InsertNewestFirst(sorted[1..], b);
      assert sorted == [sorted[0]] + sorted[1..];
      ConsNewestFirst(sorted[0], rest);
      [sorted[0]] + rest
    else
      ConsNewestFirst(b, sorted);
      [b] + sorted
  }

  /**
   * `backups.sort_by(|a, b| b.1.cmp(&a.1))`: the backups ordered newest
   * first, a rearrangement of the same entries.
   */
  function SortNewestFirst(bs: seq<BackupFile>): (r: seq<BackupFile>)
    ensures IsNewestFirst(r)
    ensures multiset(r) == multiset(bs)
    ensures |r| == |bs|
    decreases |bs|
  {
    if bs == [] then []
    else
      assert bs == bs[..|bs| - 1] + [bs[|bs| - 1]];
      InsertNewestFirst(SortNewestFirst(bs[..|bs| - 1]), bs[|bs| - 1])
  }

  /** Each entry after an insertion is the inserted backup or one that was there. */
  lemma InsertedFrom(sorted: seq<BackupFile>, b: BackupFile, k: nat)
    requires IsNewestFirst(sorted) && k < |InsertNewestFirst(sorted, b)|
    ensures InsertNewestFirst(sorted, b)[k] == b || InsertNewestFirst(sorted, b)[k] in sorted
  {
    var r := InsertNewestFirst(sorted, b);
    assert r[k] in multiset(r);
  }

  /** Inserting a backup whose name is new into a list without repeated names repeats none. */
  lemma {:induction false} InsertKeepsNamesDistinct(sorted: seq<BackupFile>, b: BackupFile)
    requires IsNewestFirst(sorted) && NamesDistinct(sorted)
    requires forall k :: 0 <= k < |sorted| ==> sorted[k].name != b.name
    ensures NamesDistinct(InsertNewestFirst(sorted, b))
    decreases |sorted|
  {
    if sorted != [] && sorted[0].ts >= b.ts {
      var tail := sorted[1..];
      var rest := InsertNewestFirst(tail, b);
      InsertKeepsNamesDistinct(tail, b);
      forall k | 0 <= k < |rest| ensures rest[k].name != sorted[0].name {
        InsertedFrom(tail, b, k);
      }
      ConsNamesDistinct(sorted[0], rest);
    } else {
      ConsNamesDistinct(b, sorted);
    }
  }

  /** Sorting a list of backups without repeated names repeats none. */
  lemma {:induction false} SortKeepsNamesDistinct(bs: seq<BackupFile>)
    requires NamesDistinct(bs)
    ensures NamesDistinct(SortNewestFirst(bs))
    decreases |bs|
  {
    if bs != [] {
      var init := bs[..|bs| - 1];
      var last := bs[|bs| - 1];
      var sorted := SortNewestFirst(init);
      assert NamesDistinct(init) by {
        forall i, j | 0 <= i < j < |init| ensures init[i].name != init[j].name {
          assert init[i] == bs[i] && init[j] == bs[j];
        }
      }
      SortKeepsNamesDistinct(init);
      forall k | 0 <= k < |sorted| ensures sorted[k].name != last.name {
        assert sorted[k] in multiset(sorted);
        assert sorted[k] in multiset(init);
        var j :| 0 <= j < |init| && init[j] == sorted[k];
        assert bs[j] == sorted[k];
      }
      InsertKeepsNamesDistinct(sorted, last);
    }
  }

  /** `for (path, _) in backups.into_iter().skip(skip)`: the names visited, in order. */
  method SkipNames(backups: seq<BackupFile>, skip: nat) returns (visited: seq<string>)
    ensures |visited| == if |backups| > skip then |backups| - skip else 0
    ensures forall y :: skip <= y < |backups| ==> visited[y - skip] == backups[y].name
  {
    visited := [];
    var i := skip;
    while i < |backups|
      invariant |visited| == if i > skip then i - skip else 0
      invariant i > skip ==> i <= |backups|
      invariant forall y :: skip <= y < i ==> visited[y - skip] == backups[y].name
    {
      visited := visited + [backups[i].name];
      i := i + 1;
    }
  }

  /** A name visited after the first seven of the sorted backups is a backup of the listing. */
  lemma RemovedIsBackup(names: seq<string>, backups: seq<BackupFile>, removed: seq<string>, x: nat)
    requires multiset(backups) == multiset(Backups(names))
    requires |removed| == if |backups| > MaxBackups then |backups| - MaxBackups else 0
    requires forall y :: MaxBackups <= y < |backups| ==> removed[y - MaxBackups] == backups[y].name
    requires x < |removed|
    ensures removed[x] in names
    ensures TimestampOf(removed[x]) == Some(backups[MaxBackups + x].ts)
  {
    var bs := Backups(names);
    var b := backups[MaxBackups + x];
    assert removed[x] == b.name;
    assert b in multiset(bs);
    var k :| 0 <= k < |bs| && bs[k] == b;
    BackupsSound(names, k);
  }

  /**
   * The ordering half of the cleanup: a name visited after the first seven
   * of the sorted backups is no newer than a regular backup that is not
   * visited.
   */
  lemma RemovedNoNewerThanKept(names: seq<string>, backups: seq<BackupFile>, removed: seq<string>, x: nat, i: nat)
    requires IsNewestFirst(backups) && multiset(backups) == multiset(Backups(names))
    requires |removed| == if |backups| > MaxBackups then |backups| - MaxBackups else 0
    requires forall y :: MaxBackups <= y < |backups| ==> removed[y - MaxBackups] == backups[y].name
    requires x < |removed| && i < |names| && TimestampOf(names[i]).Some? && names[i] !in removed
    ensures backups[MaxBackups + x].ts <= TimestampOf(names[i]).value
  {
    assert removed[x] == backups[MaxBackups + x].name;
    BackupsComplete(names, i);
    var e := BackupFile(names[i], TimestampOf(names[i]).value);
    assert e in multiset(backups);
    var j :| 0 <= j < |backups| && backups[j] == e;
    assert j < MaxBackups;
    assert backups[j].ts >= backups[MaxBackups + x].ts;
  }

  /**
   * The names visited after the first seven of the sorted backups are
   * backups of the listing, none newer than a backup that is not visited.
   */
  lemma RemovedAreOldest(names: seq<string>, backups: seq<BackupFile>, removed: seq<string>)
    requires IsNewestFirst(backups) && multiset(backups) == multiset(Backups(names))
    requires |removed| == if |backups| > MaxBackups then |backups| - MaxBackups else 0
    requires forall y :: MaxBackups <= y < |backups| ==> removed[y - MaxBackups] == backups[y].name
    ensures forall r :: r in removed ==> r in names && TimestampOf(r).Some?
    ensures forall r, k :: r in removed && k in names && TimestampOf(k).Some? && k !in removed ==>
      TimestampOf(r).value <= TimestampOf(k).value
  {
    forall r | r in removed ensures r in names && TimestampOf(r).Some? {
      var x :| 0 <= x < |removed| && removed[x] == r;
      RemovedIsBackup(names, backups, removed, x);
    }
    forall r, k | r in removed && k in names && TimestampOf(k).Some? && k !in removed
      ensures TimestampOf(r).value <= TimestampOf(k).value
    {
      var x :| 0 <= x < |removed| && removed[x] == r;
      var i :| 0 <= i < |names| && names[i] == k;
      RemovedIsBackup(names, backups, removed, x);
      RemovedNoNewerThanKept(names, backups, removed, x, i);
    }
  }

  /** The names visited after the first seven of backups with distinct names are distinct. */
  lemma RemovedDistinct(backups: seq<BackupFile>, removed: seq<string>)
    requires NamesDistinct(backups)
    requires |removed| == if |backups| > MaxBackups then |backups| - MaxBackups else 0
    requires forall y :: MaxBackups <= y < |backups| ==> removed[y - MaxBackups] == backups[y].name
    ensures Distinct(removed)
  {
    forall i, j | 0 <= i < j < |removed| ensures removed[i] != removed[j] {
      assert removed[i] == backups[MaxBackups + i].name && removed[j] == backups[MaxBackups + j].name;
    }
  }

  /**
   * `cleanup_old_backups`: of the regular backups in the listing, the model
   * returns the names it removes. Exactly as many are removed as exceed
   * seven; only files with a timestamp are removed; each one removed is
   * no newer than any regular backup that stays; and, since a directory
   * lists a file once, no file is removed twice, so the seven newest stay.
   */
  method CleanupOldBackups(dir: Option<seq<string>>) returns (removed: seq<string>)
    ensures dir.None? ==> removed == []
    ensures |removed| ==
      if |Backups(dir.GetOr([]))| > MaxBackups then |Backups(dir.GetOr([]))| - MaxBackups else 0
    ensures forall r :: r in removed ==> r in dir.GetOr([]) && TimestampOf(r).Some?
    ensures forall r, k :: r in removed && k in dir.GetOr([]) && TimestampOf(k).Some? && k !in removed ==>
      TimestampOf(r).value <= TimestampOf(k).value
    ensures forall ts: U64 :: PremigrationFileName(ts) !in removed
    ensures Distinct(dir.GetOr([])) ==> Distinct(removed)
  {
    var names := dir.GetOr([]);
    var bs := Backups(names);
    var backups := SortNewestFirst(bs);
    removed := SkipNames(backups, MaxBackups);
    RemovedAreOldest(names, backups, removed);
    forall ts: U64 ensures PremigrationFileName(ts) !in removed {
      PremigrationNeverParses(ts);
    }
    if Distinct(names) {
      CollectDistinct(names, Stamps(names));
      SortKeepsNamesDistinct(bs);
      RemovedDistinct(backups, removed);
    }
  }
}
