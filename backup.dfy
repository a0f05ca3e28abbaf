/** Timestamped backups of keybindings.json (`src/backup.ts`). The host file
    system is a `FileStore`: the content of keybindings.json and the entries of
    the backup directory, by name. The current time is a parameter. */
module Backup {
  import opened Wrappers
  import opened JsonTree
  import Sequences

  const BACKUP_FILE_SUFFIX := "_keybindings.json"

  /** Number of candidate names probed per timestamp. */
  const MAX_CANDIDATES: nat := 100

  /** The date components the source reads: `getFullYear`, `getMonth` (which
      counts months from 0), `getDate`, `getHours`, `getMinutes`, `getSeconds`. */
  datatype Timestamp = Timestamp(year: nat, month: nat, date: nat, hours: nat, minutes: nat, seconds: nat)

  /** The kinds of directory entry `readDirectory` reports. */
  datatype FileType = Unknown | File | Directory | SymbolicLink

  /** An entry of the backup directory: a regular file and its content, a
      sub-directory, or a symbolic link. */
  datatype Entry = RegularFile(content: Doc) | Subdirectory | Link

  datatype FsError = FileExists(name: string) | FileNotFound(name: string) | TooManyBackups

  function FileTypeOf(e: Entry): FileType
  {
    match e
    case RegularFile(_) => File
    case Subdirectory => Directory
    case Link => SymbolicLink
  }

  predicate EndsWith(s: string, suffix: string)
  {
    |suffix| <= |s| && s[|s| - |suffix|..] == suffix
  }

  function Digit(d: nat): char
    requires d < 10
  {
    "0123456789"[d]
  }

  /** `${n}`: the decimal digits of `n`, without leading zeros. */
  function Decimal(n: nat): (r: string)
    ensures |r| >= 1
    ensures |r| == 1 <==> n < 10
  {
    if n < 10 then [Digit(n)] else Decimal(n / 10) + [Digit(n % 10)]
  }

  /** Different numbers have different decimal renderings. */
  lemma {:induction false} DecimalInjective(a: nat, b: nat)
    requires Decimal(a) == Decimal(b)
    ensures a == b
  {
    if a < 10 && b < 10 {
      assert Digit(a) == Decimal(a)[0] == Decimal(b)[0] == Digit(b);
    } else if 10 <= a && 10 <= b {
      var da, db := Decimal(a), Decimal(b);
      assert da[|da| - 1] == Digit(a % 10) && db[|db| - 1] == Digit(b % 10);
      assert da[..|da| - 1] == Decimal(a / 10) && db[..|db| - 1] == Decimal(b / 10);
      DecimalInjective(a / 10, b / 10);
    }
  }

  /** The part of a candidate name fixed by the timestamp: `${y}-${m}-${d}--${h}-${min}-${s}-`. */
  function CandidatePrefix(t: Timestamp): string
  {
    Decimal(t.year) + "-" + Decimal(t.month) + "-" + Decimal(t.date) + "--" +
    Decimal(t.hours) + "-" + Decimal(t.minutes) + "-" + Decimal(t.seconds) + "-"
  }

  /** Candidate `i` for a backup taken at `t`: `${y}-${m}-${d}--${h}-${min}-${s}-${i}_keybindings.json`. */
  function BackupFileName(t: Timestamp, i: nat): string
  {
    CandidatePrefix(t) + Decimal(i) + BACKUP_FILE_SUFFIX
  }

  /** Every candidate name carries the backup suffix, so the listing filter finds every backup. */
  lemma BackupFileNameHasSuffix(t: Timestamp, i: nat)
    ensures EndsWith(BackupFileName(t, i), BACKUP_FILE_SUFFIX)
  {
    var r := BackupFileName(t, i);
    assert r[|r| - |BACKUP_FILE_SUFFIX|..] == BACKUP_FILE_SUFFIX;
  }

  /** The candidates of one timestamp are pairwise distinct. */
  lemma BackupFileNameInjective(t: Timestamp, i: nat, j: nat)
    requires BackupFileName(t, i) == BackupFileName(t, j)
    ensures i == j
  {
    var p, di, dj := CandidatePrefix(t), Decimal(i), Decimal(j);
    var ni, nj := BackupFileName(t, i), BackupFileName(t, j);
    assert |di| == |dj|;
    assert ni[|p|..|p| + |di|] == di;
    assert nj[|p|..|p| + |dj|] == dj;
    DecimalInjective(i, j);
  }

  /** A number of two digits renders as its tens digit, then its units digit. */
  lemma DecimalTwoDigits(n: nat)
    requires 10 <= n < 100
    ensures Decimal(n) == [Digit(n / 10), Digit(n % 10)]
  {
    assert Decimal(n / 10) == [Digit(n / 10)];
  }

  /** The renderings of the numbers in the December example. */
  lemma DecimalsOfDecember()
    ensures Decimal(2022) == "2022" && Decimal(11) == "11" && Decimal(10) == "10"
    ensures Decimal(20) == "20" && Decimal(26) == "26" && Decimal(30) == "30" && Decimal(0) == "0"
  {
    DecimalTwoDigits(20);
    DecimalTwoDigits(11);
    DecimalTwoDigits(10);
    DecimalTwoDigits(26);
    DecimalTwoDigits(30);
    assert Decimal(202) == Decimal(20) + [Digit(2)];
    assert Decimal(2022) == Decimal(202) + [Digit(2)];
  }

  /** The name for 10 December 2022, 20:26:30, candidate 0: the month is
      written as `getMonth()` returns it, 11 for December. */
  lemma BackupFileNameOfDecember()
    ensures BackupFileName(Timestamp(2022, 11, 10, 20, 26, 30), 0) == "2022-11-10--20-26-30-0_keybindings.json"
  {
    PrefixOfDecember();
    assert Decimal(0) == "0";
    SuffixOfDecember();
  }

  /** The December example's prefix followed by candidate 0 and the suffix. */
  lemma SuffixOfDecember()
    ensures "2022-11-10--20-26-30-" + "0" + BACKUP_FILE_SUFFIX == "2022-11-10--20-26-30-0_keybindings.json"
  {
  }

  /** The date-and-time part of the December example's names. */
  lemma PrefixOfDecember()
    ensures CandidatePrefix(Timestamp(2022, 11, 10, 20, 26, 30)) == "2022-11-10--20-26-30-"
  {
    DecimalsOfDecember();
    var date := Decimal(2022) + "-" + Decimal(11) + "-" + Decimal(10) + "--";
    assert date == "2022-11-10--";
  }

  /** The names `collectBackupFiles` reports for a directory: regular files
      whose name ends with the backup suffix. */
  function BackupNames(dir: map<string, Entry>): set<string>
  {
    set n | n in dir.Keys && dir[n].RegularFile? && EndsWith(n, BACKUP_FILE_SUFFIX)
  }

  /** `listing` is what `readDirectory` returns for `dir`: one (name, type)
      pair per entry. */
  ghost predicate IsListing(listing: seq<(string, FileType)>, dir: map<string, Entry>)
  {
    && (forall k :: 0 <= k < |listing| ==> listing[k].0 in dir && listing[k].1 == FileTypeOf(dir[listing[k].0]))
    && (forall n :: n in dir ==> exists k :: 0 <= k < |listing| && listing[k].0 == n)
  }

  predicate IsBackupItem(item: (string, FileType))
  {
    item.1 == File && EndsWith(item.0, BACKUP_FILE_SUFFIX)
  }

  /** `collectBackupFiles`: the names of the listed regular files whose name
      ends with the backup suffix, in listing order. */
  function CollectBackupFiles(listing: seq<(string, FileType)>): (r: seq<string>)
    ensures forall i :: 0 <= i < |r| ==> (r[i], File) in listing && EndsWith(r[i], BACKUP_FILE_SUFFIX)
    ensures forall k :: 0 <= k < |listing| && IsBackupItem(listing[k]) ==> listing[k].0 in r
  {
    var items := Sequences.Filter(listing, IsBackupItem);
    Sequences.FilterMembers(listing, IsBackupItem);
    var r := seq(|items|, i requires 0 <= i < |items| => items[i].0);
    assert forall k :: 0 <= k < |listing| && IsBackupItem(listing[k]) ==> listing[k].0 in r by {
      forall k | 0 <= k < |listing| && IsBackupItem(listing[k]) ensures listing[k].0 in r {
        var i :| 0 <= i < |items| && items[i] == listing[k];
        assert r[i] == listing[k].0;
      }
    }
    r
  }

  /** For a faithful listing, the collected names are exactly the directory's backups. */
  lemma CollectedAreBackupNames(listing: seq<(string, FileType)>, dir: map<string, Entry>)
    requires IsListing(listing, dir)
    ensures forall n :: n in CollectBackupFiles(listing) <==> n in BackupNames(dir)
  {
    var r := CollectBackupFiles(listing);
    forall n ensures n in r <==> n in BackupNames(dir) {
      if n in r {
        var i :| 0 <= i < |r| && r[i] == n;
        var k :| 0 <= k < |listing| && listing[k] == (n, File);
      }
      if n in BackupNames(dir) {
        var k :| 0 <= k < |listing| && listing[k].0 == n;
        assert IsBackupItem(listing[k]);
      }
    }
  }

  /** The probe loop of `backupKeybindingFile`: candidates 0, 1, ... are
      tried in turn, `backupFile` is set to each, and the loop stops at the
      first one absent from the directory. The result is always a name (the
      `!backupFile` branch after the loop cannot be taken): the first free
      candidate, or candidate 99 when all 100 exist. */
  method ProbeBackupFileName(t: Timestamp, dir: map<string, Entry>) returns (backupFile: Option<string>, ghost chosen: nat)
    ensures chosen < MAX_CANDIDATES && backupFile == Some(BackupFileName(t, chosen))
    ensures forall j :: 0 <= j < chosen ==> BackupFileName(t, j) in dir
    ensures BackupFileName(t, chosen) in dir ==> chosen == MAX_CANDIDATES - 1
  {
    backupFile := None;
    chosen := 0;
    var i := 0;
    while i < MAX_CANDIDATES
      invariant 0 <= i <= MAX_CANDIDATES
      invariant forall j :: 0 <= j < i ==> BackupFileName(t, j) in dir
      invariant i > 0 ==> chosen == i - 1
      invariant i > 0 ==> backupFile == Some(BackupFileName(t, chosen))
      invariant i == 0 ==> backupFile == None
    {
      var name := BackupFileName(t, i);
      backupFile := Some(name);
      chosen := i;
      if name !in dir {
        return;
      }
      i := i + 1;
    }
  }

  /** `after` is `before` with one new backup, named by the first candidate
      of `t` free in `before`, holding `content`; the backup listing finds it. */
  ghost predicate BackedUpToFirstFree(before: map<string, Entry>, after: map<string, Entry>, content: Doc, t: Timestamp, name: string)
  {
    && name !in before
    && after == before[name := RegularFile(content)]
    && BackupNames(after) == BackupNames(before) + {name}
    && exists i ::
      && 0 <= i < MAX_CANDIDATES
      && name == BackupFileName(t, i)
      && forall j :: 0 <= j < i ==> BackupFileName(t, j) in before
  }

  class FileStore {
    /** The content of keybindings.json. */
    var keybindings: Doc
    /** The entries of the backup directory, by name. */
    var backupDir: map<string, Entry>

    constructor (keybindings: Doc, backupDir: map<string, Entry>)
      ensures this.keybindings == keybindings && this.backupDir == backupDir
    {
      this.keybindings := keybindings;
      this.backupDir := backupDir;
    }

    /** `backupKeybindingFile`: copies keybindings.json, without overwriting,
        to the candidate the probe chose. It succeeds exactly when one of the
        100 candidates is free, adding one new backup whose content is that of
        keybindings.json; when all are taken the copy onto candidate 99 fails
        and nothing changes. */
    method BackupKeybindingFile(timestamp: Timestamp) returns (r: Result<string, FsError>)
      modifies this
      ensures keybindings == old(keybindings)
      ensures r.Success? <==> exists i :: 0 <= i < MAX_CANDIDATES && BackupFileName(timestamp, i) !in old(backupDir)
      ensures r.Success? ==> exists i ::
        && 0 <= i < MAX_CANDIDATES
        && r.value == BackupFileName(timestamp, i)
        && forall j :: 0 <= j < i ==> BackupFileName(timestamp, j) in old(backupDir)
      ensures r.Success? ==> r.value !in old(backupDir) && backupDir == old(backupDir)[r.value := RegularFile(keybindings)]
      ensures r.Success? ==> BackupNames(backupDir) == BackupNames(old(backupDir)) + {r.value}
      ensures r.Failure? ==> backupDir == old(backupDir) && r.error == FileExists(BackupFileName(timestamp, MAX_CANDIDATES - 1))
      ensures r.Success? ==> BackedUpToFirstFree(old(backupDir), backupDir, keybindings, timestamp, r.value)
    {
      var backupFile, chosen := ProbeBackupFileName(timestamp, backupDir);
      if backupFile.None? {
        r := Failure(TooManyBackups);
        return;
      }
      var name := backupFile.value;
      if name in backupDir {
        r := Failure(FileExists(name));
        return;
      }
      BackupFileNameHasSuffix(timestamp, chosen);
      backupDir := backupDir[name := RegularFile(keybindings)];
      r := Success(name);
    }

    /** `restoreKeybindingBackup`: takes a safety backup of keybindings.json,
        then overwrites keybindings.json with the chosen backup's content, and
        returns the safety backup's name. */
    method RestoreKeybindingBackup(backup: string, timestamp: Timestamp) returns (r: Result<string, FsError>)
      modifies this
      ensures r.Success? ==>
        && r.value !in old(backupDir)
        && backupDir == old(backupDir)[r.value := RegularFile(old(keybindings))]
      ensures r.Success? ==> backup in backupDir && backupDir[backup].RegularFile? && keybindings == backupDir[backup].content
      ensures r.Success? ==> BackupNames(backupDir) == BackupNames(old(backupDir)) + {r.value}
      ensures r.Failure? ==> keybindings == old(keybindings)
      ensures r.Failure? && r.error.FileExists? ==> backupDir == old(backupDir)
      ensures r.Failure? ==> r.error.FileExists? || r.error.FileNotFound?
      ensures (exists i :: 0 <= i < MAX_CANDIDATES && BackupFileName(timestamp, i) !in old(backupDir)) ==>
        r.Success? || r == Failure(FileNotFound(backup))
      ensures r.Success? || (r.Failure? && r.error.FileNotFound?) ==> exists i ::
        && 0 <= i < MAX_CANDIDATES
        && BackupFileName(timestamp, i) !in old(backupDir)
        && backupDir == old(backupDir)[BackupFileName(timestamp, i) := RegularFile(old(keybindings))]
        && (r.Success? ==> r.value == BackupFileName(timestamp, i))
        && forall j :: 0 <= j < i ==> BackupFileName(timestamp, j) in old(backupDir)
      ensures (forall i :: 0 <= i < MAX_CANDIDATES ==> BackupFileName(timestamp, i) in old(backupDir)) ==>
        r == Failure(FileExists(BackupFileName(timestamp, MAX_CANDIDATES - 1)))
      ensures
        (&& !(backup in old(backupDir) && old(backupDir)[backup].RegularFile?)
         && (forall i :: 0 <= i < MAX_CANDIDATES ==> BackupFileName(timestamp, i) != backup)
         && exists i :: 0 <= i < MAX_CANDIDATES && BackupFileName(timestamp, i) !in old(backupDir))
        ==> r == Failure(FileNotFound(backup))
      ensures
        (&& backup in old(backupDir) && old(backupDir)[backup].RegularFile?
         && exists i :: 0 <= i < MAX_CANDIDATES && BackupFileName(timestamp, i) !in old(backupDir))
        ==> r.Success? && keybindings == old(backupDir)[backup].content
    {
      var newBackup := BackupKeybindingFile(timestamp);
      if newBackup.Failure? {
        r := newBackup;
        return;
      }
      if !(backup in backupDir && backupDir[backup].RegularFile?) {
        r := Failure(FileNotFound(backup));
        return;
      }
      keybindings := backupDir[backup].content;
      r := newBackup;
    }

    /** `deleteAllBackupFiles`, given the directory listing and the answer
        to the confirmation prompt (`None` when it is dismissed). The prompt
        is shown only when some backup exists; every backup is deleted when
        the answer is "Yes", and nothing else is touched. */
    method DeleteAllBackupFiles(listing: seq<(string, FileType)>, answer: Option<string>) returns (asked: bool)
      requires IsListing(listing, backupDir)
      modifies this
      ensures keybindings == old(keybindings)
      ensures asked <==> BackupNames(old(backupDir)) != {}
      ensures asked && answer == Some("Yes") ==> backupDir == old(backupDir) - BackupNames(old(backupDir))
      ensures !(asked && answer == Some("Yes")) ==> backupDir == old(backupDir)
    {
      var backups := CollectBackupFiles(listing);
      CollectedAreBackupNames(listing, backupDir);
      if |backups| == 0 {
        asked := false;
        return;
      }
      asked := true;
      assert backups[0] in BackupNames(backupDir);
      if answer == Some("Yes") {
        backupDir := backupDir - (set b | b in backups);
        assert (set b | b in backups) == BackupNames(old(backupDir));
      }
    }
  }
  /** A backup, an edit of keybindings.json, then a restore of that backup:
      keybindings.json holds its original content again, the two backups are
      new and distinct, the safety backup holds the edited content, and
      nothing else in the directory changes. The first candidate of `t1`
      and the first two of `t2` must be free: the restore's safety backup
      may find the first backup in its own first candidate's place. */
  method BackupEditRestore(fs: FileStore, edited: Doc, t1: Timestamp, t2: Timestamp)
    returns (first: string, second: string)
    requires BackupFileName(t1, 0) !in fs.backupDir
    requires BackupFileName(t2, 0) !in fs.backupDir && BackupFileName(t2, 1) !in fs.backupDir
    modifies fs
    ensures fs.keybindings == old(fs.keybindings)
    ensures first != second && first !in old(fs.backupDir) && second !in old(fs.backupDir)
    ensures fs.backupDir == old(fs.backupDir)[first := RegularFile(old(fs.keybindings))][second := RegularFile(edited)]
    ensures BackupNames(fs.backupDir) == BackupNames(old(fs.backupDir)) + {first, second}
  {
    var b := fs.BackupKeybindingFile(t1);
    assert b.Success? by {
      assert BackupFileName(t1, 0) !in old(fs.backupDir);
    }
    first := b.value;
    fs.keybindings := edited;
    if BackupFileName(t2, 0) == first && BackupFileName(t2, 1) == first {
      BackupFileNameInjective(t2, 0, 1);
    }
    var freeIndex := if BackupFileName(t2, 0) != first then 0 else 1;
    assert BackupFileName(t2, freeIndex) !in fs.backupDir;
    var restored := fs.RestoreKeybindingBackup(first, t2);
    second := restored.value;
  }
}
