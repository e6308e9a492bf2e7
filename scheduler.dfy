/** The backup scheduler (`BackupSchedulerManager`): the interval configuration, the
    run/stop state, the countdown, the operation log `files/operation_sauvegarde.json`,
    the snapshot of eligible equipment and one backup cycle over the per-vendor working
    directories. Timers and threads become explicit calls to `Start`, `Tick`, `RunCycle`
    and `Stop`; the clock is a parameter. */
module Scheduler {
  import opened Common
  import opened Registry
  import opened Workspace

  /** One element of a log entry's `equipements`: `{"mac": ..., "name": ...}`. */
  datatype Active = Active(mac: string, name: string)

  /** A `date_fin` value: the key may be absent, hold null, or hold a timestamp text. */
  datatype DateField = Absent | Null | At(text: string)

  /** One entry of the operation log. Keys other than `date_fin` read `None` when absent. */
  datatype LogEntry = LogEntry(
    dateDebut: Option<string>,
    dateFin: DateField,
    equipements: Option<seq<Active>>,
    status: Option<string>,
    utilisateur: Option<string>,
    intervalle: Option<string>,
    intervalleSecondes: Option<int>)

  /** `files/sauvegarde.json` as `_save_config` writes it and `_load_config` reads it. */
  datatype ConfigFile = ConfigFile(
    running: Option<bool>,
    days: Option<int>,
    hours: Option<int>,
    minutes: Option<int>,
    seconds: Option<int>,
    intervalSeconds: Option<int>,
    lastStartTime: Option<int>)

  /** The vendors whose registries the snapshot reads, in reading order. */
  const SnapshotVendors: seq<Vendor> := [Cisco, Mikrotik, Fortinet]

  /** The working folders under `files/`, in the order cleanup and backup visit them. */
  const BackupFolders: seq<string> := ["backup_mikrotik", "backup_cisco", "backup_fortinet"]

  // ---------------------------------------------------------------- arithmetic

  /** Python's `a % b`, whose result takes the sign of `b`. */
  function PyMod(a: int, b: int): (r: int)
    requires b != 0
    ensures b > 0 ==> 0 <= r < b
    ensures b < 0 ==> b < r <= 0
  {
    if b > 0 || a % b == 0 then a % b else a % b + b
  }

  /** `max(0, interval - int(elapsed % interval))`: the countdown resumed by `_load_config`. */
  function ResumedRemaining(interval: int, elapsed: int): int
    requires interval != 0
  {
    var r := interval - PyMod(elapsed, interval);
    if r < 0 then 0 else r
  }

  /** A positive interval resumes somewhere in 1..interval; a negative one resumes at 0. */
  lemma ResumedRemainingRange(interval: int, elapsed: int)
    requires interval != 0
    ensures interval > 0 ==> 1 <= ResumedRemaining(interval, elapsed) <= interval
    ensures interval < 0 ==> ResumedRemaining(interval, elapsed) == 0
  {
  }

  /** Days, hours, minutes and seconds of a number of seconds, with Python's floor division. */
  function Decompose(total: int): (r: (int, int, int, int))
    ensures 0 <= r.1 < 24 && 0 <= r.2 < 60 && 0 <= r.3 < 60
    ensures r.0 * 86400 + r.1 * 3600 + r.2 * 60 + r.3 == total
  {
    var days := total / 86400;
    var rem := total % 86400;
    var hours := rem / 3600;
    var rem2 := rem % 3600;
    (days, hours, rem2 / 60, rem2 % 60)
  }

  /** One countdown tick while running: count down, or start over from the interval. */
  function TickValue(remaining: int, interval: int): int {
    if remaining <= 0 then interval else remaining - 1
  }

  /** With a positive interval, ticking keeps the countdown within 0..interval and needs
      exactly `remaining + 1` ticks to come back to the full interval. */
  lemma {:induction false} TickCycle(remaining: int, interval: int)
    requires interval > 0 && 0 <= remaining <= interval
    ensures 0 <= TickValue(remaining, interval) <= interval
    ensures Ticks(remaining, interval, remaining + 1) == interval
    ensures forall k :: 0 <= k <= remaining ==> Ticks(remaining, interval, k) == remaining - k
    decreases remaining
  {
    if remaining > 0 {
      TickCycle(remaining - 1, interval);
      forall k | 1 <= k <= remaining
        ensures Ticks(remaining, interval, k) == remaining - k
      {
        assert Ticks(remaining, interval, k) == Ticks(remaining - 1, interval, k - 1);
      }
    }
  }

  /** `k` ticks in a row. */
  function Ticks(remaining: int, interval: int, k: nat): int
    decreases k
  {
    if k == 0 then remaining else Ticks(TickValue(remaining, interval), interval, k - 1)
  }

  /** `f"{days}j {hours}h {minutes}m {seconds}s"` of a number of seconds. */
  function IntervalText(total: int): string {
    var (d, h, m, s) := Decompose(total);
    Text.IntToString(d) + "j " + Text.IntToString(h) + "h " + Text.IntToString(m) + "m "
      + Text.IntToString(s) + "s"
  }

  // ---------------------------------------------------------------- snapshot

  /** `eq.get("status") and "mac" in eq`. */
  predicate Eligible(r: Record) {
    r.status && r.mac.Some?
  }

  function ActiveOf(r: Record): Active
    requires r.mac.Some?
  {
    Active(r.mac.value, r.name.GetOr("Inconnu"))
  }

  /** The generator `{"mac": .., "name": ..} for eq in data if eq.get("status") and "mac" in eq`. */
  function Snapshot(records: seq<Record>): (r: seq<Active>)
    ensures |r| <= |records|
  {
    if records == [] then [] else
      var head := if Eligible(records[0]) then [ActiveOf(records[0])] else [];
      head + Snapshot(records[1..])
  }

  /** `_get_active_macs`: the cisco, then mikrotik, then fortinet snapshots. */
  function ActiveEquipment(regs: Registries): seq<Active> {
    Snapshot(RecordsOf(regs, Cisco)) + Snapshot(RecordsOf(regs, Mikrotik))
      + Snapshot(RecordsOf(regs, Fortinet))
  }

  /** An element is in the snapshot exactly when some eligible record produced it. */
  lemma {:induction false} SnapshotMembership(records: seq<Record>, a: Active)
    ensures a in Snapshot(records) <==>
            exists i :: 0 <= i < |records| && Eligible(records[i]) && ActiveOf(records[i]) == a
  {
    if records != [] {
      SnapshotMembership(records[1..], a);
      if a in Snapshot(records[1..]) {
        var i :| 0 <= i < |records[1..]| && Eligible(records[1..][i]) && ActiveOf(records[1..][i]) == a;
        assert records[i + 1] == records[1..][i];
      }
      if exists i :: 0 <= i < |records| && Eligible(records[i]) && ActiveOf(records[i]) == a {
        var i :| 0 <= i < |records| && Eligible(records[i]) && ActiveOf(records[i]) == a;
        if i > 0 { assert records[1..][i - 1] == records[i]; }
      }
    }
  }

  /** The snapshot is empty exactly when none of the three files holds an eligible record;
      huawei and juniper records never count. */
  lemma ActiveEquipmentEmpty(regs: Registries)
    ensures ActiveEquipment(regs) == [] <==>
            forall v, i :: v in SnapshotVendors && 0 <= i < |RecordsOf(regs, v)| ==> !Eligible(RecordsOf(regs, v)[i])
  {
    forall v | v in SnapshotVendors
      ensures Snapshot(RecordsOf(regs, v)) == [] <==>
              forall i :: 0 <= i < |RecordsOf(regs, v)| ==> !Eligible(RecordsOf(regs, v)[i])
    {
      var rs := RecordsOf(regs, v);
      if Snapshot(rs) != [] {
        SnapshotMembership(rs, Snapshot(rs)[0]);
      }
      if exists i :: 0 <= i < |rs| && Eligible(rs[i]) {
        var i :| 0 <= i < |rs| && Eligible(rs[i]);
        SnapshotMembership(rs, ActiveOf(rs[i]));
      }
    }
  }

  /** The snapshot loop of `_get_active_macs`. */
  method GetActiveMacs(regs: Registries) returns (active: seq<Active>)
    ensures active == ActiveEquipment(regs)
  {
    active := [];
    var k := 0;
    while k < |SnapshotVendors|
      invariant 0 <= k <= |SnapshotVendors|
      invariant active == SnapshotUpTo(regs, k)
    {
      var v := SnapshotVendors[k];
      if v in regs && regs[v].Parsed? {
        var data := regs[v].value;
        var i := 0;
        var part := [];
        while i < |data|
          invariant 0 <= i <= |data|
          invariant part == Snapshot(data[..i])
        {
          SnapshotAppend(data[..i], [data[i]]);
          assert data[..i + 1] == data[..i] + [data[i]];
          if Eligible(data[i]) {
            part := part + [ActiveOf(data[i])];
          }
          i := i + 1;
        }
        assert data[..i] == data;
        active := active + part;
      }
      k := k + 1;
    }
    assert SnapshotUpTo(regs, 1) == Snapshot(RecordsOf(regs, Cisco));
  }

  function SnapshotUpTo(regs: Registries, k: nat): seq<Active>
    requires k <= |SnapshotVendors|
  {
    if k == 0 then [] else SnapshotUpTo(regs, k - 1) + Snapshot(RecordsOf(regs, SnapshotVendors[k - 1]))
  }

  lemma {:induction false} SnapshotAppend(a: seq<Record>, b: seq<Record>)
    ensures Snapshot(a + b) == Snapshot(a) + Snapshot(b)
  {
    if a == [] {
      assert a + b == b;
    } else {
      assert (a + b)[0] == a[0] && (a + b)[1..] == a[1..] + b;
      SnapshotAppend(a[1..], b);
    }
  }

  // ---------------------------------------------------------------- log patches

  /** The entry `start` appends. */
  function NewEntry(stamp: string, active: seq<Active>, user: Option<string>, interval: int): LogEntry {
    LogEntry(Some(stamp), Null, Some(active), Some("en_cours"),
             Some(if user.Some? && user.value != "" then user.value else "system"),
             Some(IntervalText(interval)), Some(interval))
  }

  /** `_update_backup_log(success)`: the last entry's status, only when it is "en_cours". */
  function MarkLast(log: Stored<seq<LogEntry>>, success: bool): Stored<seq<LogEntry>> {
    if log.Parsed? && log.value != [] && log.value[|log.value| - 1].status == Some("en_cours") then
      var l := log.value;
      Parsed(l[|l| - 1 := l[|l| - 1].(status := Some(if success then "succes" else "echec"))])
    else log
  }

  /** `update_last_date_fin(now)`: the last entry's `date_fin`, only when absent or null. */
  function CloseLast(log: Stored<seq<LogEntry>>, stamp: string): Stored<seq<LogEntry>> {
    if log.Parsed? && log.value != [] && !log.value[|log.value| - 1].dateFin.At? then
      var l := log.value;
      Parsed(l[|l| - 1 := l[|l| - 1].(dateFin := At(stamp))])
    else log
  }

  /** Marking touches at most the last entry, and of it only the status, which moves from
      "en_cours" to "succes" or "echec"; `date_fin` is never set. */
  lemma MarkLastEffect(log: Stored<seq<LogEntry>>, success: bool)
    ensures !log.Parsed? ==> MarkLast(log, success) == log
    ensures log.Parsed? ==> MarkLast(log, success).Parsed? && |MarkLast(log, success).value| == |log.value|
    ensures log.Parsed? ==> forall i :: 0 <= i < |log.value| - 1 ==> MarkLast(log, success).value[i] == log.value[i]
    ensures log.Parsed? && log.value != [] ==>
              var (before, after) := (log.value[|log.value| - 1], MarkLast(log, success).value[|log.value| - 1]);
              after.(status := before.status) == before
              && after.status == (if before.status == Some("en_cours")
                                  then Some(if success then "succes" else "echec") else before.status)
  {
  }

  /** Only the first mark of a cycle has an effect. */
  lemma MarkLastIdempotent(log: Stored<seq<LogEntry>>, s1: bool, s2: bool)
    ensures MarkLast(MarkLast(log, s1), s2) == MarkLast(log, s1)
  {
  }

  /** Closing touches at most the last entry, and of it only `date_fin`, which is set when
      it was absent or null; the status is left as it was. */
  lemma CloseLastEffect(log: Stored<seq<LogEntry>>, stamp: string)
    ensures !log.Parsed? ==> CloseLast(log, stamp) == log
    ensures log.Parsed? ==> CloseLast(log, stamp).Parsed? && |CloseLast(log, stamp).value| == |log.value|
    ensures log.Parsed? ==> forall i :: 0 <= i < |log.value| - 1 ==> CloseLast(log, stamp).value[i] == log.value[i]
    ensures log.Parsed? && log.value != [] ==>
              var (before, after) := (log.value[|log.value| - 1], CloseLast(log, stamp).value[|log.value| - 1]);
              after.(dateFin := before.dateFin) == before
              && after.dateFin == (if before.dateFin.At? then before.dateFin else At(stamp))
  {
  }

  /** A second close keeps the first close's date. */
  lemma CloseLastIdempotent(log: Stored<seq<LogEntry>>, t1: string, t2: string)
    ensures CloseLast(CloseLast(log, t1), t2) == CloseLast(log, t1)
  {
  }

  // ---------------------------------------------------------------- registries and folders

  /** `for item in data: item["sauvegarde"] = False`. */
  function ResetRecords(records: seq<Record>): (r: seq<Record>)
    ensures |r| == |records|
    ensures forall i :: 0 <= i < |records| ==> r[i] == records[i].(sauvegarde := Some(false))
  {
    if records == [] then [] else [records[0].(sauvegarde := Some(false))] + ResetRecords(records[1..])
  }

  /** `_reset_equipment_status`: the mikrotik, cisco and fortinet files that parse as lists. */
  function ResetRegistries(regs: Registries): (r: Registries)
    ensures r.Keys == regs.Keys
    ensures forall v :: v in regs ==> r[v] == (if v in SnapshotVendors && regs[v].Parsed?
                                                then Parsed(ResetRecords(regs[v].value)) else regs[v])
  {
    map v | v in regs :: if v in SnapshotVendors && regs[v].Parsed? then Parsed(ResetRecords(regs[v].value)) else regs[v]
  }

  /** `_cleanup_backup_folders`: every existing working folder is emptied. */
  function CleanFolders(folders: map<string, seq<DirEntry>>): (r: map<string, seq<DirEntry>>)
    ensures r.Keys == folders.Keys
    ensures forall f :: f in folders ==> r[f] == (if f in BackupFolders then [] else folders[f])
  {
    map f | f in folders :: if f in BackupFolders then [] else folders[f]
  }

  /** Everything `stop` does to the files: folders, log, registries. */
  function StopFiles(folders: map<string, seq<DirEntry>>, log: Stored<seq<LogEntry>>, regs: Registries,
                     stamp: string): (map<string, seq<DirEntry>>, Stored<seq<LogEntry>>, Registries) {
    (CleanFolders(folders), CloseLast(log, stamp), ResetRegistries(regs))
  }

  /** A second `stop` leaves the folders, the log and the registries as the first left them. */
  lemma StopFilesIdempotent(folders: map<string, seq<DirEntry>>, log: Stored<seq<LogEntry>>,
                            regs: Registries, t1: string, t2: string)
    ensures var (f1, l1, r1) := StopFiles(folders, log, regs, t1);
            StopFiles(f1, l1, r1, t2) == (f1, l1, r1)
  {
    var (f1, l1, r1) := StopFiles(folders, log, regs, t1);
    CloseLastIdempotent(log, t1, t2);
    assert CleanFolders(f1) == f1;
    forall v | v in r1 ensures ResetRegistries(r1)[v] == r1[v] {
      if v in SnapshotVendors && regs[v].Parsed? {
        assert ResetRecords(ResetRecords(regs[v].value)) == ResetRecords(regs[v].value);
      }
    }
    assert ResetRegistries(r1) == r1;
  }

  // ---------------------------------------------------------------- backup cycle

  /** How one `ansible-playbook` run ended; every outcome is caught and reported only. */
  datatype PlaybookOutcome = Succeeded | CalledProcessError | TimedOut | OtherError

  /** One playbook run of a cycle. */
  datatype Run = Run(folder: string, subdir: string, outcome: PlaybookOutcome)

  /** The runs of one folder, in listing order. */
  function RunsIn(folder: string, entries: seq<DirEntry>, outcome: (string, string) -> PlaybookOutcome): seq<Run> {
    if entries == [] then [] else
      var head := if Runnable(folder, entries[0]) then [Run(folder, entries[0].name, outcome(folder, entries[0].name))] else [];
      head + RunsIn(folder, entries[1..], outcome)
  }

  /** The runs of the first `k` working folders that exist. */
  function CycleRuns(folders: map<string, seq<DirEntry>>, k: nat, outcome: (string, string) -> PlaybookOutcome): seq<Run>
    requires k <= |BackupFolders|
  {
    if k == 0 then [] else
      var f := BackupFolders[k - 1];
      CycleRuns(folders, k - 1, outcome) + (if f in folders then RunsIn(f, folders[f], outcome) else [])
  }

  /** The (folder, sub-directory) pairs of a list of runs. */
  function Dirs(runs: seq<Run>): seq<(string, string)> {
    if runs == [] then [] else [(runs[0].folder, runs[0].subdir)] + Dirs(runs[1..])
  }

  lemma {:induction false} DirsAppend(a: seq<Run>, b: seq<Run>)
    ensures Dirs(a + b) == Dirs(a) + Dirs(b)
  {
    if a == [] {
      assert a + b == b;
    } else {
      assert (a + b)[1..] == a[1..] + b;
      DirsAppend(a[1..], b);
    }
  }

  lemma {:induction false} RunsInIndependent(folder: string, entries: seq<DirEntry>,
                                             o1: (string, string) -> PlaybookOutcome, o2: (string, string) -> PlaybookOutcome)
    ensures Dirs(RunsIn(folder, entries, o1)) == Dirs(RunsIn(folder, entries, o2))
  {
    if entries != [] {
      RunsInIndependent(folder, entries[1..], o1, o2);
      var h1 := if Runnable(folder, entries[0]) then [Run(folder, entries[0].name, o1(folder, entries[0].name))] else [];
      var h2 := if Runnable(folder, entries[0]) then [Run(folder, entries[0].name, o2(folder, entries[0].name))] else [];
      DirsAppend(h1, RunsIn(folder, entries[1..], o1));
      DirsAppend(h2, RunsIn(folder, entries[1..], o2));
    }
  }

  /** A failed or timed-out run does not stop the others: which directories run does
      not depend on any outcome. */
  lemma {:induction false} CycleRunsIndependent(folders: map<string, seq<DirEntry>>, k: nat,
                                                o1: (string, string) -> PlaybookOutcome, o2: (string, string) -> PlaybookOutcome)
    requires k <= |BackupFolders|
    ensures Dirs(CycleRuns(folders, k, o1)) == Dirs(CycleRuns(folders, k, o2))
  {
    if k > 0 {
      CycleRunsIndependent(folders, k - 1, o1, o2);
      var f := BackupFolders[k - 1];
      var t1 := if f in folders then RunsIn(f, folders[f], o1) else [];
      var t2 := if f in folders then RunsIn(f, folders[f], o2) else [];
      if f in folders { RunsInIndependent(f, folders[f], o1, o2); }
      DirsAppend(CycleRuns(folders, k - 1, o1), t1);
      DirsAppend(CycleRuns(folders, k - 1, o2), t2);
    }
  }

  /** A run happens exactly for the sub-directories holding both required files. */
  lemma {:induction false} RunsInMembership(folder: string, entries: seq<DirEntry>,
                                            outcome: (string, string) -> PlaybookOutcome, run: Run)
    ensures run in RunsIn(folder, entries, outcome) <==>
            exists i :: 0 <= i < |entries| && Runnable(folder, entries[i])
                        && run == Run(folder, entries[i].name, outcome(folder, entries[i].name))
  {
    if entries != [] {
      RunsInMembership(folder, entries[1..], outcome, run);
      if exists i :: 0 <= i < |entries| && Runnable(folder, entries[i])
                     && run == Run(folder, entries[i].name, outcome(folder, entries[i].name)) {
        var i :| 0 <= i < |entries| && Runnable(folder, entries[i])
                 && run == Run(folder, entries[i].name, outcome(folder, entries[i].name));
        if i > 0 { assert entries[1..][i - 1] == entries[i]; }
      }
      if run in RunsIn(folder, entries[1..], outcome) {
        var i :| 0 <= i < |entries[1..]| && Runnable(folder, entries[1..][i])
                 && run == Run(folder, entries[1..][i].name, outcome(folder, entries[1..][i].name));
        assert entries[i + 1] == entries[1..][i];
      }
    }
  }

  /** The log after a cycle: `_update_backup_log(True)` once per existing working folder,
      which amounts to one mark when at least one folder exists. */
  function CycleLog(log: Stored<seq<LogEntry>>, folders: map<string, seq<DirEntry>>, k: nat): Stored<seq<LogEntry>>
    requires k <= |BackupFolders|
  {
    if exists j :: 0 <= j < k && BackupFolders[j] in folders then MarkLast(log, true) else log
  }

  // ---------------------------------------------------------------- state

  /** The files the scheduler reads and writes under `files/`. */
  class Files {
    var config: Stored<ConfigFile>
    var log: Stored<seq<LogEntry>>
    var registries: Registries
    var folders: map<string, seq<DirEntry>>

    constructor (config: Stored<ConfigFile>, log: Stored<seq<LogEntry>>, registries: Registries,
                 folders: map<string, seq<DirEntry>>)
      ensures this.config == config && this.log == log
      ensures this.registries == registries && this.folders == folders
    {
      this.config := config;
      this.log := log;
      this.registries := registries;
      this.folders := folders;
    }
  }

  /** What `start` did. */
  datatype StartOutcome = NonPositiveInterval | AlreadyRunning | NoEquipment | Started

  class BackupSchedulerManager {
    var running: bool
    var remainingSeconds: int
    var days: int
    var hours: int
    var minutes: int
    var seconds: int
    var intervalSeconds: int
    var backupInProgress: bool
    var lastStartTime: Option<int>
    var currentUser: Option<string>

    /** The configuration `_save_config` writes: the start time only while running. */
    function Config(): (c: ConfigFile)
      reads this
      ensures c.lastStartTime.Some? ==> running
    {
      ConfigFile(Some(running), Some(days), Some(hours), Some(minutes), Some(seconds),
                 Some(intervalSeconds), if running then lastStartTime else None)
    }

    /** `_init_once` then `_load_config`, `now` being `time.time()` in whole seconds. An
        unreadable or non-object file keeps the initial values; a zero interval with a
        recorded start raises inside the `try`, after the fields were read. */
    constructor (file: Stored<ConfigFile>, now: int)
      ensures !backupInProgress && currentUser == None
      ensures !file.Parsed? ==> !running && remainingSeconds == 0 && days == 0 && hours == 0
                                && minutes == 0 && seconds == 0 && intervalSeconds == 0 && lastStartTime == None
      ensures file.Parsed? ==>
        var c := file.value;
        running == c.running.GetOr(false) && days == c.days.GetOr(0) && hours == c.hours.GetOr(0)
        && minutes == c.minutes.GetOr(0) && seconds == c.seconds.GetOr(0)
        && intervalSeconds == c.intervalSeconds.GetOr(0) && lastStartTime == c.lastStartTime
        && remainingSeconds == (if running && lastStartTime.Some? && lastStartTime.value != 0 then
                                  (if intervalSeconds == 0 then 0
                                   else ResumedRemaining(intervalSeconds, now - lastStartTime.value))
                                else intervalSeconds)
    {
      running := false;
      remainingSeconds := 0;
      days, hours, minutes, seconds := 0, 0, 0, 0;
      intervalSeconds := 0;
      backupInProgress := false;
      lastStartTime := None;
      currentUser := None;
      new;
      if file.Parsed? {
        var c := file.value;
        running := c.running.GetOr(false);
        days := c.days.GetOr(0);
        hours := c.hours.GetOr(0);
        minutes := c.minutes.GetOr(0);
        seconds := c.seconds.GetOr(0);
        intervalSeconds := c.intervalSeconds.GetOr(0);
        lastStartTime := c.lastStartTime;
        if running && lastStartTime.Some? && lastStartTime.value != 0 {
          if intervalSeconds != 0 {
            remainingSeconds := ResumedRemaining(intervalSeconds, now - lastStartTime.value);
          }
        } else {
          remainingSeconds := intervalSeconds;
        }
      }
    }

    /** `set_current_user`. */
    method SetCurrentUser(username: Option<string>)
      modifies this`currentUser
      ensures currentUser == username
    {
      currentUser := username;
    }

    /** `_save_config`. */
    method SaveConfig(disk: Files)
      modifies disk`config
      ensures disk.config == Parsed(Config())
    {
      disk.config := Parsed(Config());
    }

    /** `set_duration`: no validation; both counters take the total. */
    method SetDuration(d: int, h: int, m: int, s: int, disk: Files)
      modifies this`days, this`hours, this`minutes, this`seconds, this`remainingSeconds,
               this`intervalSeconds, disk`config
      ensures days == d && hours == h && minutes == m && seconds == s
      ensures intervalSeconds == d * 86400 + h * 3600 + m * 60 + s
      ensures remainingSeconds == intervalSeconds
      ensures disk.config == Parsed(Config())
    {
      days, hours, minutes, seconds := d, h, m, s;
      var total := d * 86400 + h * 3600 + m * 60 + s;
      remainingSeconds := total;
      intervalSeconds := total;
      SaveConfig(disk);
    }

    /** One countdown tick (`countdown` without the re-armed timer). */
    method Tick()
      modifies this`remainingSeconds
      ensures remainingSeconds == if running then TickValue(old(remainingSeconds), intervalSeconds)
                                  else old(remainingSeconds)
    {
      if !running {
        return;
      }
      if remainingSeconds <= 0 {
        remainingSeconds := intervalSeconds;
      } else {
        remainingSeconds := remainingSeconds - 1;
      }
    }

    /** `get_time`: the remaining time as days, hours, minutes and seconds. */
    method GetTime() returns (d: int, h: int, m: int, s: int)
      ensures 0 <= h < 24 && 0 <= m < 60 && 0 <= s < 60
      ensures d * 86400 + h * 3600 + m * 60 + s == remainingSeconds
    {
      var rem := remainingSeconds;
      d := rem / 86400;
      h := (rem % 86400) / 3600;
      m := (rem % 3600) / 60;
      s := rem % 60;
      var a := rem % 86400;
      var b := a % 3600;
      DivMod3600(rem, 24 * d + h, b);
      DivMod60(rem, 1440 * d + 60 * h + m, b % 60);
    }

    /** `start`, with its first synchronous countdown tick. `stamp` is
        `time.strftime("%Y-%m-%d %H:%M:%S")` and `now` is `time.time()`. The first backup
        cycle, which `start` launches on a thread, is a separate `RunCycle` call. */
    method Start(disk: Files, stamp: string, now: int) returns (outcome: StartOutcome)
      modifies this, disk`log, disk`config
      ensures old(intervalSeconds) <= 0 ==> outcome == NonPositiveInterval
      ensures old(intervalSeconds) > 0 && old(running) ==> outcome == AlreadyRunning
      ensures old(intervalSeconds) > 0 && !old(running) && ActiveEquipment(disk.registries) == [] ==> outcome == NoEquipment
      ensures outcome == Started <==>
                old(intervalSeconds) > 0 && !old(running) && ActiveEquipment(disk.registries) != []
      ensures outcome != Started ==> unchanged(this) && unchanged(disk)
      ensures outcome == Started ==>
        && disk.log == Parsed(ListOrEmpty(old(disk.log))
                              + [NewEntry(stamp, ActiveEquipment(disk.registries), currentUser, intervalSeconds)])
        && running && !backupInProgress && lastStartTime == Some(now)
        && remainingSeconds == TickValue(old(remainingSeconds), intervalSeconds)
        && disk.config == Parsed(Config())
      ensures days == old(days) && hours == old(hours) && minutes == old(minutes) && seconds == old(seconds)
      ensures intervalSeconds == old(intervalSeconds) && currentUser == old(currentUser)
    {
      if intervalSeconds <= 0 {
        return NonPositiveInterval;
      }
      if running {
        return AlreadyRunning;
      }
      var active := GetActiveMacs(disk.registries);
      if active == [] {
        return NoEquipment;
      }
      Begin(disk, stamp, now, active);
      outcome := Started;
    }

    /** The part of `start` after its checks: the new log entry, the running state, the
        saved configuration and the first tick. */
    method Begin(disk: Files, stamp: string, now: int, active: seq<Active>)
      modifies this, disk`log, disk`config
      ensures disk.log == Parsed(ListOrEmpty(old(disk.log)) + [NewEntry(stamp, active, currentUser, intervalSeconds)])
      ensures running && !backupInProgress && lastStartTime == Some(now)
      ensures remainingSeconds == TickValue(old(remainingSeconds), intervalSeconds)
      ensures disk.config == Parsed(Config())
      ensures days == old(days) && hours == old(hours) && minutes == old(minutes) && seconds == old(seconds)
      ensures intervalSeconds == old(intervalSeconds) && currentUser == old(currentUser)
    {
      var logData := ListOrEmpty(disk.log);
      logData := logData + [NewEntry(stamp, active, currentUser, intervalSeconds)];
      disk.log := Parsed(logData);
      running := true;
      backupInProgress := false;
      lastStartTime := Some(now);
      SaveConfig(disk);
      Tick();
    }

    /** `stop`: cleared state, emptied working folders, closed last entry, reset flags.
        It does all of it again when the scheduler is already stopped. */
    method Stop(disk: Files, stamp: string)
      modifies this`running, this`backupInProgress, this`lastStartTime, disk
      ensures !running && !backupInProgress && lastStartTime == None
      ensures disk.config == Parsed(Config())
      ensures (disk.folders, disk.log, disk.registries)
              == StopFiles(old(disk.folders), old(disk.log), old(disk.registries), stamp)
    {
      running := false;
      backupInProgress := false;
      lastStartTime := None;
      SaveConfig(disk);
      disk.folders := CleanFolders(disk.folders);
      disk.log := CloseLast(disk.log, stamp);
      disk.registries := ResetRegistries(disk.registries);
    }

    /** `_run_backup_task`: every runnable sub-directory of every existing working folder,
        in folder order then listing order, whatever each run's outcome. */
    method RunCycle(disk: Files, outcome: (string, string) -> PlaybookOutcome) returns (ran: seq<Run>)
      modifies this`backupInProgress, disk`log
      ensures !backupInProgress
      ensures old(backupInProgress) ==> ran == [] && disk.log == old(disk.log)
      ensures !old(backupInProgress) ==>
        ran == CycleRuns(disk.folders, |BackupFolders|, outcome)
        && disk.log == CycleLog(old(disk.log), disk.folders, |BackupFolders|)
    {
      if backupInProgress {
        backupInProgress := false;
        return [];
      }
      backupInProgress := true;
      ran := [];
      var k := 0;
      while k < |BackupFolders|
        invariant 0 <= k <= |BackupFolders|
        invariant ran == CycleRuns(disk.folders, k, outcome)
        invariant disk.log == CycleLog(old(disk.log), disk.folders, k)
      {
        var folder := BackupFolders[k];
        if folder in disk.folders {
          var runs := RunFolder(folder, disk.folders[folder], outcome);
          ran := ran + runs;
          MarkLastIdempotent(old(disk.log), true, true);
          disk.log := MarkLast(disk.log, true);
          assert BackupFolders[k] in disk.folders;
        } else {
          assert (exists j :: 0 <= j < k + 1 && BackupFolders[j] in disk.folders)
              == (exists j :: 0 <= j < k && BackupFolders[j] in disk.folders);
        }
        k := k + 1;
      }
      backupInProgress := false;
    }
  }

  /** The inner loop of `_run_backup_task` over one folder's listing. */
  method RunFolder(folder: string, entries: seq<DirEntry>, outcome: (string, string) -> PlaybookOutcome)
    returns (runs: seq<Run>)
    ensures runs == RunsIn(folder, entries, outcome)
  {
    var i := 0;
    runs := [];
    while i < |entries|
      invariant 0 <= i <= |entries|
      invariant runs == RunsIn(folder, entries[..i], outcome)
    {
      RunsInAppend(folder, entries[..i], [entries[i]], outcome);
      assert entries[..i + 1] == entries[..i] + [entries[i]];
      if Runnable(folder, entries[i]) {
        runs := runs + [Run(folder, entries[i].name, outcome(folder, entries[i].name))];
      }
      i := i + 1;
    }
    assert entries[..i] == entries;
  }

  lemma DivMod3600(x: int, q: int, r: int)
    requires x == 3600 * q + r && 0 <= r < 3600
    ensures x % 3600 == r && x / 3600 == q
  {
  }

  lemma DivMod60(x: int, q: int, r: int)
    requires x == 60 * q + r && 0 <= r < 60
    ensures x % 60 == r && x / 60 == q
  {
  }

  lemma {:induction false} RunsInAppend(folder: string, a: seq<DirEntry>, b: seq<DirEntry>,
                                        outcome: (string, string) -> PlaybookOutcome)
    ensures RunsIn(folder, a + b, outcome) == RunsIn(folder, a, outcome) + RunsIn(folder, b, outcome)
  {
    if a == [] {
      assert a + b == b;
    } else {
      assert (a + b)[1..] == a[1..] + b;
      RunsInAppend(folder, a[1..], b, outcome);
    }
  }
}
