/** The backup history screen (`HistoriqueSauvegarde`): the table built from the operation
    log `files/operation_sauvegarde.json`, the detail window a double click opens, and the
    two deletions. The screen and the log file are the fields of `Screen`; the widgets are
    left out. */
module BackupHistory {
  import opened Common
  import opened Text
  import Stamps
  import opened Scheduler

  // ---------------------------------------------------------------- labels

  const InProgress: string := "En cours"
  const Succeeded: string := "Succ\U{E8}s"
  const Failed: string := "\U{C9}chec"

  /** The status label of `load_history` and `format_status`: the three statuses the
      scheduler writes, compared without case, get their French label; any other word is
      shown capitalised. */
  function StatusLabel(status: string): string {
    var k := Lower(status);
    if k == "en_cours" then InProgress
    else if k == "succes" then Succeeded
    else if k == "echec" then Failed
    else Capitalize(status)
  }

  /** The case of a status never changes its label. */
  lemma StatusCaseInsensitive(status: string)
    ensures StatusLabel(Lower(status)) == StatusLabel(status)
  {
    LowerIdempotent(status);
    CapitalizeIgnoresCase(status);
  }

  /** A status the screen does not know is shown as the same word, only its case changed. */
  lemma StatusWordKept(status: string)
    ensures Lower(status) !in {"en_cours", "succes", "echec"} ==> Lower(StatusLabel(status)) == Lower(status)
  {
    CapitalizeIgnoresCase(status);
  }

  /** A text without upper-case letters is its own lower-case form. */
  lemma LowerOfLower(s: string)
    requires forall i :: 0 <= i < |s| ==> !('A' <= s[i] <= 'Z')
    ensures Lower(s) == s
  {
  }

  /** The statuses the scheduler writes get their labels. */
  lemma SchedulerStatuses()
    ensures StatusLabel("en_cours") == InProgress
    ensures StatusLabel("succes") == Succeeded
    ensures StatusLabel("echec") == Failed
  {
    LowerOfLower("en_cours");
    LowerOfLower("succes");
    LowerOfLower("echec");
  }

  /** `format_date` of the detail window: a stored timestamp in the displayed form, anything
      else (a missing value included) "En cours". */
  function FormatDate(date: Option<string>): (r: string)
    ensures date.Some? && Stamps.ParseStored(date.value).Some? ==>
              Stamps.ParseShown(r) == Some(Stamps.ParseStored(date.value).value.(second := 0))
    ensures (date.None? || Stamps.ParseStored(date.value).None?) ==> r == InProgress
  {
    if date.Some? then
      match Stamps.ParseStored(date.value)
      case Some(st) =>
        Stamps.ParseShownRoundTrip(st);
        Stamps.Shown(st)
      case None => InProgress
    else InProgress
  }

  // ---------------------------------------------------------------- rows

  /** One line of the table: user, start, end, number of devices, status, cycle. */
  datatype Row = Row(user: string, start: string, end: string, count: nat, status: string, cycle: string)

  /** `entry.get("date_fin", "N/A")`: the text, or `None` for a JSON null. */
  function RawEnd(f: DateField): Option<string> {
    match f
    case Absent => Some("N/A")
    case Null => None
    case At(t) => Some(t)
  }

  /** The end column once the start has been read: an empty, null or "null" end means the
      operation is still running; a readable end is reformatted; any other text stays. */
  function EndCell(raw: Option<string>): string {
    if raw.None? || raw.value == "" || Lower(raw.value) == "null" then InProgress
    else match Stamps.ParseStored(raw.value)
         case Some(ft) => Stamps.Shown(ft)
         case None => raw.value
  }

  /** The row `load_history` inserts for one entry. When the start does not read as a
      timestamp both dates are shown as they are (a JSON null as Python prints it). */
  function RowOf(e: LogEntry): Row {
    var start := e.dateDebut.GetOr("N/A");
    var raw := RawEnd(e.dateFin);
    var (shownStart, shownEnd) :=
      match Stamps.ParseStored(start)
      case Some(st) => (Stamps.Shown(st), EndCell(raw))
      case None => (start, raw.GetOr("None"));
    Row(e.utilisateur.GetOr("N/A"), shownStart, shownEnd, |e.equipements.GetOr([])|,
        StatusLabel(e.status.GetOr("N/A")), e.intervalle.GetOr("N/A"))
  }

  /** The rows of a whole log, in log order. */
  function TableRows(log: seq<LogEntry>): (r: seq<Row>)
    ensures |r| == |log|
    ensures forall i :: 0 <= i < |log| ==> r[i] == RowOf(log[i])
  {
    seq(|log|, i requires 0 <= i < |log| => RowOf(log[i]))
  }

  /** The entry `start` appends shows its start minute, "En cours" as end and status, and
      the number of devices of its snapshot. */
  lemma FreshEntryRow(st: Stamps.Stamp, active: seq<Active>, user: Option<string>, interval: int)
    requires Stamps.Valid(st)
    ensures var r := RowOf(NewEntry(Stamps.Stored(st), active, user, interval));
            Stamps.ParseShown(r.start) == Some(st.(second := 0)) &&
            r.end == InProgress && r.status == InProgress && r.count == |active|
  {
    Stamps.ParseStoredRoundTrip(st);
    Stamps.ParseShownRoundTrip(st);
    SchedulerStatuses();
  }

  /** An entry with a readable start and a readable end shows both minutes. */
  lemma ClosedEntryRow(e: LogEntry, st: Stamps.Stamp, ft: Stamps.Stamp)
    requires Stamps.Valid(st) && Stamps.Valid(ft)
    requires e.dateDebut == Some(Stamps.Stored(st)) && e.dateFin == At(Stamps.Stored(ft))
    ensures Stamps.ParseShown(RowOf(e).start) == Some(st.(second := 0))
    ensures Stamps.ParseShown(RowOf(e).end) == Some(ft.(second := 0))
  {
    Stamps.ParseStoredRoundTrip(st);
    Stamps.ParseShownRoundTrip(st);
    Stamps.ParseStoredRoundTrip(ft);
    Stamps.ParseShownRoundTrip(ft);
    var t := Stamps.Stored(ft);
    assert |Lower(t)| == 19;
    assert EndCell(Some(t)) == Stamps.Shown(ft);
  }

  /** After the scheduler has marked and closed its last entry, the row shows the closing
      minute and the outcome. */
  lemma FinishedEntryRow(log: seq<LogEntry>, success: bool, st: Stamps.Stamp, ft: Stamps.Stamp)
    requires log != [] && Stamps.Valid(st) && Stamps.Valid(ft)
    requires log[|log| - 1].dateDebut == Some(Stamps.Stored(st))
    requires log[|log| - 1].dateFin.Null? && log[|log| - 1].status == Some("en_cours")
    ensures var done := CloseLast(MarkLast(Parsed(log), success), Stamps.Stored(ft));
            done.Parsed? && |done.value| == |log| &&
            var r := RowOf(done.value[|log| - 1]);
            Stamps.ParseShown(r.start) == Some(st.(second := 0)) &&
            Stamps.ParseShown(r.end) == Some(ft.(second := 0)) &&
            r.status == (if success then Succeeded else Failed)
  {
    var last := |log| - 1;
    var marked := MarkLast(Parsed(log), success);
    MarkLastEffect(Parsed(log), success);
    CloseLastEffect(marked, Stamps.Stored(ft));
    var e := CloseLast(marked, Stamps.Stored(ft)).value[last];
    assert e == log[last].(status := Some(if success then "succes" else "echec"), dateFin := At(Stamps.Stored(ft)));
    ClosedEntryRow(e, st, ft);
    SchedulerStatuses();
  }

  // ---------------------------------------------------------------- the row click

  /** The entry a click on a row of `user` at minute `key` looks for. A JSON null user never
      equals the text of a row. */
  predicate Matches(e: LogEntry, user: string, key: string) {
    e.utilisateur == Some(user) && StartsWith(e.dateDebut.GetOr(""), key)
  }

  /** `on_row_click`: the row's date is read in the displayed form and turned into its
      minute in the stored form; an unreadable log counts as empty, a log that is JSON but
      not a list makes the loop raise. */
  function Click(row: Row, log: Stored<seq<LogEntry>>): ClickOutcome {
    match Stamps.ParseShown(row.start)
    case None => Nothing
    case Some(t) =>
      if log.WrongShape? then Crash
      else match FirstWhere(ListOrEmpty(log), e => Matches(e, row.user, Stamps.MinuteKey(t)))
           case Some(i) => Opened(i)
           case None => Nothing
  }

  /** Clicking the row of an entry with a user and a readable start opens that entry or an
      earlier one of the same user started in the same minute. */
  lemma ClickFindsEntry(log: seq<LogEntry>, i: nat)
    requires i < |log| && log[i].utilisateur.Some? && log[i].dateDebut.Some?
    requires Stamps.ParseStored(log[i].dateDebut.value).Some?
    ensures var st := Stamps.ParseStored(log[i].dateDebut.value).value;
            var c := Click(RowOf(log[i]), Parsed(log));
            c.Opened? && c.index <= i && log[c.index].utilisateur == log[i].utilisateur &&
            StartsWith(log[c.index].dateDebut.GetOr(""), Stamps.MinuteKey(st))
  {
    var d := log[i].dateDebut.value;
    var st := Stamps.ParseStored(d).value;
    Stamps.ParseShownRoundTrip(st);
    Stamps.ParseStoredCanonical(d);
    Stamps.MinuteKeyIgnoresSeconds(st);
    assert Matches(log[i], log[i].utilisateur.value, Stamps.MinuteKey(st));
  }

  // ---------------------------------------------------------------- deletions

  /** Two entries share the key a deletion compares: the same start and the same user, a
      missing value equal only to a missing value. */
  predicate SameKey(a: LogEntry, b: LogEntry) {
    a.dateDebut == b.dateDebut && a.utilisateur == b.utilisateur
  }

  /** `supprimer_sauvegarde`'s comprehension: every entry sharing the target's key goes. */
  function Without(log: seq<LogEntry>, target: LogEntry): seq<LogEntry> {
    Filter(log, e => !SameKey(e, target))
  }

  /** After a deletion no entry with the target's key is left, every entry with another
      key still is, and applying it again changes nothing. */
  lemma WithoutMeaning(log: seq<LogEntry>, target: LogEntry, e: LogEntry)
    ensures e in Without(log, target) <==> e in log && !SameKey(e, target)
    ensures Without(Without(log, target), target) == Without(log, target)
    ensures target in log ==> |Without(log, target)| < |log|
  {
    FilterMembership(log, e => !SameKey(e, target), e);
    FilterIdempotent(log, e => !SameKey(e, target));
    if target in log {
      FilterShorter(log, e => !SameKey(e, target), target);
    }
  }

  // ---------------------------------------------------------------- the screen

  /** The screen: its table, the entry its detail window shows (at most one window is
      open) and the log file. */
  class Screen {
    var rows: seq<Row>
    var detail: Option<LogEntry>
    var log: Stored<seq<LogEntry>>

    /** `__init__` before its `load_history`: an empty table, no window. */
    constructor (f: Stored<seq<LogEntry>>)
      ensures rows == [] && detail == None && log == f
    {
      rows := [];
      detail := None;
      log := f;
    }

    /** `load_history`: a missing or undecodable file leaves the table as it was; a file
        that is JSON but not a list empties the table and then raises in the loop. */
    method LoadHistory() returns (raised: bool)
      modifies this`rows
      ensures raised <==> log.WrongShape?
      ensures log.Parsed? ==> rows == TableRows(log.value)
      ensures log.WrongShape? ==> rows == []
      ensures log.Missing? || log.Unparsable? ==> rows == old(rows)
    {
      match log
      case Missing =>
        return false;
      case Unparsable =>
        return false;
      case WrongShape =>
        rows := [];
        return true;
      case Parsed(entries) =>
        rows := BuildRows(entries);
        return false;
    }

    /** The loop of `load_history` inserting one row per entry. */
    static method BuildRows(entries: seq<LogEntry>) returns (table: seq<Row>)
      ensures table == TableRows(entries)
    {
      table := [];
      for i := 0 to |entries|
        invariant table == TableRows(entries[..i])
      {
        table := table + [RowOf(entries[i])];
      }
      assert entries[..|entries|] == entries;
    }

    /** A double click on `row`: the matching entry is shown unless a detail window is
        already open, in which case that window is only raised. */
    method OnRowClick(row: Row) returns (outcome: ClickOutcome)
      modifies this`detail
      ensures outcome == Click(row, log)
      ensures outcome.Opened? && old(detail).None? ==> log.Parsed? && detail == Some(log.value[outcome.index])
      ensures !(outcome.Opened? && old(detail).None?) ==> detail == old(detail)
    {
      var t := Stamps.ParseShown(row.start);
      if t.None? {
        return Nothing;
      }
      if log.WrongShape? {
        return Crash;
      }
      var entries := ListOrEmpty(log);
      var key := Stamps.MinuteKey(t.value);
      var found := FindFirst(entries, e => Matches(e, row.user, key));
      if found.None? {
        return Nothing;
      }
      outcome := Opened(found.value);
      if detail.None? {
        detail := Some(entries[found.value]);
      }
    }

    /** Closing the detail window by hand. */
    method CloseDetail()
      modifies this`detail
      ensures detail == None
    {
      detail := None;
    }

    /** `supprimer_sauvegarde` after the confirmation: the log loses every entry with the
        target's key, the window closes and the table is reloaded. A log that cannot be
        read or is not a list shows an error and nothing changes. */
    method DeleteEntry(target: LogEntry) returns (failed: bool)
      modifies this
      ensures failed <==> !old(log).Parsed?
      ensures failed ==> log == old(log) && rows == old(rows) && detail == old(detail)
      ensures !failed ==> log == Parsed(Without(old(log).value, target)) && detail == None &&
                          rows == TableRows(log.value)
    {
      if !log.Parsed? {
        return true;
      }
      log := Parsed(Without(log.value, target));
      detail := None;
      var _ := LoadHistory();
      return false;
    }

    /** `supprimer_tout` after the confirmation: an empty log and an empty table. */
    method DeleteAll()
      modifies this`log, this`rows
      ensures log == Parsed([]) && rows == []
    {
      log := Parsed([]);
      var _ := LoadHistory();
    }
  }
}
