/** The restore history screen (`HistoriqueRestauration`): the table built from the restore
    journal `files/restauration.json`, with the date each row's configuration file carries
    in its name, the detail window a double click opens, and the two deletions. */
module RestoreHistory {
  import opened Common
  import opened Text
  import Stamps
  import opened Registry
  import opened Restoration

  /** The text every unreadable or missing value is shown as. */
  const Unknown: string := "N/A"

  /** `format_date`, also used for the execution column: a stored timestamp in the
      displayed form, anything else "N/A". */
  function FormatDate(date: string): (r: string)
    ensures Stamps.ParseStored(date).Some? ==>
              Stamps.ParseShown(r) == Some(Stamps.ParseStored(date).value.(second := 0))
    ensures Stamps.ParseStored(date).None? ==> r == Unknown
  {
    match Stamps.ParseStored(date)
    case Some(st) =>
      Stamps.ParseShownRoundTrip(st);
      Stamps.Shown(st)
    case None => Unknown
  }

  // ---------------------------------------------------------------- the date of a file name

  /** The pattern `(\d{4}-\d{2}-\d{2})_(\d{2}-\d{2}-\d{2})` matches at `i`. */
  predicate StampAt(s: string, i: nat) {
    i + 19 <= |s| &&
    Stamps.IsDigit(s[i]) && Stamps.IsDigit(s[i + 1]) && Stamps.IsDigit(s[i + 2]) && Stamps.IsDigit(s[i + 3]) &&
    s[i + 4] == '-' && Stamps.IsDigit(s[i + 5]) && Stamps.IsDigit(s[i + 6]) && s[i + 7] == '-' &&
    Stamps.IsDigit(s[i + 8]) && Stamps.IsDigit(s[i + 9]) && s[i + 10] == '_' &&
    Stamps.IsDigit(s[i + 11]) && Stamps.IsDigit(s[i + 12]) && s[i + 13] == '-' &&
    Stamps.IsDigit(s[i + 14]) && Stamps.IsDigit(s[i + 15]) && s[i + 16] == '-' &&
    Stamps.IsDigit(s[i + 17]) && Stamps.IsDigit(s[i + 18])
  }

  /** `re.search` of that pattern from `i` on: the leftmost match. */
  function FirstStamp(s: string, i: nat): (r: Option<nat>)
    ensures r.Some? ==> i <= r.value && StampAt(s, r.value)
    ensures r.Some? ==> forall j :: i <= j < r.value ==> !StampAt(s, j)
    ensures r.None? ==> forall j :: i <= j ==> !StampAt(s, j)
    decreases |s| - i
  {
    if i + 19 > |s| then None
    else if StampAt(s, i) then Some(i)
    else FirstStamp(s, i + 1)
  }

  /** The text a match at `k` is read as: its date, a space, and its time with colons. */
  function MatchText(name: string, k: nat): string
    requires k + 19 <= |name|
  {
    name[k..k + 10] + " " + ReplaceChar(name[k + 11..k + 19], '-', ':')
  }

  /** `extract_date_from_filename`: the leftmost match read as a stored timestamp once its
      time part has its dashes turned into colons; "N/A" without a match or when the match
      is not a real moment (a later match is not tried). */
  function ExtractDate(name: string): (r: string)
    ensures r == Unknown || Stamps.ParseShown(r).Some?
  {
    match FirstStamp(name, 0)
    case None => Unknown
    case Some(k) =>
      match Stamps.ParseStored(MatchText(name, k))
      case Some(st) =>
        Stamps.ParseShownRoundTrip(st);
        Stamps.Shown(st)
      case None => Unknown
  }

  /** No four digits in a row. */
  predicate NoFourDigits(p: string) {
    forall j :: 0 <= j && j + 3 < |p| ==>
      !(Stamps.IsDigit(p[j]) && Stamps.IsDigit(p[j + 1]) && Stamps.IsDigit(p[j + 2]) && Stamps.IsDigit(p[j + 3]))
  }

  /** The file-name form with its time part's dashes turned into colons is the stored form. */
  lemma FileStampText(st: Stamps.Stamp)
    requires Stamps.Valid(st)
    ensures MatchText(Stamps.FileStamp(st), 0) == Stamps.Stored(st)
  {
    var f := Stamps.FileStamp(st);
    var t := ReplaceChar(f[11..19], '-', ':');
    assert t == Stamps.Stored(st)[11..19];
    assert f[..10] == Stamps.Stored(st)[..10];
  }

  /** The stamp of such a name is the leftmost match. */
  lemma StampedNameMatch(prefix: string, f: string, suffix: string)
    requires |f| == 19 && StampAt(f, 0) && NoFourDigits(prefix)
    requires prefix != [] ==> !Stamps.IsDigit(prefix[|prefix| - 1])
    ensures FirstStamp(prefix + f + suffix, 0) == Some(|prefix|)
  {
    var s := prefix + f + suffix;
    var n := |prefix|;
    assert s[n..n + 19] == f;
    assert StampAt(s, n);
    forall j | 0 <= j < n
      ensures !StampAt(s, j)
    {
      if j + 3 < n {
        assert s[j] == prefix[j] && s[j + 1] == prefix[j + 1] && s[j + 2] == prefix[j + 2] && s[j + 3] == prefix[j + 3];
      } else {
        assert s[n - 1] == prefix[n - 1];
      }
    }
  }

  /** The file-name form matches the pattern. */
  lemma FileStampMatches(st: Stamps.Stamp)
    requires Stamps.Valid(st)
    ensures StampAt(Stamps.FileStamp(st), 0)
  {
  }

  /** The text read from a match depends only on the matched characters. */
  lemma MatchTextOf(prefix: string, f: string, suffix: string)
    requires |f| == 19
    ensures MatchText(prefix + f + suffix, |prefix|) == MatchText(f, 0)
  {
    var s := prefix + f + suffix;
    var n := |prefix|;
    assert s[n..n + 10] == f[..10] && s[n + 11..n + 19] == f[11..19];
  }

  /** A name made of a prefix, a `%Y-%m-%d_%H-%M-%S` stamp and any suffix (the names the
      backup playbooks give, with an address as host) shows the stamp's minute, provided
      the prefix cannot start a match of its own. */
  lemma ExtractDateOfStampedName(prefix: string, st: Stamps.Stamp, suffix: string)
    requires Stamps.Valid(st) && NoFourDigits(prefix)
    requires prefix != [] ==> !Stamps.IsDigit(prefix[|prefix| - 1])
    ensures ExtractDate(prefix + Stamps.FileStamp(st) + suffix) == Stamps.Shown(st)
  {
    var f := Stamps.FileStamp(st);
    FileStampMatches(st);
    StampedNameMatch(prefix, f, suffix);
    MatchTextOf(prefix, f, suffix);
    FileStampText(st);
    Stamps.ParseStoredRoundTrip(st);
  }

  // ---------------------------------------------------------------- rows

  /** One line of the table: user, execution date, file date, MAC address, file. */
  datatype Row = Row(user: string, date: string, fileDate: string, mac: string, file: string)

  /** `fichiers_utilises`, which only a successful restoration records. */
  function FileOf(e: JournalEntry): string {
    if e.Restored? then e.file else Unknown
  }

  /** `equipement.mac`, which only a successful restoration records. */
  function MacOf(e: JournalEntry): string {
    if e.Restored? then e.device.mac else Unknown
  }

  /** The row `load_history` inserts for one entry. */
  function RowOf(e: JournalEntry): Row {
    Row(e.user.GetOr(Unknown), FormatDate(e.date), ExtractDate(FileOf(e)), MacOf(e), FileOf(e))
  }

  /** The rows of a whole journal, in journal order. */
  function TableRows(journal: seq<JournalEntry>): (r: seq<Row>)
    ensures |r| == |journal|
    ensures forall i :: 0 <= i < |journal| ==> r[i] == RowOf(journal[i])
  {
    seq(|journal|, i requires 0 <= i < |journal| => RowOf(journal[i]))
  }

  /** The entry a successful restoration appends shows its minute, the device's MAC and
      the configuration file used. */
  lemma RestoredEntryRow(device: DeviceInfo, file: string, st: Stamps.Stamp, user: Option<string>)
    requires Stamps.Valid(st)
    ensures var r := RowOf(Restored(device, file, Stamps.Stored(st), user));
            Stamps.ParseShown(r.date) == Some(st.(second := 0)) && r.mac == device.mac && r.file == file &&
            r.fileDate == ExtractDate(file) && r.user == user.GetOr(Unknown)
  {
    Stamps.ParseStoredRoundTrip(st);
  }

  /** The entry of a failed restoration records neither a file nor a MAC address. */
  lemma FailedEntryRow(ip: string, typ: string, error: string, date: string, user: Option<string>)
    ensures var r := RowOf(RestoreFailed(ip, typ, error, date, user));
            r.mac == Unknown && r.file == Unknown && r.fileDate == Unknown
  {
    assert FirstStamp(Unknown, 0) == None;
  }

  // ---------------------------------------------------------------- the row click

  /** The entry a click on a row of `user` at minute `key` looks for. */
  predicate Matches(e: JournalEntry, user: string, key: string) {
    e.user == Some(user) && StartsWith(e.date, key)
  }

  /** `on_row_click`, as on the backup history screen but on `username` and
      `date_execution`. */
  function Click(row: Row, journal: Stored<seq<JournalEntry>>): ClickOutcome {
    match Stamps.ParseShown(row.date)
    case None => Nothing
    case Some(t) =>
      if journal.WrongShape? then Crash
      else match FirstWhere(ListOrEmpty(journal), e => Matches(e, row.user, Stamps.MinuteKey(t)))
           case Some(i) => Opened(i)
           case None => Nothing
  }

  /** Clicking the row of an entry with a user and a readable date opens that entry or an
      earlier one of the same user executed in the same minute. */
  lemma ClickFindsEntry(journal: seq<JournalEntry>, i: nat)
    requires i < |journal| && journal[i].user.Some?
    requires Stamps.ParseStored(journal[i].date).Some?
    ensures var st := Stamps.ParseStored(journal[i].date).value;
            var c := Click(RowOf(journal[i]), Parsed(journal));
            c.Opened? && c.index <= i && journal[c.index].user == journal[i].user &&
            StartsWith(journal[c.index].date, Stamps.MinuteKey(st))
  {
    var d := journal[i].date;
    var st := Stamps.ParseStored(d).value;
    Stamps.ParseShownRoundTrip(st);
    Stamps.ParseStoredCanonical(d);
    Stamps.MinuteKeyIgnoresSeconds(st);
    assert Matches(journal[i], journal[i].user.value, Stamps.MinuteKey(st));
  }

  // ---------------------------------------------------------------- deletions

  /** Two entries share the key a deletion compares: the same date and the same user. */
  predicate SameKey(a: JournalEntry, b: JournalEntry) {
    a.date == b.date && a.user == b.user
  }

  /** `supprimer_sauvegarde`'s comprehension: every entry sharing the target's key goes. */
  function Without(journal: seq<JournalEntry>, target: JournalEntry): seq<JournalEntry> {
    Filter(journal, e => !SameKey(e, target))
  }

  /** After a deletion no entry with the target's key is left, every entry with another
      key still is, and applying it again changes nothing. */
  lemma WithoutMeaning(journal: seq<JournalEntry>, target: JournalEntry, e: JournalEntry)
    ensures e in Without(journal, target) <==> e in journal && !SameKey(e, target)
    ensures Without(Without(journal, target), target) == Without(journal, target)
    ensures target in journal ==> |Without(journal, target)| < |journal|
  {
    FilterMembership(journal, e => !SameKey(e, target), e);
    FilterIdempotent(journal, e => !SameKey(e, target));
    if target in journal {
      FilterShorter(journal, e => !SameKey(e, target), target);
    }
  }

  // ---------------------------------------------------------------- the screen

  /** The screen: its table, the entry its detail window shows and the journal file. */
  class Screen {
    var rows: seq<Row>
    var detail: Option<JournalEntry>
    var journal: Stored<seq<JournalEntry>>

    /** `__init__` before its `load_history`: an empty table, no window. */
    constructor (f: Stored<seq<JournalEntry>>)
      ensures rows == [] && detail == None && journal == f
    {
      rows := [];
      detail := None;
      journal := f;
    }

    /** `load_history`: a missing or undecodable file leaves the table as it was; a file
        that is JSON but not a list empties the table and then raises in the loop. */
    method LoadHistory() returns (raised: bool)
      modifies this`rows
      ensures raised <==> journal.WrongShape?
      ensures journal.Parsed? ==> rows == TableRows(journal.value)
      ensures journal.WrongShape? ==> rows == []
      ensures journal.Missing? || journal.Unparsable? ==> rows == old(rows)
    {
      match journal
      case Missing =>
        return false;
      case Unparsable =>
        return false;
      case WrongShape =>
        rows := [];
        return true;
      case Parsed(entries) =>
        rows := BuildRows(entries);
        return false;
    }

    /** The loop of `load_history` inserting one row per entry. */
    static method BuildRows(entries: seq<JournalEntry>) returns (table: seq<Row>)
      ensures table == TableRows(entries)
    {
      table := [];
      for i := 0 to |entries|
        invariant table == TableRows(entries[..i])
      {
        table := table + [RowOf(entries[i])];
      }
      assert entries[..|entries|] == entries;
    }

    /** A double click on `row`: the matching entry is shown unless a detail window is
        already open, in which case that window is only raised. */
    method OnRowClick(row: Row) returns (outcome: ClickOutcome)
      modifies this`detail
      ensures outcome == Click(row, journal)
      ensures outcome.Opened? && old(detail).None? ==> journal.Parsed? && detail == Some(journal.value[outcome.index])
      ensures !(outcome.Opened? && old(detail).None?) ==> detail == old(detail)
    {
      var t := Stamps.ParseShown(row.date);
      if t.None? {
        return Nothing;
      }
      if journal.WrongShape? {
        return Crash;
      }
      var entries := ListOrEmpty(journal);
      var key := Stamps.MinuteKey(t.value);
      var found := FindFirst(entries, e => Matches(e, row.user, key));
      if found.None? {
        return Nothing;
      }
      outcome := Opened(found.value);
      if detail.None? {
        detail := Some(entries[found.value]);
      }
    }

    /** Closing the detail window by hand. */
    method CloseDetail()
      modifies this`detail
      ensures detail == None
    {
      detail := None;
    }

    /** `supprimer_sauvegarde` after the confirmation: the journal loses every entry with
        the target's key, the window closes and the table is reloaded. A journal that
        cannot be read or is not a list shows an error and nothing changes. */
    method DeleteEntry(target: JournalEntry) returns (failed: bool)
      modifies this
      ensures failed <==> !old(journal).Parsed?
      ensures failed ==> journal == old(journal) && rows == old(rows) && detail == old(detail)
      ensures !failed ==> journal == Parsed(Without(old(journal).value, target)) && detail == None &&
                          rows == TableRows(journal.value)
    {
      if !journal.Parsed? {
        return true;
      }
      journal := Parsed(Without(journal.value, target));
      detail := None;
      var _ := LoadHistory();
      return false;
    }

    /** `supprimer_tout` after the confirmation: an empty journal and an empty table. */
    method DeleteAll()
      modifies this`journal, this`rows
      ensures journal == Parsed([]) && rows == []
    {
      journal := Parsed([]);
      var _ := LoadHistory();
    }
  }
}
