/** The connection history screen: one row per entry of `historique_users.json`, with the
    kind of event (entry, exit) and whether the attempt was refused, deletion of the
    entries behind one row, and deletion of everything. */
module UserHistory {
  import opened Common
  import Stamps
  import opened Accounts
  import Auth

  /** The dash shown for a missing date and an undetermined action. */
  const Dash: string := "\U{2014}"
  const Entry: string := "Entr\U{E9}e"
  const Exit: string := "Sortie"
  const Refused: string := "Refus\U{E9}e"
  const Allowed: string := "Autoris\U{E9}e"

  /** A date cell: the stored text, or the dash when it is missing, null or empty. */
  function Cell(d: Option<string>): string {
    if d.None? || d.value == "" then Dash else d.value
  }

  /** A date that shows as itself: present, non-empty and not the dash. */
  predicate Present(d: Option<string>) {
    d.Some? && d.value != "" && d.value != Dash
  }

  /** A date cell is the dash exactly when the date is not present. */
  lemma CellDash(d: Option<string>)
    ensures Cell(d) == Dash <==> !Present(d)
    ensures Present(d) ==> Cell(d) == d.value
  {
  }

  /** The action column, from the two date cells. */
  function ActionOf(connected: string, disconnected: string): string {
    if connected != Dash && disconnected == Dash then Entry
    else if disconnected != Dash then Exit
    else Dash
  }

  /** One table row: user, connection date, disconnection date, action, authorisation, and
      the `refuse` tag that colours it. */
  datatype Row = Row(user: string, connected: string, disconnected: string, action: string, authorisation: string, refused: bool)

  /** `insert_data`'s row for one entry. */
  function RowOf(v: Visit): Row {
    var c := Cell(v.connectedAt);
    var d := Cell(v.disconnectedAt);
    Row(if v.user.Some? then v.user.value else "", c, d, ActionOf(c, d),
        if IsSet(v.attempt) then Refused else Allowed, IsSet(v.attempt))
  }

  /** The action is "Entrée" when only a connection date is present, "Sortie" whenever a
      disconnection date is present and the dash otherwise; a row is "Refusée" and tagged
      exactly when `tentative` is set. */
  lemma RowMeaning(v: Visit)
    ensures RowOf(v).action == Entry <==> Present(v.connectedAt) && !Present(v.disconnectedAt)
    ensures RowOf(v).action == Exit <==> Present(v.disconnectedAt)
    ensures RowOf(v).action == Dash <==> !Present(v.connectedAt) && !Present(v.disconnectedAt)
    ensures RowOf(v).authorisation == Refused <==> IsSet(v.attempt)
    ensures RowOf(v).refused <==> IsSet(v.attempt)
  {
    CellDash(v.connectedAt);
    CellDash(v.disconnectedAt);
    assert Entry != Dash && Exit != Dash && Entry != Exit && Refused != Allowed;
  }

  /** The rows of a history, in order. */
  function TableRows(history: seq<Visit>): (r: seq<Row>)
    ensures |r| == |history| && forall i :: 0 <= i < |history| ==> r[i] == RowOf(history[i])
  {
    if history == [] then [] else TableRows(history[..|history| - 1]) + [RowOf(history[|history| - 1])]
  }

  /** The entry the logout dialog appends. */
  function LogoutVisit(name: string, now: string): Visit {
    Visit(Some(name), None, Some(now), Some(false), None)
  }

  /** A login attempt recorded at a moment shows as an entry of that user at that moment,
      refused exactly when the attempt failed. */
  lemma LoginVisitRow(name: string, st: Stamps.Stamp, ok: bool)
    requires Stamps.Valid(st)
    ensures RowOf(Auth.VisitOf(name, Stamps.Stored(st), ok, !ok)) ==
            Row(name, Stamps.Stored(st), Dash, Entry, if ok then Allowed else Refused, !ok)
  {
    assert |Stamps.Stored(st)| != |Dash|;
  }

  /** A logout shows as an allowed exit of that user at that moment. */
  lemma LogoutVisitRow(name: string, st: Stamps.Stamp)
    requires Stamps.Valid(st)
    ensures RowOf(LogoutVisit(name, Stamps.Stored(st))) == Row(name, Dash, Stamps.Stored(st), Exit, Allowed, false)
  {
    assert |Stamps.Stored(st)| != |Dash|;
  }

  /** The entries a row's deletion removes: same user, and the connection date for an
      "Entrée" row or the disconnection date for a "Sortie" row. */
  predicate Hit(h: Visit, row: Row) {
    h.user == Some(row.user) &&
    ((row.action == Entry && h.connectedAt == Some(row.connected)) ||
     (row.action == Exit && h.disconnectedAt == Some(row.disconnected)))
  }

  /** `supprimer_ligne_selectionnee`'s comprehension. */
  function Without(history: seq<Visit>, row: Row): seq<Visit> {
    Filter(history, h => !Hit(h, row))
  }

  /** Deleting an "Entrée" row removes the user's entries with that connection date, a
      "Sortie" row those with that disconnection date, and a dash row nothing; every
      other entry stays, and an entry without a user is never removed. */
  lemma DeleteMeaning(history: seq<Visit>, row: Row, h: Visit)
    ensures row.action == Entry ==>
              (h in Without(history, row) <==> h in history && !(h.user == Some(row.user) && h.connectedAt == Some(row.connected)))
    ensures row.action == Exit ==>
              (h in Without(history, row) <==> h in history && !(h.user == Some(row.user) && h.disconnectedAt == Some(row.disconnected)))
    ensures row.action != Entry && row.action != Exit ==> Without(history, row) == history
    ensures h in history && h.user.None? ==> h in Without(history, row)
  {
    FilterMembership(history, h => !Hit(h, row), h);
    assert Entry != Exit;
    if row.action != Entry && row.action != Exit {
      FilterKeepsAll(history, h => !Hit(h, row));
    }
  }

  /** Deleting the row of an entry that has a user and an action removes that entry. */
  lemma DeleteOwnRow(history: seq<Visit>, v: Visit)
    requires v.user.Some? && RowOf(v).action != Dash
    ensures v !in Without(history, RowOf(v))
  {
    RowMeaning(v);
    CellDash(v.connectedAt);
    CellDash(v.disconnectedAt);
    FilterMembership(history, h => !Hit(h, RowOf(v)), v);
  }

  // ---------------------------------------------------------------- the screen

  /** The screen: the history it holds, its table, and the history file. */
  class Screen {
    var history: seq<Visit>
    var rows: seq<Row>
    var file: Stored<seq<Visit>>

    /** `__init__` before its `load_historique`: an empty history and table. */
    constructor (f: Stored<seq<Visit>>)
      ensures history == [] && rows == [] && file == f
    {
      history := [];
      rows := [];
      file := f;
    }

    /** `load_historique`: a missing file keeps the history, an undecodable one empties
        it; `notList` reports a file that is JSON but not a list. */
    method Load() returns (notList: bool)
      modifies this`history
      ensures notList <==> file.WrongShape?
      ensures file.Parsed? ==> history == file.value
      ensures file.Unparsable? || file.WrongShape? ==> history == []
      ensures file.Missing? ==> history == old(history)
    {
      notList := file.WrongShape?;
      match file
      case Missing =>
      case Unparsable =>
        history := [];
      case WrongShape =>
        history := [];
      case Parsed(entries) =>
        history := entries;
    }

    /** `insert_data`: the table is rebuilt from the history. */
    method Refresh()
      modifies this`rows
      ensures rows == TableRows(history)
    {
      rows := BuildRows(history);
    }

    /** The loop of `insert_data`. */
    static method BuildRows(entries: seq<Visit>) returns (table: seq<Row>)
      ensures table == TableRows(entries)
    {
      table := [];
      for i := 0 to |entries|
        invariant table == TableRows(entries[..i])
      {
        assert entries[..i + 1][..i] == entries[..i];
        table := table + [RowOf(entries[i])];
      }
      assert entries[..|entries|] == entries;
    }

    /** `supprimer_ligne_selectionnee` after the confirmation: the history loses the
        entries behind the row, is written back and shown again. */
    method DeleteRow(row: Row)
      modifies this`history, this`file, this`rows
      ensures history == Without(old(history), row)
      ensures file == Parsed(history) && rows == TableRows(history)
    {
      history := Without(history, row);
      file := Parsed(history);
      Refresh();
    }

    /** `supprimer_tout` after the confirmation. */
    method DeleteAll()
      modifies this`history, this`file, this`rows
      ensures history == [] && file == Parsed([]) && rows == []
    {
      history := [];
      file := Parsed([]);
      Refresh();
    }
  }
}
