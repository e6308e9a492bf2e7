/** The account manager: the table of accounts and its counters, deletion of an account
    (with its profile images and the restart rule), enabling and disabling an account, and
    editing its name and role. */
module UserAdmin {
  import opened Common
  import opened Text
  import opened Dict
  import opened Accounts

  const Enabled: string := "Activ\U{E9}"
  const DisabledLabel: string := "D\U{E9}sactiv\U{E9}"
  const Online: string := "\U{1F7E2} Connect\U{E9}"
  const Offline: string := "\U{1F534} D\U{E9}connect\U{E9}"

  /** `u.get('status', False)` is truthy. */
  predicate IsActive(a: Account) {
    IsSet(a.status)
  }

  /** `u.get('connexion', False)` is truthy. */
  predicate IsConnected(a: Account) {
    IsSet(a.connexion)
  }

  /** `sum(1 for x in s if p(x))`. */
  function CountIf<T>(s: seq<T>, p: T -> bool): (r: nat)
    ensures r <= |s|
  {
    if s == [] then 0 else (if p(s[0]) then 1 else 0) + CountIf(s[1..], p)
  }

  /** Counting one more element. */
  lemma {:induction false} CountIfSnoc<T>(s: seq<T>, x: T, p: T -> bool)
    ensures CountIf(s + [x], p) == CountIf(s, p) + (if p(x) then 1 else 0)
  {
    if s != [] {
      assert (s + [x])[1..] == s[1..] + [x];
      CountIfSnoc(s[1..], x, p);
    }
  }

  // ---------------------------------------------------------------- counters and rows

  /** The three counters of the status line. */
  datatype Counts = Counts(total: nat, active: nat, connected: nat)

  /** `update_user_count`: every account, the enabled ones, the connected ones; neither
      of the last two exceeds the first. */
  function CountsOf(users: Users): (r: Counts)
    ensures r.total == |users| && r.active <= r.total && r.connected <= r.total
  {
    Counts(|users|, CountIf(users, ActiveEntry), CountIf(users, ConnectedEntry))
  }

  predicate ActiveEntry(e: (string, Account)) {
    IsActive(e.1)
  }

  predicate ConnectedEntry(e: (string, Account)) {
    IsConnected(e.1)
  }

  /** One table row: username, account state, role, connection state. */
  datatype Row = Row(username: string, account: string, role: string, login: string)

  /** `insert_data`'s row for one account; the role defaults to "utilisateur" and is
      capitalised. */
  function RowOf(username: string, a: Account): Row {
    Row(username, if IsActive(a) then Enabled else DisabledLabel, Capitalize(a.role.GetOr("utilisateur")),
        if IsConnected(a) then Online else Offline)
  }

  /** The rows of all accounts, in the dict's order. */
  function TableRows(users: Users): (r: seq<Row>)
    ensures |r| == |users| && forall i :: 0 <= i < |users| ==> r[i] == RowOf(users[i].0, users[i].1)
  {
    if users == [] then [] else [RowOf(users[0].0, users[0].1)] + TableRows(users[1..])
  }

  predicate EnabledRow(r: Row) {
    r.account == Enabled
  }

  predicate OnlineRow(r: Row) {
    r.login == Online
  }

  /** The table and the status line agree: as many rows say "Activé" as there are active
      accounts, and as many say "Connecté" as there are connected ones. */
  lemma {:induction false} RowsAgreeWithCounts(users: Users)
    ensures CountIf(TableRows(users), EnabledRow) == CountsOf(users).active
    ensures CountIf(TableRows(users), OnlineRow) == CountsOf(users).connected
  {
    if users != [] {
      RowsAgreeWithCounts(users[1..]);
      assert TableRows(users)[1..] == TableRows(users[1..]);
      assert Enabled != DisabledLabel && Online != Offline;
    }
  }

  // ---------------------------------------------------------------- edits

  /** `toggle_account_status`: the status becomes the negation of its truthiness. */
  function Toggled(a: Account): (r: Account)
    ensures IsActive(r) == !IsActive(a)
  {
    a.(status := Some(!IsSet(a.status)))
  }

  /** Two toggles restore whether the account is enabled, and restore the account itself
      exactly when its status was stored. */
  lemma ToggleTwice(a: Account)
    ensures IsActive(Toggled(Toggled(a))) == IsActive(a)
    ensures Toggled(Toggled(a)) == a <==> a.status.Some?
  {
    match a.status
    case None =>
      assert Toggled(Toggled(a)).status.Some?;
    case Some(b) =>
      assert IsSet(a.status) == b;
      assert Toggled(Toggled(a)).status == Some(b);
  }

  /** `save_changes`: the name, first name and role are overwritten. */
  function Edited(a: Account, nom: string, prenom: string, role: string): Account {
    a.(nom := Some(nom), prenom := Some(prenom), role := Some(role))
  }

  /** Editing touches only the name, first name and role. */
  lemma EditKeepsTheRest(a: Account, nom: string, prenom: string, role: string)
    ensures Edited(a, nom, prenom, role).(nom := a.nom, prenom := a.prenom, role := a.role) == a
    ensures IsActive(Edited(a, nom, prenom, role)) == IsActive(a) && IsConnected(Edited(a, nom, prenom, role)) == IsConnected(a)
  {
  }

  /** Replacing an account changes a count by what the old and new entries contribute. */
  lemma {:induction false} CountReplace(d: Users, k: string, a: Account, v: Account, p: ((string, Account)) -> bool)
    requires UniqueKeys(d) && Get(d, k) == Some(a)
    ensures CountIf(Replace(d, k, v), p) + (if p((k, a)) then 1 else 0) == CountIf(d, p) + (if p((k, v)) then 1 else 0)
    decreases |d|, 1
  {
    if d[0].0 == k {
      CountReplaceAtHead(d, k, a, v, p);
    } else {
      CountReplaceInTail(d, k, a, v, p);
    }
  }

  /** The replaced account is the first one. */
  lemma CountReplaceAtHead(d: Users, k: string, a: Account, v: Account, p: ((string, Account)) -> bool)
    requires UniqueKeys(d) && d != [] && d[0] == (k, a)
    ensures CountIf(Replace(d, k, v), p) + (if p((k, a)) then 1 else 0) == CountIf(d, p) + (if p((k, v)) then 1 else 0)
  {
    ReplaceAbsent(d[1..], k, v) by {
      forall i | 0 <= i < |d[1..]|
        ensures d[1..][i].0 != k
      {
        assert d[1..][i] == d[i + 1];
      }
    }
    assert Replace(d, k, v) == [(k, v)] + d[1..];
  }

  /** The replaced account comes after the first one. */
  lemma {:induction false} CountReplaceInTail(d: Users, k: string, a: Account, v: Account, p: ((string, Account)) -> bool)
    requires UniqueKeys(d) && d != [] && d[0].0 != k && Get(d, k) == Some(a)
    ensures CountIf(Replace(d, k, v), p) + (if p((k, a)) then 1 else 0) == CountIf(d, p) + (if p((k, v)) then 1 else 0)
    decreases |d|, 0
  {
    var r := Replace(d, k, v);
    assert r[1..] == Replace(d[1..], k, v);
    assert Get(d[1..], k) == Get(d, k);
    UniqueTail(d);
    CountReplace(d[1..], k, a, v, p);
  }

  /** Toggling an account moves the active count by one in the matching direction and
      leaves the other counters alone. */
  lemma ToggleCounts(users: Users, u: string)
    requires UniqueKeys(users) && HasKey(users, u)
    ensures var a := Get(users, u).value;
            var after := CountsOf(Put(users, u, Toggled(a)));
            after.total == |users| && after.connected == CountsOf(users).connected &&
            after.active == if IsActive(a) then CountsOf(users).active - 1 else CountsOf(users).active + 1
  {
    var a := Get(users, u).value;
    CountReplace(users, u, a, Toggled(a), ActiveEntry);
    CountReplace(users, u, a, Toggled(a), ConnectedEntry);
  }

  /** Editing an account leaves every counter as it was. */
  lemma EditCounts(users: Users, u: string, nom: string, prenom: string, role: string)
    requires UniqueKeys(users) && HasKey(users, u)
    ensures CountsOf(Put(users, u, Edited(Get(users, u).value, nom, prenom, role))) == CountsOf(users)
  {
    var a := Get(users, u).value;
    CountReplace(users, u, a, Edited(a, nom, prenom, role), ActiveEntry);
    CountReplace(users, u, a, Edited(a, nom, prenom, role), ConnectedEntry);
  }

  // ---------------------------------------------------------------- deletion

  /** The profile images `_perform_user_deletion` removes. */
  function ProfileImages(username: string): set<string> {
    {username + ".png", username + ".jpg", username + ".jpeg"}
  }

  /** Deleting an account of a dict with distinct usernames removes that account and no
      other: one account less when it existed, nothing otherwise. */
  lemma DeleteMeaning(users: Users, u: string, other: string)
    requires UniqueKeys(users)
    ensures !HasKey(Remove(users, u), u) && UniqueKeys(Remove(users, u))
    ensures HasKey(users, u) ==> |Remove(users, u)| == |users| - 1
    ensures !HasKey(users, u) ==> Remove(users, u) == users
    ensures other != u ==> Get(Remove(users, u), other) == Get(users, other)
  {
    RemoveUnique(users, u);
    if HasKey(users, u) {
      RemoveLength(users, u);
    }
    if other != u {
      RemoveOther(users, u, other);
    }
  }

  /** `delete_account`'s restart rule, on the accounts before the deletion. */
  predicate Restart(users: Users, u: string, current: Option<string>) {
    current == Some(u) || Remove(users, u) == []
  }

  /** The application restarts exactly when the logged-in user deleted their own account
      or the deleted account was the only one (or there was none). */
  lemma {:induction false} RestartRule(users: Users, u: string, current: Option<string>)
    requires UniqueKeys(users)
    ensures Restart(users, u, current) <==>
            current == Some(u) || users == [] || (|users| == 1 && users[0].0 == u)
  {
    var r := Remove(users, u);
    if r == [] {
      assert forall i :: 0 <= i < |users| ==> users[i].0 == u;
      assert |users| <= 1;
    }
    if |users| == 1 && users[0].0 == u {
      RemoveLength(users, u);
    }
  }

  // ---------------------------------------------------------------- the screen

  /** The manager: the accounts it holds, the users file, the profile images on disk, the
      logged-in user, and the table and counters it shows. */
  class Manager {
    var users: Users
    var file: Stored<Users>
    var photos: set<string>
    var current: Option<string>
    var rows: seq<Row>
    var counts: Counts

    constructor (f: Stored<Users>, images: set<string>, who: Option<string>)
      ensures users == [] && file == f && photos == images && current == who
      ensures rows == [] && counts == Counts(0, 0, 0)
    {
      users := [];
      file := f;
      photos := images;
      current := who;
      rows := [];
      counts := Counts(0, 0, 0);
    }

    /** `load_users`: a missing or unreadable file gives no accounts. */
    method Load()
      modifies this`users
      ensures users == if file.Parsed? then file.value else []
    {
      users := if file.Parsed? then file.value else [];
    }

    /** The counting of `update_user_count`. */
    static method Count(users: Users) returns (c: Counts)
      ensures c == CountsOf(users)
    {
      var active := 0;
      var connected := 0;
      for i := 0 to |users|
        invariant active == CountIf(users[..i], ActiveEntry)
        invariant connected == CountIf(users[..i], ConnectedEntry)
      {
        var a := users[i].1;
        assert users[..i + 1] == users[..i] + [users[i]];
        CountIfSnoc(users[..i], users[i], ActiveEntry);
        CountIfSnoc(users[..i], users[i], ConnectedEntry);
        if IsActive(a) {
          active := active + 1;
        }
        if IsConnected(a) {
          connected := connected + 1;
        }
      }
      assert users[..|users|] == users;
      c := Counts(|users|, active, connected);
    }

    /** The loop of `insert_data`'s task. */
    static method BuildRows(users: Users) returns (table: seq<Row>)
      ensures table == TableRows(users)
    {
      table := [];
      for i := 0 to |users|
        invariant |table| == i && forall j :: 0 <= j < i ==> table[j] == RowOf(users[j].0, users[j].1)
      {
        table := table + [RowOf(users[i].0, users[i].1)];
      }
    }

    /** `insert_data`: the table and the counters are rebuilt from the accounts. */
    method Refresh()
      modifies this`rows, this`counts
      ensures rows == TableRows(users) && counts == CountsOf(users)
    {
      rows := BuildRows(users);
      counts := Count(users);
    }

    /** `delete_account` after the confirmation: the account and its profile images go, the
        file is saved, and the table is refreshed unless the application restarts. */
    method DeleteAccount(username: string) returns (restart: bool)
      modifies this`users, this`file, this`photos, this`rows, this`counts
      ensures restart == Restart(old(users), username, current)
      ensures users == Remove(old(users), username) && file == Parsed(users)
      ensures photos == old(photos) - ProfileImages(username)
      ensures !restart ==> rows == TableRows(users) && counts == CountsOf(users)
      ensures restart ==> rows == old(rows) && counts == old(counts)
    {
      var wasCurrent := current == Some(username);
      users := Remove(users, username);
      photos := photos - ProfileImages(username);
      file := Parsed(users);
      restart := wasCurrent || users == [];
      if !restart {
        Refresh();
      }
    }

    /** `toggle_account_status` in the details window of an existing account. */
    method Toggle(username: string)
      requires HasKey(users, username)
      modifies this`users, this`file, this`rows, this`counts
      ensures users == Put(old(users), username, Toggled(Get(old(users), username).value))
      ensures file == Parsed(users) && rows == TableRows(users) && counts == CountsOf(users)
    {
      var a := Get(users, username).value;
      users := Put(users, username, Toggled(a));
      file := Parsed(users);
      Refresh();
    }

    /** `save_changes` in the details window of an existing account. */
    method SaveChanges(username: string, nom: string, prenom: string, role: string)
      requires HasKey(users, username)
      modifies this`users, this`file, this`rows, this`counts
      ensures users == Put(old(users), username, Edited(Get(old(users), username).value, nom, prenom, role))
      ensures file == Parsed(users) && rows == TableRows(users) && counts == CountsOf(users)
    {
      var a := Get(users, username).value;
      users := Put(users, username, Edited(a, nom, prenom, role));
      file := Parsed(users);
      Refresh();
    }
  }
}
