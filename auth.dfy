/** The login and sign-up screen: the login decision and the visit it always records, and
    the checks and defaults of a new account. The password hash is a parameter `hash`; the
    clock is the text `now`. */
module Auth {
  import opened Common
  import opened Text
  import opened Dict
  import opened Accounts

  // ---------------------------------------------------------------- logging in

  /** How a login attempt ends. */
  datatype LoginOutcome = Placeholder | UnknownUser | WrongPassword | Disabled | LoggedIn

  /** The placeholders the two login fields show before anything is typed. */
  predicate LoginPlaceholder(name: string, pwd: string) {
    name == "username" || pwd == "password"
  }

  /** The branches of `verifier_connexion`, in their order. */
  function Decide(users: Users, name: string, pwd: string, hash: string -> string): (r: LoginOutcome)
    ensures r == Placeholder <==> LoginPlaceholder(name, pwd)
    ensures r == UnknownUser <==> !LoginPlaceholder(name, pwd) && !HasKey(users, name)
    ensures r == WrongPassword <==>
              !LoginPlaceholder(name, pwd) && Get(users, name).Some? && Get(users, name).value.password != hash(pwd)
    ensures r == Disabled <==>
              !LoginPlaceholder(name, pwd) && Get(users, name).Some? &&
              Get(users, name).value.password == hash(pwd) && !IsSet(Get(users, name).value.status)
  {
    if LoginPlaceholder(name, pwd) then Placeholder
    else match Get(users, name)
      case None => UnknownUser
      case Some(account) =>
        if account.password != hash(pwd) then WrongPassword
        else if !IsSet(account.status) then Disabled
        else LoggedIn
  }

  /** A login succeeds exactly when the fields are not placeholders, the user exists, the
      stored password is the hash of the typed one and the account is enabled. */
  lemma LoggedInIff(users: Users, name: string, pwd: string, hash: string -> string)
    ensures Decide(users, name, pwd, hash) == LoggedIn <==>
            !LoginPlaceholder(name, pwd) && Get(users, name).Some? &&
            Get(users, name).value.password == hash(pwd) && IsSet(Get(users, name).value.status)
  {
  }

  /** The users file after an attempt: only a success rewrites it, marking the account
      connected and stamping its last login. */
  function AfterLogin(users: Users, name: string, now: string, outcome: LoginOutcome): Users
    requires outcome == LoggedIn ==> Get(users, name).Some?
  {
    if outcome == LoggedIn then
      var account := Get(users, name).value;
      Put(users, name, account.(connexion := Some(true), lastLogin := Some(now)))
    else users
  }

  /** An attempt changes no other account, a failed attempt changes nothing, and a success
      changes only the connection flag and last login of the account that logged in. */
  lemma {:induction false} AfterLoginChanges(users: Users, name: string, pwd: string, hash: string -> string, now: string, other: string)
    requires other != name
    ensures var outcome := Decide(users, name, pwd, hash);
            var after := AfterLogin(users, name, now, outcome);
            Get(after, other) == Get(users, other) &&
            (outcome != LoggedIn ==> after == users) &&
            (outcome == LoggedIn ==>
               Get(after, name) == Some(Get(users, name).value.(connexion := Some(true), lastLogin := Some(now))))
  {
    var outcome := Decide(users, name, pwd, hash);
    if outcome == LoggedIn {
      var account := Get(users, name).value;
      GetPutOther(users, name, account.(connexion := Some(true), lastLogin := Some(now)), other);
      GetPut(users, name, account.(connexion := Some(true), lastLogin := Some(now)));
    }
  }

  /** The entry `enregistrer_connexion` appends. */
  function VisitOf(name: string, now: string, connect: bool, attempt: bool): Visit {
    Visit(Some(name), Some(now), None, Some(connect), Some(attempt))
  }

  /** The history file after `enregistrer_connexion`: a missing or undecodable file counts
      as empty; a file that is JSON but not a list has no `append`, so it raises and the
      file is left as it was. */
  function Recorded(history: Stored<seq<Visit>>, v: Visit): Stored<seq<Visit>> {
    if history.WrongShape? then history else Parsed(ListOrEmpty(history) + [v])
  }

  /** Every attempt, whatever its outcome, adds exactly one entry at the end of a readable
      history and keeps the earlier ones; that entry is a connection with `tentative` set
      exactly when the attempt failed. */
  lemma LoginRecordsOneVisit(history: Stored<seq<Visit>>, users: Users, name: string, pwd: string, hash: string -> string, now: string)
    requires !history.WrongShape?
    ensures var ok := Decide(users, name, pwd, hash) == LoggedIn;
            var after := ListOrEmpty(Recorded(history, VisitOf(name, now, ok, !ok)));
            |after| == |ListOrEmpty(history)| + 1 &&
            after[..|after| - 1] == ListOrEmpty(history) &&
            after[|after| - 1].user == Some(name) && after[|after| - 1].connectedAt == Some(now) &&
            (after[|after| - 1].connect == Some(true) <==> Decide(users, name, pwd, hash) == LoggedIn) &&
            (after[|after| - 1].attempt == Some(true) <==> Decide(users, name, pwd, hash) != LoggedIn)
  {
  }

  // ---------------------------------------------------------------- creating an account

  /** How `creer_compte` ends. */
  datatype CreateOutcome = EmptyField | Taken | TooShort | Created

  /** The placeholders the four sign-up fields show before anything is typed. */
  predicate SignupPlaceholder(nom: string, prenom: string, username: string, pwd: string) {
    nom == "Nom" || prenom == "Pr\U{E9}nom" || username == "username" || pwd == "password"
  }

  /** The checks of `creer_compte`, in their order; the lengths are those of the stripped
      texts. */
  function CheckNewAccount(users: Users, nom: string, prenom: string, username: string, pwd: string): (r: CreateOutcome)
    ensures r == EmptyField <==> SignupPlaceholder(nom, prenom, username, pwd)
    ensures r == Taken <==> !SignupPlaceholder(nom, prenom, username, pwd) && HasKey(users, username)
  {
    if SignupPlaceholder(nom, prenom, username, pwd) then EmptyField
    else if HasKey(users, username) then Taken
    else if |Strip(username)| < 3 || |Strip(pwd)| < 4 then TooShort
    else Created
  }

  /** An account is created exactly when no field is a placeholder, the username is new,
      and the stripped username and password have at least 3 and 4 characters. */
  lemma CreatedIff(users: Users, nom: string, prenom: string, username: string, pwd: string)
    ensures CheckNewAccount(users, nom, prenom, username, pwd) == Created <==>
            !SignupPlaceholder(nom, prenom, username, pwd) && !HasKey(users, username) &&
            |Strip(username)| >= 3 && |Strip(pwd)| >= 4
  {
  }

  /** The index of the last `c` in `s`, -1 when there is none. */
  function LastIndex(s: string, c: char): (r: int)
    ensures -1 <= r < |s|
    ensures r >= 0 ==> s[r] == c && forall j :: r < j < |s| ==> s[j] != c
    ensures r == -1 ==> forall j :: 0 <= j < |s| ==> s[j] != c
  {
    if s == [] then -1
    else if s[|s| - 1] == c then |s| - 1
    else LastIndex(s[..|s| - 1], c)
  }

  /** Some character of `s[from..to]` is not a dot. */
  predicate NotAllDots(s: string, from: int, to: int)
    requires 0 <= from && to <= |s|
  {
    exists k :: from <= k < to && s[k] != '.'
  }

  /** `os.path.splitext(p)[1]` on a POSIX path: from the last dot of the last path
      component, unless the component's name before that dot is only dots (a leading dot
      starts a hidden name, not an extension). */
  function Ext(p: string): (r: string)
    ensures r != [] ==> r[0] == '.' && |r| <= |p| && r == p[|p| - |r|..]
    ensures forall j :: 1 <= j < |r| ==> r[j] != '.' && r[j] != '/'
  {
    var dot := LastIndex(p, '.');
    var sep := LastIndex(p, '/');
    if dot > sep && NotAllDots(p, sep + 1, dot) then p[dot..] else []
  }

  /** `photo_profil`: "default.png" unless an image was chosen; then the username followed
      by the image's extension. */
  function PhotoName(username: string, image: Option<string>): (r: string)
    ensures image.None? || image == Some([]) ==> r == "default.png"
    ensures image.Some? && image.value != [] ==>
              |r| >= |username| && r[..|username|] == username && r[|username|..] == Ext(image.value)
  {
    if image.Some? && image.value != [] then username + Ext(image.value) else "default.png"
  }

  /** The account `creer_compte` stores: disabled, role "user", not connected, never
      logged in, with the hashed password. */
  function NewAccount(nom: string, prenom: string, pwd: string, hash: string -> string, now: string, photo: string): Account {
    Account(Some(nom), Some(prenom), hash(pwd), Some(false), Some("user"), Some(false), None, Some(now), Some(photo))
  }

  /** A freshly created account cannot log in, even with the right password, until an
      administrator enables it. */
  lemma {:induction false} NewAccountDisabled(users: Users, nom: string, prenom: string, username: string, pwd: string,
                                              hash: string -> string, now: string, photo: string)
    requires CheckNewAccount(users, nom, prenom, username, pwd) == Created
    ensures Decide(Put(users, username, NewAccount(nom, prenom, pwd, hash, now, photo)), username, pwd, hash) == Disabled
  {
    GetPut(users, username, NewAccount(nom, prenom, pwd, hash, now, photo));
  }

  /** Creating an account adds that username with the new account, keeps every other
      account, and keeps the usernames distinct. */
  lemma {:induction false} CreateKeepsOthers(users: Users, username: string, account: Account, other: string)
    requires !HasKey(users, username) && UniqueKeys(users)
    ensures Put(users, username, account) == users + [(username, account)]
    ensures Get(Put(users, username, account), username) == Some(account)
    ensures other != username ==> Get(Put(users, username, account), other) == Get(users, other)
    ensures UniqueKeys(Put(users, username, account))
  {
    GetPut(users, username, account);
    PutKeepsUnique(users, username, account);
    if other != username {
      GetPutOther(users, username, account, other);
    }
  }

  // ---------------------------------------------------------------- the screen

  /** The login frame: the users file, the history file, the user who logged in and the
      profile image chosen on the sign-up form. */
  class LoginFrame {
    var users: Users
    var history: Stored<seq<Visit>>
    var current: Option<string>
    var image: Option<string>

    constructor (u: Users, h: Stored<seq<Visit>>)
      ensures users == u && history == h && current == None && image == None
    {
      users := u;
      history := h;
      current := None;
      image := None;
    }

    /** `enregistrer_connexion`. */
    method RecordVisit(name: string, now: string, connect: bool, attempt: bool) returns (raised: bool)
      modifies this`history
      ensures raised <==> old(history).WrongShape?
      ensures history == Recorded(old(history), VisitOf(name, now, connect, attempt))
    {
      if history.WrongShape? {
        return true;
      }
      var entries: seq<Visit> := [];
      if history.Parsed? {
        entries := history.value;
      }
      entries := entries + [VisitOf(name, now, connect, attempt)];
      history := Parsed(entries);
      return false;
    }

    /** `verifier_connexion`: one visit is recorded whatever happens, the users file is
        rewritten only on success, and only a success that records its visit reaches the
        login callback. */
    method Login(name: string, pwd: string, hash: string -> string, now: string) returns (outcome: LoginOutcome, raised: bool)
      modifies this`users, this`history, this`current
      ensures outcome == Decide(old(users), name, pwd, hash)
      ensures users == AfterLogin(old(users), name, now, outcome)
      ensures history == Recorded(old(history), VisitOf(name, now, outcome == LoggedIn, outcome != LoggedIn))
      ensures raised <==> old(history).WrongShape?
      ensures current == (if outcome == LoggedIn && !raised then Some(name) else old(current))
    {
      outcome := Decide(users, name, pwd, hash);
      if outcome == LoggedIn {
        var account := Get(users, name).value;
        users := Put(users, name, account.(connexion := Some(true), lastLogin := Some(now)));
        raised := RecordVisit(name, now, true, false);
        if !raised {
          current := Some(name);
        }
      } else {
        raised := RecordVisit(name, now, false, true);
      }
    }

    /** `choisir_image`: the path picked in the file dialog; a cancelled dialog (an empty
        path) keeps the image chosen before. The path is kept even when the image then
        fails to open. */
    method ChooseImage(path: string)
      modifies this`image
      ensures path != [] ==> image == Some(path)
      ensures path == [] ==> image == old(image)
    {
      if path != [] {
        image := Some(path);
      }
    }

    /** `creer_compte`: every refused form leaves the users file as it was; an accepted
        one adds the new account under its username. */
    method CreateAccount(nom: string, prenom: string, username: string, pwd: string, hash: string -> string, now: string)
      returns (outcome: CreateOutcome)
      modifies this`users
      ensures outcome == CheckNewAccount(old(users), nom, prenom, username, pwd)
      ensures outcome != Created ==> users == old(users)
      ensures outcome == Created ==>
                users == old(users) + [(username, NewAccount(nom, prenom, pwd, hash, now, PhotoName(username, image)))]
    {
      outcome := CheckNewAccount(users, nom, prenom, username, pwd);
      if outcome == Created {
        var photo := PhotoName(username, image);
        users := Put(users, username, NewAccount(nom, prenom, pwd, hash, now, photo));
      }
    }
  }
}
