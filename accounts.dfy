/** The two files the login screen, the account manager and the connection history share:
    `files/users.json`, a dict from username to account, and `files/historique_users.json`,
    the list of connections and disconnections. */
module Accounts {
  import opened Common
  import opened Dict

  /** One account of `users.json`. The password is the hexadecimal SHA-256 of the text
      typed at creation. */
  datatype Account = Account(
    nom: Option<string>,
    prenom: Option<string>,
    password: string,
    status: Option<bool>,
    role: Option<string>,
    connexion: Option<bool>,
    lastLogin: Option<string>,
    created: Option<string>,
    photo: Option<string>)

  type Users = Dict<string, Account>

  /** Python truthiness of a flag read with `.get(key, False)`. */
  predicate IsSet(flag: Option<bool>) {
    flag == Some(true)
  }

  /** One entry of `historique_users.json`: a login attempt carries `date_connexion` and
      `tentative`, a logout `date_deconnexion`. */
  datatype Visit = Visit(
    user: Option<string>,
    connectedAt: Option<string>,
    disconnectedAt: Option<string>,
    connect: Option<bool>,
    attempt: Option<bool>)
}
