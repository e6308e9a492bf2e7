/** The on-disk working directories the backup generators write and the scheduler runs:
    `files/backup_<vendor>/<subdir>/{inventory.ini, ansible.cfg, backup_<vendor>_ftp.yml}`. */
module Workspace {
  import opened Common
  import opened Dict
  import opened Registry

  /** One entry of `os.listdir(backup_<vendor>)` as the screens that read inventories see
      it: a directory, with the text of its `inventory.ini` when it has one, or anything
      that is not a directory. */
  datatype Entry = Folder(inventory: Option<string>) | NotFolder

  /** One entry of `os.listdir(files/backup_<vendor>)`: a sub-directory with the names of
      the files it holds, or a plain file. */
  datatype DirEntry = Subdir(name: string, files: set<string>) | PlainFile(name: string)

  /** The text of a generated file: spelled out, or an Ansible playbook rendered from the
      named template with the listed values substituted into it. */
  datatype Content = Literal(text: string) | Rendered(template: string, args: seq<string>)

  /** A generated directory: its name and its files (name, content), in writing order. */
  datatype GeneratedDir = GeneratedDir(name: string, files: Dict<string, Content>)

  /** The entry the scheduler sees for a generated directory. */
  function AsEntry(d: GeneratedDir): (e: DirEntry)
    ensures e.Subdir? && e.name == d.name
    ensures forall f :: f in e.files <==> HasKey(d.files, f)
  {
    Subdir(d.name, set i | 0 <= i < |d.files| :: d.files[i].0)
  }

  /** The playbook file name the scheduler requires inside a sub-directory of `folder`. */
  function PlaybookName(folder: string): string {
    folder + "_ftp.yml"
  }

  /** A sub-directory the scheduler hands to `ansible-playbook`: a directory holding both
      `inventory.ini` and `<folder>_ftp.yml`. */
  predicate Runnable(folder: string, e: DirEntry) {
    e.Subdir? && "inventory.ini" in e.files && PlaybookName(folder) in e.files
  }

  // The fixed keys of the host lines the generators and the discovery screen write into
  // `inventory.ini`.
  const HostKey: string := " ansible_host="
  const UserKey: string := " ansible_user="
  const PassKey: string := " ansible_ssh_pass="
  const OsKey: string := " ansible_network_os="
  const NetworkCli: string := " ansible_connection=network_cli"
  const BecomeKeys: string := " ansible_become=yes ansible_become_method=enable ansible_become_password="

  /** The first comment of every generated `inventory.ini`, before the date. */
  const GeneratedOn: string := "# Fichier g\U{E9}n\U{E9}r\U{E9} le "

  /** `" ansible_become=yes ..."` when an enable password is set and not empty. */
  function BecomeSuffix(enable: Option<string>): (r: string)
    ensures r == [] <==> enable.None? || enable.value == []
  {
    if enable.Some? && enable.value != [] then BecomeKeys + enable.value else []
  }

  /** Every record has what an inventory host line needs: a MAC, credentials and an address. */
  predicate Writable(recs: seq<Record>) {
    forall k :: 0 <= k < |recs| ==> recs[k].mac.Some? && recs[k].credentials.Some? && recs[k].ip.Some?
  }

  /** Whether a directory-generating loop has raised, and the directories written so far,
      by name. */
  datatype Phase = Phase(crashed: bool, dirs: Dict<string, GeneratedDir>)

  /** What a run of a backup script leaves: whether it raised, the vendor's registry, and
      the vendor's `backup_<vendor>` directory (`None` when it does not exist) with its
      sub-directories. */
  datatype Outcome = Outcome(crashed: bool, registry: Stored<seq<Record>>, backupDir: Option<Dict<string, GeneratedDir>>)
}
