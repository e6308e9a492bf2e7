/** The restore generator (`scr_restore.py`): the subnet of the device, the FTP address the
    device fetches its configuration from, and the three files
    `files/restore_<type>/{ansible.cfg, restore_<type>_ftp.yml, inventory.ini}` it writes
    before it runs the playbook. */
module RestoreFiles {
  import opened Common
  import opened Text
  import opened Dict
  import opened Ipv4
  import opened Workspace

  // ---------------------------------------------------------------- subnets

  /** One element of the `networks.json` list as the generator reads it: a subnet text on
      which `split('/')`, `inet_aton` and `int()` succeed with a prefix of at most 32, or
      anything else (a bad address, a prefix above 32, a value that is not a string), on
      which one of them raises. A negative prefix shifts every bit off, like /0. */
  datatype SubnetEntry = Malformed | WellFormed(subnet: Subnet)

  /** Whether the loop of `get_subnet_for_ip` stops at this entry: it raises there, or the
      address is inside it. */
  predicate Stops(ip: bv32, e: SubnetEntry) {
    e.Malformed? || InSubnet(ip, e.subnet)
  }

  /** The position where that loop stops, or |entries|. */
  function StopIndex(ip: bv32, entries: seq<SubnetEntry>): (i: nat)
    ensures i <= |entries|
    ensures forall j :: 0 <= j < i ==> !Stops(ip, entries[j])
    ensures i < |entries| ==> Stops(ip, entries[i])
  {
    if entries == [] then 0
    else if Stops(ip, entries[0]) then 0
    else 1 + StopIndex(ip, entries[1..])
  }

  /** `get_subnet_for_ip(ip, subnets)`, where `address` is what `inet_aton` makes of the
      device's address (`None` when it raises). The whole body sits in one `try`, so a
      malformed address, or a malformed entry met before the match, gives `None` too. */
  function SubnetForIp(address: Option<bv32>, entries: seq<SubnetEntry>): (r: Option<string>)
    ensures address.None? ==> r.None?
    ensures address.Some? ==>
              forall i :: 0 <= i < |entries| && (forall j :: 0 <= j < i ==> !Stops(address.value, entries[j])) ==>
                (entries[i].Malformed? ==> r.None?) &&
                (entries[i].WellFormed? && InSubnet(address.value, entries[i].subnet) ==>
                   r == Some(entries[i].subnet.text))
    ensures address.Some? && (forall j :: 0 <= j < |entries| ==> !Stops(address.value, entries[j])) ==> r.None?
  {
    if address.None? then None
    else
      var i := StopIndex(address.value, entries);
      if i < |entries| && entries[i].WellFormed? then Some(entries[i].subnet.text) else None
  }

  /** The subnets of a list whose every entry is well formed. */
  function SubnetsOf(entries: seq<SubnetEntry>): (r: seq<Subnet>)
    requires forall k :: 0 <= k < |entries| ==> entries[k].WellFormed?
    ensures |r| == |entries| && forall k :: 0 <= k < |entries| ==> r[k] == entries[k].subnet
  {
    if entries == [] then [] else [entries[0].subnet] + SubnetsOf(entries[1..])
  }

  /** On a well-formed list the lookup is the first-match lookup the backup scripts share. */
  lemma SubnetForIpWellFormed(ip: bv32, entries: seq<SubnetEntry>)
    requires forall k :: 0 <= k < |entries| ==> entries[k].WellFormed?
    ensures SubnetForIp(Some(ip), entries) ==
              (var f := FirstSubnet(ip, SubnetsOf(entries)); if f.Some? then Some(f.value.text) else None)
  {
    var subnets := SubnetsOf(entries);
    var i := StopIndex(ip, entries);
    var j := SubnetIndex(ip, subnets);
    if i < j {
      assert InSubnet(ip, subnets[i]);
    }
  }

  /** The address `get_local_ip_in_subnet` finds for an entry; it returns `None` when the
      entry is malformed. */
  function LocalFor(e: SubnetEntry, addrs: seq<HostAddr>): Option<string> {
    if e.Malformed? then None else LocalAddressIn(e.subnet, addrs)
  }

  /** What the host offers as FTP address in a subnet entry. */
  type EntryLocator = SubnetEntry -> Option<string>

  /** Whether the entry is a subnet in which the host offers a (non-empty) FTP address. */
  predicate Serves(e: SubnetEntry, local: EntryLocator) {
    e.WellFormed? && local(e).Some? && local(e).value != ""
  }

  /** The module-level `subnet_ftp_servers`, keyed by subnet text, built once at import:
      `for subnet in subnets: ftp_ip = get_local_ip_in_subnet(subnet); if ftp_ip:
      subnet_ftp_servers[subnet] = ftp_ip`. */
  function ServerTable(entries: seq<SubnetEntry>, addrs: seq<HostAddr>): Dict<string, string> {
    TableWith(entries, e => LocalFor(e, addrs))
  }

  /** The table loop for any way of finding the local address. */
  function TableWith(entries: seq<SubnetEntry>, local: EntryLocator): Dict<string, string>
    decreases |entries|
  {
    if entries == [] then []
    else
      var m := TableWith(entries[..|entries| - 1], local);
      var e := entries[|entries| - 1];
      if Serves(e, local) then Put(m, e.subnet.text, local(e).value) else m
  }

  /** Some entry of the list has this text and offers this address. */
  predicate Offered(entries: seq<SubnetEntry>, local: EntryLocator, text: string, ftp: string) {
    exists e :: e in entries && Serves(e, local) && e.subnet.text == text && local(e) == Some(ftp)
  }

  /** `t` holds each subnet text once, only subnets of `entries` with a local address, with
      that address, and every subnet of `entries` that has one. */
  predicate Describes(entries: seq<SubnetEntry>, local: EntryLocator, t: Dict<string, string>) {
    UniqueKeys(t) &&
    (forall i :: 0 <= i < |t| ==> t[i].1 != "" && Offered(entries, local, t[i].0, t[i].1)) &&
    forall e :: e in entries && Serves(e, local) ==> HasKey(t, e.subnet.text)
  }

  /** The table is exactly the subnets with a local address, each once, with that address. */
  lemma ServerTableMeaning(entries: seq<SubnetEntry>, addrs: seq<HostAddr>)
    ensures Describes(entries, e => LocalFor(e, addrs), ServerTable(entries, addrs))
  {
    TableWithMeaning(entries, e => LocalFor(e, addrs));
  }

  lemma {:induction false} TableWithMeaning(entries: seq<SubnetEntry>, local: EntryLocator)
    ensures Describes(entries, local, TableWith(entries, local))
    decreases |entries|
  {
    if entries != [] {
      var n := |entries| - 1;
      TableWithMeaning(entries[..n], local);
      if Serves(entries[n], local) {
        TableAdds(entries, local);
      } else {
        TableKeeps(entries, local);
      }
    }
  }

  /** The step of `TableWithMeaning` where the last entry has no local address. */
  lemma TableKeeps(entries: seq<SubnetEntry>, local: EntryLocator)
    requires entries != [] && !Serves(entries[|entries| - 1], local)
    requires Describes(entries[..|entries| - 1], local, TableWith(entries[..|entries| - 1], local))
    ensures Describes(entries, local, TableWith(entries, local))
  {
    var n := |entries| - 1;
    assert entries == entries[..n] + [entries[n]];
  }

  /** The step of `TableWithMeaning` where the last entry is written into the table. */
  lemma TableAdds(entries: seq<SubnetEntry>, local: EntryLocator)
    requires entries != [] && Serves(entries[|entries| - 1], local)
    requires Describes(entries[..|entries| - 1], local, TableWith(entries[..|entries| - 1], local))
    ensures Describes(entries, local, TableWith(entries, local))
  {
    var n := |entries| - 1;
    var init := entries[..n];
    var m := TableWith(init, local);
    var e := entries[n];
    var ftp := local(e).value;
    var r := Put(m, e.subnet.text, ftp);
    assert entries == init + [e];
    PutKeepsUnique(m, e.subnet.text, ftp);
    PutHasKey(m, e.subnet.text, ftp);
    PutPairs(m, e.subnet.text, ftp);
    forall i | 0 <= i < |r|
      ensures r[i].1 != "" && Offered(entries, local, r[i].0, r[i].1)
    {
      if r[i] != (e.subnet.text, ftp) {
        var j :| 0 <= j < |m| && m[j] == r[i];
      }
    }
  }

  /** After `d[k] = v` the keys are the old ones and `k`. */
  lemma PutHasKey<K, V>(d: Dict<K, V>, k: K, v: V)
    ensures forall x :: HasKey(Put(d, k, v), x) <==> HasKey(d, x) || x == k
  {
    var r := Put(d, k, v);
    forall x | HasKey(r, x)
      ensures HasKey(d, x) || x == k
    {
      var i :| 0 <= i < |r| && r[i].0 == x;
      if i < |d| && d[i].0 != k {
        assert d[i].0 == x;
      }
    }
    if HasKey(d, k) {
      var i :| 0 <= i < |d| && d[i].0 == k;
      assert r[i].0 == k;
    } else {
      assert r[|d|].0 == k;
    }
    forall x | HasKey(d, x)
      ensures HasKey(r, x)
    {
      var i :| 0 <= i < |d| && d[i].0 == x;
      assert r[i].0 == x;
    }
  }

  /** After `d[k] = v` every pair is `(k, v)` or an old pair. */
  lemma PutPairs<K, V>(d: Dict<K, V>, k: K, v: V)
    ensures forall i :: 0 <= i < |Put(d, k, v)| ==> Put(d, k, v)[i] == (k, v) || Put(d, k, v)[i] in d
  {
  }

  // ---------------------------------------------------------------- FTP address

  /** A Python value that is set and not empty. */
  predicate Truthy(s: Option<string>) {
    s.Some? && s.value != ""
  }

  /** The device's subnet is known and the table has an FTP address for it. */
  predicate Known(subnet: Option<string>, table: Dict<string, string>) {
    Truthy(subnet) && HasKey(table, subnet.value)
  }

  /** The FTP address of the restore, in the generator's order: the table's address for the
      device's subnet, else `get_default_local_ip()`, else what the operator types, where an
      empty answer (or an `input()` that raises) is a RuntimeError. */
  function ChooseFtp(subnet: Option<string>, table: Dict<string, string>, defaultIp: Option<string>,
                     typed: Option<string>): (r: Result<string>)
    ensures r.Err? <==> !Known(subnet, table) && !Truthy(defaultIp) && !Truthy(typed)
    ensures Known(subnet, table) ==> r.Ok? && (subnet.value, r.value) in table
    ensures !Known(subnet, table) && Truthy(defaultIp) ==> r == Ok(defaultIp.value)
    ensures !Known(subnet, table) && !Truthy(defaultIp) && Truthy(typed) ==> r == Ok(typed.value)
    ensures r.Ok? && (forall i :: 0 <= i < |table| ==> table[i].1 != "") ==> r.value != ""
  {
    if Known(subnet, table) then
      var v := Get(table, subnet.value).value;
      assert exists i :: 0 <= i < |table| && table[i] == (subnet.value, v);
      Ok(v)
    else if Truthy(defaultIp) then Ok(defaultIp.value)
    else if Truthy(typed) then Ok(typed.value)
    else Err("Impossible de d\U{E9}terminer l'adresse IP du serveur FTP")
  }

  // ---------------------------------------------------------------- generated files

  /** The four restores the generator knows. */
  datatype RestoreKind = Asa | Ios | RouterOs | FortiOs

  /** The dispatch on `device_type.lower()` and, for Cisco, `system.lower()`; `None` is
      the unsupported type, for which the generator returns without writing anything. */
  function KindOf(deviceType: string, system: string): (k: Option<RestoreKind>)
    ensures k.None? <==> Lower(deviceType) != "cisco" && Lower(deviceType) != "mikrotik" &&
                         Lower(deviceType) != "fortinet"
    ensures k == Some(Asa) <==> Lower(deviceType) == "cisco" && Lower(system) == "asa"
    ensures k == Some(Ios) <==> Lower(deviceType) == "cisco" && Lower(system) != "asa"
    ensures k == Some(RouterOs) <==> Lower(deviceType) == "mikrotik"
    ensures k == Some(FortiOs) <==> Lower(deviceType) == "fortinet"
  {
    var t := Lower(deviceType);
    if t == "cisco" then (if Lower(system) == "asa" then Some(Asa) else Some(Ios))
    else if t == "mikrotik" then Some(RouterOs)
    else if t == "fortinet" then Some(FortiOs)
    else None
  }

  /** The value of `ansible_network_os`. */
  function NetworkOs(k: RestoreKind): string {
    match k
    case Asa => "asa"
    case Ios => "ios"
    case RouterOs => "routeros"
    case FortiOs => "fortios"
  }

  /** The FortiGate restore goes through the HTTP API without TLS. */
  const HttpApi: string := " ansible_connection=httpapi ansible_httpapi_use_ssl=no ansible_httpapi_validate_certs=no"

  /** The connection keys of the host line. */
  function Connection(k: RestoreKind): string {
    if k == FortiOs then HttpApi else NetworkCli
  }

  /** The `[defaults]` part every `ansible.cfg` starts with. */
  function CfgHeader(now: string): string {
    "# Configuration g\U{E9}n\U{E9}r\U{E9}e le " + now + "\n[defaults]\nhost_key_checking = False\n"
  }

  /** The section an IOS restore adds: longer timeouts and the legacy SSH algorithms. */
  const NetworkCliSection: string :=
    "\n[network_cli]\ntimeout = 60\nssh_args = -o KexAlgorithms=+diffie-hellman-group14-sha1," +
    "diffie-hellman-group1-sha1 -o HostKeyAlgorithms=+ssh-rsa -o Ciphers=+aes128-cbc,aes192-cbc," +
    "aes256-cbc,3des-cbc\n"

  /** The section the MikroTik and FortiGate restores add. */
  const PersistentSection: string := "\n[persistent_connection]\nconnect_timeout = 60\ncommand_timeout = 300\n"

  /** What the restore adds to `ansible.cfg` after `[defaults]`: nothing for an ASA. */
  function CfgSection(k: RestoreKind): (s: string)
    ensures s == [] <==> k == Asa
  {
    match k
    case Asa => []
    case Ios => NetworkCliSection
    case RouterOs => PersistentSection
    case FortiOs => PersistentSection
  }

  /** The playbook each restore renders, with the FTP address and the file to fetch: the
      ASA copies into startup-config and reloads, IOS copies into startup-config then into
      running-config, RouterOS fetches then imports the `.rsc`, FortiOS runs
      `execute restore config ftp`. */
  function Template(k: RestoreKind): string {
    match k
    case Asa => "restore_cisco_asa"
    case Ios => "restore_cisco_ios"
    case RouterOs => "restore_mikrotik"
    case FortiOs => "restore_fortinet"
  }

  /** The restore request, as `generate_restore_files` receives it; `address` is what
      `inet_aton` makes of `ip` (`None` when it raises). */
  datatype Request = Request(configFile: string, ip: string, address: Option<bv32>, username: string,
                             password: string, deviceType: string, system: string, enable: Option<string>)

  /** The date comment and the `[all]` group of `inventory.ini`. */
  function InventoryHead(now: string): string {
    GeneratedOn + now + "\n[all]\n"
  }

  /** The host line of the restore inventory up to its connection keys. */
  function HostPrefix(req: Request, os: string): string {
    req.ip + HostKey + req.ip + UserKey + req.username + PassKey + req.password + OsKey + os
  }

  /** `inventory.ini`: the head and the device's host line, ending with the connection keys
      and the become suffix. */
  function InventoryText(req: Request, os: string, connection: string, become: string, now: string): string {
    InventoryHead(now) + HostPrefix(req, os) + connection + become + "\n"
  }

  /** The inventory of a restore of kind `k`. */
  function RestoreInventory(req: Request, k: RestoreKind, now: string): string {
    InventoryText(req, NetworkOs(k), Connection(k), BecomeSuffix(req.enable), now)
  }

  /** The playbook file: `restore_<type>_ftp.yml`. */
  function PlaybookFile(deviceType: string): string {
    "restore_" + Lower(deviceType) + "_ftp.yml"
  }

  /** `files/restore_<type>`. */
  function RestoreDirName(deviceType: string): string {
    "restore_" + Lower(deviceType)
  }

  /** `files_to_create`, in writing order. */
  function RestoreFileSet(req: Request, k: RestoreKind, ftp: string, now: string): Dict<string, Content> {
    [("ansible.cfg", Literal(CfgHeader(now) + CfgSection(k))),
     (PlaybookFile(req.deviceType), Rendered(Template(k), [ftp, req.configFile])),
     ("inventory.ini", Literal(RestoreInventory(req, k, now)))]
  }

  /** A directory after the files are written into it one after the other (`open(..., 'w')`
      replaces a file of the same name). */
  function Written(existing: Dict<string, Content>, files: Dict<string, Content>): Dict<string, Content>
    decreases |files|
  {
    if files == [] then existing
    else
      var n := |files| - 1;
      Put(Written(existing, files[..n]), files[n].0, files[n].1)
  }

  /** Each written file holds what was written last under its name, and every other file of
      the directory is left alone. */
  lemma {:induction false} WrittenMeaning(existing: Dict<string, Content>, files: Dict<string, Content>)
    requires UniqueKeys(files)
    ensures forall i :: 0 <= i < |files| ==> Get(Written(existing, files), files[i].0) == Some(files[i].1)
    ensures forall name :: !HasKey(files, name) ==> Get(Written(existing, files), name) == Get(existing, name)
    ensures UniqueKeys(existing) ==> UniqueKeys(Written(existing, files))
    decreases |files|
  {
    if files != [] {
      var n := |files| - 1;
      var init := files[..n];
      WrittenMeaning(existing, init);
      var d := Written(existing, init);
      GetPut(d, files[n].0, files[n].1);
      forall i | 0 <= i < n
        ensures Get(Written(existing, files), files[i].0) == Some(files[i].1)
      {
        assert init[i] == files[i];
        GetPutOther(d, files[n].0, files[n].1, files[i].0);
      }
      forall name | !HasKey(files, name)
        ensures Get(Written(existing, files), name) == Get(existing, name)
      {
        assert name != files[n].0;
        GetPutOther(d, files[n].0, files[n].1, name);
      }
      if UniqueKeys(existing) {
        PutKeepsUnique(d, files[n].0, files[n].1);
      }
    }
  }

  // ---------------------------------------------------------------- the generator

  /** What the generator finds on the host: `networks.json`, the host's addresses, what
      `get_default_local_ip()` returns, what the operator would type at the prompt (`None`
      when `input()` raises) and the timestamp of the run. */
  datatype Host = Host(networks: Stored<seq<SubnetEntry>>, addrs: seq<HostAddr>, defaultIp: Option<string>,
                       typed: Option<string>, now: string)

  /** How `generate_restore_files` ends: it raises the RuntimeError of `ChooseFtp` before
      creating anything, or it returns with `files/restore_<type>` created and holding the
      listed files. */
  datatype Generation = Raised | Generated(dir: string, contents: Dict<string, Content>)

  /** The FTP address of a request; the module-level `subnets` is [] unless `networks.json`
      holds a list. */
  function RequestFtp(req: Request, host: Host): Result<string> {
    var subnets := ListOrEmpty(host.networks);
    ChooseFtp(SubnetForIp(req.address, subnets), ServerTable(subnets, host.addrs), host.defaultIp, host.typed)
  }

  /** `generate_restore_files` up to the playbook run, on a restore directory that held
      `existing` (empty when it did not exist). */
  function Generate(req: Request, host: Host, existing: Dict<string, Content>): Generation {
    match RequestFtp(req, host)
    case Err(_) => Raised
    case Ok(ftp) =>
      Generated(RestoreDirName(req.deviceType),
                match KindOf(req.deviceType, req.system)
                case None => existing
                case Some(k) => Written(existing, RestoreFileSet(req, k, ftp, host.now)))
  }

  /** The generator in its own steps: choose the FTP address, build the files, write them. */
  method GenerateRestoreFiles(req: Request, host: Host, existing: Dict<string, Content>) returns (g: Generation)
    ensures g == Generate(req, host, existing)
  {
    var subnets := ListOrEmpty(host.networks);
    var table := ServerTable(subnets, host.addrs);
    var subnet := SubnetForIp(req.address, subnets);
    var ftp: string;
    if Truthy(subnet) && HasKey(table, subnet.value) {
      ftp := Get(table, subnet.value).value;
    } else if Truthy(host.defaultIp) {
      ftp := host.defaultIp.value;
    } else if Truthy(host.typed) {
      ftp := host.typed.value;
    } else {
      return Raised;
    }
    assert RequestFtp(req, host) == Ok(ftp);
    var files := BuildFiles(req, ftp, host.now);
    if files.None? {
      return Generated(RestoreDirName(req.deviceType), existing);
    }
    var dir := WriteFiles(existing, files.value);
    g := Generated(RestoreDirName(req.deviceType), dir);
  }

  /** `ansible_cfg` grown with `+=`, the become suffix and the dispatch on the type; `None`
      is the unsupported type. */
  method BuildFiles(req: Request, ftp: string, now: string) returns (files: Option<Dict<string, Content>>)
    ensures files.None? <==> KindOf(req.deviceType, req.system).None?
    ensures files.Some? ==> files.value == RestoreFileSet(req, KindOf(req.deviceType, req.system).value, ftp, now)
  {
    var cfg := CfgHeader(now);
    var become := "";
    if Truthy(req.enable) {
      become := BecomeKeys + req.enable.value;
    }
    var typ := Lower(req.deviceType);
    var playbook: Content;
    var inventory: string;
    ghost var k: RestoreKind;
    if typ == "cisco" {
      if Lower(req.system) == "asa" {
        playbook := Rendered("restore_cisco_asa", [ftp, req.configFile]);
        inventory := InventoryText(req, "asa", NetworkCli, become, now);
        k := Asa;
        assert cfg == CfgHeader(now) + CfgSection(k);
      } else {
        cfg := cfg + NetworkCliSection;
        playbook := Rendered("restore_cisco_ios", [ftp, req.configFile]);
        inventory := InventoryText(req, "ios", NetworkCli, become, now);
        k := Ios;
      }
    } else if typ == "mikrotik" {
      cfg := cfg + PersistentSection;
      playbook := Rendered("restore_mikrotik", [ftp, req.configFile]);
      inventory := InventoryText(req, "routeros", NetworkCli, become, now);
      k := RouterOs;
    } else if typ == "fortinet" {
      cfg := cfg + PersistentSection;
      playbook := Rendered("restore_fortinet", [ftp, req.configFile]);
      inventory := InventoryText(req, "fortios", HttpApi, become, now);
      k := FortiOs;
    } else {
      return None;
    }
    assert k == KindOf(req.deviceType, req.system).value;
    assert become == BecomeSuffix(req.enable);
    files := Some([("ansible.cfg", Literal(cfg)), ("restore_" + typ + "_ftp.yml", playbook),
                   ("inventory.ini", Literal(inventory))]);
  }

  /** `for filename, content in files_to_create.items(): open(...).write(content)`. */
  method WriteFiles(existing: Dict<string, Content>, files: Dict<string, Content>) returns (dir: Dict<string, Content>)
    ensures dir == Written(existing, files)
  {
    dir := existing;
    for i := 0 to |files|
      invariant dir == Written(existing, files[..i])
    {
      assert files[..i + 1][..i] == files[..i];
      dir := Put(dir, files[i].0, files[i].1);
    }
    assert files[..|files|] == files;
  }

  // ---------------------------------------------------------------- properties

  /** The generator raises exactly when no FTP address can be found: the device's subnet has
      none in the table, there is no default local address and the operator types nothing;
      otherwise it creates `files/restore_<type>`. */
  lemma RaisesOnlyWithoutFtp(req: Request, host: Host, existing: Dict<string, Content>)
    ensures var subnets := ListOrEmpty(host.networks);
            Generate(req, host, existing).Raised? <==>
              !Known(SubnetForIp(req.address, subnets), ServerTable(subnets, host.addrs)) &&
              !Truthy(host.defaultIp) && !Truthy(host.typed)
    ensures Generate(req, host, existing).Generated? ==>
              Generate(req, host, existing).dir == RestoreDirName(req.deviceType)
  {
  }

  /** An unsupported type still creates `files/restore_<type>` but writes nothing into it. */
  lemma UnsupportedWritesNothing(req: Request, host: Host, existing: Dict<string, Content>)
    requires RequestFtp(req, host).Ok?
    requires Lower(req.deviceType) !in ["cisco", "mikrotik", "fortinet"]
    ensures Generate(req, host, existing) == Generated(RestoreDirName(req.deviceType), existing)
  {
  }

  /** For a supported type exactly `ansible.cfg`, `restore_<type>_ftp.yml` and `inventory.ini`
      are written, with the playbook pointed at the chosen FTP address and the requested file,
      and every other file of the directory is left as it was. */
  lemma SupportedWritesThree(req: Request, host: Host, existing: Dict<string, Content>)
    requires RequestFtp(req, host).Ok? && KindOf(req.deviceType, req.system).Some?
    ensures var g := Generate(req, host, existing);
            var k := KindOf(req.deviceType, req.system).value;
            g.Generated? &&
            Get(g.contents, "ansible.cfg") == Some(Literal(CfgHeader(host.now) + CfgSection(k))) &&
            Get(g.contents, PlaybookFile(req.deviceType)) ==
              Some(Rendered(Template(k), [RequestFtp(req, host).value, req.configFile])) &&
            Get(g.contents, "inventory.ini") == Some(Literal(RestoreInventory(req, k, host.now))) &&
            forall name :: name !in {"ansible.cfg", PlaybookFile(req.deviceType), "inventory.ini"} ==>
              Get(g.contents, name) == Get(existing, name)
    ensures UniqueKeys(existing) ==> UniqueKeys(Generate(req, host, existing).contents)
  {
    var k := KindOf(req.deviceType, req.system).value;
    var files := RestoreFileSet(req, k, RequestFtp(req, host).value, host.now);
    var g := Generate(req, host, existing);
    assert g.contents == Written(existing, files);
    FileSetKeys(req, k, RequestFtp(req, host).value, host.now);
    WrittenMeaning(existing, files);
    assert Get(g.contents, files[0].0) == Some(files[0].1);
    assert Get(g.contents, files[1].0) == Some(files[1].1);
    assert Get(g.contents, files[2].0) == Some(files[2].1);
  }

  /** The three file names are distinct, and no other name is among them. */
  lemma FileSetKeys(req: Request, k: RestoreKind, ftp: string, now: string)
    ensures var files := RestoreFileSet(req, k, ftp, now);
            UniqueKeys(files) &&
            files[0].0 == "ansible.cfg" && files[1].0 == PlaybookFile(req.deviceType) && files[2].0 == "inventory.ini" &&
            forall name :: HasKey(files, name) ==> name in {"ansible.cfg", PlaybookFile(req.deviceType), "inventory.ini"}
  {
    var files := RestoreFileSet(req, k, ftp, now);
    assert PlaybookFile(req.deviceType)[0] == 'r';
    assert "ansible.cfg"[0] == 'a' && "inventory.ini"[0] == 'i';
  }

  /** The written directory is one the playbook can be run from: it holds the inventory and
      the playbook `ansible-playbook` is given. */
  lemma SupportedIsRunnable(req: Request, host: Host, existing: Dict<string, Content>)
    requires RequestFtp(req, host).Ok? && KindOf(req.deviceType, req.system).Some?
    ensures var g := Generate(req, host, existing);
            g.Generated? && HasKey(g.contents, "inventory.ini") && HasKey(g.contents, PlaybookFile(req.deviceType))
  {
    SupportedWritesThree(req, host, existing);
  }

  /** When the device's subnet has an FTP address, that address goes into the playbook,
      whatever the default local address and the prompt would give. */
  lemma SubnetServerFirst(req: Request, host: Host, defaultIp: Option<string>, typed: Option<string>)
    requires var subnets := ListOrEmpty(host.networks);
             Known(SubnetForIp(req.address, subnets), ServerTable(subnets, host.addrs))
    ensures var other := Host(host.networks, host.addrs, defaultIp, typed, host.now);
            RequestFtp(req, host) == RequestFtp(req, other) && RequestFtp(req, host).Ok? &&
            RequestFtp(req, host).value != ""
  {
    var subnets := ListOrEmpty(host.networks);
    ServerTableMeaning(subnets, host.addrs);
  }

  /** The become keys close the host line exactly when an enable password is set and not
      empty; otherwise the line ends with the connection keys. */
  lemma BecomeOnlyWithEnable(req: Request, k: RestoreKind, now: string)
    ensures Truthy(req.enable) ==> EndsWith(RestoreInventory(req, k, now), BecomeKeys + req.enable.value + "\n")
    ensures !Truthy(req.enable) ==> EndsWith(RestoreInventory(req, k, now), Connection(k) + "\n")
  {
    var head := InventoryHead(now) + HostPrefix(req, NetworkOs(k));
    var become := BecomeSuffix(req.enable);
    if Truthy(req.enable) {
      EndsWithTail(head + Connection(k), become, "\n");
    } else {
      assert head + Connection(k) + become == head + Connection(k);
      EndsWithTail(head, Connection(k), "\n");
    }
  }

  lemma EndsWithTail(p: string, a: string, b: string)
    ensures EndsWith(p + a + b, a + b)
  {
    assert p + a + b == p + (a + b);
  }

  /** An ASA restore keeps the `[defaults]`-only configuration and renders the ASA playbook;
      every other Cisco restore is IOS, with the `[network_cli]` section; the host line names
      the platform the playbook drives, and the playbook file is `restore_cisco_ftp.yml`. */
  lemma CiscoPlatforms(deviceType: string, system: string)
    requires Lower(deviceType) == "cisco"
    ensures KindOf(deviceType, system).Some?
    ensures var k := KindOf(deviceType, system).value;
            Lower(system) == "asa" ==> CfgSection(k) == [] && Template(k) == "restore_cisco_asa" && NetworkOs(k) == "asa"
    ensures var k := KindOf(deviceType, system).value;
            Lower(system) != "asa" ==>
              CfgSection(k) == NetworkCliSection && Template(k) == "restore_cisco_ios" && NetworkOs(k) == "ios"
    ensures PlaybookFile(deviceType) == "restore_cisco_ftp.yml"
  {
  }
}
