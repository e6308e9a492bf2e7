/** The restore screen (`saverestauration.py`): the normalisation of a device type to a
    vendor, the lookup of the device in its vendor's registry, the journal
    `restauration.json` the restore appends to, the parse of the backup inventories into
    MAC sets keyed by FTP address and vendor, and the ✔️/❌ backup status rows. */
module Restoration {
  import opened Common
  import opened Text
  import opened Dict
  import opened Registry
  import opened Workspace

  // ---------------------------------------------------------------- type normalisation

  /** `type_normalisation`, in its insertion order: a key and the vendor it stands for. */
  const TypeTable: seq<(string, Vendor)> := [
    ("cisco", Cisco), ("mikrotik", Mikrotik), ("huawei", Huawei), ("juniper", Juniper),
    ("fortinet", Fortinet), ("asa", Cisco), ("ios", Cisco), ("routeros", Mikrotik),
    ("fortigate", Fortinet)]

  /** The vendor of the first key of `table` that occurs in `t`. */
  function Normalise(table: seq<(string, Vendor)>, t: string): (r: Option<Vendor>)
    ensures r.None? <==> forall i :: 0 <= i < |table| ==> !Contains(t, table[i].0)
    ensures r.Some? ==> exists i :: 0 <= i < |table| && Contains(t, table[i].0) && table[i].1 == r.value &&
                                   forall j :: 0 <= j < i ==> !Contains(t, table[j].0)
  {
    if table == [] then None
    else if Contains(t, table[0].0) then Some(table[0].1)
    else
      var r := Normalise(table[1..], t);
      assert forall j :: 1 <= j < |table| ==> table[j] == table[1..][j - 1];
      assert r.Some? ==> exists i :: 1 <= i < |table| && Contains(t, table[i].0) && table[i].1 == r.value &&
                                     forall j :: 1 <= j < i ==> !Contains(t, table[j].0) by {
        if r.Some? {
          var i :| 0 <= i < |table[1..]| && Contains(t, table[1..][i].0) && table[1..][i].1 == r.value &&
                   forall j :: 0 <= j < i ==> !Contains(t, table[1..][j].0);
          assert table[i + 1] == table[1..][i];
        }
      }
      r
  }

  /** The normalisation loop of `executer_restauration`, on the lower-cased type;
      `None` is the `ValueError` it raises. */
  function NormaliseType(typ: string): Option<Vendor> {
    Normalise(TypeTable, Lower(typ))
  }

  // ---------------------------------------------------------------- device lookup

  /** The `device_info` of `executer_restauration`. */
  datatype DeviceInfo = DeviceInfo(mac: string, name: string, ip: string, typ: string, system: string)

  /** `next((item for item in data if item.get("ip") == ip), None)`. */
  function FirstWithIp(records: seq<Record>, ip: string): (r: Option<Record>)
    ensures r.None? <==> forall k :: 0 <= k < |records| ==> records[k].ip != Some(ip)
    ensures r.Some? ==> exists k :: 0 <= k < |records| && records[k] == r.value && records[k].ip == Some(ip) &&
                                   forall j :: 0 <= j < k ==> records[j].ip != Some(ip)
  {
    if records == [] then None
    else if records[0].ip == Some(ip) then Some(records[0])
    else
      var r := FirstWithIp(records[1..], ip);
      assert forall j :: 1 <= j < |records| ==> records[j] == records[1..][j - 1];
      assert r.Some? ==> exists k :: 1 <= k < |records| && records[k] == r.value && records[k].ip == Some(ip) &&
                                     forall j :: 1 <= j < k ==> records[j].ip != Some(ip) by {
        if r.Some? {
          var k :| 0 <= k < |records[1..]| && records[1..][k] == r.value && records[1..][k].ip == Some(ip) &&
                   forall j :: 0 <= j < k ==> records[1..][j].ip != Some(ip);
          assert records[k + 1] == records[1..][k];
        }
      }
      r
  }

  /** The device as the journal records it: "inconnu" for mac and name and the caller's
      system, overwritten by the first record of the vendor's registry with the same ip. */
  function LookupDevice(regs: Registries, v: Vendor, ip: string, typ: string, system: string): (r: DeviceInfo)
    ensures r.ip == ip && r.typ == typ
    ensures (forall k :: 0 <= k < |RecordsOf(regs, v)| ==> RecordsOf(regs, v)[k].ip != Some(ip)) ==>
              r == DeviceInfo("inconnu", "inconnu", ip, typ, system)
    ensures forall k :: 0 <= k < |RecordsOf(regs, v)| && RecordsOf(regs, v)[k].ip == Some(ip) &&
                        (forall j :: 0 <= j < k ==> RecordsOf(regs, v)[j].ip != Some(ip)) ==>
              var rec := RecordsOf(regs, v)[k];
              r == DeviceInfo(rec.mac.GetOr("inconnu"), rec.name.GetOr("inconnu"), ip, typ, rec.system.GetOr(system))
  {
    var records := RecordsOf(regs, v);
    match FirstWithIp(records, ip)
    case None => DeviceInfo("inconnu", "inconnu", ip, typ, system)
    case Some(rec) =>
      assert forall k :: (0 <= k < |records| && records[k].ip == Some(ip) &&
                          (forall j :: 0 <= j < k ==> records[j].ip != Some(ip))) ==> records[k] == rec;
      DeviceInfo(rec.mac.GetOr("inconnu"), rec.name.GetOr("inconnu"), ip, typ, rec.system.GetOr(system))
  }

  // ---------------------------------------------------------------- restore journal

  /** One entry of `restauration.json`; both kinds carry `type_operation` "restauration". */
  datatype JournalEntry =
    | Restored(device: DeviceInfo, file: string, date: string, user: Option<string>)
    | RestoreFailed(ip: string, typ: string, error: string, date: string, user: Option<string>)
  {
    /** The stored `status`. */
    function Status(): string {
      if Restored? then "succ\U{E8}s" else "\U{E9}chec"
    }
  }

  /** How `executer_restauration` ends. */
  datatype RestoreOutcome = UnknownType | GenerationFailed | RestoreDone | NoticeFailed

  /** `executer_restauration`. `generated` says whether `generate_restore_files` returns
      normally and `noticeShown` whether the final message box does; `error` is the text
      of the exception caught, `now` the timestamp. A failure before `restauration_path`
      is bound leaves the journal alone; a failure after it appends one "échec" entry to
      the journal as it then stands. */
  method ExecuteRestore(filename: string, ip: string, typ: string, system: string, regs: Registries,
                        journal: Stored<seq<JournalEntry>>, generated: bool, noticeShown: bool,
                        error: string, now: string, user: Option<string>)
    returns (outcome: RestoreOutcome, newJournal: Stored<seq<JournalEntry>>)
    ensures outcome == UnknownType <==> NormaliseType(typ).None?
    ensures outcome == GenerationFailed <==> NormaliseType(typ).Some? && !generated
    ensures outcome in {UnknownType, GenerationFailed} ==> newJournal == journal
    ensures outcome in {RestoreDone, NoticeFailed} ==>
              NormaliseType(typ).Some? && newJournal.Parsed? &&
              var done := ListOrEmpty(journal) + [Restored(LookupDevice(regs, NormaliseType(typ).value, ip, typ, system),
                                                           filename, now, user)];
              (outcome == RestoreDone ==> newJournal.value == done) &&
              (outcome == NoticeFailed ==> newJournal.value == done + [RestoreFailed(ip, typ, error, now, user)])
    ensures outcome == RestoreDone <==> NormaliseType(typ).Some? && generated && noticeShown
  {
    var v := NormaliseType(typ);
    if v.None? {
      return UnknownType, journal;
    }
    var info := LookupDevice(regs, v.value, ip, typ, system);
    if !generated {
      return GenerationFailed, journal;
    }
    var existing := ListOrEmpty(journal);
    existing := existing + [Restored(info, filename, now, user)];
    newJournal := Parsed(existing);
    if !noticeShown {
      var reread := ListOrEmpty(newJournal);
      reread := reread + [RestoreFailed(ip, typ, error, now, user)];
      return NoticeFailed, Parsed(reread);
    }
    outcome := RestoreDone;
  }

  // ---------------------------------------------------------------- inventory parse

  /** The vendors of the status table, in the order of its `fichiers` dict. */
  const StatusOrder: seq<Vendor> := [Mikrotik, Cisco, Huawei, Juniper, Fortinet]

  /** `inventory_data`: FTP address -> vendor -> the (MAC, address) pairs listed. */
  type InventoryData = map<string, map<Vendor, set<(string, string)>>>

  /** `inventory_data[ftp][v]` exists and holds `p`. */
  predicate Listed(d: InventoryData, ftp: string, v: Vendor, p: (string, string)) {
    ftp in d && v in d[ftp] && p in d[ftp][v]
  }

  /** `inventory_data[ftp][v].add(p)`, creating the inner dict and set when missing. */
  function Add(d: InventoryData, ftp: string, v: Vendor, p: (string, string)): (r: InventoryData)
    ensures forall f, w, q :: Listed(r, f, w, q) <==> Listed(d, f, w, q) || (f == ftp && w == v && q == p)
  {
    var inner := if ftp in d then d[ftp] else map[];
    var items := if v in inner then inner[v] else {};
    d[ftp := inner[v := items + {p}]]
  }

  /** `mac = parts[0].replace('-', ':').upper()`. */
  function InventoryMac(token: string): string {
    Upper(ReplaceChar(token, '-', ':'))
  }

  /** What one line of an `inventory.ini` contributes. */
  datatype LineParse = Ignored | Host(mac: string, ip: string) | LineRaises

  /** The key an inventory line names the device's address with. */
  const HostMarker: string := "ansible_host="

  /** One line of the parse: stripped; blank, comment and section lines are skipped; the MAC
      is the first token; the address is what follows the first '=' of the second token
      when the line mentions `ansible_host=`, else "N/A". The indexing raises when that
      second token or its '=' is missing. */
  function ParseInventoryLine(raw: string): LineParse {
    var s := Strip(raw);
    if s == [] || s[0] == '#' || s[0] == '[' then Ignored
    else
      var parts := Split(s);
      if parts == [] then Ignored
      else if !Contains(s, HostMarker) then Host(InventoryMac(parts[0]), "N/A")
      else if |parts| < 2 then LineRaises
      else
        var kv := SplitOn(parts[1], '=');
        if |kv| < 2 then LineRaises else Host(InventoryMac(parts[0]), kv[1])
  }

  /** Only blank, comment and section lines are skipped; a host's MAC is its first token,
      upper-cased with colons; a line without `ansible_host=` has the address "N/A", and
      only a line with it can raise. */
  lemma ParseInventoryLineMeaning(raw: string)
    ensures var s := Strip(raw);
            var r := ParseInventoryLine(raw);
            (r == Ignored <==> s == [] || s[0] == '#' || s[0] == '[') &&
            (r.Host? ==> r.mac == InventoryMac(Split(s)[0])) &&
            (r.Host? && !Contains(s, HostMarker) ==> r.ip == "N/A") &&
            (r.LineRaises? ==> Contains(s, HostMarker))
  {
    var s := Strip(raw);
    if !(s == [] || s[0] == '#' || s[0] == '[') {
      StripEnds(raw);
      SplitNonEmpty(s);
    }
  }

  /** `backup_dir.split('_')[-1]`: the FTP address a backup directory is named after. */
  function FtpOfDir(name: string): string {
    var pieces := SplitOn(name, '_');
    pieces[|pieces| - 1]
  }

  /** A parser of inventory lines; the screen uses `ParseInventoryLine`. */
  type LineParser = string -> LineParse

  /** The parse of every line of an inventory. */
  function ParsedWith(parse: LineParser, lines: seq<string>): seq<LineParse> {
    seq(|lines|, k requires 0 <= k < |lines| => parse(lines[k]))
  }

  function ParseLines(lines: seq<string>): seq<LineParse> {
    ParsedWith(ParseInventoryLine, lines)
  }

  /** The (MAC, address) pairs of the host lines among `ps`. */
  function HostPairs(ps: seq<LineParse>): set<(string, string)> {
    if ps == [] then {}
    else HostPairs(ps[..|ps| - 1]) + (if ps[|ps| - 1].Host? then {(ps[|ps| - 1].mac, ps[|ps| - 1].ip)} else {})
  }

  /** A pair is listed exactly when some parsed line is a host line with that pair. */
  lemma {:induction false} HostPairsMeaning(ps: seq<LineParse>, q: (string, string))
    ensures q in HostPairs(ps) <==> exists k :: 0 <= k < |ps| && ps[k] == Host(q.0, q.1)
  {
    if ps != [] {
      var last := |ps| - 1;
      var init := ps[..last];
      HostPairsMeaning(init, q);
      if exists k :: 0 <= k < |ps| && ps[k] == Host(q.0, q.1) {
        var k :| 0 <= k < |ps| && ps[k] == Host(q.0, q.1);
        if k < last {
          assert init[k] == ps[k];
        }
      }
      if exists k :: 0 <= k < |init| && init[k] == Host(q.0, q.1) {
        var k :| 0 <= k < |init| && init[k] == Host(q.0, q.1);
        assert ps[k] == init[k];
      }
    }
  }

  /** One parsed line added to `inventory_data[ftp][v]`: `None` is a raise. */
  function AddStep(d: InventoryData, x: LineParse, ftp: string, v: Vendor): Option<InventoryData> {
    match x
    case Ignored => Some(d)
    case LineRaises => None
    case Host(m, ip) => Some(Add(d, ftp, v, (m, ip)))
  }

  /** The data after the parsed lines of one inventory are added, or `None` when a line raises. */
  function AddParsed(d: InventoryData, ps: seq<LineParse>, ftp: string, v: Vendor): (r: Option<InventoryData>)
    ensures r.None? <==> exists k :: 0 <= k < |ps| && ps[k].LineRaises?
    ensures r.Some? ==> forall f, w, q :: Listed(r.value, f, w, q) <==>
                                          Listed(d, f, w, q) || (f == ftp && w == v && q in HostPairs(ps))
    decreases |ps|
  {
    if ps == [] then Some(d)
    else
      var init := ps[..|ps| - 1];
      assert forall k :: 0 <= k < |init| ==> init[k] == ps[k];
      match AddParsed(d, init, ftp, v)
      case None => None
      case Some(d1) => AddStep(d1, ps[|ps| - 1], ftp, v)
  }

  lemma AddParsedSnoc(d: InventoryData, a: seq<LineParse>, x: LineParse, ftp: string, v: Vendor)
    ensures AddParsed(d, a + [x], ftp, v) ==
            if AddParsed(d, a, ftp, v).None? then None else AddStep(AddParsed(d, a, ftp, v).value, x, ftp, v)
  {
    assert (a + [x])[..|a|] == a;
  }

  /** What one entry of `backup_<vendor>` lists under `ftp`: the host pairs of its
      `inventory.ini` when it is a directory named after `ftp`. */
  function EntryPairs(e: (string, Entry), ftp: string): set<(string, string)> {
    if e.1.Folder? && e.1.inventory.Some? && FtpOfDir(e.0) == ftp
    then HostPairs(ParseLines(ReadLines(e.1.inventory.value))) else {}
  }

  /** What the entries of `backup_<vendor>` list under `ftp`. */
  function DirPairs(entries: Dict<string, Entry>, ftp: string): set<(string, string)> {
    if entries == [] then {} else DirPairs(entries[..|entries| - 1], ftp) + EntryPairs(entries[|entries| - 1], ftp)
  }

  lemma {:induction false} DirPairsMeaning(entries: Dict<string, Entry>, ftp: string, q: (string, string))
    ensures q in DirPairs(entries, ftp) <==> exists i :: 0 <= i < |entries| && q in EntryPairs(entries[i], ftp)
  {
    if entries != [] {
      var last := |entries| - 1;
      var init := entries[..last];
      assert DirPairs(entries, ftp) == DirPairs(init, ftp) + EntryPairs(entries[last], ftp);
      DirPairsMeaning(init, ftp, q);
      if exists i :: 0 <= i < |entries| && q in EntryPairs(entries[i], ftp) {
        var i :| 0 <= i < |entries| && q in EntryPairs(entries[i], ftp);
        if i < last {
          assert init[i] == entries[i];
        }
      }
      if exists i :: 0 <= i < |init| && q in EntryPairs(init[i], ftp) {
        var i :| 0 <= i < |init| && q in EntryPairs(init[i], ftp);
        assert entries[i] == init[i];
      }
    }
  }

  /** What one entry of `backup_<v>` adds: nothing unless it is a directory with an
      `inventory.ini`. */
  function AddEntry(d: InventoryData, e: (string, Entry), v: Vendor): (r: Option<InventoryData>)
    ensures r.Some? ==> forall f, w, q :: Listed(r.value, f, w, q) <==>
                                          Listed(d, f, w, q) || (w == v && q in EntryPairs(e, f))
  {
    if e.1.Folder? && e.1.inventory.Some? then
      AddParsed(d, ParseLines(ReadLines(e.1.inventory.value)), FtpOfDir(e.0), v)
    else Some(d)
  }

  /** The data after the entries of `backup_<v>` are read, in listing order. */
  function AddEntries(d: InventoryData, entries: Dict<string, Entry>, v: Vendor): (r: Option<InventoryData>)
    ensures r.Some? ==> forall f, w, q :: Listed(r.value, f, w, q) <==>
                                          Listed(d, f, w, q) || (w == v && q in DirPairs(entries, f))
    decreases |entries|
  {
    if entries == [] then Some(d)
    else
      match AddEntries(d, entries[..|entries| - 1], v)
      case None => None
      case Some(d1) => AddEntry(d1, entries[|entries| - 1], v)
  }

  lemma AddEntriesSnoc(d: InventoryData, a: Dict<string, Entry>, x: (string, Entry), v: Vendor)
    ensures AddEntries(d, a + [x], v) ==
            if AddEntries(d, a, v).None? then None else AddEntry(AddEntries(d, a, v).value, x, v)
  {
    assert (a + [x])[..|a|] == a;
  }

  /** The data after the directories `backup_<v>` of the vendors `vs` are read; a vendor
      without such a directory is skipped. */
  function AddVendors(d: InventoryData, backups: map<Vendor, Dict<string, Entry>>, vs: seq<Vendor>): (r: Option<InventoryData>)
    ensures r.Some? ==> forall f, w, q :: Listed(r.value, f, w, q) <==>
                                          Listed(d, f, w, q) || (w in vs && w in backups && q in DirPairs(backups[w], f))
    decreases |vs|
  {
    if vs == [] then Some(d)
    else
      var init := vs[..|vs| - 1];
      assert vs == init + [vs[|vs| - 1]];
      match AddVendors(d, backups, init)
      case None => None
      case Some(d1) =>
        var v := vs[|vs| - 1];
        if v in backups then AddEntries(d1, backups[v], v) else Some(d1)
  }

  lemma AddVendorsSnoc(d: InventoryData, backups: map<Vendor, Dict<string, Entry>>, a: seq<Vendor>, v: Vendor)
    ensures AddVendors(d, backups, a + [v]) ==
            if AddVendors(d, backups, a).None? then None
            else if v in backups then AddEntries(AddVendors(d, backups, a).value, backups[v], v)
            else AddVendors(d, backups, a)
  {
    assert (a + [v])[..|a|] == a;
  }

  /** A raise stops a parse for good. */
  lemma {:induction false} AddVendorsNone(d: InventoryData, backups: map<Vendor, Dict<string, Entry>>, vs: seq<Vendor>, n: nat)
    requires n <= |vs| && AddVendors(d, backups, vs[..n]).None?
    ensures AddVendors(d, backups, vs).None?
    decreases |vs|
  {
    if n < |vs| {
      var init := vs[..|vs| - 1];
      assert init[..n] == vs[..n];
      AddVendorsNone(d, backups, init, n);
    } else {
      assert vs[..n] == vs;
    }
  }

  lemma {:induction false} AddEntriesNone(d: InventoryData, entries: Dict<string, Entry>, v: Vendor, n: nat)
    requires n <= |entries| && AddEntries(d, entries[..n], v).None?
    ensures AddEntries(d, entries, v).None?
    decreases |entries|
  {
    if n < |entries| {
      var init := entries[..|entries| - 1];
      assert init[..n] == entries[..n];
      AddEntriesNone(d, init, v, n);
    } else {
      assert entries[..n] == entries;
    }
  }

  /** Step one of the status screen: `inventory_data` from every `backup_<vendor>` directory. */
  function Inventory(backups: map<Vendor, Dict<string, Entry>>): (r: Option<InventoryData>)
    ensures r.Some? ==> forall f, w, q :: Listed(r.value, f, w, q) <==> w in backups && q in DirPairs(backups[w], f)
  {
    var r := AddVendors(map[], backups, StatusOrder);
    forall w: Vendor
      ensures w in StatusOrder
    {
      assert w == StatusOrder[0] || w == StatusOrder[1] || w == StatusOrder[2] ||
             w == StatusOrder[3] || w == StatusOrder[4];
    }
    r
  }

  /** The inner loop: the lines of one inventory. */
  method ReadInventory(d: InventoryData, lines: seq<string>, ftp: string, v: Vendor, parse: LineParser)
    returns (r: Option<InventoryData>)
    ensures r == AddParsed(d, ParsedWith(parse, lines), ftp, v)
  {
    ghost var ps := ParsedWith(parse, lines);
    var data := d;
    for i := 0 to |lines|
      invariant AddParsed(d, ps[..i], ftp, v) == Some(data)
    {
      var line := lines[i];
      var p := parse(line);
      assert p == ps[i];
      assert ps[..i + 1] == ps[..i] + [p];
      AddParsedSnoc(d, ps[..i], p, ftp, v);
      match p
      case Ignored =>
      case LineRaises =>
        return None;
      case Host(mac, ip) =>
        data := Add(data, ftp, v, (mac, ip));
    }
    assert ps[..|lines|] == ps;
    return Some(data);
  }

  /** The middle loop: the entries of one `backup_<vendor>` directory. */
  method ReadBackupDir(d: InventoryData, entries: Dict<string, Entry>, v: Vendor) returns (r: Option<InventoryData>)
    ensures r == AddEntries(d, entries, v)
  {
    var data := d;
    for i := 0 to |entries|
      invariant AddEntries(d, entries[..i], v) == Some(data)
    {
      var name := entries[i].0;
      var e := entries[i].1;
      assert entries[..i + 1] == entries[..i] + [(name, e)];
      AddEntriesSnoc(d, entries[..i], (name, e), v);
      if e.Folder? && e.inventory.Some? {
        var next := ReadInventory(data, ReadLines(e.inventory.value), FtpOfDir(name), v, ParseInventoryLine);
        if next.None? {
          AddEntriesNone(d, entries, v, i + 1);
          return None;
        }
        data := next.value;
      }
    }
    assert entries[..|entries|] == entries;
    return Some(data);
  }

  /** The outer loop of step one, over the vendors in table order. */
  method ReadBackups(backups: map<Vendor, Dict<string, Entry>>) returns (r: Option<InventoryData>)
    ensures r == Inventory(backups)
  {
    var data: InventoryData := map[];
    for i := 0 to |StatusOrder|
      invariant AddVendors(map[], backups, StatusOrder[..i]) == Some(data)
    {
      var v := StatusOrder[i];
      assert StatusOrder[..i + 1] == StatusOrder[..i] + [v];
      AddVendorsSnoc(map[], backups, StatusOrder[..i], v);
      if v in backups {
        var next := ReadBackupDir(data, backups[v], v);
        if next.None? {
          AddVendorsNone(map[], backups, StatusOrder, i + 1);
          return None;
        }
        data := next.value;
      }
    }
    assert StatusOrder[..|StatusOrder|] == StatusOrder;
    return Some(data);
  }

  // ---------------------------------------------------------------- status rows

  /** One row of the status table: name, address, vendor display name and status mark. */
  datatype StatusRow = StatusRow(name: string, ip: string, typ: string, status: string)

  const SavedMark: string := "\U{2714}\U{FE0F}"
  const FailedMark: string := "\U{274C}"

  /** `is_in_inventory`: some pair of `inventory_data[ftp][v]` carries `mac`. A record
      without an `ftp_server` is in no inventory. */
  predicate InInventory(d: InventoryData, ftp: Option<string>, v: Vendor, mac: string) {
    ftp.Some? && ftp.value in d && v in d[ftp.value] && exists q | q in d[ftp.value][v] :: q.0 == mac
  }

  /** The MAC a record is looked up under: `eq.get("mac", "")` with '-' turned into ':',
      upper-cased, the form the inventory parse produces. */
  function RecordMac(rec: Record): string {
    InventoryMac(rec.mac.GetOr(""))
  }

  /** The row of an active record; `ping` stands for `is_alive`. */
  function RowFor(rec: Record, v: Vendor, d: InventoryData, ping: string -> bool): (r: StatusRow)
    ensures r.name == rec.name.GetOr("Inconnu") && r.ip == rec.ip.GetOr("N/A") && r.typ == v.Display()
    ensures r.status == SavedMark <==> InInventory(d, rec.ftpServer, v, RecordMac(rec)) && ping(rec.ip.GetOr("N/A"))
    ensures r.status != SavedMark ==> r.status == FailedMark
  {
    var ip := rec.ip.GetOr("N/A");
    var mark := if InInventory(d, rec.ftpServer, v, RecordMac(rec)) && ping(ip) then SavedMark else FailedMark;
    StatusRow(rec.name.GetOr("Inconnu"), ip, v.Display(), mark)
  }

  /** The records with a truthy `status`, the only ones that get a row. */
  function Active(rs: seq<Record>): (r: seq<Record>)
    ensures |r| <= |rs|
    ensures forall k :: 0 <= k < |r| ==> r[k].status && r[k] in rs
  {
    if rs == [] then [] else Active(rs[..|rs| - 1]) + (if rs[|rs| - 1].status then [rs[|rs| - 1]] else [])
  }

  /** The rows of one vendor file, in file order. */
  function VendorRows(rs: seq<Record>, v: Vendor, d: InventoryData, ping: string -> bool): (r: seq<StatusRow>)
    ensures |r| == |Active(rs)|
  {
    if rs == [] then []
    else
      var rec := rs[|rs| - 1];
      VendorRows(rs[..|rs| - 1], v, d, ping) + (if rec.status then [RowFor(rec, v, d, ping)] else [])
  }

  /** Row `k` of a vendor is the row of its `k`-th active record. */
  lemma {:induction false} VendorRowsAt(rs: seq<Record>, v: Vendor, d: InventoryData, ping: string -> bool, k: nat)
    requires k < |Active(rs)|
    ensures VendorRows(rs, v, d, ping)[k] == RowFor(Active(rs)[k], v, d, ping)
  {
    var init := rs[..|rs| - 1];
    if k < |Active(init)| {
      VendorRowsAt(init, v, d, ping, k);
    }
  }

  /** The rows after the vendor files of `vs` are read, or `Err` when one of them holds JSON
      whose iteration raises; a missing or undecodable file is skipped. */
  function RowsOf(regs: Registries, d: InventoryData, ping: string -> bool, vs: seq<Vendor>): (r: Result<seq<StatusRow>>)
    decreases |vs|
  {
    if vs == [] then Ok([])
    else
      var v := vs[|vs| - 1];
      match RowsOf(regs, d, ping, vs[..|vs| - 1])
      case Err(e) => Err(e)
      case Ok(rows) =>
        if v !in regs || regs[v].Missing? || regs[v].Unparsable? then Ok(rows)
        else if regs[v].WrongShape? then Err("not a list of records")
        else Ok(rows + VendorRows(regs[v].value, v, d, ping))
  }

  lemma RowsOfSnoc(regs: Registries, d: InventoryData, ping: string -> bool, a: seq<Vendor>, v: Vendor)
    ensures RowsOf(regs, d, ping, a + [v]) ==
            match RowsOf(regs, d, ping, a)
            case Err(e) => Err(e)
            case Ok(rows) =>
              if v !in regs || regs[v].Missing? || regs[v].Unparsable? then Ok(rows)
              else if regs[v].WrongShape? then Err("not a list of records")
              else Ok(rows + VendorRows(regs[v].value, v, d, ping))
  {
    assert (a + [v])[..|a|] == a;
  }

  lemma {:induction false} RowsOfErr(regs: Registries, d: InventoryData, ping: string -> bool, vs: seq<Vendor>, n: nat)
    requires n <= |vs| && RowsOf(regs, d, ping, vs[..n]).Err?
    ensures RowsOf(regs, d, ping, vs) == RowsOf(regs, d, ping, vs[..n])
    decreases |vs|
  {
    if n < |vs| {
      var init := vs[..|vs| - 1];
      assert init[..n] == vs[..n];
      RowsOfErr(regs, d, ping, init, n);
    } else {
      assert vs[..n] == vs;
    }
  }

  /** `load_data_with_loading.task`: the inventory, then one row per active record of the
      vendor files in table order. `Err` is a raise out of the task. */
  function StatusRows(regs: Registries, backups: map<Vendor, Dict<string, Entry>>, ping: string -> bool): Result<seq<StatusRow>> {
    match Inventory(backups)
    case None => Err("unreadable inventory line")
    case Some(d) => RowsOf(regs, d, ping, StatusOrder)
  }

  /** A row is marked saved exactly when the record's MAC is among the pairs the
      `inventory.ini` files under `backup_<v>` list for its `ftp_server`, and it answers. */
  lemma RowForMeaning(backups: map<Vendor, Dict<string, Entry>>, d: InventoryData, rec: Record, v: Vendor, ping: string -> bool)
    ensures Inventory(backups) == Some(d) ==>
            (RowFor(rec, v, d, ping).status == SavedMark <==>
             rec.ftpServer.Some? && v in backups &&
             (exists q :: q in DirPairs(backups[v], rec.ftpServer.value) && q.0 == RecordMac(rec)) &&
             ping(rec.ip.GetOr("N/A")))
  {
    if Inventory(backups) == Some(d) && rec.ftpServer.Some? {
      var f := rec.ftpServer.value;
      if InInventory(d, rec.ftpServer, v, RecordMac(rec)) {
        var q :| q in d[f][v] && q.0 == RecordMac(rec);
        assert Listed(d, f, v, q);
      }
      if v in backups && exists q :: q in DirPairs(backups[v], f) && q.0 == RecordMac(rec) {
        var q :| q in DirPairs(backups[v], f) && q.0 == RecordMac(rec);
        assert Listed(d, f, v, q);
      }
    }
  }

  /** The status screen's loop: build the inventory, then walk the vendor files. */
  method LoadStatusRows(regs: Registries, backups: map<Vendor, Dict<string, Entry>>, ping: string -> bool)
    returns (r: Result<seq<StatusRow>>)
    ensures r == StatusRows(regs, backups, ping)
  {
    var inv := ReadBackups(backups);
    if inv.None? {
      return Err("unreadable inventory line");
    }
    var d := inv.value;
    var rows: seq<StatusRow> := [];
    for i := 0 to |StatusOrder|
      invariant RowsOf(regs, d, ping, StatusOrder[..i]) == Ok(rows)
    {
      var v := StatusOrder[i];
      assert StatusOrder[..i + 1] == StatusOrder[..i] + [v];
      RowsOfSnoc(regs, d, ping, StatusOrder[..i], v);
      if v !in regs || regs[v].Missing? || regs[v].Unparsable? {
        continue;
      }
      if regs[v].WrongShape? {
        RowsOfErr(regs, d, ping, StatusOrder, i + 1);
        return Err("not a list of records");
      }
      var more := ReadVendorFile(regs[v].value, v, d, ping);
      rows := rows + more;
    }
    assert StatusOrder[..|StatusOrder|] == StatusOrder;
    return Ok(rows);
  }

  /** The inner loop over one vendor file. */
  method ReadVendorFile(rs: seq<Record>, v: Vendor, d: InventoryData, ping: string -> bool) returns (rows: seq<StatusRow>)
    ensures rows == VendorRows(rs, v, d, ping)
  {
    rows := [];
    for j := 0 to |rs|
      invariant rows == VendorRows(rs[..j], v, d, ping)
    {
      var rec := rs[j];
      assert rs[..j + 1][..j] == rs[..j];
      if rec.status {
        rows := rows + [RowFor(rec, v, d, ping)];
      }
    }
    assert rs[..|rs|] == rs;
  }

  // ---------------------------------------------------------------- device details

  /** `charger_donnees_json`: no path, a missing file or undecodable JSON give []; `None`
      stands for JSON of another shape, which is returned as it is. */
  function LoadRecords(path: Option<string>, f: Stored<seq<Record>>): (r: Option<seq<Record>>)
    ensures (path.None? || path == Some("") || f.Missing? || f.Unparsable?) ==> r == Some([])
    ensures path.Some? && path.value != "" && f.Parsed? ==> r == Some(f.value)
    ensures r.None? <==> path.Some? && path.value != "" && f.WrongShape?
  {
    if path.None? || path.value == "" then Some([])
    else match f
      case Missing => Some([])
      case Unparsable => Some([])
      case WrongShape => None
      case Parsed(rs) => Some(rs)
  }

  /** `trouver_infos_equipement`: the first record with that name and that address; `None`
      is the empty dict. */
  function FindEquipment(rs: seq<Record>, name: string, ip: string): (r: Option<Record>)
    ensures r.None? <==> forall k :: 0 <= k < |rs| ==> !(rs[k].name == Some(name) && rs[k].ip == Some(ip))
    ensures r.Some? ==> exists k :: 0 <= k < |rs| && rs[k] == r.value && r.value.name == Some(name) && r.value.ip == Some(ip) &&
                                    forall j :: 0 <= j < k ==> !(rs[j].name == Some(name) && rs[j].ip == Some(ip))
  {
    if rs == [] then None
    else if rs[0].name == Some(name) && rs[0].ip == Some(ip) then Some(rs[0])
    else
      var r := FindEquipment(rs[1..], name, ip);
      assert forall k :: 1 <= k < |rs| ==> rs[k] == rs[1..][k - 1];
      if r.Some? then
        var k :| 0 <= k < |rs[1..]| && rs[1..][k] == r.value && r.value.name == Some(name) && r.value.ip == Some(ip) &&
                 forall j :: 0 <= j < k ==> !(rs[1..][j].name == Some(name) && rs[1..][j].ip == Some(ip));
        assert rs[k + 1] == r.value;
        r
      else r
  }

  /** `self.mac` of the details window: the found record's MAC, "inconnu" otherwise. */
  function DetailsMac(rs: seq<Record>, name: string, ip: string): (r: string)
    ensures FindEquipment(rs, name, ip).Some? && FindEquipment(rs, name, ip).value.mac.Some? ==>
              r == FindEquipment(rs, name, ip).value.mac.value
    ensures !(FindEquipment(rs, name, ip).Some? && FindEquipment(rs, name, ip).value.mac.Some?) ==> r == "inconnu"
  {
    match FindEquipment(rs, name, ip)
    case None => "inconnu"
    case Some(rec) => rec.mac.GetOr("inconnu")
  }
}
