/** `scr_backup_cisco.py`: the Cisco backup generator. It buckets the equipment of
    `cisco_save.json` by subnet, checks each device (ping, ARP MAC, SSH), updates its flags
    and writes one working directory per bucket that produced inventory lines. */
module BackupCisco {
  import opened Common
  import opened Text
  import opened Dict
  import opened Registry
  import opened Ipv4
  import opened Workspace
  import opened Probes

  /** What a run works with once `networks.json` is read and the FTP map built: the listed
      subnets, the subnet -> local address map, `inet_aton`, the verdict `process_subnet`
      reaches on each device (see `Check`) and the timestamp. */
  datatype Env = Env(subnets: seq<Subnet>, ftpMap: Dict<Subnet, string>, aton: string -> bv32,
                     check: DeviceCheck, date: string)

  // ---------------------------------------------------------------- buckets

  /** The position of a key in a dict. */
  function KeyIndex(d: Dict<Subnet, string>, k: Subnet): (i: nat)
    requires HasKey(d, k)
    ensures i < |d| && d[i].0 == k
  {
    if d[0].0 == k then 0
    else
      assert HasKey(d[1..], k) by {
        var i :| 0 <= i < |d| && d[i].0 == k;
        assert d[1..][i - 1].0 == k;
      }
      1 + KeyIndex(d[1..], k)
  }

  /** The bucket key of an equipment (lines 108-117): the first subnet of `networks.json`
      containing its address, when the FTP map has that subnet; `None` is "unknown". */
  function BucketOf(rec: Record, env: Env): (r: Option<Subnet>)
    ensures r.Some? ==> HasKey(env.ftpMap, r.value)
  {
    if rec.ip.Some? && rec.ip.value != [] then
      match FirstSubnet(env.aton(rec.ip.value), env.subnets)
      case Some(s) => if HasKey(env.ftpMap, s) then Some(s) else None
      case None => None
    else None
  }

  /** One call of `process_subnet`: the bucket key, the subnet text and the FTP address. */
  datatype Bucket = Bucket(key: Option<Subnet>, text: string, ftp: string)

  /** The buckets in processing order: the FTP map's subnets, then "unknown" with
      `0.0.0.0` (lines 246-251). */
  function Buckets(m: Dict<Subnet, string>): (r: seq<Bucket>)
    ensures |r| == |m| + 1 && r[|m|] == Bucket(None, "unknown", "0.0.0.0")
    ensures forall j :: 0 <= j < |m| ==> r[j] == Bucket(Some(m[j].0), m[j].0.text, m[j].1)
  {
    seq(|m|, j requires 0 <= j < |m| => Bucket(Some(m[j].0), m[j].0.text, m[j].1)) + [Bucket(None, "unknown", "0.0.0.0")]
  }

  /** The position in `Buckets` of the bucket an equipment goes to. */
  function Rank(rec: Record, env: Env): (j: nat)
    ensures j <= |env.ftpMap|
  {
    match BucketOf(rec, env)
    case Some(s) => KeyIndex(env.ftpMap, s)
    case None => |env.ftpMap|
  }

  /** The positions of the equipment in bucket `key`, in file order. */
  function Members(eqs: seq<Record>, key: Option<Subnet>, env: Env): (r: seq<nat>)
    ensures forall i :: 0 <= i < |r| ==> r[i] < |eqs| && BucketOf(eqs[r[i]], env) == key
    ensures forall i, j :: 0 <= i < j < |r| ==> r[i] < r[j]
  {
    if eqs == [] then []
    else
      var n := |eqs| - 1;
      var m := Members(eqs[..n], key, env);
      m + (if BucketOf(eqs[n], env) == key then [n] else [])
  }

  /** No equipment of the bucket is missed. */
  lemma {:induction false} MembersComplete(eqs: seq<Record>, key: Option<Subnet>, env: Env, k: nat)
    requires k < |eqs| && BucketOf(eqs[k], env) == key
    ensures k in Members(eqs, key, env)
  {
    var n := |eqs| - 1;
    var init := Members(eqs[..n], key, env);
    var tail := if BucketOf(eqs[n], env) == key then [n] else [];
    assert Members(eqs, key, env) == init + tail;
    if k < n {
      assert eqs[..n][k] == eqs[k];
      MembersComplete(eqs[..n], key, env, k);
      assert k in init;
    } else {
      assert tail == [k];
    }
  }

  lemma MembersSnoc(eqs: seq<Record>, k: nat, key: Option<Subnet>, env: Env)
    requires k < |eqs|
    ensures Members(eqs[..k + 1], key, env) == Members(eqs[..k], key, env) + (if BucketOf(eqs[k], env) == key then [k] else [])
  {
    assert eqs[..k + 1][..k] == eqs[..k];
  }

  /** Every equipment lands in exactly one bucket: bucket `j` of `Buckets` holds exactly the
      equipment whose rank is `j`. */
  lemma BucketIndex(eqs: seq<Record>, env: Env, j: nat, k: nat)
    requires UniqueKeys(env.ftpMap) && j <= |env.ftpMap| && k < |eqs|
    ensures k in Members(eqs, Buckets(env.ftpMap)[j].key, env) <==> Rank(eqs[k], env) == j
  {
    var m := env.ftpMap;
    var key := Buckets(m)[j].key;
    var r := Members(eqs, key, env);
    if k in r {
      var i :| 0 <= i < |r| && r[i] == k;
    }
    if BucketOf(eqs[k], env) == key {
      MembersComplete(eqs, key, env, k);
    }
    var b := BucketOf(eqs[k], env);
    if b.Some? {
      var i := KeyIndex(m, b.value);
      assert Buckets(m)[i].key == b;
      if j < |m| && j != i {
        assert m[j].0 != m[i].0;
      }
    }
  }

  /** Appending device `k` extends exactly the list of the bucket of its rank. */
  lemma MembersStep(eqs: seq<Record>, env: Env, k: nat, j: nat)
    requires UniqueKeys(env.ftpMap) && k < |eqs| && j <= |env.ftpMap|
    ensures var key := Buckets(env.ftpMap)[j].key;
            Members(eqs[..k + 1], key, env) == Members(eqs[..k], key, env) + (if Rank(eqs[k], env) == j then [k] else [])
  {
    var m := env.ftpMap;
    var key := Buckets(m)[j].key;
    MembersSnoc(eqs, k, key, env);
    var b := BucketOf(eqs[k], env);
    if b.Some? {
      var i := KeyIndex(m, b.value);
      if j < |m| && j != i {
        assert m[j].0 != m[i].0;
      }
    }
  }

  /** Lines 105-117: one list per subnet of the FTP map, in map order, and the "unknown"
      list. */
  method Bucketize(eqs: seq<Record>, env: Env) returns (lists: seq<seq<nat>>, unknown: seq<nat>)
    requires UniqueKeys(env.ftpMap)
    ensures |lists| == |env.ftpMap|
    ensures forall j :: 0 <= j < |env.ftpMap| ==> lists[j] == Members(eqs, Some(env.ftpMap[j].0), env)
    ensures unknown == Members(eqs, None, env)
  {
    var m := env.ftpMap;
    lists := seq(|m|, j => []);
    unknown := [];
    for k := 0 to |eqs|
      invariant |lists| == |m|
      invariant forall j :: 0 <= j < |m| ==> lists[j] == Members(eqs[..k], Buckets(m)[j].key, env)
      invariant unknown == Members(eqs[..k], Buckets(m)[|m|].key, env)
    {
      var r := Rank(eqs[k], env);
      forall j | 0 <= j <= |m|
        ensures Members(eqs[..k + 1], Buckets(m)[j].key, env) ==
                Members(eqs[..k], Buckets(m)[j].key, env) + (if r == j then [k] else [])
      {
        MembersStep(eqs, env, k, j);
      }
      if r < |m| {
        lists := lists[r := lists[r] + [k]];
      } else {
        unknown := unknown + [k];
      }
    }
    assert eqs[..|eqs|] == eqs;
  }

  // ---------------------------------------------------------------- one device

  datatype Group = IosGroup | AsaGroup

  /** What `process_subnet` decides for one device. */
  datatype Verdict = Failed | Skipped | Accepted(group: Group, line: string)

  /** A verdict for every device, `None` where the loop raises on it. */
  type DeviceCheck = Record -> Option<Verdict>

  /** The device answers the ping, its ARP MAC equals `expected`, and the SSH login works.
      A device without an address fails the ping (`is_reachable(None)` catches the error). */
  predicate Reachable(p: Probes, ip: Option<string>, expected: string, c: Credentials) {
    ip.Some? && p.ping(ip.value) && CiscoArpMac(p, ip.value) == Some(expected) && p.ssh(ip.value, c.username, c.password)
  }

  /** The inventory line of an accepted device (lines 139-150). */
  function CiscoLine(mac: string, ip: string, c: Credentials, os: string): string {
    mac + HostKey + ip + UserKey + c.username + PassKey + c.password + OsKey + os + NetworkCli +
    BecomeSuffix(c.enablePassword)
  }

  /** The verdict for one device, or `None` when it has no credentials and
      `equipment['credentials']` raises. */
  function Check(rec: Record, p: Probes): (r: Option<Verdict>)
    ensures r.None? <==> rec.credentials.None?
  {
    if rec.credentials.None? then None
    else
      var c := rec.credentials.value;
      var expected := ColonMac(rec.mac.GetOr(""));
      if !Reachable(p, rec.ip, expected, c) then Some(Failed)
      else
        var sys := Upper(rec.system.GetOr(""));
        var mac := DashMac(expected);
        if sys == "IOS" then Some(Accepted(IosGroup, CiscoLine(mac, rec.ip.value, c, "cisco.ios.ios")))
        else if sys == "ASA" then Some(Accepted(AsaGroup, CiscoLine(mac, rec.ip.value, c, "cisco.asa.asa")))
        else Some(Skipped)
  }

  /** A device that does not answer, or whose ARP entry is not its recorded MAC, is marked
      failed; one that answers is listed under `[ciscoios]` or `[ciscoasa]` by its upper-cased
      system, with a line naming it by its MAC, and any other system is skipped. */
  lemma CheckVerdicts(rec: Record, p: Probes)
    ensures var r := Check(rec, p);
            (r == Some(Failed) <==>
               rec.credentials.Some? && !Reachable(p, rec.ip, ColonMac(rec.mac.GetOr("")), rec.credentials.value)) &&
            (r.Some? && r.value.Accepted? ==>
               Reachable(p, rec.ip, ColonMac(rec.mac.GetOr("")), rec.credentials.value) &&
               (r.value.group == IosGroup <==> Upper(rec.system.GetOr("")) == "IOS") &&
               (r.value.group == AsaGroup <==> Upper(rec.system.GetOr("")) == "ASA") &&
               StartsWith(r.value.line, DashMac(ColonMac(rec.mac.GetOr(""))) + HostKey)) &&
            (r == Some(Skipped) <==>
               rec.credentials.Some? && Reachable(p, rec.ip, ColonMac(rec.mac.GetOr("")), rec.credentials.value) &&
               Upper(rec.system.GetOr("")) != "IOS" && Upper(rec.system.GetOr("")) != "ASA")
  {
    if rec.credentials.Some? && Reachable(p, rec.ip, ColonMac(rec.mac.GetOr("")), rec.credentials.value) {
      var c := rec.credentials.value;
      var mac := DashMac(ColonMac(rec.mac.GetOr("")));
      CiscoLineStart(mac, rec.ip.value, c, "cisco.ios.ios");
      CiscoLineStart(mac, rec.ip.value, c, "cisco.asa.asa");
    }
  }

  lemma CiscoLineStart(mac: string, ip: string, c: Credentials, os: string)
    ensures StartsWith(CiscoLine(mac, ip, c, os), mac + HostKey)
  {
    var head := mac + HostKey;
    assert CiscoLine(mac, ip, c, os)[..|head|] == head;
  }

  /** `process_subnet`'s decision procedure as a verdict for every device. */
  function DeviceCheckOf(p: Probes): DeviceCheck {
    r => Check(r, p)
  }

  /** The enable suffix ends an accepted line exactly when an enable password is set and
      not empty; otherwise the line ends with the connection type. */
  lemma BecomeOnlyWithEnable(rec: Record, p: Probes)
    requires Check(rec, p).Some? && Check(rec, p).value.Accepted?
    ensures var e := rec.credentials.value.enablePassword;
            var line := Check(rec, p).value.line;
            (e.Some? && e.value != [] ==>
               EndsWith(line, BecomeKeys + e.value)) &&
            (e.None? || e.value == [] ==> EndsWith(line, NetworkCli))
  {
    var c := rec.credentials.value;
    var mac := DashMac(ColonMac(rec.mac.GetOr("")));
    CiscoLineEnd(mac, rec.ip.value, c, "cisco.ios.ios");
    CiscoLineEnd(mac, rec.ip.value, c, "cisco.asa.asa");
  }

  lemma CiscoLineEnd(mac: string, ip: string, c: Credentials, os: string)
    ensures var e := c.enablePassword;
            (e.Some? && e.value != [] ==> EndsWith(CiscoLine(mac, ip, c, os), BecomeKeys + e.value)) &&
            (e.None? || e.value == [] ==> EndsWith(CiscoLine(mac, ip, c, os), NetworkCli))
  {
    var e := c.enablePassword;
    var front := mac + HostKey + ip + UserKey + c.username + PassKey + c.password + OsKey + os;
    assert CiscoLine(mac, ip, c, os) == (front + NetworkCli) + BecomeSuffix(e);
    if e.Some? && e.value != [] {
      EndsWithAppend(front + NetworkCli, BecomeKeys + e.value);
    } else {
      assert (front + NetworkCli) + BecomeSuffix(e) == front + NetworkCli;
      EndsWithAppend(front, NetworkCli);
    }
  }

  /** The record after its verdict, in a bucket of subnet `subnet` served by `ftp`. */
  function Apply(rec: Record, v: Verdict, subnet: string, ftp: string): (r: Record)
    ensures v.Failed? ==> r == rec.(sauvegarde := Some(false))
    ensures v.Skipped? ==> r == rec
    ensures v.Accepted? ==> r == rec.(status := true, sauvegarde := Some(true), subnet := Some(subnet), ftpServer := Some(ftp))
  {
    match v
    case Failed => rec.(sauvegarde := Some(false))
    case Skipped => rec
    case Accepted(_, _) => rec.(status := true, sauvegarde := Some(true), subnet := Some(subnet), ftpServer := Some(ftp))
  }

  /** The record after `process_subnet` has seen it (left alone when it raises). */
  function Processed(rec: Record, check: DeviceCheck, b: Bucket): Record {
    match check(rec)
    case None => rec
    case Some(v) => Apply(rec, v, b.text, b.ftp)
  }

  /** The record as `cisco_save.json` stores it after a run that did not raise. */
  function Final(rec: Record, env: Env): Record {
    Processed(rec, env.check, Buckets(env.ftpMap)[Rank(rec, env)])
  }

  predicate IsAccepted(rec: Record, check: DeviceCheck) {
    check(rec).Some? && check(rec).value.Accepted?
  }

  predicate HasAccepted(recs: seq<Record>, check: DeviceCheck) {
    exists i :: 0 <= i < |recs| && IsAccepted(recs[i], check)
  }

  /** The flags every device ends with (lines 108-162): a failing device only gets
      `sauvegarde = False`; an accepted one gets both flags and its bucket's subnet and FTP
      address (the map's address for a known subnet, "unknown" and 0.0.0.0 otherwise); a
      device of another system is left alone. */
  lemma FinalFlags(rec: Record, env: Env, p: Probes)
    requires UniqueKeys(env.ftpMap) && rec.credentials.Some? && env.check == DeviceCheckOf(p)
    ensures var ok := Reachable(p, rec.ip, ColonMac(rec.mac.GetOr("")), rec.credentials.value);
            var sys := Upper(rec.system.GetOr(""));
            var r := Final(rec, env);
            var b := BucketOf(rec, env);
            (!ok ==> r == rec.(sauvegarde := Some(false))) &&
            (ok && sys != "IOS" && sys != "ASA" ==> r == rec) &&
            (ok && (sys == "IOS" || sys == "ASA") ==>
               r.status && r.sauvegarde == Some(true) &&
               (b.Some? ==> r.subnet == Some(b.value.text) && r.ftpServer == Get(env.ftpMap, b.value)) &&
               (b.None? ==> r.subnet == Some("unknown") && r.ftpServer == Some("0.0.0.0")) &&
               r.(status := rec.status, sauvegarde := rec.sauvegarde, subnet := rec.subnet, ftpServer := rec.ftpServer) == rec)
  {
    CheckVerdicts(rec, p);
    var b := BucketOf(rec, env);
    if b.Some? {
      var i := KeyIndex(env.ftpMap, b.value);
      FirstKeyGet(env.ftpMap, b.value, i);
    }
  }

  // ---------------------------------------------------------------- one bucket

  /** The line a device contributes to group `g`: one when it is accepted into `g`. */
  function LineOf(rec: Record, g: Group, check: DeviceCheck): seq<string> {
    if IsAccepted(rec, check) && check(rec).value.group == g then [check(rec).value.line] else []
  }

  /** The lines group `g` collects from the devices `recs`, in order. */
  function GroupLines(recs: seq<Record>, g: Group, check: DeviceCheck): (r: seq<string>)
    ensures |r| <= |recs|
  {
    if recs == [] then []
    else
      var rec := recs[|recs| - 1];
      GroupLines(recs[..|recs| - 1], g, check) + LineOf(rec, g, check)
  }

  /** The groups stay empty exactly when no device of the bucket is accepted. */
  lemma {:induction false} GroupLinesEmpty(recs: seq<Record>, check: DeviceCheck)
    ensures GroupLines(recs, IosGroup, check) == [] && GroupLines(recs, AsaGroup, check) == [] <==>
            forall i :: 0 <= i < |recs| ==> !IsAccepted(recs[i], check)
  {
    if recs != [] {
      var init := recs[..|recs| - 1];
      GroupLinesEmpty(init, check);
      assert forall i :: 0 <= i < |init| ==> init[i] == recs[i];
      var last := recs[|recs| - 1];
      if IsAccepted(last, check) {
        assert LineOf(last, check(last).value.group, check) != [];
      }
    }
  }

  /** The parts `"\n".join` glues into `inventory.ini` (lines 124-170): three comment
      lines, then each non-empty group under its header, IOS first. */
  function InventoryParts(date: string, subnet: string, ftp: string, ios: seq<string>, asa: seq<string>): seq<string> {
    Comments(date, subnet, ftp) + Section(IosHeader, ios) + Section(AsaHeader, asa)
  }

  // The comment openings and the section headers of `inventory.ini`.
  const SubnetComment: string := "# Sous-r\U{E9}seau: "
  const FtpComment: string := "# Serveur FTP: "
  const IosHeader: string := "\n[ciscoios]"
  const AsaHeader: string := "\n[ciscoasa]"

  /** The three comment lines that open `inventory.ini`. */
  function Comments(date: string, subnet: string, ftp: string): (r: seq<string>)
    ensures |r| == 3 && forall k :: 0 <= k < 3 ==> r[k] != [] && r[k][0] == '#'
  {
    [GeneratedOn + date, SubnetComment + subnet, FtpComment + ftp + "\n"]
  }

  /** A group under its header, or nothing for an empty group. */
  function Section(header: string, lines: seq<string>): seq<string> {
    if lines != [] then [header] + lines else []
  }

  /** The section headers: present exactly for the non-empty groups, `[ciscoios]` with its
      lines first, then `[ciscoasa]` with its lines. Inventory lines are longer than a
      header, so none is mistaken for one. */
  lemma InventorySections(date: string, subnet: string, ftp: string, ios: seq<string>, asa: seq<string>)
    requires forall k :: 0 <= k < |ios| ==> |ios[k]| > 11
    requires forall k :: 0 <= k < |asa| ==> |asa[k]| > 11
    ensures var parts := InventoryParts(date, subnet, ftp, ios, asa);
            (IosHeader in parts <==> ios != []) && (AsaHeader in parts <==> asa != []) &&
            (ios != [] ==> parts[3] == IosHeader && parts[4..4 + |ios|] == ios) &&
            (asa != [] ==> var k := 3 + (if ios != [] then 1 + |ios| else 0);
                           parts[k] == AsaHeader && parts[k + 1..] == asa)
  {
    var head := Comments(date, subnet, ftp);
    var a := Section(IosHeader, ios);
    var b := Section(AsaHeader, asa);
    assert |IosHeader| == 11 && |AsaHeader| == 11 && IosHeader[0] == '\n' && AsaHeader[0] == '\n';
    assert IosHeader != AsaHeader by { assert IosHeader[7] != AsaHeader[7]; }
    HeaderAbsent(IosHeader, head, ios, asa);
    HeaderAbsent(AsaHeader, head, ios, asa);
    SectionsSplit(head, a, b, ios, asa);
  }

  /** A header is none of the comment lines and none of the longer inventory lines. */
  lemma HeaderAbsent(h: string, head: seq<string>, ios: seq<string>, asa: seq<string>)
    requires |h| == 11 && h[0] == '\n'
    requires forall k :: 0 <= k < |head| ==> head[k] != [] && head[k][0] == '#'
    requires forall k :: 0 <= k < |ios| ==> |ios[k]| > 11
    requires forall k :: 0 <= k < |asa| ==> |asa[k]| > 11
    ensures h !in head && h !in ios && h !in asa
  {
  }

  lemma SectionsSplit(head: seq<string>, a: seq<string>, b: seq<string>, ios: seq<string>, asa: seq<string>)
    requires |head| == 3 && a == Section(IosHeader, ios) && b == Section(AsaHeader, asa)
    requires IosHeader !in head && IosHeader !in ios && IosHeader !in asa && IosHeader != AsaHeader
    requires AsaHeader !in head && AsaHeader !in ios && AsaHeader !in asa
    ensures var parts := head + a + b;
            (IosHeader in parts <==> ios != []) && (AsaHeader in parts <==> asa != []) &&
            (ios != [] ==> parts[3] == IosHeader && parts[4..4 + |ios|] == ios) &&
            (asa != [] ==> var k := 3 + (if ios != [] then 1 + |ios| else 0);
                           parts[k] == AsaHeader && parts[k + 1..] == asa)
  {
    var parts := head + a + b;
    if ios != [] {
      assert parts[3] == a[0];
      assert parts[4..4 + |ios|] == a[1..];
    }
    if asa != [] {
      assert parts[3 + |a|] == b[0];
      assert parts[3 + |a| + 1..] == b[1..];
    }
  }

  /** `backup_cisco_<ftp_ip>`, or `backup_cisco_unknown` for the "unknown" bucket. */
  function DirName(subnet: string, ftp: string): string {
    if subnet != "unknown" then "backup_cisco_" + ftp else "backup_cisco_unknown"
  }

  /** The three files of a bucket directory, in writing order (lines 176-243):
      `inventory.ini` spelled out; `ansible.cfg` (the date and subnet in two comment
      lines, then the fixed `[defaults]` and `[network_cli]` settings) and the playbook
      as their templates with the values substituted into them. */
  function CiscoFiles(date: string, subnet: string, ftp: string, ios: seq<string>, asa: seq<string>): Dict<string, Content> {
    [("inventory.ini", Literal(Join("\n", InventoryParts(date, subnet, ftp, ios, asa)))),
     ("ansible.cfg", Rendered("backup_cisco_cfg", [date, subnet])),
     (PlaybookName("backup_cisco"), Rendered("backup_cisco_ftp", [date, subnet, ftp]))]
  }

  /** The directory a bucket writes, only when one of its groups is not empty (lines
      165-188). */
  function BucketDir(recs: seq<Record>, b: Bucket, check: DeviceCheck, date: string): Option<GeneratedDir> {
    var ios := GroupLines(recs, IosGroup, check);
    var asa := GroupLines(recs, AsaGroup, check);
    if ios == [] && asa == [] then None
    else Some(GeneratedDir(DirName(b.text, b.ftp), CiscoFiles(date, b.text, b.ftp, ios, asa)))
  }

  /** A bucket directory is written exactly when one of the bucket's devices is accepted;
      it then has the bucket's name and what the scheduler needs to run it. */
  lemma BucketDirMeaning(recs: seq<Record>, b: Bucket, check: DeviceCheck, date: string)
    ensures BucketDir(recs, b, check, date).Some? <==> HasAccepted(recs, check)
    ensures BucketDir(recs, b, check, date).Some? ==>
              BucketDir(recs, b, check, date).value.name == DirName(b.text, b.ftp) &&
              Runnable("backup_cisco", AsEntry(BucketDir(recs, b, check, date).value))
  {
    GroupLinesEmpty(recs, check);
    var ios := GroupLines(recs, IosGroup, check);
    var asa := GroupLines(recs, AsaGroup, check);
    var r := CiscoFiles(date, b.text, b.ftp, ios, asa);
    assert r[0].0 == "inventory.ini" && r[2].0 == PlaybookName("backup_cisco");
  }

  /** Some device of `recs` has no credentials: the loop raises on it. */
  predicate Crashes(recs: seq<Record>, check: DeviceCheck) {
    exists i :: 0 <= i < |recs| && check(recs[i]).None?
  }

  /** The records at the given positions. */
  function At(eqs: seq<Record>, members: seq<nat>): (r: seq<Record>)
    requires forall i :: 0 <= i < |members| ==> members[i] < |eqs|
    ensures |r| == |members| && forall i :: 0 <= i < |members| ==> r[i] == eqs[members[i]]
  {
    seq(|members|, i requires 0 <= i < |members| => eqs[members[i]])
  }

  /** One pass of the `process_subnet` loop body. */
  method Visit(rec: Record, check: DeviceCheck, b: Bucket, ios: seq<string>, asa: seq<string>)
    returns (crashed: bool, rec': Record, ios': seq<string>, asa': seq<string>)
    ensures crashed <==> check(rec).None?
    ensures !crashed ==> rec' == Processed(rec, check, b) &&
                         ios' == ios + LineOf(rec, IosGroup, check) && asa' == asa + LineOf(rec, AsaGroup, check)
  {
    rec', ios', asa' := rec, ios, asa;
    var v := check(rec);
    if v.None? {
      return true, rec', ios', asa';
    }
    crashed := false;
    match v.value
    case Failed =>
      rec' := rec.(sauvegarde := Some(false));
    case Skipped =>
    case Accepted(g, line) =>
      if g == IosGroup {
        ios' := ios + [line];
      } else {
        asa' := asa + [line];
      }
      rec' := rec.(status := true, sauvegarde := Some(true), subnet := Some(b.text), ftpServer := Some(b.ftp));
  }

  /** `process_subnet`: the loop over one bucket, then the directory when a group is not
      empty. The bucket holds the very record objects of the registry list, so what the
      loop does to them `WriteBack` then does to the registry. */
  method ProcessBucket(recs: seq<Record>, b: Bucket, check: DeviceCheck, date: string)
    returns (crashed: bool, out: seq<Record>, dir: Option<GeneratedDir>)
    ensures crashed <==> Crashes(recs, check)
    ensures !crashed ==> |out| == |recs| && forall i :: 0 <= i < |recs| ==> out[i] == Processed(recs[i], check, b)
    ensures !crashed ==> dir == BucketDir(recs, b, check, date)
  {
    out := [];
    var ios: seq<string> := [];
    var asa: seq<string> := [];
    for i := 0 to |recs|
      invariant |out| == i
      invariant forall i' :: 0 <= i' < i ==> out[i'] == Processed(recs[i'], check, b)
      invariant forall i' :: 0 <= i' < i ==> check(recs[i']).Some?
      invariant ios == GroupLines(recs[..i], IosGroup, check) && asa == GroupLines(recs[..i], AsaGroup, check)
    {
      GroupLinesSnoc(recs, i, check);
      var c, r;
      c, r, ios, asa := Visit(recs[i], check, b, ios, asa);
      if c {
        return true, out, None;
      }
      out := out + [r];
    }
    assert recs[..|recs|] == recs;
    crashed := false;
    if ios != [] || asa != [] {
      dir := Some(GeneratedDir(DirName(b.text, b.ftp), CiscoFiles(date, b.text, b.ftp, ios, asa)));
    } else {
      dir := None;
    }
  }

  /** The groups after one more device. */
  lemma GroupLinesSnoc(recs: seq<Record>, i: nat, check: DeviceCheck)
    requires i < |recs|
    ensures GroupLines(recs[..i + 1], IosGroup, check) == GroupLines(recs[..i], IosGroup, check) + LineOf(recs[i], IosGroup, check)
    ensures GroupLines(recs[..i + 1], AsaGroup, check) == GroupLines(recs[..i], AsaGroup, check) + LineOf(recs[i], AsaGroup, check)
  {
    assert recs[..i + 1][..i] == recs[..i];
  }

  /** The bucket's records, as `process_subnet` left them, seen through the registry list. */
  method WriteBack(eqs: seq<Record>, members: seq<nat>, out: seq<Record>) returns (eqs': seq<Record>)
    requires |out| == |members|
    requires forall i :: 0 <= i < |members| ==> members[i] < |eqs|
    requires forall i, j :: 0 <= i < j < |members| ==> members[i] < members[j]
    ensures |eqs'| == |eqs|
    ensures forall i :: 0 <= i < |members| ==> eqs'[members[i]] == out[i]
    ensures forall k :: 0 <= k < |eqs| && k !in members ==> eqs'[k] == eqs[k]
  {
    eqs' := eqs;
    for i := 0 to |members|
      invariant |eqs'| == |eqs|
      invariant forall i' :: 0 <= i' < i ==> eqs'[members[i']] == out[i']
      invariant forall k :: 0 <= k < |eqs| && k !in members[..i] ==> eqs'[k] == eqs[k]
    {
      assert members[..i + 1] == members[..i] + [members[i]];
      eqs' := eqs'[members[i] := out[i]];
    }
    assert members[..|members|] == members;
  }

  // ---------------------------------------------------------------- the run

  /** One bucket with its records, as `process_subnet` receives them. */
  datatype Work = Work(bucket: Bucket, recs: seq<Record>)

  /** The records of a bucket. */
  function RecsOf(eqs: seq<Record>, b: Bucket, env: Env): seq<Record> {
    At(eqs, Members(eqs, b.key, env))
  }

  /** The `process_subnet` calls of a run, in order. */
  function Plan(eqs: seq<Record>, env: Env): (r: seq<Work>)
    ensures |r| == |env.ftpMap| + 1
    ensures forall j :: 0 <= j < |r| ==> r[j] == Work(Buckets(env.ftpMap)[j], RecsOf(eqs, Buckets(env.ftpMap)[j], env))
  {
    var bs := Buckets(env.ftpMap);
    seq(|bs|, j requires 0 <= j < |bs| => Work(bs[j], RecsOf(eqs, bs[j], env)))
  }

  /** Processing the buckets of `ws` in order, stopping at the first that raises. */
  function RunBuckets(ws: seq<Work>, check: DeviceCheck, date: string): Phase {
    if ws == [] then Phase(false, [])
    else
      var prev := RunBuckets(ws[..|ws| - 1], check, date);
      var w := ws[|ws| - 1];
      if prev.crashed then prev
      else if Crashes(w.recs, check) then Phase(true, prev.dirs)
      else match BucketDir(w.recs, w.bucket, check, date)
        case None => prev
        case Some(d) => Phase(false, Put(prev.dirs, d.name, d))
  }

  /** Some bucket holds a device the loop raises on. */
  predicate AnyCrash(ws: seq<Work>, check: DeviceCheck) {
    exists j :: 0 <= j < |ws| && Crashes(ws[j].recs, check)
  }

  lemma AnyCrashSnoc(ws: seq<Work>, check: DeviceCheck)
    requires ws != []
    ensures AnyCrash(ws, check) == (AnyCrash(ws[..|ws| - 1], check) || Crashes(ws[|ws| - 1].recs, check))
  {
    var init := ws[..|ws| - 1];
    if AnyCrash(ws, check) {
      var j :| 0 <= j < |ws| && Crashes(ws[j].recs, check);
      if j < |init| { assert init[j] == ws[j]; }
    }
    if AnyCrash(init, check) {
      var j :| 0 <= j < |init| && Crashes(init[j].recs, check);
      assert ws[j] == init[j];
    }
  }

  /** The loop raises exactly when one of the buckets holds a device it raises on. */
  lemma {:induction false} RunBucketsCrash(ws: seq<Work>, check: DeviceCheck, date: string)
    ensures RunBuckets(ws, check, date).crashed <==> AnyCrash(ws, check)
  {
    if ws != [] {
      RunBucketsCrash(ws[..|ws| - 1], check, date);
      RunBucketsCrashStep(ws, check, date);
      AnyCrashSnoc(ws, check);
    }
  }

  lemma RunBucketsCrashStep(ws: seq<Work>, check: DeviceCheck, date: string)
    requires ws != []
    ensures RunBuckets(ws, check, date).crashed ==
              (RunBuckets(ws[..|ws| - 1], check, date).crashed || Crashes(ws[|ws| - 1].recs, check))
  {
  }

  /** Without a crash, a directory is written exactly when a device of some bucket is
      accepted. */
  lemma {:induction false} RunBucketsDirs(ws: seq<Work>, check: DeviceCheck, date: string)
    requires !RunBuckets(ws, check, date).crashed
    ensures RunBuckets(ws, check, date).dirs != [] <==> exists j :: 0 <= j < |ws| && HasAccepted(ws[j].recs, check)
  {
    if ws != [] {
      var init := ws[..|ws| - 1];
      var w := ws[|ws| - 1];
      var prev := RunBuckets(init, check, date);
      assert !prev.crashed && !Crashes(w.recs, check);
      RunBucketsDirs(init, check, date);
      BucketDirMeaning(w.recs, w.bucket, check, date);
      var here := HasAccepted(w.recs, check);
      var before := exists j :: 0 <= j < |init| && HasAccepted(init[j].recs, check);
      var dirs := RunBuckets(ws, check, date).dirs;
      if here {
        var d := BucketDir(w.recs, w.bucket, check, date).value;
        assert dirs == Put(prev.dirs, d.name, d);
        assert dirs != [] by {
          if HasKey(prev.dirs, d.name) { assert |dirs| == |prev.dirs|; }
        }
        assert HasAccepted(ws[|ws| - 1].recs, check);
      } else {
        assert dirs == prev.dirs;
        if before {
          var j :| 0 <= j < |init| && HasAccepted(init[j].recs, check);
          assert ws[j] == init[j];
        } else {
          forall j | 0 <= j < |ws|
            ensures !HasAccepted(ws[j].recs, check)
          {
            if j < |init| { assert ws[j] == init[j]; }
          }
        }
      }
    }
  }

  /** Every directory written is stored under its own name and can be run by the
      scheduler. */
  lemma {:induction false} RunBucketsRunnable(ws: seq<Work>, check: DeviceCheck, date: string)
    ensures forall i :: 0 <= i < |RunBuckets(ws, check, date).dirs| ==>
              RunBuckets(ws, check, date).dirs[i].0 == RunBuckets(ws, check, date).dirs[i].1.name &&
              Runnable("backup_cisco", AsEntry(RunBuckets(ws, check, date).dirs[i].1))
  {
    if ws != [] {
      var init := ws[..|ws| - 1];
      var w := ws[|ws| - 1];
      RunBucketsRunnable(init, check, date);
      var prev := RunBuckets(init, check, date);
      if !prev.crashed && !Crashes(w.recs, check) && BucketDir(w.recs, w.bucket, check, date).Some? {
        var d := BucketDir(w.recs, w.bucket, check, date).value;
        BucketDirMeaning(w.recs, w.bucket, check, date);
        var r := Put(prev.dirs, d.name, d);
        forall i | 0 <= i < |r|
          ensures r[i].0 == r[i].1.name && Runnable("backup_cisco", AsEntry(r[i].1))
        {
          if i >= |prev.dirs| { assert r[i] == (d.name, d); }
        }
      }
    }
  }

  /** Each device sits in exactly the bucket of its rank. */
  lemma PlanCovers(eqs: seq<Record>, env: Env, k: nat)
    requires UniqueKeys(env.ftpMap) && k < |eqs|
    ensures var ws := Plan(eqs, env);
            exists i :: 0 <= i < |ws[Rank(eqs[k], env)].recs| && ws[Rank(eqs[k], env)].recs[i] == eqs[k]
  {
    var j := Rank(eqs[k], env);
    var bs := Buckets(env.ftpMap);
    BucketIndex(eqs, env, j, k);
    var ms := Members(eqs, bs[j].key, env);
    var i :| 0 <= i < |ms| && ms[i] == k;
    assert Plan(eqs, env)[j].recs[i] == eqs[k];
  }

  /** Every record of a bucket is one of the devices. */
  lemma PlanFrom(eqs: seq<Record>, env: Env, j: nat, i: nat)
    requires j < |Plan(eqs, env)| && i < |Plan(eqs, env)[j].recs|
    ensures exists k :: 0 <= k < |eqs| && eqs[k] == Plan(eqs, env)[j].recs[i]
  {
    var ms := Members(eqs, Buckets(env.ftpMap)[j].key, env);
    assert Plan(eqs, env)[j].recs[i] == eqs[ms[i]];
  }

  /** The `backup_cisco` directory after `makedirs` has created the listed sub-directories:
      absent when there are none. */
  function Written(dirs: Dict<string, GeneratedDir>): Option<Dict<string, GeneratedDir>> {
    if dirs == [] then None else Some(dirs)
  }

  /** The whole script. `networks.json` must be read and some listed subnet must have a
      local address, else it raises before touching anything; `backup_cisco` is then
      deleted; `cisco_save.json` must be a list of records; a device without credentials
      raises in the middle of the bucket loop, leaving the directories of the buckets done
      so far and the registry file as it was. */
  function CiscoRun(networks: Stored<seq<Subnet>>, addrs: seq<HostAddr>, registry: Stored<seq<Record>>,
                    prior: Option<Dict<string, GeneratedDir>>, p: Probes, date: string): Outcome {
    if !networks.Parsed? || FtpMap(networks.value, addrs) == [] then Outcome(true, registry, prior)
    else if !registry.Parsed? then Outcome(true, registry, None)
    else
      var env := Env(networks.value, FtpMap(networks.value, addrs), p.aton, DeviceCheckOf(p), date);
      var eqs := registry.value;
      var ph := RunBuckets(Plan(eqs, env), env.check, date);
      if ph.crashed then Outcome(true, registry, Written(ph.dirs))
      else Outcome(false, Parsed(seq(|eqs|, k requires 0 <= k < |eqs| => Final(eqs[k], env))), Written(ph.dirs))
  }

  /** Once the inputs are readable, the run raises exactly when some device has no
      credentials. Otherwise every device gets its final flags, `backup_cisco` survives
      exactly when some device was accepted, and each of its sub-directories is runnable. */
  lemma CiscoRunMeaning(networks: Stored<seq<Subnet>>, addrs: seq<HostAddr>, registry: Stored<seq<Record>>,
                        prior: Option<Dict<string, GeneratedDir>>, p: Probes, date: string)
    requires networks.Parsed? && FtpMap(networks.value, addrs) != [] && registry.Parsed?
    ensures var o := CiscoRun(networks, addrs, registry, prior, p, date);
            var eqs := registry.value;
            var env := Env(networks.value, FtpMap(networks.value, addrs), p.aton, DeviceCheckOf(p), date);
            (o.crashed <==> exists k :: 0 <= k < |eqs| && eqs[k].credentials.None?) &&
            (!o.crashed ==>
               o.registry == Parsed(seq(|eqs|, k requires 0 <= k < |eqs| => Final(eqs[k], env))) &&
               (o.backupDir.Some? <==> exists k :: 0 <= k < |eqs| && IsAccepted(eqs[k], DeviceCheckOf(p))) &&
               (o.backupDir.Some? ==> forall i :: 0 <= i < |o.backupDir.value| ==>
                  Runnable("backup_cisco", AsEntry(o.backupDir.value[i].1))))
  {
    var eqs := registry.value;
    var env := Env(networks.value, FtpMap(networks.value, addrs), p.aton, DeviceCheckOf(p), date);
    FtpMapMeaning(networks.value, addrs);
    PlanRun(eqs, env);
    forall k | 0 <= k < |eqs|
      ensures env.check(eqs[k]).None? <==> eqs[k].credentials.None?
    {
      assert env.check(eqs[k]) == Check(eqs[k], p);
    }
  }

  /** The bucket loop over the plan of a run raises exactly when the checker raises on
      some device; otherwise it writes a directory exactly when some device is accepted,
      and every directory it writes is runnable. */
  lemma PlanRun(eqs: seq<Record>, env: Env)
    requires UniqueKeys(env.ftpMap)
    ensures var ph := RunBuckets(Plan(eqs, env), env.check, env.date);
            (ph.crashed <==> exists k :: 0 <= k < |eqs| && env.check(eqs[k]).None?) &&
            (!ph.crashed ==> (ph.dirs != [] <==> exists k :: 0 <= k < |eqs| && IsAccepted(eqs[k], env.check))) &&
            forall i :: 0 <= i < |ph.dirs| ==> Runnable("backup_cisco", AsEntry(ph.dirs[i].1))
  {
    var ws := Plan(eqs, env);
    RunBucketsCrash(ws, env.check, env.date);
    PlanCrashes(eqs, env);
    if !RunBuckets(ws, env.check, env.date).crashed {
      RunBucketsDirs(ws, env.check, env.date);
      PlanAccepted(eqs, env);
    }
    RunBucketsRunnable(ws, env.check, env.date);
  }

  /** Some bucket holds a device the checker raises on exactly when some device is one. */
  lemma PlanCrashes(eqs: seq<Record>, env: Env)
    requires UniqueKeys(env.ftpMap)
    ensures (exists j :: 0 <= j < |Plan(eqs, env)| && Crashes(Plan(eqs, env)[j].recs, env.check)) <==>
            (exists k :: 0 <= k < |eqs| && env.check(eqs[k]).None?)
  {
    var ws := Plan(eqs, env);
    if exists k :: 0 <= k < |eqs| && env.check(eqs[k]).None? {
      var k :| 0 <= k < |eqs| && env.check(eqs[k]).None?;
      PlanCovers(eqs, env, k);
      assert Crashes(ws[Rank(eqs[k], env)].recs, env.check);
    }
    forall j | 0 <= j < |ws| && Crashes(ws[j].recs, env.check)
      ensures exists k :: 0 <= k < |eqs| && env.check(eqs[k]).None?
    {
      var i :| 0 <= i < |ws[j].recs| && env.check(ws[j].recs[i]).None?;
      PlanFrom(eqs, env, j, i);
    }
  }

  /** Some bucket holds an accepted device exactly when some device is accepted. */
  lemma PlanAccepted(eqs: seq<Record>, env: Env)
    requires UniqueKeys(env.ftpMap)
    ensures (exists j :: 0 <= j < |Plan(eqs, env)| && HasAccepted(Plan(eqs, env)[j].recs, env.check)) <==>
            (exists k :: 0 <= k < |eqs| && IsAccepted(eqs[k], env.check))
  {
    var ws := Plan(eqs, env);
    if exists k :: 0 <= k < |eqs| && IsAccepted(eqs[k], env.check) {
      var k :| 0 <= k < |eqs| && IsAccepted(eqs[k], env.check);
      PlanCovers(eqs, env, k);
      var j := Rank(eqs[k], env);
      var i :| 0 <= i < |ws[j].recs| && ws[j].recs[i] == eqs[k];
      assert IsAccepted(ws[j].recs[i], env.check);
      assert HasAccepted(ws[j].recs, env.check);
    }
    forall j | 0 <= j < |ws| && HasAccepted(ws[j].recs, env.check)
      ensures exists k :: 0 <= k < |eqs| && IsAccepted(eqs[k], env.check)
    {
      var i :| 0 <= i < |ws[j].recs| && IsAccepted(ws[j].recs[i], env.check);
      PlanFrom(eqs, env, j, i);
    }
  }

  /** The loop's state after bucket `j`, from its state before it. */
  lemma RunBucketsNext(ws: seq<Work>, j: nat, check: DeviceCheck, date: string)
    requires j < |ws| && !RunBuckets(ws[..j], check, date).crashed
    ensures var prev := RunBuckets(ws[..j], check, date);
            RunBuckets(ws[..j + 1], check, date) ==
              if Crashes(ws[j].recs, check) then Phase(true, prev.dirs)
              else match BucketDir(ws[j].recs, ws[j].bucket, check, date)
                case None => prev
                case Some(d) => Phase(false, Put(prev.dirs, d.name, d))
  {
    assert ws[..j + 1][..j] == ws[..j];
  }

  /** The positions a bucket's results are written back to, and the final value each
      device of the bucket receives. */
  lemma WriteBackFinal(eqs0: seq<Record>, eqs: seq<Record>, eqs': seq<Record>, env: Env, j: nat,
                       members: seq<nat>, out: seq<Record>)
    requires UniqueKeys(env.ftpMap) && j <= |env.ftpMap|
    requires |eqs| == |eqs0| == |eqs'| && |out| == |members|
    requires forall i :: 0 <= i < |members| ==> members[i] < |eqs0|
    requires forall k :: 0 <= k < |eqs0| ==> (k in members <==> Rank(eqs0[k], env) == j)
    requires forall k :: 0 <= k < |eqs0| ==> eqs[k] == if Rank(eqs0[k], env) < j then Final(eqs0[k], env) else eqs0[k]
    requires forall i :: 0 <= i < |members| ==> eqs'[members[i]] == out[i]
    requires forall i :: 0 <= i < |members| ==> out[i] == Processed(eqs0[members[i]], env.check, Buckets(env.ftpMap)[j])
    requires forall k :: 0 <= k < |eqs| && k !in members ==> eqs'[k] == eqs[k]
    ensures forall k :: 0 <= k < |eqs0| ==> eqs'[k] == if Rank(eqs0[k], env) < j + 1 then Final(eqs0[k], env) else eqs0[k]
  {
    forall k | 0 <= k < |eqs0|
      ensures eqs'[k] == if Rank(eqs0[k], env) < j + 1 then Final(eqs0[k], env) else eqs0[k]
    {
      if k in members {
        var i :| 0 <= i < |members| && members[i] == k;
        assert eqs'[k] == out[i];
      }
    }
  }

  /** Once the loop has raised, later buckets change nothing. */
  lemma {:induction false} RunBucketsStops(ws: seq<Work>, n: nat, check: DeviceCheck, date: string)
    requires n <= |ws| && RunBuckets(ws[..n], check, date).crashed
    ensures RunBuckets(ws, check, date) == RunBuckets(ws[..n], check, date)
  {
    if n < |ws| {
      var init := ws[..|ws| - 1];
      assert init[..n] == ws[..n];
      RunBucketsStops(init, n, check, date);
    } else {
      assert ws[..n] == ws;
    }
  }

  /** Bucket `j` holds exactly the devices of rank `j`. */
  lemma MembersRank(eqs: seq<Record>, env: Env, j: nat)
    requires UniqueKeys(env.ftpMap) && j <= |env.ftpMap|
    ensures forall k :: 0 <= k < |eqs| ==> (k in Members(eqs, Buckets(env.ftpMap)[j].key, env) <==> Rank(eqs[k], env) == j)
  {
    forall k | 0 <= k < |eqs|
      ensures k in Members(eqs, Buckets(env.ftpMap)[j].key, env) <==> Rank(eqs[k], env) == j
    {
      BucketIndex(eqs, env, j, k);
    }
  }

  lemma PutNotEmpty(d: Dict<string, GeneratedDir>, k: string, v: GeneratedDir)
    ensures Put(d, k, v) != []
  {
    if HasKey(d, k) { assert |Put(d, k, v)| == |d|; }
  }

  /** One turn of the loop over the buckets: `process_subnet` on bucket `j` (skipped for an
      empty "unknown" bucket), then the directory it wrote and `has_valid_equipments`. */
  method RunStep(eqs0: seq<Record>, eqs: seq<Record>, env: Env, j: nat, b: Bucket, members: seq<nat>,
                 dirs: Dict<string, GeneratedDir>, hasValid: bool)
    returns (crashed: bool, eqs': seq<Record>, dirs': Dict<string, GeneratedDir>, hasValid': bool)
    requires UniqueKeys(env.ftpMap) && j <= |env.ftpMap|
    requires b == Buckets(env.ftpMap)[j] && members == Members(eqs0, b.key, env)
    requires |eqs| == |eqs0|
    requires forall k :: 0 <= k < |eqs0| ==> eqs[k] == if Rank(eqs0[k], env) < j then Final(eqs0[k], env) else eqs0[k]
    requires RunBuckets(Plan(eqs0, env)[..j], env.check, env.date) == Phase(false, dirs)
    requires hasValid <==> dirs != []
    ensures hasValid' <==> dirs' != []
    ensures crashed ==> RunBuckets(Plan(eqs0, env)[..j + 1], env.check, env.date) == Phase(true, dirs')
    ensures !crashed ==> RunBuckets(Plan(eqs0, env)[..j + 1], env.check, env.date) == Phase(false, dirs')
    ensures !crashed ==> |eqs'| == |eqs0|
    ensures !crashed ==>
              forall k :: 0 <= k < |eqs0| ==> eqs'[k] == if Rank(eqs0[k], env) < j + 1 then Final(eqs0[k], env) else eqs0[k]
  {
    ghost var ws := Plan(eqs0, env);
    MembersRank(eqs0, env, j);
    var recs := At(eqs, members);
    assert recs == ws[j].recs;
    RunBucketsNext(ws, j, env.check, env.date);
    eqs', dirs', hasValid' := eqs, dirs, hasValid;
    crashed := false;
    if j < |env.ftpMap| || members != [] {
      var dir, out;
      crashed, out, dir := ProcessBucket(recs, b, env.check, env.date);
      if crashed {
        return;
      }
      eqs' := WriteBack(eqs, members, out);
      WriteBackFinal(eqs0, eqs, eqs', env, j, members, out);
      if dir.Some? {
        PutNotEmpty(dirs, dir.value.name, dir.value);
        dirs' := Put(dirs, dir.value.name, dir.value);
        hasValid' := true;
      }
    } else {
      assert recs == [];
      assert !Crashes(recs, env.check) && BucketDir(recs, b, env.check, env.date).None?;
    }
  }

  /** The loop over the buckets, the "unknown" one last: it stops at the first device
      without credentials, keeping the directories written so far. */
  method RunLoop(eqs0: seq<Record>, env: Env, lists: seq<seq<nat>>, unknown: seq<nat>)
    returns (crashed: bool, eqs: seq<Record>, dirs: Dict<string, GeneratedDir>, hasValid: bool)
    requires UniqueKeys(env.ftpMap) && |lists| == |env.ftpMap|
    requires forall j :: 0 <= j < |env.ftpMap| ==> lists[j] == Members(eqs0, Some(env.ftpMap[j].0), env)
    requires unknown == Members(eqs0, None, env)
    ensures RunBuckets(Plan(eqs0, env), env.check, env.date) == Phase(crashed, dirs)
    ensures hasValid <==> dirs != []
    ensures !crashed ==> eqs == seq(|eqs0|, k requires 0 <= k < |eqs0| => Final(eqs0[k], env))
  {
    var m := env.ftpMap;
    ghost var ws := Plan(eqs0, env);
    eqs := eqs0;
    dirs := [];
    hasValid := false;
    crashed := false;
    for j := 0 to |m| + 1
      invariant |eqs| == |eqs0|
      invariant RunBuckets(ws[..j], env.check, env.date) == Phase(false, dirs)
      invariant hasValid <==> dirs != []
      invariant forall k :: 0 <= k < |eqs0| ==> eqs[k] == if Rank(eqs0[k], env) < j then Final(eqs0[k], env) else eqs0[k]
    {
      var b := if j < |m| then Bucket(Some(m[j].0), m[j].0.text, m[j].1) else Bucket(None, "unknown", "0.0.0.0");
      var members := if j < |m| then lists[j] else unknown;
      crashed, eqs, dirs, hasValid := RunStep(eqs0, eqs, env, j, b, members, dirs, hasValid);
      if crashed {
        RunBucketsStops(ws, j + 1, env.check, env.date);
        return;
      }
    }
    assert ws[..|m| + 1] == ws;
  }

  /** The script as written: build the FTP map, bucket the devices, process each bucket
      in order, then delete `backup_cisco` when nothing was accepted. */
  method RunCisco(networks: Stored<seq<Subnet>>, addrs: seq<HostAddr>, registry: Stored<seq<Record>>,
                  prior: Option<Dict<string, GeneratedDir>>, p: Probes, date: string) returns (o: Outcome)
    ensures o == CiscoRun(networks, addrs, registry, prior, p, date)
  {
    if !networks.Parsed? {
      return Outcome(true, registry, prior);
    }
    var m := BuildFtpMap(networks.value, addrs);
    if m == [] {
      return Outcome(true, registry, prior);
    }
    if !registry.Parsed? {
      return Outcome(true, registry, None);
    }
    FtpMapMeaning(networks.value, addrs);
    var env := Env(networks.value, m, p.aton, DeviceCheckOf(p), date);
    var eqs0 := registry.value;
    var lists, unknown := Bucketize(eqs0, env);
    var crashed, eqs, dirs, hasValid := RunLoop(eqs0, env, lists, unknown);
    if crashed {
      return Outcome(true, registry, if hasValid then Some(dirs) else None);
    }
    o := Outcome(false, Parsed(eqs), if hasValid then Some(dirs) else None);
  }
}
