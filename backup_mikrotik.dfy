/** `scr_backup_mikrotik.py`: the MikroTik backup generator. It checks every device of
    `mikrotik_save.json` (ping, ARP MAC, SSH), records its flags and, for the validated
    devices whose address lies in a subnet the host has an address in, writes one working
    directory per such subnet. */
module BackupMikrotik {
  import opened Common
  import opened Text
  import opened Dict
  import opened Registry
  import opened Ipv4
  import opened Workspace
  import opened Probes

  // ---------------------------------------------------------------- one device

  /** `get_subnet_for_ip`: the first subnet of the FTP map, in insertion order, that
      contains the address. */
  function SubnetOf(ip: string, m: Dict<Subnet, string>, p: Probes): (r: Option<Subnet>)
    ensures r.Some? ==> HasKey(m, r.value)
    ensures r.None? <==> forall j :: 0 <= j < |m| ==> !InSubnet(p.aton(ip), m[j].0)
  {
    var r := FirstSubnet(p.aton(ip), Keys(m));
    assert r.Some? ==> HasKey(m, r.value) by {
      if r.Some? {
        var i :| 0 <= i < |Keys(m)| && Keys(m)[i] == r.value;
        assert m[i].0 == r.value;
      }
    }
    r
  }

  /** A validated device whose address lies in a subnet of the FTP map: it joins
      `reachable_equipments`. */
  predicate Joins(rec: Record, m: Dict<Subnet, string>, p: Probes) {
    !Raises(rec) && Validated(rec, p) && SubnetOf(rec.ip.value, m, p).Some?
  }

  /** The record after the validation loop has seen it (lines 132-154). */
  function Applied(rec: Record, m: Dict<Subnet, string>, p: Probes): Record {
    if Raises(rec) then rec
    else if !Validated(rec, p) then rec.(sauvegarde := Some(false))
    else match SubnetOf(rec.ip.value, m, p)
      case None => rec.(status := true, sauvegarde := Some(true))
      case Some(s) => rec.(status := true, sauvegarde := Some(true), subnet := Some(s.text), ftpServer := Get(m, s))
  }

  /** Every record after the validation loop, in file order. */
  function AppliedAll(eqs: seq<Record>, m: Dict<Subnet, string>, p: Probes): (r: seq<Record>)
    ensures |r| == |eqs| && forall k :: 0 <= k < |eqs| ==> r[k] == Applied(eqs[k], m, p)
  {
    seq(|eqs|, k requires 0 <= k < |eqs| => Applied(eqs[k], m, p))
  }

  /** A failing device only gets `sauvegarde = False`; a validated one gets both flags, and
      its subnet and that subnet's FTP address exactly when its address lies in a subnet of
      the FTP map. A validated device outside every such subnet keeps its old subnet and
      FTP server. */
  lemma AppliedFlags(rec: Record, m: Dict<Subnet, string>, p: Probes)
    requires !Raises(rec)
    ensures var r := Applied(rec, m, p);
            (!Validated(rec, p) ==> r == rec.(sauvegarde := Some(false))) &&
            (Validated(rec, p) ==>
               r.status && r.sauvegarde == Some(true) &&
               r.(status := rec.status, sauvegarde := rec.sauvegarde, subnet := rec.subnet, ftpServer := rec.ftpServer) == rec &&
               (!Joins(rec, m, p) ==> r.subnet == rec.subnet && r.ftpServer == rec.ftpServer) &&
               (Joins(rec, m, p) ==>
                  var s := SubnetOf(rec.ip.value, m, p).value;
                  r.subnet == Some(s.text) && r.ftpServer.Some? && Get(m, s) == r.ftpServer))
  {
    if Validated(rec, p) {
      var s := SubnetOf(rec.ip.value, m, p);
      if s.Some? {
        var i :| 0 <= i < |m| && m[i].0 == s.value;
        FirstKeyGet(m, s.value, i);
      }
    }
  }

  /** What the loop makes of each device: whether it joins `reachable_equipments`, and
      the record afterwards. */
  function Seen(eqs: seq<Record>, m: Dict<Subnet, string>, p: Probes): (r: seq<(bool, Record)>)
    ensures |r| == |eqs| && forall k :: 0 <= k < |eqs| ==> r[k] == (Joins(eqs[k], m, p), Applied(eqs[k], m, p))
  {
    seq(|eqs|, k requires 0 <= k < |eqs| => (Joins(eqs[k], m, p), Applied(eqs[k], m, p)))
  }

  /** The records that join `reachable_equipments`, as the loop leaves them, in file order. */
  function Reach(eqs: seq<Record>, m: Dict<Subnet, string>, p: Probes): (r: seq<Record>)
    ensures |r| <= |eqs|
  {
    Picked(Seen(eqs, m, p))
  }

  /** A record of `reachable_equipments` is a validated device, flagged, and carrying the
      subnet of the FTP map its address lies in together with that subnet's address. */
  lemma ReachMeaning(eqs: seq<Record>, m: Dict<Subnet, string>, p: Probes, r: Record)
    ensures r in Reach(eqs, m, p) <==> FromDevice(eqs, m, p, r)
    ensures r in Reach(eqs, m, p) ==>
              r.status && r.sauvegarde == Some(true) && r.mac.Some? && r.credentials.Some? && r.ip.Some? &&
              exists j :: 0 <= j < |m| && r.subnet == Some(m[j].0.text) && r.ftpServer == Some(m[j].1)
  {
    ReachMembership(eqs, m, p, r);
    if r in Reach(eqs, m, p) {
      var k :| 0 <= k < |eqs| && Joins(eqs[k], m, p) && r == Applied(eqs[k], m, p);
      JoinedShape(eqs[k], m, p);
    }
  }

  /** What a device that joins `reachable_equipments` looks like afterwards. */
  lemma JoinedShape(rec: Record, m: Dict<Subnet, string>, p: Probes)
    requires Joins(rec, m, p)
    ensures var r := Applied(rec, m, p);
            r.status && r.sauvegarde == Some(true) && r.mac.Some? && r.credentials.Some? && r.ip.Some? &&
            exists j :: 0 <= j < |m| && r.subnet == Some(m[j].0.text) && r.ftpServer == Some(m[j].1)
  {
    var s := SubnetOf(rec.ip.value, m, p).value;
    var j :| 0 <= j < |m| && m[j].0 == s;
    FirstKeyGet(m, s, j);
    var j0 := KeyIndexOf(m, s);
    FirstKeyGet(m, s, j0);
  }

  /** The position of the first pair with key `k`. */
  function KeyIndexOf(m: Dict<Subnet, string>, k: Subnet): (i: nat)
    requires HasKey(m, k)
    ensures i < |m| && m[i].0 == k && forall j :: 0 <= j < i ==> m[j].0 != k
  {
    if m[0].0 == k then 0
    else
      assert HasKey(m[1..], k) by {
        var i :| 0 <= i < |m| && m[i].0 == k;
        assert m[1..][i - 1].0 == k;
      }
      1 + KeyIndexOf(m[1..], k)
  }

  /** `r` is what the loop makes of a device of `eqs` that joins `reachable_equipments`. */
  predicate FromDevice(eqs: seq<Record>, m: Dict<Subnet, string>, p: Probes, r: Record) {
    exists k :: 0 <= k < |eqs| && Joins(eqs[k], m, p) && r == Applied(eqs[k], m, p)
  }

  lemma ReachMembership(eqs: seq<Record>, m: Dict<Subnet, string>, p: Probes, r: Record)
    ensures r in Reach(eqs, m, p) <==> FromDevice(eqs, m, p, r)
  {
    var seen := Seen(eqs, m, p);
    PickedMembership(seen, r);
    if r in Reach(eqs, m, p) {
      var k :| 0 <= k < |seen| && seen[k] == (true, r);
      assert Joins(eqs[k], m, p) && r == Applied(eqs[k], m, p);
    }
    if FromDevice(eqs, m, p, r) {
      var k :| 0 <= k < |eqs| && Joins(eqs[k], m, p) && r == Applied(eqs[k], m, p);
      assert seen[k] == (true, r);
    }
  }

  /** The validation loop (lines 131-154). It stops at the first device it raises on. */
  method ValidateAll(eqs: seq<Record>, m: Dict<Subnet, string>, p: Probes)
    returns (crashed: bool, out: seq<Record>, reachable: seq<Record>, hasValid: bool)
    ensures crashed <==> exists k :: 0 <= k < |eqs| && Raises(eqs[k])
    ensures !crashed ==> out == AppliedAll(eqs, m, p)
    ensures !crashed ==> reachable == Reach(eqs, m, p) && (hasValid <==> reachable != [])
  {
    out, reachable, hasValid := [], [], false;
    for i := 0 to |eqs|
      invariant |out| == i && forall k :: 0 <= k < i ==> out[k] == Applied(eqs[k], m, p)
      invariant forall k :: 0 <= k < i ==> !Raises(eqs[k])
      invariant reachable == Reach(eqs[..i], m, p) && (hasValid <==> reachable != [])
    {
      ReachStep(eqs, m, p, i);
      var eq := eqs[i];
      if eq.credentials.None? || eq.mac.None? {
        return true, out, reachable, hasValid;
      }
      var updated, joins := Visit(eq, m, p);
      if joins {
        reachable := reachable + [updated];
        hasValid := true;
      }
      out := out + [updated];
    }
    assert eqs[..|eqs|] == eqs;
    crashed := false;
  }

  /** The loop's list grows by at most the device it visits. */
  lemma ReachStep(eqs: seq<Record>, m: Dict<Subnet, string>, p: Probes, i: nat)
    requires i < |eqs|
    ensures Reach(eqs[..i + 1], m, p) ==
              Reach(eqs[..i], m, p) + (if Joins(eqs[i], m, p) then [Applied(eqs[i], m, p)] else [])
  {
    assert Seen(eqs[..i + 1], m, p)[..i] == Seen(eqs[..i], m, p);
  }

  /** One pass of the validation loop body over a record that has credentials and a MAC. */
  method Visit(eq: Record, m: Dict<Subnet, string>, p: Probes) returns (updated: Record, joins: bool)
    requires !Raises(eq)
    ensures updated == Applied(eq, m, p) && joins == Joins(eq, m, p)
  {
    joins := false;
    updated := eq;
    var ip := eq.ip;
    var expected := Lower(eq.mac.value);
    if ip.Some? && p.ping(ip.value) {
      var arpMac := LinuxArpMac(p, ip.value);
      if arpMac.Some? && arpMac.value == expected {
        if p.ssh(ip.value, eq.credentials.value.username, eq.credentials.value.password) {
          updated := updated.(status := true, sauvegarde := Some(true));
          var s := SubnetOf(ip.value, m, p);
          if s.Some? {
            updated := updated.(subnet := Some(s.value.text), ftpServer := Get(m, s.value));
          }
          joins := s.Some?;
        } else {
          updated := updated.(sauvegarde := Some(false));
        }
      } else {
        updated := updated.(sauvegarde := Some(false));
      }
    } else {
      updated := updated.(sauvegarde := Some(false));
    }
  }

  // ---------------------------------------------------------------- directories

  /** `[eq for eq in reachable_equipments if eq.get('subnet') == subnet_cidr]`. */
  function InSubnetNamed(reach: seq<Record>, text: string): (r: seq<Record>)
    ensures |r| <= |reach|
  {
    if reach == [] then []
    else
      var n := |reach| - 1;
      InSubnetNamed(reach[..n], text) + (if reach[n].subnet == Some(text) then [reach[n]] else [])
  }

  lemma {:induction false} InSubnetNamedMeaning(reach: seq<Record>, text: string, r: Record)
    ensures r in InSubnetNamed(reach, text) <==> r in reach && r.subnet == Some(text)
  {
    if reach != [] {
      var n := |reach| - 1;
      InSubnetNamedMeaning(reach[..n], text, r);
      assert reach == reach[..n] + [reach[n]];
    }
  }

  /** `f"backup_mikrotik_{ftp_ip.replace('.', '.')}"`: the replacement changes nothing. */
  function DirName(ftp: string): string {
    "backup_mikrotik_" + ftp
  }

  /** The host line of a device (lines 193-198): its recorded MAC with '-' for ':'. */
  function HostLine(rec: Record): string
    requires rec.mac.Some? && rec.credentials.Some? && rec.ip.Some?
  {
    DashMac(rec.mac.value) + HostKey + rec.ip.value + UserKey + rec.credentials.value.username
      + PassKey + rec.credentials.value.password + OsKey + "routeros" + NetworkCli + "\n"
  }

  /** The host lines of the devices of a directory, in order. */
  function HostLines(recs: seq<Record>): (r: seq<string>)
    requires forall k :: 0 <= k < |recs| ==> recs[k].mac.Some? && recs[k].credentials.Some? && recs[k].ip.Some?
    ensures |r| == |recs| && forall k :: 0 <= k < |recs| ==> r[k] == HostLine(recs[k])
  {
    seq(|recs|, k requires 0 <= k < |recs| => HostLine(recs[k]))
  }

  /** A host line names its device by its MAC in dash form before anything else. */
  lemma HostLineStart(rec: Record)
    requires rec.mac.Some? && rec.credentials.Some? && rec.ip.Some?
    ensures StartsWith(HostLine(rec), DashMac(rec.mac.value) + HostKey + rec.ip.value)
    ensures EndsWith(HostLine(rec), OsKey + "routeros" + NetworkCli + "\n")
  {
    var head := DashMac(rec.mac.value) + HostKey + rec.ip.value;
    var line := HostLine(rec);
    assert line[..|head|] == head;
    var tail := OsKey + "routeros" + NetworkCli + "\n";
    var front := head + UserKey + rec.credentials.value.username + PassKey + rec.credentials.value.password;
    assert line == front + tail;
    assert line[|line| - |tail|..] == tail;
  }

  /** The directory of one subnet (lines 185-257): the inventory with its single `[all]`
      section, then `ansible.cfg` and the playbook as templates with the date and FTP
      address substituted into them. */
  function MikrotikDir(ftp: string, recs: seq<Record>, date: string): GeneratedDir
    requires forall k :: 0 <= k < |recs| ==> recs[k].mac.Some? && recs[k].credentials.Some? && recs[k].ip.Some?
  {
    GeneratedDir(DirName(ftp),
      [("inventory.ini", Literal(GeneratedOn + date + "\n[all]\n" + Concat(HostLines(recs)))),
       ("ansible.cfg", Rendered("backup_mikrotik_cfg", [date])),
       (PlaybookName("backup_mikrotik"), Rendered("backup_mikrotik_ftp", [date, ftp]))])
  }

  /** The generated playbook is `backup_mikrotik_ftp.yml`, the name the scheduler looks for,
      so every directory is run by it. */
  lemma MikrotikDirRunnable(ftp: string, recs: seq<Record>, date: string)
    requires forall k :: 0 <= k < |recs| ==> recs[k].mac.Some? && recs[k].credentials.Some? && recs[k].ip.Some?
    ensures MikrotikDir(ftp, recs, date).name == "backup_mikrotik_" + ftp
    ensures Runnable("backup_mikrotik", AsEntry(MikrotikDir(ftp, recs, date)))
    ensures PlaybookName("backup_mikrotik") == "backup_mikrotik_ftp.yml"
  {
    var d := MikrotikDir(ftp, recs, date);
    assert d.files[0].0 == "inventory.ini" && d.files[2].0 == PlaybookName("backup_mikrotik");
  }

  lemma {:induction false} InSubnetNamedWritable(reach: seq<Record>, text: string)
    requires Writable(reach)
    ensures Writable(InSubnetNamed(reach, text))
  {
    var r := InSubnetNamed(reach, text);
    forall k | 0 <= k < |r|
      ensures r[k].mac.Some? && r[k].credentials.Some? && r[k].ip.Some?
    {
      InSubnetNamedMeaning(reach, text, r[k]);
    }
  }

  /** The loop of lines 174-257 over the first entries of the FTP map. */
  function GenDirs(m: Dict<Subnet, string>, reach: seq<Record>, date: string): Phase
    requires Writable(reach)
  {
    if m == [] then Phase(false, [])
    else
      var n := |m| - 1;
      var prev := GenDirs(m[..n], reach, date);
      var members := InSubnetNamed(reach, m[n].0.text);
      InSubnetNamedWritable(reach, m[n].0.text);
      if prev.crashed || members == [] then prev
      else if HasKey(prev.dirs, DirName(m[n].1)) then Phase(true, prev.dirs)
      else Phase(false, prev.dirs + [(DirName(m[n].1), MikrotikDir(m[n].1, members, date))])
  }

  /** Every directory created belongs to a subnet of the FTP map with at least one reachable
      device, is named after that subnet's address, lists exactly the reachable devices of
      the subnet, and is runnable by the scheduler. */
  lemma {:induction false} GenDirsMeaning(m: Dict<Subnet, string>, reach: seq<Record>, date: string)
    requires Writable(reach)
    ensures var ph := GenDirs(m, reach, date);
            UniqueKeys(ph.dirs) &&
            forall i :: 0 <= i < |ph.dirs| ==>
              Runnable("backup_mikrotik", AsEntry(ph.dirs[i].1)) &&
              exists j :: 0 <= j < |m| &&
                InSubnetNamed(reach, m[j].0.text) != [] &&
                ph.dirs[i].0 == DirName(m[j].1) &&
                (InSubnetNamedWritable(reach, m[j].0.text);
                 ph.dirs[i].1 == MikrotikDir(m[j].1, InSubnetNamed(reach, m[j].0.text), date))
  {
    if m != [] {
      var n := |m| - 1;
      var init := m[..n];
      GenDirsMeaning(init, reach, date);
      var prev := GenDirs(init, reach, date);
      var members := InSubnetNamed(reach, m[n].0.text);
      InSubnetNamedWritable(reach, m[n].0.text);
      assert forall j :: 0 <= j < n ==> init[j] == m[j];
      if !prev.crashed && members != [] && !HasKey(prev.dirs, DirName(m[n].1)) {
        MikrotikDirRunnable(m[n].1, members, date);
        AppendDir(prev.dirs, DirName(m[n].1), MikrotikDir(m[n].1, members, date));
      }
    }
  }

  /** Appending a directory under a new name keeps the names distinct and the earlier
      entries in place. */
  lemma AppendDir(dirs: Dict<string, GeneratedDir>, name: string, d: GeneratedDir)
    requires UniqueKeys(dirs) && !HasKey(dirs, name)
    ensures UniqueKeys(dirs + [(name, d)])
    ensures forall i :: 0 <= i < |dirs| ==> (dirs + [(name, d)])[i] == dirs[i]
  {
  }

  /** When some device is reachable, the loop raises or creates at least one directory:
      the clean-up of lines 262-264 is never reached with nothing created. */
  lemma {:induction false} GenDirsNotEmpty(m: Dict<Subnet, string>, reach: seq<Record>, date: string, j: nat)
    requires Writable(reach) && j < |m| && InSubnetNamed(reach, m[j].0.text) != []
    ensures GenDirs(m, reach, date).crashed || GenDirs(m, reach, date).dirs != []
  {
    var n := |m| - 1;
    var init := m[..n];
    var prev := GenDirs(init, reach, date);
    if j < n {
      assert init[j] == m[j];
      GenDirsNotEmpty(init, reach, date, j);
    }
  }

  /** Every device that reached `reachable_equipments` lands in a directory. */
  lemma ReachableMakesDirs(eqs: seq<Record>, m: Dict<Subnet, string>, p: Probes, date: string)
    requires Writable(Reach(eqs, m, p)) && Reach(eqs, m, p) != []
    ensures GenDirs(m, Reach(eqs, m, p), date).crashed || GenDirs(m, Reach(eqs, m, p), date).dirs != []
  {
    var reach := Reach(eqs, m, p);
    var r := reach[0];
    ReachMeaning(eqs, m, p, r);
    var j :| 0 <= j < |m| && r.subnet == Some(m[j].0.text) && r.ftpServer == Some(m[j].1);
    InSubnetNamedMeaning(reach, m[j].0.text, r);
    GenDirsNotEmpty(m, reach, date, j);
  }

  lemma ReachWritable(eqs: seq<Record>, m: Dict<Subnet, string>, p: Probes)
    ensures Writable(Reach(eqs, m, p))
  {
    var reach := Reach(eqs, m, p);
    forall k | 0 <= k < |reach|
      ensures reach[k].mac.Some? && reach[k].credentials.Some? && reach[k].ip.Some?
    {
      ReachMeaning(eqs, m, p, reach[k]);
    }
  }

  /** The directory loop. */
  method GenerateDirs(m: Dict<Subnet, string>, reach: seq<Record>, date: string)
    returns (crashed: bool, dirs: Dict<string, GeneratedDir>)
    requires Writable(reach)
    ensures GenDirs(m, reach, date) == Phase(crashed, dirs)
  {
    dirs := [];
    for j := 0 to |m|
      invariant GenDirs(m[..j], reach, date) == Phase(false, dirs)
    {
      assert m[..j + 1][..j] == m[..j];
      var (subnet, ftp) := m[j];
      InSubnetNamedWritable(reach, subnet.text);
      var members := InSubnetNamed(reach, subnet.text);
      if members != [] {
        var name := DirName(ftp);
        if HasKey(dirs, name) {
          GenDirsStops(m, j + 1, reach, date);
          return true, dirs;
        }
        dirs := dirs + [(name, MikrotikDir(ftp, members, date))];
      }
    }
    assert m[..|m|] == m;
    crashed := false;
  }

  /** Once the directory loop has raised, later subnets change nothing. */
  lemma {:induction false} GenDirsStops(m: Dict<Subnet, string>, n: nat, reach: seq<Record>, date: string)
    requires Writable(reach) && n <= |m| && GenDirs(m[..n], reach, date).crashed
    ensures GenDirs(m, reach, date) == GenDirs(m[..n], reach, date)
  {
    if n < |m| {
      var init := m[..|m| - 1];
      assert init[..n] == m[..n];
      GenDirsStops(init, n, reach, date);
    } else {
      assert m[..n] == m;
    }
  }

  // ---------------------------------------------------------------- the run

  /** The whole script. Without a subnet the host has an address in, or with an unreadable
      `mikrotik_save.json`, it raises before writing anything; a device it raises on in the
      validation loop leaves both files as they were. Otherwise the registry is rewritten
      with the new flags before anything else; `backup_mikrotik` is left untouched when no
      device reached a subnet, and recreated with one directory per subnet otherwise. */
  function MikrotikRun(networks: Stored<seq<Subnet>>, addrs: seq<HostAddr>, registry: Stored<seq<Record>>,
                       prior: Option<Dict<string, GeneratedDir>>, p: Probes, date: string): Outcome {
    if !networks.Parsed? || FtpMap(networks.value, addrs) == [] || !registry.Parsed? then Outcome(true, registry, prior)
    else
      var m := FtpMap(networks.value, addrs);
      var eqs := registry.value;
      if exists k :: 0 <= k < |eqs| && Raises(eqs[k]) then Outcome(true, registry, prior)
      else AfterLoop(eqs, m, prior, p, date)
  }

  /** The rest of the script once every record has passed the loop: the registry is
      rewritten, then the directories are generated when some device is reachable. */
  function AfterLoop(eqs: seq<Record>, m: Dict<Subnet, string>, prior: Option<Dict<string, GeneratedDir>>,
                     p: Probes, date: string): Outcome {
    var saved := Parsed(AppliedAll(eqs, m, p));
    var reach := Reach(eqs, m, p);
    if reach == [] then Outcome(false, saved, prior)
    else
      ReachWritable(eqs, m, p);
      var ph := GenDirs(m, reach, date);
      Outcome(ph.crashed, saved, if ph.dirs == [] then None else Some(ph.dirs))
  }

  /** Once the inputs are readable and every record has credentials and a MAC, the
      registry holds every device's new flags; `backup_mikrotik` is left as it was exactly
      when no validated device lies in a subnet of the FTP map, and otherwise exists and
      holds only runnable directories, each named after a subnet's FTP address. */
  lemma MikrotikRunMeaning(networks: Stored<seq<Subnet>>, addrs: seq<HostAddr>, registry: Stored<seq<Record>>,
                           prior: Option<Dict<string, GeneratedDir>>, p: Probes, date: string)
    requires networks.Parsed? && FtpMap(networks.value, addrs) != [] && registry.Parsed?
    requires forall k :: 0 <= k < |registry.value| ==> !Raises(registry.value[k])
    ensures var o := MikrotikRun(networks, addrs, registry, prior, p, date);
            var eqs := registry.value;
            var m := FtpMap(networks.value, addrs);
            o.registry == Parsed(AppliedAll(eqs, m, p)) &&
            ((forall k :: 0 <= k < |eqs| ==> !Joins(eqs[k], m, p)) ==> !o.crashed && o.backupDir == prior) &&
            ((exists k :: 0 <= k < |eqs| && Joins(eqs[k], m, p)) ==>
               o.backupDir.Some? &&
               forall i :: 0 <= i < |o.backupDir.value| ==>
                 Runnable("backup_mikrotik", AsEntry(o.backupDir.value[i].1)) &&
                 exists j :: 0 <= j < |m| && o.backupDir.value[i].0 == DirName(m[j].1))
  {
    AfterLoopMeaning(registry.value, FtpMap(networks.value, addrs), prior, p, date);
  }

  lemma AfterLoopMeaning(eqs: seq<Record>, m: Dict<Subnet, string>, prior: Option<Dict<string, GeneratedDir>>,
                         p: Probes, date: string)
    ensures var o := AfterLoop(eqs, m, prior, p, date);
            o.registry == Parsed(AppliedAll(eqs, m, p)) &&
            ((forall k :: 0 <= k < |eqs| ==> !Joins(eqs[k], m, p)) ==> !o.crashed && o.backupDir == prior) &&
            ((exists k :: 0 <= k < |eqs| && Joins(eqs[k], m, p)) ==>
               o.backupDir.Some? &&
               forall i :: 0 <= i < |o.backupDir.value| ==>
                 Runnable("backup_mikrotik", AsEntry(o.backupDir.value[i].1)) &&
                 exists j :: 0 <= j < |m| && o.backupDir.value[i].0 == DirName(m[j].1))
  {
    ReachEmpty(eqs, m, p);
    if Reach(eqs, m, p) != [] {
      ReachWritable(eqs, m, p);
      GeneratedDirs(eqs, m, p, date);
    }
  }

  /** `reachable_equipments` stays empty exactly when no device joins it. */
  lemma ReachEmpty(eqs: seq<Record>, m: Dict<Subnet, string>, p: Probes)
    ensures Reach(eqs, m, p) == [] <==> forall k :: 0 <= k < |eqs| ==> !Joins(eqs[k], m, p)
  {
    var reach := Reach(eqs, m, p);
    if exists k :: 0 <= k < |eqs| && Joins(eqs[k], m, p) {
      var k :| 0 <= k < |eqs| && Joins(eqs[k], m, p);
      ReachMeaning(eqs, m, p, Applied(eqs[k], m, p));
    } else if reach != [] {
      ReachMeaning(eqs, m, p, reach[0]);
    }
  }

  /** When some device is reachable, at least one directory is created, and every one is
      runnable and named after a subnet's FTP address. */
  lemma GeneratedDirs(eqs: seq<Record>, m: Dict<Subnet, string>, p: Probes, date: string)
    requires Reach(eqs, m, p) != [] && Writable(Reach(eqs, m, p))
    ensures var ph := GenDirs(m, Reach(eqs, m, p), date);
            ph.dirs != [] &&
            forall i :: 0 <= i < |ph.dirs| ==>
              Runnable("backup_mikrotik", AsEntry(ph.dirs[i].1)) && exists j :: 0 <= j < |m| && ph.dirs[i].0 == DirName(m[j].1)
  {
    var reach := Reach(eqs, m, p);
    ReachableMakesDirs(eqs, m, p, date);
    GenDirsCrashHasDirs(m, reach, date);
    GenDirsMeaning(m, reach, date);
  }

  /** The directory loop only raises on a name it has already created. */
  lemma {:induction false} GenDirsCrashHasDirs(m: Dict<Subnet, string>, reach: seq<Record>, date: string)
    requires Writable(reach)
    ensures GenDirs(m, reach, date).crashed ==> GenDirs(m, reach, date).dirs != []
  {
    if m != [] {
      GenDirsCrashHasDirs(m[..|m| - 1], reach, date);
    }
  }

  /** The script as written. */
  method RunMikrotik(networks: Stored<seq<Subnet>>, addrs: seq<HostAddr>, registry: Stored<seq<Record>>,
                     prior: Option<Dict<string, GeneratedDir>>, p: Probes, date: string) returns (o: Outcome)
    ensures o == MikrotikRun(networks, addrs, registry, prior, p, date)
  {
    if !networks.Parsed? {
      return Outcome(true, registry, prior);
    }
    var m := BuildFtpMap(networks.value, addrs);
    if m == [] || !registry.Parsed? {
      return Outcome(true, registry, prior);
    }
    var eqs := registry.value;
    var crashed, out, reachable, hasValid := ValidateAll(eqs, m, p);
    if crashed {
      return Outcome(true, registry, prior);
    }
    var saved := Parsed(out);
    if !hasValid {
      return Outcome(false, saved, prior);
    }
    ReachWritable(eqs, m, p);
    var dirs;
    crashed, dirs := GenerateDirs(m, reachable, date);
    o := Outcome(crashed, saved, if dirs == [] then None else Some(dirs));
  }
}
