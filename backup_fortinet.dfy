/** `scr_backup_fortinet.py`: the FortiGate backup generator. It checks every device of
    `fortinet_save.json` (ping, ARP MAC, SSH), records its flags, files every validated
    device under the FTP address of the first subnet that contains it, and writes one
    working directory per FTP address that received a device. */
module BackupFortinet {
  import opened Common
  import opened Text
  import opened Dict
  import opened Registry
  import opened Ipv4
  import opened Workspace
  import opened Probes

  // ---------------------------------------------------------------- one device

  /** A device that passes the three checks: it joins `reachable_equipments` whether or not
      a subnet of the FTP map contains it. */
  predicate Joins(rec: Record, p: Probes) {
    !Raises(rec) && Validated(rec, p)
  }

  /** The FTP address whose list `ftp_equipments[ftp_server]` a device is appended to: that
      of the first subnet of the map that contains it (lines 138-148). */
  function Landing(rec: Record, m: Dict<Subnet, string>, p: Probes): (r: Option<string>)
    ensures r.Some? ==> Joins(rec, p) && exists j :: 0 <= j < |m| && m[j].1 == r.value
  {
    if Joins(rec, p) then FirstFtpServer(p.aton(rec.ip.value), m) else None
  }

  /** The record after the validation loop has seen it (lines 130-156). */
  function Applied(rec: Record, m: Dict<Subnet, string>, p: Probes): Record {
    if Raises(rec) then rec
    else if !Validated(rec, p) then rec.(sauvegarde := Some(false))
    else
      var i := ServerIndex(p.aton(rec.ip.value), m);
      var r := rec.(status := true, sauvegarde := Some(true));
      if i < |m| then r.(subnet := Some(m[i].0.text), ftpServer := Some(m[i].1)) else r
  }

  /** Every record after the validation loop, in file order. */
  function AppliedAll(eqs: seq<Record>, m: Dict<Subnet, string>, p: Probes): (r: seq<Record>)
    ensures |r| == |eqs| && forall k :: 0 <= k < |eqs| ==> r[k] == Applied(eqs[k], m, p)
  {
    seq(|eqs|, k requires 0 <= k < |eqs| => Applied(eqs[k], m, p))
  }

  /** A failing device only gets `sauvegarde = False`. A validated one gets both flags; it
      takes the subnet and the FTP address of the first subnet that contains it when there
      is one, and keeps its old subnet and FTP address otherwise. */
  lemma AppliedFlags(rec: Record, m: Dict<Subnet, string>, p: Probes)
    requires !Raises(rec)
    ensures var r := Applied(rec, m, p);
            (!Validated(rec, p) ==> r == rec.(sauvegarde := Some(false))) &&
            (Validated(rec, p) ==>
               r.status && r.sauvegarde == Some(true) &&
               r.(status := rec.status, sauvegarde := rec.sauvegarde, subnet := rec.subnet, ftpServer := rec.ftpServer) == rec &&
               (Landing(rec, m, p).None? ==> r.subnet == rec.subnet && r.ftpServer == rec.ftpServer) &&
               (Landing(rec, m, p).Some? ==>
                  r.ftpServer == Landing(rec, m, p) &&
                  exists j :: 0 <= j < |m| && InSubnet(p.aton(rec.ip.value), m[j].0) &&
                              r.subnet == Some(m[j].0.text) && r.ftpServer == Some(m[j].1) &&
                              forall i :: 0 <= i < j ==> !InSubnet(p.aton(rec.ip.value), m[i].0)))
  {
    if Validated(rec, p) {
      var i := ServerIndex(p.aton(rec.ip.value), m);
      if i < |m| {
        assert Applied(rec, m, p).subnet == Some(m[i].0.text);
      }
    }
  }

  /** What the loop makes of each device: whether it joins `reachable_equipments`, and
      the record afterwards. */
  function Seen(eqs: seq<Record>, m: Dict<Subnet, string>, p: Probes): (r: seq<(bool, Record)>)
    ensures |r| == |eqs| && forall k :: 0 <= k < |eqs| ==> r[k] == (Joins(eqs[k], p), Applied(eqs[k], m, p))
  {
    seq(|eqs|, k requires 0 <= k < |eqs| => (Joins(eqs[k], p), Applied(eqs[k], m, p)))
  }

  /** What the loop makes of each device with respect to the list of FTP address `f`:
      whether it is appended to it, and the record afterwards. */
  function SeenBy(eqs: seq<Record>, m: Dict<Subnet, string>, p: Probes, f: string): (r: seq<(bool, Record)>)
    ensures |r| == |eqs| && forall k :: 0 <= k < |eqs| ==> r[k] == (Landing(eqs[k], m, p) == Some(f), Applied(eqs[k], m, p))
  {
    seq(|eqs|, k requires 0 <= k < |eqs| => (Landing(eqs[k], m, p) == Some(f), Applied(eqs[k], m, p)))
  }

  /** `reachable_equipments`: the validated records, in file order. */
  function Reach(eqs: seq<Record>, m: Dict<Subnet, string>, p: Probes): (r: seq<Record>)
    ensures |r| <= |eqs|
  {
    Picked(Seen(eqs, m, p))
  }

  /** `ftp_equipments[f]`: the records the loop appends to the list of FTP address `f`, in
      file order. */
  function Bucket(eqs: seq<Record>, m: Dict<Subnet, string>, p: Probes, f: string): (r: seq<Record>)
    ensures |r| <= |eqs|
  {
    Picked(SeenBy(eqs, m, p, f))
  }

  lemma ReachStep(eqs: seq<Record>, m: Dict<Subnet, string>, p: Probes, i: nat)
    requires i < |eqs|
    ensures Reach(eqs[..i + 1], m, p) ==
              Reach(eqs[..i], m, p) + (if Joins(eqs[i], p) then [Applied(eqs[i], m, p)] else [])
  {
    assert Seen(eqs[..i + 1], m, p)[..i] == Seen(eqs[..i], m, p);
  }

  lemma BucketStep(eqs: seq<Record>, m: Dict<Subnet, string>, p: Probes, i: nat, f: string)
    requires i < |eqs|
    ensures Bucket(eqs[..i + 1], m, p, f) ==
              Bucket(eqs[..i], m, p, f) + (if Landing(eqs[i], m, p) == Some(f) then [Applied(eqs[i], m, p)] else [])
  {
    assert SeenBy(eqs[..i + 1], m, p, f)[..i] == SeenBy(eqs[..i], m, p, f);
  }

  /** A record of `reachable_equipments` is what the loop made of a validated device. */
  lemma ReachMembership(eqs: seq<Record>, m: Dict<Subnet, string>, p: Probes, r: Record)
    ensures r in Reach(eqs, m, p) <==> exists k :: 0 <= k < |eqs| && Joins(eqs[k], p) && r == Applied(eqs[k], m, p)
  {
    var seen := Seen(eqs, m, p);
    PickedMembership(seen, r);
    if r in Reach(eqs, m, p) {
      var k :| 0 <= k < |seen| && seen[k] == (true, r);
      assert Joins(eqs[k], p) && r == Applied(eqs[k], m, p);
    }
    if exists k :: 0 <= k < |eqs| && Joins(eqs[k], p) && r == Applied(eqs[k], m, p) {
      var k :| 0 <= k < |eqs| && Joins(eqs[k], p) && r == Applied(eqs[k], m, p);
      assert seen[k] == (true, r);
    }
  }

  /** A record of the list of `f` is what the loop made of a validated device whose first
      matching subnet is served by `f`; it carries `f` as its FTP address. */
  lemma BucketMembership(eqs: seq<Record>, m: Dict<Subnet, string>, p: Probes, f: string, r: Record)
    ensures r in Bucket(eqs, m, p, f) <==>
              exists k :: 0 <= k < |eqs| && Landing(eqs[k], m, p) == Some(f) && r == Applied(eqs[k], m, p)
    ensures r in Bucket(eqs, m, p, f) ==>
              r.status && r.sauvegarde == Some(true) && r.ftpServer == Some(f) && r in Reach(eqs, m, p)
  {
    var seen := SeenBy(eqs, m, p, f);
    PickedMembership(seen, r);
    if r in Bucket(eqs, m, p, f) {
      var k :| 0 <= k < |seen| && seen[k] == (true, r);
      assert Landing(eqs[k], m, p) == Some(f) && r == Applied(eqs[k], m, p);
      AppliedFlags(eqs[k], m, p);
      ReachMembership(eqs, m, p, r);
    }
    if exists k :: 0 <= k < |eqs| && Landing(eqs[k], m, p) == Some(f) && r == Applied(eqs[k], m, p) {
      var k :| 0 <= k < |eqs| && Landing(eqs[k], m, p) == Some(f) && r == Applied(eqs[k], m, p);
      assert seen[k] == (true, r);
    }
  }

  /** What a device in the list of `f` looks like afterwards: validated, flagged, with an
      address and `f` as its FTP address. */
  lemma LandedShape(rec: Record, m: Dict<Subnet, string>, p: Probes, f: string)
    requires Landing(rec, m, p) == Some(f)
    ensures var r := Applied(rec, m, p);
            r.status && r.sauvegarde == Some(true) && r.ftpServer == Some(f) &&
            r.mac.Some? && r.credentials.Some? && r.ip.Some?
  {
    AppliedFlags(rec, m, p);
  }

  // ---------------------------------------------------------------- the lists per FTP address

  /** `{ftp_ip: [] for ftp_ip in subnets_ftp_mapping.values()}`: one empty list per FTP
      address, in the order the addresses first appear in the map. */
  function Servers(m: Dict<Subnet, string>): (r: Dict<string, seq<Record>>)
    ensures UniqueKeys(r)
    ensures forall i :: 0 <= i < |r| ==> r[i].1 == []
  {
    if m == [] then []
    else
      var n := |m| - 1;
      var prev := Servers(m[..n]);
      PutKeepsUnique(prev, m[n].1, []);
      Put(prev, m[n].1, [])
  }

  /** There is a list for an address exactly when some subnet of the map is served by it. */
  lemma {:induction false} ServersKeys(m: Dict<Subnet, string>, f: string)
    ensures HasKey(Servers(m), f) <==> exists j :: 0 <= j < |m| && m[j].1 == f
  {
    if m != [] {
      var n := |m| - 1;
      ServersKeys(m[..n], f);
      ServersSnoc(m, f);
      if exists j :: 0 <= j < n && m[..n][j].1 == f {
        var j :| 0 <= j < n && m[..n][j].1 == f;
        assert m[j].1 == f;
      }
      if exists j :: 0 <= j < |m| && m[j].1 == f {
        var j :| 0 <= j < |m| && m[j].1 == f;
        if j < n { assert m[..n][j].1 == f; }
      }
    }
  }

  /** The keys after one more subnet: the earlier ones and that subnet's address. */
  lemma ServersSnoc(m: Dict<Subnet, string>, f: string)
    requires m != []
    ensures HasKey(Servers(m), f) <==> HasKey(Servers(m[..|m| - 1]), f) || m[|m| - 1].1 == f
  {
    var prev := Servers(m[..|m| - 1]);
    var k := m[|m| - 1].1;
    var r := Servers(m);
    assert r == Put(prev, k, []);
    if HasKey(prev, k) {
      assert forall i :: 0 <= i < |r| ==> r[i].0 == prev[i].0;
      if HasKey(r, f) {
        var i :| 0 <= i < |r| && r[i].0 == f;
        assert prev[i].0 == f;
      }
      if HasKey(prev, f) {
        var i :| 0 <= i < |prev| && prev[i].0 == f;
        assert r[i].0 == f;
      }
    } else {
      assert r == prev + [(k, [])];
      if HasKey(r, f) {
        var i :| 0 <= i < |r| && r[i].0 == f;
        if i < |prev| { assert prev[i].0 == f; }
      }
      if HasKey(prev, f) {
        var i :| 0 <= i < |prev| && prev[i].0 == f;
        assert r[i].0 == f;
      }
      assert r[|prev|].0 == k;
    }
  }

  /** `ftp_equipments` once the loop has seen `eqs`: every FTP address of the map, in the
      order of `Servers`, with its list. */
  function Grouped(eqs: seq<Record>, m: Dict<Subnet, string>, p: Probes): (r: Dict<string, seq<Record>>)
    ensures |r| == |Servers(m)| && forall j :: 0 <= j < |r| ==> r[j] == (Servers(m)[j].0, Bucket(eqs, m, p, Servers(m)[j].0))
  {
    var s := Servers(m);
    seq(|s|, j requires 0 <= j < |s| => (s[j].0, Bucket(eqs, m, p, s[j].0)))
  }

  /** Before the loop every list is empty. */
  lemma GroupedEmpty(m: Dict<Subnet, string>, p: Probes)
    ensures Grouped([], m, p) == Servers(m)
  {
    var g := Grouped([], m, p);
    forall j | 0 <= j < |g|
      ensures g[j] == Servers(m)[j]
    {
      assert |Bucket([], m, p, Servers(m)[j].0)| == 0;
    }
  }

  /** The lists keep distinct addresses as the loop goes. */
  lemma GroupedUnique(eqs: seq<Record>, m: Dict<Subnet, string>, p: Probes)
    ensures UniqueKeys(Grouped(eqs, m, p))
  {
    var g := Grouped(eqs, m, p);
    assert forall j :: 0 <= j < |g| ==> g[j].0 == Servers(m)[j].0;
  }

  /** The position of the list of an address the map serves. */
  lemma ServerPosition(eqs: seq<Record>, m: Dict<Subnet, string>, p: Probes, f: string, j0: nat)
    requires j0 < |m| && m[j0].1 == f
    ensures exists jj :: 0 <= jj < |Grouped(eqs, m, p)| && Grouped(eqs, m, p)[jj].0 == f
  {
    ServersKeys(m, f);
    var s := Servers(m);
    var jj :| 0 <= jj < |s| && s[jj].0 == f;
    assert Grouped(eqs, m, p)[jj].0 == f;
  }

  /** Every list grows by at most the device the loop visits, and only the list of the
      address it lands on. */
  lemma GroupedGrows(eqs: seq<Record>, m: Dict<Subnet, string>, p: Probes, i: nat)
    requires i < |eqs|
    ensures var g := Grouped(eqs[..i], m, p);
            var g' := Grouped(eqs[..i + 1], m, p);
            |g'| == |g| &&
            forall j :: 0 <= j < |g| ==>
              g'[j] == (g[j].0, g[j].1 + (if Landing(eqs[i], m, p) == Some(g[j].0) then [Applied(eqs[i], m, p)] else []))
  {
    var s := Servers(m);
    forall j | 0 <= j < |s|
    {
      BucketStep(eqs, m, p, i, s[j].0);
    }
  }

  /** A device that lands nowhere leaves every list as it was. */
  lemma GroupedStepNone(eqs: seq<Record>, m: Dict<Subnet, string>, p: Probes, i: nat)
    requires i < |eqs| && Landing(eqs[i], m, p).None?
    ensures Grouped(eqs[..i + 1], m, p) == Grouped(eqs[..i], m, p)
  {
    GroupedGrows(eqs, m, p, i);
    var g := Grouped(eqs[..i], m, p);
    forall j | 0 <= j < |g|
      ensures Grouped(eqs[..i + 1], m, p)[j] == g[j]
    {
      assert g[j].1 + [] == g[j].1;
    }
  }

  /** `ftp_equipments[f].append(eq)` for the device the loop visits, when it lands on `f`. */
  lemma GroupedStepSome(eqs: seq<Record>, m: Dict<Subnet, string>, p: Probes, i: nat, f: string)
    requires i < |eqs| && Landing(eqs[i], m, p) == Some(f)
    ensures var g := Grouped(eqs[..i], m, p);
            Get(g, f) == Some(Bucket(eqs[..i], m, p, f)) &&
            Grouped(eqs[..i + 1], m, p) == Put(g, f, Bucket(eqs[..i], m, p, f) + [Applied(eqs[i], m, p)])
  {
    var j0 :| 0 <= j0 < |m| && m[j0].1 == f;
    ServerPosition(eqs[..i], m, p, f, j0);
    var jj :| 0 <= jj < |Grouped(eqs[..i], m, p)| && Grouped(eqs[..i], m, p)[jj].0 == f;
    GroupedStepAt(eqs, m, p, i, f, jj);
  }

  lemma GroupedStepAt(eqs: seq<Record>, m: Dict<Subnet, string>, p: Probes, i: nat, f: string, jj: nat)
    requires i < |eqs| && Landing(eqs[i], m, p) == Some(f)
    requires jj < |Grouped(eqs[..i], m, p)| && Grouped(eqs[..i], m, p)[jj].0 == f
    ensures var g := Grouped(eqs[..i], m, p);
            Get(g, f) == Some(Bucket(eqs[..i], m, p, f)) &&
            Grouped(eqs[..i + 1], m, p) == Put(g, f, Bucket(eqs[..i], m, p, f) + [Applied(eqs[i], m, p)])
  {
    GroupedUnique(eqs[..i], m, p);
    GroupedGrows(eqs, m, p, i);
    AppendAt(Grouped(eqs[..i], m, p), Grouped(eqs[..i + 1], m, p), f, Applied(eqs[i], m, p), jj);
  }

  /** Appending `x` to the list of `f` and to no other is `d[f] = d[f] + [x]`. */
  lemma AppendAt(g: Dict<string, seq<Record>>, g': Dict<string, seq<Record>>, f: string, x: Record, jj: nat)
    requires UniqueKeys(g) && jj < |g| && g[jj].0 == f && |g'| == |g|
    requires forall j :: 0 <= j < |g| ==> g'[j] == (g[j].0, g[j].1 + (if g[j].0 == f then [x] else []))
    ensures Get(g, f) == Some(g[jj].1) && g' == Put(g, f, g[jj].1 + [x])
  {
    FirstKeyGet(g, f, jj);
    var v := g[jj].1 + [x];
    PutAt(g, f, v, jj);
    forall j | 0 <= j < |g|
      ensures g'[j] == g[jj := (f, v)][j]
    {
      if j != jj {
        assert g[j].1 + [] == g[j].1;
      }
    }
  }

  /** `d[k] = v` on a dict that holds `k` at position `jj`. */
  lemma PutAt(d: Dict<string, seq<Record>>, k: string, v: seq<Record>, jj: nat)
    requires UniqueKeys(d) && jj < |d| && d[jj].0 == k
    ensures Put(d, k, v) == d[jj := (k, v)]
  {
  }

  // ---------------------------------------------------------------- the validation loop

  /** One pass of the validation loop body over a record that has credentials and a MAC:
      the three checks, then the search for the first subnet that contains the address. */
  method Visit(eq: Record, m: Dict<Subnet, string>, p: Probes) returns (updated: Record, joins: bool, landing: Option<string>)
    requires !Raises(eq)
    ensures updated == Applied(eq, m, p) && joins == Joins(eq, p) && landing == Landing(eq, m, p)
  {
    updated, joins, landing := eq, false, None;
    var ip := eq.ip;
    var expected := Lower(eq.mac.value);
    if ip.Some? && p.ping(ip.value) {
      var arpMac := LinuxArpMac(p, ip.value);
      if arpMac.Some? && arpMac.value == expected {
        if p.ssh(ip.value, eq.credentials.value.username, eq.credentials.value.password) {
          updated := updated.(status := true, sauvegarde := Some(true));
          var j := FirstSubnet(p.aton(ip.value), m);
          if j < |m| {
            updated := updated.(subnet := Some(m[j].0.text), ftpServer := Some(m[j].1));
            landing := Some(m[j].1);
          }
          joins := true;
        } else {
          updated := updated.(sauvegarde := Some(false));
        }
      } else {
        updated := updated.(sauvegarde := Some(false));
      }
    } else {
      updated := updated.(sauvegarde := Some(false));
    }
  }

  /** The search for the first subnet of the map that contains the address. */
  method FirstSubnet(addr: bv32, m: Dict<Subnet, string>) returns (j: nat)
    ensures j == ServerIndex(addr, m)
  {
    j := 0;
    while j < |m| && !InSubnet(addr, m[j].0)
      invariant j <= |m| && forall i :: 0 <= i < j ==> !InSubnet(addr, m[i].0)
    {
      j := j + 1;
    }
  }

  /** The validation loop (lines 122-156). It stops at the first device it raises on. */
  method ValidateAll(eqs: seq<Record>, m: Dict<Subnet, string>, p: Probes)
    returns (crashed: bool, out: seq<Record>, reachable: seq<Record>, buckets: Dict<string, seq<Record>>)
    ensures crashed <==> exists k :: 0 <= k < |eqs| && Raises(eqs[k])
    ensures !crashed ==> out == AppliedAll(eqs, m, p) && reachable == Reach(eqs, m, p) && buckets == Grouped(eqs, m, p)
  {
    out, reachable := [], [];
    buckets := Servers(m);
    GroupedEmpty(m, p);
    assert eqs[..0] == [];
    for i := 0 to |eqs|
      invariant |out| == i && forall k :: 0 <= k < i ==> out[k] == Applied(eqs[k], m, p)
      invariant forall k :: 0 <= k < i ==> !Raises(eqs[k])
      invariant reachable == Reach(eqs[..i], m, p) && buckets == Grouped(eqs[..i], m, p)
    {
      ReachStep(eqs, m, p, i);
      var eq := eqs[i];
      if eq.credentials.None? || eq.mac.None? {
        return true, out, reachable, buckets;
      }
      var updated, joins, landing := Visit(eq, m, p);
      if landing.None? {
        GroupedStepNone(eqs, m, p, i);
      } else {
        GroupedStepSome(eqs, m, p, i, landing.value);
        var list := Get(buckets, landing.value).value;
        buckets := Put(buckets, landing.value, list + [updated]);
      }
      if joins {
        reachable := reachable + [updated];
      }
      out := out + [updated];
    }
    assert eqs[..|eqs|] == eqs;
    crashed := false;
  }

  // ---------------------------------------------------------------- directories

  /** `f"backup_fortinet_{ftp_server_ip}"`. */
  function DirName(ftp: string): string {
    "backup_fortinet_" + ftp
  }

  const SshConnection: string := " ansible_connection=ssh\n"

  /** The host line of a device (lines 190-195): its recorded MAC with '-' for ':', and an
      SSH connection rather than `network_cli`. */
  function HostLine(rec: Record): string
    requires rec.mac.Some? && rec.credentials.Some? && rec.ip.Some?
  {
    DashMac(rec.mac.value) + HostKey + rec.ip.value + UserKey + rec.credentials.value.username
      + PassKey + rec.credentials.value.password + SshConnection
  }

  /** The host lines of the devices of a directory, in order. */
  function HostLines(recs: seq<Record>): (r: seq<string>)
    requires Writable(recs)
    ensures |r| == |recs| && forall k :: 0 <= k < |recs| ==> r[k] == HostLine(recs[k])
  {
    seq(|recs|, k requires 0 <= k < |recs| => HostLine(recs[k]))
  }

  /** A host line names its device by its MAC in dash form and ends with the SSH connection. */
  lemma HostLineShape(rec: Record)
    requires rec.mac.Some? && rec.credentials.Some? && rec.ip.Some?
    ensures StartsWith(HostLine(rec), DashMac(rec.mac.value) + HostKey + rec.ip.value)
    ensures EndsWith(HostLine(rec), SshConnection)
  {
    var head := DashMac(rec.mac.value) + HostKey + rec.ip.value;
    var line := HostLine(rec);
    assert line[..|head|] == head;
    var front := head + UserKey + rec.credentials.value.username + PassKey + rec.credentials.value.password;
    assert line == front + SshConnection;
    assert line[|line| - |SshConnection|..] == SshConnection;
  }

  /** The directory of one FTP address (lines 181-225): the inventory with its single
      `[fortinet]` section, then `ansible.cfg` and the playbook as templates with the date
      and the FTP address substituted into them. */
  function FortinetDir(ftp: string, recs: seq<Record>, date: string): GeneratedDir
    requires Writable(recs)
  {
    GeneratedDir(DirName(ftp),
      [("inventory.ini", Literal(GeneratedOn + date + "\n[fortinet]\n" + Concat(HostLines(recs)))),
       ("ansible.cfg", Rendered("backup_fortinet_cfg", [date])),
       (PlaybookName("backup_fortinet"), Rendered("backup_fortinet_ftp", [date, ftp]))])
  }

  /** The generated playbook is `backup_fortinet_ftp.yml`, the name the scheduler looks for,
      so every directory is run by it. */
  lemma FortinetDirRunnable(ftp: string, recs: seq<Record>, date: string)
    requires Writable(recs)
    ensures Runnable("backup_fortinet", AsEntry(FortinetDir(ftp, recs, date)))
    ensures PlaybookName("backup_fortinet") == "backup_fortinet_ftp.yml"
  {
    var d := FortinetDir(ftp, recs, date);
    assert d.files[0].0 == "inventory.ini" && d.files[2].0 == PlaybookName("backup_fortinet");
  }

  /** Every list can be written into an inventory. */
  predicate ListsWritable(g: Dict<string, seq<Record>>) {
    forall j :: 0 <= j < |g| ==> Writable(g[j].1)
  }

  lemma GroupedWritable(eqs: seq<Record>, m: Dict<Subnet, string>, p: Probes)
    ensures ListsWritable(Grouped(eqs, m, p))
  {
    var g := Grouped(eqs, m, p);
    forall j, k | 0 <= j < |g| && 0 <= k < |g[j].1|
      ensures g[j].1[k].mac.Some? && g[j].1[k].credentials.Some? && g[j].1[k].ip.Some?
    {
      var f := g[j].0;
      BucketMembership(eqs, m, p, f, g[j].1[k]);
      var i :| 0 <= i < |eqs| && Landing(eqs[i], m, p) == Some(f) && g[j].1[k] == Applied(eqs[i], m, p);
      LandedShape(eqs[i], m, p, f);
    }
  }

  /** The directory loop (lines 177-225): one directory per non-empty list, in key order.
      `os.makedirs` never meets an existing directory, since the addresses are distinct
      (`GenDirsUnique`). */
  function GenDirs(g: Dict<string, seq<Record>>, date: string): Dict<string, GeneratedDir>
    requires ListsWritable(g)
  {
    if g == [] then []
    else
      var n := |g| - 1;
      var prev := GenDirs(g[..n], date);
      if g[n].1 == [] then prev else prev + [(DirName(g[n].0), FortinetDir(g[n].0, g[n].1, date))]
  }

  /** `e` is the directory of a non-empty list of `g`. */
  predicate DirOf(g: Dict<string, seq<Record>>, date: string, e: (string, GeneratedDir))
    requires ListsWritable(g)
  {
    exists j :: 0 <= j < |g| && g[j].1 != [] && e == (DirName(g[j].0), FortinetDir(g[j].0, g[j].1, date))
  }

  lemma DirOfPrefix(g: Dict<string, seq<Record>>, n: nat, date: string, e: (string, GeneratedDir))
    requires ListsWritable(g) && n <= |g| && ListsWritable(g[..n]) && DirOf(g[..n], date, e)
    ensures DirOf(g, date, e)
  {
    var j :| 0 <= j < n && g[..n][j].1 != [] && e == (DirName(g[..n][j].0), FortinetDir(g[..n][j].0, g[..n][j].1, date));
    assert g[..n][j] == g[j];
  }

  /** Every entry of `dirs` is the directory of a non-empty list of `g`. */
  predicate AllDirOf(g: Dict<string, seq<Record>>, date: string, dirs: Dict<string, GeneratedDir>)
    requires ListsWritable(g)
  {
    forall i :: 0 <= i < |dirs| ==> DirOf(g, date, dirs[i])
  }

  /** Every directory created is that of a non-empty list. */
  lemma {:induction false} GenDirsFrom(g: Dict<string, seq<Record>>, date: string)
    requires ListsWritable(g)
    ensures AllDirOf(g, date, GenDirs(g, date))
  {
    if g != [] {
      var n := |g| - 1;
      GenDirsFrom(g[..n], date);
      var prev := GenDirs(g[..n], date);
      var r := GenDirs(g, date);
      forall i | 0 <= i < |r|
        ensures DirOf(g, date, r[i])
      {
        if i < |prev| {
          assert r[i] == prev[i];
          DirOfPrefix(g, n, date, prev[i]);
        } else {
          assert r[i] == (DirName(g[n].0), FortinetDir(g[n].0, g[n].1, date));
        }
      }
    }
  }

  /** No two directories share a name, so `os.makedirs` never meets an existing one. */
  lemma {:induction false} GenDirsUnique(g: Dict<string, seq<Record>>, date: string)
    requires ListsWritable(g) && UniqueKeys(g)
    ensures UniqueKeys(GenDirs(g, date))
  {
    if g != [] {
      var n := |g| - 1;
      GenDirsUnique(g[..n], date);
      GenDirsFrom(g[..n], date);
      if g[n].1 != [] {
        NewDirName(g, date);
        AppendDir(GenDirs(g[..n], date), DirName(g[n].0), FortinetDir(g[n].0, g[n].1, date));
      }
    }
  }

  /** Every non-empty list has its directory. */
  lemma {:induction false} GenDirsComplete(g: Dict<string, seq<Record>>, date: string, j: nat)
    requires ListsWritable(g) && j < |g| && g[j].1 != []
    ensures (DirName(g[j].0), FortinetDir(g[j].0, g[j].1, date)) in GenDirs(g, date)
  {
    var n := |g| - 1;
    if j < n {
      assert g[..n][j] == g[j];
      GenDirsComplete(g[..n], date, j);
    }
  }

  /** Every directory created is runnable by the scheduler. */
  lemma GenDirsRunnable(g: Dict<string, seq<Record>>, date: string)
    requires ListsWritable(g)
    ensures forall i :: 0 <= i < |GenDirs(g, date)| ==> Runnable("backup_fortinet", AsEntry(GenDirs(g, date)[i].1))
  {
    var r := GenDirs(g, date);
    GenDirsFrom(g, date);
    forall i | 0 <= i < |r|
      ensures Runnable("backup_fortinet", AsEntry(r[i].1))
    {
      assert DirOf(g, date, r[i]);
      var j :| 0 <= j < |g| && g[j].1 != [] && r[i] == (DirName(g[j].0), FortinetDir(g[j].0, g[j].1, date));
      FortinetDirRunnable(g[j].0, g[j].1, date);
    }
  }

  /** The last address's directory name is not among those of the earlier lists. */
  lemma NewDirName(g: Dict<string, seq<Record>>, date: string)
    requires ListsWritable(g) && UniqueKeys(g) && g != []
    requires AllDirOf(g[..|g| - 1], date, GenDirs(g[..|g| - 1], date))
    ensures !HasKey(GenDirs(g[..|g| - 1], date), DirName(g[|g| - 1].0))
  {
    var n := |g| - 1;
    var init := g[..n];
    var prev := GenDirs(init, date);
    forall i | 0 <= i < |prev|
      ensures prev[i].0 != DirName(g[n].0)
    {
      var j :| 0 <= j < |init| && init[j].1 != [] && prev[i] == (DirName(init[j].0), FortinetDir(init[j].0, init[j].1, date));
      assert init[j] == g[j];
      DirNameInjective(g[j].0, g[n].0);
    }
  }

  lemma DirNameInjective(a: string, b: string)
    ensures DirName(a) == DirName(b) ==> a == b
  {
    if DirName(a) == DirName(b) {
      assert DirName(a)[16..] == a;
      assert DirName(b)[16..] == b;
    }
  }

  /** Appending a directory under a new name keeps the names distinct and the earlier
      entries in place. */
  lemma AppendDir(dirs: Dict<string, GeneratedDir>, name: string, d: GeneratedDir)
    requires UniqueKeys(dirs) && !HasKey(dirs, name)
    ensures UniqueKeys(dirs + [(name, d)])
    ensures forall i :: 0 <= i < |dirs| ==> (dirs + [(name, d)])[i] == dirs[i]
  {
  }

  /** The directory loop. */
  method GenerateDirs(g: Dict<string, seq<Record>>, date: string) returns (dirs: Dict<string, GeneratedDir>)
    requires ListsWritable(g)
    ensures dirs == GenDirs(g, date)
  {
    dirs := [];
    for j := 0 to |g|
      invariant GenDirs(g[..j], date) == dirs
    {
      assert g[..j + 1][..j] == g[..j];
      var (ftp, list) := g[j];
      if list != [] {
        dirs := dirs + [(DirName(ftp), FortinetDir(ftp, list, date))];
      }
    }
    assert g[..|g|] == g;
  }

  // ---------------------------------------------------------------- the run

  /** The whole script. Without a subnet the host has an address in, or with an unreadable
      `fortinet_save.json`, it raises before writing anything, and so does a device it
      raises on in the validation loop. When no device validated it exits with both files
      as they were. Otherwise it rewrites the registry with the new flags and recreates
      `backup_fortinet` with one directory per FTP address that received a device. */
  function FortinetRun(networks: Stored<seq<Subnet>>, addrs: seq<HostAddr>, registry: Stored<seq<Record>>,
                       prior: Option<Dict<string, GeneratedDir>>, p: Probes, date: string): Outcome {
    if !networks.Parsed? || FtpMap(networks.value, addrs) == [] || !registry.Parsed? then Outcome(true, registry, prior)
    else
      var m := FtpMap(networks.value, addrs);
      var eqs := registry.value;
      if exists k :: 0 <= k < |eqs| && Raises(eqs[k]) then Outcome(true, registry, prior)
      else AfterLoop(eqs, m, prior, p, date)
  }

  /** The rest of the script once every record has passed the loop. */
  function AfterLoop(eqs: seq<Record>, m: Dict<Subnet, string>, prior: Option<Dict<string, GeneratedDir>>,
                     p: Probes, date: string): Outcome {
    if Reach(eqs, m, p) == [] then Outcome(false, Parsed(eqs), prior)
    else
      GroupedWritable(eqs, m, p);
      Outcome(false, Parsed(AppliedAll(eqs, m, p)), Some(GenDirs(Grouped(eqs, m, p), date)))
  }

  /** `reachable_equipments` stays empty exactly when no device validates. */
  lemma ReachEmpty(eqs: seq<Record>, m: Dict<Subnet, string>, p: Probes)
    ensures Reach(eqs, m, p) == [] <==> forall k :: 0 <= k < |eqs| ==> !Joins(eqs[k], p)
  {
    var reach := Reach(eqs, m, p);
    if exists k :: 0 <= k < |eqs| && Joins(eqs[k], p) {
      var k :| 0 <= k < |eqs| && Joins(eqs[k], p);
      ReachMembership(eqs, m, p, Applied(eqs[k], m, p));
    } else if reach != [] {
      ReachMembership(eqs, m, p, reach[0]);
    }
  }

  /** Once the inputs are readable and every record has credentials and a MAC: when no
      device validates, neither the registry nor `backup_fortinet` changes; otherwise the
      registry holds every device's new flags and `backup_fortinet` holds only runnable
      directories under distinct names, each named after an FTP address of the map. */
  lemma FortinetRunMeaning(networks: Stored<seq<Subnet>>, addrs: seq<HostAddr>, registry: Stored<seq<Record>>,
                           prior: Option<Dict<string, GeneratedDir>>, p: Probes, date: string)
    requires networks.Parsed? && FtpMap(networks.value, addrs) != [] && registry.Parsed?
    requires forall k :: 0 <= k < |registry.value| ==> !Raises(registry.value[k])
    ensures var o := FortinetRun(networks, addrs, registry, prior, p, date);
            var eqs := registry.value;
            var m := FtpMap(networks.value, addrs);
            !o.crashed &&
            ((forall k :: 0 <= k < |eqs| ==> !Joins(eqs[k], p)) ==> o.registry == registry && o.backupDir == prior) &&
            ((exists k :: 0 <= k < |eqs| && Joins(eqs[k], p)) ==>
               o.registry == Parsed(AppliedAll(eqs, m, p)) && o.backupDir.Some? && UniqueKeys(o.backupDir.value) &&
               forall i :: 0 <= i < |o.backupDir.value| ==>
                 Runnable("backup_fortinet", AsEntry(o.backupDir.value[i].1)) &&
                 exists j :: 0 <= j < |m| && o.backupDir.value[i].0 == DirName(m[j].1))
  {
    AfterLoopMeaning(registry.value, FtpMap(networks.value, addrs), prior, p, date);
  }

  lemma AfterLoopMeaning(eqs: seq<Record>, m: Dict<Subnet, string>, prior: Option<Dict<string, GeneratedDir>>,
                         p: Probes, date: string)
    ensures var o := AfterLoop(eqs, m, prior, p, date);
            !o.crashed &&
            ((forall k :: 0 <= k < |eqs| ==> !Joins(eqs[k], p)) ==> o.registry == Parsed(eqs) && o.backupDir == prior) &&
            ((exists k :: 0 <= k < |eqs| && Joins(eqs[k], p)) ==>
               o.registry == Parsed(AppliedAll(eqs, m, p)) && o.backupDir.Some? && UniqueKeys(o.backupDir.value) &&
               forall i :: 0 <= i < |o.backupDir.value| ==>
                 Runnable("backup_fortinet", AsEntry(o.backupDir.value[i].1)) &&
                 exists j :: 0 <= j < |m| && o.backupDir.value[i].0 == DirName(m[j].1))
  {
    ReachEmpty(eqs, m, p);
    if Reach(eqs, m, p) != [] {
      GeneratedDirs(eqs, m, p, date);
    }
  }

  /** Every directory is runnable and named after an FTP address of the map, and no two
      share a name. */
  lemma GeneratedDirs(eqs: seq<Record>, m: Dict<Subnet, string>, p: Probes, date: string)
    ensures (GroupedWritable(eqs, m, p);
             var r := GenDirs(Grouped(eqs, m, p), date);
             UniqueKeys(r) &&
             forall i :: 0 <= i < |r| ==>
               Runnable("backup_fortinet", AsEntry(r[i].1)) && exists j :: 0 <= j < |m| && r[i].0 == DirName(m[j].1))
  {
    var g := Grouped(eqs, m, p);
    GroupedWritable(eqs, m, p);
    GroupedUnique(eqs, m, p);
    GenDirsUnique(g, date);
    GenDirsRunnable(g, date);
    DirNamesFromMap(eqs, m, p, date);
  }

  /** Every directory is named after an FTP address of the map. */
  lemma DirNamesFromMap(eqs: seq<Record>, m: Dict<Subnet, string>, p: Probes, date: string)
    ensures (GroupedWritable(eqs, m, p);
             var r := GenDirs(Grouped(eqs, m, p), date);
             forall i :: 0 <= i < |r| ==> exists j :: 0 <= j < |m| && r[i].0 == DirName(m[j].1))
  {
    var g := Grouped(eqs, m, p);
    GroupedWritable(eqs, m, p);
    GenDirsFrom(g, date);
    var r := GenDirs(g, date);
    forall i | 0 <= i < |r|
      ensures exists j :: 0 <= j < |m| && r[i].0 == DirName(m[j].1)
    {
      assert DirOf(g, date, r[i]);
      var j :| 0 <= j < |g| && g[j].1 != [] && r[i] == (DirName(g[j].0), FortinetDir(g[j].0, g[j].1, date));
      assert g[j].0 == Servers(m)[j].0;
      assert HasKey(Servers(m), g[j].0);
      ServersKeys(m, g[j].0);
    }
  }

  /** A validated device whose address lies in a subnet of the map ends up, with its new
      flags, in the inventory of the directory of that subnet's FTP address (the first
      such subnet's), and that directory lists exactly the devices filed under it. */
  lemma DeviceDirectory(eqs: seq<Record>, m: Dict<Subnet, string>, p: Probes, date: string, k: nat)
    requires k < |eqs| && Landing(eqs[k], m, p).Some?
    ensures var f := Landing(eqs[k], m, p).value;
            Applied(eqs[k], m, p) in Bucket(eqs, m, p, f) &&
            (GroupedWritable(eqs, m, p);
             BucketWritable(eqs, m, p, f);
             (DirName(f), FortinetDir(f, Bucket(eqs, m, p, f), date)) in GenDirs(Grouped(eqs, m, p), date))
  {
    var f := Landing(eqs[k], m, p).value;
    BucketMembership(eqs, m, p, f, Applied(eqs[k], m, p));
    var j0 :| 0 <= j0 < |m| && m[j0].1 == f;
    BucketDir(eqs, m, p, date, f, j0);
  }

  /** The list of an FTP address the map serves has its directory once it is not empty. */
  lemma BucketDir(eqs: seq<Record>, m: Dict<Subnet, string>, p: Probes, date: string, f: string, j0: nat)
    requires j0 < |m| && m[j0].1 == f && Bucket(eqs, m, p, f) != []
    ensures (GroupedWritable(eqs, m, p);
             BucketWritable(eqs, m, p, f);
             (DirName(f), FortinetDir(f, Bucket(eqs, m, p, f), date)) in GenDirs(Grouped(eqs, m, p), date))
  {
    var g := Grouped(eqs, m, p);
    GroupedWritable(eqs, m, p);
    ServerPosition(eqs, m, p, f, j0);
    var j :| 0 <= j < |g| && g[j].0 == f;
    GenDirsComplete(g, date, j);
  }

  lemma BucketWritable(eqs: seq<Record>, m: Dict<Subnet, string>, p: Probes, f: string)
    ensures Writable(Bucket(eqs, m, p, f))
  {
    var b := Bucket(eqs, m, p, f);
    forall k | 0 <= k < |b|
      ensures b[k].mac.Some? && b[k].credentials.Some? && b[k].ip.Some?
    {
      BucketMembership(eqs, m, p, f, b[k]);
      var i :| 0 <= i < |eqs| && Landing(eqs[i], m, p) == Some(f) && b[k] == Applied(eqs[i], m, p);
      LandedShape(eqs[i], m, p, f);
    }
  }

  /** The script as written. */
  method RunFortinet(networks: Stored<seq<Subnet>>, addrs: seq<HostAddr>, registry: Stored<seq<Record>>,
                     prior: Option<Dict<string, GeneratedDir>>, p: Probes, date: string) returns (o: Outcome)
    ensures o == FortinetRun(networks, addrs, registry, prior, p, date)
  {
    if !networks.Parsed? {
      return Outcome(true, registry, prior);
    }
    var m := BuildFtpMap(networks.value, addrs);
    if m == [] || !registry.Parsed? {
      return Outcome(true, registry, prior);
    }
    var eqs := registry.value;
    var crashed, out, reachable, buckets := ValidateAll(eqs, m, p);
    if crashed {
      return Outcome(true, registry, prior);
    }
    if reachable == [] {
      return Outcome(false, registry, prior);
    }
    GroupedWritable(eqs, m, p);
    var dirs := GenerateDirs(buckets, date);
    o := Outcome(false, Parsed(out), Some(dirs));
  }
}
