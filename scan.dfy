/** The discovery screen (`scan_network.py`): the `nmap -sn` output parser, the scan of
    several networks, the vendor filter and its de-duplication by address, the
    ✔️/⚠️/❌ classification against a registry, and the `inventory.ini` and registry edits
    made when an equipment is saved or deleted. The `nmap` runs are inputs. */
module Scan {
  import opened Common
  import opened Text
  import opened Dict
  import opened Registry
  import opened Workspace

  // ---------------------------------------------------------------- nmap -sn parsing

  /** A discovered device. Its name, credentials and status are the empty strings every
      new device gets. */
  datatype Device = Device(ip: Option<string>, mac: string, network: string)

  predicate IsReport(line: string) {
    Contains(line, "Nmap scan report for")
  }

  predicate IsMacLine(line: string) {
    Contains(line, "MAC Address")
  }

  predicate IsParen(c: char) {
    c == '(' || c == ')'
  }

  /** `s.strip("()")`. */
  function StripParens(s: string): (r: string)
    ensures r != [] ==> !IsParen(r[0]) && !IsParen(r[|r| - 1])
    decreases |s|
  {
    if s == [] then []
    else if IsParen(s[0]) then StripParens(s[1..])
    else if IsParen(s[|s| - 1]) then StripParens(s[..|s| - 1])
    else s
  }

  /** `line.split()[-1].strip("()")`; a report line always has a token. */
  function ReportIp(line: string): string {
    var parts := Split(line);
    if parts == [] then [] else StripParens(parts[|parts| - 1])
  }

  /** `parts[2] if len(parts) > 2 else 'inconnu'`. */
  function MacOf(line: string): string {
    var parts := Split(line);
    if |parts| > 2 then parts[2] else "inconnu"
  }

  /** The value of the parser's `ip` variable after it has read `lines`. */
  function IpAfter(lines: seq<string>): Option<string> {
    if lines == [] then None
    else if IsReport(lines[|lines| - 1]) then Some(ReportIp(lines[|lines| - 1]))
    else IpAfter(lines[..|lines| - 1])
  }

  /** The positions of the MAC lines, in output order. */
  function MacLines(lines: seq<string>): (r: seq<nat>)
    ensures forall i :: 0 <= i < |r| ==> r[i] < |lines| && IsMacLine(lines[r[i]])
    ensures forall i, j :: 0 <= i < j < |r| ==> r[i] < r[j]
  {
    if lines == [] then []
    else MacLines(lines[..|lines| - 1]) + (if IsMacLine(lines[|lines| - 1]) then [|lines| - 1] else [])
  }

  /** The devices the parser has appended after reading `lines`. */
  function NmapDevices(lines: seq<string>, network: string): (r: seq<Device>)
    ensures forall d :: d in r ==> d.network == network
  {
    if lines == [] then []
    else
      var head := NmapDevices(lines[..|lines| - 1], network);
      if IsMacLine(lines[|lines| - 1]) then head + [Device(IpAfter(lines), MacOf(lines[|lines| - 1]), network)]
      else head
  }

  /** The index of the last report line of `lines`, or -1 when there is none. */
  function LastReport(lines: seq<string>): (r: int)
    ensures -1 <= r < |lines|
    ensures r >= 0 ==> IsReport(lines[r])
    ensures forall k :: r < k < |lines| ==> !IsReport(lines[k])
  {
    if lines == [] then -1
    else if IsReport(lines[|lines| - 1]) then |lines| - 1
    else LastReport(lines[..|lines| - 1])
  }

  /** The address is that of the most recent report line read so far, the current line
      included, and `None` before the first one. */
  lemma {:induction false} IpAfterMeaning(lines: seq<string>)
    ensures IpAfter(lines) == if LastReport(lines) < 0 then None else Some(ReportIp(lines[LastReport(lines)]))
  {
    if lines != [] && !IsReport(lines[|lines| - 1]) {
      var init := lines[..|lines| - 1];
      IpAfterMeaning(init);
      var r := LastReport(init);
      assert LastReport(lines) == r;
      if r >= 0 {
        assert init[r] == lines[r];
      }
    }
  }

  /** The address the parser holds when it reads line `j`: that of the last report line
      up to `j`, `None` before the first one. */
  function IpAt(lines: seq<string>, j: nat): Option<string>
    requires j < |lines|
  {
    if IsReport(lines[j]) then Some(ReportIp(lines[j]))
    else if j == 0 then None
    else IpAt(lines, j - 1)
  }

  lemma {:induction false} IpAtPrefix(lines: seq<string>, n: nat, j: nat)
    requires j < n <= |lines|
    ensures IpAt(lines[..n], j) == IpAt(lines, j)
  {
    assert lines[..n][j] == lines[j];
    if !IsReport(lines[j]) && j > 0 {
      IpAtPrefix(lines, n, j - 1);
    }
  }

  lemma {:induction false} IpAfterAt(lines: seq<string>)
    requires lines != []
    ensures IpAfter(lines) == IpAt(lines, |lines| - 1)
  {
    var n := |lines| - 1;
    if !IsReport(lines[n]) && n > 0 {
      var init := lines[..n];
      IpAfterAt(init);
      IpAtPrefix(lines, n, n - 1);
    }
  }

  /** Each MAC line yields exactly one device, in output order, carrying that line's
      MAC and the address the parser held when it read the line. */
  lemma {:induction false} NmapDevicesMeaning(lines: seq<string>, network: string)
    ensures |NmapDevices(lines, network)| == |MacLines(lines)|
    ensures forall i :: 0 <= i < |MacLines(lines)| ==>
              NmapDevices(lines, network)[i] == Device(IpAt(lines, MacLines(lines)[i]), MacOf(lines[MacLines(lines)[i]]), network)
  {
    if lines != [] {
      var n := |lines| - 1;
      var init := lines[..n];
      NmapDevicesMeaning(init, network);
      var m := MacLines(init);
      var ds := NmapDevices(init, network);
      forall i | 0 <= i < |m|
        ensures IpAt(init, m[i]) == IpAt(lines, m[i]) && init[m[i]] == lines[m[i]]
      {
        IpAtPrefix(lines, n, m[i]);
      }
      if IsMacLine(lines[n]) {
        IpAfterAt(lines);
        assert MacLines(lines) == m + [n];
        assert NmapDevices(lines, network) == ds + [Device(IpAt(lines, n), MacOf(lines[n]), network)];
      } else {
        assert MacLines(lines) == m;
        assert NmapDevices(lines, network) == ds;
      }
    }
  }

  /** The parsing loop of `scan_network`. */
  method ParseNmap(output: string, network: string) returns (devices: seq<Device>)
    ensures devices == NmapDevices(Lines(output), network)
  {
    var lines := Lines(output);
    devices := [];
    var ip: Option<string> := None;
    var i := 0;
    while i < |lines|
      invariant 0 <= i <= |lines|
      invariant ip == IpAfter(lines[..i])
      invariant devices == NmapDevices(lines[..i], network)
    {
      var line := lines[i];
      assert lines[..i + 1][..i] == lines[..i];
      if IsReport(line) {
        ip := Some(ReportIp(line));
      }
      if IsMacLine(line) {
        devices := devices + [Device(ip, MacOf(line), network)];
      }
      i := i + 1;
    }
    assert lines[..i] == lines;
  }

  /** What `scan_network` returns for one network; `None` is a failed `nmap` run. */
  function ScanResult(network: string, output: Option<string>): seq<Device> {
    if output.None? then [] else NmapDevices(Lines(output.value), network)
  }

  /** `scan_multiple_networks` as a value: the per-network results in input order. */
  function ScanAll(networks: seq<string>, nmap: string -> Option<string>): seq<Device> {
    if networks == [] then []
    else ScanAll(networks[..|networks| - 1], nmap) + ScanResult(networks[|networks| - 1], nmap(networks[|networks| - 1]))
  }

  /** Every device found comes from one of the scanned networks. */
  lemma {:induction false} ScanAllNetworks(networks: seq<string>, nmap: string -> Option<string>)
    ensures forall d :: d in ScanAll(networks, nmap) ==> d.network in networks
  {
    if networks != [] {
      var init := networks[..|networks| - 1];
      var last := networks[|networks| - 1];
      ScanAllNetworks(init, nmap);
      assert forall n :: n in init ==> n in networks;
    }
  }

  /** The user-visible vendor keywords of the `nmap -sV` filter. */
  function Keywords(v: Vendor): seq<string> {
    match v
    case Cisco => ["Cisco", "IOS"]
    case Mikrotik => ["MikroTik"]
    case Huawei => ["Huawei"]
    case Juniper => ["Juniper"]
    case Fortinet => ["fortigate", "fortinet", "forti"]
  }

  predicate AnyKeyword(text: string, keywords: seq<string>) {
    exists i :: 0 <= i < |keywords| && Contains(text, keywords[i])
  }

  /** `_scan_device`: kept when the version scan succeeds and mentions a keyword.
      `probe(v, d)` is the output of the scan run for vendor `v`, `None` when it raised. */
  predicate Detected(v: Vendor, d: Device, probe: (Vendor, Device) -> Option<string>) {
    probe(v, d).Some? && AnyKeyword(probe(v, d).value, Keywords(v))
  }

  function FilterVendor(devices: seq<Device>, v: Vendor, probe: (Vendor, Device) -> Option<string>): seq<Device> {
    Filter(devices, d => Detected(v, d, probe))
  }

  /** The detected devices of all vendors, chained in the order cisco, mikrotik, huawei,
      juniper, fortinet. */
  function Chained(devices: seq<Device>, probe: (Vendor, Device) -> Option<string>): seq<Device> {
    FilterVendor(devices, Cisco, probe) + FilterVendor(devices, Mikrotik, probe) +
    FilterVendor(devices, Huawei, probe) + FilterVendor(devices, Juniper, probe) +
    FilterVendor(devices, Fortinet, probe)
  }

  /** `{d['ip']: d for d in devices}`. */
  function MergeDict(devices: seq<Device>): Dict<Option<string>, Device> {
    if devices == [] then []
    else
      var last := devices[|devices| - 1];
      Put(MergeDict(devices[..|devices| - 1]), last.ip, last)
  }

  /** The last device with address `ip`, which is the one a dict comprehension keeps. */
  function LastWithIp(devices: seq<Device>, ip: Option<string>): (r: Option<Device>)
    ensures r.None? <==> forall j :: 0 <= j < |devices| ==> devices[j].ip != ip
    ensures r.Some? ==> r.value in devices && r.value.ip == ip
  {
    if devices == [] then None
    else if devices[|devices| - 1].ip == ip then Some(devices[|devices| - 1])
    else
      var init := devices[..|devices| - 1];
      assert forall j :: 0 <= j < |init| ==> init[j] == devices[j];
      LastWithIp(init, ip)
  }

  /** No later device has the address of the one `LastWithIp` picks. */
  lemma {:induction false} LastWithIpIsLast(devices: seq<Device>, ip: Option<string>)
    ensures LastWithIp(devices, ip).Some? ==>
              exists j :: 0 <= j < |devices| && devices[j] == LastWithIp(devices, ip).value &&
                          forall k :: j < k < |devices| ==> devices[k].ip != ip
  {
    if devices != [] {
      var n := |devices| - 1;
      var init := devices[..n];
      if devices[n].ip == ip {
        assert LastWithIp(devices, ip) == Some(devices[n]);
      } else {
        assert LastWithIp(devices, ip) == LastWithIp(init, ip);
        LastWithIpIsLast(init, ip);
        if LastWithIp(init, ip).Some? {
          var j :| 0 <= j < n && init[j] == LastWithIp(init, ip).value &&
                   forall k :: j < k < n ==> init[k].ip != ip;
          assert devices[j] == init[j];
          forall k | j < k < |devices|
            ensures devices[k].ip != ip
          {
            if k < n {
              assert devices[k] == init[k];
            }
          }
        }
      }
    }
  }

  lemma {:induction false} MergeDictMeaning(devices: seq<Device>)
    ensures UniqueKeys(MergeDict(devices))
    ensures forall i :: 0 <= i < |MergeDict(devices)| ==>
      MergeDict(devices)[i].1.ip == MergeDict(devices)[i].0 && MergeDict(devices)[i].1 in devices
    ensures forall ip :: Get(MergeDict(devices), ip) == LastWithIp(devices, ip)
  {
    if devices != [] {
      var init := devices[..|devices| - 1];
      var last := devices[|devices| - 1];
      MergeDictMeaning(init);
      var m := MergeDict(init);
      PutKeepsUnique(m, last.ip, last);
      forall ip
        ensures Get(MergeDict(devices), ip) == LastWithIp(devices, ip)
      {
        if ip == last.ip {
          GetPut(m, last.ip, last);
        } else {
          GetPutOther(m, last.ip, last, ip);
        }
      }
      assert forall d :: d in init ==> d in devices;
    }
  }

  /** `filter_all_devices_grouped`: the values of the merged dict. */
  function Grouped(devices: seq<Device>, probe: (Vendor, Device) -> Option<string>): seq<Device> {
    Values(MergeDict(Chained(devices, probe)))
  }

  /** The grouped devices have pairwise distinct addresses, each was detected for some
      vendor, and for every detected address the device kept is the one from the latest
      vendor in the chaining order. */
  lemma GroupedMeaning(devices: seq<Device>, probe: (Vendor, Device) -> Option<string>)
    ensures forall i, j :: 0 <= i < j < |Grouped(devices, probe)| ==>
      Grouped(devices, probe)[i].ip != Grouped(devices, probe)[j].ip
    ensures forall d :: d in Grouped(devices, probe) ==> d in Chained(devices, probe)
    ensures forall d :: d in Chained(devices, probe) ==>
      LastWithIp(Chained(devices, probe), d.ip).value in Grouped(devices, probe)
  {
    var c := Chained(devices, probe);
    var m := MergeDict(c);
    MergeDictMeaning(c);
    forall d | d in c
      ensures LastWithIp(c, d.ip).value in Values(m)
    {
      var r := Get(m, d.ip);
      assert r.Some?;
      var i :| 0 <= i < |m| && m[i] == (d.ip, r.value);
      assert Values(m)[i] == r.value;
    }
    forall d | d in Values(m)
      ensures d in c
    {
      var i :| 0 <= i < |m| && Values(m)[i] == d;
    }
  }

  /** The scanner object and its accumulated `equipment_list`. */
  class FunctionsScanner {
    var equipmentList: seq<Device>

    constructor()
      ensures equipmentList == []
    {
      equipmentList := [];
    }

    /** `scan_network`: a successful run appends its devices to the list. */
    method ScanNetwork(network: string, output: Option<string>) returns (devices: seq<Device>)
      modifies this
      ensures devices == ScanResult(network, output)
      ensures equipmentList == old(equipmentList) + devices
    {
      if output.None? {
        return [];
      }
      devices := ParseNmap(output.value, network);
      equipmentList := equipmentList + devices;
    }

    /** `scan_multiple_networks`: the list is cleared, then every network is scanned;
        `nmap(n)` is the output of the run for `n`. */
    method ScanMultipleNetworks(networks: seq<string>, nmap: string -> Option<string>) returns (all: seq<Device>)
      modifies this
      ensures all == equipmentList == ScanAll(networks, nmap)
    {
      equipmentList := [];
      var i := 0;
      while i < |networks|
        invariant 0 <= i <= |networks|
        invariant equipmentList == ScanAll(networks[..i], nmap)
      {
        assert networks[..i + 1][..i] == networks[..i];
        var _ := ScanNetwork(networks[i], nmap(networks[i]));
        i := i + 1;
      }
      assert networks[..i] == networks;
      all := equipmentList;
    }

    /** `filter_all_devices_grouped` over the accumulated list. */
    method FilterAllDevicesGrouped(probe: (Vendor, Device) -> Option<string>) returns (r: seq<Device>)
      ensures r == Grouped(equipmentList, probe)
      ensures forall i, j :: 0 <= i < j < |r| ==> r[i].ip != r[j].ip
    {
      r := Values(MergeDict(Chained(equipmentList, probe)));
      GroupedMeaning(equipmentList, probe);
    }
  }

  // ---------------------------------------------------------------- table classification

  /** The saved record with the lowest position whose mac is `mac`. */
  function FirstWithMac(saved: seq<Record>, mac: string): (r: Option<Record>)
    ensures r.None? <==> forall j :: 0 <= j < |saved| ==> saved[j].mac != Some(mac)
    ensures r.Some? ==> exists i :: 0 <= i < |saved| && saved[i] == r.value && r.value.mac == Some(mac) &&
                                 forall j :: 0 <= j < i ==> saved[j].mac != Some(mac)
  {
    if saved == [] then None
    else if saved[0].mac == Some(mac) then Some(saved[0])
    else
      var r := FirstWithMac(saved[1..], mac);
      assert forall j :: 1 <= j < |saved| ==> saved[j] == saved[1..][j - 1];
      if r.Some? then
        var i :| 0 <= i < |saved[1..]| && saved[1..][i] == r.value && r.value.mac == Some(mac) &&
          forall j :: 0 <= j < i ==> saved[1..][j].mac != Some(mac);
        assert saved[i + 1] == r.value;
        r
      else r
  }

  /** ✔️ same mac and same address, ⚠️ same mac elsewhere, ❌ unknown mac. */
  datatype Mark = Same | Moved | Unknown {
    function Symbol(): string {
      match this
      case Same => "\U{2714}\U{FE0F}"
      case Moved => "\U{26A0}\U{FE0F}"
      case Unknown => "\U{274C}"
    }
  }

  function Classify(d: Device, saved: seq<Record>): (m: Mark)
    ensures m == Unknown <==> forall j :: 0 <= j < |saved| ==> saved[j].mac != Some(d.mac)
    ensures m == Same <==> FirstWithMac(saved, d.mac).Some? && FirstWithMac(saved, d.mac).value.ip == d.ip
    ensures m == Moved <==> FirstWithMac(saved, d.mac).Some? && FirstWithMac(saved, d.mac).value.ip != d.ip
  {
    var match_ := FirstWithMac(saved, d.mac);
    if match_.None? then Unknown else if match_.value.ip == d.ip then Same else Moved
  }

  /** One table row: (mac, ip, "Connecté", status). */
  datatype Row = Row(mac: string, ip: Option<string>, state: string, status: string)

  /** `update_table`: one row per displayed device, in order, and the count shown. */
  method UpdateTable(devices: seq<Device>, saved: seq<Record>) returns (rows: seq<Row>, count: nat)
    ensures |rows| == count == |devices|
    ensures forall i :: 0 <= i < |devices| ==>
      rows[i] == Row(devices[i].mac, devices[i].ip, "Connecté", Classify(devices[i], saved).Symbol())
  {
    rows := [];
    for i := 0 to |devices|
      invariant |rows| == i
      invariant forall k :: 0 <= k < i ==>
        rows[k] == Row(devices[k].mac, devices[k].ip, "Connecté", Classify(devices[k], saved).Symbol())
    {
      var status := Classify(devices[i], saved);
      rows := rows + [Row(devices[i].mac, devices[i].ip, "Connecté", status.Symbol())];
    }
    count := |devices|;
  }

  // ---------------------------------------------------------------- inventory edits

  /** The form inventory lines start with: `mac.replace(':', '-').upper()`. */
  function NormalMac(mac: string): string {
    Upper(DashMac(mac))
  }

  /** A line survives the removal unless its stripped form starts with the MAC. */
  predicate KeepLine(line: string, mac: string) {
    !StartsWith(Strip(line), mac)
  }

  /** `[l for l in lines if not l.strip().startswith(mac)]`. */
  function Kept(lines: seq<string>, mac: string): seq<string> {
    Filter(lines, l => KeepLine(l, mac))
  }

  /** The `readlines` / rewrite pass: the content with the MAC's lines left out. */
  function RemoveMacLines(content: string, mac: string): string {
    Concat(Kept(ReadLines(content), mac))
  }

  lemma {:induction false} FilterWellSplit(lines: seq<string>, keep: string -> bool)
    requires WellSplit(lines)
    ensures WellSplit(Filter(lines, keep))
  {
    if lines != [] {
      var rest := lines[1..];
      assert lines == [lines[0]] + rest;
      WellSplitCons(lines[0], rest);
      FilterWellSplit(rest, keep);
      if keep(lines[0]) {
        WellSplitCons(lines[0], Filter(rest, keep));
      }
    }
  }

  /** Reading the rewritten file back gives exactly the original lines that do not start
      with the MAC, in their order; so none of its lines starts with the MAC. */
  lemma RemoveMacLinesMeaning(content: string, mac: string)
    ensures ReadLines(RemoveMacLines(content, mac)) == Kept(ReadLines(content), mac)
    ensures forall l :: l in ReadLines(RemoveMacLines(content, mac)) ==> KeepLine(l, mac)
  {
    ReadLinesWellSplit(content);
    FilterWellSplit(ReadLines(content), l => KeepLine(l, mac));
    ReadLinesConcat(Kept(ReadLines(content), mac));
  }

  /** `\w`, for ASCII text. */
  predicate IsWordChar(c: char) {
    'a' <= c <= 'z' || 'A' <= c <= 'Z' || '0' <= c <= '9' || c == '_'
  }

  /** The look-ahead `(?=\[|\Z)`. */
  predicate FollowOk(t: string) {
    t == [] || t[0] == '['
  }

  /** What must follow the opening '[' of an empty section: `\w+\]\n(?=\[|\Z)`;
      `started` once a word character has been read. `\w` never matches ']', so the
      greedy `\w+` leaves no choice to make. */
  predicate HeaderRest(x: string, started: bool)
    decreases |x|
  {
    x != [] &&
    ((IsWordChar(x[0]) && HeaderRest(x[1..], true)) ||
     (started && x[0] == ']' && |x| >= 2 && x[1] == '\n' && FollowOk(x[2..])))
  }

  function RestLength(x: string, started: bool): (n: nat)
    requires HeaderRest(x, started)
    ensures 2 <= n <= |x| && FollowOk(x[n..])
    decreases |x|
  {
    if IsWordChar(x[0]) then
      var n := RestLength(x[1..], true);
      assert x[1..][n..] == x[1 + n..];
      1 + n
    else 2
  }

  /** `s` starts with a header the cleanup deletes: one followed by another header or by
      the end of the text. */
  predicate EmptySection(s: string) {
    s != [] && s[0] == '[' && HeaderRest(s[1..], false)
  }

  function SectionLength(s: string): (n: nat)
    requires EmptySection(s)
    ensures 3 <= n <= |s| && FollowOk(s[n..])
  {
    var n := RestLength(s[1..], false);
    assert s[1..][n..] == s[1 + n..];
    1 + n
  }

  /** `re.sub(r'\[\w+\]\n(?=\[|\Z)', '', s)`: a left-to-right scan that deletes each match. */
  function DropEmptySections(s: string): string
    decreases |s|
  {
    if s == [] then []
    else if EmptySection(s) then DropEmptySections(s[SectionLength(s)..])
    else [s[0]] + DropEmptySections(s[1..])
  }

  lemma {:induction false} FollowKept(u: string)
    requires FollowOk(u)
    ensures FollowOk(DropEmptySections(u))
    decreases |u|
  {
    if u != [] && EmptySection(u) {
      FollowKept(u[SectionLength(u)..]);
    }
  }

  lemma FollowBack(u: string)
    ensures FollowOk(DropEmptySections(u)) ==> FollowOk(u)
  {
    if u != [] && u[0] != '[' {
      assert DropEmptySections(u) == [u[0]] + DropEmptySections(u[1..]);
    }
  }

  /** A result that does not start with '[' starts with the input's first character. */
  lemma HeadCopied(t: string)
    ensures (DropEmptySections(t) != [] && DropEmptySections(t)[0] != '[') ==>
            t != [] && t[0] != '[' && DropEmptySections(t) == [t[0]] + DropEmptySections(t[1..])
  {
    if t != [] && t[0] == '[' && EmptySection(t) {
      FollowKept(t[SectionLength(t)..]);
    }
  }

  /** A header tail in the output was already one in the input. */
  lemma {:induction false} HeaderRestBack(x: string, started: bool)
    ensures HeaderRest(DropEmptySections(x), started) ==> HeaderRest(x, started)
    decreases |x|
  {
    var d := DropEmptySections(x);
    if HeaderRest(d, started) {
      HeadCopied(x);
      var y := x[1..];
      assert d == [x[0]] + DropEmptySections(y);
      if IsWordChar(x[0]) {
        HeaderRestBack(y, true);
      } else {
        HeadCopied(y);
        assert DropEmptySections(y) == [y[0]] + DropEmptySections(y[1..]);
        assert d[2..] == DropEmptySections(y[1..]);
        FollowBack(y[1..]);
        assert x[2..] == y[1..];
      }
    }
  }

  /** After the cleanup no empty section is left anywhere in the text. */
  lemma {:induction false} NoEmptySectionLeft(s: string)
    ensures forall i :: 0 <= i <= |DropEmptySections(s)| ==> !EmptySection(DropEmptySections(s)[i..])
    decreases |s|
  {
    if s != [] {
      if EmptySection(s) {
        NoEmptySectionLeft(s[SectionLength(s)..]);
      } else {
        var t := s[1..];
        NoEmptySectionLeft(t);
        var big := DropEmptySections(t);
        var r := [s[0]] + big;
        assert r == DropEmptySections(s);
        HeaderRestBack(t, false);
        assert r[1..] == big;
        forall i | 0 <= i <= |r|
          ensures !EmptySection(r[i..])
        {
          if i > 0 {
            assert r[i..] == big[i - 1..];
          }
        }
      }
    }
  }

  /** Both passes over one entry: the MAC's lines removed, then the empty sections. */
  function CleanEntry(e: Entry, mac: string): Entry {
    if e.Folder? && e.inventory.Some? then
      Folder(Some(DropEmptySections(RemoveMacLines(e.inventory.value, mac))))
    else e
  }

  /** The loop over `backup_<mode>` shared by `save_or_update` and `delete_equipment`. */
  /** The directory listing after the cleaning loop. */
  function CleanedBase(base: Dict<string, Entry>, mac: string): (r: Dict<string, Entry>)
    ensures |r| == |base|
    ensures forall i :: 0 <= i < |base| ==> r[i] == (base[i].0, CleanEntry(base[i].1, mac))
  {
    if base == [] then [] else [(base[0].0, CleanEntry(base[0].1, mac))] + CleanedBase(base[1..], mac)
  }

  method CleanInventories(base: Dict<string, Entry>, mac: string) returns (r: Dict<string, Entry>)
    ensures r == CleanedBase(base, mac)
  {
    r := [];
    for i := 0 to |base|
      invariant |r| == i
      invariant forall k :: 0 <= k < i ==> r[k] == (base[k].0, CleanEntry(base[k].1, mac))
    {
      var name := base[i].0;
      var e := base[i].1;
      if e.Folder? && e.inventory.Some? {
        var kept := RemoveMacLines(e.inventory.value, mac);
        e := Folder(Some(DropEmptySections(kept)));
      }
      r := r + [(name, e)];
    }
  }

  /** `if section_header not in content: content += "\n[hdr]\n"`. */
  function WithHeader(content: string, header: string): (r: string)
    ensures Contains(r, header)
  {
    if Contains(content, header) then content
    else
      ContainsPrefix(header + "\n", header);
      assert Contains("\n" + header + "\n", header) by {
        assert ("\n" + header + "\n")[1..] == header + "\n";
      }
      assert content + "\n" + header + "\n" == content + ("\n" + header + "\n");
      ContainsSuffix(content, "\n" + header + "\n", header);
      content + "\n" + header + "\n"
  }

  lemma {:induction false} ContainsSuffix(a: string, b: string, sub: string)
    requires Contains(b, sub)
    ensures Contains(a + b, sub)
    decreases |a|
  {
    if a == [] {
      assert a + b == b;
    } else {
      assert (a + b)[1..] == a[1..] + b;
      ContainsSuffix(a[1..], b, sub);
    }
  }

  /** Position of the first line equal to `header`, or |lines|. */
  function LineIndex(lines: seq<string>, header: string): (i: nat)
    ensures i <= |lines|
    ensures forall j :: 0 <= j < i ==> lines[j] != header
    ensures i < |lines| ==> lines[i] == header
  {
    if lines == [] then 0 else if lines[0] == header then 0 else 1 + LineIndex(lines[1..], header)
  }

  /** Where the new line goes: right after the header line, or at the end. */
  function InsertPosition(kept: seq<string>, header: string): (i: nat)
    ensures i <= |kept|
  {
    var h := LineIndex(kept, header);
    if h < |kept| then h + 1 else |kept|
  }

  /** The lines of the device's own inventory after the edit. */
  function PlaceLine(lines: seq<string>, header: string, line: string, mac: string): seq<string> {
    var kept := Kept(lines, mac);
    var idx := InsertPosition(kept, header);
    kept[..idx] + [line] + kept[idx..]
  }

  /** `line` sits at `idx` of `r`; every other line is kept, and they are the kept lines
      of `lines` in their order; `idx` follows the first header line, or is the last
      position when no line equals the header. */
  predicate PlacedAt(r: seq<string>, idx: int, lines: seq<string>, header: string, line: string, mac: string) {
    0 <= idx < |r| && r[idx] == line &&
    (forall j :: 0 <= j < |r| && j != idx ==> KeepLine(r[j], mac)) &&
    r[..idx] + r[idx + 1..] == Kept(lines, mac) &&
    ((idx > 0 && r[idx - 1] == header && forall j :: 0 <= j < idx - 1 ==> r[j] != header) ||
     (idx == |r| - 1 && forall j :: 0 <= j < idx ==> r[j] != header))
  }

  /** The inserted line is the only line that can start with the MAC; it sits right after
      the first header line, or last when no line equals the header; the other lines are
      the kept ones in their order. */
  lemma PlaceLineMeaning(lines: seq<string>, header: string, line: string, mac: string)
    ensures exists idx :: PlacedAt(PlaceLine(lines, header, line, mac), idx, lines, header, line, mac)
  {
    var kept := Kept(lines, mac);
    var idx := InsertPosition(kept, header);
    var r := PlaceLine(lines, header, line, mac);
    InsertShape(kept, idx, line);
    FilterMembershipAll(lines, mac);
    OthersKept(kept, idx, line, mac);
    InsertAfterHeader(kept, header, line);
    assert PlacedAt(r, idx, lines, header, line, mac);
  }

  /** Inserting a line among kept lines: every other line is still a kept one. */
  lemma OthersKept(kept: seq<string>, idx: nat, line: string, mac: string)
    requires idx <= |kept| && forall l :: l in kept ==> KeepLine(l, mac)
    ensures var r := kept[..idx] + [line] + kept[idx..];
            forall j :: 0 <= j < |r| && j != idx ==> KeepLine(r[j], mac)
  {
    InsertShape(kept, idx, line);
  }

  /** The inserted line follows the first header line, or is last when there is none. */
  lemma InsertAfterHeader(kept: seq<string>, header: string, line: string)
    ensures var idx := InsertPosition(kept, header);
      var r := kept[..idx] + [line] + kept[idx..];
      (idx > 0 && r[idx - 1] == header && forall j :: 0 <= j < idx - 1 ==> r[j] != header) ||
      (idx == |r| - 1 && forall j :: 0 <= j < idx ==> r[j] != header)
  {
    var h := LineIndex(kept, header);
    var idx := InsertPosition(kept, header);
    var r := kept[..idx] + [line] + kept[idx..];
    assert forall j :: 0 <= j < idx ==> r[j] == kept[j];
    if h < |kept| {
      assert idx == h + 1 && r[h] == header;
    } else {
      assert idx == |kept| && |r| == |kept| + 1;
    }
  }

  /** Inserting `x` at `idx` shifts the later elements by one and keeps the earlier ones. */
  lemma InsertShape(s: seq<string>, idx: nat, x: string)
    requires idx <= |s|
    ensures var r := s[..idx] + [x] + s[idx..];
      |r| == |s| + 1 && r[idx] == x && r[..idx] + r[idx + 1..] == s &&
      (forall j :: 0 <= j < idx ==> r[j] == s[j]) &&
      (forall j :: idx < j < |r| ==> r[j] == s[j - 1]) &&
      (forall j :: 0 <= j < |r| && j != idx ==> r[j] in s)
  {
    var r := s[..idx] + [x] + s[idx..];
    assert r[..idx] == s[..idx];
    assert r[idx + 1..] == s[idx..];
    forall j | 0 <= j < |r| && j != idx
      ensures r[j] in s
    {
      if j < idx { assert r[j] == s[j]; } else { assert r[j] == s[j - 1]; }
    }
  }

  /** `LineIndex` is the first position holding the header. */
  lemma {:induction false} LineIndexIs(lines: seq<string>, header: string, j: nat)
    requires j <= |lines| && (forall k :: 0 <= k < j ==> lines[k] != header)
    requires j < |lines| ==> lines[j] == header
    ensures LineIndex(lines, header) == j
  {
    if lines != [] && j > 0 {
      assert lines[0] != header;
      LineIndexIs(lines[1..], header, j - 1);
    }
  }

  lemma KeptAppend(lines: seq<string>, x: string, mac: string)
    ensures Kept(lines + [x], mac) == Kept(lines, mac) + (if KeepLine(x, mac) then [x] else [])
  {
    FilterAppend(lines, [x], l => KeepLine(l, mac));
    assert Kept([x], mac) == (if KeepLine(x, mac) then [x] else []) + Kept([], mac);
  }

  lemma FilterMembershipAll(lines: seq<string>, mac: string)
    ensures forall l :: l in Kept(lines, mac) ==> KeepLine(l, mac)
  {
  }

  /** The line `save_or_update` writes (before it is stripped). */
  function InventoryLine(mac: string, ip: string, username: string, password: string, enable: string): string {
    mac + HostVars(ip, username, password, enable)
  }

  /** Everything after the MAC on the inventory line. */
  function HostVars(ip: string, username: string, password: string, enable: string): (r: string)
    ensures |r| > 1 && r[0] == ' ' && r[1] == 'a'
  {
    HostKey + ip + UserKey + username + PassKey + password + OsKey + "cisco.ios.ios" + NetworkCli + BecomeKeys + enable + "\n"
  }

  /** A MAC that does not start with whitespace starts its own stripped line, so the new
      line is one the next removal pass deletes. */
  lemma InventoryLineStartsWithMac(mac: string, ip: string, username: string, password: string, enable: string)
    requires mac == [] || !IsSpace(mac[0])
    ensures !KeepLine(InventoryLine(mac, ip, username, password, enable), mac)
  {
    var rest := HostVars(ip, username, password, enable);
    var line := mac + rest;
    if mac != [] {
      assert line[0] == mac[0];
      assert LStrip(line) == line;
      assert line[|mac| + 1] == rest[1];
      RStripKeeps(line, |mac| + 1);
      var t := RStrip(line);
      assert t[..|mac|] == line[..|mac|] == mac;
    } else {
      assert StartsWith(Strip(line), []);
    }
  }

  /** The device's own inventory text as `save_or_update` writes it. */
  function OwnInventory(content: string, header: string, line: string, mac: string): string {
    Join("\n", PlaceLine(Lines(WithHeader(content, header)), header, Strip(line), mac)) + "\n"
  }

  /** The filter loop of `save_or_update`: the lines that do not start with the MAC. */
  method KeepLines(lines: seq<string>, mac: string) returns (kept: seq<string>)
    ensures kept == Kept(lines, mac)
  {
    kept := [];
    for i := 0 to |lines|
      invariant kept == Kept(lines[..i], mac)
    {
      var done, x := lines[..i], lines[i];
      assert lines[..i + 1] == done + [x];
      KeptAppend(done, x, mac);
      var keep := KeepLine(x, mac);
      if keep {
        kept := kept + [x];
      }
    }
    assert lines[..|lines|] == lines;
  }

  /** The header search of `save_or_update`: just after the first header line, else the end. */
  method FindInsertPosition(kept: seq<string>, header: string) returns (idx: nat)
    ensures idx == InsertPosition(kept, header)
  {
    idx := |kept|;
    var j := 0;
    while j < |kept|
      invariant 0 <= j <= |kept|
      invariant forall k :: 0 <= k < j ==> kept[k] != header
      invariant idx == |kept|
    {
      if kept[j] == header {
        LineIndexIs(kept, header, j);
        idx := j + 1;
        return;
      }
      j := j + 1;
    }
    LineIndexIs(kept, header, |kept|);
  }

  /** The content-lines edit of `save_or_update`: the filter, the header search and the
      insertion. */
  method EditLines(lines: seq<string>, header: string, line: string, mac: string) returns (r: seq<string>)
    ensures r == PlaceLine(lines, header, line, mac)
  {
    var kept := KeepLines(lines, mac);
    var idx := FindInsertPosition(kept, header);
    r := kept[..idx] + [line] + kept[idx..];
  }

  // ---------------------------------------------------------------- registry edits

  /** Position of the first record whose mac is `mac`, or |list|. */
  function MacIndex(list: seq<Record>, mac: string): (i: nat)
    ensures i <= |list|
    ensures forall j :: 0 <= j < i ==> list[j].mac != Some(mac)
    ensures i < |list| ==> list[i].mac == Some(mac)
  {
    if list == [] then 0 else if list[0].mac == Some(mac) then 0 else 1 + MacIndex(list[1..], mac)
  }

  /** The record `save_or_update` stores for a device: the entered fields, `status` and
      `sauvegarde` false, no subnet and no FTP server. */
  function SavedRecord(d: Device, name: string, system: string, username: string, password: string,
                       enable: string): (r: Record)
    ensures r.mac == Some(d.mac) && r.ip == d.ip && !r.status && r.sauvegarde == Some(false)
    ensures r.subnet.None? && r.ftpServer.None?
    ensures r.credentials.Some? && (r.credentials.value.enablePassword.None? <==> enable == [])
  {
    Record(Some(name), d.ip, Some(d.mac), Some(system),
           Some(Credentials(username, password, if enable == [] then None else Some(enable))),
           false, Some(false), None, None, Some(d.network))
  }

  /** The registry after the save: the first record with the same mac replaced, else the
      record appended; every other record stays where it was. */
  function Upserted(list: seq<Record>, rec: Record, mac: string): (r: seq<Record>)
    ensures MacIndex(list, mac) < |list| ==>
              |r| == |list| && r[MacIndex(list, mac)] == rec &&
              forall j :: 0 <= j < |list| && j != MacIndex(list, mac) ==> r[j] == list[j]
    ensures MacIndex(list, mac) == |list| ==> r == list + [rec]
  {
    var i := MacIndex(list, mac);
    if i < |list| then list[i := rec] else list + [rec]
  }

  /** The loop of `save_or_update` over the registry. */
  method Upsert(list: seq<Record>, rec: Record, mac: string) returns (r: seq<Record>, updated: bool)
    ensures updated <==> exists j :: 0 <= j < |list| && list[j].mac == Some(mac)
    ensures updated <==> MacIndex(list, mac) < |list|
    ensures r == Upserted(list, rec, mac)
  {
    var i := 0;
    while i < |list|
      invariant 0 <= i <= |list|
      invariant forall j :: 0 <= j < i ==> list[j].mac != Some(mac)
    {
      if list[i].mac == Some(mac) {
        assert MacIndex(list, mac) == i;
        return list[i := rec], true;
      }
      i := i + 1;
    }
    assert MacIndex(list, mac) == |list|;
    return list + [rec], false;
  }

  /** `delete_equipment`'s registry rewrite. */
  function RemoveMac(list: seq<Record>, mac: string): seq<Record> {
    Filter(list, (rec: Record) => rec.mac != Some(mac))
  }

  /** The deletion keeps exactly the records with another mac. */
  lemma RemoveMacMeaning(list: seq<Record>, mac: string, x: Record)
    ensures x in RemoveMac(list, mac) <==> x in list && x.mac != Some(mac)
  {
    FilterMembership(list, (rec: Record) => rec.mac != Some(mac), x);
  }

  /** How `save_or_update` ends. */
  datatype SaveOutcome = MissingField | InventoryFailed | Saved(updated: bool)

  /** The name of an equipment's own folder: its address with underscores for dots. */
  function FolderKey(ip: string): (r: string)
    ensures |r| == |ip| && '.' !in r
  {
    ReplaceChar(ip, '.', '_')
  }

  /** The folders once the removal pass has run, when `backup_<mode>` exists. */
  function CleanedOrEmpty(base: Option<Dict<string, Entry>>, mac: string): Dict<string, Entry> {
    if base.None? then [] else CleanedBase(base.value, mac)
  }

  /** The text of `inventory.ini` in folder `key`, or "" when there is none. */
  function OwnContent(folders: Dict<string, Entry>, key: string): (r: string)
    ensures (Get(folders, key).Some? && Get(folders, key).value.Folder? &&
             Get(folders, key).value.inventory.Some?) ==> r == Get(folders, key).value.inventory.value
  {
    var own := Get(folders, key);
    if own.Some? && own.value.Folder? && own.value.inventory.Some? then own.value.inventory.value else ""
  }

  /** The folders after a successful save: folder `key` holds the edited inventory. */
  function SavedBase(folders: Dict<string, Entry>, key: string, header: string, line: string, mac: string): Dict<string, Entry> {
    Put(folders, key, Folder(Some(OwnInventory(OwnContent(folders, key), header, line, mac))))
  }

  /** The folders `save_or_update` leaves when it succeeds for device `d`. */
  function SavedFolders(d: Device, username: string, password: string, enable: string, system: string,
                        base: Option<Dict<string, Entry>>): Dict<string, Entry>
    requires d.ip.Some?
  {
    var mac := NormalMac(d.mac);
    SavedBase(CleanedOrEmpty(base, mac), FolderKey(d.ip.value), SectionHeader(system),
              InventoryLine(mac, d.ip.value, username, password, enable), mac)
  }

  /** `f"[{selected_type}]"`. */
  function SectionHeader(system: string): string {
    "[" + system + "]"
  }

  /** The save writes the own folder's inventory and no other folder. */
  lemma SavedBaseMeaning(folders: Dict<string, Entry>, key: string, header: string, line: string, mac: string, other: string)
    ensures Get(SavedBase(folders, key, header, line, mac), key) ==
            Some(Folder(Some(OwnInventory(OwnContent(folders, key), header, line, mac))))
    ensures other != key ==> Get(SavedBase(folders, key, header, line, mac), other) == Get(folders, other)
  {
    GetPut(folders, key, Folder(Some(OwnInventory(OwnContent(folders, key), header, line, mac))));
    if other != key {
      GetPutOther(folders, key, Folder(Some(OwnInventory(OwnContent(folders, key), header, line, mac))), other);
    }
  }

  /** The inventory part of `save_or_update`: the removal pass over every folder, then the
      edit of the device's own folder. It fails, leaving the removal pass done, when the
      device has no address or its folder name is taken by a plain file. */
  method SaveInventory(d: Device, username: string, password: string, enable: string, system: string,
                       base: Option<Dict<string, Entry>>)
    returns (ok: bool, newBase: Option<Dict<string, Entry>>)
    ensures ok <==> d.ip.Some? && Get(CleanedOrEmpty(base, NormalMac(d.mac)), FolderKey(d.ip.value)) != Some(NotFolder)
    ensures !ok ==> newBase == (if base.None? then None else Some(CleanedBase(base.value, NormalMac(d.mac))))
    ensures ok ==> d.ip.Some? && newBase == Some(SavedFolders(d, username, password, enable, system, base))
  {
    var mac := NormalMac(d.mac);
    var cleaned: Dict<string, Entry> := [];
    if base.Some? {
      cleaned := CleanInventories(base.value, mac);
    }
    assert cleaned == CleanedOrEmpty(base, mac);
    if d.ip.None? {
      return false, (if base.None? then None else Some(cleaned));
    }
    var key := FolderKey(d.ip.value);
    var own := Get(cleaned, key);
    if own == Some(NotFolder) {
      return false, Some(cleaned);
    }
    var content := if own.Some? && own.value.Folder? && own.value.inventory.Some? then own.value.inventory.value else "";
    assert content == OwnContent(cleaned, key);
    var header := SectionHeader(system);
    var line := InventoryLine(mac, d.ip.value, username, password, enable);
    var lines := EditLines(Lines(WithHeader(content, header)), header, Strip(line), mac);
    ok := true;
    newBase := Some(Put(cleaned, key, Folder(Some(Join("\n", lines) + "\n"))));
  }

  /** `save_or_update`. `base` is `backup_<mode>` (`None` when it does not exist), `current`
      the registry read when the dialog opened. On an exception in the inventory part the
      inventories already cleaned stay cleaned and the registry is not written. */
  method SaveOrUpdate(d: Device, name: string, username: string, password: string, enable: string,
                      system: string, base: Option<Dict<string, Entry>>, current: seq<Record>)
    returns (outcome: SaveOutcome, newBase: Option<Dict<string, Entry>>, registry: seq<Record>)
    ensures outcome == MissingField <==> name == [] || username == [] || password == []
    ensures outcome == MissingField ==> newBase == base && registry == current
    ensures outcome == InventoryFailed <==>
              !(name == [] || username == [] || password == []) &&
              (d.ip.None? || Get(CleanedOrEmpty(base, NormalMac(d.mac)), FolderKey(d.ip.value)) == Some(NotFolder))
    ensures outcome == InventoryFailed ==>
              registry == current &&
              newBase == (if base.None? then None else Some(CleanedBase(base.value, NormalMac(d.mac))))
    ensures outcome.Saved? ==> d.ip.Some? && newBase == Some(SavedFolders(d, username, password, enable, system, base))
    ensures outcome.Saved? ==> (outcome.updated <==> MacIndex(current, d.mac) < |current|)
    ensures outcome.Saved? ==> registry == Upserted(current, SavedRecord(d, name, system, username, password, enable), d.mac)
  {
    if name == [] || username == [] || password == [] {
      return MissingField, base, current;
    }
    var ok;
    ok, newBase := SaveInventory(d, username, password, enable, system, base);
    if !ok {
      return InventoryFailed, newBase, current;
    }
    var rec := SavedRecord(d, name, system, username, password, enable);
    var updated;
    registry, updated := Upsert(current, rec, d.mac);
    outcome := Saved(updated);
  }

  /** Whether every record of the registry has a "mac" key: the deletion's comprehension
      looks the key up in each record and raises `KeyError` at the first one without it. */
  predicate AllHaveMac(list: seq<Record>) {
    forall i :: 0 <= i < |list| ==> list[i].mac.Some?
  }

  /** `delete_equipment`: both passes over every inventory, then the registry is read again
      with `load_existing_data` (no file gives []; a file that does not parse raises; a value
      that is not a list of records raises at its first element) and loses every record with
      the device's mac. `registry` is `None` when that read or the comprehension raises: the
      inventories stay cleaned and the registry file is not rewritten. */
  method DeleteEquipment(d: Device, base: Option<Dict<string, Entry>>, stored: Stored<seq<Record>>)
    returns (newBase: Option<Dict<string, Entry>>, registry: Option<seq<Record>>)
    ensures base.None? ==> newBase.None?
    ensures base.Some? ==> newBase == Some(CleanedBase(base.value, NormalMac(d.mac)))
    ensures registry.Some? <==> stored.Missing? || (stored.Parsed? && AllHaveMac(stored.value))
    ensures stored.Missing? ==> registry == Some([])
    ensures stored.Parsed? && registry.Some? ==> registry.value == RemoveMac(stored.value, d.mac)
    ensures registry.Some? ==>
              forall x :: x in registry.value <==> x in ListOrEmpty(stored) && x.mac != Some(d.mac)
  {
    newBase := None;
    if base.Some? {
      var cleaned := CleanInventories(base.value, NormalMac(d.mac));
      assert cleaned == CleanedBase(base.value, NormalMac(d.mac));
      newBase := Some(cleaned);
    }
    if stored.Missing? {
      return newBase, Some([]);
    }
    if !stored.Parsed? || !AllHaveMac(stored.value) {
      return newBase, None;
    }
    var kept := RemoveMac(stored.value, d.mac);
    forall x
      ensures x in kept <==> x in stored.value && x.mac != Some(d.mac)
    {
      RemoveMacMeaning(stored.value, d.mac, x);
    }
    registry := Some(kept);
  }
}
