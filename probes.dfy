/** What the backup scripts learn from the network, as oracle inputs: `ping`, the ARP
    table (`arp -n <ip>`, then `ip neigh show <ip>`), an SSH login and `inet_aton`; and the
    parsers the scripts apply to the ARP output. */
module Probes {
  import opened Common
  import opened Text
  import opened Registry

  /** The outcome of every external probe. `arp` and `neigh` give the command's output, or
      `None` when `check_output` raises; `aton` is `inet_aton` read as a 32-bit integer. */
  datatype Probes = Probes(
    ping: string -> bool,
    arp: string -> Option<string>,
    neigh: string -> Option<string>,
    ssh: (string, string, string) -> bool,
    aton: string -> bv32)

  /** `s.count(c)`. */
  function CountChar(s: string, c: char): (n: nat)
    ensures n <= |s|
    ensures n == 0 <==> c !in s
  {
    if s == [] then 0 else (if s[0] == c then 1 else 0) + CountChar(s[1..], c)
  }

  /** The whitespace-separated tokens of the output lines that contain `ip`, in output order:
      what the nested `for line ... for part in line.split()` loops visit. */
  function ArpTokens(lines: seq<string>, ip: string): (r: seq<string>)
    decreases |lines|
  {
    if lines == [] then []
    else (if Contains(lines[0], ip) then Split(lines[0]) else []) + ArpTokens(lines[1..], ip)
  }

  /** The first token that passes `ok`: the loops return at the first such token. */
  function FirstToken(tokens: seq<string>, ok: string -> bool): (r: Option<string>)
    ensures r.None? <==> forall k :: 0 <= k < |tokens| ==> !ok(tokens[k])
    ensures r.Some? ==> exists k :: 0 <= k < |tokens| && tokens[k] == r.value && ok(r.value) &&
                                   forall j :: 0 <= j < k ==> !ok(tokens[j])
  {
    if tokens == [] then None
    else if ok(tokens[0]) then Some(tokens[0])
    else
      var r := FirstToken(tokens[1..], ok);
      assert forall k :: 1 <= k < |tokens| ==> tokens[k] == tokens[1..][k - 1];
      assert r.Some? ==> exists k :: 1 <= k < |tokens| && tokens[k] == r.value && ok(r.value) &&
                                     forall j :: 1 <= j < k ==> !ok(tokens[j]) by {
        if r.Some? {
          var k :| 0 <= k < |tokens[1..]| && tokens[1..][k] == r.value && ok(r.value) &&
                   forall j :: 0 <= j < k ==> !ok(tokens[1..][j]);
          assert tokens[k + 1] == r.value;
        }
      }
      r
  }

  /** The Cisco script's MAC token: 17 characters holding five ':'. */
  predicate CiscoMacToken(t: string) {
    |t| == 17 && CountChar(t, ':') == 5
  }

  /** The MikroTik and Fortinet scripts' MAC token: 17 characters holding a ':'. */
  predicate LinuxMacToken(t: string) {
    |t| == 17 && ':' in t
  }

  /** `get_mac_from_arp` of the Cisco script: the first MAC token of `arp -n <ip>`,
      upper-cased; `None` when there is none or the command fails. */
  function CiscoArpMac(p: Probes, ip: string): (r: Option<string>)
    ensures r.Some? ==> |r.value| == 17 && r.value == Upper(r.value)
  {
    match p.arp(ip)
    case None => None
    case Some(out) =>
      match FirstToken(ArpTokens(Lines(out), ip), CiscoMacToken)
      case None => None
      case Some(t) =>
        UpperIdempotent(t);
        Some(Upper(t))
  }

  /** `get_mac_from_arp` of the MikroTik and Fortinet scripts on Linux: the first MAC token
      of `arp -n <ip>`, lower-cased; only when that output is blank, the first one of
      `ip neigh show <ip>`. */
  function LinuxArpMac(p: Probes, ip: string): (r: Option<string>)
    ensures r.Some? ==> |r.value| == 17 && r.value == Lower(r.value)
  {
    match p.arp(ip)
    case None => None
    case Some(out) =>
      match FirstToken(ArpTokens(Lines(out), ip), LinuxMacToken)
      case Some(t) =>
        LowerIdempotent(t);
        Some(Lower(t))
      case None =>
        if Strip(out) != [] then None
        else match p.neigh(ip)
          case None => None
          case Some(out2) =>
            match FirstToken(ArpTokens(Lines(out2), ip), LinuxMacToken)
            case None => None
            case Some(t) =>
              LowerIdempotent(t);
              Some(Lower(t))
  }

  lemma UpperIdempotent(s: string)
    ensures Upper(Upper(s)) == Upper(s)
  {
    assert forall i :: 0 <= i < |s| ==> UpperChar(UpperChar(s[i])) == UpperChar(s[i]);
  }

  lemma LowerIdempotent(s: string)
    ensures Lower(Lower(s)) == Lower(s)
  {
    assert forall i :: 0 <= i < |s| ==> LowerChar(LowerChar(s[i])) == LowerChar(s[i]);
  }

  /** `eq['credentials']` and `eq['mac'].lower()` raise when the record lacks them (the
      MikroTik and FortiGate validation loops). */
  predicate Raises(rec: Record) {
    rec.credentials.None? || rec.mac.None?
  }

  /** The ping, ARP and SSH checks both the MikroTik and the FortiGate scripts apply to a
      device; the ARP MAC and the recorded MAC are compared lower-cased. A device without
      an address fails the ping. */
  predicate Validated(rec: Record, p: Probes)
    requires !Raises(rec)
  {
    rec.ip.Some? && p.ping(rec.ip.value)
    && LinuxArpMac(p, rec.ip.value) == Some(Lower(rec.mac.value))
    && p.ssh(rec.ip.value, rec.credentials.value.username, rec.credentials.value.password)
  }
}
