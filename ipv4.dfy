/** IPv4 prefix arithmetic shared by the backup and restore generators: the mask
    `(0xFFFFFFFF << (32 - prefix)) & 0xFFFFFFFF`, subnet membership, first-match lookups
    and the local address the host owns in a subnet (which becomes that subnet's FTP server). */
module Ipv4 {
  import opened Common
  import opened Dict

  /** The part after '/' of a "a.b.c.d/p" subnet text. Python raises only above 32 (a negative
      shift count); a negative prefix shifts every bit off and yields the mask of /0, so the
      subnet is represented here with prefix 0. */
  newtype Prefix = p: int | 0 <= p <= 32

  /** A subnet as stored in networks.json: its text together with what `inet_aton` and
      `int()` make of its two halves. */
  datatype Subnet = Subnet(text: string, base: bv32, prefix: Prefix)

  /** `(0xFFFFFFFF << (32 - p)) & 0xFFFFFFFF`: the 32-bit shift drops the bits Python masks off. */
  function Mask(p: Prefix): bv32 {
    (0xFFFF_FFFF as bv32) << (32 - p) as int
  }

  /** `(ip_int & mask_int) == (subnet_int & mask_int)`. */
  predicate InSubnet(ip: bv32, s: Subnet) {
    ip & Mask(s.prefix) == s.base & Mask(s.prefix)
  }

  /** A /0 subnet has mask 0 and contains every address. */
  lemma PrefixZeroMatchesAll(ip: bv32, base: bv32, text: string)
    ensures Mask(0) == 0
    ensures InSubnet(ip, Subnet(text, base, 0))
  {
  }

  /** A /32 subnet has the full mask and contains exactly its own address. */
  lemma PrefixFullMatchesExact(ip: bv32, base: bv32, text: string)
    ensures Mask(32) == 0xFFFF_FFFF
    ensures InSubnet(ip, Subnet(text, base, 32)) <==> ip == base
  {
  }

  /** The first subnet of `subnets`, in list order, that contains `ip`: the loop-and-return
      `get_subnet_for_ip` of the backup and restore scripts. */
  function FirstSubnet(ip: bv32, subnets: seq<Subnet>): (r: Option<Subnet>)
    ensures r.Some? ==> r.value in subnets && InSubnet(ip, r.value)
    ensures r.Some? ==> exists i :: 0 <= i < |subnets| && subnets[i] == r.value &&
                                  forall j :: 0 <= j < i ==> !InSubnet(ip, subnets[j])
    ensures r.None? <==> forall j :: 0 <= j < |subnets| ==> !InSubnet(ip, subnets[j])
  {
    var i := SubnetIndex(ip, subnets);
    if i < |subnets| then Some(subnets[i]) else None
  }

  /** The position of the first subnet containing `ip`, or |subnets|. */
  function SubnetIndex(ip: bv32, subnets: seq<Subnet>): (i: nat)
    ensures i <= |subnets|
    ensures forall j :: 0 <= j < i ==> !InSubnet(ip, subnets[j])
    ensures i < |subnets| ==> InSubnet(ip, subnets[i])
  {
    if subnets == [] then 0
    else if InSubnet(ip, subnets[0]) then 0
    else 1 + SubnetIndex(ip, subnets[1..])
  }

  /** One address of `psutil.net_if_addrs()`, flattened in interface order. `inet` is
      `family == AF_INET`; `value` is what `inet_aton` makes of `address`; `network` is
      `str(IPv4Interface(address/netmask).network)`, `None` when that raises. */
  datatype HostAddr = HostAddr(iface: string, inet: bool, address: string, value: bv32,
                               network: Option<string>)

  /** `get_local_ip_in_subnet`: the first IPv4 address of the host inside `s` (the loopback
      address included). */
  function LocalAddressIn(s: Subnet, addrs: seq<HostAddr>): (r: Option<string>)
    ensures r.Some? <==> exists i :: 0 <= i < |addrs| && addrs[i].inet && InSubnet(addrs[i].value, s)
    ensures r.Some? ==> exists i :: 0 <= i < |addrs| && addrs[i].inet && InSubnet(addrs[i].value, s) &&
                                  r.value == addrs[i].address &&
                                  forall j :: 0 <= j < i ==> !(addrs[j].inet && InSubnet(addrs[j].value, s))
  {
    var i := LocalIndex(s, addrs);
    if i < |addrs| then Some(addrs[i].address) else None
  }

  /** The position of the first IPv4 address inside `s`, or |addrs|. */
  function LocalIndex(s: Subnet, addrs: seq<HostAddr>): (i: nat)
    ensures i <= |addrs|
    ensures forall j :: 0 <= j < i ==> !(addrs[j].inet && InSubnet(addrs[j].value, s))
    ensures i < |addrs| ==> addrs[i].inet && InSubnet(addrs[i].value, s)
  {
    if addrs == [] then 0
    else if addrs[0].inet && InSubnet(addrs[0].value, s) then 0
    else 1 + LocalIndex(s, addrs[1..])
  }

  /** What the host offers as FTP address in a subnet. */
  type Locator = Subnet -> Option<string>

  /** The subnet -> FTP address mapping every script builds: `for subnet in subnets:
      ftp_ip = get_local_ip_in_subnet(subnet); if ftp_ip: mapping[subnet] = ftp_ip`. */
  function FtpMap(subnets: seq<Subnet>, addrs: seq<HostAddr>): Dict<Subnet, string> {
    MapWith(subnets, s => LocalAddressIn(s, addrs))
  }

  /** The mapping loop for any way of finding the local address. */
  function MapWith(subnets: seq<Subnet>, local: Locator): Dict<Subnet, string>
    decreases |subnets|
  {
    if subnets == [] then []
    else
      var m := MapWith(subnets[..|subnets| - 1], local);
      var s := subnets[|subnets| - 1];
      var ftp := local(s);
      if ftp.Some? && ftp.value != "" then Put(m, s, ftp.value) else m
  }

  /** The mapping holds exactly the listed subnets that have a (non-empty) local address,
      each once, and maps each to that address. */
  lemma FtpMapMeaning(subnets: seq<Subnet>, addrs: seq<HostAddr>)
    ensures UniqueKeys(FtpMap(subnets, addrs))
    ensures forall i :: 0 <= i < |FtpMap(subnets, addrs)| ==>
      var (s, ftp) := FtpMap(subnets, addrs)[i];
      s in subnets && LocalAddressIn(s, addrs) == Some(ftp) && ftp != ""
    ensures forall s :: s in subnets && LocalAddressIn(s, addrs).Some? && LocalAddressIn(s, addrs).value != "" ==>
                        HasKey(FtpMap(subnets, addrs), s)
  {
    MapWithMeaning(subnets, s => LocalAddressIn(s, addrs));
  }

  lemma {:induction false} MapWithMeaning(subnets: seq<Subnet>, local: Locator)
    ensures UniqueKeys(MapWith(subnets, local))
    ensures forall i :: 0 <= i < |MapWith(subnets, local)| ==>
      var (s, ftp) := MapWith(subnets, local)[i];
      s in subnets && local(s) == Some(ftp) && ftp != ""
    ensures forall s :: s in subnets && local(s).Some? && local(s).value != "" ==> HasKey(MapWith(subnets, local), s)
    decreases |subnets|
  {
    if subnets != [] {
      var init := subnets[..|subnets| - 1];
      MapWithMeaning(init, local);
      var m := MapWith(init, local);
      var s := subnets[|subnets| - 1];
      var ftp := local(s);
      assert subnets == init + [s];
      if ftp.Some? && ftp.value != "" {
        PutKeepsUnique(m, s, ftp.value);
        var r := Put(m, s, ftp.value);
        forall t | t in subnets && local(t).Some? && local(t).value != ""
          ensures HasKey(r, t)
        {
          if t != s {
            assert t in init;
          }
          PutHasKey(m, s, ftp.value, t);
        }
      }
    }
  }

  /** The method form of the mapping loop. */
  method BuildFtpMap(subnets: seq<Subnet>, addrs: seq<HostAddr>) returns (m: Dict<Subnet, string>)
    ensures m == FtpMap(subnets, addrs)
  {
    ghost var local: Locator := s => LocalAddressIn(s, addrs);
    m := [];
    var i := 0;
    while i < |subnets|
      invariant 0 <= i <= |subnets|
      invariant m == MapWith(subnets[..i], local)
    {
      var ftp := LocalAddressIn(subnets[i], addrs);
      assert ftp == local(subnets[i]);
      if ftp.Some? && ftp.value != "" {
        m := Put(m, subnets[i], ftp.value);
      }
      assert subnets[..i + 1][..i] == subnets[..i];
      i := i + 1;
    }
    assert subnets[..i] == subnets;
  }

  /** `get_ftp_server_for_ip`: the FTP address of the first subnet of the mapping, in
      insertion order, that contains `ip`. */
  function FirstFtpServer(ip: bv32, mapping: Dict<Subnet, string>): (r: Option<string>)
    ensures r.Some? ==> exists i :: 0 <= i < |mapping| && InSubnet(ip, mapping[i].0) &&
                                  r.value == mapping[i].1 && forall j :: 0 <= j < i ==> !InSubnet(ip, mapping[j].0)
    ensures r.None? <==> forall j :: 0 <= j < |mapping| ==> !InSubnet(ip, mapping[j].0)
  {
    var i := ServerIndex(ip, mapping);
    if i < |mapping| then Some(mapping[i].1) else None
  }

  /** The position of the first entry of the mapping whose subnet contains `ip`, or |mapping|. */
  function ServerIndex(ip: bv32, mapping: Dict<Subnet, string>): (i: nat)
    ensures i <= |mapping|
    ensures forall j :: 0 <= j < i ==> !InSubnet(ip, mapping[j].0)
    ensures i < |mapping| ==> InSubnet(ip, mapping[i].0)
  {
    if mapping == [] then 0
    else if InSubnet(ip, mapping[0].0) then 0
    else 1 + ServerIndex(ip, mapping[1..])
  }
}
