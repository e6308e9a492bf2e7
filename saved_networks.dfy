/** The "saved sub-networks" screen: the subnets kept in `files/networks.json`, compared
    with the IPv4 networks of the machine's interfaces. */
module SavedNetworks {
  import opened Common
  import opened Dict

  /** One address of an interface as `psutil.net_if_addrs()` reports it. */
  datatype IfAddr = IfAddr(inet: bool, address: string, netmask: string)

  /** The interfaces, by name, in the order `psutil` lists them. */
  type Interfaces = Dict<string, seq<IfAddr>>

  /** `str(ipaddress.IPv4Interface(f"{address}/{netmask}").network)`, or `None` when that
      raises. */
  type NetworkOf = (string, string) -> Option<string>

  /** One row of the table: subnet, interface, address, mark. */
  datatype NetRow = NetRow(subnet: string, iface: string, address: string, icon: string)

  const UpMark: string := "\U{2714}\U{FE0F}"
  const DownMark: string := "\U{274C}"

  /** An IPv4 address other than the literal `127.0.0.1`. */
  predicate Eligible(a: IfAddr) {
    a.inet && a.address != "127.0.0.1"
  }

  /** The (interface name, address) pairs in the order the nested loops visit them. */
  function Pairs(ifaces: Interfaces): (r: seq<(string, IfAddr)>)
    decreases |ifaces|
  {
    if ifaces == [] then []
    else
      var x := ifaces[|ifaces| - 1];
      Pairs(ifaces[..|ifaces| - 1]) + Tag(x.0, x.1)
  }

  /** The addresses of one interface, each with the interface's name. */
  function Tag(name: string, addrs: seq<IfAddr>): (r: seq<(string, IfAddr)>)
    ensures |r| == |addrs| && forall k :: 0 <= k < |addrs| ==> r[k] == (name, addrs[k])
  {
    seq(|addrs|, k requires 0 <= k < |addrs| => (name, addrs[k]))
  }

  /** The row one address contributes in the first loop: a mark when its network is saved;
      an address whose network cannot be computed is skipped. */
  function LiveRow(p: (string, IfAddr), saved: seq<string>, net: NetworkOf): seq<NetRow> {
    var a := p.1;
    if Eligible(a) && net(a.address, a.netmask).Some? && net(a.address, a.netmask).value in saved
    then [NetRow(net(a.address, a.netmask).value, p.0, a.address, UpMark)]
    else []
  }

  function LiveRows(ps: seq<(string, IfAddr)>, saved: seq<string>, net: NetworkOf): (r: seq<NetRow>)
    ensures |r| <= |ps|
  {
    if ps == [] then [] else LiveRows(ps[..|ps| - 1], saved, net) + LiveRow(ps[|ps| - 1], saved, net)
  }

  lemma LiveRowsSnoc(ps: seq<(string, IfAddr)>, p: (string, IfAddr), saved: seq<string>, net: NetworkOf)
    ensures LiveRows(ps + [p], saved, net) == LiveRows(ps, saved, net) + LiveRow(p, saved, net)
  {
    assert (ps + [p])[..|ps|] == ps;
  }

  lemma {:induction false} LiveRowsAppend(a: seq<(string, IfAddr)>, b: seq<(string, IfAddr)>, saved: seq<string>, net: NetworkOf)
    ensures LiveRows(a + b, saved, net) == LiveRows(a, saved, net) + LiveRows(b, saved, net)
    decreases |b|
  {
    if b == [] {
      assert a + b == a;
    } else {
      var init := b[..|b| - 1];
      var x := b[|b| - 1];
      assert a + b == (a + init) + [x];
      assert b == init + [x];
      LiveRowsSnoc(a + init, x, saved, net);
      LiveRowsSnoc(init, x, saved, net);
      LiveRowsAppend(a, init, saved, net);
    }
  }

  /** Address `p` is the one behind row `row`. */
  predicate LiveAt(p: (string, IfAddr), row: NetRow, net: NetworkOf) {
    Eligible(p.1) && net(p.1.address, p.1.netmask) == Some(row.subnet) &&
    row == NetRow(row.subnet, p.0, p.1.address, UpMark)
  }

  lemma LiveRowMeaning(p: (string, IfAddr), saved: seq<string>, net: NetworkOf, row: NetRow)
    ensures row in LiveRow(p, saved, net) <==> row.subnet in saved && LiveAt(p, row, net)
  {
  }

  /** A marked row is exactly an eligible address whose network is saved. */
  lemma {:induction false} LiveRowsMeaning(ps: seq<(string, IfAddr)>, saved: seq<string>, net: NetworkOf, row: NetRow)
    ensures row in LiveRows(ps, saved, net) <==> row.subnet in saved && exists k :: 0 <= k < |ps| && LiveAt(ps[k], row, net)
  {
    if ps != [] {
      var last := |ps| - 1;
      var init := ps[..last];
      LiveRowsMeaning(init, saved, net, row);
      LiveRowMeaning(ps[last], saved, net, row);
      assert LiveRows(ps, saved, net) == LiveRows(init, saved, net) + LiveRow(ps[last], saved, net);
      var before := exists k :: 0 <= k < |init| && LiveAt(init[k], row, net);
      var here := LiveAt(ps[last], row, net);
      if exists k :: 0 <= k < |ps| && LiveAt(ps[k], row, net) {
        var k :| 0 <= k < |ps| && LiveAt(ps[k], row, net);
        if k < last {
          assert init[k] == ps[k];
          assert before;
        } else {
          assert here;
        }
      }
      if before {
        var k :| 0 <= k < |init| && LiveAt(init[k], row, net);
        assert ps[k] == init[k];
      }
    }
  }

  /** `all_current_subnets`: the networks of the eligible addresses, or `None` when one of
      them raises; this comprehension has no `try`. */
  function Current(ps: seq<(string, IfAddr)>, net: NetworkOf): (r: Option<seq<string>>)
    ensures r.None? <==> exists k :: 0 <= k < |ps| && Eligible(ps[k].1) && net(ps[k].1.address, ps[k].1.netmask).None?
    ensures r.Some? ==> forall s :: s in r.value <==>
                          exists k :: 0 <= k < |ps| && Eligible(ps[k].1) && net(ps[k].1.address, ps[k].1.netmask) == Some(s)
  {
    if ps == [] then Some([])
    else
      var init := ps[..|ps| - 1];
      var a := ps[|ps| - 1].1;
      assert forall k :: 0 <= k < |init| ==> init[k] == ps[k];
      match Current(init, net)
      case None => None
      case Some(c) =>
        if !Eligible(a) then Some(c)
        else match net(a.address, a.netmask)
          case None => None
          case Some(s) => Some(c + [s])
  }

  /** The row of a saved subnet that is no current network. */
  function DownRow(s: string): NetRow {
    NetRow(s, "N/A", "N/A", DownMark)
  }

  /** The second loop: one row per entry of `saved` that is not current, in list order. */
  function DownRows(saved: seq<string>, current: seq<string>): (r: seq<NetRow>)
    ensures |r| == |Filter(saved, s => s !in current)|
  {
    var gone := Filter(saved, s => s !in current);
    seq(|gone|, k requires 0 <= k < |gone| => DownRow(gone[k]))
  }

  lemma DownRowsMeaning(saved: seq<string>, current: seq<string>, row: NetRow)
    ensures row in DownRows(saved, current) <==> row == DownRow(row.subnet) && row.subnet in saved && row.subnet !in current
  {
    var gone := Filter(saved, s => s !in current);
    FilterMembership(saved, s => s !in current, row.subnet);
    if row in DownRows(saved, current) {
      var k :| 0 <= k < |gone| && DownRows(saved, current)[k] == row;
      assert gone[k] == row.subnet;
    }
    if row == DownRow(row.subnet) && row.subnet in gone {
      var k :| 0 <= k < |gone| && gone[k] == row.subnet;
      assert DownRows(saved, current)[k] == row;
    }
  }

  /** The task of `insert_data`: the rows and the count it reports, or `Err` when the
      comprehension raises. */
  function NetworkRows(ifaces: Interfaces, saved: seq<string>, net: NetworkOf): (r: Result<(seq<NetRow>, nat)>)
    ensures r.Ok? ==> r.value.1 == |r.value.0|
  {
    var ps := Pairs(ifaces);
    match Current(ps, net)
    case None => Err("invalid interface address")
    case Some(c) =>
      var rows := LiveRows(ps, saved, net) + DownRows(saved, c);
      Ok((rows, |rows|))
  }

  /** No saved subnet is shown both as up and as down. */
  lemma UpDownExclusive(ifaces: Interfaces, saved: seq<string>, net: NetworkOf, s: string)
    ensures NetworkRows(ifaces, saved, net).Ok? ==>
            !((exists i :: 0 <= i < |NetworkRows(ifaces, saved, net).value.0| &&
                           NetworkRows(ifaces, saved, net).value.0[i] == DownRow(s)) &&
              (exists j :: 0 <= j < |NetworkRows(ifaces, saved, net).value.0| &&
                           NetworkRows(ifaces, saved, net).value.0[j].subnet == s &&
                           NetworkRows(ifaces, saved, net).value.0[j].icon == UpMark))
  {
    var ps := Pairs(ifaces);
    if Current(ps, net).Some? {
      LiveRowsUp(ps, saved, net);
      DownRowsDown(saved, Current(ps, net).value);
    }
  }

  /** Every row of the first loop is marked up and shows a current network. */
  lemma LiveRowsUp(ps: seq<(string, IfAddr)>, saved: seq<string>, net: NetworkOf)
    requires Current(ps, net).Some?
    ensures forall i :: 0 <= i < |LiveRows(ps, saved, net)| ==>
              LiveRows(ps, saved, net)[i].icon == UpMark && LiveRows(ps, saved, net)[i].subnet in Current(ps, net).value
  {
    var live := LiveRows(ps, saved, net);
    forall i | 0 <= i < |live|
      ensures live[i].icon == UpMark && live[i].subnet in Current(ps, net).value
    {
      LiveRowsMeaning(ps, saved, net, live[i]);
      var k :| 0 <= k < |ps| && LiveAt(ps[k], live[i], net);
    }
  }

  /** Every row of the second loop is marked down and shows a subnet that is not current. */
  lemma DownRowsDown(saved: seq<string>, current: seq<string>)
    ensures forall i :: 0 <= i < |DownRows(saved, current)| ==>
              DownRows(saved, current)[i].icon == DownMark && DownRows(saved, current)[i].subnet !in current
  {
    var down := DownRows(saved, current);
    forall i | 0 <= i < |down|
      ensures down[i].icon == DownMark && down[i].subnet !in current
    {
      DownRowsMeaning(saved, current, down[i]);
    }
  }

  /** The position of the first occurrence of `x`. */
  function FirstIndex(s: seq<string>, x: string): (i: nat)
    requires x in s
    ensures i < |s| && s[i] == x && x !in s[..i]
  {
    if s[0] == x then 0
    else
      var i := FirstIndex(s[1..], x);
      assert s[..i + 1] == [s[0]] + s[1..][..i];
      i + 1
  }

  /** `self.saved_networks.remove(subnet)`: the first occurrence goes, the rest keep
      their order. */
  function RemoveFirst(s: seq<string>, x: string): (r: seq<string>)
    ensures x !in s ==> r == s
    ensures x in s ==> |r| == |s| - 1 && r == s[..FirstIndex(s, x)] + s[FirstIndex(s, x) + 1..]
    ensures multiset(r) == multiset(s) - multiset{x}
  {
    if x in s then
      var i := FirstIndex(s, x);
      assert s == s[..i] + [x] + s[i + 1..];
      s[..i] + s[i + 1..]
    else s
  }

  /** The screen's state: its list of saved subnets and what `networks.json` holds. */
  class Screen {
    var saved: seq<string>
    var file: Stored<seq<string>>

    /** `__init__` before `load_networks`: an empty list. */
    constructor (f: Stored<seq<string>>)
      ensures saved == [] && file == f
    {
      saved := [];
      file := f;
    }

    /** `load_networks`: a missing file gives []; a file that does not decode raises and
        leaves the list as it was. */
    method LoadNetworks() returns (raised: bool)
      modifies this
      ensures file == old(file)
      ensures raised <==> !(file.Missing? || file.Parsed?)
      ensures file.Missing? ==> saved == []
      ensures file.Parsed? ==> saved == file.value
      ensures raised ==> saved == old(saved)
    {
      match file
      case Missing =>
        saved := [];
        return false;
      case Parsed(v) =>
        saved := v;
        return false;
      case Unparsable =>
        return true;
      case WrongShape =>
        return true;
    }

    /** `on_select` after the confirmation: a listed subnet loses one occurrence and the
        list is saved; otherwise nothing happens. */
    method RemoveSubnet(subnet: string)
      modifies this
      ensures subnet in old(saved) ==> saved == RemoveFirst(old(saved), subnet) && file == Parsed(saved)
      ensures subnet !in old(saved) ==> saved == old(saved) && file == old(file)
    {
      if subnet in saved {
        saved := RemoveFirst(saved, subnet);
        file := Parsed(saved);
      }
    }

    /** The task of `insert_data`: the nested loops over the interfaces, the comprehension,
        then the loop over the saved subnets. */
    method InsertData(ifaces: Interfaces, net: NetworkOf) returns (r: Result<(seq<NetRow>, nat)>)
      ensures r == NetworkRows(ifaces, saved, net)
    {
      var rows: seq<NetRow> := [];
      var count: nat := 0;
      for i := 0 to |ifaces|
        invariant rows == LiveRows(Pairs(ifaces[..i]), saved, net) && count == |rows|
      {
        assert ifaces[..i + 1][..i] == ifaces[..i];
        LiveRowsAppend(Pairs(ifaces[..i]), Tag(ifaces[i].0, ifaces[i].1), saved, net);
        rows, count := ScanAddresses(ifaces[i].0, ifaces[i].1, net, rows, count);
      }
      assert ifaces[..|ifaces|] == ifaces;
      var cur := Current(Pairs(ifaces), net);
      if cur.None? {
        return Err("invalid interface address");
      }
      rows, count := AddDownRows(cur.value, rows, count);
      return Ok((rows, count));
    }

    /** The inner loop over the addresses of one interface. */
    method ScanAddresses(name: string, addrs: seq<IfAddr>, net: NetworkOf, rows0: seq<NetRow>, count0: nat)
      returns (rows: seq<NetRow>, count: nat)
      requires count0 == |rows0|
      ensures rows == rows0 + LiveRows(Tag(name, addrs), saved, net) && count == |rows|
    {
      rows, count := rows0, count0;
      ghost var tagged := Tag(name, addrs);
      for j := 0 to |addrs|
        invariant rows == rows0 + LiveRows(tagged[..j], saved, net) && count == |rows|
      {
        var a := addrs[j];
        assert tagged[..j + 1] == tagged[..j] + [(name, a)];
        LiveRowsSnoc(tagged[..j], (name, a), saved, net);
        if Eligible(a) {
          var sn := net(a.address, a.netmask);
          if sn.Some? && sn.value in saved {
            rows := rows + [NetRow(sn.value, name, a.address, UpMark)];
            count := count + 1;
          }
        }
      }
      assert tagged[..|addrs|] == tagged;
    }

    /** The loop over the saved subnets that are not current. */
    method AddDownRows(c: seq<string>, rows0: seq<NetRow>, count0: nat) returns (rows: seq<NetRow>, count: nat)
      requires count0 == |rows0|
      ensures rows == rows0 + DownRows(saved, c) && count == |rows|
    {
      rows, count := rows0, count0;
      for i := 0 to |saved|
        invariant rows == rows0 + DownRows(saved[..i], c) && count == |rows|
      {
        var s := saved[i];
        assert saved[..i + 1] == saved[..i] + [s];
        FilterAppend(saved[..i], [s], t => t !in c);
        if s !in c {
          rows := rows + [DownRow(s)];
          count := count + 1;
        }
      }
      assert saved[..|saved|] == saved;
    }
  }
}
