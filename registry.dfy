/** The equipment registries `files/<vendor>_save.json`: one JSON list of equipment
    records per vendor, shared by the scanner, the backup scripts, the scheduler and the
    restore screen. */
module Registry {
  import opened Common
  import opened Text

  /** The five vendors the application knows, in the order the scanner lists them. */
  datatype Vendor = Cisco | Mikrotik | Huawei | Juniper | Fortinet {
    /** The lower-case name used in file and folder names (`cisco_save.json`, `backup_cisco`). */
    function Key(): string {
      match this
      case Cisco => "cisco"
      case Mikrotik => "mikrotik"
      case Huawei => "huawei"
      case Juniper => "juniper"
      case Fortinet => "fortinet"
    }

    /** The display name used by the restore screen (`MikroTik`, `Cisco`, ...). */
    function Display(): string {
      match this
      case Cisco => "Cisco"
      case Mikrotik => "MikroTik"
      case Huawei => "Huawei"
      case Juniper => "Juniper"
      case Fortinet => "Fortinet"
    }
  }

  const AllVendors: seq<Vendor> := [Cisco, Mikrotik, Huawei, Juniper, Fortinet]

  /** The `credentials` object of a record. */
  datatype Credentials = Credentials(username: string, password: string, enablePassword: Option<string>)

  /** One equipment record. A missing key and a JSON null are both `None`; `status` is the
      truthiness of the stored value (the scanner stores "", the backup scripts True). */
  datatype Record = Record(
    name: Option<string>,
    ip: Option<string>,
    mac: Option<string>,
    system: Option<string>,
    credentials: Option<Credentials>,
    status: bool,
    sauvegarde: Option<bool>,
    subnet: Option<string>,
    ftpServer: Option<string>,
    network: Option<string>)

  /** What is on disk for each vendor: a vendor absent from the map has no file. */
  type Registries = map<Vendor, Stored<seq<Record>>>

  /** The records of a vendor as a reader that treats a missing or unreadable file as
      empty sees them. */
  function RecordsOf(regs: Registries, v: Vendor): (r: seq<Record>)
    ensures v in regs && regs[v].Parsed? ==> r == regs[v].value
    ensures !(v in regs && regs[v].Parsed?) ==> r == []
  {
    if v in regs && regs[v].Parsed? then regs[v].value else []
  }

  /** `mac.upper().replace('-', ':')`: the colon form the backup scripts compare with ARP. */
  function ColonMac(mac: string): (r: string)
    ensures |r| == |mac| && '-' !in r
  {
    ReplaceChar(Upper(mac), '-', ':')
  }

  /** `mac.replace(':', '-')`: the dash form inventory lines start with. */
  function DashMac(mac: string): (r: string)
    ensures |r| == |mac| && ':' !in r
  {
    ReplaceChar(mac, ':', '-')
  }
}
