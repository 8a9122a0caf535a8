/**
 * The values the translator reads and builds: the per-interface results computed by the
 * network provider, and the few fields of vSphere's `CustomizationAdapterMapping` it sets.
 */
module NetworkTypes {
  import opened Wrappers

  /** One address of an interface in CIDR notation, with an optional gateway ("" = none). */
  datatype IpConfig = IpConfig(ipCidr: string, isIPv4: bool, gateway: string)

  /** The network result for one guest adapter. The structure of a route is never read, so a
      route stands here as its text. */
  datatype InterfaceResult = InterfaceResult(
    ipConfigs: seq<IpConfig>,
    macAddress: string,
    name: string,
    dhcp4: bool,
    dhcp6: bool,
    noIPAM: bool,
    mtu: int,
    nameservers: seq<string>,
    routes: seq<string>)

  /** `NetworkInterfaceResults`: the results of all adapters, in adapter order. */
  datatype InterfaceResults = InterfaceResults(results: seq<InterfaceResult>)

  /** `adapter.Ip`: nil, a `CustomizationDhcpIpGenerator` or a `CustomizationFixedIp`. */
  datatype IpGenerator = NoIp | DhcpIp | FixedIp(ipAddress: string)

  /** An entry of `IpV6Spec.Ip`: a `CustomizationDhcpIpV6Generator` or a
      `CustomizationFixedIpV6` whose subnet mask is a prefix length. */
  datatype IpV6Generator = DhcpIpV6 | FixedIpV6(ipAddress: string, subnetMask: int)

  /** `CustomizationIPSettingsIpV6AddressSpec`. */
  datatype IpV6AddressSpec = IpV6AddressSpec(ip: seq<IpV6Generator>, gateway: seq<string>)

  /** The fields of `CustomizationIPSettings` the translator sets; `ipV6Spec` is a pointer. */
  datatype IpSettings = IpSettings(
    ip: IpGenerator,
    subnetMask: string,
    gateway: seq<string>,
    ipV6Spec: Option<IpV6AddressSpec>,
    dnsServerList: seq<string>)

  /** `CustomizationAdapterMapping`. */
  datatype AdapterMapping = AdapterMapping(macAddress: string, adapter: IpSettings)
}
