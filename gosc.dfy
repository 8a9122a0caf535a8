/**
 * `GuestOSCustomizationWithLogger` and `GuestOSCustomization` of gosc.go, step by step: the
 * adapter's fields are assigned across the two switches and the fallback, the IPv4 scan stops
 * at the first IPv4 entry, the IPv6 loop appends, and the outer loop appends one mapping per
 * result or returns the first parse error. Each method is proved equal to its function in
 * GoscSpec.
 */
module Gosc {
  import opened Wrappers
  import opened Net
  import opened NetworkTypes
  import opened GoscSpec

  /** A sink that receives diagnostics. */
  datatype LogSink = LogSink(name: string)

  /** A `logr.Logger`: the source only asks whether it has a sink, and only to emit
      diagnostics, which this model leaves out. */
  datatype Logger = Logger(sink: Option<LogSink>)

  /** The `default:` branch of the IPv4 switch. GOSC supports one fixed IPv4 address (and
      one gateway) per adapter, so the scan stops at the first IPv4 entry. */
  method ScanIPv4(cs: seq<IpConfig>, parse: CidrParser) returns (res: Result<IPv4Part, ParseError>)
    ensures res == StaticIPv4Selection(cs, parse)
  {
    var ip: IpGenerator := NoIp;
    var subnetMask: string := "";
    var gateway: seq<string> := [];
    var i := 0;
    while i < |cs|
      invariant 0 <= i <= |cs|
      invariant forall k :: 0 <= k < i ==> !cs[k].isIPv4
      invariant ip == NoIp && subnetMask == "" && gateway == []
    {
      if !cs[i].isIPv4 {
        i := i + 1;
        continue;
      }
      var parsed := parse(cs[i].ipCidr);
      if parsed.Failure? {
        return Failure(parsed.error);
      }
      var p := parsed.value;
      ip := FixedIp(p.ip);
      subnetMask := SubnetMaskString(p.ones, p.bits);
      if cs[i].gateway != "" {
        gateway := [cs[i].gateway];
      }
      break;
    }
    return Success(IPv4Part(ip, subnetMask, gateway));
  }

  /** The `default:` branch of the IPv6 switch: every non-IPv4 entry is parsed and appended,
      creating `IpV6Spec` on the first one. */
  method CollectIPv6(cs: seq<IpConfig>, parse: CidrParser) returns (res: Result<Option<IpV6AddressSpec>, ParseError>)
    ensures res == StaticIPv6Selection(cs, parse)
  {
    var ipV6Spec: Option<IpV6AddressSpec> := None;
    var i := 0;
    while i < |cs|
      invariant 0 <= i <= |cs|
      invariant StaticIPv6Selection(cs[..i], parse) == Success(ipV6Spec)
    {
      assert cs[..i + 1] == cs[..i] + [cs[i]];
      StaticIPv6SelectionSnoc(cs[..i], cs[i], parse);
      if cs[i].isIPv4 {
        i := i + 1;
        continue;
      }
      var parsed := parse(cs[i].ipCidr);
      if parsed.Failure? {
        assert cs == cs[..i + 1] + cs[i + 1..];
        StaticIPv6SelectionStops(cs[..i + 1], cs[i + 1..], parse);
        return Failure(parsed.error);
      }
      var p := parsed.value;
      ghost var before := ipV6Spec;
      if ipV6Spec == None {
        ipV6Spec := Some(IpV6AddressSpec([], []));
      }
      ipV6Spec := Some(ipV6Spec.value.(ip := ipV6Spec.value.ip + [FixedIpV6(p.ip, p.ones)]));
      if cs[i].gateway != "" {
        ipV6Spec := Some(ipV6Spec.value.(gateway := ipV6Spec.value.gateway + [cs[i].gateway]));
      }
      assert ipV6Spec == Some(AppendIPv6(before, p, cs[i].gateway));
      i := i + 1;
    }
    assert cs[..i] == cs;
    return Success(ipV6Spec);
  }

  /** The body of the loop over results: the mapping of one result, or the first parse error. */
  method BuildAdapterMapping(r: InterfaceResult, parse: CidrParser) returns (res: Result<AdapterMapping, ParseError>)
    ensures res == AdapterMappingOf(r, parse)
  {
    var ip: IpGenerator := NoIp;
    var subnetMask: string := "";
    var gateway: seq<string> := [];
    var ipV6Spec: Option<IpV6AddressSpec> := None;

    if r.dhcp4 {
      ip := DhcpIp;
    } else if r.noIPAM {
      // adapter.Ip stays nil.
    } else {
      var v4 := ScanIPv4(r.ipConfigs, parse);
      if v4.Failure? {
        return Failure(v4.error);
      }
      ip, subnetMask, gateway := v4.value.ip, v4.value.subnetMask, v4.value.gateway;
    }

    if r.dhcp6 {
      ipV6Spec := Some(IpV6AddressSpec([DhcpIpV6], []));
    } else {
      var v6 := CollectIPv6(r.ipConfigs, parse);
      if v6.Failure? {
        return Failure(v6.error);
      }
      ipV6Spec := v6.value;
    }

    // vSphere requires adapter.Ip once customization applies: an IPv6-only adapter gets a
    // DHCP generator as a placeholder.
    if ip == NoIp && !r.noIPAM && (ipV6Spec.Some? || r.dhcp6) {
      ip := DhcpIp;
    }

    return Success(AdapterMapping(r.macAddress, IpSettings(ip, subnetMask, gateway, ipV6Spec, r.nameservers)));
  }

  /** One mapping per result, in order, or the first parse error and no mappings at all. The
      logger is never consulted for the result. */
  method GuestOSCustomizationWithLogger(results: InterfaceResults, logger: Logger, parse: CidrParser)
    returns (res: Result<seq<AdapterMapping>, ParseError>)
    ensures res == Translation(results.results, parse)
  {
    var rs := results.results;
    var mappings: seq<AdapterMapping> := [];
    var i := 0;
    while i < |rs|
      invariant 0 <= i <= |rs|
      invariant Translation(rs[..i], parse) == Success(mappings)
    {
      var mapping := BuildAdapterMapping(rs[i], parse);
      TranslationStep(rs, i, parse);
      if mapping.Failure? {
        TranslationStopsAt(rs, i + 1, parse);
        return Failure(mapping.error);
      }
      mappings := mappings + [mapping.value];
      i := i + 1;
    }
    assert rs[..i] == rs;
    return Success(mappings);
  }

  /** The same translation with the zero-value logger, which has no sink. */
  method GuestOSCustomization(results: InterfaceResults, parse: CidrParser)
    returns (res: Result<seq<AdapterMapping>, ParseError>)
    ensures res == Translation(results.results, parse)
  {
    res := GuestOSCustomizationWithLogger(results, Logger(None), parse);
  }
}
