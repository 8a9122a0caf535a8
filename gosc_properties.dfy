/**
 * What the translator promises, proved of the functions in GoscSpec (and so, through their
 * `ensures`, of the methods in Gosc): one mapping per result in order, fail-fast parsing,
 * the priority of each switch, the IPv6-only fallback, and which CIDR strings are parsed.
 */
module GoscProperties {
  import opened Wrappers
  import opened Net
  import opened NetworkTypes
  import opened GoscSpec

  /** The call is the adapters' mappings side by side: on success, one mapping per result, in
      order, each built from its own result alone; on failure, the error of the first adapter
      that fails, all earlier ones having succeeded. */
  lemma {:induction false} TranslationIsPerAdapter(rs: seq<InterfaceResult>, parse: CidrParser)
    ensures Translation(rs, parse).Success? ==>
      |Translation(rs, parse).value| == |rs|
      && forall i :: 0 <= i < |rs| ==> AdapterMappingOf(rs[i], parse) == Success(Translation(rs, parse).value[i])
    ensures Translation(rs, parse).Failure? ==>
      exists i :: 0 <= i < |rs| && AdapterMappingOf(rs[i], parse) == Failure(Translation(rs, parse).error)
                  && forall j :: 0 <= j < i ==> AdapterMappingOf(rs[j], parse).Success?
  {
    if rs != [] {
      TranslationIsPerAdapter(rs[1..], parse);
      match AdapterMappingOf(rs[0], parse)
      case Failure(e) =>
        assert AdapterMappingOf(rs[0], parse) == Failure(Translation(rs, parse).error);
      case Success(m) =>
        match Translation(rs[1..], parse)
        case Failure(e) =>
          var i :| 0 <= i < |rs[1..]| && AdapterMappingOf(rs[1..][i], parse) == Failure(e)
                   && forall j :: 0 <= j < i ==> AdapterMappingOf(rs[1..][j], parse).Success?;
          assert AdapterMappingOf(rs[i + 1], parse) == Failure(e);
          forall j | 0 <= j < i + 1
            ensures AdapterMappingOf(rs[j], parse).Success?
          {
            if j > 0 {
              assert rs[j] == rs[1..][j - 1];
            }
          }
        case Success(ms) =>
          forall i | 0 <= i < |rs|
            ensures AdapterMappingOf(rs[i], parse) == Success(Translation(rs, parse).value[i])
          {
            if i > 0 {
              assert rs[i] == rs[1..][i - 1];
            }
          }
    }
  }

  /** The call fails exactly when some adapter's mapping fails: no partial list is returned. */
  lemma TranslationFailsIffSomeAdapterFails(rs: seq<InterfaceResult>, parse: CidrParser)
    ensures Translation(rs, parse).Failure? <==>
      exists i :: 0 <= i < |rs| && AdapterMappingOf(rs[i], parse).Failure?
  {
    TranslationIsPerAdapter(rs, parse);
  }

  /** Each mapping carries its result's MAC address and, as its DNS server list, exactly that
      result's nameservers. */
  lemma MappingsKeepIdentity(rs: seq<InterfaceResult>, parse: CidrParser)
    requires Translation(rs, parse).Success?
    ensures |Translation(rs, parse).value| == |rs|
    ensures forall i :: 0 <= i < |rs| ==>
      Translation(rs, parse).value[i].macAddress == rs[i].macAddress
      && Translation(rs, parse).value[i].adapter.dnsServerList == rs[i].nameservers
  {
    TranslationIsPerAdapter(rs, parse);
  }

  /** A result with its name, MTU and routes cleared: the fields the translator never reads. */
  function WithoutUnreadFields(r: InterfaceResult): InterfaceResult
  {
    r.(name := "", mtu := 0, routes := [])
  }

  /** Name, MTU and routes do not affect the outcome. */
  lemma {:induction false} IgnoresNameMtuRoutes(rs: seq<InterfaceResult>, rs': seq<InterfaceResult>, parse: CidrParser)
    requires |rs| == |rs'|
    requires forall i :: 0 <= i < |rs| ==> WithoutUnreadFields(rs[i]) == WithoutUnreadFields(rs'[i])
    ensures Translation(rs, parse) == Translation(rs', parse)
  {
    if rs != [] {
      IgnoresNameMtuRoutes(rs[1..], rs'[1..], parse);
      var r, r' := rs[0], rs'[0];
      assert WithoutUnreadFields(r) == WithoutUnreadFields(r');
      assert r.ipConfigs == r'.ipConfigs && r.macAddress == r'.macAddress && r.nameservers == r'.nameservers;
      assert AdapterMappingOf(r, parse) == AdapterMappingOf(r', parse);
    }
  }

  /** DHCP4 wins over NoIPAM and every IPv4 entry: `Ip` is the DHCP generator, the subnet mask
      and gateway stay empty, and the outcome is that of the IPv6 switch alone. */
  lemma Dhcp4Mapping(r: InterfaceResult, parse: CidrParser)
    requires r.dhcp4
    ensures AdapterMappingOf(r, parse) ==
      match IPv6Selection(r, parse)
      case Failure(e) => Failure(e)
      case Success(v6) => Success(AdapterMapping(r.macAddress, IpSettings(DhcpIp, "", [], v6, r.nameservers)))
  {
  }

  /** Without DHCP4, NoIPAM leaves `Ip` nil and the mask and gateway empty, and the IPv6-only
      fallback never fires; the IPv6 switch still runs. */
  lemma NoIPAMMapping(r: InterfaceResult, parse: CidrParser)
    requires !r.dhcp4 && r.noIPAM
    ensures AdapterMappingOf(r, parse) ==
      match IPv6Selection(r, parse)
      case Failure(e) => Failure(e)
      case Success(v6) => Success(AdapterMapping(r.macAddress, IpSettings(NoIp, "", [], v6, r.nameservers)))
  {
  }

  /** Without DHCP4 or NoIPAM, the first IPv4 entry (index `k`) decides: a fixed address, the
      dotted mask of its prefix, and its gateway as a one-element list unless it is empty. */
  lemma StaticIPv4Mapping(r: InterfaceResult, parse: CidrParser, k: nat)
    requires !r.dhcp4 && !r.noIPAM
    requires k < |r.ipConfigs| && r.ipConfigs[k].isIPv4
    requires forall j :: 0 <= j < k ==> !r.ipConfigs[j].isIPv4
    requires AdapterMappingOf(r, parse).Success?
    ensures parse(r.ipConfigs[k].ipCidr).Success?
    ensures var p, m := parse(r.ipConfigs[k].ipCidr).value, AdapterMappingOf(r, parse).value;
      && m.adapter.ip == FixedIp(p.ip)
      && m.adapter.subnetMask == SubnetMaskString(p.ones, p.bits)
      && m.adapter.gateway == (if r.ipConfigs[k].gateway == "" then [] else [r.ipConfigs[k].gateway])
  {
    assert FirstIPv4(r.ipConfigs) == Some(k);
  }

  /** Without DHCP4 or NoIPAM and with no IPv4 entry, the mask and gateway stay empty and `Ip`
      is the DHCP placeholder exactly when DHCP6 is set or some (IPv6) entry exists. */
  lemma NoIPv4EntryMapping(r: InterfaceResult, parse: CidrParser)
    requires !r.dhcp4 && !r.noIPAM
    requires forall k :: 0 <= k < |r.ipConfigs| ==> !r.ipConfigs[k].isIPv4
    requires AdapterMappingOf(r, parse).Success?
    ensures var m := AdapterMappingOf(r, parse).value;
      && m.adapter.ip == (if r.dhcp6 || r.ipConfigs != [] then DhcpIp else NoIp)
      && m.adapter.subnetMask == ""
      && m.adapter.gateway == []
  {
    if r.ipConfigs != [] {
      assert !r.ipConfigs[0].isIPv4;
    }
  }

  /** DHCP6 gives exactly one DHCPv6 generator and no gateways. */
  lemma Dhcp6Mapping(r: InterfaceResult, parse: CidrParser)
    requires r.dhcp6
    requires AdapterMappingOf(r, parse).Success?
    ensures AdapterMappingOf(r, parse).value.adapter.ipV6Spec == Some(IpV6AddressSpec([DhcpIpV6], []))
  {
  }

  /** Without DHCP6, whatever DHCP4 and NoIPAM hold, `IpV6Spec` is nil exactly when there is no
      non-IPv4 entry, and otherwise lists every non-IPv4 entry in order as a fixed address with
      its integer prefix, with the non-empty gateways of those entries. */
  lemma StaticIPv6Mapping(r: InterfaceResult, parse: CidrParser)
    requires !r.dhcp6
    requires AdapterMappingOf(r, parse).Success?
    ensures var spec, v6 := AdapterMappingOf(r, parse).value.adapter.ipV6Spec, IPv6Configs(r.ipConfigs);
      && (spec.None? <==> forall k :: 0 <= k < |r.ipConfigs| ==> r.ipConfigs[k].isIPv4)
      && (spec.Some? ==>
            && |spec.value.ip| == |v6|
            && (forall k :: 0 <= k < |v6| ==>
                  parse(v6[k].ipCidr).Success?
                  && spec.value.ip[k] == FixedIpV6(parse(v6[k].ipCidr).value.ip, parse(v6[k].ipCidr).value.ones))
            && spec.value.gateway == Gateways(v6))
  {
    var v6 := IPv6Configs(r.ipConfigs);
    assert ParseEach(v6, parse).Success?;
  }

  /** The IPv6-only fallback in closed form: `Ip` is fixed exactly when the first IPv4 entry was
      chosen (the fallback never replaces it), nil exactly when NoIPAM applies or nothing at all
      is configured, and the fallback never touches `IpV6Spec`. As vSphere requires, an adapter
      that is not NoIPAM and has an `IpV6Spec` always has an `Ip`. */
  lemma FallbackOutcome(r: InterfaceResult, parse: CidrParser)
    requires AdapterMappingOf(r, parse).Success?
    ensures var m := AdapterMappingOf(r, parse).value;
      && (m.adapter.ip.FixedIp? <==>
            !r.dhcp4 && !r.noIPAM && exists k :: 0 <= k < |r.ipConfigs| && r.ipConfigs[k].isIPv4)
      && (m.adapter.ip == NoIp <==> !r.dhcp4 && (r.noIPAM || (r.ipConfigs == [] && !r.dhcp6)))
      && (!r.noIPAM && m.adapter.ipV6Spec.Some? ==> m.adapter.ip != NoIp)
      && m.adapter.ipV6Spec == IPv6Selection(r, parse).value
  {
    var cs := r.ipConfigs;
    if !r.dhcp4 && !r.noIPAM && cs != [] && FirstIPv4(cs).None? {
      assert !cs[0].isIPv4;
      if !r.dhcp6 {
        assert IPv6Configs(cs) != [];
      }
    }
  }

  /** The fallback replaces the `Ip` the IPv4 switch chose exactly when that `Ip` is nil, NoIPAM
      is false, and `IpV6Spec` is non-nil or DHCP6 is set; it then sets the DHCP generator and
      leaves the subnet mask, the gateway and `IpV6Spec` as the switches left them. */
  lemma FallbackChangesOnlyIp(r: InterfaceResult, parse: CidrParser)
    requires AdapterMappingOf(r, parse).Success?
    ensures IPv4Selection(r, parse).Success? && IPv6Selection(r, parse).Success?
    ensures var m, v4, v6 := AdapterMappingOf(r, parse).value.adapter, IPv4Selection(r, parse).value, IPv6Selection(r, parse).value;
      && (m.ip != v4.ip <==> v4.ip == NoIp && !r.noIPAM && (v6.Some? || r.dhcp6))
      && (m.ip != v4.ip ==> m.ip == DhcpIp)
      && m.subnetMask == v4.subnetMask && m.gateway == v4.gateway && m.ipV6Spec == v6
  {
  }

  /** `net.ParseCIDR` results matter only for the strings in `ParsedCidrs(r)`: two parsers that
      agree there give the same mapping. So with DHCP4 or NoIPAM no IPv4 entry is parsed, only
      the first IPv4 entry ever is, and with DHCP6 no IPv6 entry is. */
  lemma OnlyParsedCidrsMatter(r: InterfaceResult, parse: CidrParser, parse': CidrParser)
    requires forall s :: s in ParsedCidrs(r) ==> parse(s) == parse'(s)
    ensures AdapterMappingOf(r, parse) == AdapterMappingOf(r, parse')
  {
    var cs := r.ipConfigs;
    var v4: seq<string> :=
      if r.dhcp4 || r.noIPAM then []
      else match FirstIPv4(cs)
        case None => []
        case Some(k) => [cs[k].ipCidr];
    var v6 := IPv6Configs(cs);
    var w6: seq<string> := if r.dhcp6 then [] else Cidrs(v6);
    assert ParsedCidrs(r) == v4 + w6;
    assert IPv6Selection(r, parse) == IPv6Selection(r, parse') by {
      if !r.dhcp6 {
        assert |w6| == |v6|;
        forall k | 0 <= k < |v6|
          ensures parse(v6[k].ipCidr) == parse'(v6[k].ipCidr)
        {
          assert w6[k] == v6[k].ipCidr;
          assert (v4 + w6)[|v4| + k] == w6[k];
        }
        StaticIPv6Local(cs, parse, parse');
      }
    }
    assert IPv4Selection(r, parse) == IPv4Selection(r, parse') by {
      if !r.dhcp4 && !r.noIPAM {
        if v4 != [] {
          assert (v4 + w6)[0] == v4[0];
        }
        StaticIPv4Local(cs, parse, parse');
      }
    }
    SameSelectionsSameMapping(r, parse, parse');
  }

  /** An adapter's mapping is determined by the outcomes of its two switches. */
  lemma SameSelectionsSameMapping(r: InterfaceResult, parse: CidrParser, parse': CidrParser)
    requires IPv4Selection(r, parse) == IPv4Selection(r, parse')
    requires IPv6Selection(r, parse) == IPv6Selection(r, parse')
    ensures AdapterMappingOf(r, parse) == AdapterMappingOf(r, parse')
  {
  }

  /** The IPv4 scan consults the parser on the first IPv4 entry only. */
  lemma StaticIPv4Local(cs: seq<IpConfig>, parse: CidrParser, parse': CidrParser)
    requires FirstIPv4(cs).Some? ==> parse(cs[FirstIPv4(cs).value].ipCidr) == parse'(cs[FirstIPv4(cs).value].ipCidr)
    ensures StaticIPv4Selection(cs, parse) == StaticIPv4Selection(cs, parse')
  {
  }

  /** The IPv6 loop consults the parser on the entries not flagged IPv4 only. */
  lemma StaticIPv6Local(cs: seq<IpConfig>, parse: CidrParser, parse': CidrParser)
    requires forall k :: 0 <= k < |IPv6Configs(cs)| ==> parse(IPv6Configs(cs)[k].ipCidr) == parse'(IPv6Configs(cs)[k].ipCidr)
    ensures StaticIPv6Selection(cs, parse) == StaticIPv6Selection(cs, parse')
  {
    ParseEachLocal(IPv6Configs(cs), parse, parse');
  }

  lemma {:induction false} ParseEachLocal(cs: seq<IpConfig>, parse: CidrParser, parse': CidrParser)
    requires forall k :: 0 <= k < |cs| ==> parse(cs[k].ipCidr) == parse'(cs[k].ipCidr)
    ensures ParseEach(cs, parse) == ParseEach(cs, parse')
  {
    if cs != [] {
      ParseEachLocal(cs[1..], parse, parse');
    }
  }

  /** Every string of `ss` parses. */
  predicate AllParse(ss: seq<string>, parse: CidrParser)
  {
    forall k :: 0 <= k < |ss| ==> parse(ss[k]).Success?
  }

  /** `ss[k]` is the first string of `ss` that fails to parse, with error `e`. */
  predicate FirstRejectedAt(ss: seq<string>, parse: CidrParser, k: int, e: ParseError)
  {
    0 <= k < |ss| && parse(ss[k]) == Failure(e) && forall j :: 0 <= j < k ==> parse(ss[j]).Success?
  }

  lemma AllParseAppend(a: seq<string>, b: seq<string>, parse: CidrParser)
    ensures AllParse(a + b, parse) <==> AllParse(a, parse) && AllParse(b, parse)
  {
    if AllParse(a + b, parse) {
      forall k | 0 <= k < |a| ensures parse(a[k]).Success? {
        assert a[k] == (a + b)[k];
      }
      forall k | 0 <= k < |b| ensures parse(b[k]).Success? {
        assert b[k] == (a + b)[|a| + k];
      }
    }
    if AllParse(a, parse) && AllParse(b, parse) {
      forall k | 0 <= k < |a + b| ensures parse((a + b)[k]).Success? {
        if k >= |a| {
          assert (a + b)[k] == b[k - |a|];
        }
      }
    }
  }

  lemma FirstRejectedAppend(a: seq<string>, b: seq<string>, parse: CidrParser, k: int, e: ParseError)
    ensures FirstRejectedAt(a, parse, k, e) ==> FirstRejectedAt(a + b, parse, k, e)
    ensures AllParse(a, parse) && FirstRejectedAt(b, parse, k, e) ==> FirstRejectedAt(a + b, parse, |a| + k, e)
  {
    if AllParse(a, parse) && FirstRejectedAt(b, parse, k, e) {
      forall j | 0 <= j < |a| + k ensures parse((a + b)[j]).Success? {
        if j >= |a| {
          assert (a + b)[j] == b[j - |a|];
        }
      }
    }
  }

  /** `ParseEach` in terms of the CIDR strings it parses. */
  lemma ParseEachCidrs(cs: seq<IpConfig>, parse: CidrParser)
    ensures ParseEach(cs, parse).Success? <==> AllParse(Cidrs(cs), parse)
    ensures ParseEach(cs, parse).Failure? ==>
      exists k :: FirstRejectedAt(Cidrs(cs), parse, k, ParseEach(cs, parse).error)
  {
    if ParseEach(cs, parse).Failure? {
      var k :| 0 <= k < |cs| && parse(cs[k].ipCidr) == Failure(ParseEach(cs, parse).error)
               && forall j :: 0 <= j < k ==> parse(cs[j].ipCidr).Success?;
      assert FirstRejectedAt(Cidrs(cs), parse, k, ParseEach(cs, parse).error);
    }
  }

  /** Fail-fast within one adapter: its mapping fails exactly when one of the strings it parses
      is rejected, and the error is the parser's own error for the first of them. */
  lemma AdapterFailsAtFirstParseError(r: InterfaceResult, parse: CidrParser)
    ensures AdapterMappingOf(r, parse).Success? <==> AllParse(ParsedCidrs(r), parse)
    ensures AdapterMappingOf(r, parse).Failure? ==>
      exists k :: FirstRejectedAt(ParsedCidrs(r), parse, k, AdapterMappingOf(r, parse).error)
  {
    var cs := r.ipConfigs;
    var v4: seq<string> :=
      if r.dhcp4 || r.noIPAM then []
      else match FirstIPv4(cs)
        case None => []
        case Some(k) => [cs[k].ipCidr];
    var v6 := IPv6Configs(cs);
    var w6: seq<string> := if r.dhcp6 then [] else Cidrs(v6);
    assert ParsedCidrs(r) == v4 + w6;
    AllParseAppend(v4, w6, parse);
    ParseEachCidrs(v6, parse);
    assert IPv4Selection(r, parse).Success? <==> AllParse(v4, parse);
    if IPv4Selection(r, parse).Failure? {
      assert FirstRejectedAt(v4, parse, 0, AdapterMappingOf(r, parse).error);
      FirstRejectedAppend(v4, w6, parse, 0, AdapterMappingOf(r, parse).error);
    } else if IPv6Selection(r, parse).Failure? {
      var e := AdapterMappingOf(r, parse).error;
      var k :| FirstRejectedAt(Cidrs(v6), parse, k, e);
      FirstRejectedAppend(v4, w6, parse, k, e);
    }
  }
}
