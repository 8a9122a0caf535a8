/**
 * The rules of the GOSC adapter-mapping translator (pkg/providers/vsphere/network/gosc.go)
 * stated as functions: the IPv4 switch, the IPv6 switch, the IPv6-only fallback, one adapter's
 * mapping and the whole call. The methods in module Gosc are proved equal to these.
 */
module GoscSpec {
  import opened Wrappers
  import opened Net
  import opened NetworkTypes

  /** The index of the first entry flagged IPv4: the one entry the IPv4 scan parses. */
  function FirstIPv4(cs: seq<IpConfig>): (r: Option<nat>)
    ensures r.None? <==> forall k :: 0 <= k < |cs| ==> !cs[k].isIPv4
    ensures r.Some? ==> r.value < |cs| && cs[r.value].isIPv4
                        && forall j :: 0 <= j < r.value ==> !cs[j].isIPv4
  {
    if cs == [] then None
    else if cs[0].isIPv4 then Some(0)
    else match FirstIPv4(cs[1..])
      case None => None
      case Some(k) => Some(k + 1)
  }

  /** The entries not flagged IPv4, in order: the ones the IPv6 loop visits. */
  function IPv6Configs(cs: seq<IpConfig>): (r: seq<IpConfig>)
    ensures forall c :: c in r ==> c in cs && !c.isIPv4
    ensures r == [] <==> forall k :: 0 <= k < |cs| ==> cs[k].isIPv4
  {
    if cs == [] then []
    else (if cs[0].isIPv4 then [] else [cs[0]]) + IPv6Configs(cs[1..])
  }

  /** `net.ParseCIDR` on each entry in order, returning the first error it meets. */
  function ParseEach(cs: seq<IpConfig>, parse: CidrParser): (r: Result<seq<ParsedCidr>, ParseError>)
    ensures r.Success? ==> |r.value| == |cs|
    ensures r.Success? ==> forall k :: 0 <= k < |cs| ==> parse(cs[k].ipCidr) == Success(r.value[k])
    ensures r.Failure? <==> exists k :: 0 <= k < |cs| && parse(cs[k].ipCidr).Failure?
    ensures r.Failure? ==>
      exists k :: 0 <= k < |cs| && parse(cs[k].ipCidr) == Failure(r.error)
                  && forall j :: 0 <= j < k ==> parse(cs[j].ipCidr).Success?
  {
    if cs == [] then Success([])
    else match parse(cs[0].ipCidr)
      case Failure(e) => Failure(e)
      case Success(p) =>
        match ParseEach(cs[1..], parse)
        case Failure(e) => Failure(e)
        case Success(ps) => Success([p] + ps)
  }

  /** The non-empty gateways of `cs`, in order. */
  function Gateways(cs: seq<IpConfig>): (r: seq<string>)
    ensures "" !in r
  {
    if cs == [] then []
    else (if cs[0].gateway == "" then [] else [cs[0].gateway]) + Gateways(cs[1..])
  }

  /** One `CustomizationFixedIpV6` per parsed address, its mask the prefix length. */
  function FixedIPv6(ps: seq<ParsedCidr>): seq<IpV6Generator>
  {
    seq(|ps|, k requires 0 <= k < |ps| => FixedIpV6(ps[k].ip, ps[k].ones))
  }

  /** `IpV6Spec` built from the static IPv6 entries `v6` and their parses `ps`: nil when
      there is none. */
  function StaticIPv6Spec(v6: seq<IpConfig>, ps: seq<ParsedCidr>): Option<IpV6AddressSpec>
  {
    if v6 == [] then None else Some(IpV6AddressSpec(FixedIPv6(ps), Gateways(v6)))
  }

  /** `adapter.Ip`, `adapter.SubnetMask` and `adapter.Gateway`. */
  datatype IPv4Part = IPv4Part(ip: IpGenerator, subnetMask: string, gateway: seq<string>)

  /** The IPv4 switch: DHCP4 wins, then NoIPAM leaves everything unset, else the first IPv4
      entry gives a fixed address, the dotted mask of its prefix and its gateway if any. */
  function IPv4Selection(r: InterfaceResult, parse: CidrParser): Result<IPv4Part, ParseError>
  {
    if r.dhcp4 then Success(IPv4Part(DhcpIp, "", []))
    else if r.noIPAM then Success(IPv4Part(NoIp, "", []))
    else StaticIPv4Selection(r.ipConfigs, parse)
  }

  /** The `default:` branch of the IPv4 switch: the first IPv4 entry, if any, parsed. */
  function StaticIPv4Selection(cs: seq<IpConfig>, parse: CidrParser): Result<IPv4Part, ParseError>
  {
    match FirstIPv4(cs)
    case None => Success(IPv4Part(NoIp, "", []))
    case Some(k) =>
      match parse(cs[k].ipCidr)
      case Failure(e) => Failure(e)
      case Success(p) => Success(FixedIPv4(p, cs[k].gateway))
  }

  /** A fixed IPv4 address, the dotted mask of its prefix and its gateway unless empty. */
  function FixedIPv4(p: ParsedCidr, gateway: string): IPv4Part
  {
    IPv4Part(FixedIp(p.ip), SubnetMaskString(p.ones, p.bits), if gateway == "" then [] else [gateway])
  }

  /** The IPv6 switch: DHCP6 gives one DHCPv6 generator, else every non-IPv4 entry is parsed
      and collected. */
  function IPv6Selection(r: InterfaceResult, parse: CidrParser): Result<Option<IpV6AddressSpec>, ParseError>
  {
    if r.dhcp6 then Success(Some(IpV6AddressSpec([DhcpIpV6], [])))
    else StaticIPv6Selection(r.ipConfigs, parse)
  }

  /** The `default:` branch of the IPv6 switch: every non-IPv4 entry parsed and collected. */
  function StaticIPv6Selection(cs: seq<IpConfig>, parse: CidrParser): Result<Option<IpV6AddressSpec>, ParseError>
  {
    var v6 := IPv6Configs(cs);
    match ParseEach(v6, parse)
    case Failure(e) => Failure(e)
    case Success(ps) => Success(StaticIPv6Spec(v6, ps))
  }

  /** One step of the IPv6 loop: create `IpV6Spec` if nil, append the fixed address, and
      append the gateway when it is non-empty. */
  function AppendIPv6(spec: Option<IpV6AddressSpec>, p: ParsedCidr, gateway: string): IpV6AddressSpec
  {
    var s := if spec.None? then IpV6AddressSpec([], []) else spec.value;
    IpV6AddressSpec(s.ip + [FixedIpV6(p.ip, p.ones)],
                    if gateway == "" then s.gateway else s.gateway + [gateway])
  }

  /** The condition of the IPv6-only fix, evaluated after both switches. */
  predicate NeedsDhcpFallback(ip: IpGenerator, noIPAM: bool, ipV6Spec: Option<IpV6AddressSpec>, dhcp6: bool)
  {
    ip == NoIp && !noIPAM && (ipV6Spec.Some? || dhcp6)
  }

  /** The mapping built for one result, or the first parse error met while building it. */
  function AdapterMappingOf(r: InterfaceResult, parse: CidrParser): Result<AdapterMapping, ParseError>
  {
    match IPv4Selection(r, parse)
    case Failure(e) => Failure(e)
    case Success(v4) =>
      match IPv6Selection(r, parse)
      case Failure(e) => Failure(e)
      case Success(v6) =>
        var ip := if NeedsDhcpFallback(v4.ip, r.noIPAM, v6, r.dhcp6) then DhcpIp else v4.ip;
        Success(AdapterMapping(r.macAddress, IpSettings(ip, v4.subnetMask, v4.gateway, v6, r.nameservers)))
  }

  /** The result of the whole call: every mapping in order, or the first adapter's error. */
  function Translation(rs: seq<InterfaceResult>, parse: CidrParser): Result<seq<AdapterMapping>, ParseError>
  {
    if rs == [] then Success([])
    else match AdapterMappingOf(rs[0], parse)
      case Failure(e) => Failure(e)
      case Success(m) =>
        match Translation(rs[1..], parse)
        case Failure(e) => Failure(e)
        case Success(ms) => Success([m] + ms)
  }

  /** The CIDR strings of `cs`. */
  function Cidrs(cs: seq<IpConfig>): seq<string>
  {
    seq(|cs|, k requires 0 <= k < |cs| => cs[k].ipCidr)
  }

  /** The CIDR strings the translator hands to `net.ParseCIDR` for `r`, in call order: the
      first IPv4 entry's when neither DHCP4 nor NoIPAM is set, then every non-IPv4 entry's
      when DHCP6 is not set. */
  function ParsedCidrs(r: InterfaceResult): seq<string>
  {
    var v4 :=
      if r.dhcp4 || r.noIPAM then []
      else match FirstIPv4(r.ipConfigs)
        case None => []
        case Some(k) => [r.ipConfigs[k].ipCidr];
    var v6 := if r.dhcp6 then [] else Cidrs(IPv6Configs(r.ipConfigs));
    v4 + v6
  }

  /** The IPv6 loop visits every entry not flagged IPv4. */
  lemma {:induction false} IPv6ConfigsComplete(cs: seq<IpConfig>)
    ensures forall k :: 0 <= k < |cs| && !cs[k].isIPv4 ==> cs[k] in IPv6Configs(cs)
  {
    if cs != [] {
      IPv6ConfigsComplete(cs[1..]);
      forall k | 1 <= k < |cs| && !cs[k].isIPv4 ensures cs[k] in IPv6Configs(cs) {
        assert cs[k] == cs[1..][k - 1];
      }
    }
  }

  /** Every non-empty gateway of the entries is collected. */
  lemma {:induction false} GatewaysComplete(cs: seq<IpConfig>)
    ensures forall k :: 0 <= k < |cs| && cs[k].gateway != "" ==> cs[k].gateway in Gateways(cs)
  {
    if cs != [] {
      GatewaysComplete(cs[1..]);
      forall k | 1 <= k < |cs| && cs[k].gateway != "" ensures cs[k].gateway in Gateways(cs) {
        assert cs[k] == cs[1..][k - 1];
      }
    }
  }

  /** Every gateway collected is the gateway of some entry. */
  lemma {:induction false} GatewaysSound(cs: seq<IpConfig>)
    ensures forall g :: g in Gateways(cs) ==> exists k :: 0 <= k < |cs| && cs[k].gateway == g
  {
    if cs != [] {
      GatewaysSound(cs[1..]);
      forall g | g in Gateways(cs) ensures exists k :: 0 <= k < |cs| && cs[k].gateway == g {
        if g in Gateways(cs[1..]) {
          var k :| 0 <= k < |cs[1..]| && cs[1..][k].gateway == g;
          assert cs[k + 1].gateway == g;
        } else {
          assert cs[0].gateway == g;
        }
      }
    }
  }

  // Append laws: the loops of gosc.go build these results element by element.

  lemma {:induction false} IPv6ConfigsAppend(xs: seq<IpConfig>, ys: seq<IpConfig>)
    ensures IPv6Configs(xs + ys) == IPv6Configs(xs) + IPv6Configs(ys)
  {
    if xs == [] {
      assert xs + ys == ys;
    } else {
      assert (xs + ys)[1..] == xs[1..] + ys;
      IPv6ConfigsAppend(xs[1..], ys);
    }
  }

  lemma {:induction false} GatewaysAppend(xs: seq<IpConfig>, ys: seq<IpConfig>)
    ensures Gateways(xs + ys) == Gateways(xs) + Gateways(ys)
  {
    if xs == [] {
      assert xs + ys == ys;
    } else {
      assert (xs + ys)[1..] == xs[1..] + ys;
      GatewaysAppend(xs[1..], ys);
    }
  }

  lemma {:induction false} ParseEachAppend(xs: seq<IpConfig>, ys: seq<IpConfig>, parse: CidrParser)
    ensures ParseEach(xs + ys, parse) ==
      match ParseEach(xs, parse)
      case Failure(e) => Failure(e)
      case Success(ps) =>
        match ParseEach(ys, parse)
        case Failure(e) => Failure(e)
        case Success(qs) => Success(ps + qs)
  {
    if xs == [] {
      assert xs + ys == ys;
      if ParseEach(ys, parse).Success? {
        assert [] + ParseEach(ys, parse).value == ParseEach(ys, parse).value;
      }
    } else {
      assert (xs + ys)[1..] == xs[1..] + ys;
      ParseEachAppend(xs[1..], ys, parse);
      match parse(xs[0].ipCidr)
      case Failure(_) =>
      case Success(p) =>
        match ParseEach(xs[1..], parse)
        case Failure(_) =>
        case Success(ps) =>
          match ParseEach(ys, parse)
          case Failure(_) =>
          case Success(qs) =>
            assert ([p] + ps) + qs == [p] + (ps + qs);
    }
  }

  lemma {:induction false} TranslationAppend(xs: seq<InterfaceResult>, ys: seq<InterfaceResult>, parse: CidrParser)
    ensures Translation(xs + ys, parse) ==
      match Translation(xs, parse)
      case Failure(e) => Failure(e)
      case Success(ms) =>
        match Translation(ys, parse)
        case Failure(e) => Failure(e)
        case Success(ns) => Success(ms + ns)
  {
    if xs == [] {
      assert xs + ys == ys;
      if Translation(ys, parse).Success? {
        assert [] + Translation(ys, parse).value == Translation(ys, parse).value;
      }
    } else {
      assert (xs + ys)[1..] == xs[1..] + ys;
      TranslationAppend(xs[1..], ys, parse);
      match AdapterMappingOf(xs[0], parse)
      case Failure(_) =>
      case Success(m) =>
        match Translation(xs[1..], parse)
        case Failure(_) =>
        case Success(ms) =>
          match Translation(ys, parse)
          case Failure(_) =>
          case Success(ns) =>
            assert ([m] + ms) + ns == [m] + (ms + ns);
    }
  }

  lemma TranslationOfOne(r: InterfaceResult, parse: CidrParser)
    ensures Translation([r], parse) ==
      match AdapterMappingOf(r, parse)
      case Failure(e) => Failure(e)
      case Success(m) => Success([m])
  {
    assert [r][1..] == [];
    if AdapterMappingOf(r, parse).Success? {
      var m := AdapterMappingOf(r, parse).value;
      assert [m] + [] == [m];
    }
  }

  /** One adapter whose two switches are known translates to the single mapping they make. */
  lemma OneAdapter(r: InterfaceResult, parse: CidrParser, v4: IPv4Part, v6: Option<IpV6AddressSpec>)
    requires IPv4Selection(r, parse) == Success(v4) && IPv6Selection(r, parse) == Success(v6)
    ensures Translation([r], parse) == Success([AdapterMapping(r.macAddress, IpSettings(
      if NeedsDhcpFallback(v4.ip, r.noIPAM, v6, r.dhcp6) then DhcpIp else v4.ip,
      v4.subnetMask, v4.gateway, v6, r.nameservers))])
  {
    TranslationOfOne(r, parse);
  }

  /** One iteration of the loop over results: the prefix translated so far, extended by the
      next adapter's mapping or cut short by its error. */
  lemma TranslationStep(rs: seq<InterfaceResult>, i: nat, parse: CidrParser)
    requires i < |rs|
    ensures Translation(rs[..i + 1], parse) ==
      match Translation(rs[..i], parse)
      case Failure(e) => Failure(e)
      case Success(ms) =>
        match AdapterMappingOf(rs[i], parse)
        case Failure(e) => Failure(e)
        case Success(m) => Success(ms + [m])
  {
    assert rs[..i + 1] == rs[..i] + [rs[i]];
    TranslationAppend(rs[..i], [rs[i]], parse);
    TranslationOfOne(rs[i], parse);
  }

  /** Once a prefix of the results fails, the adapters after it do not change the outcome. */
  lemma TranslationStopsAt(rs: seq<InterfaceResult>, i: nat, parse: CidrParser)
    requires i <= |rs| && Translation(rs[..i], parse).Failure?
    ensures Translation(rs, parse) == Translation(rs[..i], parse)
  {
    assert rs == rs[..i] + rs[i..];
    TranslationAppend(rs[..i], rs[i..], parse);
  }

  lemma FixedIPv6Append(ps: seq<ParsedCidr>, p: ParsedCidr)
    ensures FixedIPv6(ps + [p]) == FixedIPv6(ps) + [FixedIpV6(p.ip, p.ones)]
  {
  }

  /** The IPv6 loop's step: a visited IPv4 entry changes nothing; a non-IPv4 entry is parsed
      and appended, or its error becomes the result. */
  lemma StaticIPv6SelectionSnoc(cs: seq<IpConfig>, c: IpConfig, parse: CidrParser)
    requires StaticIPv6Selection(cs, parse).Success?
    ensures StaticIPv6Selection(cs + [c], parse) ==
      if c.isIPv4 then StaticIPv6Selection(cs, parse)
      else match parse(c.ipCidr)
        case Failure(e) => Failure(e)
        case Success(p) => Success(Some(AppendIPv6(StaticIPv6Selection(cs, parse).value, p, c.gateway)))
  {
    var v6 := IPv6Configs(cs);
    var ps := ParseEach(v6, parse).value;
    IPv6ConfigsAppend(cs, [c]);
    assert [c][1..] == [];
    if c.isIPv4 {
      assert IPv6Configs([c]) == [];
      assert IPv6Configs(cs + [c]) == v6;
    } else {
      assert IPv6Configs([c]) == [c];
      assert IPv6Configs(cs + [c]) == v6 + [c];
      ParseEachAppend(v6, [c], parse);
      match parse(c.ipCidr)
      case Failure(e) =>
        assert ParseEach([c], parse) == Failure(e);
        assert ParseEach(v6 + [c], parse) == Failure(e);
      case Success(p) =>
        assert [p] + [] == [p];
        assert ParseEach([c], parse) == Success([p]);
        assert ParseEach(v6 + [c], parse) == Success(ps + [p]);
        FixedIPv6Append(ps, p);
        GatewaysAppend(v6, [c]);
        assert Gateways([c]) == if c.gateway == "" then [] else [c.gateway];
        StaticIPv6SpecSnoc(v6, ps, c, p);
    }
  }

  lemma StaticIPv6SpecSnoc(v6: seq<IpConfig>, ps: seq<ParsedCidr>, c: IpConfig, p: ParsedCidr)
    requires |ps| == |v6|
    ensures StaticIPv6Spec(v6 + [c], ps + [p]) == Some(AppendIPv6(StaticIPv6Spec(v6, ps), p, c.gateway))
  {
    FixedIPv6Append(ps, p);
    GatewaysAppend(v6, [c]);
    assert [c][1..] == [];
    assert Gateways([c]) == if c.gateway == "" then [] else [c.gateway];
    assert Gateways(v6) + [] == Gateways(v6);
    if v6 == [] {
      assert ps + [p] == [p];
      assert FixedIPv6([p]) == [FixedIpV6(p.ip, p.ones)];
      assert Gateways(v6 + [c]) == Gateways([c]);
    }
  }

  /** Once the IPv6 loop meets an error, later entries do not matter. */
  lemma StaticIPv6SelectionStops(cs: seq<IpConfig>, rest: seq<IpConfig>, parse: CidrParser)
    requires StaticIPv6Selection(cs, parse).Failure?
    ensures StaticIPv6Selection(cs + rest, parse) == StaticIPv6Selection(cs, parse)
  {
    IPv6ConfigsAppend(cs, rest);
    ParseEachAppend(IPv6Configs(cs), IPv6Configs(rest), parse);
  }
}
