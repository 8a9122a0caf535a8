/**
 * Worked examples of the translation: the seven scenarios of gosc_test.go, plus two cases taken
 * from gosc.go itself (a rejected CIDR, and an IPv6 CIDR in an entry flagged IPv4). They use a
 * table parser that behaves like `net.ParseCIDR` on the addresses these examples use and rejects
 * every other string.
 */
module GoscScenarios {
  import opened Wrappers
  import opened Net
  import opened NetworkTypes
  import opened GoscSpec

  const Mac := "50:8A:80:9D:28:22"
  const Dns := "9.9.9.9"
  const V4Gateway := "192.168.1.1"
  const V6Gateway := "fd8e:b5a0:f172:123::1"

  const Host10: ParsedCidr := Cidr("192.168.1.10", 24, 32)
  const Host100: ParsedCidr := Cidr("192.168.1.100", 24, 32)
  const HostF: ParsedCidr := Cidr("fd8e:b5a0:f172:123::f", 48, 128)
  const Host6: ParsedCidr := Cidr("2001:db8::100", 64, 128)

  /** `net.ParseCIDR` on the CIDR strings of the scenarios; anything else is malformed. */
  function TestParser(s: string): Result<ParsedCidr, ParseError>
  {
    if s == "192.168.1.10/24" then Success(Host10)
    else if s == "192.168.1.100/24" then Success(Host100)
    else if s == "fd8e:b5a0:f172:123::f/48" then Success(HostF)
    else if s == "2001:db8::100/64" then Success(Host6)
    else Failure(ParseError("CIDR address", s))
  }

  /** An adapter named eth0 with MTU 1500 and no routes, as in every scenario. */
  function Eth0(configs: seq<IpConfig>, dhcp4: bool, dhcp6: bool, noIPAM: bool, nameservers: seq<string>): InterfaceResult
  {
    InterfaceResult(configs, Mac, "eth0", dhcp4, dhcp6, noIPAM, 1500, nameservers, [])
  }

  /** The dotted mask of a /24 IPv4 network. */
  lemma SlashTwentyFourMask()
    ensures SubnetMaskString(24, 32) == "255.255.255.0"
  {
    SlashTwentyFourBytes();
    Decimal255();
    assert DecimalString(0) == "0";
  }

  lemma SlashTwentyFourBytes()
    ensures CIDRMask(24, 32) == [255, 255, 255, 0]
  {
    AlignedMaskBytes(3, 1);
    assert seq(3, _ => 255) + seq(1, _ => 0) == [255, 255, 255, 0];
  }

  lemma Decimal255()
    ensures DecimalString(255) == "255"
  {
    assert DecimalString(25) == "25" by {
      assert DecimalString(2) == "2";
    }
  }

  /** The IPv6 loop over no entries leaves `IpV6Spec` nil. */
  lemma NoIPv6Entries(parse: CidrParser)
    ensures StaticIPv6Selection([], parse) == Success(None)
  {
    assert IPv6Configs([]) == [];
  }

  /** The IPv6 loop over one IPv6 entry that parses. */
  lemma OneIPv6Entry(c: IpConfig, parse: CidrParser)
    requires !c.isIPv4 && parse(c.ipCidr).Success?
    ensures StaticIPv6Selection([c], parse) == Success(Some(AppendIPv6(None, parse(c.ipCidr).value, c.gateway)))
  {
    NoIPv6Entries(parse);
    StaticIPv6SelectionSnoc([], c, parse);
    assert [] + [c] == [c];
  }

  /** The IPv4 scan stops at a leading IPv4 entry that parses. */
  lemma LeadingIPv4Entry(c: IpConfig, rest: seq<IpConfig>, parse: CidrParser)
    requires c.isIPv4 && parse(c.ipCidr).Success?
    ensures StaticIPv4Selection([c] + rest, parse) == Success(FixedIPv4(parse(c.ipCidr).value, c.gateway))
  {
    assert ([c] + rest)[0] == c;
    assert FirstIPv4([c] + rest) == Some(0);
  }

  /** The first IPv6 address appended to a nil `IpV6Spec`, with a non-empty gateway. */
  lemma FirstIPv6Address(p: ParsedCidr, gateway: string)
    requires gateway != ""
    ensures AppendIPv6(None, p, gateway) == IpV6AddressSpec([FixedIpV6(p.ip, p.ones)], [gateway])
  {
    var gs: seq<string> := [];
    assert gs + [gateway] == [gateway];
    var noIps: seq<IpV6Generator> := [];
    assert noIps + [FixedIpV6(p.ip, p.ones)] == [FixedIpV6(p.ip, p.ones)];
  }

  /** The IPv4 scan over a single IPv4 entry that parses. */
  lemma OneIPv4Entry(c: IpConfig, parse: CidrParser)
    requires c.isIPv4 && parse(c.ipCidr).Success?
    ensures StaticIPv4Selection([c], parse) == Success(FixedIPv4(parse(c.ipCidr).value, c.gateway))
  {
    LeadingIPv4Entry(c, [], parse);
    assert [c] + [] == [c];
  }

  /** The IPv6 loop over a single IPv4 entry leaves `IpV6Spec` nil. */
  lemma NoIPv6InOneIPv4Entry(c: IpConfig, parse: CidrParser)
    requires c.isIPv4
    ensures StaticIPv6Selection([c], parse) == Success(None)
  {
    NoIPv6Entries(parse);
    StaticIPv6SelectionSnoc([], c, parse);
    assert [] + [c] == [c];
  }

  /** The entries of the static dual-stack adapter, with the gateways given. */
  function DualStackConfigs(gateway4: string, gateway6: string): seq<IpConfig>
  {
    [IpConfig("192.168.1.10/24", true, gateway4), IpConfig("fd8e:b5a0:f172:123::f/48", false, gateway6)]
  }

  lemma DualStackIPv4(gateway4: string, gateway6: string)
    ensures StaticIPv4Selection(DualStackConfigs(gateway4, gateway6), TestParser)
      == Success(IPv4Part(FixedIp("192.168.1.10"), "255.255.255.0", if gateway4 == "" then [] else [gateway4]))
  {
    var cs := DualStackConfigs(gateway4, gateway6);
    assert TestParser(cs[0].ipCidr) == Success(Host10);
    SlashTwentyFourMask();
    LeadingIPv4Entry(cs[0], [cs[1]], TestParser);
    assert cs == [cs[0]] + [cs[1]];
  }

  lemma DualStackIPv6(gateway4: string, gateway6: string)
    ensures StaticIPv6Selection(DualStackConfigs(gateway4, gateway6), TestParser)
      == Success(Some(IpV6AddressSpec([FixedIpV6("fd8e:b5a0:f172:123::f", 48)], if gateway6 == "" then [] else [gateway6])))
  {
    var cs := DualStackConfigs(gateway4, gateway6);
    var c4, c6 := cs[0], cs[1];
    assert TestParser(c6.ipCidr) == Success(HostF);
    NoIPv6Entries(TestParser);
    StaticIPv6SelectionSnoc([], c4, TestParser);
    assert [] + [c4] == [c4];
    assert StaticIPv6Selection([c4], TestParser) == Success(None);
    StaticIPv6SelectionSnoc([c4], c6, TestParser);
    assert [c4] + [c6] == cs;
    assert StaticIPv6Selection(cs, TestParser) == Success(Some(AppendIPv6(None, HostF, gateway6)));
    var gs: seq<string> := [];
    assert gs + [gateway6] == [gateway6];
    var noIps: seq<IpV6Generator> := [];
    assert noIps + [FixedIpV6(HostF.ip, HostF.ones)] == [FixedIpV6("fd8e:b5a0:f172:123::f", 48)];
    assert AppendIPv6(None, HostF, gateway6)
      == IpV6AddressSpec([FixedIpV6("fd8e:b5a0:f172:123::f", 48)], if gateway6 == "" then [] else [gateway6]);
  }

  /** A static IPv4 and a static IPv6 address, each with its gateway or, when the gateway is
      left empty, none. */
  lemma StaticDualStackScenario(gateway4: string, gateway6: string)
    requires gateway4 == V4Gateway || gateway4 == ""
    requires gateway6 == V6Gateway || gateway6 == ""
    ensures Translation([Eth0(DualStackConfigs(gateway4, gateway6), false, false, false, [Dns])], TestParser)
      == Success([AdapterMapping(Mac, IpSettings(
           FixedIp("192.168.1.10"), "255.255.255.0",
           if gateway4 == "" then [] else [gateway4],
           Some(IpV6AddressSpec([FixedIpV6("fd8e:b5a0:f172:123::f", 48)], if gateway6 == "" then [] else [gateway6])),
           [Dns]))])
  {
    var r := Eth0(DualStackConfigs(gateway4, gateway6), false, false, false, [Dns]);
    DualStackIPv4(gateway4, gateway6);
    DualStackIPv6(gateway4, gateway6);
    OneAdapter(r, TestParser, IPv4Selection(r, TestParser).value, IPv6Selection(r, TestParser).value);
  }

  /** DHCP4 and DHCP6 without addresses. */
  lemma DhcpScenario()
    ensures Translation([Eth0([], true, true, false, [Dns])], TestParser)
      == Success([AdapterMapping(Mac, IpSettings(DhcpIp, "", [], Some(IpV6AddressSpec([DhcpIpV6], [])), [Dns]))])
  {
    TranslationOfOne(Eth0([], true, true, false, [Dns]), TestParser);
  }

  /** NoIPAM: no address at all, and no fallback. */
  lemma NoIPAMScenario()
    ensures Translation([Eth0([], false, false, true, [])], TestParser)
      == Success([AdapterMapping(Mac, IpSettings(NoIp, "", [], None, []))])
  {
    NoIPv6Entries(TestParser);
    TranslationOfOne(Eth0([], false, false, true, []), TestParser);
  }

  /** A single static IPv4 address leaves `IpV6Spec` nil. */
  lemma IPv4OnlyStaticScenario()
    ensures Translation([Eth0([IpConfig("192.168.1.100/24", true, V4Gateway)], false, false, false, [Dns])], TestParser)
      == Success([AdapterMapping(Mac, IpSettings(FixedIp("192.168.1.100"), "255.255.255.0", [V4Gateway], None, [Dns]))])
  {
    var c := IpConfig("192.168.1.100/24", true, V4Gateway);
    var r := Eth0([c], false, false, false, [Dns]);
    var v4 := IPv4Part(FixedIp("192.168.1.100"), "255.255.255.0", [V4Gateway]);
    assert IPv4Selection(r, TestParser) == Success(v4) by {
      assert TestParser(c.ipCidr) == Success(Host100);
      SlashTwentyFourMask();
      OneIPv4Entry(c, TestParser);
    }
    assert IPv6Selection(r, TestParser) == Success(None) by {
      NoIPv6InOneIPv4Entry(c, TestParser);
    }
    OneAdapter(r, TestParser, v4, None);
  }

  /** A single static IPv6 address: the fallback sets `Ip` to the DHCP generator. */
  lemma IPv6OnlyStaticScenario()
    ensures Translation([Eth0([IpConfig("2001:db8::100/64", false, "2001:db8::1")], false, false, false, ["2001:4860:4860::8888"])], TestParser)
      == Success([AdapterMapping(Mac, IpSettings(DhcpIp, "", [],
           Some(IpV6AddressSpec([FixedIpV6("2001:db8::100", 64)], ["2001:db8::1"])), ["2001:4860:4860::8888"]))])
  {
    var c := IpConfig("2001:db8::100/64", false, "2001:db8::1");
    var r := Eth0([c], false, false, false, ["2001:4860:4860::8888"]);
    var v6 := Some(IpV6AddressSpec([FixedIpV6("2001:db8::100", 64)], ["2001:db8::1"]));
    assert IPv4Selection(r, TestParser) == Success(IPv4Part(NoIp, "", [])) by {
      assert FirstIPv4(r.ipConfigs) == None;
    }
    assert IPv6Selection(r, TestParser) == Success(v6) by {
      assert TestParser(c.ipCidr) == Success(Host6);
      OneIPv6Entry(c, TestParser);
      FirstIPv6Address(Host6, c.gateway);
    }
    OneAdapter(r, TestParser, IPv4Part(NoIp, "", []), v6);
  }

  /** DHCP4 with a static IPv6 address. */
  lemma Dhcp4StaticIPv6Scenario()
    ensures Translation([Eth0([IpConfig("2001:db8::100/64", false, "2001:db8::1")], true, false, false, [Dns])], TestParser)
      == Success([AdapterMapping(Mac, IpSettings(DhcpIp, "", [],
           Some(IpV6AddressSpec([FixedIpV6("2001:db8::100", 64)], ["2001:db8::1"])), [Dns]))])
  {
    var c := IpConfig("2001:db8::100/64", false, "2001:db8::1");
    var r := Eth0([c], true, false, false, [Dns]);
    var v6 := Some(IpV6AddressSpec([FixedIpV6("2001:db8::100", 64)], ["2001:db8::1"]));
    assert IPv6Selection(r, TestParser) == Success(v6) by {
      assert TestParser(c.ipCidr) == Success(Host6);
      OneIPv6Entry(c, TestParser);
      FirstIPv6Address(Host6, c.gateway);
    }
    OneAdapter(r, TestParser, IPv4Part(DhcpIp, "", []), v6);
  }

  /** A static IPv4 address with DHCP6. */
  lemma StaticIPv4Dhcp6Scenario()
    ensures Translation([Eth0([IpConfig("192.168.1.100/24", true, V4Gateway)], false, true, false, [Dns])], TestParser)
      == Success([AdapterMapping(Mac, IpSettings(FixedIp("192.168.1.100"), "255.255.255.0", [V4Gateway],
           Some(IpV6AddressSpec([DhcpIpV6], [])), [Dns]))])
  {
    var c := IpConfig("192.168.1.100/24", true, V4Gateway);
    var r := Eth0([c], false, true, false, [Dns]);
    var v4 := IPv4Part(FixedIp("192.168.1.100"), "255.255.255.0", [V4Gateway]);
    assert IPv4Selection(r, TestParser) == Success(v4) by {
      assert TestParser(c.ipCidr) == Success(Host100);
      SlashTwentyFourMask();
      OneIPv4Entry(c, TestParser);
    }
    OneAdapter(r, TestParser, v4, Some(IpV6AddressSpec([DhcpIpV6], [])));
  }

  /** A malformed CIDR on the second adapter: the whole call fails with the parser's error,
      although the first adapter alone would have succeeded. */
  lemma MalformedCidrScenario()
    ensures Translation([Eth0([IpConfig("192.168.1.100/24", true, V4Gateway)], false, true, false, [Dns]),
                         Eth0([IpConfig("192.168.1.300/24", true, "")], false, false, false, [])], TestParser)
      == Failure(ParseError("CIDR address", "192.168.1.300/24"))
  {
    var r1 := Eth0([IpConfig("192.168.1.100/24", true, V4Gateway)], false, true, false, [Dns]);
    var c := IpConfig("192.168.1.300/24", true, "");
    var r2 := Eth0([c], false, false, false, []);
    var e := ParseError("CIDR address", "192.168.1.300/24");
    assert Translation([r1], TestParser).Success? by {
      StaticIPv4Dhcp6Scenario();
    }
    assert Translation([r2], TestParser) == Failure(e) by {
      assert TestParser(c.ipCidr) == Failure(e);
      assert FirstIPv4([c]) == Some(0);
      assert IPv4Selection(r2, TestParser) == Failure(e);
      TranslationOfOne(r2, TestParser);
    }
    TranslationAppend([r1], [r2], TestParser);
    assert [r1] + [r2] == [r1, r2];
  }

  const FullGroups: seq<nat> := [65535, 65535, 65535, 65535]

  lemma SlashSixtyFourBytes()
    ensures CIDRMask(64, 128) == SlashSixtyFour
  {
    AlignedMaskBytes(8, 8);
    assert seq(8, _ => 255) + seq(8, _ => 0) == SlashSixtyFour;
  }

  lemma TrailingZerosOfSlashSixtyFour()
    ensures TrailingZeroGroups(FullGroups + [0, 0, 0, 0]) == 4
  {
    var ones := FullGroups;
    assert TrailingZeroGroups(ones) == 0;
    assert TrailingZeroGroups(ones + [0]) == 1 by { assert (ones + [0])[..4] == ones; }
    assert TrailingZeroGroups(ones + [0, 0]) == 2 by { assert (ones + [0, 0])[..5] == ones + [0]; }
    assert TrailingZeroGroups(ones + [0, 0, 0]) == 3 by { assert (ones + [0, 0, 0])[..6] == ones + [0, 0]; }
    assert (ones + [0, 0, 0, 0])[..7] == ones + [0, 0, 0];
  }

  lemma HexFFFF()
    ensures HexString(65535) == "ffff"
  {
    assert HexString(4095) == "fff" by {
      assert HexString(255) == "ff";
    }
  }

  /** One more group in front of a non-empty list of groups. */
  lemma JoinHexCons(g: nat, gs: seq<nat>)
    requires gs != []
    ensures JoinHex([g] + gs) == HexString(g) + ":" + JoinHex(gs)
  {
    assert ([g] + gs)[1..] == gs;
  }

  lemma FullGroupsText()
    ensures JoinHex(FullGroups) == "ffff:ffff:ffff:ffff"
  {
    HexFFFF();
    assert JoinHex([65535]) == "ffff";
    JoinHexCons(65535, [65535]);
    JoinHexCons(65535, [65535, 65535]);
    JoinHexCons(65535, [65535, 65535, 65535]);
    assert [65535] + [65535, 65535, 65535] == FullGroups;
  }

  const SlashSixtyFour: seq<nat> := [255, 255, 255, 255, 255, 255, 255, 255, 0, 0, 0, 0, 0, 0, 0, 0]

  lemma SlashSixtyFourGroupsText()
    ensures MaskGroupsText(SlashSixtyFour) == "ffff:ffff:ffff:ffff::"
  {
    var m := SlashSixtyFour;
    var groups := seq(8, k requires 0 <= k < 8 => m[2 * k] * 256 + m[2 * k + 1]);
    assert groups == FullGroups + [0, 0, 0, 0] by {
      forall k | 0 <= k < 8 ensures groups[k] == (FullGroups + [0, 0, 0, 0])[k] {
      }
    }
    TrailingZerosOfSlashSixtyFour();
    assert groups[..4] == FullGroups;
    FullGroupsText();
  }

  /** The IPv6 text of the mask of a /64 IPv6 network: four groups of ones, then "::". */
  lemma SlashSixtyFourMask()
    ensures SubnetMaskString(64, 128) == "ffff:ffff:ffff:ffff::"
  {
    SlashSixtyFourBytes();
    assert CIDRMask(64, 128) == SlashSixtyFour;
    SlashSixtyFourGroupsText();
  }

  /** An IPv6 CIDR in an entry flagged IPv4 yields a fixed address with the IPv6 text of its mask
      as the subnet mask. */
  lemma IPv6TextInIPv4EntryScenario()
    ensures Translation([Eth0([IpConfig("2001:db8::100/64", true, "")], false, false, false, [])], TestParser)
      == Success([AdapterMapping(Mac, IpSettings(FixedIp("2001:db8::100"), "ffff:ffff:ffff:ffff::", [],
           None, []))])
  {
    var c := IpConfig("2001:db8::100/64", true, "");
    var r := Eth0([c], false, false, false, []);
    var v4 := IPv4Part(FixedIp("2001:db8::100"), "ffff:ffff:ffff:ffff::", []);
    assert IPv4Selection(r, TestParser) == Success(v4) by {
      assert TestParser(c.ipCidr) == Success(Host6);
      SlashSixtyFourMask();
      OneIPv4Entry(c, TestParser);
    }
    assert IPv6Selection(r, TestParser) == Success(None) by {
      NoIPv6InOneIPv4Entry(c, TestParser);
    }
    OneAdapter(r, TestParser, v4, None);
  }
}
