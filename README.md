# GOSC adapter mappings

A Dafny model of the guest OS customization (GOSC) translator of the vSphere network provider:
`GuestOSCustomizationWithLogger` and its wrapper `GuestOSCustomization` in
`pkg/providers/vsphere/network/gosc.go`. The translator walks the per-NIC network results in
order and builds one vSphere `CustomizationAdapterMapping` per NIC. For each NIC it does four things:

- it picks the IPv4 setting: DHCP4, then NoIPAM, then the first static IPv4 entry;
- it picks the IPv6 setting: DHCP6, or every static IPv6 entry in order;
- it applies the IPv6-only fallback, which sets `Ip` to a DHCP generator;
- it aborts the whole call on the first CIDR that `net.ParseCIDR` rejects.

The project is laid out as follows:

- `wrappers.dfy`: `Option` and `Result`.
- `net.dfy`: the parts of Go's `net` package the translator uses.
  - The outcome of `net.ParseCIDR`. The parser itself is a parameter, `CidrParser`.
  - `net.CIDRMask` and `IPMask.Size`.
  - The text of a subnet mask.
- `network_types.dfy`: the NIC results and the fields of the vSphere types that are set.
- `gosc_spec.dfy`: the translator as functions: each switch, the fallback, one adapter, the whole call. It also holds the append laws the loops need.
- `gosc.dfy`: the translator as the source writes it, one method per step:
  - the IPv4 scan, with its `break`;
  - the IPv6 append loop;
  - the per-adapter body;
  - the outer loop, with its early return on error;
  - the wrapper.

  Each method is proved equal to its function in `gosc_spec.dfy`.
- `gosc_properties.dfy`: what the translator promises, proved of those functions and so of the methods.
- `gosc_scenarios.dfy`: worked examples, stated as lemmas. They use a table parser that knows the CIDR strings the examples use.
  - The seven scenarios of `gosc_test.go`.
  - Two cases that the test file does not exercise, taken from gosc.go itself: the error return on a rejected CIDR (gosc.go:71-74), and an IPv6 CIDR in an entry flagged IPv4 (gosc.go:75-78).

## Model

| member | source | states |
|---|---|---|
| Gosc.GuestOSCustomizationWithLogger | pkg/providers/vsphere/network/gosc.go:20-198 | The loop over results returns exactly `Translation`: one mapping per result, in order, or the error of the first adapter that fails. The logger never affects the result. |
| Gosc.GuestOSCustomization | pkg/providers/vsphere/network/gosc.go:15-18 | The wrapper with the zero logger returns the same `Translation` as the call with a logger. |
| Gosc.BuildAdapterMapping | pkg/providers/vsphere/network/gosc.go:42-194 | The per-adapter body returns exactly `AdapterMappingOf`. It assigns the fields across the IPv4 switch, the IPv6 switch and the fallback, and returns early on a parse error. |
| Gosc.ScanIPv4 | pkg/providers/vsphere/network/gosc.go:62-95 | The IPv4 scan skips non-IPv4 entries and stops at the first IPv4 entry. It returns that entry's fixed address, mask and gateway, or its parse error. |
| Gosc.CollectIPv6 | pkg/providers/vsphere/network/gosc.go:112-142 | The IPv6 loop equals `StaticIPv6Selection`: every non-IPv4 entry is parsed and appended, creating `IpV6Spec` on the first one, or the first parse error is returned. |
| GoscSpec.FirstIPv4 | pkg/providers/vsphere/network/gosc.go:66-69 | The index found is of an IPv4 entry with no IPv4 entry before it. None means there is no IPv4 entry at all. |
| GoscSpec.IPv6Configs | pkg/providers/vsphere/network/gosc.go:113-116 | The entries the IPv6 loop visits are non-IPv4 entries of the input. There are none exactly when every entry is IPv4. |
| GoscSpec.IPv6ConfigsComplete | pkg/providers/vsphere/network/gosc.go:113-116 | Every entry not flagged IPv4 is visited by the IPv6 loop, so together with `IPv6Configs` the visited entries are exactly the non-IPv4 ones. |
| GoscSpec.ParseEach | pkg/providers/vsphere/network/gosc.go:118-121 | On success there is one parse per entry, each the parser's result for that entry. It fails exactly when some entry is rejected, with the error of the first rejected entry. |
| GoscSpec.Gateways | pkg/providers/vsphere/network/gosc.go:131-133 | No empty gateway is ever appended. |
| GoscSpec.GatewaysComplete | pkg/providers/vsphere/network/gosc.go:131-133 | Every non-empty gateway of the entries is appended. |
| GoscSpec.GatewaysSound | pkg/providers/vsphere/network/gosc.go:131-133 | Every collected gateway is the gateway of some entry. With `GatewaysComplete`, the list holds exactly the entries' non-empty gateways. |
| GoscSpec.IPv6ConfigsAppend | pkg/providers/vsphere/network/gosc.go:113-116 | Selecting the non-IPv4 entries distributes over concatenation. |
| GoscSpec.GatewaysAppend | pkg/providers/vsphere/network/gosc.go:131-133 | Collecting the non-empty gateways distributes over concatenation. |
| GoscSpec.ParseEachAppend | pkg/providers/vsphere/network/gosc.go:118-121 | Parsing a concatenation fails with the first part's error, or else the second part's. Otherwise it yields the two lists of parses joined. |
| GoscSpec.TranslationAppend | pkg/providers/vsphere/network/gosc.go:23-197 | Translating a concatenation gives the first part's error, or else the second part's. Otherwise it gives the two lists of mappings joined. |
| GoscSpec.TranslationOfOne | pkg/providers/vsphere/network/gosc.go:191-194 | One result translates to its adapter's error or to a one-element list. |
| GoscSpec.OneAdapter | pkg/providers/vsphere/network/gosc.go:23-194 | A single result whose two switches are known translates to one mapping, with the fallback applied to the IPv4 switch's `Ip`. |
| GoscSpec.TranslationStep | pkg/providers/vsphere/network/gosc.go:23-194 | One turn of the outer loop: the translation of the first i+1 results is the error so far, or else result i's error, or else the mappings so far with result i's mapping appended. |
| GoscSpec.TranslationStopsAt | pkg/providers/vsphere/network/gosc.go:71-74 | Once the results translated so far fail, the whole call returns that error: later results are never looked at. |
| GoscSpec.StaticIPv6SelectionSnoc | pkg/providers/vsphere/network/gosc.go:113-133 | One iteration of the IPv6 loop. An IPv4 entry changes nothing. Otherwise the entry's parse error is returned, or its address and non-empty gateway are appended. |
| GoscSpec.StaticIPv6SpecSnoc | pkg/providers/vsphere/network/gosc.go:124-133 | Appending one entry and its parse to the spec equals one `AppendIPv6` step, which creates the spec when it was nil. |
| GoscSpec.StaticIPv6SelectionStops | pkg/providers/vsphere/network/gosc.go:118-121 | Once a parse error occurs, later entries do not change the outcome. |
| GoscProperties.TranslationIsPerAdapter | pkg/providers/vsphere/network/gosc.go:21-197 | On success, the output has as many mappings as there are results, and mapping i is the mapping of result i alone. On failure, the error is that of some adapter, and every adapter before it succeeded. |
| GoscProperties.TranslationFailsIffSomeAdapterFails | pkg/providers/vsphere/network/gosc.go:71-74 | The call fails exactly when some adapter fails, so no partial list is ever returned. |
| GoscProperties.MappingsKeepIdentity | pkg/providers/vsphere/network/gosc.go:191-194 | Output length equals input length. Mapping i has result i's MAC address, and its DNS server list is exactly result i's nameservers. |
| GoscProperties.IgnoresNameMtuRoutes | pkg/providers/vsphere/network/gosc.go:42-45 | Results that differ only in name, MTU and routes translate identically. |
| GoscProperties.Dhcp4Mapping | pkg/providers/vsphere/network/gosc.go:51-56 | With DHCP4, `Ip` is the DHCP generator and the mask and gateway are empty, whatever NoIPAM and the entries hold. The outcome is that of the IPv6 switch alone. |
| GoscProperties.NoIPAMMapping | pkg/providers/vsphere/network/gosc.go:57-61 | With NoIPAM and no DHCP4, `Ip` stays nil and the mask and gateway stay empty. The fallback does not fire, and the IPv6 switch still decides `IpV6Spec`. |
| GoscProperties.StaticIPv4Mapping | pkg/providers/vsphere/network/gosc.go:63-91 | Otherwise the first IPv4 entry gives the adapter three things: `Ip = FixedIp(address)`, the mask text of its prefix, and `[gateway]`, or no gateway when the gateway is empty. |
| GoscProperties.NoIPv4EntryMapping | pkg/providers/vsphere/network/gosc.go:62-96 | With no IPv4 entry, the mask and gateway stay empty. `Ip` is the DHCP placeholder exactly when DHCP6 is set or some entry exists, and nil otherwise. |
| GoscProperties.Dhcp6Mapping | pkg/providers/vsphere/network/gosc.go:103-108 | With DHCP6, `IpV6Spec` holds exactly one DHCPv6 generator and no gateway. |
| GoscProperties.StaticIPv6Mapping | pkg/providers/vsphere/network/gosc.go:112-142 | Without DHCP6, `IpV6Spec` is nil exactly when every entry is IPv4. Otherwise it lists, in order, each non-IPv4 entry's parsed address and prefix, plus the non-empty gateways of those entries. |
| GoscProperties.FallbackOutcome | pkg/providers/vsphere/network/gosc.go:151-171 | `Ip` is fixed exactly when neither DHCP4 nor NoIPAM is set and some entry is IPv4. `Ip` is nil exactly when NoIPAM applies or nothing is configured. A non-NoIPAM adapter with an `IpV6Spec` always has an `Ip`. `IpV6Spec` is the IPv6 switch's result. |
| GoscProperties.FallbackChangesOnlyIp | pkg/providers/vsphere/network/gosc.go:151-171 | The fallback changes `Ip` exactly when `Ip` is nil, NoIPAM is false and (`IpV6Spec` is non-nil or DHCP6 is set). It then sets the DHCP generator. Mask, gateway and `IpV6Spec` stay as the switches left them. |
| GoscProperties.OnlyParsedCidrsMatter | pkg/providers/vsphere/network/gosc.go:66-121 | The parser's answers matter only on `ParsedCidrs`. No IPv4 CIDR is parsed under DHCP4 or NoIPAM, only the first IPv4 CIDR is ever parsed, and no IPv6 CIDR is parsed under DHCP6. |
| GoscProperties.StaticIPv6Local | pkg/providers/vsphere/network/gosc.go:113-121 | The IPv6 loop depends on the parser only through the CIDRs of the entries it visits. |
| GoscProperties.ParseEachLocal | pkg/providers/vsphere/network/gosc.go:113-121 | Parsers that agree on the entries' CIDRs give the same IPv6 parse outcome. |
| GoscProperties.ParseEachCidrs | pkg/providers/vsphere/network/gosc.go:118-121 | The IPv6 parses succeed exactly when every CIDR string parses. On failure, the error is that of the first rejected string. |
| GoscProperties.AdapterFailsAtFirstParseError | pkg/providers/vsphere/network/gosc.go:71-121 | An adapter's mapping fails exactly when some string in `ParsedCidrs` is rejected. The error is the parser's error for the first such string, in call order. |
| Net.CIDRMask | pkg/providers/vsphere/network/gosc.go:75 | The mask is nil unless the width is 32 or 128 bits with no more ones than bits. Otherwise it has bits/8 bytes. |
| Net.Size | pkg/providers/vsphere/network/gosc.go:75 | `IPMask.Size` gives either (0, 0) or a leading-ones count between 0 and the width, which is eight bits per byte. |
| Net.SizeCharacterisation | pkg/providers/vsphere/network/gosc.go:75 | `Size` reports the full width exactly when the mask is ones followed by zeros, that is, a mask `CIDRMask` can build. The mask is then the one built from the reported count. Every other mask gives (0, 0). |
| Net.CanonicalMaskBytes | pkg/providers/vsphere/network/gosc.go:75 | A mask that `simpleMaskLength` accepts equals the bytes `CIDRMask` builds from its leading-ones count. |
| Net.SizeOfCIDRMask | pkg/providers/vsphere/network/gosc.go:75 | `Size` of `CIDRMask(ones, bits)` is `(ones, bits)`, so the mask rebuilt from a parsed network has that network's prefix. |
| Net.MaskBytesLength | pkg/providers/vsphere/network/gosc.go:75 | The leading-ones count of the bytes `CIDRMask` builds is the requested prefix. |
| Net.AlignedMaskBytes | pkg/providers/vsphere/network/gosc.go:75 | A prefix of j whole bytes gives j bytes 255, then zero bytes. |
| Net.SubnetMaskString | pkg/providers/vsphere/network/gosc.go:78 | The mask text is "<nil>" exactly when `CIDRMask` returns nil. |
| Net.IPv4MaskTextDeterminesPrefix | pkg/providers/vsphere/network/gosc.go:75-78 | Distinct IPv4 prefix lengths never print the same mask text, so the dotted mask determines the prefix. |
| Net.DecimalStringRoundTrip | pkg/providers/vsphere/network/gosc.go:78 | The decimal text of an IPv4 mask byte reads back, digit by digit, as that byte. |
| Net.HexStringRoundTrip | pkg/providers/vsphere/network/gosc.go:78 | The hexadecimal text of an IPv6 mask group reads back, digit by digit, as that group. |
| Net.DecimalCanonical | pkg/providers/vsphere/network/gosc.go:78 | Decimal mask-byte text is non-empty, made only of the digits 0-9, and starts with '0' only for zero. |
| Net.HexCanonical | pkg/providers/vsphere/network/gosc.go:78 | Hexadecimal mask-group text is non-empty, made only of 0-9 and a-f, and starts with '0' only for zero. |
| GoscScenarios.SlashTwentyFourMask | pkg/providers/vsphere/network/gosc.go:78 | The text of a /24 IPv4 mask is "255.255.255.0". |
| GoscScenarios.SlashSixtyFourMask | pkg/providers/vsphere/network/gosc.go:78 | The text of a /64 IPv6 mask is "ffff:ffff:ffff:ffff::". |
| GoscScenarios.StaticDualStackScenario | pkg/providers/vsphere/network/gosc_test.go:49-128 | Static dual stack: fixed IPv4 with mask 255.255.255.0, one fixed IPv6 with prefix 48, DNS from the nameservers. Each gateway is present, or absent when disabled. |
| GoscScenarios.DualStackIPv4 | pkg/providers/vsphere/network/gosc_test.go:49-128 | In the dual-stack scenario the IPv4 scan picks 192.168.1.10 with mask 255.255.255.0 and its gateway, if any. |
| GoscScenarios.DualStackIPv6 | pkg/providers/vsphere/network/gosc_test.go:49-128 | In the dual-stack scenario the IPv6 loop appends only the IPv6 entry, with prefix 48 and its gateway, if any. |
| GoscScenarios.DhcpScenario | pkg/providers/vsphere/network/gosc_test.go:131-162 | DHCP4 and DHCP6: a DHCP `Ip`, an empty mask and gateway, and one DHCPv6 generator. |
| GoscScenarios.NoIPAMScenario | pkg/providers/vsphere/network/gosc_test.go:164-188 | NoIPAM: nil `Ip`, empty mask and gateway, nil `IpV6Spec`. |
| GoscScenarios.IPv4OnlyStaticScenario | pkg/providers/vsphere/network/gosc_test.go:190-226 | IPv4 only: a fixed address, /24 mask text, one gateway, nil `IpV6Spec`. |
| GoscScenarios.IPv6OnlyStaticScenario | pkg/providers/vsphere/network/gosc_test.go:228-266 | IPv6 only: the fallback sets a DHCP `Ip`. `IpV6Spec` has the fixed address /64 and its gateway. |
| GoscScenarios.Dhcp4StaticIPv6Scenario | pkg/providers/vsphere/network/gosc_test.go:268-305 | DHCP4 with static IPv6: a DHCP `Ip` and the fixed IPv6 address with its gateway. |
| GoscScenarios.StaticIPv4Dhcp6Scenario | pkg/providers/vsphere/network/gosc_test.go:307-344 | Static IPv4 with DHCP6: a fixed address, mask and gateway, and one DHCPv6 generator. |
| GoscScenarios.MalformedCidrScenario | pkg/providers/vsphere/network/gosc.go:71-74 | A rejected CIDR on the second adapter fails the whole call with the parser's error, although the first adapter translated. |
| GoscScenarios.IPv6TextInIPv4EntryScenario | pkg/providers/vsphere/network/gosc.go:75-78 | An IPv6 CIDR in an entry flagged IPv4 becomes the fixed address, with the IPv6 text of its mask as the subnet mask. |

## Left out

- Logging: every `logr` call is left out, and so is the `GetSink()` guard around it. The logger is a parameter, and no part of the result depends on it. The logs themselves are not modelled.
- `net.ParseCIDR` is a parameter of the model. Callers supply it, and its internals are not modelled. Its result is reduced to two things: the address text from `ip.String()`, and the mask size. `ip.String()` canonicalisation is part of that parameter.
- The subnet-mask text is modelled only for masks that `net.CIDRMask` builds. In these, the zero groups of a 16-byte mask form one trailing run. General IPv6 text formatting is not modelled.
- The `int32` conversion of the IPv6 prefix (gosc.go:129): `ParsedCidr` bounds the prefix by 128, so it never wraps.
- Nil and empty slices are not distinguished: a nil `Gateway` and an empty `Gateway` are both `[]`.
- A route's structure is never read, so routes are plain text.
- The commented-out `CustomizationDisableIpV4` under NoIPAM (gosc.go:58) is not behaviour and is not modelled.
- The test file calls `GuestOSCustomization` with a logger argument (gosc_test.go:46), but gosc.go:15 takes only the results. The model follows gosc.go, and the scenarios are stated of `Translation`, which both entry points return.
- Gosc.BuildAdapterMapping: the Go loop body is one block, but the model splits it. The IPv4 scan (`Gosc.ScanIPv4`) and the IPv6 loop (`Gosc.CollectIPv6`) are separate methods, called where the source runs them inline.
- The vSphere structs are reduced to the fields the translator sets.
- Net.SubnetMaskString: that distinct prefixes print distinct text is proved for 4-byte masks only. For 16-byte masks, which only an IPv6 CIDR in an entry flagged IPv4 produces, the text is shown for the /64 mask and is not proved injective.
