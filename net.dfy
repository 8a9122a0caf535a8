/**
 * The parts of Go's `net` package the translator uses: the result and error of
 * `net.ParseCIDR` (the parser itself is a parameter of the model), `net.CIDRMask`,
 * `IPMask.Size` and the text `net.IP.String` gives for a subnet mask.
 */
module Net {
  import opened Wrappers

  /** What a successful `net.ParseCIDR(s)` yields, as far as the translator reads it: the
      address text (`ip.String()`) and the mask size (`ipNet.Mask.Size()`). */
  datatype Cidr = Cidr(ip: string, ones: nat, bits: nat)

  /** `net.ParseCIDR` builds a 4-byte mask for an IPv4 address and a 16-byte mask for an IPv6
      one, with no more leading ones than bits. */
  type ParsedCidr = c: Cidr | (c.bits == 32 || c.bits == 128) && c.ones <= c.bits
    witness Cidr("0.0.0.0", 0, 32)

  /** The `*net.ParseError` (`Type`, `Text`) returned for a malformed CIDR string. */
  datatype ParseError = ParseError(kind: string, text: string)

  /** `net.ParseCIDR` is library code whose internals are not modelled: callers receive it. */
  type CidrParser = string -> Result<ParsedCidr, ParseError>

  /** `^byte(0xff >> n)` for `n < 8`: the byte whose top `n` bits are set. */
  const PartialMaskByte: seq<nat> := [0, 128, 192, 224, 240, 248, 252, 254]

  /** The loop of `net.CIDRMask`: `len` bytes, of which the first `n` bits are set. */
  function MaskBytes(n: nat, len: nat): (m: seq<nat>)
    ensures |m| == len
  {
    if len == 0 then []
    else if n >= 8 then [255] + MaskBytes(n - 8, len - 1)
    else [PartialMaskByte[n]] + MaskBytes(0, len - 1)
  }

  /** `net.CIDRMask(ones, bits)`: nil unless `bits` is 32 or 128 and `ones <= bits`. */
  function CIDRMask(ones: nat, bits: nat): (m: seq<nat>)
    ensures m != [] <==> (bits == 32 || bits == 128) && ones <= bits
    ensures m != [] ==> |m| == bits / 8
  {
    if (bits != 32 && bits != 128) || ones > bits then [] else MaskBytes(ones, bits / 8)
  }

  /** The number of leading ones of a byte that is a run of ones followed by zeros (255
      excluded), or None for any other byte. */
  function PartialOnes(b: nat): Option<nat>
  {
    if b == 0 then Some(0)
    else if b == 128 then Some(1)
    else if b == 192 then Some(2)
    else if b == 224 then Some(3)
    else if b == 240 then Some(4)
    else if b == 248 then Some(5)
    else if b == 252 then Some(6)
    else if b == 254 then Some(7)
    else None
  }

  predicate AllZero(m: seq<nat>)
  {
    forall k :: 0 <= k < |m| ==> m[k] == 0
  }

  /** `simpleMaskLength`: the count of leading ones of a canonical mask, -1 otherwise. */
  function SimpleMaskLength(m: seq<nat>): (r: int)
    ensures -1 <= r <= 8 * |m|
  {
    if m == [] then 0
    else if m[0] == 255 then
      var rest := SimpleMaskLength(m[1..]);
      if rest < 0 then -1 else 8 + rest
    else if PartialOnes(m[0]).Some? && AllZero(m[1..]) then PartialOnes(m[0]).value
    else -1
  }

  /** `IPMask.Size()`: (leading ones, width in bits), or (0, 0) for a non-canonical mask. */
  function Size(m: seq<nat>): (r: (int, int))
    ensures r == (0, 0) || (0 <= r.0 <= r.1 && r.1 == 8 * |m|)
  {
    var ones := SimpleMaskLength(m);
    if ones == -1 then (0, 0) else (ones, |m| * 8)
  }

  lemma {:induction false} MaskBytesLength(n: nat, len: nat)
    requires n <= 8 * len
    ensures SimpleMaskLength(MaskBytes(n, len)) == n
  {
    if len > 0 {
      var m := MaskBytes(n, len);
      if n >= 8 {
        MaskBytesLength(n - 8, len - 1);
        assert m[1..] == MaskBytes(n - 8, len - 1);
      } else {
        MaskBytesLength(0, len - 1);
        ZeroMaskBytes(len - 1);
        assert m[1..] == MaskBytes(0, len - 1);
        assert PartialOnes(PartialMaskByte[n]) == Some(n) by {
          assert n == 0 || n == 1 || n == 2 || n == 3 || n == 4 || n == 5 || n == 6 || n == 7;
        }
      }
    }
  }

  lemma {:induction false} ZeroMaskBytes(len: nat)
    ensures AllZero(MaskBytes(0, len))
  {
    if len > 0 {
      ZeroMaskBytes(len - 1);
    }
  }

  /** A mask whose prefix is a whole number `j` of bytes: `j` bytes 255, then zero bytes. */
  lemma {:induction false} AlignedMaskBytes(j: nat, len: nat)
    ensures MaskBytes(8 * j, j + len) == seq(j, _ => 255) + seq(len, _ => 0)
  {
    var ones: seq<nat> := seq(j, _ => 255);
    var zeros: seq<nat> := seq(len, _ => 0);
    if j > 0 {
      AlignedMaskBytes(j - 1, len);
      var rest: seq<nat> := seq(j - 1, _ => 255);
      assert MaskBytes(8 * j, j + len) == [255] + MaskBytes(8 * (j - 1), j - 1 + len);
      assert ones == [255] + rest;
      assert [255] + (rest + zeros) == ones + zeros;
    } else if len > 0 {
      AlignedMaskBytes(0, len - 1);
      assert MaskBytes(0, len) == [0] + MaskBytes(0, len - 1);
      assert zeros == [0] + seq(len - 1, _ => 0);
    }
  }

  /** A run of zero bytes is the mask with no leading ones. */
  lemma {:induction false} ZeroBytesAreMaskBytes(s: seq<nat>)
    requires AllZero(s)
    ensures s == MaskBytes(0, |s|)
  {
    if s != [] {
      ZeroBytesAreMaskBytes(s[1..]);
      assert s == [s[0]] + s[1..];
    }
  }

  /** A mask that `simpleMaskLength` accepts is exactly the mask `CIDRMask` builds from its
      count of leading ones. */
  lemma {:induction false} CanonicalMaskBytes(m: seq<nat>)
    requires SimpleMaskLength(m) >= 0
    ensures m == MaskBytes(SimpleMaskLength(m), |m|)
  {
    if m != [] {
      assert m == [m[0]] + m[1..];
      if m[0] == 255 {
        CanonicalMaskBytes(m[1..]);
      } else {
        var p := PartialOnes(m[0]).value;
        ZeroBytesAreMaskBytes(m[1..]);
        assert PartialMaskByte[p] == m[0];
      }
    }
  }

  /** `IPMask.Size` reports the width exactly for the masks of the form ones-then-zeros, and
      then the mask is the one `CIDRMask` builds from the reported count; any other mask gives
      (0, 0). */
  lemma SizeCharacterisation(m: seq<nat>)
    ensures (exists n :: 0 <= n <= 8 * |m| && m == MaskBytes(n, |m|)) <==> Size(m).1 == 8 * |m|
    ensures Size(m).1 == 8 * |m| ==> m == MaskBytes(Size(m).0, |m|)
    ensures Size(m).1 != 8 * |m| ==> Size(m) == (0, 0)
  {
    if n :| 0 <= n <= 8 * |m| && m == MaskBytes(n, |m|) {
      MaskBytesLength(n, |m|);
    }
    if SimpleMaskLength(m) >= 0 {
      CanonicalMaskBytes(m);
      MaskBytesLength(SimpleMaskLength(m), |m|);
    }
  }

  /** `ipNet.Mask.Size()` and `net.CIDRMask` are inverse: the mask the translator rebuilds from
      the size of a parsed network has that same size. */
  lemma SizeOfCIDRMask(ones: nat, bits: nat)
    requires bits == 32 || bits == 128
    requires ones <= bits
    ensures Size(CIDRMask(ones, bits)) == (ones, bits)
  {
    MaskBytesLength(ones, bits / 8);
  }

  function DigitChar(d: nat): char
    requires d < 16
  {
    "0123456789abcdef"[d]
  }

  /** Decimal text of `n`, without leading zeros. */
  function DecimalString(n: nat): string
  {
    if n < 10 then [DigitChar(n)] else DecimalString(n / 10) + [DigitChar(n % 10)]
  }

  /** Lower-case hexadecimal text of `n`, without leading zeros. */
  function HexString(n: nat): string
  {
    if n < 16 then [DigitChar(n)] else HexString(n / 16) + [DigitChar(n % 16)]
  }

  /** The value of one lower-case hexadecimal digit; 0 for any other character. */
  function DigitValue(c: char): nat
  {
    if '0' <= c <= '9' then c as nat - '0' as nat
    else if 'a' <= c <= 'f' then c as nat - 'a' as nat + 10
    else 0
  }

  /** The value of a digit string read most significant digit first. */
  function DigitsValue(s: string, base: nat): nat
  {
    if s == [] then 0 else DigitsValue(s[..|s| - 1], base) * base + DigitValue(s[|s| - 1])
  }

  lemma DigitCharValue(d: nat)
    requires d < 16
    ensures DigitValue(DigitChar(d)) == d
  {
  }

  /** Decimal text reads back as the number it was written from. */
  lemma {:induction false} DecimalStringRoundTrip(n: nat)
    ensures DigitsValue(DecimalString(n), 10) == n
  {
    DigitCharValue(n % 10);
    if n >= 10 {
      DecimalStringRoundTrip(n / 10);
      var s := DecimalString(n);
      assert s[..|s| - 1] == DecimalString(n / 10);
    }
  }

  /** Hexadecimal text reads back as the number it was written from. */
  lemma {:induction false} HexStringRoundTrip(n: nat)
    ensures DigitsValue(HexString(n), 16) == n
  {
    DigitCharValue(n % 16);
    if n >= 16 {
      HexStringRoundTrip(n / 16);
      var s := HexString(n);
      assert s[..|s| - 1] == HexString(n / 16);
    }
  }

  /** `DecimalString` prints canonical text: decimal digits only, and no leading zero. */
  lemma {:induction false} DecimalCanonical(n: nat)
    ensures DecimalString(n) != []
    ensures forall k :: 0 <= k < |DecimalString(n)| ==> '0' <= DecimalString(n)[k] <= '9'
    ensures DecimalString(n)[0] == '0' ==> n == 0
  {
    if n >= 10 {
      DecimalCanonical(n / 10);
    }
  }

  /** `HexString` prints canonical text: lower-case hexadecimal digits only, and no leading zero. */
  lemma {:induction false} HexCanonical(n: nat)
    ensures HexString(n) != []
    ensures forall k :: 0 <= k < |HexString(n)| ==>
      '0' <= HexString(n)[k] <= '9' || 'a' <= HexString(n)[k] <= 'f'
    ensures HexString(n)[0] == '0' ==> n == 0
  {
    if n >= 16 {
      HexCanonical(n / 16);
    }
  }

  /** Two numbers with the same decimal text are equal. */
  lemma DecimalStringInjective(a: nat, b: nat)
    requires DecimalString(a) == DecimalString(b)
    ensures a == b
  {
    DecimalStringRoundTrip(a);
    DecimalStringRoundTrip(b);
  }

  /** The index of the first dot of `s`, or `|s|` when there is none. */
  function FirstDot(s: string): (i: nat)
    ensures i <= |s|
  {
    if s == [] || s[0] == '.' then 0 else 1 + FirstDot(s[1..])
  }

  /** In a dot-free head followed by a dot, the first dot is the one after the head. */
  lemma {:induction false} FirstDotAfterHead(x: string, y: string)
    requires '.' !in x
    ensures FirstDot(x + "." + y) == |x|
  {
    if x != [] {
      FirstDotAfterHead(x[1..], y);
      assert (x + "." + y)[1..] == x[1..] + "." + y;
    }
  }

  /** Text split at its first dot: a dot-free head before a dot determines head and tail. */
  lemma SplitAtDot(x: string, y: string, x': string, y': string)
    requires '.' !in x && '.' !in x'
    requires x + "." + y == x' + "." + y'
    ensures x == x' && y == y'
  {
    var t := x + "." + y;
    FirstDotAfterHead(x, y);
    FirstDotAfterHead(x', y');
    assert x == t[..|x|] == x';
    assert y == t[|x| + 1..] == y';
  }

  /** Decimal text holds no dot. */
  lemma NoDotInDecimal(n: nat)
    ensures '.' !in DecimalString(n)
  {
    DecimalCanonical(n);
  }

  /** Reassociates a dotted text at its first dot. */
  lemma DotAssoc(x: string, y: string, z: string)
    ensures x + "." + y + "." + z == x + "." + (y + "." + z)
  {
  }

  /** Four dot-free fields joined by dots are determined by the joined text. */
  lemma DottedQuadSplit(a: string, b: string, c: string, d: string, a': string, b': string, c': string, d': string)
    requires '.' !in a && '.' !in b && '.' !in c && '.' !in a' && '.' !in b' && '.' !in c'
    requires a + "." + b + "." + c + "." + d == a' + "." + b' + "." + c' + "." + d'
    ensures a == a' && b == b' && c == c' && d == d'
  {
    DotAssoc(a + "." + b, c, d);
    DotAssoc(a' + "." + b', c', d');
    DotAssoc(a, b, c + "." + d);
    DotAssoc(a', b', c' + "." + d');
    SplitAtDot(a, b + "." + (c + "." + d), a', b' + "." + (c' + "." + d'));
    SplitAtDot(b, c + "." + d, b', c' + "." + d');
    SplitAtDot(c, d, c', d');
  }

  /** The dotted text of a 4-byte mask determines its four bytes. */
  lemma DottedQuadInjective(m: seq<nat>, m': seq<nat>)
    requires |m| == 4 && |m'| == 4
    requires DecimalString(m[0]) + "." + DecimalString(m[1]) + "." + DecimalString(m[2]) + "." + DecimalString(m[3])
          == DecimalString(m'[0]) + "." + DecimalString(m'[1]) + "." + DecimalString(m'[2]) + "." + DecimalString(m'[3])
    ensures m == m'
  {
    NoDotInDecimal(m[0]); NoDotInDecimal(m[1]); NoDotInDecimal(m[2]);
    NoDotInDecimal(m'[0]); NoDotInDecimal(m'[1]); NoDotInDecimal(m'[2]);
    DottedQuadSplit(DecimalString(m[0]), DecimalString(m[1]), DecimalString(m[2]), DecimalString(m[3]),
                    DecimalString(m'[0]), DecimalString(m'[1]), DecimalString(m'[2]), DecimalString(m'[3]));
    DecimalStringInjective(m[0], m'[0]);
    DecimalStringInjective(m[1], m'[1]);
    DecimalStringInjective(m[2], m'[2]);
    DecimalStringInjective(m[3], m'[3]);
  }

  /** The subnet mask text of an IPv4 network determines its prefix length: distinct prefixes
      never print the same mask. */
  lemma IPv4MaskTextDeterminesPrefix(a: nat, b: nat)
    requires a <= 32 && b <= 32
    requires SubnetMaskString(a, 32) == SubnetMaskString(b, 32)
    ensures a == b
  {
    DottedQuadInjective(CIDRMask(a, 32), CIDRMask(b, 32));
    SizeOfCIDRMask(a, 32);
    SizeOfCIDRMask(b, 32);
  }

  /** The number of zero groups at the end of `gs`. */
  function TrailingZeroGroups(gs: seq<nat>): (z: nat)
    ensures z <= |gs|
  {
    if gs == [] || gs[|gs| - 1] != 0 then 0 else 1 + TrailingZeroGroups(gs[..|gs| - 1])
  }

  function JoinHex(gs: seq<nat>): string
  {
    if gs == [] then ""
    else if |gs| == 1 then HexString(gs[0])
    else HexString(gs[0]) + ":" + JoinHex(gs[1..])
  }

  /** IPv6 text of a 16-byte mask. The zero groups of a mask form one trailing run, so the
      longest-zero-run compression of IPv6 text turns that run into "::" when it has at least
      two groups and prints a single zero group as "0". */
  function MaskGroupsText(m: seq<nat>): string
    requires |m| == 16
  {
    var groups := seq(8, k requires 0 <= k < 8 => m[2 * k] * 256 + m[2 * k + 1]);
    var z := TrailingZeroGroups(groups);
    JoinHex(groups[..8 - z]) + (if z >= 2 then "::" else if z == 1 then ":0" else "")
  }

  /** `net.IP(net.CIDRMask(ones, bits)).String()`: dotted decimal for a 4-byte mask, IPv6 text
      for a 16-byte one, "<nil>" when `CIDRMask` returns nil. */
  function SubnetMaskString(ones: nat, bits: nat): (r: string)
    ensures r == "<nil>" <==> CIDRMask(ones, bits) == []
  {
    var m := CIDRMask(ones, bits);
    if |m| == 4 then
      DecimalCanonical(m[0]);
      DecimalString(m[0]) + "." + DecimalString(m[1]) + "." + DecimalString(m[2]) + "." + DecimalString(m[3])
    else if |m| == 16 then
      MaskGroupsTextNotNil(m);
      MaskGroupsText(m)
    else "<nil>"
  }

  /** The IPv6 text of a mask starts with a hexadecimal digit or with "::", never with '<'. */
  lemma MaskGroupsTextNotNil(m: seq<nat>)
    requires |m| == 16
    ensures MaskGroupsText(m) != [] && MaskGroupsText(m)[0] != '<'
  {
    var groups := seq(8, k requires 0 <= k < 8 => m[2 * k] * 256 + m[2 * k + 1]);
    var z := TrailingZeroGroups(groups);
    var g := groups[..8 - z];
    if g != [] {
      HexCanonical(g[0]);
      assert JoinHex(g)[0] == HexString(g[0])[0];
    }
  }
}
