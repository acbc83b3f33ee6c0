/** Addresses, CIDR blocks and containment, as `Validate` uses them through
    `net.ParseCIDR`, `net.ParseIP` and `net.IPNet.Contains`.

    An address is a sequence of bytes: four for IPv4, sixteen for IPv6.
    IPv4 dotted-quad text is parsed concretely (decimal fields, no leading
    zeros, each at most 255). IPv6 text syntax is not modelled: it is the
    parameter `v6`, an arbitrary parser that yields sixteen bytes or nothing.
    A block contains an address when both have the same length and agree on
    the first `prefix` bits, the rule of section 3.1 of RFC 4632.
 */
module NetAddr {
  import opened Outcomes
  import opened Text

  type Byte = x: int | 0 <= x < 256

  type Bytes = seq<Byte>

  /** The IPv6 parser that never succeeds; only a witness for `Ipv6Parser`. */
  function NoIpv6(s: string): Option<Bytes> {
    None
  }

  /** A parser for IPv6 text: whatever it accepts becomes sixteen bytes. */
  type Ipv6Parser = f: string -> Option<Bytes> | forall s :: f(s).Some? ==> |f(s).value| == 16
    witness NoIpv6

  // ---------------------------------------------------------------- decimals

  predicate IsDigit(c: char) {
    '0' <= c <= '9'
  }

  predicate AllDigits(s: string) {
    forall i :: 0 <= i < |s| ==> IsDigit(s[i])
  }

  /** The value of a decimal digit string, read left to right as Go's `dtoi` does. */
  function DecimalValue(s: string): nat
    requires AllDigits(s)
    decreases |s|
  {
    if |s| == 0 then 0
    else DecimalValue(s[..|s| - 1]) * 10 + (s[|s| - 1] as int - '0' as int)
  }

  function Digit(d: int): char
    requires 0 <= d < 10
  {
    ('0' as int + d) as char
  }

  /** One IPv4 field: digits, no leading zero, at most 255. */
  predicate IsOctetText(p: string) {
    |p| > 0 && AllDigits(p) && (|p| == 1 || p[0] != '0') && DecimalValue(p) <= 255
  }

  /** The decimal text of a byte, the way `net.IP.String` writes IPv4 fields. */
  function OctetText(x: Byte): string
  {
    if x < 10 then [Digit(x)]
    else if x < 100 then [Digit(x / 10), Digit(x % 10)]
    else [Digit(x / 100), Digit(x / 10 % 10), Digit(x % 10)]
  }

  // ------------------------------------------------------------- IPv4 text

  /** Go's `parseIPv4`: exactly four dot-separated octet fields. */
  function ParseIpv4(s: string): (r: Option<Bytes>)
    ensures r.Some? ==> |r.value| == 4
    ensures r.Some? ==> Count(s, '.') == 3 && forall c :: c in s ==> c == '.' || IsDigit(c)
  {
    var parts := Split(s, '.');
    if |parts| == 4 && IsOctetText(parts[0]) && IsOctetText(parts[1])
       && IsOctetText(parts[2]) && IsOctetText(parts[3])
    then
      assert forall c :: c in s ==> c == '.' || IsDigit(c) by {
        forall c | c in s && c != '.' ensures IsDigit(c) {
          JoinChars(parts, '.', c);
          var k :| 0 <= k < |parts| && c in parts[k];
          assert IsOctetText(parts[k]);
        }
      }
      Some([DecimalValue(parts[0]), DecimalValue(parts[1]),
            DecimalValue(parts[2]), DecimalValue(parts[3])])
    else None
  }

  /** The dotted-quad text of a four-byte address (`net.IP.String` for IPv4). */
  function FormatIpv4(a: Bytes): string
    requires |a| == 4
  {
    Join([OctetText(a[0]), OctetText(a[1]), OctetText(a[2]), OctetText(a[3])], '.')
  }

  lemma OctetTextParses(x: Byte)
    ensures IsOctetText(OctetText(x)) && DecimalValue(OctetText(x)) == x
  {
    var t := OctetText(x);
    if x < 10 {
      assert t[..0] == "";
    } else if x < 100 {
      assert t[..1] == [Digit(x / 10)] && t[..1][..0] == "";
      assert DecimalValue(t[..1]) == x / 10;
      assert DecimalValue(t) == x / 10 * 10 + x % 10;
    } else {
      assert t[..2] == [Digit(x / 100), Digit(x / 10 % 10)];
      assert t[..2][..1] == [Digit(x / 100)] && t[..2][..1][..0] == "";
      assert DecimalValue(t[..2][..1]) == x / 100;
      assert DecimalValue(t[..2]) == x / 100 * 10 + x / 10 % 10;
      assert DecimalValue(t) == (x / 100 * 10 + x / 10 % 10) * 10 + x % 10;
    }
  }

  function Pow10(n: nat): nat {
    if n == 0 then 1 else 10 * Pow10(n - 1)
  }

  /** A digit string without a leading zero is at least ten to the power of its length minus one. */
  lemma {:induction false} LeadingDigitBound(p: string)
    requires |p| > 0 && AllDigits(p) && p[0] != '0'
    ensures DecimalValue(p) >= Pow10(|p| - 1)
    decreases |p|
  {
    if |p| > 1 {
      var q := p[..|p| - 1];
      assert q[0] == p[0];
      LeadingDigitBound(q);
    }
  }

  lemma OctetTextCanonical(p: string)
    requires IsOctetText(p)
    ensures OctetText(DecimalValue(p)) == p
  {
    if |p| >= 4 {
      LeadingDigitBound(p);
      assert Pow10(3) == 1000;
      assert Pow10(|p| - 1) >= 1000 by {
        PowMonotone(3, |p| - 1);
      }
    }
    var v := DecimalValue(p);
    if |p| == 1 {
      assert p[..0] == "";
    } else if |p| == 2 {
      assert p[..1][..0] == "";
      assert p == [p[0], p[1]];
    } else {
      assert |p| == 3;
      assert p[..2][..1] == p[..1];
      assert p[..1][..0] == "";
      assert p == [p[0], p[1], p[2]];
    }
  }

  lemma {:induction false} PowMonotone(m: nat, n: nat)
    requires m <= n
    ensures Pow10(m) <= Pow10(n)
    decreases n
  {
    if m < n {
      PowMonotone(m, n - 1);
    }
  }

  /** Formatting an IPv4 address and parsing the text gives the address back. */
  lemma FormatThenParseIpv4(a: Bytes)
    requires |a| == 4
    ensures ParseIpv4(FormatIpv4(a)) == Some(a)
  {
    var parts := [OctetText(a[0]), OctetText(a[1]), OctetText(a[2]), OctetText(a[3])];
    forall k | 0 <= k < 4 ensures IsOctetText(parts[k]) && DecimalValue(parts[k]) == a[k] {
      OctetTextParses(a[k]);
    }
    forall k | 0 <= k < 4 ensures '.' !in parts[k] {
      assert AllDigits(parts[k]);
    }
    SplitJoin(parts, '.');
    assert Split(FormatIpv4(a), '.') == parts;
    assert a == [a[0], a[1], a[2], a[3]];
  }

  /** Dotted-quad text is canonical: text that parses is the formatting of its address. */
  lemma ParseThenFormatIpv4(s: string)
    requires ParseIpv4(s).Some?
    ensures FormatIpv4(ParseIpv4(s).value) == s
  {
    var parts := Split(s, '.');
    var a := ParseIpv4(s).value;
    forall k | 0 <= k < 4 ensures OctetText(a[k]) == parts[k] {
      OctetTextCanonical(parts[k]);
    }
    assert [OctetText(a[0]), OctetText(a[1]), OctetText(a[2]), OctetText(a[3])] == parts;
  }

  // ------------------------------------------------------------------- bits

  /** The low `n` bits of `x`, most significant first. */
  function Bits(x: nat, n: nat): (b: seq<bool>)
    ensures |b| == n
  {
    if n == 0 then [] else Bits(x / 2, n - 1) + [x % 2 == 1]
  }

  function Pow2(n: nat): nat {
    if n == 0 then 1 else 2 * Pow2(n - 1)
  }

  /** Distinct numbers below `2^n` have distinct `n`-bit patterns. */
  lemma {:induction false} BitsInjective(x: nat, y: nat, n: nat)
    requires x < Pow2(n) && y < Pow2(n)
    requires Bits(x, n) == Bits(y, n)
    ensures x == y
    decreases n
  {
    if n > 0 {
      assert Bits(x / 2, n - 1) == Bits(x, n)[..n - 1];
      assert Bits(y / 2, n - 1) == Bits(y, n)[..n - 1];
      BitsInjective(x / 2, y / 2, n - 1);
      assert Bits(x, n)[n - 1] == (x % 2 == 1);
      assert Bits(y, n)[n - 1] == (y % 2 == 1);
    }
  }

  /** All bits of an address, most significant first: 32 for IPv4, 128 for IPv6. */
  function AddressBits(a: Bytes): (b: seq<bool>)
    ensures |b| == 8 * |a|
  {
    if |a| == 0 then [] else Bits(a[0], 8) + AddressBits(a[1..])
  }

  /** Two addresses of the same length with the same bits are the same address. */
  lemma {:induction false} AddressBitsInjective(a: Bytes, b: Bytes)
    requires |a| == |b|
    requires AddressBits(a) == AddressBits(b)
    ensures a == b
    decreases |a|
  {
    if |a| > 0 {
      assert AddressBits(a)[..8] == Bits(a[0], 8);
      assert AddressBits(b)[..8] == Bits(b[0], 8);
      assert Pow2(8) == 256;
      BitsInjective(a[0], b[0], 8);
      assert AddressBits(a)[8..] == AddressBits(a[1..]);
      assert AddressBits(b)[8..] == AddressBits(b[1..]);
      AddressBitsInjective(a[1..], b[1..]);
      assert a == [a[0]] + a[1..] && b == [b[0]] + b[1..];
    }
  }

  // ----------------------------------------------------------------- blocks

  /** A CIDR block: an address and how many of its leading bits are fixed.
      Go stores the address masked; only the leading `prefix` bits are ever
      compared, so the unmasked address describes the same block. */
  datatype Block = Block(network: Bytes, prefix: nat)

  predicate ValidBlock(b: Block) {
    b.prefix <= 8 * |b.network|
  }

  /** Sixteen bytes of the form `::ffff:a.b.c.d`. */
  predicate IsV4Mapped(a: Bytes) {
    |a| == 16 && (forall k :: 0 <= k < 10 ==> a[k] == 0) && a[10] == 255 && a[11] == 255
  }

  /** The step `if x := ip.To4(); x != nil { ip = x }` at the start of
      `IPNet.Contains`: an IPv4-mapped IPv6 address becomes its four IPv4
      bytes and any other address is kept as it is (where `To4` itself would
      give nil). */
  function To4(a: Bytes): (r: Bytes)
    ensures IsV4Mapped(a) ==> |r| == 4 && V4MappedPrefix + r == a
    ensures !IsV4Mapped(a) ==> r == a
  {
    if IsV4Mapped(a) then
      assert a == V4MappedPrefix + a[12..];
      a[12..]
    else a
  }

  /** The block Go's `IPNet.Contains` compares against. An IPv6 block whose
      fixed bits already spell `::ffff:` is treated as an IPv4 block. */
  function NetworkOf(ip: Bytes, prefix: nat): (b: Block)
    requires prefix <= 8 * |ip|
    ensures ValidBlock(b)
    ensures !IsV4Mapped(ip) || prefix >= 96 ==> Contains(b, Some(To4(ip)))
    ensures IsV4Mapped(ip) && prefix < 96 ==> forall x :: |x| == 4 ==> !Contains(b, Some(x))
  {
    if IsV4Mapped(ip) && prefix >= 96 then Block(ip[12..], prefix - 96) else Block(ip, prefix)
  }

  /** Apart from an IPv4-mapped network with a prefix of 96 or more (see
      `MappedNetworkAgrees`), the block holds exactly the addresses of the
      network's length that share its first `prefix` bits. */
  lemma NetworkOfPrefixRule(ip: Bytes, prefix: nat, x: Bytes)
    requires prefix <= 8 * |ip|
    requires !(IsV4Mapped(ip) && prefix >= 96)
    ensures Contains(NetworkOf(ip, prefix), Some(x))
        <==> |x| == |ip| && AddressBits(x)[..prefix] == AddressBits(ip)[..prefix]
  {
  }

  /** `IPNet.Contains`: the candidate (already passed through `To4`, `None`
      when it did not parse) has the block's length and its leading bits. */
  predicate Contains(b: Block, ip: Option<Bytes>): (r: bool)
    requires ValidBlock(b)
    ensures ip == Some(b.network) ==> r
  {
    && ip.Some?
    && |ip.value| == |b.network|
    && AddressBits(ip.value)[..b.prefix] == AddressBits(b.network)[..b.prefix]
  }

  /** The bits of two byte strings laid end to end. */
  lemma {:induction false} AddressBitsAppend(a: Bytes, b: Bytes)
    ensures AddressBits(a + b) == AddressBits(a) + AddressBits(b)
    decreases |a|
  {
    if |a| > 0 {
      assert (a + b)[0] == a[0];
      assert (a + b)[1..] == a[1..] + b;
      AddressBitsAppend(a[1..], b);
    } else {
      assert a + b == b;
    }
  }

  /** The twelve bytes `::ffff:` that map an IPv4 address into IPv6. */
  const V4MappedPrefix: Bytes := [0, 0, 0, 0, 0, 0, 0, 0, 0, 0, 255, 255]

  /** Treating a mapped network with a prefix of at least 96 as an IPv4 block
      changes no verdict: it holds an IPv4 address exactly when the sixteen-byte
      block holds that address mapped into IPv6. */
  lemma MappedNetworkAgrees(ip: Bytes, prefix: nat, x: Bytes)
    requires IsV4Mapped(ip) && 96 <= prefix <= 128 && |x| == 4
    ensures Contains(NetworkOf(ip, prefix), Some(x)) <==> Contains(Block(ip, prefix), Some(V4MappedPrefix + x))
  {
    assert ip == V4MappedPrefix + ip[12..];
    AddressBitsAppend(V4MappedPrefix, ip[12..]);
    AddressBitsAppend(V4MappedPrefix, x);
    var head := AddressBits(V4MappedPrefix);
    var n := prefix - 96;
    assert |head| == 96;
    assert (head + AddressBits(ip[12..]))[..prefix] == head + AddressBits(ip[12..])[..n];
    assert (head + AddressBits(x))[..prefix] == head + AddressBits(x)[..n];
    assert AddressBits(ip) == head + AddressBits(ip[12..]);
    assert NetworkOf(ip, prefix) == Block(ip[12..], n);
    var lhs, rhs := AddressBits(x)[..n], AddressBits(ip[12..])[..n];
    assert (head + lhs)[96..] == lhs && (head + rhs)[96..] == rhs;
  }

  /** A block whose prefix spans the whole address holds exactly that address. */
  lemma FullPrefixHoldsOnlyItself(a: Bytes, ip: Option<Bytes>)
    ensures Contains(Block(a, 8 * |a|), ip) <==> ip == Some(a)
  {
    if Contains(Block(a, 8 * |a|), ip) {
      assert AddressBits(ip.value)[..8 * |a|] == AddressBits(ip.value);
      assert AddressBits(a)[..8 * |a|] == AddressBits(a);
      AddressBitsInjective(ip.value, a);
    }
  }

  /** Blocks nest: shortening the prefix keeps every address the block held. */
  lemma ShorterPrefixWidens(a: Bytes, p: nat, q: nat, ip: Option<Bytes>)
    requires q <= p <= 8 * |a|
    requires Contains(Block(a, p), ip)
    ensures Contains(Block(a, q), ip)
  {
    assert AddressBits(ip.value)[..q] == AddressBits(ip.value)[..p][..q];
    assert AddressBits(a)[..q] == AddressBits(a)[..p][..q];
  }

  /** A zero-length prefix holds every parsed address of the block's length. */
  lemma EmptyPrefixHoldsFamily(a: Bytes, ip: Bytes)
    ensures Contains(Block(a, 0), Some(ip)) <==> |ip| == |a|
  {
  }

  // ------------------------------------------------------------ parsing

  /** `net.ParseIP` followed by the `To4` that `IPNet.Contains` applies. */
  function ParseIp(v6: Ipv6Parser, s: string): (r: Option<Bytes>)
    ensures r.Some? ==> |r.value| == 4 || |r.value| == 16
    ensures ParseIpv4(s).Some? ==> r == ParseIpv4(s)
  {
    match ParseIpv4(s)
    case Some(a) => Some(a)
    case None =>
      match v6(s)
      case Some(b) => Some(To4(b))
      case None => None
  }

  /** `net.ParseCIDR`: text before the first `/` is an IPv4 or IPv6 address,
      text after it a decimal prefix length of at most 32 or 128. */
  function ParseCidr(v6: Ipv6Parser, s: string): (r: Result<Block>)
    ensures r.Ok? ==> ValidBlock(r.value)
    ensures r.Err? ==> r.error == CidrSyntax(s)
    ensures '/' !in s ==> r.Err?
  {
    if '/' !in s then Err(CidrSyntax(s))
    else
      var i := IndexOf(s, '/');
      var addr := s[..i];
      var mask := s[i + 1..];
      var (ip, width) := match ParseIpv4(addr)
        case Some(a) => (Some(a), 32)
        case None => (v6(addr), 128);
      if ip.None? || |mask| == 0 || !AllDigits(mask) || DecimalValue(mask) > width then
        Err(CidrSyntax(s))
      else
        Ok(NetworkOf(ip.value, DecimalValue(mask)))
  }

  /** IPv4 text with a decimal prefix length parses to that address and length. */
  lemma ParseIpv4Cidr(v6: Ipv6Parser, t: string, p: string)
    requires ParseIpv4(t).Some?
    requires |p| > 0 && AllDigits(p) && DecimalValue(p) <= 32
    ensures ParseCidr(v6, t + "/" + p) == Ok(Block(ParseIpv4(t).value, DecimalValue(p)))
  {
    var s := t + "/" + p;
    assert '/' !in t;
    assert s[|t|] == '/' && s[..|t|] == t;
    var i := IndexOf(s, '/');
    assert i == |t|;
    assert s[..i] == t && s[i + 1..] == p;
    var a := ParseIpv4(t).value;
    assert |a| == 4;
    assert NetworkOf(a, DecimalValue(p)) == Block(a, DecimalValue(p));
  }
}
