/**
 * IPv4 literals as the peer layer reads and prints them: butil::str2ip skips
 * leading white space and hands the rest to inet_pton(AF_INET), which accepts
 * exactly four dot-separated decimal octets without leading zeros; ip2str
 * prints the dotted quad back.
 */
module Ipv4 {
  import opened Wrappers
  import opened Text

  type Octet = x: nat | x < 256

  /** An IPv4 address, most significant octet first. */
  datatype Ip = Ip(a: Octet, b: Octet, c: Octet, d: Octet)

  /** butil::IP_ANY, the address 0.0.0.0. */
  const IpAny := Ip(0, 0, 0, 0)

  /** The dotted quad printed for `ip`. */
  function IpToString(ip: Ip): string {
    JoinDots([NatToString(ip.a), NatToString(ip.b), NatToString(ip.c), NatToString(ip.d)])
  }

  function JoinDots(parts: seq<string>): string
    requires parts != []
  {
    if |parts| == 1 then parts[0] else parts[0] + "." + JoinDots(parts[1..])
  }

  /** The pieces of `s` between its '.' separators. */
  function SplitDots(s: string): (parts: seq<string>)
    ensures parts != []
    ensures forall i :: 0 <= i < |parts| ==> '.' !in parts[i]
    ensures JoinDots(parts) == s
    decreases |s|
  {
    var k := Span(s, IsNotDot);
    if k == |s| then
      assert s[..k] == s;
      [s]
    else
      var rest := SplitDots(s[k + 1..]);
      assert s == s[..k] + "." + s[k + 1..];
      assert ([s[..k]] + rest)[1..] == rest;
      [s[..k]] + rest
  }

  lemma SplitDotsOfDotFree(x: string, rest: string)
    requires '.' !in x
    ensures SplitDots(x + "." + rest) == [x] + SplitDots(rest)
    ensures SplitDots(x) == [x]
  {
    SpanStopsAfter(x, "." + rest, IsNotDot);
    assert x + "." + rest == x + ("." + rest);
    assert (x + "." + rest)[..|x|] == x;
    assert (x + "." + rest)[|x| + 1..] == rest;
    SpanStopsAfter(x, [], IsNotDot);
    assert x + [] == x;
  }

  /** One octet as inet_pton accepts it: decimal digits, no leading zero, at most 255. */
  function OctetOf(part: string): (r: Option<Octet>)
    ensures r.Some? ==> NatToString(r.value) == part
  {
    if part == [] || !AllDigits(part) || (part[0] == '0' && part != "0") || DigitsValue(part) > 255 then
      None
    else
      NatToStringOfDigits(part);
      Some(DigitsValue(part))
  }

  /** butil::str2ip: white space skipped, then exactly four octets. */
  function ParseIp(s: string): (r: Option<Ip>)
    ensures r.Some? ==> IpToString(r.value) == s[Span(s, IsSpace)..]
  {
    var parts := SplitDots(s[Span(s, IsSpace)..]);
    if |parts| != 4 then None
    else
      match (OctetOf(parts[0]), OctetOf(parts[1]), OctetOf(parts[2]), OctetOf(parts[3]))
      case (Some(a), Some(b), Some(c), Some(d)) =>
        assert parts == [NatToString(a), NatToString(b), NatToString(c), NatToString(d)];
        Some(Ip(a, b, c, d))
      case _ => None
  }

  lemma OctetOfNatToString(x: Octet)
    ensures '.' !in NatToString(x)
    ensures OctetOf(NatToString(x)) == Some(x)
  {
  }

  /** Splitting at the dots undoes joining pieces that hold no dot. */
  lemma {:induction false} SplitDotsOfJoinDots(parts: seq<string>)
    requires parts != []
    requires forall i :: 0 <= i < |parts| ==> '.' !in parts[i]
    ensures SplitDots(JoinDots(parts)) == parts
  {
    SplitDotsOfDotFree(parts[0], []);
    if |parts| > 1 {
      SplitDotsOfJoinDots(parts[1..]);
      SplitDotsOfDotFree(parts[0], JoinDots(parts[1..]));
    }
  }

  /** An address printed by ip2str is read back by str2ip. */
  lemma ParseIpOfIpToString(ip: Ip)
    ensures ParseIp(IpToString(ip)) == Some(ip)
  {
    var s := IpToString(ip);
    assert Span(s, IsSpace) == 0;
    assert s[0..] == s;
    OctetOfNatToString(ip.a);
    OctetOfNatToString(ip.b);
    OctetOfNatToString(ip.c);
    OctetOfNatToString(ip.d);
    SplitDotsOfJoinDots([NatToString(ip.a), NatToString(ip.b), NatToString(ip.c), NatToString(ip.d)]);
  }

  /** The order of IP values: octets compared in turn. */
  predicate IpLess(x: Ip, y: Ip) {
    x.a < y.a || (x.a == y.a && (x.b < y.b || (x.b == y.b && (x.c < y.c || (x.c == y.c && x.d < y.d)))))
  }
}
