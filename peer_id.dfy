/**
 * PeerId: the name of one replica. A peer is either a network end point
 * (an IP address and a port) or a host name that already carries its port
 * ("name:port"), and in both cases an `idx` that tells apart replicas sharing
 * one address.
 *
 * The C++ struct keeps the fields of both variants side by side and a tag
 * `type_` that says which are in use. The model keeps only the fields of the
 * active variant: equality, order, is_empty and to_string never look at the
 * others, and parse only appends to `hostname_` after reset, when it is empty
 * for every peer built by the default constructor, parse, reset and
 * assignment.
 */
module PeerIds {
  import opened Wrappers
  import opened Text
  import opened Ipv4

  /** butil::EndPoint: an IP address and a port. */
  datatype EndPoint = EndPoint(ip: Ip, port: int)

  /** butil's order of end points: by address, then by port. */
  predicate EndPointLess(x: EndPoint, y: EndPoint) {
    if x.ip != y.ip then IpLess(x.ip, y.ip) else x.port < y.port
  }

  /** butil::endpoint2str: "ip:port". */
  function EndPointToString(e: EndPoint): string {
    IpToString(e.ip) + ":" + IntToString(e.port)
  }

  /** PeerId::Type; its enum values are 0 and 1. */
  datatype PeerType = EndPointType | HostNameType

  datatype PeerId =
    | EndPointPeer(addr: EndPoint, idx: int)
    | HostNamePeer(hostname: string, idx: int)
  {
    function Type(): PeerType {
      if EndPointPeer? then EndPointType else HostNameType
    }
  }

  /** The peer that PeerId() constructs: end point 0.0.0.0:0, idx 0. */
  const DefaultPeer := EndPointPeer(EndPoint(IpAny, 0), 0)

  // ---------------------------------------------------------------------------
  // reset and is_empty

  /** is_empty: the unset address (IP_ANY and port 0, or no host name) and idx 0. */
  predicate IsEmpty(p: PeerId) {
    match p
    case EndPointPeer(e, idx) => e.ip == IpAny && e.port == 0 && idx == 0
    case HostNamePeer(h, idx) => h == [] && idx == 0
  }

  /** reset: clears the fields of the variant in use; the variant itself is kept. */
  function Reset(p: PeerId): (r: PeerId)
    ensures r.Type() == p.Type()
    ensures IsEmpty(r)
  {
    match p
    case EndPointPeer(_, _) => EndPointPeer(EndPoint(IpAny, 0), 0)
    case HostNamePeer(_, _) => HostNamePeer([], 0)
  }

  /** The empty peers are exactly the ones reset leaves unchanged. */
  lemma EmptyIffReset(p: PeerId)
    ensures IsEmpty(p) <==> Reset(p) == p
  {
  }

  /** The default-constructed peer is empty. */
  lemma DefaultPeerIsEmpty()
    ensures IsEmpty(DefaultPeer) && DefaultPeer.Type() == EndPointType
  {
  }

  // ---------------------------------------------------------------------------
  // parse

  /** What sscanf(str, "%[^:]%*[:]%d%*[:]%d", addr, &port, &idx) reports. */
  datatype Scanned = Scanned(count: int, addr: string, port: int, idx: int)

  /**
   * One "%*[:]%d" step of the scan: one or more ':' and then a `%d`. The
   * result is the number and the count of characters consumed.
   */
  function ScanColonInt(s: string): (r: Option<(int, nat)>)
    ensures r.Some? ==> 1 < r.value.1 <= |s| && s[0] == ':'
  {
    var c := Span(s, IsColon);
    if c == 0 then None
    else
      match ScanInt(s[c..])
      case None => None
      case Some((v, n)) => Some((v, c + n))
  }

  lemma ScanColonIntOfRendered(n: int, rest: string)
    requires rest == [] || !IsDigit(rest[0])
    ensures ScanColonInt(":" + IntToString(n) + rest) == Some((n, 1 + |IntToString(n)|))
  {
    var N := IntToString(n);
    var s := ":" + N + rest;
    assert s == ":" + (N + rest);
    SpanStopsAfter(":", N + rest, IsColon);
    assert s[1..] == N + rest;
    ScanIntOfIntToString(n, rest);
  }

  /**
   * The scan that parse performs: the address is every character up to the
   * first ':' (at least one), then one or more ':', a `%d` port, one or more
   * ':' and a `%d` idx. `count` is the number of fields converted, or -1 (EOF)
   * when the text is empty. sscanf reads the text only up to its first NUL.
   */
  function ScanPeerText(text: string): (r: Scanned)
    ensures -1 <= r.count <= 3
    ensures r.count == -1 <==> CString(text) == []
    ensures r.count >= 1 ==> r.addr != [] && r.addr <= CString(text)
    ensures r.count >= 1 ==> forall i :: 0 <= i < |r.addr| ==> r.addr[i] != ':' && r.addr[i] != '\0'
  {
    var s := CString(text);
    if s == [] then Scanned(-1, [], 0, 0)
    else
      var a := Span(s, IsNotColon);
      if a == 0 then Scanned(0, [], 0, 0)
      else ScanFields(s[..a], s[a..])
  }

  /** The scan once the address has been read: the port and then the idx. */
  function ScanFields(addr: string, rest: string): (r: Scanned)
    ensures 1 <= r.count <= 3 && r.addr == addr
  {
    match ScanColonInt(rest)
    case None => Scanned(1, addr, 0, 0)
    case Some((port, n)) =>
      match ScanColonInt(rest[n..])
      case None => Scanned(2, addr, port, 0)
      case Some((idx, _)) => Scanned(3, addr, port, idx)
  }

  /** Text that starts with an address and holds no NUL is scanned field by field after it. */
  lemma ScanPeerTextAfterAddress(addr: string, rest: string)
    requires addr != []
    requires forall i :: 0 <= i < |addr| ==> addr[i] != ':' && addr[i] != '\0'
    requires forall i :: 0 <= i < |rest| ==> IsDigit(rest[i]) || rest[i] == '-' || rest[i] == ':'
    requires rest == [] || rest[0] == ':'
    ensures ScanPeerText(addr + rest) == ScanFields(addr, rest)
  {
    var s := addr + rest;
    RenderedHasNoNul(addr, rest);
    CStringOfNulFree(s);
    SpanStopsAfter(addr, rest, IsNotColon);
    assert s[..|addr|] == addr && s[|addr|..] == rest;
  }

  /** The result code of parse (0 or -1) and the peer afterwards. */
  datatype ParseResult = ParseResult(rc: int, peer: PeerId)

  /**
   * parse: reset, scan; fewer than two fields is -1 with the peer reset.
   * Otherwise an address that str2ip reads as an IP literal gives an end
   * point, any other gives a host name "address:port"; idx stays 0 unless a
   * third field was scanned.
   */
  function Parse(p: PeerId, text: string): (r: ParseResult)
    ensures r.rc == 0 || r.rc == -1
    ensures r.rc == -1 <==> ScanPeerText(text).count < 2
    ensures r.rc == -1 ==> r.peer.Type() == p.Type() && IsEmpty(r.peer)
    ensures r.rc == 0 && ScanPeerText(text).count == 2 ==> r.peer.idx == 0
    ensures r.rc == 0 ==> (r.peer.HostNamePeer? <==> ParseIp(ScanPeerText(text).addr).None?)
  {
    var q := Reset(p);
    var sc := ScanPeerText(text);
    if sc.count < 2 then
      ParseResult(-1, Reset(q))
    else
      var idx := if sc.count == 3 then sc.idx else q.idx;
      match ParseIp(sc.addr)
      case Some(ip) => ParseResult(0, EndPointPeer(EndPoint(ip, sc.port), idx))
      case None =>
        // hostname_ is empty after reset, so the appended text is all of it
        ParseResult(0, HostNamePeer(sc.addr + ":" + IntToString(sc.port), idx))
  }

  // ---------------------------------------------------------------------------
  // to_string

  /** to_string prints into char[265]: at most 264 characters survive. */
  const ToStringCapacity := 264

  /** The full text of a peer, as operator<< writes it: the address with its port, ":", idx. */
  function Render(p: PeerId): string {
    match p
    case EndPointPeer(e, idx) => EndPointToString(e) + ":" + IntToString(idx)
    case HostNamePeer(h, idx) => h + ":" + IntToString(idx)
  }

  /** The host name, if any, holds no NUL, so c_str() passes it whole. */
  predicate HostNameNulFree(p: PeerId) {
    p.HostNamePeer? ==> NulFree(p.hostname)
  }

  /**
   * The text "%s:%d" forms for a peer: the host name goes through c_str(),
   * so only its part before a NUL is printed.
   */
  function PrintedText(p: PeerId): string {
    match p
    case EndPointPeer(e, idx) => EndPointToString(e) + ":" + IntToString(idx)
    case HostNamePeer(h, idx) => CString(h) + ":" + IntToString(idx)
  }

  /** A numeral is NUL-free, and so is ':' followed by one. */
  lemma NumeralNulFree(n: int)
    ensures NulFree(IntToString(n)) && NulFree(":" + IntToString(n))
  {
    var N := IntToString(n);
    assert forall i :: 0 <= i < |N| ==> IsDigit(N[i]) || N[i] == '-';
    assert forall i :: 0 < i <= |N| ==> (":" + N)[i] == N[i - 1];
  }

  /** Joining NUL-free texts gives a NUL-free text. */
  lemma ConcatNulFree(a: string, b: string)
    requires NulFree(a) && NulFree(b)
    ensures NulFree(a + b)
  {
    assert forall i :: |a| <= i < |a + b| ==> (a + b)[i] == b[i - |a|];
  }

  lemma PrintedTextNulFree(p: PeerId)
    ensures NulFree(PrintedText(p))
  {
    NumeralNulFree(p.idx);
    match p
    case EndPointPeer(e, idx) =>
      IpToStringChars(e.ip);
      NumeralNulFree(e.port);
      ConcatNulFree(IpToString(e.ip), ":" + IntToString(e.port));
      assert EndPointToString(e) == IpToString(e.ip) + (":" + IntToString(e.port));
      ConcatNulFree(EndPointToString(e), ":" + IntToString(idx));
      assert PrintedText(p) == EndPointToString(e) + (":" + IntToString(idx));
    case HostNamePeer(h, idx) =>
      ConcatNulFree(CString(h), ":" + IntToString(idx));
      assert PrintedText(p) == CString(h) + (":" + IntToString(idx));
  }

  /** Without a NUL in the host name, printf prints what operator<< writes. */
  lemma PrintedTextOfNulFree(p: PeerId)
    ensures HostNameNulFree(p) ==> PrintedText(p) == Render(p)
  {
    if p.HostNamePeer? && NulFree(p.hostname) {
      CStringOfNulFree(p.hostname);
    }
  }

  /**
   * to_string: the printed text cut to the buffer's capacity. The result
   * never holds a NUL; it is the peer's full text whenever the host name has
   * no NUL and the text fits, and for a host name with a NUL it stops at it.
   */
  function ToString(p: PeerId): (s: string)
    ensures |s| <= ToStringCapacity
    ensures NulFree(s)
    ensures HostNameNulFree(p) ==> s <= Render(p)
    ensures HostNameNulFree(p) && |Render(p)| <= ToStringCapacity ==> s == Render(p)
    ensures p.HostNamePeer? ==> s <= CString(p.hostname) + ":" + IntToString(p.idx)
  {
    PrintedTextNulFree(p);
    PrintedTextOfNulFree(p);
    Truncate(PrintedText(p), ToStringCapacity)
  }

  lemma {:induction false} JoinDotsOfNumerals(parts: seq<string>)
    requires parts != []
    requires forall i :: 0 <= i < |parts| ==> AllDigits(parts[i])
    ensures forall i :: 0 <= i < |JoinDots(parts)| ==> IsDigit(JoinDots(parts)[i]) || JoinDots(parts)[i] == '.'
  {
    if |parts| > 1 {
      JoinDotsOfNumerals(parts[1..]);
      var s := JoinDots(parts);
      var t := JoinDots(parts[1..]);
      assert s == parts[0] + "." + t;
      forall i | 0 <= i < |s|
        ensures IsDigit(s[i]) || s[i] == '.'
      {
        if i > |parts[0]| {
          assert s[i] == t[i - |parts[0]| - 1];
        }
      }
    }
  }

  /** An IP literal has neither ':' nor NUL in it. */
  lemma IpToStringChars(ip: Ip)
    ensures forall i :: 0 <= i < |IpToString(ip)| ==> IpToString(ip)[i] != ':' && IpToString(ip)[i] != '\0'
  {
    JoinDotsOfNumerals([NatToString(ip.a), NatToString(ip.b), NatToString(ip.c), NatToString(ip.d)]);
  }

  /** "addr" followed by ':' and numerals holds no NUL when the address holds none. */
  lemma RenderedHasNoNul(addr: string, rest: string)
    requires forall i :: 0 <= i < |addr| ==> addr[i] != '\0'
    requires forall i :: 0 <= i < |rest| ==> IsDigit(rest[i]) || rest[i] == '-' || rest[i] == ':'
    ensures forall i :: 0 <= i < |addr + rest| ==> (addr + rest)[i] != '\0'
  {
  }

  /** ":" followed by a numeral and more such text holds only digits, '-' and ':'. */
  lemma ColonNumeralChars(n: int, rest: string)
    requires forall i :: 0 <= i < |rest| ==> IsDigit(rest[i]) || rest[i] == '-' || rest[i] == ':'
    ensures var s := ":" + IntToString(n) + rest;
      forall i :: 0 <= i < |s| ==> IsDigit(s[i]) || s[i] == '-' || s[i] == ':'
  {
    var N := IntToString(n);
    var s := ":" + N + rest;
    forall i | 0 <= i < |s|
      ensures IsDigit(s[i]) || s[i] == '-' || s[i] == ':'
    {
      if 0 < i <= |N| {
        assert s[i] == N[i - 1];
      } else if i > |N| {
        assert s[i] == rest[i - |N| - 1];
      }
    }
  }

  lemma ScanFieldsOfRendered(addr: string, port: int, idx: int)
    ensures ScanFields(addr, ":" + IntToString(port) + (":" + IntToString(idx)))
         == Scanned(3, addr, port, idx)
  {
    var P, I := IntToString(port), IntToString(idx);
    var rest := ":" + P + (":" + I);
    ScanColonIntOfRendered(port, ":" + I);
    assert rest[1 + |P|..] == ":" + I + [];
    ScanColonIntOfRendered(idx, []);
  }

  /** Scanning "addr:port:idx" converts all three fields back. */
  lemma ScanOfRendered(addr: string, port: int, idx: int)
    requires addr != []
    requires forall i :: 0 <= i < |addr| ==> addr[i] != ':' && addr[i] != '\0'
    ensures ScanPeerText(addr + ":" + IntToString(port) + ":" + IntToString(idx)) == Scanned(3, addr, port, idx)
  {
    var P, I := IntToString(port), IntToString(idx);
    var rest := ":" + P + (":" + I);
    assert addr + ":" + P + ":" + I == addr + rest;
    ColonNumeralChars(idx, []);
    assert ":" + I + [] == ":" + I;
    ColonNumeralChars(port, ":" + I);
    ScanPeerTextAfterAddress(addr, rest);
    ScanFieldsOfRendered(addr, port, idx);
  }

  /** Scanning "addr:port" converts the address and the port only. */
  lemma ScanOfRenderedWithoutIdx(addr: string, port: int)
    requires addr != []
    requires forall i :: 0 <= i < |addr| ==> addr[i] != ':' && addr[i] != '\0'
    ensures ScanPeerText(addr + ":" + IntToString(port)) == Scanned(2, addr, port, 0)
  {
    var P := IntToString(port);
    var rest := ":" + P + [];
    assert addr + ":" + P == addr + rest;
    ColonNumeralChars(port, []);
    ScanPeerTextAfterAddress(addr, rest);
    ScanColonIntOfRendered(port, []);
    assert rest[1 + |P|..] == [];
  }

  /** A peer text without idx parses with idx 0, as an end point or a host name "address:port". */
  lemma ParseWithoutIdx(p: PeerId, addr: string, port: int)
    requires addr != []
    requires forall i :: 0 <= i < |addr| ==> addr[i] != ':' && addr[i] != '\0'
    ensures Parse(p, addr + ":" + IntToString(port)).rc == 0
    ensures Parse(p, addr + ":" + IntToString(port)).peer
         == match ParseIp(addr)
            case Some(ip) => EndPointPeer(EndPoint(ip, port), 0)
            case None => HostNamePeer(addr + ":" + IntToString(port), 0)
  {
    ScanOfRenderedWithoutIdx(addr, port);
  }

  /**
   * Every end point peer whose text fits to_string's buffer is read back by
   * parse as itself, whatever peer parse starts from.
   */
  lemma ParseOfToStringEndPoint(p: PeerId, e: EndPoint, idx: int)
    requires |Render(EndPointPeer(e, idx))| <= ToStringCapacity
    ensures Parse(p, ToString(EndPointPeer(e, idx))) == ParseResult(0, EndPointPeer(e, idx))
  {
    var addr := IpToString(e.ip);
    var q := EndPointPeer(e, idx);
    assert HostNameNulFree(q);
    assert ToString(q) == Render(q);
    assert Render(q) == addr + ":" + IntToString(e.port) + ":" + IntToString(idx);
    IpToStringChars(e.ip);
    ScanOfRendered(addr, e.port, idx);
    ParseIpOfIpToString(e.ip);
  }

  /** A host name "addr:port" that parse built is read back from its to_string. */
  lemma ParseOfToStringHostName(p: PeerId, addr: string, port: int, idx: int)
    requires addr != []
    requires forall i :: 0 <= i < |addr| ==> addr[i] != ':' && addr[i] != '\0'
    requires ParseIp(addr).None?
    requires |Render(HostNamePeer(addr + ":" + IntToString(port), idx))| <= ToStringCapacity
    ensures Parse(p, ToString(HostNamePeer(addr + ":" + IntToString(port), idx)))
         == ParseResult(0, HostNamePeer(addr + ":" + IntToString(port), idx))
  {
    var q := HostNamePeer(addr + ":" + IntToString(port), idx);
    NumeralNulFree(port);
    ConcatNulFree(addr, ":" + IntToString(port));
    assert q.hostname == addr + (":" + IntToString(port));
    assert ToString(q) == addr + ":" + IntToString(port) + ":" + IntToString(idx);
    ScanOfRendered(addr, port, idx);
  }

  /**
   * parse reads back what to_string prints for a parsed peer, whatever peer
   * it starts from, as long as the text fits to_string's buffer.
   */
  lemma ParseOfToString(p: PeerId, text: string, p': PeerId)
    requires Parse(p, text).rc == 0
    requires |Render(Parse(p, text).peer)| <= ToStringCapacity
    ensures Parse(p', ToString(Parse(p, text).peer)) == Parse(p, text)
  {
    var sc := ScanPeerText(text);
    var q := Parse(p, text).peer;
    match q
    case EndPointPeer(e, idx) =>
      ParseOfToStringEndPoint(p', e, idx);
    case HostNamePeer(_, idx) =>
      ParseOfToStringHostName(p', sc.addr, sc.port, idx);
  }

  // ---------------------------------------------------------------------------
  // operator== and operator<

  /** operator==: same variant, same address (or host name) and same idx. */
  predicate PeerEq(x: PeerId, y: PeerId) {
    if x.EndPointPeer? && y.EndPointPeer? then x.addr == y.addr && x.idx == y.idx
    else if x.HostNamePeer? && y.HostNamePeer? then x.hostname == y.hostname && x.idx == y.idx
    else false
  }

  /** operator== is value equality, so a set of peers is a set under operator==. */
  lemma PeerEqIsEquality(x: PeerId, y: PeerId)
    ensures PeerEq(x, y) <==> x == y
    ensures x.Type() != y.Type() ==> !PeerEq(x, y)
  {
  }

  /**
   * operator<: within a variant, by address (or host name) and then idx;
   * peers of different variants are never less than each other.
   */
  predicate PeerLess(x: PeerId, y: PeerId) {
    if x.EndPointPeer? && y.EndPointPeer? then
      EndPointLess(x.addr, y.addr) || (x.addr == y.addr && x.idx < y.idx)
    else if x.HostNamePeer? && y.HostNamePeer? then
      StringLess(x.hostname, y.hostname) || (x.hostname == y.hostname && x.idx < y.idx)
    else
      false
  }

  lemma PeerLessIrreflexive(x: PeerId)
    ensures !PeerLess(x, x)
  {
    if x.HostNamePeer? {
      StringLessIrreflexive(x.hostname);
    }
  }

  lemma PeerLessAcrossVariants(x: PeerId, y: PeerId)
    requires x.Type() != y.Type()
    ensures !PeerLess(x, y) && !PeerLess(y, x) && !PeerEq(x, y)
  {
  }

  lemma PeerLessTransitive(x: PeerId, y: PeerId, z: PeerId)
    requires PeerLess(x, y) && PeerLess(y, z)
    ensures PeerLess(x, z)
  {
    if x.HostNamePeer? {
      if StringLess(x.hostname, y.hostname) && StringLess(y.hostname, z.hostname) {
        StringLessTransitive(x.hostname, y.hostname, z.hostname);
      }
    }
  }

  /** Within one variant exactly one of x < y, x == y, y < x holds. */
  lemma PeerLessTrichotomy(x: PeerId, y: PeerId)
    requires x.Type() == y.Type()
    ensures PeerLess(x, y) || x == y || PeerLess(y, x)
    ensures PeerLess(x, y) ==> !PeerLess(y, x) && x != y
  {
    PeerLessIrreflexive(x);
    if x.HostNamePeer? {
      StringLessTotal(x.hostname, y.hostname);
      StringLessAsymmetric(x.hostname, y.hostname);
      StringLessIrreflexive(x.hostname);
    }
  }

  // ---------------------------------------------------------------------------
  // std::set<PeerId> and operator<

  /**
   * std::set treats two keys neither of which is less than the other as the
   * same key. With operator< as written this holds of any end point and any
   * host name.
   */
  predicate SameSetKey(x: PeerId, y: PeerId) {
    !PeerLess(x, y) && !PeerLess(y, x)
  }

  /**
   * As written, an end point peer and a host name peer are one key to
   * std::set, and "same key" is not transitive, so operator< is not the
   * strict weak order std::set requires.
   */
  lemma SetKeyAsWrittenMergesVariants()
    ensures var ip1 := EndPointPeer(EndPoint(Ip(10, 0, 0, 1), 8002), 0);
            var ip2 := EndPointPeer(EndPoint(Ip(10, 0, 0, 2), 8002), 0);
            var host := HostNamePeer("node-a:8002", 0);
            && ip1 != host && SameSetKey(ip1, host)
            && SameSetKey(host, ip2) && !SameSetKey(ip1, ip2)
  {
  }

  function TypeRank(t: PeerType): nat {
    if t == EndPointType then 0 else 1
  }

  /**
   * The order a sorted container of peers needs: by variant first (end
   * points before host names, as their enum values), then by operator<
   * within the variant.
   */
  predicate FixedLess(x: PeerId, y: PeerId) {
    TypeRank(x.Type()) < TypeRank(y.Type()) || (x.Type() == y.Type() && PeerLess(x, y))
  }

  /** FixedLess is a strict total order, so its "same key" is value equality. */
  lemma FixedLessIsStrictTotalOrder(x: PeerId, y: PeerId, z: PeerId)
    ensures !FixedLess(x, x)
    ensures FixedLess(x, y) ==> !FixedLess(y, x)
    ensures FixedLess(x, y) && FixedLess(y, z) ==> FixedLess(x, z)
    ensures x == y || FixedLess(x, y) || FixedLess(y, x)
    ensures (!FixedLess(x, y) && !FixedLess(y, x)) <==> x == y
  {
    PeerLessIrreflexive(x);
    if x.Type() == y.Type() {
      PeerLessTrichotomy(x, y);
    }
    if FixedLess(x, y) && FixedLess(y, z) && x.Type() == y.Type() && y.Type() == z.Type() {
      PeerLessTransitive(x, y, z);
    }
  }

  /** Within one variant FixedLess is operator< itself. */
  lemma FixedLessWithinVariant(x: PeerId, y: PeerId)
    requires x.Type() == y.Type()
    ensures FixedLess(x, y) <==> PeerLess(x, y)
  {
  }

  // ---------------------------------------------------------------------------
  // The copy constructor

  /**
   * PeerId(const PeerId&) as written: it copies addr, idx and type_ but not
   * hostname_, which the copy starts with empty.
   */
  function CopyAsWritten(p: PeerId): (r: PeerId)
    ensures r.Type() == p.Type() && r.idx == p.idx
    ensures r.EndPointPeer? ==> r == p
  {
    match p
    case EndPointPeer(_, _) => p
    case HostNamePeer(_, idx) => HostNamePeer([], idx)
  }

  /**
   * As written, a copy of a peer with a non-empty host name is not equal to
   * it, and any two host names with one idx copy to the same peer. std::set
   * stores the copy, which sorts strictly before the peer given: after
   * add_peer(a) returns true, contains(a) finds no key equivalent to a, and a
   * second add_peer(a) inserts one more copy.
   */
  lemma CopyAsWrittenLosesHostName(h: string, h': string, idx: int)
    requires h != []
    ensures var a := HostNamePeer(h, idx);
            && CopyAsWritten(a) != a
            && CopyAsWritten(a) == CopyAsWritten(HostNamePeer(h', idx))
            && PeerLess(CopyAsWritten(a), a) && !PeerLess(a, CopyAsWritten(a))
            && !SameSetKey(CopyAsWritten(a), a)
  {
    var a := HostNamePeer(h, idx);
    StringLessAsymmetric([], h);
  }
}
