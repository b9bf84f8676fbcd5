/**
 * The part of Python's `ipaddress` module that ip_tool.py uses on IPv4
 * networks: `ip_network(text, strict=False)`, `str()` of a network,
 * `__contains__`, `broadcast_address` and `overlaps`. An address is a
 * number below 2^32; a network is a network address and a prefix length.
 */
module Ipv4 {
  import opened Wrappers
  import opened Text
  import opened Bits

  /** An address is four octets (`IPv4Address._max_prefixlen // 8`). */
  const AddressOctets: nat := 4

  /** `IPv4Network._max_prefixlen`, the width of an address in bits. */
  const MaxPrefixLen: nat := AddressOctets * 8

  /** `_ip_int_from_prefix(p)`, the netmask of a /p network. */
  function Netmask(p: nat): nat
    requires p <= MaxPrefixLen
  {
    PrefixMask(p, MaxPrefixLen)
  }

  /** `hostmask`: `netmask ^ ALL_ONES`. */
  function Hostmask(p: nat): nat
    requires p <= MaxPrefixLen
  {
    HostMask(p, MaxPrefixLen)
  }

  /** An address is four octets: 2^32 == 256^4. */
  lemma {:induction false} AddressSpace()
    ensures Pow2(MaxPrefixLen) == 256 * 256 * 256 * 256
  {
    assert Pow2(8) == 256;
    Pow2Add(8, 8);
    Pow2Add(16, 16);
  }

  // ---------------------------------------------------------------- addresses

  /** `_parse_octet`: one decimal octet, as strict as glibc's inet_pton. */
  function ParseOctet(s: string): (r: Option<nat>)
    ensures r.Some? ==> r.value <= 255
  {
    if |s| == 0 then None                        // empty octet
    else if !IsDigits(s) then None               // only ASCII digits
    else if |s| > 3 then None                    // at most three characters
    else if s != "0" && s[0] == '0' then None    // no leading zeros
    else if DigitsValue(s) > 255 then None
    else Some(DigitsValue(s))
  }

  /** `int.from_bytes(octets, 'big')` for four octets. */
  function FromOctets(o0: nat, o1: nat, o2: nat, o3: nat): nat {
    ((o0 * 256 + o1) * 256 + o2) * 256 + o3
  }

  /** `_ip_int_from_string`: a dotted quad to its 32-bit value. */
  function ParseAddress(s: string): (r: Option<nat>)
    ensures r.Some? ==> r.value < Pow2(MaxPrefixLen)
  {
    AddressSpace();
    if |s| == 0 then None
    else
      var parts := Split(s, '.');
      if |parts| != 4 then None
      else
        var o0, o1, o2, o3 := ParseOctet(parts[0]), ParseOctet(parts[1]), ParseOctet(parts[2]), ParseOctet(parts[3]);
        if o0.None? || o1.None? || o2.None? || o3.None? then None
        else Some(FromOctets(o0.value, o1.value, o2.value, o3.value))
  }

  /** `a.to_bytes(4, 'big')`. */
  function Octets(a: nat): seq<nat> {
    [a / 256 / 256 / 256, a / 256 / 256 % 256, a / 256 % 256, a % 256]
  }

  /** `str(IPv4Address(a))`: `'.'.join(map(str, a.to_bytes(4, 'big')))`. */
  function FormatAddress(a: nat): string {
    var o := Octets(a);
    Join([NatToString(o[0]), NatToString(o[1]), NatToString(o[2]), NatToString(o[3])], '.')
  }

  /** `str(n)` of an octet parses back to n. */
  lemma {:induction false} OctetRoundTrip(n: nat)
    requires n <= 255
    ensures ParseOctet(NatToString(n)) == Some(n)
    ensures '.' !in NatToString(n) && '/' !in NatToString(n)
  {
    ParseNatToString(n);
    NatToStringShort(n);
    var s := NatToString(n);
    assert s[0] in s;
    assert forall c :: c in s ==> IsDigit(c);
  }

  /** Every 32-bit address prints as a dotted quad that parses back to it. */
  lemma {:induction false} AddressRoundTrip(a: nat)
    requires a < Pow2(MaxPrefixLen)
    ensures ParseAddress(FormatAddress(a)) == Some(a)
    ensures '/' !in FormatAddress(a)
  {
    AddressSpace();
    var o := Octets(a);
    assert o[0] <= 255;
    OctetRoundTrip(o[0]);
    OctetRoundTrip(o[1]);
    OctetRoundTrip(o[2]);
    OctetRoundTrip(o[3]);
    var parts := [NatToString(o[0]), NatToString(o[1]), NatToString(o[2]), NatToString(o[3])];
    SplitJoin(parts, '.');
    var s := FormatAddress(a);
    assert Split(s, '.') == parts;
    assert |s| != 0;
    assert FromOctets(o[0], o[1], o[2], o[3]) == a;
    NotInJoin(parts, '.', '/');
  }

  // ------------------------------------------------------------------ netmasks

  /**
   * `_prefix_from_ip_string` once the text has parsed as the dotted quad v:
   * v read as a netmask, and failing that as a hostmask.
   */
  function PrefixFromMaskInt(v: nat): (r: Option<nat>)
    ensures r.Some? ==> r.value <= MaxPrefixLen
  {
    MaskOrHostmaskPrefix(v, MaxPrefixLen)
  }

  /**
   * `_make_netmask` on the text after the slash: a decimal prefix length
   * 0..32, otherwise a dotted netmask or hostmask.
   */
  function PrefixFromString(m: string): (r: Option<nat>)
    ensures r.Some? ==> r.value <= MaxPrefixLen
  {
    if IsDigits(m) && DigitsValue(m) <= MaxPrefixLen then Some(DigitsValue(m))
    else match ParseAddress(m)
      case None => None
      case Some(v) => PrefixFromMaskInt(v)
  }

  /** The netmask of every length 0..32 is read back as that length. */
  lemma {:induction false} NetmaskPrefix(p: nat)
    requires p <= MaxPrefixLen
    ensures PrefixFromMaskInt(Netmask(p)) == Some(p)
  {
    PrefixMaskReadBack(p, MaxPrefixLen);
  }

  /**
   * The hostmask of 0 < p < 32 (its 32 - p low one bits) is no netmask, so
   * it is flipped and read as prefix length p.
   */
  lemma {:induction false} HostmaskPrefix(p: nat)
    requires 0 < p < MaxPrefixLen
    ensures PrefixFromMaskInt(Pow2(MaxPrefixLen - p) - 1) == Some(p)
  {
    HostMaskReadBack(p, MaxPrefixLen);
  }

  // ------------------------------------------------------------------ networks

  /** An IPv4 network: `network_address` and `prefixlen`. */
  datatype Network = Network(address: nat, prefix: nat)

  /** A well-formed network: a 32-bit address with no host bit set. */
  predicate ValidNetwork(n: Network) {
    && n.prefix <= MaxPrefixLen
    && n.address < Pow2(MaxPrefixLen)
    && LowBits(n.address, MaxPrefixLen - n.prefix) == 0
  }

  /** `num_addresses`. */
  function Size(n: Network): nat
    requires n.prefix <= MaxPrefixLen
  {
    Pow2(MaxPrefixLen - n.prefix)
  }

  /** The highest address of the block. */
  function Last(n: Network): nat
    requires n.prefix <= MaxPrefixLen
  {
    n.address + Size(n) - 1
  }

  /** `packed & int(netmask)`: the network holding a, its host bits masked off. */
  function NetworkOf(a: nat, p: nat): Network
    requires p <= MaxPrefixLen
  {
    Network(BitAnd(a, Netmask(p)), p)
  }

  /** Masking clears the 32 - p host bits of a, leaving a well-formed network. */
  lemma {:induction false} NetworkOfValue(a: nat, p: nat)
    requires a < Pow2(MaxPrefixLen) && p <= MaxPrefixLen
    ensures NetworkOf(a, p) == Network(a - LowBits(a, MaxPrefixLen - p), p)
    ensures ValidNetwork(NetworkOf(a, p))
  {
    MaskWithPrefix(a, p, MaxPrefixLen);
  }

  /**
   * `_split_optional_netmask`: the address text and, when there is one
   * '/', the prefix text; more than one '/' is an error.
   */
  function SplitOptionalNetmask(s: string): (r: Option<(string, Option<string>)>)
  {
    var parts := Split(s, '/');
    if |parts| > 2 then None
    else if |parts| == 1 then Some((parts[0], None))
    else Some((parts[0], Some(parts[1])))
  }

  /**
   * `ip_network(s, strict=False)` for IPv4: a dotted-quad address, an
   * optional prefix (32 when absent), host bits masked off.
   */
  function ParseNetwork(s: string): (r: Option<Network>)
    ensures r.Some? ==> ValidNetwork(r.value)
  {
    match SplitOptionalNetmask(s)
    case None => None
    case Some((addressText, prefixText)) =>
      match ParseAddress(addressText)
      case None => None
      case Some(a) =>
        var prefix := if prefixText.None? then Some(MaxPrefixLen) else PrefixFromString(prefixText.value);
        match prefix
        case None => None
        case Some(p) =>
          NetworkOfValue(a, p);
          Some(NetworkOf(a, p))
  }

  /** `str(network)`: `'%s/%d' % (network_address, prefixlen)`. */
  function FormatNetwork(n: Network): string {
    FormatAddress(n.address) + "/" + NatToString(n.prefix)
  }

  /** The text of a network is digits, dots and one slash: no comma, no line break. */
  lemma {:induction false} NetworkTextPlain(n: Network)
    ensures ',' !in FormatNetwork(n) && '\n' !in FormatNetwork(n)
  {
    var o := Octets(n.address);
    var parts := [NatToString(o[0]), NatToString(o[1]), NatToString(o[2]), NatToString(o[3])];
    forall k | 0 <= k < |parts|
      ensures ',' !in parts[k] && '\n' !in parts[k]
    {
      DigitsOnly(parts[k], ',');
      DigitsOnly(parts[k], '\n');
    }
    NotInJoin(parts, '.', ',');
    NotInJoin(parts, '.', '\n');
    DigitsOnly(NatToString(n.prefix), ',');
    DigitsOnly(NatToString(n.prefix), '\n');
  }

  /** `IPv4Network.__contains__` for an address: `a & netmask == network_address`. */
  predicate Contains(n: Network, a: nat)
    requires n.prefix <= MaxPrefixLen
  {
    BitAnd(a, Netmask(n.prefix)) == n.address
  }

  /** `broadcast_address`: `network_address | hostmask`. */
  function Broadcast(n: Network): nat
    requires n.prefix <= MaxPrefixLen
  {
    BitOr(n.address, Hostmask(n.prefix))
  }

  /** `IPv4Network.overlaps`, with its four membership tests in the order Python makes them. */
  predicate Overlaps(x: Network, y: Network)
    requires x.prefix <= MaxPrefixLen && y.prefix <= MaxPrefixLen
  {
    || Contains(y, x.address)
    || Contains(y, Broadcast(x))
    || Contains(x, y.address)
    || Contains(x, Broadcast(y))
  }

  // ---------------------------------------------------- blocks of addresses

  /** The last address of a valid network is still a 32-bit address. */
  lemma {:induction false} LastInRange(n: Network)
    requires ValidNetwork(n)
    ensures n.address <= Last(n) < Pow2(MaxPrefixLen)
  {
    AlignedBlockFits(n.address, MaxPrefixLen - n.prefix, MaxPrefixLen);
  }

  /** `a in n` exactly when a lies between the network address and the last address. */
  lemma {:induction false} ContainsIffInBlock(n: Network, a: nat)
    requires ValidNetwork(n) && a < Pow2(MaxPrefixLen)
    ensures Contains(n, a) <==> n.address <= a <= Last(n)
  {
    MaskWithPrefix(a, n.prefix, MaxPrefixLen);
    RoundDownInBlock(a, n.address, MaxPrefixLen - n.prefix);
  }

  /** `broadcast_address` is the last address of the block. */
  lemma {:induction false} BroadcastIsLast(n: Network)
    requires ValidNetwork(n)
    ensures Broadcast(n) == Last(n)
  {
    FillHostBits(n.address, n.prefix, MaxPrefixLen);
  }

  /** `overlaps` holds exactly when the two blocks of addresses intersect. */
  lemma {:induction false} OverlapsIffIntersect(x: Network, y: Network)
    requires ValidNetwork(x) && ValidNetwork(y)
    ensures Overlaps(x, y) <==> x.address <= Last(y) && y.address <= Last(x)
  {
    LastInRange(x);
    LastInRange(y);
    BroadcastIsLast(x);
    BroadcastIsLast(y);
    ContainsIffInBlock(y, x.address);
    ContainsIffInBlock(y, Last(x));
    ContainsIffInBlock(x, y.address);
    ContainsIffInBlock(x, Last(y));
  }

  /** `overlaps` holds exactly when some address belongs to both networks. */
  lemma {:induction false} OverlapsIffSharedAddress(x: Network, y: Network)
    requires ValidNetwork(x) && ValidNetwork(y)
    ensures Overlaps(x, y) <==> exists a: nat :: a < Pow2(MaxPrefixLen) && Contains(x, a) && Contains(y, a)
  {
    OverlapsIffIntersect(x, y);
    LastInRange(x);
    LastInRange(y);
    if Overlaps(x, y) {
      var a := if x.address <= y.address then y.address else x.address;
      ContainsIffInBlock(x, a);
      ContainsIffInBlock(y, a);
    }
    if exists a: nat :: a < Pow2(MaxPrefixLen) && Contains(x, a) && Contains(y, a) {
      var a: nat :| a < Pow2(MaxPrefixLen) && Contains(x, a) && Contains(y, a);
      ContainsIffInBlock(x, a);
      ContainsIffInBlock(y, a);
    }
  }

  /** The order of the two networks does not matter to `overlaps`. */
  lemma {:induction false} OverlapsSymmetric(x: Network, y: Network)
    requires ValidNetwork(x) && ValidNetwork(y)
    ensures Overlaps(x, y) <==> Overlaps(y, x)
  {
    OverlapsIffIntersect(x, y);
    OverlapsIffIntersect(y, x);
  }

  /** Every network overlaps itself, so a range listed twice always collides. */
  lemma {:induction false} OverlapsReflexive(x: Network)
    requires ValidNetwork(x)
    ensures Overlaps(x, x)
  {
    OverlapsIffIntersect(x, x);
  }

  /**
   * CIDR blocks never partly overlap: when two networks overlap, the one with
   * the shorter prefix holds every address of the other.
   */
  lemma {:induction false} OverlapMeansNested(x: Network, y: Network)
    requires ValidNetwork(x) && ValidNetwork(y) && x.prefix <= y.prefix
    requires Overlaps(x, y)
    ensures x.address <= y.address && Last(y) <= Last(x)
  {
    OverlapsIffIntersect(x, y);
    IntersectingBlocksNest(x, y);
  }

  /** Two intersecting blocks: the one with the shorter prefix holds the other. */
  lemma {:induction false} IntersectingBlocksNest(x: Network, y: Network)
    requires ValidNetwork(x) && ValidNetwork(y) && x.prefix <= y.prefix
    requires x.address <= Last(y) && y.address <= Last(x)
    ensures x.address <= y.address && Last(y) <= Last(x)
  {
    AlignedBlocksNest(x.address, MaxPrefixLen - x.prefix, y.address, MaxPrefixLen - y.prefix);
  }

  // ------------------------------------------------------ parsing round trips

  /** A dotted quad is never mistaken for a prefix length. */
  lemma {:induction false} DottedQuadNotDigits(s: string)
    requires ParseAddress(s).Some?
    ensures !IsDigits(s)
  {
    SeveralPiecesHaveSeparator(s, '.');
    assert '.' in s;
  }

  /** `str(p)` after the slash means prefix length p, for 0 <= p <= 32. */
  lemma {:induction false} PrefixFromDigits(p: nat)
    requires p <= MaxPrefixLen
    ensures PrefixFromString(NatToString(p)) == Some(p)
  {
    ParseNatToString(p);
  }

  /** A decimal prefix length above 32 is rejected (it is no dotted mask either). */
  lemma {:induction false} PrefixTooLong(p: nat)
    requires p > MaxPrefixLen
    ensures PrefixFromString(NatToString(p)) == None
  {
    var s := NatToString(p);
    ParseNatToString(p);
    DigitsOnly(s, '.');
    SplitNoSeparator(s, '.');
  }

  /** A dotted netmask after the slash means its prefix length. */
  lemma {:induction false} PrefixFromNetmask(m: string, p: nat)
    requires p <= MaxPrefixLen && ParseAddress(m) == Some(Netmask(p))
    ensures PrefixFromString(m) == Some(p)
  {
    NetmaskPrefix(p);
    DottedQuadNotDigits(m);
  }

  /**
   * A dotted hostmask (the 32 - p low one bits) after the slash also means
   * prefix length p, except for /0 and /32, whose hostmasks read as the
   * netmasks of /32 and /0.
   */
  lemma {:induction false} PrefixFromHostmask(m: string, p: nat)
    requires 0 < p < MaxPrefixLen && ParseAddress(m) == Some(Pow2(MaxPrefixLen - p) - 1)
    ensures PrefixFromString(m) == Some(p)
  {
    HostmaskPrefix(p);
    DottedQuadNotDigits(m);
  }

  /** Text with one '/' splits into the address text and the prefix text around it. */
  lemma {:induction false} SplitAddressAndPrefix(address: string, prefix: string)
    requires '/' !in address && '/' !in prefix
    ensures SplitOptionalNetmask(address + "/" + prefix) == Some((address, Some(prefix)))
  {
    SplitAround(address, prefix, '/');
    SplitNoSeparator(address, '/');
    SplitNoSeparator(prefix, '/');
  }

  /** Text without '/' is all address text. */
  lemma {:induction false} SplitAddressOnly(address: string)
    requires '/' !in address
    ensures SplitOptionalNetmask(address) == Some((address, None))
  {
    SplitNoSeparator(address, '/');
  }

  /** `ip_network` of address text and prefix text that both parse. */
  lemma {:induction false} ParseNetworkOfParts(s: string, address: string, prefix: string, a: nat, p: nat)
    requires SplitOptionalNetmask(s) == Some((address, Some(prefix)))
    requires ParseAddress(address) == Some(a) && PrefixFromString(prefix) == Some(p)
    ensures ParseNetwork(s) == Some(NetworkOf(a, p))
  {
  }

  /** Address text and prefix text that both parse, joined by a slash. */
  lemma {:induction false} ParseJoinedParts(text: string, digits: string, a: nat, p: nat)
    requires ParseAddress(text) == Some(a) && '/' !in text
    requires PrefixFromString(digits) == Some(p) && '/' !in digits
    ensures ParseNetwork(text + "/" + digits) == Some(NetworkOf(a, p))
  {
    SplitAddressAndPrefix(text, digits);
    ParseNetworkOfParts(text + "/" + digits, text, digits, a, p);
  }

  /**
   * `ip_network(str(a) + "/" + str(p), strict=False)` is the /p network
   * holding a: its host bits are cleared, not rejected.
   */
  lemma {:induction false} ParseAddressWithPrefix(a: nat, p: nat)
    requires a < Pow2(MaxPrefixLen) && p <= MaxPrefixLen
    ensures ParseNetwork(FormatAddress(a) + "/" + NatToString(p)) == Some(Network(a - LowBits(a, MaxPrefixLen - p), p))
  {
    AddressRoundTrip(a);
    PrefixFromDigits(p);
    DigitsOnly(NatToString(p), '/');
    ParseJoinedParts(FormatAddress(a), NatToString(p), a, p);
    NetworkOfValue(a, p);
  }

  /** Address text without a slash is the /32 network of its address. */
  lemma {:induction false} ParseBareText(text: string, a: nat)
    requires ParseAddress(text) == Some(a) && '/' !in text
    ensures ParseNetwork(text) == Some(Network(a, MaxPrefixLen))
  {
    SplitAddressOnly(text);
    NetworkOfValue(a, MaxPrefixLen);
  }

  /** An address with no slash is a /32 network. */
  lemma {:induction false} ParseBareAddress(a: nat)
    requires a < Pow2(MaxPrefixLen)
    ensures ParseNetwork(FormatAddress(a)) == Some(Network(a, MaxPrefixLen))
  {
    AddressRoundTrip(a);
    ParseBareText(FormatAddress(a), a);
  }

  /** Text that joins the address text of a valid network and a prefix text naming its length. */
  lemma {:induction false} ParseNetworkText(s: string, text: string, digits: string, n: Network)
    requires ValidNetwork(n) && s == text + "/" + digits
    requires ParseAddress(text) == Some(n.address) && '/' !in text
    requires PrefixFromString(digits) == Some(n.prefix) && '/' !in digits
    ensures ParseNetwork(s) == Some(n)
  {
    ParseJoinedParts(text, digits, n.address, n.prefix);
    NetworkOfValue(n.address, n.prefix);
  }

  /** `ip_network(str(n))` gives back n. */
  lemma {:induction false} NetworkRoundTrip(n: Network)
    requires ValidNetwork(n)
    ensures ParseNetwork(FormatNetwork(n)) == Some(n)
  {
    var text, digits := FormatAddress(n.address), NatToString(n.prefix);
    AddressRoundTrip(n.address);
    PrefixFromDigits(n.prefix);
    DigitsOnly(digits, '/');
    ParseNetworkText(FormatNetwork(n), text, digits, n);
  }

  /** Every address of a block, written with the block's prefix, names that block. */
  lemma {:induction false} SameBlockSameNetwork(n: Network, a: nat)
    requires ValidNetwork(n) && a < Pow2(MaxPrefixLen) && Contains(n, a)
    ensures ParseNetwork(FormatAddress(a) + "/" + NatToString(n.prefix)) == Some(n)
  {
    var text, digits := FormatAddress(a), NatToString(n.prefix);
    AddressRoundTrip(a);
    PrefixFromDigits(n.prefix);
    DigitsOnly(digits, '/');
    SameBlockText(text + "/" + digits, text, digits, a, n);
  }

  /** Address text of any member of a valid network, joined to a prefix text naming its length. */
  lemma {:induction false} SameBlockText(s: string, text: string, digits: string, a: nat, n: Network)
    requires ValidNetwork(n) && a < Pow2(MaxPrefixLen) && Contains(n, a) && s == text + "/" + digits
    requires ParseAddress(text) == Some(a) && '/' !in text
    requires PrefixFromString(digits) == Some(n.prefix) && '/' !in digits
    ensures ParseNetwork(s) == Some(n)
  {
    ParseJoinedParts(text, digits, a, n.prefix);
  }

  // ------------------------------------------------------------------ examples

  /** The block sizes the examples use. */
  lemma {:induction false} ExampleSizes()
    ensures MaxPrefixLen == 32 && Pow2(MaxPrefixLen - 24) == 256 && Pow2(MaxPrefixLen - 25) == 128
    ensures Pow2(24) == 256 * 256 * 256 && Pow2(25) == 2 * 256 * 256 * 256
  {
    AddressSpace();
    assert Pow2(8) == 256;
    Pow2Add(8, 16);
  }

  /** "10.0.0.5/24" names the network 10.0.0.0/24: the host bits are cleared. */
  lemma {:induction false} HostBitsClearedExample()
    ensures ParseNetwork("10" + "." + "0" + "." + "0" + "." + "5" + "/" + "24") == Some(Network(FromOctets(10, 0, 0, 0), 24))
  {
    ExampleSizes();
    ExampleTexts();
    QuadText("10", "0", "0", "5", 10, 0, 0, 5);
    LastOctetBits(10, 0, 0, 5);
    HostBitsText("10" + "." + "0" + "." + "0" + "." + "5", "24", FromOctets(10, 0, 0, 5), 24, 5);
  }

  lemma {:induction false} ExampleTexts()
    ensures ParseOctet("10") == Some(10) && ParseOctet("0") == Some(0) && ParseOctet("5") == Some(5)
    ensures PrefixFromString("24") == Some(24) && '/' !in "24"
  {
    assert "10"[..1] == "1";
    assert "24"[..1] == "2";
    assert "1"[..0] == "" && "2"[..0] == "" && "0"[..0] == "" && "5"[..0] == "";
    assert MaxPrefixLen == 32;
  }

  /** The host bits of a /24 are the last octet. */
  lemma {:induction false} LastOctetBits(o0: nat, o1: nat, o2: nat, o3: nat)
    requires o3 <= 255
    ensures LowBits(FromOctets(o0, o1, o2, o3), MaxPrefixLen - 24) == o3
  {
    ExampleSizes();
    LowBitsMod(FromOctets(o0, o1, o2, o3), MaxPrefixLen - 24);
    DivModUnique(FromOctets(o0, o1, o2, o3), 256, (o0 * 256 + o1) * 256 + o2, o3);
  }

  /** Four octet texts joined by dots: the dotted quad of their value, with no slash in it. */
  lemma {:induction false} QuadText(a: string, b: string, c: string, d: string, va: nat, vb: nat, vc: nat, vd: nat)
    requires ParseOctet(a) == Some(va) && ParseOctet(b) == Some(vb)
    requires ParseOctet(c) == Some(vc) && ParseOctet(d) == Some(vd)
    ensures ParseAddress(a + "." + b + "." + c + "." + d) == Some(FromOctets(va, vb, vc, vd))
    ensures '/' !in a + "." + b + "." + c + "." + d
  {
    DigitsOnly(a, '.');
    DigitsOnly(b, '.');
    DigitsOnly(c, '.');
    DigitsOnly(d, '.');
    assert "." == ['.'];
    SplitQuad(a, b, c, d, '.');
    DigitsOnly(a, '/');
    DigitsOnly(b, '/');
    DigitsOnly(c, '/');
    DigitsOnly(d, '/');
  }

  /** Address text and prefix text that parse: the network of the address with its host bits cleared. */
  lemma {:induction false} HostBitsText(text: string, digits: string, a: nat, p: nat, low: nat)
    requires ParseAddress(text) == Some(a) && '/' !in text
    requires PrefixFromString(digits) == Some(p) && '/' !in digits
    requires LowBits(a, MaxPrefixLen - p) == low
    ensures low <= a && ParseNetwork(text + "/" + digits) == Some(Network(a - low, p))
  {
    ParseJoinedParts(text, digits, a, p);
    NetworkOfValue(a, p);
  }

  /** "192.168.1.0/24" names the network 192.168.1.0/24. */
  lemma {:induction false} ClassCRangeExample()
    ensures ParseNetwork("192" + "." + "168" + "." + "1" + "." + "0" + "/" + "24") == Some(Network(FromOctets(192, 168, 1, 0), 24))
  {
    NetworkOctetTexts();
    HostOctetTexts();
    ExampleTexts();
    LastOctetBits(192, 168, 1, 0);
    AlignedQuadText("192", "168", "1", "0", "24", 192, 168, 1, 0, 24);
  }

  /** "192.168.1.128/25" names the network 192.168.1.128/25: the upper half of the /24. */
  lemma {:induction false} UpperHalfRangeExample()
    ensures ParseNetwork("192" + "." + "168" + "." + "1" + "." + "128" + "/" + "25") == Some(Network(FromOctets(192, 168, 1, 128), 25))
  {
    NetworkOctetTexts();
    HostOctetTexts();
    HalfPrefixText();
    UpperHalfHostBits();
    AlignedQuadText("192", "168", "1", "128", "25", 192, 168, 1, 128, 25);
  }

  /** 192.168.1.128 has no bits below a /25 prefix. */
  lemma {:induction false} UpperHalfHostBits()
    ensures LowBits(FromOctets(192, 168, 1, 128), MaxPrefixLen - 25) == 0
  {
    ExampleSizes();
    var a := FromOctets(192, 168, 1, 128);
    LowBitsMod(a, MaxPrefixLen - 25);
    DivModUnique(a, 128, 2 * FromOctets(0, 192, 168, 1) + 1, 0);
  }

  /** A dotted quad with no host bits below its prefix, then "/" and the prefix, names that block. */
  lemma {:induction false} AlignedQuadText(a: string, b: string, c: string, d: string, digits: string,
                                           va: nat, vb: nat, vc: nat, vd: nat, p: nat)
    requires ParseOctet(a) == Some(va) && ParseOctet(b) == Some(vb)
    requires ParseOctet(c) == Some(vc) && ParseOctet(d) == Some(vd)
    requires PrefixFromString(digits) == Some(p) && '/' !in digits
    requires LowBits(FromOctets(va, vb, vc, vd), MaxPrefixLen - p) == 0
    ensures ParseNetwork(a + "." + b + "." + c + "." + d + "/" + digits) == Some(Network(FromOctets(va, vb, vc, vd), p))
  {
    QuadText(a, b, c, d, va, vb, vc, vd);
    HostBitsText(a + "." + b + "." + c + "." + d, digits, FromOctets(va, vb, vc, vd), p, 0);
  }

  lemma {:induction false} NetworkOctetTexts()
    ensures ParseOctet("192") == Some(192) && ParseOctet("168") == Some(168)
  {
    assert "192"[..2] == "19" && "19"[..1] == "1" && "1"[..0] == "";
    assert "168"[..2] == "16" && "16"[..1] == "1";
  }

  lemma {:induction false} HostOctetTexts()
    ensures ParseOctet("1") == Some(1) && ParseOctet("128") == Some(128)
  {
    assert "128"[..2] == "12" && "12"[..1] == "1" && "1"[..0] == "";
  }

  lemma {:induction false} HalfPrefixText()
    ensures PrefixFromString("25") == Some(25) && '/' !in "25"
  {
    assert MaxPrefixLen == 32;
    assert NatToString(25) == "25";
    PrefixFromDigits(25);
  }

  /** 192.168.1.0/24 holds 192.168.1.128/25, so the two overlap. */
  lemma {:induction false} NestedOverlapExample()
    ensures ValidNetwork(Network(FromOctets(192, 168, 1, 0), 24))
    ensures ValidNetwork(Network(FromOctets(192, 168, 1, 128), 25))
    ensures Overlaps(Network(FromOctets(192, 168, 1, 0), 24), Network(FromOctets(192, 168, 1, 128), 25))
  {
    var x, y := Network(FromOctets(192, 168, 1, 0), 24), Network(FromOctets(192, 168, 1, 128), 25);
    ExampleSizes();
    AlignedValid(x, FromOctets(0, 192, 168, 1));
    AlignedValid(y, 2 * FromOctets(0, 192, 168, 1) + 1);
    IntersectingOverlap(x, y);
  }

  /** 10.0.0.0/24 and 10.0.1.0/24 are neighbours and do not overlap. */
  lemma {:induction false} AdjacentBlocksExample()
    ensures ValidNetwork(Network(FromOctets(10, 0, 0, 0), 24))
    ensures ValidNetwork(Network(FromOctets(10, 0, 1, 0), 24))
    ensures !Overlaps(Network(FromOctets(10, 0, 0, 0), 24), Network(FromOctets(10, 0, 1, 0), 24))
  {
    var x, y := Network(FromOctets(10, 0, 0, 0), 24), Network(FromOctets(10, 0, 1, 0), 24);
    ExampleSizes();
    AlignedValid(x, FromOctets(0, 10, 0, 0));
    AlignedValid(y, FromOctets(0, 10, 0, 1));
    DisjointNoOverlap(x, y);
  }

  /** A block whose address is a multiple of its size is well formed. */
  lemma {:induction false} AlignedValid(n: Network, q: nat)
    requires n.prefix <= MaxPrefixLen && q < Pow2(n.prefix) && n.address == q * Size(n)
    ensures ValidNetwork(n)
  {
    var k := MaxPrefixLen - n.prefix;
    Pow2Add(n.prefix, k);
    assert n.address < Pow2(n.prefix) * Pow2(k) by {
      MulStrict(q, Pow2(n.prefix), Pow2(k));
    }
    LowBitsMod(n.address, k);
    DivModUnique(n.address, Pow2(k), q, 0);
  }

  lemma {:induction false} MulStrict(q: nat, b: nat, c: nat)
    requires q < b && c > 0
    ensures q * c < b * c
  {
    assert b * c == q * c + (b - q) * c;
    MulAtLeast(b - q, c);
  }
  lemma {:induction false} IntersectingOverlap(x: Network, y: Network)
    requires ValidNetwork(x) && ValidNetwork(y) && x.address <= Last(y) && y.address <= Last(x)
    ensures Overlaps(x, y)
  {
    OverlapsIffIntersect(x, y);
  }

  lemma {:induction false} DisjointNoOverlap(x: Network, y: Network)
    requires ValidNetwork(x) && ValidNetwork(y) && Last(x) < y.address
    ensures !Overlaps(x, y)
  {
    OverlapsIffIntersect(x, y);
  }
}
