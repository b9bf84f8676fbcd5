/**
 * `netmask_to_cidr`: a netmask's prefix length, counted as the one bits of
 * every dot-separated piece of its text, summed.
 */
module Cidr {
  import opened Wrappers
  import opened Text
  import opened Bits
  import opened Ipv4

  /** `int(piece)` raised ValueError: the piece is not a decimal number. */
  datatype Failure = NotANumber(piece: string)

  /** `bin(int(piece)).count('1')` for one piece. */
  function PieceOnes(piece: string): Result<nat, Failure> {
    match ParseNat(piece)
    case None => Err(NotANumber(piece))
    case Some(v) => Ok(Popcount(v))
  }

  /**
   * `sum([bin(int(o)).count('1') for o in pieces])`: pieces are read left to
   * right and the first one `int()` refuses ends the whole computation.
   */
  function SumOnes(pieces: seq<string>): Result<nat, Failure> {
    if |pieces| == 0 then Ok(0)
    else
      var first, rest := PieceOnes(pieces[0]), SumOnes(pieces[1..]);
      if first.Err? then first
      else if rest.Err? then rest
      else Ok(first.value + rest.value)
  }

  /** `netmask_to_cidr(netmask)`. */
  function NetmaskToCidr(netmask: string): Result<nat, Failure> {
    SumOnes(Split(netmask, '.'))
  }

  // ------------------------------------------------------------- the sum

  /** The sum is defined exactly when every piece is a decimal number. */
  lemma {:induction false} SumOnesDefined(pieces: seq<string>)
    ensures SumOnes(pieces).Ok? <==> forall k :: 0 <= k < |pieces| ==> IsDigits(pieces[k])
    decreases |pieces|
  {
    if |pieces| > 0 {
      SumOnesDefined(pieces[1..]);
      assert forall k :: 1 <= k < |pieces| ==> pieces[k] == pieces[1..][k - 1];
    }
  }

  /** The error is the first piece that is not a number. */
  lemma {:induction false} FirstBadPiece(pieces: seq<string>, i: nat)
    requires i < |pieces| && !IsDigits(pieces[i])
    requires forall k :: 0 <= k < i ==> IsDigits(pieces[k])
    ensures SumOnes(pieces) == Err(NotANumber(pieces[i]))
    decreases i
  {
    if i > 0 {
      FirstBadPiece(pieces[1..], i - 1);
    }
  }

  /** Summing two runs of pieces is summing each run. */
  lemma {:induction false} SumOnesAppend(a: seq<string>, b: seq<string>)
    ensures SumOnes(a + b).Ok? <==> SumOnes(a).Ok? && SumOnes(b).Ok?
    ensures SumOnes(a + b).Ok? ==> SumOnes(a + b).value == SumOnes(a).value + SumOnes(b).value
    decreases |a|
  {
    if |a| == 0 {
      assert a + b == b;
    } else {
      assert (a + b)[1..] == a[1..] + b;
      SumOnesAppend(a[1..], b);
    }
  }

  /** Two outcomes that agree on success and, when successful, on the count. */
  predicate SameCount(r1: Result<nat, Failure>, r2: Result<nat, Failure>) {
    (r1.Ok? <==> r2.Ok?) && (r1.Ok? ==> r1 == r2)
  }

  /** The order of the pieces does not matter: any rearrangement gives the same count. */
  lemma {:induction false} SumOnesPermutation(a: seq<string>, b: seq<string>)
    requires multiset(a) == multiset(b)
    ensures SumOnes(a).Ok? <==> SumOnes(b).Ok?
    ensures SumOnes(a).Ok? ==> SumOnes(a) == SumOnes(b)
    decreases |a|
  {
    if |a| > 0 {
      var x := a[0];
      assert x in multiset(a);
      var i :| 0 <= i < |b| && b[i] == x;
      var rest := b[..i] + b[i + 1..];
      RemoveOne(a, b, i);
      SumOnesPermutation(a[1..], rest);
      SumOnesSameTail(x, a[1..], rest);
      assert a == [x] + a[1..];
      SumOnesMoveFront(b, i);
    }
  }

  /** Taking away the first piece of a and an equal piece of b leaves equal multisets. */
  lemma {:induction false} RemoveOne(a: seq<string>, b: seq<string>, i: nat)
    requires multiset(a) == multiset(b) && |a| > 0 && i < |b| && b[i] == a[0]
    ensures multiset(a[1..]) == multiset(b[..i] + b[i + 1..])
  {
    var rest := b[..i] + b[i + 1..];
    assert a == [a[0]] + a[1..];
    assert b == b[..i] + [b[i]] + b[i + 1..];
    assert multiset(rest) == multiset(b[..i]) + multiset(b[i + 1..]);
    assert multiset(a[1..]) == multiset(a) - multiset{a[0]};
    assert multiset(rest) == multiset(b) - multiset{b[i]};
  }

  /** Equal counts for two tails stay equal behind the same first piece. */
  lemma {:induction false} SumOnesSameTail(x: string, t1: seq<string>, t2: seq<string>)
    requires SameCount(SumOnes(t1), SumOnes(t2))
    ensures SameCount(SumOnes([x] + t1), SumOnes([x] + t2))
  {
    assert ([x] + t1)[1..] == t1;
    assert ([x] + t2)[1..] == t2;
  }

  /** Moving one piece to the front leaves the count unchanged. */
  lemma {:induction false} SumOnesMoveFront(b: seq<string>, i: nat)
    requires i < |b|
    ensures SameCount(SumOnes(b), SumOnes([b[i]] + (b[..i] + b[i + 1..])))
  {
    assert b == b[..i] + ([b[i]] + b[i + 1..]);
    SumOnesAppend(b[..i], [b[i]] + b[i + 1..]);
    SumOnesAppend([b[i]], b[i + 1..]);
    SumOnesAppend(b[..i], b[i + 1..]);
    SumOnesAppend([b[i]], b[..i] + b[i + 1..]);
  }

  // ------------------------------------------------------------- bounds

  /** Four numeric pieces of at most 255 each give a prefix length between 0 and 32. */
  lemma {:induction false} FourOctetsAtMost32(netmask: string)
    requires |Split(netmask, '.')| == 4
    requires forall k :: 0 <= k < 4 ==> ParseNat(Split(netmask, '.')[k]).Some?
    requires forall k :: 0 <= k < 4 ==> ParseNat(Split(netmask, '.')[k]).value <= 255
    ensures NetmaskToCidr(netmask).Ok? && NetmaskToCidr(netmask).value <= MaxPrefixLen
  {
    var p := Split(netmask, '.');
    assert Pow2(8) == 256;
    forall k | 0 <= k < 4
      ensures Popcount(ParseNat(p[k]).value) <= 8
    {
      PopcountBound(ParseNat(p[k]).value, 8);
    }
    FourPieces(p);
    assert MaxPrefixLen == 32;
  }

  /** Four numeric pieces sum to the one bits of their four values. */
  lemma {:induction false} FourPieces(p: seq<string>)
    requires |p| == 4 && forall k :: 0 <= k < 4 ==> IsDigits(p[k])
    ensures SumOnes(p) == Ok(Popcount(ParseNat(p[0]).value) + Popcount(ParseNat(p[1]).value)
                           + Popcount(ParseNat(p[2]).value) + Popcount(ParseNat(p[3]).value))
  {
    var p1 := p[1..];
    var p2 := p1[1..];
    var p3 := p2[1..];
    assert p3[1..] == [];
    SumOnesCons(p3);
    SumOnesCons(p2);
    SumOnesCons(p1);
    SumOnesCons(p);
  }

  lemma {:induction false} SumOnesCons(p: seq<string>)
    requires |p| > 0 && PieceOnes(p[0]).Ok? && SumOnes(p[1..]).Ok?
    ensures SumOnes(p) == Ok(PieceOnes(p[0]).value + SumOnes(p[1..]).value)
  {
  }

  /** A dotted quad that names the address v counts the one bits of v. */
  lemma {:induction false} DottedQuadCidr(netmask: string, v: nat)
    requires ParseAddress(netmask) == Some(v)
    ensures NetmaskToCidr(netmask) == Ok(Popcount(v))
    ensures Popcount(v) <= MaxPrefixLen
  {
    var p := Split(netmask, '.');
    var o0, o1, o2, o3 := ParseOctet(p[0]).value, ParseOctet(p[1]).value, ParseOctet(p[2]).value, ParseOctet(p[3]).value;
    FourPieces(p);
    OctetsPopcount(o0, o1, o2, o3);
    PopcountBound(v, MaxPrefixLen);
  }

  /** The one bits of a four-octet number are those of its octets. */
  lemma {:induction false} OctetsPopcount(o0: nat, o1: nat, o2: nat, o3: nat)
    requires o0 <= 255 && o1 <= 255 && o2 <= 255 && o3 <= 255
    ensures Popcount(FromOctets(o0, o1, o2, o3)) == Popcount(o0) + Popcount(o1) + Popcount(o2) + Popcount(o3)
  {
    ByteConcat(o0, o1);
    ByteConcat(o0 * 256 + o1, o2);
    ByteConcat((o0 * 256 + o1) * 256 + o2, o3);
  }

  lemma {:induction false} ByteConcat(hi: nat, lo: nat)
    requires lo <= 255
    ensures Popcount(hi * 256 + lo) == Popcount(hi) + Popcount(lo)
  {
    assert Pow2(8) == 256;
    PopcountConcat(hi, lo, 8);
  }

  // ------------------------------------------------------------- netmasks

  /** A contiguous netmask of prefix length p counts to p. */
  lemma {:induction false} NetmaskOnes(p: nat)
    requires p <= MaxPrefixLen
    ensures Popcount(Netmask(p)) == p
  {
    PrefixMaskProduct(p, MaxPrefixLen);
    PopcountConcat(Pow2(p) - 1, 0, MaxPrefixLen - p);
    PopcountOnes(p);
  }

  /**
   * On the text of a contiguous netmask, `netmask_to_cidr` agrees with the
   * prefix length `ipaddress` reads from the same text.
   */
  lemma {:induction false} AgreesWithIpaddress(netmask: string, p: nat)
    requires p <= MaxPrefixLen && ParseAddress(netmask) == Some(Netmask(p))
    ensures NetmaskToCidr(netmask) == Ok(p)
    ensures PrefixFromString(netmask) == Some(p)
  {
    DottedQuadCidr(netmask, Netmask(p));
    NetmaskOnes(p);
    PrefixFromNetmask(netmask, p);
  }

  /** `str(IPv4Address(netmask))` of every prefix length p counts back to p. */
  lemma {:induction false} NetmaskTextCidr(p: nat)
    requires p <= MaxPrefixLen
    ensures NetmaskToCidr(FormatAddress(Netmask(p))) == Ok(p)
  {
    NetmaskLimit(p);
    AddressRoundTrip(Netmask(p));
    AgreesWithIpaddress(FormatAddress(Netmask(p)), p);
  }

  lemma {:induction false} NetmaskLimit(p: nat)
    requires p <= MaxPrefixLen
    ensures Netmask(p) < Pow2(MaxPrefixLen)
  {
    PrefixMaskValue(p, MaxPrefixLen);
  }

  // ------------------------------------------------------------- examples

  /** "255.255.255.0" counts to 24. */
  lemma ClassCExample()
    ensures NetmaskToCidr("255" + "." + "255" + "." + "255" + "." + "0") == Ok(24)
  {
    ByteValues();
    QuadCount("255", "255", "255", "0", 255, 255, 255, 0);
  }

  /**
   * "255.0.255.0" is no contiguous netmask, yet it counts to 16: the pieces'
   * one bits are summed wherever they sit.
   */
  lemma NonContiguousExample()
    ensures NetmaskToCidr("255" + "." + "0" + "." + "255" + "." + "0") == Ok(16)
  {
    ByteValues();
    QuadCount("255", "0", "255", "0", 255, 0, 255, 0);
  }

  lemma {:induction false} ByteValues()
    ensures ParseNat("255") == Some(255) && ParseNat("0") == Some(0)
    ensures Popcount(255) == 8 && Popcount(0) == 0
  {
    assert "255"[..2] == "25";
    assert "25"[..1] == "2";
    assert "2"[..0] == "";
    assert "0"[..0] == "";
  }

  /** Four numeric pieces joined by dots count the one bits of their four values. */
  lemma {:induction false} QuadCount(a: string, b: string, c: string, d: string, va: nat, vb: nat, vc: nat, vd: nat)
    requires ParseNat(a) == Some(va) && ParseNat(b) == Some(vb)
    requires ParseNat(c) == Some(vc) && ParseNat(d) == Some(vd)
    ensures NetmaskToCidr(a + "." + b + "." + c + "." + d) == Ok(Popcount(va) + Popcount(vb) + Popcount(vc) + Popcount(vd))
  {
    DigitsOnly(a, '.');
    DigitsOnly(b, '.');
    DigitsOnly(c, '.');
    DigitsOnly(d, '.');
    assert "." == ['.'];
    SplitQuad(a, b, c, d, '.');
    FourPieces([a, b, c, d]);
  }
}
