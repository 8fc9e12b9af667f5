/** Request and time helpers of the gateway (lib/utils.ts): the IPv4 subnet
    check with JavaScript's 32-bit operator semantics, the choice of client
    address from proxy headers, and millisecond arithmetic for expiry. */
module Utils {
  import opened JsRuntime

  // ---------------------------------------------------------------------
  // validateIpNetwork
  // ---------------------------------------------------------------------

  /** `s.split('.').map(Number)`. */
  function NumberParts(s: string): (r: seq<JsNumber>)
    ensures |r| == |Split(s, '.')|
  {
    var parts := Split(s, '.');
    seq(|parts|, i requires 0 <= i < |parts| => StringToNumber(parts[i]))
  }

  /** The network part of `expectedNetwork.split('/')`. */
  function NetworkPart(cidr: string): string {
    Split(cidr, '/')[0]
  }

  /** `parseInt(prefix)` where prefix is the second piece of the split, or
      `undefined` (read as NaN) when there is no '/'. */
  function PrefixLength(cidr: string): JsNumber {
    var pieces := Split(cidr, '/');
    if |pieces| > 1 then ParseInt(pieces[1]) else NonFinite
  }

  /** `(p[0] << 24) + (p[1] << 16) + (p[2] << 8) + p[3]`; the last part is
      added as a plain number, without any 32-bit conversion. */
  function PackParts(p: seq<JsNumber>): JsNumber
    requires |p| == 4
  {
    Add(Add(Add(ShiftLeft(p[0], Finite(24)), ShiftLeft(p[1], Finite(16))),
            ShiftLeft(p[2], Finite(8))),
        p[3])
  }

  /** `~((1 << (32 - prefixLength)) - 1)`. */
  function PrefixMask(prefixLength: JsNumber): JsNumber {
    BitNot(Sub(ShiftLeft(Finite(1), Sub(Finite(32), prefixLength)), Finite(1)))
  }

  /** validateIpNetwork(ip, expectedNetwork). Nothing in it can throw for
      string arguments, so the source's catch-all `false` is unreachable and
      the function is total. */
  function ValidateIpNetwork(ip: string, expectedNetwork: string): bool {
    var ipParts := NumberParts(ip);
    var networkParts := NumberParts(NetworkPart(expectedNetwork));
    var prefixLength := PrefixLength(expectedNetwork);
    if |ipParts| != 4 || |networkParts| != 4 then false
    else
      var mask := PrefixMask(prefixLength);
      BitAnd(PackParts(ipParts), mask) == BitAnd(PackParts(networkParts), mask)
  }

  /** The number of low bits the mask clears: `32 - prefixLength` taken as a
      shift count, i.e. modulo 32, with NaN counting as 0. */
  function HostBits(prefixLength: JsNumber): (r: nat)
    ensures r < 32
  {
    ShiftCount(Sub(Finite(32), prefixLength))
  }

  /** Four parts that each read as a number in 0..255. */
  predicate IsOctets(p: seq<JsNumber>) {
    |p| == 4 && forall i :: 0 <= i < 4 ==> p[i].Finite? && 0 <= p[i].v <= 255
  }

  /** The 32-bit address the four octets spell, most significant first. */
  function Address(p: seq<JsNumber>): (r: nat)
    requires IsOctets(p)
    ensures r < TwoTo32
  {
    p[0].v * 0x100_0000 + p[1].v * 0x1_0000 + p[2].v * 0x100 + p[3].v
  }

  /** A string that splits on '.' into four parts that each read as a number
      in 0..255. */
  predicate IsDottedQuad(s: string) {
    IsOctets(NumberParts(s))
  }

  /** The 32-bit address of a dotted quad. */
  function QuadValue(s: string): (r: nat)
    requires IsDottedQuad(s)
    ensures r < TwoTo32
  {
    Address(NumberParts(s))
  }

  // ---------------------------------------------------------------------
  // Properties of validateIpNetwork
  // ---------------------------------------------------------------------

  /** Unless the address and the network part each contain exactly three
      dots (four parts), the check fails. */
  lemma RequiresFourParts(ip: string, cidr: string)
    requires Occurrences(ip, '.') != 3 || Occurrences(NetworkPart(cidr), '.') != 3
    ensures !ValidateIpNetwork(ip, cidr)
  {
    SplitCount(ip, '.');
    SplitCount(NetworkPart(cidr), '.');
  }

  /** An accepted address contains a dot, so it is not blank. */
  lemma AcceptedAddressNotBlank(ip: string, cidr: string)
    requires ValidateIpNetwork(ip, cidr)
    ensures '.' in ip && !AllSpace(ip)
  {
    assert Occurrences(ip, '.') == 3 by {
      if Occurrences(ip, '.') != 3 {
        RequiresFourParts(ip, cidr);
      }
    }
    DotNotBlank(ip);
  }

  lemma DotNotBlank(s: string)
    requires Occurrences(s, '.') > 0
    ensures '.' in s && !AllSpace(s)
  {
    OccurrencesIn(s, '.');
    var i :| 0 <= i < |s| && s[i] == '.';
    assert !IsJsSpace(s[i]);
  }

  /** In particular no empty address is ever accepted. */
  lemma EmptyAddressRejected(cidr: string)
    ensures !ValidateIpNetwork("", cidr)
  {
    assert Occurrences("", '.') == 0;
    RequiresFourParts("", cidr);
  }

  /** Packing four octets gives, modulo 2^32, the address they spell. */
  lemma PackQuad(p: seq<JsNumber>)
    requires IsOctets(p)
    ensures PackParts(p).Finite?
    ensures ToUint32(PackParts(p)) == Address(p)
  {
    assert p[0].Finite? && p[1].Finite? && p[2].Finite? && p[3].Finite?;
    var a, b, c, d := p[0].v, p[1].v, p[2].v, p[3].v;
    ShiftOctet(a, 24);
    ShiftOctet(b, 16);
    ShiftOctet(c, 8);
    var q := Address(p);
    var sum := Signed(a * 0x100_0000) + b * 0x1_0000 + c * 0x100 + d;
    assert PackParts(p) == Finite(sum);
    if a * 0x100_0000 >= TwoTo31 {
      ModUnique(sum, TwoTo32, -1, q);
    } else {
      ModUnique(sum, TwoTo32, 0, q);
    }
  }

  /** An octet shifted left by 8, 16 or 24 is the octet times the power of
      two, read as a signed 32-bit value. */
  lemma ShiftOctet(a: int, k: nat)
    requires 0 <= a <= 255 && (k == 8 || k == 16 || k == 24)
    ensures Pow2(k) == if k == 8 then 0x100 else if k == 16 then 0x1_0000 else 0x100_0000
    ensures a * Pow2(k) < TwoTo32
    ensures ShiftLeft(Finite(a), Finite(k)) == Finite(Signed(a * Pow2(k)))
  {
    Pow2Values();
    assert ToUint32(Finite(a)) == a by { ModUnique(a, TwoTo32, 0, a); }
    if k == 8 {
      ShiftBy(a, 8, 0x100);
    } else if k == 16 {
      ShiftBy(a, 16, 0x1_0000);
    } else {
      ShiftBy(a, 24, 0x100_0000);
    }
  }

  lemma ShiftBy(a: nat, k: nat, m: nat)
    requires k < 32 && Pow2(k) == m && a * m < TwoTo32
    ensures ShiftLeft(Finite(a), Finite(k)) == Finite(Signed(a * m))
  {
    assert ToUint32(Finite(a)) == a by { ModUnique(a, TwoTo32, 0, a); }
    assert ShiftCount(Finite(k)) == k by { ModUnique(k, TwoTo32, 0, k); ModUnique(k, 32, 0, k); }
    assert (a * m) % TwoTo32 == a * m by { ModUnique(a * m, TwoTo32, 0, a * m); }
  }

  /** The mask is minus the power of two that HostBits names: in
      JavaScript `1 << 31` is already negative, and subtracting one from it
      wraps, which gives the same mask as the other shift counts. */
  lemma MaskIsNegatedPower(prefixLength: JsNumber)
    ensures PrefixMask(prefixLength) == Finite(-(Pow2(HostBits(prefixLength)) as int))
  {
    var shift := Sub(Finite(32), prefixLength);
    var p := Pow2(ShiftCount(shift));
    assert p <= TwoTo31 by {
      Pow2Values();
      Pow2Monotone(ShiftCount(shift), 31);
    }
    ShiftOne(shift);
    NegatedPower(p);
  }

  /** `~(P - 1)` for a power of two P read as a signed 32-bit value is -P;
      for P = 2^31 the subtraction leaves the 32-bit range and wraps. */
  lemma NegatedPower(p: nat)
    requires 1 <= p <= TwoTo31
    ensures BitNot(Sub(Finite(Signed(p)), Finite(1))) == Finite(-(p as int))
  {
    if p == TwoTo31 {
      assert Sub(Finite(Signed(p)), Finite(1)) == Finite(-(TwoTo31 as int) - 1);
      assert ToInt32(Finite(-(TwoTo31 as int) - 1)) == TwoTo31 - 1 by {
        ModUnique(-(TwoTo31 as int) - 1, TwoTo32, -1, TwoTo31 - 1);
      }
    } else {
      assert Sub(Finite(Signed(p)), Finite(1)) == Finite(p - 1);
      assert ToInt32(Finite(p - 1)) == p - 1 by {
        ModUnique(p - 1, TwoTo32, 0, p - 1);
      }
    }
  }

  /** `1 << y` is the power of two named by the shift count, read as a
      signed 32-bit value. */
  lemma ShiftOne(y: JsNumber)
    ensures Pow2(ShiftCount(y)) < TwoTo32
    ensures ShiftLeft(Finite(1), y) == Finite(Signed(Pow2(ShiftCount(y))))
  {
    var p := Pow2(ShiftCount(y));
    Pow2Values();
    Pow2Monotone(ShiftCount(y), 31);
    assert ToUint32(Finite(1)) == 1;
    assert (1 * p) % TwoTo32 == p by { ModUnique(p, TwoTo32, 0, p); }
  }

  /** As a 32-bit pattern the mask has its high 32 - HostBits bits set. */
  lemma MaskValue(prefixLength: JsNumber)
    ensures ToUint32(PrefixMask(prefixLength)) == TwoTo32 - Pow2(HostBits(prefixLength))
  {
    var p := Pow2(HostBits(prefixLength));
    MaskIsNegatedPower(prefixLength);
    assert p <= TwoTo31 by {
      Pow2Values();
      Pow2Monotone(HostBits(prefixLength), 31);
    }
    assert ToUint32(Finite(-(p as int))) == TwoTo32 - p by {
      ModUnique(-(p as int), TwoTo32, -1, TwoTo32 - p);
    }
  }

  /** Anding a 32-bit pattern u with a mask whose low h bits are clear and
      whose other bits are set clears the low h bits of u. */
  lemma AndMask(x: JsNumber, mask: JsNumber, u: nat, h: nat, d: nat)
    requires ToUint32(x) == u && h < 32 && d == Pow2(h) && ToUint32(mask) == TwoTo32 - d
    ensures 0 <= u - u % d < TwoTo32
    ensures BitAnd(x, mask) == Finite(Signed(u - u % d))
  {
    MaskedPattern(u, h, d);
    AndResult(x, mask, u - u % d);
  }

  /** Anding a 32-bit pattern u with the pattern whose low h bits are clear
      and whose other bits are set clears the low h bits of u. */
  lemma MaskedPattern(u: nat, h: nat, d: nat)
    requires u < TwoTo32 && h < 32 && d == Pow2(h)
    ensures d <= TwoTo32 && 0 <= u - u % d < TwoTo32
    ensures AndBits(u, TwoTo32 - d, 32) == u - u % d
  {
    Pow2Values();
    Pow2Monotone(h, 32);
    AndHighMask(u, 32, h);
    LowBitsCleared(u, d);
  }

  /** `x & y` when the 32 bits of the and are known. */
  lemma AndResult(x: JsNumber, y: JsNumber, w: int)
    requires AndBits(ToUint32(x), ToUint32(y), 32) == w && 0 <= w < TwoTo32
    ensures BitAnd(x, y) == Finite(Signed(w))
  {
    ModUnique(w, TwoTo32, 0, w);
  }

  lemma LowBitsCleared(u: nat, d: nat)
    requires d > 0
    ensures 0 <= u - u % d <= u
  {
    assert u == d * (u / d) + u % d;
    assert d * (u / d) >= 0;
  }

  /** Two numbers agree after their low bits are cleared exactly when they
      agree after the division that drops those bits. */
  lemma ClearLowBits(u: nat, v: nat, d: nat)
    requires d > 0
    ensures u - u % d == v - v % d <==> u / d == v / d
  {
    assert u - u % d == d * (u / d);
    assert v - v % d == d * (v / d);
    MulCancel(d, u / d, v / d);
  }

  /** Two 32-bit patterns u and v agree under a mask that clears the low h
      bits exactly when they agree once those bits are dropped. */
  lemma MaskedEqual(x: JsNumber, y: JsNumber, mask: JsNumber, u: nat, v: nat, h: nat, d: nat)
    requires ToUint32(x) == u && ToUint32(y) == v
    requires h < 32 && d == Pow2(h) && ToUint32(mask) == TwoTo32 - d
    ensures BitAnd(x, mask) == BitAnd(y, mask) <==> u / d == v / d
  {
    AndMask(x, mask, u, h, d);
    AndMask(y, mask, v, h, d);
    SignedInjective(u - u % d, v - v % d);
    ClearLowBits(u, v, d);
  }

  /** THE SUBNET THEOREM. For two well-formed dotted quads the check holds
      exactly when the addresses agree once their HostBits low bits are
      dropped. */
  lemma PrefixMatch(ip: string, cidr: string)
    requires IsDottedQuad(ip) && IsDottedQuad(NetworkPart(cidr))
    ensures var d := Pow2(HostBits(PrefixLength(cidr)));
      ValidateIpNetwork(ip, cidr) <==> QuadValue(ip) / d == QuadValue(NetworkPart(cidr)) / d
  {
    var p, q, n := NumberParts(ip), NumberParts(NetworkPart(cidr)), PrefixLength(cidr);
    PackQuad(p);
    PackQuad(q);
    MaskValue(n);
    MaskedEqual(PackParts(p), PackParts(q), PrefixMask(n), Address(p), Address(q), HostBits(n), Pow2(HostBits(n)));
  }

  lemma MulCancel(d: int, a: int, b: int)
    requires d > 0
    ensures d * a == d * b <==> a == b
  {
    if a != b {
      if a > b {
        MulAtLeast(a - b, d);
        assert d * a == d * (a - b) + d * b;
      } else {
        MulAtLeast(b - a, d);
        assert d * b == d * (b - a) + d * a;
      }
    }
  }

  /** A decimal prefix length p in 1..32 clears 32 - p bits, so the check
      compares the top p bits; 0 and NaN clear none; 33 wraps to clear 31. */
  lemma HostBitsOfPrefix(prefixLength: JsNumber)
    ensures prefixLength.Finite? && 1 <= prefixLength.v <= 32 ==> HostBits(prefixLength) == 32 - prefixLength.v
    ensures prefixLength == NonFinite || prefixLength == Finite(0) ==> HostBits(prefixLength) == 0
    ensures prefixLength == Finite(33) ==> HostBits(prefixLength) == 31
  {
    match prefixLength
    case NonFinite =>
    case Finite(p) =>
      var w := 32 - p;
      if 0 <= w < 32 {
        ModUnique(w, TwoTo32, 0, w);
        ModUnique(w, 32, 0, w);
      } else if w == 32 {
        ModUnique(w, TwoTo32, 0, w);
        ModUnique(w, 32, 1, 0);
      } else if w == -1 {
        ModUnique(w, TwoTo32, -1, TwoTo32 - 1);
        ModUnique(TwoTo32 - 1, 32, TwoTo32 / 32 - 1, 31);
      }
  }

  /** With a prefix length in 1..32 the check holds exactly when the top
      prefix-length bits of the two addresses agree. */
  lemma TopBitsMatch(ip: string, cidr: string, p: int)
    requires IsDottedQuad(ip) && IsDottedQuad(NetworkPart(cidr))
    requires PrefixLength(cidr) == Finite(p) && 1 <= p <= 32
    ensures ValidateIpNetwork(ip, cidr) <==>
      QuadValue(ip) / Pow2(32 - p) == QuadValue(NetworkPart(cidr)) / Pow2(32 - p)
  {
    PrefixMatch(ip, cidr);
    assert HostBits(PrefixLength(cidr)) == 32 - p by {
      HostBitsOfPrefix(Finite(p));
    }
  }

  /** A prefix length of 0, a missing one or one that is not a number all
      clear no bits (in JavaScript `1 << 32` and `1 << NaN` are both 1), so
      only the exact address matches. */
  lemma DegeneratePrefixIsExact(ip: string, cidr: string)
    requires IsDottedQuad(ip) && IsDottedQuad(NetworkPart(cidr))
    requires PrefixLength(cidr) == NonFinite || PrefixLength(cidr) == Finite(0)
    ensures ValidateIpNetwork(ip, cidr) <==> QuadValue(ip) == QuadValue(NetworkPart(cidr))
  {
    PrefixMatch(ip, cidr);
    var d := Pow2(HostBits(PrefixLength(cidr)));
    assert d == 1 by {
      HostBitsOfPrefix(PrefixLength(cidr));
    }
    DivideByOne(QuadValue(ip), QuadValue(NetworkPart(cidr)), d);
  }

  lemma DivideByOne(a: int, b: int, d: int)
    requires d == 1
    ensures a / d == b / d <==> a == b
  {
  }

  /** A prefix longer than 32 wraps: 33 clears 31 bits, so only the top bit
      of the address is compared. */
  lemma OversizedPrefixWraps(ip: string, cidr: string)
    requires IsDottedQuad(ip) && IsDottedQuad(NetworkPart(cidr))
    requires PrefixLength(cidr) == Finite(33)
    ensures ValidateIpNetwork(ip, cidr) <==> QuadValue(ip) / TwoTo31 == QuadValue(NetworkPart(cidr)) / TwoTo31
  {
    PrefixMatch(ip, cidr);
    HostBitsOfPrefix(PrefixLength(cidr));
    Pow2Values();
  }

  // ---------------------------------------------------------------------
  // Addresses written out in decimal
  // ---------------------------------------------------------------------

  /** `${a}.${b}.${c}.${d}`. */
  function DottedQuad(a: nat, b: nat, c: nat, d: nat): string {
    Decimal(a) + "." + Decimal(b) + "." + Decimal(c) + "." + Decimal(d)
  }

  /** `${network}/${prefix}`. */
  function Cidr(network: string, prefix: nat): string {
    network + "/" + Decimal(prefix)
  }

  lemma NoDotInDecimal(n: nat, c: char)
    requires c == '.' || c == '/'
    ensures c !in Decimal(n)
  {
    var d := Decimal(n);
    forall i | 0 <= i < |d|
      ensures d[i] != c
    {
      assert DigitValue(d[i]) < 10;
    }
  }

  /** Splitting `x.` + rest on '.' when x is a decimal rendering. */
  lemma SplitDecimal(n: nat, rest: string)
    ensures Split(Decimal(n) + "." + rest, '.') == [Decimal(n)] + Split(rest, '.')
  {
    NoDotInDecimal(n, '.');
    SplitAfterPiece(Decimal(n), rest, '.');
  }

  /** Each part of a written-out address reads back as the number written. */
  lemma DottedQuadParts(a: nat, b: nat, c: nat, d: nat)
    ensures NumberParts(DottedQuad(a, b, c, d)) == [Finite(a), Finite(b), Finite(c), Finite(d)]
  {
    SplitDottedQuad(a, b, c, d);
    DecimalParts([Decimal(a), Decimal(b), Decimal(c), Decimal(d)], [a, b, c, d]);
    FourNumberParts(DottedQuad(a, b, c, d));
  }

  lemma SplitDottedQuad(a: nat, b: nat, c: nat, d: nat)
    ensures Split(DottedQuad(a, b, c, d), '.') == [Decimal(a), Decimal(b), Decimal(c), Decimal(d)]
  {
    var da, db, dc, dd := Decimal(a), Decimal(b), Decimal(c), Decimal(d);
    var r2 := dc + "." + dd;
    var r1 := db + "." + r2;
    RightAssociated(da, db, dc, dd);
    SplitDecimal(a, r1);
    SplitDecimal(b, r2);
    SplitDecimal(c, dd);
    NoDotInDecimal(d, '.');
    SplitNoSeparator(dd, '.');
  }

  lemma RightAssociated(w: string, x: string, y: string, z: string)
    ensures w + "." + x + "." + y + "." + z == w + "." + (x + "." + (y + "." + z))
  {
  }

  /** Decimal renderings read back as their numbers, part by part. */
  lemma DecimalParts(parts: seq<string>, ns: seq<nat>)
    requires |parts| == |ns| && forall i :: 0 <= i < |ns| ==> parts[i] == Decimal(ns[i])
    ensures forall i :: 0 <= i < |ns| ==> StringToNumber(parts[i]) == Finite(ns[i])
  {
    forall i | 0 <= i < |ns|
      ensures StringToNumber(parts[i]) == Finite(ns[i])
    {
      StringToNumberDecimal(ns[i]);
    }
  }

  lemma FourNumberParts(s: string)
    requires |Split(s, '.')| == 4
    ensures var parts := Split(s, '.');
      NumberParts(s) == [StringToNumber(parts[0]), StringToNumber(parts[1]),
                         StringToNumber(parts[2]), StringToNumber(parts[3])]
  {
    var parts := Split(s, '.');
    var r := NumberParts(s);
    FourElements(r);
    assert r[0] == StringToNumber(parts[0]);
    assert r[1] == StringToNumber(parts[1]);
    assert r[2] == StringToNumber(parts[2]);
    assert r[3] == StringToNumber(parts[3]);
  }

  lemma FourElements<T>(r: seq<T>)
    requires |r| == 4
    ensures r == [r[0], r[1], r[2], r[3]]
  {
  }

  /** An address written with its last octet left empty: the empty part
      reads as 0, so it stands for the address ending in 0. */
  lemma TrailingDotParts(a: nat, b: nat, c: nat)
    ensures NumberParts(Decimal(a) + "." + Decimal(b) + "." + Decimal(c) + ".")
      == [Finite(a), Finite(b), Finite(c), Finite(0)]
  {
    SplitTrailingDot(a, b, c);
    DecimalParts([Decimal(a), Decimal(b), Decimal(c)], [a, b, c]);
    assert StringToNumber("") == Finite(0);
    FourNumberParts(Decimal(a) + "." + Decimal(b) + "." + Decimal(c) + ".");
  }

  lemma SplitTrailingDot(a: nat, b: nat, c: nat)
    ensures Split(Decimal(a) + "." + Decimal(b) + "." + Decimal(c) + ".", '.')
      == [Decimal(a), Decimal(b), Decimal(c), ""]
  {
    NoDotInDecimal(a, '.');
    NoDotInDecimal(b, '.');
    NoDotInDecimal(c, '.');
    SplitThreeTerminated(Decimal(a), Decimal(b), Decimal(c), '.');
  }

  /** Three separator-free pieces, each followed by the separator. */
  lemma SplitThreeTerminated(x: string, y: string, z: string, sep: char)
    requires sep !in x && sep !in y && sep !in z
    ensures Split(x + [sep] + y + [sep] + z + [sep], sep) == [x, y, z, []]
  {
    var r2 := z + [sep] + [];
    assert Split(r2, sep) == [z, []] by {
      SplitAfterPiece(z, [], sep);
    }
    var r1 := y + [sep] + r2;
    SplitAfterPiece(y, r2, sep);
    assert x + [sep] + y + [sep] + z + [sep] == x + [sep] + r1;
    SplitAfterPiece(x, r1, sep);
  }

  /** The two halves of a written-out network. */
  lemma CidrParts(network: string, prefix: nat)
    requires '/' !in network
    ensures NetworkPart(Cidr(network, prefix)) == network
    ensures PrefixLength(Cidr(network, prefix)) == Finite(prefix)
  {
    NoDotInDecimal(prefix, '/');
    SplitNoSeparator(Decimal(prefix), '/');
    SplitAfterPiece(network, Decimal(prefix), '/');
    ParseIntDecimal(prefix);
  }

  lemma NoSlashInDottedQuad(a: nat, b: nat, c: nat, d: nat)
    ensures '/' !in DottedQuad(a, b, c, d)
  {
    NoDotInDecimal(a, '/');
    NoDotInDecimal(b, '/');
    NoDotInDecimal(c, '/');
    NoDotInDecimal(d, '/');
  }

  /** The parts of a written-out network `a.b.c.d/n`. */
  lemma QuadCidrParts(a: nat, b: nat, c: nat, d: nat, n: nat)
    ensures NumberParts(NetworkPart(Cidr(DottedQuad(a, b, c, d), n)))
      == [Finite(a), Finite(b), Finite(c), Finite(d)]
    ensures PrefixLength(Cidr(DottedQuad(a, b, c, d), n)) == Finite(n)
  {
    NoSlashInDottedQuad(a, b, c, d);
    CidrParts(DottedQuad(a, b, c, d), n);
    DottedQuadParts(a, b, c, d);
  }

  /** Octets are not range-checked: `a + 256` shifted left by 24 overflows
      32 bits and wraps to the same pattern as `a`. */
  lemma ShiftWraps(a: nat)
    requires a <= 255
    ensures ShiftLeft(Finite(a + 256), Finite(24)) == ShiftLeft(Finite(a), Finite(24))
  {
    Pow2Values();
    assert ShiftCount(Finite(24)) == 24 by { ModUnique(24, TwoTo32, 0, 24); ModUnique(24, 32, 0, 24); }
    assert ToUint32(Finite(a)) == a by { ModUnique(a, TwoTo32, 0, a); }
    assert ToUint32(Finite(a + 256)) == a + 256 by { ModUnique(a + 256, TwoTo32, 0, a + 256); }
    assert (a * 0x100_0000) % TwoTo32 == a * 0x100_0000 by {
      ModUnique(a * 0x100_0000, TwoTo32, 0, a * 0x100_0000);
    }
    assert ((a + 256) * 0x100_0000) % TwoTo32 == a * 0x100_0000 by {
      ModUnique((a + 256) * 0x100_0000, TwoTo32, 1, a * 0x100_0000);
    }
  }

  /** An address whose first part reads as `a + 256` packs to the same
      number as one whose first part is `a`, so it is accepted for that
      address's network under every prefix. */
  lemma OctetWraps(ip: string, cidr: string, p: seq<JsNumber>, q: seq<JsNumber>, a: nat)
    requires NumberParts(ip) == p && NumberParts(NetworkPart(cidr)) == q
    requires |p| == 4 && |q| == 4 && a <= 255
    requires p[0] == Finite(a + 256) && q[0] == Finite(a)
    requires p[1] == q[1] && p[2] == q[2] && p[3] == q[3]
    ensures ValidateIpNetwork(ip, cidr)
  {
    ShiftWraps(a);
    assert PackParts(p) == PackParts(q);
  }

  /** `256.b.c.d` and the like: a written-out first octet of `a + 256` is
      accepted for the network `a.b.c.d/n`, whatever n is. */
  lemma OversizedOctetWraps(a: nat, b: nat, c: nat, d: nat, n: nat)
    requires a <= 255
    ensures ValidateIpNetwork(DottedQuad(a + 256, b, c, d), Cidr(DottedQuad(a, b, c, d), n))
  {
    DottedQuadParts(a + 256, b, c, d);
    QuadCidrParts(a, b, c, d, n);
    LiteralOctetWraps(DottedQuad(a + 256, b, c, d), Cidr(DottedQuad(a, b, c, d), n), a, b, c, d);
  }

  /** OctetWraps with both addresses' parts given as literals. */
  lemma LiteralOctetWraps(ip: string, cidr: string, a: nat, b: nat, c: nat, d: nat)
    requires a <= 255
    requires NumberParts(ip) == [Finite(a + 256), Finite(b), Finite(c), Finite(d)]
    requires NumberParts(NetworkPart(cidr)) == [Finite(a), Finite(b), Finite(c), Finite(d)]
    ensures ValidateIpNetwork(ip, cidr)
  {
    WrappedQuads(NumberParts(ip), NumberParts(NetworkPart(cidr)), a, b, c, d);
    OctetWraps(ip, cidr, NumberParts(ip), NumberParts(NetworkPart(cidr)), a);
  }

  lemma WrappedQuads(p: seq<JsNumber>, q: seq<JsNumber>, a: nat, b: nat, c: nat, d: nat)
    requires p == [Finite(a + 256), Finite(b), Finite(c), Finite(d)]
    requires q == [Finite(a), Finite(b), Finite(c), Finite(d)]
    ensures |p| == 4 && |q| == 4 && p[0] == Finite(a + 256) && q[0] == Finite(a)
    ensures p[1] == q[1] && p[2] == q[2] && p[3] == q[3]
  {
  }

  /** TopBitsMatch with the parts of both addresses already known. */
  lemma MatchByParts(ip: string, cidr: string, p: seq<JsNumber>, q: seq<JsNumber>, n: int, h: nat)
    requires NumberParts(ip) == p && NumberParts(NetworkPart(cidr)) == q
    requires IsOctets(p) && IsOctets(q)
    requires PrefixLength(cidr) == Finite(n) && 1 <= n <= 32 && h == 32 - n
    ensures ValidateIpNetwork(ip, cidr) <==> Address(p) / Pow2(h) == Address(q) / Pow2(h)
  {
    TopBitsMatch(ip, cidr, n);
  }

  /** The /24 block an address lies in: its first three octets. */
  function Block24(p: seq<JsNumber>): nat
    requires IsOctets(p)
  {
    p[0].v * 0x1_0000 + p[1].v * 0x100 + p[2].v
  }

  /** Dropping the low 8 bits of an address leaves its /24 block. */
  lemma HighBits24(p: seq<JsNumber>)
    requires IsOctets(p)
    ensures Address(p) / Pow2(8) == Block24(p)
  {
    Pow2Values();
    ModUnique(Address(p), 0x100, Block24(p), p[3].v);
  }

  /** Three octets are determined by the block number they spell. */
  lemma {:induction false} BlockDigits(a: nat, b: nat, c: nat, a': nat, b': nat, c': nat)
    requires a <= 255 && b <= 255 && c <= 255 && a' <= 255 && b' <= 255 && c' <= 255
    ensures a * 0x1_0000 + b * 0x100 + c == a' * 0x1_0000 + b' * 0x100 + c' <==>
      a == a' && b == b' && c == c'
  {
    var x, x' := a * 0x1_0000 + b * 0x100 + c, a' * 0x1_0000 + b' * 0x100 + c';
    if x == x' {
      ModUnique(x, 0x100, a * 0x100 + b, c);
      ModUnique(x', 0x100, a' * 0x100 + b', c');
      ModUnique(a * 0x100 + b, 0x100, a, b);
      ModUnique(a' * 0x100 + b', 0x100, a', b');
    }
  }

  /** With a /24 prefix the check compares the blocks of the two addresses. */
  lemma Match24(ip: string, cidr: string, p: seq<JsNumber>, q: seq<JsNumber>)
    requires NumberParts(ip) == p && NumberParts(NetworkPart(cidr)) == q
    requires IsOctets(p) && IsOctets(q) && PrefixLength(cidr) == Finite(24)
    ensures ValidateIpNetwork(ip, cidr) <==> Block24(p) == Block24(q)
  {
    MatchByParts(ip, cidr, p, q, 24, 8);
    HighBits24(p);
    HighBits24(q);
  }

  /** For a /24 network the check is "the first three octets agree". */
  lemma Octets24(ip: string, cidr: string, p: seq<JsNumber>, q: seq<JsNumber>)
    requires NumberParts(ip) == p && NumberParts(NetworkPart(cidr)) == q
    requires IsOctets(p) && IsOctets(q) && PrefixLength(cidr) == Finite(24)
    ensures ValidateIpNetwork(ip, cidr) <==> p[0] == q[0] && p[1] == q[1] && p[2] == q[2]
  {
    Match24(ip, cidr, p, q);
    SameBlock(p, q);
  }

  /** Two addresses lie in the same /24 block exactly when their first three
      octets agree. */
  lemma SameBlock(p: seq<JsNumber>, q: seq<JsNumber>)
    requires IsOctets(p) && IsOctets(q)
    ensures Block24(p) == Block24(q) <==> p[0] == q[0] && p[1] == q[1] && p[2] == q[2]
  {
    BlockDigits(p[0].v, p[1].v, p[2].v, q[0].v, q[1].v, q[2].v);
  }

  /** Octets24 with the four numbers of each address written out. */
  lemma LiteralOctets24(ip: string, cidr: string, a: nat, b: nat, c: nat, d: nat,
                        a': nat, b': nat, c': nat, d': nat)
    requires a <= 255 && b <= 255 && c <= 255 && d <= 255
    requires a' <= 255 && b' <= 255 && c' <= 255 && d' <= 255
    requires NumberParts(ip) == [Finite(a), Finite(b), Finite(c), Finite(d)]
    requires NumberParts(NetworkPart(cidr)) == [Finite(a'), Finite(b'), Finite(c'), Finite(d')]
    requires PrefixLength(cidr) == Finite(24)
    ensures ValidateIpNetwork(ip, cidr) <==> a == a' && b == b' && c == c'
  {
    QuadIsOctets(NumberParts(ip), a, b, c, d);
    QuadIsOctets(NumberParts(NetworkPart(cidr)), a', b', c', d');
    Octets24(ip, cidr, NumberParts(ip), NumberParts(NetworkPart(cidr)));
  }

  lemma QuadIsOctets(p: seq<JsNumber>, a: nat, b: nat, c: nat, d: nat)
    requires a <= 255 && b <= 255 && c <= 255 && d <= 255
    requires p == [Finite(a), Finite(b), Finite(c), Finite(d)]
    ensures IsOctets(p) && p[0] == Finite(a) && p[1] == Finite(b) && p[2] == Finite(c)
  {
  }

  /** For written-out addresses and a /24 network, the check is exactly
      "the first three octets agree"; the last octet of either is ignored. */
  lemma Subnet24(a: nat, b: nat, c: nat, d: nat, a': nat, b': nat, c': nat, d': nat)
    requires a <= 255 && b <= 255 && c <= 255 && d <= 255
    requires a' <= 255 && b' <= 255 && c' <= 255 && d' <= 255
    ensures ValidateIpNetwork(DottedQuad(a, b, c, d), Cidr(DottedQuad(a', b', c', d'), 24))
      <==> a == a' && b == b' && c == c'
  {
    QuadCidrParts(a', b', c', d', 24);
    DottedQuadParts(a, b, c, d);
    LiteralOctets24(DottedQuad(a, b, c, d), Cidr(DottedQuad(a', b', c', d'), 24), a, b, c, d, a', b', c', d');
  }

  /** The worked example of a /24 mobile network: a phone at 192.168.10.5 is
      inside 192.168.10.0/24, one at 192.168.99.5 is not. */
  lemma MobileNetworkExample()
    ensures ValidateIpNetwork(DottedQuad(192, 168, 10, 5), Cidr(DottedQuad(192, 168, 10, 0), 24))
    ensures !ValidateIpNetwork(DottedQuad(192, 168, 99, 5), Cidr(DottedQuad(192, 168, 10, 0), 24))
  {
    Subnet24(192, 168, 10, 5, 192, 168, 10, 0);
    Subnet24(192, 168, 99, 5, 192, 168, 10, 0);
  }

  /** Octets are not format-checked: `a.b.c.` (last octet empty) is accepted
      for every /24 network a.b.c.d. */
  lemma TrailingDotAccepted(a: nat, b: nat, c: nat, d: nat)
    requires a <= 255 && b <= 255 && c <= 255 && d <= 255
    ensures ValidateIpNetwork(Decimal(a) + "." + Decimal(b) + "." + Decimal(c) + ".",
                              Cidr(DottedQuad(a, b, c, d), 24))
  {
    QuadCidrParts(a, b, c, d, 24);
    TrailingDotParts(a, b, c);
    LiteralOctets24(Decimal(a) + "." + Decimal(b) + "." + Decimal(c) + ".",
                    Cidr(DottedQuad(a, b, c, d), 24), a, b, c, 0, a, b, c, d);
  }

  // ---------------------------------------------------------------------
  // getClientIp
  // ---------------------------------------------------------------------

  /** What getClientIp reads from a request: the two proxy headers (absent
      headers are None) and the socket address Next.js reports, if any. */
  datatype ClientRequest = ClientRequest(
    forwardedFor: Option<string>, realIp: Option<string>, ip: Option<string>)

  /** A header value JavaScript treats as true: present and non-empty. */
  predicate Truthy(h: Option<string>) {
    h.Some? && h.value != []
  }

  /** The address used when nothing in the request names one. */
  const Loopback: string := "127.0.0.1"

  /** r is s without the whitespace around it. */
  predicate StripsTo(s: string, r: string) {
    exists i, j :: 0 <= i <= j <= |s| && r == s[i..j] && IsTrimmed(r)
      && AllSpace(s[..i]) && AllSpace(s[j..])
  }

  /** r is the first comma-separated entry of s, stripped of whitespace. */
  predicate FirstEntryIs(s: string, r: string) {
    exists k :: 0 <= k <= |s| && ',' !in s[..k] && (k < |s| ==> s[k] == ',')
      && StripsTo(s[..k], r)
  }

  /** getClientIp: the first `x-forwarded-for` entry, else `x-real-ip`, both
      trimmed, else the socket address or the loopback address. */
  function GetClientIp(req: ClientRequest): (r: string)
    ensures Truthy(req.forwardedFor) || Truthy(req.realIp) ==> IsTrimmed(r)
    ensures !Truthy(req.forwardedFor) && !Truthy(req.realIp) ==> r != []
  {
    if Truthy(req.forwardedFor) then
      TrimIsTrimmed(Split(req.forwardedFor.value, ',')[0]);
      Trim(Split(req.forwardedFor.value, ',')[0])
    else if Truthy(req.realIp) then
      TrimIsTrimmed(req.realIp.value);
      Trim(req.realIp.value)
    else if Truthy(req.ip) then req.ip.value
    else Loopback
  }

  /** Trim removes exactly the surrounding whitespace. */
  lemma TrimStrips(s: string)
    ensures StripsTo(s, Trim(s))
  {
    var t := TrimStart(s);
    var r := TrimEnd(t);
    TrimIsTrimmed(s);
    var i := |s| - |t|;
    var j := i + |r|;
    assert r == s[i..j];
    assert s[j..] == t[|r|..];
  }

  /** The address getClientIp picks, by the precedence of its sources. */
  lemma ClientIpPrecedence(req: ClientRequest)
    ensures Truthy(req.forwardedFor) ==>
      FirstEntryIs(req.forwardedFor.value, GetClientIp(req)) && ',' !in GetClientIp(req)
    ensures !Truthy(req.forwardedFor) && Truthy(req.realIp) ==>
      StripsTo(req.realIp.value, GetClientIp(req))
    ensures !Truthy(req.forwardedFor) && !Truthy(req.realIp) ==>
      GetClientIp(req) == (if Truthy(req.ip) then req.ip.value else Loopback)
  {
    if Truthy(req.forwardedFor) {
      var x := req.forwardedFor.value;
      var first := Split(x, ',')[0];
      SplitFirst(x, ',');
      var k := |first|;
      assert first == x[..k];
      TrimStrips(first);
      var r := Trim(first);
      var i, j :| 0 <= i <= j <= |first| && r == first[i..j] && IsTrimmed(r)
        && AllSpace(first[..i]) && AllSpace(first[j..]);
      assert forall c :: c in r ==> c in first;
    } else if Truthy(req.realIp) {
      TrimStrips(req.realIp.value);
    }
  }

  // ---------------------------------------------------------------------
  // getExpirationTime and formatTimeRemaining (times in milliseconds)
  // ---------------------------------------------------------------------

  const MsPerSecond: nat := 1000
  const MsPerMinute: nat := 60 * MsPerSecond
  const MsPerHour: nat := 60 * MsPerMinute

  /** getExpirationTime(hours): `hours` hours after the clock reading. */
  function GetExpirationTime(now: int, hours: int): (r: int)
    ensures r - now == hours * MsPerHour
    ensures hours >= 0 ==> r >= now
  {
    now + hours * MsPerHour
  }

  /** What formatTimeRemaining reports: expired, or whole hours, minutes and
      seconds left. */
  datatype Remaining = Expired | Left(hours: nat, minutes: nat, seconds: nat)

  /** The breakdown formatTimeRemaining computes from `expiresAt - now`. */
  function TimeRemaining(expiresAt: int, now: int): (r: Remaining)
    ensures r.Expired? <==> expiresAt - now <= 0
    ensures r.Left? ==> r.minutes < 60 && r.seconds < 60
    ensures r.Left? ==>
      var t := expiresAt - now;
      var shown := r.hours * MsPerHour + r.minutes * MsPerMinute + r.seconds * MsPerSecond;
      shown <= t < shown + MsPerSecond
  {
    var timeLeft := expiresAt - now;
    if timeLeft <= 0 then Expired
    else
      Breakdown(timeLeft);
      Left(timeLeft / MsPerHour, (timeLeft % MsPerHour) / MsPerMinute,
           (timeLeft % MsPerMinute) / MsPerSecond)
  }

  /** Whole hours, the minutes of the remaining hour and the seconds of the
      remaining minute fall short of t by less than a second. */
  lemma Breakdown(t: nat)
    ensures var h, m, s := t / MsPerHour, (t % MsPerHour) / MsPerMinute, (t % MsPerMinute) / MsPerSecond;
      var shown := h * MsPerHour + m * MsPerMinute + s * MsPerSecond;
      m < 60 && s < 60 && shown <= t < shown + MsPerSecond
  {
    var h, a := t / MsPerHour, t % MsPerHour;
    var m, b := a / MsPerMinute, a % MsPerMinute;
    assert t == h * MsPerHour + a && a == m * MsPerMinute + b;
    assert m < 60;
    assert t % MsPerMinute == b by {
      ModUnique(t, MsPerMinute, h * 60 + m, b);
    }
    var s, c := b / MsPerSecond, b % MsPerSecond;
    assert b == s * MsPerSecond + c && s < 60;
    assert h * MsPerHour + m * MsPerMinute + s * MsPerSecond == t - c;
  }

  /** formatTimeRemaining(expiresAt): 'Expired' or `${h}h ${m}m ${s}s`. */
  function FormatTimeRemaining(expiresAt: int, now: int): (r: string)
  {
    match TimeRemaining(expiresAt, now)
    case Expired => "Expired"
    case Left(h, m, s) => Decimal(h) + "h " + Decimal(m) + "m " + Decimal(s) + "s"
  }

  /** The text is 'Expired' exactly when no time is left: a rendering of
      hours starts with a digit, never with 'E'. */
  lemma ExpiredText(expiresAt: int, now: int)
    ensures FormatTimeRemaining(expiresAt, now) == "Expired" <==> expiresAt - now <= 0
  {
    var r := TimeRemaining(expiresAt, now);
    if r.Left? {
      var text := FormatTimeRemaining(expiresAt, now);
      var d := Decimal(r.hours);
      assert text[0] == d[0];
      assert DigitValue(d[0]) < 10;
    }
  }

  /** A session created now for h hours shows exactly h hours left. */
  lemma ExpirationRoundTrip(now: int, hours: nat)
    requires hours > 0
    ensures TimeRemaining(GetExpirationTime(now, hours), now) == Left(hours, 0, 0)
  {
    var t := GetExpirationTime(now, hours) - now;
    var r := TimeRemaining(GetExpirationTime(now, hours), now);
    assert t == hours * MsPerHour;
    assert r.hours * MsPerHour <= t < r.hours * MsPerHour + MsPerHour by {
      assert r.minutes * MsPerMinute + r.seconds * MsPerSecond < MsPerHour;
    }
    HourCount(r.hours, hours);
  }

  /** Whole hours are determined by the hour interval the time falls in. */
  lemma HourCount(a: nat, b: nat)
    requires a * MsPerHour <= b * MsPerHour < a * MsPerHour + MsPerHour
    ensures a == b
  {
    if a < b {
      MulAtLeast(b - a, MsPerHour);
    } else if a > b {
      MulAtLeast(a - b, MsPerHour);
    }
  }
}
