/** The pieces of JavaScript's built-in behaviour that the gateway's core relies
    on: string trimming and splitting, the string-to-number conversions
    `Number(s)` and `parseInt(s)`, and the 32-bit bitwise operators `<<`, `~`
    and `&` together with their ToInt32/ToUint32 conversions. */
module JsRuntime {

  /** A JavaScript number as far as this core can observe it. NaN and the two
      infinities are merged into `NonFinite`: every place where the core uses a
      number either adds it (non-finite stays non-finite) or converts it with
      ToInt32/ToUint32 (non-finite becomes 0). */
  datatype JsNumber = NonFinite | Finite(v: int)

  /** An optional value: `undefined`, or a value that is present. */
  datatype Option<T> = None | Some(value: T)

  // ---------------------------------------------------------------------
  // Whitespace and trimming (String.prototype.trim, trimStart)
  // ---------------------------------------------------------------------

  /** The WhiteSpace and LineTerminator code points of ECMAScript, which both
      `trim` and the string-to-number conversion strip. */
  predicate IsJsSpace(c: char) {
    c == '\t' || c == '\n' || c == '\U{000B}' || c == '\U{000C}' || c == '\r' || c == ' '
    || c == '\U{00A0}' || c == '\U{1680}' || ('\U{2000}' <= c <= '\U{200A}')
    || c == '\U{2028}' || c == '\U{2029}' || c == '\U{202F}' || c == '\U{205F}'
    || c == '\U{3000}' || c == '\U{FEFF}'
  }

  predicate AllSpace(s: string) {
    forall i :: 0 <= i < |s| ==> IsJsSpace(s[i])
  }

  /** No whitespace at either end: what `trim` produces. */
  predicate IsTrimmed(s: string) {
    s == [] || (!IsJsSpace(s[0]) && !IsJsSpace(s[|s| - 1]))
  }

  function TrimStart(s: string): (r: string)
    ensures |r| <= |s| && r == s[|s| - |r|..]
    ensures AllSpace(s[..|s| - |r|])
    ensures r == [] || !IsJsSpace(r[0])
  {
    if s != [] && IsJsSpace(s[0]) then TrimStart(s[1..]) else s
  }

  function TrimEnd(s: string): (r: string)
    ensures |r| <= |s| && r == s[..|r|]
    ensures AllSpace(s[|r|..])
    ensures r == [] || !IsJsSpace(r[|r| - 1])
  {
    if s != [] && IsJsSpace(s[|s| - 1]) then TrimEnd(s[..|s| - 1]) else s
  }

  /** String.prototype.trim. */
  function Trim(s: string): string {
    TrimEnd(TrimStart(s))
  }

  /** Trim leaves no whitespace at either end. */
  lemma TrimIsTrimmed(s: string)
    ensures IsTrimmed(Trim(s))
  {
    var t := TrimStart(s);
    var r := TrimEnd(t);
    if r != [] {
      assert r[0] == t[0];
    }
  }

  /** A string without whitespace at its ends is left alone by trim. */
  lemma TrimOfTrimmed(s: string)
    requires IsTrimmed(s)
    ensures TrimStart(s) == s && TrimEnd(s) == s && Trim(s) == s
  {
  }

  /** Trimming gives the empty string exactly for an all-whitespace string. */
  lemma TrimEmptyIff(s: string)
    ensures Trim(s) == [] <==> AllSpace(s)
  {
    var t := TrimStart(s);
    if t != [] {
      assert t[0] == s[|s| - |t|];
    }
  }

  /** Trimming an already trimmed string changes nothing, so a value the
      store keeps trimmed is a fixed point of the store's trim setter. */
  lemma TrimIdempotent(s: string)
    ensures Trim(Trim(s)) == Trim(s)
  {
    TrimIsTrimmed(s);
    TrimOfTrimmed(Trim(s));
  }

  // ---------------------------------------------------------------------
  // String.prototype.toUpperCase on ASCII letters
  // ---------------------------------------------------------------------

  function UpperChar(c: char): char {
    if 'a' <= c <= 'z' then (c as int - 32) as char else c
  }

  /** toUpperCase, for the ASCII letters. */
  function ToUpperCase(s: string): string {
    seq(|s|, i requires 0 <= i < |s| => UpperChar(s[i]))
  }

  /** Upper-casing leaves no lower-case letter, keeps every other character
      where it was, and changes nothing the second time. */
  lemma UpperCaseFacts(s: string)
    ensures |ToUpperCase(s)| == |s|
    ensures forall i :: 0 <= i < |s| ==> !('a' <= ToUpperCase(s)[i] <= 'z')
    ensures forall i :: 0 <= i < |s| && !('a' <= s[i] <= 'z') ==> ToUpperCase(s)[i] == s[i]
    ensures ToUpperCase(ToUpperCase(s)) == ToUpperCase(s)
  {
  }

  /** Trimming and upper-casing commute, so the order in which a store
      applies its trim and uppercase setters does not matter. */
  lemma {:induction false} UpperTrimCommute(s: string)
    ensures Trim(ToUpperCase(s)) == ToUpperCase(Trim(s))
  {
    UpperTrimStart(s);
    UpperTrimEnd(TrimStart(s));
  }

  lemma {:induction false} UpperTrimStart(s: string)
    ensures TrimStart(ToUpperCase(s)) == ToUpperCase(TrimStart(s))
  {
    if s != [] {
      var u := ToUpperCase(s);
      assert u[0] == UpperChar(s[0]);
      UpperKeepsSpace(s[0]);
      if IsJsSpace(s[0]) {
        assert u[1..] == ToUpperCase(s[1..]);
        UpperTrimStart(s[1..]);
      }
    }
  }

  /** Upper-casing neither makes nor removes whitespace. */
  lemma UpperKeepsSpace(c: char)
    ensures IsJsSpace(UpperChar(c)) <==> IsJsSpace(c)
  {
  }

  lemma {:induction false} UpperTrimEnd(s: string)
    ensures TrimEnd(ToUpperCase(s)) == ToUpperCase(TrimEnd(s))
  {
    if s != [] {
      var u := ToUpperCase(s);
      assert u[|u| - 1] == UpperChar(s[|s| - 1]);
      UpperKeepsSpace(s[|s| - 1]);
      if IsJsSpace(s[|s| - 1]) {
        assert u[..|u| - 1] == ToUpperCase(s[..|s| - 1]);
        UpperTrimEnd(s[..|s| - 1]);
      }
    }
  }

  // ---------------------------------------------------------------------
  // String.prototype.split with a one-character separator
  // ---------------------------------------------------------------------

  /** `s.split(sep)`: the pieces between occurrences of `sep`; the empty
      string gives one empty piece. */
  function Split(s: string, sep: char): (parts: seq<string>)
    ensures |parts| >= 1
  {
    if s == [] then [[]]
    else
      var rest := Split(s[1..], sep);
      if s[0] == sep then [[]] + rest
      else [[s[0]] + rest[0]] + rest[1..]
  }

  function Occurrences(s: string, c: char): nat {
    if s == [] then 0 else (if s[0] == c then 1 else 0) + Occurrences(s[1..], c)
  }

  /** A character that occurs is in the string. */
  lemma {:induction false} OccurrencesIn(s: string, c: char)
    ensures Occurrences(s, c) > 0 <==> c in s
  {
    if s != [] {
      OccurrencesIn(s[1..], c);
      assert s == [s[0]] + s[1..];
    }
  }

  /** Joining the pieces back with the separator. */
  function Join(parts: seq<string>, sep: char): string
    requires |parts| >= 1
  {
    if |parts| == 1 then parts[0] else parts[0] + [sep] + Join(parts[1..], sep)
  }

  /** There is one more piece than there are separators. */
  lemma {:induction false} SplitCount(s: string, sep: char)
    ensures |Split(s, sep)| == Occurrences(s, sep) + 1
  {
    if s != [] {
      SplitCount(s[1..], sep);
    }
  }

  /** No piece contains the separator, and joining the pieces restores the
      string: `split` loses nothing but the separators. */
  lemma {:induction false} SplitJoin(s: string, sep: char)
    ensures Join(Split(s, sep), sep) == s
    ensures forall k :: 0 <= k < |Split(s, sep)| ==> sep !in Split(s, sep)[k]
  {
    if s != [] {
      SplitJoin(s[1..], sep);
      var rest := Split(s[1..], sep);
      if s[0] != sep {
        var parts := Split(s, sep);
        assert parts[0] == [s[0]] + rest[0];
        if |rest| == 1 {
          assert Join(parts, sep) == parts[0];
        } else {
          assert parts[1..] == rest[1..];
          assert Join(parts, sep) == parts[0] + [sep] + Join(rest[1..], sep);
          assert Join(rest, sep) == rest[0] + [sep] + Join(rest[1..], sep);
        }
        forall k | 0 <= k < |parts| ensures sep !in parts[k] {
          if k > 0 { assert parts[k] == rest[k]; }
        }
      } else {
        var parts := Split(s, sep);
        assert parts[1..] == rest;
        forall k | 0 <= k < |parts| ensures sep !in parts[k] {
          if k > 0 { assert parts[k] == rest[k - 1]; }
        }
      }
    }
  }

  /** The first piece is the prefix of the string before its first separator. */
  lemma {:induction false} SplitFirst(s: string, sep: char)
    ensures Split(s, sep)[0] <= s
    ensures sep !in Split(s, sep)[0]
    ensures |Split(s, sep)[0]| < |s| ==> s[|Split(s, sep)[0]|] == sep
  {
    if s != [] {
      SplitFirst(s[1..], sep);
    }
  }

  /** A string without the separator is a single piece. */
  lemma {:induction false} SplitNoSeparator(a: string, sep: char)
    requires sep !in a
    ensures Split(a, sep) == [a]
  {
    if a != [] {
      SplitNoSeparator(a[1..], sep);
      assert a[0] != sep && [a[0]] + a[1..] == a;
    }
  }

  /** A leading piece without the separator is split off as it is. */
  lemma {:induction false} SplitAfterPiece(a: string, b: string, sep: char)
    requires sep !in a
    ensures Split(a + [sep] + b, sep) == [a] + Split(b, sep)
  {
    if a == [] {
      assert a + [sep] + b == [sep] + b;
      assert ([sep] + b)[1..] == b;
    } else {
      SplitAfterPiece(a[1..], b, sep);
      assert (a + [sep] + b)[1..] == a[1..] + [sep] + b;
      assert [a[0]] + a[1..] == a;
    }
  }

  /** String.prototype.includes. */
  function Includes(s: string, t: string): bool {
    |t| <= |s| && (s[..|t|] == t || Includes(s[1..], t))
  }

  /** t occurs in s starting at position i. */
  predicate OccursAt(s: string, t: string, i: int) {
    0 <= i && i + |t| <= |s| && s[i..i + |t|] == t
  }

  /** includes holds exactly when t occurs in s at some position. */
  lemma {:induction false} IncludesIff(s: string, t: string)
    ensures Includes(s, t) <==> exists i :: OccursAt(s, t, i)
  {
    if |t| <= |s| {
      if s[..|t|] == t {
        assert OccursAt(s, t, 0);
      } else {
        IncludesIff(s[1..], t);
        if Includes(s[1..], t) {
          var i :| OccursAt(s[1..], t, i);
          assert s[i + 1..i + 1 + |t|] == s[1..][i..i + |t|];
          assert OccursAt(s, t, i + 1);
        } else {
          forall i | OccursAt(s, t, i)
            ensures i > 0 && OccursAt(s[1..], t, i - 1)
          {
            assert s[1..][i - 1..i - 1 + |t|] == s[i..i + |t|];
          }
        }
      }
    }
  }

  // ---------------------------------------------------------------------
  // Digits
  // ---------------------------------------------------------------------

  /** The value of a digit character in radix up to 16; 99 for anything else. */
  function DigitValue(c: char): nat {
    if '0' <= c <= '9' then c as nat - '0' as nat
    else if 'a' <= c <= 'f' then c as nat - 'a' as nat + 10
    else if 'A' <= c <= 'F' then c as nat - 'A' as nat + 10
    else 99
  }

  predicate AllDigits(s: string, radix: nat) {
    forall i :: 0 <= i < |s| ==> DigitValue(s[i]) < radix
  }

  /** The value of a digit string, most significant digit first. */
  function DigitsValue(s: string, radix: nat): nat {
    if s == [] then 0 else DigitsValue(s[..|s| - 1], radix) * radix + DigitValue(s[|s| - 1])
  }

  /** The longest prefix made of radix digits. */
  function DigitPrefix(s: string, radix: nat): (r: string)
    ensures r <= s && AllDigits(r, radix)
    ensures |r| < |s| ==> DigitValue(s[|r|]) >= radix
  {
    if s != [] && DigitValue(s[0]) < radix then [s[0]] + DigitPrefix(s[1..], radix) else []
  }

  /** Decimal rendering of a natural number, as JavaScript prints an integer
      below 10^21. */
  function Decimal(n: nat): (r: string)
    ensures r != [] && AllDigits(r, 10)
  {
    if n < 10 then [('0' as nat + n) as char]
    else Decimal(n / 10) + [('0' as nat + n % 10) as char]
  }

  /** Reading the decimal rendering back gives the number. */
  lemma {:induction false} DecimalValue(n: nat)
    ensures DigitsValue(Decimal(n), 10) == n
  {
    if n >= 10 {
      DecimalValue(n / 10);
      var r := Decimal(n);
      assert r[..|r| - 1] == Decimal(n / 10);
    }
  }

  /** `${n}` for an integer n. */
  function IntString(n: int): string {
    if n < 0 then "-" + Decimal(-n) else Decimal(n)
  }

  // ---------------------------------------------------------------------
  // Number(s) and parseInt(s)
  // ---------------------------------------------------------------------

  /** `Number(s)` for a string: surrounding whitespace is ignored, the empty
      string is 0, then a signed decimal integer, an unsigned 0x/0o/0b
      literal or (signed) Infinity; anything else is NaN. */
  function StringToNumber(s: string): JsNumber {
    NumericLiteral(Trim(s))
  }

  /** The StringNumericLiteral grammar applied to an already trimmed string. */
  function NumericLiteral(t: string): JsNumber {
    if t == [] then Finite(0)
    else if t == "Infinity" || t == "+Infinity" || t == "-Infinity" then NonFinite
    else if |t| > 2 && t[0] == '0' && (t[1] == 'x' || t[1] == 'X') && AllDigits(t[2..], 16) then
      Finite(DigitsValue(t[2..], 16))
    else if |t| > 2 && t[0] == '0' && (t[1] == 'o' || t[1] == 'O') && AllDigits(t[2..], 8) then
      Finite(DigitsValue(t[2..], 8))
    else if |t| > 2 && t[0] == '0' && (t[1] == 'b' || t[1] == 'B') && AllDigits(t[2..], 2) then
      Finite(DigitsValue(t[2..], 2))
    else if |t| > 1 && t[0] == '-' && AllDigits(t[1..], 10) then Finite(-(DigitsValue(t[1..], 10) as int))
    else if |t| > 1 && t[0] == '+' && AllDigits(t[1..], 10) then Finite(DigitsValue(t[1..], 10))
    else if AllDigits(t, 10) then Finite(DigitsValue(t, 10))
    else NonFinite
  }

  /** `parseInt(s)` without a radix: leading whitespace is skipped, then an
      optional sign, then "0x"/"0X" selects radix 16; the longest run of
      digits is read and trailing garbage ignored; no digits at all is NaN. */
  function ParseInt(s: string): JsNumber {
    var t := TrimStart(s);
    var sign := if t != [] && t[0] == '-' then -1 else 1;
    var u := if t != [] && (t[0] == '-' || t[0] == '+') then t[1..] else t;
    var hex := |u| >= 2 && u[0] == '0' && (u[1] == 'x' || u[1] == 'X');
    var radix := if hex then 16 else 10;
    var digits := DigitPrefix(if hex then u[2..] else u, radix);
    if digits == [] then NonFinite else Finite(sign * DigitsValue(digits, radix))
  }

  /** A decimal rendering reads back as the same number. */
  lemma StringToNumberDecimal(n: nat)
    ensures StringToNumber(Decimal(n)) == Finite(n)
  {
    var d := Decimal(n);
    DecimalValue(n);
    DigitNotSpace(d[0]);
    DigitNotSpace(d[|d| - 1]);
    TrimOfTrimmed(d);
    DigitStringLiteral(d);
  }

  lemma DigitNotSpace(c: char)
    requires DigitValue(c) < 16
    ensures !IsJsSpace(c)
  {
  }

  /** A non-empty run of decimal digits is read as its decimal value. */
  lemma DigitStringLiteral(t: string)
    requires t != [] && AllDigits(t, 10)
    ensures NumericLiteral(t) == Finite(DigitsValue(t, 10))
  {
    assert DigitValue(t[0]) < 10;
    assert t[0] != 'I' && t[0] != '+' && t[0] != '-';
    assert t != "Infinity" && t != "+Infinity" && t != "-Infinity";
    if |t| > 2 {
      assert DigitValue(t[1]) < 10;
    }
  }

  /** The same for parseInt. */
  lemma ParseIntDecimal(n: nat)
    ensures ParseInt(Decimal(n)) == Finite(n)
  {
    DecimalValue(n);
    ParseIntDigits(Decimal(n));
  }

  /** A non-empty run of decimal digits is read by parseInt as its value. */
  lemma ParseIntDigits(d: string)
    requires d != [] && AllDigits(d, 10)
    ensures ParseInt(d) == Finite(DigitsValue(d, 10))
  {
    DecimalDigit(d[0]);
    DigitNotSpace(d[0]);
    TrimStartUnspaced(d);
    if |d| >= 2 {
      DecimalDigit(d[1]);
    }
    DigitPrefixAll(d, 10);
    ParseIntUnsigned(d);
  }

  /** parseInt of a string with no leading space, sign or hex prefix reads
      its leading decimal digits. */
  lemma ParseIntUnsigned(t: string)
    requires t != [] && TrimStart(t) == t && t[0] != '-' && t[0] != '+'
    requires !(|t| >= 2 && t[0] == '0' && (t[1] == 'x' || t[1] == 'X'))
    requires DigitPrefix(t, 10) == t
    ensures ParseInt(t) == Finite(DigitsValue(t, 10))
  {
    var sign := if t != [] && t[0] == '-' then -1 else 1;
    assert sign == 1;
    assert DigitsValue(t, 10) == sign * DigitsValue(t, 10);
  }

  lemma TrimStartUnspaced(s: string)
    requires s != [] && !IsJsSpace(s[0])
    ensures TrimStart(s) == s
  {
  }

  lemma DecimalDigit(c: char)
    requires DigitValue(c) < 10
    ensures '0' <= c <= '9'
  {
  }

  lemma {:induction false} DigitPrefixAll(s: string, radix: nat)
    requires AllDigits(s, radix)
    ensures DigitPrefix(s, radix) == s
  {
    if s != [] {
      DigitPrefixAll(s[1..], radix);
    }
  }

  // ---------------------------------------------------------------------
  // 32-bit integer conversions and bitwise operators
  // ---------------------------------------------------------------------

  const TwoTo32: nat := 0x1_0000_0000
  const TwoTo31: nat := 0x8000_0000

  function Pow2(k: nat): (r: nat)
    ensures r >= 1
  {
    if k == 0 then 1 else 2 * Pow2(k - 1)
  }

  /** The powers of two that the 32-bit operators need. */
  lemma Pow2Values()
    ensures Pow2(8) == 0x100 && Pow2(16) == 0x1_0000 && Pow2(24) == 0x100_0000
    ensures Pow2(30) == 0x4000_0000 && Pow2(31) == TwoTo31 && Pow2(32) == TwoTo32
  {
  }

  /** ToUint32: the number modulo 2^32; non-finite becomes 0. */
  function ToUint32(n: JsNumber): (r: nat)
    ensures r < TwoTo32
  {
    match n
    case NonFinite => 0
    case Finite(v) => v % TwoTo32
  }

  /** The signed reading of a 32-bit pattern. */
  function Signed(u: nat): (r: int)
    requires u < TwoTo32
    ensures -(TwoTo31 as int) <= r < TwoTo31
  {
    if u >= TwoTo31 then u - TwoTo32 else u
  }

  /** ToInt32. */
  function ToInt32(n: JsNumber): int {
    Signed(ToUint32(n))
  }

  /** Binary `+` on numbers. */
  function Add(a: JsNumber, b: JsNumber): JsNumber {
    if a.Finite? && b.Finite? then Finite(a.v + b.v) else NonFinite
  }

  /** Binary `-` on numbers. */
  function Sub(a: JsNumber, b: JsNumber): JsNumber {
    if a.Finite? && b.Finite? then Finite(a.v - b.v) else NonFinite
  }

  /** The shift count of `<<`: ToUint32 of the right operand masked with 31. */
  function ShiftCount(y: JsNumber): (r: nat)
    ensures r < 32
  {
    ToUint32(y) % 32
  }

  /** `x << y`. */
  function ShiftLeft(x: JsNumber, y: JsNumber): JsNumber {
    Finite(Signed((ToUint32(x) * Pow2(ShiftCount(y))) % TwoTo32))
  }

  /** `~x`: in two's complement, the complement of v is -v - 1. */
  function BitNot(x: JsNumber): JsNumber {
    Finite(-ToInt32(x) - 1)
  }

  /** The low n bits of the bitwise and of x and y. */
  function AndBits(x: nat, y: nat, n: nat): nat {
    if n == 0 then 0
    else 2 * AndBits(x / 2, y / 2, n - 1) + (if x % 2 == 1 && y % 2 == 1 then 1 else 0)
  }

  /** `x & y`. */
  function BitAnd(x: JsNumber, y: JsNumber): JsNumber {
    Finite(Signed(AndBits(ToUint32(x), ToUint32(y), 32) % TwoTo32))
  }

  // ---------------------------------------------------------------------
  // Facts about the bitwise operators
  // ---------------------------------------------------------------------

  /** Different 32-bit patterns have different signed readings. */
  lemma SignedInjective(a: nat, b: nat)
    requires a < TwoTo32 && b < TwoTo32
    ensures Signed(a) == Signed(b) <==> a == b
  {
  }

  /** Splitting off the lowest bit of x modulo 2^s. */
  lemma ModPow2Step(x: nat, s: nat)
    requires s >= 1
    ensures x % Pow2(s) == 2 * ((x / 2) % Pow2(s - 1)) + x % 2
  {
    var d := Pow2(s - 1);
    var q := (x / 2) / d;
    var m := (x / 2) % d;
    assert x / 2 == q * d + m;
    assert x == q * (2 * d) + (2 * m + x % 2);
    ModUnique(x, 2 * d, q, 2 * m + x % 2);
  }

  lemma ModUnique(x: int, d: int, q: int, r: int)
    requires d > 0 && 0 <= r < d && x == q * d + r
    ensures x % d == r && x / d == q
  {
    var q', r' := x / d, x % d;
    assert q * d + r == q' * d + r';
    if q > q' {
      MulAtLeast(q - q', d);
    } else if q < q' {
      MulAtLeast(q' - q, d);
    }
  }

  lemma MulAtLeast(a: int, d: int)
    requires a >= 1 && d > 0
    ensures a * d >= d
  {
    assert a * d == (a - 1) * d + d;
  }

  lemma {:induction false} Pow2Monotone(s: nat, n: nat)
    requires s <= n
    ensures Pow2(s) <= Pow2(n)
  {
    if s < n {
      Pow2Monotone(s, n - 1);
    }
  }

  /** Anding an n-bit number with a mask whose low s bits are clear and whose
      other n - s bits are set clears the low s bits of the number. */
  lemma {:induction false} AndHighMask(x: nat, n: nat, s: nat)
    requires s <= n && x < Pow2(n)
    requires Pow2(s) <= Pow2(n)
    ensures AndBits(x, Pow2(n) - Pow2(s), n) == x - x % Pow2(s)
  {
    if n == 0 {
      assert x == 0;
    } else {
      var y := Pow2(n) - Pow2(s);
      if s == 0 {
        assert y / 2 == Pow2(n - 1) - Pow2(0) && y % 2 == 1;
        AndHighMask(x / 2, n - 1, 0);
      } else {
        assert y / 2 == Pow2(n - 1) - Pow2(s - 1) && y % 2 == 0;
        Pow2Monotone(s - 1, n - 1);
        AndHighMask(x / 2, n - 1, s - 1);
        ModPow2Step(x, s);
      }
    }
  }

  /** ToUint32 of a value already below 2^32 is the value itself. */
  lemma ToUint32Small(v: int)
    requires 0 <= v < TwoTo32
    ensures ToUint32(Finite(v)) == v
  {
  }
}
