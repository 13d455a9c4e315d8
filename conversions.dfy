/** Integer text conversions of the C++ standard library as the ByteArray
    classes use them: the stoi/stol/stoul family (built on strtol and
    strtoul), std::to_string, and an ostream writing an int in dec, oct or
    hex mode. Integer widths are those of a 64-bit Linux build: int is 32
    bits, long and long long are 64 bits. */
module Conversions {
  import opened Wrappers
  import opened CharClass

  const INT_MIN: int := -0x8000_0000
  const INT_MAX: int := 0x7FFF_FFFF
  const LONG_MIN: int := -0x8000_0000_0000_0000
  const LONG_MAX: int := 0x7FFF_FFFF_FFFF_FFFF
  const ULONG_MAX: int := 0xFFFF_FFFF_FFFF_FFFF

  type Int32 = n: int | INT_MIN <= n <= INT_MAX

  /** What strtol/strtoul read before any range check: the sign and the
      magnitude of the digits. */
  datatype Scan = Scan(negative: bool, magnitude: nat)

  function DropSpaces(s: seq<char>): (r: seq<char>)
    ensures |r| <= |s|
    ensures r == [] || !IsSpace(r[0])
  {
    if |s| > 0 && IsSpace(s[0]) then DropSpaces(s[1..]) else s
  }

  /** The length of the longest prefix of s made of base-`base` digits. */
  function DigitRun(s: seq<char>, base: nat): (n: nat)
    ensures n <= |s|
    ensures forall k :: 0 <= k < n ==> IsDigitIn(s[k], base)
    ensures n < |s| ==> !IsDigitIn(s[n], base)
  {
    if |s| > 0 && IsDigitIn(s[0], base) then DigitRun(s[1..], base) + 1 else 0
  }

  /** The number the digits denote, most significant first. */
  function DigitsValue(ds: seq<char>, base: nat): nat
    requires forall k :: 0 <= k < |ds| ==> IsDigitIn(ds[k], base)
  {
    if ds == [] then 0
    else
      assert IsDigitIn(ds[|ds| - 1], base);
      var d: nat := DigitValue(ds[|ds| - 1]);
      var high := DigitsValue(ds[..|ds| - 1], base);
      MulNonneg(high, base);
      high * base + d
  }

  /** strtol/strtoul scanning in base 10 or 16: skip isspace characters,
      take one optional '+' or '-', in base 16 skip a "0x"/"0X" that is
      followed by a hex digit, then read the longest run of digits. None
      when no digit is read (the call then throws invalid_argument). */
  function ScanInteger(s: seq<char>, base: nat): Option<Scan>
    requires base == 10 || base == 16
  {
    ScanSigned(DropSpaces(s), base)
  }

  /** The scan from the first non-space character on. */
  function ScanSigned(t: seq<char>, base: nat): Option<Scan>
    requires base == 10 || base == 16
  {
    if |t| > 0 && (t[0] == '-' || t[0] == '+') then
      match ScanMagnitude(t[1..], base)
      case None => None
      case Some(m) => Some(Scan(t[0] == '-', m))
    else
      match ScanMagnitude(t, base)
      case None => None
      case Some(m) => Some(Scan(false, m))
  }

  /** The magnitude after the sign: the optional hex prefix, then the
      longest run of digits. */
  function ScanMagnitude(u: seq<char>, base: nat): Option<nat>
    requires base == 10 || base == 16
  {
    var v := if base == 16 && |u| >= 3 && u[0] == '0' && (u[1] == 'x' || u[1] == 'X')
                && IsDigitIn(u[2], 16) then u[2..] else u;
    var n := DigitRun(v, base);
    if n == 0 then None else Some(DigitsValue(v[..n], base))
  }

  function SignedValue(sc: Scan): int {
    if sc.negative then -(sc.magnitude as int) else sc.magnitude
  }

  /** A signed conversion in [lo, hi]: None when nothing parses
      (invalid_argument) or the value is outside the range (out_of_range). */
  function ParseSigned(s: seq<char>, lo: int, hi: int): (r: Option<int>)
    ensures r.Some? ==> lo <= r.value <= hi
  {
    match ScanInteger(s, 10)
    case None => None
    case Some(sc) => if lo <= SignedValue(sc) <= hi then Some(SignedValue(sc)) else None
  }

  /** std::stoi. */
  function Stoi(s: seq<char>): Option<int> { ParseSigned(s, INT_MIN, INT_MAX) }

  /** std::stoi(s, nullptr, 16). */
  function StoiHex(s: seq<char>): (r: Option<int>)
    ensures r.Some? ==> INT_MIN <= r.value <= INT_MAX
  {
    match ScanInteger(s, 16)
    case None => None
    case Some(sc) => if INT_MIN <= SignedValue(sc) <= INT_MAX then Some(SignedValue(sc)) else None
  }

  /** std::stol and std::stoll (both 64-bit here). */
  function Stol(s: seq<char>): Option<int> { ParseSigned(s, LONG_MIN, LONG_MAX) }

  /** std::stoul and std::stoull: strtoul rejects a magnitude above
      ULONG_MAX but accepts a '-' sign, negating modulo 2^64. */
  function Stoul(s: seq<char>): (r: Option<int>)
    ensures r.Some? ==> 0 <= r.value <= ULONG_MAX
  {
    match ScanInteger(s, 10)
    case None => None
    case Some(sc) =>
      if sc.magnitude > ULONG_MAX then None
      else Some(if sc.negative then (0x1_0000_0000_0000_0000 - sc.magnitude) % 0x1_0000_0000_0000_0000
                else sc.magnitude)
  }

  /** The digits of n in base 2..16, most significant first, lower-case,
      with a single "0" for zero. */
  function NatDigits(n: nat, base: nat): (ds: seq<char>)
    requires 2 <= base <= 16
    ensures |ds| >= 1
    ensures forall k :: 0 <= k < |ds| ==> IsDigitIn(ds[k], base)
    ensures forall k :: 0 <= k < |ds| ==> !IsSpace(ds[k]) && ds[k] != '-' && ds[k] != '+'
    ensures forall k :: 0 <= k < |ds| ==> IsLowerHexDigit(ds[k])
    ensures ds[0] == '0' <==> n == 0
    ensures |ds| == 1 || ds[0] != '0'
  {
    if n < base then [DigitChar(n)]
    else
      DivShrinks(n, base);
      NatDigits(n / base, base) + [DigitChar(n % base)]
  }

  /** Reading back the digits written for n gives n. */
  lemma {:induction false} DigitsRoundTrip(n: nat, base: nat)
    requires 2 <= base <= 16
    ensures DigitsValue(NatDigits(n, base), base) == n
    decreases n
  {
    if n >= base {
      var ds := NatDigits(n, base);
      var pre := NatDigits(n / base, base);
      var d := n % base;
      assert ds == pre + [DigitChar(d)];
      assert ds[..|ds| - 1] == pre;
      DivShrinks(n, base);
      DigitsRoundTrip(n / base, base);
      assert DigitValue(ds[|ds| - 1]) == d;
      assert DigitsValue(ds, base) == DigitsValue(pre, base) * base + d;
      assert DigitsValue(pre, base) == n / base;
      DivMod(n, base);
    }
  }

  lemma {:induction false} MulNonneg(a: nat, b: nat)
    ensures a * b >= 0
  {
  }

  lemma {:induction false} DivMod(n: nat, base: nat)
    requires base > 0
    ensures (n / base) * base + n % base == n
  {
  }

  lemma {:induction false} DivShrinks(n: nat, base: nat)
    requires 2 <= base <= n
    ensures n / base < n
  {
    DivMod(n, base);
  }

  /** std::to_string(int): decimal, with a leading '-' when negative. */
  function ToString(n: int): (r: seq<char>)
    ensures |r| >= 1
  {
    if n < 0 then "-" + NatDigits(-n, 10) else NatDigits(n, 10)
  }

  /** `os << n` for an int with the stream in oct or hex mode: the value is
      written as the unsigned int it converts to (two's complement, 32 bits);
      any other mode writes decimal, as to_string does. */
  function StreamInt(n: Int32, base: nat): seq<char> {
    if base == 8 || base == 16 then NatDigits(n % 0x1_0000_0000, base) else ToString(n)
  }

  lemma {:induction false} DigitRunAll(ds: seq<char>, base: nat)
    requires forall k :: 0 <= k < |ds| ==> IsDigitIn(ds[k], base)
    ensures DigitRun(ds, base) == |ds|
  {
    if |ds| > 0 {
      DigitRunAll(ds[1..], base);
    }
  }

  /** The digit run stops where the digits stop. */
  lemma {:induction false} DigitRunOfPrefix(ds: seq<char>, rest: seq<char>, base: nat)
    requires forall k :: 0 <= k < |ds| ==> IsDigitIn(ds[k], base)
    requires rest == [] || !IsDigitIn(rest[0], base)
    ensures DigitRun(ds + rest, base) == |ds|
    decreases |ds|
  {
    if |ds| > 0 {
      assert (ds + rest)[1..] == ds[1..] + rest;
      DigitRunOfPrefix(ds[1..], rest, base);
    } else {
      assert ds + rest == rest;
    }
  }

  /** Digits at the start of the string, up to the first non-digit, are
      what strtol reads. */
  lemma {:induction false} ScanDigitsThen(ds: seq<char>, rest: seq<char>, base: nat)
    requires base == 10 || base == 16
    requires |ds| >= 1 && !IsSpace(ds[0]) && ds[0] != '-' && ds[0] != '+'
    requires forall k :: 0 <= k < |ds| ==> IsDigitIn(ds[k], base)
    requires rest == [] || !IsDigitIn(rest[0], base)
    requires base == 16 ==> |ds + rest| < 3
    ensures ScanInteger(ds + rest, base) == Some(Scan(false, DigitsValue(ds, base)))
  {
    var s := ds + rest;
    assert s[0] == ds[0];
    assert DropSpaces(s) == s;
    MagnitudeOfDigits(ds, rest, base);
    assert ScanSigned(s, base) == Some(Scan(false, DigitsValue(ds, base)));
  }

  /** The magnitude read from digits followed by a non-digit. */
  lemma {:induction false} MagnitudeOfDigits(ds: seq<char>, rest: seq<char>, base: nat)
    requires base == 10 || base == 16
    requires |ds| >= 1
    requires base == 16 ==> |ds + rest| < 3
    requires forall k :: 0 <= k < |ds| ==> IsDigitIn(ds[k], base)
    requires rest == [] || !IsDigitIn(rest[0], base)
    ensures ScanMagnitude(ds + rest, base) == Some(DigitsValue(ds, base))
  {
    var s := ds + rest;
    DigitRunOfPrefix(ds, rest, base);
    assert s[..|ds|] == ds;
  }

  /** Leading whitespace does not change what is scanned. */
  lemma {:induction false} ScanSpaceless(sp: seq<char>, s: seq<char>)
    requires forall k :: 0 <= k < |sp| ==> IsSpace(sp[k])
    ensures DropSpaces(sp + s) == DropSpaces(s)
    ensures ScanInteger(sp + s, 10) == ScanInteger(s, 10)
    ensures ScanInteger(sp + s, 16) == ScanInteger(s, 16)
  {
    DropSpacesPrefix(sp, s);
  }

  lemma {:induction false} DropSpacesPrefix(sp: seq<char>, s: seq<char>)
    requires forall k :: 0 <= k < |sp| ==> IsSpace(sp[k])
    ensures DropSpaces(sp + s) == DropSpaces(s)
    decreases |sp|
  {
    if |sp| > 0 {
      assert (sp + s)[0] == sp[0];
      assert (sp + s)[1..] == sp[1..] + s;
      DropSpacesPrefix(sp[1..], s);
    } else {
      assert sp + s == s;
    }
  }

  /** A run of digits that makes up the whole string is scanned whole. */
  lemma {:induction false} ScanDigits(ds: seq<char>, base: nat)
    requires base == 10 || base == 16
    requires |ds| >= 1 && !IsSpace(ds[0]) && ds[0] != '-' && ds[0] != '+'
    requires forall k :: 0 <= k < |ds| ==> IsDigitIn(ds[k], base)
    requires base == 16 ==> |ds| < 3
    ensures ScanInteger(ds, base) == Some(Scan(false, DigitsValue(ds, base)))
  {
    ScanDigitsThen(ds, [], base);
    assert ds + [] == ds;
  }

  /** A '-' followed by digits scans as a negative magnitude. */
  lemma {:induction false} ScanNegativeDigits(ds: seq<char>)
    requires |ds| >= 1
    requires forall k :: 0 <= k < |ds| ==> IsDigitIn(ds[k], 10)
    ensures ScanInteger("-" + ds, 10) == Some(Scan(true, DigitsValue(ds, 10)))
  {
    var s := "-" + ds;
    assert DropSpaces(s) == s;
    assert s[1..] == ds + [];
    MagnitudeOfDigits(ds, [], 10);
    assert ScanSigned(s, 10) == Some(Scan(true, DigitsValue(ds, 10)));
  }

  /** How a successful scan becomes the result of a signed conversion. */
  lemma {:induction false} ParseOfScan(s: seq<char>, sc: Scan, lo: int, hi: int)
    requires ScanInteger(s, 10) == Some(sc)
    ensures lo <= SignedValue(sc) <= hi ==> ParseSigned(s, lo, hi) == Some(SignedValue(sc))
    ensures !(lo <= SignedValue(sc) <= hi) ==> ParseSigned(s, lo, hi) == None
  {
  }

  /** stoi reads back what to_string writes, for every int. */
  lemma {:induction false} StoiToString(n: Int32)
    ensures Stoi(ToString(n)) == Some(n as int)
  {
    if n < 0 {
      StoiToStringNegative(n);
    } else {
      var ds := NatDigits(n, 10);
      DigitsRoundTrip(n, 10);
      ScanDigits(ds, 10);
      ParseOfScan(ds, Scan(false, n as int), INT_MIN, INT_MAX);
    }
  }

  lemma {:induction false} StoiToStringNegative(n: Int32)
    requires n < 0
    ensures Stoi(ToString(n)) == Some(n as int)
  {
    var m: nat := -(n as int);
    var s := ToString(n);
    var sc := Scan(true, m);
    assert ScanInteger(s, 10) == Some(sc) by {
      var ds := NatDigits(m, 10);
      assert s == "-" + ds;
      DigitsRoundTrip(m, 10);
      ScanNegativeDigits(ds);
    }
    assert SignedValue(sc) == n as int;
    ParseOfScan(s, sc, INT_MIN, INT_MAX);
  }

  /** The conversion fails on the empty string: there are no digits. */
  lemma {:induction false} StoiRejectsEmpty()
    ensures Stoi([]) == None
  {
  }

  /** The conversion fails when nothing but whitespace precedes a
      character that is neither a sign nor a digit ("abc", "  x1"). */
  lemma {:induction false} StoiRejectsNonDigit(sp: seq<char>, t: seq<char>)
    requires forall k :: 0 <= k < |sp| ==> IsSpace(sp[k])
    requires |t| > 0 && !IsSpace(t[0]) && t[0] != '-' && t[0] != '+' && !IsDigitIn(t[0], 10)
    ensures Stoi(sp + t) == None
  {
    ScanSpaceless(sp, t);
    assert DropSpaces(t) == t;
    assert DigitRun(t, 10) == 0;
  }

  /** The conversion fails on a digit string whose value is above INT_MAX. */
  lemma {:induction false} StoiRejectsAboveMax(ds: seq<char>)
    requires |ds| >= 1
    requires forall k :: 0 <= k < |ds| ==> '0' <= ds[k] <= '9'
    requires DigitsValue(ds, 10) > INT_MAX
    ensures Stoi(ds) == None
  {
    ScanDigits(ds, 10);
  }

  /** The conversion fails on '-' and a digit string whose value is above
      2^31, the negation of INT_MIN. */
  lemma {:induction false} StoiRejectsBelowMin(ds: seq<char>)
    requires |ds| >= 1
    requires forall k :: 0 <= k < |ds| ==> IsDigitIn(ds[k], 10)
    requires DigitsValue(ds, 10) > -INT_MIN
    ensures Stoi("-" + ds) == None
  {
    ScanNegativeDigits(ds);
    ParseOfScan("-" + ds, Scan(true, DigitsValue(ds, 10)), INT_MIN, INT_MAX);
  }

  /** Leading whitespace is skipped by all three conversions. */
  lemma {:induction false} StoiSkipsSpace(sp: seq<char>, s: seq<char>)
    requires forall k :: 0 <= k < |sp| ==> IsSpace(sp[k])
    ensures Stoi(sp + s) == Stoi(s)
    ensures Stol(sp + s) == Stol(s)
    ensures Stoul(sp + s) == Stoul(s)
  {
    ScanSpaceless(sp, s);
  }

  /** One leading '+' is read and changes nothing. */
  lemma {:induction false} StoiSkipsPlus(t: seq<char>)
    requires t == [] || (!IsSpace(t[0]) && t[0] != '-' && t[0] != '+')
    ensures Stoi("+" + t) == Stoi(t)
    ensures Stol("+" + t) == Stol(t)
    ensures Stoul("+" + t) == Stoul(t)
  {
    var s := "+" + t;
    assert DropSpaces(s) == s;
    assert s[1..] == t;
    assert DropSpaces(t) == t;
  }

  /** Reading stops at the first character that is not a decimal digit, so
      in base 10 a "0x" prefix reads as 0 followed by junk. */
  lemma {:induction false} StoiStopsAtNonDigit(ds: seq<char>, rest: seq<char>)
    requires |ds| >= 1 && !IsSpace(ds[0]) && ds[0] != '-' && ds[0] != '+'
    requires forall k :: 0 <= k < |ds| ==> IsDigitIn(ds[k], 10)
    requires rest == [] || !IsDigitIn(rest[0], 10)
    ensures Stoi(ds + rest) == Stoi(ds)
    ensures Stoul(ds + rest) == Stoul(ds)
  {
    ScanDigitsThen(ds, rest, 10);
    ScanDigits(ds, 10);
  }

  /** stoul accepts a '-' sign and negates modulo 2^64: "-1" gives
      ULONG_MAX. */
  lemma {:induction false} StoulWrapsNegative(ds: seq<char>)
    requires |ds| >= 1
    requires forall k :: 0 <= k < |ds| ==> IsDigitIn(ds[k], 10)
    requires 1 <= DigitsValue(ds, 10) <= ULONG_MAX
    ensures Stoul("-" + ds) == Some(ULONG_MAX + 1 - DigitsValue(ds, 10))
  {
    ScanNegativeDigits(ds);
    var v := DigitsValue(ds, 10);
    ModOfSmall(0x1_0000_0000_0000_0000 - v, 0x1_0000_0000_0000_0000);
  }

  lemma {:induction false} ModOfSmall(x: int, m: int)
    requires 0 <= x < m
    ensures x % m == x
  {
  }

  /** What the toInt family returns: the parsed value with *ok set to true,
      or 0 with *ok set to false when the standard parser throws. */
  datatype Converted = Converted(value: int, ok: bool)

  function Convert(r: Option<int>): (c: Converted)
    ensures c.ok <==> r.Some?
    ensures c.ok ==> c.value == r.value
    ensures !c.ok ==> c.value == 0
  {
    match r
    case None => Converted(0, false)
    case Some(v) => Converted(v, true)
  }
}
