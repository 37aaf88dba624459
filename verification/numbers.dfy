/** Integers as text: `Number.prototype.toString` for whole numbers and the global `parseInt`.
    Numbers are unbounded integers here; `NaN` is `None`. */
module Numbers {
  import opened Types
  import opened Text

  function DigitValue(c: char): nat
    requires IsDigit(c)
  {
    c as int - '0' as int
  }

  function DigitChar(d: nat): (c: char)
    requires d < 10
    ensures IsDigit(c) && DigitValue(c) == d
  {
    ('0' as int + d) as char
  }

  /** Decimal representation of a natural number, without leading zeros. */
  function NatToString(n: nat): (r: string)
    ensures |r| > 0 && AllDigits(r)
    ensures r[0] == '0' ==> n == 0 && |r| == 1
    decreases n
  {
    if n < 10 then [DigitChar(n)] else NatToString(n / 10) + [DigitChar(n % 10)]
  }

  /** `n.toString()` for a whole number: a minus sign for negatives, then the decimal digits. */
  function IntToString(n: int): (r: string)
    ensures |r| > 0
  {
    if n < 0 then "-" + NatToString(-n) else NatToString(n)
  }

  /** Value of a string of digits in the given radix (10 or 16). */
  predicate IsRadixDigit(c: char, radix: nat) {
    if radix == 16 then IsDigit(c) || 'a' <= c <= 'f' || 'A' <= c <= 'F' else IsDigit(c)
  }

  function RadixDigitValue(c: char, radix: nat): nat
    requires IsRadixDigit(c, radix)
  {
    if IsDigit(c) then DigitValue(c)
    else if 'a' <= c <= 'f' then c as int - 'a' as int + 10
    else c as int - 'A' as int + 10
  }

  function RadixValue(s: string, radix: nat): nat
    requires forall i :: 0 <= i < |s| ==> IsRadixDigit(s[i], radix)
  {
    if |s| == 0 then 0
    else RadixValue(s[..|s| - 1], radix) * radix + RadixDigitValue(s[|s| - 1], radix)
  }

  /** Number of leading characters of `s` that are digits of the radix. */
  function DigitPrefix(s: string, radix: nat): (k: nat)
    ensures k <= |s|
    ensures forall i :: 0 <= i < k ==> IsRadixDigit(s[i], radix)
    ensures k < |s| ==> !IsRadixDigit(s[k], radix)
  {
    if |s| == 0 || !IsRadixDigit(s[0], radix) then 0 else 1 + DigitPrefix(s[1..], radix)
  }

  /** The value of the longest run of radix digits at the start of `v`; `None` when there is none. */
  function ParseDigits(v: string, radix: nat): (r: Option<nat>)
    ensures r.None? <==> |v| == 0 || !IsRadixDigit(v[0], radix)
  {
    var k := DigitPrefix(v, radix);
    if k == 0 then None else Some(RadixValue(v[..k], radix))
  }

  /** Digits after the sign: base 16 after a `0x`/`0X` prefix, base 10 otherwise. */
  function ParseUnsigned(u: string): Option<nat> {
    if |u| >= 2 && u[0] == '0' && (u[1] == 'x' || u[1] == 'X') then ParseDigits(u[2..], 16)
    else ParseDigits(u, 10)
  }

  /** An optional `-` or `+` sign, then the unsigned part. */
  function ParseSigned(t: string): Option<int> {
    if |t| > 0 && t[0] == '-' then
      match ParseUnsigned(t[1..])
      case None => None
      case Some(m) => Some(-(m as int))
    else if |t| > 0 && t[0] == '+' then
      match ParseUnsigned(t[1..])
      case None => None
      case Some(m) => Some(m)
    else
      match ParseUnsigned(t)
      case None => None
      case Some(m) => Some(m)
  }

  /** ECMAScript `parseInt(s)` with no radix: skip leading whitespace, take an optional sign,
      read base 16 after a `0x`/`0X` prefix and base 10 otherwise, and stop at the first
      character that is not a digit; no digit at all gives `NaN` (`None`). */
  function ParseInt(s: string): Option<int> {
    ParseSigned(TrimStart(s))
  }

  lemma {:induction false} NatToStringValue(n: nat)
    ensures RadixValue(NatToString(n), 10) == n
    decreases n
  {
    if n >= 10 {
      NatToStringValue(n / 10);
      var s := NatToString(n);
      assert s[..|s| - 1] == NatToString(n / 10);
    }
  }

  /** `parseInt` reads back exactly the number `toString` wrote. */
  lemma ParseIntOfIntToString(n: int)
    ensures ParseInt(IntToString(n)) == Some(n)
  {
    if n < 0 {
      NegativeRoundTrip(-n);
    } else {
      NonNegativeRoundTrip(n);
    }
  }

  lemma NonNegativeRoundTrip(m: nat)
    ensures ParseInt(NatToString(m)) == Some(m)
  {
    var d := NatToString(m);
    ParseUnsignedOfNatToString(m);
    NoSpaceStart(d);
    assert ParseSigned(d) == ParseUnsigned(d);
  }

  lemma NegativeRoundTrip(m: nat)
    requires m > 0
    ensures ParseInt("-" + NatToString(m)) == Some(-(m as int))
  {
    var d := NatToString(m);
    ParseUnsignedOfNatToString(m);
    NoSpaceStart("-" + d);
    ParseSignedNegative(d, m);
  }

  lemma ParseSignedNegative(u: string, m: nat)
    requires ParseUnsigned(u) == Some(m)
    ensures ParseSigned("-" + u) == Some(-(m as int))
  {
    assert ("-" + u)[1..] == u;
  }

  /** A string that starts with a sign or a digit has no leading whitespace to skip. */
  lemma NoSpaceStart(t: string)
    requires |t| > 0 && (t[0] == '-' || IsDigit(t[0]))
    ensures TrimStart(t) == t
  {
    SignOrDigitNotSpace(t[0]);
    TrimStartNonSpace(t);
  }

  lemma SignOrDigitNotSpace(c: char)
    requires c == '-' || c == '+' || IsDigit(c)
    ensures !IsSpace(c)
  {
  }

  lemma ParseUnsignedOfNatToString(m: nat)
    ensures ParseUnsigned(NatToString(m)) == Some(m)
  {
    var d := NatToString(m);
    NatToStringValue(m);
    DigitPrefixAll(d);
    assert d[..|d|] == d;
    assert ParseDigits(d, 10) == Some(m);
  }

  lemma {:induction false} DigitPrefixAll(s: string)
    requires AllDigits(s)
    ensures DigitPrefix(s, 10) == |s|
    decreases |s|
  {
    if |s| > 0 {
      DigitPrefixAll(s[1..]);
    }
  }

  predicate NoDigits(s: string) {
    forall i :: 0 <= i < |s| ==> !IsDigit(s[i])
  }

  lemma NoDigitsSuffix(s: string, k: nat)
    requires NoDigits(s) && k <= |s|
    ensures NoDigits(s[k..])
  {
    assert forall i :: 0 <= i < |s| - k ==> s[k..][i] == s[k + i];
  }

  lemma ParseUnsignedWithoutDigits(u: string)
    requires NoDigits(u)
    ensures ParseUnsigned(u) == None
  {
    if |u| > 0 {
      assert !IsDigit(u[0]);
    }
  }

  lemma ParseSignedWithoutDigits(t: string)
    requires NoDigits(t)
    ensures ParseSigned(t) == None
  {
    if |t| > 0 && (t[0] == '-' || t[0] == '+') {
      NoDigitsSuffix(t, 1);
      ParseUnsignedWithoutDigits(t[1..]);
    } else {
      ParseUnsignedWithoutDigits(t);
    }
  }

  /** A string with no decimal digit in it parses to `NaN`. */
  lemma ParseIntWithoutDigits(s: string)
    requires forall i :: 0 <= i < |s| ==> !IsDigit(s[i])
    ensures ParseInt(s) == None
  {
    var t := TrimStart(s);
    NoDigitsSuffix(s, |s| - |t|);
    ParseSignedWithoutDigits(t);
  }
}
