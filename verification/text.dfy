/** Character-level helpers: ASCII digits, lower-casing, zero padding and
    the decimal integer syntax accepted by Python's `int()` on a string. */
module Text {
  import opened Wrappers

  predicate IsDigit(c: char) {
    '0' <= c <= '9'
  }

  predicate AllDigits(s: string) {
    forall i :: 0 <= i < |s| ==> IsDigit(s[i])
  }

  function DigitValue(c: char): (v: nat)
    requires IsDigit(c)
    ensures v <= 9
  {
    (c - '0') as nat
  }

  function DigitChar(v: nat): (c: char)
    requires v <= 9
    ensures IsDigit(c) && DigitValue(c) == v
  {
    ('0' as int + v) as char
  }

  /** Value of a run of ASCII digits, most significant first. */
  function DigitsValue(s: string): nat
    requires AllDigits(s)
    decreases |s|
  {
    if |s| == 0 then 0
    else 10 * DigitsValue(s[..|s| - 1]) + DigitValue(s[|s| - 1])
  }

  lemma FourDigitsValue(t: string)
    requires |t| == 4 && AllDigits(t)
    ensures DigitsValue(t) == 1000 * DigitValue(t[0]) + 100 * DigitValue(t[1])
                              + 10 * DigitValue(t[2]) + DigitValue(t[3])
  {
    var a, b, c := t[..1], t[..2], t[..3];
    assert a[..0] == [];
    assert DigitsValue(a) == DigitValue(t[0]);
    assert b[..1] == a;
    assert DigitsValue(b) == 10 * DigitValue(t[0]) + DigitValue(t[1]);
    assert c[..2] == b;
    assert DigitsValue(c) == 100 * DigitValue(t[0]) + 10 * DigitValue(t[1]) + DigitValue(t[2]);
    assert t[..3] == c;
  }

  /** Decimal digits of `n` without leading zeros ("0" for zero), as `str(n)` writes them. */
  function NatDigits(n: nat): (s: string)
    ensures |s| >= 1 && AllDigits(s)
    ensures DigitsValue(s) == n
    ensures n < 10 <==> |s| == 1
    ensures |s| > 1 ==> s[0] != '0'
    decreases n
  {
    if n < 10 then [DigitChar(n)]
    else
      var p := NatDigits(n / 10);
      var s := p + [DigitChar(n % 10)];
      assert s[..|s| - 1] == p;
      s
  }

  /** `n` written with exactly `width` digits, zero-padded on the left. */
  function PadDigits(n: nat, width: nat): (s: string)
    decreases width
  {
    if width == 0 then []
    else PadDigits(n / 10, width - 1) + [DigitChar(n % 10)]
  }

  lemma {:induction false} PadDigitsValue(n: nat, width: nat)
    ensures |PadDigits(n, width)| == width && AllDigits(PadDigits(n, width))
    ensures n < Pow10(width) ==> DigitsValue(PadDigits(n, width)) == n
    decreases width
  {
    if width > 0 {
      PadDigitsValue(n / 10, width - 1);
      var p := PadDigits(n / 10, width - 1);
      var s := PadDigits(n, width);
      assert s[..|s| - 1] == p;
    }
  }

  /** Reading back a fixed-width digit string and padding it again gives it back. */
  lemma {:induction false} PadDigitsOfDigits(t: string)
    requires AllDigits(t)
    ensures PadDigits(DigitsValue(t), |t|) == t
    decreases |t|
  {
    if |t| > 0 {
      var p := t[..|t| - 1];
      PadDigitsOfDigits(p);
      var c := t[|t| - 1];
      assert DigitChar(DigitValue(c)) == c;
      assert t == p + [c];
    }
  }

  function Pow10(k: nat): (p: nat)
    ensures p >= 1
  {
    if k == 0 then 1 else 10 * Pow10(k - 1)
  }

  /** ASCII part of `str.lower()`. */
  function LowerChar(c: char): (l: char)
    ensures !('A' <= l <= 'Z')
    ensures l == c <==> !('A' <= c <= 'Z')
  {
    if 'A' <= c <= 'Z' then (c as int + 32) as char else c
  }

  function Lower(s: string): (l: string)
    ensures |l| == |s|
    ensures forall i :: 0 <= i < |s| ==> l[i] == LowerChar(s[i])
    ensures forall i :: 0 <= i < |l| ==> !('A' <= l[i] <= 'Z')
  {
    seq(|s|, i requires 0 <= i < |s| => LowerChar(s[i]))
  }

  /** Lower-casing twice is lower-casing once. */
  lemma LowerIdempotent(s: string)
    ensures Lower(Lower(s)) == Lower(s)
  {
  }

  /** Characters `int()` strips from both ends of its argument (the ASCII ones). */
  predicate IsSpace(c: char) {
    c == ' ' || (9 <= c as int <= 13) || (28 <= c as int <= 31)
  }

  function Strip(s: string): (t: string)
    ensures |t| <= |s|
    ensures |t| > 0 ==> !IsSpace(t[0]) && !IsSpace(t[|t| - 1])
    ensures (|s| > 0 && !IsSpace(s[0]) && !IsSpace(s[|s| - 1])) ==> t == s
    decreases |s|
  {
    if |s| == 0 then s
    else if IsSpace(s[0]) then Strip(s[1..])
    else if IsSpace(s[|s| - 1]) then Strip(s[..|s| - 1])
    else s
  }

  /** A decimal literal body: digits, with single underscores allowed
      between two digits, e.g. "1_000". */
  function DigitGroups(u: string): (r: Option<nat>)
    decreases |u|
  {
    if |u| == 0 || !IsDigit(u[|u| - 1]) then None
    else if |u| == 1 then Some(DigitValue(u[0]))
    else
      var p := if u[|u| - 2] == '_' then u[..|u| - 2] else u[..|u| - 1];
      match DigitGroups(p)
      case None => None
      case Some(v) => Some(10 * v + DigitValue(u[|u| - 1]))
  }

  /** CPython's default limit on the number of digits `int()` converts
      from text (`sys.get_int_max_str_digits()`); longer digit runs raise
      `ValueError`, as does `str()` of an integer with more digits. */
  const MaxStrDigits: nat := 4300

  /** Number of digit characters in `u` (underscores are not counted). */
  function DigitCount(u: string): (k: nat)
    ensures k <= |u|
    decreases |u|
  {
    if |u| == 0 then 0
    else DigitCount(u[..|u| - 1]) + (if IsDigit(u[|u| - 1]) then 1 else 0)
  }

  /** Integers whose decimal form has at most `MaxStrDigits` digits: the
      ones `int()` can read and `str()` can write. */
  predicate WithinDigitLimit(n: int) {
    |NatDigits(if n < 0 then -n else n)| <= MaxStrDigits
  }

  /** Python's `int(text)` in base 10: surrounding whitespace, an optional
      sign, then a digit run that may contain single underscores and holds
      at most `MaxStrDigits` digits. */
  function ParseInt(text: string): (r: Option<int>)
    ensures r.Some? ==> WithinDigitLimit(r.value)
  {
    ParseStripped(Strip(text))
  }

  /** `int()` once the surrounding whitespace is gone. */
  function ParseStripped(t: string): (r: Option<int>)
    ensures r.Some? ==> WithinDigitLimit(r.value)
  {
    var signed := |t| > 0 && (t[0] == '+' || t[0] == '-');
    var body := if signed then t[1..] else t;
    match DigitGroups(body)
    case None => None
    case Some(v) =>
      if DigitCount(body) > MaxStrDigits then None
      else
        DigitGroupsBound(body);
        NatDigitsLength(v, DigitCount(body));
        var n: int := if signed && t[0] == '-' then -(v as int) else v as int;
        Some(n)
  }

  /** A digit run with `k` digits has a value below `10^k`. */
  lemma {:induction false} DigitGroupsBound(u: string)
    requires DigitGroups(u).Some?
    ensures DigitCount(u) >= 1 && DigitGroups(u).value < Pow10(DigitCount(u))
    decreases |u|
  {
    if |u| > 1 {
      var p := if u[|u| - 2] == '_' then u[..|u| - 2] else u[..|u| - 1];
      DigitGroupsBound(p);
      var k := DigitCount(p);
      if u[|u| - 2] == '_' {
        assert u[..|u| - 1][..|u| - 2] == p;
        assert DigitCount(u[..|u| - 1]) == k;
      }
      assert DigitCount(u) == k + 1;
      var v := DigitGroups(p).value;
      assert DigitGroups(u).value == 10 * v + DigitValue(u[|u| - 1]);
      assert 10 * v + 9 < 10 * Pow10(k) by {
        assert v + 1 <= Pow10(k);
      }
    }
  }

  /** A value below `10^k` is written with at most `k` digits. */
  lemma {:induction false} NatDigitsLength(v: nat, k: nat)
    requires k >= 1 && v < Pow10(k)
    ensures |NatDigits(v)| <= k
    decreases k
  {
    if v >= 10 {
      assert k >= 2;
      assert v / 10 < Pow10(k - 1);
      NatDigitsLength(v / 10, k - 1);
      assert |NatDigits(v)| == |NatDigits(v / 10)| + 1;
    }
  }

  lemma {:induction false} DigitCountOfDigits(s: string)
    requires AllDigits(s)
    ensures DigitCount(s) == |s|
    decreases |s|
  {
    if |s| > 0 {
      DigitCountOfDigits(s[..|s| - 1]);
    }
  }

  /** A numeral longer than `MaxStrDigits` digits is refused, leading zeros
      included. */
  lemma LongNumeralsRefused(s: string)
    requires AllDigits(s) && |s| > MaxStrDigits
    ensures ParseInt(s) == None
  {
    assert Strip(s) == s;
    DigitCountOfDigits(s);
  }

  /** `str(n)` for an integer: a minus sign exactly for negative values,
      then the decimal digits of the magnitude without leading zeros. */
  function FormatInt(n: int): (s: string)
    ensures |s| >= 1 && ((n < 0) <==> s[0] == '-')
    ensures var digits := if n < 0 then s[1..] else s;
      && |digits| >= 1 && AllDigits(digits)
      && DigitsValue(digits) == (if n < 0 then -n else n)
      && (|digits| > 1 ==> digits[0] != '0')
  {
    if n < 0 then "-" + NatDigits(-n) else NatDigits(n)
  }

  lemma {:induction false} DigitGroupsOfDigits(s: string)
    requires |s| >= 1 && AllDigits(s)
    ensures DigitGroups(s) == Some(DigitsValue(s))
    decreases |s|
  {
    if |s| > 1 {
      DigitGroupsOfDigits(s[..|s| - 1]);
    }
  }

  /** Every character of `s` is stripped whitespace. */
  predicate AllSpace(s: string) {
    forall i :: 0 <= i < |s| ==> IsSpace(s[i])
  }

  /** The optional sign in front of an `int()` literal. */
  predicate IsSign(sign: string) {
    sign == "" || sign == "+" || sign == "-"
  }

  /** What is left of an `int()` argument once whitespace and sign are
      taken off: not empty, not starting with a sign, and with no
      whitespace at either end. */
  predicate IsIntBody(u: string) {
    && |u| > 0
    && !IsSpace(u[0]) && !IsSpace(u[|u| - 1])
    && u[0] != '+' && u[0] != '-'
  }

  function SignedValue(sign: string, v: nat): int {
    if sign == "-" then -(v as int) else v
  }

  /** Stripping whitespace from both ends of a text whose core has none at
      its ends gives the core back. */
  lemma {:induction false} StripPadded(lead: string, core: string, trail: string)
    requires AllSpace(lead) && AllSpace(trail)
    requires |core| > 0 && !IsSpace(core[0]) && !IsSpace(core[|core| - 1])
    ensures Strip(lead + core + trail) == core
    decreases |lead| + |trail|
  {
    var s := lead + core + trail;
    if |lead| > 0 {
      assert IsSpace(s[0]);
      assert s[1..] == lead[1..] + core + trail;
      StripPadded(lead[1..], core, trail);
    } else if |trail| > 0 {
      assert s[0] == core[0];
      assert IsSpace(s[|s| - 1]);
      assert s[..|s| - 1] == lead + core + trail[..|trail| - 1];
      StripPadded(lead, core, trail[..|trail| - 1]);
    } else {
      assert s == core;
    }
  }

  /** Stripping only removes whitespace from the two ends: it keeps
      `s[a..b]` and drops `s[..a]` and `s[b..]`. */
  lemma {:induction false} StripIsInfix(s: string) returns (a: nat, b: nat)
    ensures a <= b <= |s| && Strip(s) == s[a..b]
    ensures AllSpace(s[..a]) && AllSpace(s[b..])
    decreases |s|
  {
    if |s| == 0 || (!IsSpace(s[0]) && !IsSpace(s[|s| - 1])) {
      a, b := 0, |s|;
    } else if IsSpace(s[0]) {
      var a', b' := StripIsInfix(s[1..]);
      SpaceBeforeInfix(s, a', b');
      a, b := a' + 1, b' + 1;
    } else {
      var a', b' := StripIsInfix(s[..|s| - 1]);
      SpaceAfterInfix(s, a', b');
      a, b := a', b';
    }
  }

  lemma SpaceBeforeInfix(s: string, a: nat, b: nat)
    requires |s| > 0 && IsSpace(s[0]) && a <= b <= |s| - 1
    requires AllSpace(s[1..][..a]) && AllSpace(s[1..][b..])
    ensures s[1..][a..b] == s[a + 1..b + 1]
    ensures AllSpace(s[..a + 1]) && AllSpace(s[b + 1..])
  {
    assert s[1..][b..] == s[b + 1..];
    assert s[..a + 1] == [s[0]] + s[1..][..a];
  }

  lemma SpaceAfterInfix(s: string, a: nat, b: nat)
    requires |s| > 0 && IsSpace(s[|s| - 1]) && a <= b <= |s| - 1
    requires AllSpace(s[..|s| - 1][..a]) && AllSpace(s[..|s| - 1][b..])
    ensures s[..|s| - 1][a..b] == s[a..b]
    ensures AllSpace(s[..a]) && AllSpace(s[b..])
  {
    assert s[..|s| - 1][..a] == s[..a];
    assert forall i :: 0 <= i < |s| - 1 - b ==> s[b..][i] == s[..|s| - 1][b..][i];
  }

  /** A digit run accepted by `DigitGroups` starts with a digit. */
  lemma {:induction false} DigitGroupsStartsWithDigit(u: string)
    requires DigitGroups(u).Some?
    ensures |u| > 0 && IsDigit(u[0]) && IsDigit(u[|u| - 1])
    decreases |u|
  {
    if |u| > 1 {
      var p := if u[|u| - 2] == '_' then u[..|u| - 2] else u[..|u| - 1];
      DigitGroupsStartsWithDigit(p);
      assert u[0] == p[0];
    }
  }

  /** Which texts `int()` reads: whitespace, an optional sign, a body that
      is a digit run with single underscores of at most `MaxStrDigits`
      digits, whitespace; the value is the signed value of the run. */
  lemma ParseIntForms(lead: string, sign: string, u: string, trail: string)
    requires AllSpace(lead) && AllSpace(trail) && IsSign(sign) && IsIntBody(u)
    ensures ParseInt(lead + sign + u + trail)
      == (if DigitGroups(u).Some? && DigitCount(u) <= MaxStrDigits
          then Some(SignedValue(sign, DigitGroups(u).value)) else None)
  {
    var text := lead + sign + u + trail;
    assert text == lead + (sign + u) + trail;
    StripPadded(lead, sign + u, trail);
    ParseSignedBody(sign, u);
  }

  /** `int()` on a sign followed by an integer body. */
  lemma ParseSignedBody(sign: string, u: string)
    requires IsSign(sign) && IsIntBody(u)
    ensures ParseStripped(sign + u)
      == (if DigitGroups(u).Some? && DigitCount(u) <= MaxStrDigits
          then Some(SignedValue(sign, DigitGroups(u).value)) else None)
  {
    var t := sign + u;
    if sign == "" {
      assert t == u;
    } else {
      assert t[0] == sign[0] && t[1..] == u;
      assert sign == "-" <==> t[0] == '-';
    }
  }

  /** Every text `int()` reads has the shape `ParseIntForms` describes. */
  lemma ParseIntSound(text: string)
    requires ParseInt(text).Some?
    ensures exists lead, sign, u, trail ::
              && text == lead + sign + u + trail
              && AllSpace(lead) && AllSpace(trail) && IsSign(sign) && IsIntBody(u)
              && DigitGroups(u).Some? && DigitCount(u) <= MaxStrDigits
              && ParseInt(text).value == SignedValue(sign, DigitGroups(u).value)
  {
    var i, j := StripIsInfix(text);
    var sign, u := SignAndBody(Strip(text));
    var lead, trail := text[..i], text[j..];
    SplitAround(text, i, j, sign, u);
  }

  lemma SplitAround(s: string, i: nat, j: nat, sign: string, u: string)
    requires i <= j <= |s| && s[i..j] == sign + u
    ensures s == s[..i] + sign + u + s[j..]
  {
    assert s == s[..i] + s[i..j] + s[j..];
  }

  /** The stripped text `int()` reads is an optional sign and an integer
      body. */
  lemma SignAndBody(t: string) returns (sign: string, u: string)
    requires ParseStripped(t).Some?
    ensures t == sign + u && IsSign(sign) && IsIntBody(u)
    ensures DigitGroups(u).Some? && DigitCount(u) <= MaxStrDigits
    ensures ParseStripped(t).value == SignedValue(sign, DigitGroups(u).value)
  {
    if |t| > 0 && (t[0] == '+' || t[0] == '-') {
      sign, u := [t[0]], t[1..];
      assert t == sign + u;
    } else {
      sign, u := "", t;
    }
    DigitGroupsStartsWithDigit(u);
  }

  /** `int(str(n)) == n` for every integer within the digit limit: integer
      text written by the model reads back unchanged. */
  lemma ParseFormatInt(n: int)
    requires WithinDigitLimit(n)
    ensures ParseInt(FormatInt(n)) == Some(n)
  {
    var sign, d := FormatIntParts(n);
    ParseIntForms("", sign, d, "");
    assert "" + sign + d + "" == sign + d;
  }

  /** `str(n)` is a sign and a digit body that `int()` reads as |n|. */
  lemma FormatIntParts(n: int) returns (sign: string, d: string)
    requires WithinDigitLimit(n)
    ensures FormatInt(n) == sign + d && IsSign(sign) && IsIntBody(d)
    ensures DigitGroups(d).Some? && DigitCount(d) <= MaxStrDigits
    ensures SignedValue(sign, DigitGroups(d).value) == n
  {
    if n < 0 {
      sign, d := "-", NatDigits(-n);
    } else {
      sign, d := "", NatDigits(n);
      assert sign + d == d;
    }
    DigitGroupsOfDigits(d);
    DigitCountOfDigits(d);
  }
}
