/** Models of the JavaScript built-ins that the payload codec and the app rely on:
    String.prototype.substring, padStart and toUpperCase, Number.prototype.toString(radix),
    parseInt, Array.prototype.filter and findIndex. */
module JsBuiltins {

  /** A JavaScript number as this code meets it: a non-negative integer, or NaN (what
      parseInt gives when there is no digit, and what any sum with NaN gives). */
  datatype Num = Int(value: nat) | NaN

  /** JavaScript's a + b for a non-negative integer a. */
  function Add(a: nat, b: Num): (r: Num)
    ensures r.Int? <==> b.Int?
    ensures r.Int? ==> r.value >= a
  {
    match b
    case Int(n) => Int(a + n)
    case NaN => NaN
  }

  /** substring clamps each end into [0, |s|]. */
  function Clamp(x: int, len: nat): nat {
    if x < 0 then 0 else if x > len then len else x
  }

  /** String.prototype.substring(start, end): both ends clamped, swapped when start > end. */
  function Substring(s: string, start: int, end: int): string {
    var a := Clamp(start, |s|);
    var b := Clamp(end, |s|);
    if a <= b then s[a..b] else s[b..a]
  }

  /** substring with an end that may be NaN, which substring reads as 0. */
  function SubstringTo(s: string, start: int, end: Num): string {
    Substring(s, start, if end.Int? then end.value else 0)
  }

  lemma SubstringInRange(s: string, start: int, end: int)
    requires 0 <= start <= end <= |s|
    ensures Substring(s, start, end) == s[start..end]
  {
  }

  lemma SubstringOfConcat(a: string, b: string, c: string, start: int, end: int)
    requires start == |a| && end == |a| + |b|
    ensures Substring(a + b + c, start, end) == b
  {
    assert (a + b + c)[start..end] == b;
  }

  // ---------------------------------------------------------------------------
  // Digits

  const LowerDigits := "0123456789abcdef"

  predicate IsDecimalDigit(c: char) {
    '0' <= c <= '9'
  }

  predicate IsUpperHexDigit(c: char) {
    '0' <= c <= '9' || 'A' <= c <= 'F'
  }

  /** The value of a digit character in any radix up to 16, either case. */
  function DigitValue(c: char): nat {
    if '0' <= c <= '9' then c as nat - '0' as nat
    else if 'a' <= c <= 'f' then c as nat - 'a' as nat + 10
    else if 'A' <= c <= 'F' then c as nat - 'A' as nat + 10
    else 0
  }

  /** Every character of s is a digit of the given radix (lower case, as toString emits). */
  predicate AreDigits(s: string, radix: nat)
    requires 2 <= radix <= 16
  {
    forall k :: 0 <= k < |s| ==> s[k] in LowerDigits[..radix]
  }

  function Pow(b: nat, k: nat): nat {
    if k == 0 then 1 else b * Pow(b, k - 1)
  }

  /** The number a digit string denotes, most significant digit first. */
  function RadixValue(s: string, radix: nat): nat {
    if s == [] then 0 else RadixValue(s[..|s| - 1], radix) * radix + DigitValue(s[|s| - 1])
  }

  /** Number.prototype.toString(radix) on a non-negative integer: the shortest digit
      string, lower-case letters, no sign. */
  function ToRadix(n: nat, radix: nat): string
    requires 2 <= radix <= 16
    decreases n
  {
    if n < radix then [LowerDigits[n]] else ToRadix(n / radix, radix) + [LowerDigits[n % radix]]
  }

  /** Number.prototype.toString() on a non-negative integer. */
  function Decimal(n: nat): string {
    ToRadix(n, 10)
  }

  lemma LowerDigitValue(d: nat)
    requires d < 16
    ensures DigitValue(LowerDigits[d]) == d
  {
  }

  /** toString(radix) is read back by the positional value. */
  lemma {:induction false} ToRadixValue(n: nat, radix: nat)
    requires 2 <= radix <= 16
    ensures RadixValue(ToRadix(n, radix), radix) == n
    decreases n
  {
    var s := ToRadix(n, radix);
    if n < radix {
      LowerDigitValue(n);
      assert s[..0] == [];
    } else {
      var q, d := n / radix, n % radix;
      DivMod(n, radix);
      ToRadixValue(q, radix);
      LowerDigitValue(d);
      assert s[..|s| - 1] == ToRadix(q, radix);
    }
  }

  /** toString(radix) uses only that radix's digits. */
  lemma {:induction false} ToRadixDigits(n: nat, radix: nat)
    requires 2 <= radix <= 16
    ensures AreDigits(ToRadix(n, radix), radix)
    decreases n
  {
    if n >= radix {
      var s, t := ToRadix(n, radix), ToRadix(n / radix, radix);
      DivMod(n, radix);
      ToRadixDigits(n / radix, radix);
      forall k | 0 <= k < |s| ensures s[k] in LowerDigits[..radix] {
        if k < |t| { assert s[k] == t[k]; }
      }
    }
  }

  /** toString(radix) is never empty and has no leading zero. */
  lemma {:induction false} ToRadixLeading(n: nat, radix: nat)
    requires 2 <= radix <= 16
    ensures |ToRadix(n, radix)| >= 1
    ensures ToRadix(n, radix)[0] == '0' <==> n == 0
    decreases n
  {
    if n >= radix {
      DivMod(n, radix);
      ToRadixLeading(n / radix, radix);
    }
  }

  lemma DivMod(n: nat, b: nat)
    requires b >= 2
    ensures n == (n / b) * b + n % b && 0 <= n % b < b
    ensures n >= b ==> 0 < n / b < n
  {
  }

  /** toString(radix) has at most k digits exactly when the number is below radix^k. */
  lemma {:induction false} ToRadixLength(n: nat, radix: nat, k: nat)
    requires 2 <= radix <= 16 && k >= 1
    ensures |ToRadix(n, radix)| <= k <==> n < Pow(radix, k)
    decreases n
  {
    if n < radix {
      PowAtLeast(radix, k);
    } else {
      if k == 1 {
        assert Pow(radix, 1) == radix;
        ToRadixLeading(n / radix, radix);
      } else {
        ToRadixLength(n / radix, radix, k - 1);
        DivBelowPow(n, radix, k);
      }
    }
  }

  lemma PowAtLeast(b: nat, k: nat)
    requires b >= 2 && k >= 1
    ensures Pow(b, k) >= b
  {
    if k > 1 { PowAtLeast(b, k - 1); }
  }

  lemma DivBelowPow(n: nat, b: nat, k: nat)
    requires b >= 2 && k >= 1
    ensures n / b < Pow(b, k - 1) <==> n < Pow(b, k)
  {
    var p := Pow(b, k - 1);
    assert Pow(b, k) == b * p;
    var q, r := n / b, n % b;
    DivMod(n, b);
    if q < p {
      assert q <= p - 1;
      MulLe(q, p - 1, b);
      assert (p - 1) * b == p * b - b;
    } else {
      MulLe(p, q, b);
    }
  }

  lemma MulLe(x: nat, y: nat, b: nat)
    requires x <= y
    ensures x * b <= y * b
  {
  }

  // ---------------------------------------------------------------------------
  // padStart and toUpperCase

  function Repeat(c: char, n: nat): (r: string)
    ensures |r| == n && forall k :: 0 <= k < n ==> r[k] == c
  {
    if n == 0 then [] else [c] + Repeat(c, n - 1)
  }

  /** String.prototype.padStart(width, fill) with a one-character fill. */
  function PadStart(s: string, width: nat, fill: char): string {
    if |s| >= width then s else Repeat(fill, width - |s|) + s
  }

  /** String.prototype.toUpperCase restricted to what it does to ASCII letters. */
  function ToUpper(s: string): (r: string)
    ensures |r| == |s|
    ensures forall k :: 0 <= k < |s| ==> r[k] == UpperChar(s[k])
  {
    if s == [] then [] else [UpperChar(s[0])] + ToUpper(s[1..])
  }

  function UpperChar(c: char): char {
    if 'a' <= c <= 'z' then (c as int - 'a' as int + 'A' as int) as char else c
  }

  /** toUpperCase turns lower-case hexadecimal digits into upper-case ones. */
  lemma UpperHexDigits(s: string)
    requires AreDigits(s, 16)
    ensures forall k :: 0 <= k < |s| ==> IsUpperHexDigit(ToUpper(s)[k])
  {
    forall k | 0 <= k < |s| ensures IsUpperHexDigit(ToUpper(s)[k]) {
      UpperHexChar(s[k]);
    }
  }

  lemma UpperHexChar(c: char)
    requires c in LowerDigits[..16]
    ensures IsUpperHexDigit(UpperChar(c))
  {
    assert LowerDigits[..16] == LowerDigits;
  }

  /** Padding with '0' keeps a string of upper-case hexadecimal digits one. */
  lemma PadDigits(s: string, width: nat)
    requires forall k :: 0 <= k < |s| ==> IsUpperHexDigit(s[k])
    ensures forall k :: 0 <= k < |PadStart(s, width, '0')| ==> IsUpperHexDigit(PadStart(s, width, '0')[k])
  {
    if |s| < width {
      var z := Repeat('0', width - |s|);
      forall k | 0 <= k < |z + s| ensures IsUpperHexDigit((z + s)[k]) {
        if k >= |z| { assert (z + s)[k] == s[k - |z|]; }
      }
    }
  }

  lemma {:induction false} LeadingZerosValue(s: string, n: nat, radix: nat)
    ensures RadixValue(Repeat('0', n) + s, radix) == RadixValue(s, radix)
    decreases n, |s|
  {
    if s == [] {
      if n > 0 {
        var z := Repeat('0', n);
        assert z[..n - 1] == Repeat('0', n - 1);
        assert (z + s) == z;
        LeadingZerosValue([], n - 1, radix);
        assert Repeat('0', n - 1) + [] == Repeat('0', n - 1);
      }
    } else {
      var t := s[..|s| - 1];
      assert (Repeat('0', n) + s)[..|Repeat('0', n) + s| - 1] == Repeat('0', n) + t;
      LeadingZerosValue(t, n, radix);
    }
  }

  lemma {:induction false} UpperValue(s: string, radix: nat)
    ensures RadixValue(ToUpper(s), radix) == RadixValue(s, radix)
    decreases |s|
  {
    if s != [] {
      var t := s[..|s| - 1];
      assert ToUpper(s)[..|s| - 1] == ToUpper(t);
      UpperValue(t, radix);
    }
  }

  // ---------------------------------------------------------------------------
  // parseInt

  /** The longest prefix of decimal digits. */
  function LeadingDigits(s: string): string {
    if s == [] || !IsDecimalDigit(s[0]) then [] else [s[0]] + LeadingDigits(s[1..])
  }

  /** The leading digits are a prefix of s, all decimal digits, and followed by a character
      that is not one (or by nothing). */
  lemma {:induction false} LeadingDigitsSpec(s: string)
    ensures var r := LeadingDigits(s);
      && |r| <= |s| && r == s[..|r|]
      && (forall k :: 0 <= k < |r| ==> IsDecimalDigit(r[k]))
      && (|r| < |s| ==> !IsDecimalDigit(s[|r|]))
  {
    if s != [] && IsDecimalDigit(s[0]) {
      LeadingDigitsSpec(s[1..]);
      var t := LeadingDigits(s[1..]);
      assert LeadingDigits(s) == [s[0]] + t;
    }
  }

  /** parseInt(s, 10) for a string whose first character is a digit or cannot start a
      number: the value of the leading digits ("4x" gives 4), NaN when there are none. */
  function ParseInt(s: string): Num {
    var d := LeadingDigits(s);
    if d == [] then NaN else Int(RadixValue(d, 10))
  }

  /** The leading digits of a string of decimal digits are the whole string. */
  lemma {:induction false} AllLeadingDigits(s: string)
    requires forall k :: 0 <= k < |s| ==> IsDecimalDigit(s[k])
    ensures LeadingDigits(s) == s
    decreases |s|
  {
    if s != [] {
      AllLeadingDigits(s[1..]);
    }
  }

  /** A string of decimal digits parses to its own value. */
  lemma ParseDigits(s: string)
    requires s != [] && forall k :: 0 <= k < |s| ==> IsDecimalDigit(s[k])
    ensures ParseInt(s) == Int(RadixValue(s, 10))
  {
    AllLeadingDigits(s);
  }

  /** k decimal digits denote a number below 10^k. */
  lemma {:induction false} DigitsBelow(s: string)
    requires forall k :: 0 <= k < |s| ==> IsDecimalDigit(s[k])
    ensures RadixValue(s, 10) < Pow(10, |s|)
    decreases |s|
  {
    if s != [] {
      var t := s[..|s| - 1];
      DigitsBelow(t);
      assert IsDecimalDigit(s[|s| - 1]);
      MulLe(RadixValue(t, 10), Pow(10, |t|) - 1, 10);
    }
  }

  lemma {:induction false} PowMono(i: nat, j: nat)
    requires i <= j
    ensures Pow(10, i) <= Pow(10, j)
    decreases j
  {
    if i < j {
      PowMono(i, j - 1);
    }
  }

  predicate IsHexDigit(c: char) {
    IsDecimalDigit(c) || 'a' <= c <= 'f' || 'A' <= c <= 'F'
  }

  /** The longest prefix of hexadecimal digits, either case. */
  function LeadingHexDigits(s: string): string {
    if s == [] || !IsHexDigit(s[0]) then [] else [s[0]] + LeadingHexDigits(s[1..])
  }

  /** A "0x" or "0X" prefix, which makes parseInt without a radix read base 16. */
  predicate HexPrefixed(s: string) {
    |s| >= 2 && s[0] == '0' && (s[1] == 'x' || s[1] == 'X')
  }

  /** parseInt(s) with no radix, for a string whose first character is a digit or cannot
      start a number: after a "0x" or "0X" prefix, the value of the hexadecimal digits that
      follow ("0x" alone gives NaN); otherwise parseInt(s, 10). */
  function ParseIntNoRadix(s: string): Num {
    if HexPrefixed(s) then
      var d := LeadingHexDigits(s[2..]);
      if d == [] then NaN else Int(RadixValue(d, 16))
    else ParseInt(s)
  }

  /** parseInt without a radix on a few inputs: the prefix alone is NaN, a prefix with
      digits is read in base 16, and a leading zero without the prefix is decimal. */
  lemma ParseIntNoRadixExamples()
    ensures ParseIntNoRadix("0x") == NaN && ParseIntNoRadix("0X") == NaN
    ensures ParseIntNoRadix("0x1A") == Int(26)
    ensures ParseIntNoRadix("08") == Int(8)
  {
    assert "0x1A"[2..] == "1A";
    assert "1A"[1..] == "A";
    assert LeadingHexDigits("A") == "A";
    assert LeadingHexDigits("1A") == "1A";
    assert "1A"[..1] == "1";
    assert "1"[..0] == [];
    ParseTwoDigits('0', '8');
  }

  /** parseInt of a string of at most two characters, written out case by case: NaN when
      the first character is not a digit or the string is "0x" or "0X", the first digit's
      value when only it is a digit, and the two digits' value otherwise. */
  function ParseTwo(s: string): (r: Num)
    ensures r.Int? ==> r.value < 100
  {
    if |s| == 0 || !IsDecimalDigit(s[0]) || HexPrefixed(s) then NaN
    else if |s| == 1 || !IsDecimalDigit(s[1]) then Int(DigitValue(s[0]))
    else Int(DigitValue(s[0]) * 10 + DigitValue(s[1]))
  }

  /** On at most two characters, the case-by-case parse is parseInt without a radix. */
  lemma ParseTwoAgrees(s: string)
    requires |s| <= 2
    ensures ParseTwo(s) == ParseIntNoRadix(s)
  {
    if HexPrefixed(s) {
      assert s[2..] == [];
    } else if |s| >= 1 && IsDecimalDigit(s[0]) {
      if |s| == 1 || !IsDecimalDigit(s[1]) {
        ParseOneDigit(s);
      } else {
        assert s == [s[0], s[1]];
        ParseTwoDigits(s[0], s[1]);
      }
    }
  }

  /** A digit followed by nothing or by a non-digit parses to the digit's value. */
  lemma ParseOneDigit(s: string)
    requires |s| >= 1 && IsDecimalDigit(s[0]) && (|s| == 1 || !IsDecimalDigit(s[1]))
    ensures ParseInt(s) == Int(DigitValue(s[0]))
  {
    var t := s[1..];
    assert t == [] || !IsDecimalDigit(t[0]);
    assert LeadingDigits(t) == [];
    assert LeadingDigits(s) == [s[0]];
    assert [s[0]][..0] == [];
    assert RadixValue([s[0]], 10) == DigitValue(s[0]);
  }

  /** substring with start <= end gives at most end - start characters. */
  lemma SubstringWidth(s: string, start: int, end: int)
    requires start <= end
    ensures |Substring(s, start, end)| <= end - start
  {
  }

  /** Two decimal digits parse to their two-digit value. */
  lemma ParseTwoDigits(a: char, b: char)
    requires IsDecimalDigit(a) && IsDecimalDigit(b)
    ensures ParseInt([a, b]) == Int(DigitValue(a) * 10 + DigitValue(b))
  {
    assert [a, b][1..] == [b];
    assert [b][1..] == [];
    assert LeadingDigits([b]) == [b];
    assert LeadingDigits([a, b]) == [a, b];
    assert [a, b][..1] == [a];
    assert [a][..0] == [];
    assert RadixValue([a], 10) == DigitValue(a);
  }

  /** A decimal digit is the lower-case digit of its own value. */
  lemma DigitChar(c: char)
    requires IsDecimalDigit(c)
    ensures DigitValue(c) < 10 && LowerDigits[DigitValue(c)] == c
  {
  }

  /** Two decimal digits are how toString and padStart(2, '0') write their value. */
  lemma TwoDigitText(a: char, b: char)
    requires IsDecimalDigit(a) && IsDecimalDigit(b)
    ensures PadStart(Decimal(DigitValue(a) * 10 + DigitValue(b)), 2, '0') == [a, b]
  {
    DigitChar(a);
    DigitChar(b);
    var x, y := DigitValue(a), DigitValue(b);
    var n := x * 10 + y;
    if x == 0 {
      assert Decimal(n) == [LowerDigits[y]];
    } else {
      assert n / 10 == x && n % 10 == y;
      assert ToRadix(x, 10) == [LowerDigits[x]];
      assert Decimal(n) == [LowerDigits[x], LowerDigits[y]];
    }
  }

  /** A length of 0-99 written the way the serialiser writes it (toString, then
      padStart(2, '0')) is two characters that parse back to the length. */
  lemma TwoDigitRoundTrip(n: nat)
    requires n < 100
    ensures |PadStart(Decimal(n), 2, '0')| == 2
    ensures ParseIntNoRadix(PadStart(Decimal(n), 2, '0')) == Int(n)
    ensures ParseTwo(PadStart(Decimal(n), 2, '0')) == Int(n)
  {
    if n < 10 {
      var d := LowerDigits[n];
      assert Decimal(n) == [d];
      LowerDigitValue(n);
      assert PadStart([d], 2, '0') == ['0', d];
      ParseTwoDigits('0', d);
    } else {
      var q, r := n / 10, n % 10;
      assert ToRadix(q, 10) == [LowerDigits[q]];
      assert Decimal(n) == [LowerDigits[q], LowerDigits[r]];
      LowerDigitValue(q);
      LowerDigitValue(r);
      ParseTwoDigits(LowerDigits[q], LowerDigits[r]);
    }
    ParseTwoAgrees(PadStart(Decimal(n), 2, '0'));
  }

  // ---------------------------------------------------------------------------
  // Array.prototype.filter and findIndex

  /** Array.prototype.filter. */
  function Filter<T>(s: seq<T>, keep: T -> bool): (r: seq<T>)
    ensures |r| <= |s|
  {
    if s == [] then [] else (if keep(s[0]) then [s[0]] else []) + Filter(s[1..], keep)
  }

  /** filter distributes over concatenation: together with the value on one element this
      pins filter down as "keep the kept elements, in their original order". */
  lemma {:induction false} FilterConcat<T>(a: seq<T>, b: seq<T>, keep: T -> bool)
    ensures Filter(a + b, keep) == Filter(a, keep) + Filter(b, keep)
  {
    if a != [] {
      assert (a + b)[0] == a[0];
      assert (a + b)[1..] == a[1..] + b;
      FilterConcat(a[1..], b, keep);
    } else {
      assert a + b == b;
    }
  }

  /** Every element filter keeps passes the test. */
  lemma {:induction false} FilterKept<T>(s: seq<T>, keep: T -> bool)
    ensures forall k :: 0 <= k < |Filter(s, keep)| ==> keep(Filter(s, keep)[k])
  {
    if s != [] {
      FilterKept(s[1..], keep);
    }
  }

  /** Every element filter keeps comes from s. */
  lemma {:induction false} FilterKeptFrom<T>(s: seq<T>, keep: T -> bool)
    ensures forall k :: 0 <= k < |Filter(s, keep)| ==> Filter(s, keep)[k] in s
  {
    if s != [] {
      FilterKeptFrom(s[1..], keep);
    }
  }

  /** Every element of s that passes the test is kept. */
  lemma {:induction false} FilterKeepsPassing<T>(s: seq<T>, keep: T -> bool)
    ensures forall k :: 0 <= k < |s| && keep(s[k]) ==> s[k] in Filter(s, keep)
  {
    if s != [] {
      FilterKeepsPassing(s[1..], keep);
      forall k | 0 <= k < |s| && keep(s[k])
        ensures s[k] in Filter(s, keep)
      {
        if k > 0 {
          assert s[k] == s[1..][k - 1];
        }
      }
    }
  }

  lemma FilterSingle<T>(x: T, keep: T -> bool)
    ensures Filter([x], keep) == if keep(x) then [x] else []
  {
    assert [x][1..] == [];
  }

  /** Array.prototype.findIndex: the first index whose element satisfies p, or -1. */
  function FindIndex<T>(s: seq<T>, p: T -> bool): (r: int)
    ensures -1 <= r < |s|
    ensures r >= 0 ==> p(s[r]) && forall j :: 0 <= j < r ==> !p(s[j])
    ensures r == -1 <==> forall j :: 0 <= j < |s| ==> !p(s[j])
  {
    if s == [] then -1
    else if p(s[0]) then 0
    else
      var k := FindIndex(s[1..], p);
      if k == -1 then -1 else k + 1
  }

  /** findIndex on an array with one more element at the end finds the same index, or the
      new last one. */
  lemma {:induction false} FindIndexAppend<T>(s: seq<T>, x: T, p: T -> bool)
    ensures var k := FindIndex(s, p);
      FindIndex(s + [x], p) == if k != -1 then k else if p(x) then |s| else -1
  {
    if s != [] {
      assert (s + [x])[1..] == s[1..] + [x];
      FindIndexAppend(s[1..], x, p);
    }
  }
}
