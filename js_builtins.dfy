/**
 * The few ECMAScript built-ins that the greeting card's logic relies on, on
 * unbounded integers and strings of characters: String.prototype.trim,
 * String.prototype.replace with a one-character pattern, the global parseInt,
 * the ToInt32 conversion behind the bitwise operators, and
 * Number.prototype.toString(16) on non-negative integers.
 */
module JsBuiltins {
  import opened Wrappers

  // ---------------------------------------------------------------------
  // White space and trim
  // ---------------------------------------------------------------------

  /** ECMAScript WhiteSpace and LineTerminator code points: what trim strips
      and what parseInt skips before the number. */
  predicate IsWhitespace(c: char) {
    c == '\t' || c == '\n' || c == '\U{0B}' || c == '\U{0C}' || c == '\r' ||
    c == ' ' || c == '\U{A0}' || c == '\U{1680}' ||
    ('\U{2000}' <= c <= '\U{200A}') ||
    c == '\U{2028}' || c == '\U{2029}' || c == '\U{202F}' || c == '\U{205F}' ||
    c == '\U{3000}' || c == '\U{FEFF}'
  }

  /** Drops the white space at the front: the result is the suffix of `s`
      that starts at its first non-white-space character. */
  function TrimStart(s: string): (r: string)
    ensures |r| <= |s| && r == s[|s| - |r|..]
    ensures forall k :: 0 <= k < |s| - |r| ==> IsWhitespace(s[k])
    ensures r == [] || !IsWhitespace(r[0])
  {
    if s != [] && IsWhitespace(s[0]) then TrimStart(s[1..]) else s
  }

  /** Drops the white space at the back: the result is the prefix of `s`
      that ends at its last non-white-space character. */
  function TrimEnd(s: string): (r: string)
    ensures |r| <= |s| && r == s[..|r|]
    ensures forall k :: |r| <= k < |s| ==> IsWhitespace(s[k])
    ensures r == [] || !IsWhitespace(r[|r| - 1])
  {
    if s != [] && IsWhitespace(s[|s| - 1]) then TrimEnd(s[..|s| - 1]) else s
  }

  predicate AllWhitespace(s: string) {
    forall k :: 0 <= k < |s| ==> IsWhitespace(s[k])
  }

  /** Neither end of the string is white space. */
  predicate Unpadded(s: string) {
    s == [] || (!IsWhitespace(s[0]) && !IsWhitespace(s[|s| - 1]))
  }

  /** String.prototype.trim. */
  function Trim(s: string): (r: string)
    ensures |r| <= |s|
    ensures Unpadded(r)
    ensures r == [] <==> AllWhitespace(s)
  {
    var t := TrimStart(s);
    var r := TrimEnd(t);
    r
  }

  /** trim keeps a contiguous piece of the input and drops only the white
      space before and after it. */
  lemma TrimInfix(s: string)
    ensures exists i, j :: (0 <= i <= j <= |s| && Trim(s) == s[i..j] &&
      (forall k :: 0 <= k < i ==> IsWhitespace(s[k])) &&
      (forall k :: j <= k < |s| ==> IsWhitespace(s[k])))
  {
    var t := TrimStart(s);
    var r := Trim(s);
    var i := |s| - |t|;
    var j := i + |r|;
    assert t == s[i..] && r == t[..|r|] && r == TrimEnd(t);
    assert r == s[i..j];
    assert forall k :: j <= k < |s| ==> IsWhitespace(t[k - i]) && t[k - i] == s[k];
  }

  /** trim leaves a string alone when it neither starts nor ends with white space. */
  lemma TrimUnpadded(s: string)
    requires Unpadded(s)
    ensures Trim(s) == s
  {
  }

  /** trim removes any white space added around a string, and trimming twice
      is trimming once. */
  lemma TrimIdempotent(s: string)
    ensures Trim(Trim(s)) == Trim(s)
  {
    TrimUnpadded(Trim(s));
  }

  // ---------------------------------------------------------------------
  // String.prototype.replace with a one-character string pattern
  // ---------------------------------------------------------------------

  /** replace(c, '') removes the FIRST occurrence of `c` only. */
  function RemoveFirst(s: string, c: char): (r: string)
    ensures c !in s ==> r == s
    ensures c in s ==> |r| == |s| - 1
    ensures s != [] && s[0] == c ==> r == s[1..]
    ensures multiset(r) == multiset(s) - multiset{c}
  {
    if s == [] then []
    else if s[0] == c then
      assert s == [c] + s[1..];
      assert multiset(s) == multiset{c} + multiset(s[1..]);
      s[1..]
    else
      var rest := RemoveFirst(s[1..], c);
      assert s == [s[0]] + s[1..];
      assert (c in s) == (c in s[1..]);
      assert multiset(s) == multiset{s[0]} + multiset(s[1..]);
      assert multiset([s[0]] + rest) == multiset{s[0]} + multiset(rest);
      [s[0]] + rest
  }

  /** The occurrence removed is the first one, and the characters around it
      keep their order: for `a` free of `c`, a + [c] + b becomes a + b. */
  lemma {:induction false} RemoveFirstSplit(a: string, c: char, b: string)
    requires c !in a
    ensures RemoveFirst(a + [c] + b, c) == a + b
  {
    if a == [] {
      assert a + [c] + b == [c] + b;
    } else {
      var s := a + [c] + b;
      ConsAppend(a, c, b);
      assert s[0] == a[0] != c;
      assert s[1..] == a[1..] + [c] + b;
      assert RemoveFirst(s, c) == [a[0]] + RemoveFirst(s[1..], c);
      assert c !in a[1..] by {
        assert forall i :: 0 <= i < |a| - 1 ==> a[1..][i] == a[i + 1];
      }
      RemoveFirstSplit(a[1..], c, b);
    }
  }

  /** Taking the head off a non-empty front part of a concatenation. */
  lemma ConsAppend<T>(a: seq<T>, x: T, b: seq<T>)
    requires a != []
    ensures a + [x] + b == [a[0]] + (a[1..] + [x] + b)
    ensures a + b == [a[0]] + (a[1..] + b)
  {
    assert a == [a[0]] + a[1..];
  }

  // ---------------------------------------------------------------------
  // Digits and positional values
  // ---------------------------------------------------------------------

  function Pow(base: nat, k: nat): (p: nat)
    ensures base > 0 ==> p > 0
  {
    if k == 0 then 1 else base * Pow(base, k - 1)
  }

  /** The value of a digit character in bases up to 36 ('0'-'9', then 'a'-'z'
      or 'A'-'Z' for 10-35), and 36 ("no digit") for any other character. */
  function DigitValue(c: char): (d: nat)
    ensures d <= 36
    ensures d < 10 <==> '0' <= c <= '9'
  {
    if '0' <= c <= '9' then c as int - '0' as int
    else if 'a' <= c <= 'z' then c as int - 'a' as int + 10
    else if 'A' <= c <= 'Z' then c as int - 'A' as int + 10
    else 36
  }

  predicate IsDigitIn(c: char, base: nat) {
    DigitValue(c) < base
  }

  predicate AllDigitsIn(s: string, base: nat) {
    forall i :: 0 <= i < |s| ==> IsDigitIn(s[i], base)
  }

  /** The lower-case hexadecimal digits, the alphabet of toString(16). */
  predicate IsLowerHexDigit(c: char) {
    '0' <= c <= '9' || 'a' <= c <= 'f'
  }

  /** The value of a string of digits in `base`, most significant first. */
  function Value(s: string, base: nat): (v: nat)
    ensures AllDigitsIn(s, base) ==> v < Pow(base, |s|)
  {
    if s == [] then 0
    else
      var front := Value(s[..|s| - 1], base);
      var d := DigitValue(s[|s| - 1]);
      var v := front * base + d;
      assert v >= 0 by {
        assert front * base >= 0;
      }
      assert AllDigitsIn(s, base) ==> v < Pow(base, |s|) by {
        if AllDigitsIn(s, base) {
          InitDigits(s, base);
          PlaceBound(front, d, base, Pow(base, |s| - 1));
          PowSucc(base, |s| - 1);
        }
      }
      v
  }

  /** Dropping the last digit of a digit string leaves a digit string. */
  lemma InitDigits(s: string, base: nat)
    requires s != [] && AllDigitsIn(s, base)
    ensures AllDigitsIn(s[..|s| - 1], base) && DigitValue(s[|s| - 1]) < base
  {
    var init := s[..|s| - 1];
    forall i | 0 <= i < |init| ensures IsDigitIn(init[i], base) {
      assert init[i] == s[i];
    }
    assert IsDigitIn(s[|s| - 1], base);
  }

  lemma PlaceBound(front: nat, d: nat, base: nat, p: nat)
    requires front < p && d < base
    ensures front * base + d < p * base
  {
    assert (front + 1) * base <= p * base;
  }

  lemma PowSucc(base: nat, k: nat)
    ensures Pow(base, k + 1) == Pow(base, k) * base
  {
  }

  lemma Regroup(a: int, p: int, b: int, base: int, d: int)
    ensures (a * p + b) * base + d == a * (p * base) + (b * base + d)
  {
  }

  /** A digit string split in two: the front counts `|back|` places higher. */
  lemma {:induction false} ValueAppend(front: string, back: string, base: nat)
    requires 2 <= base <= 36
    requires AllDigitsIn(front, base) && AllDigitsIn(back, base)
    ensures AllDigitsIn(front + back, base)
    ensures Value(front + back, base) == Value(front, base) * Pow(base, |back|) + Value(back, base)
  {
    var s := front + back;
    assert AllDigitsIn(s, base) by {
      forall i | 0 <= i < |s| ensures IsDigitIn(s[i], base) {
        if i < |front| { assert s[i] == front[i]; } else { assert s[i] == back[i - |front|]; }
      }
    }
    if back != [] {
      var b' := back[..|back| - 1];
      assert AllDigitsIn(b', base) by {
        forall i | 0 <= i < |b'| ensures IsDigitIn(b'[i], base) { assert b'[i] == back[i]; }
      }
      ValueAppend(front, b', base);
      var d := DigitValue(back[|back| - 1]);
      var vf, vb, p := Value(front, base), Value(b', base), Pow(base, |b'|);
      var w := Value(front + b', base);
      assert w == vf * p + vb;
      assert Value(s, base) == w * base + d by {
        assert s[..|s| - 1] == front + b';
        assert s[|s| - 1] == back[|back| - 1];
      }
      assert Value(back, base) == vb * base + d;
      Regroup(vf, p, vb, base, d);
      PowSucc(base, |b'|);
    } else {
      assert s == front;
    }
  }

  /** The longest prefix of `s` made of digits in `base`: where parseInt stops reading. */
  function DigitPrefix(s: string, base: nat): (p: string)
    ensures |p| <= |s| && p == s[..|p|]
    ensures AllDigitsIn(p, base)
    ensures |p| == |s| || !IsDigitIn(s[|p|], base)
  {
    if s != [] && IsDigitIn(s[0], base) then
      var rest := DigitPrefix(s[1..], base);
      assert [s[0]] + rest == s[..1 + |rest|];
      [s[0]] + rest
    else []
  }

  // ---------------------------------------------------------------------
  // parseInt
  // ---------------------------------------------------------------------

  /** The radix argument of parseInt: left out (decimal unless the text starts
      with "0x") or 16. */
  datatype Radix = Unspecified | Hexadecimal

  /** Takes off one leading '-' or '+'. */
  function DropSign(t: string): (u: string)
    ensures |t| - 1 <= |u| <= |t| && u == t[|t| - |u|..]
  {
    if t != [] && (t[0] == '-' || t[0] == '+') then t[1..] else t
  }

  predicate HasHexPrefix(u: string) {
    |u| >= 2 && u[0] == '0' && (u[1] == 'x' || u[1] == 'X')
  }

  /** What parseInt does after the sign: strip a "0x"/"0X" prefix (which also
      switches an unspecified radix to 16), then read the longest run of
      digits in the radix; no digit at all gives NaN. */
  function ReadMagnitude(u: string, radix: Radix): Option<nat>
  {
    var base := if HasHexPrefix(u) || radix == Hexadecimal then 16 else 10;
    var digits := DigitPrefix(if HasHexPrefix(u) then u[2..] else u, base);
    if digits == [] then None else Some(Value(digits, base))
  }

  /** The global parseInt, with None for NaN: skip leading white space, read an
      optional sign, then the magnitude. */
  function ParseInt(s: string, radix: Radix): Option<int>
  {
    var t := TrimStart(s);
    match ReadMagnitude(DropSign(t), radix)
    case None => None
    case Some(m) => Some(if t != [] && t[0] == '-' then -(m as int) else m)
  }

  lemma {:induction false} DigitPrefixOfDigits(s: string, base: nat)
    requires AllDigitsIn(s, base)
    ensures DigitPrefix(s, base) == s
  {
    if s != [] {
      assert IsDigitIn(s[0], base);
      assert AllDigitsIn(s[1..], base) by {
        forall i | 0 <= i < |s| - 1 ensures IsDigitIn(s[1..][i], base) { assert s[1..][i] == s[i + 1]; }
      }
      DigitPrefixOfDigits(s[1..], base);
      assert s == [s[0]] + s[1..];
    }
  }

  /** A string that is nothing but digits of the radix is read in full. */
  lemma ParseIntOfDigits(s: string, radix: Radix)
    requires s != []
    requires AllDigitsIn(s, if radix == Hexadecimal then 16 else 10)
    ensures ParseInt(s, radix) == Some(Value(s, if radix == Hexadecimal then 16 else 10))
  {
    var base := if radix == Hexadecimal then 16 else 10;
    assert TrimStart(s) == s by {
      assert IsDigitIn(s[0], base);
    }
    assert DropSign(s) == s by {
      assert IsDigitIn(s[0], base);
    }
    assert !HasHexPrefix(s) by {
      assert |s| >= 2 ==> IsDigitIn(s[1], base);
    }
    DigitPrefixOfDigits(s, base);
  }

  /** Text without a single decimal digit is never a number when no radix is given. */
  lemma ParseIntNeedsDecimalDigit(s: string)
    requires forall i :: 0 <= i < |s| ==> !('0' <= s[i] <= '9')
    ensures ParseInt(s, Unspecified) == None
  {
    var u := DropSign(TrimStart(s));
    assert u == s[|s| - |u|..];
    if u != [] {
      assert u[0] == s[|s| - |u|];
      assert !IsDigitIn(u[0], 10);
    }
  }

  // ---------------------------------------------------------------------
  // ToInt32 and toString(16)
  // ---------------------------------------------------------------------

  /** ToInt32, the conversion the bitwise operators apply to their operands:
      NaN becomes 0, and an integer is wrapped into [-2^31, 2^31). */
  function ToInt32(n: Option<int>): (w: int)
    ensures -0x8000_0000 <= w < 0x8000_0000
    ensures n.None? ==> w == 0
    ensures n.Some? ==> (n.value - w) % 0x1_0000_0000 == 0
    ensures n.Some? && -0x8000_0000 <= n.value < 0x8000_0000 ==> w == n.value
  {
    match n
    case None => 0
    case Some(v) =>
      var m := v % 0x1_0000_0000;
      assert v - m == (v / 0x1_0000_0000) * 0x1_0000_0000;
      if m >= 0x8000_0000 then m - 0x1_0000_0000 else m
  }

  /** The lower-case hexadecimal digit of a value below 16. */
  function HexDigit(d: nat): (c: char)
    requires d < 16
    ensures IsLowerHexDigit(c) && DigitValue(c) == d
  {
    if d < 10 then ('0' as int + d) as char else ('a' as int + d - 10) as char
  }

  /** Number.prototype.toString(16) on a non-negative integer: lower-case
      digits, most significant first. */
  function ToHexString(n: nat): (s: string)
    ensures s != []
    ensures forall i :: 0 <= i < |s| ==> IsLowerHexDigit(s[i])
  {
    if n < 16 then [HexDigit(n)] else ToHexString(n / 16) + [HexDigit(n % 16)]
  }

  /** toString(16) prints a positive number with no leading zero, and the
      printed digits read back as the number. */
  lemma {:induction false} ToHexStringValue(n: nat)
    ensures AllDigitsIn(ToHexString(n), 16) && Value(ToHexString(n), 16) == n
    ensures n > 0 ==> ToHexString(n)[0] != '0'
  {
    var s := ToHexString(n);
    if n >= 16 {
      var front := ToHexString(n / 16);
      ToHexStringValue(n / 16);
      assert s == front + [HexDigit(n % 16)];
      assert s[..|s| - 1] == front;
      assert s[0] == front[0];
    }
  }

  /** Exactly `width` lower-case hexadecimal digits of `n`, zero-padded on the
      left; the digits that `0x1000000 + n` followed by `.toString(16).slice(1)`
      leaves. */
  function PadHex(n: nat, width: nat): (s: string)
    ensures |s| == width
    ensures forall i :: 0 <= i < |s| ==> IsLowerHexDigit(s[i])
    ensures AllDigitsIn(s, 16)
  {
    if width == 0 then [] else PadHex(n / 16, width - 1) + [HexDigit(n % 16)]
  }

  /** A number below 16^width survives the padding: its digits read back as it. */
  lemma {:induction false} PadHexValue(n: nat, width: nat)
    requires n < Pow(16, width)
    ensures Value(PadHex(n, width), 16) == n
  {
    if width > 0 {
      var s := PadHex(n, width);
      var front := PadHex(n / 16, width - 1);
      assert n / 16 < Pow(16, width - 1);
      PadHexValue(n / 16, width - 1);
      assert s[..|s| - 1] == front;
    }
  }

  /** Below 16^width, toString(16) of `16^width + n` is a '1' followed by the
      `width` zero-padded digits of `n`. */
  lemma {:induction false} ToHexStringLeadingOne(n: nat, width: nat)
    requires n < Pow(16, width)
    ensures ToHexString(Pow(16, width) + n) == ['1'] + PadHex(n, width)
  {
    if width == 0 {
      assert Pow(16, width) + n == 1;
      assert PadHex(n, width) == [];
    } else {
      var p := Pow(16, width - 1);
      assert n / 16 < p by {
        LeadingPlace(n, p);
      }
      ToHexStringLeadingOne(n / 16, width - 1);
      LeadingOneStep(n, width);
    }
  }

  /** The inductive step: one more place below the leading '1'. */
  lemma LeadingOneStep(n: nat, width: nat)
    requires width > 0 && n < Pow(16, width)
    requires ToHexString(Pow(16, width - 1) + n / 16) == ['1'] + PadHex(n / 16, width - 1)
    ensures ToHexString(Pow(16, width) + n) == ['1'] + PadHex(n, width)
  {
    var m := Pow(16, width) + n;
    var p := Pow(16, width - 1);
    var q, r := p + n / 16, n % 16;
    assert m == q * 16 + r by {
      PowSucc(16, width - 1);
      LeadingPlace(n, p);
    }
    var last := [HexDigit(r)];
    assert ToHexString(m) == ToHexString(q) + last by {
      ToHexStringStep(q, r);
    }
    assert PadHex(n, width) == PadHex(n / 16, width - 1) + last by {
      PadHexStep(n, width);
    }
    assert ['1'] + PadHex(n / 16, width - 1) + last == ['1'] + (PadHex(n / 16, width - 1) + last);
  }

  lemma PadHexStep(n: nat, width: nat)
    requires width > 0
    ensures PadHex(n, width) == PadHex(n / 16, width - 1) + [HexDigit(n % 16)]
  {
  }

  lemma ToHexStringStep(q: nat, r: nat)
    requires q > 0 && r < 16
    ensures ToHexString(q * 16 + r) == ToHexString(q) + [HexDigit(r)]
  {
    var m := q * 16 + r;
    assert m / 16 == q && m % 16 == r;
  }

  /** Dividing `16p + n` by 16 drops the last hexadecimal place of n. */
  lemma LeadingPlace(n: nat, p: nat)
    requires p > 0 && n < p * 16
    ensures p * 16 + n == (p + n / 16) * 16 + n % 16
    ensures n / 16 < p
  {
    assert p * 16 + n == (p + n / 16) * 16 + n % 16;
  }

  /** Lower-cases the letters 'A'-'F'. */
  function LowerHexChar(c: char): char {
    if 'A' <= c <= 'F' then (c as int - 'A' as int + 'a' as int) as char else c
  }

  /** Lower-cases the letters a hexadecimal string may hold. */
  function LowerHex(s: string): (r: string)
    ensures |r| == |s|
  {
    if s == [] then [] else LowerHex(s[..|s| - 1]) + [LowerHexChar(s[|s| - 1])]
  }

  /** The printed digit of a digit's value is the digit, lower-cased. */
  lemma HexDigitOfValue(c: char)
    requires IsDigitIn(c, 16)
    ensures HexDigit(DigitValue(c)) == LowerHexChar(c)
  {
  }

  /** Re-printing the value of hexadecimal digits at their own width gives the
      digits back, lower-cased. */
  lemma {:induction false} PadHexOfValue(s: string)
    requires AllDigitsIn(s, 16)
    ensures PadHex(Value(s, 16), |s|) == LowerHex(s)
  {
    if s != [] {
      var front := s[..|s| - 1];
      var c := s[|s| - 1];
      assert AllDigitsIn(front, 16) by {
        forall i | 0 <= i < |front| ensures IsDigitIn(front[i], 16) { assert front[i] == s[i]; }
      }
      var v := Value(s, 16);
      assert v == Value(front, 16) * 16 + DigitValue(c);
      assert v / 16 == Value(front, 16) && v % 16 == DigitValue(c) by {
        assert IsDigitIn(c, 16);
      }
      assert PadHex(v, |s|) == PadHex(Value(front, 16), |front|) + [HexDigit(DigitValue(c))];
      PadHexOfValue(front);
      HexDigitOfValue(c);
    }
  }
}
