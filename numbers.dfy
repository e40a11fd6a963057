/** Kotlin's number/text conversions used by the converter: `toIntOrNull`
    and `toInt` in radix 10 and 16, `BigInteger(text, 16)`, `toString(radix)`
    and left zero-padding with `"0".repeat(width - length)`. Digits are the
    ASCII ones. */
module Numbers {
  import opened Wrappers

  const INT_MIN: int := -0x8000_0000
  const INT_MAX: int := 0x7FFF_FFFF

  /** The radices the converter uses: 2 (`toString(2)`), 10 (`toIntOrNull()`)
      and 16. */
  predicate ValidRadix(radix: nat) { radix == 2 || radix == 10 || radix == 16 }

  /** Euclidean division by a radix, with the radix made concrete so the
      arithmetic stays linear. */
  lemma DivStep(n: nat, r: nat)
    requires ValidRadix(r)
    ensures n == (n / r) * r + n % r && n % r < r
    ensures n >= r ==> 1 <= n / r < n
    ensures n < r ==> n / r == 0 && n % r == n
  {
    if r == 2 {} else if r == 10 {} else {}
  }

  lemma MulBound(h: nat, d: nat, r: nat, p: nat)
    requires ValidRadix(r) && h < p && d < r
    ensures h * r + d < p * r
  {
    if r == 2 {} else if r == 10 {} else {}
  }

  lemma DivOfMulAdd(h: nat, d: nat, r: nat)
    requires ValidRadix(r) && d < r
    ensures (h * r + d) / r == h && (h * r + d) % r == d
  {
    if r == 2 {} else if r == 10 {} else {}
  }

  function Pow(b: nat, e: nat): (p: nat)
    ensures b > 0 ==> p > 0
  {
    if e == 0 then 1 else b * Pow(b, e - 1)
  }

  /** The value of `c` as a digit of `radix`, if it is one (either case for
      letter digits). */
  function DigitValue(c: char, radix: nat): (d: Option<nat>)
    ensures d.Some? ==> d.value < radix
  {
    var v: int :=
      if '0' <= c <= '9' then c as int - '0' as int
      else if 'a' <= c <= 'z' then c as int - 'a' as int + 10
      else if 'A' <= c <= 'Z' then c as int - 'A' as int + 10
      else -1;
    if 0 <= v < radix then Some(v) else None
  }

  predicate AllDigits(s: string, radix: nat) {
    forall i :: 0 <= i < |s| ==> DigitValue(s[i], radix).Some?
  }

  /** The value of a digit string, most significant digit first. */
  function NumeralValue(s: string, radix: nat): nat
    requires AllDigits(s, radix)
  {
    if s == [] then 0
    else NumeralValue(s[..|s| - 1], radix) * radix + DigitValue(s[|s| - 1], radix).value
  }

  lemma {:induction false} NumeralBound(s: string, radix: nat)
    requires ValidRadix(radix) && AllDigits(s, radix)
    ensures NumeralValue(s, radix) < Pow(radix, |s|)
  {
    if s != [] {
      NumeralBound(s[..|s| - 1], radix);
      MulBound(NumeralValue(s[..|s| - 1], radix), DigitValue(s[|s| - 1], radix).value,
               radix, Pow(radix, |s| - 1));
    }
  }

  /** `BigInteger(s, radix)` and `toShort(radix)` on unsigned digit text. */
  function ParseUnsigned(s: string, radix: nat): (r: Option<nat>)
    ensures r.Some? <==> s != [] && AllDigits(s, radix)
  {
    if s != [] && AllDigits(s, radix) then Some(NumeralValue(s, radix)) else None
  }

  /** `String.toIntOrNull(radix)`: an optional sign, at least one digit, and
      a value inside the 32-bit `Int` range. */
  function ToIntOrNull(s: string, radix: nat): (r: Option<int>)
    ensures r.Some? ==> INT_MIN <= r.value <= INT_MAX
  {
    if s == [] then None
    else if |s| > 1 && (s[0] == '-' || s[0] == '+') then
      match ParseUnsigned(s[1..], radix)
      case None => None
      case Some(v) =>
        var w: int := if s[0] == '-' then -(v as int) else v;
        if INT_MIN <= w <= INT_MAX then Some(w) else None
    else
      match ParseUnsigned(s, radix)
      case None => None
      case Some(v) => if v <= INT_MAX then Some(v) else None
  }

  /** `toIntOrNull` accepts exactly an optional sign followed by at least
      one digit whose value, with the sign, lies in the `Int` range, and
      its result is that signed value. */
  lemma ToIntOrNullMeaning(s: string, radix: nat)
    ensures var signed := |s| > 1 && (s[0] == '-' || s[0] == '+');
      var digits := if signed then s[1..] else s;
      && (ToIntOrNull(s, radix).Some? <==>
            && digits != [] && AllDigits(digits, radix)
            && (if signed && s[0] == '-' then INT_MIN <= -(NumeralValue(digits, radix) as int)
                else NumeralValue(digits, radix) <= INT_MAX))
      && (ToIntOrNull(s, radix).Some? ==>
            ToIntOrNull(s, radix).value == if signed && s[0] == '-' then -(NumeralValue(digits, radix) as int)
                                           else NumeralValue(digits, radix))
  {
  }

  /** The lower-case digit character for `d`, as `toString(radix)` writes it. */
  function DigitChar(d: nat): (c: char)
    requires d < 16
  {
    if d < 10 then ('0' as int + d) as char else ('a' as int + d - 10) as char
  }

  lemma DigitCharValue(d: nat, radix: nat)
    requires d < radix <= 16
    ensures DigitValue(DigitChar(d), radix) == Some(d)
    ensures !('A' <= DigitChar(d) <= 'Z')
  {
  }

  lemma DigitCharOfValue(c: char, radix: nat)
    requires radix <= 16 && DigitValue(c, radix).Some?
    ensures DigitChar(DigitValue(c, radix).value) == ToLowerChar(c)
  {
  }

  /** `toString(radix)` of a non-negative number: lower-case digits, no
      leading zero except for zero itself. */
  function NatToString(n: nat, radix: nat): (s: string)
    requires ValidRadix(radix)
    ensures s != [] && AllDigits(s, radix)
    ensures |s| > 1 ==> s[0] != '0'
    decreases n
  {
    DivStep(n, radix);
    if n < radix then
      DigitCharValue(n, radix);
      [DigitChar(n)]
    else
      var hi := NatToString(n / radix, radix);
      DigitCharValue(n % radix, radix);
      hi + [DigitChar(n % radix)]
  }

  /** `Int.toString(radix)`: a minus sign before the digits of a negative value. */
  function IntToString(i: int, radix: nat): (s: string)
    requires ValidRadix(radix)
    ensures i >= 0 ==> s == NatToString(i, radix)
    ensures i < 0 ==> s == "-" + NatToString(-i, radix)
  {
    if i < 0 then "-" + NatToString(-i, radix) else NatToString(i, radix)
  }

  /** Reading back what `toString(radix)` wrote gives the same number. */
  lemma {:induction false} NatToStringValue(n: nat, radix: nat)
    requires ValidRadix(radix)
    ensures NumeralValue(NatToString(n, radix), radix) == n
    decreases n
  {
    var s := NatToString(n, radix);
    DivStep(n, radix);
    if n < radix {
      DigitCharValue(n, radix);
      assert s[..0] == [];
    } else {
      NatToStringValue(n / radix, radix);
      DigitCharValue(n % radix, radix);
      assert s[..|s| - 1] == NatToString(n / radix, radix);
    }
  }

  /** The number of digits `toString(radix)` writes: at most `k` (k >= 1)
      exactly when the value is below `radix^k`. */
  lemma {:induction false} NatToStringLength(n: nat, radix: nat, k: nat)
    requires ValidRadix(radix) && k >= 1
    ensures |NatToString(n, radix)| <= k <==> n < Pow(radix, k)
    decreases n
  {
    PowAtLeastBase(radix, k);
    if n >= radix {
      if k == 1 {
        assert |NatToString(n, radix)| >= 2;
      } else {
        NatToStringLength(n / radix, radix, k - 1);
        DivBelow(n, radix, Pow(radix, k - 1));
      }
    }
  }

  lemma {:induction false} PowAtLeastBase(b: nat, k: nat)
    requires ValidRadix(b) && k >= 1
    ensures Pow(b, k) >= b
  {
    if k > 1 {
      PowAtLeastBase(b, k - 1);
      MulBound(0, 0, b, Pow(b, k - 1));
    }
  }

  lemma DivBelow(n: nat, r: nat, m: nat)
    requires ValidRadix(r)
    ensures n / r < m <==> n < r * m
  {
    if r == 2 {} else if r == 10 {} else {}
  }

  function Zeros(n: nat): (z: string)
    ensures |z| == n && forall i :: 0 <= i < n ==> z[i] == '0'
  {
    if n == 0 then [] else "0" + Zeros(n - 1)
  }

  /** `"0".repeat(width - s.length) + s`; `repeat` throws on a negative count. */
  function PadStart(s: string, width: nat): (r: Option<string>)
    ensures r.Some? <==> |s| <= width
    ensures r.Some? ==> |r.value| == width
    ensures r.Some? ==> forall i :: 0 <= i < width - |s| ==> r.value[i] == '0'
    ensures r.Some? ==> forall i :: 0 <= i < |s| ==> r.value[width - |s| + i] == s[i]
  {
    if |s| <= width then Some(Zeros(width - |s|) + s) else None
  }

  /** The `width` least significant digits of `v`, most significant first. */
  function FixedDigits(v: nat, radix: nat, width: nat): (s: string)
    requires ValidRadix(radix)
    ensures |s| == width && AllDigits(s, radix)
  {
    if width == 0 then []
    else
      DivStep(v, radix);
      DigitCharValue(v % radix, radix);
      FixedDigits(v / radix, radix, width - 1) + [DigitChar(v % radix)]
  }

  function ToLowerChar(c: char): char {
    if 'A' <= c <= 'Z' then (c as int + 32) as char else c
  }

  function ToLower(s: string): (r: string)
    ensures |r| == |s| && forall i :: 0 <= i < |s| ==> r[i] == ToLowerChar(s[i])
  {
    seq(|s|, i requires 0 <= i < |s| => ToLowerChar(s[i]))
  }

  lemma ToLowerAppend(a: string, b: string)
    ensures ToLower(a + b) == ToLower(a) + ToLower(b)
  {
    assert forall i :: 0 <= i < |a + b| ==> ToLower(a + b)[i] == (ToLower(a) + ToLower(b))[i];
  }

  /** The last digit of a numeral is its value modulo the radix, the rest
      its quotient. */
  lemma NumeralLastDigit(s: string, radix: nat)
    requires ValidRadix(radix) && AllDigits(s, radix) && s != []
    ensures NumeralValue(s, radix) / radix == NumeralValue(s[..|s| - 1], radix)
    ensures NumeralValue(s, radix) % radix == DigitValue(s[|s| - 1], radix).value
  {
    DivOfMulAdd(NumeralValue(s[..|s| - 1], radix), DigitValue(s[|s| - 1], radix).value, radix);
  }

  /** Reading a digit string and writing it back at the same width gives the
      same text in lower case. */
  lemma {:induction false} FixedDigitsOfValue(s: string, radix: nat)
    requires ValidRadix(radix) && AllDigits(s, radix)
    ensures FixedDigits(NumeralValue(s, radix), radix, |s|) == ToLower(s)
  {
    if s != [] {
      var init := s[..|s| - 1];
      var c := s[|s| - 1];
      var d := DigitValue(c, radix).value;
      assert s == init + [c];
      NumeralLastDigit(s, radix);
      FixedDigitsOfValue(init, radix);
      DigitCharOfValue(c, radix);
      ToLowerAppend(init, [c]);
    }
  }

  /** Zero-padding `toString(radix)` to a width that holds the value gives
      the fixed-width digits. */
  lemma {:induction false} PaddedIsFixed(v: nat, radix: nat, width: nat)
    requires ValidRadix(radix) && v < Pow(radix, width) && width >= 1
    ensures PadStart(NatToString(v, radix), width) == Some(FixedDigits(v, radix, width))
    decreases width
  {
    var s := NatToString(v, radix);
    DivStep(v, radix);
    if v < radix {
      PaddedDigit(v, radix, width);
    } else {
      var hi := NatToString(v / radix, radix);
      assert s == hi + [DigitChar(v % radix)];
      NatToStringLength(v, radix, width);
      DivBelow(v, radix, Pow(radix, width - 1));
      PaddedIsFixed(v / radix, radix, width - 1);
      PadAppend(hi, DigitChar(v % radix), width);
    }
  }

  /** Padding a string with one more character at its end. */
  lemma PadAppend(hi: string, c: char, width: nat)
    requires |hi| + 1 <= width
    ensures PadStart(hi + [c], width) == Some(PadStart(hi, width - 1).value + [c])
  {
    assert Zeros(width - |hi + [c]|) + (hi + [c]) == (Zeros(width - 1 - |hi|) + hi) + [c];
  }

  /** The one-digit case of `PaddedIsFixed`. */
  lemma PaddedDigit(v: nat, radix: nat, width: nat)
    requires ValidRadix(radix) && v < radix && width >= 1
    ensures PadStart(NatToString(v, radix), width) == Some(FixedDigits(v, radix, width))
  {
    DivStep(v, radix);
    FixedZero(radix, width - 1);
    assert FixedDigits(v, radix, width) == Zeros(width - 1) + [DigitChar(v)];
  }

  lemma {:induction false} FixedZero(radix: nat, width: nat)
    requires ValidRadix(radix)
    ensures FixedDigits(0, radix, width) == Zeros(width)
  {
    if width > 0 {
      FixedZero(radix, width - 1);
      assert Zeros(width) == Zeros(width - 1) + "0";
    }
  }

  lemma {:induction false} ZerosValue(n: nat, s: string, radix: nat)
    requires ValidRadix(radix) && AllDigits(s, radix)
    ensures AllDigits(Zeros(n) + s, radix)
    ensures NumeralValue(Zeros(n) + s, radix) == NumeralValue(s, radix)
    decreases |s|
  {
    var t := Zeros(n) + s;
    assert forall i :: 0 <= i < |t| ==> DigitValue(t[i], radix).Some? by {
      forall i | 0 <= i < |t| ensures DigitValue(t[i], radix).Some? {
        if i < n { assert t[i] == '0'; } else { assert t[i] == s[i - n]; }
      }
    }
    if s == [] {
      assert t == Zeros(n);
      ZerosOnly(n, radix);
    } else {
      assert t[..|t| - 1] == Zeros(n) + s[..|s| - 1];
      ZerosValue(n, s[..|s| - 1], radix);
    }
  }

  lemma {:induction false} ZerosOnly(n: nat, radix: nat)
    requires ValidRadix(radix)
    ensures AllDigits(Zeros(n), radix) && NumeralValue(Zeros(n), radix) == 0
  {
    if n > 0 {
      assert Zeros(n)[..n - 1] == Zeros(n - 1);
      ZerosOnly(n - 1, radix);
    }
  }

  /** Zero-padded digits read back as the padded number. */
  lemma PaddedValue(v: nat, radix: nat, width: nat)
    requires ValidRadix(radix) && v < Pow(radix, width)
    requires width >= 1
    ensures PadStart(NatToString(v, radix), width).Some?
    ensures ParseUnsigned(PadStart(NatToString(v, radix), width).value, radix) == Some(v)
  {
    var s := NatToString(v, radix);
    NatToStringLength(v, radix, width);
    var p := Zeros(width - |s|) + s;
    assert PadStart(s, width) == Some(p);
    ZerosValue(width - |s|, s, radix);
    NatToStringValue(v, radix);
    assert p != [];
  }

  /** The byte-reversal of `reverseInt`/`reversedInt`: the two-digit groups
      of `s`, counted from the front, put in reverse order with the digits
      inside a group kept; a trailing odd digit belongs to no group and is
      dropped. */
  function ReverseGroups(s: string): (r: string)
    ensures |r| == |s| / 2 * 2
    ensures forall c :: c in r ==> c in s
  {
    if |s| < 2 then [] else ReverseGroups(s[2..]) + s[..2]
  }

  /** Group `k` of the result is group `n - 1 - k` of the input. */
  lemma {:induction false} ReverseGroupsAt(s: string, k: nat)
    requires |s| % 2 == 0 && 2 * k + 2 <= |s|
    ensures ReverseGroups(s)[2 * k..2 * k + 2] == s[|s| - 2 * k - 2..|s| - 2 * k]
  {
    var rest := ReverseGroups(s[2..]);
    if 2 * k + 2 < |s| {
      ReverseGroupsAt(s[2..], k);
      SliceOfPrefix(rest, s[..2], 2 * k, 2 * k + 2);
      SliceOfTail(s, 2, |s| - 2 * k - 2, |s| - 2 * k);
    } else {
      SliceOfSuffix(rest, s[..2]);
    }
  }

  lemma SliceOfPrefix(a: string, b: string, i: nat, j: nat)
    requires i <= j <= |a|
    ensures (a + b)[i..j] == a[i..j]
  {
  }

  lemma SliceOfSuffix(a: string, b: string)
    ensures (a + b)[|a|..|a| + |b|] == b
  {
  }

  lemma SliceOfTail(s: string, d: nat, i: nat, j: nat)
    requires d <= i <= j <= |s|
    ensures s[d..][i - d..j - d] == s[i..j]
  {
  }

  lemma {:induction false} ReverseGroupsAppend(a: string, b: string)
    requires |a| % 2 == 0
    ensures ReverseGroups(a + b) == ReverseGroups(b) + ReverseGroups(a)
    decreases |a|
  {
    if a == [] {
      assert a + b == b;
    } else {
      assert (a + b)[2..] == a[2..] + b;
      assert (a + b)[..2] == a[..2];
      ReverseGroupsAppend(a[2..], b);
    }
  }

  /** Reversing the groups twice gives back a text of even length. */
  lemma {:induction false} ReverseGroupsTwice(s: string)
    requires |s| % 2 == 0
    ensures ReverseGroups(ReverseGroups(s)) == s
    decreases |s|
  {
    if s != [] {
      ReverseGroupsTwice(s[2..]);
      ReverseGroupsAppend(ReverseGroups(s[2..]), s[..2]);
      assert ReverseGroups(s[..2]) == s[..2] by {
        assert s[..2][2..] == [];
      }
      assert s[..2] + s[2..] == s;
    }
  }
}
