/** PHP runtime values and the string primitives the library relies on
    (strpos, strtolower, trim, str_replace, integer-to-string conversion,
    the bitwise `&` of 64-bit integers). */
module Php {

  datatype Option<+T> = None | Some(value: T)

  /** A PHP array key: an integer or a (non-numeric) string. */
  datatype Key = IntKey(i: int) | StrKey(s: string)

  /** The PHP values the library stores and renders. Arrays and objects are
      ordered key/value sequences (PHP's iteration order). */
  datatype Value =
    | Null
    | Bool(b: bool)
    | Int(i: int)
    | Str(s: string)
    | Arr(entries: seq<(Key, Value)>)
    | Obj(className: string, props: seq<(Key, Value)>)
  {
    /** is_array($v) || is_object($v) */
    predicate IsComposite() { Arr? || Obj? }

    /** is_scalar($v) (floats are not part of this model) */
    predicate IsScalar() { Bool? || Int? || Str? }
  }

  /** The entries a `foreach` visits, for an array or an object. */
  function Children(v: Value): seq<(Key, Value)>
  {
    match v
    case Arr(es) => es
    case Obj(_, ps) => ps
    case _ => []
  }

  /** The list-shaped array built by repeated `$a[] = x` from an empty array. */
  function ListOf(xs: seq<Value>): (r: seq<(Key, Value)>)
    ensures |r| == |xs|
    ensures forall k :: 0 <= k < |xs| ==> r[k] == (IntKey(k), xs[k])
  {
    if xs == [] then [] else ListOf(xs[..|xs| - 1]) + [(IntKey(|xs| - 1), xs[|xs| - 1])]
  }

  /** `$a[$k]` on an array with distinct keys: the first entry with key k. */
  function Lookup(es: seq<(Key, Value)>, k: Key): (r: Option<Value>)
    ensures r.None? <==> forall j :: 0 <= j < |es| ==> es[j].0 != k
    ensures r.Some? ==> exists j :: 0 <= j < |es| && es[j] == (k, r.value)
  {
    if es == [] then None
    else if es[0].0 == k then Some(es[0].1)
    else
      var r := Lookup(es[1..], k);
      assert r.Some? ==> es[1..][0] == es[1];
      r
  }

  /** gettype($v) */
  function GetType(v: Value): string
  {
    match v
    case Null => "NULL"
    case Bool(_) => "boolean"
    case Int(_) => "integer"
    case Str(_) => "string"
    case Arr(_) => "array"
    case Obj(_, _) => "object"
  }

  // ---------------------------------------------------------------- strings

  /** `strpos($hay, $needle) !== false` (an empty needle is found at 0, as in PHP 8). */
  predicate Contains(hay: string, needle: string)
    decreases |hay|
  {
    |needle| <= |hay| && (hay[..|needle|] == needle || Contains(hay[1..], needle))
  }

  lemma {:induction false} ContainsAt(hay: string, needle: string, i: nat)
    requires i + |needle| <= |hay| && hay[i..i + |needle|] == needle
    ensures Contains(hay, needle)
    decreases i
  {
    if i > 0 {
      assert hay[1..][i - 1..i - 1 + |needle|] == hay[i..i + |needle|];
      ContainsAt(hay[1..], needle, i - 1);
    }
  }

  /** ASCII lower-casing of strtolower. */
  function LowerChar(c: char): char
  {
    if 'A' <= c <= 'Z' then (c as int + 32) as char else c
  }

  function Lower(s: string): (r: string)
    ensures |r| == |s|
  {
    seq(|s|, i requires 0 <= i < |s| => LowerChar(s[i]))
  }

  /** The characters trim() removes by default: " \t\n\r\0\x0B". */
  predicate IsTrimChar(c: char)
  {
    c == ' ' || c == '\t' || c == '\n' || c == '\r' || c == '\0' || c == '\U{B}'
  }

  function TrimLeft(s: string): (r: string)
    ensures |r| <= |s| && r == s[|s| - |r|..]
    ensures forall i :: 0 <= i < |s| - |r| ==> IsTrimChar(s[i])
    ensures r == [] || !IsTrimChar(r[0])
  {
    if s != [] && IsTrimChar(s[0]) then TrimLeft(s[1..]) else s
  }

  function TrimRight(s: string): (r: string)
    ensures |r| <= |s| && r == s[..|r|]
    ensures forall i :: |r| <= i < |s| ==> IsTrimChar(s[i])
    ensures r == [] || !IsTrimChar(r[|r| - 1])
  {
    if s != [] && IsTrimChar(s[|s| - 1]) then TrimRight(s[..|s| - 1]) else s
  }

  /** trim($s): the infix left once the trim characters at both ends are
      removed; it neither starts nor ends with one. */
  function Trim(s: string): (r: string)
    ensures |r| <= |s|
    ensures exists a :: 0 <= a <= |s| - |r| && TrimmedAt(s, a, r)
    ensures r == [] || (!IsTrimChar(r[0]) && !IsTrimChar(r[|r| - 1]))
  {
    TrimInfix(s);
    TrimRight(TrimLeft(s))
  }

  lemma TrimInfix(s: string)
    ensures |s| - |TrimLeft(s)| + |TrimRight(TrimLeft(s))| <= |s|
    ensures TrimmedAt(s, |s| - |TrimLeft(s)|, TrimRight(TrimLeft(s)))
  {
    var l := TrimLeft(s);
    InfixOfInfix(s, |s| - |l|, l, TrimRight(l));
  }

  /** Trim characters cut from the front of s and then from the back. */
  lemma InfixOfInfix(s: string, a: nat, l: string, r: string)
    requires a + |l| == |s| && l == s[a..] && (forall i :: 0 <= i < a ==> IsTrimChar(s[i]))
    requires |r| <= |l| && r == l[..|r|] && (forall i :: |r| <= i < |l| ==> IsTrimChar(l[i]))
    ensures a + |r| <= |s| && TrimmedAt(s, a, r)
  {
    forall i | a + |r| <= i < |s|
      ensures IsTrimChar(s[i])
    {
      assert s[i] == l[i - a];
    }
  }

  /** r is s[a..a+|r|], and everything of s outside it is a trim character. */
  predicate TrimmedAt(s: string, a: nat, r: string)
    requires a + |r| <= |s|
  {
    && r == s[a..a + |r|]
    && (forall i :: 0 <= i < a ==> IsTrimChar(s[i]))
    && (forall i :: a + |r| <= i < |s| ==> IsTrimChar(s[i]))
  }

  /** str_replace($pat, "", $s): removes the non-overlapping occurrences of a
      non-empty pattern, scanning left to right. */
  function RemoveAll(s: string, pat: string): (r: string)
    requires |pat| > 0
    ensures |r| <= |s|
    ensures !Contains(s, pat) ==> r == s
    ensures Contains(s, pat) ==> |r| <= |s| - |pat|
    decreases |s|
  {
    if |s| < |pat| then s
    else if s[..|pat|] == pat then RemoveAll(s[|pat|..], pat)
    else [s[0]] + RemoveAll(s[1..], pat)
  }

  /** An occurrence at the front is removed and the scan resumes right after
      it, so the text behind a leading pattern that holds no further
      occurrence is kept whole. */
  lemma RemoveAllLeading(pat: string, t: string)
    requires |pat| > 0
    ensures RemoveAll(pat + t, pat) == RemoveAll(t, pat)
    ensures !Contains(t, pat) ==> RemoveAll(pat + t, pat) == t
  {
    assert (pat + t)[..|pat|] == pat;
    assert (pat + t)[|pat|..] == t;
  }

  // ------------------------------------------------------- decimal numbers

  predicate IsDigit(c: char) { '0' <= c <= '9' }

  predicate IsDigits(s: string)
  {
    forall i :: 0 <= i < |s| ==> IsDigit(s[i])
  }

  function DigitChar(d: nat): char
    requires d < 10
  {
    (d + '0' as int) as char
  }

  function DigitValue(c: char): nat
    requires IsDigit(c)
  {
    c as int - '0' as int
  }

  /** A decimal numeral as PHP prints a non-negative integer: no leading zero. */
  predicate IsCanonicalNat(s: string)
  {
    |s| >= 1 && IsDigits(s) && (s[0] == '0' ==> |s| == 1)
  }

  /** (string) $n for $n >= 0. */
  function NatToDecimal(n: nat): (r: string)
    ensures IsCanonicalNat(r)
    ensures n >= 10 ==> |r| >= 2
  {
    if n < 10 then [DigitChar(n)] else NatToDecimal(n / 10) + [DigitChar(n % 10)]
  }

  /** (string) $i, and sprintf("%d", $i). */
  function IntToDecimal(i: int): string
  {
    if i < 0 then "-" + NatToDecimal(-i) else NatToDecimal(i)
  }

  /** The value of a string of digits. */
  function DigitsValue(s: string): nat
    requires IsDigits(s)
  {
    if s == [] then 0 else 10 * DigitsValue(s[..|s| - 1]) + DigitValue(s[|s| - 1])
  }

  /** The integer whose canonical decimal form is s, if any. */
  function ParseCanonicalInt(s: string): Option<int>
  {
    if |s| >= 2 && s[0] == '-' && IsCanonicalNat(s[1..]) && s[1..] != "0" then Some(-(DigitsValue(s[1..]) as int))
    else if IsCanonicalNat(s) then Some(DigitsValue(s))
    else None
  }

  lemma {:induction false} DigitsOfDecimal(n: nat)
    ensures DigitsValue(NatToDecimal(n)) == n
  {
    if n >= 10 {
      var r := NatToDecimal(n);
      assert r[..|r| - 1] == NatToDecimal(n / 10);
      DigitsOfDecimal(n / 10);
    }
  }

  lemma {:induction false} CanonicalValuePositive(s: string)
    requires IsCanonicalNat(s) && s != "0"
    ensures DigitsValue(s) >= 1
    ensures |s| >= 2 ==> DigitsValue(s) >= 10
  {
    if |s| >= 2 {
      var p := s[..|s| - 1];
      assert p[0] == s[0];
      if |p| == 1 {
        assert DigitsValue(p) == 10 * DigitsValue(p[..0]) + DigitValue(p[0]);
      } else {
        CanonicalValuePositive(p);
      }
    }
  }

  lemma DivMod10(v: nat, d: nat)
    requires d < 10
    ensures (10 * v + d) / 10 == v && (10 * v + d) % 10 == d
  {
  }

  lemma {:induction false} DecimalOfDigits(s: string)
    requires IsCanonicalNat(s)
    ensures NatToDecimal(DigitsValue(s)) == s
    decreases |s|
  {
    if |s| >= 2 {
      var p, c := s[..|s| - 1], s[|s| - 1];
      assert p[0] == s[0];
      var v, d := DigitsValue(p), DigitValue(c);
      assert DigitsValue(s) == 10 * v + d;
      CanonicalValuePositive(s);
      DivMod10(v, d);
      DecimalOfDigits(p);
      assert DigitChar(d) == c;
      assert NatToDecimal(10 * v + d) == NatToDecimal(v) + [DigitChar(d)];
      assert s == p + [c];
    } else {
      assert DigitsValue(s) == 10 * DigitsValue(s[..0]) + DigitValue(s[0]);
    }
  }

  /** Printing an integer and parsing it back gives the integer. */
  lemma DecimalRoundTrip(i: int)
    ensures ParseCanonicalInt(IntToDecimal(i)) == Some(i)
  {
    if i < 0 {
      NegativeRoundTrip(i);
    } else {
      var r := NatToDecimal(i);
      assert IsDigit(r[0]);
      DigitsOfDecimal(i);
    }
  }

  lemma NegativeRoundTrip(i: int)
    requires i < 0
    ensures ParseCanonicalInt(IntToDecimal(i)) == Some(i)
  {
    var r, m := IntToDecimal(i), NatToDecimal(-i);
    assert r[0] == '-' && r[1..] == m && |r| >= 2;
    PositiveDecimal(-i);
  }

  lemma PositiveDecimal(n: nat)
    requires n >= 1
    ensures NatToDecimal(n) != "0" && DigitsValue(NatToDecimal(n)) == n
  {
    DigitsOfDecimal(n);
    assert DigitsValue("0") == 0;
  }

  /** A string that parses is the canonical decimal form of its value. */
  lemma ParsedIsCanonical(s: string, i: int)
    requires ParseCanonicalInt(s) == Some(i)
    ensures IntToDecimal(i) == s
  {
    if |s| >= 2 && s[0] == '-' && IsCanonicalNat(s[1..]) && s[1..] != "0" {
      DecimalOfDigits(s[1..]);
      CanonicalValuePositive(s[1..]);
      assert s == "-" + s[1..];
    } else {
      DecimalOfDigits(s);
    }
  }

  // ------------------------------------------------------ 64-bit integers

  /** i lies in the range of PHP's native 64-bit integer. */
  predicate IsInt64(i: int)
  {
    -0x8000_0000_0000_0000 <= i < 0x8000_0000_0000_0000
  }

  /** PHP's native integer on 64-bit platforms. */
  newtype Int64 = x: int | -0x8000_0000_0000_0000 <= x < 0x8000_0000_0000_0000

  /** The unsigned reading of an integer's 64-bit two's-complement pattern. */
  function Unsigned(x: Int64): (u: nat)
    ensures u < 0x1_0000_0000_0000_0000
  {
    if x < 0 then x as int + 0x1_0000_0000_0000_0000 else x as int
  }

  /** Some bit among the low n bits of a and of b is set in both. */
  predicate CommonBit(a: nat, b: nat, n: nat)
  {
    n > 0 && ((a % 2 == 1 && b % 2 == 1) || CommonBit(a / 2, b / 2, n - 1))
  }

  /** `($a & $b) != 0` on 64-bit two's-complement integers. */
  predicate AndNonZero(a: Int64, b: Int64)
  {
    CommonBit(Unsigned(a), Unsigned(b), 64)
  }

  lemma {:induction false} NoCommonBitWithZero(b: nat, n: nat)
    ensures !CommonBit(0, b, n)
  {
    if n > 0 {
      NoCommonBitWithZero(b / 2, n - 1);
    }
  }

  /** A mask of the low j bits shares a bit with every power of two below 2^j. */
  lemma {:induction false} LowOnesMeetPower(j: nat, k: nat, n: nat)
    requires k < j <= n
    ensures CommonBit(Pow2(j) - 1, Pow2(k), n)
    decreases k
  {
    if k > 0 {
      LowOnesMeetPower(j - 1, k - 1, n - 1);
      assert (Pow2(j) - 1) / 2 == Pow2(j - 1) - 1;
      assert Pow2(k) / 2 == Pow2(k - 1);
    }
  }

  /** A number whose bit 0 is clear shares no bit with 1. */
  lemma {:induction false} NoCommonBitWithOne(a: nat, n: nat)
    requires a % 2 == 0
    ensures !CommonBit(a, 1, n)
  {
    if n > 0 {
      NoCommonBitWithZeroRight(a / 2, n - 1);
    }
  }

  lemma {:induction false} NoCommonBitWithZeroRight(a: nat, n: nat)
    ensures !CommonBit(a, 0, n)
  {
    if n > 0 {
      NoCommonBitWithZeroRight(a / 2, n - 1);
    }
  }

  function Pow2(n: nat): (r: nat)
    ensures r >= 1
  {
    if n == 0 then 1 else 2 * Pow2(n - 1)
  }
}
