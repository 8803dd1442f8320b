/**
 String helpers shared by the content transformer and the identifier mangler:
 single-character replacement (what `String.Replace` does when the searched
 string is one character long, an ordinal comparison) and the formatting of
 a natural number in a radix (the `{n}` and `{n:X}` interpolations).
 */
module Strings {

  /** The number of occurrences of `c` in `s`. */
  function Count(s: string, c: char): nat
  {
    if s == [] then 0 else (if s[0] == c then 1 else 0) + Count(s[1..], c)
  }

  /** `s` with every occurrence of `c` replaced by `rep`. */
  function ReplaceChar(s: string, c: char, rep: string): string
  {
    if s == [] then ""
    else (if s[0] == c then rep else [s[0]]) + ReplaceChar(s[1..], c, rep)
  }

  /** Each occurrence of `c` gives way to `rep`; every other character stays. */
  lemma {:induction false} ReplaceCharLength(s: string, c: char, rep: string)
    ensures |ReplaceChar(s, c, rep)| == |s| - Count(s, c) + Count(s, c) * |rep|
  {
    if s != [] {
      ReplaceCharLength(s[1..], c, rep);
    }
  }

  lemma AppendAssociative<T>(x: seq<T>, y: seq<T>, z: seq<T>)
    ensures x + (y + z) == (x + y) + z
  {
  }

  lemma CountAppend(a: string, b: string, c: char)
    ensures Count(a + b, c) == Count(a, c) + Count(b, c)
  {
    if a == [] {
      assert a + b == b;
    } else {
      assert (a + b)[0] == a[0];
      assert (a + b)[1..] == a[1..] + b;
      CountAppend(a[1..], b, c);
    }
  }

  lemma {:induction false} ReplaceCharAppend(a: string, b: string, c: char, rep: string)
    ensures ReplaceChar(a + b, c, rep) == ReplaceChar(a, c, rep) + ReplaceChar(b, c, rep)
  {
    if a == [] {
      assert a + b == b;
    } else {
      assert (a + b)[0] == a[0];
      assert (a + b)[1..] == a[1..] + b;
      ReplaceCharAppend(a[1..], b, c, rep);
    }
  }

  lemma ReplaceCharSingle(x: char, c: char, rep: string)
    ensures ReplaceChar([x], c, rep) == if x == c then rep else [x]
  {
    assert [x][1..] == [];
  }

  /** Replacing a character that does not occur changes nothing. */
  lemma {:induction false} ReplaceCharAbsent(s: string, c: char, rep: string)
    requires c !in s
    ensures ReplaceChar(s, c, rep) == s
  {
    if s != [] {
      assert s == [s[0]] + s[1..];
      ReplaceCharAbsent(s[1..], c, rep);
    }
  }

  // ---------------------------------------------------------------------
  // Numerals
  // ---------------------------------------------------------------------

  /** Digits as the invariant culture writes them; `X` formatting uses the upper-case letters. */
  const DigitChars: string := "0123456789ABCDEF"

  function DigitValue(ch: char): nat
  {
    if '0' <= ch <= '9' then ch as int - '0' as int
    else if 'A' <= ch <= 'F' then ch as int - 'A' as int + 10
    else 0
  }

  /** The radixes the generator formats with: `{n}` (decimal) and `{n:X}` (hexadecimal). */
  predicate IsRadix(radix: nat)
  {
    radix == 10 || radix == 16
  }

  /** Euclidean division by a supported radix, split so the solver divides by a literal. */
  function DivMod(n: nat, radix: nat): (qr: (nat, nat))
    requires IsRadix(radix)
    ensures qr.0 * radix + qr.1 == n
    ensures qr.1 < radix
    ensures n >= radix ==> 0 < qr.0 < n
  {
    if radix == 10 then (n / 10, n % 10) else (n / 16, n % 16)
  }

  /** `n` written in `radix` with no leading zeros: `n.ToString()` for radix 10, `n.ToString("X")` for 16.
      Only zero itself is written with a leading `0`, so U+00E9 is `E9`, not `00E9`. */
  function NatToString(n: nat, radix: nat): (r: string)
    requires IsRadix(radix)
    ensures |r| > 0
    ensures forall i :: 0 <= i < |r| ==> r[i] in DigitChars
    ensures r[0] == '0' <==> n == 0
    decreases n
  {
    if n < radix then
      DigitCharZero(n);
      [DigitChars[n]]
    else
      var qr := DivMod(n, radix);
      NatToString(qr.0, radix) + [DigitChars[qr.1]]
  }

  /** The only digit written `0` is zero. */
  lemma DigitCharZero(d: nat)
    requires d < 16
    ensures DigitChars[d] == '0' <==> d == 0
  {
  }

  /** The value of a numeral, reading digits most significant first. */
  function ParseNat(s: string, radix: nat): nat
  {
    if s == [] then 0 else ParseNat(s[..|s| - 1], radix) * radix + DigitValue(s[|s| - 1])
  }

  lemma DigitValueOfDigitChar(d: nat)
    requires d < 16
    ensures DigitValue(DigitChars[d]) == d
  {
  }

  /** Reading a formatted numeral back gives the number: the summary count and
      the `_uXXXX_` escapes lose no information. */
  lemma {:induction false} ParseNatToString(n: nat, radix: nat)
    requires IsRadix(radix)
    ensures ParseNat(NatToString(n, radix), radix) == n
    decreases n
  {
    var r := NatToString(n, radix);
    if n < radix {
      DigitValueOfDigitChar(n);
      assert r[..0] == [];
    } else {
      var qr := DivMod(n, radix);
      var q := NatToString(qr.0, radix);
      assert r[..|r| - 1] == q;
      DigitValueOfDigitChar(qr.1);
      ParseNatToString(qr.0, radix);
    }
  }
}
