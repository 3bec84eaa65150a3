/**
 * Text helpers shared by the client: numerals as Rust formats unsigned integers in
 * decimal and in upper-case hexadecimal, ASCII case folding, and substring search.
 */
module Text {

  /** A radix the formatter is used with here: decimal or hexadecimal. */
  predicate IsRadix(radix: nat)
  {
    radix == 10 || radix == 16
  }

  /** The character for digit value `d`: `0`-`9`, then upper-case `A`-`F`. */
  function DigitChar(d: nat): (c: char)
    requires d < 16
    ensures d < 10 ==> '0' <= c <= '9' && c as int - '0' as int == d
    ensures d >= 10 ==> 'A' <= c <= 'F' && c as int - 'A' as int == d - 10
  {
    if d < 10 then ('0' as int + d) as char else ('A' as int + (d - 10)) as char
  }

  /** `c` is a digit of `radix`; hexadecimal letters are upper case only. */
  predicate IsDigitOf(c: char, radix: nat)
    requires IsRadix(radix)
  {
    ('0' <= c <= '9' && (c as int - '0' as int) < radix) || (radix == 16 && 'A' <= c <= 'F')
  }

  /** The value of a digit character. */
  function DigitValue(c: char, radix: nat): (d: nat)
    requires IsRadix(radix) && IsDigitOf(c, radix)
    ensures d < radix && DigitChar(d) == c
  {
    if '0' <= c <= '9' then c as int - '0' as int else c as int - 'A' as int + 10
  }

  /** Every character of `s` is a digit of `radix`. */
  predicate AllDigits(s: string, radix: nat)
    requires IsRadix(radix)
  {
    s == [] || (AllDigits(s[..|s| - 1], radix) && IsDigitOf(s[|s| - 1], radix))
  }

  /** `AllDigits` says of each character what its name says. */
  lemma {:induction false} AllDigitsEach(s: string, radix: nat)
    requires IsRadix(radix)
    ensures AllDigits(s, radix) <==> forall i :: 0 <= i < |s| ==> IsDigitOf(s[i], radix)
  {
    if s != [] {
      AllDigitsEach(s[..|s| - 1], radix);
      assert forall i :: 0 <= i < |s| - 1 ==> s[..|s| - 1][i] == s[i];
    }
  }

  /**
   * `n` written in `radix` with no padding: digits of `radix` only, most significant
   * first, and a leading `0` only for zero itself.
   */
  function Numeral(n: nat, radix: nat): (s: string)
    requires IsRadix(radix)
    ensures |s| >= 1 && AllDigits(s, radix)
    ensures s[0] == '0' <==> n == 0
    decreases n
  {
    if n < radix then
      var c := DigitChar(n);
      assert [c][..0] == [] && AllDigits([], radix) && IsDigitOf(c, radix);
      [c]
    else
      var init := Numeral(n / radix, radix);
      assert (init + [DigitChar(n % radix)])[..|init|] == init;
      init + [DigitChar(n % radix)]
  }

  /** A numeral as the formatter writes it: non-empty, digits of `radix`, no leading zero. */
  predicate IsNumeral(s: string, radix: nat)
    requires IsRadix(radix)
  {
    |s| >= 1 && AllDigits(s, radix) && (s[0] == '0' ==> |s| == 1)
  }

  /** The value of a string of digits of `radix`, most significant first. */
  function NumeralValue(s: string, radix: nat): nat
    requires IsRadix(radix) && AllDigits(s, radix)
  {
    if s == [] then 0
    else NumeralValue(s[..|s| - 1], radix) * radix + DigitValue(s[|s| - 1], radix)
  }

  /** Reading back what `Numeral` wrote gives the number. */
  lemma {:induction false} NumeralValueOfNumeral(n: nat, radix: nat)
    requires IsRadix(radix)
    ensures NumeralValue(Numeral(n, radix), radix) == n
    decreases n
  {
    var s := Numeral(n, radix);
    if n < radix {
      assert s[..0] == [];
    } else {
      NumeralValueOfNumeral(n / radix, radix);
      assert s[..|s| - 1] == Numeral(n / radix, radix);
    }
  }

  /** A numeral whose first digit is not `0` has a positive value. */
  lemma {:induction false} NumeralValuePositive(s: string, radix: nat)
    requires IsRadix(radix)
    requires |s| >= 1 && AllDigits(s, radix)
    requires s[0] != '0'
    ensures NumeralValue(s, radix) >= 1
  {
    if |s| == 1 {
      assert s[..0] == [];
    } else {
      NumeralValuePositive(s[..|s| - 1], radix);
    }
  }

  /** A number splits into a multiple of the radix and one digit in only one way. */
  lemma DigitSplitUnique(qa: nat, da: nat, qb: nat, db: nat, radix: nat)
    requires IsRadix(radix) && da < radix && db < radix
    requires qa * radix + da == qb * radix + db
    ensures qa == qb && da == db
  {
  }

  /** A numeral of two or more digits is at least the radix. */
  lemma NumeralValueAtLeastRadix(s: string, radix: nat)
    requires IsRadix(radix) && IsNumeral(s, radix) && |s| >= 2
    ensures NumeralValue(s, radix) >= radix
  {
    var p := s[..|s| - 1];
    assert p[0] == s[0];
    NumeralValuePositive(p, radix);
    var q := NumeralValue(p, radix);
    assert q * radix >= radix;
  }

  /** Two numerals in the formatter's form with the same value are the same string. */
  lemma {:induction false} NumeralValueInjective(a: string, b: string, radix: nat)
    requires IsRadix(radix) && IsNumeral(a, radix) && IsNumeral(b, radix)
    requires NumeralValue(a, radix) == NumeralValue(b, radix)
    ensures a == b
  {
    if |a| == 1 && |b| == 1 {
      assert a[..0] == [] && b[..0] == [];
    } else if |a| == 1 {
      assert a[..0] == [];
      NumeralValueAtLeastRadix(b, radix);
    } else if |b| == 1 {
      assert b[..0] == [];
      NumeralValueAtLeastRadix(a, radix);
    } else {
      var pa, pb := a[..|a| - 1], b[..|b| - 1];
      DigitSplitUnique(NumeralValue(pa, radix), DigitValue(a[|a| - 1], radix),
                       NumeralValue(pb, radix), DigitValue(b[|b| - 1], radix), radix);
      assert pa[0] == a[0] && pb[0] == b[0];
      NumeralValueInjective(pa, pb, radix);
      assert a == pa + [a[|a| - 1]] && b == pb + [b[|b| - 1]];
    }
  }

  /** Every numeral in the formatter's form is written back exactly: `Numeral` is onto them. */
  lemma NumeralOfNumeralValue(s: string, radix: nat)
    requires IsRadix(radix) && IsNumeral(s, radix)
    ensures Numeral(NumeralValue(s, radix), radix) == s
  {
    var v := NumeralValue(s, radix);
    var t := Numeral(v, radix);
    NumeralValueOfNumeral(v, radix);
    if v == 0 {
      assert t == [DigitChar(0)];
    }
    NumeralValueInjective(t, s, radix);
  }

  /** ASCII lower-casing of one character; every other character is left alone. */
  function AsciiLower(c: char): (l: char)
    ensures !('A' <= l <= 'Z')
    ensures 'A' <= c <= 'Z' ==> l as int == c as int + 32
    ensures !('A' <= c <= 'Z') ==> l == c
  {
    if 'A' <= c <= 'Z' then (c as int + 32) as char else c
  }

  /** A string lower-cased character by character. */
  function Lower(s: string): (l: string)
    ensures |l| == |s|
  {
    seq(|s|, i requires 0 <= i < |s| => AsciiLower(s[i]))
  }

  /** Lower-casing twice is lower-casing once. */
  lemma LowerIdempotent(s: string)
    ensures Lower(Lower(s)) == Lower(s)
  {
  }

  /** `pattern` occurs in `text` starting at index `i`. */
  predicate OccursAt(text: string, pattern: string, i: int)
  {
    0 <= i && i + |pattern| <= |text| && text[i..i + |pattern|] == pattern
  }

  /** Substring search, trying each start position from the left. */
  function Contains(text: string, pattern: string): (r: bool)
    ensures r <==> exists i :: OccursAt(text, pattern, i)
    decreases |text|
  {
    if |pattern| > |text| then false
    else if text[..|pattern|] == pattern then (assert OccursAt(text, pattern, 0); true)
    else (
      var r := Contains(text[1..], pattern);
      assert forall i :: OccursAt(text[1..], pattern, i) ==> OccursAt(text, pattern, i + 1) by {
        forall i | OccursAt(text[1..], pattern, i) ensures OccursAt(text, pattern, i + 1) {
          assert text[i + 1..i + 1 + |pattern|] == text[1..][i..i + |pattern|];
        }
      }
      assert forall i :: OccursAt(text, pattern, i) ==> i >= 1 && OccursAt(text[1..], pattern, i - 1) by {
        forall i | OccursAt(text, pattern, i) ensures i >= 1 && OccursAt(text[1..], pattern, i - 1) {
          assert i != 0;
          assert text[1..][i - 1..i - 1 + |pattern|] == text[i..i + |pattern|];
        }
      }
      r)
  }
}
