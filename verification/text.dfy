/**
  Character-level helpers with the meaning JavaScript gives them: decimal
  digits and `String(n)`, unary `+` on a string, `split`, `padStart`, and
  the `<` comparison of strings.
 */
module Text {
  import opened Wrappers

  predicate IsDigit(c: char) {
    '0' <= c <= '9'
  }

  predicate AllDigits(s: string) {
    forall i :: 0 <= i < |s| ==> IsDigit(s[i])
  }

  function DigitChar(d: nat): (c: char)
    requires d < 10
    ensures IsDigit(c)
  {
    ('0' as int + d) as char
  }

  function DigitValue(c: char): (d: nat)
    requires IsDigit(c)
    ensures d < 10 && DigitChar(d) == c
  {
    c as int - '0' as int
  }

  /** `String(n)` for a non-negative integer: the shortest decimal form. */
  function NatToString(n: nat): (s: string)
    ensures 1 <= |s| && AllDigits(s)
    ensures n < 10 <==> |s| == 1
    ensures s[0] == '0' <==> n == 0
    decreases n
  {
    if n < 10 then [DigitChar(n)] else NatToString(n / 10) + [DigitChar(n % 10)]
  }

  /** The value of a string of decimal digits; the empty string denotes 0. */
  function DigitsToNat(s: string): nat
    requires AllDigits(s)
    decreases |s|
  {
    if |s| == 0 then 0 else DigitsToNat(s[..|s| - 1]) * 10 + DigitValue(s[|s| - 1])
  }

  /** Reading back what `String(n)` wrote gives `n`. */
  lemma {:induction false} DigitsToNatOfNatToString(n: nat)
    ensures DigitsToNat(NatToString(n)) == n
    decreases n
  {
    var s := NatToString(n);
    if n < 10 {
      assert s[..0] == [];
    } else {
      DigitsToNatOfNatToString(n / 10);
      assert s[..|s| - 1] == NatToString(n / 10);
    }
  }

  /** Appending the digit `d` to the decimal form of `p` gives `10p + d`, and back. */
  lemma ShiftDigit(p: nat, d: nat)
    requires d < 10
    ensures (p * 10 + d) / 10 == p && (p * 10 + d) % 10 == d
  {
  }

  /**
    Any run of digits, leading zeros included, is the `|s|`-digit form of
    the value read from it: the reader loses nothing.
   */
  lemma {:induction false} DigitsOfDigitsToNat(s: string)
    requires AllDigits(s)
    ensures DigitsToNat(s) < Pow10(|s|) && Digits(DigitsToNat(s), |s|) == s
    decreases |s|
  {
    if |s| > 0 {
      var prefix := s[..|s| - 1];
      DigitsOfDigitsToNat(prefix);
      var n, d := DigitsToNat(s), DigitValue(s[|s| - 1]);
      ShiftDigit(DigitsToNat(prefix), d);
      assert Digits(n, |s|) == Digits(DigitsToNat(prefix), |prefix|) + [DigitChar(d)];
      assert s == prefix + [s[|s| - 1]];
    }
  }

  /**
    `s` spells `v` digit by digit, leading zeros included: its last
    character is the last decimal digit of `v`, and the rest of `s` spells
    the rest of `v`. The empty string spells 0 only.
   */
  predicate WrittenAs(v: nat, s: string)
    decreases |s|
  {
    if |s| == 0 then v == 0
    else IsDigit(s[|s| - 1]) && v % 10 == DigitValue(s[|s| - 1]) && WrittenAs(v / 10, s[..|s| - 1])
  }

  /** Spelling `v` is being the fixed-width digit form of `v` at the length of `s`. */
  lemma {:induction false} WrittenAsDigits(v: nat, s: string)
    ensures WrittenAs(v, s) <==> AllDigits(s) && v < Pow10(|s|) && Digits(v, |s|) == s
    decreases |s|
  {
    if |s| > 0 {
      var prefix, last := s[..|s| - 1], s[|s| - 1];
      WrittenAsDigits(v / 10, prefix);
      assert s == prefix + [last];
      var written := Digits(v / 10, |prefix|) + [DigitChar(v % 10)];
      assert Digits(v, |s|) == written;
      assert written == s <==> Digits(v / 10, |prefix|) == prefix && DigitChar(v % 10) == last by {
        if written == s {
          assert written[..|prefix|] == Digits(v / 10, |prefix|) && s[..|prefix|] == prefix;
          assert written[|prefix|] == DigitChar(v % 10);
        }
      }
      assert AllDigits(s) <==> AllDigits(prefix) && IsDigit(last) by {
        if AllDigits(prefix) && IsDigit(last) {
          forall i | 0 <= i < |s| ensures IsDigit(s[i]) {
            if i < |prefix| { assert s[i] == prefix[i]; }
          }
        }
        if AllDigits(s) {
          forall i | 0 <= i < |prefix| ensures IsDigit(prefix[i]) { assert prefix[i] == s[i]; }
        }
      }
    }
  }

  lemma NatToStringInjective(a: nat, b: nat)
    requires NatToString(a) == NatToString(b)
    ensures a == b
  {
    DigitsToNatOfNatToString(a);
    DigitsToNatOfNatToString(b);
  }

  /**
    Unary `+` applied to a string, for the strings the model admits: the
    empty string is 0 and a run of decimal digits is its value. Any other
    text (signs, blanks, hexadecimal, exponents, fractions) is left out and
    reported as `None`, standing for the `NaN` the source would produce.
   */
  function ToNumber(s: string): (r: Option<nat>)
    ensures r.Some? <==> AllDigits(s)
    ensures s == [] ==> r == Some(0)
    ensures r.Some? ==> WrittenAs(r.value, s)
  {
    if AllDigits(s) then
      DigitsOfDigitsToNat(s);
      WrittenAsDigits(DigitsToNat(s), s);
      Some(DigitsToNat(s))
    else None
  }

  lemma ToNumberOfNatToString(n: nat)
    ensures ToNumber(NatToString(n)) == Some(n)
  {
    DigitsToNatOfNatToString(n);
  }

  /** Concatenation of `parts` with `sep` between neighbours: `parts.join(sep)`. */
  function Join(parts: seq<string>, sep: char): string
    requires 1 <= |parts|
    decreases |parts|
  {
    if |parts| == 1 then parts[0] else parts[0] + [sep] + Join(parts[1..], sep)
  }

  /**
    `s.split(sep)` for a one-character separator: the maximal separator-free
    pieces, including empty ones at either end and between adjacent
    separators, so there is always at least one piece.
   */
  function Split(s: string, sep: char): (parts: seq<string>)
    ensures 1 <= |parts|
    ensures forall i :: 0 <= i < |parts| ==> sep !in parts[i]
    ensures Join(parts, sep) == s
    decreases |s|
  {
    if |s| == 0 then [[]]
    else
      var rest := Split(s[1..], sep);
      if s[0] == sep then
        assert s == [sep] + s[1..];
        [[]] + rest
      else
        var parts := [[s[0]] + rest[0]] + rest[1..];
        assert parts[1..] == rest[1..];
        if |rest| == 1 then
          parts
        else
          assert Join(rest, sep) == rest[0] + [sep] + Join(rest[1..], sep);
          assert s == [s[0]] + s[1..];
          parts
  }

  lemma {:induction false} SplitWithoutSeparator(s: string, sep: char)
    requires sep !in s
    ensures Split(s, sep) == [s]
    decreases |s|
  {
    if |s| > 0 {
      SplitWithoutSeparator(s[1..], sep);
      assert [s[0]] + s[1..] == s;
    }
  }

  lemma {:induction false} SplitAtFirstSeparator(a: string, sep: char, b: string)
    requires sep !in a
    ensures Split(a + [sep] + b, sep) == [a] + Split(b, sep)
    decreases |a|
  {
    var s := a + [sep] + b;
    if |a| == 0 {
      assert s[1..] == b;
    } else {
      assert s[1..] == a[1..] + [sep] + b;
      SplitAtFirstSeparator(a[1..], sep, b);
      assert [a[0]] + a[1..] == a;
    }
  }

  /** Splitting a join of separator-free pieces gives the pieces back. */
  lemma {:induction false} SplitJoin(parts: seq<string>, sep: char)
    requires 1 <= |parts|
    requires forall i :: 0 <= i < |parts| ==> sep !in parts[i]
    ensures Split(Join(parts, sep), sep) == parts
    decreases |parts|
  {
    if |parts| == 1 {
      SplitWithoutSeparator(parts[0], sep);
    } else {
      SplitJoin(parts[1..], sep);
      SplitAtFirstSeparator(parts[0], sep, Join(parts[1..], sep));
      assert [parts[0]] + parts[1..] == parts;
    }
  }

  /** `s.padStart(width, fill)` for a one-character fill string. */
  function PadStart(s: string, width: nat, fill: char): (r: string)
    ensures |r| == if |s| < width then width else |s|
  {
    if |s| < width then seq(width - |s|, _ => fill) + s else s
  }

  function Pow10(w: nat): (p: nat)
    ensures 1 <= p
  {
    if w == 0 then 1 else 10 * Pow10(w - 1)
  }

  /** The last `w` decimal digits of `n`, most significant first. */
  function Digits(n: nat, w: nat): (s: string)
    ensures |s| == w && AllDigits(s)
  {
    if w == 0 then [] else Digits(n / 10, w - 1) + [DigitChar(n % 10)]
  }

  /** A number with exactly `w` digits is written by `String` as those digits. */
  lemma {:induction false} NatToStringIsDigits(n: nat, w: nat)
    requires 1 <= w && Pow10(w - 1) <= n < Pow10(w)
    ensures NatToString(n) == Digits(n, w)
    decreases w
  {
    if w == 1 {
      assert Digits(n / 10, 0) == [];
    } else {
      assert 10 <= n;
      NatToStringIsDigits(n / 10, w - 1);
    }
  }

  /** Zero-padding a number below 100 to two places gives its two digits. */
  lemma PadTwoIsDigits(n: nat)
    requires n < 100
    ensures PadStart(NatToString(n), 2, '0') == Digits(n, 2)
  {
    if n < 10 {
      assert Digits(n / 10, 1) == [DigitChar(0)];
    } else {
      NatToStringIsDigits(n, 2);
    }
  }

  /** JavaScript's `a < b` on strings: lexicographic order by character code. */
  predicate LexLess(a: string, b: string)
    decreases |a|
  {
    if |a| == 0 then 0 < |b|
    else if |b| == 0 then false
    else if a[0] != b[0] then a[0] < b[0]
    else LexLess(a[1..], b[1..])
  }

  /**
    Comparing two concatenations whose first parts have the same length
    compares the first parts, and the second parts only on a tie.
   */
  lemma {:induction false} LexLessConcat(a1: string, b1: string, a2: string, b2: string)
    requires |a1| == |a2|
    ensures LexLess(a1 + b1, a2 + b2) <==> LexLess(a1, a2) || (a1 == a2 && LexLess(b1, b2))
    decreases |a1|
  {
    if |a1| == 0 {
      assert a1 + b1 == b1 && a2 + b2 == b2;
    } else {
      assert (a1 + b1)[1..] == a1[1..] + b1;
      assert (a2 + b2)[1..] == a2[1..] + b2;
      LexLessConcat(a1[1..], b1, a2[1..], b2);
      if a1[0] == a2[0] && a1[1..] == a2[1..] {
        assert a1 == [a1[0]] + a1[1..] && a2 == [a2[0]] + a2[1..];
      }
    }
  }

  /** Equal concatenations with equally long first parts have equal parts. */
  lemma ConcatSplitEqual(a1: string, b1: string, a2: string, b2: string)
    requires |a1| == |a2| && a1 + b1 == a2 + b2
    ensures a1 == a2 && b1 == b2
  {
    assert a1 == (a1 + b1)[..|a1|];
    assert a2 == (a2 + b2)[..|a2|];
    assert b1 == (a1 + b1)[|a1|..];
    assert b2 == (a2 + b2)[|a2|..];
  }

  /**
    Fixed-width digit strings compare as their numbers do, and are equal
    exactly when the numbers are.
   */
  lemma {:induction false} DigitsOrder(n: nat, m: nat, w: nat)
    requires n < Pow10(w) && m < Pow10(w)
    ensures LexLess(Digits(n, w), Digits(m, w)) <==> n < m
    ensures Digits(n, w) == Digits(m, w) <==> n == m
    decreases w
  {
    if w > 0 {
      DigitsOrder(n / 10, m / 10, w - 1);
      var dn, dm := [DigitChar(n % 10)], [DigitChar(m % 10)];
      LexLessConcat(Digits(n / 10, w - 1), dn, Digits(m / 10, w - 1), dm);
      if Digits(n, w) == Digits(m, w) {
        ConcatSplitEqual(Digits(n / 10, w - 1), dn, Digits(m / 10, w - 1), dm);
        assert DigitValue(dn[0]) == n % 10 && DigitValue(dm[0]) == m % 10;
      }
    }
  }

  /** `LexLessConcat` and `ConcatSplitEqual` together, for parts of equal lengths. */
  lemma ConcatCompare(a1: string, b1: string, a2: string, b2: string)
    requires |a1| == |a2| && |b1| == |b2|
    ensures LexLess(a1 + b1, a2 + b2) <==> LexLess(a1, a2) || (a1 == a2 && LexLess(b1, b2))
    ensures a1 + b1 == a2 + b2 <==> a1 == a2 && b1 == b2
  {
    LexLessConcat(a1, b1, a2, b2);
    if a1 + b1 == a2 + b2 {
      ConcatSplitEqual(a1, b1, a2, b2);
    }
  }
}
