/** Strings as the exam screen handles them: JavaScript's String.prototype.split,
    padStart and the number <-> string conversions it relies on, over `seq<char>`. */
module Text {

  datatype Option<+T> = None | Some(value: T)

  predicate IsDigit(c: char) { '0' <= c <= '9' }

  predicate AllDigits(s: string) { forall i :: 0 <= i < |s| ==> IsDigit(s[i]) }

  /** A non-empty run of decimal digits. */
  predicate IsNumeral(s: string) { |s| > 0 && AllDigits(s) }

  /** Value of a run of decimal digits, most significant first (empty is 0). */
  function DigitsValue(s: string): nat
    requires AllDigits(s)
  {
    if |s| == 0 then 0 else DigitsValue(s[..|s| - 1]) * 10 + (s[|s| - 1] as int - '0' as int)
  }

  function DigitChar(n: nat): (c: char)
    requires n < 10
    ensures IsDigit(c) && c as int - '0' as int == n
  {
    (n + '0' as int) as char
  }

  /** Decimal numeral of a natural number without leading zeros, as Number.prototype.toString writes it. */
  function NatToString(n: nat): (r: string)
    ensures |r| > 0
  {
    if n < 10 then [DigitChar(n)] else NatToString(n / 10) + [DigitChar(n % 10)]
  }

  /** NatToString writes digits only, denotes `n`, and starts with '0' only for zero itself. */
  lemma {:induction false} NatToStringDigits(n: nat)
    ensures IsNumeral(NatToString(n)) && DigitsValue(NatToString(n)) == n
    ensures n > 0 ==> NatToString(n)[0] != '0'
  {
    if n >= 10 {
      NatToStringDigits(n / 10);
      var r := NatToString(n);
      assert r[..|r| - 1] == NatToString(n / 10);
      assert r[0] == NatToString(n / 10)[0];
    }
  }

  /** Number.prototype.toString on an integer: a minus sign, then the digits of the magnitude. */
  function IntToString(n: int): string
  {
    if n < 0 then "-" + NatToString(-n) else NatToString(n)
  }

  /** Number(s) on a run of digits with an optional minus sign, the only text toString and padStart produce here;
      other text (which JavaScript may still read as a number) gives None. */
  function ToNumber(s: string): Option<int>
  {
    if IsNumeral(s) then Some(DigitsValue(s) as int)
    else if |s| > 1 && s[0] == '-' && IsNumeral(s[1..]) then Some(-(DigitsValue(s[1..]) as int))
    else None
  }

  /** The JavaScript comparison `s > 0` for a string `s` of the form ToNumber reads: true exactly when it denotes
      a positive number. */
  predicate IsPositiveNumber(s: string)
  {
    var v := ToNumber(s); v.Some? && v.value > 0
  }

  /** `n` copies of `c`. */
  function Repeat(c: char, n: nat): (r: string)
    ensures |r| == n
  {
    if n == 0 then [] else [c] + Repeat(c, n - 1)
  }

  /** String.prototype.padStart(width, fill) with a one-character fill: fill characters in front of `s`
      up to `width` characters; a string already that long is returned as it is. */
  function PadStart(s: string, width: nat, fill: char): (r: string)
    ensures |r| == if |s| < width then width else |s|
  {
    if |s| >= width then s else [fill] + PadStart(s, width - 1, fill)
  }

  /** The padded string is `s` itself behind as many fill characters as were missing. */
  lemma {:induction false} PadStartShape(s: string, width: nat, fill: char)
    ensures PadStart(s, width, fill) == Repeat(fill, |PadStart(s, width, fill)| - |s|) + s
  {
    if |s| >= width {
      assert Repeat(fill, 0) + s == s;
    } else {
      PadStartShape(s, width - 1, fill);
      var r := PadStart(s, width, fill);
      assert r == ([fill] + Repeat(fill, |r| - 1 - |s|)) + s;
    }
  }

  /** padStart(2, '0'), used for every component of the countdown and the form's values. */
  function Pad2(s: string): string
  {
    PadStart(s, 2, '0')
  }

  lemma {:induction false} LeadingZeroKeepsValue(s: string)
    requires AllDigits(s)
    ensures AllDigits(['0'] + s) && DigitsValue(['0'] + s) == DigitsValue(s)
  {
    var z := ['0'] + s;
    if |s| > 0 {
      assert z[..|z| - 1] == ['0'] + s[..|s| - 1];
      LeadingZeroKeepsValue(s[..|s| - 1]);
    }
  }

  /** Leading zeros never change the number a numeral denotes. */
  lemma {:induction false} LeadingZerosKeepValue(s: string, k: nat)
    requires AllDigits(s)
    ensures AllDigits(Repeat('0', k) + s) && DigitsValue(Repeat('0', k) + s) == DigitsValue(s)
  {
    if k == 0 {
      assert Repeat('0', k) + s == s;
    } else {
      LeadingZerosKeepValue(s, k - 1);
      assert Repeat('0', k) + s == ['0'] + (Repeat('0', k - 1) + s);
      LeadingZeroKeepsValue(Repeat('0', k - 1) + s);
    }
  }

  /** The padded decimal form of a natural number reads back as that number. */
  lemma PaddedNumeral(n: nat, width: nat)
    ensures IsNumeral(PadStart(NatToString(n), width, '0'))
    ensures DigitsValue(PadStart(NatToString(n), width, '0')) == n
  {
    var s := NatToString(n);
    NatToStringDigits(n);
    PadStartShape(s, width, '0');
    LeadingZerosKeepValue(s, |PadStart(s, width, '0')| - |s|);
  }

  /** Comparing a padded countdown component with 0, as JavaScript does after coercing it back to a number,
      gives the same answer as comparing the integer itself. */
  lemma {:induction false} PaddedIntToNumber(n: int)
    ensures ToNumber(Pad2(IntToString(n))) == Some(n)
    ensures IsPositiveNumber(Pad2(IntToString(n))) <==> n > 0
  {
    if n >= 0 {
      PaddedNumeral(n, 2);
    } else {
      var s := IntToString(n);
      NatToStringDigits(-n);
      assert s[1..] == NatToString(-n);
      assert Pad2(s) == s;
    }
  }

  /** String.prototype.split with a one-character separator: the fields between separators, always at least one. */
  function Split(s: string, sep: char): (r: seq<string>)
    ensures |r| >= 1
    ensures forall i :: 0 <= i < |r| ==> sep !in r[i]
  {
    if |s| == 0 then [""]
    else
      var rest := Split(s[1..], sep);
      if s[0] == sep then [""] + rest
      else [[s[0]] + rest[0]] + rest[1..]
  }

  /** Array.prototype.join with a one-character separator: the inverse of Split. */
  function Join(parts: seq<string>, sep: char): string
  {
    if |parts| == 0 then ""
    else if |parts| == 1 then parts[0]
    else parts[0] + [sep] + Join(parts[1..], sep)
  }

  lemma {:induction false} JoinSplit(s: string, sep: char)
    ensures Join(Split(s, sep), sep) == s
  {
    if |s| > 0 {
      var rest := Split(s[1..], sep);
      JoinSplit(s[1..], sep);
      if s[0] == sep {
        assert Split(s, sep)[1..] == rest;
      } else {
        var r := Split(s, sep);
        assert r[1..] == rest[1..];
        if |rest| > 1 {
          assert rest[1..][1..] == rest[2..];
          assert Join(rest, sep) == rest[0] + [sep] + Join(rest[1..], sep);
        }
      }
    }
  }

  /** Splitting at a separator that the first field does not contain yields that field, then the rest. */
  lemma {:induction false} SplitAtFirst(a: string, sep: char, b: string)
    requires sep !in a
    ensures Split(a + [sep] + b, sep) == [a] + Split(b, sep)
  {
    if |a| == 0 {
      assert (a + [sep] + b)[1..] == b;
    } else {
      assert (a + [sep] + b)[1..] == a[1..] + [sep] + b;
      SplitAtFirst(a[1..], sep, b);
      assert [a[0]] + a[1..] == a;
    }
  }

  /** A string without the separator is a single field. */
  lemma {:induction false} SplitNoSeparator(a: string, sep: char)
    requires sep !in a
    ensures Split(a, sep) == [a]
  {
    if |a| > 0 {
      SplitNoSeparator(a[1..], sep);
      assert [a[0]] + a[1..] == a;
    }
  }

  /** Joining fields that do not contain the separator and splitting again gives the fields back. */
  lemma {:induction false} SplitJoin(parts: seq<string>, sep: char)
    requires |parts| >= 1
    requires forall i :: 0 <= i < |parts| ==> sep !in parts[i]
    ensures Split(Join(parts, sep), sep) == parts
  {
    if |parts| == 1 {
      SplitNoSeparator(parts[0], sep);
    } else {
      SplitJoin(parts[1..], sep);
      SplitAtFirst(parts[0], sep, Join(parts[1..], sep));
      assert [parts[0]] + parts[1..] == parts;
    }
  }

  /** No digit is a separator the model splits on. */
  lemma SeparatorNotInDigits(s: string, c: char)
    requires AllDigits(s) && !IsDigit(c)
    ensures c !in s
  {
  }
}
