/**
 * The few JavaScript string operations the walk planner relies on:
 * `String(n)` of an integer, `padStart`, `split` on one character,
 * `Number` of a decimal numeral and `startsWith`.
 */
module JsText {

  predicate IsDigit(c: char) {
    '0' <= c <= '9'
  }

  predicate AllDigits(s: string) {
    forall i :: 0 <= i < |s| ==> IsDigit(s[i])
  }

  function DigitChar(d: nat): (c: char)
    requires d < 10
    ensures IsDigit(c) && c as int - '0' as int == d
  {
    ('0' as int + d) as char
  }

  /** The value of a string of decimal digits, most significant first; `""` is 0. */
  function DigitsValue(s: string): nat
    requires AllDigits(s)
  {
    if s == [] then 0
    else DigitsValue(s[..|s| - 1]) * 10 + (s[|s| - 1] as int - '0' as int)
  }

  /** `String(n)` for a natural number: its shortest decimal numeral. */
  function NatString(n: nat): string {
    if n < 10 then [DigitChar(n)] else NatString(n / 10) + [DigitChar(n % 10)]
  }

  /** `String(n)` is a non-empty string of digits without a leading zero that
      reads back as `n`; it is one digit long exactly when `n < 10`. */
  lemma {:induction false} NatStringDigits(n: nat)
    ensures var s := NatString(n);
            |s| >= 1 && AllDigits(s) && DigitsValue(s) == n &&
            (|s| > 1 ==> s[0] != '0') && (n < 10 <==> |s| == 1)
  {
    if n >= 10 {
      NatStringDigits(n / 10);
      var s := NatString(n);
      assert s[..|s| - 1] == NatString(n / 10);
    }
  }

  /** `String(i)` for an integer: a minus sign before the numeral of a negative one. */
  function IntString(i: int): string
    decreases if i < 0 then 1 else 0
  {
    if i < 0 then "-" + IntString(-i) else NatString(i)
  }

  /** `s.padStart(width, fill)`: prefixes copies of `fill` until `s` is `width` long. */
  function PadStart(s: string, width: nat, fill: char): string {
    if |s| >= width then s else seq(width - |s|, _ => fill) + s
  }

  /** `padStart` keeps `s` as a suffix, prefixes only `fill`, and gives at least `width` characters. */
  lemma PadStartShape(s: string, width: nat, fill: char)
    ensures var r := PadStart(s, width, fill);
            |r| == (if |s| >= width then |s| else width) &&
            r[|r| - |s|..] == s &&
            (forall i :: 0 <= i < |r| - |s| ==> r[i] == fill)
  {
  }

  /** `s.split([sep])`: the pieces between occurrences of `sep`, always at least one. */
  function Split(s: string, sep: char): (parts: seq<string>)
    ensures |parts| >= 1
    ensures forall i :: 0 <= i < |parts| ==> sep !in parts[i]
  {
    if s == [] then [[]]
    else
      var tail := Split(s[1..], sep);
      if s[0] == sep then [[]] + tail
      else [[s[0]] + tail[0]] + tail[1..]
  }

  /** `parts.join([sep])`, the inverse of `Split`. */
  function Join(parts: seq<string>, sep: char): string
    requires |parts| >= 1
  {
    if |parts| == 1 then parts[0] else parts[0] + [sep] + Join(parts[1..], sep)
  }

  /** The strings `Number` reads as an integer in this model: digits (the empty string
      reads as 0) or a minus sign followed by at least one digit. */
  predicate IsNumeral(s: string) {
    AllDigits(s) || (|s| >= 2 && s[0] == '-' && AllDigits(s[1..]))
  }

  /** `Number(s)` for a numeral. */
  function NumberValue(s: string): int
    requires IsNumeral(s)
  {
    if |s| >= 1 && s[0] == '-' then 0 - DigitsValue(s[1..]) as int else DigitsValue(s)
  }

  predicate StartsWith(s: string, prefix: string) {
    |prefix| <= |s| && s[..|prefix|] == prefix
  }

  lemma {:induction false} JoinSplit(s: string, sep: char)
    ensures Join(Split(s, sep), sep) == s
  {
    if s != [] {
      JoinSplit(s[1..], sep);
      var tail := Split(s[1..], sep);
      if s[0] == sep {
        assert Split(s, sep)[1..] == tail;
      } else {
        var parts := Split(s, sep);
        assert parts[1..] == tail[1..];
        if |tail| > 1 {
          assert tail[1..] == tail[1..][0..];
          assert Join(tail, sep) == tail[0] + [sep] + Join(tail[1..], sep);
        }
      }
    }
  }

  lemma {:induction false} SplitWithoutSeparator(s: string, sep: char)
    requires sep !in s
    ensures Split(s, sep) == [s]
  {
    if s != [] {
      SplitWithoutSeparator(s[1..], sep);
      assert [s[0]] + s[1..] == s;
    }
  }

  /** Splitting at the first separator peels off the text before it. */
  lemma {:induction false} SplitAtFirst(a: string, b: string, sep: char)
    requires sep !in a
    ensures Split(a + [sep] + b, sep) == [a] + Split(b, sep)
  {
    if a == [] {
      assert a + [sep] + b == [sep] + b;
      assert ([sep] + b)[1..] == b;
    } else {
      var s := a + [sep] + b;
      assert s[0] == a[0] && s[1..] == a[1..] + [sep] + b;
      SplitAtFirst(a[1..], b, sep);
      assert [a[0]] + a[1..] == a;
    }
  }

  lemma {:induction false} ZerosValue(z: string)
    requires forall i :: 0 <= i < |z| ==> z[i] == '0'
    ensures AllDigits(z) && DigitsValue(z) == 0
  {
    if z != [] {
      ZerosValue(z[..|z| - 1]);
    }
  }

  /** Leading zeros do not change the value of a numeral. */
  lemma {:induction false} LeadingZerosValue(z: string, s: string)
    requires forall i :: 0 <= i < |z| ==> z[i] == '0'
    requires AllDigits(s)
    ensures AllDigits(z + s) && DigitsValue(z + s) == DigitsValue(s)
  {
    if s == [] {
      assert z + s == z;
      ZerosValue(z);
    } else {
      var w := z + s;
      assert w[..|w| - 1] == z + s[..|s| - 1];
      LeadingZerosValue(z, s[..|s| - 1]);
    }
  }

  /** `String(n).padStart(width, "0")` still reads as `n`. */
  lemma ZeroPaddedValue(n: nat, width: nat)
    ensures AllDigits(PadStart(NatString(n), width, '0'))
    ensures DigitsValue(PadStart(NatString(n), width, '0')) == n
  {
    var s := NatString(n);
    var r := PadStart(s, width, '0');
    NatStringDigits(n);
    PadStartShape(s, width, '0');
    var z := r[..|r| - |s|];
    assert r == z + s;
    LeadingZerosValue(z, s);
  }
}
