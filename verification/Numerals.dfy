/** The numbers and separated lists that the printers write, with their readers. */
module Numerals {

  // ----- Digits: %u and %x -----

  predicate Base(base: nat) {
    base == 10 || base == 16
  }

  function Digit(d: nat): (c: char)
    requires d < 16
  {
    if d < 10 then (48 + d) as char else (87 + d) as char
  }

  lemma DigitIs(d: nat)
    requires d < 16
    ensures Digit(d) == "0123456789abcdef"[d]
  {
  }

  predicate IsDigit(c: char, base: nat) {
    '0' <= c <= '9' || (base == 16 && 'a' <= c <= 'f')
  }

  predicate AllDigits(s: string, base: nat) {
    forall i :: 0 <= i < |s| ==> IsDigit(s[i], base)
  }

  function DigitValue(c: char, base: nat): (d: nat)
    requires Base(base) && IsDigit(c, base)
    ensures d < base && Digit(d) == c
  {
    if c <= '9' then c as int - 48 else c as int - 87
  }

  function Digits(n: nat, base: nat): (s: string)
    requires Base(base)
    ensures |s| >= 1 && AllDigits(s, base)
  {
    if n < base then [Digit(n)] else Digits(n / base, base) + [Digit(n % base)]
  }

  function Value(s: string, base: nat): nat
    requires Base(base) && AllDigits(s, base)
  {
    if s == "" then 0
    else base * Value(s[..|s| - 1], base) + DigitValue(s[|s| - 1], base)
  }

  lemma {:induction false} ReadDigits(n: nat, base: nat)
    requires Base(base)
    ensures Value(Digits(n, base), base) == n
  {
    if n >= base {
      ReadDigits(n / base, base);
      var s := Digits(n, base);
      assert s[..|s| - 1] == Digits(n / base, base) && s[|s| - 1] == Digit(n % base);
      assert base == 10 ==> n == 10 * (n / 10) + n % 10;
      assert base == 16 ==> n == 16 * (n / 16) + n % 16;
    }
  }

  lemma {:induction false} NoLeadingZero(n: nat, base: nat)
    requires Base(base)
    ensures n > 0 ==> Digits(n, base)[0] != '0'
    ensures n == 0 ==> Digits(n, base) == "0"
  {
    if n >= base {
      NoLeadingZero(n / base, base);
    }
  }

  /** A number is written in lower-case digits, with no zero in front of others, and reads back. */
  lemma DigitsAreCanonical(n: nat, base: nat)
    requires Base(base)
    ensures var s := Digits(n, base);
      AllDigits(s, base) && Value(s, base) == n && (|s| == 1 || s[0] != '0')
  {
    ReadDigits(n, base);
    NoLeadingZero(n, base);
  }

  function Power(base: nat, k: nat): nat {
    if k == 0 then 1 else base * Power(base, k - 1)
  }

  lemma {:induction false} DigitsLength(n: nat, base: nat, k: nat)
    requires Base(base) && k >= 1 && n < Power(base, k)
    ensures |Digits(n, base)| <= k
  {
    if n >= base {
      DigitsLength(n / base, base, k - 1);
    }
  }

  function Zeros(k: nat): (s: string)
    ensures |s| == k && forall i :: 0 <= i < k ==> s[i] == '0'
  {
    seq(k, _ => '0')
  }

  /** `%0<width>x`: zeros in front up to `width` characters. */
  function Padded(n: nat, base: nat, width: nat): (s: string)
    requires Base(base)
    ensures AllDigits(s, base) && |s| >= width && |s| >= 1
  {
    var s := Digits(n, base);
    Zeros(if |s| < width then width - |s| else 0) + s
  }

  lemma {:induction false} ZerosInFront(k: nat, s: string, base: nat)
    requires Base(base) && AllDigits(s, base)
    ensures AllDigits(Zeros(k) + s, base)
    ensures Value(Zeros(k) + s, base) == Value(s, base)
    decreases k + |s|
  {
    var z := Zeros(k);
    if s == "" {
      if k > 0 {
        assert (z + s)[..k - 1] == Zeros(k - 1) + s;
        ZerosInFront(k - 1, s, base);
      }
    } else {
      assert (z + s)[..|z + s| - 1] == z + s[..|s| - 1];
      ZerosInFront(k, s[..|s| - 1], base);
    }
  }

  lemma ReadPadded(n: nat, base: nat, width: nat)
    requires Base(base)
    ensures Value(Padded(n, base, width), base) == n
  {
    hide Value, Digits;
    var s := Digits(n, base);
    ReadDigits(n, base);
    ZerosInFront(if |s| < width then width - |s| else 0, s, base);
  }

  lemma PaddedLength(n: nat, base: nat, width: nat)
    requires Base(base) && width >= 1 && n < Power(base, width)
    ensures |Padded(n, base, width)| == width
  {
    DigitsLength(n, base, width);
  }

  // ----- Separated lists -----

  function Join(fields: seq<string>, sep: char): string {
    if fields == [] then ""
    else if |fields| == 1 then fields[0]
    else fields[0] + [sep] + Join(fields[1..], sep)
  }

  function Split(s: string, sep: char): (fields: seq<string>)
    ensures |fields| >= 1
  {
    if s == "" then [""]
    else
      var rest := Split(s[1..], sep);
      if s[0] == sep then [""] + rest else [[s[0]] + rest[0]] + rest[1..]
  }

  lemma {:induction false} SplitFirst(field: string, sep: char, rest: string)
    requires sep !in field
    ensures Split(field + [sep] + rest, sep) == [field] + Split(rest, sep)
    ensures Split(field, sep) == [field]
  {
    if field != "" {
      SplitFirst(field[1..], sep, rest);
      assert field == [field[0]] + field[1..];
      assert (field + [sep] + rest)[1..] == field[1..] + [sep] + rest;
    } else {
      assert (field + [sep] + rest)[1..] == rest;
    }
  }

  lemma {:induction false} SplitJoin(fields: seq<string>, sep: char)
    requires fields != [] && forall f :: f in fields ==> sep !in f
    ensures Split(Join(fields, sep), sep) == fields
  {
    assert fields[0] in fields;
    if |fields| == 1 {
      SplitFirst(fields[0], sep, "");
    } else {
      SplitFirst(fields[0], sep, Join(fields[1..], sep));
      SplitJoin(fields[1..], sep);
    }
  }

  lemma {:induction false} JoinAppend(a: seq<string>, b: seq<string>, sep: char)
    requires a != [] && b != []
    ensures Join(a + b, sep) == Join(a, sep) + [sep] + Join(b, sep)
  {
    if |a| == 1 {
      assert (a + b)[1..] == b;
    } else {
      JoinAppend(a[1..], b, sep);
      assert (a + b)[1..] == a[1..] + b;
    }
  }
}
