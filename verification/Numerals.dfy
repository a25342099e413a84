/** Printing and parsing of numbers in kernel/lib/klibc/atob.c. */
module Numerals {
  import opened Machine

  datatype Parsed = Bad | Ok(value: nat)

  /** The character for a digit. */
  function DigitChar(d: nat): (c: char)
    requires d < 36
  {
    if d <= 9 then '0' + d as char else 'a' + (d - 10) as char
  }

  /** The digit for a character, or 99. */
  function CharDigit(c: char): (d: nat)
    ensures d < 16 || d == 99
  {
    if '0' <= c <= '9' then (c - '0') as nat
    else if 'a' <= c <= 'f' then (c - 'a') as nat + 10
    else if 'A' <= c <= 'F' then (c - 'A') as nat + 10
    else 99
  }

  /** The digits in order, in small and in capital letters; no other character is one. */
  lemma DigitMeans(c: char)
    ensures forall d :: 0 <= d < 16 ==>
              (CharDigit(c) == d <==> c == "0123456789abcdef"[d] || c == "0123456789ABCDEF"[d])
    ensures CharDigit(c) == 99 <==> c !in "0123456789abcdef" && c !in "0123456789ABCDEF"
  {
    var small, capital := "0123456789abcdef", "0123456789ABCDEF";
    if '0' <= c <= '9' {
      assert c == small[(c - '0') as nat];
    } else if 'a' <= c <= 'f' {
      assert c == small[(c - 'a') as nat + 10];
    } else if 'A' <= c <= 'F' {
      assert c == capital[(c - 'A') as nat + 10];
    }
  }

  lemma DigitRoundTrip(d: nat)
    requires d < 16
    ensures CharDigit(DigitChar(d)) == d && DigitChar(d) != '.'
  {
  }

  /** The digits of a number, most significant first. */
  function Digits(v: nat, base: nat): (s: string)
    requires 2 <= base <= 36
    ensures s != []
    decreases v
  {
    if v < base then [DigitChar(v)] else Digits(v / base, base) + [DigitChar(v % base)]
  }

  /** What llbtoa prints: base -10 is for signed numbers and base -16 puts "0x" in front. */
  function Print(value: nat, base: int): string
    requires 2 <= base <= 36 || base == -10 || base == -16
    requires value < WORD
  {
    if value == 0 then "0"
    else if base == -10 then (if value >= WORD / 2 then "-" + Digits(WORD - value, 10) else Digits(value, 10))
    else if base == -16 then "0x" + Digits(value, 16)
    else Digits(value, base)
  }

  /** The number that a string of digits stands for. */
  function ValueOf(p: string, base: nat): nat {
    if p == [] then 0 else ValueOf(p[..|p| - 1], base) * base + CharDigit(p[|p| - 1])
  }

  predicate Numeral(p: string, base: nat) {
    forall i :: 0 <= i < |p| ==> CharDigit(p[i]) < base && CharDigit(p[i]) != 99
  }

  /** The loop of _atob from a value on, in 64-bit arithmetic. */
  function ParseFrom(p: string, base: nat, value: nat): Parsed
    decreases |p|
  {
    if p == [] then Ok(value)
    else
      var d := CharDigit(p[0]);
      if d == 99 || d >= base then Bad
      else ParseFrom(p[1..], base, ((value * base) % WORD + d) % WORD)
  }

  /** strchr for a dot, or |p|. */
  function FirstDot(p: string): (i: nat)
    ensures i <= |p|
    ensures i < |p| ==> p[i] == '.'
    ensures forall j :: 0 <= j < i ==> p[j] != '.'
  {
    if p == [] || p[0] == '.' then 0 else 1 + FirstDot(p[1..])
  }

  /** (v1 << 16) + v2 in 64 bits */
  function Joined(v1: nat, v2: nat): nat {
    ((v1 * 0x1_0000) % WORD + v2) % WORD
  }

  /** _atob: in base 16 two halves can be joined by a dot. */
  function Atob(p: string, base: nat): Parsed {
    var q := FirstDot(p);
    if base == 16 && q < |p| then
      if q > 19 then Bad
      else
        var v1, v2 := ParseFrom(p[..q], 16, 0), ParseFrom(p[q + 1..], 16, 0);
        if v1.Bad? || FirstDot(p[q + 1..]) < |p| - q - 1 || v2.Bad? then Bad
        else Ok(Joined(v1.value, v2.value))
    else ParseFrom(p, base, 0)
  }

  // ---------------------------------------------------------------- parsing

  lemma {:induction false} ParseAppend(p: string, c: char, base: nat, value: nat)
    requires value < WORD
    ensures ParseFrom(p + [c], base, value) ==
            (match ParseFrom(p, base, value)
             case Bad => Bad
             case Ok(v) => ParseFrom([c], base, v))
    decreases |p|
  {
    if p == [] {
      assert p + [c] == [c];
    } else {
      assert (p + [c])[1..] == p[1..] + [c];
      var d := CharDigit(p[0]);
      if d != 99 && d < base {
        ParseAppend(p[1..], c, base, ((value * base) % WORD + d) % WORD);
      }
    }
  }

  lemma {:induction false} ModShift(a: nat, k: nat)
    ensures (a + k * WORD) % WORD == a % WORD
    decreases k
  {
    if k > 0 {
      ModShift(a, k - 1);
      assert a + k * WORD == a + (k - 1) * WORD + WORD;
    }
  }

  /** One round of the loop on a value taken modulo 2^64. */
  lemma ModStep(x: nat, base: nat, d: nat)
    ensures (((x % WORD) * base) % WORD + d) % WORD == (x * base + d) % WORD
  {
    var q, r := x / WORD, x % WORD;
    var y := r * base;
    assert x * base == y + (q * base) * WORD;
    ModShift(y + d, q * base);
    var k, z := y / WORD, y % WORD;
    ModShift(z + d, k);
  }

  /** Parsing accepts exactly the numerals of the base, and gives their value modulo 2^64. */
  lemma {:induction false} ParseMeans(p: string, base: nat)
    ensures ParseFrom(p, base, 0) == if Numeral(p, base) then Ok(ValueOf(p, base) % WORD) else Bad
    decreases |p|
  {
    if p != [] {
      var n := |p| - 1;
      var front, c := p[..n], p[n];
      assert p == front + [c];
      ParseMeans(front, base);
      ParseAppend(front, c, base, 0);
      NumeralAppend(front, c, base);
      if Numeral(p, base) {
        ModStep(ValueOf(front, base), base, CharDigit(c));
        ParseOne(c, base, ValueOf(front, base) % WORD);
      } else if Numeral(front, base) {
        ParseOne(c, base, ValueOf(front, base) % WORD);
      }
    }
  }

  lemma ParseOne(c: char, base: nat, v: nat)
    ensures var d := CharDigit(c);
            ParseFrom([c], base, v) == if d == 99 || d >= base then Bad else Ok(((v * base) % WORD + d) % WORD)
  {
    var d := CharDigit(c);
    if d != 99 && d < base {
      assert [c][1..] == [];
      assert ParseFrom([], base, ((v * base) % WORD + d) % WORD) == Ok(((v * base) % WORD + d) % WORD);
    }
  }

  lemma NumeralAppend(front: string, c: char, base: nat)
    ensures Numeral(front + [c], base) <==> Numeral(front, base) && CharDigit(c) < base && CharDigit(c) != 99
    ensures ValueOf(front + [c], base) == ValueOf(front, base) * base + CharDigit(c)
  {
    var p := front + [c];
    assert p[..|p| - 1] == front;
    if Numeral(p, base) {
      forall i | 0 <= i < |front| ensures CharDigit(front[i]) < base && CharDigit(front[i]) != 99 {
        assert p[i] == front[i];
      }
      assert p[|front|] == c;
    }
  }

  // ---------------------------------------------------------------- round trips

  /** The digits of a number are a numeral that stands for the number, and so does every prefix for
      a number no larger: no step of parsing it overflows. */
  lemma {:induction false} DigitsValue(v: nat, base: nat)
    requires 2 <= base <= 16
    ensures Numeral(Digits(v, base), base) && ValueOf(Digits(v, base), base) == v
    ensures FirstDot(Digits(v, base)) == |Digits(v, base)|
    decreases v
  {
    var d := v % base;
    if v < base {
      OneDigit(v, base);
    } else {
      DivMod(v, base);
      DigitsValue(v / base, base);
      MoreDigits(Digits(v / base, base), base, v / base, d);
    }
  }

  lemma OneDigit(v: nat, base: nat)
    requires v < base <= 16
    ensures Numeral([DigitChar(v)], base) && ValueOf([DigitChar(v)], base) == v && FirstDot([DigitChar(v)]) == 1
  {
    hide DigitChar, CharDigit;
    NothingRead(base);
    MoreDigits([], base, 0, v);
    assert [] + [DigitChar(v)] == [DigitChar(v)];
  }

  lemma NothingRead(base: nat)
    ensures Numeral([], base) && ValueOf([], base) == 0 && FirstDot([]) == 0
  {
  }

  lemma MoreDigits(front: string, base: nat, q: nat, d: nat)
    requires d < base <= 16 && Numeral(front, base) && ValueOf(front, base) == q && FirstDot(front) == |front|
    ensures var s := front + [DigitChar(d)];
            Numeral(s, base) && ValueOf(s, base) == q * base + d && FirstDot(s) == |s|
  {
    hide DigitChar, CharDigit, Numeral, ValueOf, FirstDot;
    DigitRoundTrip(d);
    NumeralAppend(front, DigitChar(d), base);
    NoDotAppend(front, DigitChar(d));
  }

  lemma DivMod(v: nat, base: nat)
    requires base >= 1
    ensures (v / base) * base + v % base == v && v % base < base
  {
  }

  lemma QuotientLess(q: nat, r: nat, base: nat)
    requires base >= 2 && q * base + r >= 1
    ensures q < q * base + r
  {
    var more := base - 2;
    assert q * base == q * 2 + q * more;
  }

  lemma {:induction false} NoDotAppend(p: string, c: char)
    requires FirstDot(p) == |p| && c != '.'
    ensures FirstDot(p + [c]) == |p| + 1
    decreases |p|
  {
    if p == [] {
      assert p + [c] == [c];
      assert FirstDot([c][1..]) == 0;
    } else {
      assert (p + [c])[1..] == p[1..] + [c];
      NoDotAppend(p[1..], c);
    }
  }

  lemma Grows(x: nat, base: nat, d: nat)
    requires base >= 1
    ensures x <= x * base + d
  {
    assert x * base >= x * 1;
  }

  lemma {:induction false} PrefixValue(p: string, base: nat, n: nat)
    requires base >= 1 && n <= |p|
    ensures ValueOf(p[..n], base) <= ValueOf(p, base)
    decreases |p|
  {
    if n < |p| {
      assert p[..|p| - 1][..n] == p[..n];
      PrefixValue(p[..|p| - 1], base, n);
      hide CharDigit;
      Grows(ValueOf(p[..|p| - 1], base), base, CharDigit(p[|p| - 1]));
    } else {
      assert p[..n] == p;
    }
  }

  lemma PrintIsDigits(v: nat, base: nat)
    requires v < WORD && 2 <= base <= 36
    ensures Print(v, base) == Digits(v, base)
  {
    assert Digits(0, base) == "0";
  }

  /** What llbtoa prints, _atob reads back, for every 64-bit value and base from 2 to 16; and all
      the values it passes through are below 2^64. */
  lemma RoundTrip(v: nat, base: nat)
    requires v < WORD && 2 <= base <= 16
    ensures Atob(Print(v, base), base) == Ok(v)
    ensures forall n :: 0 <= n <= |Print(v, base)| ==> ValueOf(Print(v, base)[..n], base) < WORD
  {
    hide Digits, Print, Numeral, ValueOf, ParseFrom;
    var s := Digits(v, base);
    PrintIsDigits(v, base);
    DigitsValue(v, base);
    ParseMeans(s, base);
    forall n | 0 <= n <= |s| ensures ValueOf(s[..n], base) < WORD {
      PrefixValue(s, base, n);
    }
  }

  lemma DivideAtLeastHalves(v: nat, base: nat)
    requires base >= 2
    ensures 2 * (v / base) <= v
  {
    var q := v / base;
    assert v == q * base + v % base;
    assert q * base >= q * 2;
  }

  /** A number below a power of two has at most as many digits as that has factors. */
  lemma {:induction false} DigitCount(v: nat, base: nat, n: nat)
    requires 2 <= base <= 36 && v < Power(n) && n >= 1
    ensures |Digits(v, base)| <= n
    decreases n
  {
    if v >= base {
      DivideAtLeastHalves(v, base);
      DigitCount(v / base, base, n - 1);
    }
  }

  /** The buffer of llbtoa takes all the digits of a 64-bit value, in every base. */
  lemma DigitsFit(v: nat, base: nat)
    requires v < WORD && 2 <= base <= 36
    ensures |Digits(v, base)| <= 64
  {
    LargePowers();
    DigitCount(v, base, 64);
  }

  // ---------------------------------------------------------------- bases by prefix

  datatype Based = Based(base: nat, rest: string)

  /** _getbase */
  function GetBase(p: string): Based {
    if |p| >= 2 && p[0] == '0' then
      if p[1] == 'x' then Based(16, p[2..])
      else if p[1] == 't' || p[1] == 'n' then Based(10, p[2..])
      else if p[1] == 'o' then Based(8, p[2..])
      else Based(10, p)
    else Based(10, p)
  }

  /** atob: the base can come from a prefix, and the result is cut to 32 bits. */
  function AtobPrefixed(p: string, base: nat): Parsed {
    var b := if base == 0 then GetBase(p) else Based(base, p);
    match Atob(b.rest, b.base)
    case Bad => Bad
    case Ok(v) => Ok(v % 0x1_0000_0000)
  }

  /** A printed number other than 0 does not start with '0'. */
  lemma {:induction false} NoLeadingZero(v: nat, base: nat)
    requires 2 <= base <= 36 && v > 0
    ensures Digits(v, base)[0] != '0'
    decreases v
  {
    if v >= base {
      QuotientPositive(v, base);
      NoLeadingZero(v / base, base);
    }
  }

  lemma QuotientPositive(v: nat, base: nat)
    requires 2 <= base <= v
    ensures 0 < v / base < v
  {
  }

  /** _getbase takes the prefix off again, and finds none in a decimal number. */
  lemma HexForm(v: nat)
    requires v < WORD
    ensures GetBase(Print(v, -16)) == if v > 0 then Based(16, Print(v, 16)) else Based(10, Print(v, 10))
  {
    hide Digits;
    PrintIsDigits(v, 16);
    PrintIsDigits(v, 10);
    HexPrefix(Digits(v, 16));
    assert GetBase("0") == Based(10, "0");
    assert Print(0, -16) == Print(0, 10) == "0";
  }

  lemma DecimalForm(v: nat)
    requires v < WORD
    ensures GetBase(Print(v, 10)) == Based(10, Print(v, 10))
  {
    hide Digits;
    if v > 0 {
      NoLeadingZero(v, 10);
    }
  }

  /** The hexadecimal form with its "0x" and the decimal form are read back without naming a base,
      as far as they fit in 32 bits. */
  lemma PrefixRoundTrip(v: nat)
    requires v < 0x1_0000_0000
    ensures AtobPrefixed(Print(v, -16), 0) == Ok(v) && AtobPrefixed(Print(v, 10), 0) == Ok(v)
  {
    hide Digits, Atob, Print, GetBase;
    RoundTrip(v, 16);
    RoundTrip(v, 10);
    HexForm(v);
    DecimalForm(v);
  }

  lemma HexPrefix(s: string)
    ensures GetBase("0x" + s) == Based(16, s)
  {
    var h := "0x" + s;
    assert h[0] == '0' && h[1] == 'x' && h[2..] == s;
  }

  /** A number in octal or decimal behind its prefix is read back, too, and larger ones are cut to 32 bits. */
  lemma OtherPrefixes(v: nat)
    requires v < WORD
    ensures AtobPrefixed("0o" + Print(v, 8), 0) == Ok(v % 0x1_0000_0000)
    ensures AtobPrefixed("0t" + Print(v, 10), 0) == AtobPrefixed("0n" + Print(v, 10), 0) == Ok(v % 0x1_0000_0000)
    ensures AtobPrefixed(Print(v, 10), 10) == Ok(v % 0x1_0000_0000)
  {
    hide Digits, Atob, Print, GetBase;
    RoundTrip(v, 8);
    RoundTrip(v, 10);
    BehindPrefix(Print(v, 8));
    BehindPrefix(Print(v, 10));
  }

  lemma BehindPrefix(s: string)
    ensures GetBase("0o" + s) == Based(8, s)
    ensures GetBase("0t" + s) == Based(10, s) && GetBase("0n" + s) == Based(10, s)
  {
    var o, t, n := "0o" + s, "0t" + s, "0n" + s;
    assert o[0] == '0' && o[1] == 'o' && o[2..] == s;
    assert t[0] == '0' && t[1] == 't' && t[2..] == s;
    assert n[0] == '0' && n[1] == 'n' && n[2..] == s;
  }

  // ---------------------------------------------------------------- signs, letters and halves

  /** In base -10 a value from 2^63 on is printed as the negative number that it stands for: a minus sign, and
      then what is read back as 2^64 less the value. Any other is printed as it is. */
  lemma SignedForm(v: nat)
    requires v < WORD
    ensures var s := Print(v, -10);
            if v >= 0x8000_0000_0000_0000 then
              s != [] && s[0] == '-' && Atob(s[1..], 10) == Ok(0x1_0000_0000_0000_0000 - v)
            else s != [] && s[0] != '-' && Atob(s, 10) == Ok(v)
  {
    hide Digits, Atob, DigitChar;
    if v >= WORD / 2 {
      var s := Print(v, -10);
      RoundTrip(WORD - v, 10);
      PrintIsDigits(WORD - v, 10);
      assert s[1..] == Digits(WORD - v, 10);
    } else {
      RoundTrip(v, 10);
      PrintIsDigits(v, 10);
      DigitsValue(v, 10);
      NoSign(Digits(v, 10));
    }
  }

  lemma NoSign(s: string)
    requires s != [] && Numeral(s, 10)
    ensures s[0] != '-'
  {
  }

  /** The value of a digit in bases up to 36: letters go on where the ten digits end. */
  function WideDigit(c: char): nat {
    if '0' <= c <= '9' then c as int - '0' as int
    else if 'a' <= c <= 'z' then c as int - 'a' as int + 10
    else 36
  }

  predicate AllBelow(p: string, base: nat) {
    forall i :: 0 <= i < |p| ==> WideDigit(p[i]) < base
  }

  /** The number that a string of such digits stands for. */
  function Worth(p: string, base: nat): nat {
    if p == [] then 0 else Worth(p[..|p| - 1], base) * base + WideDigit(p[|p| - 1])
  }

  lemma WideRoundTrip(d: nat)
    requires d < 36
    ensures WideDigit(DigitChar(d)) == d
  {
  }

  lemma OneMore(p: string, c: char, base: nat)
    requires AllBelow(p, base) && WideDigit(c) < base
    ensures AllBelow(p + [c], base) && Worth(p + [c], base) == Worth(p, base) * base + WideDigit(c)
  {
    assert (p + [c])[..|p|] == p;
  }

  /** In every base up to 36 the digits that are printed are less than the base and stand for the value. */
  lemma {:induction false} DigitsMean(v: nat, base: nat)
    requires 2 <= base <= 36
    ensures AllBelow(Digits(v, base), base) && Worth(Digits(v, base), base) == v
    decreases v
  {
    hide DigitChar, WideDigit, AllBelow, Worth;
    if v < base {
      OneWide(v, base);
    } else {
      var q, d := v / base, v % base;
      DivMod(v, base);
      QuotientLess(q, d, base);
      DigitsMean(q, base);
      MoreWide(Digits(q, base), base, q, d);
    }
  }

  lemma MoreWide(front: string, base: nat, q: nat, d: nat)
    requires d < base <= 36 && AllBelow(front, base) && Worth(front, base) == q
    ensures var s := front + [DigitChar(d)]; AllBelow(s, base) && Worth(s, base) == q * base + d
  {
    hide DigitChar, WideDigit, AllBelow, Worth;
    WideRoundTrip(d);
    OneMore(front, DigitChar(d), base);
  }

  lemma OneWide(v: nat, base: nat)
    requires v < base <= 36
    ensures AllBelow([DigitChar(v)], base) && Worth([DigitChar(v)], base) == v
  {
    hide DigitChar, WideDigit;
    WideRoundTrip(v);
    OneMore([], DigitChar(v), base);
    assert [] + [DigitChar(v)] == [DigitChar(v)];
  }

  /** Two halves joined by a dot are read as the first one shifted by 16 bits plus the second, in 64 bits; at
      most 19 characters may come before the dot, and only one dot. */
  lemma JoinedHalves(a: string, b: string)
    requires forall i :: 0 <= i < |a| ==> a[i] != '.'
    ensures Atob(a + "." + b, 16) ==
            if |a| <= 19 && Numeral(a, 16) && Numeral(b, 16) then
              Ok((ValueOf(a, 16) * 65536 + ValueOf(b, 16)) % 0x1_0000_0000_0000_0000)
            else Bad
  {
    hide ParseFrom, Numeral, ValueOf, FirstDot, Joined;
    var p := a + "." + b;
    DotAt(a, b);
    assert p[..|a|] == a && p[|a| + 1..] == b;
    ParseMeans(a, 16);
    ParseMeans(b, 16);
    NumeralHasNoDot(b);
    HalvesSum(ValueOf(a, 16), ValueOf(b, 16));
  }

  lemma {:induction false} DotAt(a: string, b: string)
    requires forall i :: 0 <= i < |a| ==> a[i] != '.'
    ensures FirstDot(a + "." + b) == |a|
    decreases |a|
  {
    if a == [] {
      assert a + "." + b == "." + b;
    } else {
      assert (a + "." + b)[1..] == a[1..] + "." + b;
      DotAt(a[1..], b);
    }
  }

  lemma NumeralHasNoDot(b: string)
    ensures Numeral(b, 16) ==> FirstDot(b) == |b|
  {
    if FirstDot(b) < |b| {
      assert CharDigit(b[FirstDot(b)]) == 99;
    }
  }

  lemma HalvesSum(x: nat, y: nat)
    ensures Joined(x % WORD, y % WORD) == (x * 65536 + y) % 0x1_0000_0000_0000_0000
  {
    ModStep(x, 65536, y % WORD);
    var k := y / WORD;
    ModShift(x * 65536 + y % WORD, k);
    assert x * 65536 + y % WORD + k * WORD == x * 65536 + y;
  }

  // ---------------------------------------------------------------- the loops

  function Reversed(s: string): (r: string)
    ensures |r| == |s|
  {
    if s == [] then [] else Reversed(s[1..]) + [s[0]]
  }

  lemma {:induction false} ReversedAppend(s: string, c: char)
    ensures Reversed(s + [c]) == [c] + Reversed(s)
  {
    if s == [] {
      assert s + [c] == [c];
    } else {
      assert (s + [c])[1..] == s[1..] + [c];
      ReversedAppend(s[1..], c);
      assert [c] + Reversed(s[1..]) + [s[0]] == [c] + (Reversed(s[1..]) + [s[0]]);
    }
  }

  /** The digits still to be printed. */
  function Rest(v: nat, base: nat): string
    requires 2 <= base <= 36
  {
    if v == 0 then [] else Digits(v, base)
  }

  lemma RestStep(v: nat, base: nat)
    requires 2 <= base <= 36 && v > 0
    ensures Rest(v, base) == Rest(v / base, base) + [DigitChar(v % base)]
    ensures v / base < v
  {
    DivMod(v, base);
    if v < base {
      assert v / base == 0;
    } else {
      QuotientPositive(v, base);
    }
  }

  lemma NothingPrinted(v: nat, base: nat, none: string)
    requires 2 <= base <= 36 && v > 0 && none == []
    ensures Digits(v, base) == Rest(v, base) + Reversed(none)
  {
  }

  lemma AllPrinted(base: nat)
    requires 2 <= base <= 36
    ensures Rest(0, base) == []
  {
  }

  /** The digit loop of llbtoa: least significant first. */
  method FillDigits(buf: array<char>, value: nat, base: nat) returns (i: nat)
    requires 2 <= base <= 36 && 0 < value < WORD && buf.Length == 66
    modifies buf
    ensures 0 < i <= 64 && Reversed(buf[..i]) == Digits(value, base)
  {
    hide Digits, Reversed, Rest, DigitChar;
    DigitsFit(value, base);
    NothingPrinted(value, base, buf[..0]);
    var v: nat := value;
    i := 0;
    while v != 0
      invariant i <= |Digits(value, base)|
      invariant Digits(value, base) == Rest(v, base) + Reversed(buf[..i])
      decreases v
    {
      RestStep(v, base);
      var rem := v % base;
      ReversedAppend(buf[..i], DigitChar(rem));
      v := v / base;
      buf[i] := DigitChar(rem);
      i := i + 1;
      assert buf[..i] == buf[..i - 1] + [DigitChar(rem)];
    }
    AllPrinted(base);
  }

  /** llbtoa */
  method llbtoa(value: nat, base: int) returns (dst: string)
    requires 2 <= base <= 36 || base == -10 || base == -16
    requires value < WORD
    ensures dst == Print(value, base)
  {
    if value == 0 {
      return "0";
    }
    var v, b := value, if base == -10 then 10 else if base == -16 then 16 else base;
    var neg := base == -10 && value >= WORD / 2;
    if neg {
      v := WORD - value;
    }
    var buf := new char[66];
    var i := FillDigits(buf, v, b);
    var text := buf[..i];
    if neg {
      ReversedAppend(text, '-');
      text := text + "-";
    }
    if base == -16 {
      ReversedAppend(text, 'x');
      ReversedAppend(text + "x", '0');
      assert text + "x0" == text + "x" + "0";
      text := text + "x0";
    }
    dst := ReverseCopy(text);
  }

  /** The last loop of llbtoa. */
  method ReverseCopy(buf: string) returns (dst: string)
    ensures dst == Reversed(buf)
  {
    dst := [];
    var j := |buf| - 1;
    assert buf[..|buf|] == buf;
    while j >= 0
      invariant -1 <= j < |buf| && Reversed(buf) == dst + Reversed(buf[..j + 1])
    {
      ReversedAppend(buf[..j], buf[j]);
      assert buf[..j + 1] == buf[..j] + [buf[j]];
      dst := dst + [buf[j]];
      j := j - 1;
    }
  }

  /** The loop of _atob. */
  method ParseDigits(p: string, base: nat) returns (r: Parsed)
    ensures r == ParseFrom(p, base, 0)
  {
    var value: nat, i := 0, 0;
    assert p[0..] == p;
    while i < |p|
      invariant i <= |p| && ParseFrom(p, base, 0) == ParseFrom(p[i..], base, value)
    {
      value := value * base % WORD;
      var digit := CharDigit(p[i]);
      if digit == 99 || digit >= base {
        return Bad;
      }
      value := (value + digit) % WORD;
      i := i + 1;
    }
    r := Ok(value);
  }

  /** _atob */
  method atob(p: string, base: nat) returns (r: Parsed)
    ensures r == Atob(p, base)
  {
    var q := FirstDot(p);
    if base != 16 || q == |p| {
      r := ParseDigits(p, base);
      return;
    }
    if q > 19 {
      return Bad;
    }
    var v1 := ParseDigits(p[..q], 16);
    if v1.Bad? || FirstDot(p[q + 1..]) < |p| - q - 1 {
      return Bad;
    }
    var v2 := ParseDigits(p[q + 1..], 16);
    r := if v2.Bad? then Bad else Ok((v1.value * 0x1_0000 % WORD + v2.value) % WORD);
  }
}
