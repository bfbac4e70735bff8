/** Numbers as decimal text: writing them, and reading them back. */
module DecimalText {
  import opened Bytes

  function Digit(n: nat): char
    requires n < 10
  {
    '0' + n as char
  }

  function Digits(n: nat): string {
    if n < 10 then [Digit(n)] else Digits(n / 10) + [Digit(n % 10)]
  }

  predicate IsNumeral(s: string) {
    |s| > 0 && forall i :: 0 <= i < |s| ==> '0' <= s[i] <= '9'
  }

  function Numeral(s: string): int {
    if s == "" then 0 else Numeral(s[..|s| - 1]) * 10 + (s[|s| - 1] as int - 48)
  }

  lemma {:induction false} NumeralOfDigits(n: nat)
    ensures IsNumeral(Digits(n)) && Numeral(Digits(n)) == n
  {
    if n < 10 {
      assert Digits(n)[..0] == "";
    } else {
      NumeralOfDigits(n / 10);
      assert Digits(n)[..|Digits(n)| - 1] == Digits(n / 10);
    }
  }

  // ----- std::stoul, which reads from the front of a byte string -----

  predicate IsBlank(b: byte) {
    b == 32 || 9 <= b <= 13
  }

  predicate IsDigit(b: byte) {
    48 <= b <= 57
  }

  function SkipSpace(s: bytes): bytes {
    if s != [] && IsBlank(s[0]) then SkipSpace(s[1..]) else s
  }

  /** The number that starts with `acc` and goes on with the digits in front. */
  function DigitsValue(s: bytes, acc: nat): nat {
    if s != [] && IsDigit(s[0]) then DigitsValue(s[1..], acc * 10 + (s[0] - 48)) else acc
  }

  /** None when there is no number or it does not fit 64 bits. */
  function Stoul(s: bytes): Option<u64> {
    var t := SkipSpace(s);
    var signed := t != [] && (t[0] == 43 || t[0] == 45);
    var digits := if signed then t[1..] else t;
    if digits == [] || !IsDigit(digits[0]) then None
    else
      var v := DigitsValue(digits, 0);
      if v >= 0x1_0000_0000_0000_0000 then None
      else if signed && t[0] == 45 then Some(-(v as int) % 0x1_0000_0000_0000_0000)
      else Some(v)
  }

  predicate AllBlank(s: bytes) {
    forall i :: 0 <= i < |s| ==> IsBlank(s[i])
  }

  predicate AllDigits(s: bytes) {
    forall i :: 0 <= i < |s| ==> IsDigit(s[i])
  }

  /** Nothing, or a byte that ends a number. */
  predicate Ends(s: bytes) {
    s == [] || !IsDigit(s[0])
  }

  lemma {:induction false} SkipsBlanks(blanks: bytes, s: bytes)
    requires AllBlank(blanks) && (s == [] || !IsBlank(s[0]))
    ensures SkipSpace(blanks + s) == s
  {
    if blanks == [] {
      assert blanks + s == s;
    } else {
      assert (blanks + s)[1..] == blanks[1..] + s;
      SkipsBlanks(blanks[1..], s);
    }
  }

  lemma {:induction false} ValueAppend(a: bytes, s: bytes, acc: nat)
    requires AllDigits(a)
    ensures DigitsValue(a + s, acc) == DigitsValue(s, DigitsValue(a, acc))
    decreases |a|
  {
    if a == [] {
      assert a + s == s;
    } else {
      assert (a + s)[1..] == a[1..] + s;
      ValueAppend(a[1..], s, acc * 10 + (a[0] - 48));
    }
  }

  lemma AsciiAppend(s: string, t: string)
    ensures Ascii(s + t) == Ascii(s) + Ascii(t)
  {
  }

  lemma {:induction false} ValueOfDigits(n: nat)
    ensures AllDigits(Ascii(Digits(n))) && |Ascii(Digits(n))| > 0
    ensures DigitsValue(Ascii(Digits(n)), 0) == n
  {
    if n < 10 {
      var b := Ascii(Digits(n));
      assert b == [48 + n] && b[1..] == [];
    } else {
      ValueOfDigits(n / 10);
      AsciiAppend(Digits(n / 10), [Digit(n % 10)]);
      var last := Ascii([Digit(n % 10)]);
      assert last == [48 + n % 10] && last[1..] == [];
      ValueAppend(Ascii(Digits(n / 10)), last, 0);
    }
  }

  lemma ValueEnds(s: bytes, acc: nat)
    requires Ends(s)
    ensures DigitsValue(s, acc) == acc
  {
  }

  /** What is read once the blanks are gone. */
  lemma StoulSkips(blanks: bytes, t: bytes)
    requires AllBlank(blanks) && (t == [] || !IsBlank(t[0]))
    ensures Stoul(blanks + t) == Stoul(t)
  {
    SkipsBlanks(blanks, t);
    hide DigitsValue, SkipSpace;
    assert SkipSpace(t) == t by {
      SkipsBlanks([], t);
      assert [] + t == t;
    }
  }

  lemma StoulSigned(sign: byte, digits: bytes)
    requires (sign == 43 || sign == 45) && digits != [] && IsDigit(digits[0])
    ensures var v := DigitsValue(digits, 0);
            Stoul([sign] + digits) ==
              if v >= 0x1_0000_0000_0000_0000 then None
              else if sign == 45 then Some((0x1_0000_0000_0000_0000 - v) % 0x1_0000_0000_0000_0000)
              else Some(v)
  {
    assert ([sign] + digits)[1..] == digits;
    assert SkipSpace([sign] + digits) == [sign] + digits;
    hide DigitsValue, SkipSpace;
  }

  lemma StoulUnsigned(digits: bytes)
    requires digits != [] && IsDigit(digits[0])
    ensures var v := DigitsValue(digits, 0);
            Stoul(digits) == if v >= 0x1_0000_0000_0000_0000 then None else Some(v)
  {
    hide DigitsValue;
  }

  /** A number's decimal text is read as the number, after any blanks and a sign
      and up to the first byte that is not a digit; a minus sign counts down from
      2^64, and a number that needs more than 64 bits is refused. */
  lemma StoulReads(n: nat, blanks: bytes, sign: bytes, rest: bytes)
    requires AllBlank(blanks) && (sign == [] || sign == [43] || sign == [45]) && Ends(rest)
    ensures Stoul(blanks + (sign + (Ascii(Digits(n)) + rest))) ==
              if n >= 0x1_0000_0000_0000_0000 then None
              else if sign == [45] then Some((0x1_0000_0000_0000_0000 - n) % 0x1_0000_0000_0000_0000)
              else Some(n)
  {
    var digits := Ascii(Digits(n));
    var t := sign + (digits + rest);
    ValueOfDigits(n);
    ValueAppend(digits, rest, 0);
    ValueEnds(rest, n);
    hide Digits, DigitsValue, Stoul, Ascii;
    assert (digits + rest)[0] == digits[0] && IsDigit(digits[0]);
    StoulSkips(blanks, t);
    if sign == [] {
      assert t == digits + rest;
      StoulUnsigned(t);
    } else {
      assert sign == [sign[0]];
      StoulSigned(sign[0], digits + rest);
    }
  }

  /** A text that has no digit where a number should start is refused. */
  lemma StoulRefuses(blanks: bytes, sign: bytes, rest: bytes)
    requires AllBlank(blanks) && (sign == [] || sign == [43] || sign == [45]) && Ends(rest)
    requires sign == [] && rest != [] ==> !IsBlank(rest[0]) && rest[0] != 43 && rest[0] != 45
    ensures Stoul(blanks + (sign + rest)) == None
  {
    var t := sign + rest;
    hide DigitsValue, SkipSpace;
    if sign == [] {
      assert t == rest;
    } else {
      assert t[0] == sign[0] && t[1..] == rest;
    }
    SkipsBlanks(blanks, t);
  }
}
