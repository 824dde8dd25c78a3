/** Conversion of 32-bit integers to digits, unsigned ones too, with signed 32-bit arithmetic only. */
module Icvt {

  /** Arithmetic on these is proved never to overflow. */
  newtype Long = x: int | -0x8000_0000 <= x < 0x8000_0000

  const MAXINTLENGTH: nat := 32
  const MASK: Long := 0x7fff_ffff
  const DIGIT: string := "0123456789abcdef"

  predicate Radix(r: int) {
    r == 8 || r == 10 || r == 16
  }

  /** Division as the machine does it, toward zero. */
  function Quotient(a: Long, r: Long): (q: Long)
    requires Radix(r as int)
    ensures a >= 0 ==> q == a / r
    ensures a < 0 ==> q as int == -((-(a as int)) / (r as int))
  {
    if a >= 0 then a / r else (-((-(a as int)) / (r as int))) as Long
  }

  /** The digits of a number, none for zero. */
  function Digits(n: nat, r: int): (s: string)
    requires Radix(r)
  {
    if n == 0 then "" else Digits(n / r, r) + [DIGIT[n % r]]
  }

  function DigitValue(c: char): int {
    if '0' <= c <= '9' then c as int - '0' as int else if 'a' <= c <= 'f' then c as int - 'a' as int + 10 else -1
  }

  /** The number that digits stand for. */
  function Value(s: string, r: int): int {
    if s == "" then 0 else r * Value(s[..|s| - 1], r) + DigitValue(s[|s| - 1])
  }

  lemma DigitOf(d: nat)
    requires d < 16
    ensures DigitValue(DIGIT[d]) == d
  {
    if d < 10 {
      assert DIGIT[d] == "0123456789"[d];
    } else {
      assert DIGIT[d] == "abcdef"[d - 10];
    }
  }

  /** The digits of a number stand for it, and the first is not zero. */
  lemma {:induction false} DigitsRead(n: nat, r: int)
    requires Radix(r)
    ensures Value(Digits(n, r), r) == n
    ensures n > 0 ==> Digits(n, r) != "" && Digits(n, r)[0] != '0'
  {
    if n > 0 {
      var s := Digits(n, r);
      DigitsRead(n / r, r);
      DigitOf(n % r);
      assert s[..|s| - 1] == Digits(n / r, r);
    }
  }

  function Pow8(k: nat): nat {
    if k == 0 then 1 else 8 * Pow8(k - 1)
  }

  lemma DividedDown(n: nat, r: int, p: nat)
    requires Radix(r) && n < 8 * p
    ensures n / r < p
  {
    assert n / 8 < p;
    if r == 10 {
      assert n / 10 <= n / 8;
    } else if r == 16 {
      assert n / 16 <= n / 8;
    }
  }

  lemma {:induction false} DigitsFew(n: nat, r: int, k: nat)
    requires Radix(r) && n < Pow8(k)
    ensures |Digits(n, r)| <= k
    decreases k
  {
    if n > 0 {
      var p, q := Pow8(k - 1), n / r;
      DividedDown(n, r, p);
      DigitsFew(q, r, k - 1);
    }
  }

  /** No 32-bit number has more than eleven digits. */
  lemma ElevenDigits(n: nat, r: int)
    requires Radix(r) && n <= 0xffff_ffff
    ensures |Digits(n, r)| <= 11
  {
    assert Pow8(3) == 512;
    assert Pow8(7) == 8 * (8 * (8 * (8 * Pow8(3))));
    assert Pow8(11) == 8 * (8 * (8 * (8 * Pow8(7))));
    DigitsFew(n, r, 11);
  }

  /** The number that a word stands for: as it is, or as an unsigned number. */
  function Meant(value: Long, hassign: bool): int {
    if value < 0 && !hassign then value as int + 0x1_0000_0000 else value as int
  }

  function Magnitude(value: Long, hassign: bool): nat {
    if Meant(value, hassign) < 0 then -Meant(value, hassign) else Meant(value, hassign)
  }

  /** The number without its sign, zero as one digit. */
  function Numeral(value: Long, hassign: bool, r: int): string
    requires Radix(r)
  {
    if value == 0 then "0" else Digits(Magnitude(value, hassign), r)
  }

  /** Half of an unsigned division done by parts: 2^31 + v divided by r. */
  lemma UnsignedParts(v: nat, r: int)
    requires Radix(r) && v < 0x8000_0000
    ensures var kludge := 0x8000_0000 - r; var rem := kludge % r + v % r;
      && (0x8000_0000 + v) / r == kludge / r + 1 + v / r + rem / r
      && (0x8000_0000 + v) % r == rem % r
  {
  }

  /** The text filled up in front to n places. */
  function Filled(text: string, n: nat, c: char): string
    decreases n - |text|
  {
    if |text| >= n then text else Filled([c] + text, n, c)
  }

  /** It is as long as that, and ends in the text; before it is only what it was filled up with. */
  lemma {:induction false} FilledIs(text: string, n: nat, c: char)
    ensures var s := Filled(text, n, c);
      && |s| == (if |text| < n then n else |text|) && s[|s| - |text|..] == text
      && forall i :: 0 <= i < |s| - |text| ==> s[i] == c
    decreases n - |text|
  {
    if |text| < n {
      FilledIs([c] + text, n, c);
      var s := Filled([c] + text, n, c);
      var k := |s| - |text| - 1;
      assert s[k..] == [c] + text;
      assert s[k] == s[k..][0] && s[k + 1..] == s[k..][1..];
    }
  }

  /** The last digit of what is still to be written, put in front of what has been written. */
  lemma DigitMoved(all: string, val: nat, rad: nat, before: string)
    requires Radix(rad) && val > 0 && all == Digits(val, rad) + before
    ensures |Digits(val, rad)| == |Digits(val / rad, rad)| + 1
    ensures all == Digits(val / rad, rad) + ([DIGIT[val % rad]] + before)
  {
    assert Digits(val, rad) == Digits(val / rad, rad) + [DIGIT[val % rad]];
  }

  class Converter {
    const buf: array<char>

    constructor ()
      ensures buf.Length == MAXINTLENGTH + 1 && fresh(buf)
    {
      buf := new char[MAXINTLENGTH + 1](_ => '0');
    }

    /** The arm for the first digit of a negative number: it is split off before the sign is changed. */
    method FirstSigned(value: Long, rad: Long) returns (val: Long, digit: char)
      requires Radix(rad as int) && value < 0
      ensures 0 <= val && val as int == -(value as int) / (rad as int) && digit == DIGIT[-(value as int) % (rad as int)]
    {
      var tmp1 := Quotient(value, rad);
      digit := DIGIT[((tmp1 * rad) - value) as int];
      val := -tmp1;
    }

    /** The arm for the first digit of an unsigned number of 2^31 or more. */
    method FirstUnsigned(value: Long, rad: Long) returns (val: Long, digit: char)
      requires Radix(rad as int) && value < 0
      ensures 0 <= val && val as int == (value as int + 0x1_0000_0000) / (rad as int)
      ensures digit == DIGIT[(value as int + 0x1_0000_0000) % (rad as int)]
    {
      var kludge := MASK - (rad - 1);
      val := value + MASK + 1;
      UnsignedParts(val as int, rad as int);
      var tmp1 := kludge / rad;
      var tmp2 := val / rad;
      var rem := (kludge - (tmp1 * rad)) + (val - (tmp2 * rad));
      tmp1 := tmp1 + 1;
      val := tmp1 + tmp2;
      tmp1 := rem / rad;
      val := val + tmp1;
      digit := DIGIT[(rem - (tmp1 * rad)) as int];
    }

    /** The loop over the remaining digits, from the back of the buffer to the front. */
    method Rest(val0: Long, rad: Long, b0: nat) returns (b: nat)
      requires Radix(rad as int) && val0 >= 0 && b0 <= MAXINTLENGTH && buf.Length == MAXINTLENGTH + 1
      requires |Digits(val0 as int, rad as int)| <= b0
      modifies buf
      ensures b + |Digits(val0 as int, rad as int)| == b0 && buf[b..b0] == Digits(val0 as int, rad as int)
      ensures buf[b0..] == old(buf[b0..])
    {
      var val := val0;
      b := b0;
      ghost var all := Digits(val0 as int, rad as int);
      while val != 0
        invariant val >= 0 && b <= b0 && b0 - b + |Digits(val as int, rad as int)| == |all|
        invariant all == Digits(val as int, rad as int) + buf[b..b0]
        invariant buf[b0..] == old(buf[b0..])
        decreases val
      {
        ghost var before := buf[b..b0];
        var tmp1 := val / rad;
        b := b - 1;
        buf[b] := DIGIT[(val - (tmp1 * rad)) as int];
        DigitMoved(all, val as int, rad as int, before);
        assert buf[b..b0] == [DIGIT[val as int % rad as int]] + before;
        val := tmp1;
      }
    }

    /**
     icvt: the digits of a 32-bit word, signed or unsigned, behind a minus sign if there is one, and behind as many
     blanks or zeros as fill ndigits places. They begin at place b of the buffer and go up to its end.
     */
    method Icvt(value: Long, rad: Long, hassign: bool, ndigits: nat) returns (b: nat)
      requires Radix(rad as int) && ndigits <= MAXINTLENGTH && buf.Length == MAXINTLENGTH + 1
      modifies buf
      ensures b <= MAXINTLENGTH
      ensures buf[b..MAXINTLENGTH] == Filled(
        (if Meant(value, hassign) < 0 then "-" else "") + Numeral(value, hassign, rad as int),
        ndigits, if hassign then ' ' else '0')
    {
      b := MAXINTLENGTH;
      var sign := false;
      if value == 0 {
        b := b - 1;
        buf[b] := '0';
      } else {
        b, sign := Significant(value, rad, hassign);
      }
      ghost var text := Numeral(value, hassign, rad as int);
      if sign {
        b := b - 1;
        buf[b] := '-';
        assert buf[b..MAXINTLENGTH] == ['-'] + text;
        text := ['-'] + text;
      }
      assert text == (if sign then "-" else "") + Numeral(value, hassign, rad as int);
      b := Pad(b, ndigits, if hassign then ' ' else '0', text);
    }

    /** The loop that fills up to ndigits places. */
    method Pad(b0: nat, ndigits: nat, tmp2: char, ghost text: string) returns (b: nat)
      requires b0 <= MAXINTLENGTH && ndigits <= MAXINTLENGTH && buf.Length == MAXINTLENGTH + 1
      requires buf[b0..MAXINTLENGTH] == text
      modifies buf
      ensures b <= MAXINTLENGTH && buf[b..MAXINTLENGTH] == Filled(text, ndigits, tmp2)
    {
      b := b0;
      var tmp1: int := ndigits - (MAXINTLENGTH - b);
      ghost var now := text;
      while tmp1 > 0
        invariant tmp1 <= b <= b0 && tmp1 == ndigits - |now|
        invariant buf[b..MAXINTLENGTH] == now && Filled(now, ndigits, tmp2) == Filled(text, ndigits, tmp2)
      {
        b := b - 1;
        buf[b] := tmp2;
        assert buf[b..MAXINTLENGTH] == [tmp2] + now;
        now := [tmp2] + now;
        tmp1 := tmp1 - 1;
      }
    }

    /** The digits of a word other than zero, and whether they want a minus sign. */
    method Significant(value: Long, rad: Long, hassign: bool) returns (b: nat, sign: bool)
      requires Radix(rad as int) && value != 0 && buf.Length == MAXINTLENGTH + 1
      modifies buf
      ensures sign <==> Meant(value, hassign) < 0
      ensures MAXINTLENGTH - 11 <= b <= MAXINTLENGTH && buf[b..MAXINTLENGTH] == Numeral(value, hassign, rad as int)
    {
      b := MAXINTLENGTH;
      var val := value;
      sign := hassign && value < 0;
      ghost var n := Magnitude(value, hassign);
      ElevenDigits(n, rad as int);
      if value < 0 {
        var digit;
        if sign {
          val, digit := FirstSigned(value, rad);
        } else {
          val, digit := FirstUnsigned(value, rad);
        }
        assert Digits(n, rad as int) == Digits(val as int, rad as int) + [digit];
        b := b - 1;
        buf[b] := digit;
      }
      ghost var b1, tail := b, buf[b..];
      b := Rest(val, rad, b);
      assert buf[b..MAXINTLENGTH] == buf[b..b1] + tail[..MAXINTLENGTH - b1];
    }
  }

  /** Read back, the numeral is the number. */
  lemma NumeralExact(value: Long, hassign: bool, r: int)
    requires Radix(r)
    ensures Value(Numeral(value, hassign, r), r) == Magnitude(value, hassign)
    ensures |Numeral(value, hassign, r)| <= 11 && Numeral(value, hassign, r) != ""
    ensures Numeral(value, hassign, r)[0] == '0' ==> value == 0
  {
    if value == 0 {
      assert Value("0", r) == r * Value("", r) + DigitValue('0');
    } else {
      DigitsRead(Magnitude(value, hassign), r);
      ElevenDigits(Magnitude(value, hassign), r);
    }
  }
}
