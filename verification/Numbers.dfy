/** `str2int` of mi_loader.c, and the `%x` and `%d` renderings it reads back. */
module Numbers {
  import opened Bytes

  /** `toupper` on the ASCII letters. */
  function Upper(b: Byte): (r: Byte)
    ensures r == b || CaseApart(r, b)
    ensures !('a' <= r <= 'z')
  {
    if 'a' <= b <= 'z' then ((b as int) - 32) as char else b
  }

  function UpperAll(s: Text): (r: Text)
    ensures |r| == |s|
  {
    seq(|s|, i requires 0 <= i < |s| => Upper(s[i]))
  }

  predicate IsDigit(c: Byte, base: nat) {
    '0' <= c <= '9' || (base == 16 && 'A' <= c <= 'F')
  }

  function DigitOf(c: Byte): nat {
    if '0' <= c <= '9' then (c as int) - ('0' as int)
    else if 'A' <= c <= 'F' then (c as int) - ('A' as int) + 10
    else 0
  }

  /** `base * v + d` in 32 bits. */
  function Shift(base: nat, v: nat, d: nat): (r: nat)
    ensures r < WORD
  {
    (base * v + d) % WORD
  }

  /** The accumulated value of digits, wrapping at 32 bits; None at the first other character. */
  function Accumulate(s: Text, base: nat): (v: Option<nat>)
    ensures v.Some? ==> v.value < WORD
  {
    if |s| == 0 then Some(0)
    else
      var before := Accumulate(s[..|s| - 1], base);
      var c := s[|s| - 1];
      if before.None? || !IsDigit(c, base) then None else Some(Shift(base, before.value, DigitOf(c)))
  }

  predicate HasHexPrefix(u: Text) {
    |u| >= 2 && u[0] == '0' && u[1] == 'X'
  }

  /** What `str2int` answers. */
  function NumberOf(s: Text): (n: nat)
    ensures n < WORD
  {
    var u := UpperAll(s);
    var v := if HasHexPrefix(u) then Accumulate(u[2..], 16) else Accumulate(u, 10);
    if v.Some? then v.value else 0
  }

  // ----- the code

  /** `strlen`. */
  method StrLen(str: array<Byte>) returns (n: nat)
    requires NUL in str[..]
    ensures n == CLen(str[..]) < str.Length
  {
    n := 0;
    while str[n] != NUL
      invariant n < str.Length && NUL !in str[..n] && NUL in str[n..]
      decreases str.Length - n
    {
      n := n + 1;
    }
    CLenIs(str[..], n);
  }

  /** The `toupper` loop. */
  method UpperInPlace(str: array<Byte>, length: nat)
    requires length <= str.Length
    modifies str
    ensures str[..] == UpperAll(old(str[..length])) + old(str[length..])
  {
    hide UpperAll, Upper;
    ghost var was := str[..];
    UpperNothing(was);
    for i := 0 to length
      invariant str[..] == UpperAll(was[..i]) + was[i..] && |UpperAll(was[..i])| == i
    {
      UpperOne(was, i);
      str[i] := Upper(str[i]);
    }
  }

  lemma UpperNothing(was: Text)
    ensures UpperAll(was[..0]) == []
  {
  }

  lemma UpperOne(was: Text, i: nat)
    requires i < |was| && |UpperAll(was[..i])| == i
    ensures UpperAll(was[..i + 1]) == UpperAll(was[..i]) + [Upper(was[i])]
    ensures (UpperAll(was[..i]) + was[i..])[i] == was[i]
    ensures (UpperAll(was[..i]) + was[i..])[i := Upper(was[i])] == UpperAll(was[..i + 1]) + was[i + 1..]
  {
  }

  /** `str2int`: upper-cases its argument in place and reads it as hexadecimal or decimal. */
  method Str2Int(str: array<Byte>) returns (out: nat)
    requires NUL in str[..]
    modifies str
    ensures out == NumberOf(CStr(old(str[..])))
    ensures str[..] == UpperAll(CStr(old(str[..]))) + old(str[..])[CLen(old(str[..]))..]
  {
    ghost var was := str[..];
    var length := StrLen(str);
    UpperInPlace(str, length);
    ghost var u := UpperAll(CStr(was));
    assert str[..length] == u;
    var isHex := length >= 2 && str[0] == '0' && str[1] == 'X';
    var from := if isHex then 2 else 0;
    assert str[from..length] == u[from..];
    out := ReadDigits(str, from, length, if isHex then 16 else 10);
  }

  /** The accumulation loop; it answers 0 at the first character that is no digit. */
  method ReadDigits(str: array<Byte>, from: nat, length: nat, base: nat) returns (out: nat)
    requires from <= length <= str.Length && (base == 10 || base == 16)
    ensures var v := Accumulate(str[from..length], base);
            out == if v.Some? then v.value else 0
  {
    out := 0;
    ghost var digits := str[from..length];
    var i := from;
    while i < length
      invariant from <= i <= length
      invariant Accumulate(digits[..i - from], base) == Some(out)
    {
      var c := str[i];
      DigitStep(digits, i - from, base);
      if c < '0' || ('9' < c && (base == 10 || c < 'A' || 'F' < c)) {
        NoNumber(digits, i - from + 1, base);
        return 0;
      }
      out := Shift(base, out, DigitOf(c));
      i := i + 1;
    }
    assert digits[..i - from] == digits;
  }

  lemma DigitStep(s: Text, i: nat, base: nat)
    requires i < |s|
    ensures Accumulate(s[..i + 1], base) ==
              var before := Accumulate(s[..i], base);
              if before.None? || !IsDigit(s[i], base) then None else Some(Shift(base, before.value, DigitOf(s[i])))
  {
    assert s[..i + 1][..i] == s[..i];
  }

  lemma {:induction false} NoNumber(s: Text, i: nat, base: nat)
    requires i <= |s| && Accumulate(s[..i], base).None?
    ensures Accumulate(s, base).None?
    decreases |s| - i
  {
    if i == |s| {
      assert s[..i] == s;
    } else {
      DigitStep(s, i, base);
      NoNumber(s, i + 1, base);
    }
  }

  // ----- printing

  const DIGITS: Text := "0123456789abcdef"

  /** The digits of `n`, most significant first, as `%x` and `%u` print them. */
  function Digits(n: nat, base: nat): (s: Text)
    requires base == 10 || base == 16
    ensures |s| > 0
    decreases n
  {
    if n < base then [DIGITS[n]] else Digits(n / base, base) + [DIGITS[n % base]]
  }

  function Hex(n: nat): Text {
    "0x" + Digits(n, 16)
  }

  function Decimal(n: nat): Text {
    Digits(n, 10)
  }

  lemma DigitRoundTrip(d: nat, base: nat)
    requires d < base && (base == 10 || base == 16)
    ensures IsDigit(Upper(DIGITS[d]), base) && DigitOf(Upper(DIGITS[d])) == d
    ensures Upper(DIGITS[d]) != 'X' && DIGITS[d] != NUL && DIGITS[d] != ',' && DIGITS[d] != ';' && DIGITS[d] != ' '
  {
  }

  /** What is printed is read back, as long as it fits 32 bits. */
  lemma {:induction false} DigitsRoundTrip(n: nat, base: nat)
    requires base == 10 || base == 16
    requires n < WORD
    ensures Accumulate(UpperAll(Digits(n, base)), base) == Some(n)
    decreases n
  {
    hide Upper, IsDigit, DigitOf, Shift, UpperAll, Accumulate;
    DivBack(n, base);
    DigitRoundTrip(n % base, base);
    if n < base {
      AccumulateSnoc([], DIGITS[n], base);
      assert [] + [DIGITS[n]] == Digits(n, base);
    } else {
      DigitsRoundTrip(n / base, base);
      AccumulateSnoc(Digits(n / base, base), DIGITS[n % base], base);
    }
  }

  lemma AccumulateSnoc(t: Text, c: Byte, base: nat)
    ensures UpperAll(t + [c]) == UpperAll(t) + [Upper(c)]
    ensures Accumulate(UpperAll([]), base) == Some(0)
    ensures Accumulate(UpperAll(t + [c]), base) ==
              var before := Accumulate(UpperAll(t), base);
              if before.None? || !IsDigit(Upper(c), base) then None
              else Some(Shift(base, before.value, DigitOf(Upper(c))))
  {
    var u := UpperAll(t + [c]);
    assert u[..|t|] == UpperAll(t);
  }

  lemma DivBack(n: nat, base: nat)
    requires base == 10 || base == 16
    requires n < WORD
    ensures n / base < WORD && Shift(base, n / base, n % base) == n && Shift(base, 0, n) == n
    ensures n < base ==> n % base == n
  {
  }

  /** Printed digits are nothing but digits. */
  lemma {:induction false} DigitsAreClean(n: nat, base: nat, k: nat)
    requires base == 10 || base == 16
    requires k < |Digits(n, base)|
    ensures Upper(Digits(n, base)[k]) != 'X'
    ensures Digits(n, base)[k] != NUL && Digits(n, base)[k] != ',' && Digits(n, base)[k] != ';'
    ensures Digits(n, base)[k] != ' '
    decreases n
  {
    DigitRoundTrip(n % base, base);
    if n >= base && k < |Digits(n / base, base)| {
      DigitsAreClean(n / base, base, k);
    }
  }

  predicate PrintedDigit(c: Byte, base: nat) {
    '0' <= c <= '9' || (base == 16 && 'a' <= c <= 'f')
  }

  lemma PrintedDigits(d: nat, base: nat)
    requires d < base && (base == 10 || base == 16)
    ensures PrintedDigit(DIGITS[d], base) && (DIGITS[d] == '0' <==> d == 0)
  {
  }

  /** Printed numbers have small letters and no zero in front. */
  lemma {:induction false} DigitsText(n: nat, base: nat)
    requires base == 10 || base == 16
    ensures forall k :: 0 <= k < |Digits(n, base)| ==> PrintedDigit(Digits(n, base)[k], base)
    ensures n > 0 ==> Digits(n, base)[0] != '0'
    ensures n == 0 ==> Digits(n, base) == ['0']
    decreases n
  {
    hide PrintedDigit;
    PrintedDigits(n % base, base);
    if n >= base {
      DigitsText(n / base, base);
    } else {
      assert n % base == n;
    }
  }

  /** `str2int("0x%x")` is the identity on 32-bit words. */
  lemma HexRoundTrip(n: nat)
    requires n < WORD
    ensures NumberOf(Hex(n)) == n
  {
    var u := UpperAll(Hex(n));
    assert u[0] == '0' && u[1] == 'X';
    assert u[2..] == UpperAll(Digits(n, 16));
    DigitsRoundTrip(n, 16);
  }

  /** `str2int("%u")` is the identity on 32-bit words. */
  lemma DecimalRoundTrip(n: nat)
    requires n < WORD
    ensures NumberOf(Decimal(n)) == n
  {
    DigitsRoundTrip(n, 10);
    if |Digits(n, 10)| >= 2 {
      DigitsAreClean(n, 10, 1);
    }
  }

  function Pow8(k: nat): (p: nat)
    ensures p > 0
  {
    if k == 0 then 1 else 8 * Pow8(k - 1)
  }

  lemma {:induction false} DigitsAreShort(n: nat, base: nat, room: nat)
    requires base == 10 || base == 16
    requires room > 0 && n < Pow8(room)
    ensures |Digits(n, base)| <= room
    decreases n
  {
    if n >= base {
      assert n / base <= n / 8;
      DigitsAreShort(n / base, base, room - 1);
    }
  }

  lemma WordHasFewDigits(n: nat, base: nat)
    requires n < WORD && (base == 10 || base == 16)
    ensures |Digits(n, base)| <= 11
  {
    assert Pow8(2) == 64;
    assert Pow8(4) == 0x1000;
    assert Pow8(6) == 0x40000;
    assert Pow8(8) == 0x1000000;
    assert Pow8(10) == 0x40000000;
    DigitsAreShort(n, base, 11);
  }

  // ----- the number of a text, digit by digit

  /** What a character is worth in a base; None when it is no digit there. */
  function Worth(c: Byte, base: nat): (d: Option<nat>) {
    if '0' <= c <= '9' then Some(c as int - 0x30)
    else if base == 16 && 'a' <= c <= 'f' then Some(c as int - 0x61 + 10)
    else if base == 16 && 'A' <= c <= 'F' then Some(c as int - 0x41 + 10)
    else None
  }

  predicate AllDigits(s: Text, base: nat) {
    forall k :: 0 <= k < |s| ==> Worth(s[k], base).Some?
  }

  lemma WorthOf(c: Byte, base: nat)
    requires base == 10 || base == 16
    ensures Worth(c, base).Some? <==> IsDigit(Upper(c), base)
    ensures Worth(c, base).Some? ==> DigitOf(Upper(c)) == Worth(c, base).value
  {
  }

  lemma {:induction false} DigitsAreRead(s: Text, base: nat)
    requires base == 10 || base == 16
    ensures Accumulate(UpperAll(s), base).Some? <==> AllDigits(s, base)
    decreases |s|
  {
    hide Upper, Shift, UpperAll, Accumulate, IsDigit, DigitOf, Worth;
    if |s| == 0 {
      AccumulateSnoc([], NUL, base);
      assert s == [];
    } else {
      var t, c := s[..|s| - 1], s[|s| - 1];
      DigitsAreRead(t, base);
      AccumulateSnoc(t, c, base);
      WorthOf(c, base);
      assert s == t + [c];
    }
  }

  lemma Prefixed(s: Text, x: Byte)
    requires x == 'x' || x == 'X'
    ensures NumberOf(['0', x] + s) == (var v := Accumulate(UpperAll(s), 16); if v.Some? then v.value else 0)
  {
    assert UpperAll(['0', x] + s)[2..] == UpperAll(s);
  }

  lemma Unprefixed(s: Text)
    requires !(|s| >= 2 && s[0] == '0' && (s[1] == 'x' || s[1] == 'X'))
    ensures NumberOf(s) == (var v := Accumulate(UpperAll(s), 10); if v.Some? then v.value else 0)
  {
    assert |s| >= 2 ==> UpperAll(s)[1] == Upper(s[1]) && UpperAll(s)[0] == Upper(s[0]);
  }

  /** Without a prefix the text is decimal: each digit counts ten times what stood before, in 32 bits, and one character
      that is no digit makes the answer 0. */
  lemma DecimalIs(s: Text, c: Byte)
    requires !(|s| >= 1 && (s + [c])[0] == '0' && ((s + [c])[1] == 'x' || (s + [c])[1] == 'X'))
    ensures NumberOf([]) == 0
    ensures AllDigits(s, 10) && Worth(c, 10).Some? ==>
              NumberOf(s + [c]) == (10 * NumberOf(s) + Worth(c, 10).value) % 0x1_0000_0000
    ensures !AllDigits(s, 10) || Worth(c, 10).None? ==> NumberOf(s + [c]) == 0
  {
    hide Upper, UpperAll, Accumulate, IsDigit, DigitOf, Worth, NumberOf;
    Unprefixed(s + [c]);
    Unprefixed(s);
    Unprefixed([]);
    AccumulateSnoc(s, c, 10);
    DigitsAreRead(s, 10);
    WorthOf(c, 10);
  }

  /** Behind "0x" or "0X" it is hexadecimal, in letters of either case. */
  lemma HexIs(s: Text, c: Byte, x: Byte)
    requires x == 'x' || x == 'X'
    ensures NumberOf(['0', x]) == 0
    ensures AllDigits(s, 16) && Worth(c, 16).Some? ==>
              NumberOf(['0', x] + s + [c]) == (16 * NumberOf(['0', x] + s) + Worth(c, 16).value) % 0x1_0000_0000
    ensures !AllDigits(s, 16) || Worth(c, 16).None? ==> NumberOf(['0', x] + s + [c]) == 0
  {
    hide Upper, UpperAll, Accumulate, IsDigit, DigitOf, Worth, NumberOf;
    assert ['0', x] + s + [c] == ['0', x] + (s + [c]);
    assert ['0', x] + [] == ['0', x];
    Prefixed(s + [c], x);
    Prefixed(s, x);
    Prefixed([], x);
    AccumulateSnoc(s, c, 16);
    DigitsAreRead(s, 16);
    WorthOf(c, 16);
  }
}
