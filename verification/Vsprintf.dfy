/** Printing and reading numbers: `number` and `skip_atoi` of kernel/vsprintf.c. */
module Vsprintf {
  import opened Wrappers

  const TWO_32: int := 0x1_0000_0000

  datatype Flags = Flags(zeropad: bool, sign: bool, plus: bool, space: bool, left: bool, special: bool, small: bool)

  predicate IsDigit(c: char) {
    '0' <= c <= '9'
  }

  function DigitChar(d: nat, small: bool): char
    requires d < 36
  {
    if d < 10 then '0' + d as char else if small then 'a' + (d - 10) as char else 'A' + (d - 10) as char
  }

  /** What a digit counts in any base. */
  function DigitOf(c: char): nat {
    if IsDigit(c) then (c - '0') as nat
    else if 'a' <= c <= 'z' then 10 + (c - 'a') as nat
    else if 'A' <= c <= 'Z' then 10 + (c - 'A') as nat
    else 36
  }

  lemma DigitCharIs(d: nat, small: bool)
    requires d < 36
    ensures DigitOf(DigitChar(d, small)) == d && (d < 10 <==> IsDigit(DigitChar(d, small)))
    ensures d >= 10 ==> (small <==> 'a' <= DigitChar(d, small) <= 'z')
  {
  }

  /** The number the digits of `s` stand for in a base. */
  function ValueIn(s: string, base: nat): nat {
    if s == "" then 0 else ValueIn(s[..|s| - 1], base) * base + DigitOf(s[|s| - 1])
  }

  /** The digits of `n`, highest first; nothing for 0. */
  function Digits(n: nat, base: nat, small: bool): (r: string)
    requires 2 <= base <= 36
    decreases n
  {
    if n == 0 then "" else Shrinks(n, base); Digits(n / base, base, small) + [DigitChar(n % base, small)]
  }

  lemma Shrinks(n: nat, base: nat)
    requires n > 0 && base >= 2
    ensures n / base < n
  {
    var q := n / base;
    assert n == base * q + n % base;
    assert base * q == 2 * q + (base - 2) * q;
    NotNegative(base - 2, q);
  }

  /** The digits of a number, in any base, read back as that number, and the first is not 0. */
  lemma {:induction false} DigitsAre(n: nat, base: nat, small: bool)
    requires 2 <= base <= 36
    ensures ValueIn(Digits(n, base, small), base) == n
    ensures n > 0 ==> Digits(n, base, small) != "" && DigitOf(Digits(n, base, small)[0]) > 0
    decreases n
  {
    if n > 0 {
      Shrinks(n, base);
      DigitsAre(n / base, base, small);
      var hi, c := Digits(n / base, base, small), DigitChar(n % base, small);
      assert Digits(n, base, small) == hi + [c];
      DigitCharIs(n % base, small);
      ValueMore(hi, c, base);
      Divided(n, base);
    }
  }

  lemma ValueMore(s: string, c: char, base: nat)
    ensures ValueIn(s + [c], base) == ValueIn(s, base) * base + DigitOf(c)
  {
    assert (s + [c])[..|s + [c]| - 1] == s;
  }

  lemma Divided(n: nat, base: nat)
    requires base > 0
    ensures n / base * base + n % base == n && (n > 0 && n / base == 0 ==> n % base > 0)
  {
  }

  /** Letters are all small or all capitals, as asked for. */
  lemma {:induction false} LettersAre(n: nat, base: nat, small: bool)
    requires 2 <= base <= 36
    ensures forall c :: c in Digits(n, base, small) ==>
              '0' <= c <= '9' || (if small then 'a' <= c <= 'z' else 'A' <= c <= 'Z')
    decreases n
  {
    if n > 0 {
      Shrinks(n, base);
      LettersAre(n / base, base, small);
      DigitCharIs(n % base, small);
    }
  }

  lemma NotNegative(a: nat, b: nat)
    ensures a * b >= 0
  {
  }

  function Repeat(c: char, n: int): (r: string)
    ensures |r| == if n > 0 then n else 0
    ensures forall i :: 0 <= i < |r| ==> r[i] == c
  {
    seq(if n > 0 then n else 0, _ => c)
  }

  function Max(a: int, b: int): int {
    if a < b then b else a
  }

  /** The number a print shows: its magnitude if it is signed, its 32 bits otherwise. */
  function Magnitude(num: int, f: Flags): nat
    requires -0x8000_0000 <= num < 0x8000_0000
  {
    if num >= 0 then num else if f.sign then -num else num + TWO_32
  }

  function SignOf(num: int, f: Flags): string {
    if f.sign && num < 0 then "-" else if f.plus then "+" else if f.space then " " else ""
  }

  function Prefix(base: nat, f: Flags): string {
    if f.special && base == 8 then "0" else if f.special && base == 16 then (if f.small then "0x" else "0X") else ""
  }

  function Body(n: nat, base: nat, f: Flags): string
    requires 2 <= base <= 36
  {
    if n == 0 then "0" else Digits(n, base, f.small)
  }

  /** The pieces of a number, padded where the flags say. */
  function Layout(sign: string, prefix: string, pad: int, zeros: string, body: string, f: Flags): string {
    (if f.left || f.zeropad then "" else Repeat(' ', pad)) + sign + prefix
    + (if !f.left && f.zeropad then Repeat('0', pad) else "") + zeros + body + if f.left then Repeat(' ', pad) else ""
  }

  /** What `number` writes. */
  function Shown(num: int, base: nat, size: int, precision: int, f: Flags): string
    requires 2 <= base <= 36 && -0x8000_0000 <= num < 0x8000_0000
  {
    var body := Body(Magnitude(num, f), base, f);
    var sign, prefix := SignOf(num, f), Prefix(base, f);
    var digits := Repeat('0', precision - |body|) + body;
    var pad := size - |sign| - |prefix| - |digits|;
    if f.left then sign + prefix + digits + Repeat(' ', pad)
    else if f.zeropad then sign + prefix + Repeat('0', pad) + digits
    else Repeat(' ', pad) + sign + prefix + digits
  }

  /** It fills the field: `size` characters, or more if the number needs them. */
  lemma FieldFilled(num: int, base: nat, size: int, precision: int, f: Flags)
    requires 2 <= base <= 36 && -0x8000_0000 <= num < 0x8000_0000
    ensures var n := |SignOf(num, f)| + |Prefix(base, f)| + Max(precision, |Body(Magnitude(num, f), base, f)|);
      |Shown(num, base, size, precision, f)| == Max(size, n)
  {
    hide Body, Prefix, SignOf, Magnitude;
  }

  /** Without padding: the sign, the prefix, as many zeros as the precision wants, and the digits. */
  lemma ShownIs(num: int, base: nat, precision: int, f: Flags)
    requires 2 <= base <= 36 && -0x8000_0000 <= num < 0x8000_0000
    ensures var n := if num < 0 then (if f.sign then -num else num + 0x1_0000_0000) else num;
      var body := if n == 0 then "0" else Digits(n, base, f.small);
      Shown(num, base, 0, precision, f) ==
        (if num < 0 && f.sign then "-" else if f.plus then "+" else if f.space then " " else "")
        + (if f.special && base == 8 then "0"
           else if f.special && base == 16 then (if f.small then "0x" else "0X") else "")
        + Repeat('0', precision - |body|) + body
  {
    hide Digits, Repeat, SignOf, Prefix;
    var body := Body(Magnitude(num, f), base, f);
    var zeros := Repeat('0', precision - |body|);
    var front := SignOf(num, f) + Prefix(base, f);
    var pad := 0 - |SignOf(num, f)| - |Prefix(base, f)| - |zeros + body|;
    assert Repeat(' ', pad) == "" && Repeat('0', pad) == "";
    assert front + (zeros + body) + "" == front + (zeros + body) && "" + front == front && front + "" == front;
    assert "" + SignOf(num, f) == SignOf(num, f);
    assert Shown(num, base, 0, precision, f) == front + (zeros + body);
    assert front + (zeros + body) == front + zeros + body;
    SignIs(num, f);
    PrefixIs(base, f);
  }

  lemma SignIs(num: int, f: Flags)
    ensures SignOf(num, f) ==
            if num < 0 && f.sign then "-" else if f.plus then "+" else if f.space then " " else ""
  {
  }

  lemma PrefixIs(base: nat, f: Flags)
    ensures Prefix(base, f) ==
            if f.special && base == 8 then "0"
            else if f.special && base == 16 then (if f.small then "0x" else "0X") else ""
  {
  }

  function Reverse(s: string): (r: string)
    ensures |r| == |s|
  {
    if s == "" then "" else Reverse(s[1..]) + [s[0]]
  }

  lemma {:induction false} ReverseAppend(s: string, c: char)
    ensures Reverse(s + [c]) == [c] + Reverse(s)
  {
    if s == "" {
      assert [c][1..] == "" && s + [c] == [c];
      assert Reverse([c]) == Reverse("") + [c];
    } else {
      ReverseAppend(s[1..], c);
      assert (s + [c])[1..] == s[1..] + [c];
    }
  }

  /** The conversion loop: the digits from the lowest up. */
  method Convert(u: nat, base: nat, small: bool) returns (tmp: string)
    requires 2 <= base <= 36
    ensures Reverse(tmp) == Digits(u, base, small)
  {
    hide Digits, Reverse;
    var num: nat := u;
    tmp := "";
    assert Digits(num, base, small) + Reverse(tmp) == Digits(u, base, small) by { ReverseNothing(); }
    while num != 0
      invariant Digits(num, base, small) + Reverse(tmp) == Digits(u, base, small)
      decreases num
    {
      DigitMoves(num, base, small, tmp);
      Shrinks(num, base);
      tmp := tmp + [DigitChar(num % base, small)];
      num := num / base;
    }
    assert Digits(0, base, small) == "" by { NoDigits(base, small); }
  }

  lemma ReverseNothing()
    ensures Reverse("") == ""
  {
  }

  lemma NoDigits(base: nat, small: bool)
    requires 2 <= base <= 36
    ensures Digits(0, base, small) == ""
  {
  }

  /** One digit from the number to the buffer. */
  lemma DigitMoves(num: nat, base: nat, small: bool, tmp: string)
    requires 2 <= base <= 36 && num > 0
    ensures Digits(num / base, base, small) + Reverse(tmp + [DigitChar(num % base, small)]) ==
            Digits(num, base, small) + Reverse(tmp)
  {
    hide Reverse;
    var hi, d := Digits(num / base, base, small), DigitChar(num % base, small);
    ReverseAppend(tmp, d);
    assert Digits(num, base, small) == hi + [d];
    assert (hi + [d]) + Reverse(tmp) == hi + ([d] + Reverse(tmp));
  }

  /** `while (n-- > 0) *str++ = c`. */
  method Pad(str: string, c: char, n: int) returns (out: string)
    ensures out == str + Repeat(c, n) && (n <= 0 ==> out == str)
  {
    out := str;
    var left := n;
    while left > 0
      invariant left <= n && (if n > 0 then left >= 0 else left == n) && out == str + Repeat(c, n - left)
    {
      out := out + [c];
      left := left - 1;
    }
    assert Repeat(c, n) == Repeat(c, n - left);
  }

  /** `while (i-- > 0) *str++ = tmp[i]`. */
  method AppendReversed(str: string, tmp: string) returns (out: string)
    ensures out == str + Reverse(tmp)
  {
    out := str;
    var i := |tmp|;
    assert tmp[|tmp|..] == "";
    while i > 0
      invariant 0 <= i <= |tmp| && out == str + Reverse(tmp)[..|tmp| - i]
    {
      i := i - 1;
      ReverseAt(tmp, i);
      out := out + [tmp[i]];
    }
  }

  lemma {:induction false} ReverseAt(s: string, i: nat)
    requires i < |s|
    ensures Reverse(s)[|s| - 1 - i] == s[i]
  {
    if i > 0 { ReverseAt(s[1..], i - 1); }
  }

  /** number; None for a base out of range. */
  method Number(num0: int, base: int, size0: int, precision0: int, f: Flags) returns (str: Option<string>)
    requires -0x8000_0000 <= num0 < 0x8000_0000
    ensures str == if 2 <= base <= 36 then Some(Shown(num0, base, size0, precision0, f)) else None
  {
    hide Digits, Reverse, Shown, Repeat, Body, Prefix, Layout;
    if base < 2 || base > 36 {
      return None;
    }
    var num, size, precision := num0, size0, precision0;
    var sign := "";
    if f.sign && num < 0 {
      sign := "-";
      num := -num;
    } else {
      sign := if f.plus then "+" else if f.space then " " else "";
    }
    if sign != "" {
      size := size - 1;
    }
    if f.special {
      if base == 16 {
        size := size - 2;
      } else if base == 8 {
        size := size - 1;
      }
    }
    var tmp := "0";
    if num != 0 {
      tmp := Convert(if num < 0 then num + TWO_32 else num, base, f.small);
    }
    if |tmp| > precision {
      precision := |tmp|;
    }
    size := size - precision;
    var out := Lay(sign, base, size, precision - |tmp|, f, tmp);
    ReverseZero();
    BodyIs(Magnitude(num0, f), base, f);
    PrefixSize(base, f);
    assert sign == SignOf(num0, f);
    Written(num0, base, size0, precision0, f, Reverse(tmp));
    str := Some(out);
  }

  /** The prefix of octal and hexadecimal numbers. */
  method AddPrefix(out0: string, base: nat, f: Flags) returns (out: string)
    ensures out == out0 + Prefix(base, f)
  {
    out := out0;
    if f.special {
      if base == 8 {
        out := out + "0";
      } else if base == 16 {
        out := out + ['0', if f.small then 'x' else 'X'];
      }
    }
  }

  /** The second half of number: everything in its place. */
  method Lay(sign: string, base: nat, size0: int, zeros: int, f: Flags, tmp: string) returns (out: string)
    ensures out == Layout(sign, Prefix(base, f), size0, Repeat('0', zeros), Reverse(tmp), f)
  {
    hide Reverse, Repeat, Prefix;
    var zeropad := f.zeropad && !f.left;
    var c := if zeropad then '0' else ' ';
    out := "";
    var size := size0;
    if !zeropad && !f.left {
      out := Pad(out, ' ', size);
      size := -1;
    }
    out := out + sign;
    out := AddPrefix(out, base, f);
    if !f.left {
      out := Pad(out, c, size);
      size := -1;
    }
    out := Pad(out, '0', zeros);
    out := AppendReversed(out, tmp);
    out := Pad(out, ' ', size);
  }

  lemma BodyIs(n: nat, base: nat, f: Flags)
    requires 2 <= base <= 36
    ensures Body(n, base, f) == if n == 0 then "0" else Digits(n, base, f.small)
  {
  }

  lemma PrefixSize(base: nat, f: Flags)
    ensures |Prefix(base, f)| == if f.special && base == 8 then 1 else if f.special && base == 16 then 2 else 0
  {
  }

  lemma ReverseZero()
    ensures Reverse("0") == "0"
  {
    assert "0"[1..] == "";
  }

  /** The pieces in the order they are written are what is to be shown. */
  lemma Written(num: int, base: nat, size: int, precision: int, f: Flags, body: string)
    requires 2 <= base <= 36 && -0x8000_0000 <= num < 0x8000_0000 && body == Body(Magnitude(num, f), base, f)
    ensures var left := size - |SignOf(num, f)| - |Prefix(base, f)| - Max(precision, |body|);
      Layout(SignOf(num, f), Prefix(base, f), left, Repeat('0', Max(precision, |body|) - |body|), body, f) ==
      Shown(num, base, size, precision, f)
  {
    hide Body, SignOf, Prefix, Magnitude;
    assert Repeat('0', Max(precision, |body|) - |body|) == Repeat('0', precision - |body|);
  }

  // ---- reading ----

  function DigitValue(c: char): nat
    requires IsDigit(c)
  {
    (c - '0') as nat
  }

  /** skip_atoi as a function: the value of the leading digits, and what follows them. */
  function Atoi(s: string, i: nat): (nat, string) {
    if s == "" || !IsDigit(s[0]) then (i, s) else Atoi(s[1..], i * 10 + DigitValue(s[0]))
  }

  predicate AllDigits(s: string) {
    forall k :: 0 <= k < |s| ==> IsDigit(s[k])
  }

  /** The number decimal digits stand for. */
  function Value(s: string): nat
    requires AllDigits(s)
  {
    if s == "" then 0 else 10 * Value(s[..|s| - 1]) + DigitValue(s[|s| - 1])
  }

  /** A number as an int of 32 bits holds it. */
  function Signed(v: int): int {
    (v + 0x8000_0000) % 0x1_0000_0000 - 0x8000_0000
  }

  /** skip_atoi: `rest` begins behind the longest prefix of digits, and `i` is their value as far as an int holds it. */
  method SkipAtoi(s: string) returns (i: int, rest: string)
    ensures |rest| <= |s| && rest == s[|s| - |rest|..] && (rest == "" || !IsDigit(rest[0]))
    ensures AllDigits(s[..|s| - |rest|]) && i == Signed(Value(s[..|s| - |rest|]))
    ensures -0x8000_0000 <= i < 0x8000_0000 && (Value(s[..|s| - |rest|]) - i) % 0x1_0000_0000 == 0
  {
    i, rest := 0, s;
    ghost var k := 0;
    while rest != "" && IsDigit(rest[0])
      invariant 0 <= k <= |s| && rest == s[k..] && AllDigits(s[..k]) && i == Signed(Value(s[..k]))
      decreases |rest|
    {
      assert s[..k + 1][..k] == s[..k] && s[..k + 1][k] == rest[0];
      SignedStep(Value(s[..k]), DigitValue(rest[0]));
      i, rest := Signed(i * 10 + DigitValue(rest[0])), rest[1..];
      k := k + 1;
    }
    SignedIs(Value(s[..k]));
  }

  lemma SignedIs(v: int)
    ensures -0x8000_0000 <= Signed(v) < 0x8000_0000 && (v - Signed(v)) % 0x1_0000_0000 == 0
  {
    var q := (v + 0x8000_0000) / 0x1_0000_0000;
    assert v - Signed(v) == q * 0x1_0000_0000;
  }

  lemma SignedStep(v: int, d: int)
    ensures Signed(Signed(v) * 10 + d) == Signed(v * 10 + d)
  {
    var q := (v + 0x8000_0000) / 0x1_0000_0000;
    assert Signed(v) == v - q * 0x1_0000_0000;
    SignedShift(v * 10 + d, -10 * q);
  }

  lemma SignedShift(v: int, q: int)
    ensures Signed(v + q * 0x1_0000_0000) == Signed(v)
  {
    var w := v + 0x8000_0000;
    var m, n := (w + q * 0x1_0000_0000) / 0x1_0000_0000, w / 0x1_0000_0000;
    assert w + q * 0x1_0000_0000 == m * 0x1_0000_0000 + (w + q * 0x1_0000_0000) % 0x1_0000_0000;
    assert w == n * 0x1_0000_0000 + w % 0x1_0000_0000;
  }

  /** Both say the same: the digits up to the first character that is none. */
  lemma AtoiIs(s: string, k: nat)
    requires k <= |s| && AllDigits(s[..k]) && (k == |s| || !IsDigit(s[k]))
    ensures Atoi(s, 0) == (Value(s[..k]), s[k..])
  {
    AtoiOn(s, k, k);
    assert s[k..k] == "";
  }

  lemma {:induction false} AtoiOn(s: string, k: nat, n: nat)
    requires n <= k <= |s| && AllDigits(s[..k])
    ensures Atoi(s, 0) == Atoi(s[n..], Value(s[..n]))
  {
    if n == 0 {
      assert s[..0] == "" && s[0..] == s;
    } else {
      AtoiOn(s, k, n - 1);
      assert s[..n][..n - 1] == s[..n - 1] && s[n - 1..][1..] == s[n..] && s[n - 1..][0] == s[..k][n - 1];
    }
  }

  function Pow10(k: nat): nat {
    if k == 0 then 1 else 10 * Pow10(k - 1)
  }

  /** Decimal digits read back as the number, whatever follows that is no digit. */
  lemma {:induction false} DigitsReadBack(n: nat, small: bool, rest: string, i: nat)
    requires rest == "" || !IsDigit(rest[0])
    ensures Atoi(Digits(n, 10, small) + rest, i) == (i * Pow10(|Digits(n, 10, small)|) + n, rest)
    decreases n
  {
    ReadOn(n, small, rest, i);
    assert Atoi(rest, i * Pow10(|Digits(n, 10, small)|) + n) == (i * Pow10(|Digits(n, 10, small)|) + n, rest);
  }

  /** Reading the digits of `n` first, then anything. */
  lemma {:induction false} ReadOn(n: nat, small: bool, s: string, i: nat)
    ensures Atoi(Digits(n, 10, small) + s, i) == Atoi(s, i * Pow10(|Digits(n, 10, small)|) + n)
    decreases n
  {
    if n == 0 {
      assert Digits(n, 10, small) + s == s;
    } else {
      var hi, c := Digits(n / 10, 10, small), DigitChar(n % 10, small);
      assert Digits(n, 10, small) == hi + [c];
      assert (hi + [c]) + s == hi + ([c] + s);
      ReadOn(n / 10, small, [c] + s, i);
      assert ([c] + s)[1..] == s;
      TenTimes(i, Pow10(|hi|), n);
    }
  }

  lemma TenTimes(i: nat, p: nat, n: nat)
    ensures (i * p + n / 10) * 10 + n % 10 == i * (10 * p) + n
  {
    assert i * (10 * p) == 10 * (i * p);
  }

  lemma {:induction false} ZerosRead(k: nat, s: string)
    ensures Atoi(Repeat('0', k) + s, 0) == Atoi(s, 0)
    decreases k
  {
    if k == 0 {
      assert Repeat('0', k) + s == s;
    } else {
      assert (Repeat('0', k) + s)[1..] == Repeat('0', k - 1) + s;
      ZerosRead(k - 1, s);
    }
  }

  /** What is printed in decimal, without sign or leading blanks, is read back by skip_atoi as the same int, negative
    * ones printed unsigned included. */
  lemma PrintThenRead(num: int, size: int, precision: int, f: Flags, k: nat)
    requires -0x8000_0000 <= num < 0x8000_0000 && SignOf(num, f) == ""
    requires f.left || f.zeropad || size <= Max(precision, |Body(Magnitude(num, f), 10, f)|)
    requires var s := Shown(num, 10, size, precision, f); k <= |s| && AllDigits(s[..k]) && (k == |s| || !IsDigit(s[k]))
    ensures Signed(Value(Shown(num, 10, size, precision, f)[..k])) == num
  {
    hide Shown, Atoi, Value;
    ShownRead(num, size, precision, f);
    AtoiIs(Shown(num, 10, size, precision, f), k);
  }

  lemma ShownRead(num: int, size: int, precision: int, f: Flags)
    requires -0x8000_0000 <= num < 0x8000_0000 && SignOf(num, f) == ""
    requires f.left || f.zeropad || size <= Max(precision, |Body(Magnitude(num, f), 10, f)|)
    ensures Atoi(Shown(num, 10, size, precision, f), 0).0 == Magnitude(num, f)
  {
    hide Magnitude, SignOf, Digits;
    var n := Magnitude(num, f);
    var body := Body(n, 10, f);
    var zeros := Repeat('0', precision - |body|);
    var pad := size - |zeros + body|;
    if f.left {
      var tail := Repeat(' ', pad);
      assert Shown(num, 10, size, precision, f) == zeros + (body + tail);
      ReadBody(n, f, |zeros|, tail);
    } else if f.zeropad {
      var all := Repeat('0', |Repeat('0', pad)| + |zeros|);
      assert Repeat('0', pad) + zeros == all;
      assert Shown(num, 10, size, precision, f) == all + (body + "");
      ReadBody(n, f, |all|, "");
    } else {
      assert Shown(num, 10, size, precision, f) == zeros + (body + "");
      ReadBody(n, f, |zeros|, "");
    }
  }

  lemma ReadBody(n: nat, f: Flags, k: nat, tail: string)
    requires tail == "" || tail[0] == ' '
    ensures Atoi(Repeat('0', k) + (Body(n, 10, f) + tail), 0) == (n, tail)
  {
    ZerosRead(k, Body(n, 10, f) + tail);
    if n == 0 {
      assert ("0" + tail)[1..] == tail;
    } else {
      DigitsReadBack(n, f.small, tail, 0);
    }
  }
}
