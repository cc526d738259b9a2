/**
 Printing a number (TPJOS/lib/printfmt.c:44-59 and 199-236) and reading it back
 (TPJOS/lib/string.c:241-286). Neither detects overflow, and the numbers here are unbounded.
 */
module Numbers {

  const DIGITS: string := "0123456789abcdef"

  predicate Base(base: nat) {
    2 <= base <= 16
  }

  function DigitChar(d: nat): char
    requires d < 16
  {
    DIGITS[d]
  }

  /** The digits of a number, most significant first. */
  function Digits(num: nat, base: nat): (r: string)
    requires Base(base)
    ensures |r| >= 1
    decreases num
  {
    (if num >= base then Digits(num / base, base) else "") + [DigitChar(num % base)]
  }

  function Padding(c: char, n: int): (r: string)
    ensures |r| == if n > 0 then n else 0
    decreases n
  {
    if n <= 0 then "" else Padding(c, n - 1) + [c]
  }

  function NumText(num: nat, base: nat, width: int, padc: char): string
    requires Base(base)
  {
    Padding(padc, width - |Digits(num, base)|) + Digits(num, base)
  }

  lemma LastOfText(num: nat, base: nat, width: int, padc: char)
    requires Base(base)
    ensures NumText(num, base, width, padc) ==
      (if num >= base then NumText(num / base, base, width - 1, padc) else Padding(padc, width - 1)) + [DigitChar(num % base)]
  {
    hide Digits, Padding;
    LastDigit(num, base);
    if num >= base {
      assert |Digits(num, base)| == |Digits(num / base, base)| + 1;
    }
  }

  lemma LastDigit(num: nat, base: nat)
    requires Base(base)
    ensures Digits(num, base) == (if num >= base then Digits(num / base, base) else "") + [DigitChar(num % base)]
    ensures num < base ==> |Digits(num, base)| == 1
  {
  }

  lemma NoPadding(c: char, n: int)
    ensures n <= 0 ==> Padding(c, n) == Padding(c, 0) == ""
  {
  }

  /** What putch writes to. */
  class Output {
    var text: string

    constructor ()
      ensures text == ""
    {
      text := "";
    }

    method Putch(c: char)
      modifies this
      ensures text == old(text) + [c]
    {
      text := text + [c];
    }

    /** printfmt.c:52-54: padding before the first digit. */
    method Pad(width: int, padc: char)
      modifies this
      ensures text == old(text) + Padding(padc, width - 1)
    {
      var w := width - 1;
      ghost var done := 0;
      while w > 0
        invariant text == old(text) + Padding(padc, done) && 0 <= done
        invariant if width > 1 then 0 <= w && done == width - 1 - w else done == 0 && w <= 0
      {
        Putch(padc);
        w, done := w - 1, done + 1;
      }
    }

    /** printnum: the recursion takes one from the width for every digit but the first. */
    method PrintNum(num: nat, base: nat, width: int, padc: char)
      requires Base(base)
      modifies this
      ensures text == old(text) + NumText(num, base, width, padc)
      decreases num
    {
      hide Digits, Padding, NumText;
      LastDigit(num, base);
      if num >= base {
        PrintNum(num / base, base, width - 1, padc);
      } else {
        Pad(width, padc);
      }
      LastOfText(num, base, width, padc);
      Putch(DigitChar(num % base));
    }

    /** The case 'd' of vprintfmt: the sign comes before the padding. */
    method PrintInt(n: int, width: int, padc: char)
      modifies this
      ensures text == old(text) + IntText(n, width, padc)
    {
      hide Digits, Padding;
      if n < 0 {
        Putch('-');
        PrintNum(-n, 10, width, padc);
      } else {
        PrintNum(n, 10, width, padc);
      }
    }
  }

  function IntText(n: int, width: int, padc: char): string {
    if n < 0 then "-" + NumText(-n, 10, width, padc) else NumText(n, 10, width, padc)
  }

  // ------------------------------------------------------------------
  // strtol
  // ------------------------------------------------------------------

  /** The character at `i`, or the terminator. */
  function At(s: string, i: nat): char {
    if i < |s| then s[i] else '\0'
  }

  function DigitOf(c: char): (d: int) {
    if '0' <= c <= '9' then c as int - '0' as int
    else if 'a' <= c <= 'z' then c as int - 'a' as int + 10
    else if 'A' <= c <= 'Z' then c as int - 'A' as int + 10
    else -1
  }

  predicate IsDigit(c: char, base: int) {
    0 <= DigitOf(c) < base
  }

  predicate Blank(c: char) {
    c == ' ' || c == '\t'
  }

  function SkipBlanks(s: string, i: nat): (r: nat)
    ensures r >= i
    decreases |s| - i
  {
    if Blank(At(s, i)) then SkipBlanks(s, i + 1) else i
  }

  /** The value of the digits from `i` on, after `val`, and where they end. */
  function ParseDigits(s: string, i: nat, base: int, val: int): (int, nat)
    decreases |s| - i
  {
    if i < |s| && IsDigit(s[i], base) then ParseDigits(s, i + 1, base, val * base + DigitOf(s[i])) else (val, i)
  }

  /** The base that strtol reads in, and the length of the prefix that tells it. */
  function Prefix(s: string, i: nat, base: int): (int, nat) {
    if (base == 0 || base == 16) && At(s, i) == '0' && At(s, i + 1) == 'x' then (16, 2)
    else if base == 0 && At(s, i) == '0' then (8, 1)
    else if base == 0 then (10, 0)
    else (base, 0)
  }

  /** strtol: the value, and the offset of *endptr. */
  function Strtol(s: string, base: int): (int, nat) {
    var i := SkipBlanks(s, 0);
    var neg := At(s, i) == '-';
    var j := if At(s, i) == '+' || neg then i + 1 else i;
    var (radix, n) := Prefix(s, j, base);
    var (val, end) := ParseDigits(s, j + n, radix, 0);
    (if neg then -val else val, end)
  }

  lemma NextDigit(s: string, i: nat, base: int, val: int)
    requires i < |s|
    ensures var dig := DigitOf(s[i]);
      ParseDigits(s, i, base, val) == if dig < 0 || dig >= base then (val, i) else ParseDigits(s, i + 1, base, val * base + dig)
  {
  }

  lemma NoDigitLeft(s: string, i: nat, base: int, val: int)
    ensures i >= |s| || !IsDigit(s[i], base) ==> ParseDigits(s, i, base, val) == (val, i)
  {
  }

  method ParseNumber(s: string, base: int) returns (result: int, end: nat)
    ensures (result, end) == Strtol(s, base)
  {
    hide ParseDigits, DigitOf;
    var i, neg, val := 0, false, 0;
    while Blank(At(s, i))
      invariant SkipBlanks(s, i) == SkipBlanks(s, 0)
      decreases |s| - i
    {
      i := i + 1;
    }
    if At(s, i) == '+' {
      i := i + 1;
    } else if At(s, i) == '-' {
      i, neg := i + 1, true;
    }
    var radix := base;
    if (base == 0 || base == 16) && At(s, i) == '0' && At(s, i + 1) == 'x' {
      i, radix := i + 2, 16;
    } else if base == 0 && At(s, i) == '0' {
      i, radix := i + 1, 8;
    } else if base == 0 {
      radix := 10;
    }
    ghost var start := i;
    while i < |s|
      invariant ParseDigits(s, i, radix, val) == ParseDigits(s, start, radix, 0)
      decreases |s| - i
    {
      NextDigit(s, i, radix, val);
      var dig := DigitOf(s[i]);
      if dig < 0 || dig >= radix {
        break;
      }
      i, val := i + 1, val * radix + dig;
    }
    NoDigitLeft(s, i, radix, val);
    return if neg then -val else val, i;
  }

  // ------------------------------------------------------------------
  // Round trip
  // ------------------------------------------------------------------

  /** The width is a minimum. */
  lemma TextLength(num: nat, base: nat, width: int, padc: char)
    requires Base(base)
    ensures |NumText(num, base, width, padc)| == if width > |Digits(num, base)| then width else |Digits(num, base)|
  {
  }

  /** The digits of `t`, after `val`. */
  function Value(val: int, t: string, base: nat): int {
    if t == "" then val else Value(val, t[..|t| - 1], base) * base + DigitOf(t[|t| - 1])
  }

  predicate AllDigits(t: string, base: nat) {
    forall k :: 0 <= k < |t| ==> IsDigit(t[k], base)
  }

  /** Digits, without the letter of the prefix 0x. */
  predicate PlainDigits(t: string, base: nat) {
    AllDigits(t, base) && forall k :: 0 <= k < |t| ==> t[k] != 'x'
  }

  lemma PlainSnoc(t: string, c: char, base: nat)
    requires (t != "" ==> PlainDigits(t, base)) && IsDigit(c, base) && c != 'x'
    ensures PlainDigits(t + [c], base)
  {
  }

  lemma {:induction false} FirstDigit(val: int, t: string, base: nat)
    requires t != ""
    ensures Value(val, t, base) == Value(val * base + DigitOf(t[0]), t[1..], base)
    decreases |t|
  {
    var shorter := t[..|t| - 1];
    if shorter != "" {
      FirstDigit(val, shorter, base);
      assert t[1..][..|t[1..]| - 1] == shorter[1..];
    } else {
      assert t[1..] == "";
    }
  }

  const LETTERS: string := "0123456789abcdefghijklmnopqrstuvwxyz"
  const CAPITALS: string := "0123456789ABCDEFGHIJKLMNOPQRSTUVWXYZ"

  /** The digits that strtol knows, in either case, and no other character. */
  lemma DigitOfIs(c: char)
    ensures DigitOf(c) < 0 <==> c !in LETTERS && c !in CAPITALS
    ensures DigitOf(c) >= 0 ==> DigitOf(c) < 36 && (LETTERS[DigitOf(c)] == c || CAPITALS[DigitOf(c)] == c)
  {
    var d := DigitOf(c);
    assert |LETTERS| == |CAPITALS| == 36;
    if d >= 0 {
      if c >= 'a' {
        assert c == LETTERS[d] by { LetterIs(d); }
      } else {
        assert c == CAPITALS[d] by { LetterIs(d); }
      }
    } else {
      forall k: nat | k < 36
        ensures LETTERS[k] != c && CAPITALS[k] != c
      {
        LetterIs(k);
      }
    }
  }

  lemma LetterIs(k: nat)
    requires k < 36
    ensures LETTERS[k] as int == if k < 10 then '0' as int + k else 'a' as int + k - 10
    ensures CAPITALS[k] as int == if k < 10 then '0' as int + k else 'A' as int + k - 10
  {
  }

  /** On any text the digits are read as far as they go, and give their value. */
  lemma {:induction false} ParsedPrefix(s: string, i: nat, base: nat, val: int)
    requires i <= |s|
    ensures var (v, end) := ParseDigits(s, i, base, val);
      && i <= end <= |s| && AllDigits(s[i..end], base) && v == Value(val, s[i..end], base)
      && (end < |s| ==> !IsDigit(s[end], base))
    decreases |s| - i
  {
    if i < |s| && IsDigit(s[i], base) {
      var val' := val * base + DigitOf(s[i]);
      ParsedPrefix(s, i + 1, base, val');
      var (v, end) := ParseDigits(s, i + 1, base, val');
      var t := s[i..end];
      assert t[0] == s[i] && t[1..] == s[i + 1..end];
      FirstDigit(val, t, base);
      forall k | 0 <= k < |t|
        ensures IsDigit(t[k], base)
      {
        assert k > 0 ==> t[k] == s[i + 1..end][k - 1];
      }
    } else {
      assert s[i..i] == "";
    }
  }

  lemma {:induction false} ParseAll(s: string, i: nat, base: nat, val: int)
    requires i <= |s| && AllDigits(s[i..], base)
    ensures ParseDigits(s, i, base, val) == (Value(val, s[i..], base), |s|)
    decreases |s| - i
  {
    if i < |s| {
      assert s[i..][0] == s[i] && s[i..][1..] == s[i + 1..];
      var rest := s[i + 1..];
      forall k | 0 <= k < |rest|
        ensures IsDigit(rest[k], base)
      {
        assert rest[k] == s[i..][k + 1];
      }
      ParseAll(s, i + 1, base, val * base + DigitOf(s[i]));
      FirstDigit(val, s[i..], base);
    }
  }

  lemma {:induction false} DigitsValue(num: nat, base: nat)
    requires Base(base)
    ensures PlainDigits(Digits(num, base), base) && Value(0, Digits(num, base), base) == num
    decreases num
  {
    hide Digits, DigitOf, Value, DigitChar, PlainDigits;
    var front := if num >= base then Digits(num / base, base) else "";
    LastDigit(num, base);
    OneDigit(num % base, base);
    if num >= base {
      DigitsValue(num / base, base);
    } else {
      ValueOfNone(0, base);
    }
    PlainSnoc(front, DigitChar(num % base), base);
    ValueSnoc(0, front, DigitChar(num % base), base);
    Quotient(num, base);
  }

  lemma Quotient(num: nat, base: nat)
    requires Base(base)
    ensures num == num / base * base + num % base && (num >= base ==> 0 < num / base < num)
  {
  }

  lemma ValueOfNone(val: int, base: nat)
    ensures Value(val, "", base) == val
  {
  }

  lemma ValueSnoc(val: int, t: string, c: char, base: nat)
    ensures Value(val, t + [c], base) == Value(val, t, base) * base + DigitOf(c)
  {
    assert (t + [c])[..|t + [c]| - 1] == t;
  }

  lemma OneDigit(d: nat, base: nat)
    requires Base(base) && d < base
    ensures DigitOf(DigitChar(d)) == d && DigitChar(d) != ' ' && DigitChar(d) != '\t' && DigitChar(d) != '+' && DigitChar(d) != '-' && DigitChar(d) != 'x'
  {
    assert DIGITS == "0123456789abcdef";
  }

  lemma {:induction false} ZeroesValue(n: int, t: string, base: nat)
    ensures Value(0, Padding('0', n) + t, base) == Value(0, t, base)
    decreases |t|, n
  {
    hide DigitOf;
    var p := Padding('0', n);
    if t != "" {
      var front := t[..|t| - 1];
      ZeroesValue(n, front, base);
      ValueSnoc(0, front, t[|t| - 1], base);
      ValueSnoc(0, p + front, t[|t| - 1], base);
      assert p + t == p + front + [t[|t| - 1]] && t == front + [t[|t| - 1]];
    } else if n > 0 {
      ZeroesValue(n - 1, "", base);
      ValueSnoc(0, Padding('0', n - 1), '0', base);
      assert Padding('0', n - 1) + "" == Padding('0', n - 1) && p + "" == p;
      ZeroDigit();
    }
  }

  lemma ZeroDigit()
    ensures DigitOf('0') == 0
  {
  }

  lemma {:induction false} PaddingIs(c: char, n: int)
    ensures forall k :: 0 <= k < |Padding(c, n)| ==> Padding(c, n)[k] == c
    decreases n
  {
    if n > 0 {
      PaddingIs(c, n - 1);
    }
  }

  lemma {:induction false} BlanksSkipped(s: string, i: nat, n: nat)
    requires i <= n <= |s| && (forall k :: i <= k < n ==> s[k] == ' ') && !Blank(At(s, n))
    ensures SkipBlanks(s, i) == n
    decreases n - i
  {
    if i < n {
      BlanksSkipped(s, i + 1, n);
    }
  }

  /** A text of digits, after blanks and perhaps a minus sign, is read to its end. */
  lemma ReadsDigits(blanks: string, sign: string, t: string, base: nat)
    requires Base(base) && PlainDigits(t, base) && t != "" && (forall c :: c in blanks ==> c == ' ') && (sign == "" || sign == "-")
    ensures Strtol(blanks + sign + t, base) == (if sign == "-" then -Value(0, t, base) else Value(0, t, base), |blanks + sign + t|)
  {
    var s, n := blanks + sign + t, |blanks| + |sign|;
    assert s[n..] == t && s[n] == t[0] && IsDigit(t[0], base);
    assert forall k :: 0 <= k < |blanks| ==> s[k] == blanks[k] && blanks[k] in blanks;
    assert s[|blanks|] == if sign == "" then t[0] else '-';
    BlanksSkipped(s, 0, |blanks|);
    assert |t| > 1 ==> s[n + 1] == t[1];
    ParseAll(s, n, base, 0);
  }

  /** printnum, then strtol in the same base, gives the number back and consumes everything. */
  lemma RoundTrip(num: nat, base: nat, width: int, padc: char)
    requires Base(base) && (padc == ' ' || padc == '0')
    ensures Strtol(NumText(num, base, width, padc), base) == (num, |NumText(num, base, width, padc)|)
  {
    hide Strtol, Digits, Padding, Value, DigitOf;
    var t, n := Digits(num, base), width - |Digits(num, base)|;
    DigitsValue(num, base);
    PaddingIs(padc, n);
    if padc == ' ' {
      ReadsDigits(Padding(' ', n), "", t, base);
      assert Padding(' ', n) + "" + t == NumText(num, base, width, padc);
    } else {
      ZeroesThen(n, t, base);
      ReadsDigits("", "", Padding('0', n) + t, base);
      assert "" + "" + (Padding('0', n) + t) == NumText(num, base, width, padc);
    }
  }

  /** With base 0 the prefix decides, so that a number comes back that is printed after it: 0x for the
      hexadecimal digits, 0 for the octal ones, none for the decimal ones. */
  lemma PrefixRoundTrip(num: nat, base: nat)
    requires base == 8 || base == 10 || base == 16
    ensures var text := (if base == 16 then "0x" else if base == 8 then "0" else "") + Digits(num, base);
      Strtol(text, 0) == (num, |text|)
  {
    hide Digits, Value, DigitOf;
    var t := Digits(num, base);
    var prefix := if base == 16 then "0x" else if base == 8 then "0" else "";
    var s := prefix + t;
    DigitsValue(num, base);
    NoLeadingZero(num, base);
    assert s[|prefix|..] == t && s[|prefix|] == t[0] && IsDigit(t[0], base);
    assert |t| > 1 ==> s[|prefix| + 1] == t[1];
    NotBlank(t[0], base);
    ParseAll(s, |prefix|, base, 0);
    if num == 0 && base == 10 {
      assert s == "0" && ParseDigits(s, 1, 8, 0) == (0, 1);
    }
  }

  lemma NotBlank(c: char, base: nat)
    requires IsDigit(c, base)
    ensures !Blank(c) && c != '+' && c != '-'
  {
  }

  lemma {:induction false} NoLeadingZero(num: nat, base: nat)
    requires Base(base)
    ensures if num == 0 then Digits(num, base) == "0" else Digits(num, base)[0] != '0'
    decreases num
  {
    hide Digits;
    Quotient(num, base);
    LastDigit(num, base);
    if num >= base {
      NoLeadingZero(num / base, base);
      assert Digits(num, base)[0] == Digits(num / base, base)[0];
    }
    assert DIGITS == "0123456789abcdef";
  }

  lemma ZeroesThen(n: int, t: string, base: nat)
    requires Base(base) && PlainDigits(t, base)
    ensures PlainDigits(Padding('0', n) + t, base) && Value(0, Padding('0', n) + t, base) == Value(0, t, base)
  {
    hide Value;
    PaddingIs('0', n);
    ZeroesValue(n, t, base);
    var p, s := Padding('0', n), Padding('0', n) + t;
    forall k | 0 <= k < |s|
      ensures IsDigit(s[k], base) && s[k] != 'x'
    {
      assert s[k] == if k < |p| then p[k] else t[k - |p|];
    }
  }

  /** A sign that is followed by a blank is not followed by a number. */
  lemma SignAlone(s: string)
    requires |s| > 1 && s[0] == '-' && s[1] == ' '
    ensures Strtol(s, 10) == (0, 1)
  {
  }

  /** A signed number comes back unless it is negative and blanks have come between sign and digits. */
  lemma IntRoundTripIff(n: int, width: int, padc: char)
    requires padc == ' ' || padc == '0'
    ensures var text := IntText(n, width, padc);
      Strtol(text, 10) == (n, |text|) <==> n >= 0 || padc == '0' || width <= |Digits(-n, 10)|
  {
    hide Strtol, Digits, Padding, Value, DigitOf;
    if n >= 0 {
      RoundTrip(n, 10, width, padc);
    } else {
      NegativeInt(n, width, padc);
    }
  }

  lemma NegativeInt(n: int, width: int, padc: char)
    requires n < 0 && (padc == ' ' || padc == '0')
    ensures var text := IntText(n, width, padc);
      Strtol(text, 10) == if padc == '0' || width <= |Digits(-n, 10)| then (n, |text|) else (0, 1)
  {
    hide Strtol, Digits, Padding, Value, DigitOf;
    var t, pad := Digits(-n, 10), width - |Digits(-n, 10)|;
    var text := IntText(n, width, padc);
    DigitsValue(-n, 10);
    PaddingIs(padc, pad);
    NoPadding(padc, pad);
    NoPadding(padc, 0);
    if padc == '0' {
      ZeroesThen(pad, t, 10);
      ReadsDigits("", "-", Padding('0', pad) + t, 10);
      assert "" + "-" + (Padding('0', pad) + t) == text;
    } else if pad <= 0 {
      ReadsDigits("", "-", t, 10);
      assert "" + "-" + t == text;
    } else {
      assert text[1] == Padding(' ', pad)[0];
      SignAlone(text);
    }
  }
}
