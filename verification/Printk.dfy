/** Decimal output in lib/printk.c: the digit loops with their fixed buffers, widths and
    padding. On the 32-bit target uint64_t is unsigned long, so it has 32 bits. */
module Printk {
  import opened Memory

  const INT_LIMIT: int := 0x8000_0000

  /** A C int; arithmetic that leaves its range is undefined. */
  type cint = x: int | -0x8000_0000 <= x < 0x8000_0000

  // ---------------------------------------------------------------- decimal notation

  function DigitChar(d: nat): (c: char)
    requires d < 10
    ensures IsDigit(c) && DigitValue(c) == d
  {
    '0' + d as char
  }

  predicate IsDigit(c: char)
  {
    '0' <= c <= '9'
  }

  predicate AllDigits(s: string)
  {
    forall k | 0 <= k < |s| :: IsDigit(s[k])
  }

  function Mag(v: int): nat
  {
    if v < 0 then -v else v
  }

  function DigitValue(c: char): (d: nat)
    requires IsDigit(c)
    ensures d < 10
  {
    (c as int) - ('0' as int)
  }

  /** The digits of `v`, most significant first. */
  function Dec(v: nat): (s: string)
    ensures s != []
  {
    (if v < 10 then [] else Dec(v / 10)) + [DigitChar(v % 10)]
  }

  /** The value of a run of digits. */
  function Value(s: string): nat
    requires AllDigits(s)
  {
    if s == [] then 0 else 10 * Value(s[..|s| - 1]) + DigitValue(s[|s| - 1])
  }

  /** The notation is made of digits, has the value it stands for, and has no leading zero. */
  lemma {:induction false} DecReads(v: nat)
    ensures AllDigits(Dec(v))
    ensures Value(Dec(v)) == v
    ensures Dec(v)[0] == '0' <==> v == 0
  {
    if v >= 10 {
      DecReads(v / 10);
      assert Dec(v)[..|Dec(v)| - 1] == Dec(v / 10);
      assert Dec(v)[0] == Dec(v / 10)[0];
    } else {
      assert Dec(v) == [DigitChar(v)] && Dec(v)[..0] == [];
    }
  }

  /** Every 32-bit number has at most ten digits. */
  lemma DecFits(v: word)
    ensures |Dec(v)| <= 10
  {
    assert Pow10(3) == 1000 by { assert Pow10(1) == 10 && Pow10(2) == 100; }
    assert Pow10(6) == 1_000_000 by { assert Pow10(4) == 10_000 && Pow10(5) == 100_000; }
    assert Pow10(10) == 10_000_000_000 by {
      assert Pow10(7) == 10_000_000 && Pow10(8) == 100_000_000 && Pow10(9) == 1_000_000_000;
    }
    DecShort(v, 10);
  }

  lemma {:induction false} DecShort(v: nat, k: nat)
    requires k > 0 && v < Pow10(k)
    ensures |Dec(v)| <= k
    decreases k
  {
    if v >= 10 {
      assert Pow10(k) == 10 * Pow10(k - 1) && Pow10(0) == 1;
      DecShort(v / 10, k - 1);
    }
  }

  function Pow10(k: nat): nat
  {
    if k == 0 then 1 else 10 * Pow10(k - 1)
  }

  // ---------------------------------------------------------------- padding

  function Repeated(c: char, n: int): (s: string)
    ensures |s| == (if n > 0 then n else 0) && forall k | 0 <= k < |s| :: s[k] == c
  {
    seq(if n > 0 then n else 0, _ => c)
  }

  /** A number of digits `digits` in a field: spaces before the sign, or zeros after it. */
  function Field(width: nat, zeroPad: bool, neg: bool, digits: string): string
  {
    var pad := width - |digits| - |Sign(neg)|;
    if zeroPad then Sign(neg) + Repeated('0', pad) + digits else Repeated(' ', pad) + Sign(neg) + digits
  }

  function SkipSpaces(s: string): string
  {
    if s != [] && s[0] == ' ' then SkipSpaces(s[1..]) else s
  }

  /** What a reader makes of a field: spaces, a sign, digits. */
  function Read(s: string): Option<int>
  {
    var t := SkipSpaces(s);
    var neg := t != [] && t[0] == '-';
    var digits := if neg then t[1..] else t;
    if digits == [] || !AllDigits(digits) then None
    else
      var value: int := Value(digits);
      Some(if neg then -value else value)
  }

  lemma {:induction false} SkipRepeated(n: int, s: string)
    requires s == [] || s[0] != ' '
    ensures SkipSpaces(Repeated(' ', n) + s) == s
    decreases if n > 0 then n else 0
  {
    var t := Repeated(' ', n) + s;
    if n > 0 {
      assert t[1..] == Repeated(' ', n - 1) + s;
      SkipRepeated(n - 1, s);
    } else {
      assert t == s;
    }
  }

  lemma {:induction false} LeadingZeros(n: int, s: string)
    requires AllDigits(s)
    ensures AllDigits(Repeated('0', n) + s)
    ensures Value(Repeated('0', n) + s) == Value(s)
    decreases |s|, if n > 0 then n else 0
  {
    var t := Repeated('0', n) + s;
    if s != [] {
      LeadingZeros(n, s[..|s| - 1]);
      assert t[..|t| - 1] == Repeated('0', n) + s[..|s| - 1];
    } else if n > 0 {
      LeadingZeros(n - 1, []);
      assert t[..|t| - 1] == Repeated('0', n - 1) + [];
    }
  }

  function Sign(neg: bool): string
  {
    if neg then "-" else ""
  }

  lemma ReadSigned(neg: bool, digits: string, n: int)
    requires digits != [] && AllDigits(digits)
    ensures Read(Repeated(' ', n) + (Sign(neg) + digits))
      == Some(if neg then -(Value(digits) as int) else Value(digits))
  {
    hide SkipSpaces, Value;
    var t := Sign(neg) + digits;
    assert IsDigit(digits[0]);
    if neg {
      assert t[0] == '-' && t[1..] == digits;
    } else {
      assert t == digits;
    }
    SkipRepeated(n, t);
  }

  /** What the field looks like: the digits last, a minus sign before the padding zeros or after the padding spaces. */
  lemma FieldLayout(width: nat, zeroPad: bool, neg: bool, mag: nat)
    ensures var s, n := Field(width, zeroPad, neg, Dec(mag)), |Dec(mag)|;
      && |s| >= n && s[|s| - n..] == Dec(mag)
      && forall k | 0 <= k < |s| - n ::
        s[k] == if neg && k == (if zeroPad then 0 else |s| - n - 1) then '-' else if zeroPad then '0' else ' '
  {
    hide Dec;
  }

  /** Round trip: a field reads back as the number it was made from, and is as wide as asked for or as the number
      needs. */
  lemma FieldReads(width: nat, zeroPad: bool, neg: bool, mag: nat)
    ensures var s := Field(width, zeroPad, neg, Dec(mag));
      && Read(s) == Some(if neg then -(mag as int) else mag)
      && |s| == (var needed := |Dec(mag)| + (if neg then 1 else 0); if width > needed then width else needed)
  {
    hide Dec, Value, Read;
    var digits := Dec(mag);
    var pad := width - |digits| - |Sign(neg)|;
    DecReads(mag);
    if zeroPad {
      LeadingZeros(pad, digits);
      var zs := Repeated('0', pad) + digits;
      ReadSigned(neg, zs, 0);
      assert Field(width, zeroPad, neg, digits) == Repeated(' ', 0) + (Sign(neg) + zs);
    } else {
      ReadSigned(neg, digits, pad);
      assert Field(width, zeroPad, neg, digits) == Repeated(' ', pad) + (Sign(neg) + digits);
    }
  }

  // ---------------------------------------------------------------- the console and the arms of printk

  /** How many decimal digits: u64_dec_digits. */
  method U64DecDigits(v0: word) returns (d: nat)
    ensures d == |Dec(v0)|
  {
    var v := v0;
    d := 1;
    while v >= 10
      invariant d + |Dec(v)| == 1 + |Dec(v0)|
    {
      v := v / 10;
      d := d + 1;
    }
  }

  function Backwards(s: seq<char>): (r: seq<char>)
    ensures |r| == |s| && forall k | 0 <= k < |s| :: r[k] == s[|s| - 1 - k]
  {
    if s == [] then [] else [s[|s| - 1]] + Backwards(s[..|s| - 1])
  }

  lemma BackwardsStep(s: seq<char>, c: char)
    ensures Backwards(s + [c]) == [c] + Backwards(s)
  {
    assert (s + [c])[..|s|] == s;
  }

  lemma DecStep(v: nat)
    ensures Dec(v) == (if v / 10 == 0 then [] else Dec(v / 10)) + [DigitChar(v % 10)]
  {
  }

  /** The digits of `v`, least significant first, into a buffer of at least ten bytes. */
  method FillDigits(v0: word, buf: array<char>) returns (i: nat)
    requires buf.Length >= 10
    modifies buf
    ensures i == |Dec(v0)| <= 10 && Backwards(buf[..i]) == Dec(v0)
  {
    hide Dec, Backwards, DigitChar;
    DecFits(v0);
    DecStep(v0);
    BackwardsStep([], DigitChar(v0 % 10));
    BackwardsEmpty();
    buf[0] := DigitChar(v0 % 10);
    assert buf[..1] == [] + [DigitChar(v0 % 10)];
    i := 1;
    var v: nat := v0 / 10;
    while v != 0
      invariant 0 < i <= buf.Length && Dec(v0) == (if v == 0 then [] else Dec(v)) + Backwards(buf[..i])
    {
      ghost var done := buf[..i];
      DecStep(v);
      assert i + |Dec(v)| <= 10;
      BackwardsStep(done, DigitChar(v % 10));
      buf[i] := DigitChar(v % 10);
      assert buf[..i + 1] == done + [DigitChar(v % 10)];
      i := i + 1;
      v := v / 10;
    }
  }

  lemma BackwardsEmpty()
    ensures Backwards([]) == []
  {
  }

  class Console {
    var out: string

    constructor ()
      ensures out == ""
    {
      out := "";
    }

    method Putc(c: char)
      modifies this
      ensures out == old(out) + [c]
    {
      out := out + [c];
    }

    /** kprint_repeat. */
    method PrintRepeat(c: char, n0: int)
      modifies this
      ensures out == old(out) + Repeated(c, n0)
    {
      var n := n0;
      while n > 0
        invariant out == old(out) + Repeated(c, n0 - if n > 0 then n else 0)
      {
        n := n - 1;
        Putc(c);
      }
    }

    /** while (i--) console_putc(buf[i]). */
    method PrintBackwards(buf: array<char>, len: nat)
      requires len <= buf.Length
      modifies this
      ensures out == old(out) + Backwards(buf[..len])
    {
      var i := len;
      while i > 0
        invariant 0 <= i <= len && out == old(out) + Backwards(buf[..len])[..len - i]
      {
        i := i - 1;
        Putc(buf[i]);
      }
    }

    /** kprint_u64_dec. */
    method PrintU64Dec(v: word)
      modifies this
      ensures out == old(out) + Dec(v)
    {
      var buf := new char[21];
      var i := FillDigits(v, buf);
      PrintBackwards(buf, i);
    }

    /** The %d arm for an int other than the most negative one, whose negation overflows. */
    method PrintInt(width: nat, zeroPad: bool, v: int)
      requires -INT_LIMIT < v < INT_LIMIT
      modifies this
      ensures out == old(out) + Field(width, zeroPad, v < 0, Dec(Mag(v)))
    {
      hide Dec, Field;
      var neg := if v < 0 then 1 else 0;
      var mag: word := if v < 0 then -v else v;
      var buf := new char[11];
      var digits := FillDigits(mag, buf);
      PadAndSign(width, zeroPad, neg, digits);
      PrintBackwards(buf, digits);
    }

    /** The %u arm. */
    method PrintUnsigned(width: nat, zeroPad: bool, v: word)
      modifies this
      ensures out == old(out) + Field(width, zeroPad, false, Dec(v))
    {
      hide Dec, Field;
      var buf := new char[11];
      var digits := FillDigits(v, buf);
      PadAndSign(width, zeroPad, 0, digits);
      PrintBackwards(buf, digits);
    }

    /** What all the decimal arms print before the digits. */
    method PadAndSign(width: nat, zeroPad: bool, neg: nat, digits: nat)
      requires neg <= 1
      modifies this
      ensures forall s: string | |s| == digits :: out + s == old(out) + Field(width, zeroPad, neg == 1, s)
    {
      var pad := if width > digits + neg then width - digits - neg else 0;
      ghost var before := out;
      if !zeroPad {
        PrintRepeat(' ', pad);
      }
      if neg == 1 {
        Putc('-');
      }
      if zeroPad {
        PrintRepeat('0', pad);
      }
      forall s: string | |s| == digits ensures out + s == before + Field(width, zeroPad, neg == 1, s) {
        PadIs(before, width, zeroPad, neg, pad, s);
      }
    }

    /** The %lld arm, for a long long other than the most negative one: the magnitude goes through uint64_t. The %ld arm
        is the same on a 32-bit long. */
    method PrintLongLong(width: nat, zeroPad: bool, v: int)
      requires -LONG_LONG_LIMIT < v < LONG_LONG_LIMIT
      modifies this
      ensures out == old(out) + Field(width, zeroPad, v < 0, Dec(Mag(v) % WORD_LIMIT))
    {
      hide Dec, Field;
      var neg := if v < 0 then 1 else 0;
      var mag: word := (if v < 0 then -v else v) % WORD_LIMIT;
      var digits := U64DecDigits(mag);
      PadAndSign(width, zeroPad, neg, digits);
      PrintU64Dec(mag);
    }

    /** The %llu arm, and the %lu arm on a 32-bit long. */
    method PrintUnsignedLongLong(width: nat, zeroPad: bool, v: nat)
      modifies this
      ensures out == old(out) + Field(width, zeroPad, false, Dec(v % WORD_LIMIT))
    {
      hide Dec, Field;
      var low: word := v % WORD_LIMIT;
      var digits := U64DecDigits(low);
      PadAndSign(width, zeroPad, 0, digits);
      PrintU64Dec(low);
    }
  }

  lemma PadIs(before: string, width: nat, zeroPad: bool, neg: nat, pad: nat, s: string)
    requires neg <= 1 && pad == if width > |s| + neg then width - |s| - neg else 0
    ensures before + Field(width, zeroPad, neg == 1, s) ==
      if zeroPad then before + Sign(neg == 1) + Repeated('0', pad) + s
      else before + Repeated(' ', pad) + Sign(neg == 1) + s
  {
    var c := if zeroPad then '0' else ' ';
    SamePad(c, width - |s| - neg, pad);
    hide Repeated;
    Rejoin(before, Sign(neg == 1), Repeated(c, pad), s);
    Rejoin(before, Repeated(c, pad), Sign(neg == 1), s);
  }

  lemma SamePad(c: char, n: int, pad: nat)
    requires pad == if n > 0 then n else 0
    ensures Repeated(c, n) == Repeated(c, pad)
  {
  }

  lemma Rejoin(a: string, b: string, c: string, d: string)
    ensures a + (b + c + d) == a + b + c + d
  {
  }

  const LONG_LONG_LIMIT: int := 0x8000_0000_0000_0000

  /** %lld prints the right number exactly when its magnitude fits 32 bits. */
  lemma LongLongReadsIff(width: nat, zeroPad: bool, v: int)
    ensures Read(Field(width, zeroPad, v < 0, Dec(Mag(v) % WORD_LIMIT))) == Some(v) <==> Mag(v) < WORD_LIMIT
  {
    FieldReads(width, zeroPad, v < 0, Mag(v) % WORD_LIMIT);
  }

  /** So %lld of 2^32 prints 0. */
  lemma LongLongWraps()
    ensures Read(Field(0, false, false, Dec(0x1_0000_0000 % WORD_LIMIT))) == Some(0)
  {
    FieldReads(0, false, false, 0);
  }

  // ---------------------------------------------------------------- the width

  /** parse_width at `start` of a format string that ends at a zero character: an optional '0', then a number. The
      number must fit an int. */
  method ParseWidth(fmt: string, start: nat) returns (p: nat, width: cint, zeroPad: bool)
    requires start < |fmt| && 0 as char in fmt[start..]
    requires Value(DigitsFrom(fmt, start)) < INT_LIMIT
    ensures zeroPad <==> fmt[start] == '0'
    ensures start <= p < |fmt| && !IsDigit(fmt[p]) && fmt[start..p] == DigitsFrom(fmt, start)
    ensures width == Value(fmt[start..p])
  {
    hide DigitsFrom, Value;
    ghost var end := start + |DigitsFrom(fmt, start)|;
    DigitsEnd(fmt, start);
    forall k | start <= k < end ensures IsDigit(fmt[k]) {
      assert fmt[k] == fmt[start..end][k - start];
    }
    NoValue();
    width, zeroPad, p := 0, false, start;
    assert fmt[start..p] == [];
    if fmt[p] == '0' {
      ValueStep(fmt[start..p], fmt[p]);
      assert fmt[start..p + 1] == fmt[start..p] + [fmt[p]];
      zeroPad := true;
      p := p + 1;
    }
    while '0' <= fmt[p] <= '9'
      invariant start <= p <= end && AllDigits(fmt[start..p]) && width == Value(fmt[start..p])
      decreases |fmt| - p
    {
      ValueStep(fmt[start..p], fmt[p]);
      assert fmt[start..p + 1] == fmt[start..p] + [fmt[p]];
      assert fmt[start..p + 1] == fmt[start..end][..p + 1 - start];
      ValuePrefix(fmt[start..end], p + 1 - start);
      width := width * 10 + ((fmt[p] as int) - ('0' as int));
      p := p + 1;
    }
  }

  lemma {:induction false} ValuePrefix(s: string, k: nat)
    requires AllDigits(s) && k <= |s|
    ensures AllDigits(s[..k]) && Value(s[..k]) <= Value(s)
  {
    if k < |s| {
      ValuePrefix(s[..|s| - 1], k);
      assert s[..|s| - 1][..k] == s[..k];
    } else {
      assert s[..k] == s;
    }
  }

  lemma NoValue()
    ensures Value([]) == 0
  {
  }

  lemma ValueStep(s: string, c: char)
    requires AllDigits(s) && IsDigit(c)
    ensures AllDigits(s + [c]) && Value(s + [c]) == 10 * Value(s) + DigitValue(c)
  {
    assert (s + [c])[..|s|] == s;
  }

  /** The run of digits at `p`. */
  function DigitsFrom(fmt: string, p: nat): (s: string)
    requires p <= |fmt|
    ensures AllDigits(s)
    decreases |fmt| - p
  {
    if p < |fmt| && IsDigit(fmt[p]) then [fmt[p]] + DigitsFrom(fmt, p + 1) else []
  }

  lemma {:induction false} DigitsEnd(fmt: string, p: nat)
    requires p < |fmt| && 0 as char in fmt[p..]
    ensures var n := |DigitsFrom(fmt, p)|;
      p + n < |fmt| && fmt[p..p + n] == DigitsFrom(fmt, p) && !IsDigit(fmt[p + n])
    decreases |fmt| - p
  {
    if IsDigit(fmt[p]) {
      assert fmt[p..][1..] == fmt[p + 1..] && fmt[p..][0] == fmt[p];
      DigitsEnd(fmt, p + 1);
    }
  }
}
