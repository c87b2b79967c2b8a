/** The printing of integers by the logging printf and by alt_printf: what is printed reads back as
    the number. */
module Printing {
  import opened Arithmetic

  type Base = b: nat | b == 8 || b == 10 || b == 16 witness 10

  function Pow(b: nat, n: nat): nat
  {
    if n == 0 then 1 else b * Pow(b, n - 1)
  }

  /** What a character stands for as a digit; 16 for one that is none. */
  function Value(c: char): (d: nat)
    ensures d <= 16
  {
    if '0' <= c <= '9' then c as int - '0' as int
    else if 'a' <= c <= 'f' then c as int - 'a' as int + 10
    else if 'A' <= c <= 'F' then c as int - 'A' as int + 10
    else 16
  }

  predicate AllDigits(s: string, base: Base)
  {
    forall i | 0 <= i < |s| :: Value(s[i]) < base
  }

  function Decode(s: string, base: nat): nat
  {
    if s == "" then 0 else Decode(s[..|s| - 1], base) * base + Value(s[|s| - 1])
  }

  /** A letter is of the case asked for. */
  predicate CharInCase(c: char, upper: bool)
  {
    if upper then !('a' <= c <= 'f') else !('A' <= c <= 'F')
  }

  predicate InCase(s: string, upper: bool)
  {
    forall i | 0 <= i < |s| :: CharInCase(s[i], upper)
  }

  /** The digits are those of v, without a leading zero. */
  predicate Represents(s: string, v: nat, base: Base, upper: bool)
  {
    && s != "" && AllDigits(s, base) && InCase(s, upper) && Decode(s, base) == v
    && (1 < |s| ==> s[0] != '0')
  }

  lemma CaseIs(s: string, v: nat, base: Base, upper: bool)
    requires Represents(s, v, base, upper)
    ensures (forall i | 0 <= i < |s| ::
               '0' <= s[i] <= '9' || if upper then 'A' <= s[i] <= 'F' else 'a' <= s[i] <= 'f')
  {
    forall i | 0 <= i < |s|
      ensures '0' <= s[i] <= '9' || if upper then 'A' <= s[i] <= 'F' else 'a' <= s[i] <= 'f'
    {
      assert Value(s[i]) < base && CharInCase(s[i], upper);
    }
  }

  /** A number without a leading zero is at least its first place value. */
  lemma {:induction false} AtLeast(s: string, base: Base)
    requires s != "" && AllDigits(s, base) && s[0] != '0'
    ensures 0 < Decode(s, base) && (1 < |s| ==> base <= Decode(s, base))
  {
    if |s| == 1 {
      assert s[..0] == "";
    } else {
      AtLeast(s[..|s| - 1], base);
    }
  }

  lemma DivMod(a: nat, b: nat, x: nat, y: nat, base: Base)
    requires a * base + x == b * base + y && x < base && y < base
    ensures a == b && x == y
  {
  }

  lemma DigitIsUnique(c: char, d: char, upper: bool)
    requires Value(c) == Value(d) < 16 && CharInCase(c, upper) && CharInCase(d, upper)
    ensures c == d
  {
  }

  lemma LastDigit(s: string, v: nat, base: Base, upper: bool)
    requires Represents(s, v, base, upper)
    ensures v == Decode(s[..|s| - 1], base) * base + Value(s[|s| - 1])
    ensures Value(s[|s| - 1]) < base && CharInCase(s[|s| - 1], upper)
    ensures 1 < |s| ==> Represents(s[..|s| - 1], Decode(s[..|s| - 1], base), base, upper)
    ensures Decode(s[..|s| - 1], base) == 0 <==> |s| == 1
  {
    if 1 < |s| {
      AtLeast(s[..|s| - 1], base);
    }
  }

  /** A number has one representation. */
  lemma {:induction false} RepresentationIsUnique(s: string, t: string, v: nat, base: Base, upper: bool)
    requires Represents(s, v, base, upper) && Represents(t, v, base, upper)
    ensures s == t
    decreases |s|
  {
    assert s != "" && t != "";
    hide *;
    LastDigit(s, v, base, upper);
    LastDigit(t, v, base, upper);
    var s0, t0 := s[..|s| - 1], t[..|t| - 1];
    var c, d := s[|s| - 1], t[|t| - 1];
    DivMod(Decode(s0, base), Decode(t0, base), Value(c), Value(d), base);
    DigitIsUnique(c, d, upper);
    if 1 < |s| {
      RepresentationIsUnique(s0, t0, Decode(s0, base), base, upper);
    }
    assert s == s0 + [c] && t == t0 + [d];
  }

  function Repeat(c: char, n: int): (s: string)
    ensures |s| == if n < 0 then 0 else n
    ensures forall i | 0 <= i < |s| :: s[i] == c
  {
    if n <= 0 then "" else Repeat(c, n - 1) + [c]
  }

  /** The number a word stands for. */
  function Signed(v: Word, signed: bool): int
  {
    if signed && 0x8000_0000 <= v then v - 0x1_0000_0000 else v
  }

  function Abs(x: int): nat
  {
    if x < 0 then -x else x
  }

  /** A field of at least the given width: digits after a sign, padded with zeros or with blanks. */
  function Field(digits: string, negative: bool, zeros: bool, width: int): string
  {
    var sign := if negative then "-" else "";
    var pad := width - |digits| - |sign|;
    if zeros then sign + Repeat('0', pad) + digits else Repeat(' ', pad) + sign + digits
  }

  /** It is as wide as asked for, or as its number needs; it ends with the digits, with the sign before
      them if it is padded with blanks and in front of all if with zeros, and the rest is padding. */
  lemma FieldShape(digits: string, negative: bool, zeros: bool, width: int)
    ensures var f := Field(digits, negative, zeros, width); var own := |digits| + if negative then 1 else 0;
            && |f| == (if width < own then own else width)
            && f[|f| - |digits|..] == digits
            && (negative ==> f[if zeros then 0 else |f| - own] == '-')
            && (!zeros ==> forall i | 0 <= i < |f| - own :: f[i] == ' ')
            && (zeros ==> forall i | own - |digits| <= i < |f| - |digits| :: f[i] == '0')
  {
    var f := Field(digits, negative, zeros, width);
    assert |f| - |digits| >= 0 && f[|f| - |digits|..] == digits;
  }

  /** The digits that count, and what they are worth. */
  lemma DigitsCount(d: nat)
    requires d < 16
    ensures d < 10 ==> Value("0123456789"[d]) == d
    ensures 10 <= d ==> Value("abcdef"[d - 10]) == d && Value("ABCDEF"[d - 10]) == d
    ensures Decode("", 10) == 0 && Decode("7", 10) == 7
  {
    assert "7"[..0] == "";
    assert Decode("", 10) == 0;
  }

  /** A word with its top bit set is negative if it is signed: two's complement. */
  lemma SignedIs(v: Word)
    ensures Signed(v, false) == v && Abs(Signed(v, false)) == v
    ensures -0x8000_0000 <= Signed(v, true) < 0x8000_0000 && (Signed(v, true) - v) % 0x1_0000_0000 == 0
    ensures Abs(Signed(v, true)) == (if v < 0x8000_0000 then v else 0x1_0000_0000 - v)
  {
  }

  /** A reader: it skips blanks, takes a sign and decodes the rest. */
  function Read(s: string, base: nat): int
  {
    if s != "" && s[0] == ' ' then Read(s[1..], base)
    else if s != "" && s[0] == '-' then 0 - Decode(s[1..], base)
    else Decode(s, base)
  }

  lemma {:induction false} DecodeOnlyZeros(n: int, base: Base)
    ensures Decode(Repeat('0', n), base) == 0
    decreases n
  {
    if 0 < n {
      var z := Repeat('0', n);
      DecodeOnlyZeros(n - 1, base);
      assert z[..|z| - 1] == Repeat('0', n - 1);
    }
  }

  lemma {:induction false} DecodeZeros(n: int, s: string, base: Base)
    ensures Decode(Repeat('0', n) + s, base) == Decode(s, base)
  {
    hide Repeat;
    var z := Repeat('0', n);
    if s == "" {
      assert z + s == z;
      DecodeOnlyZeros(n, base);
    } else {
      DecodeZeros(n, s[..|s| - 1], base);
      assert (z + s)[..|z + s| - 1] == z + s[..|s| - 1];
    }
  }

  lemma {:induction false} ReadBlanks(n: int, s: string, base: nat)
    ensures Read(Repeat(' ', n) + s, base) == Read(s, base)
    decreases n
  {
    var b := Repeat(' ', n);
    if n <= 0 {
      assert b + s == s;
    } else {
      assert (b + s)[1..] == Repeat(' ', n - 1) + s;
      ReadBlanks(n - 1, s, base);
    }
  }

  lemma ReadSigned(s: string, base: Base, negative: bool)
    requires s != "" && s[0] != ' ' && s[0] != '-'
    ensures Read((if negative then "-" else "") + s, base) == if negative then 0 - Decode(s, base) else Decode(s, base)
  {
    if negative {
      assert ("-" + s)[1..] == s;
    } else {
      assert "" + s == s;
    }
  }

  lemma ReadZeroPadded(digits: string, v: nat, base: Base, upper: bool, negative: bool, pad: int)
    requires Represents(digits, v, base, upper)
    ensures (Read((if negative then "-" else "") + Repeat('0', pad) + digits, base)
             == if negative then 0 - v else v)
  {
    hide Read, Decode;
    var sign, padded := if negative then "-" else "", Repeat('0', pad) + digits;
    assert Value(digits[0]) < base;
    DecodeZeros(pad, digits, base);
    assert padded[0] == '0' || padded[0] == digits[0];
    ReadSigned(padded, base, negative);
    assert sign + Repeat('0', pad) + digits == sign + padded;
  }

  lemma ReadBlankPadded(digits: string, v: nat, base: Base, upper: bool, negative: bool, pad: int)
    requires Represents(digits, v, base, upper)
    ensures (Read(Repeat(' ', pad) + (if negative then "-" else "") + digits, base)
             == if negative then 0 - v else v)
  {
    hide Read, Decode;
    var sign := if negative then "-" else "";
    assert Value(digits[0]) < base;
    ReadSigned(digits, base, negative);
    ReadBlanks(pad, sign + digits, base);
    assert Repeat(' ', pad) + sign + digits == Repeat(' ', pad) + (sign + digits);
  }

  /** What a field reads back as. */
  lemma ReadField(digits: string, v: nat, base: Base, upper: bool, negative: bool, zeros: bool, width: int)
    requires Represents(digits, v, base, upper)
    ensures Read(Field(digits, negative, zeros, width), base) == if negative then 0 - v else v
  {
    hide Read, Represents;
    var pad := width - |digits| - if negative then 1 else 0;
    if zeros {
      ReadZeroPadded(digits, v, base, upper, negative, pad);
    } else {
      ReadBlankPadded(digits, v, base, upper, negative, pad);
    }
  }

  /** q is the quotient of v by p. */
  predicate Within(v: nat, q: nat, p: nat)
  {
    q * p <= v < (q + 1) * p
  }

  lemma ShrinkStep(v: nat, q: nat, p: nat, b: nat)
    requires 0 < b && Within(v, q, p)
    ensures Within(v, q / b, p * b)
  {
    var d := q / b;
    assert d * b <= q && q + 1 <= (d + 1) * b;
    Rescaled(d, b, q, p);
    RescaledUp(d + 1, b, q + 1, p);
  }

  lemma WithinSelf(v: nat)
    ensures Within(v, v, 1)
  {
  }

  lemma WithinIs(v: nat, q: nat, p: nat)
    requires Within(v, q, p)
    ensures 0 < q ==> p <= v
    ensures q == 0 ==> v < p
  {
    if 0 < q { Ordered(1, q, p); }
  }

  lemma Rescaled(d: nat, b: nat, q: nat, p: nat)
    requires d * b <= q
    ensures d * (p * b) <= q * p
  {
    Ordered(d * b, q, p);
    assert (d * b) * p == d * (p * b);
  }

  lemma RescaledUp(d: nat, b: nat, q: nat, p: nat)
    requires q <= d * b
    ensures q * p <= d * (p * b)
  {
    Ordered(q, d * b, p);
    assert (d * b) * p == d * (p * b);
  }

  lemma {:induction false} PowPositive(b: nat, n: nat)
    requires 0 < b
    ensures 0 < Pow(b, n)
  {
    if 0 < n { PowPositive(b, n - 1); }
  }

  function DigitChar(d: nat, upper: bool): (c: char)
    requires d < 16
    ensures Value(c) == d && CharInCase(c, upper) && (c == '0' <==> d == 0)
  {
    if d <= 9 then '0' + d as char
    else if upper then 'A' + (d - 10) as char
    else 'a' + (d - 10) as char
  }

  lemma SnocDigit(s: string, c: char, base: Base, upper: bool)
    requires AllDigits(s, base) && InCase(s, upper) && Value(c) < base && CharInCase(c, upper)
    ensures AllDigits(s + [c], base) && InCase(s + [c], upper)
    ensures Decode(s + [c], base) == Decode(s, base) * base + Value(c)
  {
    assert (s + [c])[..|s|] == s;
  }

  class Printer {
    var out: string

    constructor ()
      ensures out == ""
    {
      out := "";
    }

    method PutChar(c: char)
      modifies this
      ensures out == old(out) + [c]
    {
      out := out + [c];
    }

    /** alt_log_repchar. */
    method Repchar(c: char, r: int)
      modifies this
      ensures out == old(out) + Repeat(c, r)
    {
      var n := 0;
      while n < r
        invariant 0 <= n && (n <= r || n == 0) && out == old(out) + Repeat(c, n)
      {
        PutChar(c);
        n := n + 1;
      }
    }

    /** The loop that counts digits and finds the largest place value, which fits in 32 bits. */
    static method CountDigits(v: Word, base: Base) returns (digits: nat, p: Word)
      ensures 0 < digits && p == Pow(base, digits - 1) && v < p * base && (digits == 1 || p <= v)
    {
      hide Within;
      digits, p := 1, 1;
      assert Within(v, v, 1) by { WithinSelf(v); }
      ShrinkStep(v, v, 1, base);
      var shrink: nat := v / base;
      while shrink > 0
        invariant 0 < digits && p == Pow(base, digits - 1) && (digits == 1 || p <= v)
        invariant Within(v, shrink, p * base)
        decreases shrink
      {
        WithinIs(v, shrink, p * base);
        ShrinkStep(v, shrink, p * base, base);
        digits := digits + 1;
        p := p * base;
        shrink := shrink / base;
      }
      WithinIs(v, 0, p * base);
    }

    /** The loop that prints the digits, from the largest place value down. */
    method PrintDigits(v0: Word, digits: nat, p0: Word, base: Base, upper: bool) returns (ghost s: string)
      requires 0 < digits && p0 == Pow(base, digits - 1) && v0 < p0 * base && (digits == 1 || p0 <= v0)
      modifies this
      ensures out == old(out) + s && |s| == digits && Represents(s, v0, base, upper)
    {
      hide *;
      s := "";
      var v: nat, p: nat := v0, p0;
      ghost var left := digits;
      DigitsStart(v0, digits, p0, base, upper);
      while p > 0
        invariant out == old(out) + s && DigitsLeft(s, v, p, left, v0, digits, base, upper)
        decreases left
      {
        PlaceDigit(v, p, base, s, left, v0, digits, upper);
        var c := DigitChar(v / p, upper);
        PutChar(c);
        DigitsStep(s, v, p, left, v0, digits, base, upper);
        s := s + [c];
        v, p := v % p, p / base;
        left := left - 1;
      }
      DigitsEnd(s, v, p, left, v0, digits, base, upper);
    }

    /** The integer conversions d, i, u, o, x and X.  What is printed is a field of the width asked
        for around the digits of the number; it reads back as the number. */
    method PrintInteger(arg: Word, base: Base, signed: bool, zeros: bool, width: int, upper: bool)
      returns (ghost digits: string)
      requires signed ==> base == 10
      modifies this
      ensures Represents(digits, Abs(Signed(arg, signed)), base, upper)
      ensures (forall i | 0 <= i < |digits| ::
                 '0' <= digits[i] <= '9' || if upper then 'A' <= digits[i] <= 'F' else 'a' <= digits[i] <= 'f')
      ensures out == old(out) + Field(digits, Signed(arg, signed) < 0, zeros, width)
      ensures Read(Field(digits, Signed(arg, signed) < 0, zeros, width), base) == Signed(arg, signed)
    {
      hide Represents, Read;
      var v, sign := arg, false;
      if signed && 0x8000_0000 <= v {
        v := (0xffff_ffff - v + 1) % 0x1_0000_0000;
        sign := true;
      }
      assert v == Abs(Signed(arg, signed)) && sign == (Signed(arg, signed) < 0);
      hide Signed, Abs;
      var count, p := CountDigits(v, base);
      PrintLead(sign, zeros, width - count);
      digits := PrintDigits(v, count, p, base, upper);
      ReadField(digits, v, base, upper, sign, zeros, width);
      CaseIs(digits, v, base, upper);
    }

    /** The conversion x of alt_printf, which works on nibbles: it prints what the one above prints. */
    method PrintHex(v: Word) returns (ghost digits: string)
      modifies this
      ensures out == old(out) + digits && Represents(digits, v, 16, false)
      ensures forall i | 0 <= i < |digits| :: '0' <= digits[i] <= '9' || 'a' <= digits[i] <= 'f'
    {
      if v == 0 {
        PutChar('0');
        assert Decode("0", 16) == 0;
        return "0";
      }
      hide Represents, DigitsLeft, Times;
      var k := FirstNibble(v);
      digits := "";
      ghost var count, high: nat, rest: nat := k + 1, 0, v;
      NibblesStart(v, k);
      while k >= 0
        invariant -1 <= k && out == old(out) + digits
        invariant DigitsLeft(digits, rest, if k < 0 then 0 else Pow(16, k), k + 1, v, count, 16, false)
        invariant v == Times(high, Pow(16, k + 1)) + rest
      {
        var p := Pow(16, k);
        PowPositive(16, k);
        PlaceDigit(rest, p, 16, digits, k + 1, v, count, false);
        high := NextNibble(v, high, rest, p);
        var digit := (v / p) % 16;
        DigitsStep(digits, rest, p, k + 1, v, count, 16, false);
        PlaceShrinks(p, 16, k + 1);
        var c := if digit <= 9 then '0' + digit as char else 'a' + (digit - 10) as char;
        assert c == DigitChar(digit, false);
        PutChar(c);
        digits := digits + [c];
        rest := rest % p;
        k := k - 1;
      }
      DigitsEnd(digits, rest, 0, 0, v, count, 16, false);
      CaseIs(digits, v, 16, false);
    }

    /** The search for the first nibble that is not 0. */
    static method FirstNibble(v: Word) returns (k: int)
      requires v != 0
      ensures 0 <= k <= 7 && Pow(16, k) <= v < Pow(16, k + 1)
    {
      k := 7;
      assert Pow(16, 8) == 0x1_0000_0000 by { PowOfWord(); }
      while (v / Pow(16, k)) % 16 == 0
        invariant 0 <= k <= 7 && 0 < Pow(16, k) && v < Pow(16, k + 1)
        decreases k
      {
        NibbleIsZero(v, Pow(16, k));
        PowPositive(16, k - 1);
        k := k - 1;
      }
      NibbleIsNot(v, Pow(16, k));
    }

    /** The sign and the padding. */
    method PrintLead(sign: bool, zeros: bool, spare: int)
      modifies this
      ensures (var s := if sign then "-" else "";
               var pad := spare - |s|;
               out == old(out) + if zeros then s + Repeat('0', pad) else Repeat(' ', pad) + s)
    {
      var before := spare;
      if zeros {
        if sign {
          PutChar('-');
          before := before - 1;
        }
        Repchar('0', before);
      } else {
        if sign {
          before := before - 1;
        }
        Repchar(' ', before);
        if sign {
          PutChar('-');
        }
      }
    }
  }

  /** The digits printed so far and the remainder still make up the number; `left` places are left. */
  predicate DigitsLeft(s: string, v: nat, p: nat, left: nat, v0: nat, digits: nat, base: Base, upper: bool)
  {
    && left <= digits && |s| == digits - left && p == (if left == 0 then 0 else Pow(base, left - 1))
    && v < Pow(base, left) && AllDigits(s, base) && InCase(s, upper)
    && Times(Decode(s, base), Pow(base, left)) + v == v0
    && (1 < digits && s != "" ==> s[0] != '0')
    && (s == "" && 1 < digits ==> p <= v)
  }

  lemma DigitsStart(v: nat, digits: nat, p: nat, base: Base, upper: bool)
    requires 0 < digits && p == Pow(base, digits - 1) && v < p * base && (digits == 1 || p <= v)
    ensures DigitsLeft("", v, p, digits, v, digits, base, upper)
  {
  }

  lemma DigitsEnd(s: string, v: nat, p: nat, left: nat, v0: nat, digits: nat, base: Base, upper: bool)
    requires DigitsLeft(s, v, p, left, v0, digits, base, upper) && p == 0 && 0 < digits
    ensures |s| == digits && Represents(s, v0, base, upper)
  {
    if 0 < left { PowPositive(base, left - 1); }
  }

  lemma PlaceDigit(v: nat, p: nat, base: Base, s: string, left: nat, v0: nat, digits: nat, upper: bool)
    requires DigitsLeft(s, v, p, left, v0, digits, base, upper) && 0 < p
    ensures 0 < left && v / p < base
    ensures 1 < digits && s == "" ==> 0 < v / p
  {
    hide Decode, AllDigits, InCase, Times;
    PlaceBound(v, p, base, left);
    SmallQuotient(v, p, base);
  }

  lemma PlaceBound(v: nat, p: nat, base: Base, left: nat)
    requires v < Pow(base, left) && p == (if left == 0 then 0 else Pow(base, left - 1)) && 0 < p
    ensures v < p * base
  {
  }

  lemma SmallQuotient(v: nat, p: nat, base: nat)
    requires 0 < p && v < p * base
    ensures v / p < base && (p <= v ==> 0 < v / p)
  {
    if base <= v / p {
      Ordered(base, v / p, p);
      assert false;
    }
  }

  lemma DigitsStep(s: string, v: nat, p: nat, left: nat, v0: nat, digits: nat, base: Base, upper: bool)
    requires DigitsLeft(s, v, p, left, v0, digits, base, upper) && 0 < p && 0 < left && v / p < base
    requires 1 < digits && s == "" ==> 0 < v / p
    ensures DigitsLeft(s + [DigitChar(v / p, upper)], v % p, p / base, left - 1, v0, digits, base, upper)
  {
    hide DigitChar, Decode, AllDigits, InCase, Pow, Times;
    var d, r := v / p, v % p;
    var c := DigitChar(d, upper);
    assert Value(c) == d;
    SnocDigit(s, c, base, upper);
    PlaceValue(Decode(s, base), v, p, base);
    PlaceShrinks(p, base, left);
  }

  lemma PlaceValue(high: nat, v: nat, p: nat, base: nat)
    requires 0 < p
    ensures Times(high * base + v / p, p) + v % p == Times(high, base * p) + v
  {
    assert high * base * p == high * (base * p);
  }

  lemma PlaceShrinks(p: nat, base: Base, left: nat)
    requires 0 < left && p == Pow(base, left - 1)
    ensures p / base == if left == 1 then 0 else Pow(base, left - 2)
    ensures Pow(base, left) == base * p
  {
  }

  lemma PowOfWord()
    ensures Pow(16, 8) == 0x1_0000_0000 && 0 < Pow(16, 7)
  {
    assert Pow(16, 4) == 0x1_0000;
  }

  lemma NibbleIsZero(v: nat, p: nat)
    requires 0 < p && v < 16 * p && (v / p) % 16 == 0 && 0 < v
    ensures v < p && 1 < p
  {
    assert v / p < 16;
  }

  lemma NibbleIsNot(v: nat, p: nat)
    requires 0 < p && v < 16 * p && (v / p) % 16 != 0
    ensures p <= v
  {
    if v < p {
      Quotient(v, 0, p, v);
      assert false;
    }
  }

  lemma NibblesStart(v: nat, k: nat)
    requires Pow(16, k) <= v < Pow(16, k + 1)
    ensures DigitsLeft("", v, Pow(16, k), k + 1, v, k + 1, 16, false)
    ensures v == Times(0, Pow(16, k + 1)) + v
  {
  }

  /** The nibble at p is the leading digit of what is left. */
  lemma NextNibble(v: nat, high: nat, rest: nat, p: nat) returns (higher: nat)
    requires 0 < p && v == Times(high, 16 * p) + rest && rest / p < 16
    ensures (v / p) % 16 == rest / p && v == Times(higher, p) + rest % p
  {
    hide Times;
    var d, r := rest / p, rest % p;
    higher := 16 * high + d;
    Parts(rest, p);
    Regrouped(v, high, d, r, p);
    QuotientIs(v, higher, p, r);
  }

  lemma Parts(x: nat, p: nat)
    requires 0 < p
    ensures x == Times(x / p, p) + x % p && x % p < p
  {
  }

  lemma Regrouped(v: nat, a: nat, d: nat, r: nat, p: nat)
    requires v == Times(a, 16 * p) + (Times(d, p) + r)
    ensures v == Times(16 * a + d, p) + r
  {
  }

  lemma QuotientIs(x: nat, q: nat, p: nat, r: nat)
    requires x == Times(q, p) + r && r < p
    ensures x / p == q && x % p == r
  {
    Quotient(x, q, p, r);
  }
}
