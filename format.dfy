/**
 * The text print_num_pad, print_num, print_dec, print_hex and print_bytes
 * hand to print: numerals in a base, left-padded, and byte counts in
 * decimal units.
 */
module Format {
  import opened Machine
  import opened Arith

  /** print_num_pad's digit buffer holds 64 characters. */
  const BUFFER_SIZE: nat := 64

  /** Digit d as print_num_pad writes it: '0'..'9', then 'A' onwards, in an 8-bit char. */
  function DigitChar(d: nat): (ch: Char8)
    requires d < 0x100
    ensures d < 10 ==> ch as int == '0' as int + d
    ensures 10 <= d <= 200 ==> ch as int == 'A' as int + (d - 10)
  {
    if d < 10 then ((d + '0' as int) as char)
    else ((d + 'A' as int - 10) % 0x100) as char
  }

  /** The value of a digit character, the inverse of DigitChar on digits up to 200. */
  function DigitValue(ch: Char8): int
  {
    if (ch as int) < 'A' as int then ch as int - '0' as int else ch as int - 'A' as int + 10
  }

  /** The numeral of x in the given base, most significant digit first, with no leading zeros. */
  function Digits(x: nat, base: nat): (s: seq<Char8>)
    requires 2 <= base < 0x100
    ensures |s| >= 1
    decreases x
  {
    if x < base then [DigitChar(x)]
    else Digits(x / base, base) + [DigitChar(x % base)]
  }

  /** One step of print_num_pad's digit loop: the last digit is x % base, the rest are those of x / base. */
  lemma DigitsStep(x: nat, base: nat)
    requires 2 <= base < 0x100
    ensures x / base == 0 <==> x < base
    ensures Digits(x, base) == (if x < base then [] else Digits(x / base, base)) + [DigitChar(x % base)]
  {
    DivBelow(x, base, 1);
    if x < base {
      DivModSmall(x, base);
    }
  }

  /** The number a numeral denotes, read most significant digit first. */
  function FromDigits(s: seq<Char8>, base: nat): int
    decreases |s|
  {
    if |s| == 0 then 0 else FromDigits(s[..|s| - 1], base) * base + DigitValue(s[|s| - 1])
  }

  /** Appending a digit multiplies by the base and adds the digit. */
  lemma FromDigitsSnoc(s: seq<Char8>, ch: Char8, base: nat)
    ensures FromDigits(s + [ch], base) == FromDigits(s, base) * base + DigitValue(ch)
  {
    assert (s + [ch])[..|s|] == s;
  }

  /** The largest base whose digits DigitChar keeps apart; above it the 8-bit char wraps. */
  const MAX_READABLE_BASE: nat := 201

  /** Digit values up to 200 survive the round trip through their character. */
  lemma DigitCharValue(d: nat)
    requires d <= 200
    ensures DigitValue(DigitChar(d)) == d
  {
    if d >= 10 {
      assert DigitChar(d) as int == 'A' as int + (d - 10);
    }
  }

  /** Reading back the numeral of x gives x. */
  lemma {:induction false} DigitsRoundTrip(x: nat, base: nat)
    requires 2 <= base <= MAX_READABLE_BASE
    ensures FromDigits(Digits(x, base), base) == x
    decreases x
  {
    if x < base {
      DigitCharValue(x);
      assert Digits(x, base)[..0] == [];
    } else {
      var q, r := x / base, x % base;
      DivShrinks(x, base);
      DigitsRoundTrip(q, base);
      DigitCharValue(r);
      FromDigitsSnoc(Digits(q, base), DigitChar(r), base);
      assert Digits(x, base) == Digits(q, base) + [DigitChar(r)];
      DivModSplit(x, base);
    }
  }

  /** A character that is the digit of some value below base. */
  predicate IsDigitOf(ch: Char8, base: nat)
  {
    0 <= DigitValue(ch) < base && base <= 0x100 && DigitChar(DigitValue(ch)) == ch
  }

  /** A string Digits can produce: digits of the base, no leading zero unless it is "0". */
  predicate IsNumeral(s: seq<Char8>, base: nat)
  {
    |s| >= 1 && (|s| == 1 || s[0] != '0') && forall i :: 0 <= i < |s| ==> IsDigitOf(s[i], base)
  }

  /** A numeral of digits denotes at least its leading digit. */
  lemma {:induction false} FromDigitsLeading(s: seq<Char8>, base: nat)
    requires |s| >= 1 && forall i :: 0 <= i < |s| ==> IsDigitOf(s[i], base)
    ensures FromDigits(s, base) >= DigitValue(s[0])
    decreases |s|
  {
    if |s| > 1 {
      var s' := s[..|s| - 1];
      FromDigitsLeading(s', base);
      MulMono(1, base, FromDigits(s', base));
    } else {
      assert s[..0] == [];
    }
  }

  /** The numeral of the number a numeral denotes is that numeral. */
  lemma {:induction false} NumeralRoundTrip(s: seq<Char8>, base: nat)
    requires 2 <= base < 0x100 && IsNumeral(s, base)
    ensures FromDigits(s, base) >= 0
    ensures Digits(FromDigits(s, base), base) == s
    decreases |s|
  {
    FromDigitsLeading(s, base);
    var x := FromDigits(s, base);
    var v := DigitValue(s[|s| - 1]);
    assert IsDigitOf(s[|s| - 1], base);
    if |s| == 1 {
      assert s[..0] == [];
      assert x == v;
    } else {
      var s' := s[..|s| - 1];
      assert IsNumeral(s', base) by {
        assert s'[0] == s[0];
        forall i | 0 <= i < |s'| ensures IsDigitOf(s'[i], base) {
          assert s'[i] == s[i];
        }
      }
      NumeralRoundTrip(s', base);
      var q := FromDigits(s', base);
      assert IsDigitOf(s[0], base);
      assert DigitChar(0) == '0';
      assert DigitValue(s[0]) != 0;
      FromDigitsLeading(s', base);
      assert q >= 1;
      MulMono(1, q, base);
      assert x == q * base + v;
      DivModUnique(x, base, q, v);
      assert s == s' + [s[|s| - 1]];
    }
  }

  /** b^(m + n) == b^m * b^n. */
  lemma {:induction false} PowAdd(b: nat, m: nat, n: nat)
    ensures Pow(b, m + n) == Pow(b, m) * Pow(b, n)
  {
    if m > 0 {
      PowAdd(b, m - 1, n);
      assert Pow(b, m + n) == b * Pow(b, m - 1 + n);
    }
  }

  /** a^k <= b^k for a <= b. */
  lemma {:induction false} PowMonoBase(a: nat, b: nat, k: nat)
    requires a <= b
    ensures Pow(a, k) <= Pow(b, k)
  {
    if k > 0 {
      PowMonoBase(a, b, k - 1);
      MulMono(a, b, Pow(a, k - 1));
      MulMono(Pow(a, k - 1), Pow(b, k - 1), b);
    }
  }

  /** Every u64 is below b^64 for a base of at least 2. */
  lemma U64BelowPow(base: nat)
    requires base >= 2
    ensures 0x1_0000_0000_0000_0000 <= Pow(base, BUFFER_SIZE)
  {
    assert Pow(2, 8) == 0x100;
    PowAdd(2, 8, 8);
    assert Pow(2, 16) == 0x1_0000;
    PowAdd(2, 16, 16);
    assert Pow(2, 32) == 0x1_0000_0000;
    PowAdd(2, 32, 32);
    assert Pow(2, 64) == 0x1_0000_0000_0000_0000;
    PowMonoBase(2, base, BUFFER_SIZE);
  }

  /** A number below base^n has at most n digits. */
  lemma {:induction false} DigitsBelow(x: nat, base: nat, n: nat)
    requires 2 <= base < 0x100 && n >= 1 && x < Pow(base, n)
    ensures |Digits(x, base)| <= n
    decreases n
  {
    if x >= base {
      assert Pow(base, 1) == base;
      assert n >= 2;
      assert Pow(base, n) == Pow(base, n - 1) * base;
      DivBelow(x, base, Pow(base, n - 1));
      DigitsBelow(x / base, base, n - 1);
    }
  }

  /** The numeral of a u64 fits print_num_pad's 64-character buffer. */
  lemma DigitsFit(x: u64, base: nat)
    requires 2 <= base < 0x100
    ensures |Digits(x, base)| <= BUFFER_SIZE
  {
    U64BelowPow(base);
    DigitsBelow(x, base, BUFFER_SIZE);
  }

  /**
   * How many pad characters print_num_pad puts before the n digits: up to
   * pad_len characters in all. The limit `64 - pad_len` is converted to an
   * unsigned 64-bit number, so a pad_len above 64 wraps to a huge limit and
   * no padding happens at all.
   */
  function PadCount(n: nat, padLen: nat): (k: nat)
    ensures padLen <= BUFFER_SIZE && n < padLen ==> n + k == padLen
    ensures padLen > BUFFER_SIZE || n >= padLen ==> k == 0
  {
    if padLen <= BUFFER_SIZE && n < padLen then padLen - n else 0
  }

  /** n copies of the pad character. */
  function Padding(n: nat, c: Char8): (s: seq<Char8>)
    ensures |s| == n && forall i :: 0 <= i < n ==> s[i] == c
  {
    seq(n, _ => c)
  }

  /** print_num_pad(x, base, pad_len, pad_char)'s text. */
  function NumPad(x: u64, base: u8, padLen: u8, padChar: Char8): (s: seq<Char8>)
    requires base >= 2
    ensures var ds := Digits(x, base);
      |s| >= |ds| &&
      s[|s| - |ds|..] == ds &&
      (forall i :: 0 <= i < |s| - |ds| ==> s[i] == padChar) &&
      (padLen <= BUFFER_SIZE ==> |s| == if padLen > |ds| then padLen as int else |ds|) &&
      (padLen > BUFFER_SIZE ==> s == ds)
  {
    var ds := Digits(x, base);
    Padding(PadCount(|ds|, padLen), padChar) + ds
  }

  /** NumPad is the pad characters followed by the digits. */
  lemma NumPadParts(x: u64, base: u8, padLen: u8, padChar: Char8)
    requires base >= 2
    ensures NumPad(x, base, padLen, padChar) == Padding(PadCount(|Digits(x, base)|, padLen), padChar) + Digits(x, base)
  {
  }

  /**
   * print_num_pad's digit loop: a do-while that writes the digits of x
   * from the back of the buffer, least significant first, and stops once
   * the quotient is 0. It returns the index of the first digit.
   */
  method WriteDigits(buffer: array<Char8>, x: u64, base: u8) returns (idx: nat)
    requires buffer.Length == BUFFER_SIZE && base >= 2
    modifies buffer
    ensures idx <= BUFFER_SIZE && buffer[idx..] == Digits(x, base)
  {
    DigitsFit(x, base);
    idx := BUFFER_SIZE;
    var v: u64 := x;
    while true
      invariant idx <= BUFFER_SIZE
      invariant v > 0 || idx == BUFFER_SIZE
      invariant Digits(v, base) + buffer[idx..] == Digits(x, base)
      decreases v
    {
      var digit := v % base;
      ghost var rest := buffer[idx..];
      DigitsStep(v, base);
      idx := idx - 1;
      buffer[idx] := DigitChar(digit);
      assert buffer[idx..] == [DigitChar(digit)] + rest;
      if v > 0 {
        DivShrinks(v, base);
      }
      DivLe(v, base);
      v := v / base;
      if v == 0 {
        break;
      }
    }
  }

  /**
   * print_num_pad's padding loop: pad characters go in front of the text
   * at buffer[start..] while the index is above limit.
   */
  method WritePadding(buffer: array<Char8>, start: nat, limit: u64, padChar: Char8) returns (idx: nat)
    requires start <= buffer.Length
    modifies buffer
    ensures idx == if limit < start then limit else start
    ensures buffer[idx..] == Padding(start - idx, padChar) + old(buffer[start..])
  {
    ghost var text := buffer[start..];
    idx := start;
    while idx > limit
      invariant idx <= start
      invariant limit <= start ==> limit <= idx
      invariant limit > start ==> idx == start
      invariant forall k :: idx <= k < start ==> buffer[k] == padChar
      invariant buffer[start..] == text
    {
      idx := idx - 1;
      buffer[idx] := padChar;
    }
    assert buffer[idx..start] == Padding(start - idx, padChar);
    assert buffer[idx..] == buffer[idx..start] + buffer[start..];
  }

  /**
   * print_num_pad's text, built in a 64-character buffer: the digits, then
   * the padding whose limit is `(usize)(64 - pad_len)`.
   */
  method FormatNumPad(x: u64, base: u8, padLen: u8, padChar: Char8) returns (s: seq<Char8>)
    requires base >= 2
    ensures s == NumPad(x, base, padLen, padChar)
  {
    var buffer := new Char8[BUFFER_SIZE](_ => ' ');
    var start := WriteDigits(buffer, x, base);
    var idx := WritePadding(buffer, start, ToU64(BUFFER_SIZE - padLen), padChar);
    s := buffer[idx..];
    assert start - idx == PadCount(|Digits(x, base)|, padLen);
    NumPadParts(x, base, padLen, padChar);
  }

  /** print_bytes' unit letters, from bytes (a space) up to terabytes. */
  const UNITS: seq<Char8> := [' ', 'K', 'M', 'G', 'T']
  const UNIT_STEP: nat := 1000
  const LARGEST_UNIT: nat := |UNITS| - 1

  /**
   * The unit exponent print_bytes' loop settles on when it starts at
   * 1000^k: the largest e <= k with 1000^e <= bytes, or 0 when there is
   * none (the loop always prints at unit 1).
   */
  function UnitExponent(bytes: nat, k: nat): (e: nat)
    ensures e <= k
    ensures e == 0 || Pow(UNIT_STEP, e) <= bytes
    ensures e == k || bytes < Pow(UNIT_STEP, e + 1)
  {
    if k == 0 || bytes >= Pow(UNIT_STEP, k) then k else UnitExponent(bytes, k - 1)
  }

  /** In the chosen unit, the tenths digit print_bytes prints is a single decimal digit. */
  lemma TenthsDigit(bytes: nat, unit: nat)
    requires unit > 0
    ensures 0 <= (bytes % unit) * 10 / unit < 10
    ensures unit == 1 ==> (bytes % unit) * 10 / unit == 0
  {
    var r := bytes % unit;
    MulMono(r + 1, unit, 10);
    DivBelow(r * 10, unit, 10);
  }

  /**
   * print_bytes(bytes)'s text: the whole number of units padded to three
   * columns, a point, the tenths digit (truncated), a space, the unit
   * letter and 'B'.
   */
  function BytesText(bytes: u64): seq<Char8>
  {
    InUnitText(bytes, UnitExponent(bytes, LARGEST_UNIT))
  }

  /** The whole number of units print_bytes prints. */
  function Whole(bytes: u64, unit: nat): u64
    requires unit > 0
  {
    DivLe(bytes, unit);
    bytes / unit
  }

  /** The tenths digit print_bytes prints: the remainder times ten, truncated. */
  function Tenths(bytes: u64, unit: nat): (t: u64)
    requires unit > 0
    ensures t < 10
  {
    TenthsDigit(bytes, unit);
    (bytes % unit) * 10 / unit
  }

  /** print_bytes' number: the whole part padded to three columns, a point and the tenths digit. */
  function FixedText(whole: u64, tenths: u64): seq<Char8>
  {
    NumPad(whole, 10, 3, ' ') + ['.'] + NumPad(tenths, 10, 0, ' ')
  }

  /** print_bytes' unit: a space, the unit letter and 'B'. */
  function UnitSuffix(letter: Char8): seq<Char8>
  {
    [' ', letter, 'B']
  }

  /** The text of bytes in unit 1000^e. */
  function InUnitText(bytes: u64, e: nat): seq<Char8>
    requires e <= LARGEST_UNIT
  {
    var u := Pow(UNIT_STEP, e);
    FixedText(Whole(bytes, u), Tenths(bytes, u)) + UnitSuffix(UNITS[e])
  }

  /** Without a pad length, print_num_pad prints the bare numeral. */
  lemma NumPadUnpadded(x: u64, base: u8, padChar: Char8)
    requires base >= 2
    ensures NumPad(x, base, 0, padChar) == Digits(x, base)
  {
    NumPadParts(x, base, 0, padChar);
    assert Padding(0, padChar) + Digits(x, base) == Digits(x, base);
  }

  /**
   * The text in unit u reads back as the byte count in that unit: the
   * padded numeral of bytes / u, a point, the tenths digit, a space, the
   * unit letter and 'B'.
   */
  lemma InUnitParts(bytes: u64, e: nat)
    requires e <= LARGEST_UNIT
    ensures var u := Pow(UNIT_STEP, e);
      var s := InUnitText(bytes, e);
      var n := |s| - 5;
      n >= 3 &&
      s[..n] == NumPad(bytes / u, 10, 3, ' ') &&
      s[n..] == ['.', s[n + 1], ' ', UNITS[e], 'B'] &&
      DigitValue(s[n + 1]) == (bytes % u) * 10 / u &&
      FromDigits(Digits(bytes / u, 10), 10) == bytes / u
  {
    var u := Pow(UNIT_STEP, e);
    var w, t := Whole(bytes, u), Tenths(bytes, u);
    var head, tail := NumPad(w, 10, 3, ' '), ['.', DigitChar(t), ' ', UNITS[e], 'B'];
    InUnitSplit(bytes, e);
    SplitAt(head, tail);
    DigitCharValue(t);
    DigitsRoundTrip(w, 10);
  }

  /** The text of InUnitText, written out: the padded whole part, then five characters. */
  lemma InUnitSplit(bytes: u64, e: nat)
    requires e <= LARGEST_UNIT
    ensures var u := Pow(UNIT_STEP, e);
      InUnitText(bytes, e) == NumPad(Whole(bytes, u), 10, 3, ' ') + ['.', DigitChar(Tenths(bytes, u)), ' ', UNITS[e], 'B']
  {
    var u := Pow(UNIT_STEP, e);
    var w, t := Whole(bytes, u), Tenths(bytes, u);
    assert Digits(t, 10) == [DigitChar(t)];
    NumPadUnpadded(t, 10, ' ');
    var head := NumPad(w, 10, 3, ' ');
    assert FixedText(w, t) == head + ['.'] + [DigitChar(t)];
    assert InUnitText(bytes, e) == head + ['.'] + [DigitChar(t)] + [' ', UNITS[e], 'B'];
    Append5(head, '.', DigitChar(t), ' ', UNITS[e], 'B');
  }

  /** Appending one, one and three characters is appending all five. */
  lemma Append5(a: seq<Char8>, c1: Char8, c2: Char8, c3: Char8, c4: Char8, c5: Char8)
    ensures a + [c1] + [c2] + [c3, c4, c5] == a + [c1, c2, c3, c4, c5]
  {
  }

  /** The two halves of a concatenation. */
  lemma SplitAt(a: seq<Char8>, b: seq<Char8>)
    ensures (a + b)[..|a|] == a && (a + b)[|a|..] == b
  {
  }

  /** print_bytes' text reads back as the byte count in the unit UnitExponent chooses. */
  lemma BytesTextParts(bytes: u64)
    ensures var e := UnitExponent(bytes, LARGEST_UNIT);
      var u := Pow(UNIT_STEP, e);
      var s := BytesText(bytes);
      var n := |s| - 5;
      n >= 3 &&
      s[..n] == NumPad(bytes / u, 10, 3, ' ') &&
      s[n..] == ['.', s[n + 1], ' ', UNITS[e], 'B'] &&
      DigitValue(s[n + 1]) == (bytes % u) * 10 / u &&
      FromDigits(Digits(bytes / u, 10), 10) == bytes / u
  {
    var e := UnitExponent(bytes, LARGEST_UNIT);
    assert BytesText(bytes) == InUnitText(bytes, e);
    InUnitParts(bytes, e);
  }

  /**
   * Below 1000 terabytes the whole part has at most three digits, so the
   * text is always eight characters wide: "ddd.d UB".
   */
  lemma BytesTextWidth(bytes: u64)
    requires bytes < Pow(UNIT_STEP, |UNITS|)
    ensures |BytesText(bytes)| == 8
  {
    var e := UnitExponent(bytes, LARGEST_UNIT);
    var u := Pow(UNIT_STEP, e);
    assert bytes < Pow(UNIT_STEP, e + 1);
    assert Pow(UNIT_STEP, e + 1) == u * UNIT_STEP;
    DivBelow(bytes, u, UNIT_STEP);
    assert Pow(10, 3) == UNIT_STEP;
    DigitsBelow(bytes / u, 10, 3);
    TenthsDigit(bytes, u);
    DigitsBelow((bytes % u) * 10 / u, 10, 1);
  }

  lemma NumPadExamples()
    ensures NumPad(255, 16, 2, '0') == "FF"
    ensures NumPad(5, 16, 4, '0') == "0005"
    ensures NumPad(1234, 10, 0, ' ') == "1234"
    ensures NumPad(5, 10, 100, '0') == "5"
  {
    assert Digits(255, 16) == Digits(15, 16) + [DigitChar(15)];
    assert Digits(1234, 10) == Digits(123, 10) + ['4'];
    assert Digits(123, 10) == Digits(12, 10) + ['3'];
    assert Digits(12, 10) == Digits(1, 10) + ['2'];
  }

  lemma BytesTextZero()
    ensures BytesText(0) == "  0.0  B"
  {
    assert UnitExponent(0, LARGEST_UNIT) == 0;
    assert Digits(0, 10) == "0";
    assert FixedText(0, 0) == "  0.0";
  }

  lemma BytesTextKilo()
    ensures BytesText(1500) == "  1.5 KB"
  {
    assert Pow(UNIT_STEP, 1) == 1000;
    assert Pow(UNIT_STEP, 2) == 1000_000;
    assert Pow(UNIT_STEP, 3) == 1000_000_000;
    assert Pow(UNIT_STEP, 4) == 1000_000_000_000;
    assert UnitExponent(1500, LARGEST_UNIT) == 1;
    assert Whole(1500, 1000) == 1 && Tenths(1500, 1000) == 5;
    assert FixedText(1, 5) == "  1.5";
  }

  /** Above base 201 the digit characters wrap: 254 in base 255 prints as "5", like 5 does. */
  lemma DigitWrap()
    ensures Digits(254, 255) == Digits(5, 255) == "5"
  {
  }
}
