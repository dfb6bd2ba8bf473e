/**
 * AIDX identifiers: eight base-36 digits of milliseconds since 2000-01-01,
 * four node bytes, then a counter. `FromStrAsWritten` is the parser as the
 * crate writes it; `FromStr` is the corrected parser the rest of the model
 * uses (see the README's findings). Printing (`Display`) is as written.
 *
 * Strings are their UTF-8 bytes: `split_at` cuts a Rust `&str` at a byte
 * index and panics when that index is inside a multi-byte character.
 */
module Aidx {
  import opened Wrappers
  import opened Radix

  const TIME2000: int := 946684800000
  const TIME_LENGTH: nat := 8
  const NODE_LENGTH: nat := 4
  /** Declared next to the other lengths, but the parser and printer never use it. */
  const NOISE_LENGTH: nat := 4

  /** 36^8: the number of distinct eight-digit timestamps. */
  const TIME_SPAN: int := 2821109907456

  const I64_MIN: int := -0x8000_0000_0000_0000
  const I64_MAX: int := 0x7fff_ffff_ffff_ffff
  const U16_MAX: int := 0xffff

  type i64 = x: int | I64_MIN <= x <= I64_MAX
  type u16 = x: int | 0 <= x <= U16_MAX
  type u64 = x: int | 0 <= x < 0x1_0000_0000_0000_0000
  type NodeId = s: seq<byte> | |s| == NODE_LENGTH witness [0, 0, 0, 0]

  /** Field order is the order `derive(PartialOrd, Ord)` compares in. */
  datatype Aidx = Aidx(timestamp: i64, nodeId: NodeId, counter: u16)

  datatype ParseAidxError = ParseAidxError

  /** `str::is_char_boundary`: `i` does not fall on a UTF-8 continuation byte. */
  predicate IsCharBoundary(s: seq<byte>, i: nat) {
    i == 0 || i == |s| || (i < |s| && !(0x80 <= s[i] < 0xC0))
  }

  /** What `split_at(TIME_LENGTH)` and then `split_at(NODE_LENGTH)` need in order not to panic. */
  predicate Splittable(s: seq<byte>) {
    |s| >= TIME_LENGTH + NODE_LENGTH && IsCharBoundary(s, TIME_LENGTH) && IsCharBoundary(s, TIME_LENGTH + NODE_LENGTH)
  }

  /** The time part: `i64::from_str_radix(&s[..8], 36)`. */
  function TimePart(s: seq<byte>): (r: Option<int>)
    requires Splittable(s)
    ensures r.Some? ==> -TIME_SPAN < r.value < TIME_SPAN
    ensures AllDigits(s[..TIME_LENGTH], 36) ==> r == Some(Value(s[..TIME_LENGTH], 36))
    ensures s[0] == PLUS && AllDigits(s[1..TIME_LENGTH], 36) ==> r == Some(Value(s[1..TIME_LENGTH], 36))
    ensures s[0] == MINUS && AllDigits(s[1..TIME_LENGTH], 36) ==> r == Some(-(Value(s[1..TIME_LENGTH], 36) as int))
  {
    var t := s[..TIME_LENGTH];
    var r := FromStrRadix(t, 36, I64_MIN, I64_MAX);
    assert r.Some? ==> -TIME_SPAN < r.value < TIME_SPAN by {
      if r.Some? {
        var digits := if t[0] == PLUS || t[0] == MINUS then t[1..] else t;
        ValueBound(digits, 36);
        assert Pow(36, 7) < Pow(36, 8) == TIME_SPAN;
      }
    }
    assert AllDigits(t, 36) ==> r == Some(Value(t, 36)) by {
      if AllDigits(t, 36) {
        ValueBound(t, 36);
        FromStrRadixOfDigits(t, 36, I64_MIN, I64_MAX);
      }
    }
    assert (t[0] == PLUS || t[0] == MINUS) && AllDigits(t[1..], 36) ==> r == Some(if t[0] == PLUS then Value(t[1..], 36) else -(Value(t[1..], 36) as int)) by {
      if (t[0] == PLUS || t[0] == MINUS) && AllDigits(t[1..], 36) {
        ValueBound(t[1..], 36);
        assert Pow(36, 7) == 78364164096;
        FromStrRadixSigned(t, 36, I64_MIN, I64_MAX);
      }
    }
    assert t[1..] == s[1..TIME_LENGTH];
    r
  }

  /** `Aidx::from_str` as written: the counter suffix is read in base 36. */
  function FromStrAsWritten(s: seq<byte>): (r: Result<Aidx, ParseAidxError>)
    requires Splittable(s)
    ensures r.Ok? <==> TimePart(s).Some? && FromStrRadix(s[12..], 36, 0, U16_MAX).Some?
    ensures r.Ok? ==> r.value.nodeId == s[TIME_LENGTH..TIME_LENGTH + NODE_LENGTH]
    ensures r.Ok? && AllDigits(s[..TIME_LENGTH], 36) ==> r.value.timestamp == TIME2000 + Value(s[..TIME_LENGTH], 36)
    ensures |s| > 12 && AllDigits(s[12..], 36) && r.Ok? ==> r.value.counter == Value(s[12..], 36)
  {
    match TimePart(s)
    case None => Err(ParseAidxError)
    case Some(t) =>
      match FromStrRadix(s[TIME_LENGTH + NODE_LENGTH..], 36, 0, U16_MAX)
      case None => Err(ParseAidxError)
      case Some(c) => Ok(Aidx(t + TIME2000, s[TIME_LENGTH..TIME_LENGTH + NODE_LENGTH], c))
  }

  /**
   * `Aidx::from_str` corrected: the counter suffix is read in decimal, the
   * base it is printed in, and node bytes outside ASCII are refused because
   * printing cannot reproduce them.
   */
  function FromStr(s: seq<byte>): (r: Result<Aidx, ParseAidxError>)
    requires Splittable(s)
    ensures r.Ok? <==> TimePart(s).Some? && IsAscii(s[8..12]) && FromStrRadix(s[12..], 10, 0, U16_MAX).Some?
    ensures r.Ok? ==> r.value.nodeId == s[TIME_LENGTH..TIME_LENGTH + NODE_LENGTH] && IsAscii(r.value.nodeId)
    ensures r.Ok? ==> TIME2000 - TIME_SPAN < r.value.timestamp < TIME2000 + TIME_SPAN
    ensures r.Ok? && AllDigits(s[..TIME_LENGTH], 36) ==> r.value.timestamp == TIME2000 + Value(s[..TIME_LENGTH], 36)
    ensures |s| > 12 && AllDigits(s[12..], 10) && r.Ok? ==> r.value.counter == Value(s[12..], 10)
  {
    match TimePart(s)
    case None => Err(ParseAidxError)
    case Some(t) =>
      var node := s[TIME_LENGTH..TIME_LENGTH + NODE_LENGTH];
      if !IsAscii(node) then Err(ParseAidxError)
      else
        match FromStrRadix(s[TIME_LENGTH + NODE_LENGTH..], 10, 0, U16_MAX)
        case None => Err(ParseAidxError)
        case Some(c) => Ok(Aidx(t + TIME2000, node, c))
  }

  /**
   * `Radix36::fmt` with an explicit width: writes `(x / 36^i) % 36` for
   * `i = width - 1` down to `0`, one digit at a time. `36_u64.pow(i)` would
   * overflow for `i >= 13`, hence the bound on `width`.
   */
  method Radix36Fmt(x: u64, width: nat) returns (out: seq<byte>)
    requires width <= 13
    ensures out == FixedDigits(x, 36, width)
    ensures |out| == width && CanonicalDigits(out, 36)
    ensures Value(out, 36) == x % Pow(36, width)
  {
    out := [];
    var i := width;
    while i > 0
      invariant 0 <= i <= width
      invariant out + FixedDigits(x, 36, i) == FixedDigits(x, 36, width)
    {
      i := i - 1;
      var digit := x / Pow(36, i) % 36;
      out := out + [DigitChar(digit)];
    }
    FixedDigitsValue(x, 36, width);
  }

  /** `node_id_to_string`: every byte becomes the character with that code. */
  function NodeIdToString(node: NodeId): (r: string)
    ensures |r| == NODE_LENGTH && forall i :: 0 <= i < |r| ==> r[i] as int == node[i]
  {
    seq(NODE_LENGTH, i requires 0 <= i < NODE_LENGTH => node[i] as char)
  }

  /** Number of characters at or above U+0080. */
  function NonAsciiCount(s: string): (r: nat)
    ensures r <= |s|
  {
    if s == [] then 0 else (if s[0] as int < 0x80 then 0 else 1) + NonAsciiCount(s[1..])
  }

  /** Number of bytes at or above 0x80; zero exactly for ASCII. */
  function HighBytes(b: seq<byte>): (r: nat)
    ensures r <= |b|
  {
    if b == [] then 0 else (if b[0] < 0x80 then 0 else 1) + HighBytes(b[1..])
  }

  lemma {:induction false} HighBytesZero(b: seq<byte>)
    ensures HighBytes(b) == 0 <==> IsAscii(b)
  {
    if b != [] {
      HighBytesZero(b[1..]);
      if b[0] < 0x80 && IsAscii(b[1..]) {
        forall i | 1 <= i < |b| ensures b[i] < 0x80 { assert b[i] == b[1..][i - 1]; }
      }
    }
  }

  lemma {:induction false} HighBytesAppend(x: seq<byte>, y: seq<byte>)
    ensures HighBytes(x + y) == HighBytes(x) + HighBytes(y)
  {
    if x == [] {
      assert x + y == y;
    } else {
      assert (x + y)[1..] == x[1..] + y;
      HighBytesAppend(x[1..], y);
    }
  }

  /** A character whose code is a byte has as many non-ASCII characters as the bytes have high bytes. */
  lemma {:induction false} NonAsciiCountOfBytes(s: string, b: seq<byte>)
    requires |s| == |b| && forall i :: 0 <= i < |s| ==> s[i] as int == b[i]
    ensures NonAsciiCount(s) == HighBytes(b)
  {
    if s != [] {
      NonAsciiCountOfBytes(s[1..], b[1..]);
    }
  }

  /**
   * UTF-8 encoding of one character below U+0100: below U+0080 the byte
   * itself, otherwise a lead byte 0xC2 or 0xC3 carrying the top two bits and a
   * continuation byte carrying the low six.
   */
  function Utf8Char(c: char): (r: seq<byte>)
    requires c as int < 0x100
    ensures c as int < 0x80 ==> r == [c as int]
    ensures c as int >= 0x80 ==> |r| == 2 && 0xC2 <= r[0] <= 0xC3 && 0x80 <= r[1] < 0xC0
    ensures c as int >= 0x80 ==> (r[0] - 0xC0) * 64 + (r[1] - 0x80) == c as int
  {
    var n := c as int;
    if n < 0x80 then [n] else [0xC0 + n / 64, 0x80 + n % 64]
  }

  /**
   * UTF-8 encoding of a string whose characters are all below U+0100: each
   * character is `Utf8Char` of it, so there is one extra byte per non-ASCII
   * character, and an ASCII string is its own bytes.
   */
  function EncodeLatin1(s: string): (r: seq<byte>)
    requires forall i :: 0 <= i < |s| ==> s[i] as int < 0x100
    ensures |r| == |s| + NonAsciiCount(s)
    ensures (forall i :: 0 <= i < |s| ==> s[i] as int < 0x80) ==> r == seq(|s|, i requires 0 <= i < |s| => s[i] as int as byte)
  {
    if s == [] then [] else Utf8Char(s[0]) + EncodeLatin1(s[1..])
  }

  /** Both bytes of every non-ASCII character are themselves non-ASCII. */
  lemma {:induction false} EncodeLatin1HighBytes(s: string)
    requires forall i :: 0 <= i < |s| ==> s[i] as int < 0x100
    ensures HighBytes(EncodeLatin1(s)) == 2 * NonAsciiCount(s)
  {
    if s != [] {
      EncodeLatin1HighBytes(s[1..]);
      HighBytesAppend(Utf8Char(s[0]), EncodeLatin1(s[1..]));
    }
  }

  lemma {:induction false} EncodeLatin1Append(x: string, y: string)
    requires forall i :: 0 <= i < |x| ==> x[i] as int < 0x100
    requires forall i :: 0 <= i < |y| ==> y[i] as int < 0x100
    ensures EncodeLatin1(x + y) == EncodeLatin1(x) + EncodeLatin1(y)
  {
    if x == [] {
      assert x + y == y;
    } else {
      assert (x + y)[1..] == x[1..] + y;
      EncodeLatin1Append(x[1..], y);
    }
  }

  /** Decimal digit count of `n`, as integer formatting writes it. */
  function DecimalLength(n: nat): (r: nat)
    ensures r >= 1 && n < Pow(10, r)
  {
    if n < 10 then 1 else 1 + DecimalLength(n / 10)
  }

  /** `{:04}` pads to at least four digits. */
  function CounterWidth(c: u16): nat {
    if DecimalLength(c) < 4 then 4 else DecimalLength(c)
  }

  lemma PowersOfTen()
    ensures Pow(10, 4) == 10000 && Pow(10, 5) == 100000
  {
  }

  lemma CounterWidthFits(c: u16)
    ensures CounterWidth(c) == (if c < 10000 then 4 else 5) && c < Pow(10, CounterWidth(c))
  {
    PowersOfTen();
    if c < 10000 {
      DecimalLengthAtMost(c, 4);
    } else {
      DecimalLengthAtMost(c, 5);
      DecimalLengthAtLeast(c, 5);
    }
  }

  /**
   * `{:04}` on the counter: four decimal digits below 10000 and five above,
   * as `from_digit` writes them, denoting the counter.
   */
  function CounterText(c: u16): (r: seq<byte>)
    ensures |r| == if c < 10000 then 4 else 5
    ensures CanonicalDigits(r, 10) && Value(r, 10) == c
  {
    var w := CounterWidth(c);
    CounterWidthFits(c);
    FixedDigitsValue(c, 10, w);
    DivModUnique(c, Pow(10, w), 0, c);
    FixedDigits(c, 10, w)
  }

  /** The time field: milliseconds since 2000, negative values clamped to zero. */
  function Since2000(a: Aidx): (r: nat)
    requires a.timestamp - TIME2000 >= I64_MIN
    ensures TIME2000 + r >= a.timestamp && (r == 0 || TIME2000 + r == a.timestamp)
  {
    if a.timestamp - TIME2000 >= 0 then a.timestamp - TIME2000 else 0
  }

  /** `timestamp - TIME2000` must not underflow `i64` (a panic in debug builds). */
  predicate Displayable(a: Aidx) {
    a.timestamp - TIME2000 >= I64_MIN
  }

  /**
   * `Aidx::fmt`: the time in eight base-36 digits, the node bytes as
   * characters (one extra byte for each node byte outside ASCII), then the
   * counter.
   */
  function Display(a: Aidx): (r: seq<byte>)
    requires Displayable(a)
    ensures |r| == TIME_LENGTH + NODE_LENGTH + HighBytes(a.nodeId) + |CounterText(a.counter)|
    ensures CanonicalDigits(r[..TIME_LENGTH], 36) && Value(r[..TIME_LENGTH], 36) == Since2000(a) % TIME_SPAN
  {
    var time, text := FixedDigits(Since2000(a), 36, TIME_LENGTH), NodeIdToString(a.nodeId);
    FixedDigitsValue(Since2000(a), 36, TIME_LENGTH);
    assert Pow(36, 8) == TIME_SPAN;
    NonAsciiCountOfBytes(text, a.nodeId);
    var r := time + EncodeLatin1(text) + CounterText(a.counter);
    assert r[..TIME_LENGTH] == time;
    r
  }

  predicate InTimeRange(t: int) {
    TIME2000 <= t < TIME2000 + TIME_SPAN
  }

  lemma AsciiNodeText(node: NodeId)
    requires IsAscii(node)
    ensures EncodeLatin1(NodeIdToString(node)) == node
  {
  }

  lemma {:induction false} DecimalLengthAtMost(n: nat, k: nat)
    requires k >= 1 && n < Pow(10, k)
    ensures DecimalLength(n) <= k
  {
    if n >= 10 {
      assert n / 10 < Pow(10, k - 1);
      DecimalLengthAtMost(n / 10, k - 1);
    }
  }

  lemma {:induction false} DecimalLengthAtLeast(n: nat, k: nat)
    requires k >= 1 && n >= Pow(10, k - 1)
    ensures DecimalLength(n) >= k
  {
    if k > 1 {
      assert n >= 10;
      assert n / 10 >= Pow(10, k - 2);
      DecimalLengthAtLeast(n / 10, k - 1);
    }
  }

  /** The layout of a printed id whose node bytes are ASCII. */
  lemma DisplayLayout(a: Aidx)
    requires Displayable(a) && IsAscii(a.nodeId)
    ensures var s := Display(a);
      && |s| == (if a.counter < 10000 then 16 else 17)
      && Splittable(s)
      && CanonicalDigits(s[..8], 36) && Value(s[..8], 36) == Since2000(a) % TIME_SPAN
      && s[8..12] == a.nodeId
      && s[12..] == CounterText(a.counter)
  {
    var s, c := Display(a), CounterText(a.counter);
    DisplayParts(a);
    AsciiNodeText(a.nodeId);
    HighBytesZero(a.nodeId);
    assert s[8..12] == a.nodeId && s[12..] == c;
    assert s[8] == a.nodeId[0] && s[12] == c[0];
  }

  /** What each parser reads from the fields of a printed id whose node bytes are ASCII. */
  lemma DisplayedFields(a: Aidx)
    requires Displayable(a) && IsAscii(a.nodeId)
    ensures var s := Display(a);
      Splittable(s) && TimePart(s) == Some(Since2000(a) % TIME_SPAN) && s[8..12] == a.nodeId && s[12..] == CounterText(a.counter)
  {
    DisplayLayout(a);
  }

  lemma {:induction false} FixedDigitsOfZero(radix: nat, w: nat)
    requires 2 <= radix <= 36
    ensures forall i :: 0 <= i < w ==> FixedDigits(0, radix, w)[i] == ZERO
  {
    if w > 0 {
      var rest := FixedDigits(0, radix, w - 1);
      assert 0 / Pow(radix, w - 1) == 0;
      assert FixedDigits(0, radix, w) == [ZERO] + rest;
      FixedDigitsOfZero(radix, w - 1);
    }
  }

  /** Timestamps before 2000 print as eight zeros. */
  lemma DisplayClampsBefore2000(a: Aidx)
    requires Displayable(a) && a.timestamp < TIME2000
    ensures forall i :: 0 <= i < TIME_LENGTH ==> Display(a)[i] == ZERO
  {
    DisplayTime(a);
    FixedDigitsOfZero(36, TIME_LENGTH);
    assert forall i :: 0 <= i < TIME_LENGTH ==> Display(a)[i] == Display(a)[..TIME_LENGTH][i];
  }

  lemma DisplayTime(a: Aidx)
    requires Displayable(a)
    ensures Display(a)[..TIME_LENGTH] == FixedDigits(Since2000(a), 36, TIME_LENGTH)
  {
  }

  lemma FromStrAsWrittenOfParts(s: seq<byte>, t: int, c: int)
    requires Splittable(s) && TimePart(s) == Some(t) && FromStrRadix(s[12..], 36, 0, U16_MAX) == Some(c)
    ensures FromStrAsWritten(s) == Ok(Aidx(TIME2000 + t, s[8..12], c))
  {
  }

  lemma FromStrOfParts(s: seq<byte>, t: int, c: int)
    requires Splittable(s) && TimePart(s) == Some(t) && IsAscii(s[8..12])
    requires FromStrRadix(s[12..], 10, 0, U16_MAX) == Some(c)
    ensures FromStr(s) == Ok(Aidx(TIME2000 + t, s[8..12], c))
  {
  }

  /**
   * Whatever form the time part takes (bare digits, or `+` or `-` then
   * digits), an accepted id's timestamp is 2000-01-01 plus the time part.
   */
  lemma TimestampIsTimePart(s: seq<byte>)
    requires Splittable(s)
    ensures FromStrAsWritten(s).Ok? ==> FromStrAsWritten(s).value.timestamp == TIME2000 + TimePart(s).value
    ensures FromStr(s).Ok? ==> FromStr(s).value.timestamp == TIME2000 + TimePart(s).value
  {
  }

  /**
   * Likewise for the counter: an accepted id's counter is the parsed suffix,
   * with or without a leading `+`.
   */
  lemma CounterIsCounterPart(s: seq<byte>)
    requires Splittable(s)
    ensures FromStrAsWritten(s).Ok? ==> FromStrAsWritten(s).value.counter == FromStrRadix(s[12..], 36, 0, U16_MAX).value
    ensures FromStr(s).Ok? ==> FromStr(s).value.counter == FromStrRadix(s[12..], 10, 0, U16_MAX).value
  {
  }

  /**
   * A time part that is not an optional sign followed by seven base-36
   * digits, or a counter that is not an optional `+` followed by digits,
   * makes both parsers return `ParseAidxError`.
   */
  lemma MalformedFieldsRejected(s: seq<byte>)
    requires Splittable(s)
    ensures FromStrAsWritten(s).Ok? || FromStr(s).Ok? ==>
      AllDigits(s[..TIME_LENGTH], 36) || ((s[0] == PLUS || s[0] == MINUS) && AllDigits(s[1..TIME_LENGTH], 36))
    ensures FromStrAsWritten(s).Ok? ==> |s| > 12 && (AllDigits(s[12..], 36) || (s[12] == PLUS && AllDigits(s[13..], 36)))
    ensures FromStr(s).Ok? ==> |s| > 12 && (AllDigits(s[12..], 10) || (s[12] == PLUS && AllDigits(s[13..], 10)))
  {
    FromStrRadixShape(s[..TIME_LENGTH], 36, I64_MIN, I64_MAX);
    assert s[..TIME_LENGTH][1..] == s[1..TIME_LENGTH];
    FromStrRadixShape(s[12..], 36, 0, U16_MAX);
    FromStrRadixShape(s[12..], 10, 0, U16_MAX);
    if |s| > 12 {
      assert s[12..][1..] == s[13..];
    }
  }

  /** The time read back from a printed id is the original exactly when it lies in range. */
  lemma TimeComesBack(a: Aidx)
    requires Displayable(a)
    ensures TIME2000 + Since2000(a) % TIME_SPAN == a.timestamp <==> InTimeRange(a.timestamp)
  {
    var since := Since2000(a);
    if InTimeRange(a.timestamp) {
      DivModUnique(since, TIME_SPAN, 0, since);
    }
  }

  /**
   * Printing then parsing with the parser as written: the time and node
   * parts come back (the time modulo 36^8, clamped at 2000), but the
   * counter, printed in decimal and read in base 36, comes back only when
   * it is a single digit.
   */
  lemma DisplayThenParseAsWritten(a: Aidx)
    requires Displayable(a) && IsAscii(a.nodeId)
    ensures Splittable(Display(a))
    ensures var r := FromStrAsWritten(Display(a));
      && (r.Ok? <==> Value(CounterText(a.counter), 36) <= U16_MAX)
      && (r.Ok? ==> r.value.timestamp == TIME2000 + Since2000(a) % TIME_SPAN && r.value.nodeId == a.nodeId)
      && (r == Ok(a) <==> InTimeRange(a.timestamp) && a.counter < 10)
  {
    DisplayedFields(a);
    ReadBackFieldsAsWritten(Display(a), a);
  }

  lemma ReadBackFieldsAsWritten(s: seq<byte>, a: Aidx)
    requires Displayable(a) && Splittable(s) && TimePart(s) == Some(Since2000(a) % TIME_SPAN)
    requires s[8..12] == a.nodeId && s[12..] == CounterText(a.counter)
    ensures var r := FromStrAsWritten(s);
      && (r.Ok? <==> Value(CounterText(a.counter), 36) <= U16_MAX)
      && (r.Ok? ==> r.value.timestamp == TIME2000 + Since2000(a) % TIME_SPAN && r.value.nodeId == a.nodeId)
      && (r == Ok(a) <==> InTimeRange(a.timestamp) && a.counter < 10)
  {
    var text := CounterText(a.counter);
    CounterReadInBase36(a.counter);
    if Value(text, 36) <= U16_MAX {
      FromStrAsWrittenOfParts(s, Since2000(a) % TIME_SPAN, Value(text, 36));
    }
    TimeComesBack(a);
  }

  /** The printed counter read in base 36: its digits are valid there, and denote the counter only below 10. */
  lemma CounterReadInBase36(c: u16)
    ensures var text := CounterText(c);
      && AllDigits(text, 36) && (Value(text, 36) == c <==> c < 10)
      && FromStrRadix(text, 36, 0, U16_MAX) == if Value(text, 36) <= U16_MAX then Some(Value(text, 36)) else None
  {
    DecimalInBase36(CounterText(c));
    FromStrRadixOfDigits(CounterText(c), 36, 0, U16_MAX);
  }

  /** The printed counter read in decimal is the counter. */
  lemma CounterReadInDecimal(c: u16)
    ensures FromStrRadix(CounterText(c), 10, 0, U16_MAX) == Some(c as int)
  {
    FromStrRadixOfDigits(CounterText(c), 10, 0, U16_MAX);
  }

  /**
   * Printing then parsing with the corrected parser gives back the node and
   * the counter always, and the whole id exactly when its time fits in
   * eight base-36 digits after 2000.
   */
  lemma DisplayThenParse(a: Aidx)
    requires Displayable(a) && IsAscii(a.nodeId)
    ensures Splittable(Display(a))
    ensures FromStr(Display(a)) == Ok(Aidx(TIME2000 + Since2000(a) % TIME_SPAN, a.nodeId, a.counter))
    ensures FromStr(Display(a)) == Ok(a) <==> InTimeRange(a.timestamp)
  {
    DisplayedFields(a);
    ReadBackFields(Display(a), a);
  }

  lemma ReadBackFields(s: seq<byte>, a: Aidx)
    requires Displayable(a) && Splittable(s) && TimePart(s) == Some(Since2000(a) % TIME_SPAN)
    requires s[8..12] == a.nodeId && IsAscii(a.nodeId) && s[12..] == CounterText(a.counter)
    ensures FromStr(s) == Ok(Aidx(TIME2000 + Since2000(a) % TIME_SPAN, a.nodeId, a.counter))
    ensures FromStr(s) == Ok(a) <==> InTimeRange(a.timestamp)
  {
    CounterReadInDecimal(a.counter);
    FromStrOfParts(s, Since2000(a) % TIME_SPAN, a.counter);
    TimeComesBack(a);
  }

  /** Every id the corrected parser returns with a time after 2000 prints to a string that parses back to it. */
  lemma ParsedIdRoundTrips(s: seq<byte>)
    requires Splittable(s) && FromStr(s).Ok? && FromStr(s).value.timestamp >= TIME2000
    ensures Displayable(FromStr(s).value) && IsAscii(FromStr(s).value.nodeId)
    ensures Splittable(Display(FromStr(s).value)) && FromStr(Display(FromStr(s).value)) == FromStr(s)
  {
    DisplayThenParse(FromStr(s).value);
  }

  /** The printed form: eight lower-case base-36 digits, four ASCII bytes, four decimal digits. */
  predicate Canonical(s: seq<byte>) {
    |s| == 16 && CanonicalDigits(s[..8], 36) && IsAscii(s[8..12]) && CanonicalDigits(s[12..], 10)
  }

  /** A canonical id parses, and prints back to the same bytes. */
  lemma ParseThenDisplay(s: seq<byte>)
    requires Canonical(s)
    ensures Splittable(s) && FromStr(s).Ok? && Display(FromStr(s).value) == s
  {
    var time, node, counter := s[..8], s[8..12], s[12..];
    assert s == time + node + counter;
    ValueBound(time, 36);
    assert Pow(36, 8) == TIME_SPAN;
    ValueBound(counter, 10);
    assert Pow(10, 4) == 10000;
    FromStrRadixOfDigits(counter, 10, 0, U16_MAX);
    var a := FromStr(s).value;
    assert Since2000(a) == Value(time, 36);
    FixedDigitsOfValue(time, 36);
    AsciiNodeText(a.nodeId);
    DecimalLengthAtMost(a.counter, 4);
    FixedDigitsOfValue(counter, 10);
  }

  // The ids used by the crate's own tests, as bytes.
  const CONST_ID: seq<byte> := [56, 100, 104, 101, 109, 116, 57, 117, 97, 98, 99, 100, 48, 48, 48, 49]    // "8dhemt9uabcd0001"
  const TEST_ID_1: seq<byte> := [56, 100, 104, 101, 53, 122, 113, 105, 97, 98, 99, 100, 53, 50, 55, 51]  // "8dhe5zqiabcd5273"
  const TEST_ID_2: seq<byte> := [56, 101, 106, 105, 105, 100, 104, 53, 48, 109, 103, 100, 56, 50, 55, 49] // "8ejiidh50mgd8271"

  lemma ConstantIdDigits()
    ensures CONST_ID[..8] == [56, 100, 104, 101, 109, 116, 57, 117]
    ensures AllDigits(CONST_ID[..8], 36) && Value(CONST_ID[..8], 36) == 656263987122
  {
    var time := CONST_ID[..8];
    assert time == [56, 100, 104, 101, 109, 116, 57, 117];
    ValueStep([], 56, 36, 0, [56]);
    ValueStep([56], 100, 36, 8, [56, 100]);
    ValueStep([56, 100], 104, 36, 301, [56, 100, 104]);
    ValueStep([56, 100, 104], 101, 36, 10853, [56, 100, 104, 101]);
    ValueStep([56, 100, 104, 101], 109, 36, 390722, [56, 100, 104, 101, 109]);
    ValueStep([56, 100, 104, 101, 109], 116, 36, 14066014, [56, 100, 104, 101, 109, 116]);
    ValueStep([56, 100, 104, 101, 109, 116], 57, 36, 506376533, [56, 100, 104, 101, 109, 116, 57]);
    ValueStep([56, 100, 104, 101, 109, 116, 57], 117, 36, 18229555197, time);
  }

  lemma ConstantIdCounter(radix: nat)
    requires radix == 10 || radix == 36
    ensures FromStrRadix(CONST_ID[12..], radix, 0, U16_MAX) == Some(1)
  {
    ReadCounter(CONST_ID, radix, 1);
  }

  /** The four bytes after the node of a 16-byte id, read as a `u16` in `radix`. */
  lemma ReadCounter(s: seq<byte>, radix: nat, v: nat)
    requires 2 <= radix <= 36 && |s| == 16
    requires forall i :: 12 <= i < 16 ==> DigitValue(s[i], radix).Some?
    requires v == ((DigitValue(s[12], radix).value * radix + DigitValue(s[13], radix).value) * radix
      + DigitValue(s[14], radix).value) * radix + DigitValue(s[15], radix).value
    ensures FromStrRadix(s[12..], radix, 0, U16_MAX) == if v <= U16_MAX then Some(v) else None
  {
    var t := s[12..];
    ValueStep([], t[0], radix, 0, t[..1]);
    ValueStep(t[..1], t[1], radix, DigitValue(t[0], radix).value, t[..2]);
    ValueStep(t[..2], t[2], radix, Value(t[..2], radix), t[..3]);
    ValueStep(t[..3], t[3], radix, Value(t[..3], radix), t[..4]);
    assert t[..4] == t;
    FromStrRadixOfDigits(t, radix, 0, U16_MAX);
  }

  /** `test_deserialize_const`: the id parses to 1602948787122 ms with either parser. */
  lemma ConstantIdTimestamp()
    ensures Splittable(CONST_ID)
    ensures FromStr(CONST_ID) == Ok(Aidx(1602948787122, [97, 98, 99, 100], 1))
    ensures FromStrAsWritten(CONST_ID) == Ok(Aidx(1602948787122, [97, 98, 99, 100], 1))
  {
    assert CONST_ID[8..12] == [97, 98, 99, 100];
    ConstantIdDigits();
    ConstantIdCounter(10);
    ConstantIdCounter(36);
    FromStrOfParts(CONST_ID, 656263987122, 1);
    FromStrAsWrittenOfParts(CONST_ID, 656263987122, 1);
  }

  /**
   * `test_deserialize_serialize` and `test_deserialize_serialize2` fail with
   * the parser as written: "5273" and "8271" read in base 36 exceed `u16`.
   */
  lemma TestIdsRejectedAsWritten()
    ensures Splittable(TEST_ID_1) && FromStrAsWritten(TEST_ID_1).Err?
    ensures Splittable(TEST_ID_2) && FromStrAsWritten(TEST_ID_2).Err?
  {
    ReadCounter(TEST_ID_1, 36, 236127);
    ReadCounter(TEST_ID_2, 36, 376093);
  }

  /** With the corrected parser the first test id parses and prints back unchanged, as the test expects. */
  lemma TestId1RoundTrip()
    ensures Splittable(TEST_ID_1) && FromStr(TEST_ID_1).Ok? && Display(FromStr(TEST_ID_1).value) == TEST_ID_1
  {
    assert TEST_ID_1[..8] == [56, 100, 104, 101, 53, 122, 113, 105];
    assert TEST_ID_1[8..12] == [97, 98, 99, 100];
    assert TEST_ID_1[12..] == [53, 50, 55, 51];
    ParseThenDisplay(TEST_ID_1);
  }

  /** Likewise for the second test id. */
  lemma TestId2RoundTrip()
    ensures Splittable(TEST_ID_2) && FromStr(TEST_ID_2).Ok? && Display(FromStr(TEST_ID_2).value) == TEST_ID_2
  {
    assert TEST_ID_2[..8] == [56, 101, 106, 105, 105, 100, 104, 53];
    assert TEST_ID_2[8..12] == [48, 109, 103, 100];
    assert TEST_ID_2[12..] == [56, 50, 55, 49];
    ParseThenDisplay(TEST_ID_2);
  }

  /** An id whose node bytes are not ASCII: "00000000" + "éé" + "0000". */
  const NON_ASCII_ID: seq<byte> := [48, 48, 48, 48, 48, 48, 48, 48, 0xC3, 0xA9, 0xC3, 0xA9, 48, 48, 48, 48]
  const NON_ASCII_NODE: NodeId := [0xC3, 0xA9, 0xC3, 0xA9]
  /** `NON_ASCII_ID` printed back: "00000000" + "Ã©Ã©" + "0000". */
  const NON_ASCII_PRINTED: seq<byte> := [48, 48, 48, 48, 48, 48, 48, 48, 0xC3, 0x83, 0xC2, 0xA9, 0xC3, 0x83, 0xC2, 0xA9, 48, 48, 48, 48]
  /** `NON_ASCII_NODE` printed: "Ã©Ã©". */
  const NON_ASCII_TEXT: seq<byte> := [0xC3, 0x83, 0xC2, 0xA9, 0xC3, 0x83, 0xC2, 0xA9]
  /** What the parser as written makes of `NON_ASCII_ID`. */
  const NON_ASCII_AIDX: Aidx := Aidx(TIME2000, NON_ASCII_NODE, 0)

  const ZEROS_4: seq<byte> := [48, 48, 48, 48]
  const ZEROS_8: seq<byte> := [48, 48, 48, 48, 48, 48, 48, 48]

  /** Zero written in `w` digits is `w` zeros, and they read back as zero. */
  lemma ZeroDigits(radix: nat, w: nat)
    requires 2 <= radix <= 36
    ensures FixedDigits(0, radix, w) == seq(w, _ => ZERO)
    ensures AllDigits(FixedDigits(0, radix, w), radix) && Value(FixedDigits(0, radix, w), radix) == 0
  {
    FixedDigitsOfZero(radix, w);
    FixedDigitsValue(0, radix, w);
  }

  /** The non-ASCII id is accepted by the parser as written and refused by the corrected one. */
  lemma NonAsciiIdParses()
    ensures Splittable(NON_ASCII_ID)
    ensures FromStrAsWritten(NON_ASCII_ID) == Ok(NON_ASCII_AIDX)
    ensures FromStr(NON_ASCII_ID).Err?
  {
    assert NON_ASCII_ID[..8] == ZEROS_8 && NON_ASCII_ID[8..12] == NON_ASCII_NODE && NON_ASCII_ID[12..] == ZEROS_4;
    ZeroDigits(36, 8);
    ZeroDigits(36, 4);
    assert FixedDigits(0, 36, 8) == ZEROS_8 && FixedDigits(0, 36, 4) == ZEROS_4;
    FromStrRadixOfDigits(ZEROS_4, 36, 0, U16_MAX);
    FromStrAsWrittenOfParts(NON_ASCII_ID, 0, 0);
    assert NON_ASCII_ID[8..12][0] == 0xC3;
  }

  lemma NonAsciiNodeText()
    ensures EncodeLatin1(NodeIdToString(NON_ASCII_NODE)) == NON_ASCII_TEXT
  {
    var text := NodeIdToString(NON_ASCII_NODE);
    assert text == ['\U{C3}', '\U{A9}', '\U{C3}', '\U{A9}'];
    assert EncodeLatin1(text[4..]) == [];
    assert EncodeLatin1(text[3..]) == [0xC2, 0xA9];
    assert EncodeLatin1(text[2..]) == [0xC3, 0x83, 0xC2, 0xA9];
    assert EncodeLatin1(text[1..]) == [0xC2, 0xA9, 0xC3, 0x83, 0xC2, 0xA9];
  }

  lemma ZeroTexts()
    ensures FixedDigits(0, 36, 8) == ZEROS_8 && CounterText(0) == ZEROS_4
  {
    ZeroDigits(36, 8);
    ZeroDigits(10, 4);
    assert DecimalLength(0) == 1 && CounterWidth(0) == 4;
  }

  /** Printing that id writes each node byte as two bytes. */
  lemma NonAsciiIdPrinted(a: Aidx)
    requires a.timestamp == TIME2000 && a.nodeId == NON_ASCII_NODE && a.counter == 0
    ensures Display(a) == NON_ASCII_PRINTED
  {
    assert Since2000(a) == 0;
    NonAsciiNodeText();
    ZeroTexts();
    DisplayOfParts(a, ZEROS_8, NON_ASCII_TEXT, ZEROS_4);
    NonAsciiPrintedParts();
  }

  lemma NonAsciiPrintedParts()
    ensures ZEROS_8 + NON_ASCII_TEXT + ZEROS_4 == NON_ASCII_PRINTED
  {
  }

  lemma DisplayOfParts(a: Aidx, time: seq<byte>, text: seq<byte>, counter: seq<byte>)
    requires Displayable(a) && FixedDigits(Since2000(a), 36, TIME_LENGTH) == time
    requires EncodeLatin1(NodeIdToString(a.nodeId)) == text && CounterText(a.counter) == counter
    ensures Display(a) == time + text + counter
  {
  }

  /** The printed bytes do not parse: the counter part starts inside the node text. */
  lemma NonAsciiPrintedRejected()
    ensures Splittable(NON_ASCII_PRINTED) && FromStrAsWritten(NON_ASCII_PRINTED).Err?
  {
    var counter := NON_ASCII_PRINTED[12..];
    assert counter[0] == 0xC3;
    assert !AllDigits(counter, 36);
  }

  /**
   * The parser as written accepts node bytes that are not ASCII; printing
   * turns each such byte into a two-byte character, so the printed id is a
   * different, longer string that no longer parses.
   */
  lemma NonAsciiNodeNotPreserved()
    ensures Splittable(NON_ASCII_ID) && FromStrAsWritten(NON_ASCII_ID) == Ok(NON_ASCII_AIDX)
    ensures Display(NON_ASCII_AIDX) == NON_ASCII_PRINTED != NON_ASCII_ID
    ensures Splittable(NON_ASCII_PRINTED) && FromStrAsWritten(NON_ASCII_PRINTED).Err?
  {
    NonAsciiIdParses();
    NonAsciiIdPrinted(NON_ASCII_AIDX);
    NonAsciiPrintedRejected();
  }

  /** Where the printed node text sits: bytes 8 to 12 and on into the counter part. */
  lemma DisplayParts(a: Aidx)
    requires Displayable(a)
    ensures var e := EncodeLatin1(NodeIdToString(a.nodeId));
      && |e| == NODE_LENGTH + HighBytes(a.nodeId) && HighBytes(e) == 2 * HighBytes(a.nodeId)
      && Display(a)[8..12] == e[..4] && Display(a)[12..] == e[4..] + CounterText(a.counter)
  {
    var time, text := FixedDigits(Since2000(a), 36, TIME_LENGTH), NodeIdToString(a.nodeId);
    var e, c := EncodeLatin1(text), CounterText(a.counter);
    NonAsciiCountOfBytes(text, a.nodeId);
    EncodeLatin1HighBytes(text);
    assert Display(a) == time + e + c;
    ThreeParts(time, e, c);
  }

  lemma ThreeParts(time: seq<byte>, e: seq<byte>, c: seq<byte>)
    requires |time| == 8 && |e| >= 4
    ensures (time + e + c)[8..12] == e[..4] && (time + e + c)[12..] == e[4..] + c
  {
    assert time + e + c == time + (e[..4] + (e[4..] + c));
  }

  /**
   * Printing an id whose node bytes are not all ASCII never gives it back:
   * the printed string either cannot be split where the parser splits (the
   * parser panics), or the corrected parser refuses it and the parser as
   * written returns other node bytes.
   */
  lemma NonAsciiNodeNeverRoundTrips(a: Aidx)
    requires Displayable(a) && !IsAscii(a.nodeId)
    ensures Splittable(Display(a)) ==> FromStr(Display(a)).Err?
    ensures Splittable(Display(a)) && FromStrAsWritten(Display(a)).Ok? ==> FromStrAsWritten(Display(a)).value.nodeId != a.nodeId
  {
    var s, e := Display(a), EncodeLatin1(NodeIdToString(a.nodeId));
    DisplayParts(a);
    HighNodeTextSpills(a.nodeId, e);
    if Splittable(s) && FromStrAsWritten(s).Ok? {
      AsciiPrefix(e[4..], CounterText(a.counter));
    }
  }

  /**
   * The counting argument: a node with `k > 0` high bytes is written as
   * `4 + k` bytes holding `2k` high bytes, so the first four are not ASCII,
   * and if the rest are ASCII the first four hold all `2k` and differ from
   * the node.
   */
  lemma HighNodeTextSpills(node: seq<byte>, e: seq<byte>)
    requires !IsAscii(node) && |e| == NODE_LENGTH + HighBytes(node) && HighBytes(e) == 2 * HighBytes(node)
    ensures !IsAscii(e[..4])
    ensures IsAscii(e[4..]) ==> e[..4] != node
  {
    assert e == e[..4] + e[4..];
    HighBytesAppend(e[..4], e[4..]);
    HighBytesZero(node);
    HighBytesZero(e[..4]);
    HighBytesZero(e[4..]);
  }

  lemma AsciiPrefix(x: seq<byte>, y: seq<byte>)
    requires IsAscii(x + y)
    ensures IsAscii(x)
  {
    forall i | 0 <= i < |x| ensures x[i] < 0x80 {
      assert x[i] == (x + y)[i];
    }
  }

  /**
   * A node of three ASCII bytes then one that is not ("abc" then U+00E9):
   * the last byte's continuation byte lands at index 12, where the parser
   * splits, so parsing the printed id panics.
   */
  lemma LastNodeByteHighPanics(a: Aidx)
    requires Displayable(a) && IsAscii(a.nodeId[..3]) && a.nodeId[3] >= 0x80
    ensures !Splittable(Display(a))
  {
    var text := NodeIdToString(a.nodeId);
    var e := EncodeLatin1(text);
    assert 0x80 <= e[4] < 0xC0 by {
      EncodeLatin1Append(text[..3], text[3..]);
      assert text == text[..3] + text[3..];
      assert NonAsciiCount(text[..3]) == 0 by {
        NonAsciiCountOfBytes(text[..3], a.nodeId[..3]);
        HighBytesZero(a.nodeId[..3]);
      }
      assert EncodeLatin1(text[3..]) == Utf8Char(text[3]);
    }
    DisplayParts(a);
    assert Display(a)[12..][0] == e[4];
  }

  /**
   * Both parsers accept a signed time part, as `i64::from_str_radix` does:
   * "-" then seven digits is that many milliseconds before 2000. Such an id
   * prints with eight zeros in place of the signed time, so it does not
   * survive printing.
   */
  lemma SignedTimeBefore2000(s: seq<byte>)
    requires Splittable(s) && s[0] == MINUS && AllDigits(s[1..8], 36) && Value(s[1..8], 36) > 0
    ensures FromStrAsWritten(s).Ok? ==> FromStrAsWritten(s).value.timestamp == TIME2000 - Value(s[1..8], 36)
    ensures FromStr(s).Ok? ==> FromStr(s).value.timestamp == TIME2000 - Value(s[1..8], 36)
    ensures FromStr(s).Ok? ==> Displayable(FromStr(s).value) && Display(FromStr(s).value)[..8] == ZEROS_8 != s[..8]
  {
    if FromStr(s).Ok? {
      var a := FromStr(s).value;
      ValueBound(s[1..8], 36);
      assert Pow(36, 7) == 78364164096;
      assert Since2000(a) == 0;
      ZeroTexts();
      assert Display(a)[..8] == FixedDigits(0, 36, 8);
    }
  }

  /** Node "éé00": printed as "Ã©Ã©00", whose last two bytes are digits. */
  const MISREAD_NODE: NodeId := [0xE9, 0xE9, 48, 48]
  const MISREAD_TEXT: seq<byte> := [0xC3, 0xA9, 0xC3, 0xA9, 48, 48]
  const MISREAD_PRINTED: seq<byte> := [48, 48, 48, 48, 48, 48, 48, 48, 0xC3, 0xA9, 0xC3, 0xA9, 48, 48, 48, 48, 48, 48]
  const ZEROS_6: seq<byte> := [48, 48, 48, 48, 48, 48]

  lemma MisreadNodeText()
    ensures EncodeLatin1(NodeIdToString(MISREAD_NODE)) == MISREAD_TEXT
  {
    var text := NodeIdToString(MISREAD_NODE);
    assert text == ['\U{E9}', '\U{E9}', '0', '0'];
    assert EncodeLatin1(text[4..]) == [];
    assert EncodeLatin1(text[3..]) == [48];
    assert EncodeLatin1(text[2..]) == [48, 48];
    assert EncodeLatin1(text[1..]) == [0xC3, 0xA9, 48, 48];
  }

  lemma MisreadPrintedParts()
    ensures ZEROS_8 + MISREAD_TEXT + ZEROS_4 == MISREAD_PRINTED
    ensures MISREAD_PRINTED[..8] == ZEROS_8 && MISREAD_PRINTED[8..12] == [0xC3, 0xA9, 0xC3, 0xA9] && MISREAD_PRINTED[12..] == ZEROS_6
  {
  }

  /** Node "éé00" with time 2000 and counter 0 prints as "00000000Ã©Ã©000000". */
  lemma MisreadIdPrinted(a: Aidx)
    requires a.timestamp == TIME2000 && a.nodeId == MISREAD_NODE && a.counter == 0
    ensures Display(a) == MISREAD_PRINTED
  {
    assert Since2000(a) == 0;
    MisreadNodeText();
    ZeroTexts();
    DisplayOfParts(a, ZEROS_8, MISREAD_TEXT, ZEROS_4);
    MisreadPrintedParts();
  }

  /**
   * The parser as written accepts those bytes and returns another id, with
   * node bytes C3 A9 C3 A9 and counter "000000", and no error; the corrected
   * parser refuses them.
   */
  lemma MisreadPrintedParses()
    ensures Splittable(MISREAD_PRINTED)
    ensures FromStrAsWritten(MISREAD_PRINTED) == Ok(Aidx(TIME2000, [0xC3, 0xA9, 0xC3, 0xA9], 0))
    ensures FromStr(MISREAD_PRINTED).Err?
  {
    MisreadPrintedParts();
    ZeroDigits(36, 8);
    ZeroDigits(36, 6);
    assert FixedDigits(0, 36, 8) == ZEROS_8 && FixedDigits(0, 36, 6) == ZEROS_6;
    FromStrRadixOfDigits(ZEROS_6, 36, 0, U16_MAX);
    FromStrAsWrittenOfParts(MISREAD_PRINTED, 0, 0);
    assert MISREAD_PRINTED[8..12][0] == 0xC3;
  }

  /** Counter 10 prints as "0010". */
  lemma CounterTenText()
    ensures CounterText(10) == [48, 48, 49, 48]
  {
    assert DecimalLength(10) == 2;
    assert Pow(10, 3) == 1000 && Pow(10, 2) == 100 && Pow(10, 1) == 10 && Pow(10, 0) == 1;
  }

  /** "0010" read in base 36 is 36. */
  lemma CounterTenInBase36()
    ensures AllDigits([48, 48, 49, 48], 36) && Value([48, 48, 49, 48], 36) == 36
  {
    ValueStep([], 48, 36, 0, [48]);
    ValueStep([48], 48, 36, 0, [48, 48]);
    ValueStep([48, 48], 49, 36, 0, [48, 48, 49]);
    ValueStep([48, 48, 49], 48, 36, 1, [48, 48, 49, 48]);
  }

  /** Counter 10 prints as "0010", which the parser as written reads back as 36. */
  lemma CounterTenReadAs36(a: Aidx)
    requires Displayable(a) && IsAscii(a.nodeId) && a.counter == 10
    ensures Splittable(Display(a)) && Display(a)[12..] == [48, 48, 49, 48]
    ensures FromStrAsWritten(Display(a)) == Ok(Aidx(TIME2000 + Since2000(a) % TIME_SPAN, a.nodeId, 36))
  {
    DisplayedFields(a);
    CounterTextOfTen(a.counter);
    ReadBackCounterTen(Display(a), Since2000(a) % TIME_SPAN);
  }

  lemma CounterTextOfTen(c: u16)
    requires c == 10
    ensures CounterText(c) == [48, 48, 49, 48]
  {
    CounterTenText();
  }

  lemma ReadBackCounterTen(s: seq<byte>, t: int)
    requires Splittable(s) && TimePart(s) == Some(t) && s[12..] == [48, 48, 49, 48]
    ensures FromStrAsWritten(s) == Ok(Aidx(TIME2000 + t, s[8..12], 36))
  {
    CounterTenInBase36();
    FromStrRadixOfDigits([48, 48, 49, 48], 36, 0, U16_MAX);
    FromStrAsWrittenOfParts(s, t, 36);
  }

  /** `derive(Ord)` on `[u8; 4]`: lexicographic order on bytes, which is irreflexive. */
  predicate BytesLess(x: seq<byte>, y: seq<byte>)
    ensures BytesLess(x, y) ==> x != y
  {
    if x == [] then y != []
    else if y == [] then false
    else x[0] < y[0] || (x[0] == y[0] && BytesLess(x[1..], y[1..]))
  }

  /**
   * `derive(Ord)` on `Aidx`: by timestamp, then node bytes, then counter.
   * An earlier timestamp decides, whatever the node and counter.
   */
  predicate Less(a: Aidx, b: Aidx)
    ensures a.timestamp < b.timestamp ==> Less(a, b)
    ensures Less(a, b) ==> a.timestamp <= b.timestamp && a != b
  {
    a.timestamp < b.timestamp
    || (a.timestamp == b.timestamp && (BytesLess(a.nodeId, b.nodeId) || (a.nodeId == b.nodeId && a.counter < b.counter)))
  }

  /** On byte strings of one length, `BytesLess` holds exactly when the first differing byte is smaller. */
  lemma {:induction false} BytesLessFirstDifference(x: seq<byte>, y: seq<byte>)
    requires |x| == |y|
    ensures BytesLess(x, y) <==> exists i :: 0 <= i < |x| && x[..i] == y[..i] && x[i] < y[i]
  {
    if x != [] {
      BytesLessFirstDifference(x[1..], y[1..]);
      if BytesLess(x, y) {
        if x[0] < y[0] {
          assert x[..0] == y[..0];
        } else {
          var j :| 0 <= j < |x| - 1 && x[1..][..j] == y[1..][..j] && x[1..][j] < y[1..][j];
          assert x[..j + 1] == [x[0]] + x[1..][..j] && y[..j + 1] == [y[0]] + y[1..][..j];
          assert x[j + 1] < y[j + 1];
        }
      }
      if exists i :: 0 <= i < |x| && x[..i] == y[..i] && x[i] < y[i] {
        var i :| 0 <= i < |x| && x[..i] == y[..i] && x[i] < y[i];
        if i > 0 {
          assert x[0] == x[..i][0] == y[..i][0] == y[0];
          assert x[1..][..i - 1] == x[..i][1..] == y[..i][1..] == y[1..][..i - 1];
          assert x[1..][i - 1] < y[1..][i - 1];
        }
      }
    }
  }

  lemma {:induction false} BytesLessTransitive(x: seq<byte>, y: seq<byte>, z: seq<byte>)
    requires BytesLess(x, y) && BytesLess(y, z)
    ensures BytesLess(x, z)
  {
    if x != [] && x[0] == y[0] && y[0] == z[0] {
      BytesLessTransitive(x[1..], y[1..], z[1..]);
    }
  }

  lemma {:induction false} BytesLessTotal(x: seq<byte>, y: seq<byte>)
    ensures x == y || BytesLess(x, y) || BytesLess(y, x)
  {
    if x != [] && y != [] && x[0] == y[0] {
      BytesLessTotal(x[1..], y[1..]);
      if x[1..] == y[1..] {
        assert x == [x[0]] + x[1..] && y == [y[0]] + y[1..];
      }
    }
  }

  lemma {:induction false} BytesLessAsymmetric(x: seq<byte>, y: seq<byte>)
    requires BytesLess(x, y)
    ensures !BytesLess(y, x)
  {
    if x != [] && x[0] == y[0] {
      BytesLessAsymmetric(x[1..], y[1..]);
    }
  }

  /** The derived order on ids is a strict total order. */
  lemma LessIsStrictTotalOrder(a: Aidx, b: Aidx, c: Aidx)
    ensures !Less(a, a)
    ensures Less(a, b) ==> !Less(b, a)
    ensures Less(a, b) && Less(b, c) ==> Less(a, c)
    ensures a == b || Less(a, b) || Less(b, a)
  {
    if Less(a, b) && BytesLess(a.nodeId, b.nodeId) {
      BytesLessAsymmetric(a.nodeId, b.nodeId);
    }
    if Less(a, b) && Less(b, c) && BytesLess(a.nodeId, b.nodeId) && BytesLess(b.nodeId, c.nodeId) {
      BytesLessTransitive(a.nodeId, b.nodeId, c.nodeId);
    }
    BytesLessTotal(a.nodeId, b.nodeId);
  }
}
