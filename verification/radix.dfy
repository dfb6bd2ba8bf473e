/**
 * The parts of Rust's standard library that the AIDX codec relies on:
 * `char::to_digit` and `char::from_digit`, `from_str_radix` for a bounded
 * integer type, and writing the `w` lowest digits of a number, most
 * significant first. Strings are their UTF-8 bytes, as Rust's `&str` is.
 */
module Radix {
  import opened Wrappers

  /** One byte of a UTF-8 encoded string. */
  type byte = x: int | 0 <= x < 256

  const ZERO: byte := '0' as int
  const LOWER_A: byte := 'a' as int
  const UPPER_A: byte := 'A' as int
  const PLUS: byte := '+' as int
  const MINUS: byte := '-' as int

  function Pow(b: nat, n: nat): (r: nat)
    ensures b > 0 ==> r > 0
  {
    if n == 0 then 1 else b * Pow(b, n - 1)
  }

  /** `char::to_digit(radix)` on one byte: digits, then letters of either case. */
  function DigitValue(c: byte, radix: nat): (r: Option<nat>)
    requires 2 <= radix <= 36
    ensures r.Some? ==> r.value < radix
  {
    if ZERO <= c <= ZERO + 9 && c - ZERO < radix then Some(c - ZERO)
    else if LOWER_A <= c < LOWER_A + 26 && c - LOWER_A + 10 < radix then Some(c - LOWER_A + 10)
    else if UPPER_A <= c < UPPER_A + 26 && c - UPPER_A + 10 < radix then Some(c - UPPER_A + 10)
    else None
  }

  /** `str::is_ascii`. */
  predicate IsAscii(s: seq<byte>) {
    forall i :: 0 <= i < |s| ==> s[i] < 0x80
  }

  predicate AllDigits(s: seq<byte>, radix: nat)
    requires 2 <= radix <= 36
  {
    forall i :: 0 <= i < |s| ==> DigitValue(s[i], radix).Some?
  }

  /** `char::from_digit(d, 36)`: the lower-case digit for `d`. */
  function DigitChar(d: nat): (c: byte)
    requires d < 36
    ensures forall radix :: 2 <= radix <= 36 && d < radix ==> DigitValue(c, radix) == Some(d)
  {
    if d < 10 then ZERO + d else LOWER_A + (d - 10)
  }

  /** Digits that `from_digit` could have written: no upper-case letters. */
  predicate CanonicalDigits(s: seq<byte>, radix: nat)
    requires 2 <= radix <= 36
  {
    forall i :: 0 <= i < |s| ==>
      DigitValue(s[i], radix).Some? && DigitChar(DigitValue(s[i], radix).value) == s[i]
  }

  /** The number a digit string denotes, most significant digit first. */
  function Value(s: seq<byte>, radix: nat): nat
    requires 2 <= radix <= 36 && AllDigits(s, radix)
  {
    if s == [] then 0
    else
      var init := s[..|s| - 1];
      assert forall i :: 0 <= i < |init| ==> init[i] == s[i];
      var v := Value(init, radix);
      MulMonotone(0, v, radix);
      v * radix + DigitValue(s[|s| - 1], radix).value
  }

  /**
   * The `w` lowest base-`radix` digits of `x`, most significant first; digit
   * `i` from the right is `x / radix^i % radix`.
   */
  function FixedDigits(x: nat, radix: nat, w: nat): (r: seq<byte>)
    requires 2 <= radix <= 36
    ensures |r| == w && CanonicalDigits(r, radix)
  {
    if w == 0 then [] else [DigitChar(x / Pow(radix, w - 1) % radix)] + FixedDigits(x, radix, w - 1)
  }

  /**
   * `from_str_radix` for an integer type whose values are `lo..=hi`: an
   * optional `+` (and `-` when the type is signed, `lo < 0`), then one or
   * more digits. Every error (empty, bad digit, overflow) is `None`.
   */
  function FromStrRadix(s: seq<byte>, radix: nat, lo: int, hi: int): (r: Option<int>)
    requires 2 <= radix <= 36
    ensures r.Some? ==> lo <= r.value <= hi && |s| > 0 && IsAscii(s)
  {
    if |s| == 0 then None
    else if (s[0] == PLUS || s[0] == MINUS) && |s| == 1 then None
    else
      var negative := s[0] == MINUS && lo < 0;
      var digits := if s[0] == PLUS || negative then s[1..] else s;
      if !AllDigits(digits, radix) then None
      else
        var v: int := if negative then -(Value(digits, radix) as int) else Value(digits, radix);
        if lo <= v <= hi then Some(v) else None
  }

  /**
   * Anything but an optional sign followed by digits is refused, and so is
   * `-` for an unsigned type.
   */
  lemma FromStrRadixShape(s: seq<byte>, radix: nat, lo: int, hi: int)
    requires 2 <= radix <= 36
    ensures FromStrRadix(s, radix, lo, hi).Some? ==>
      AllDigits(s, radix) || (|s| > 1 && (s[0] == PLUS || (s[0] == MINUS && lo < 0)) && AllDigits(s[1..], radix))
  {
  }

  /** A string of bare digits parses to its value exactly when that value fits. */
  lemma FromStrRadixOfDigits(s: seq<byte>, radix: nat, lo: int, hi: int)
    requires 2 <= radix <= 36 && lo <= 0
    requires |s| > 0 && AllDigits(s, radix)
    ensures FromStrRadix(s, radix, lo, hi) == if Value(s, radix) <= hi then Some(Value(s, radix)) else None
  {
    assert DigitValue(s[0], radix).Some?;
  }

  /**
   * A sign then digits: `+` is always accepted, `-` only by a signed type
   * (`lo < 0`), and either way the value must still fit.
   */
  lemma FromStrRadixSigned(s: seq<byte>, radix: nat, lo: int, hi: int)
    requires 2 <= radix <= 36 && lo <= 0
    requires |s| > 1 && (s[0] == PLUS || s[0] == MINUS) && AllDigits(s[1..], radix)
    ensures var v: int := Value(s[1..], radix);
      && (s[0] == PLUS ==> FromStrRadix(s, radix, lo, hi) == if v <= hi then Some(v) else None)
      && (s[0] == MINUS && lo < 0 ==> FromStrRadix(s, radix, lo, hi) == if lo <= -v <= hi then Some(-v) else None)
      && (s[0] == MINUS && lo == 0 ==> FromStrRadix(s, radix, lo, hi) == None)
  {
    if s[0] == MINUS && lo == 0 {
      assert DigitValue(s[0], radix).None?;
    }
  }

  lemma {:induction false} MulAtLeast(k: int, m: int)
    requires k >= 1 && m > 0
    ensures k * m >= m
  {
    if k > 1 {
      MulAtLeast(k - 1, m);
      assert k * m == (k - 1) * m + m;
    }
  }

  lemma DivModUnique(x: int, m: int, q: int, r: int)
    requires m > 0 && 0 <= r < m && x == q * m + r
    ensures x / m == q && x % m == r
  {
    var q0, r0 := x / m, x % m;
    assert x == q0 * m + r0;
    assert (q - q0) * m == r0 - r;
    if q0 < q {
      MulAtLeast(q - q0, m);
    } else if q < q0 {
      MulAtLeast(q0 - q, m);
    }
  }

  lemma {:induction false} MulMonotone(a: int, b: int, c: nat)
    requires a <= b
    ensures a * c <= b * c
  {
    if c > 0 {
      MulMonotone(a, b, c - 1);
      assert a * c == a * (c - 1) + a && b * c == b * (c - 1) + b;
    }
  }

  lemma AppendDigitBound(v: nat, d: nat, q: nat, radix: nat)
    requires v < q && d < radix
    ensures v * radix + d < radix * q
  {
    MulMonotone(v, q - 1, radix);
    assert (q - 1) * radix == radix * q - radix;
  }

  /** A string of `n` digits denotes less than `radix^n`. */
  lemma {:induction false} ValueBound(s: seq<byte>, radix: nat)
    requires 2 <= radix <= 36 && AllDigits(s, radix)
    ensures Value(s, radix) < Pow(radix, |s|)
  {
    if s != [] {
      var p := s[..|s| - 1];
      ValueBound(p, radix);
      var v, d, q := Value(p, radix), DigitValue(s[|s| - 1], radix).value, Pow(radix, |p|);
      assert Value(s, radix) == v * radix + d;
      assert Pow(radix, |s|) == radix * q;
      AppendDigitBound(v, d, q, radix);
    }
  }

  lemma Distribute(q: int, p: int, t: int, b: int, r: int)
    ensures (q * p + t) * b + r == q * (b * p) + (t * b + r)
  {
  }

  /** Peeling the lowest digit: `x` divided and reduced by `b * p` in terms of `x / b`. */
  lemma DivModSplit(x: nat, b: nat, p: nat)
    requires b > 0 && p > 0
    ensures x / (b * p) == x / b / p
    ensures x % (b * p) == x / b % p * b + x % b
  {
    var y, r := x / b, x % b;
    var q, t := y / p, y % p;
    assert x == y * b + r;
    assert y == q * p + t;
    assert x == q * (b * p) + (t * b + r) by {
      Distribute(q, p, t, b, r);
    }
    assert t * b + r < b * p by {
      AppendDigitBound(t, r, p, b);
    }
    DivModUnique(x, b * p, q, t * b + r);
  }

  /** Equivalently, `FixedDigits` writes the higher digits, then `x % radix`. */
  lemma {:induction false} FixedDigitsSnoc(x: nat, radix: nat, w: nat)
    requires 2 <= radix <= 36 && w >= 1
    ensures FixedDigits(x, radix, w) == FixedDigits(x / radix, radix, w - 1) + [DigitChar(x % radix)]
  {
    if w > 1 {
      FixedDigitsSnoc(x, radix, w - 1);
      DivModSplit(x, radix, Pow(radix, w - 2));
    }
  }

  lemma ValueSnoc(s: seq<byte>, c: byte, radix: nat)
    requires 2 <= radix <= 36 && AllDigits(s, radix) && DigitValue(c, radix).Some?
    ensures AllDigits(s + [c], radix)
    ensures Value(s + [c], radix) == Value(s, radix) * radix + DigitValue(c, radix).value
  {
    assert (s + [c])[..|s|] == s;
  }

  /** One step of reading digits left to right, with the longer string named (for concrete strings). */
  lemma ValueStep(s: seq<byte>, c: byte, radix: nat, v: nat, t: seq<byte>)
    requires 2 <= radix <= 36 && AllDigits(s, radix) && DigitValue(c, radix).Some?
    requires Value(s, radix) == v && t == s + [c]
    ensures AllDigits(t, radix) && Value(t, radix) == v * radix + DigitValue(c, radix).value
  {
    ValueSnoc(s, c, radix);
  }

  /** Writing `w` digits keeps the value of `x` modulo `radix^w`. */
  lemma {:induction false} FixedDigitsValue(x: nat, radix: nat, w: nat)
    requires 2 <= radix <= 36
    ensures Value(FixedDigits(x, radix, w), radix) == x % Pow(radix, w)
    decreases w
  {
    if w > 0 {
      var y: nat, d, p := x / radix, x % radix, Pow(radix, w - 1);
      var high := FixedDigits(y, radix, w - 1);
      assert FixedDigits(x, radix, w) == high + [DigitChar(d)] by {
        FixedDigitsSnoc(x, radix, w);
      }
      assert Value(high, radix) == y % p by {
        FixedDigitsValue(y, radix, w - 1);
      }
      assert Value(high + [DigitChar(d)], radix) == Value(high, radix) * radix + d by {
        ValueSnoc(high, DigitChar(d), radix);
      }
      assert y % p * radix + d == x % Pow(radix, w) by {
        DivModSplit(x, radix, p);
        assert Pow(radix, w) == radix * p;
      }
    }
  }

  /** Reading canonical digits and writing them back at the same width is the identity. */
  lemma {:induction false} FixedDigitsOfValue(s: seq<byte>, radix: nat)
    requires 2 <= radix <= 36 && CanonicalDigits(s, radix)
    ensures FixedDigits(Value(s, radix), radix, |s|) == s
  {
    if s != [] {
      var p, c := s[..|s| - 1], s[|s| - 1];
      assert s == p + [c];
      var d := DigitValue(c, radix).value;
      DivModUnique(Value(s, radix), radix, Value(p, radix), d);
      FixedDigitsSnoc(Value(s, radix), radix, |s|);
      FixedDigitsOfValue(p, radix);
    }
  }

  /**
   * A string of decimal digits read in base 36 is never smaller than its
   * decimal value, and both are zero together.
   */
  lemma {:induction false} DecimalInBase36Bound(s: seq<byte>)
    requires AllDigits(s, 10)
    ensures AllDigits(s, 36)
    ensures Value(s, 36) >= Value(s, 10)
    ensures Value(s, 36) == 0 <==> Value(s, 10) == 0
  {
    if s != [] {
      DecimalInBase36Bound(s[..|s| - 1]);
    }
  }

  /**
   * A decimal digit string means the same in base 36 exactly when every
   * digit but the last is zero, that is when its decimal value is below 10.
   */
  lemma DecimalInBase36(s: seq<byte>)
    requires |s| > 0 && AllDigits(s, 10)
    ensures AllDigits(s, 36)
    ensures Value(s, 36) == Value(s, 10) <==> Value(s, 10) < 10
  {
    DecimalInBase36Bound(s);
    DecimalInBase36Bound(s[..|s| - 1]);
  }
}
