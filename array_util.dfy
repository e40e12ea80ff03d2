/**
 * util/ArrayUtil: `parseInt` over a range of a char array, `copyOfSubArray`
 * and the unsigned byte-window comparators.
 *
 * `parse` accumulates the NEGATED value, so that Integer.MIN_VALUE, whose
 * magnitude has no positive int, is still reachable; the int arithmetic of
 * `result * radix - digit` wraps, and the model writes that wrap out.  The
 * meaning of a parse is given independently by `Parsed`, the value of the
 * digit string in the radix.
 */
module ArrayUtil {
  import opened Java
  import opened BitUtils

  const MIN_RADIX := 2    // Character.MIN_RADIX
  const MAX_RADIX := 36   // Character.MAX_RADIX

  // ---------------------------------------------------------------------
  // Digits.

  /**
   * `Character.digit(c, radix)` on ASCII: '0'..'9' are 0..9, the letters
   * 'a'..'z' and 'A'..'Z' are 10..35; a value not below the radix, or any
   * other character, gives -1.
   */
  function Digit(c: char, radix: int): (d: int)
    ensures -1 <= d < 36 && (d >= 0 ==> d < radix)
    ensures d >= 0 ==> ('0' <= c <= '9' || 'a' <= c <= 'z' || 'A' <= c <= 'Z')
  {
    var v :=
      if '0' <= c <= '9' then c as int - '0' as int
      else if 'a' <= c <= 'z' then c as int - 'a' as int + 10
      else if 'A' <= c <= 'Z' then c as int - 'A' as int + 10
      else -1;
    if v < radix then v else -1
  }

  /** Every character is a digit in the radix. */
  predicate IsDigits(s: seq<char>, radix: int) {
    forall k :: 0 <= k < |s| ==> Digit(s[k], radix) >= 0
  }

  /**
   * `v * k` as `k` additions of `v`: the value of a digit string is written
   * with it, so that unfolding that value never puts a product of two
   * unknowns in front of the verifier.
   */
  function Times(v: int, k: nat): (r: int)
    ensures v >= 0 ==> r >= 0
  {
    if k == 0 then 0 else Times(v, k - 1) + v
  }

  lemma {:induction false} TimesMul(v: int, k: nat)
    ensures Times(v, k) == v * k
  {
    if k > 0 {
      TimesMul(v, k - 1);
    }
  }

  /** The value of a digit string, most significant digit first. */
  function DigitsValue(s: seq<char>, radix: int): nat
    requires MIN_RADIX <= radix <= MAX_RADIX && IsDigits(s, radix)
  {
    if s == [] then 0
    else
      Times(DigitsValue(s[..|s| - 1], radix), radix) + Digit(s[|s| - 1], radix)
  }

  /** A longer digit string is worth at least as much as its prefix. */
  lemma {:induction false} DigitsValuePrefix(s: seq<char>, radix: int, k: nat)
    requires MIN_RADIX <= radix <= MAX_RADIX && IsDigits(s, radix) && k <= |s|
    ensures IsDigits(s[..k], radix) && DigitsValue(s[..k], radix) <= DigitsValue(s, radix)
  {
    assert forall j :: 0 <= j < k ==> s[..k][j] == s[j];
    if k == |s| {
      assert s[..k] == s;
    } else {
      var init := s[..|s| - 1];
      assert init[..k] == s[..k];
      DigitsValuePrefix(init, radix, k);
      var v := DigitsValue(init, radix);
      assert Times(v, radix) >= v by { TimesMul(v, radix); MulMono(v, 1, radix); }
    }
  }

  // ---------------------------------------------------------------------
  // What a parse means.

  /** The int a digit string denotes, with or without a leading sign, when there is one. */
  function ParsedDigits(s: seq<char>, radix: int, negative: bool): Result<int32>
    requires MIN_RADIX <= radix <= MAX_RADIX
  {
    if !IsDigits(s, radix) then Err(NumberFormatException)
    else
      var v := DigitsValue(s, radix);
      if negative then (if v <= TWO_31 then Ok(-(v as int)) else Err(NumberFormatException))
      else (if v < TWO_31 then Ok(v) else Err(NumberFormatException))
  }

  /** The int the characters denote: an optional '-' and at least one digit. */
  function Parsed(s: seq<char>, radix: int): Result<int32>
    requires MIN_RADIX <= radix <= MAX_RADIX
  {
    if s == [] then Err(NumberFormatException)
    else if s[0] == '-' then
      (if |s| == 1 then Err(NumberFormatException) else ParsedDigits(s[1..], radix, true))
    else ParsedDigits(s, radix, false)
  }

  /** Java's `/` on ints, which truncates toward zero (Dafny's rounds toward minus infinity). */
  function TruncDiv(a: int, b: int): (q: int)
    requires b > 0
    ensures a >= 0 ==> q == a / b
    ensures a < 0 ==> q == -((-a) / b)
  {
    if a >= 0 then a / b else -((-a) / b)
  }

  /**
   * The guard `max > result` of `parse`, on the accumulated `result = -p`
   * and the magnitude `x = p * radix + d` after the next digit: it rejects
   * only when `x` leaves [0, 2^31].
   */
  lemma AccumulateGuard(p: int, radix: int, d: int, x: int)
    requires MIN_RADIX <= radix <= MAX_RADIX && 0 <= d < radix && 0 <= p && x == p * radix + d
    ensures TruncDiv(-TWO_31, radix) > -p ==> x > TWO_31
  {
    var m := TWO_31 / radix;
    assert TruncDiv(-TWO_31, radix) == -m;
    if p > m {
      MulLe(m + 1, p, radix);
      assert (m + 1) * radix == m * radix + radix;
      assert TWO_31 < m * radix + radix by { Euclid(TWO_31, radix); }
    }
  }

  /** Past the guard, `x` exceeds 2^31 by less than a digit, and is at least `p`. */
  lemma AccumulateBound(p: int, radix: int, d: int, x: int)
    requires MIN_RADIX <= radix <= MAX_RADIX && 0 <= d < radix && 0 <= p && x == p * radix + d
    requires TruncDiv(-TWO_31, radix) <= -p
    ensures p <= x < TWO_31 + MAX_RADIX
  {
    var m := TWO_31 / radix;
    assert TruncDiv(-TWO_31, radix) == -m;
    MulLe(p, m, radix);
    MulLe(1, radix, p);
    Euclid(TWO_31, radix);
  }

  lemma MulLe(a: int, b: int, c: int)
    requires 0 <= a <= b && 0 <= c
    ensures a * c <= b * c
  {
    assert b * c == a * c + (b - a) * c;
  }

  lemma Euclid(n: int, radix: int)
    requires radix > 0
    ensures n / radix * radix <= n < n / radix * radix + radix
  {
  }

  /** `result * radix - digit` is the negated magnitude after the digit. */
  lemma NegatedProduct(result: int, p: int, radix: int, d: int, x: int)
    requires result == -p && x == p * radix + d
    ensures result * radix - d == -x
  {
  }

  /** The int wrap of a negative value just below Integer.MIN_VALUE. */
  lemma WrapNegative(x: int)
    requires 0 <= x < TWO_31 + MAX_RADIX
    ensures Wrap32(-x) == if x <= TWO_31 then -x else -x + TWO_32
  {
    if x > TWO_31 {
      DivUnique(-x + TWO_31, TWO_32, -1, -x + TWO_31 + TWO_32);
    }
  }

  // ---------------------------------------------------------------------
  // parseInt and parse.

  /**
   * `parse(chars, offset, len, radix, negative)`: the digits of
   * `chars[offset .. offset + len)`, negated when `negative`.  Each step
   * reads `chars[i + offset]` first, so an index outside the array throws
   * before the digit is checked.
   */
  method Parse(chars: seq<char>, offset: int32, len: int32, radix: int32, negative: bool)
    returns (r: Result<int32>)
    requires |chars| < TWO_31 && MIN_RADIX <= radix <= MAX_RADIX
    ensures len <= 0 ==> r == Ok(0)
    ensures len > 0 && 0 <= offset && offset + len <= |chars| ==>
      r == ParsedDigits(chars[offset..offset + len], radix, negative)
    ensures len > 0 && !(0 <= offset && offset + len <= |chars|) ==> r.Err?
  {
    ghost var digits;
    r, digits := Accumulation(chars, offset, len, radix);
    if r.Ok? {
      r := ApplySign(r.value, negative, DigitsValue(digits, radix));
    }
  }

  /**
   * What the loop of `parse` leaves in `result`: minus the value of the
   * digits, as long as that fits in an int.
   */
  function Accumulated(s: seq<char>, radix: int): (r: Result<int32>)
    requires MIN_RADIX <= radix <= MAX_RADIX
    ensures r.Ok? <==> IsDigits(s, radix) && DigitsValue(s, radix) <= TWO_31
    ensures r.Err? ==> r.error == NumberFormatException
    ensures r.Ok? ==> r.value + DigitsValue(s, radix) == 0
  {
    if IsDigits(s, radix) && DigitsValue(s, radix) <= TWO_31 then Ok(-(DigitsValue(s, radix) as int))
    else Err(NumberFormatException)
  }

  /**
   * The loop of `parse`: it folds each character into `result`, stopping at
   * the first failure.  `digits` is what has been folded in.
   */
  method Accumulation(chars: seq<char>, offset: int32, len: int32, radix: int32)
    returns (r: Result<int32>, ghost digits: seq<char>)
    requires |chars| < TWO_31 && MIN_RADIX <= radix <= MAX_RADIX
    ensures len <= 0 ==> r == Ok(0)
    ensures len > 0 && 0 <= offset && offset + len <= |chars| ==>
      r == Accumulated(chars[offset..offset + len], radix)
    ensures len > 0 && !(0 <= offset && offset + len <= |chars|) ==> r.Err?
    ensures r.Ok? ==> IsDigits(digits, radix) && r.value + DigitsValue(digits, radix) == 0
  {
    var result: int32 := 0;
    var i: int := 0;
    digits := [];
    r := Ok(0);
    while i < len
      invariant 0 <= i <= if len > 0 then len else 0
      invariant i > 0 ==> 0 <= offset && offset + i <= |chars| && digits == chars[offset..offset + i]
      invariant |digits| == i
      invariant r == Ok(result) == Accumulated(digits, radix)
    {
      // i + offset cannot wrap: after a first read, offset >= 0 and offset + i <= |chars|
      var index: int32 := i + offset;
      var next := ParseStep(chars, index, radix, result, digits);
      if next.Err? {
        if 0 <= index < |chars| {
          SliceSnoc(chars, offset, index);
          PrefixRejected(chars, offset, len, radix, digits + [chars[index]]);
        }
        return next, digits;
      }
      SliceSnoc(chars, offset, index);
      result := next.value;
      digits := digits + [chars[index]];
      r := next;
      i := i + 1;
    }
  }

  /**
   * The end of `parse`: a positive result is the negation of the
   * accumulated one, in int arithmetic, so a magnitude of 2^31 comes back
   * negative and is rejected.
   */
  method ApplySign(result: int32, negative: bool, ghost v: int) returns (r: Result<int32>)
    requires 0 <= v <= TWO_31 && result == -v
    ensures negative ==> r == Ok(-v)
    ensures !negative ==> r == if v < TWO_31 then Ok(v) else Err(NumberFormatException)
  {
    var value := result;
    if !negative {
      value := Wrap32(-(result as int));
      if value < 0 {
        return Err(NumberFormatException);
      }
    }
    return Ok(value);
  }

  lemma SliceSnoc(s: seq<char>, lo: int, hi: int)
    requires 0 <= lo <= hi < |s|
    ensures s[lo..hi] + [s[hi]] == s[lo..hi + 1]
  {
  }

  /**
   * One iteration of the loop of `parse`: read `chars[index]`, take its
   * digit, and fold it into `result = -DigitsValue(digits)`.
   */
  method ParseStep(chars: seq<char>, index: int, radix: int32, result: int32, ghost digits: seq<char>)
    returns (next: Result<int32>)
    requires MIN_RADIX <= radix <= MAX_RADIX
    requires Ok(result) == Accumulated(digits, radix)
    ensures !(0 <= index < |chars|) ==> next == Err(IndexOutOfBoundsException)
    ensures 0 <= index < |chars| ==> next == Accumulated(digits + [chars[index]], radix)
  {
    if !(0 <= index < |chars|) {
      return Err(IndexOutOfBoundsException);     // ArrayIndexOutOfBoundsException
    }
    var digit := Digit(chars[index], radix);
    ghost var upto := digits + [chars[index]];
    if digit == -1 {
      assert !IsDigits(upto, radix) by { assert upto[|digits|] == chars[index]; }
      return Err(NumberFormatException);
    }
    assert upto[..|digits|] == digits;
    assert IsDigits(upto, radix);
    ghost var p: int := DigitsValue(digits, radix);
    assert DigitsValue(upto, radix) == Times(p, radix) + digit;
    var max := TruncDiv(-TWO_31, radix);    // Integer.MIN_VALUE / radix, hoisted out of the loop in Java
    next := Accumulate(result, max, radix, digit, p);
  }

  /**
   * The overflow checks of one step of `parse`, after the digit is known:
   * `max > result`, then `next = result * radix - digit` in int arithmetic
   * and `next > result`.  On `result = -p` they accept exactly when the
   * magnitude `p * radix + digit` stays within 2^31.
   */
  method Accumulate(result: int32, max: int, radix: int32, digit: int, ghost p: int) returns (r: Result<int32>)
    requires MIN_RADIX <= radix <= MAX_RADIX && 0 <= digit < radix
    requires 0 <= p && result == -p && max == TruncDiv(-TWO_31, radix)
    ensures Times(p, radix) + digit > TWO_31 ==> r == Err(NumberFormatException)
    ensures Times(p, radix) + digit <= TWO_31 ==> r == Ok(-(Times(p, radix) + digit))
  {
    TimesMul(p, radix);
    ghost var x := p * radix + digit;
    AccumulateGuard(p, radix, digit, x);
    if max > result {
      return Err(NumberFormatException);
    }
    AccumulateBound(p, radix, digit, x);
    NegatedProduct(result, p, radix, digit, x);
    WrapNegative(x);
    var next := Wrap32(result * radix - digit);
    if next > result {
      return Err(NumberFormatException);
    }
    return Ok(next);
  }

  /** A prefix that is not digits, or is digits worth more than 2^31, makes the whole range unparseable. */
  lemma PrefixRejected(chars: seq<char>, offset: int, len: int, radix: int, prefix: seq<char>)
    requires MIN_RADIX <= radix <= MAX_RADIX && 0 <= offset && |prefix| <= len && offset + |prefix| <= |chars|
    requires prefix == chars[offset..offset + |prefix|]
    requires Accumulated(prefix, radix).Err?
    ensures offset + len <= |chars| ==> Accumulated(chars[offset..offset + len], radix).Err?
  {
    if offset + len <= |chars| {
      var s, k := chars[offset..offset + len], |prefix|;
      assert s[..k] == prefix;
      if IsDigits(s, radix) {
        DigitsValuePrefix(s, radix, k);
      }
    }
  }

  /**
   * `parseInt(chars, offset, len, radix)`: `chars` is `None` for a null
   * array.  A leading '-' is consumed by moving `offset` and `len`, in int
   * arithmetic; for a negative `len` the loop of `parse` never runs.
   */
  method ParseInt(chars: Option<seq<char>>, offset: int32, len: int32, radix: int32)
    returns (r: Result<int32>)
    requires chars.Some? ==> |chars.value| < TWO_31
    ensures chars.None? || !(MIN_RADIX <= radix <= MAX_RADIX) ==> r == Err(NumberFormatException)
    ensures chars.Some? && MIN_RADIX <= radix <= MAX_RADIX ==>
      var cs := chars.value;
      (len == 0 ==> r == Err(NumberFormatException)) &&
      (len != 0 && !(0 <= offset < |cs|) ==> r == Err(IndexOutOfBoundsException)) &&
      (len > 0 && 0 <= offset && offset + len <= |cs| ==> r == Parsed(cs[offset..offset + len], radix)) &&
      (len > 0 && !(0 <= offset && offset + len <= |cs|) ==> r.Err?) &&
      (len < 0 && 0 <= offset < |cs| && (cs[offset] != '-' || len > -TWO_31) ==> r == Ok(0)) &&
      (len == -TWO_31 && 0 <= offset < |cs| && cs[offset] == '-' ==> r.Err?)
  {
    if chars.None? || radix < MIN_RADIX || radix > MAX_RADIX {
      return Err(NumberFormatException);
    }
    var cs := chars.value;
    var i := 0;
    if len == 0 {
      return Err(NumberFormatException);          // "chars length is 0"
    }
    if !(0 <= offset + i < |cs|) {
      return Err(IndexOutOfBoundsException);      // ArrayIndexOutOfBoundsException
    }
    var negative := cs[offset + i] == '-';
    if negative {
      i := i + 1;
      if i == len {
        return Err(NumberFormatException);        // a lone "-"
      }
    }
    var start, count := offset, len;
    if negative {
      start, count := Wrap32(offset + 1), Wrap32(len - 1);
      if len > 0 && offset + len <= |cs| {
        assert cs[offset..offset + len][1..] == cs[start..start + count];
      }
    }
    r := Parse(cs, start, count, radix, negative);
  }

  /** `parseInt(chars, offset, len)`: radix 10. */
  method ParseDecimal(chars: Option<seq<char>>, offset: int32, len: int32) returns (r: Result<int32>)
    requires chars.Some? ==> |chars.value| < TWO_31
    ensures chars.Some? && len > 0 && 0 <= offset && offset + len <= |chars.value| ==>
      r == Parsed(chars.value[offset..offset + len], 10)
    ensures chars.None? || len == 0 ==> r == Err(NumberFormatException)
  {
    r := ParseInt(chars, offset, len, 10);
  }

  // ---------------------------------------------------------------------
  // Printing, the inverse of parsing: `Integer.toString(v, radix)`.

  /** The character of a digit value, lower-case letters above 9. */
  function DigitChar(d: nat): (c: char)
    requires d < 36
    ensures c != '-' && forall radix :: d < radix ==> Digit(c, radix) == d
  {
    if d < 10 then ('0' as int + d) as char else ('a' as int + d - 10) as char
  }

  /** The digits of a magnitude, most significant first, without leading zeros. */
  function ToDigits(n: nat, radix: int): (s: seq<char>)
    requires MIN_RADIX <= radix <= MAX_RADIX
    ensures |s| >= 1 && s[0] != '-'
  {
    if n < radix then [DigitChar(n)]
    else
      DivStep(n, radix);
      ToDigits(n / radix, radix) + [DigitChar(n % radix)]
  }

  /** Dividing by the radix leaves a digit and a smaller quotient. */
  lemma DivStep(n: nat, radix: int)
    requires MIN_RADIX <= radix && n >= radix
    ensures n / radix < n && n == n / radix * radix + n % radix
  {
    var q := n / radix;
    assert n == q * radix + n % radix;
    MulMono(q, 2, radix);
  }

  lemma {:induction false} ToDigitsValue(n: nat, radix: int)
    requires MIN_RADIX <= radix <= MAX_RADIX
    ensures IsDigits(ToDigits(n, radix), radix) && DigitsValue(ToDigits(n, radix), radix) == n
  {
    var s := ToDigits(n, radix);
    if n < radix {
      assert s[..0] == [];
      TimesMul(0, radix);
    } else {
      var q, m := n / radix, n % radix;
      DivStep(n, radix);
      ToDigitsValue(q, radix);
      var init := ToDigits(q, radix);
      assert s == init + [DigitChar(m)];
      assert s[..|s| - 1] == init;
      assert IsDigits(s, radix) by {
        forall k | 0 <= k < |s| ensures Digit(s[k], radix) >= 0 {
          if k < |init| {
            assert s[k] == init[k];
          }
        }
      }
      assert Digit(s[|s| - 1], radix) == m;
      TimesMul(q, radix);
      assert DigitsValue(s, radix) == q * radix + m;
    }
  }

  /** An int written with an optional '-' and its digits. */
  function IntToString(v: int32, radix: int): (s: seq<char>)
    requires MIN_RADIX <= radix <= MAX_RADIX
  {
    if v < 0 then ['-'] + ToDigits(-(v as int), radix) else ToDigits(v, radix)
  }

  /** Every int, Integer.MIN_VALUE included, parses back from its digits. */
  lemma ParsedIntToString(v: int32, radix: int)
    requires MIN_RADIX <= radix <= MAX_RADIX
    ensures Parsed(IntToString(v, radix), radix) == Ok(v)
  {
    var s := IntToString(v, radix);
    if v < 0 {
      var d := ToDigits(-(v as int), radix);
      ParsedToDigits(-(v as int), radix, true);
      assert s[0] == '-' && |s| > 1 && s[1..] == d;
    } else {
      ParsedToDigits(v, radix, false);
    }
  }

  /** The digits of a magnitude parse back to it, or to its negation. */
  lemma ParsedToDigits(n: nat, radix: int, negative: bool)
    requires MIN_RADIX <= radix <= MAX_RADIX
    ensures ParsedDigits(ToDigits(n, radix), radix, negative) ==
      if negative then (if n <= TWO_31 then Ok(-(n as int)) else Err(NumberFormatException))
      else (if n < TWO_31 then Ok(n) else Err(NumberFormatException))
  {
    ToDigitsValue(n, radix);
  }

  /** The positive magnitude 2^31 does not fit in an int and is rejected. */
  lemma ParsedTwo31(radix: int)
    requires MIN_RADIX <= radix <= MAX_RADIX
    ensures Parsed(ToDigits(TWO_31, radix), radix) == Err(NumberFormatException)
    ensures Parsed(['-'] + ToDigits(TWO_31, radix), radix) == Ok(-TWO_31)
  {
    ToDigitsValue(TWO_31, radix);
    assert (['-'] + ToDigits(TWO_31, radix))[1..] == ToDigits(TWO_31, radix);
  }

  // ---------------------------------------------------------------------
  // copyOfSubArray.

  /**
   * `copyOfSubArray(array, from, to)`, every element type alike: `new
   * T[to - from]` (int subtraction) throws NegativeArraySizeException for a
   * negative length, then `System.arraycopy` throws IndexOutOfBoundsException
   * when the range leaves `array`.
   */
  method CopyOfSubArray<T>(a: array<T>, from: int32, to: int32) returns (r: Result<array<T>>)
    requires a.Length < TWO_31
    ensures Wrap32(to - from) < 0 ==> r == Err(NegativeArraySizeException)
    ensures Wrap32(to - from) >= 0 && !(0 <= from && from + Wrap32(to - from) <= a.Length) ==>
      r == Err(IndexOutOfBoundsException)
    ensures r.Ok? <==> 0 <= from <= to <= a.Length
    ensures r.Ok? ==> fresh(r.value) && r.value[..] == a[from..to]
  {
    var n := Wrap32(to - from);
    if n < 0 {
      return Err(NegativeArraySizeException);
    }
    if from < 0 || from + n > a.Length {
      return Err(IndexOutOfBoundsException);
    }
    var copy := new T[n](i requires 0 <= i < n reads a => a[from + i]);
    return Ok(copy);
  }

  // ---------------------------------------------------------------------
  // Unsigned comparators over byte windows.

  /** The sign of a value: the contract of a `compare`. */
  function Sign(x: int): int {
    if x < 0 then -1 else if x > 0 then 1 else 0
  }

  /** `Integer.compare` / `Long.compare`. */
  function Compare(x: int, y: int): (c: int)
    ensures c == Sign(x - y)
  {
    if x < y then -1 else if x == y then 0 else 1
  }

  /** `256^n`. */
  function Power256(n: nat): (p: nat)
    ensures p >= 1
  {
    if n == 0 then 1 else 0x100 * Power256(n - 1)
  }

  lemma {:induction false} BigEndianBound(s: seq<uint8>)
    ensures BigEndianValue(s) < Power256(|s|)
  {
    if s != [] {
      BigEndianBound(s[..|s| - 1]);
    }
  }

  lemma Power256Widths()
    ensures Power256(4) == TWO_32 && Power256(8) == TWO_64
  {
    assert Power256(2) == 0x1_0000;
    assert Power256(4) == TWO_32;
    assert Power256(6) == 0x1_0000_0000_0000;
  }

  /**
   * `VH_BE_INT.get` / `VH_BE_LONG.get` at `off`: the w/8 bytes from `off`,
   * most significant first, as a signed int or long; out of range throws.
   */
  function BigEndianGet(w: Width, a: seq<uint8>, off: int): (r: Result<int>)
    ensures r.Ok? <==> 0 <= off && off + w / 8 <= |a|
    ensures r.Ok? ==> InRange(w, r.value) && Unsigned(w, r.value) == BigEndianValue(a[off..off + w / 8])
  {
    if 0 <= off && off + w / 8 <= |a| then
      var v := BigEndianValue(a[off..off + w / 8]);
      BigEndianBound(a[off..off + w / 8]);
      Power256Widths();
      UnsignedWrap(w, v);
      Ok(Wrap(w, v))
    else Err(IndexOutOfBoundsException)
  }

  /** `Integer.compareUnsigned` / `Long.compareUnsigned` of the two windows. */
  function CompareUnsignedFixed(w: Width, a: seq<uint8>, aOffset: int, b: seq<uint8>, bOffset: int): Result<int> {
    var x :- BigEndianGet(w, a, aOffset);
    var y :- BigEndianGet(w, b, bOffset);
    Ok(Compare(Unsigned(w, x), Unsigned(w, y)))
  }

  /** `compareUnsigned8`. */
  function CompareUnsigned8(a: seq<uint8>, aOffset: int, b: seq<uint8>, bOffset: int): (r: Result<int>)
    ensures r.Ok? <==> 0 <= aOffset && aOffset + 8 <= |a| && 0 <= bOffset && bOffset + 8 <= |b|
    ensures r.Ok? ==> r.value == Sign(BigEndianValue(a[aOffset..aOffset + 8]) - BigEndianValue(b[bOffset..bOffset + 8]))
  {
    CompareUnsignedFixed(64, a, aOffset, b, bOffset)
  }

  /** `compareUnsigned4`. */
  function CompareUnsigned4(a: seq<uint8>, aOffset: int, b: seq<uint8>, bOffset: int): (r: Result<int>)
    ensures r.Ok? <==> 0 <= aOffset && aOffset + 4 <= |a| && 0 <= bOffset && bOffset + 4 <= |b|
    ensures r.Ok? ==> r.value == Sign(BigEndianValue(a[aOffset..aOffset + 4]) - BigEndianValue(b[bOffset..bOffset + 4]))
  {
    CompareUnsignedFixed(32, a, aOffset, b, bOffset)
  }

  /** The first difference of unsigned bytes, else the difference of lengths. */
  function Mismatch(s: seq<uint8>, t: seq<uint8>): int {
    if s == [] || t == [] then |s| - |t|
    else if s[0] != t[0] then s[0] as int - t[0] as int
    else Mismatch(s[1..], t[1..])
  }

  /**
   * `Arrays.compareUnsigned(a, aFrom, aTo, b, bFrom, bTo)`: the range of `a`
   * is checked completely before that of `b`; a reversed range throws
   * IllegalArgumentException, a range outside its array
   * ArrayIndexOutOfBoundsException; otherwise `Byte.compareUnsigned` at the
   * first mismatch.
   */
  function ArraysCompareUnsigned(a: seq<uint8>, aFrom: int, aTo: int, b: seq<uint8>, bFrom: int, bTo: int): (r: Result<int>)
    ensures r.Ok? <==> 0 <= aFrom <= aTo <= |a| && 0 <= bFrom <= bTo <= |b|
    ensures aFrom > aTo ==> r == Err(IllegalArgumentException)
    ensures aFrom <= aTo && (aFrom < 0 || aTo > |a|) ==> r == Err(IndexOutOfBoundsException)
    ensures 0 <= aFrom <= aTo <= |a| && bFrom > bTo ==> r == Err(IllegalArgumentException)
    ensures 0 <= aFrom <= aTo <= |a| && bFrom <= bTo && (bFrom < 0 || bTo > |b|) ==> r == Err(IndexOutOfBoundsException)
  {
    if aFrom > aTo then Err(IllegalArgumentException)
    else if aFrom < 0 || aTo > |a| then Err(IndexOutOfBoundsException)
    else if bFrom > bTo then Err(IllegalArgumentException)
    else if bFrom < 0 || bTo > |b| then Err(IndexOutOfBoundsException)
    else Ok(Mismatch(a[aFrom..aTo], b[bFrom..bTo]))
  }

  /** The general comparator of `getUnsignedComparator`: the window ends are int sums. */
  function CompareUnsignedRange(numBytes: int32, a: seq<uint8>, aOffset: int32, b: seq<uint8>, bOffset: int32): Result<int> {
    ArraysCompareUnsigned(a, aOffset, Wrap32(aOffset + numBytes), b, bOffset, Wrap32(bOffset + numBytes))
  }

  type ByteArrayComparator = (seq<uint8>, int32, seq<uint8>, int32) -> Result<int>

  /** `getUnsignedComparator(numBytes)`: the 8- and 4-byte fast paths, else the general one. */
  function GetUnsignedComparator(numBytes: int32): ByteArrayComparator {
    if numBytes == 8 then (a: seq<uint8>, aI: int32, b: seq<uint8>, bI: int32) => CompareUnsigned8(a, aI, b, bI)
    else if numBytes == 4 then (a: seq<uint8>, aI: int32, b: seq<uint8>, bI: int32) => CompareUnsigned4(a, aI, b, bI)
    else (a: seq<uint8>, aI: int32, b: seq<uint8>, bI: int32) => CompareUnsignedRange(numBytes, a, aI, b, bI)
  }

  /** Dropping the last bytes of two equal-length windows keeps their first mismatch, if any. */
  lemma {:induction false} MismatchSnoc(s: seq<uint8>, t: seq<uint8>)
    requires |s| == |t| > 0
    ensures Mismatch(s, t) ==
      var m := Mismatch(s[..|s| - 1], t[..|t| - 1]);
      if m != 0 then m else s[|s| - 1] as int - t[|t| - 1] as int
  {
    if s[0] == t[0] && |s| > 1 {
      MismatchSnoc(s[1..], t[1..]);
      assert s[1..][..|s| - 2] == s[..|s| - 1][1..];
      assert t[1..][..|t| - 2] == t[..|t| - 1][1..];
    } else if |s| > 1 {
      assert s[..|s| - 1][0] == s[0] && t[..|t| - 1][0] == t[0];
    }
  }

  /** Unsigned big-endian order of equal-length windows is lexicographic order by unsigned byte. */
  lemma {:induction false} MismatchOrder(s: seq<uint8>, t: seq<uint8>)
    requires |s| == |t|
    ensures Sign(Mismatch(s, t)) == Sign(BigEndianValue(s) - BigEndianValue(t))
  {
    if s != [] {
      var s0, t0 := s[..|s| - 1], t[..|t| - 1];
      MismatchSnoc(s, t);
      MismatchOrder(s0, t0);
    }
  }

  /** An int sum of an int and a non-negative int wraps only past Integer.MAX_VALUE. */
  lemma WrapSum(x: int)
    requires -TWO_31 <= x < TWO_32
    ensures Wrap32(x) == if x < TWO_31 then x else x - TWO_32
  {
    if x >= TWO_31 {
      DivUnique(x + TWO_31, TWO_32, 1, x + TWO_31 - TWO_32);
    }
  }

  /** The general comparator orders n-byte windows as unsigned big-endian numbers, and fails when a window leaves its array. */
  lemma RangeComparatorOrder(numBytes: int32, a: seq<uint8>, aI: int32, b: seq<uint8>, bI: int32)
    requires numBytes >= 0 && |a| < TWO_31 && |b| < TWO_31
    ensures var r := CompareUnsignedRange(numBytes, a, aI, b, bI);
      r.Ok? <==> 0 <= aI && aI + numBytes <= |a| && 0 <= bI && bI + numBytes <= |b|
    ensures var r := CompareUnsignedRange(numBytes, a, aI, b, bI);
      r.Ok? ==> Sign(r.value) == Sign(BigEndianValue(a[aI..aI + numBytes]) - BigEndianValue(b[bI..bI + numBytes]))
  {
    WrapSum(aI + numBytes);
    WrapSum(bI + numBytes);
    if 0 <= aI && aI + numBytes <= |a| && 0 <= bI && bI + numBytes <= |b| {
      MismatchOrder(a[aI..aI + numBytes], b[bI..bI + numBytes]);
    }
  }

  /**
   * The comparator `getUnsignedComparator(numBytes)` returns orders n-byte
   * windows as unsigned big-endian numbers, whichever path it picks, and
   * fails when a window leaves its array.
   */
  lemma UnsignedComparatorOrder(numBytes: int32, a: seq<uint8>, aI: int32, b: seq<uint8>, bI: int32)
    requires numBytes >= 0 && |a| < TWO_31 && |b| < TWO_31
    ensures var r := GetUnsignedComparator(numBytes)(a, aI, b, bI);
      r.Ok? <==> 0 <= aI && aI + numBytes <= |a| && 0 <= bI && bI + numBytes <= |b|
    ensures var r := GetUnsignedComparator(numBytes)(a, aI, b, bI);
      r.Ok? ==> Sign(r.value) == Sign(BigEndianValue(a[aI..aI + numBytes]) - BigEndianValue(b[bI..bI + numBytes]))
  {
    if numBytes == 8 {
      assert GetUnsignedComparator(numBytes)(a, aI, b, bI) == CompareUnsigned8(a, aI, b, bI);
    } else if numBytes == 4 {
      assert GetUnsignedComparator(numBytes)(a, aI, b, bI) == CompareUnsigned4(a, aI, b, bI);
    } else {
      assert GetUnsignedComparator(numBytes)(a, aI, b, bI) == CompareUnsignedRange(numBytes, a, aI, b, bI);
      RangeComparatorOrder(numBytes, a, aI, b, bI);
    }
  }

  /** The 8- and 4-byte fast paths agree with the general comparator in sign, and fail where it fails. */
  lemma FastPathsAgree(numBytes: int32, a: seq<uint8>, aI: int32, b: seq<uint8>, bI: int32)
    requires (numBytes == 8 || numBytes == 4) && |a| < TWO_31 && |b| < TWO_31
    ensures var fast, general := GetUnsignedComparator(numBytes)(a, aI, b, bI), CompareUnsignedRange(numBytes, a, aI, b, bI);
      fast.Ok? == general.Ok? && (fast.Ok? ==> Sign(fast.value) == Sign(general.value))
  {
    UnsignedComparatorOrder(numBytes, a, aI, b, bI);
    RangeComparatorOrder(numBytes, a, aI, b, bI);
  }
}
