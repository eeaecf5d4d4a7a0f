/**
 * `usize::from_str` (Rust's `str::parse::<usize>`) on a 64-bit target, and
 * decimal numerals: the parser reads the optional `dump` and `fsck` fields
 * with it.
 */
module Numbers {
  import opened Wrappers

  /** The largest `usize` on a 64-bit target. */
  const USIZE_MAX: nat := 0xFFFF_FFFF_FFFF_FFFF

  /** The kinds of `std::num::ParseIntError` that parsing an unsigned integer can report. */
  datatype IntErrorKind = Empty | InvalidDigit | PosOverflow

  predicate IsDigit(c: char) {
    '0' <= c <= '9'
  }

  predicate AllDigits(s: string) {
    forall k :: 0 <= k < |s| ==> IsDigit(s[k])
  }

  function DigitValue(c: char): (d: nat)
    requires IsDigit(c)
    ensures d < 10
  {
    (c as int) - ('0' as int)
  }

  function DigitChar(d: nat): (c: char)
    requires d < 10
    ensures IsDigit(c) && DigitValue(c) == d
  {
    (d + '0' as int) as char
  }

  /** The value of a decimal numeral, most significant digit first. */
  function DecimalValue(ds: string): nat
    requires AllDigits(ds)
  {
    if ds == [] then 0 else DecimalValue(ds[..|ds| - 1]) * 10 + DigitValue(ds[|ds| - 1])
  }

  /** The shortest decimal numeral of `n`. */
  function ShowNat(n: nat): (s: string)
    ensures s != [] && AllDigits(s) && DecimalValue(s) == n
  {
    if n < 10 then [DigitChar(n)]
    else
      var s := ShowNat(n / 10) + [DigitChar(n % 10)];
      assert s[..|s| - 1] == ShowNat(n / 10);
      s
  }

  /**
   * The digit loop of `from_str_radix`: the digits are read left to right
   * into `acc`; the first position holding a non-digit, or at which
   * `acc * 10 + digit` leaves the `usize` range, ends the loop with that
   * error (the digit is checked before the overflow at the same position).
   */
  function Accumulate(digits: string, acc: nat): (r: Result<nat, IntErrorKind>)
    requires acc <= USIZE_MAX
    ensures r.Ok? ==> r.value <= USIZE_MAX
    ensures r.Err? ==> r.error != Empty
  {
    if digits == [] then Ok(acc)
    else if !IsDigit(digits[0]) then Err(InvalidDigit)
    else if acc * 10 + DigitValue(digits[0]) > USIZE_MAX then Err(PosOverflow)
    else Accumulate(digits[1..], acc * 10 + DigitValue(digits[0]))
  }

  /** The text after a leading `+`, when a `+` leads and something follows it. */
  function Unsigned(s: string): (r: string)
    ensures |s| > 1 && s[0] == '+' ==> r == s[1..]
    ensures !(|s| > 1 && s[0] == '+') ==> r == s
  {
    if |s| > 1 && s[0] == '+' then s[1..] else s
  }

  /**
   * `usize::from_str`: the empty text is `Empty`; a lone sign is an invalid
   * digit; one leading `+` is dropped; a `-` is an invalid digit for an
   * unsigned type; the rest is the digit loop.
   */
  function ParseUsize(s: string): (r: Result<nat, IntErrorKind>)
    ensures r.Ok? ==> r.value <= USIZE_MAX
    ensures r == Err(Empty) <==> s == []
  {
    if s == [] then Err(Empty)
    else if |s| == 1 && (s[0] == '+' || s[0] == '-') then Err(InvalidDigit)
    else Accumulate(Unsigned(s), 0)
  }

  /** Digits after a numeral only make it larger. */
  lemma {:induction false} DecimalValueGrows(p: string, ds: string)
    requires AllDigits(p) && AllDigits(ds)
    ensures AllDigits(p + ds) && DecimalValue(p) <= DecimalValue(p + ds)
  {
    if ds != [] {
      var q := p + ds;
      assert q[..|q| - 1] == p + ds[..|ds| - 1];
      DecimalValueGrows(p, ds[..|ds| - 1]);
    } else {
      assert p + ds == p;
    }
  }

  /**
   * With the value of the digits already read in `acc`, the digit loop
   * succeeds exactly when the rest are digits and the whole numeral fits in
   * a `usize`, and then returns the numeral's value.
   */
  lemma {:induction false} AccumulateDigits(p: string, ds: string)
    requires AllDigits(p) && DecimalValue(p) <= USIZE_MAX
    ensures AllDigits(ds) ==> AllDigits(p + ds)
    ensures Accumulate(ds, DecimalValue(p)).Ok? <==> AllDigits(ds) && DecimalValue(p + ds) <= USIZE_MAX
    ensures Accumulate(ds, DecimalValue(p)).Ok? ==> Accumulate(ds, DecimalValue(p)).value == DecimalValue(p + ds)
    decreases |ds|
  {
    if ds == [] {
      assert p + ds == p;
    } else {
      var p' := p + [ds[0]];
      assert p'[..|p'| - 1] == p;
      assert p + ds == p' + ds[1..];
      if IsDigit(ds[0]) {
        assert AllDigits(p');
        if DecimalValue(p') <= USIZE_MAX {
          AccumulateDigits(p', ds[1..]);
        } else if AllDigits(ds) {
          DecimalValueGrows(p', ds[1..]);
        }
      }
    }
  }

  /**
   * `usize::from_str` accepts exactly the non-empty decimal numerals, with
   * at most one leading `+`, whose value fits in a `usize`, and returns that
   * value.
   */
  lemma ParseUsizeValue(s: string)
    ensures ParseUsize(s).Ok? <==> Unsigned(s) != [] && AllDigits(Unsigned(s)) && DecimalValue(Unsigned(s)) <= USIZE_MAX
    ensures ParseUsize(s).Ok? ==> ParseUsize(s).value == DecimalValue(Unsigned(s))
  {
    var u := Unsigned(s);
    if !(s == [] || (|s| == 1 && (s[0] == '+' || s[0] == '-'))) {
      assert ParseUsize(s) == Accumulate(u, 0);
      assert [] + u == u;
      AccumulateDigits([], u);
    }
  }

  /** A leading `+` is accepted: `+t` parses as `t` does, unless `t` starts with another `+`. */
  lemma ParsePlus(t: string)
    requires t != [] && t[0] != '+'
    ensures ParseUsize("+" + t) == ParseUsize(t)
  {
    var s := "+" + t;
    assert |s| > 1 && s[0] == '+' && s[1..] == t;
    assert Unsigned(t) == t;
  }

  /** Printing a `usize` in decimal and parsing it back gives the number. */
  lemma ParseShowNat(n: nat)
    requires n <= USIZE_MAX
    ensures ParseUsize(ShowNat(n)) == Ok(n)
  {
    ParseUsizeValue(ShowNat(n));
  }
}
