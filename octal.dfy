/** Octal text fields: `octal_to_str` (my_tar.c:59-61), which formats with
    `snprintf("%0*lo")`, and the base-8 `strtol` used to read sizes and times back. */
module Octal {
  import opened Bytes

  const ZERO_DIGIT: byte := 48  // '0'

  predicate IsOctalDigit(c: byte) {
    48 <= c <= 55
  }

  predicate AllOctal(s: seq<byte>) {
    forall i :: 0 <= i < |s| ==> IsOctalDigit(s[i])
  }

  function Pow8(k: nat): (p: nat)
    ensures p >= 1
  {
    if k == 0 then 1 else 8 * Pow8(k - 1)
  }

  /** The text `%lo` prints: the octal digits of `v`, most significant first, with no
      leading zero except for `v == 0`. */
  function ToOctal(v: nat): (d: seq<byte>)
    ensures 1 <= |d| && AllOctal(d)
    ensures v < Pow8(|d|)
    ensures |d| > 1 ==> Pow8(|d| - 1) <= v
  {
    if v < 8 then [(48 + v) as byte] else ToOctal(v / 8) + [(48 + v % 8) as byte]
  }

  /** The `0` flag with width `w`: zeros on the left up to `w` characters. */
  function ZeroPad(d: seq<byte>, w: nat): (t: seq<byte>)
    ensures |t| >= w && |t| >= |d|
  {
    seq(if |d| < w then w - |d| else 0, _ => ZERO_DIGIT) + d
  }

  /** `octal_to_str(str, size, v)`: `snprintf(str, size, "%0*lo", size - 1, v)`. The text
      is zero-padded to `size - 1` digits; snprintf keeps only the first `size - 1`
      characters and then a NUL. */
  function OctalToStr(v: nat, size: nat): (field: seq<byte>)
    requires size >= 1
    ensures |field| == size && field[size - 1] == NUL
    ensures AllOctal(field[..size - 1])
  {
    var text := ZeroPad(ToOctal(v), size - 1);
    assert AllOctal(text);
    text[..size - 1] + [NUL]
  }

  /** Value of a run of octal digits. */
  function OctalValue(d: seq<byte>): (v: nat)
    requires AllOctal(d)
    ensures v < Pow8(|d|)
  {
    if d == [] then 0 else OctalValue(d[..|d| - 1]) * 8 + (d[|d| - 1] - 48) as nat
  }

  /** Length of the leading run of octal digits: where `strtol` stops. */
  function OctalRun(s: seq<byte>): (n: nat)
    ensures n <= |s| && AllOctal(s[..n])
    ensures n < |s| ==> !IsOctalDigit(s[n])
  {
    if s == [] || !IsOctalDigit(s[0]) then 0
    else
      var n := 1 + OctalRun(s[1..]);
      assert s[..n] == [s[0]] + s[1..][..n - 1];
      n
  }

  /** `strtol(s, NULL, 8)` on text without leading blanks or sign: the value of the
      leading octal digits, 0 when there are none. */
  function ParseOctal(s: seq<byte>): (v: nat)
    ensures v < Pow8(OctalRun(s))
  {
    OctalValue(s[..OctalRun(s)])
  }

  lemma {:induction false} ToOctalValue(v: nat)
    ensures OctalValue(ToOctal(v)) == v
  {
    if v >= 8 {
      var d := ToOctal(v);
      assert d[..|d| - 1] == ToOctal(v / 8);
      ToOctalValue(v / 8);
    }
  }

  lemma {:induction false} LeadingZerosValue(k: nat, d: seq<byte>)
    requires AllOctal(d)
    ensures AllOctal(seq(k, _ => ZERO_DIGIT) + d)
    ensures OctalValue(seq(k, _ => ZERO_DIGIT) + d) == OctalValue(d)
    decreases |d|, k
  {
    var z: seq<byte> := seq(k, _ => ZERO_DIGIT);
    assert AllOctal(z + d);
    if d != [] {
      assert (z + d)[..|z + d| - 1] == z + d[..|d| - 1];
      LeadingZerosValue(k, d[..|d| - 1]);
    } else if k > 0 {
      assert (z + d)[..|z + d| - 1] == seq(k - 1, _ => ZERO_DIGIT) + [];
      LeadingZerosValue(k - 1, []);
    } else {
      assert z + d == [];
    }
  }

  /** Fewer than `k` digits exactly when the value is below `8^k`. */
  lemma ToOctalLength(v: nat, k: nat)
    requires k >= 1
    ensures |ToOctal(v)| <= k <==> v < Pow8(k)
  {
    var n := |ToOctal(v)|;
    if n <= k {
      Pow8Monotone(n, k);
    } else {
      assert Pow8(n - 1) <= v;
      Pow8Monotone(k, n - 1);
    }
  }

  lemma {:induction false} Pow8Monotone(i: nat, j: nat)
    requires i <= j
    ensures Pow8(i) <= Pow8(j)
    decreases j
  {
    if i < j {
      Pow8Monotone(i, j - 1);
    }
  }

  /** Appending bytes after a non-octal character does not change what strtol reads. */
  lemma {:induction false} ParseOctalStopsAt(a: seq<byte>, rest: seq<byte>)
    requires exists i :: 0 <= i < |a| && !IsOctalDigit(a[i])
    ensures OctalRun(a + rest) == OctalRun(a)
    ensures ParseOctal(a + rest) == ParseOctal(a)
  {
    var i :| 0 <= i < |a| && !IsOctalDigit(a[i]);
    assert a != [];
    if IsOctalDigit(a[0]) {
      assert (a + rest)[1..] == a[1..] + rest;
      assert !IsOctalDigit(a[1..][i - 1]);
      ParseOctalStopsAt(a[1..], rest);
      assert (a + rest)[..OctalRun(a)] == a[..OctalRun(a)];
    }
  }

  /** A run of octal digits ended by a NUL reads back as its value. */
  lemma {:induction false} ParseDigitsThenNul(d: seq<byte>)
    requires AllOctal(d)
    ensures ParseOctal(d + [NUL]) == OctalValue(d)
    decreases |d|
  {
    if d != [] {
      assert (d + [NUL])[1..] == d[1..] + [NUL];
      ParseDigitsThenNul(d[1..]);
    }
    assert (d + [NUL])[..OctalRun(d + [NUL])] == d;
  }

  /** Round trip of `octal_to_str`: a value that fits in `size - 1` octal digits is read
      back by strtol, whatever bytes follow the field. */
  lemma OctalToStrRoundTrip(v: nat, size: nat, rest: seq<byte>)
    requires size >= 2 && v < Pow8(size - 1)
    ensures ParseOctal(OctalToStr(v, size) + rest) == v
  {
    var d := ToOctal(v);
    ToOctalLength(v, size - 1);
    var text := ZeroPad(d, size - 1);
    assert |text| == size - 1;
    assert text[..size - 1] == text;
    LeadingZerosValue(size - 1 - |d|, d);
    ToOctalValue(v);
    ParseDigitsThenNul(text);
    assert OctalToStr(v, size) == text + [NUL];
    ParseOctalStopsAt(text + [NUL], rest);
  }

  /** A value too wide for the field is truncated by snprintf: the field keeps the
      `size - 1` most significant digits of `v`. */
  lemma OctalToStrTruncates(v: nat, size: nat)
    requires size >= 2 && v >= Pow8(size - 1)
    ensures |ToOctal(v)| > size - 1
    ensures OctalToStr(v, size)[..size - 1] == ToOctal(v)[..size - 1]
  {
    ToOctalLength(v, size - 1);
  }
}
