/** The two check-digit algorithms of ISO 2108: the weighted modulo-11 sum of
    ISBN-10 and SBN, and the alternating 1/3 modulo-10 sum of ISBN-13
    (GS1/EAN-13).

    `check10` and `check13` are loops over a slice of int32. Each is modelled
    twice: a function that the parser uses (functions cannot call methods) and
    a method with the loop of the source, proved to compute that function. */
module Checksum {

  /** Go's `%`, which truncates toward zero: the remainder has the sign of
      the dividend. */
  function GoRem(a: int, m: int): (r: int)
    requires m > 0
    ensures -m < r < m
    ensures a >= 0 ==> 0 <= r
    ensures a <= 0 ==> r <= 0
    ensures a >= 0 ==> r == a % m
    ensures a < 0 ==> r == -((-a) % m)
  {
    if a >= 0 then a % m else -((-a) % m)
  }

  /** A multiple of eleven leaves no remainder. */
  lemma MultipleMod11(x: int, k: int)
    requires x == 11 * k
    ensures x % 11 == 0
  {
  }

  /** A multiple of ten leaves no remainder. */
  lemma MultipleMod10(x: int, k: int)
    requires x == 10 * k
    ensures x % 10 == 0
  {
  }

  /** For the two moduli of the package, Go's `%` differs from the dividend
      by a multiple of the modulus: it is a remainder in the sense of
      truncated division, with the sign of the dividend. */
  lemma GoRemDivides(a: int)
    ensures (a - GoRem(a, 11)) % 11 == 0
    ensures (a - GoRem(a, 10)) % 10 == 0
  {
    if a >= 0 {
      MultipleMod11(a - GoRem(a, 11), a / 11);
      MultipleMod10(a - GoRem(a, 10), a / 10);
    } else {
      assert -a == 11 * ((-a) / 11) + (-a) % 11;
      MultipleMod11(a - GoRem(a, 11), -((-a) / 11));
      assert -a == 10 * ((-a) / 10) + (-a) % 10;
      MultipleMod10(a - GoRem(a, 10), -((-a) / 10));
    }
  }

  /** `(11 - check%11) % 11`: the value in 0..10 that completes `check` to a
      multiple of eleven, whatever the sign of `check`. */
  function Complement11(check: int): (r: int)
    ensures 0 <= r <= 10
    ensures (check + r) % 11 == 0
  {
    Complement11Completes(check);
    GoRem(11 - GoRem(check, 11), 11)
  }

  /** `(11 - check%11) % 11` completes `check`, by the sign of `check`. */
  lemma Complement11Completes(check: int)
    ensures var r := GoRem(11 - GoRem(check, 11), 11);
      0 <= r <= 10 && (check + r) % 11 == 0
  {
    if check >= 0 {
      Complement11NonNegative(check);
    } else {
      Complement11Negative(check);
    }
  }

  /** For `check >= 0` Go's `%` is the remainder m, and 11 - m (or 0 when
      m is 0) completes `check`. */
  lemma Complement11NonNegative(check: int)
    requires check >= 0
    ensures var r := GoRem(11 - GoRem(check, 11), 11);
      0 <= r <= 10 && (check + r) % 11 == 0
  {
    var q, m := check / 11, check % 11;
    assert check == 11 * q + m;
    assert GoRem(check, 11) == m;
    if m == 0 {
      assert GoRem(11, 11) == 0;
    } else {
      assert GoRem(11 - m, 11) == 11 - m;
      MultipleMod11(check + (11 - m), q + 1);
    }
  }

  /** For `check < 0` Go's `%` is -m for the remainder m of `-check`, and
      `(11 + m) % 11` is m, which completes `check`. */
  lemma Complement11Negative(check: int)
    requires check < 0
    ensures var r := GoRem(11 - GoRem(check, 11), 11);
      0 <= r <= 10 && (check + r) % 11 == 0
  {
    var q, m := (-check) / 11, (-check) % 11;
    assert -check == 11 * q + m;
    assert GoRem(check, 11) == -m;
    assert GoRem(11 + m, 11) == m;
    MultipleMod11(check + m, -q);
  }


  /** `(10 - check%10) % 10`: the digit that completes `check` to a multiple
      of ten, whatever the sign of `check`. */
  function Complement10(check: int): (r: int)
    ensures 0 <= r <= 9
    ensures (check + r) % 10 == 0
  {
    Complement10Completes(check);
    GoRem(10 - GoRem(check, 10), 10)
  }

  /** `(10 - check%10) % 10` completes `check`, by the sign of `check`. */
  lemma Complement10Completes(check: int)
    ensures var r := GoRem(10 - GoRem(check, 10), 10);
      0 <= r <= 9 && (check + r) % 10 == 0
  {
    if check >= 0 {
      Complement10NonNegative(check);
    } else {
      Complement10Negative(check);
    }
  }

  /** For `check >= 0` Go's `%` is the remainder m, and 10 - m (or 0 when
      m is 0) completes `check`. */
  lemma Complement10NonNegative(check: int)
    requires check >= 0
    ensures var r := GoRem(10 - GoRem(check, 10), 10);
      0 <= r <= 9 && (check + r) % 10 == 0
  {
    var q, m := check / 10, check % 10;
    assert check == 10 * q + m;
    assert GoRem(check, 10) == m;
    if m == 0 {
      assert GoRem(10, 10) == 0;
    } else {
      assert GoRem(10 - m, 10) == 10 - m;
      MultipleMod10(check + (10 - m), q + 1);
    }
  }

  /** For `check < 0` Go's `%` is -m for the remainder m of `-check`, and
      `(10 + m) % 10` is m, which completes `check`. */
  lemma Complement10Negative(check: int)
    requires check < 0
    ensures var r := GoRem(10 - GoRem(check, 10), 10);
      0 <= r <= 9 && (check + r) % 10 == 0
  {
    var q, m := (-check) / 10, (-check) % 10;
    assert -check == 10 * q + m;
    assert GoRem(check, 10) == -m;
    assert GoRem(10 + m, 10) == m;
    MultipleMod10(check + m, -q);
  }


  /** Weight of the entry at `index` in the ISBN-10 sum: 10 for the first
      entry, one less for each following one. */
  function Weight10(index: nat): int {
    10 - index
  }

  /** Weight of the entry at `index` in the ISBN-13 sum: 1 at even, 3 at odd
      positions. */
  function Weight13(index: nat): int {
    if index % 2 == 0 then 1 else 3
  }

  /** Sum of `s[k] * Weight10(from + k)`: the entries of `s` weighted as if
      `s` started at position `from`. */
  function WeightedSum10(s: seq<int>, from: nat): int {
    if s == [] then 0 else s[0] * Weight10(from) + WeightedSum10(s[1..], from + 1)
  }

  /** Sum of `s[k] * Weight13(from + k)`. */
  function WeightedSum13(s: seq<int>, from: nat): int {
    if s == [] then 0 else s[0] * Weight13(from) + WeightedSum13(s[1..], from + 1)
  }

  /** The sum the loop of `check10` accumulates over all of `s`. */
  function Sum10(s: seq<int>): int {
    WeightedSum10(s, 0)
  }

  /** The sum the loop of `check13` accumulates over all of `s`. */
  function Sum13(s: seq<int>): int {
    WeightedSum13(s, 0)
  }

  /** The entries `check10` sums: a 10-entry slice loses its last entry. */
  function Window10(s: seq<int>): seq<int> {
    if |s| == 10 then s[..9] else s
  }

  /** The entries `check13` sums: a 13-entry slice loses its last entry. */
  function Window13(s: seq<int>): seq<int> {
    if |s| == 13 then s[..12] else s
  }

  /** The value `check10` returns: the number in 0..10 that makes the weighted
      sum a multiple of eleven. */
  function CheckDigit10(s: seq<int>): (r: int)
    ensures 0 <= r <= 10
    ensures (Sum10(Window10(s)) + r) % 11 == 0
  {
    Complement11(Sum10(Window10(s)))
  }

  /** The value `check13` returns: the digit 0..9 that makes the weighted sum
      a multiple of ten. */
  function CheckDigit13(s: seq<int>): (r: int)
    ensures 0 <= r <= 9
    ensures (Sum13(Window13(s)) + r) % 10 == 0
  {
    Complement10(Sum13(Window13(s)))
  }

  /** `check10`: drops the tenth entry of a 10-entry slice, sums entry times
      (10 - index) over the rest and reduces. */
  method Check10(i: seq<int>) returns (r: int)
    ensures r == CheckDigit10(i)
    ensures 0 <= r <= 10
    ensures (Sum10(Window10(i)) + r) % 11 == 0
  {
    var digits := i;
    if |digits| == 10 {
      digits := digits[..9];
    }
    var check := 0;
    for index := 0 to |digits|
      invariant check == Sum10(digits[..index])
    {
      assert digits[..index + 1] == digits[..index] + [digits[index]];
      Sum10Snoc(digits[..index], digits[index]);
      check := check + digits[index] * (10 - index);
    }
    assert digits[..|digits|] == digits;
    r := Complement11(check);
  }

  /** `check13`: drops the thirteenth entry of a 13-entry slice, adds the
      entries at even positions once and those at odd positions three times,
      and reduces. */
  method Check13(i: seq<int>) returns (r: int)
    ensures r == CheckDigit13(i)
    ensures 0 <= r <= 9
    ensures (Sum13(Window13(i)) + r) % 10 == 0
  {
    var digits := i;
    if |digits| == 13 {
      digits := digits[..12];
    }
    var check := 0;
    for index := 0 to |digits|
      invariant check == Sum13(digits[..index])
    {
      assert digits[..index + 1] == digits[..index] + [digits[index]];
      Sum13Snoc(digits[..index], digits[index]);
      if index % 2 == 0 {
        check := check + digits[index];
        continue;
      }
      check := check + digits[index] * 3;
    }
    assert digits[..|digits|] == digits;
    r := Complement10(check);
  }

  /** Appending an entry adds it with the weight of its position: what one
      round of the loop of `check10` does. */
  lemma {:induction false} WeightedSum10Snoc(s: seq<int>, x: int, from: nat)
    ensures WeightedSum10(s + [x], from) == WeightedSum10(s, from) + x * Weight10(from + |s|)
  {
    if s == [] {
      assert [] + [x] == [x];
    } else {
      assert (s + [x])[1..] == s[1..] + [x];
      WeightedSum10Snoc(s[1..], x, from + 1);
    }
  }

  /** Appending an entry adds it with the weight of its position: what one
      round of the loop of `check13` does. */
  lemma {:induction false} WeightedSum13Snoc(s: seq<int>, x: int, from: nat)
    ensures WeightedSum13(s + [x], from) == WeightedSum13(s, from) + x * Weight13(from + |s|)
  {
    if s == [] {
      assert [] + [x] == [x];
    } else {
      assert (s + [x])[1..] == s[1..] + [x];
      WeightedSum13Snoc(s[1..], x, from + 1);
    }
  }

  /** `WeightedSum10Snoc` from position 0. */
  lemma Sum10Snoc(s: seq<int>, x: int)
    ensures Sum10(s + [x]) == Sum10(s) + x * Weight10(|s|)
  {
    WeightedSum10Snoc(s, x, 0);
  }

  /** `WeightedSum13Snoc` from position 0. */
  lemma Sum13Snoc(s: seq<int>, x: int)
    ensures Sum13(s + [x]) == Sum13(s) + x * Weight13(|s|)
  {
    WeightedSum13Snoc(s, x, 0);
  }

  /** At most one value in 0..10 completes a sum to a multiple of eleven. */
  lemma Mod11Unique(t: int, a: int, b: int)
    requires 0 <= a <= 10 && 0 <= b <= 10
    requires (t + a) % 11 == 0
    ensures (t + b) % 11 == 0 <==> a == b
  {
    assert t + a == 11 * ((t + a) / 11);
    assert t + b == 11 * ((t + b) / 11) + (t + b) % 11;
  }

  /** At most one digit completes a sum to a multiple of ten. */
  lemma Mod10Unique(t: int, a: int, b: int)
    requires 0 <= a <= 9 && 0 <= b <= 9
    requires (t + a) % 10 == 0
    ensures (t + b) % 10 == 0 <==> a == b
  {
    assert t + a == 10 * ((t + a) / 10);
    assert t + b == 10 * ((t + b) / 10) + (t + b) % 10;
  }

  /** A check value in 0..10 agrees with `check10` exactly when the full
      weighted sum, in which the tenth entry has weight 1, is a multiple of
      eleven: the ISO 2108 statement of a valid ISBN-10. */
  lemma Check10Agrees(s: seq<int>)
    requires |s| == 10 && 0 <= s[9] <= 10
    ensures CheckDigit10(s) == s[9] <==> Sum10(s) % 11 == 0
  {
    assert s == s[..9] + [s[9]];
    Sum10Snoc(s[..9], s[9]);
    Mod11Unique(Sum10(s[..9]), CheckDigit10(s), s[9]);
  }

  /** A check value in 0..9 agrees with `check13` exactly when the full
      weighted sum, in which the thirteenth entry has weight 1, is a multiple
      of ten: the GS1 statement of a valid EAN-13. */
  lemma Check13Agrees(s: seq<int>)
    requires |s| == 13 && 0 <= s[12] <= 9
    ensures CheckDigit13(s) == s[12] <==> Sum13(s) % 10 == 0
  {
    assert s == s[..12] + [s[12]];
    Sum13Snoc(s[..12], s[12]);
    Mod10Unique(Sum13(s[..12]), CheckDigit13(s), s[12]);
  }

  /** `check13` of a 13-entry slice does not depend on its last entry. */
  lemma Check13IgnoresLast(s: seq<int>, x: int)
    requires |s| == 12
    ensures CheckDigit13(s + [x]) == CheckDigit13(s)
  {
    assert (s + [x])[..12] == s;
  }

  /** `check10` of a 10-entry slice does not depend on its last entry. */
  lemma Check10IgnoresLast(s: seq<int>, x: int)
    requires |s| == 9
    ensures CheckDigit10(s + [x]) == CheckDigit10(s)
  {
    assert (s + [x])[..9] == s;
  }

  /** The weighted sum of the `TestIsbn10Checksum` digits and its complement. */
  lemma Check10VectorArithmetic()
    ensures Sum10([0, 3, 0, 6, 4, 0, 6, 1, 5]) == 130
    ensures Complement11(130) == 2
  {
    assert GoRem(130, 11) == 9;
    assert GoRem(2, 11) == 2;
  }

  /** The test vector of `TestIsbn10Checksum`. */
  lemma Check10Vector()
    ensures CheckDigit10([0, 3, 0, 6, 4, 0, 6, 1, 5]) == 2
  {
    Check10VectorArithmetic();
  }

  /** The 1/3 sum of the `TestIsbn13Checksum` digits and its complement. */
  lemma Check13VectorArithmetic()
    ensures Sum13([9, 7, 8, 0, 3, 0, 6, 4, 0, 6, 1, 5]) == 93
    ensures Complement10(93) == 7
  {
    assert GoRem(93, 10) == 3;
    assert GoRem(7, 10) == 7;
  }

  /** The test vector of `TestIsbn13Checksum`. */
  lemma Check13Vector()
    ensures CheckDigit13([9, 7, 8, 0, 3, 0, 6, 4, 0, 6, 1, 5]) == 7
  {
    Check13VectorArithmetic();
  }
}
