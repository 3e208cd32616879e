/** Character-level part of the ISBN package: the rune sanitiser used with
    `strings.Map`, its inverse `convertDigitsToString`, and the UTF-8 byte
    length that the parser's length ceiling is measured in.

    A Go string is modelled as a Dafny `string`, one `char` per decoded rune. */
module Runes {

  /** Offset of the rune '0' (`integerRuneStart`). */
  const IntegerRuneStart: int := 0x30

  /** Rune that Go substitutes for a value that is not a Unicode scalar value. */
  const RuneError: int := 0xFFFD

  /** True of the characters that the sanitiser keeps. */
  predicate IsIsbnChar(c: char) {
    '0' <= c <= '9' || c == 'X' || c == 'x'
  }

  /** `sanitizeRune`: a digit becomes its value, 'X' and 'x' become 10 and
      every other character becomes -1, which `strings.Map` drops. */
  function SanitizeRune(c: char): (v: int)
    ensures -1 <= v <= 10
    ensures v == -1 <==> !IsIsbnChar(c)
    ensures '0' <= c <= '9' ==> v <= 9 && v + IntegerRuneStart == c as int
    ensures (c == 'X' || c == 'x') ==> v == 10
  {
    if '0' <= c <= '9' then
      c as int - IntegerRuneStart
    else if c == 'X' || c == 'x' then
      10
    else
      -1
  }

  /** `strings.Map(sanitizeRune, s)`: the values of the kept characters, in
      order. */
  function Sanitize(s: string): (d: seq<int>)
    ensures |d| <= |s|
    ensures forall k :: 0 <= k < |d| ==> 0 <= d[k] <= 10
  {
    if s == [] then
      []
    else
      var v := SanitizeRune(s[0]);
      (if v < 0 then [] else [v]) + Sanitize(s[1..])
  }

  /** Sanitising distributes over concatenation. */
  lemma {:induction false} SanitizeAppend(a: string, b: string)
    ensures Sanitize(a + b) == Sanitize(a) + Sanitize(b)
  {
    if a == [] {
      assert a + b == b;
    } else {
      assert (a + b)[0] == a[0];
      assert (a + b)[1..] == a[1..] + b;
      SanitizeAppend(a[1..], b);
    }
  }

  /** Sanitising a string of characters it drops gives nothing. */
  lemma {:induction false} SanitizeDropsAll(s: string)
    requires forall k :: 0 <= k < |s| ==> !IsIsbnChar(s[k])
    ensures Sanitize(s) == []
  {
    if s != [] {
      SanitizeDropsAll(s[1..]);
    }
  }

  /** Sanitising one character keeps its value or drops it. */
  lemma SanitizeSingle(c: char)
    ensures Sanitize([c]) == if IsIsbnChar(c) then [SanitizeRune(c)] else []
  {
    assert [c][1..] == [];
  }

  /** Adding or removing one hyphen anywhere leaves the sanitised sequence as
      it was. */
  lemma SanitizeIgnoresHyphen(a: string, b: string)
    ensures Sanitize(a + "-" + b) == Sanitize(a + b)
  {
    SanitizeAppend(a + "-", b);
    SanitizeAppend(a, "-");
    SanitizeAppend(a, b);
    SanitizeSingle('-');
  }

  /** Number of bytes of the UTF-8 encoding of one character. */
  function Utf8Len(c: char): (n: nat)
    ensures 1 <= n <= 4
    ensures n == 1 <==> c as int < 0x80
  {
    if c as int < 0x80 then 1
    else if c as int < 0x800 then 2
    else if c as int < 0x10000 then 3
    else 4
  }

  /** `len(s)` of a Go string: its length in UTF-8 bytes. */
  function ByteLen(s: string): (n: nat)
    ensures n >= |s|
  {
    if s == [] then 0 else Utf8Len(s[0]) + ByteLen(s[1..])
  }

  /** A string counts one byte per character exactly when it is all ASCII. */
  lemma {:induction false} ByteLenAscii(s: string)
    ensures ByteLen(s) == |s| <==> forall k :: 0 <= k < |s| ==> s[k] as int < 0x80
  {
    if s != [] {
      ByteLenAscii(s[1..]);
      assert forall k :: 1 <= k < |s| ==> s[k] == s[1..][k - 1];
    }
  }

  /** Byte length adds up over concatenation. */
  lemma {:induction false} ByteLenAppend(a: string, b: string)
    ensures ByteLen(a + b) == ByteLen(a) + ByteLen(b)
  {
    if a == [] {
      assert a + b == b;
    } else {
      assert (a + b)[0] == a[0];
      assert (a + b)[1..] == a[1..] + b;
      ByteLenAppend(a[1..], b);
    }
  }

  predicate IsScalarValue(v: int) {
    0 <= v < 0xD800 || 0xE000 <= v < 0x11_0000
  }

  /** The rune a Go conversion to string actually encodes: `v` itself when it
      is a Unicode scalar value, the replacement character otherwise. */
  function EncodedRune(v: int): char {
    if IsScalarValue(v) then v as char else RuneError as char
  }

  /** `convertDigitsToString`: `string(i)` turns each value into a rune, and
      `strings.Map` adds 0x30 to each rune and encodes the sum again. */
  function DigitsToString(i: seq<int>): (s: string)
    ensures |s| == |i|
    ensures forall k :: 0 <= k < |i| && 0 <= i[k] <= 10 ==> s[k] as int == i[k] + IntegerRuneStart
  {
    seq(|i|, k requires 0 <= k < |i| => EncodedRune(EncodedRune(i[k]) as int + IntegerRuneStart))
  }

  /** `convertDigitsToString` reverts `sanitizeRune` on every value 0..9. */
  lemma {:induction false} SanitizeDigitsToString(i: seq<int>)
    requires forall k :: 0 <= k < |i| ==> 0 <= i[k] <= 9
    ensures Sanitize(DigitsToString(i)) == i
  {
    if i != [] {
      var s := DigitsToString(i);
      assert s[1..] == DigitsToString(i[1..]);
      SanitizeDigitsToString(i[1..]);
    }
  }

  /** The value 10 is written as ':', which the sanitiser drops: the
      conversion does not revert 'X'. */
  lemma TenIsNotRestored()
    ensures DigitsToString([10]) == ":"
    ensures Sanitize(DigitsToString([10])) == []
  {
    assert DigitsToString([10])[0] == ':';
  }
}
