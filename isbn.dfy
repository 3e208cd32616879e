/** The parser and the converters of the ISBN package: `parse` strips an
    optional `urn:isbn:` prefix, applies the 17-byte ceiling, sanitises and
    dispatches on the number of digits to the SBN, ISBN-10 or ISBN-13
    validator; `SBN`, `ISBN10` and `ISBN13` render a parsed body.

    Every successful parse yields a 13-entry body starting 978 or 979. */
module Isbn {
  import opened Runes
  import opened Checksum

  /** `urnPrefix` */
  const UrnPrefix: string := "urn:isbn:"

  /** Longest accepted input after the prefix: 13 digits and 4 hyphens. */
  const MaxLength: nat := 13 + 4

  /** The conditions the package reports with `fmt.Errorf`. */
  datatype Error =
    | TooLong                  // input longer than MaxLength bytes
    | InvalidLength(length: nat) // sanitised length not 9, 10 or 13
    | InvalidGs1               // 13 digits not starting 978 or 979
    | InvalidChecksum10        // SBN or ISBN-10 check digit mismatch
    | InvalidChecksum13        // ISBN-13 check digit mismatch
    | Gs1Not978                // ISBN-10 requested for a 979 number
    | GroupNotZero             // SBN requested for a group other than 0

  datatype Result<T> = Ok(value: T) | Err(error: Error)

  /** The `parsed` record: the digit values of the number in ISBN-13 layout. */
  datatype Parsed = Parsed(body: seq<int>)

  predicate StartsWith(s: string, p: string) {
    |p| <= |s| && s[..|p|] == p
  }

  /** `strings.TrimPrefix`: removes one leading occurrence of `p`, if any. */
  function TrimPrefix(s: string, p: string): (t: string)
    ensures StartsWith(s, p) ==> p + t == s
    ensures !StartsWith(s, p) ==> t == s
  {
    if StartsWith(s, p) then s[|p|..] else s
  }

  /** The GS1 prefixes of book numbers: 978 and 979. */
  predicate HasGs1Prefix(d: seq<int>)
    requires |d| >= 3
  {
    d[..3] == [9, 7, 8] || d[..3] == [9, 7, 9]
  }

  /** What every successful parse yields. */
  predicate ValidBody(b: seq<int>) {
    |b| == 13 && HasGs1Prefix(b) && forall k :: 0 <= k < 13 ==> 0 <= b[k] <= 10
  }

  /** ISO 2108 statement of a valid ISBN-10: ten values whose sum with weights
      10 down to 1 is a multiple of eleven. */
  predicate Mod11Valid(d: seq<int>) {
    |d| == 10 && (forall k :: 0 <= k < 10 ==> 0 <= d[k] <= 10) && Sum10(d) % 11 == 0
  }

  /** GS1 statement of a valid ISBN-13: thirteen values with a book prefix, a
      decimal last digit, and a sum with weights 1,3,1,... that is a multiple
      of ten. */
  predicate Mod10Valid(d: seq<int>) {
    |d| == 13 && (forall k :: 0 <= k < 13 ==> 0 <= d[k] <= 10)
    && HasGs1Prefix(d) && d[12] <= 9 && Sum13(d) % 10 == 0
  }

  /** `parse10`: accepts when `check10` equals the last value; the body is
      978 followed by all the values, the old check digit included. */
  function Parse10(s: seq<int>): (r: Result<Parsed>)
    requires |s| >= 1
    ensures r.Ok? <==> CheckDigit10(s) == s[|s| - 1]
    ensures r.Err? ==> r.error == InvalidChecksum10
    ensures r.Ok? ==> r.value.body == [9, 7, 8] + s
  {
    if CheckDigit10(s) != s[|s| - 1] then
      Err(InvalidChecksum10)
    else
      Ok(Parsed([9, 7, 8] + s))
  }

  /** `parseSbn`: an SBN is the ISBN-10 with a leading 0. */
  function ParseSbn(s: seq<int>): (r: Result<Parsed>)
    ensures r.Err? ==> r.error == InvalidChecksum10
    ensures r.Ok? ==> r.value.body == [9, 7, 8, 0] + s
  {
    Parse10([0] + s)
  }

  /** `parse13`: the prefix is checked before the check digit; the body is the
      values unchanged. */
  function Parse13(s: seq<int>): (r: Result<Parsed>)
    requires |s| >= 3
    ensures !HasGs1Prefix(s) ==> r == Err(InvalidGs1)
    ensures HasGs1Prefix(s) ==> (r.Ok? <==> CheckDigit13(s) == s[|s| - 1])
    ensures HasGs1Prefix(s) && r.Err? ==> r.error == InvalidChecksum13
    ensures r.Ok? ==> r.value.body == s
  {
    if s[..3] != [9, 7, 8] && s[..3] != [9, 7, 9] then
      Err(InvalidGs1)
    else if CheckDigit13(s) != s[|s| - 1] then
      Err(InvalidChecksum13)
    else
      Ok(Parsed(s))
  }

  /** 978 followed by ten values in 0..10 is a well-formed body. */
  lemma Gs1BodyValid(ten: seq<int>)
    requires |ten| == 10 && forall k :: 0 <= k < 10 ==> 0 <= ten[k] <= 10
    ensures ValidBody([9, 7, 8] + ten)
  {
    assert ([9, 7, 8] + ten)[..3] == [9, 7, 8];
  }

  /** `parse`. */
  function Parse(s: string): (r: Result<Parsed>)
    ensures r.Ok? ==> ValidBody(r.value.body)
    ensures r == Err(TooLong) <==> ByteLen(TrimPrefix(s, UrnPrefix)) > MaxLength
    ensures (r.Err? && r.error.InvalidLength?) <==>
              ByteLen(TrimPrefix(s, UrnPrefix)) <= MaxLength
              && |Sanitize(TrimPrefix(s, UrnPrefix))| !in {9, 10, 13}
    ensures r.Err? && r.error.InvalidLength? ==> r.error.length == |Sanitize(TrimPrefix(s, UrnPrefix))|
    ensures var d := Sanitize(TrimPrefix(s, UrnPrefix));
      r.Err? && |d| in {9, 10} ==> r.error in {TooLong, InvalidChecksum10}
    ensures var d := Sanitize(TrimPrefix(s, UrnPrefix));
      r.Err? && |d| == 13 ==> r.error in {TooLong, if HasGs1Prefix(d) then InvalidChecksum13 else InvalidGs1}
  {
    var t := TrimPrefix(s, UrnPrefix);
    if ByteLen(t) > MaxLength then
      Err(TooLong)
    else
      var runes := Sanitize(t);
      if |runes| == 9 then
        Gs1BodyValid([0] + runes);
        ParseSbn(runes)
      else if |runes| == 10 then
        Gs1BodyValid(runes);
        Parse10(runes)
      else if |runes| == 13 then
        Parse13(runes)
      else
        Err(InvalidLength(|runes|))
  }

  /** The ISBN-10 validator agrees with the mod-11 reference definition. */
  lemma Parse10Accepts(s: seq<int>)
    requires |s| == 10 && forall k :: 0 <= k < 10 ==> 0 <= s[k] <= 10
    ensures Parse10(s).Ok? <==> Mod11Valid(s)
  {
    Check10Agrees(s);
  }

  /** An SBN is accepted exactly when 0 followed by it is a valid ISBN-10. */
  lemma ParseSbnAccepts(s: seq<int>)
    requires |s| == 9 && forall k :: 0 <= k < 9 ==> 0 <= s[k] <= 10
    ensures ParseSbn(s).Ok? <==> Mod11Valid([0] + s)
  {
    Parse10Accepts([0] + s);
  }

  /** The ISBN-13 validator agrees with the mod-10 reference definition; in
      particular a trailing 'X' is never accepted. */
  lemma Parse13Accepts(s: seq<int>)
    requires |s| == 13 && forall k :: 0 <= k < 13 ==> 0 <= s[k] <= 10
    ensures Parse13(s).Ok? <==> Mod10Valid(s)
  {
    if s[12] <= 9 {
      Check13Agrees(s);
    }
  }

  /** The body a successful parse yields, in terms of the sanitised digits
      `d`: the ISBN-13 itself, or 978 and the ISBN-10, or 9780 and the SBN. */
  lemma ParseBody(s: string)
    requires Parse(s).Ok?
    ensures var d := Sanitize(TrimPrefix(s, UrnPrefix));
      Parse(s).value.body == if |d| == 13 then d else if |d| == 10 then [9, 7, 8] + d else [9, 7, 8, 0] + d
  {
  }

  /** What `parse` accepts, in terms of the sanitised digits `d` and the
      reference definitions, and the body it then yields. */
  lemma ParseAccepts(s: string)
    requires ByteLen(TrimPrefix(s, UrnPrefix)) <= MaxLength
    ensures var d := Sanitize(TrimPrefix(s, UrnPrefix));
      Parse(s).Ok? <==>
        (|d| == 9 && Mod11Valid([0] + d)) || (|d| == 10 && Mod11Valid(d)) || (|d| == 13 && Mod10Valid(d))
    ensures var d := Sanitize(TrimPrefix(s, UrnPrefix));
      Parse(s).Ok? ==>
        Parse(s).value.body == if |d| == 13 then d else if |d| == 10 then [9, 7, 8] + d else [9, 7, 8, 0] + d
  {
    var d := Sanitize(TrimPrefix(s, UrnPrefix));
    if |d| == 9 {
      ParseSbnAccepts(d);
    } else if |d| == 10 {
      Parse10Accepts(d);
    } else if |d| == 13 {
      Parse13Accepts(d);
    }
  }

  /** The characters of the prefix are all dropped by the sanitiser. */
  lemma SanitizeUrnPrefix()
    ensures Sanitize(UrnPrefix) == []
  {
    SanitizeDropsAll(UrnPrefix);
  }

  /** The prefix is nine ASCII characters, nine bytes. */
  lemma UrnPrefixBytes()
    ensures ByteLen(UrnPrefix) == |UrnPrefix| == 9
  {
    ByteLenAscii(UrnPrefix);
  }

  /** One leading `urn:isbn:` makes no difference to the outcome. */
  lemma ParseStripsUrn(s: string)
    requires !StartsWith(s, UrnPrefix)
    ensures Parse(UrnPrefix + s) == Parse(s)
  {
    assert (UrnPrefix + s)[..|UrnPrefix|] == UrnPrefix;
    assert (UrnPrefix + s)[|UrnPrefix|..] == s;
  }

  /** Only one prefix is stripped: a doubled prefix is never accepted, since
      the second one counts toward the ceiling and leaves at most 8 bytes. */
  lemma DoubledUrnRejected(s: string)
    ensures Parse(UrnPrefix + UrnPrefix + s).Err?
  {
    var u := UrnPrefix + UrnPrefix + s;
    assert u[..|UrnPrefix|] == UrnPrefix;
    assert u[|UrnPrefix|..] == UrnPrefix + s;
    ByteLenAppend(UrnPrefix, s);
    SanitizeAppend(UrnPrefix, s);
    SanitizeUrnPrefix();
    UrnPrefixBytes();
  }

  /** The prefix holds no hyphen, so a hyphen cannot complete it. */
  lemma HyphenAddsNoPrefix(a: string, b: string)
    ensures StartsWith(a + "-" + b, UrnPrefix) ==> StartsWith(a + b, UrnPrefix)
  {
    var h := a + "-" + b;
    if |a| < |UrnPrefix| {
      assert |a| < |h| && h[|a|] == '-';
    } else {
      assert |UrnPrefix| <= |h| ==> h[..|UrnPrefix|] == a[..|UrnPrefix|] == (a + b)[..|UrnPrefix|];
    }
  }

  /** Adding or removing one hyphen anywhere leaves the outcome as it was, as
      long as the hyphenated text stays within the ceiling. */
  lemma ParseIgnoresHyphen(a: string, b: string)
    requires !StartsWith(a + b, UrnPrefix)
    requires ByteLen(a + "-" + b) <= MaxLength
    ensures Parse(a + "-" + b) == Parse(a + b)
  {
    var h := a + "-" + b;
    HyphenAddsNoPrefix(a, b);
    assert TrimPrefix(h, UrnPrefix) == h;
    assert TrimPrefix(a + b, UrnPrefix) == a + b;
    SanitizeIgnoresHyphen(a, b);
    ByteLenAppend(a + "-", b);
    ByteLenAppend(a, "-");
    ByteLenAppend(a, b);
    assert ByteLen(a + b) < ByteLen(h);
  }

  /** The hyphen rule for text behind one `urn:isbn:` prefix: adding or
      removing a hyphen after the prefix leaves the outcome as it was. */
  lemma ParseIgnoresHyphenAfterUrn(a: string, b: string)
    requires !StartsWith(a + b, UrnPrefix)
    requires ByteLen(a + "-" + b) <= MaxLength
    ensures Parse(UrnPrefix + (a + "-" + b)) == Parse(UrnPrefix + (a + b))
  {
    HyphenAddsNoPrefix(a, b);
    ParseStripsUrn(a + "-" + b);
    ParseStripsUrn(a + b);
    ParseIgnoresHyphen(a, b);
  }

  /** `isbn13`: all thirteen body values as characters, then the character
      whose code is `check13` of the body. */
  function FormatIsbn13(p: Parsed): (out: string)
    ensures |out| == |p.body| + 1
    ensures forall k :: 0 <= k < |p.body| && 0 <= p.body[k] <= 10 ==> out[k] as int == p.body[k] + IntegerRuneStart
    ensures out[|p.body|] as int == CheckDigit13(p.body)
    ensures ValidBody(p.body) ==>
      out[..3] in {"978", "979"} && 0 <= out[13] as int <= 9
  {
    var out := DigitsToString(p.body) + [CheckDigit13(p.body) as char];
    assert ValidBody(p.body) ==> out[..3] == [out[0], out[1], out[2]];
    out
  }

  /** `isbn10`: the body after the GS1 prefix as characters, then the
      character whose code is `check13` of the whole body. */
  function FormatIsbn10(p: Parsed): (out: string)
    requires |p.body| >= 3
    ensures |out| == |p.body| - 2
    ensures forall k :: 3 <= k < |p.body| && 0 <= p.body[k] <= 10 ==> out[k - 3] as int == p.body[k] + IntegerRuneStart
    ensures out[|out| - 1] as int == CheckDigit13(p.body)
    ensures 0 <= out[|out| - 1] as int <= 9
  {
    DigitsToString(p.body[3..]) + [CheckDigit13(p.body) as char]
  }

  /** `SBN`. */
  function Sbn(s: string): (r: Result<string>)
    ensures Parse(s).Err? ==> r == Err(Parse(s).error)
    ensures Parse(s).Ok? ==> (r.Err? <==> Parse(s).value.body[3] != 0)
    ensures Parse(s).Ok? && r.Err? ==> r.error == GroupNotZero
    ensures r.Ok? ==>
      var b := Parse(s).value.body;
      |r.value| == 10 && r.value[..9] == DigitsToString(b[4..]) && r.value[9] as int == CheckDigit13(b)
  {
    match Parse(s)
    case Err(e) => Err(e)
    case Ok(p) =>
      if p.body[3] != 0 then
        Err(GroupNotZero)
      else
        Ok(DigitsToString(p.body[4..]) + [CheckDigit13(p.body) as char])
  }

  /** `ISBN10`. */
  function Isbn10(s: string): (r: Result<string>)
    ensures Parse(s).Err? ==> r == Err(Parse(s).error)
    ensures Parse(s).Ok? ==> (r.Err? <==> Parse(s).value.body[..3] != [9, 7, 8])
    ensures Parse(s).Ok? && r.Err? ==> r.error == Gs1Not978
    ensures r.Ok? ==>
      var b := Parse(s).value.body;
      |r.value| == 11 && r.value[..10] == DigitsToString(b[3..]) && r.value[10] as int == CheckDigit13(b)
  {
    match Parse(s)
    case Err(e) => Err(e)
    case Ok(p) =>
      if p.body[..3] != [9, 7, 8] then
        Err(Gs1Not978)
      else
        Ok(FormatIsbn10(p))
  }

  /** `ISBN13`. */
  function Isbn13(s: string): (r: Result<string>)
    ensures Parse(s).Err? ==> r == Err(Parse(s).error)
    ensures Parse(s).Ok? ==> r.Ok?
    ensures r.Ok? ==>
      var b := Parse(s).value.body;
      |r.value| == 14 && r.value[..13] == DigitsToString(b) && r.value[13] as int == CheckDigit13(b)
  {
    match Parse(s)
    case Err(e) => Err(e)
    case Ok(p) => Ok(FormatIsbn13(p))
  }

  /** The ten ISBN-10 digits of a nine-digit SBN or a ten-digit ISBN-10. */
  function AsTen(d: seq<int>): seq<int> {
    if |d| == 9 then [0] + d else d
  }

  /** Padding an SBN with 0 keeps its values decimal. */
  lemma AsTenDecimal(d: seq<int>)
    requires |d| in {9, 10} && forall k :: 0 <= k < |d| ==> 0 <= d[k] <= 9
    ensures |AsTen(d)| == 10 && forall k :: 0 <= k < 10 ==> 0 <= AsTen(d)[k] <= 9
  {
    if |d| == 9 {
      assert forall k :: 1 <= k < 10 ==> AsTen(d)[k] == d[k - 1];
    }
  }

  /** `check13` of a 13-value body does not depend on its last value. */
  lemma PrefixedCheck13(p: seq<int>, d: seq<int>)
    requires |p| + |d| == 13 && |d| >= 1
    ensures CheckDigit13(p + d) == CheckDigit13(p + d[..|d| - 1])
  {
    assert p + d == (p + d[..|d| - 1]) + [d[|d| - 1]];
    Check13IgnoresLast(p + d[..|d| - 1], d[|d| - 1]);
  }

  /** The body of an SBN or ISBN-10 input is 978 and its ten digits; its
      `check13` is that of 978 and the first nine. */
  lemma TenDigitBody(s: string)
    requires Parse(s).Ok?
    requires |Sanitize(TrimPrefix(s, UrnPrefix))| in {9, 10}
    ensures var ten := AsTen(Sanitize(TrimPrefix(s, UrnPrefix)));
      |ten| == 10 && Parse(s).value.body == [9, 7, 8] + ten
      && CheckDigit13(Parse(s).value.body) == CheckDigit13([9, 7, 8] + ten[..9])
  {
    ParseBody(s);
    var d := Sanitize(TrimPrefix(s, UrnPrefix));
    var ten := AsTen(d);
    if |d| == 9 {
      assert [9, 7, 8, 0] + d == [9, 7, 8] + ten;
    }
    PrefixedCheck13([9, 7, 8], ten);
  }


  /** For an SBN or ISBN-10 input `ISBN10` never reports a 979 prefix. It
      echoes the ten digits, 0 first for an SBN, the old check digit
      included, and appends the character whose code is the ISBN-13 check
      digit of 978 and the first nine of them. */
  lemma Isbn10OfTenDigits(s: string)
    requires Parse(s).Ok?
    requires |Sanitize(TrimPrefix(s, UrnPrefix))| in {9, 10}
    ensures Isbn10(s).Ok?
    ensures var d := Sanitize(TrimPrefix(s, UrnPrefix));
      var ten := AsTen(d);
      Isbn10(s).value[..10] == DigitsToString(ten)
      && Isbn10(s).value[10] as int == CheckDigit13([9, 7, 8] + ten[..9])
  {
    TenDigitBody(s);
    var b := Parse(s).value.body;
    assert b[3..] == AsTen(Sanitize(TrimPrefix(s, UrnPrefix)));
  }

  /** For an SBN input `SBN` never reports a group other than 0: it echoes
      the nine digits and appends the character whose code is the ISBN-13
      check digit of 9780 and the first eight of them. */
  lemma SbnOfNineDigits(s: string)
    requires Parse(s).Ok?
    requires |Sanitize(TrimPrefix(s, UrnPrefix))| == 9
    ensures Sbn(s).Ok?
    ensures var d := Sanitize(TrimPrefix(s, UrnPrefix));
      Sbn(s).value[..9] == DigitsToString(d)
      && Sbn(s).value[9] as int == CheckDigit13([9, 7, 8, 0] + d[..8])
  {
    ParseBody(s);
    var d := Sanitize(TrimPrefix(s, UrnPrefix));
    var b := Parse(s).value.body;
    assert b[3] == 0 && b[4..] == d;
    PrefixedCheck13([9, 7, 8, 0], d);
  }


  /** For an ISBN-13 input `ISBN13` echoes the thirteen digits and appends
      the character whose code is the input's own check digit. */
  lemma Isbn13OfThirteenDigits(s: string)
    requires Parse(s).Ok?
    requires |Sanitize(TrimPrefix(s, UrnPrefix))| == 13
    ensures var d := Sanitize(TrimPrefix(s, UrnPrefix));
      Isbn13(s).value[..13] == DigitsToString(d) && Isbn13(s).value[13] as int == d[12]
  {
    ParseBody(s);
  }

  /** For an SBN or ISBN-10 input `ISBN13` echoes 978 and the ten digits, the
      ISBN-10 check digit included, and appends the character whose code is
      the ISBN-13 check digit of 978 and the first nine of them. */
  lemma Isbn13OfTenDigits(s: string)
    requires Parse(s).Ok?
    requires |Sanitize(TrimPrefix(s, UrnPrefix))| in {9, 10}
    ensures var d := Sanitize(TrimPrefix(s, UrnPrefix));
      var ten := AsTen(d);
      Isbn13(s).value[..13] == DigitsToString([9, 7, 8] + ten)
      && Isbn13(s).value[13] as int == CheckDigit13([9, 7, 8] + ten[..9])
  {
    TenDigitBody(s);
  }

  /** The text `ISBN13` writes: ASCII digits (or ':'), then a control
      character; the sanitiser recovers the body from it when no value is 10. */
  lemma FormatIsbn13Sanitizes(b: seq<int>)
    requires |b| == 13 && forall k :: 0 <= k < 13 ==> 0 <= b[k] <= 9
    ensures var out := FormatIsbn13(Parsed(b));
      ByteLen(out) == 14 && !StartsWith(out, UrnPrefix) && Sanitize(out) == b
  {
    var out := FormatIsbn13(Parsed(b));
    var c := CheckDigit13(b) as char;
    assert out == DigitsToString(b) + [c];
    assert out[0] != UrnPrefix[0];
    assert forall k :: 0 <= k < |out| ==> out[k] as int < 0x80;
    ByteLenAscii(out);
    SanitizeAppend(DigitsToString(b), [c]);
    SanitizeDigitsToString(b);
    assert Sanitize([c]) == [] by {
      SanitizeDropsAll([c]);
    }
  }

  /** Parsing the text `isbn13` writes for a body of decimal digits reads
      the body back as an ISBN-13. */
  lemma FormatIsbn13Reparses(b: seq<int>)
    requires |b| == 13 && forall k :: 0 <= k < 13 ==> 0 <= b[k] <= 9
    ensures Parse(FormatIsbn13(Parsed(b))) == Parse13(b)
  {
    FormatIsbn13Sanitizes(b);
    var out := FormatIsbn13(Parsed(b));
    assert TrimPrefix(out, UrnPrefix) == out;
  }

  /** Parsing the text `ISBN13` returns for an ISBN-13 input whose digits are
      all decimal gives back the same body. */
  lemma Isbn13ThirteenReparses(s: string)
    requires Parse(s).Ok?
    requires |Sanitize(TrimPrefix(s, UrnPrefix))| == 13
    requires var d := Sanitize(TrimPrefix(s, UrnPrefix));
      forall k :: 0 <= k < 13 ==> d[k] <= 9
    ensures Parse(Isbn13(s).value) == Parse(s)
  {
    ParseBody(s);
    FormatIsbn13Reparses(Parse(s).value.body);
  }

  /** The text `isbn13` writes for the body 978 followed by ten decimal
      digits parses again exactly when the last digit is the ISBN-13 check
      digit of the other twelve. */
  lemma TenBodyReparses(ten: seq<int>)
    requires |ten| == 10 && forall k :: 0 <= k < 10 ==> 0 <= ten[k] <= 9
    ensures Parse(FormatIsbn13(Parsed([9, 7, 8] + ten))).Ok? <==> CheckDigit13([9, 7, 8] + ten[..9]) == ten[9]
  {
    var b := [9, 7, 8] + ten;
    assert b[..3] == [9, 7, 8];
    assert forall k :: 3 <= k < 13 ==> b[k] == ten[k - 3];
    FormatIsbn13Reparses(b);
    PrefixedCheck13([9, 7, 8], ten);
  }

  /** Parsing the text `ISBN13` returns for an SBN or ISBN-10 input reads 978,
      the ten digits and the ISBN-10 check digit as an ISBN-13, so it
      succeeds only when that digit happens to be the ISBN-13 check digit. */
  lemma Isbn13TenReparses(s: string)
    requires Parse(s).Ok?
    requires |Sanitize(TrimPrefix(s, UrnPrefix))| in {9, 10}
    requires var d := Sanitize(TrimPrefix(s, UrnPrefix));
      forall k :: 0 <= k < |d| ==> d[k] <= 9
    ensures var d := Sanitize(TrimPrefix(s, UrnPrefix));
      var ten := AsTen(d);
      Parse(Isbn13(s).value).Ok? <==> CheckDigit13([9, 7, 8] + ten[..9]) == ten[9]
  {
    TenDigitBody(s);
    var d := Sanitize(TrimPrefix(s, UrnPrefix));
    var ten := AsTen(d);
    AsTenDecimal(d);
    assert Isbn13(s).value == FormatIsbn13(Parsed([9, 7, 8] + ten));
    TenBodyReparses(ten);
  }
}
