/** Concrete digit sequences and what the validators and renderers do with
    them. The sanitiser step from text is covered by the general lemmas of
    `Runes` and `Isbn`.

    Each sum over a concrete sequence is evaluated in a lemma of its own,
    so that the lemma about the validator only combines the values. */
module Vectors {
  import opened Runes
  import opened Checksum
  import opened Isbn

  /** Sanitising keeps digits and 'x' and drops hyphens. */
  lemma SanitizeSample()
    ensures Sanitize("0-3x") == [0, 3, 10]
  {
  }

  /** Sanitising drops a letter O in place of a zero. */
  lemma SanitizeDropsLetterO()
    ensures Sanitize("9O8") == [9, 8]
  {
  }

  /** Weighted sum and check value of 0-672-32356. */
  lemma Isbn10Arithmetic()
    ensures Sum10([0, 6, 7, 2, 3, 2, 3, 5, 6]) == 191
    ensures Complement11(191) == 7
  {
    assert GoRem(191, 11) == 4;
    assert GoRem(7, 11) == 7;
  }

  /** The ISBN-10 0-672-32356-7 is accepted; its body is 978 and its ten
      digits. */
  lemma AcceptsIsbn10()
    ensures Parse10([0, 6, 7, 2, 3, 2, 3, 5, 6, 7]) == Ok(Parsed([9, 7, 8] + [0, 6, 7, 2, 3, 2, 3, 5, 6, 7]))
  {
    assert Window10([0, 6, 7, 2, 3, 2, 3, 5, 6, 7]) == [0, 6, 7, 2, 3, 2, 3, 5, 6];
    Isbn10Arithmetic();
  }

  /** Weighted sum and check value of X00000000. */
  lemma LeadingXArithmetic()
    ensures Sum10([10, 0, 0, 0, 0, 0, 0, 0, 0]) == 100
    ensures Complement11(100) == 10
  {
    assert GoRem(100, 11) == 1;
    assert GoRem(10, 11) == 10;
  }

  /** The check value 10, written 'X', is accepted in any position: here
      first and last. */
  lemma AcceptsLeadingX()
    ensures Parse10([10, 0, 0, 0, 0, 0, 0, 0, 0, 10]).Ok?
  {
    assert Window10([10, 0, 0, 0, 0, 0, 0, 0, 0, 10]) == [10, 0, 0, 0, 0, 0, 0, 0, 0];
    LeadingXArithmetic();
  }

  /** Weighted sum and check value of 0-067232357 without its last digit. */
  lemma BadSbnArithmetic()
    ensures Sum10([0, 0, 6, 7, 2, 3, 2, 3, 5]) == 151
    ensures Complement11(151) == 3
  {
    assert GoRem(151, 11) == 8;
    assert GoRem(3, 11) == 3;
  }

  /** The SBN 067232357 fails on its check digit: `check10` of 0 and its
      first eight digits is 3. */
  lemma RejectsBadSbn()
    ensures ParseSbn([0, 6, 7, 2, 3, 2, 3, 5, 7]) == Err(InvalidChecksum10)
  {
    assert [0] + [0, 6, 7, 2, 3, 2, 3, 5, 7] == [0, 0, 6, 7, 2, 3, 2, 3, 5, 7];
    assert Window10([0, 0, 6, 7, 2, 3, 2, 3, 5, 7]) == [0, 0, 6, 7, 2, 3, 2, 3, 5];
    BadSbnArithmetic();
  }

  /** A body that starts 977 fails on its prefix before any checksum is
      computed. */
  lemma RejectsOtherGs1()
    ensures Parse13([9, 7, 7, 0, 3, 0, 6, 4, 0, 6, 1, 5, 7]) == Err(InvalidGs1)
  {
    var s := [9, 7, 7, 0, 3, 0, 6, 4, 0, 6, 1, 5, 7];
    assert s[..3][2] == 7;
  }

  /** A trailing 10 never passes the ISBN-13 check. */
  lemma RejectsIsbn13TrailingX()
    ensures Parse13([9, 7, 8, 0, 3, 0, 6, 4, 0, 6, 1, 5, 10]) == Err(InvalidChecksum13)
  {
  }

  /** `isbn10` of 978-0-306-40615-7 writes "0306406157", whose last digit is
      the ISBN-13 check digit where the ISBN-10 check digit is 2, and then
      the character with code 7. */
  lemma Isbn10KeepsIsbn13CheckDigit()
    ensures FormatIsbn10(Parsed([9, 7, 8, 0, 3, 0, 6, 4, 0, 6, 1, 5, 7]))
      == DigitsToString([0, 3, 0, 6, 4, 0, 6, 1, 5, 7]) + [7 as char]
    ensures DigitsToString([0, 3, 0, 6, 4, 0, 6, 1, 5, 7])[9] == '7'
    ensures CheckDigit10([0, 3, 0, 6, 4, 0, 6, 1, 5]) == 2
  {
    var ten := [0, 3, 0, 6, 4, 0, 6, 1, 5, 7];
    assert [9, 7, 8] + ten == [9, 7, 8, 0, 3, 0, 6, 4, 0, 6, 1, 5, 7];
    assert [9, 7, 8] + ten[..9] == [9, 7, 8, 0, 3, 0, 6, 4, 0, 6, 1, 5];
    PrefixedCheck13([9, 7, 8], ten);
    Check13Vector();
    Check10Vector();
  }

  /** The 1/3 sum and check digit of 978-0-672-32356. */
  lemma Isbn13OfIsbn10Arithmetic()
    ensures Sum13([9, 7, 8, 0, 6, 7, 2, 3, 2, 3, 5, 6]) == 110
    ensures Complement10(110) == 0
  {
    assert GoRem(110, 10) == 0;
    assert GoRem(10, 10) == 0;
  }

  /** The ISBN-13 check digit of 978-0-672-32356 is 0. */
  lemma Check13OfIsbn10Vector()
    ensures CheckDigit13([9, 7, 8, 0, 6, 7, 2, 3, 2, 3, 5, 6]) == 0
  {
    Isbn13OfIsbn10Arithmetic();
  }

  /** The `isbn13` text of 978 and the digits 0-672-32356-7, given as a
      parameter that the precondition fixes to that one sequence, does not
      parse again. `Isbn.TenBodyReparses` is the general statement. */
  lemma TenDigitsDoNotReparse(ten: seq<int>)
    requires |ten| == 10 && ten[..9] == [0, 6, 7, 2, 3, 2, 3, 5, 6] && ten[9] == 7
    ensures Parse(FormatIsbn13(Parsed([9, 7, 8] + ten))).Err?
  {
    assert [9, 7, 8] + ten[..9] == [9, 7, 8, 0, 6, 7, 2, 3, 2, 3, 5, 6];
    assert forall k :: 0 <= k < 10 ==> 0 <= ten[k] <= 9 by {
      assert forall k :: 0 <= k < 9 ==> ten[k] == ten[..9][k];
    }
    Check13OfIsbn10Vector();
    TenBodyReparses(ten);
  }

  /** The text `isbn13` writes for the ISBN-10 0-672-32356-7 does not parse
      again: it carries the ISBN-10 check digit 7 where the ISBN-13 check
      digit is 0. */
  lemma Isbn13OfIsbn10DoesNotReparse()
    ensures Parse(FormatIsbn13(Parsed([9, 7, 8] + [0, 6, 7, 2, 3, 2, 3, 5, 6, 7]))).Err?
  {
    TenDigitsDoNotReparse([0, 6, 7, 2, 3, 2, 3, 5, 6, 7]);
  }
}
