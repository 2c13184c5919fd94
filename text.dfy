/** Character-level helpers of the portal: ASCII digit filtering and decimal
    parsing (as the ward detection uses them), decimal rendering of integers
    (Python's str(int)), ASCII lower-casing and plain substring search. */
module Text {

  predicate IsDigit(c: char) {
    '0' <= c <= '9'
  }

  predicate AllDigits(s: string) {
    forall i :: 0 <= i < |s| ==> IsDigit(s[i])
  }

  predicate IsUpper(c: char) {
    'A' <= c <= 'Z'
  }

  // ---------------------------------------------------------------------
  // Digit extraction
  // ---------------------------------------------------------------------

  /** The digit characters of s, kept in their left-to-right order. */
  function Digits(s: string): (r: string)
    ensures AllDigits(r)
    ensures |r| <= |s|
  {
    if s == [] then []
    else (if IsDigit(s[0]) then [s[0]] else []) + Digits(s[1..])
  }

  /** Extraction distributes over concatenation: the digits of a string are
      the digits of its first part followed by the digits of its second part,
      which is what "in left-to-right order" means. */
  lemma {:induction false} DigitsAppend(a: string, b: string)
    ensures Digits(a + b) == Digits(a) + Digits(b)
  {
    if a == [] {
      assert a + b == b;
    } else {
      assert (a + b)[0] == a[0];
      assert (a + b)[1..] == a[1..] + b;
      DigitsAppend(a[1..], b);
    }
  }

  /** A string made only of digits is kept whole. */
  lemma {:induction false} DigitsOfAllDigits(s: string)
    requires AllDigits(s)
    ensures Digits(s) == s
  {
    if s != [] {
      DigitsOfAllDigits(s[1..]);
      assert [s[0]] + s[1..] == s;
    }
  }

  /** Nothing is extracted exactly when the string holds no digit. */
  lemma {:induction false} DigitsEmptyIff(s: string)
    ensures Digits(s) == [] <==> forall i :: 0 <= i < |s| ==> !IsDigit(s[i])
  {
    if s != [] {
      DigitsEmptyIff(s[1..]);
      assert forall i :: 1 <= i < |s| ==> s[i] == s[1..][i - 1];
    }
  }

  /** Every digit of the string survives, in place: the digit at position i
      of s comes right after the digits extracted from s[..i]. */
  lemma DigitAt(s: string, i: nat)
    requires i < |s| && IsDigit(s[i])
    ensures |Digits(s[..i])| < |Digits(s)|
    ensures Digits(s)[|Digits(s[..i])|] == s[i]
  {
    var rest := [s[i]] + s[i + 1..];
    assert s == s[..i] + rest;
    DigitsAppend(s[..i], rest);
    assert rest[0] == s[i] && rest[1..] == s[i + 1..];
    assert Digits(rest) == [s[i]] + Digits(s[i + 1..]);
  }

  // ---------------------------------------------------------------------
  // Decimal numbers: int(digits) and str(n)
  // ---------------------------------------------------------------------

  function DigitValue(c: char): (d: nat)
    requires IsDigit(c)
    ensures d < 10
  {
    c as int - '0' as int
  }

  function DigitChar(d: nat): (c: char)
    requires d < 10
    ensures IsDigit(c) && DigitValue(c) == d
  {
    ('0' as int + d) as char
  }

  function Pow10(k: nat): (p: nat)
    ensures p >= 1
  {
    if k == 0 then 1 else 10 * Pow10(k - 1)
  }

  /** The natural number a digit string denotes, read most significant digit
      first (leading zeros are allowed, as int("007") == 7). */
  function Value(s: string): (n: nat)
    requires AllDigits(s)
    ensures n < Pow10(|s|)
  {
    if s == [] then 0
    else
      var init := s[..|s| - 1];
      assert AllDigits(init) by {
        assert forall i :: 0 <= i < |init| ==> init[i] == s[i];
      }
      var v := Value(init);
      assert v * 10 + 9 < Pow10(|s|) by {
        assert v + 1 <= Pow10(|s| - 1);
        assert (v + 1) * 10 <= Pow10(|s| - 1) * 10;
      }
      v * 10 + DigitValue(s[|s| - 1])
  }

  /** A leading zero does not change the value: int("007") == int("7"). */
  lemma {:induction false} ValueLeadingZero(s: string)
    requires AllDigits(s)
    ensures AllDigits("0" + s) && Value("0" + s) == Value(s)
  {
    var z := "0" + s;
    assert AllDigits(z) by {
      assert forall i :: 1 <= i < |z| ==> z[i] == s[i - 1];
    }
    if s != [] {
      var init := s[..|s| - 1];
      assert AllDigits(init) by {
        assert forall i :: 0 <= i < |init| ==> init[i] == s[i];
      }
      ValueLeadingZero(init);
      assert z[..|z| - 1] == "0" + init;
      assert z[|z| - 1] == s[|s| - 1];
    }
  }

  /** Decimal rendering of a natural number, no leading zeros (str(n)). */
  function NatToString(n: nat): (s: string)
    ensures AllDigits(s) && |s| >= 1
    ensures n > 0 ==> s[0] != '0'
  {
    if n < 10 then [DigitChar(n)]
    else NatToString(n / 10) + [DigitChar(n % 10)]
  }

  /** Decimal rendering of an integer, with a leading '-' when negative. */
  function IntToString(i: int): (s: string)
    ensures i >= 0 ==> s == NatToString(i)
    ensures i < 0 ==> s == "-" + NatToString(-i)
  {
    if i < 0 then "-" + NatToString(-i) else NatToString(i)
  }

  /** Parsing undoes rendering. */
  lemma {:induction false} ValueOfNatToString(n: nat)
    ensures Value(NatToString(n)) == n
  {
    if n >= 10 {
      var s := NatToString(n);
      assert s[..|s| - 1] == NatToString(n / 10);
      ValueOfNatToString(n / 10);
    }
  }

  // ---------------------------------------------------------------------
  // Case folding and substring search
  // ---------------------------------------------------------------------

  function LowerChar(c: char): (r: char)
    ensures !IsUpper(r)
    ensures IsUpper(c) ==> r as int == c as int + 32
    ensures !IsUpper(c) ==> r == c
  {
    if IsUpper(c) then (c as int + 32) as char else c
  }

  /** str.lower(), restricted to the ASCII letters. */
  function Lower(s: string): (r: string)
    ensures |r| == |s|
    ensures forall i :: 0 <= i < |s| ==> r[i] == LowerChar(s[i])
  {
    seq(|s|, i requires 0 <= i < |s| => LowerChar(s[i]))
  }

  lemma LowerIdempotent(s: string)
    ensures Lower(Lower(s)) == Lower(s)
  {
  }

  predicate IsPrefix(p: string, s: string) {
    |p| <= |s| && s[..|p|] == p
  }

  /** needle occurs in hay starting at position i. */
  predicate OccursAt(hay: string, needle: string, i: int) {
    0 <= i <= |hay| - |needle| && hay[i..i + |needle|] == needle
  }

  /** Plain substring test: needle occurs in hay at some position. */
  function Contains(hay: string, needle: string): (b: bool)
    ensures b <==> exists i :: OccursAt(hay, needle, i)
    decreases |hay|
  {
    if |needle| > |hay| then false
    else if IsPrefix(needle, hay) then
      assert OccursAt(hay, needle, 0);
      true
    else
      var rest := Contains(hay[1..], needle);
      assert rest ==> exists i :: OccursAt(hay, needle, i) by {
        if rest {
          var j :| OccursAt(hay[1..], needle, j);
          assert hay[j + 1..j + 1 + |needle|] == hay[1..][j..j + |needle|];
          assert OccursAt(hay, needle, j + 1);
        }
      }
      assert !rest ==> forall i :: !OccursAt(hay, needle, i) by {
        forall i | OccursAt(hay, needle, i)
          ensures i >= 1 && OccursAt(hay[1..], needle, i - 1)
        {
          assert i != 0;
          assert hay[i..i + |needle|] == hay[1..][i - 1..i - 1 + |needle|];
        }
      }
      rest
  }

  /** Case-insensitive containment (pandas str.contains with case=False). */
  predicate ContainsIgnoreCase(hay: string, needle: string) {
    Contains(Lower(hay), Lower(needle))
  }

  /** Case does not matter on either side. */
  lemma ContainsIgnoreCaseLower(hay: string, needle: string)
    ensures ContainsIgnoreCase(hay, needle) == ContainsIgnoreCase(Lower(hay), Lower(needle))
  {
    LowerIdempotent(hay);
    LowerIdempotent(needle);
  }
}
