/**
 * The two shape checks of the contact form (assets/js/form.js):
 *   isValidEmail:  /^[^\s@]+@[^\s@]+\.[^\s@]+$/
 *   isValidPhone:  /^[+]?[\d\s()-]{7,20}$/
 * Each regular expression is given twice: its literal meaning as a ghost
 * predicate (a whole-string match, with the split points existentially
 * chosen), and an executable check; a lemma proves the two agree on every
 * string.
 */
module Patterns {
  import opened Text

  /** The class `[^\s@]`. */
  predicate IsNameChar(c: char) {
    !IsWhitespace(c) && c != '@'
  }

  predicate AllNameChars(s: string) {
    forall k | 0 <= k < |s| :: IsNameChar(s[k])
  }

  /** Meaning of the email pattern: one or more name characters, `@`, one or more, `.`, one or more. */
  ghost predicate EmailPattern(s: string)
    ensures EmailPattern(s) ==> |s| >= 5
  {
    exists i, j | 1 <= i && i + 2 <= j && j + 2 <= |s| ::
      && s[i] == '@' && s[j] == '.'
      && AllNameChars(s[..i]) && AllNameChars(s[i + 1..j]) && AllNameChars(s[j + 1..])
  }

  /** Position of the first `c` in `s`, or `|s|` when there is none. */
  function IndexOf(s: string, c: char): (r: nat)
    ensures r <= |s|
    ensures r < |s| ==> s[r] == c
    ensures forall k | 0 <= k < r :: s[k] != c
  {
    if s == [] || s[0] == c then 0 else 1 + IndexOf(s[1..], c)
  }

  /** The domain holds a `.` that is neither its first nor its last character. */
  predicate HasInnerDot(domain: string) {
    |domain| >= 3 && '.' in domain[1..|domain| - 1]
  }

  /**
   * isValidEmail: no white space, exactly one `@`, a non-empty part before
   * it, and a domain after it with a `.` strictly inside.
   */
  predicate IsValidEmail(s: string)
    ensures IsValidEmail(s) ==> |s| >= 5 && '@' in s
  {
    && NoWhitespace(s)
    && multiset(s)['@'] == 1
    && var at := IndexOf(s, '@');
    && 0 < at < |s|
    && HasInnerDot(s[at + 1..])
  }

  /** A character found at two positions is counted at least twice. */
  lemma TwoPositions(s: string, i: nat, k: nat)
    requires i < |s| && k < |s| && i != k
    ensures s[i] == s[k] ==> multiset(s)[s[i]] >= 2
  {
    if s[i] == s[k] {
      var lo, hi := if i < k then i else k, if i < k then k else i;
      assert s == s[..hi] + s[hi..];
      assert s[..hi][lo] == s[i];
      assert s[hi..][0] == s[i];
    }
  }

  /** With exactly one `@`, every other position holds something else. */
  lemma OnlyOneAt(s: string, at: nat)
    requires at < |s| && s[at] == '@' && multiset(s)['@'] == 1
    ensures forall k | 0 <= k < |s| && k != at :: s[k] != '@'
  {
    forall k | 0 <= k < |s| && k != at
      ensures s[k] != '@'
    {
      TwoPositions(s, at, k);
    }
  }

  /** Every string the executable email check accepts matches the pattern. */
  lemma {:induction false} EmailCheckSound(s: string)
    requires IsValidEmail(s)
    ensures EmailPattern(s)
  {
    var at := IndexOf(s, '@');
    var d := s[at + 1..];
    var m :| 0 <= m < |d| - 2 && d[1..|d| - 1][m] == '.';
    var j := at + 2 + m;
    OnlyOneAt(s, at);
    assert s[j] == '.';
    assert AllNameChars(s[..at]);
    assert AllNameChars(s[at + 1..j]);
    assert AllNameChars(s[j + 1..]);
  }

  /** A character found at one position only is counted once. */
  lemma CountedOnce(s: string, i: nat)
    requires i < |s| && forall k | 0 <= k < |s| && k != i :: s[k] != s[i]
    ensures multiset(s)[s[i]] == 1
  {
    assert s == s[..i] + [s[i]] + s[i + 1..];
    assert s[i] !in s[..i];
    assert s[i] !in s[i + 1..];
  }

  /** Where the pattern matches, the `@` it uses is the only one and no character is white space. */
  lemma PatternCharacters(s: string, i: nat, j: nat)
    requires 1 <= i && i + 2 <= j && j + 2 <= |s| && s[i] == '@' && s[j] == '.'
    requires AllNameChars(s[..i]) && AllNameChars(s[i + 1..j]) && AllNameChars(s[j + 1..])
    ensures NoWhitespace(s)
    ensures forall k | 0 <= k < |s| && k != i :: s[k] != '@'
  {
    forall k | 0 <= k < |s|
      ensures !IsWhitespace(s[k]) && (k != i ==> s[k] != '@')
    {
      if k < i {
        assert s[..i][k] == s[k];
      } else if i < k < j {
        assert s[i + 1..j][k - i - 1] == s[k];
      } else if j < k {
        assert s[j + 1..][k - j - 1] == s[k];
      }
    }
  }

  /** Every string the pattern matches is accepted by the executable email check. */
  lemma EmailCheckComplete(s: string)
    requires EmailPattern(s)
    ensures IsValidEmail(s)
  {
    var i, j :| 1 <= i && i + 2 <= j && j + 2 <= |s|
      && s[i] == '@' && s[j] == '.'
      && AllNameChars(s[..i]) && AllNameChars(s[i + 1..j]) && AllNameChars(s[j + 1..]);
    PatternCharacters(s, i, j);
    CountedOnce(s, i);
    var at := IndexOf(s, '@');
    assert at == i;
    var d := s[at + 1..];
    assert d[1..|d| - 1][j - i - 2] == '.';
  }

  /** The executable email check accepts exactly the strings the pattern matches. */
  lemma EmailCheckMatchesPattern(s: string)
    ensures IsValidEmail(s) <==> EmailPattern(s)
  {
    if IsValidEmail(s) {
      EmailCheckSound(s);
    }
    if EmailPattern(s) {
      EmailCheckComplete(s);
    }
  }

  /** The class `[\d\s()-]`. */
  predicate IsPhoneChar(c: char) {
    IsDigit(c) || IsWhitespace(c) || c == '(' || c == ')' || c == '-'
  }

  /** `[\d\s()-]{7,20}` as a whole string. */
  predicate IsPhoneBody(t: string) {
    7 <= |t| <= 20 && forall k | 0 <= k < |t| :: IsPhoneChar(t[k])
  }

  /** Meaning of the phone pattern: a body, with or without one leading `+`. */
  ghost predicate PhonePattern(s: string)
    ensures PhonePattern(s) ==> 7 <= |s| <= 21
  {
    exists t | IsPhoneBody(t) :: s == t || s == "+" + t
  }

  /** isValidPhone: drop one leading `+` if present, then the rest must be a body. */
  predicate IsValidPhone(s: string)
    ensures IsValidPhone(s) ==> 7 <= |s| <= 21
  {
    var body := if |s| > 0 && s[0] == '+' then s[1..] else s;
    IsPhoneBody(body)
  }

  /** The executable phone check accepts exactly the strings the pattern matches. */
  lemma {:induction false} PhoneCheckMatchesPattern(s: string)
    ensures IsValidPhone(s) <==> PhonePattern(s)
  {
    if IsValidPhone(s) {
      if |s| > 0 && s[0] == '+' {
        assert s == "+" + s[1..];
      }
    }
    if PhonePattern(s) {
      var t :| IsPhoneBody(t) && (s == t || s == "+" + t);
      if s == t {
        assert !IsPhoneChar('+');
        assert s[0] != '+';
      } else {
        assert s[1..] == t;
      }
    }
  }

  lemma EmailAcceptsShortest()
    ensures IsValidEmail("a@b.c")
  {
  }

  lemma UsualAddressMatches()
    ensures EmailPattern("user@example.com")
  {
    var s := "user@example.com";
    assert AllNameChars(s[..4]) by { assert s[..4] == "user"; }
    assert AllNameChars(s[5..12]) by { assert s[5..12] == "example"; }
    assert AllNameChars(s[13..]) by { assert s[13..] == "com"; }
    assert s[4] == '@' && s[12] == '.';
  }

  lemma EmailAcceptsUsual()
    ensures IsValidEmail("user@example.com")
  {
    UsualAddressMatches();
    EmailCheckComplete("user@example.com");
  }

  lemma EmailRejectsNoDot()
    ensures !IsValidEmail("a@b")
  {
  }

  lemma EmailRejectsDoubleAt()
    ensures !IsValidEmail("a@@b.c")
  {
  }

  lemma EmailRejectsUsualWithoutDot()
    ensures !IsValidEmail("user@example")
  {
    var s := "user@example";
    assert forall k | 0 <= k < |s| :: s[k] != '.';
    if IsValidEmail(s) {
      EmailCheckSound(s);
      assert false;
    }
  }

  lemma EmailRejectsUsualDoubleAt()
    ensures !IsValidEmail("user@@example.com")
  {
  }

  lemma EmailRejectsLeadingDot()
    ensures !IsValidEmail("a@.b")
  {
  }

  lemma EmailRejectsSpace()
    ensures !IsValidEmail("a b@c.d")
  {
  }

  lemma PhoneAcceptsMalaysian()
    ensures IsValidPhone("+60 3-1234 5678")
  {
  }

  lemma PhoneAcceptsPunctuationOnly()
    ensures IsValidPhone("))((--)")
  {
  }

  lemma PhoneRejectsLetters()
    ensures !IsValidPhone("abc")
  {
  }

  lemma PhoneLengthBounds()
    ensures !IsValidPhone("123456")
    ensures IsValidPhone("1234567")
    ensures IsValidPhone("12345678901234567890")
    ensures !IsValidPhone("123456789012345678901")
  {
  }
}
