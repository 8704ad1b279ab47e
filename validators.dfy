/**
 * The three field validators of the contact manager, `_is_valid_name`,
 * `_is_valid_phone` and `_is_valid_email`. Each is `re.match` of a pattern
 * anchored with `^` and `$`. The bodies follow the patterns piece by piece;
 * the lemmas state what each validator accepts in terms of character classes.
 */
module Validators {
  import opened Chars

  /** `[A-Za-z\s]` */
  predicate IsNameChar(c: char) {
    IsAsciiLetter(c) || IsSpace(c)
  }

  /** `[\w\.-]` */
  predicate IsEmailPartChar(c: char) {
    IsWordChar(c) || c == '.' || c == '-'
  }

  /**
   * `re.match("^" + X + "$", s)` where `body` says whether X matches a whole
   * string: Python's `$` matches at the end, or just before a final newline.
   */
  predicate MatchesLine(body: string -> bool, s: string) {
    body(s) || (|s| > 0 && s[|s| - 1] == '\n' && body(s[..|s| - 1]))
  }

  /** `[A-Za-z\s]+` matching all of `s`. */
  predicate NameBody(s: string) {
    |s| > 0 && SpanLength(s, IsNameChar) == |s|
  }

  /** `\+?[0-9]*` matching all of `s`. */
  predicate PhoneBody(s: string) {
    var digits := if |s| > 0 && s[0] == '+' then s[1..] else s;
    SpanLength(digits, IsDigit) == |digits|
  }

  /** `[\w\.-]+@[\w\.-]+\.\w+` matching all of `s`: a local part, `@`, then the domain. */
  predicate EmailBody(s: string) {
    var a := SpanLength(s, IsEmailPartChar);
    0 < a < |s| && s[a] == '@' && DomainBody(s[a + 1..])
  }

  /** `[\w\.-]+\.\w+` matching all of `r`: the top-level part is the longest word-character suffix. */
  predicate DomainBody(r: string) {
    var t := SuffixSpanLength(r, IsWordChar);
    var d := |r| - t - 1;
    0 < t && 0 < d && r[d] == '.' && SpanLength(r[..d], IsEmailPartChar) == d
  }

  predicate IsValidName(s: string) {
    MatchesLine(NameBody, s)
  }

  predicate IsValidPhone(s: string) {
    MatchesLine(PhoneBody, s)
  }

  predicate IsValidEmail(s: string) {
    MatchesLine(EmailBody, s)
  }

  // ---- What the validators accept, as character predicates ----

  /** Only digits, except that the first character may be `+`. */
  ghost predicate PhoneShape(s: string) {
    forall i | 0 <= i < |s| :: IsDigit(s[i]) || (i == 0 && s[i] == '+')
  }

  /** `s` is `L "@" D "." T` with L and D non-empty over `[\w.-]` and T non-empty over `\w`. */
  ghost predicate EmailShape(s: string) {
    exists a, d | 0 < a && a + 1 < d && d + 1 < |s| :: EmailSplitAt(s, a, d)
  }

  /** `s[a]` is the `@` and `s[d]` the dot of an `L "@" D "." T` reading of `s`. */
  ghost predicate EmailSplitAt(s: string, a: nat, d: nat)
    requires a < d < |s|
  {
    && s[a] == '@' && s[d] == '.'
    && (forall i | 0 <= i < a :: IsEmailPartChar(s[i]))
    && (forall i | a < i < d :: IsEmailPartChar(s[i]))
    && (forall i | d < i < |s| :: IsWordChar(s[i]))
  }

  lemma NameValidatorAccepts(s: string)
    ensures IsValidName(s) <==> |s| > 0 && forall i | 0 <= i < |s| :: IsNameChar(s[i])
  {
    if |s| > 0 && s[|s| - 1] == '\n' && NameBody(s[..|s| - 1]) {
      assert forall i | 0 <= i < |s| - 1 :: s[..|s| - 1][i] == s[i];
      assert IsNameChar(s[|s| - 1]);
    }
  }

  lemma PhoneBodyIsShape(s: string)
    ensures PhoneBody(s) <==> PhoneShape(s)
  {
    if |s| > 0 && s[0] == '+' {
      assert forall i | 1 <= i < |s| :: s[1..][i - 1] == s[i];
    }
  }

  lemma PhoneValidatorAccepts(s: string)
    ensures IsValidPhone(s) <==> PhoneShape(s) || (|s| > 0 && s[|s| - 1] == '\n' && PhoneShape(s[..|s| - 1]))
  {
    PhoneBodyIsShape(s);
    if |s| > 0 {
      PhoneBodyIsShape(s[..|s| - 1]);
    }
  }

  lemma {:induction false} EmailBodyHasShape(s: string)
    requires EmailBody(s)
    ensures EmailShape(s)
  {
    var a := SpanLength(s, IsEmailPartChar);
    var r := s[a + 1..];
    var t := SuffixSpanLength(r, IsWordChar);
    var d := |r| - t - 1;
    var dd := a + 1 + d;
    assert s[dd] == '.' by { assert s[dd] == r[d]; }
    assert forall i | a < i < dd :: IsEmailPartChar(s[i]) by {
      forall i | a < i < dd ensures IsEmailPartChar(s[i]) {
        assert s[i] == r[..d][i - a - 1];
      }
    }
    assert forall i | dd < i < |s| :: IsWordChar(s[i]) by {
      forall i | dd < i < |s| ensures IsWordChar(s[i]) {
        assert s[i] == r[i - a - 1];
      }
    }
    assert EmailSplitAt(s, a, dd);
  }

  lemma {:induction false} EmailShapeHasBody(s: string)
    requires EmailShape(s)
    ensures EmailBody(s)
  {
    var a, d :| 0 < a && a + 1 < d && d + 1 < |s| && EmailSplitAt(s, a, d);
    SpanOfMaximalPrefix(s, IsEmailPartChar, a);
    var r := s[a + 1..];
    forall i | 0 <= i < |r| ensures r[i] == s[i + a + 1] { }
    DomainHasBody(r, d - a - 1);
  }

  /** `D "." T` with the dot at `d` matches `[\w\.-]+\.\w+`. */
  lemma {:induction false} DomainHasBody(r: string, d: nat)
    requires 0 < d && d + 1 < |r| && r[d] == '.'
    requires forall i | 0 <= i < d :: IsEmailPartChar(r[i])
    requires forall i | d < i < |r| :: IsWordChar(r[i])
    ensures DomainBody(r)
  {
    SuffixSpanOfMaximalSuffix(r, IsWordChar, |r| - d - 1);
    assert forall i | 0 <= i < d :: r[..d][i] == r[i];
    SpanOfFullPrefix(r[..d], IsEmailPartChar);
  }

  lemma {:induction false} SpanOfMaximalPrefix(s: string, p: char -> bool, k: nat)
    requires k < |s| && !p(s[k]) && forall i | 0 <= i < k :: p(s[i])
    ensures SpanLength(s, p) == k
  {
  }

  lemma {:induction false} SuffixSpanOfMaximalSuffix(s: string, p: char -> bool, k: nat)
    requires k < |s| && !p(s[|s| - 1 - k]) && forall i | |s| - k <= i < |s| :: p(s[i])
    ensures SuffixSpanLength(s, p) == k
  {
  }

  lemma {:induction false} SpanOfFullPrefix(s: string, p: char -> bool)
    requires forall i | 0 <= i < |s| :: p(s[i])
    ensures SpanLength(s, p) == |s|
  {
  }

  lemma EmailValidatorAccepts(s: string)
    ensures IsValidEmail(s) <==> EmailShape(s) || (|s| > 0 && s[|s| - 1] == '\n' && EmailShape(s[..|s| - 1]))
  {
    if EmailBody(s) { EmailBodyHasShape(s); }
    if EmailShape(s) { EmailShapeHasBody(s); }
    if |s| > 0 {
      var p := s[..|s| - 1];
      if EmailBody(p) { EmailBodyHasShape(p); }
      if EmailShape(p) { EmailShapeHasBody(p); }
    }
  }

  /** An accepted e-mail address holds exactly one `@`, and no `.` follows the dot that ends the domain. */
  lemma EmailHasOneAt(s: string)
    requires EmailShape(s)
    ensures exists a, d | 0 < a < d < |s| - 1 ::
              && s[a] == '@' && s[d] == '.'
              && (forall i | 0 <= i < |s| && s[i] == '@' :: i == a)
              && (forall i | d < i < |s| :: s[i] != '.')
  {
    var a, d :| 0 < a && a + 1 < d && d + 1 < |s| && EmailSplitAt(s, a, d);
    assert forall i | 0 <= i < |s| && s[i] == '@' :: i == a by {
      forall i | 0 <= i < |s| && s[i] == '@' ensures i == a {
        assert !IsEmailPartChar(s[i]);
      }
    }
  }

  /** On the stripped text that every prompt produces, `$` means end of string. */
  lemma StrippedPhoneAccepts(s: string)
    ensures IsValidPhone(Strip(s)) <==> PhoneShape(Strip(s))
  {
    PhoneValidatorAccepts(Strip(s));
    StripHasNoFinalNewline(s);
  }

  lemma StrippedEmailAccepts(s: string)
    ensures IsValidEmail(Strip(s)) <==> EmailShape(Strip(s))
  {
    EmailValidatorAccepts(Strip(s));
    StripHasNoFinalNewline(s);
  }

  /** The permissive corners of the phone pattern: the empty string and a lone `+` pass. */
  lemma PhoneAcceptsEmptyAndPlus()
    ensures IsValidPhone("") && IsValidPhone("+")
  {
    PhoneValidatorAccepts("");
    PhoneValidatorAccepts("+");
  }

  /** A `+` anywhere but first, or a second `+`, is rejected. */
  lemma PhoneRejectsInnerPlus()
    ensures !IsValidPhone("++1") && !IsValidPhone("1+2")
  {
    PhoneValidatorAccepts("++1");
    assert !IsDigit("++1"[1]);
    PhoneValidatorAccepts("1+2");
    assert !IsDigit("1+2"[1]);
  }

  lemma EmailAcceptsExample()
    ensures IsValidEmail("john.doe@example.com")
  {
    assert EmailSplitAt("john.doe@example.com", 8, 16);
    EmailValidatorAccepts("john.doe@example.com");
  }

  /** Without a dot after the `@` there is no top-level part: rejected. */
  lemma EmailRejectsMissingDot(s: string)
    requires s == "john@example"
    ensures !IsValidEmail(s)
  {
    EmailValidatorAccepts(s);
    assert forall i | 0 <= i < |s| :: s[i] != '.';
  }

  lemma EmailRejectsTwoAts()
    ensures !IsValidEmail("a@b@c.d")
  {
    var s := "a@b@c.d";
    EmailValidatorAccepts(s);
    assert s[1] == '@' && s[3] == '@';
    if EmailShape(s) {
      EmailHasOneAt(s);
    }
  }

  /** The domain part before the last dot may not be empty. */
  lemma EmailRejectsEmptyDomain()
    ensures !IsValidEmail("a@.c")
  {
    EmailValidatorAccepts("a@.c");
  }
}
