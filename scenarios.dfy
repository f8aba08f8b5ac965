/**
 * The concrete cases test_main.py checks, proved about the model: which ids,
 * emails, names and status ids the validators accept. Each family of cases
 * has a general lemma stated on characters; each case is its own small lemma
 * so that the verifier evaluates one literal at a time.
 */
module Scenarios {
  import opened Validators

  // ---------------------------------------------------------------------------
  // User ids

  lemma Dave03() ensures ValidateUserId("dave03") { UserIdWithLetterAccepted("dave03", 0); }
  lemma Evmiles97() ensures ValidateUserId("evmiles97") { UserIdWithLetterAccepted("evmiles97", 0); }
  lemma Mbakke63() ensures ValidateUserId("mbakke63") { UserIdWithLetterAccepted("mbakke63", 0); }
  lemma Andy14() ensures ValidateUserId("andy14") { UserIdWithLetterAccepted("andy14", 0); }
  lemma SpacedId() ensures !ValidateUserId("asdf 123") { assert "asdf 123"[4] == ' '; }
  lemma NumericId() ensures !ValidateUserId("123141") { NumericUserIdRejected("123141"); }

  /** The user ids of `test_validate_user_id`. */
  lemma UserIdCases()
    ensures ValidateUserId("dave03") && ValidateUserId("evmiles97")
    ensures ValidateUserId("mbakke63") && ValidateUserId("andy14")
    ensures !ValidateUserId("asdf 123") && !ValidateUserId("123141")
  {
    Dave03(); Evmiles97(); Mbakke63(); Andy14(); SpacedId(); NumericId();
  }

  // ---------------------------------------------------------------------------
  // Emails

  /** One '@' with whitespace before it does not match the pattern. */
  lemma LocalSpaceNoShape(email: string, at: int, k: int)
    requires 0 <= at < |email| && email[at] == '@'
    requires forall j :: 0 <= j < |email| && j != at ==> email[j] != '@'
    requires 0 <= k < at && IsSpace(email[k])
    ensures !EmailShape(email)
  {
    SplitAtOnly(email, '@', at);
    assert email[..at][k] == email[k];
  }

  /** One '@' with whitespace before it: refused, with or without a final newline. */
  lemma EmailLocalSpaceRejected(email: string, at: int, k: int)
    requires 0 <= at < |email| && email[at] == '@'
    requires forall j :: 0 <= j < |email| && j != at ==> email[j] != '@'
    requires 0 <= k < at && IsSpace(email[k])
    ensures !ValidateEmail(email)
  {
    LocalSpaceNoShape(email, at, k);
    if email[|email| - 1] == '\n' {
      var e := email[..|email| - 1];
      assert at < |e|;
      LocalSpaceNoShape(e, at, k);
    }
  }

  /** One '@' and no '.' after it does not match the pattern. */
  lemma DomainWithoutDotNoShape(email: string, at: int)
    requires 0 <= at < |email| && email[at] == '@'
    requires forall j :: 0 <= j < |email| && j != at ==> email[j] != '@'
    requires forall j :: at < j < |email| ==> email[j] != '.'
    ensures !EmailShape(email)
  {
    SplitAtOnly(email, '@', at);
    var domain := email[at + 1..];
    assert forall j :: 0 <= j < |domain| ==> domain[j] == email[at + 1 + j];
    SplitNone(domain, '.');
  }

  /** One '@' and no '.' after it: a single label, refused, with or without a final newline. */
  lemma EmailDomainWithoutDotRejected(email: string, at: int)
    requires 0 <= at < |email| && email[at] == '@'
    requires forall j :: 0 <= j < |email| && j != at ==> email[j] != '@'
    requires forall j :: at < j < |email| ==> email[j] != '.'
    ensures !ValidateEmail(email)
  {
    DomainWithoutDotNoShape(email, at);
    if email[|email| - 1] == '\n' {
      var e := email[..|email| - 1];
      assert at < |e|;
      DomainWithoutDotNoShape(e, at);
    }
  }

  /** One '@' and a final '.': the last label is empty, refused. */
  lemma EmailTrailingDotRejected(email: string, at: int)
    requires 0 <= at < |email| - 1 && email[at] == '@'
    requires forall j :: 0 <= j < |email| && j != at ==> email[j] != '@'
    requires email[|email| - 1] == '.'
    ensures !ValidateEmail(email)
  {
    SplitAtOnly(email, '@', at);
    SplitLastEmpty(email[at + 1..], '.');
  }

  /** No '@' at all: refused. */
  lemma EmailWithoutAtRejected(email: string)
    requires forall j :: 0 <= j < |email| ==> email[j] != '@'
    ensures !ValidateEmail(email)
  {
    SplitNone(email, '@');
    if |email| > 0 {
      SplitNone(email[..|email| - 1], '@');
    }
  }

  lemma MarcusEmail() ensures ValidateEmail("marcusabakke@gmail.com") { EmailAccepted("marcusabakke@gmail.com", 12, 5); }
  lemma AndyEmail() ensures ValidateEmail("andy.miles@uw.edu") { EmailAccepted("andy.miles@uw.edu", 10, 2); }
  lemma SomeEmail() ensures ValidateEmail("some_email@yahoo.com") { EmailAccepted("some_email@yahoo.com", 10, 5); }

  /** The accepted emails of `test_validate_email`. */
  lemma EmailAcceptedCases()
    ensures ValidateEmail("marcusabakke@gmail.com")
    ensures ValidateEmail("andy.miles@uw.edu")
    ensures ValidateEmail("some_email@yahoo.com")
  {
    MarcusEmail(); AndyEmail(); SomeEmail();
  }

  lemma SpacedEmail() ensures !ValidateEmail("marcus bakke@gmail.com") { EmailLocalSpaceRejected("marcus bakke@gmail.com", 12, 6); }
  lemma NoDotEmail() ensures !ValidateEmail("marcus@gmail") { EmailDomainWithoutDotRejected("marcus@gmail", 6); }
  lemma TrailingDotEmail() ensures !ValidateEmail("marcus@g.g.mail.") { EmailTrailingDotRejected("marcus@g.g.mail.", 6); }
  lemma NoAtEmail() ensures !ValidateEmail(".asldkfjl") { EmailWithoutAtRejected(".asldkfjl"); }
  lemma BareDotEmail() ensures !ValidateEmail("test@.") { EmailTrailingDotRejected("test@.", 4); }

  /** The refused emails of `test_validate_email` and of `test_add_user`. */
  lemma EmailRejectedCases()
    ensures !ValidateEmail("marcus bakke@gmail.com")
    ensures !ValidateEmail("marcus@gmail")
    ensures !ValidateEmail("marcus@g.g.mail.")
    ensures !ValidateEmail(".asldkfjl")
    ensures !ValidateEmail("test@.")
  {
    SpacedEmail(); NoDotEmail(); TrailingDotEmail(); NoAtEmail(); BareDotEmail();
  }

  // ---------------------------------------------------------------------------
  // Names

  /** The names of `test_validate_name`. */
  lemma NameCases()
    ensures ValidateName("hello") && ValidateName("my") && ValidateName("Name")
    ensures ValidateName("is") && ValidateName("MarCus")
    ensures !ValidateName("this has a space") && !ValidateName("123141")
    ensures !ValidateName("Marcus-3000")
  {
    assert "this has a space"[4] == ' ';
    assert "123141"[0] == '1';
    assert "Marcus-3000"[6] == '-';
  }

  // ---------------------------------------------------------------------------
  // Status ids

  /**
   * One '_' at `at`, a space-free user id with a letter at `letter` before
   * it and only digits after it: accepted.
   */
  lemma StatusIdAccepted(statusId: string, at: int, letter: int)
    requires 0 <= letter < at < |statusId| - 1 && statusId[at] == '_'
    requires forall j :: 0 <= j < |statusId| && j != at ==> statusId[j] != '_'
    requires forall j :: 0 <= j < at ==> statusId[j] != ' '
    requires IsLetter(statusId[letter])
    requires forall j :: at < j < |statusId| ==> IsDigit(statusId[j])
    ensures ValidateStatusId(statusId)
  {
    SplitAtOnly(statusId, '_', at);
    var userId, counter := statusId[..at], statusId[at + 1..];
    assert forall j :: 0 <= j < |userId| ==> userId[j] == statusId[j];
    UserIdWithLetterAccepted(userId, letter);
    assert forall j :: 0 <= j < |counter| ==> counter[j] == statusId[at + 1 + j];
    DigitsAreInt(counter);
  }

  /** Two '_' anywhere: more than two pieces, refused. */
  lemma StatusIdTwoSeparatorsRejected(statusId: string, i: int, j: int)
    requires 0 <= i < j < |statusId| && statusId[i] == '_' && statusId[j] == '_'
    ensures !ValidateStatusId(statusId)
  {
    if ValidateStatusId(statusId) {
      SplitInTwo(statusId, '_');
    }
  }

  /** No '_': one piece, refused. */
  lemma StatusIdWithoutSeparatorRejected(statusId: string)
    requires forall j :: 0 <= j < |statusId| ==> statusId[j] != '_'
    ensures !ValidateStatusId(statusId)
  {
    SplitNone(statusId, '_');
  }

  /** One '_' and a character after it that no integer holds: refused. */
  lemma StatusIdCounterRejected(statusId: string, at: int, k: int)
    requires 0 <= at < k < |statusId| && statusId[at] == '_'
    requires forall j :: 0 <= j < |statusId| && j != at ==> statusId[j] != '_'
    requires var c := statusId[k]; !IsDigit(c) && c != '+' && c != '-' && !IsIntSpace(c)
    ensures !ValidateStatusId(statusId)
  {
    SplitAtOnly(statusId, '_', at);
    var counter := statusId[at + 1..];
    assert counter[k - at - 1] == statusId[k];
    ForeignCharNotInt(counter, k - at - 1);
  }

  /** One '_' with a space before it: refused. */
  lemma StatusIdUserSpaceRejected(statusId: string, at: int, k: int)
    requires 0 <= k < at < |statusId| && statusId[at] == '_' && statusId[k] == ' '
    requires forall j :: 0 <= j < |statusId| && j != at ==> statusId[j] != '_'
    ensures !ValidateStatusId(statusId)
  {
    SplitAtOnly(statusId, '_', at);
    assert statusId[..at][k] == ' ';
  }

  lemma Dave03Status() ensures ValidateStatusId("dave03_00001") { StatusIdAccepted("dave03_00001", 6, 0); }
  lemma Evmiles97Status() ensures ValidateStatusId("evmiles97_00003") { StatusIdAccepted("evmiles97_00003", 9, 0); }
  lemma Mbakke63Status() ensures ValidateStatusId("mbakke63_09813") { StatusIdAccepted("mbakke63_09813", 8, 0); }
  lemma Andy14Status() ensures ValidateStatusId("andy14_87123") { StatusIdAccepted("andy14_87123", 6, 0); }
  lemma TwoSeparators() ensures !ValidateStatusId("asdf_1231_1231") { StatusIdTwoSeparatorsRejected("asdf_1231_1231", 4, 9); }
  lemma NoSeparator() ensures !ValidateStatusId("asdf1239874") { StatusIdWithoutSeparatorRejected("asdf1239874"); }
  lemma WordCounter() ensures !ValidateStatusId("dave03_hello") { StatusIdCounterRejected("dave03_hello", 6, 7); }
  lemma DecimalCounter() ensures !ValidateStatusId("mbakke53_12.124") { StatusIdCounterRejected("mbakke53_12.124", 8, 11); }
  lemma SpacedStatusId() ensures !ValidateStatusId("asdf 123_12345") { StatusIdUserSpaceRejected("asdf 123_12345", 8, 4); }

  /** The status ids of `test_validate_status_id`. */
  lemma StatusIdCases()
    ensures ValidateStatusId("dave03_00001") && ValidateStatusId("evmiles97_00003")
    ensures ValidateStatusId("mbakke63_09813") && ValidateStatusId("andy14_87123")
    ensures !ValidateStatusId("asdf_1231_1231") && !ValidateStatusId("asdf1239874")
    ensures !ValidateStatusId("dave03_hello") && !ValidateStatusId("mbakke53_12.124")
    ensures !ValidateStatusId("asdf 123_12345")
  {
    Dave03Status(); Evmiles97Status(); Mbakke63Status(); Andy14Status();
    TwoSeparators(); NoSeparator(); WordCounter(); DecimalCounter(); SpacedStatusId();
  }
}
