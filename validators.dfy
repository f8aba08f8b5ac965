/**
 * The field validators of main.py. Python's notions of whitespace, digit and
 * letter cover all of Unicode; the model keeps their ASCII part. The regex
 * class `\s` matches space, tab, newline, vertical tab, form feed, carriage
 * return and the four separators 0x1C-0x1F; `int()` skips only the first six
 * of those around a number. Digits are '0'-'9' and letters 'a'-'z', 'A'-'Z'.
 */
module Validators {
  import opened Wrappers

  /** `\s`: whitespace for the email pattern. */
  predicate IsSpace(c: char) {
    c == ' ' || ('\t' <= c <= '\r') || ('\U{1C}' <= c <= '\U{1F}')
  }

  /** The whitespace `int()` skips before and after the digits. */
  predicate IsIntSpace(c: char) {
    c == ' ' || ('\t' <= c <= '\r')
  }

  predicate IsDigit(c: char) {
    '0' <= c <= '9'
  }

  predicate IsLetter(c: char) {
    ('a' <= c <= 'z') || ('A' <= c <= 'Z')
  }

  // ---------------------------------------------------------------------------
  // int(): what makes a string parse as a Python integer

  /** s without its leading whitespace. */
  function StripLeading(s: string): (r: string)
    ensures |r| <= |s| && r == s[|s| - |r|..]
    ensures forall i :: 0 <= i < |s| - |r| ==> IsIntSpace(s[i])
    ensures |r| > 0 ==> !IsIntSpace(r[0])
  {
    if |s| > 0 && IsIntSpace(s[0]) then StripLeading(s[1..]) else s
  }

  /** s without its trailing whitespace. */
  function StripTrailing(s: string): (r: string)
    ensures |r| <= |s| && r == s[..|r|]
    ensures forall i :: |r| <= i < |s| ==> IsIntSpace(s[i])
    ensures |r| > 0 ==> !IsIntSpace(r[|r| - 1])
  {
    if |s| > 0 && IsIntSpace(s[|s| - 1]) then StripTrailing(s[..|s| - 1]) else s
  }

  function Strip(s: string): string {
    StripTrailing(StripLeading(s))
  }

  /** One or more digits, with single underscores allowed between digits. */
  predicate DigitRun(u: string) {
    && |u| > 0
    && IsDigit(u[0])
    && IsDigit(u[|u| - 1])
    && (forall i :: 0 <= i < |u| ==> IsDigit(u[i]) || u[i] == '_')
    && (forall i :: 0 <= i < |u| - 1 ==> IsDigit(u[i]) || IsDigit(u[i + 1]))
  }

  /**
   * `int(s)` succeeds in base 10: optional surrounding whitespace, an
   * optional sign, then a run of digits.
   */
  predicate ParsesAsInt(s: string) {
    var t := Strip(s);
    var digits := if |t| > 0 && (t[0] == '+' || t[0] == '-') then t[1..] else t;
    DigitRun(digits)
  }

  /** A character that is not whitespace survives stripping. */
  lemma {:induction false} StripKeeps(s: string, i: int)
    requires 0 <= i < |s| && !IsIntSpace(s[i])
    ensures s[i] in Strip(s)
  {
    var l := StripLeading(s);
    var j := i - (|s| - |l|);
    assert 0 <= j < |l| && l[j] == s[i];
    var t := StripTrailing(l);
    assert j < |t| && t[j] == l[j];
  }

  // ---------------------------------------------------------------------------
  // str.split and its inverse

  /** `s.split(sep)`: the pieces between separators, always at least one. */
  function Split(s: string, sep: char): (parts: seq<string>)
    ensures |parts| >= 1
    ensures forall i :: 0 <= i < |parts| ==> sep !in parts[i]
  {
    if |s| == 0 then [""]
    else
      var rest := Split(s[1..], sep);
      if s[0] == sep then [""] + rest else [[s[0]] + rest[0]] + rest[1..]
  }

  /** `sep.join(parts)`. */
  function Join(parts: seq<string>, sep: char): string
    requires |parts| >= 1
    decreases |parts|
  {
    if |parts| == 1 then parts[0] else parts[0] + [sep] + Join(parts[1..], sep)
  }

  /** Joining the pieces of a split gives the string back. */
  lemma {:induction false} JoinSplit(s: string, sep: char)
    ensures Join(Split(s, sep), sep) == s
    decreases |s|
  {
    if |s| > 0 {
      var rest := Split(s[1..], sep);
      JoinSplit(s[1..], sep);
      if s[0] == sep {
        assert ([""] + rest)[1..] == rest;
      } else {
        var parts := [[s[0]] + rest[0]] + rest[1..];
        if |rest| > 1 {
          assert parts[1..] == rest[1..];
          assert Join(rest, sep) == rest[0] + [sep] + Join(rest[1..], sep);
        }
        assert s == [s[0]] + s[1..];
      }
    }
  }

  /** Splitting a separator-free prefix p glued to s extends s's first piece. */
  lemma {:induction false} SplitPrefix(p: string, s: string, sep: char)
    requires sep !in p
    ensures Split(p + s, sep) == [p + Split(s, sep)[0]] + Split(s, sep)[1..]
    decreases |p|
  {
    if |p| > 0 {
      SplitPrefix(p[1..], s, sep);
      assert (p + s)[1..] == p[1..] + s;
      assert (p + s)[0] == p[0];
      assert [p[0]] + (p[1..] + Split(s, sep)[0]) == p + Split(s, sep)[0];
    } else {
      var parts := Split(s, sep);
      assert p + s == s && p + parts[0] == parts[0];
      assert [parts[0]] + parts[1..] == parts;
    }
  }

  /** Splitting a join of separator-free pieces gives the pieces back. */
  lemma {:induction false} SplitJoin(parts: seq<string>, sep: char)
    requires |parts| >= 1
    requires forall i :: 0 <= i < |parts| ==> sep !in parts[i]
    ensures Split(Join(parts, sep), sep) == parts
    decreases |parts|
  {
    if |parts| == 1 {
      SplitPrefix(parts[0], "", sep);
      assert parts[0] + "" == parts[0];
    } else {
      var tail := Join(parts[1..], sep);
      SplitJoin(parts[1..], sep);
      SplitPrefix(parts[0], [sep] + tail, sep);
      assert ([sep] + tail)[1..] == tail;
      assert Split([sep] + tail, sep) == [""] + parts[1..];
      assert parts[0] + [sep] + tail == parts[0] + ([sep] + tail);
      assert parts[0] + "" == parts[0];
      assert parts == [parts[0]] + parts[1..];
    }
  }

  /** A string with exactly one separator, at i, splits into the two sides of i. */
  lemma SplitAtOnly(s: string, sep: char, i: int)
    requires 0 <= i < |s| && s[i] == sep
    requires forall j :: 0 <= j < |s| && j != i ==> s[j] != sep
    ensures Split(s, sep) == [s[..i], s[i + 1..]]
  {
    assert s == s[..i] + [sep] + s[i + 1..];
    assert sep !in s[..i] && sep !in s[i + 1..];
    SplitJoin([s[..i], s[i + 1..]], sep);
  }

  /** A split into exactly two pieces found exactly one separator. */
  lemma SplitInTwo(s: string, sep: char)
    requires |Split(s, sep)| == 2
    ensures var i := |Split(s, sep)[0]|;
      && i < |s| && s[i] == sep
      && (forall j :: 0 <= j < |s| && j != i ==> s[j] != sep)
      && Split(s, sep) == [s[..i], s[i + 1..]]
  {
    var parts := Split(s, sep);
    JoinSplit(s, sep);
    assert s == parts[0] + [sep] + parts[1];
    var i := |parts[0]|;
    forall j | 0 <= j < |s| && j != i ensures s[j] != sep {
      if j < i {
        assert s[j] == parts[0][j];
      } else {
        assert s[j] == parts[1][j - i - 1];
      }
    }
    assert s[..i] == parts[0];
    assert s[i + 1..] == parts[1];
  }

  /** A string without the separator is one piece. */
  lemma SplitNone(s: string, sep: char)
    requires sep !in s
    ensures Split(s, sep) == [s]
  {
    SplitJoin([s], sep);
  }

  /** A join whose last piece is not empty ends with that piece's last character. */
  lemma {:induction false} JoinLast(parts: seq<string>, sep: char)
    requires |parts| >= 1 && |parts[|parts| - 1]| > 0
    ensures var s := Join(parts, sep); var l := parts[|parts| - 1];
      |s| > 0 && s[|s| - 1] == l[|l| - 1]
    decreases |parts|
  {
    if |parts| > 1 {
      JoinLast(parts[1..], sep);
    }
  }

  /** A string ending in the separator splits with an empty last piece, as 'a.'.split('.') does. */
  lemma SplitLastEmpty(s: string, sep: char)
    requires |s| > 0 && s[|s| - 1] == sep
    ensures var parts := Split(s, sep); parts[|parts| - 1] == ""
  {
    var parts := Split(s, sep);
    JoinSplit(s, sep);
    if parts[|parts| - 1] != "" {
      JoinLast(parts, sep);
    }
  }

  // ---------------------------------------------------------------------------
  // The four validators

  /** `validate_user_id`: no space, and not something `int()` accepts. */
  predicate ValidateUserId(userId: string) {
    ' ' !in userId && !ParsesAsInt(userId)
  }

  /** `[^\s@]`: a character of the part before '@'. */
  predicate IsLocalChar(c: char) {
    !IsSpace(c) && c != '@'
  }

  /** `[^\s@.,]`: a character of a domain label. */
  predicate IsDomainChar(c: char) {
    !IsSpace(c) && c != '@' && c != '.' && c != ','
  }

  predicate IsLabel(l: string) {
    |l| > 0 && forall i :: 0 <= i < |l| ==> IsDomainChar(l[i])
  }

  /** `([^\s@.,]+\.)+[^\s@.,]{2,}`: two or more labels, the last of length at least 2. */
  predicate DomainShape(domain: string) {
    var labels := Split(domain, '.');
    && |labels| >= 2
    && (forall i :: 0 <= i < |labels| ==> IsLabel(labels[i]))
    && |labels[|labels| - 1]| >= 2
  }

  /** The strings `^[^\s@]+@([^\s@.,]+\.)+[^\s@.,]{2,}` matches up to the end. */
  predicate EmailShape(email: string) {
    var halves := Split(email, '@');
    && |halves| == 2
    && |halves[0]| > 0
    && (forall i :: 0 <= i < |halves[0]| ==> IsLocalChar(halves[0][i]))
    && DomainShape(halves[1])
  }

  /**
   * `validate_email`: `re.match` with the pattern of main.py, whose final
   * `$` also matches just before one trailing newline.
   */
  predicate ValidateEmail(email: string) {
    || EmailShape(email)
    || (|email| > 0 && email[|email| - 1] == '\n' && EmailShape(email[..|email| - 1]))
  }

  /** `validate_name`: `str.isalpha`, non-empty and letters only. */
  predicate ValidateName(name: string) {
    |name| > 0 && forall i :: 0 <= i < |name| ==> IsLetter(name[i])
  }

  /**
   * `validate_status_id`: splitting on '_' gives exactly two pieces, the
   * first a valid user id and the second an integer.
   */
  predicate ValidateStatusId(statusId: string) {
    var parts := Split(statusId, '_');
    |parts| == 2 && ValidateUserId(parts[0]) && ParsesAsInt(parts[1])
  }

  // ---------------------------------------------------------------------------
  // What the validators accept, stated without Split and Strip

  /** A non-empty all-digit id is refused, as '123141' is. */
  lemma NumericUserIdRejected(userId: string)
    requires |userId| > 0
    requires forall i :: 0 <= i < |userId| ==> IsDigit(userId[i])
    ensures !ValidateUserId(userId)
  {
    assert StripLeading(userId) == userId;
    assert StripTrailing(userId) == userId;
  }

  /**
   * A string holding a character that is no digit, underscore, sign or
   * whitespace is no integer, as '12.124' and 'hello' are not.
   */
  lemma ForeignCharNotInt(s: string, k: int)
    requires 0 <= k < |s|
    requires !IsDigit(s[k]) && s[k] != '_' && s[k] != '+' && s[k] != '-' && !IsIntSpace(s[k])
    ensures !ParsesAsInt(s)
  {
    StripKeeps(s, k);
    var t, c := Strip(s), s[k];
    var digits := if |t| > 0 && (t[0] == '+' || t[0] == '-') then t[1..] else t;
    assert c in digits by {
      if |t| > 0 && (t[0] == '+' || t[0] == '-') {
        assert t == [t[0]] + digits;
      }
    }
    var m :| 0 <= m < |digits| && digits[m] == c;
    assert !(IsDigit(digits[m]) || digits[m] == '_');
  }

  /** A non-empty string of digits is an integer, as '00001' is. */
  lemma DigitsAreInt(s: string)
    requires |s| > 0
    requires forall i :: 0 <= i < |s| ==> IsDigit(s[i])
    ensures ParsesAsInt(s)
  {
    assert StripLeading(s) == s;
    assert StripTrailing(s) == s;
  }

  /** A space-free id with a letter in it is accepted, as 'dave03' is. */
  lemma UserIdWithLetterAccepted(userId: string, i: int)
    requires ' ' !in userId
    requires 0 <= i < |userId| && IsLetter(userId[i])
    ensures ValidateUserId(userId)
  {
    ForeignCharNotInt(userId, i);
  }

  /** The status-id rule written out: exactly one '_', a user id before it and an integer after it. */
  lemma StatusIdShape(statusId: string)
    ensures ValidateStatusId(statusId) <==>
      exists i :: 0 <= i < |statusId| && statusId[i] == '_'
        && (forall j :: 0 <= j < |statusId| && j != i ==> statusId[j] != '_')
        && ValidateUserId(statusId[..i]) && ParsesAsInt(statusId[i + 1..])
  {
    if ValidateStatusId(statusId) {
      SplitInTwo(statusId, '_');
      var i := |Split(statusId, '_')[0]|;
      assert statusId[i] == '_';
    }
    forall i | 0 <= i < |statusId| && statusId[i] == '_'
        && (forall j :: 0 <= j < |statusId| && j != i ==> statusId[j] != '_')
      ensures Split(statusId, '_') == [statusId[..i], statusId[i + 1..]]
    {
      SplitAtOnly(statusId, '_', i);
    }
  }

  /** The email rule written out: exactly one '@', a non-empty local part of allowed characters before it. */
  lemma EmailShapeParts(email: string)
    ensures EmailShape(email) <==>
      exists i :: 0 <= i < |email| && email[i] == '@'
        && (forall j :: 0 <= j < |email| && j != i ==> email[j] != '@')
        && i > 0 && (forall j :: 0 <= j < i ==> IsLocalChar(email[j]))
        && DomainShape(email[i + 1..])
  {
    if EmailShape(email) {
      SplitInTwo(email, '@');
      var i := |Split(email, '@')[0]|;
      assert email[i] == '@';
      assert forall j :: 0 <= j < i ==> email[j] == email[..i][j];
    }
    forall i | 0 <= i < |email| && email[i] == '@'
        && (forall j :: 0 <= j < |email| && j != i ==> email[j] != '@')
      ensures Split(email, '@') == [email[..i], email[i + 1..]]
    {
      SplitAtOnly(email, '@', i);
    }
  }

  /**
   * One '@' at `at` after a run of local characters, and a domain with one
   * '.' between two labels, the last of two or more characters: accepted.
   */
  lemma EmailAccepted(email: string, at: int, dot: int)
    requires 0 < at < |email| && email[at] == '@'
    requires forall j :: 0 <= j < |email| && j != at ==> email[j] != '@'
    requires 0 < dot < |email| - at - 3 && email[at + 1 + dot] == '.'
    requires forall j :: 0 <= j < at ==> IsLocalChar(email[j])
    requires forall j :: at < j < |email| && j != at + 1 + dot ==> IsDomainChar(email[j])
    ensures ValidateEmail(email)
  {
    SplitAtOnly(email, '@', at);
    var domain := email[at + 1..];
    SplitAtOnly(domain, '.', dot);
    var labels := Split(domain, '.');
    assert IsLabel(labels[0]) && IsLabel(labels[1]);
  }

  // ---------------------------------------------------------------------------
  // validate_user_inputs and validate_status_inputs

  datatype UserField = UserIdField | EmailField | NameField | LastNameField

  /**
   * The field `validate_user_inputs` reports, checking USER_ID, EMAIL, NAME
   * and LASTNAME in that order and stopping at the first failure; None when
   * all four pass.
   */
  function FirstInvalidUserInput(userId: string, email: string, userName: string, userLastName: string)
    : (r: Option<UserField>)
    ensures r == None <==>
      ValidateUserId(userId) && ValidateEmail(email) && ValidateName(userName) && ValidateName(userLastName)
    ensures r == Some(UserIdField) <==> !ValidateUserId(userId)
    ensures r == Some(EmailField) <==> ValidateUserId(userId) && !ValidateEmail(email)
    ensures r == Some(NameField) <==>
      ValidateUserId(userId) && ValidateEmail(email) && !ValidateName(userName)
    ensures r == Some(LastNameField) <==>
      ValidateUserId(userId) && ValidateEmail(email) && ValidateName(userName) && !ValidateName(userLastName)
  {
    if !ValidateUserId(userId) then Some(UserIdField)
    else if !ValidateEmail(email) then Some(EmailField)
    else if !ValidateName(userName) then Some(NameField)
    else if !ValidateName(userLastName) then Some(LastNameField)
    else None
  }

  predicate ValidateUserInputs(userId: string, email: string, userName: string, userLastName: string) {
    FirstInvalidUserInput(userId, email, userName, userLastName) == None
  }

  /**
   * `validate_status_text`: any str is accepted. Every value the model can
   * pass is a str, so the `isinstance` test always holds.
   */
  predicate ValidateStatusText(statusText: string) {
    true
  }

  datatype StatusField = StatusIdField | StatusUserIdField | StatusTextField

  /**
   * The field `validate_status_inputs` reports, checking STATUS_ID, USER_ID
   * and STATUS_TEXT in that order and stopping at the first failure; None
   * when all three pass.
   */
  function FirstInvalidStatusInput(statusId: string, userId: string, statusText: string)
    : (r: Option<StatusField>)
    ensures r == None <==>
      ValidateStatusId(statusId) && ValidateUserId(userId) && ValidateStatusText(statusText)
    ensures r == Some(StatusIdField) <==> !ValidateStatusId(statusId)
    ensures r == Some(StatusUserIdField) <==> ValidateStatusId(statusId) && !ValidateUserId(userId)
    ensures r == Some(StatusTextField) <==>
      ValidateStatusId(statusId) && ValidateUserId(userId) && !ValidateStatusText(statusText)
  {
    if !ValidateStatusId(statusId) then Some(StatusIdField)
    else if !ValidateUserId(userId) then Some(StatusUserIdField)
    else if !ValidateStatusText(statusText) then Some(StatusTextField)
    else None
  }

  predicate ValidateStatusInputs(statusId: string, userId: string, statusText: string) {
    FirstInvalidStatusInput(statusId, userId, statusText) == None
  }
}
