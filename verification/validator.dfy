/** `CreateUserCommandValidator`: five field rules over a create request.
    FluentValidation semantics used here: `NotEmpty` rejects null, empty and
    all-white-space strings; `MaximumLength`, `Matches` and `EmailAddress`
    accept null; every failing check of a rule reports its own message, in
    the order the checks are declared, and rules report in declaration order. */
module CreateUserValidator {
  import opened Wrappers
  import opened DotNetText
  import opened Exceptions
  import opened Dtos

  const MaxNameLength: nat := 100
  const MaxPhoneLength: nat := 20
  const MaxEmailLength: nat := 255

  datatype Field = FirstName | LastName | MiddleName | PhoneNumber | EmailAddress

  /** The property name FluentValidation reports for `x => x.Request.<field>`. */
  function PropertyName(f: Field): string {
    match f
    case FirstName => "Request.FirstName"
    case LastName => "Request.LastName"
    case MiddleName => "Request.MiddleName"
    case PhoneNumber => "Request.PhoneNumber"
    case EmailAddress => "Request.EmailAddress"
  }

  function FieldValue(req: CreateUserRequest, f: Field): Option<string> {
    match f
    case FirstName => req.firstName
    case LastName => req.lastName
    case MiddleName => req.middleName
    case PhoneNumber => req.phoneNumber
    case EmailAddress => req.emailAddress
  }

  // ----- the individual checks -----

  predicate NotEmpty(s: Option<string>) {
    !IsNullOrWhiteSpace(s)
  }

  predicate MaximumLength(s: Option<string>, n: nat) {
    s.None? || Utf16Length(s.value) <= n
  }

  /** A character of the class `[\d\-\(\)\s]`, with `\d` read as an ASCII digit. */
  predicate IsPhoneChar(c: char) {
    ('0' <= c <= '9') || c == '-' || c == '(' || c == ')' || IsWhiteSpace(c)
  }

  /** `Matches(@"^[\d\-\(\)\s]+$")`: one or more characters of the class. */
  predicate MatchesPhonePattern(s: Option<string>) {
    s.None? || (|s.value| > 0 && forall i | 0 <= i < |s.value| :: IsPhoneChar(s.value[i]))
  }

  /** FluentValidation's default `EmailAddress()` check: exactly one '@',
      neither the first nor the last character. */
  predicate HasEmailShape(s: string) {
    exists i | 0 < i < |s| - 1 :: s[i] == '@' && '@' !in s[..i] && '@' !in s[i + 1..]
  }

  predicate IsEmailAddress(s: Option<string>) {
    s.None? || HasEmailShape(s.value)
  }

  // ----- the rules, as a validity predicate -----

  /** The rule for one field holds. */
  predicate FieldValid(req: CreateUserRequest, f: Field) {
    var v := FieldValue(req, f);
    match f
    case FirstName => NotEmpty(v) && MaximumLength(v, MaxNameLength)
    case LastName => NotEmpty(v) && MaximumLength(v, MaxNameLength)
    case MiddleName => MaximumLength(v, MaxNameLength)
    case PhoneNumber =>
      NotEmpty(v) && MaximumLength(v, MaxPhoneLength) && MatchesPhonePattern(v)
    case EmailAddress =>
      NotEmpty(v) && IsEmailAddress(v) && MaximumLength(v, MaxEmailLength)
  }

  predicate IsValid(req: CreateUserRequest) {
    && FieldValid(req, FirstName)
    && FieldValid(req, LastName)
    && FieldValid(req, MiddleName)
    && FieldValid(req, PhoneNumber)
    && FieldValid(req, EmailAddress)
  }

  // ----- the checks of each rule, and their messages -----

  /** The kinds of check the rules chain: `NotEmpty()`, `MaximumLength(n)`
      and a format check (`Matches` for the phone number, `EmailAddress()`
      for the address). */
  datatype Validator = NotEmptyValidator | MaximumLengthValidator | FormatValidator

  /** The checks of each field's rule, in declaration order. */
  function Validators(f: Field): seq<Validator> {
    match f
    case FirstName => [NotEmptyValidator, MaximumLengthValidator]
    case LastName => [NotEmptyValidator, MaximumLengthValidator]
    case MiddleName => [MaximumLengthValidator]
    case PhoneNumber => [NotEmptyValidator, MaximumLengthValidator, FormatValidator]
    case EmailAddress => [NotEmptyValidator, FormatValidator, MaximumLengthValidator]
  }

  predicate HasValidator(f: Field, c: Validator) {
    c in Validators(f)
  }

  function MaxLength(f: Field): nat {
    match f
    case PhoneNumber => MaxPhoneLength
    case EmailAddress => MaxEmailLength
    case _ => MaxNameLength
  }

  /** Whether one check of a field's rule accepts the value. */
  predicate Passes(f: Field, c: Validator, v: Option<string>) {
    match c
    case NotEmptyValidator => NotEmpty(v)
    case MaximumLengthValidator => MaximumLength(v, MaxLength(f))
    case FormatValidator => if f == PhoneNumber then MatchesPhonePattern(v) else IsEmailAddress(v)
  }

  /** The `WithMessage` text of each check. */
  function Message(f: Field, c: Validator): string
    requires HasValidator(f, c)
  {
    match (f, c)
    case (FirstName, NotEmptyValidator) => "FirstName is required."
    case (FirstName, MaximumLengthValidator) => "FirstName must not exceed 100 characters."
    case (LastName, NotEmptyValidator) => "LastName is required."
    case (LastName, MaximumLengthValidator) => "LastName must not exceed 100 characters."
    case (MiddleName, MaximumLengthValidator) => "MiddleName must not exceed 100 characters."
    case (PhoneNumber, NotEmptyValidator) => "PhoneNumber is required."
    case (PhoneNumber, MaximumLengthValidator) => "PhoneNumber must not exceed 20 characters."
    case (PhoneNumber, FormatValidator) => "PhoneNumber format is invalid."
    case (EmailAddress, NotEmptyValidator) => "EmailAddress is required."
    case (EmailAddress, FormatValidator) => "EmailAddress format is invalid."
    case (EmailAddress, MaximumLengthValidator) => "EmailAddress must not exceed 255 characters."
    case _ => assert false; ""
  }

  /** The failures a chain of checks reports: one per failing check, in
      chain order, each with that check's message. */
  function Reported(req: CreateUserRequest, f: Field, cs: seq<Validator>): seq<ValidationFailure>
    requires forall i | 0 <= i < |cs| :: HasValidator(f, cs[i])
  {
    if cs == [] then []
    else
      (if Passes(f, cs[0], FieldValue(req, f)) then []
       else [ValidationFailure(PropertyName(f), Message(f, cs[0]))])
      + Reported(req, f, cs[1..])
  }

  // ----- the rules, as the error list they produce -----

  /** The failures one rule reports: one per failing check of its chain,
      in declaration order, each with that check's message. */
  function RuleFailures(req: CreateUserRequest, f: Field): (errors: seq<ValidationFailure>)
    ensures errors == [] <==> FieldValid(req, f)
    ensures forall e | e in errors :: e.propertyName == PropertyName(f)
  {
    var cs := Validators(f);
    ReportedEmptyIffAllPass(req, f, cs);
    ReportedProperty(req, f, cs);
    Reported(req, f, cs)
  }

  /** The validator's result: every failure of every rule. It reads the
      request only, never the store. */
  function Validate(req: CreateUserRequest): (errors: seq<ValidationFailure>)
    ensures errors == [] <==> IsValid(req)
  {
    RuleFailures(req, FirstName)
    + RuleFailures(req, LastName)
    + RuleFailures(req, MiddleName)
    + RuleFailures(req, PhoneNumber)
    + RuleFailures(req, EmailAddress)
  }

  /** A chain reports nothing exactly when every one of its checks passes. */
  lemma {:induction false} ReportedEmptyIffAllPass(req: CreateUserRequest, f: Field, cs: seq<Validator>)
    requires forall i | 0 <= i < |cs| :: HasValidator(f, cs[i])
    ensures Reported(req, f, cs) == [] <==>
      forall i | 0 <= i < |cs| :: Passes(f, cs[i], FieldValue(req, f))
    ensures cs == Validators(f) ==>
      (Reported(req, f, cs) == [] <==> FieldValid(req, f))
  {
    if cs != [] {
      ReportedEmptyIffAllPass(req, f, cs[1..]);
      assert forall i | 1 <= i < |cs| :: cs[i] == cs[1..][i - 1];
    }
  }

  /** Every failure a chain reports carries the rule's property name. */
  lemma {:induction false} ReportedProperty(req: CreateUserRequest, f: Field, cs: seq<Validator>)
    requires forall i | 0 <= i < |cs| :: HasValidator(f, cs[i])
    ensures forall e | e in Reported(req, f, cs) :: e.propertyName == PropertyName(f)
  {
    if cs != [] {
      ReportedProperty(req, f, cs[1..]);
    }
  }

  /** A chain reports a given failure exactly when one of its checks
      with that message fails. */
  lemma {:induction false} ReportedContains(req: CreateUserRequest, f: Field, cs: seq<Validator>,
                                            x: ValidationFailure)
    requires forall i | 0 <= i < |cs| :: HasValidator(f, cs[i])
    ensures x in Reported(req, f, cs) <==>
      exists i | 0 <= i < |cs| ::
        && !Passes(f, cs[i], FieldValue(req, f))
        && x == ValidationFailure(PropertyName(f), Message(f, cs[i]))
  {
    if cs != [] {
      ReportedContains(req, f, cs[1..], x);
      forall i | 1 <= i < |cs|
        ensures cs[i] == cs[1..][i - 1]
      {
      }
    }
  }

  /** Within one rule, different checks carry different messages. */
  lemma MessagesDistinct(f: Field, c: Validator, d: Validator)
    requires HasValidator(f, c) && HasValidator(f, d)
    requires Message(f, c) == Message(f, d)
    ensures c == d
  {
    assert Message(f, c)[|Message(f, c)| - 3] == Message(f, d)[|Message(f, d)| - 3];
  }

  /** A check's failure, with its rule's property and its own message, is
      in the validator's result exactly when that check rejects the value. */
  lemma FailureReportedIffCheckFails(req: CreateUserRequest, f: Field, c: Validator)
    requires HasValidator(f, c)
    ensures ValidationFailure(PropertyName(f), Message(f, c)) in Validate(req)
            <==> !Passes(f, c, FieldValue(req, f))
  {
    var x := ValidationFailure(PropertyName(f), Message(f, c));
    var cs := Validators(f);
    var k :| 0 <= k < |cs| && cs[k] == c;
    ReportedContains(req, f, cs, x);
    if !Passes(f, c, FieldValue(req, f)) {
      assert x in RuleFailures(req, f);
    } else if x in Validate(req) {
      FailureBelongsToARule(req, x);
      var g :| x in RuleFailures(req, g);
      PropertyNameInjective(f, g);
      var i :| 0 <= i < |cs| && !Passes(f, cs[i], FieldValue(req, f))
               && x == ValidationFailure(PropertyName(f), Message(f, cs[i]));
      MessagesDistinct(f, c, cs[i]);
      assert false;
    }
  }

  /** Every reported failure is a failing check of its property's rule,
      with that check's message. */
  lemma FailureIsAFailingCheck(req: CreateUserRequest, e: ValidationFailure)
    ensures e in Validate(req) ==>
      exists f, c | HasValidator(f, c) ::
        && e == ValidationFailure(PropertyName(f), Message(f, c))
        && !Passes(f, c, FieldValue(req, f))
  {
    if e in Validate(req) {
      FailureBelongsToARule(req, e);
      var f :| e in RuleFailures(req, f);
      var cs := Validators(f);
      ReportedContains(req, f, cs, e);
      var i :| 0 <= i < |cs| && !Passes(f, cs[i], FieldValue(req, f))
               && e == ValidationFailure(PropertyName(f), Message(f, cs[i]));
      assert HasValidator(f, cs[i]);
    }
  }

  /** Each failure of the validator comes from one of the five rules. */
  lemma FailureBelongsToARule(req: CreateUserRequest, e: ValidationFailure)
    ensures e in Validate(req) <==> exists f :: e in RuleFailures(req, f)
  {
    if e in Validate(req) {
      assert e in RuleFailures(req, FirstName) || e in RuleFailures(req, LastName)
          || e in RuleFailures(req, MiddleName) || e in RuleFailures(req, PhoneNumber)
          || e in RuleFailures(req, EmailAddress);
    } else {
      forall f ensures e !in RuleFailures(req, f) {
        match f
        case FirstName =>
        case LastName =>
        case MiddleName =>
        case PhoneNumber =>
        case EmailAddress =>
      }
    }
  }

  /** A null middle name skips its rule and an empty one satisfies it. */
  lemma MiddleNameMayBeNullOrEmpty(req: CreateUserRequest)
    requires req.middleName == None || req.middleName == Some("")
    ensures RuleFailures(req, MiddleName) == []
  {
  }

  lemma PropertyNameInjective(f: Field, g: Field)
    requires PropertyName(f) == PropertyName(g)
    ensures f == g
  {
    assert PropertyName(f)[8] == PropertyName(g)[8];
  }

  /** A field is named by some failure exactly when its rule fails. */
  lemma FailuresNameExactlyTheFailingFields(req: CreateUserRequest, f: Field)
    ensures (exists e :: e in Validate(req) && e.propertyName == PropertyName(f))
            <==> !FieldValid(req, f)
  {
    var all := [FirstName, LastName, MiddleName, PhoneNumber, EmailAddress];
    if !FieldValid(req, f) {
      var e := RuleFailures(req, f)[0];
      assert e in Validate(req);
    } else {
      forall e | e in Validate(req)
        ensures e.propertyName != PropertyName(f)
      {
        var g :| g in all && e in RuleFailures(req, g);
        if e.propertyName == PropertyName(f) {
          PropertyNameInjective(f, g);
        }
      }
    }
  }

  /** An address without '@' fails the e-mail format check. */
  lemma NoAtSignIsNoEmail(s: string)
    requires '@' !in s
    ensures !HasEmailShape(s)
  {
  }

  /** A short string that does not start with white space passes
      `NotEmpty` and a `MaximumLength` of twice its length. */
  lemma ShortTextPasses(s: string, n: nat)
    requires 0 < |s| && 2 * |s| <= n
    requires !IsWhiteSpace(s[0])
    ensures NotEmpty(Some(s)) && MaximumLength(Some(s), n)
  {
    Utf16LengthBounds(s);
  }

  /** An address with one '@' between a non-empty local part and a
      non-empty domain passes the three e-mail checks when it is short. */
  lemma AddressPasses(local: string, domain: string)
    requires 0 < |local| && 0 < |domain|
    requires '@' !in local && '@' !in domain
    requires !IsWhiteSpace(local[0])
    requires 2 * (|local| + 1 + |domain|) <= MaxEmailLength
    ensures var e := Some(local + "@" + domain);
      NotEmpty(e) && IsEmailAddress(e) && MaximumLength(e, MaxEmailLength)
  {
    var e := local + "@" + domain;
    assert e[|local|] == '@' && e[..|local|] == local && e[|local| + 1..] == domain;
    ShortTextPasses(e, MaxEmailLength);
  }

  /** A request of short names, a short phone number of pattern characters
      and a short address of the form local@domain passes the validator. */
  lemma ShortRequestIsValid(req: CreateUserRequest, first: string, middle: string, last: string,
                            phone: string, local: string, domain: string)
    requires req == CreateUserRequest(Some(first), Some(middle), Some(last), Some(phone),
                                      Some(local + "@" + domain))
    requires 0 < |first| && 2 * |first| <= MaxNameLength && !IsWhiteSpace(first[0])
    requires 2 * |middle| <= MaxNameLength
    requires 0 < |last| && 2 * |last| <= MaxNameLength && !IsWhiteSpace(last[0])
    requires 0 < |phone| <= MaxPhoneLength && !IsWhiteSpace(phone[0])
    requires forall i | 0 <= i < |phone| :: IsPhoneChar(phone[i])
    requires 0 < |local| && 0 < |domain| && '@' !in local && '@' !in domain
    requires !IsWhiteSpace(local[0]) && 2 * (|local| + 1 + |domain|) <= MaxEmailLength
    ensures IsValid(req)
  {
    ShortTextPasses(first, MaxNameLength);
    Utf16LengthBounds(middle);
    ShortTextPasses(last, MaxNameLength);
    Utf16LengthOfBmp(phone);
    AddressPasses(local, domain);
  }

  /** The request of the first integration test passes the validator. */
  lemma MatthewRequestIsValid()
    ensures IsValid(CreateUserRequest(Some("Matthew"), Some("Decker"), Some("Lund"),
                                      Some("555-555-5555"), Some("matt@awesomedomain.com")))
  {
    var phone := "555-555-5555";
    assert forall i | 0 <= i < |phone| :: IsPhoneChar(phone[i]);
    assert '@' !in "awesomedomain.com";
    assert !IsWhiteSpace("Matthew"[0]) && !IsWhiteSpace("Lund"[0]);
    assert !IsWhiteSpace(phone[0]) && !IsWhiteSpace("matt"[0]);
    assert "matt" + "@" + "awesomedomain.com" == "matt@awesomedomain.com";
    ShortRequestIsValid(
      CreateUserRequest(Some("Matthew"), Some("Decker"), Some("Lund"),
                        Some(phone), Some("matt@awesomedomain.com")),
      "Matthew", "Decker", "Lund", phone, "matt", "awesomedomain.com");
  }
}
