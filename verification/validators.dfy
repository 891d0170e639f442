/** The request validators (StudentCoreWebApi/Validators): UserValidator for
    AddUser, RegisterRequestValidator and LoginRequestValidator. A
    validator is a function from a request to the list of error messages
    FluentValidation reports, in rule order; a request is accepted when the
    list is empty. Every rule runs, and within a rule every check runs (the
    default cascade mode). FluentValidation's EmailAddress check is the
    parameter `isEmail`. */
module Validators {
  import opened Common
  import opened Text
  import opened Dtos

  // Messages
  const FirstNameEmpty := "First Name cannot be Empty"
  const LastNameEmpty := "Last Name cannot be Empty"
  const EmailRequired := "Email is required"
  const EmailFormat := "Please check email format"
  const PhoneTooShort := "Phone number must be contain 10 digits."
  const PhoneTooLong := "Maximum number exceeded"
  /** FluentValidation's default NotEmpty message for the Email property. */
  const EmailMustNotBeEmpty := "'Email' must not be empty."
  const InvalidEmailFormat := "Invalid email format"
  const PasswordTooShort := "Password must be at least 6 characters long"
  const PasswordRequired := "Password is required"

  // ---------------------------------------------------------------------
  // UserValidator

  /** The Phone rule: GreaterThan(999999999) then LessThan(`limit`). A null
      phone passes both checks. The source's limit is SourcePhoneLimit. */
  function PhoneErrors(phone: Option<int>, limit: int): (errors: seq<string>)
    ensures phone.None? ==> errors == []
    ensures phone.Some? ==>
      && (PhoneTooShort in errors <==> phone.value <= 999999999)
      && (PhoneTooLong in errors <==> limit <= phone.value)
    ensures forall m :: m in errors ==> m == PhoneTooShort || m == PhoneTooLong
  {
    match phone
    case None => []
    case Some(p) =>
      (if p > 999999999 then [] else [PhoneTooShort]) + (if p < limit then [] else [PhoneTooLong])
  }

  /** The bound the source passes to LessThan. */
  const SourcePhoneLimit: int := 9999999999

  /** The bound that admits every ten-digit number. */
  const IntendedPhoneLimit: int := 10000000000

  /** UserValidator over an AddUser request, with the phone rule's upper
      bound as a parameter. */
  function ValidateUser(user: AddUser, isEmail: string -> bool, phoneLimit: int): (errors: seq<string>)
    ensures FirstNameEmpty in errors <==> IsBlank(user.firstName)
    ensures LastNameEmpty in errors <==> IsBlank(user.lastName)
    ensures EmailRequired in errors <==> IsBlank(user.email)
    ensures EmailFormat in errors <==> !isEmail(user.email)
    ensures errors == [] <==>
      && !IsBlank(user.firstName) && !IsBlank(user.lastName)
      && !IsBlank(user.email) && isEmail(user.email)
      && PhoneErrors(user.phone, phoneLimit) == []
  {
    var names := (if IsBlank(user.firstName) then [FirstNameEmpty] else [])
      + (if IsBlank(user.lastName) then [LastNameEmpty] else []);
    var email := (if IsBlank(user.email) then [EmailRequired] else [])
      + (if isEmail(user.email) then [] else [EmailFormat]);
    var phone := PhoneErrors(user.phone, phoneLimit);
    assert FirstNameEmpty !in phone && LastNameEmpty !in phone && EmailRequired !in phone && EmailFormat !in phone;
    names + email + phone
  }

  /** As written, a phone passes exactly when it lies in
      1000000000 .. 9999999998. */
  lemma SourcePhoneRange(p: int)
    ensures PhoneErrors(Some(p), SourcePhoneLimit) == [] <==> 1000000000 <= p <= 9999999998
  {
    var errors := PhoneErrors(Some(p), SourcePhoneLimit);
    if errors == [] {
      assert PhoneTooShort !in errors && PhoneTooLong !in errors;
    }
  }

  /** The number of decimal digits of a positive number. */
  function DigitCount(n: nat): (d: nat)
    ensures d >= 1
  {
    if n < 10 then 1 else 1 + DigitCount(n / 10)
  }

  function Pow10(k: nat): (p: nat)
    ensures p >= 1
  {
    if k == 0 then 1 else 10 * Pow10(k - 1)
  }

  lemma {:induction false} DigitCountRange(n: nat, k: nat)
    requires n >= 1 && k >= 1
    ensures DigitCount(n) == k <==> Pow10(k - 1) <= n < Pow10(k)
    decreases n
  {
    if n < 10 {
      if k > 1 {
        assert Pow10(k - 1) == 10 * Pow10(k - 2);
      }
    } else if k == 1 {
      assert DigitCount(n) == 1 + DigitCount(n / 10);
    } else {
      DigitCountRange(n / 10, k - 1);
      assert Pow10(k - 1) == 10 * Pow10(k - 2);
      assert Pow10(k) == 10 * Pow10(k - 1);
    }
  }

  /** The ten-digit number 9999999999 is refused with "Maximum number
      exceeded", although the rule's own message asks for ten digits. */
  lemma SourceRejectsTenDigitPhone()
    ensures DigitCount(9999999999) == 10
    ensures PhoneErrors(Some(9999999999), SourcePhoneLimit) == [PhoneTooLong]
  {
    DigitCountRange(9999999999, 10);
  }

  /** With the intended bound a phone passes exactly when it has ten
      digits. */
  lemma IntendedPhoneIsTenDigits(p: int)
    ensures PhoneErrors(Some(p), IntendedPhoneLimit) == [] <==> p >= 1 && DigitCount(p) == 10
  {
    var errors := PhoneErrors(Some(p), IntendedPhoneLimit);
    if errors == [] {
      assert PhoneTooShort !in errors && PhoneTooLong !in errors;
    }
    if p >= 1 {
      DigitCountRange(p, 10);
    }
  }

  // ---------------------------------------------------------------------
  // RegisterRequestValidator and LoginRequestValidator

  /** RegisterRequestValidator: Email must not be blank and must pass the
      format check; Password must be at least six UTF-16 code units long. */
  function ValidateRegister(request: RegisterRequest, isEmail: string -> bool): (errors: seq<string>)
    ensures EmailMustNotBeEmpty in errors <==> IsBlank(request.email)
    ensures InvalidEmailFormat in errors <==> !isEmail(request.email)
    ensures PasswordTooShort in errors <==> Utf16Length(request.password) < 6
    ensures errors == [] <==> !IsBlank(request.email) && isEmail(request.email) && Utf16Length(request.password) >= 6
  {
    (if IsBlank(request.email) then [EmailMustNotBeEmpty] else [])
    + (if isEmail(request.email) then [] else [InvalidEmailFormat])
    + (if Utf16Length(request.password) >= 6 then [] else [PasswordTooShort])
  }

  /** LoginRequestValidator: the same Email rule; Password must not be
      blank. */
  function ValidateLogin(request: LoginRequest, isEmail: string -> bool): (errors: seq<string>)
    ensures EmailMustNotBeEmpty in errors <==> IsBlank(request.email)
    ensures InvalidEmailFormat in errors <==> !isEmail(request.email)
    ensures PasswordRequired in errors <==> IsBlank(request.password)
    ensures errors == [] <==> !IsBlank(request.email) && isEmail(request.email) && !IsBlank(request.password)
  {
    (if IsBlank(request.email) then [EmailMustNotBeEmpty] else [])
    + (if isEmail(request.email) then [] else [InvalidEmailFormat])
    + (if IsBlank(request.password) then [PasswordRequired] else [])
  }

  /** The rules on the email are the same in both validators. */
  lemma SameEmailRule(email: string, password: string, isEmail: string -> bool)
    ensures EmailMustNotBeEmpty in ValidateRegister(RegisterRequest(email, password), isEmail)
      <==> EmailMustNotBeEmpty in ValidateLogin(LoginRequest(email, password), isEmail)
    ensures InvalidEmailFormat in ValidateRegister(RegisterRequest(email, password), isEmail)
      <==> InvalidEmailFormat in ValidateLogin(LoginRequest(email, password), isEmail)
  {
  }

  /** The registration rule on the password does not imply the login rule:
      a password of six spaces is accepted at registration and refused at
      login. */
  lemma BlankPasswordRegistersButFailsLogin(email: string, isEmail: string -> bool)
    requires !IsBlank(email) && isEmail(email)
    ensures ValidateRegister(RegisterRequest(email, "      "), isEmail) == []
    ensures ValidateLogin(LoginRequest(email, "      "), isEmail) == [PasswordRequired]
  {
    var p := "      ";
    assert IsBlank(p);
    Utf16LengthBmp(p);
  }

  /** The minimum length counts UTF-16 code units: three characters from
      outside the Basic Multilingual Plane are long enough, while three
      from inside it are not. */
  lemma AstralPasswordIsLongEnough(email: string, isEmail: string -> bool)
    requires !IsBlank(email) && isEmail(email)
    ensures ValidateRegister(RegisterRequest(email, "\U{1F600}\U{1F600}\U{1F600}"), isEmail) == []
    ensures ValidateRegister(RegisterRequest(email, "abc"), isEmail) == [PasswordTooShort]
  {
    var p := "\U{1F600}\U{1F600}\U{1F600}";
    assert p[1..][1..][1..] == [];
    Utf16LengthBmp("abc");
  }

  /** Blankness covers the Unicode separators, not only ASCII spaces: an
      ideographic space is refused as a login password. */
  lemma IdeographicSpaceIsBlank(email: string, isEmail: string -> bool)
    requires !IsBlank(email) && isEmail(email)
    ensures ValidateLogin(LoginRequest(email, "\U{3000}"), isEmail) == [PasswordRequired]
  {
    assert IsWhiteSpace("\U{3000}"[0]);
  }

  /** Login has no minimum length: a one-character password passes its
      rule, while registration refuses it. */
  lemma ShortPasswordOnlyAtLogin(email: string, isEmail: string -> bool)
    requires !IsBlank(email) && isEmail(email)
    ensures ValidateLogin(LoginRequest(email, "x"), isEmail) == []
    ensures ValidateRegister(RegisterRequest(email, "x"), isEmail) == [PasswordTooShort]
  {
    assert !IsWhiteSpace("x"[0]);
    Utf16LengthBmp("x");
  }
}
