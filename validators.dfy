/** The four field validators of the registration form. Each maps the text of
    one field to "" when it is acceptable, or to a fixed message. */
module Validators {

  import opened Wrappers
  import opened Strings
  import opened Dates

  const FullNameMessage := "Enter your full name"
  const ShortPartMessage := "Each name part must be at least 2 letters"
  const NameCharsMessage := "Invalid characters in name"
  const EmailMessage := "Invalid email address"
  const PhoneMessage := "Phone number must be 7\U{2013}15 digits"
  const BirthRequiredMessage := "Enter your birth date"
  const FutureBirthMessage := "Birth date cannot be in the future"
  const TooYoungMessage := "You must be at least 13 years old"
  const InvalidBirthMessage := "Invalid birth date"

  // ---------------------------------------------------------------- name

  /** A character of the class `[A-Za-zÄÖÅäöå\s'-]`. */
  predicate IsNameChar(c: char) {
    || ('A' <= c <= 'Z') || ('a' <= c <= 'z')
    || c == '\U{00C4}' || c == '\U{00D6}' || c == '\U{00C5}'   // Ä Ö Å
    || c == '\U{00E4}' || c == '\U{00F6}' || c == '\U{00E5}'   // ä ö å
    || IsSpace(c) || c == '\'' || c == '-'
  }

  /** The whole of `s` matches `^[A-Za-zÄÖÅäöå\s'-]+$`. */
  predicate AllNameChars(s: string) {
    |s| > 0 && forall i :: 0 <= i < |s| ==> IsNameChar(s[i])
  }

  /** validateName: split the trimmed name on whitespace; fewer than two
      parts, a part shorter than two characters, and a character outside the
      allowed set are reported in that order. */
  function ValidateName(name: string): (r: string)
    ensures r in {"", FullNameMessage, ShortPartMessage, NameCharsMessage}
  {
    var parts := Split(Trim(name));
    if |parts| < 2 then FullNameMessage
    else if !AllLong(parts) then ShortPartMessage
    else if !AllNameChars(name) then NameCharsMessage
    else ""
  }

  /** The name rule without `split`: the trimmed name must contain whitespace
      (two words or more), no word may be a single character standing alone,
      and every character must be allowed. The three checks keep their order,
      so a later one is only reported when the earlier ones pass. */
  lemma NameDecision(name: string)
    ensures ValidateName(name) ==
      if !HasSpace(Trim(name)) then FullNameMessage
      else if !NoLoneChar(Trim(name)) then ShortPartMessage
      else if !AllNameChars(name) then NameCharsMessage
      else ""
  {
    var t := Trim(name);
    SplitCount(t);
    if HasSpace(t) {
      SplitAllLong(t);
    }
  }

  /** A name is accepted exactly when it has two or more whitespace-separated
      words, no one-character word, and only allowed characters. */
  lemma NameAccepted(name: string)
    ensures ValidateName(name) == "" <==>
      HasSpace(Trim(name)) && NoLoneChar(Trim(name)) && AllNameChars(name)
  {
    NameDecision(name);
  }

  /** One word, or nothing but whitespace (the empty string included), asks
      for the full name. */
  lemma NameOneWord(name: string)
    requires NoSpace(Trim(name))
    ensures ValidateName(name) == FullNameMessage
  {
    SplitNoSpace(Trim(name));
  }

  // --------------------------------------------------------------- email

  /** A character of the class `[^\s@]`. */
  predicate IsEmailChar(c: char) {
    !IsSpace(c) && c != '@'
  }

  predicate AllEmailChars(s: string) {
    forall i :: 0 <= i < |s| ==> IsEmailChar(s[i])
  }

  /** `s` matches `[^\s@]+\.[^\s@]+`: allowed characters only, with a dot
      that has at least one character on either side. */
  predicate IsDomain(d: string) {
    AllEmailChars(d) && exists k :: 1 <= k < |d| - 1 && d[k] == '.'
  }

  /** `s` matches `^[^\s@]+@[^\s@]+\.[^\s@]+$`: a non-empty local part, one
      `@`, and a domain. */
  predicate IsEmailAddress(s: string) {
    exists i :: 0 < i < |s| && s[i] == '@' && AllEmailChars(s[..i]) && IsDomain(s[i + 1..])
  }

  /** Position of the first `@`, or `|s|` when there is none. */
  function FindAt(s: string): (i: nat)
    ensures i <= |s|
    ensures i < |s| ==> s[i] == '@'
    ensures forall j :: 0 <= j < i ==> s[j] != '@'
  {
    if s == [] then 0 else if s[0] == '@' then 0 else 1 + FindAt(s[1..])
  }

  /** validateEmail: the address is cut at its first `@` and both sides are checked. */
  function ValidateEmail(email: string): (r: string)
    ensures r == "" <==> IsEmailAddress(email)
    ensures r != "" ==> r == EmailMessage
  {
    var i := FindAt(email);
    if 0 < i < |email| && AllEmailChars(email[..i]) && IsDomain(email[i + 1..]) then ""
    else
      assert !IsEmailAddress(email) by {
        forall j | 0 < j < |email| && email[j] == '@' && AllEmailChars(email[..j])
          ensures j == i
        {
          assert i <= j;
        }
      }
      EmailMessage
  }

  // --------------------------------------------------------------- phone

  predicate IsDigit(c: char) {
    '0' <= c <= '9'
  }

  predicate AllDigits(s: string) {
    forall i :: 0 <= i < |s| ==> IsDigit(s[i])
  }

  /** `s` matches `^\+?\d{7,15}$`: seven to fifteen digits, with or without
      one leading plus sign. */
  predicate IsPhoneNumber(s: string) {
    || (AllDigits(s) && 7 <= |s| <= 15)
    || (|s| > 0 && s[0] == '+' && AllDigits(s[1..]) && 7 <= |s| - 1 <= 15)
  }

  /** validatePhone. */
  function ValidatePhone(phone: string): (r: string)
    ensures r == "" <==> IsPhoneNumber(phone)
    ensures r != "" ==> r == PhoneMessage
  {
    var digits := if |phone| > 0 && phone[0] == '+' then phone[1..] else phone;
    if 7 <= |digits| <= 15 && AllDigits(digits) then ""
    else
      assert !(AllDigits(phone) && |phone| > 0 && phone[0] == '+');
      PhoneMessage
  }

  // --------------------------------------------------------------- birth

  /** validateBirth. `parse` stands for `new Date(birthdate)` (None for an
      Invalid Date) and `today` for the day of `new Date()`. An Invalid Date
      fails none of the checks, since every comparison with NaN is false. */
  function ValidateBirth(birthdate: string, parse: string -> Option<CalendarDate>,
                         today: CalendarDate): (r: string)
    ensures r in {"", BirthRequiredMessage, FutureBirthMessage, TooYoungMessage, InvalidBirthMessage}
  {
    if birthdate == "" then BirthRequiredMessage
    else match parse(birthdate)
      case None => ""
      case Some(birth) =>
        if Before(today, birth) then FutureBirthMessage
        else
          var age := Age(birth, today);
          if age < 13 then TooYoungMessage
          else if age > 120 then InvalidBirthMessage
          else ""
  }

  /** The birth-date rule in terms of birthdays instead of ages: after the
      presence and future checks, the date is accepted from the 13th
      birthday on, up to the day before the 121st. */
  lemma BirthDecision(birthdate: string, parse: string -> Option<CalendarDate>,
                      today: CalendarDate)
    ensures ValidateBirth(birthdate, parse, today) ==
      if birthdate == "" then BirthRequiredMessage
      else if parse(birthdate).None? then ""
      else
        var birth := parse(birthdate).value;
        if Before(today, birth) then FutureBirthMessage
        else if Before(today, BirthdayIn(birth.year + 13, birth)) then TooYoungMessage
        else if !Before(today, BirthdayIn(birth.year + 121, birth)) then InvalidBirthMessage
        else ""
  {
    if birthdate != "" && parse(birthdate).Some? {
      var birth := parse(birthdate).value;
      AgeAtLeast(birth, today, 13);
      AgeAtLeast(birth, today, 121);
    }
  }

  /** The boundary of the age rule: the day before the 13th birthday is
      still too young, the birthday itself is accepted. */
  lemma ThirteenthBirthday(birthdate: string, parse: string -> Option<CalendarDate>,
                           birth: CalendarDate, today: CalendarDate)
    requires birthdate != "" && parse(birthdate) == Some(birth)
    ensures today == BirthdayIn(birth.year + 13, birth) ==>
      ValidateBirth(birthdate, parse, today) == ""
    ensures NextDay(today) == BirthdayIn(birth.year + 13, birth) ==>
      ValidateBirth(birthdate, parse, today) == TooYoungMessage
  {
    BirthDecision(birthdate, parse, today);
  }
}
