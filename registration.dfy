/** The registration form's controller: it reads the five controls, shows one
    error message per field, marks failing inputs "invalid", and appends each
    accepted registration as a six-cell row of the results table. */
module Registration {

  import opened Wrappers
  import opened Strings
  import opened Dates
  import opened Validators

  const TermsMessage := "You must accept the terms"

  /** The four text inputs that can be marked "invalid", in document order. */
  datatype Input = FullNameInput | EmailInput | PhoneInput | BirthInput

  /** The five error-message elements. */
  datatype ErrorSlot = NameError | EmailError | PhoneError | BirthError | TermsError

  const Inputs: seq<Input> := [FullNameInput, EmailInput, PhoneInput, BirthInput]
  const ErrorSlots: seq<ErrorSlot> := [NameError, EmailError, PhoneError, BirthError, TermsError]
  const AllSlots: set<ErrorSlot> := {NameError, EmailError, PhoneError, BirthError, TermsError}

  /** What the user has typed into the form. */
  datatype Entries = Entries(fullName: string, email: string, phone: string,
                             birthdate: string, terms: bool)

  const EmptyEntries := Entries("", "", "", "", false)

  /** The outcome of each check of validateForm: the message of each
      validator on its trimmed field, and whether the terms box is checked. */
  datatype Verdicts = Verdicts(name: string, email: string, phone: string, birth: string,
                               terms: bool)

  function Check(e: Entries, parse: string -> Option<CalendarDate>,
                 today: CalendarDate): (v: Verdicts)
    ensures v.name == "" <==>
      HasSpace(Trim(e.fullName)) && NoLoneChar(Trim(e.fullName)) && AllNameChars(Trim(e.fullName))
    ensures v.email == "" <==> IsEmailAddress(Trim(e.email))
    ensures v.phone == "" <==> IsPhoneNumber(Trim(e.phone))
    ensures v.terms == e.terms
    ensures v.name == ValidateName(Trim(e.fullName)) && v.email == ValidateEmail(Trim(e.email))
    ensures v.phone == ValidatePhone(Trim(e.phone))
    ensures v.birth == ValidateBirth(Trim(e.birthdate), parse, today)
  {
    TrimIdempotent(e.fullName);
    NameAccepted(Trim(e.fullName));
    Verdicts(ValidateName(Trim(e.fullName)), ValidateEmail(Trim(e.email)),
             ValidatePhone(Trim(e.phone)), ValidateBirth(Trim(e.birthdate), parse, today),
             e.terms)
  }

  /** The verdict of the validator behind one input. */
  function FieldVerdict(v: Verdicts, input: Input): string {
    match input
    case FullNameInput => v.name
    case EmailInput => v.email
    case PhoneInput => v.phone
    case BirthInput => v.birth
  }

  /** The text validateForm leaves in one error element. */
  function SlotText(v: Verdicts, slot: ErrorSlot): string {
    match slot
    case NameError => v.name
    case EmailError => v.email
    case PhoneError => v.phone
    case BirthError => v.birth
    case TermsError => if v.terms then "" else TermsMessage
  }

  /** The error element that belongs to a text input. */
  function SlotOf(input: Input): ErrorSlot {
    match input
    case FullNameInput => NameError
    case EmailInput => EmailError
    case PhoneInput => PhoneError
    case BirthInput => BirthError
  }

  /** Every error element empty. */
  function NoErrors(): map<ErrorSlot, string> {
    map s | s in AllSlots :: ""
  }

  /** The error texts that validateForm leaves on the page. */
  function Report(v: Verdicts): map<ErrorSlot, string> {
    map s | s in AllSlots :: SlotText(v, s)
  }

  /** The inputs that validateForm marks "invalid". */
  function Failing(v: Verdicts): set<Input> {
    set input | input in Inputs && FieldVerdict(v, input) != ""
  }

  /** validateForm's result: all four validators pass and the terms are accepted. */
  predicate Accepted(v: Verdicts) {
    v.name == "" && v.email == "" && v.phone == "" && v.birth == "" && v.terms
  }

  lemma AllSlotsComplete()
    ensures forall s: ErrorSlot :: s in AllSlots
  {
    forall s: ErrorSlot ensures s in AllSlots {
      match s
      case NameError =>
      case EmailError =>
      case PhoneError =>
      case BirthError =>
      case TermsError =>
    }
  }

  lemma NoneMarked(marked: set<Input>)
    requires FullNameInput !in marked && EmailInput !in marked
    requires PhoneInput !in marked && BirthInput !in marked
    ensures marked == {}
  {
    forall input | input in marked ensures false {
      match input
      case FullNameInput =>
      case EmailInput =>
      case PhoneInput =>
      case BirthInput =>
    }
  }

  /** `{input}` when `message` reports a failure, `{}` otherwise. */
  function Marked(message: string, input: Input): set<Input> {
    if message == "" then {} else {input}
  }

  /** The report, element by element, in the order validateForm writes it. */
  lemma ReportByUpdates(v: Verdicts)
    ensures Report(v) == NoErrors()[NameError := v.name][EmailError := v.email]
      [PhoneError := v.phone][BirthError := v.birth]
      [TermsError := if v.terms then "" else TermsMessage]
  {
    var expected := NoErrors()[NameError := v.name][EmailError := v.email]
      [PhoneError := v.phone][BirthError := v.birth]
      [TermsError := if v.terms then "" else TermsMessage];
    forall s | s in AllSlots ensures Report(v)[s] == expected[s] {
      match s
      case NameError =>
      case EmailError =>
      case PhoneError =>
      case BirthError =>
      case TermsError =>
    }
  }

  /** The marked inputs, input by input, in the order validateForm marks them. */
  lemma FailingByParts(v: Verdicts)
    ensures Failing(v) == Marked(v.name, FullNameInput) + Marked(v.email, EmailInput)
      + Marked(v.phone, PhoneInput) + Marked(v.birth, BirthInput)
  {
    var expected := Marked(v.name, FullNameInput) + Marked(v.email, EmailInput)
      + Marked(v.phone, PhoneInput) + Marked(v.birth, BirthInput);
    forall input: Input ensures input in Failing(v) <==> input in expected {
      match input
      case FullNameInput =>
      case EmailInput =>
      case PhoneInput =>
      case BirthInput =>
    }
  }

  /** Where a slot stands in `ErrorSlots`. */
  lemma SlotPosition(s: ErrorSlot) returns (k: nat)
    ensures k < |ErrorSlots| && ErrorSlots[k] == s
  {
    match s
    case NameError => k := 0;
    case EmailError => k := 1;
    case PhoneError => k := 2;
    case BirthError => k := 3;
    case TermsError => k := 4;
  }

  /** The result agrees with the page: the form is accepted exactly when no
      error element shows a message, and an input is marked exactly when its
      error element shows one. */
  lemma ReportAgreesWithVerdict(v: Verdicts)
    ensures Accepted(v) <==> forall s :: s in AllSlots ==> Report(v)[s] == ""
    ensures forall input: Input :: input in Failing(v) <==> Report(v)[SlotOf(input)] != ""
  {
    var r := Report(v);
    if forall s :: s in AllSlots ==> r[s] == "" {
      assert r[NameError] == "" && r[EmailError] == "" && r[PhoneError] == "";
      assert r[BirthError] == "" && r[TermsError] == "";
    }
    forall input: Input ensures input in Failing(v) <==> r[SlotOf(input)] != "" {
      match input
      case FullNameInput =>
      case EmailInput =>
      case PhoneInput =>
      case BirthInput =>
    }
  }

  /** Valid text fields with the terms unchecked: only the terms message is
      shown and no input is marked. */
  lemma TermsErrorOnly(v: Verdicts)
    requires v.name == "" && v.email == "" && v.phone == "" && v.birth == ""
    requires !v.terms
    ensures !Accepted(v)
    ensures Report(v) == NoErrors()[TermsError := TermsMessage]
    ensures Failing(v) == {}
  {
    var r := Report(v);
    var expected := NoErrors()[TermsError := TermsMessage];
    assert r.Keys == expected.Keys;
    forall s | s in AllSlots ensures r[s] == expected[s] {
      match s
      case NameError =>
      case EmailError =>
      case PhoneError =>
      case BirthError =>
      case TermsError =>
    }
  }

  /** The first marked input in document order: what
      `document.querySelector(".invalid")` finds and focuses. */
  function FirstInvalid(marked: set<Input>): (r: Option<Input>)
    ensures r == None <==> marked == {}
    ensures r.Some? ==> r.value in marked
    ensures r.Some? ==> forall k, j :: 0 <= j < k < |Inputs| && Inputs[k] == r.value ==>
      Inputs[j] !in marked
  {
    if FullNameInput in marked then Some(FullNameInput)
    else if EmailInput in marked then Some(EmailInput)
    else if PhoneInput in marked then Some(PhoneInput)
    else if BirthInput in marked then Some(BirthInput)
    else
      NoneMarked(marked);
      None
  }

  // ------------------------------------------------------------ the table

  /** The `data` handed to addRow. */
  datatype Submission = Submission(timestamp: string, name: string, email: string,
                                   phone: string, birth: string, terms: bool)

  /** The six cells of the row addRow builds, in column order. */
  function Cells(data: Submission): (c: seq<string>)
    ensures |c| == 6 && c[..5] == [data.timestamp, data.name, data.email, data.phone, data.birth]
    ensures c[5] == "Yes" <==> data.terms
    ensures c[5] == "No" <==> !data.terms
  {
    [data.timestamp, data.name, data.email, data.phone, data.birth,
     if data.terms then "Yes" else "No"]
  }

  /** What the submit handler passes to addRow: the trimmed text fields, the
      birth date as typed, and the time stamp. */
  function SubmissionOf(e: Entries, stamp: string): (data: Submission)
    ensures IsTrimmed(data.name) && IsTrimmed(data.email) && IsTrimmed(data.phone)
    ensures data.name == Trim(e.fullName) && data.email == Trim(e.email)
    ensures data.phone == Trim(e.phone)
    ensures data.birth == e.birthdate && data.terms == e.terms && data.timestamp == stamp
  {
    Submission(stamp, Trim(e.fullName), Trim(e.email), Trim(e.phone), e.birthdate, e.terms)
  }

  /** What an accepted registration guarantees about its data: the name,
      e-mail and phone pass their validators and the terms were accepted. */
  predicate Registered(data: Submission) {
    && ValidateName(data.name) == ""
    && ValidateEmail(data.email) == ""
    && ValidatePhone(data.phone) == ""
    && data.terms
  }

  /** What the submit handler hands to addRow after a successful check is a
      registered submission; in particular its terms cell reads "Yes". */
  lemma AcceptedRegistered(e: Entries, parse: string -> Option<CalendarDate>,
                           today: CalendarDate, stamp: string)
    requires Accepted(Check(e, parse, today))
    ensures Registered(SubmissionOf(e, stamp))
    ensures Cells(SubmissionOf(e, stamp))[5] == "Yes"
  {
  }

  /** The results table holds one row per registration, built by Cells. */
  ghost predicate Table(rows: seq<seq<string>>, regs: seq<Submission>) {
    && |rows| == |regs|
    && forall i :: 0 <= i < |rows| ==> rows[i] == Cells(regs[i]) && Registered(regs[i])
  }

  /** Appending the row of a registered submission keeps the table made of
      registrations only. */
  lemma TableExtend(rows: seq<seq<string>>, regs: seq<Submission>, data: Submission)
    requires Table(rows, regs) && Registered(data)
    ensures Table(rows + [Cells(data)], regs + [data])
  {
  }

  // ------------------------------------------------------- the controller

  /** The form, its error elements and the results table. */
  class RegistrationForm {
    var fullName: string
    var email: string
    var phone: string
    var birthdate: string
    var terms: bool
    var timestamp: string
    var errors: map<ErrorSlot, string>
    var invalid: set<Input>
    var rows: seq<seq<string>>
    /** The submissions the rows were built from. */
    ghost var registrations: seq<Submission>

    /** Each error element exists, and every row of the table was built from
        an accepted registration. */
    ghost predicate Valid()
      reads this`errors, this`rows, this`registrations
    {
      && errors.Keys == AllSlots
      && Table(rows, registrations)
    }

    function Entered(): Entries
      reads this`fullName, this`email, this`phone, this`birthdate, this`terms
    {
      Entries(fullName, email, phone, birthdate, terms)
    }

    constructor ()
      ensures Valid()
      ensures Entered() == EmptyEntries && timestamp == ""
      ensures errors == NoErrors() && invalid == {} && rows == []
    {
      fullName, email, phone, birthdate, terms, timestamp := "", "", "", "", false, "";
      errors := NoErrors();
      invalid := {};
      rows := [];
      registrations := [];
    }

    /** clearErrors: empty every error element and unmark every input. */
    method ClearErrors()
      modifies this`errors, this`invalid
      ensures errors == NoErrors() && invalid == {}
    {
      for i := 0 to |ErrorSlots|
        invariant errors.Keys == old(errors).Keys + set k | 0 <= k < i :: ErrorSlots[k]
        invariant forall k :: 0 <= k < i ==> errors[ErrorSlots[k]] == ""
        invariant invalid == old(invalid)
      {
        errors := errors[ErrorSlots[i] := ""];
      }
      forall s: ErrorSlot ensures s in errors && errors[s] == "" {
        var k := SlotPosition(s);
      }
      AllSlotsComplete();
      assert errors == NoErrors();
      for i := 0 to |Inputs|
        invariant invalid == old(invalid) - set k | 0 <= k < i :: Inputs[k]
        invariant errors == NoErrors()
      {
        invalid := invalid - {Inputs[i]};
      }
      assert Inputs[0] == FullNameInput && Inputs[1] == EmailInput;
      assert Inputs[2] == PhoneInput && Inputs[3] == BirthInput;
      NoneMarked(invalid);
    }

    /** setError: show `msg` in `slot` and mark `input`. */
    method SetError(input: Input, slot: ErrorSlot, msg: string)
      modifies this`errors, this`invalid
      ensures errors == old(errors)[slot := msg] && invalid == old(invalid) + {input}
    {
      errors := errors[slot := msg];
      invalid := invalid + {input};
    }

    /** One check of validateForm: when the validator returned a message,
        setError shows it and marks the input; `passed` is false then. */
    method Flag(input: Input, slot: ErrorSlot, message: string) returns (passed: bool)
      requires slot in errors && errors[slot] == ""
      modifies this`errors, this`invalid
      ensures passed == (message == "")
      ensures errors == old(errors)[slot := message]
      ensures invalid == old(invalid) + Marked(message, input)
    {
      passed := true;
      if message != "" {
        SetError(input, slot, message);
        passed := false;
      }
    }

    /** The display half of validateForm: clear the page, then show every
        failing verdict under its field and mark that field's input. */
    method ShowVerdicts(v: Verdicts) returns (valid: bool)
      modifies this`errors, this`invalid
      ensures valid == Accepted(v)
      ensures errors == Report(v)
      ensures invalid == Failing(v)
    {
      ClearErrors();
      valid := true;
      var passed := Flag(FullNameInput, NameError, v.name);
      valid := valid && passed;
      passed := Flag(EmailInput, EmailError, v.email);
      valid := valid && passed;
      passed := Flag(PhoneInput, PhoneError, v.phone);
      valid := valid && passed;
      passed := Flag(BirthInput, BirthError, v.birth);
      valid := valid && passed;
      if !v.terms {
        errors := errors[TermsError := TermsMessage];
        valid := false;
      }
      ReportByUpdates(v);
      FailingByParts(v);
    }

    /** validateForm: run every check on the current entries and show the
        outcome; the form is valid exactly when every check passed. */
    method ValidateForm(parse: string -> Option<CalendarDate>, today: CalendarDate)
      returns (valid: bool)
      modifies this`errors, this`invalid
      ensures valid == Accepted(Check(old(Entered()), parse, today))
      ensures errors == Report(Check(old(Entered()), parse, today))
      ensures invalid == Failing(Check(old(Entered()), parse, today))
    {
      var v := Check(Entered(), parse, today);
      valid := ShowVerdicts(v);
    }

    /** addRow: build the six cells one by one and append the row. */
    method AddRow(data: Submission)
      modifies this`rows
      ensures rows == old(rows) + [Cells(data)]
    {
      var cells := Cells(data);
      var tr: seq<string> := [];
      for i := 0 to |cells|
        invariant tr == cells[..i]
      {
        tr := tr + [cells[i]];
      }
      assert tr == cells;
      rows := rows + [tr];
    }

    /** Resetting the form: the reset handler clears the error elements and
        every control returns to its empty default. */
    method Reset()
      modifies this`fullName, this`email, this`phone, this`birthdate, this`terms,
               this`timestamp, this`errors, this`invalid
      ensures Entered() == EmptyEntries && timestamp == ""
      ensures errors == NoErrors() && invalid == {}
    {
      ClearErrors();
      fullName, email, phone, birthdate, terms, timestamp := "", "", "", "", false, "";
    }

    /** Appending a registered submission's row keeps the table made of
        registrations only. */
    method Record(data: Submission)
      requires Table(rows, registrations) && Registered(data)
      modifies this`rows, this`registrations
      ensures Table(rows, registrations)
      ensures rows == old(rows) + [Cells(data)]
    {
      TableExtend(rows, registrations, data);
      AddRow(data);
      registrations := registrations + [data];
    }

    /** The success branch of the submit handler: append the row of the
        stamped entries and reset the form. */
    method Append(data: Submission)
      requires Valid() && Registered(data)
      modifies this
      ensures Valid()
      ensures rows == old(rows) + [Cells(data)]
      ensures Entered() == EmptyEntries && timestamp == ""
      ensures errors == NoErrors() && invalid == {}
    {
      Record(data);
      Reset();
    }

    /** Stamping accepted entries `e`, the ones the controls hold: the time
        stamp is written and the row built from the entries as they stand. */
    method Accept(e: Entries, stamp: string)
      requires Valid() && e == Entered() && Registered(SubmissionOf(e, stamp))
      modifies this
      ensures Valid()
      ensures rows == old(rows) + [Cells(SubmissionOf(e, stamp))]
      ensures Entered() == EmptyEntries && timestamp == ""
      ensures errors == NoErrors() && invalid == {}
    {
      timestamp := stamp;
      Append(SubmissionOf(e, stamp));
    }

    /** The submit handler. `today` and `stamp` are the day and the
        locale-formatted text of `new Date()`; `focus` is the input that
        receives the focus, if any. A row is appended exactly when
        validateForm succeeds. */
    method Submit(parse: string -> Option<CalendarDate>, today: CalendarDate, stamp: string)
      returns (appended: bool, focus: Option<Input>)
      requires Valid()
      modifies this
      ensures Valid()
      ensures appended == Accepted(Check(old(Entered()), parse, today))
      ensures appended ==>
        && rows == old(rows) + [Cells(SubmissionOf(old(Entered()), stamp))]
        && Entered() == EmptyEntries && timestamp == ""
        && errors == NoErrors() && invalid == {}
        && focus == Some(FullNameInput)
      ensures !appended ==>
        && rows == old(rows)
        && Entered() == old(Entered()) && timestamp == old(timestamp)
        && errors == Report(Check(old(Entered()), parse, today))
        && invalid == Failing(Check(old(Entered()), parse, today))
        && focus == FirstInvalid(invalid)
    {
      var e := Entered();
      appended := ValidateForm(parse, today);
      if !appended {
        focus := FirstInvalid(invalid);
        return;
      }
      AcceptedRegistered(e, parse, today, stamp);
      Accept(e, stamp);
      focus := Some(FullNameInput);
    }
  }
}
