# Registration form: a verified model

`task-h/index.js` runs a browser registration form. When the form is
submitted, it checks the full name, e-mail address, phone number and birth
date, and it checks that the terms box is ticked. Each failing field shows its
message and its input is marked "invalid". When every check passes, the
entries are stamped with the current time, appended as a six-cell row to a
results table, and the form is reset.

The model has six modules:

- `Strings` (`strings.dfy`) gives JavaScript's `trim()` and `split(/\s+/)` over
  the whitespace class `\s`.
  - It proves that `split` yields two or more pieces exactly when there is
    whitespace.
  - It proves that the pieces are the text between the maximal whitespace
    runs, in order: gluing them back together with those runs gives the input,
    and no other cut into whitespace-free pieces with only the first and last
    piece allowed empty does so.
  - It proves, for trimmed, non-empty text, that every piece has two or more
    characters exactly when no non-whitespace character stands alone between
    whitespace and/or the ends.
- `Dates` (`dates.dfy`) gives calendar dates as (year, month, day) triples.
  - For years from 100 on, `BirthdayIn` is `new Date(year, month, day)`,
    including JavaScript's rollover of 29 February to 1 March in a common year.
    (JavaScript reads years 0 to 99 as 1900 to 1999; the code only passes it
    `getFullYear()` of the current date.)
  - `Age` is the age arithmetic of line 52.
  - `AgeAtLeast` turns "age is at least k" into "the k-th birthday has come".
- `Validators` (`validators.dfy`) holds the four validators. Each has an exact
  "returns "" iff …" characterisation against a declarative predicate.
  - `validateName` is restated without `split`, keeping its three checks in order.
  - `validateEmail` and `validatePhone` are stated as the shapes their regular
    expressions describe.
  - `validateBirth` is stated in terms of birthdays.
- `Registration` (`registration.dfy`) holds the controller as a class
  `RegistrationForm`. Its fields are:
  - the five controls;
  - the timestamp field;
  - the error texts (`errors`: a map from error element to text);
  - the marked inputs (`invalid`: a set);
  - the table rows (`rows`: a sequence of six-string rows).

  Its methods model `clearErrors`, `setError`, `validateForm`, `addRow`, the
  reset handler and the submit handler. They are proved against pure functions
  that give the page validateForm leaves behind:
  - `Report` gives the error texts;
  - `Failing` gives the marked inputs;
  - `Accepted` gives the result.

  The invariant `Valid` says two things: every error element exists, and every
  table row was built by `Cells` from a submission whose name, e-mail and phone
  pass their validators and whose terms were accepted.
- `Scenarios` (`scenarios.dfy`) holds concrete sample inputs and their outcomes.
- `Wrappers` (`wrappers.dfy`) holds `Option`.

Two conventions run through the model:

- **Birth-date parsing is a parameter.** `new Date(birthdate)` is passed in as
  `parse: string -> Option<CalendarDate>`, where `None` is an Invalid Date.
- **`new Date()` is two parameters.** `today` is its calendar day. `stamp` is
  its `toLocaleString()` text.

The code is followed where it is permissive:

- **An unparsable birth date passes.** Every comparison with `NaN` is false, so
  `validateBirth` returns `""` for it. The model does the same.

The model also makes one assumption about dates:

- **`birth >= now` is read as "the birth day lies after today".** This holds
  when the parsed birth date is midnight of its day in local time, that is,
  when the browser runs on UTC. Then `now` lies later in the current day. In
  other time zones the code deviates from this reading (see "## Left out").

## Model

| member | source | states |
|---|---|---|
| Strings.Trim | task-h/index.js:35 | `trim()` leaves no whitespace at either end and never lengthens; the result is empty exactly when the input is all whitespace |
| Strings.TrimRemovesOnlyEnds | task-h/index.js:35 | `trim()` removes only whitespace, and only from the two ends: the input is whitespace, then the result, then whitespace |
| Strings.TrimTrimmed | task-h/index.js:35 | trimming text that has no whitespace at either end returns it unchanged |
| Strings.TrimIdempotent | task-h/index.js:35 | `trim()` is idempotent, so validateName trimming the already trimmed value from validateForm changes nothing |
| Strings.Split | task-h/index.js:35 | `split(/\s+/)` returns at least one piece and no piece contains whitespace; only the first and the last piece can be empty, and the first is non-empty when the text starts with a non-whitespace character |
| Strings.SplitJoin | task-h/index.js:35 | putting non-empty whitespace separators, one fewer than the pieces, back between the pieces gives the input |
| Strings.SplitUnique | task-h/index.js:35 | any cut of the text into whitespace-free pieces glued by non-empty whitespace separators, with no empty piece except the first and the last, is `split`'s: the separators are the maximal whitespace runs |
| Strings.SplitCount | task-h/index.js:35-36 | the split has two or more pieces exactly when the text contains whitespace |
| Strings.SplitNoSpace | task-h/index.js:35-36 | text without whitespace (the empty string included) splits into itself alone |
| Strings.SplitAllLong | task-h/index.js:35-37 | for trimmed non-empty text, every piece has length at least 2 exactly when no non-whitespace character has whitespace or an end on both sides |
| Dates.BirthdayIn | task-h/index.js:52 | for years from 100 on, `new Date(year, birth.getMonth(), birth.getDate())` lies in `year` and keeps birth's month and day, except for 29 February in a common year, which does not keep them (JavaScript rolls it over to 1 March) |
| Dates.Age | task-h/index.js:52 | the age is the difference of the years, less one exactly when this year's birthday (as JavaScript places it) is still ahead |
| Dates.AgeAtLeast | task-h/index.js:52 | the computed age is at least k exactly when today is not before the k-th birthday |
| Dates.BirthdayAheadIsMonthDay | task-h/index.js:52 | "today is before this year's birthday" is the same as comparing (month, day) pairs, even for a 29 February birthday in a common year |
| Validators.ValidateName | task-h/index.js:34-40 | the result is "" or one of the three name messages |
| Validators.NameDecision | task-h/index.js:34-39 | the checks in order: no whitespace in the trimmed name gives "Enter your full name"; otherwise a one-character word gives the part-length message; otherwise a character outside `[A-Za-zÄÖÅäöå\s'-]` gives "Invalid characters in name"; otherwise "" |
| Validators.NameAccepted | task-h/index.js:34-39 | a name is accepted exactly when its trimmed form has two or more words, none of one character, and all its characters are allowed |
| Validators.NameOneWord | task-h/index.js:35-36 | a name whose trimmed form has no whitespace (the empty name included) gets "Enter your full name" |
| Validators.ValidateEmail | task-h/index.js:42 | "" exactly when the address is a non-empty local part without whitespace or `@`, then `@`, then a domain without whitespace or `@` with a dot that has characters on both sides; otherwise "Invalid email address" |
| Validators.ValidatePhone | task-h/index.js:44 | "" exactly when the text is 7 to 15 ASCII digits, with or without one leading `+`; otherwise the phone message |
| Validators.ValidateBirth | task-h/index.js:46-56 | the result is "" or one of the four birth-date messages |
| Validators.BirthDecision | task-h/index.js:46-55 | empty input gives "Enter your birth date"; an unparsable date gives ""; a date after today gives the future message; before the 13th birthday it gives the too-young message; from the 121st birthday on it gives "Invalid birth date"; otherwise "" |
| Validators.ThirteenthBirthday | task-h/index.js:52-55 | the 13th birthday itself is accepted and the day before it is still too young |
| Registration.Check | task-h/index.js:63-75 | the verdicts of validateForm's checks: each field's verdict is its validator's message on the trimmed field (the birth date's included, whose meaning `BirthDecision` gives); so the name passes exactly when its trimmed form has two or more words, none of one character, and only allowed characters, and the e-mail and phone pass exactly when their trimmed forms have the shapes of their regular expressions; the terms verdict is the box's state |
| Registration.ReportAgreesWithVerdict | task-h/index.js:59-81 | validateForm's result is true exactly when every error element is empty, and an input is marked exactly when its own error element shows a message |
| Registration.TermsErrorOnly | task-h/index.js:75-78 | with every text field valid and the terms unchecked, the form is rejected, only the terms message is shown, and no input is marked |
| Registration.ReportByUpdates | task-h/index.js:60-78 | the error texts are the cleared elements followed by validateForm's writes, in its order |
| Registration.FailingByParts | task-h/index.js:60-73 | the marked inputs are the union of the inputs marked one check at a time |
| Registration.FirstInvalid | task-h/index.js:104-106 | the focused input is a marked one with no marked input before it in document order, and there is none exactly when nothing is marked |
| Registration.Cells | task-h/index.js:85-92 | six cells: time stamp, name, e-mail, phone and birth date in column order, then "Yes" exactly when the terms were accepted and "No" exactly when not |
| Registration.SubmissionOf | task-h/index.js:112-119 | the data handed to addRow: the name, e-mail and phone are the entered values with the whitespace at both ends removed (so none has whitespace at either end), the birth date is as typed, the terms as checked, and the time stamp is the one just written |
| Registration.AcceptedRegistered | task-h/index.js:104-119 | after validateForm accepts, the data handed to addRow has a name, e-mail and phone that pass their validators, and its terms cell reads "Yes" |
| Registration.TableExtend | task-h/index.js:99 | appending the row of a registered submission keeps every row the row of a registered submission |
| Registration.RegistrationForm.constructor | task-h/index.js:5-22 | the page starts with empty controls, empty error elements, no marked input and no rows |
| Registration.RegistrationForm.ClearErrors | task-h/index.js:24-27 | afterwards every error element is empty and no input is marked, whatever the state before (hence idempotent) |
| Registration.RegistrationForm.SetError | task-h/index.js:29-32 | the message goes into the given element and the input is marked; nothing else changes |
| Registration.RegistrationForm.Flag | task-h/index.js:63-73 | one check: a non-empty message is shown and its input marked, and the check passes exactly when the message is empty |
| Registration.RegistrationForm.ShowVerdicts | task-h/index.js:59-81 | starting from any page, the error texts become `Report`, the marked inputs become `Failing`, and the result is `Accepted` of the four verdicts and the terms box |
| Registration.RegistrationForm.ValidateForm | task-h/index.js:59-81 | returns true exactly when all four validators return "" on the trimmed fields and the terms are checked; afterwards exactly the failing inputs are marked and each error element holds its check's message |
| Registration.RegistrationForm.AddRow | task-h/index.js:83-100 | exactly one row is appended, its cells are [timestamp, name, email, phone, birth, "Yes"/"No"], and earlier rows are unchanged |
| Registration.RegistrationForm.Reset | task-h/index.js:121-125 | the controls return to empty, and the error elements are cleared with no input marked |
| Registration.RegistrationForm.Record | task-h/index.js:112-119 | appending a registered submission's row keeps the table invariant |
| Registration.RegistrationForm.Append | task-h/index.js:112-121 | appends the row, resets the form, and keeps the invariant |
| Registration.RegistrationForm.Accept | task-h/index.js:110-121 | given the entries the controls hold, stamps them, appends their row with the stamp and the trimmed fields, and resets the form |
| Registration.RegistrationForm.Submit | task-h/index.js:102-123 | a row is appended exactly when validateForm accepts the entries. On success the row is the stamped, trimmed entries, the form is reset and the name input is focused. On failure the rows and entries are unchanged, the errors and marks are those of validateForm, and the first marked input is focused. The table invariant is kept |
| Scenarios.TwoPartNameAccepted | task-h/index.js:34-39 | "Anna-Liisa Virtanen" is accepted |
| Scenarios.DoubleSpaceSplit | task-h/index.js:35 | "ab  cd" splits into "ab" and "cd": a run of two spaces leaves no empty piece |
| Scenarios.OneWordRejected | task-h/index.js:35-36 | "Anna" and the empty name both get "Enter your full name" |
| Scenarios.ShortPartReportedFirst | task-h/index.js:37-38 | "A Virtanen7" gets the part-length message although it also holds a digit |
| Scenarios.EmailSamples | task-h/index.js:42 | "a@b.com" is accepted and "bad" is rejected |
| Scenarios.PhoneSamples | task-h/index.js:44 | "+358401234567" is accepted and "123" is rejected |
| Scenarios.TenYearsOld | task-h/index.js:52-53 | a birth date ten calendar years before today gives the too-young message |
| Scenarios.FutureBirth | task-h/index.js:50 | a birth date after today gives the future message |

## Left out

- DOM access and event wiring: element lookups, `addEventListener`, `preventDefault`, creating `tr`/`td` elements, and `focus()` itself. `Submit` returns the input that would receive the focus.
- `document.querySelector(".invalid")` searches the whole page. The model assumes that the four inputs are the only elements ever marked, in the document order full name, e-mail, phone, birth date. The HTML page is not part of this model.
- `new Date(birthdate)` parsing is the parameter `parse`. The model omits time zones: a date-only string parses to UTC midnight, while `getMonth`/`getDate` and `now` use local time. West of UTC the parsed instant falls on the previous local day, so the code reads a birthday one day early. East of UTC it falls in the first hours of the birth day, so during those hours the code reports a birth date of today as lying in the future. The model compares calendar days, as on a browser running on UTC. It also omits the time of day and the range limits of JavaScript dates.
- `Dates.BirthdayIn`: JavaScript's `new Date(year, …)` maps years 0 to 99 to 1900 to 1999. The model does not, because the code only passes it the current year.
- `Registration.RegistrationForm.Reset` and `Registration.RegistrationForm.constructor`: the model assumes every control's default value in the HTML is empty, and that the terms box is unchecked by default. `form.reset()` restores the defaults written in the page, and the page is not part of this model. A default written there, for instance on the timestamp input, would survive the reset.
- `new Date()` and `toLocaleString()` are the parameters `today` and `stamp`.
- `Strings.Split`: lengths are counted in characters. JavaScript counts UTF-16 code units, so the two differ only for characters outside the Basic Multilingual Plane.
- `\s` is the ECMAScript whitespace and line-terminator set. `\d` is ASCII digits, as in JavaScript.
- `Registration.RegistrationForm.Submit`: the table invariant records that each row's name, e-mail and phone pass their validators and that its terms cell reads "Yes". It does not record the birth-date check, whose outcome depends on the day of submission.
- HTML-level constraints on the controls (such as `required` or input types) are not modelled. Any text can reach the validators.
