/** Concrete inputs and what the form says about them. */
module Scenarios {

  import opened Wrappers
  import opened Strings
  import opened Dates
  import opened Validators
  import opened Registration

  /** Two words of two or more characters, joined by one space. */
  lemma JoinedWords(a: string, b: string)
    requires |a| >= 2 && |b| >= 2 && NoSpace(a) && NoSpace(b)
    ensures IsTrimmed(a + " " + b) && HasSpace(a + " " + b) && NoLoneChar(a + " " + b)
  {
    var t := a + " " + b;
    assert t[0] == a[0] && t[|t| - 1] == b[|b| - 1];
    assert IsSpace(t[|a|]);
    forall i | 0 <= i < |t| ensures !LoneAt(t, i) {
      if i < |a| {
        if i == 0 { assert t[1] == a[1]; } else { assert t[i - 1] == a[i - 1]; }
      } else if i > |a| {
        var j := i - |a| - 1;
        if j == 0 { assert t[i + 1] == b[1]; } else { assert t[i - 1] == b[j - 1]; }
      }
    }
  }

  /** A hyphenated first name and a surname pass the name check. */
  lemma TwoPartNameAccepted(name: string)
    requires name == "Anna-Liisa Virtanen"
    ensures ValidateName(name) == ""
  {
    var first, last := "Anna-Liisa", "Virtanen";
    assert name == first + " " + last;
    assert NoSpace(first) && NoSpace(last);
    JoinedWords(first, last);
    TrimTrimmed(name);
    SampleNameChars(first, last);
    NameAccepted(name);
  }

  /** Every character of the sample name is allowed. */
  lemma SampleNameChars(a: string, b: string)
    requires a == "Anna-Liisa" && b == "Virtanen"
    ensures AllNameChars(a + " " + b)
  {
    assert AllNameChars(a);
    assert AllNameChars(b);
    var t := a + " " + b;
    forall i | 0 <= i < |t| ensures IsNameChar(t[i]) {
      if i < |a| { assert t[i] == a[i]; }
      else if i > |a| { assert t[i] == b[i - |a| - 1]; }
    }
  }

  /** A run of two spaces is one separator: it leaves no empty piece. */
  lemma DoubleSpaceSplit()
    ensures Split("ab  cd") == ["ab", "cd"]
  {
    var parts, seps := ["ab", "cd"], ["  "];
    assert AllGaps(seps);
    assert "ab  cd" == Interleave(parts, seps);
    SplitUnique("ab  cd", parts, seps);
  }

  /** A single word asks for the full name, and so does an empty field. */
  lemma OneWordRejected()
    ensures ValidateName("Anna") == FullNameMessage
    ensures ValidateName("") == FullNameMessage
  {
    TrimTrimmed("Anna");
    NameOneWord("Anna");
    TrimTrimmed("");
    NameOneWord("");
  }

  /** Two words of which one is a single letter fail on length, before the
      digit in the other word is looked at. */
  lemma ShortPartReportedFirst()
    ensures ValidateName("A Virtanen7") == ShortPartMessage
  {
    var name := "A Virtanen7";
    TrimTrimmed(name);
    NameDecision(name);
    assert IsSpace(name[1]);
    assert LoneAt(name, 0);
  }

  lemma EmailSamples()
    ensures ValidateEmail("a@b.com") == ""
    ensures ValidateEmail("bad") == EmailMessage
  {
    var good := "a@b.com";
    assert good[1] == '@' && good[..1] == "a" && good[2..] == "b.com";
    assert "b.com"[1] == '.';
  }

  lemma PhoneSamples()
    ensures ValidatePhone("+358401234567") == ""
    ensures ValidatePhone("123") == PhoneMessage
  {
  }

  /** Someone born ten years ago is too young. */
  lemma TenYearsOld(birthdate: string, parse: string -> Option<CalendarDate>,
                    birth: CalendarDate, today: CalendarDate)
    requires birthdate != "" && parse(birthdate) == Some(birth)
    requires birth.year == today.year - 10
    ensures ValidateBirth(birthdate, parse, today) == TooYoungMessage
  {
  }

  /** A birth date after today is reported as lying in the future. */
  lemma FutureBirth(birthdate: string, parse: string -> Option<CalendarDate>,
                    birth: CalendarDate, today: CalendarDate)
    requires birthdate != "" && parse(birthdate) == Some(birth)
    requires Before(today, birth)
    ensures ValidateBirth(birthdate, parse, today) == FutureBirthMessage
  {
  }
}
