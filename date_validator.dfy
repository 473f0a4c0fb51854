/**
 * parseDate and validateDates of index.tsx: a date field is read as day, month and
 * year, range-checked, checked against the calendar, and the two date fields of the
 * form are cross-checked in a fixed order.
 */
module DateValidator {
  import opened Wrappers
  import opened Calendar
  import opened DateText

  const MinYear := 1900
  const MaxYear := 3000

  /** Why a date field was refused. parseDate in index.tsx returns null for all three alike. */
  datatype DateError =
    | MalformedInput       // the text does not split into exactly three fields
    | OutOfRange           // a field is not a number, or lies outside its range
    | InvalidCalendarDate  // the triple names no day: building it rolls over

  /** The range check of parseDate, before the calendar is consulted. */
  predicate InRange(d: int, m: int, y: int) {
    1 <= d <= 31 && 1 <= m <= 12 && MinYear <= y <= MaxYear
  }

  /** A date parseDate can return: a real calendar day in the accepted years. */
  predicate IsAcceptedDate(x: Date) {
    IsCalendarDate(x) && MinYear <= x.year <= MaxYear
  }

  /** The three fields of s read as numbers, when s has three fields and each is a numeral. */
  predicate HasNumericFields(s: string) {
    var f := Fields(s);
    |f| == 3 && ParseNumber(f[0]).Some? && ParseNumber(f[1]).Some? && ParseNumber(f[2]).Some?
  }

  /** The triple a text with three numeric fields spells, day first. */
  function Spelled(s: string): Date
    requires HasNumericFields(s)
  {
    var f := Fields(s);
    Date(ParseNumber(f[0]).value, ParseNumber(f[1]).value, ParseNumber(f[2]).value)
  }

  /**
   * parseDate: split the text on '/' and ' ', require three numeric fields in range,
   * then build `new Date(year, month - 1, day)` and keep it only if it reads back as
   * the same day, month and year.
   */
  function ParseDate(s: string): (r: Result<Date, DateError>)
    ensures r == Failure(MalformedInput) <==> |Fields(s)| != 3
    ensures r.Success? <==> HasNumericFields(s) && IsAcceptedDate(Spelled(s))
    ensures r.Success? ==> r.value == Spelled(s)
    ensures r == Failure(InvalidCalendarDate) <==>
      HasNumericFields(s) && InRange(Spelled(s).day, Spelled(s).month, Spelled(s).year)
      && !IsCalendarDate(Spelled(s))
  {
    var parts := Fields(s);
    if |parts| != 3 then Failure(MalformedInput)
    else
      var day, month, year := ParseNumber(parts[0]), ParseNumber(parts[1]), ParseNumber(parts[2]);
      if day.None? || month.None? || year.None? || !InRange(day.value, month.value, year.value) then
        Failure(OutOfRange)
      else
        RolloverIdentity(year.value, month.value, day.value);
        if Rollover(year.value, month.value, day.value) != Date(day.value, month.value, year.value) then
          Failure(InvalidCalendarDate)
        else
          Success(Date(day.value, month.value, year.value))
  }

  /** The form fields validateDates can mark as invalid. */
  datatype Field = AuthorizationDate | IssueDate

  /** The outcome of validateDates: no error, or one message and the fields to mark. */
  datatype Verdict = Valid | Invalid(message: string, marked: set<Field>)

  const AuthorizationDateMessage := "Le format de la 'Date autorisation transport' est invalide. Utilisez JJ/MM/AAAA."
  const IssueDateMessage := "Le format de la 'Date d'établissement' est invalide. Utilisez JJ/MM/AAAA."
  const OrderMessage := "La 'Date d'établissement' ne peut pas être antérieure à la 'Date autorisation transport'."

  /**
   * validateDates: the authorization date is checked first, then the issue date,
   * then that the issue date does not come before the authorization date. The
   * first failure is reported; the marked set replaces the CSS classes, which the
   * page clears before every check.
   */
  function ValidateDates(authText: string, issueText: string): (v: Verdict)
    ensures ParseDate(authText).Failure? ==>
      v == Invalid(AuthorizationDateMessage, {AuthorizationDate})
    ensures ParseDate(authText).Success? && ParseDate(issueText).Failure? ==>
      v == Invalid(IssueDateMessage, {IssueDate})
    ensures ParseDate(authText).Success? && ParseDate(issueText).Success? ==>
      (v == Invalid(OrderMessage, {AuthorizationDate, IssueDate}) <==>
         Precedes(ParseDate(issueText).value, ParseDate(authText).value))
    ensures v == Valid <==>
      ParseDate(authText).Success? && ParseDate(issueText).Success?
      && !Precedes(ParseDate(issueText).value, ParseDate(authText).value)
  {
    match ParseDate(authText)
    case Failure(_) => Invalid(AuthorizationDateMessage, {AuthorizationDate})
    case Success(auth) =>
      match ParseDate(issueText)
      case Failure(_) => Invalid(IssueDateMessage, {IssueDate})
      case Success(issue) =>
        DayNumberOrder(issue, auth);
        if DayNumber(issue) < DayNumber(auth) then
          Invalid(OrderMessage, {AuthorizationDate, IssueDate})
        else
          Valid
  }

  /** A date written as DD/MM/YYYY, with leading zeros. */
  function Format(x: Date): string
    requires 0 <= x.day < 100 && 0 <= x.month < 100 && 0 <= x.year < 10000
  {
    Digits(x.day, 2) + "/" + Digits(x.month, 2) + "/" + Digits(x.year, 4)
  }

  /** A date written as DD MM YYYY, the other form the field accepts. */
  function FormatWithSpaces(x: Date): string
    requires 0 <= x.day < 100 && 0 <= x.month < 100 && 0 <= x.year < 10000
  {
    Digits(x.day, 2) + " " + Digits(x.month, 2) + " " + Digits(x.year, 4)
  }

  lemma FieldsOfThree(p: string, c1: char, q: string, c2: char, t: string)
    requires IsSeparator(c1) && IsSeparator(c2)
    requires p != [] && q != [] && t != [] && AllDigits(p) && AllDigits(q) && AllDigits(t)
    ensures Fields(p + [c1] + q + [c2] + t) == [p, q, t]
  {
    DigitsAreNotSeparators(p);
    DigitsAreNotSeparators(q);
    DigitsAreNotSeparators(t);
    FieldsAppend(p + [c1] + q, c2, t);
    FieldsAppend(p, c1, q);
    FieldsOfWord(p);
    FieldsOfWord(q);
    FieldsOfWord(t);
  }

  /**
   * Every triple in range, written as DD/MM/YYYY or DD MM YYYY, parses back to
   * itself when it is a real date and is refused as InvalidCalendarDate otherwise.
   */
  lemma ParseFormatted(x: Date)
    requires InRange(x.day, x.month, x.year)
    ensures ParseDate(Format(x)) == if IsCalendarDate(x) then Success(x) else Failure(InvalidCalendarDate)
    ensures ParseDate(FormatWithSpaces(x)) == ParseDate(Format(x))
  {
    ParseDigits(x.day, 2);
    ParseDigits(x.month, 2);
    ParseDigits(x.year, 4);
    var d, m, y := Digits(x.day, 2), Digits(x.month, 2), Digits(x.year, 4);
    assert Format(x) == d + ['/'] + m + ['/'] + y;
    assert FormatWithSpaces(x) == d + [' '] + m + [' '] + y;
    FieldsOfThree(d, '/', m, '/', y);
    FieldsOfThree(d, ' ', m, ' ', y);
  }

  /** An issue date before the authorization date (31/01/2024, then 05/01/2024): the ordering message, both fields marked. */
  lemma IssueBeforeAuthorizationExample()
    ensures ValidateDates(Format(Date(31, 1, 2024)), Format(Date(5, 1, 2024)))
         == Invalid(OrderMessage, {AuthorizationDate, IssueDate})
  {
    ParseFormatted(Date(31, 1, 2024));
    ParseFormatted(Date(5, 1, 2024));
  }

  /** 31/02/2024 rolls over, so the authorization field alone is reported, whatever the issue date. */
  lemma RolledOverAuthorizationExample(issueText: string)
    ensures ValidateDates(Format(Date(31, 2, 2024)), issueText)
         == Invalid(AuthorizationDateMessage, {AuthorizationDate})
  {
    ParseFormatted(Date(31, 2, 2024));
  }

  /** Two real dates in order (01/01/2024, then 02/01/2024) are accepted. */
  lemma ValidPairExample()
    ensures ValidateDates(Format(Date(1, 1, 2024)), Format(Date(2, 1, 2024))) == Valid
  {
    ParseFormatted(Date(1, 1, 2024));
    ParseFormatted(Date(2, 1, 2024));
  }
}
