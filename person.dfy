/**
 * `calcular_idade`: the age in whole years of someone born on the date written in a
 * `"YYYY-MM-DD"`-style string, as of `today` (which the program reads from the clock).
 * The string is split on `'-'` and its fields are read with `int()` lazily, in the order
 * Python's short-circuiting `or`/`and` evaluates them, so which malformed inputs raise an
 * exception depends on `today`.
 */
module Person {
  import opened Wrappers
  import opened Strings

  /** A calendar date. Nothing checks that month and day are in range. */
  datatype Date = Date(year: int, month: int, day: int)

  /** The exceptions `calcular_idade` raises while reading the birth date. */
  datatype AgeError =
    | MissingField(index: nat)   // IndexError: `split("-")` has no field `index`
    | NotAnInteger(index: nat)   // ValueError: `int()` rejects field `index`

  /** `int(fields[i])`, or the exception that expression raises. */
  function FieldValue(fields: seq<string>, i: nat): Result<nat, AgeError> {
    if i >= |fields| then Err(MissingField(i))
    else match ParseInt(fields[i])
      case None => Err(NotAnInteger(i))
      case Some(v) => Ok(v)
  }

  /** `int(birth.split("-")[i])`, or the exception that expression raises. */
  function Field(birth: string, i: nat): Result<nat, AgeError> {
    FieldValue(Split(birth, '-'), i)
  }

  /**
   * The age computed from the fields of the birth date: the year difference, less one
   * when today's month comes before the birth month, or is the birth month and today's
   * day comes before the birth day. The day field is read only when the months are equal.
   */
  function AgeOfFields(fields: seq<string>, today: Date): Result<int, AgeError> {
    match FieldValue(fields, 0)
    case Err(e) => Err(e)
    case Ok(year) =>
      var age := today.year - year;
      match FieldValue(fields, 1)
      case Err(e) => Err(e)
      case Ok(month) =>
        if today.month < month then Ok(age - 1)
        else if today.month != month then Ok(age)
        else match FieldValue(fields, 2)
          case Err(e) => Err(e)
          case Ok(day) => if today.day < day then Ok(age - 1) else Ok(age)
  }

  /**
   * `calcular_idade(birth)` on `today`. When it returns, the year and month fields were
   * integers and the result is the year difference or one less.
   */
  function Age(birth: string, today: Date): (r: Result<int, AgeError>)
    ensures r.Ok? ==> Field(birth, 0).Ok? && Field(birth, 1).Ok?
    ensures r.Ok? ==>
      var years := today.year - Field(birth, 0).value;
      r.value == years - 1 || r.value == years
  {
    AgeOfFields(Split(birth, '-'), today)
  }

  /**
   * The call succeeds exactly when the year and month fields are integers and, in the
   * birth month, the day field is one too; otherwise the first field read that is
   * missing or not an integer is the one reported.
   */
  lemma AgeSucceedsIff(birth: string, today: Date)
    ensures Age(birth, today).Ok? <==>
      && Field(birth, 0).Ok?
      && Field(birth, 1).Ok?
      && (today.month == Field(birth, 1).value ==> Field(birth, 2).Ok?)
    ensures Age(birth, today).Err? ==>
      Age(birth, today).error ==
        if Field(birth, 0).Err? then Field(birth, 0).error
        else if Field(birth, 1).Err? then Field(birth, 1).error
        else Field(birth, 2).error
  {
  }

  /**
   * The result is one less than the year difference exactly when today's (month, day)
   * comes strictly before the birth (month, day); otherwise it is the year difference.
   */
  lemma AgeDecrement(birth: string, today: Date)
    requires Age(birth, today).Ok?
    ensures var years := today.year - Field(birth, 0).value;
      var month := Field(birth, 1).value;
      && (today.month == month ==> Field(birth, 2).Ok?)
      && (Age(birth, today).value == years - 1 <==>
            today.month < month || (today.month == month && today.day < Field(birth, 2).value))
      && (Age(birth, today).value == years <==>
            !(today.month < month || (today.month == month && today.day < Field(birth, 2).value)))
  {
  }

  /** On the birthday itself the comparison is strict, so nothing is subtracted. */
  lemma BirthdayNoDecrement(birth: string, today: Date)
    requires Field(birth, 0).Ok? && Field(birth, 1).Ok? && Field(birth, 2).Ok?
    requires today.month == Field(birth, 1).value && today.day == Field(birth, 2).value
    ensures Age(birth, today) == Ok(today.year - Field(birth, 0).value)
  {
  }

  /** Text without `'-'` has one field: the call fails on the year or on the missing month. */
  lemma OneFieldFails(birth: string, today: Date)
    requires '-' !in birth
    ensures Age(birth, today) == Err(if ParseInt(birth).None? then NotAnInteger(0) else MissingField(1))
  {
    SplitWithoutSeparator(birth, '-');
  }

  /**
   * With two integer fields the day is read only in the birth month, so the call fails
   * with a missing third field exactly then, and otherwise succeeds.
   */
  lemma TwoFieldsNeedDayOnlyInBirthMonth(birth: string, today: Date)
    requires |Split(birth, '-')| == 2 && Field(birth, 0).Ok? && Field(birth, 1).Ok?
    ensures Age(birth, today).Ok? <==> today.month != Field(birth, 1).value
    ensures today.month == Field(birth, 1).value ==> Age(birth, today) == Err(MissingField(2))
  {
  }

  /** Only the first three fields are read: anything after the third is ignored. */
  lemma ExtraFieldsIgnored(birth: string, rest: string, today: Date)
    requires |Split(birth, '-')| >= 3
    ensures Age(birth + "-" + rest, today) == Age(birth, today)
  {
    SplitAppend(birth, '-', rest);
    FieldsAfterThirdIgnored(Split(birth, '-'), Split(rest, '-'), today);
  }

  lemma FieldsAfterThirdIgnored(fields: seq<string>, more: seq<string>, today: Date)
    requires |fields| >= 3
    ensures AgeOfFields(fields + more, today) == AgeOfFields(fields, today)
  {
    assert (fields + more)[0] == fields[0];
    assert (fields + more)[1] == fields[1];
    assert (fields + more)[2] == fields[2];
  }

  /**
   * Month and day are not range-checked: for a valid `today`, a birth month above 12
   * always counts as not yet reached, and the day field is never read.
   */
  lemma MonthOutOfRangeDecrements(birth: string, today: Date)
    requires today.month <= 12
    requires Field(birth, 0).Ok? && Field(birth, 1).Ok? && Field(birth, 1).value > 12
    ensures Age(birth, today) == Ok(today.year - Field(birth, 0).value - 1)
  {
  }

  // ---------------------------------------------------------------------------
  // Age as the number of anniversaries reached
  // ---------------------------------------------------------------------------

  /** `n` in decimal, left-padded with zeros to at least `width` digits. */
  function Padded(n: nat, width: nat): (text: string)
    ensures |text| >= width
    decreases width
  {
    if |Digits(n)| >= width then Digits(n) else "0" + Padded(n, width - 1)
  }

  /** Padding does not change the value `int()` reads back. */
  lemma {:induction false} ParsePadded(n: nat, width: nat)
    ensures ParseInt(Padded(n, width)) == Some(n)
    ensures forall i :: 0 <= i < |Padded(n, width)| ==> IsDigit(Padded(n, width)[i])
    decreases width
  {
    if |Digits(n)| >= width {
      ParseDigits(n);
    } else {
      ParsePadded(n, width - 1);
      ParseLeadingZero(Padded(n, width - 1));
    }
  }

  /** A date written as `"YYYY-MM-DD"`. */
  function FormatDate(year: nat, month: nat, day: nat): string {
    Padded(year, 4) + "-" + Padded(month, 2) + "-" + Padded(day, 2)
  }

  /** A written date reads back as its three fields. */
  lemma FormatDateFields(year: nat, month: nat, day: nat)
    ensures |Split(FormatDate(year, month, day), '-')| == 3
    ensures Field(FormatDate(year, month, day), 0) == Ok(year)
    ensures Field(FormatDate(year, month, day), 1) == Ok(month)
    ensures Field(FormatDate(year, month, day), 2) == Ok(day)
  {
    var y, m, d := Padded(year, 4), Padded(month, 2), Padded(day, 2);
    ParsePadded(year, 4);
    ParsePadded(month, 2);
    ParsePadded(day, 2);
    SplitThree(y, m, d);
  }

  /** Three pieces of text without `'-'`, joined by `'-'`, split back into those pieces. */
  lemma SplitThree(y: string, m: string, d: string)
    requires forall i :: 0 <= i < |y| ==> IsDigit(y[i])
    requires forall i :: 0 <= i < |m| ==> IsDigit(m[i])
    requires forall i :: 0 <= i < |d| ==> IsDigit(d[i])
    ensures Split(y + "-" + m + "-" + d, '-') == [y, m, d]
  {
    SplitWithoutSeparator(y, '-');
    SplitWithoutSeparator(m, '-');
    SplitWithoutSeparator(d, '-');
    SplitAppend(y, '-', m);
    SplitAppend(y + "-" + m, '-', d);
  }

  /** `a` is the same day as `b` or an earlier one, comparing year, then month, then day. */
  predicate OnOrBefore(a: Date, b: Date) {
    a.year < b.year || (a.year == b.year && (a.month < b.month || (a.month == b.month && a.day <= b.day)))
  }

  /**
   * For a well-formed birth date, the age is the number of whole years lived: `k` is the
   * result exactly when the `k`-th anniversary has been reached by `today` and the next
   * one has not.
   */
  lemma AgeCountsAnniversaries(year: nat, month: nat, day: nat, today: Date, k: int)
    ensures Age(FormatDate(year, month, day), today) == Ok(k) <==>
      OnOrBefore(Date(year + k, month, day), today) && !OnOrBefore(Date(year + k + 1, month, day), today)
  {
    FormatDateFields(year, month, day);
  }
}
