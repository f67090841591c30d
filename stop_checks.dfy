/**
 * The stop checks run on a loan application: the age gate, the passport-renewal rule and the
 * credit-history check, applied in that order to fields extracted from the client document.
 * Any field that cannot be found or read makes the application fail closed.
 */
module StopChecks {
  import opened Wrappers
  import opened Calendar
  import opened CreditHistory

  const MinimumAge := 20
  /** Ages at which a passport must be replaced. */
  const FirstRenewalAge := 20
  const SecondRenewalAge := 45

  /** The age gate: 20 and over pass. */
  function CheckAge(age: int): (ok: bool)
    ensures ok <==> age >= MinimumAge
  {
    age >= MinimumAge
  }

  /**
   * The passport must have been issued on or after the latest renewal birthday the applicant
   * has reached: the 45th from age 45, the 20th from age 20, none below that.
   */
  function CheckPassportValidity(age: int, birth: LocalDate, issued: LocalDate): (ok: bool)
    ensures age >= SecondRenewalAge ==> (ok <==> !IsBefore(issued, PlusYears(birth, SecondRenewalAge)))
    ensures FirstRenewalAge <= age < SecondRenewalAge ==>
              (ok <==> !IsBefore(issued, PlusYears(birth, FirstRenewalAge)))
    ensures age < FirstRenewalAge ==> ok
  {
    var at20 := PlusYears(birth, FirstRenewalAge);
    var at45 := PlusYears(birth, SecondRenewalAge);
    if age >= SecondRenewalAge && IsBefore(issued, at45) then false
    else if age >= FirstRenewalAge && IsBefore(issued, at20) then false
    else true
  }

  /** The passport sub-object of the client document. */
  datatype PassportFields = PassportFields(issuedAt: Option<string>)

  /** The fields the program looks up in the client document; None where a lookup fails. */
  datatype ClientFields = ClientFields(
    birthDate: Option<string>,
    passport: Option<PassportFields>,
    creditHistory: Option<seq<CreditEntry>>)

  datatype Field = BirthDateField | PassportField | IssuedAtField | CreditHistoryField

  /**
   * Why an application was not approved: one code per rejection message the program prints.
   * The program returns false silently for a missing field; naming the field is the
   * model's own refinement.
   */
  datatype Rejection =
    | MissingField(field: Field)
    | MalformedDate
    | AgeBelowMinimum
    | PassportNotRenewed
    | CreditRejected(reason: CreditReason)

  datatype Verdict = Approved | Rejected(rejection: Rejection)

  /**
   * The whole stop-check run. `parse` is the date-time parser applied to the two date
   * strings (None where it would throw) and `today` is the current date.
   */
  function PerformStopChecks(fields: ClientFields, parse: string -> Option<LocalDate>, today: LocalDate): (v: Verdict)
    ensures v.Approved? ==> Complete(fields, parse)
  {
    if fields.birthDate.None? then Rejected(MissingField(BirthDateField))
    else if fields.passport.None? then Rejected(MissingField(PassportField))
    else if fields.passport.value.issuedAt.None? then Rejected(MissingField(IssuedAtField))
    else if fields.creditHistory.None? then Rejected(MissingField(CreditHistoryField))
    else
      match parse(fields.birthDate.value)
      case None => Rejected(MalformedDate)
      case Some(birth) =>
        match parse(fields.passport.value.issuedAt.value)
        case None => Rejected(MalformedDate)
        case Some(issued) =>
          var age := PeriodYears(birth, today);
          if !CheckAge(age) then Rejected(AgeBelowMinimum)
          else if !CheckPassportValidity(age, birth, issued) then Rejected(PassportNotRenewed)
          else
            match CreditHistoryRejection(fields.creditHistory.value)
            case Some(reason) => Rejected(CreditRejected(reason))
            case None => Approved
  }

  /** All four fields found and both dates readable; the inputs the checks then see. */
  predicate Complete(fields: ClientFields, parse: string -> Option<LocalDate>) {
    fields.birthDate.Some? && fields.passport.Some? && fields.passport.value.issuedAt.Some? &&
    fields.creditHistory.Some? &&
    parse(fields.birthDate.value).Some? && parse(fields.passport.value.issuedAt.value).Some?
  }

  /**
   * The age gate passes exactly when the applicant's 20th birthday, with the birth month and
   * day, is on or before today; a birth date in the future never passes.
   */
  lemma AgeGateMeansTwentiethBirthday(birth: LocalDate, today: LocalDate)
    ensures CheckAge(PeriodYears(birth, today)) <==> !IsBefore(today, Anniversary(birth, MinimumAge))
    ensures IsBefore(today, birth) ==> !CheckAge(PeriodYears(birth, today))
  {
    AgeReachedIff(birth, today, MinimumAge);
  }

  /** Age 20 passes the gate and age 19 does not. */
  lemma AgeGateBoundary()
    ensures CheckAge(20) && !CheckAge(19)
  {
  }

  /**
   * Milestone tie-break: issuance on the milestone birthday passes and issuance the day
   * before fails, for the 20th birthday at ages 20 to 44 and the 45th from age 45.
   */
  lemma PassportMilestoneBoundary(age: int, birth: LocalDate)
    requires age >= FirstRenewalAge
    ensures var m := if age >= SecondRenewalAge then SecondRenewalAge else FirstRenewalAge;
      CheckPassportValidity(age, birth, PlusYears(birth, m)) &&
      !CheckPassportValidity(age, birth, PreviousDay(PlusYears(birth, m)))
  {
  }

  /**
   * From age 45 a passport issued between the 20th and the 45th birthday is rejected: the
   * 20-year rule is never what lets it through.
   */
  lemma PassportSecondMilestoneDominates(age: int, birth: LocalDate, issued: LocalDate)
    requires age >= SecondRenewalAge
    requires !IsBefore(issued, PlusYears(birth, FirstRenewalAge))
    requires IsBefore(issued, PlusYears(birth, SecondRenewalAge))
    ensures !CheckPassportValidity(age, birth, issued)
  {
  }

  /**
   * An application is approved exactly when every field is present, both dates read, and
   * the age gate, the passport rule and the credit-history check all pass.
   */
  lemma ApprovedIff(fields: ClientFields, parse: string -> Option<LocalDate>, today: LocalDate)
    ensures PerformStopChecks(fields, parse, today).Approved? <==>
      Complete(fields, parse) &&
      var birth := parse(fields.birthDate.value).value;
      var issued := parse(fields.passport.value.issuedAt.value).value;
      var age := PeriodYears(birth, today);
      CheckAge(age) && CheckPassportValidity(age, birth, issued) &&
      CreditHistoryOk(fields.creditHistory.value)
  {
  }

  /**
   * Fail-closed: a missing field rejects before any date is read, naming the first missing
   * field in lookup order; an unreadable date rejects before any rule runs.
   */
  lemma FailClosed(fields: ClientFields, parse: string -> Option<LocalDate>, today: LocalDate)
    ensures !Complete(fields, parse) ==> !PerformStopChecks(fields, parse, today).Approved?
    ensures fields.birthDate.None? ==>
      PerformStopChecks(fields, parse, today) == Rejected(MissingField(BirthDateField))
    ensures fields.birthDate.Some? && fields.passport.None? ==>
      PerformStopChecks(fields, parse, today) == Rejected(MissingField(PassportField))
    ensures fields.birthDate.Some? && fields.passport.Some? && fields.passport.value.issuedAt.None? ==>
      PerformStopChecks(fields, parse, today) == Rejected(MissingField(IssuedAtField))
    ensures fields.birthDate.Some? && fields.passport.Some? && fields.passport.value.issuedAt.Some? &&
            fields.creditHistory.None? ==>
      PerformStopChecks(fields, parse, today) == Rejected(MissingField(CreditHistoryField))
    ensures (fields.birthDate.Some? && fields.passport.Some? &&
             fields.passport.value.issuedAt.Some? && fields.creditHistory.Some? &&
             !Complete(fields, parse)) ==>
      PerformStopChecks(fields, parse, today) == Rejected(MalformedDate)
  {
  }

  /**
   * The checks run in the order age, passport, credit history: a failed age gate is
   * reported whatever the passport and history hold, and a failed passport rule whatever
   * the history holds.
   */
  lemma ChecksRunInOrder(fields: ClientFields, parse: string -> Option<LocalDate>, today: LocalDate)
    requires Complete(fields, parse)
    ensures var birth := parse(fields.birthDate.value).value;
      var issued := parse(fields.passport.value.issuedAt.value).value;
      var age := PeriodYears(birth, today);
      var v := PerformStopChecks(fields, parse, today);
      (!CheckAge(age) ==> v == Rejected(AgeBelowMinimum)) &&
      (CheckAge(age) && !CheckPassportValidity(age, birth, issued) ==> v == Rejected(PassportNotRenewed)) &&
      (CheckAge(age) && CheckPassportValidity(age, birth, issued) ==>
         v == match CreditHistoryRejection(fields.creditHistory.value)
              case Some(reason) => Rejected(CreditRejected(reason))
              case None => Approved)
  {
  }
}
