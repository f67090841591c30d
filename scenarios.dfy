/**
 * End-to-end scenarios and boundary cases of the stop checks, stated for every `today` and
 * every date parser that reads the given strings as the given dates.
 */
module Scenarios {
  import opened Wrappers
  import opened Calendar
  import opened CreditHistory
  import opened StopChecks

  /** An application in which every field the program looks up is present. */
  function Application(birthText: string, issuedText: string, history: seq<CreditEntry>): ClientFields {
    ClientFields(Some(birthText), Some(PassportFields(Some(issuedText))), Some(history))
  }

  /** Someone born exactly `n` years before today (by `minusYears`) is `n` years old. */
  lemma AgeOfYearsAgo(today: LocalDate, n: int)
    requires n >= 0
    ensures PeriodYears(PlusYears(today, -n), today) == n
  {
    var birth := PlusYears(today, -n);
    assert !MonthDayBefore(today, birth);
  }

  /**
   * Born 30 years ago with a passport issued 25 years ago (at age 5) and no credit history:
   * the passport predates the 20th birthday, so the application is rejected.
   */
  lemma ThirtyYearOldWithChildhoodPassport(today: LocalDate, parse: string -> Option<LocalDate>,
                                           birthText: string, issuedText: string)
    requires parse(birthText) == Some(PlusYears(today, -30))
    requires parse(issuedText) == Some(PlusYears(today, -25))
    ensures PerformStopChecks(Application(birthText, issuedText, []), parse, today) ==
            Rejected(PassportNotRenewed)
  {
    AgeOfYearsAgo(today, 30);
  }

  /** Born 30 years ago, passport issued 5 years ago (at age 25), no history: approved. */
  lemma ThirtyYearOldWithRenewedPassport(today: LocalDate, parse: string -> Option<LocalDate>,
                                         birthText: string, issuedText: string)
    requires parse(birthText) == Some(PlusYears(today, -30))
    requires parse(issuedText) == Some(PlusYears(today, -5))
    ensures PerformStopChecks(Application(birthText, issuedText, []), parse, today) == Approved
  {
    AgeOfYearsAgo(today, 30);
  }

  /** Born 19 years ago: rejected by the age gate, whatever the passport and history hold. */
  lemma NineteenYearOldRejected(today: LocalDate, parse: string -> Option<LocalDate>,
                                birthText: string, issuedText: string, history: seq<CreditEntry>)
    requires parse(birthText) == Some(PlusYears(today, -19))
    requires parse(issuedText).Some?
    ensures PerformStopChecks(Application(birthText, issuedText, history), parse, today) ==
            Rejected(AgeBelowMinimum)
  {
    AgeOfYearsAgo(today, 19);
  }

  /**
   * An applicant who passes the age and passport rules but whose history holds a credit
   * card with unpaid overdue debt is rejected by a per-record rule, whatever the other
   * records hold; the card debt itself is reported when no earlier record rejects.
   */
  lemma CardDebtRejects(today: LocalDate, parse: string -> Option<LocalDate>,
                        birthText: string, issuedText: string, history: seq<CreditEntry>, i: nat)
    requires Complete(Application(birthText, issuedText, history), parse)
    requires var birth := parse(birthText).value;
      var age := PeriodYears(birth, today);
      CheckAge(age) && CheckPassportValidity(age, birth, parse(issuedText).value)
    requires i < |history| && history[i].kind == Some(CreditCardType)
    requires history[i].debt.Some? && history[i].debt.value > 0
    ensures var v := PerformStopChecks(Application(birthText, issuedText, history), parse, today);
      v.Rejected? && v.rejection.CreditRejected? && v.rejection.reason != TooManyModerateDelays
    ensures (forall j :: 0 <= j < i ==> !Disqualifies(history[j])) ==>
      PerformStopChecks(Application(birthText, issuedText, history), parse, today) ==
      Rejected(CreditRejected(CardDebt))
  {
    DisqualifyingRecordRejects(history, i);
    if forall j :: 0 <= j < i ==> !Disqualifies(history[j]) {
      FirstDisqualificationFrom(history, i);
    }
  }

  function Card(debt: nat, days: nat): CreditEntry {
    CreditEntry(Some(CreditCardType), Some(debt), Some(days))
  }

  function Loan(kind: string, debt: nat, days: nat): CreditEntry {
    CreditEntry(Some(kind), Some(debt), Some(days))
  }

  lemma LoanWithinLimits(kind: string, days: nat)
    requires kind != CreditCardType && days <= LoanDaysLimit
    ensures !Disqualifies(Loan(kind, 0, days))
    ensures ModeratelyDelayed(Loan(kind, 0, days)) <==> days > ModerateDelayDays
  {
    assert Typed(Loan(kind, 0, days)) == CreditRecord(kind, 0, days);
  }

  /**
   * Single-record thresholds: a card delayed 30 days passes and 31 fails; another product
   * delayed 60 days passes and 61 fails; a record with every field absent passes.
   */
  lemma RecordThresholds(kind: string)
    requires kind != CreditCardType
    ensures CreditHistoryOk([Card(0, 30)])
    ensures CreditHistoryRejection([Card(0, 31)]) == Some(CardOverdue)
    ensures CreditHistoryRejection([Card(1, 0)]) == Some(CardDebt)
    ensures CreditHistoryOk([Loan(kind, 0, 60)])
    ensures CreditHistoryRejection([Loan(kind, 0, 61)]) == Some(LoanOverdue(kind))
    ensures CreditHistoryRejection([Loan(kind, 1, 0)]) == Some(LoanDebt(kind))
    ensures CreditHistoryOk([CreditEntry(None, None, None)])
  {
    var x := Loan(kind, 0, 60);
    LoanWithinLimits(kind, 60);
    assert [x][1..] == [];
    assert FirstDisqualification([x]) == None;
    CountSingleton(x);
  }

  /** Two non-card records delayed 16 days pass, three fail; an empty history passes. */
  lemma ModerateDelayThreshold(kind: string)
    requires kind != CreditCardType
    ensures CreditHistoryOk([])
    ensures CreditHistoryOk([Loan(kind, 0, 16), Loan(kind, 0, 16)])
    ensures CreditHistoryRejection([Loan(kind, 0, 16), Loan(kind, 0, 16), Loan(kind, 0, 16)]) ==
            Some(TooManyModerateDelays)
  {
    var x := Loan(kind, 0, 16);
    LoanWithinLimits(kind, 16);
    assert [x, x][1..] == [x] && [x][1..] == [];
    assert [x, x, x][1..] == [x, x];
    assert FirstDisqualification([x]) == None;
    assert FirstDisqualification([x, x]) == None;
    assert FirstDisqualification([x, x, x]) == None;
    assert ModerateDelayCount([x]) == 1;
    assert ModerateDelayCount([x, x]) == 2;
    assert ModerateDelayCount([x, x, x]) == 3;
  }
}
