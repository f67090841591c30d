# Loan application stop checks — a Dafny model

The program reads one client record and decides whether a loan application passes its
"stop checks" (стоп-проверки). Three rules run in a fixed order, and the first one that
fails rejects the application:

1. **Age gate.** The applicant must be at least 20. The age is the years component of
   `Period.between(birthDate, today)`.
2. **Passport renewal.** From age 45 the passport must have been issued on or after the 45th
   birthday. From age 20 it must have been issued on or after the 20th birthday. "Before"
   is strict, so issuance on the birthday itself passes.
3. **Credit history.** The records are scanned once, in order:
   - a credit card (`"Кредитная карта"`) with overdue debt, or overdue more than 30 days,
     rejects at once;
   - any other product with overdue debt, or overdue more than 60 days, rejects at once;
   - otherwise non-card records overdue more than 15 days are counted, and a count above two
     rejects after the scan.

Missing fields and unreadable dates reject the application ("fail closed").

Modules:

- `Wrappers`: `Option`.
- `Calendar`: the `java.time.LocalDate` behaviour the rules depend on. It covers valid dates,
  `isBefore`, `plusYears` (which clamps 29 February to 28 February in a common year) and
  `Period.between(...).years` (Java's truncating division included). The program imports this
  behaviour from the Java class library, so the model states it as an assumption.
- `CreditHistory`: the credit-history rule. `CheckCreditHistory` is the imperative scan, with a
  running counter and early returns. `CreditHistoryRejection` is the pure specification it is
  proved equal to.
- `StopChecks`: `CheckAge`, `CheckPassportValidity` and `PerformStopChecks`. The last one works
  on the fields already looked up, each `Option`. It takes the date parser as a function
  parameter and `today` as a value.
- `Scenarios`: end-to-end cases and thresholds, stated for every `today`.

Rejection messages are modelled as reason codes (`Rejection`, `CreditReason`). The program's
own result is `Approved?`.

**Two consequences of the passport rule.** Take an applicant born 30 years ago whose
passport was issued 25 years ago, at age 5. The check at `src/Main.kt:95-96` rejects that
applicant even with an empty credit history, because the passport predates the 20th birthday.
`Scenarios.ThirtyYearOldWithChildhoodPassport` proves the rejection.
`Scenarios.ThirtyYearOldWithRenewedPassport` proves that a passport issued 5 years ago is
approved. Second, from age 45 the 20-year branch at line 95 is still evaluated, yet it can
never reject. `StopChecks.CheckPassportValidity` and `Calendar.MilestonesOrdered` prove this.

**A calendar subtlety.** Take someone born on 29 February. On 28 February of a common year,
`plusYears(n)` already gives that day as the `n`-th birthday, but `Period.between` does not yet
count the year. `Calendar.LeapDayBirthdayLags` exhibits this, and `Calendar.AgeReachedIff`
states the exact relation, which uses the unclamped anniversary. The consequence: such a person
is treated as 44 on the day `plusYears(45)` names. This is how `java.time` behaves, not a slip
in the program.

## Model

| member | source | states |
|---|---|---|
| `Calendar.PlusYears` | src/Main.kt:89-90 | the milestone birthday keeps month and day, moves the year by n, and differs from the plain anniversary only for 29 February in a common year (then 28 February); it is never after the plain anniversary |
| `Calendar.PeriodYears` | src/Main.kt:41 | from a birth date on or before today, the age is the difference of the years, less one while this year's (month, day) birthday is still ahead; a birth date after today gives at most 0 |
| `Calendar.IsBefore` | src/Main.kt:92-95 | on valid dates, `isBefore` agrees with comparing a numeric day key (month count, then day), so it is a strict total order |
| `Calendar.AgeReachedIff` | src/Main.kt:41 | for n ≥ 1: age ≥ n exactly when the n-th anniversary (birth month and day) is on or before today |
| `Calendar.AgeReachedMilestone` | src/Main.kt:41 | age ≥ n implies the `plusYears(n)` birthday is on or before today |
| `Calendar.LeapDayBirthdayLags` | src/Main.kt:41 | counterexample to the converse: for a 29 February 2000 birth, `plusYears(21)` is 28 February 2021, yet the age on that day is 20 |
| `Calendar.MilestonesOrdered` | src/Main.kt:89-90 | a smaller milestone falls strictly before a larger one, so the 20th birthday is strictly before the 45th |
| `Calendar.PreviousDay` | src/Main.kt:92-95 | the previous day is strictly before the date, with no valid date in between (used for "one day earlier fails") |
| `StopChecks.AgeGateMeansTwentiethBirthday` | src/Main.kt:41-45 | the age gate passes exactly when the 20th birthday has come; a birth date in the future never passes |
| `StopChecks.CheckAge` | src/Main.kt:84-86 | the gate passes exactly for ages of 20 and over |
| `StopChecks.AgeGateBoundary` | src/Main.kt:84-86 | age 20 passes the gate and age 19 fails |
| `StopChecks.CheckPassportValidity` | src/Main.kt:88-99 | from age 45: valid iff not issued before the 45th birthday; from 20 to 44: valid iff not issued before the 20th birthday; under 20: always valid |
| `StopChecks.PassportMilestoneBoundary` | src/Main.kt:92-98 | issuance on the applicable milestone birthday passes, and issuance the day before fails |
| `StopChecks.PassportSecondMilestoneDominates` | src/Main.kt:92-97 | from age 45, a passport issued between the 20th and 45th birthdays is rejected |
| `StopChecks.PerformStopChecks` | src/Main.kt:29-59 | approval implies every field was found and both dates were read |
| `StopChecks.ApprovedIff` | src/Main.kt:29-59 | approved iff all four fields are present, both dates parse, and the age, passport and credit checks all pass |
| `StopChecks.FailClosed` | src/Main.kt:32-39 | a missing field or an unreadable date rejects; the first missing field in lookup order is reported; a missing field wins over a bad date |
| `StopChecks.ChecksRunInOrder` | src/Main.kt:42-53 | a failed age gate is reported whatever the passport and history hold; a failed passport check whatever the history holds; otherwise the credit result decides |
| `CreditHistory.Typed` | src/Main.kt:108-110 | an absent type never matches the credit-card type; absent debt and days read as 0 |
| `CreditHistory.Disqualification` | src/Main.kt:112-129 | a record rejects on its own exactly when it is a card with debt or more than 30 days overdue, or another product with debt or more than 60 days overdue |
| `CreditHistory.FirstDisqualification` | src/Main.kt:106-129 | a per-record rejection is the reason of some record that rejects on its own with no such record before it, and never the aggregate "more than two delays" reason |
| `CreditHistory.FirstDisqualificationFrom` | src/Main.kt:106-129 | when no record before index i rejects on its own, the scan's first rejection is the one found from i on |
| `CreditHistory.FirstDisqualificationNone` | src/Main.kt:106-129 | no per-record rejection exactly when no record rejects on its own |
| `CreditHistory.CreditHistoryRejection` | src/Main.kt:104-139 | a per-record reason is the one of the first record in list order that rejects on its own; the "more than two delays" reason comes only when no record rejects on its own and more than two non-card records are over 15 days overdue |
| `CreditHistory.CreditHistoryOkIff` | src/Main.kt:104-139 | the history passes iff no card has debt or more than 30 days, no other record has debt or more than 60 days, and at most two non-card records are more than 15 days overdue |
| `CreditHistory.DisqualifyingRecordRejects` | src/Main.kt:112-129 | any record that rejects on its own rejects the history with a per-record reason, whatever the other records hold |
| `CreditHistory.CountPermutation` | src/Main.kt:130-132 | the count of moderately delayed records depends only on the multiset of records |
| `CreditHistory.CreditHistoryOrderIndependent` | src/Main.kt:104-139 | reordering the records does not change whether the history passes |
| `CreditHistory.CheckCreditHistory` | src/Main.kt:101-139 | the single pass with a counter and early returns returns exactly `CreditHistoryRejection` of the records |
| `Scenarios.AgeOfYearsAgo` | src/Main.kt:41 | someone born exactly n years before today (`minusYears`) is n years old |
| `Scenarios.ThirtyYearOldWithChildhoodPassport` | src/Main.kt:46-48 | born 30 years ago, passport issued 25 years ago, empty history: rejected for the passport |
| `Scenarios.ThirtyYearOldWithRenewedPassport` | src/Main.kt:29-59 | born 30 years ago, passport issued 5 years ago, empty history: approved |
| `Scenarios.NineteenYearOldRejected` | src/Main.kt:42-45 | born 19 years ago: rejected by the age gate, whatever the passport and history hold |
| `Scenarios.CardDebtRejects` | src/Main.kt:112-116 | a card with overdue debt rejects with a per-record reason after the age and passport checks pass, reported as card debt when no earlier record rejects |
| `Scenarios.RecordThresholds` | src/Main.kt:112-129 | a card 30 days overdue passes and 31 fails; another product 60 days overdue passes and 61 fails; any debt fails; a record with all fields absent passes |
| `Scenarios.ModerateDelayThreshold` | src/Main.kt:130-138 | two non-card records 16 days overdue pass, three fail, and an empty history passes |

## Left out

- `main` (src/Main.kt:8-27): file reading and console output.
- The regular-expression lookups `findStringValue`, `findLongValue`, `findObject`, `findArray`
  (src/Main.kt:61-79), and the split of the history into records (src/Main.kt:102-103). Their
  results are modelled as `Option` fields (`ClientFields`, `PassportFields`) and as a list of
  records whose fields are each `Option` (`CreditEntry`). Debt and days are `nat` because the
  number pattern only matches digit runs. A number too large for a 64-bit `Long` makes
  `toLongOrNull` give null, which the program then reads as 0. The model takes the numbers as
  already extracted.
- `parseDate` (src/Main.kt:80-82): `ISO_OFFSET_DATE_TIME` parsing (date, time and UTC offset, in
  the sense of section 5.6 of RFC 3339) is the function parameter `parse`. It returns `None`
  where the parser would throw.
- `LocalDate.now()` (src/Main.kt:40): the wall clock is the parameter `today`.
- The `println` rejection texts: modelled as reason codes.
- `java.time` range limits: `LocalDate` years are bounded to ±999,999,999, and `plusYears`
  (src/Main.kt:89-90, reached only from age 20) throws when its result leaves that range. The
  program would catch that exception and reject. The model's years are unbounded, so this
  rejection does not occur. `Period.between` on two valid dates cannot throw.
