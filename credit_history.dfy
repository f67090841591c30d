/**
 * The credit-history stop check. Each record of the applicant's history is rejected outright
 * when it shows unpaid overdue debt or a long delay (over 30 days for a credit card, over 60
 * for any other product); otherwise delays over 15 days on non-card products are counted,
 * and more than two of them reject the history after the whole list has been read.
 */
module CreditHistory {
  import opened Wrappers

  /** The product type that marks a credit card. */
  const CreditCardType: string := "Кредитная карта"
  const CardDaysLimit := 30
  const LoanDaysLimit := 60
  const ModerateDelayDays := 15
  const ModerateDelaysAllowed := 2

  /** One history record as extracted from the document: each field may be absent. */
  datatype CreditEntry = CreditEntry(kind: Option<string>, debt: Option<nat>, days: Option<nat>)

  /** A record with the defaults applied: an absent type is "", absent numbers are 0. */
  datatype CreditRecord = CreditRecord(kind: string, debt: nat, days: nat)

  /** Why the history was rejected, one code per rejection message of the program. */
  datatype CreditReason =
    | CardDebt
    | CardOverdue
    | LoanDebt(kind: string)
    | LoanOverdue(kind: string)
    | TooManyModerateDelays

  function Typed(e: CreditEntry): (r: CreditRecord)
    ensures e.kind.None? ==> !IsCard(r)
    ensures e.debt.None? ==> r.debt == 0
    ensures e.days.None? ==> r.days == 0
  {
    CreditRecord(e.kind.GetOr(""), e.debt.GetOr(0), e.days.GetOr(0))
  }

  predicate IsCard(r: CreditRecord) {
    r.kind == CreditCardType
  }

  /** The rejection a single record causes on its own, tested in the program's order. */
  function Disqualification(r: CreditRecord): (reason: Option<CreditReason>)
    ensures reason.None? <==>
      (IsCard(r) ==> r.debt == 0 && r.days <= CardDaysLimit) &&
      (!IsCard(r) ==> r.debt == 0 && r.days <= LoanDaysLimit)
    ensures reason != Some(TooManyModerateDelays)
  {
    if IsCard(r) then
      if r.debt > 0 then Some(CardDebt)
      else if r.days > CardDaysLimit then Some(CardOverdue)
      else None
    else
      if r.debt > 0 then Some(LoanDebt(r.kind))
      else if r.days > LoanDaysLimit then Some(LoanOverdue(r.kind))
      else None
  }

  predicate Disqualifies(e: CreditEntry) {
    Disqualification(Typed(e)).Some?
  }

  /** A non-card record delayed by more than 15 days. */
  predicate ModeratelyDelayed(e: CreditEntry) {
    var r := Typed(e);
    !IsCard(r) && r.days > ModerateDelayDays
  }

  /** The number of moderately delayed non-card records. */
  function ModerateDelayCount(es: seq<CreditEntry>): nat {
    if es == [] then 0
    else (if ModeratelyDelayed(es[0]) then 1 else 0) + ModerateDelayCount(es[1..])
  }

  /** The rejection of the first record, in list order, that rejects on its own. */
  function FirstDisqualification(es: seq<CreditEntry>): (reason: Option<CreditReason>)
    ensures reason != Some(TooManyModerateDelays)
    ensures reason.Some? ==> exists j :: 0 <= j < |es| && FirstDisqualifyingAt(es, j) &&
                                         Disqualification(Typed(es[j])) == reason
  {
    if es == [] then None
    else if Disqualifies(es[0]) then Disqualification(Typed(es[0]))
    else
      var rest := FirstDisqualification(es[1..]);
      assert rest.Some? ==> exists j :: 1 <= j < |es| && FirstDisqualifyingAt(es, j) &&
                                        Disqualification(Typed(es[j])) == rest by {
        if rest.Some? {
          var j :| 0 <= j < |es[1..]| && FirstDisqualifyingAt(es[1..], j) &&
                   Disqualification(Typed(es[1..][j])) == rest;
          assert FirstDisqualifyingAt(es, j + 1);
        }
      }
      rest
  }

  /** Record `j` rejects on its own and none before it does. */
  predicate FirstDisqualifyingAt(es: seq<CreditEntry>, j: int)
    requires 0 <= j < |es|
  {
    Disqualifies(es[j]) && forall k :: 0 <= k < j ==> !Disqualifies(es[k])
  }

  /**
   * What the check decides for a whole history: the first record that rejects on its own,
   * else the count of moderate delays; None means the history passes. A per-record reason
   * is always that of the first record, in list order, that rejects on its own; the count
   * is reported only when no record rejects on its own.
   */
  function CreditHistoryRejection(es: seq<CreditEntry>): (rejection: Option<CreditReason>)
    ensures rejection.Some? && rejection != Some(TooManyModerateDelays) ==>
      exists j :: 0 <= j < |es| && FirstDisqualifyingAt(es, j) &&
                  Disqualification(Typed(es[j])) == rejection
    ensures rejection == Some(TooManyModerateDelays) ==>
      (forall j :: 0 <= j < |es| ==> !Disqualifies(es[j])) &&
      ModerateDelayCount(es) > ModerateDelaysAllowed
  {
    FirstDisqualificationNone(es);
    match FirstDisqualification(es)
    case Some(reason) => Some(reason)
    case None =>
      if ModerateDelayCount(es) > ModerateDelaysAllowed then Some(TooManyModerateDelays) else None
  }

  predicate CreditHistoryOk(es: seq<CreditEntry>) {
    CreditHistoryRejection(es).None?
  }

  lemma {:induction false} CountAppend(a: seq<CreditEntry>, b: seq<CreditEntry>)
    ensures ModerateDelayCount(a + b) == ModerateDelayCount(a) + ModerateDelayCount(b)
  {
    if a == [] {
      assert a + b == b;
    } else {
      assert (a + b)[1..] == a[1..] + b;
      CountAppend(a[1..], b);
    }
  }

  lemma CountPrefixStep(es: seq<CreditEntry>, i: nat)
    requires i < |es|
    ensures ModerateDelayCount(es[..i + 1]) ==
            ModerateDelayCount(es[..i]) + (if ModeratelyDelayed(es[i]) then 1 else 0)
  {
    assert es[..i + 1] == es[..i] + [es[i]];
    CountAppend(es[..i], [es[i]]);
  }

  /** No record before index `i` rejects on its own, so the first rejection is found from `i` on. */
  lemma {:induction false} FirstDisqualificationFrom(es: seq<CreditEntry>, i: nat)
    requires i <= |es|
    requires forall j :: 0 <= j < i ==> !Disqualifies(es[j])
    ensures FirstDisqualification(es) == FirstDisqualification(es[i..])
  {
    if i > 0 {
      assert es[1..][i - 1..] == es[i..];
      FirstDisqualificationFrom(es[1..], i - 1);
    }
  }

  /** The first rejection is None exactly when no record rejects on its own. */
  lemma {:induction false} FirstDisqualificationNone(es: seq<CreditEntry>)
    ensures FirstDisqualification(es).None? <==> forall j :: 0 <= j < |es| ==> !Disqualifies(es[j])
  {
    if es != [] {
      FirstDisqualificationNone(es[1..]);
      assert forall j :: 1 <= j < |es| ==> es[j] == es[1..][j - 1];
    }
  }

  /**
   * The history passes exactly when no card record has debt or a delay over 30 days, no
   * other record has debt or a delay over 60 days, and at most two non-card records are
   * delayed by more than 15 days.
   */
  lemma CreditHistoryOkIff(es: seq<CreditEntry>)
    ensures CreditHistoryOk(es) <==>
      (forall j :: 0 <= j < |es| ==>
         var r := Typed(es[j]);
         (IsCard(r) ==> r.debt == 0 && r.days <= CardDaysLimit) &&
         (!IsCard(r) ==> r.debt == 0 && r.days <= LoanDaysLimit)) &&
      ModerateDelayCount(es) <= ModerateDelaysAllowed
  {
    FirstDisqualificationNone(es);
  }

  /** A record that rejects on its own rejects the history, whatever else it holds. */
  lemma DisqualifyingRecordRejects(es: seq<CreditEntry>, i: nat)
    requires i < |es| && Disqualifies(es[i])
    ensures CreditHistoryRejection(es).Some?
    ensures CreditHistoryRejection(es) != Some(TooManyModerateDelays)
  {
    FirstDisqualificationNone(es);
  }

  /** Taking out the record at `k` lowers the count by that record's share. */
  lemma CountRemoveAt(b: seq<CreditEntry>, k: nat)
    requires k < |b|
    ensures ModerateDelayCount(b) ==
            ModerateDelayCount(b[..k] + b[k + 1..]) + (if ModeratelyDelayed(b[k]) then 1 else 0)
  {
    var pre, x, post := b[..k], b[k], b[k + 1..];
    assert b == (pre + [x]) + post;
    CountAppend(pre + [x], post);
    CountAppend(pre, [x]);
    CountAppend(pre, post);
    CountSingleton(x);
  }

  lemma CountSingleton(x: CreditEntry)
    ensures ModerateDelayCount([x]) == if ModeratelyDelayed(x) then 1 else 0
  {
    assert [x][1..] == [];
  }

  lemma MultisetRemoveAt(b: seq<CreditEntry>, k: nat)
    requires k < |b|
    ensures multiset(b[..k] + b[k + 1..]) == multiset(b) - multiset{b[k]}
  {
    assert b == b[..k] + [b[k]] + b[k + 1..];
  }

  /** The count depends only on which records there are, not on their order. */
  lemma {:induction false} CountPermutation(a: seq<CreditEntry>, b: seq<CreditEntry>)
    requires multiset(a) == multiset(b)
    ensures ModerateDelayCount(a) == ModerateDelayCount(b)
    decreases |a|
  {
    if a == [] {
      assert |b| == |multiset(b)| == 0;
    } else {
      assert a[0] in multiset(b);
      var k :| 0 <= k < |b| && b[k] == a[0];
      MultisetRemoveAt(b, k);
      MultisetRemoveAt(a, 0);
      CountPermutation(a[1..], b[..k] + b[k + 1..]);
      CountRemoveAt(b, k);
    }
  }

  /**
   * Whether the history passes does not depend on the order of its records; only which
   * rejection is reported can.
   */
  lemma CreditHistoryOrderIndependent(a: seq<CreditEntry>, b: seq<CreditEntry>)
    requires multiset(a) == multiset(b)
    ensures CreditHistoryOk(a) <==> CreditHistoryOk(b)
  {
    FirstDisqualificationNone(a);
    FirstDisqualificationNone(b);
    CountPermutation(a, b);
    forall j | 0 <= j < |a| ensures a[j] in multiset(b) {
      assert a[j] in multiset(a);
    }
    forall j | 0 <= j < |b| ensures b[j] in multiset(a) {
      assert b[j] in multiset(b);
    }
  }

  /**
   * The scan: one pass over the records in order with a running count of moderate delays,
   * returning at the first record that rejects on its own and comparing the count with two
   * after the last record.
   */
  method CheckCreditHistory(history: seq<CreditEntry>) returns (rejection: Option<CreditReason>)
    ensures rejection == CreditHistoryRejection(history)
  {
    var count := 0;
    var i := 0;
    while i < |history|
      invariant 0 <= i <= |history|
      invariant forall j :: 0 <= j < i ==> !Disqualifies(history[j])
      invariant count == ModerateDelayCount(history[..i])
    {
      var r := Typed(history[i]);
      FirstDisqualificationFrom(history, i);
      if r.kind == CreditCardType {
        if r.debt > 0 {
          return Some(CardDebt);
        }
        if r.days > CardDaysLimit {
          return Some(CardOverdue);
        }
      } else {
        if r.debt > 0 {
          return Some(LoanDebt(r.kind));
        }
        if r.days > LoanDaysLimit {
          return Some(LoanOverdue(r.kind));
        }
        if r.days > ModerateDelayDays {
          count := count + 1;
        }
      }
      CountPrefixStep(history, i);
      i := i + 1;
    }
    assert history[..i] == history;
    FirstDisqualificationFrom(history, i);
    if count > ModerateDelaysAllowed {
      return Some(TooManyModerateDelays);
    }
    return None;
  }
}
