/** `calculateSplit`: the participants, the total, the equal share, and for
    each participant their balance and who they owe or are owed by. */
module Split {
  import opened Wrappers
  import opened Money
  import opened Participants
  import opened Debts

  /** One row of the result.  `owes` and `owed` are absent (the source's
      `undefined`) for a participant with no edge on that side. */
  datatype SplitResult = SplitResult(
    userName: string,
    userId: UserId,
    totalSpent: Cents,
    shareAmount: Cents,
    balance: Cents,
    owes: Option<seq<Owe>>,
    owed: Option<seq<Owed>>)

  /** What `calculateSplit` returns when it succeeds. */
  datatype Settlement = Settlement(
    participants: seq<Participant>,
    totalExpenses: Cents,
    sharePerPerson: Cents,
    results: seq<SplitResult>)

  /** The one error `calculateSplit` throws. */
  datatype SplitError = NoParticipantsFound

  /** A participant's row, given the rounded balances and the settlement. */
  function ResultFor(p: Participant, balance: Cents, share: Cents,
                     debts: map<UserId, seq<Owe>>, credits: map<UserId, seq<Owed>>): (r: SplitResult)
    ensures r.totalSpent == p.totalSpent
    ensures r.owes.Some? <==> p.id in debts
    ensures r.owed.Some? <==> p.id in credits
  {
    RoundWholeCents(p.totalSpent);
    SplitResult(p.name, p.id, RoundHalfUp(p.totalSpent, 1), share, balance,
                if p.id in debts then Some(debts[p.id]) else None,
                if p.id in credits then Some(credits[p.id]) else None)
  }

  /** The sum of the rows' balances. */
  function BalanceSum(results: seq<SplitResult>): int {
    if results == [] then 0 else BalanceSum(results[..|results| - 1]) + results[|results| - 1].balance
  }

  /** With every balance equal to what the participant spent less the share,
      the balances add up to all that was spent less one share per head. */
  lemma {:induction false} SumOfBalances(results: seq<SplitResult>, ps: seq<Participant>, expenses: seq<Expense>, share: Cents)
    requires |results| == |ps|
    requires forall k :: 0 <= k < |ps| ==> results[k].balance == SpentBy(expenses, ps[k].id) - share
    ensures BalanceSum(results) == SpentByAll(expenses, ParticipantIds(ps)) - |ps| * share
  {
    if ps != [] {
      var n := |ps| - 1;
      assert ParticipantIds(ps[..n]) == ParticipantIds(ps)[..n];
      SumOfBalances(results[..n], ps[..n], expenses, share);
      assert |ps| * share == n * share + share;
    }
  }

  /** Only debtors owe and only creditors are owed, each edge is positive,
      and nobody's edges add up to more than their balance. */
  predicate EdgesWithinBalance(row: SplitResult) {
    && (row.owes.Some? ==>
          && row.balance < 0 && 0 < TotalOwes(row.owes.value) <= -row.balance
          && forall e :: e in row.owes.value ==> e.amount > 0)
    && (row.owed.Some? ==>
          && row.balance > 0 && 0 < TotalOwed(row.owed.value) <= row.balance
          && forall e :: e in row.owed.value ==> e.amount > 0)
  }

  /** Every creditor is owed their whole balance. */
  predicate CreditorsSettled(results: seq<SplitResult>) {
    forall row :: row in results && row.balance > 0 ==> row.owed.Some? && TotalOwed(row.owed.value) == row.balance
  }

  /** Every debtor owes their whole balance. */
  predicate DebtorsSettled(results: seq<SplitResult>) {
    forall row :: row in results && row.balance < 0 ==> row.owes.Some? && TotalOwes(row.owes.value) == -row.balance
  }

  /** What a successful `calculateSplit` promises: the participant list,
      the total, the rounded equal share, one row per participant whose
      balance is what they spent less the share, balances that add up to
      the share's rounding error (at most half a cent per participant),
      edges within every balance, one side settled in full, and both sides
      settled in full exactly when the balances add up to zero. */
  ghost predicate Settles(expenses: seq<Expense>, guests: seq<Guest>, s: Settlement) {
    var n := |s.participants|;
    && n > 0
    && IsParticipantList(s.participants, expenses, guests)
    && s.totalExpenses == Total(expenses)
    && s.sharePerPerson == RoundHalfUp(Total(expenses), n)
    && RowsOf(s.participants, s.sharePerPerson, s.results)
    && 2 * Abs(BalanceSum(s.results)) <= n
    && SettledWithin(s.results)
    && (exists tr :: SettledBy(BalanceEntries(s.participants, s.sharePerPerson), s.results, tr))
  }

  /** The rows carry exactly the `owes` and `owed` edges of the greedy
      settlement `tr` of the balances `bs`, and none where it has none. */
  ghost predicate SettledBy(bs: seq<BalanceEntry>, results: seq<SplitResult>, tr: seq<Transfer>) {
    && |results| == |bs|
    && GreedySettlement(bs, tr)
    && var debts, credits := DebtMap(Creditors(bs), Debtors(bs), tr), CreditMap(Creditors(bs), Debtors(bs), tr);
       forall i :: 0 <= i < |bs| ==>
         && results[i].owes == (if bs[i].id in debts then Some(debts[bs[i].id]) else None)
         && results[i].owed == (if bs[i].id in credits then Some(credits[bs[i].id]) else None)
  }

  /** One row per participant, in participant order, with their id, name,
      spending, the share, and what they spent less the share as balance. */
  predicate RowsOf(ps: seq<Participant>, share: Cents, results: seq<SplitResult>) {
    && |results| == |ps|
    && forall i :: 0 <= i < |ps| ==>
         var p, row := ps[i], results[i];
         && row.userId == p.id && row.userName == p.name && row.totalSpent == p.totalSpent
         && row.shareAmount == share
         && row.balance == p.totalSpent - share
  }

  /** The rows' edges keep within their balances, one side is settled in
      full, and both are exactly when the balances add up to zero. */
  predicate SettledWithin(results: seq<SplitResult>) {
    && (forall row :: row in results ==> EdgesWithinBalance(row))
    && (CreditorsSettled(results) || DebtorsSettled(results))
    && (CreditorsSettled(results) && DebtorsSettled(results) <==> BalanceSum(results) == 0)
  }

  /** `calculateSplit`: fails exactly when there are neither guests nor
      expenses, and otherwise returns a settlement as `Settles` describes. */
  method CalculateSplit(expenses: seq<Expense>, guests: seq<Guest>) returns (r: Result<Settlement, SplitError>)
    ensures r.Failure? <==> guests == [] && expenses == []
    ensures r.Success? ==> Settles(expenses, guests, r.value)
  {
    var participants := BuildParticipantList(expenses, guests);
    var totalExpenses := Total(expenses);
    EmptyParticipants(participants, expenses, guests);
    if |participants| == 0 {
      return Failure(NoParticipantsFound);
    }
    var sharePerPerson := RoundHalfUp(totalExpenses, |participants|);
    var balances := Balances(participants, sharePerPerson);
    BalancesDistinct(participants, balances, expenses, guests);
    ghost var transfers;
    var debts, credits;
    debts, credits, transfers := CalculateDebts(balances);
    var results := Rows(participants, balances, sharePerPerson, debts, credits);
    RoundWholeCents(totalExpenses);
    Assemble(expenses, guests, participants, sharePerPerson, balances, debts, credits, transfers);
    r := Success(Settlement(participants, RoundHalfUp(totalExpenses, 1), sharePerPerson, results));
  }

  /** The rows, one per participant in participant order. */
  function Rows(ps: seq<Participant>, balances: seq<BalanceEntry>, share: Cents,
                debts: map<UserId, seq<Owe>>, credits: map<UserId, seq<Owed>>): (r: seq<SplitResult>)
    requires |balances| == |ps|
    ensures balances == BalanceEntries(ps, share) ==> RowsOf(ps, share, r)
  {
    seq(|ps|, k requires 0 <= k < |ps| => ResultFor(ps[k], balances[k].balance, share, debts, credits))
  }

  /** The rows built from a participant list, its balances and a settlement
      of them that keeps within the balances and pays one side in full make
      up a settlement as `Settles` describes. */
  lemma Assemble(expenses: seq<Expense>, guests: seq<Guest>, ps: seq<Participant>, share: Cents,
                 balances: seq<BalanceEntry>, debts: map<UserId, seq<Owe>>, credits: map<UserId, seq<Owed>>,
                 tr: seq<Transfer>)
    requires IsParticipantList(ps, expenses, guests) && ps != []
    requires share == RoundHalfUp(Total(expenses), |ps|)
    requires balances == BalanceEntries(ps, share)
    requires GreedySettlement(balances, tr)
    requires debts == DebtMap(Creditors(balances), Debtors(balances), tr)
    requires credits == CreditMap(Creditors(balances), Debtors(balances), tr)
    requires DebtsWithin(balances, debts) && CreditsWithin(balances, credits)
    requires CreditorsPaid(balances, credits) || DebtorsPaid(balances, debts)
    requires CreditorsPaid(balances, credits) && DebtorsPaid(balances, debts) <==> BalanceTotal(balances) == 0
    ensures Settles(expenses, guests, Settlement(ps, Total(expenses), share, Rows(ps, balances, share, debts, credits)))
  {
    var results := Rows(ps, balances, share, debts, credits);
    RowsSettle(ps, share, balances, debts, credits);
    RowsSettledBy(ps, share, balances, tr);
    BalancesAddUp(expenses, guests, ps, share, results);
  }

  /** The rows built from the balances and objects that keep within them
      and pay one side in full carry the participants and the share, keep
      their edges within their balances and settle one side in full. */
  lemma RowsSettle(ps: seq<Participant>, share: Cents, balances: seq<BalanceEntry>,
                   debts: map<UserId, seq<Owe>>, credits: map<UserId, seq<Owed>>)
    requires balances == BalanceEntries(ps, share)
    requires DebtsWithin(balances, debts) && CreditsWithin(balances, credits)
    requires CreditorsPaid(balances, credits) || DebtorsPaid(balances, debts)
    requires CreditorsPaid(balances, credits) && DebtorsPaid(balances, debts) <==> BalanceTotal(balances) == 0
    ensures var results := Rows(ps, balances, share, debts, credits);
      RowsOf(ps, share, results) && SettledWithin(results)
  {
    var results := Rows(ps, balances, share, debts, credits);
    RowsShape(ps, share, balances, debts, credits);
    RowEdges(ps, balances, results, share, debts, credits);
    SettledRows(ps, balances, results, share, debts, credits);
  }

  lemma RowsShape(ps: seq<Participant>, share: Cents, balances: seq<BalanceEntry>,
                  debts: map<UserId, seq<Owe>>, credits: map<UserId, seq<Owed>>)
    requires balances == BalanceEntries(ps, share)
    ensures var results := Rows(ps, balances, share, debts, credits);
      && |balances| == |ps| && |results| == |ps|
      && forall k :: 0 <= k < |ps| ==>
           balances[k].id == ps[k].id && results[k] == ResultFor(ps[k], balances[k].balance, share, debts, credits)
  {
  }

  /** The rows built from the objects of a greedy settlement carry exactly
      that settlement's edges. */
  lemma RowsSettledBy(ps: seq<Participant>, share: Cents, balances: seq<BalanceEntry>, tr: seq<Transfer>)
    requires balances == BalanceEntries(ps, share)
    requires GreedySettlement(balances, tr)
    ensures var cs, ds := Creditors(balances), Debtors(balances);
      SettledBy(balances, Rows(ps, balances, share, DebtMap(cs, ds, tr), CreditMap(cs, ds, tr)), tr)
  {
  }

  /** Balances of what each participant spent less the rounded equal share
      add up to at most half a cent per participant either way. */
  lemma BalancesAddUp(expenses: seq<Expense>, guests: seq<Guest>, ps: seq<Participant>, share: Cents, results: seq<SplitResult>)
    requires IsParticipantList(ps, expenses, guests) && ps != []
    requires share == RoundHalfUp(Total(expenses), |ps|)
    requires |results| == |ps| && forall k :: 0 <= k < |ps| ==> results[k].balance == ps[k].totalSpent - share
    ensures 2 * Abs(BalanceSum(results)) <= |ps|
  {
    SpentAddsUp(ps, expenses, guests);
    SumOfBalances(results, ps, expenses, share);
    assert |ps| * share == share * |ps|;
  }

  /** The balances `calculateDebts` is given: one entry per participant, in
      participant order, holding what they spent less the share. */
  function BalanceEntries(ps: seq<Participant>, share: Cents): seq<BalanceEntry> {
    seq(|ps|, k requires 0 <= k < |ps| => BalanceEntry(ps[k].id, ps[k].name, ps[k].totalSpent - share))
  }

  /** Fills the `balances` object participant by participant. */
  method Balances(ps: seq<Participant>, share: Cents) returns (balances: seq<BalanceEntry>)
    ensures balances == BalanceEntries(ps, share)
  {
    balances := [];
    var i := 0;
    while i < |ps|
      invariant 0 <= i <= |ps| && |balances| == i
      invariant forall k :: 0 <= k < i ==>
        balances[k] == BalanceEntry(ps[k].id, ps[k].name, ps[k].totalSpent - share)
    {
      var p := ps[i];
      var balance := p.totalSpent - share;
      RoundWholeCents(balance);
      balances := balances + [BalanceEntry(p.id, p.name, RoundHalfUp(balance, 1))];
      i := i + 1;
    }
  }

  lemma BalancesDistinct(ps: seq<Participant>, balances: seq<BalanceEntry>, expenses: seq<Expense>, guests: seq<Guest>)
    requires IsParticipantList(ps, expenses, guests)
    requires |balances| == |ps| && forall k :: 0 <= k < |ps| ==> balances[k].id == ps[k].id
    ensures DistinctIds(balances)
  {
    ParticipantOrder(ps, expenses, guests);
    assert forall k :: 0 <= k < |ps| ==> ParticipantIds(ps)[k] == balances[k].id;
  }

  /** Rows built from `debts` and `credits` that keep within the balances
      keep their edges within their balances. */
  lemma RowEdges(ps: seq<Participant>, balances: seq<BalanceEntry>, results: seq<SplitResult>, share: Cents,
                 debts: map<UserId, seq<Owe>>, credits: map<UserId, seq<Owed>>)
    requires |balances| == |ps| && |results| == |ps|
    requires DebtsWithin(balances, debts) && CreditsWithin(balances, credits)
    requires forall k :: 0 <= k < |ps| ==>
      balances[k].id == ps[k].id && results[k] == ResultFor(ps[k], balances[k].balance, share, debts, credits)
    ensures forall row :: row in results ==> EdgesWithinBalance(row)
  {
    forall row | row in results ensures EdgesWithinBalance(row) {
      var k :| 0 <= k < |results| && results[k] == row;
      assert balances[k].id == row.userId;
      if row.owes.Some? {
        forall e | e in row.owes.value ensures e.amount > 0 {
          var j :| 0 <= j < |debts[row.userId]| && debts[row.userId][j] == e;
        }
      }
      if row.owed.Some? {
        forall e | e in row.owed.value ensures e.amount > 0 {
          var j :| 0 <= j < |credits[row.userId]| && credits[row.userId][j] == e;
        }
      }
    }
  }

  /** In rows built from `debts` and `credits`, the creditors (debtors) are
      settled exactly when the objects pay every creditor (debtor) entry. */
  lemma RowsPaid(ps: seq<Participant>, balances: seq<BalanceEntry>, results: seq<SplitResult>, share: Cents,
                 debts: map<UserId, seq<Owe>>, credits: map<UserId, seq<Owed>>)
    requires |balances| == |ps| && |results| == |ps|
    requires forall k :: 0 <= k < |ps| ==>
      balances[k].id == ps[k].id && results[k] == ResultFor(ps[k], balances[k].balance, share, debts, credits)
    ensures CreditorsSettled(results) <==> CreditorsPaid(balances, credits)
    ensures DebtorsSettled(results) <==> DebtorsPaid(balances, debts)
  {
    if CreditorsPaid(balances, credits) {
      forall row | row in results && row.balance > 0
        ensures row.owed.Some? && TotalOwed(row.owed.value) == row.balance
      {
        var k :| 0 <= k < |results| && results[k] == row;
        assert balances[k].id == row.userId;
      }
    }
    if CreditorsSettled(results) {
      forall i | 0 <= i < |balances| && balances[i].balance > 0
        ensures balances[i].id in credits && TotalOwed(credits[balances[i].id]) == balances[i].balance
      {
        assert results[i] in results;
      }
    }
    if DebtorsPaid(balances, debts) {
      forall row | row in results && row.balance < 0
        ensures row.owes.Some? && TotalOwes(row.owes.value) == -row.balance
      {
        var k :| 0 <= k < |results| && results[k] == row;
        assert balances[k].id == row.userId;
      }
    }
    if DebtorsSettled(results) {
      forall i | 0 <= i < |balances| && balances[i].balance < 0
        ensures balances[i].id in debts && TotalOwes(debts[balances[i].id]) == -balances[i].balance
      {
        assert results[i] in results;
      }
    }
  }

  /** Rows built from `debts` and `credits` that pay one side in full
      settle that side, and settle both exactly when they add up to zero. */
  lemma SettledRows(ps: seq<Participant>, balances: seq<BalanceEntry>, results: seq<SplitResult>, share: Cents,
                    debts: map<UserId, seq<Owe>>, credits: map<UserId, seq<Owed>>)
    requires |balances| == |ps| && |results| == |ps|
    requires forall k :: 0 <= k < |ps| ==>
      balances[k].id == ps[k].id && results[k] == ResultFor(ps[k], balances[k].balance, share, debts, credits)
    requires CreditorsPaid(balances, credits) || DebtorsPaid(balances, debts)
    requires CreditorsPaid(balances, credits) && DebtorsPaid(balances, debts) <==> BalanceTotal(balances) == 0
    ensures CreditorsSettled(results) || DebtorsSettled(results)
    ensures CreditorsSettled(results) && DebtorsSettled(results) <==> BalanceSum(results) == 0
  {
    RowsPaid(ps, balances, results, share, debts, credits);
    RowsTotal(balances, results);
  }

  /** Rows that carry the balances add up to what the balances add up to. */
  lemma {:induction false} RowsTotal(balances: seq<BalanceEntry>, results: seq<SplitResult>)
    requires |results| == |balances|
    requires forall k :: 0 <= k < |results| ==> results[k].balance == balances[k].balance
    ensures BalanceSum(results) == BalanceTotal(balances)
  {
    if results != [] {
      var n := |results| - 1;
      RowsTotal(balances[..n], results[..n]);
    }
  }

  /** With guests but no expenses, nobody spent anything, the share is 0,
      every balance is 0 and nobody owes or is owed anything. */
  lemma NoExpenses(guests: seq<Guest>, s: Settlement)
    requires Settles([], guests, s)
    ensures s.totalExpenses == 0 && s.sharePerPerson == 0
    ensures forall row :: row in s.results ==>
      row.totalSpent == 0 && row.shareAmount == 0 && row.balance == 0 && row.owes == None && row.owed == None
  {
    RoundHalfUpUnique(0, |s.participants|, 0);
    forall row | row in s.results
      ensures row.totalSpent == 0 && row.shareAmount == 0 && row.balance == 0 && row.owes == None && row.owed == None
    {
      var k :| 0 <= k < |s.results| && s.results[k] == row;
      assert s.participants[k].totalSpent == SpentBy([], s.participants[k].id) == 0;
      assert EdgesWithinBalance(row);
    }
  }

  /** `Settles` pins the settlement down completely: two settlements of the
      same expenses and guests that both satisfy it are the same. */
  lemma SettlesUnique(expenses: seq<Expense>, guests: seq<Guest>, s1: Settlement, s2: Settlement)
    requires Settles(expenses, guests, s1) && Settles(expenses, guests, s2)
    ensures s1 == s2
  {
    ParticipantListUnique(s1.participants, s2.participants, expenses, guests);
    var bs := BalanceEntries(s1.participants, s1.sharePerPerson);
    var tr1 :| SettledBy(bs, s1.results, tr1);
    var tr2 :| SettledBy(bs, s2.results, tr2);
    RowsUnique(s1.participants, s1.sharePerPerson, s1.results, s2.results, tr1, tr2);
  }

  /** Rows that carry the participants' figures and the edges of a greedy
      settlement of their balances are determined by the participants and
      the share. */
  lemma RowsUnique(ps: seq<Participant>, share: Cents, r1: seq<SplitResult>, r2: seq<SplitResult>,
                   tr1: seq<Transfer>, tr2: seq<Transfer>)
    requires RowsOf(ps, share, r1) && RowsOf(ps, share, r2)
    requires SettledBy(BalanceEntries(ps, share), r1, tr1) && SettledBy(BalanceEntries(ps, share), r2, tr2)
    ensures r1 == r2
  {
    var bs := BalanceEntries(ps, share);
    GreedyUnique(bs, tr1, tr2);
    forall i | 0 <= i < |r1| ensures r1[i] == r2[i] {
      assert bs[i].id == ps[i].id;
    }
  }
}
