/** The uneven three-way split of the calculator's test suite, worked out
    from the contracts: Den spends 500.00 and 200.00, Volmund 300.00, and
    Alarak nothing. */
module Scenarios {
  import opened Wrappers
  import opened Money
  import opened Participants
  import opened Debts
  import opened Split

  const Den := UserProfile("user-1", "Den Grassforest")
  const Volmund := UserProfile("user-2", "Volmund Highchanter de Felhas")
  const Alarak := UserProfile("user-3", "Alarak Greycastle")

  function ThreeGuests(): seq<Guest> {
    [Guest(Den), Guest(Volmund), Guest(Alarak)]
  }

  function ThreeExpenses(): seq<Expense> {
    [Expense("expense-1", 50000, "user-1", Den),
     Expense("expense-2", 20000, "user-1", Den),
     Expense("expense-3", 30000, "user-2", Volmund)]
  }

  function ThreeParticipants(): seq<Participant> {
    [Participant("user-1", "Den Grassforest", 70000),
     Participant("user-2", "Volmund Highchanter de Felhas", 30000),
     Participant("user-3", "Alarak Greycastle", 0)]
  }

  /** Den is owed by Alarak first (the larger debt), then by Volmund. */
  function ThreeTransfers(): seq<Transfer> {
    [Transfer(0, 0, 33333), Transfer(0, 1, 3333)]
  }

  lemma ThreeParticipantList()
    ensures IsParticipantList(ThreeParticipants(), ThreeExpenses(), ThreeGuests())
  {
    ThreeIds();
    assert ParticipantIds(ThreeParticipants()) == ["user-1", "user-2", "user-3"];
    ThreeNames();
    ThreeSpent();
  }

  lemma ThreeIds()
    ensures Dedup(GuestIds(ThreeGuests()) + RecorderIds(ThreeExpenses())) == ["user-1", "user-2", "user-3"]
  {
    var u1, u2, u3 := "user-1", "user-2", "user-3";
    var ids := GuestIds(ThreeGuests()) + RecorderIds(ThreeExpenses());
    assert ids == [u1, u2, u3, u1, u1, u2];
    assert Dedup([u1]) == [u1] by { assert [u1][..0] == []; }
    assert Dedup([u1, u2]) == [u1, u2] by { assert [u1, u2][..1] == [u1]; }
    assert Dedup([u1, u2, u3]) == [u1, u2, u3] by { assert [u1, u2, u3][..2] == [u1, u2]; }
    assert Dedup([u1, u2, u3, u1]) == [u1, u2, u3] by { assert [u1, u2, u3, u1][..3] == [u1, u2, u3]; }
    assert Dedup([u1, u2, u3, u1, u1]) == [u1, u2, u3] by { assert [u1, u2, u3, u1, u1][..4] == [u1, u2, u3, u1]; }
    assert Dedup(ids) == [u1, u2, u3] by { assert ids[..5] == [u1, u2, u3, u1, u1]; }
  }

  lemma ThreeNames()
    ensures NameOf(ThreeGuests(), ThreeExpenses(), "user-1") == "Den Grassforest"
    ensures NameOf(ThreeGuests(), ThreeExpenses(), "user-2") == "Volmund Highchanter de Felhas"
    ensures NameOf(ThreeGuests(), ThreeExpenses(), "user-3") == "Alarak Greycastle"
  {
    var g := ThreeGuests();
    var g2, g1 := [Guest(Den), Guest(Volmund)], [Guest(Den)];
    assert g[..2] == g2 && g2[..1] == g1 && g1[..0] == [];
    assert GuestName(g1, "user-1") == Some("Den Grassforest");
    assert GuestName(g2, "user-1") == Some("Den Grassforest");
    assert GuestName(g, "user-1") == Some("Den Grassforest");
    assert GuestName(g2, "user-2") == Some("Volmund Highchanter de Felhas");
    assert GuestName(g, "user-2") == Some("Volmund Highchanter de Felhas");
    assert GuestName(g, "user-3") == Some("Alarak Greycastle");
  }

  lemma ThreeSpent()
    ensures SpentBy(ThreeExpenses(), "user-1") == 70000
    ensures SpentBy(ThreeExpenses(), "user-2") == 30000
    ensures SpentBy(ThreeExpenses(), "user-3") == 0
  {
    var e := ThreeExpenses();
    var e2, e1 := e[..2], e[..1];
    assert e2[..1] == e1 && e1[..0] == [];
    assert SpentBy([], "user-1") == 0 && SpentBy([], "user-2") == 0 && SpentBy([], "user-3") == 0;
    assert SpentBy(e1, "user-1") == 50000 && SpentBy(e1, "user-2") == 0 && SpentBy(e1, "user-3") == 0;
    assert SpentBy(e2, "user-1") == 70000 && SpentBy(e2, "user-2") == 0 && SpentBy(e2, "user-3") == 0;
  }

  function ThreeBalances(): seq<BalanceEntry> {
    [BalanceEntry("user-1", "Den Grassforest", 36667),
     BalanceEntry("user-2", "Volmund Highchanter de Felhas", -3333),
     BalanceEntry("user-3", "Alarak Greycastle", -33333)]
  }

  lemma ThreeShare()
    ensures Total(ThreeExpenses()) == 100000
    ensures RoundHalfUp(Total(ThreeExpenses()), 3) == 33333
    ensures BalanceEntries(ThreeParticipants(), 33333) == ThreeBalances()
  {
    var e := ThreeExpenses();
    var e2, e1 := e[..2], e[..1];
    assert e2[..1] == e1 && e1[..0] == [];
    assert Total(e1) == 50000;
    assert Total(e2) == 70000;
    assert Total(e) == 100000;
    ShareExamples();
    var ps, bs := ThreeParticipants(), BalanceEntries(ThreeParticipants(), 33333);
    assert |bs| == 3;
    assert bs[0] == ThreeBalances()[0] && bs[1] == ThreeBalances()[1] && bs[2] == ThreeBalances()[2];
  }

  lemma ThreeSides()
    ensures Creditors(ThreeBalances()) == [ThreeBalances()[0]]
    ensures Debtors(ThreeBalances()) == [ThreeBalances()[2], ThreeBalances()[1]]
  {
    var bs := ThreeBalances();
    var b1, b2, b3 := bs[0], bs[1], bs[2];
    assert bs[..2] == [b1, b2] && bs[..2][..1] == [b1] && [b1][..0] == [];
    assert Side([b1], true) == [b1] && Side([b1], false) == [];
    assert Side([b1, b2], true) == [b1] && Side([b1, b2], false) == [b2];
    assert Side(bs, true) == [b1];
    assert Side(bs, false) == [b2, b3];
    assert [b2, b3][1..] == [b3] && [b3][1..] == [];
    assert SortLargestFirst([b3]) == [b3];
    assert Insert(b2, [b3]) == [b3, b2];
    assert [b1][1..] == [];
  }

  /** What the log moves: Den receives 333.33 and then 33.33 more, Alarak
      pays 333.33 and Volmund 33.33. */
  lemma ThreeLog()
    ensures var tr := ThreeTransfers();
      && tr[..1] == [tr[0]] && tr[..0] == []
      && ReceivedAt(tr[..0], 0) == 0 && PaidAt(tr[..0], 0) == 0
      && ReceivedAt(tr[..1], 0) == 33333 && PaidAt(tr[..1], 0) == 33333 && PaidAt(tr[..1], 1) == 0
      && ReceivedAt(tr, 0) == 36666 && PaidAt(tr, 0) == 33333 && PaidAt(tr, 1) == 3333
  {
    var tr := ThreeTransfers();
    assert tr[..1] == [tr[0]] && [tr[0]][..0] == [];
  }

  /** Both transfers are the greedy ones. */
  lemma ThreeSteps()
    ensures var bs := ThreeBalances(); Greedy([bs[0]], [bs[2], bs[1]], ThreeTransfers())
  {
    ThreeLog();
    var bs, tr := ThreeBalances(), ThreeTransfers();
    assert GreedyStep([bs[0]], [bs[2], bs[1]], tr[..0], tr[0]);
    assert GreedyStep([bs[0]], [bs[2], bs[1]], tr[..1], tr[1]);
  }

  /** Den receives 333.33 from Alarak, then 33.33 from Volmund, and the
      loop stops with both debtors settled and Den 0.01 short. */
  lemma ThreeGreedy()
    ensures GreedySettlement(ThreeBalances(), ThreeTransfers())
  {
    ThreeSides();
    ThreeLog();
    ThreeSteps();
  }

  /** The `debts` and `credits` objects the log builds. */
  lemma ThreeMaps()
    ensures var bs := ThreeBalances();
      DebtMap([bs[0]], [bs[2], bs[1]], ThreeTransfers())
        == map["user-3" := [Owe("Den Grassforest", 33333)], "user-2" := [Owe("Den Grassforest", 3333)]]
    ensures var bs := ThreeBalances();
      CreditMap([bs[0]], [bs[2], bs[1]], ThreeTransfers())
        == map["user-1" := [Owed("Alarak Greycastle", 33333), Owed("Volmund Highchanter de Felhas", 3333)]]
  {
    var bs, tr := ThreeBalances(), ThreeTransfers();
    var cs, ds := [bs[0]], [bs[2], bs[1]];
    var first := [Transfer(0, 0, 33333)];
    assert tr[..1] == first && first[..0] == [];
    assert cs[0].id == "user-1" && cs[0].name == "Den Grassforest";
    assert ds[0].id == "user-3" && ds[0].name == "Alarak Greycastle";
    assert ds[1].id == "user-2" && ds[1].name == "Volmund Highchanter de Felhas";
    assert "user-2"[5] != "user-3"[5];

    var alarak, volmund := [Owe("Den Grassforest", 33333)], [Owe("Den Grassforest", 3333)];
    assert DebtMap(cs, ds, first) == map[][ds[0].id := [] + [Owe(cs[0].name, 33333)]];
    assert [] + [Owe(cs[0].name, 33333)] == alarak;
    assert map[][ds[0].id := alarak] == map["user-3" := alarak];
    assert DebtMap(cs, ds, tr) == map["user-3" := alarak][ds[1].id := [] + [Owe(cs[0].name, 3333)]];
    assert [] + [Owe(cs[0].name, 3333)] == volmund;
    assert map["user-3" := alarak][ds[1].id := volmund] == map["user-3" := alarak, "user-2" := volmund];

    var once := [Owed("Alarak Greycastle", 33333)];
    var twice := once + [Owed("Volmund Highchanter de Felhas", 3333)];
    assert CreditMap(cs, ds, first) == map[][cs[0].id := [] + [Owed(ds[0].name, 33333)]];
    assert [] + [Owed(ds[0].name, 33333)] == once;
    assert map[][cs[0].id := once] == map["user-1" := once];
    assert CreditMap(cs, ds, tr) == map["user-1" := once][cs[0].id := once + [Owed(ds[1].name, 3333)]];
    assert map["user-1" := once][cs[0].id := twice] == map["user-1" := twice];
    assert twice == [Owed("Alarak Greycastle", 33333), Owed("Volmund Highchanter de Felhas", 3333)];
  }

  function ThreeRows(): seq<SplitResult> {
    [SplitResult("Den Grassforest", "user-1", 70000, 33333, 36667,
                 None, Some([Owed("Alarak Greycastle", 33333), Owed("Volmund Highchanter de Felhas", 3333)])),
     SplitResult("Volmund Highchanter de Felhas", "user-2", 30000, 33333, -3333,
                 Some([Owe("Den Grassforest", 3333)]), None),
     SplitResult("Alarak Greycastle", "user-3", 0, 33333, -33333,
                 Some([Owe("Den Grassforest", 33333)]), None)]
  }

  /** The rows of the uneven split, once the participants, the share and the
      `debts` and `credits` objects are known. */
  lemma ThreeRowsAre(results: seq<SplitResult>, debts: map<UserId, seq<Owe>>, credits: map<UserId, seq<Owed>>)
    requires RowsOf(ThreeParticipants(), 33333, results)
    requires debts == map["user-3" := [Owe("Den Grassforest", 33333)], "user-2" := [Owe("Den Grassforest", 3333)]]
    requires credits == map["user-1" := [Owed("Alarak Greycastle", 33333), Owed("Volmund Highchanter de Felhas", 3333)]]
    requires forall i :: 0 <= i < |ThreeBalances()| ==>
      var id := ThreeBalances()[i].id;
      && results[i].owes == (if id in debts then Some(debts[id]) else None)
      && results[i].owed == (if id in credits then Some(credits[id]) else None)
    ensures results == ThreeRows()
  {
    assert "user-1"[5] != "user-2"[5] && "user-1"[5] != "user-3"[5] && "user-2"[5] != "user-3"[5];
    assert results[0] == ThreeRows()[0];
    assert results[1] == ThreeRows()[1];
    assert results[2] == ThreeRows()[2];
  }

  /** The only rows a greedy settlement of the uneven split can give. */
  lemma ThreeSettledBy(results: seq<SplitResult>, tr: seq<Transfer>)
    requires RowsOf(ThreeParticipants(), 33333, results)
    requires SettledBy(ThreeBalances(), results, tr)
    ensures results == ThreeRows()
  {
    var bs := ThreeBalances();
    ThreeGreedy();
    GreedyUnique(bs, tr, ThreeTransfers());
    ThreeSides();
    ThreeMaps();
    var debts, credits := DebtMap(Creditors(bs), Debtors(bs), tr), CreditMap(Creditors(bs), Debtors(bs), tr);
    ThreeRowsAre(results, debts, credits);
  }

  /** The test suite's uneven split, as the contract of `CalculateSplit`
      determines it: a share of 333.33; Den is owed 333.33 by Alarak and
      then 33.33 by Volmund, and stays 0.01 short of the 366.67 balance. */
  lemma UnevenSplit(s: Settlement)
    requires Settles(ThreeExpenses(), ThreeGuests(), s)
    ensures s == Settlement(ThreeParticipants(), 100000, 33333, ThreeRows())
    ensures TotalOwed(s.results[0].owed.value) == s.results[0].balance - 1
  {
    ThreeParticipantList();
    ParticipantListUnique(s.participants, ThreeParticipants(), ThreeExpenses(), ThreeGuests());
    ThreeShare();
    var bs := BalanceEntries(s.participants, s.sharePerPerson);
    assert bs == ThreeBalances();
    var tr :| SettledBy(bs, s.results, tr);
    ThreeSettledBy(s.results, tr);
    var owed := [Owed("Alarak Greycastle", 33333), Owed("Volmund Highchanter de Felhas", 3333)];
    assert owed[..1][..0] == [];
    assert TotalOwed(owed) == 36666;
  }

  /** When every debtor owes the same amount, the debtors are in
      participant order. */
  lemma EqualDebtors(bs: seq<BalanceEntry>, v: Cents)
    requires DistinctIds(bs) && v < 0
    requires forall e :: e in bs && e.balance < 0 ==> e.balance == v
    ensures Debtors(bs) == WithBalance(bs, v)
  {
    DebtorsSpec(bs);
    AllWithBalance(Debtors(bs), v);
  }

  /** Two debtors who owe the same, around a creditor (say -100.00,
      150.00 and -100.00): the stable sort keeps the debtors in participant
      order, so the first of them is settled first. */
  lemma TiedDebtors(a: BalanceEntry, c: BalanceEntry, b: BalanceEntry)
    requires a.id != c.id && a.id != b.id && c.id != b.id
    requires a.balance == b.balance < 0 < c.balance
    ensures Debtors([a, c, b]) == [a, b]
  {
    EqualDebtors([a, c, b], a.balance);
    SkipMiddle(a, c, b);
  }

  lemma SkipMiddle(a: BalanceEntry, c: BalanceEntry, b: BalanceEntry)
    requires a.balance == b.balance != c.balance
    ensures WithBalance([a, c, b], a.balance) == [a, b]
  {
    var v := a.balance;
    WithBalanceCons(a, [c, b]);
    WithBalanceCons(c, [b]);
    WithBalanceCons(b, []);
    assert [a, c, b] == [a] + [c, b] && [c, b] == [c] + [b] && [b] == [b] + [];
    assert WithBalance([b], v) == [b];
    assert WithBalance([c, b], v) == [b];
    assert WithBalance([a, c, b], v) == [a] + [b] == [a, b];
  }

  /** A list whose entries all have balance `v` is its own `WithBalance`. */
  lemma {:induction false} AllWithBalance(s: seq<BalanceEntry>, v: Cents)
    requires forall e :: e in s ==> e.balance == v
    ensures WithBalance(s, v) == s
  {
    if s != [] {
      assert s[0] in s;
      assert forall e :: e in s[1..] ==> e in s;
      AllWithBalance(s[1..], v);
      assert s == [s[0]] + s[1..];
    }
  }
}
