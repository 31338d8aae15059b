/** `calculateDebts`: who owes whom.  Creditors (positive balance) are taken
    largest first, debtors (negative balance) most negative first, and the
    current pair is settled greedily with `min(credit, |debt|)` until all
    creditors or all debtors are paid off. */
module Debts {
  import opened Money
  import opened Participants

  /** One entry of the source's `balances` object: a participant's id,
      display name and rounded balance. */
  datatype BalanceEntry = BalanceEntry(id: UserId, name: string, balance: Cents)

  /** An `owes` edge on a debtor: the creditor's display name and the amount. */
  datatype Owe = Owe(toUser: string, amount: Cents)

  /** An `owed` edge on a creditor: the debtor's display name and the amount. */
  datatype Owed = Owed(fromUser: string, amount: Cents)

  /** One step of the matching loop: positions of the creditor and the debtor
      in the sorted lists, and the amount moved between them. */
  datatype Transfer = Transfer(creditor: nat, debtor: nat, amount: Cents)

  /** The keys of a JavaScript object are distinct. */
  predicate DistinctIds(bs: seq<BalanceEntry>) {
    forall i, j :: 0 <= i < j < |bs| ==> bs[i].id != bs[j].id
  }

  /** Creditors have a positive balance, debtors a negative one. */
  predicate OnSide(e: BalanceEntry, credit: bool) {
    if credit then e.balance > 0 else e.balance < 0
  }

  /** The entries of `s` whose balance is `v`, in their order in `s`. */
  function WithBalance(s: seq<BalanceEntry>, v: Cents): seq<BalanceEntry> {
    if s == [] then []
    else (if s[0].balance == v then [s[0]] else []) + WithBalance(s[1..], v)
  }

  lemma WithBalanceCons(e: BalanceEntry, s: seq<BalanceEntry>)
    ensures forall v :: WithBalance([e] + s, v) == (if e.balance == v then [e] else []) + WithBalance(s, v)
  {
    assert ([e] + s)[1..] == s;
  }

  lemma {:induction false} WithBalanceSnoc(s: seq<BalanceEntry>, e: BalanceEntry)
    ensures forall v :: WithBalance(s + [e], v) == WithBalance(s, v) + (if e.balance == v then [e] else [])
  {
    if s == [] {
      WithBalanceCons(e, []);
      assert [e] + [] == [e];
    } else {
      WithBalanceSnoc(s[1..], e);
      assert s + [e] == [s[0]] + (s[1..] + [e]);
      WithBalanceCons(s[0], s[1..] + [e]);
      WithBalanceCons(s[0], s[1..]);
      assert s == [s[0]] + s[1..];
    }
  }

  /** The entries of one side, in their order in `bs` (the source's `filter`):
      the entries with balance `v` are those of `bs`, in the same order,
      when `v` is on that side, and there are none otherwise. */
  function Side(bs: seq<BalanceEntry>, credit: bool): (r: seq<BalanceEntry>)
    ensures forall v :: WithBalance(r, v) == if (if credit then v > 0 else v < 0) then WithBalance(bs, v) else []
  {
    if bs == [] then []
    else
      var rest := Side(bs[..|bs| - 1], credit);
      WithBalanceSnoc(bs[..|bs| - 1], bs[|bs| - 1]);
      WithBalanceSnoc(rest, bs[|bs| - 1]);
      assert bs == bs[..|bs| - 1] + [bs[|bs| - 1]];
      if OnSide(bs[|bs| - 1], credit) then rest + [bs[|bs| - 1]] else rest
  }

  lemma {:induction false} SideMembers(bs: seq<BalanceEntry>, credit: bool)
    ensures forall e :: e in Side(bs, credit) <==> e in bs && OnSide(e, credit)
  {
    if bs != [] {
      SideMembers(bs[..|bs| - 1], credit);
      assert bs == bs[..|bs| - 1] + [bs[|bs| - 1]];
    }
  }

  lemma {:induction false} SideDistinct(bs: seq<BalanceEntry>, credit: bool)
    requires DistinctIds(bs)
    ensures DistinctIds(Side(bs, credit))
  {
    if bs != [] {
      var init, e := bs[..|bs| - 1], bs[|bs| - 1];
      SideDistinct(init, credit);
      SideMembers(init, credit);
      var rest := Side(init, credit);
      forall i | 0 <= i < |rest|
        ensures rest[i].id != e.id
      {
        assert rest[i] in rest;
        assert rest[i] in init;
        var j :| 0 <= j < |init| && init[j] == rest[i];
      }
    }
  }

  /** Insert `x` before the first entry whose balance is no larger in
      magnitude, so that `x` comes first among the entries of its balance. */
  function Insert(x: BalanceEntry, s: seq<BalanceEntry>): (r: seq<BalanceEntry>)
    ensures forall v :: WithBalance(r, v) == (if x.balance == v then [x] else []) + WithBalance(s, v)
  {
    if s == [] || Abs(x.balance) >= Abs(s[0].balance) then
      WithBalanceCons(x, s);
      [x] + s
    else
      var rest := Insert(x, s[1..]);
      WithBalanceCons(s[0], rest);
      WithBalanceCons(s[0], s[1..]);
      assert s == [s[0]] + s[1..];
      [s[0]] + rest
  }

  /** A stable sort, largest balance magnitude first (the source's `sort`):
      entries with the same balance keep their order. */
  function SortLargestFirst(s: seq<BalanceEntry>): (r: seq<BalanceEntry>)
    ensures forall v :: WithBalance(r, v) == WithBalance(s, v)
  {
    if s == [] then []
    else
      WithBalanceCons(s[0], s[1..]);
      assert s == [s[0]] + s[1..];
      Insert(s[0], SortLargestFirst(s[1..]))
  }

  predicate LargestFirst(s: seq<BalanceEntry>) {
    forall i, j :: 0 <= i < j < |s| ==> Abs(s[i].balance) >= Abs(s[j].balance)
  }

  lemma {:induction false} InsertPermutes(x: BalanceEntry, s: seq<BalanceEntry>)
    ensures multiset(Insert(x, s)) == multiset(s) + multiset{x}
  {
    if s != [] && Abs(x.balance) < Abs(s[0].balance) {
      InsertPermutes(x, s[1..]);
      assert s == [s[0]] + s[1..];
    }
  }

  /** Whatever is in `Insert(x, s)` is `x` or came from `s`. */
  lemma InsertMembers(x: BalanceEntry, s: seq<BalanceEntry>)
    ensures forall e :: e in Insert(x, s) ==> e == x || e in s
  {
    InsertPermutes(x, s);
    forall e | e in Insert(x, s) ensures e == x || e in s {
      assert e in multiset(Insert(x, s));
    }
  }

  lemma {:induction false} InsertSorted(x: BalanceEntry, s: seq<BalanceEntry>)
    requires LargestFirst(s)
    ensures LargestFirst(Insert(x, s))
  {
    if s != [] && Abs(x.balance) < Abs(s[0].balance) {
      InsertSorted(x, s[1..]);
      InsertMembers(x, s[1..]);
      var r := Insert(x, s[1..]);
      forall j | 0 <= j < |r| ensures Abs(r[j].balance) <= Abs(s[0].balance) {
        assert r[j] in r;
      }
    }
  }

  lemma {:induction false} InsertDistinct(x: BalanceEntry, s: seq<BalanceEntry>)
    requires DistinctIds(s) && forall e :: e in s ==> e.id != x.id
    ensures DistinctIds(Insert(x, s))
  {
    if s != [] && Abs(x.balance) < Abs(s[0].balance) {
      InsertDistinct(x, s[1..]);
      InsertMembers(x, s[1..]);
      var r := Insert(x, s[1..]);
      forall j | 0 <= j < |r| ensures r[j].id != s[0].id {
        assert r[j] in r;
        if r[j] != x {
          var k :| 0 <= k < |s[1..]| && s[1..][k] == r[j];
          assert s[k + 1] == r[j];
        }
      }
    }
  }

  lemma {:induction false} SortPermutes(s: seq<BalanceEntry>)
    ensures multiset(SortLargestFirst(s)) == multiset(s)
  {
    if s != [] {
      SortPermutes(s[1..]);
      assert s == [s[0]] + s[1..];
      InsertPermutes(s[0], SortLargestFirst(s[1..]));
    }
  }

  lemma {:induction false} SortSorted(s: seq<BalanceEntry>)
    ensures LargestFirst(SortLargestFirst(s))
  {
    if s != [] {
      SortSorted(s[1..]);
      InsertSorted(s[0], SortLargestFirst(s[1..]));
    }
  }

  lemma {:induction false} SortDistinct(s: seq<BalanceEntry>)
    requires DistinctIds(s)
    ensures DistinctIds(SortLargestFirst(s))
  {
    if s != [] {
      SortDistinct(s[1..]);
      SortPermutes(s[1..]);
      var r := SortLargestFirst(s[1..]);
      forall e | e in r ensures e.id != s[0].id {
        assert e in multiset(r);
        var k :| 0 <= k < |s[1..]| && s[1..][k] == e;
        assert s[k + 1] == e;
      }
      InsertDistinct(s[0], r);
    }
  }

  /** The stable sort is a permutation, puts the largest balance magnitude
      first, and keeps ids distinct. */
  lemma SortSpec(s: seq<BalanceEntry>)
    ensures multiset(SortLargestFirst(s)) == multiset(s)
    ensures LargestFirst(SortLargestFirst(s))
    ensures DistinctIds(s) ==> DistinctIds(SortLargestFirst(s))
  {
    SortPermutes(s);
    SortSorted(s);
    if DistinctIds(s) {
      SortDistinct(s);
    }
  }

  /** The creditors, largest balance first; creditors with the same
      balance stay in their order in `bs`. */
  function Creditors(bs: seq<BalanceEntry>): (r: seq<BalanceEntry>)
    ensures forall v :: WithBalance(r, v) == if v > 0 then WithBalance(bs, v) else []
  {
    SortLargestFirst(Side(bs, true))
  }

  /** The debtors, most negative balance first; debtors with the same
      balance stay in their order in `bs`. */
  function Debtors(bs: seq<BalanceEntry>): (r: seq<BalanceEntry>)
    ensures forall v :: WithBalance(r, v) == if v < 0 then WithBalance(bs, v) else []
  {
    SortLargestFirst(Side(bs, false))
  }

  /** The creditors are exactly the positive entries, each once, ordered by
      decreasing balance. */
  lemma CreditorsSpec(bs: seq<BalanceEntry>)
    requires DistinctIds(bs)
    ensures forall e :: e in Creditors(bs) <==> e in bs && e.balance > 0
    ensures forall i, j :: 0 <= i < j < |Creditors(bs)| ==> Creditors(bs)[i].balance >= Creditors(bs)[j].balance
    ensures DistinctIds(Creditors(bs))
  {
    SideMembers(bs, true);
    SideDistinct(bs, true);
    SortSpec(Side(bs, true));
    var cs := Creditors(bs);
    forall e ensures e in cs <==> e in Side(bs, true) {
      assert e in cs <==> e in multiset(cs);
    }
  }

  /** The debtors are exactly the negative entries, each once, ordered by
      increasing (most negative first) balance. */
  lemma DebtorsSpec(bs: seq<BalanceEntry>)
    requires DistinctIds(bs)
    ensures forall e :: e in Debtors(bs) <==> e in bs && e.balance < 0
    ensures forall i, j :: 0 <= i < j < |Debtors(bs)| ==> Debtors(bs)[i].balance <= Debtors(bs)[j].balance
    ensures DistinctIds(Debtors(bs))
  {
    SideMembers(bs, false);
    SideDistinct(bs, false);
    SortSpec(Side(bs, false));
    var ds := Debtors(bs);
    forall e ensures e in ds <==> e in Side(bs, false) {
      assert e in ds <==> e in multiset(ds);
    }
  }

  /** Every transfer names a creditor and a debtor that exist. */
  predicate Within(tr: seq<Transfer>, creditors: nat, debtors: nat) {
    forall i :: 0 <= i < |tr| ==> tr[i].creditor < creditors && tr[i].debtor < debtors
  }

  /** What the creditor at position `k` has received so far. */
  function ReceivedAt(tr: seq<Transfer>, k: nat): Cents {
    if tr == [] then 0
    else ReceivedAt(tr[..|tr| - 1], k) + (if tr[|tr| - 1].creditor == k then tr[|tr| - 1].amount else 0)
  }

  /** What the debtor at position `k` has paid so far. */
  function PaidAt(tr: seq<Transfer>, k: nat): Cents {
    if tr == [] then 0
    else PaidAt(tr[..|tr| - 1], k) + (if tr[|tr| - 1].debtor == k then tr[|tr| - 1].amount else 0)
  }

  /** The `owes` edges of the debtor at position `k`, in order. */
  function OwesAt(tr: seq<Transfer>, creditors: seq<BalanceEntry>, k: nat): seq<Owe>
    requires forall i :: 0 <= i < |tr| ==> tr[i].creditor < |creditors|
  {
    if tr == [] then []
    else
      var t := tr[|tr| - 1];
      OwesAt(tr[..|tr| - 1], creditors, k) + (if t.debtor == k then [Owe(creditors[t.creditor].name, t.amount)] else [])
  }

  /** The `owed` edges of the creditor at position `k`, in order. */
  function OwedAt(tr: seq<Transfer>, debtors: seq<BalanceEntry>, k: nat): seq<Owed>
    requires forall i :: 0 <= i < |tr| ==> tr[i].debtor < |debtors|
  {
    if tr == [] then []
    else
      var t := tr[|tr| - 1];
      OwedAt(tr[..|tr| - 1], debtors, k) + (if t.creditor == k then [Owed(debtors[t.debtor].name, t.amount)] else [])
  }

  function TotalOwes(os: seq<Owe>): Cents {
    if os == [] then 0 else TotalOwes(os[..|os| - 1]) + os[|os| - 1].amount
  }

  function TotalOwed(os: seq<Owed>): Cents {
    if os == [] then 0 else TotalOwed(os[..|os| - 1]) + os[|os| - 1].amount
  }

  /** Every transfer moves a positive amount. */
  predicate Positive(tr: seq<Transfer>) {
    forall i :: 0 <= i < |tr| ==> tr[i].amount > 0
  }

  lemma LogSnoc(tr: seq<Transfer>, t: Transfer)
    ensures (tr + [t])[..|tr|] == tr
    ensures forall k: nat :: ReceivedAt(tr + [t], k) == ReceivedAt(tr, k) + (if t.creditor == k then t.amount else 0)
    ensures forall k: nat :: PaidAt(tr + [t], k) == PaidAt(tr, k) + (if t.debtor == k then t.amount else 0)
  {
    assert (tr + [t])[..|tr|] == tr;
  }

  /** A debtor's `owes` edges add up to what they paid, are all positive,
      and exist exactly when they paid something. */
  lemma {:induction false} OwesAtSums(tr: seq<Transfer>, cs: seq<BalanceEntry>, k: nat)
    requires forall i :: 0 <= i < |tr| ==> tr[i].creditor < |cs|
    requires Positive(tr)
    ensures TotalOwes(OwesAt(tr, cs, k)) == PaidAt(tr, k) >= 0
    ensures forall j :: 0 <= j < |OwesAt(tr, cs, k)| ==> OwesAt(tr, cs, k)[j].amount > 0
    ensures OwesAt(tr, cs, k) == [] <==> PaidAt(tr, k) == 0
  {
    if tr != [] {
      var init, t := tr[..|tr| - 1], tr[|tr| - 1];
      OwesAtSums(init, cs, k);
      var o := OwesAt(init, cs, k);
      assert t.amount > 0;
      if t.debtor == k {
        var e := Owe(cs[t.creditor].name, t.amount);
        assert (o + [e])[..|o|] == o;
        assert TotalOwes(o + [e]) == TotalOwes(o) + t.amount;
        assert OwesAt(tr, cs, k) == o + [e];
        assert PaidAt(tr, k) == PaidAt(init, k) + t.amount;
      } else {
        assert OwesAt(tr, cs, k) == o;
        assert PaidAt(tr, k) == PaidAt(init, k);
      }
    }
  }

  /** A creditor's `owed` edges add up to what they received, are all
      positive, and exist exactly when they received something. */
  lemma {:induction false} OwedAtSums(tr: seq<Transfer>, ds: seq<BalanceEntry>, k: nat)
    requires forall i :: 0 <= i < |tr| ==> tr[i].debtor < |ds|
    requires Positive(tr)
    ensures TotalOwed(OwedAt(tr, ds, k)) == ReceivedAt(tr, k) >= 0
    ensures forall j :: 0 <= j < |OwedAt(tr, ds, k)| ==> OwedAt(tr, ds, k)[j].amount > 0
    ensures OwedAt(tr, ds, k) == [] <==> ReceivedAt(tr, k) == 0
  {
    if tr != [] {
      var init, t := tr[..|tr| - 1], tr[|tr| - 1];
      OwedAtSums(init, ds, k);
      var o := OwedAt(init, ds, k);
      assert t.amount > 0;
      if t.creditor == k {
        var e := Owed(ds[t.debtor].name, t.amount);
        assert (o + [e])[..|o|] == o;
        assert TotalOwed(o + [e]) == TotalOwed(o) + t.amount;
        assert OwedAt(tr, ds, k) == o + [e];
        assert ReceivedAt(tr, k) == ReceivedAt(init, k) + t.amount;
      } else {
        assert OwedAt(tr, ds, k) == o;
        assert ReceivedAt(tr, k) == ReceivedAt(init, k);
      }
    }
  }

  /** The loop's working state: `credit` and `debt` hold the remaining
      balances of the sorted creditors and debtors (those of the source's
      deep copy), which are the starting balances less what the log has
      moved; every entry before a cursor is settled and every entry from it
      on is still open. */
  ghost predicate Remaining(cs: seq<BalanceEntry>, ds: seq<BalanceEntry>, credit: seq<Cents>, debt: seq<Cents>,
                            ci: nat, di: nat, tr: seq<Transfer>)
  {
    ci <= |cs| && di <= |ds| && |credit| == |cs| && |debt| == |ds| &&
    Within(tr, |cs|, |ds|) &&
    (forall i :: 0 <= i < |tr| ==> tr[i].creditor <= ci && tr[i].debtor <= di) &&
    (forall k :: 0 <= k < |cs| ==> credit[k] == cs[k].balance - ReceivedAt(tr, k)) &&
    (forall k :: 0 <= k < |ds| ==> debt[k] == ds[k].balance + PaidAt(tr, k)) &&
    (forall k :: 0 <= k < |cs| ==> (credit[k] == 0 <==> k < ci) && credit[k] >= 0) &&
    (forall k :: 0 <= k < |ds| ==> (debt[k] == 0 <==> k < di) && debt[k] <= 0)
  }

  /** The cursors only move forward: later transfers never return to an
      earlier creditor or debtor. */
  predicate Ordered(tr: seq<Transfer>) {
    forall i, j :: 0 <= i < j < |tr| ==> tr[i].creditor <= tr[j].creditor && tr[i].debtor <= tr[j].debtor
  }

  /** `t` moves `min(credit, |debt|)` of what its pair still has open after
      the transfers `done`. */
  ghost predicate GreedyStep(cs: seq<BalanceEntry>, ds: seq<BalanceEntry>, done: seq<Transfer>, t: Transfer)
  {
    t.creditor < |cs| && t.debtor < |ds| &&
    t.amount == Min(cs[t.creditor].balance - ReceivedAt(done, t.creditor),
                    -ds[t.debtor].balance - PaidAt(done, t.debtor))
  }

  /** Each transfer of the log is the greedy one given the ones before it. */
  ghost predicate Greedy(cs: seq<BalanceEntry>, ds: seq<BalanceEntry>, tr: seq<Transfer>)
  {
    forall i {:trigger GreedyStep(cs, ds, tr[..i], tr[i])} :: 0 <= i < |tr| ==> GreedyStep(cs, ds, tr[..i], tr[i])
  }

  /** `debts` holds exactly the `owes` edges the log describes, keyed by
      the ids of the debtors involved. */
  ghost predicate DebtRecords(cs: seq<BalanceEntry>, ds: seq<BalanceEntry>, tr: seq<Transfer>,
                              debts: map<UserId, seq<Owe>>)
  {
    Within(tr, |cs|, |ds|) &&
    (forall k :: 0 <= k < |ds| ==> (ds[k].id in debts <==> OwesAt(tr, cs, k) != [])) &&
    (forall k :: 0 <= k < |ds| && ds[k].id in debts ==> debts[ds[k].id] == OwesAt(tr, cs, k)) &&
    (forall id :: id in debts ==> exists k :: 0 <= k < |ds| && ds[k].id == id)
  }

  /** `credits` holds exactly the `owed` edges the log describes, keyed by
      the ids of the creditors involved. */
  ghost predicate CreditRecords(cs: seq<BalanceEntry>, ds: seq<BalanceEntry>, tr: seq<Transfer>,
                                credits: map<UserId, seq<Owed>>)
  {
    Within(tr, |cs|, |ds|) &&
    (forall k :: 0 <= k < |cs| ==> (cs[k].id in credits <==> OwedAt(tr, ds, k) != [])) &&
    (forall k :: 0 <= k < |cs| && cs[k].id in credits ==> credits[cs[k].id] == OwedAt(tr, ds, k)) &&
    (forall id :: id in credits ==> exists k :: 0 <= k < |cs| && cs[k].id == id)
  }

  lemma OwesSnoc(cs: seq<BalanceEntry>, tr: seq<Transfer>, t: Transfer, k: nat)
    requires forall i :: 0 <= i < |tr| ==> tr[i].creditor < |cs|
    requires t.creditor < |cs|
    ensures forall i :: 0 <= i < |tr + [t]| ==> (tr + [t])[i].creditor < |cs|
    ensures OwesAt(tr + [t], cs, k) == OwesAt(tr, cs, k) + (if t.debtor == k then [Owe(cs[t.creditor].name, t.amount)] else [])
  {
    assert (tr + [t])[..|tr|] == tr;
  }

  lemma OwedSnoc(ds: seq<BalanceEntry>, tr: seq<Transfer>, t: Transfer, k: nat)
    requires forall i :: 0 <= i < |tr| ==> tr[i].debtor < |ds|
    requires t.debtor < |ds|
    ensures forall i :: 0 <= i < |tr + [t]| ==> (tr + [t])[i].debtor < |ds|
    ensures OwedAt(tr + [t], ds, k) == OwedAt(tr, ds, k) + (if t.creditor == k then [Owed(ds[t.debtor].name, t.amount)] else [])
  {
    assert (tr + [t])[..|tr|] == tr;
  }

  /** One step of the loop keeps `debts` in line with the log. */
  lemma StepDebts(cs: seq<BalanceEntry>, ds: seq<BalanceEntry>, tr: seq<Transfer>,
                  debts: map<UserId, seq<Owe>>, ci: nat, di: nat, amount: Cents)
    requires DebtRecords(cs, ds, tr, debts) && DistinctIds(ds)
    requires ci < |cs| && di < |ds|
    ensures DebtRecords(cs, ds, tr + [Transfer(ci, di, amount)],
                        debts[ds[di].id := (if ds[di].id in debts then debts[ds[di].id] else []) + [Owe(cs[ci].name, amount)]])
  {
    var t := Transfer(ci, di, amount);
    var tr' := tr + [t];
    assert Within(tr', |cs|, |ds|);
    var did := ds[di].id;
    var debts' := debts[did := (if did in debts then debts[did] else []) + [Owe(cs[ci].name, amount)]];
    forall k | 0 <= k < |ds|
      ensures (ds[k].id in debts' <==> OwesAt(tr', cs, k) != [])
      ensures ds[k].id in debts' ==> debts'[ds[k].id] == OwesAt(tr', cs, k)
    {
      OwesSnoc(cs, tr, t, k);
      if k != di {
        assert ds[k].id != did;
      }
    }
  }

  /** One step of the loop keeps `credits` in line with the log. */
  lemma StepCredits(cs: seq<BalanceEntry>, ds: seq<BalanceEntry>, tr: seq<Transfer>,
                    credits: map<UserId, seq<Owed>>, ci: nat, di: nat, amount: Cents)
    requires CreditRecords(cs, ds, tr, credits) && DistinctIds(cs)
    requires ci < |cs| && di < |ds|
    ensures CreditRecords(cs, ds, tr + [Transfer(ci, di, amount)],
                          credits[cs[ci].id := (if cs[ci].id in credits then credits[cs[ci].id] else []) + [Owed(ds[di].name, amount)]])
  {
    var t := Transfer(ci, di, amount);
    var tr' := tr + [t];
    assert Within(tr', |cs|, |ds|);
    var cid := cs[ci].id;
    var credits' := credits[cid := (if cid in credits then credits[cid] else []) + [Owed(ds[di].name, amount)]];
    forall k | 0 <= k < |cs|
      ensures (cs[k].id in credits' <==> OwedAt(tr', ds, k) != [])
      ensures cs[k].id in credits' ==> credits'[cs[k].id] == OwedAt(tr', ds, k)
    {
      OwedSnoc(ds, tr, t, k);
      if k != ci {
        assert cs[k].id != cid;
      }
    }
  }

  /** One step of the loop moves `min(credit, |debt|)` between the current
      pair, settles at least one of them, and keeps the remaining balances
      in line with the log. */
  lemma StepRemaining(cs: seq<BalanceEntry>, ds: seq<BalanceEntry>, credit: seq<Cents>, debt: seq<Cents>,
                      ci: nat, di: nat, tr: seq<Transfer>)
    requires Remaining(cs, ds, credit, debt, ci, di, tr) && ci < |cs| && di < |ds|
    ensures var amount := Min(credit[ci], Abs(debt[di]));
      && amount > 0
      && (credit[ci] - amount == 0 || debt[di] + amount == 0)
      && GreedyStep(cs, ds, tr, Transfer(ci, di, amount))
      && Remaining(cs, ds, credit[ci := credit[ci] - amount], debt[di := debt[di] + amount],
                   if credit[ci] - amount == 0 then ci + 1 else ci,
                   if debt[di] + amount == 0 then di + 1 else di,
                   tr + [Transfer(ci, di, amount)])
  {
    LogSnoc(tr, Transfer(ci, di, Min(credit[ci], Abs(debt[di]))));
  }

  /** The step's transfer is positive and comes no earlier than any before it. */
  lemma StepOrdered(tr: seq<Transfer>, ci: nat, di: nat, amount: Cents)
    requires Positive(tr) && Ordered(tr) && forall i :: 0 <= i < |tr| ==> tr[i].creditor <= ci && tr[i].debtor <= di
    requires amount > 0
    ensures Positive(tr + [Transfer(ci, di, amount)]) && Ordered(tr + [Transfer(ci, di, amount)])
  {
  }

  /** A transfer of what its pair still has open extends a greedy log. */
  lemma StepGreedy(cs: seq<BalanceEntry>, ds: seq<BalanceEntry>, tr: seq<Transfer>, ci: nat, di: nat, amount: Cents)
    requires Greedy(cs, ds, tr) && GreedyStep(cs, ds, tr, Transfer(ci, di, amount))
    ensures Greedy(cs, ds, tr + [Transfer(ci, di, amount)])
  {
    var tr' := tr + [Transfer(ci, di, amount)];
    forall i | 0 <= i < |tr'| ensures GreedyStep(cs, ds, tr'[..i], tr'[i]) {
      if i < |tr| {
        assert tr'[i] == tr[i];
        assert tr'[..i] == tr[..i];
      } else {
        assert tr'[..i] == tr;
      }
    }
  }

  function Amounts(bs: seq<BalanceEntry>): (r: seq<Cents>)
    ensures |r| == |bs| && forall k :: 0 <= k < |bs| ==> r[k] == bs[k].balance
  {
    seq(|bs|, k requires 0 <= k < |bs| => bs[k].balance)
  }

  /** Before the loop nothing has moved and every creditor and debtor is open. */
  lemma StartRemaining(bs: seq<BalanceEntry>)
    requires DistinctIds(bs)
    ensures Remaining(Creditors(bs), Debtors(bs), Amounts(Creditors(bs)), Amounts(Debtors(bs)), 0, 0, [])
  {
    CreditorsSpec(bs);
    DebtorsSpec(bs);
    var cs, ds := Creditors(bs), Debtors(bs);
    forall k | 0 <= k < |cs| ensures cs[k].balance > 0 {
      assert cs[k] in cs;
    }
    forall k | 0 <= k < |ds| ensures ds[k].balance < 0 {
      assert ds[k] in ds;
    }
  }

  /** Once one cursor has run off its list, nobody received or paid more than
      their balance, everyone before a cursor that a transfer reached is
      settled, and one whole side is settled. */
  lemma FinishRemaining(cs: seq<BalanceEntry>, ds: seq<BalanceEntry>, credit: seq<Cents>, debt: seq<Cents>,
                        ci: nat, di: nat, tr: seq<Transfer>)
    requires Remaining(cs, ds, credit, debt, ci, di, tr) && (ci == |cs| || di == |ds|)
    ensures forall k :: 0 <= k < |cs| ==> ReceivedAt(tr, k) <= cs[k].balance
    ensures forall k :: 0 <= k < |ds| ==> PaidAt(tr, k) <= -ds[k].balance
    ensures forall i, k :: 0 <= i < |tr| && 0 <= k < tr[i].creditor ==> ReceivedAt(tr, k) == cs[k].balance
    ensures forall i, k :: 0 <= i < |tr| && 0 <= k < tr[i].debtor ==> PaidAt(tr, k) == -ds[k].balance
    ensures (forall k :: 0 <= k < |cs| ==> ReceivedAt(tr, k) == cs[k].balance)
         || (forall k :: 0 <= k < |ds| ==> PaidAt(tr, k) == -ds[k].balance)
  {
  }

  /** The `debts` object the loop builds from the log: each transfer appends
      an `owes` edge to its debtor's list, creating the list on first use. */
  function DebtMap(cs: seq<BalanceEntry>, ds: seq<BalanceEntry>, tr: seq<Transfer>): map<UserId, seq<Owe>>
    requires Within(tr, |cs|, |ds|)
  {
    if tr == [] then map[]
    else
      var m := DebtMap(cs, ds, tr[..|tr| - 1]);
      var t := tr[|tr| - 1];
      var id := ds[t.debtor].id;
      m[id := (if id in m then m[id] else []) + [Owe(cs[t.creditor].name, t.amount)]]
  }

  /** The `credits` object the loop builds from the log: each transfer
      appends an `owed` edge to its creditor's list. */
  function CreditMap(cs: seq<BalanceEntry>, ds: seq<BalanceEntry>, tr: seq<Transfer>): map<UserId, seq<Owed>>
    requires Within(tr, |cs|, |ds|)
  {
    if tr == [] then map[]
    else
      var m := CreditMap(cs, ds, tr[..|tr| - 1]);
      var t := tr[|tr| - 1];
      var id := cs[t.creditor].id;
      m[id := (if id in m then m[id] else []) + [Owed(ds[t.debtor].name, t.amount)]]
  }

  /** Keyed by distinct debtor ids, the `debts` object holds for each debtor
      exactly their `owes` edges, and only debtors who paid something appear. */
  lemma {:induction false} DebtMapRecords(cs: seq<BalanceEntry>, ds: seq<BalanceEntry>, tr: seq<Transfer>)
    requires Within(tr, |cs|, |ds|) && DistinctIds(ds)
    ensures DebtRecords(cs, ds, tr, DebtMap(cs, ds, tr))
  {
    if tr != [] {
      var init, t := tr[..|tr| - 1], tr[|tr| - 1];
      assert tr == init + [t];
      DebtMapRecords(cs, ds, init);
      StepDebts(cs, ds, init, DebtMap(cs, ds, init), t.creditor, t.debtor, t.amount);
    }
  }

  /** Keyed by distinct creditor ids, the `credits` object holds for each
      creditor exactly their `owed` edges. */
  lemma {:induction false} CreditMapRecords(cs: seq<BalanceEntry>, ds: seq<BalanceEntry>, tr: seq<Transfer>)
    requires Within(tr, |cs|, |ds|) && DistinctIds(cs)
    ensures CreditRecords(cs, ds, tr, CreditMap(cs, ds, tr))
  {
    if tr != [] {
      var init, t := tr[..|tr| - 1], tr[|tr| - 1];
      assert tr == init + [t];
      CreditMapRecords(cs, ds, init);
      StepCredits(cs, ds, init, CreditMap(cs, ds, init), t.creditor, t.debtor, t.amount);
    }
  }

  lemma MapsSnoc(cs: seq<BalanceEntry>, ds: seq<BalanceEntry>, tr: seq<Transfer>, ci: nat, di: nat, amount: Cents)
    requires Within(tr, |cs|, |ds|) && ci < |cs| && di < |ds|
    ensures Within(tr + [Transfer(ci, di, amount)], |cs|, |ds|)
    ensures var m := DebtMap(cs, ds, tr);
      DebtMap(cs, ds, tr + [Transfer(ci, di, amount)])
        == m[ds[di].id := (if ds[di].id in m then m[ds[di].id] else []) + [Owe(cs[ci].name, amount)]]
    ensures var m := CreditMap(cs, ds, tr);
      CreditMap(cs, ds, tr + [Transfer(ci, di, amount)])
        == m[cs[ci].id := (if cs[ci].id in m then m[cs[ci].id] else []) + [Owed(ds[di].name, amount)]]
  {
    assert (tr + [Transfer(ci, di, amount)])[..|tr|] == tr;
  }

  /** Everything the matching loop keeps true. */
  ghost predicate LoopInvariant(cs: seq<BalanceEntry>, ds: seq<BalanceEntry>, credit: seq<Cents>, debt: seq<Cents>,
                                ci: nat, di: nat, tr: seq<Transfer>,
                                debts: map<UserId, seq<Owe>>, credits: map<UserId, seq<Owed>>)
  {
    Remaining(cs, ds, credit, debt, ci, di, tr) && Positive(tr) && Ordered(tr) && Greedy(cs, ds, tr) &&
    debts == DebtMap(cs, ds, tr) && credits == CreditMap(cs, ds, tr)
  }

  /** One pass of the loop body: record the transfer on both sides, move it
      out of both remaining balances, and step past whoever is settled. The
      primed parameters are the state after the pass. */
  lemma Step(cs: seq<BalanceEntry>, ds: seq<BalanceEntry>, credit: seq<Cents>, debt: seq<Cents>,
             ci: nat, di: nat, tr: seq<Transfer>,
             debts: map<UserId, seq<Owe>>, credits: map<UserId, seq<Owed>>,
             credit': seq<Cents>, debt': seq<Cents>, ci': nat, di': nat, tr': seq<Transfer>,
             debts': map<UserId, seq<Owe>>, credits': map<UserId, seq<Owed>>)
    requires LoopInvariant(cs, ds, credit, debt, ci, di, tr, debts, credits)
    requires ci < |cs| && di < |ds|
    requires var amount := Min(credit[ci], Abs(debt[di]));
      && credit' == credit[ci := credit[ci] - amount]
      && debt' == debt[di := debt[di] + amount]
      && ci' == (if credit'[ci] == 0 then ci + 1 else ci)
      && di' == (if debt'[di] == 0 then di + 1 else di)
      && tr' == tr + [Transfer(ci, di, amount)]
      && debts' == debts[ds[di].id := (if ds[di].id in debts then debts[ds[di].id] else []) + [Owe(cs[ci].name, amount)]]
      && credits' == credits[cs[ci].id := (if cs[ci].id in credits then credits[cs[ci].id] else []) + [Owed(ds[di].name, amount)]]
    ensures ci' + di' > ci + di
    ensures LoopInvariant(cs, ds, credit', debt', ci', di', tr', debts', credits')
  {
    var amount := Min(credit[ci], Abs(debt[di]));
    StepRemaining(cs, ds, credit, debt, ci, di, tr);
    MapsSnoc(cs, ds, tr, ci, di, amount);
    StepOrdered(tr, ci, di, amount);
    StepGreedy(cs, ds, tr, ci, di, amount);
  }

  /** What `debts` says about the balance entries: every key is an entry's
      id, only debtors owe, each owes something and no more than their debt,
      and every edge is positive. */
  predicate DebtsWithin(bs: seq<BalanceEntry>, debts: map<UserId, seq<Owe>>) {
    && (forall id :: id in debts ==> exists i :: 0 <= i < |bs| && bs[i].id == id)
    && (forall i :: 0 <= i < |bs| && bs[i].id in debts ==>
          bs[i].balance < 0 && 0 < TotalOwes(debts[bs[i].id]) <= -bs[i].balance)
    && (forall id, j :: id in debts && 0 <= j < |debts[id]| ==> debts[id][j].amount > 0)
  }

  /** What `credits` says about the balance entries: every key is an entry's
      id, only creditors are owed, each something and no more than their
      credit, and every edge is positive. */
  predicate CreditsWithin(bs: seq<BalanceEntry>, credits: map<UserId, seq<Owed>>) {
    && (forall id :: id in credits ==> exists i :: 0 <= i < |bs| && bs[i].id == id)
    && (forall i :: 0 <= i < |bs| && bs[i].id in credits ==>
          bs[i].balance > 0 && 0 < TotalOwed(credits[bs[i].id]) <= bs[i].balance)
    && (forall id, j :: id in credits && 0 <= j < |credits[id]| ==> credits[id][j].amount > 0)
  }

  /** Every debtor's edges add up to their whole debt. */
  predicate DebtorsPaid(bs: seq<BalanceEntry>, debts: map<UserId, seq<Owe>>) {
    forall i :: 0 <= i < |bs| && bs[i].balance < 0 ==> bs[i].id in debts && TotalOwes(debts[bs[i].id]) == -bs[i].balance
  }

  /** Every creditor's edges add up to their whole credit. */
  predicate CreditorsPaid(bs: seq<BalanceEntry>, credits: map<UserId, seq<Owed>>) {
    forall i :: 0 <= i < |bs| && bs[i].balance > 0 ==> bs[i].id in credits && TotalOwed(credits[bs[i].id]) == bs[i].balance
  }

  /** The transfers settle `bs` the way the source's loop does: they are
      positive, name existing creditors and debtors in sorted order, each
      is greedy, nobody receives or pays more than their balance, everyone
      the cursors moved past is settled, and the loop stops only when one
      whole side is settled. */
  ghost predicate GreedySettlement(bs: seq<BalanceEntry>, tr: seq<Transfer>) {
    var cs, ds := Creditors(bs), Debtors(bs);
    && Within(tr, |cs|, |ds|) && Positive(tr) && Ordered(tr) && Greedy(cs, ds, tr)
    && (forall k :: 0 <= k < |cs| ==> ReceivedAt(tr, k) <= cs[k].balance)
    && (forall k :: 0 <= k < |ds| ==> PaidAt(tr, k) <= -ds[k].balance)
    && (forall i, k :: 0 <= i < |tr| && 0 <= k < tr[i].creditor ==> ReceivedAt(tr, k) == cs[k].balance)
    && (forall i, k :: 0 <= i < |tr| && 0 <= k < tr[i].debtor ==> PaidAt(tr, k) == -ds[k].balance)
    && ((forall k :: 0 <= k < |cs| ==> ReceivedAt(tr, k) == cs[k].balance)
        || (forall k :: 0 <= k < |ds| ==> PaidAt(tr, k) == -ds[k].balance))
  }

  /** Settles the balances greedily, as the source's `calculateDebts` does:
      `debts` and `credits` are the objects built from a greedy settlement.
      `transfers` is the log of the loop's steps, kept for the proof. */
  method CalculateDebts(balances: seq<BalanceEntry>)
    returns (debts: map<UserId, seq<Owe>>, credits: map<UserId, seq<Owed>>, ghost transfers: seq<Transfer>)
    requires DistinctIds(balances)
    ensures GreedySettlement(balances, transfers)
    ensures debts == DebtMap(Creditors(balances), Debtors(balances), transfers)
    ensures credits == CreditMap(Creditors(balances), Debtors(balances), transfers)
    ensures DebtsWithin(balances, debts) && CreditsWithin(balances, credits)
    ensures CreditorsPaid(balances, credits) || DebtorsPaid(balances, debts)
    ensures CreditorsPaid(balances, credits) && DebtorsPaid(balances, debts) <==> BalanceTotal(balances) == 0
  {
    var creditors := Creditors(balances);
    var debtors := Debtors(balances);
    StartRemaining(balances);
    var credit := Amounts(creditors);
    var debt := Amounts(debtors);
    var ci, di := 0, 0;
    debts, credits, transfers := map[], map[], [];
    while ci < |creditors| && di < |debtors|
      invariant LoopInvariant(creditors, debtors, credit, debt, ci, di, transfers, debts, credits)
      decreases |creditors| - ci + |debtors| - di
    {
      ghost var credit0, debt0, ci0, di0, transfers0, debts0, credits0 := credit, debt, ci, di, transfers, debts, credits;
      var creditor, debtor := creditors[ci], debtors[di];
      var amount := Min(credit[ci], Abs(debt[di]));
      var rounded := RoundHalfUp(amount, 1);
      RoundWholeCents(amount);
      var owes := if debtor.id in debts then debts[debtor.id] else [];
      debts := debts[debtor.id := owes + [Owe(creditor.name, rounded)]];
      var owed := if creditor.id in credits then credits[creditor.id] else [];
      credits := credits[creditor.id := owed + [Owed(debtor.name, rounded)]];
      transfers := transfers + [Transfer(ci, di, amount)];
      credit := credit[ci := credit[ci] - amount];
      debt := debt[di := debt[di] + amount];
      // the source's `< 0.01` on a remainder that is never negative
      if credit[ci] == 0 { ci := ci + 1; }
      if debt[di] == 0 { di := di + 1; }
      Step(creditors, debtors, credit0, debt0, ci0, di0, transfers0, debts0, credits0,
           credit, debt, ci, di, transfers, debts, credits);
    }
    Conclude(balances, credit, debt, ci, di, transfers, debts, credits);
    SettlementEntries(balances, transfers);
  }

  /** When the loop stops, its log is a greedy settlement. */
  lemma Conclude(bs: seq<BalanceEntry>, credit: seq<Cents>, debt: seq<Cents>, ci: nat, di: nat, tr: seq<Transfer>,
                 debts: map<UserId, seq<Owe>>, credits: map<UserId, seq<Owed>>)
    requires LoopInvariant(Creditors(bs), Debtors(bs), credit, debt, ci, di, tr, debts, credits)
    requires !(ci < |Creditors(bs)| && di < |Debtors(bs)|)
    ensures GreedySettlement(bs, tr)
  {
    FinishRemaining(Creditors(bs), Debtors(bs), credit, debt, ci, di, tr);
  }

  /** What a greedy settlement's `debts` and `credits` objects say about the
      balance entries: they keep within the balances, they pay one whole
      side, and they pay both sides exactly when the balances add up to zero. */
  lemma SettlementEntries(bs: seq<BalanceEntry>, tr: seq<Transfer>)
    requires DistinctIds(bs) && GreedySettlement(bs, tr)
    ensures var debts, credits := DebtMap(Creditors(bs), Debtors(bs), tr), CreditMap(Creditors(bs), Debtors(bs), tr);
      && DebtsWithin(bs, debts) && CreditsWithin(bs, credits)
      && (CreditorsPaid(bs, credits) || DebtorsPaid(bs, debts))
      && (CreditorsPaid(bs, credits) && DebtorsPaid(bs, debts) <==> BalanceTotal(bs) == 0)
  {
    var debts, credits := DebtMap(Creditors(bs), Debtors(bs), tr), CreditMap(Creditors(bs), Debtors(bs), tr);
    LiftDebts(bs, tr);
    LiftCredits(bs, tr);
    EveryoneSettled(bs, tr);
    if forall k :: 0 <= k < |Creditors(bs)| ==> ReceivedAt(tr, k) == Creditors(bs)[k].balance {
      CreditorsPaidInFull(bs, tr);
    }
    if forall k :: 0 <= k < |Debtors(bs)| ==> PaidAt(tr, k) == -Debtors(bs)[k].balance {
      DebtorsPaidInFull(bs, tr);
    }
    if CreditorsPaid(bs, credits) && DebtorsPaid(bs, debts) {
      CreditorsPaidBack(bs, tr);
      DebtorsPaidBack(bs, tr);
    }
  }

  /** The converse of `DebtorsPaidInFull`: when every entry with a negative
      balance owes exactly that, every sorted debtor has paid in full. */
  lemma DebtorsPaidBack(bs: seq<BalanceEntry>, tr: seq<Transfer>)
    requires DistinctIds(bs) && Within(tr, |Creditors(bs)|, |Debtors(bs)|) && Positive(tr)
    requires DebtorsPaid(bs, DebtMap(Creditors(bs), Debtors(bs), tr))
    ensures forall k :: 0 <= k < |Debtors(bs)| ==> PaidAt(tr, k) == -Debtors(bs)[k].balance
  {
    var cs, ds := Creditors(bs), Debtors(bs);
    DebtorsSpec(bs);
    DebtMapRecords(cs, ds, tr);
    forall k | 0 <= k < |ds| ensures PaidAt(tr, k) == -ds[k].balance {
      assert ds[k] in ds;
      var i :| 0 <= i < |bs| && bs[i] == ds[k];
      OwesAtSums(tr, cs, k);
    }
  }

  /** The converse of `CreditorsPaidInFull`. */
  lemma CreditorsPaidBack(bs: seq<BalanceEntry>, tr: seq<Transfer>)
    requires DistinctIds(bs) && Within(tr, |Creditors(bs)|, |Debtors(bs)|) && Positive(tr)
    requires CreditorsPaid(bs, CreditMap(Creditors(bs), Debtors(bs), tr))
    ensures forall k :: 0 <= k < |Creditors(bs)| ==> ReceivedAt(tr, k) == Creditors(bs)[k].balance
  {
    var cs, ds := Creditors(bs), Debtors(bs);
    CreditorsSpec(bs);
    CreditMapRecords(cs, ds, tr);
    forall k | 0 <= k < |cs| ensures ReceivedAt(tr, k) == cs[k].balance {
      assert cs[k] in cs;
      var i :| 0 <= i < |bs| && bs[i] == cs[k];
      OwedAtSums(tr, ds, k);
    }
  }

  /** Each debtor sits at one position of the sorted list: the entry of `bs`
      with id `id` is the debtor at some position `k`. */
  lemma DebtorAt(bs: seq<BalanceEntry>, i: nat, k: nat)
    requires DistinctIds(bs) && i < |bs| && k < |Debtors(bs)| && Debtors(bs)[k].id == bs[i].id
    ensures Debtors(bs)[k] == bs[i]
  {
    DebtorsSpec(bs);
    assert Debtors(bs)[k] in Debtors(bs);
    var j :| 0 <= j < |bs| && bs[j] == Debtors(bs)[k];
  }

  lemma CreditorAt(bs: seq<BalanceEntry>, i: nat, k: nat)
    requires DistinctIds(bs) && i < |bs| && k < |Creditors(bs)| && Creditors(bs)[k].id == bs[i].id
    ensures Creditors(bs)[k] == bs[i]
  {
    CreditorsSpec(bs);
    assert Creditors(bs)[k] in Creditors(bs);
    var j :| 0 <= j < |bs| && bs[j] == Creditors(bs)[k];
  }

  /** When every debtor has paid in full, each one's edges add up to
      their debt. */
  lemma DebtorsPaidInFull(bs: seq<BalanceEntry>, tr: seq<Transfer>)
    requires DistinctIds(bs) && Within(tr, |Creditors(bs)|, |Debtors(bs)|) && Positive(tr)
    requires forall k :: 0 <= k < |Debtors(bs)| ==> PaidAt(tr, k) == -Debtors(bs)[k].balance
    ensures DebtorsPaid(bs, DebtMap(Creditors(bs), Debtors(bs), tr))
  {
    var cs, ds := Creditors(bs), Debtors(bs);
    DebtorsSpec(bs);
    DebtMapRecords(cs, ds, tr);
    var debts := DebtMap(cs, ds, tr);
    forall i | 0 <= i < |bs| && bs[i].balance < 0
      ensures bs[i].id in debts && TotalOwes(debts[bs[i].id]) == -bs[i].balance
    {
      assert bs[i] in ds;
      var k :| 0 <= k < |ds| && ds[k] == bs[i];
      OwesAtSums(tr, cs, k);
    }
  }

  /** What the `debts` object says about the balance entries: only debtors
      owe, each owes at least something and no more than their debt, and
      every edge is positive. */
  lemma LiftDebts(bs: seq<BalanceEntry>, tr: seq<Transfer>)
    requires DistinctIds(bs) && Within(tr, |Creditors(bs)|, |Debtors(bs)|) && Positive(tr)
    requires forall k :: 0 <= k < |Debtors(bs)| ==> PaidAt(tr, k) <= -Debtors(bs)[k].balance
    ensures DebtsWithin(bs, DebtMap(Creditors(bs), Debtors(bs), tr))
  {
    var cs, ds := Creditors(bs), Debtors(bs);
    DebtorsSpec(bs);
    DebtMapRecords(cs, ds, tr);
    var debts := DebtMap(cs, ds, tr);
    forall id | id in debts ensures exists i :: 0 <= i < |bs| && bs[i].id == id {
      var k :| 0 <= k < |ds| && ds[k].id == id;
      assert ds[k] in ds;
    }
    forall i | 0 <= i < |bs| && bs[i].id in debts
      ensures bs[i].balance < 0 && 0 < TotalOwes(debts[bs[i].id]) <= -bs[i].balance
    {
      var k :| 0 <= k < |ds| && ds[k].id == bs[i].id;
      DebtorAt(bs, i, k);
      OwesAtSums(tr, cs, k);
    }
    forall id, j | id in debts && 0 <= j < |debts[id]| ensures debts[id][j].amount > 0 {
      var k :| 0 <= k < |ds| && ds[k].id == id;
      OwesAtSums(tr, cs, k);
    }
  }

  /** When every creditor has been paid in full, each one's edges add up to
      their credit. */
  lemma CreditorsPaidInFull(bs: seq<BalanceEntry>, tr: seq<Transfer>)
    requires DistinctIds(bs) && Within(tr, |Creditors(bs)|, |Debtors(bs)|) && Positive(tr)
    requires forall k :: 0 <= k < |Creditors(bs)| ==> ReceivedAt(tr, k) == Creditors(bs)[k].balance
    ensures CreditorsPaid(bs, CreditMap(Creditors(bs), Debtors(bs), tr))
  {
    var cs, ds := Creditors(bs), Debtors(bs);
    CreditorsSpec(bs);
    CreditMapRecords(cs, ds, tr);
    var credits := CreditMap(cs, ds, tr);
    forall i | 0 <= i < |bs| && bs[i].balance > 0
      ensures bs[i].id in credits && TotalOwed(credits[bs[i].id]) == bs[i].balance
    {
      assert bs[i] in cs;
      var k :| 0 <= k < |cs| && cs[k] == bs[i];
      OwedAtSums(tr, ds, k);
    }
  }

  /** What the `credits` object says about the balance entries: only
      creditors are owed, each at least something and no more than their
      credit, and every edge is positive. */
  lemma LiftCredits(bs: seq<BalanceEntry>, tr: seq<Transfer>)
    requires DistinctIds(bs) && Within(tr, |Creditors(bs)|, |Debtors(bs)|) && Positive(tr)
    requires forall k :: 0 <= k < |Creditors(bs)| ==> ReceivedAt(tr, k) <= Creditors(bs)[k].balance
    ensures CreditsWithin(bs, CreditMap(Creditors(bs), Debtors(bs), tr))
  {
    var cs, ds := Creditors(bs), Debtors(bs);
    CreditorsSpec(bs);
    CreditMapRecords(cs, ds, tr);
    var credits := CreditMap(cs, ds, tr);
    forall id | id in credits ensures exists i :: 0 <= i < |bs| && bs[i].id == id {
      var k :| 0 <= k < |cs| && cs[k].id == id;
      assert cs[k] in cs;
    }
    forall i | 0 <= i < |bs| && bs[i].id in credits
      ensures bs[i].balance > 0 && 0 < TotalOwed(credits[bs[i].id]) <= bs[i].balance
    {
      var k :| 0 <= k < |cs| && cs[k].id == bs[i].id;
      CreditorAt(bs, i, k);
      OwedAtSums(tr, ds, k);
    }
    forall id, j | id in credits && 0 <= j < |credits[id]| ensures credits[id][j].amount > 0 {
      var k :| 0 <= k < |cs| && cs[k].id == id;
      OwedAtSums(tr, ds, k);
    }
  }

  // Conservation: what the creditors receive is what the debtors pay.

  /** The sum of the balances of `bs`. */
  function BalanceTotal(bs: seq<BalanceEntry>): int {
    if bs == [] then 0 else BalanceTotal(bs[..|bs| - 1]) + bs[|bs| - 1].balance
  }

  lemma {:induction false} TotalCons(x: BalanceEntry, s: seq<BalanceEntry>)
    ensures BalanceTotal([x] + s) == x.balance + BalanceTotal(s)
  {
    if s != [] {
      assert ([x] + s)[..|s|] == [x] + s[..|s| - 1];
      TotalCons(x, s[..|s| - 1]);
    }
  }

  lemma {:induction false} InsertTotal(x: BalanceEntry, s: seq<BalanceEntry>)
    ensures BalanceTotal(Insert(x, s)) == x.balance + BalanceTotal(s)
  {
    TotalCons(x, s);
    if s != [] && Abs(x.balance) < Abs(s[0].balance) {
      InsertTotal(x, s[1..]);
      TotalCons(s[0], Insert(x, s[1..]));
      TotalCons(s[0], s[1..]);
      assert s == [s[0]] + s[1..];
    }
  }

  /** Sorting keeps the sum of the balances. */
  lemma {:induction false} SortTotal(s: seq<BalanceEntry>)
    ensures BalanceTotal(SortLargestFirst(s)) == BalanceTotal(s)
  {
    if s != [] {
      SortTotal(s[1..]);
      InsertTotal(s[0], SortLargestFirst(s[1..]));
      TotalCons(s[0], s[1..]);
      assert s == [s[0]] + s[1..];
    }
  }

  /** Creditors and debtors together hold all of the balances (zero
      balances add nothing). */
  lemma {:induction false} SidesTotal(bs: seq<BalanceEntry>)
    ensures BalanceTotal(Side(bs, true)) + BalanceTotal(Side(bs, false)) == BalanceTotal(bs)
  {
    if bs != [] {
      var init, e := bs[..|bs| - 1], bs[|bs| - 1];
      SidesTotal(init);
      var c, d := Side(init, true), Side(init, false);
      assert (c + [e])[..|c|] == c;
      assert (d + [e])[..|d|] == d;
    }
  }

  lemma CreditorsDebtorsTotal(bs: seq<BalanceEntry>)
    ensures BalanceTotal(Creditors(bs)) + BalanceTotal(Debtors(bs)) == BalanceTotal(bs)
  {
    SortTotal(Side(bs, true));
    SortTotal(Side(bs, false));
    SidesTotal(bs);
  }

  /** The sum of the first `n` balances. */
  function BalanceUpTo(bs: seq<BalanceEntry>, n: nat): int
    requires n <= |bs|
  {
    if n == 0 then 0 else BalanceUpTo(bs, n - 1) + bs[n - 1].balance
  }

  lemma {:induction false} UpToTotal(bs: seq<BalanceEntry>, n: nat)
    requires n <= |bs|
    ensures BalanceUpTo(bs, n) == BalanceTotal(bs[..n])
  {
    if n > 0 {
      UpToTotal(bs, n - 1);
      assert bs[..n][..n - 1] == bs[..n - 1];
    }
  }

  /** Everything the log moves. */
  function Moved(tr: seq<Transfer>): int {
    if tr == [] then 0 else Moved(tr[..|tr| - 1]) + tr[|tr| - 1].amount
  }

  /** What the first `n` creditors received. */
  function ReceivedUpTo(tr: seq<Transfer>, n: nat): int {
    if n == 0 then 0 else ReceivedUpTo(tr, n - 1) + ReceivedAt(tr, n - 1)
  }

  /** What the first `n` debtors paid. */
  function PaidUpTo(tr: seq<Transfer>, n: nat): int {
    if n == 0 then 0 else PaidUpTo(tr, n - 1) + PaidAt(tr, n - 1)
  }

  lemma {:induction false} ReceivedUpToSnoc(tr: seq<Transfer>, t: Transfer, n: nat)
    ensures ReceivedUpTo(tr + [t], n) == ReceivedUpTo(tr, n) + (if t.creditor < n then t.amount else 0)
  {
    if n > 0 {
      ReceivedUpToSnoc(tr, t, n - 1);
      LogSnoc(tr, t);
    }
  }

  lemma {:induction false} PaidUpToSnoc(tr: seq<Transfer>, t: Transfer, n: nat)
    ensures PaidUpTo(tr + [t], n) == PaidUpTo(tr, n) + (if t.debtor < n then t.amount else 0)
  {
    if n > 0 {
      PaidUpToSnoc(tr, t, n - 1);
      LogSnoc(tr, t);
    }
  }

  lemma {:induction false} NothingMoved(n: nat)
    ensures ReceivedUpTo([], n) == 0 && PaidUpTo([], n) == 0
  {
    if n > 0 {
      NothingMoved(n - 1);
    }
  }

  /** Every transfer reaches exactly one creditor and exactly one debtor:
      together the creditors receive, and the debtors pay, all the log moves. */
  lemma {:induction false} Conservation(tr: seq<Transfer>, creditors: nat, debtors: nat)
    requires Within(tr, creditors, debtors)
    ensures ReceivedUpTo(tr, creditors) == Moved(tr) == PaidUpTo(tr, debtors)
  {
    if tr == [] {
      NothingMoved(creditors);
      NothingMoved(debtors);
    } else {
      var init, t := tr[..|tr| - 1], tr[|tr| - 1];
      assert tr == init + [t];
      Conservation(init, creditors, debtors);
      ReceivedUpToSnoc(init, t, creditors);
      PaidUpToSnoc(init, t, debtors);
    }
  }

  /** Received amounts bounded creditor by creditor are bounded in sum, and
      the sums agree exactly when every creditor received their balance. */
  lemma {:induction false} ReceivedBelow(tr: seq<Transfer>, cs: seq<BalanceEntry>, n: nat)
    requires n <= |cs|
    requires forall k :: 0 <= k < n ==> ReceivedAt(tr, k) <= cs[k].balance
    ensures ReceivedUpTo(tr, n) <= BalanceUpTo(cs, n)
    ensures ReceivedUpTo(tr, n) == BalanceUpTo(cs, n) <==> forall k :: 0 <= k < n ==> ReceivedAt(tr, k) == cs[k].balance
  {
    if n > 0 {
      ReceivedBelow(tr, cs, n - 1);
    }
  }

  /** Paid amounts bounded debtor by debtor are bounded in sum, and the sums
      agree exactly when every debtor paid their debt. */
  lemma {:induction false} PaidBelow(tr: seq<Transfer>, ds: seq<BalanceEntry>, n: nat)
    requires n <= |ds|
    requires forall k :: 0 <= k < n ==> PaidAt(tr, k) <= -ds[k].balance
    ensures PaidUpTo(tr, n) <= -BalanceUpTo(ds, n)
    ensures PaidUpTo(tr, n) == -BalanceUpTo(ds, n) <==> forall k :: 0 <= k < n ==> PaidAt(tr, k) == -ds[k].balance
  {
    if n > 0 {
      PaidBelow(tr, ds, n - 1);
    }
  }

  /** A greedy settlement settles every creditor and every debtor exactly
      when the balances add up to zero; otherwise the side that is left
      over keeps what the balances miss. */
  lemma EveryoneSettled(bs: seq<BalanceEntry>, tr: seq<Transfer>)
    requires GreedySettlement(bs, tr)
    ensures (&& (forall k :: 0 <= k < |Creditors(bs)| ==> ReceivedAt(tr, k) == Creditors(bs)[k].balance)
             && (forall k :: 0 <= k < |Debtors(bs)| ==> PaidAt(tr, k) == -Debtors(bs)[k].balance))
        <==> BalanceTotal(bs) == 0
  {
    var cs, ds := Creditors(bs), Debtors(bs);
    Conservation(tr, |cs|, |ds|);
    ReceivedBelow(tr, cs, |cs|);
    PaidBelow(tr, ds, |ds|);
    UpToTotal(cs, |cs|);
    UpToTotal(ds, |ds|);
    assert cs[..|cs|] == cs;
    assert ds[..|ds|] == ds;
    CreditorsDebtorsTotal(bs);
  }

  // Determinism: the greedy settlement of given balances is unique.

  /** Transfers after position `i` that skip creditor `k` add nothing to it. */
  lemma {:induction false} ReceivedPrefix(tr: seq<Transfer>, i: nat, k: nat)
    requires i <= |tr|
    requires forall j :: i <= j < |tr| ==> tr[j].creditor != k
    ensures ReceivedAt(tr, k) == ReceivedAt(tr[..i], k)
  {
    if |tr| > i {
      var init := tr[..|tr| - 1];
      assert init[..i] == tr[..i];
      ReceivedPrefix(init, i, k);
    } else {
      assert tr[..i] == tr;
    }
  }

  /** Transfers after position `i` that skip debtor `k` add nothing to it. */
  lemma {:induction false} PaidPrefix(tr: seq<Transfer>, i: nat, k: nat)
    requires i <= |tr|
    requires forall j :: i <= j < |tr| ==> tr[j].debtor != k
    ensures PaidAt(tr, k) == PaidAt(tr[..i], k)
  {
    if |tr| > i {
      var init := tr[..|tr| - 1];
      assert init[..i] == tr[..i];
      PaidPrefix(init, i, k);
    } else {
      assert tr[..i] == tr;
    }
  }

  /** In a greedy settlement, each transfer goes to the first creditor that
      is still open after the transfers before it. */
  lemma FirstOpenCreditor(bs: seq<BalanceEntry>, tr: seq<Transfer>, i: nat)
    requires GreedySettlement(bs, tr) && i < |tr|
    ensures tr[i].creditor < |Creditors(bs)|
    ensures ReceivedAt(tr[..i], tr[i].creditor) < Creditors(bs)[tr[i].creditor].balance
    ensures forall k :: 0 <= k < tr[i].creditor ==> ReceivedAt(tr[..i], k) == Creditors(bs)[k].balance
  {
    var cs, ds := Creditors(bs), Debtors(bs);
    assert GreedyStep(cs, ds, tr[..i], tr[i]);
    assert tr[i].amount > 0;
    forall k | 0 <= k < tr[i].creditor ensures ReceivedAt(tr[..i], k) == cs[k].balance {
      ReceivedPrefix(tr, i, k);
    }
  }

  /** In a greedy settlement, each transfer comes from the first debtor that
      is still open after the transfers before it. */
  lemma FirstOpenDebtor(bs: seq<BalanceEntry>, tr: seq<Transfer>, i: nat)
    requires GreedySettlement(bs, tr) && i < |tr|
    ensures tr[i].debtor < |Debtors(bs)|
    ensures PaidAt(tr[..i], tr[i].debtor) < -Debtors(bs)[tr[i].debtor].balance
    ensures forall k :: 0 <= k < tr[i].debtor ==> PaidAt(tr[..i], k) == -Debtors(bs)[k].balance
  {
    var cs, ds := Creditors(bs), Debtors(bs);
    assert GreedyStep(cs, ds, tr[..i], tr[i]);
    assert tr[i].amount > 0;
    forall k | 0 <= k < tr[i].debtor ensures PaidAt(tr[..i], k) == -ds[k].balance {
      PaidPrefix(tr, i, k);
    }
  }

  /** Two greedy settlements that agree so far agree on the next transfer. */
  lemma SameStep(bs: seq<BalanceEntry>, tr1: seq<Transfer>, tr2: seq<Transfer>, i: nat)
    requires GreedySettlement(bs, tr1) && GreedySettlement(bs, tr2)
    requires i < |tr1| && i < |tr2| && tr1[..i] == tr2[..i]
    ensures tr1[i] == tr2[i]
  {
    var cs, ds := Creditors(bs), Debtors(bs);
    FirstOpenCreditor(bs, tr1, i);
    FirstOpenCreditor(bs, tr2, i);
    FirstOpenDebtor(bs, tr1, i);
    FirstOpenDebtor(bs, tr2, i);
    assert GreedyStep(cs, ds, tr1[..i], tr1[i]);
    assert GreedyStep(cs, ds, tr2[..i], tr2[i]);
  }

  /** After a greedy settlement no greedy transfer of a positive amount is
      left to make. */
  lemma NothingLeft(bs: seq<BalanceEntry>, tr: seq<Transfer>, t: Transfer)
    requires GreedySettlement(bs, tr)
    requires GreedyStep(Creditors(bs), Debtors(bs), tr, t)
    ensures t.amount <= 0
  {
  }

  lemma {:induction false} SamePrefix(bs: seq<BalanceEntry>, tr1: seq<Transfer>, tr2: seq<Transfer>, i: nat)
    requires GreedySettlement(bs, tr1) && GreedySettlement(bs, tr2)
    requires i <= |tr1| && i <= |tr2|
    ensures tr1[..i] == tr2[..i]
  {
    if i > 0 {
      SamePrefix(bs, tr1, tr2, i - 1);
      SameStep(bs, tr1, tr2, i - 1);
      assert tr1[..i] == tr1[..i - 1] + [tr1[i - 1]];
      assert tr2[..i] == tr2[..i - 1] + [tr2[i - 1]];
    }
  }

  /** The balances determine their greedy settlement: there is only one. */
  lemma GreedyUnique(bs: seq<BalanceEntry>, tr1: seq<Transfer>, tr2: seq<Transfer>)
    requires GreedySettlement(bs, tr1) && GreedySettlement(bs, tr2)
    ensures tr1 == tr2
  {
    var cs, ds := Creditors(bs), Debtors(bs);
    if |tr1| < |tr2| {
      var m := |tr1|;
      SamePrefix(bs, tr1, tr2, m);
      assert tr1[..m] == tr1;
      assert GreedyStep(cs, ds, tr2[..m], tr2[m]);
      NothingLeft(bs, tr1, tr2[m]);
      assert false;
    } else if |tr2| < |tr1| {
      var m := |tr2|;
      SamePrefix(bs, tr1, tr2, m);
      assert tr2[..m] == tr2;
      assert GreedyStep(cs, ds, tr1[..m], tr1[m]);
      NothingLeft(bs, tr2, tr1[m]);
      assert false;
    } else {
      SamePrefix(bs, tr1, tr2, |tr1|);
      assert tr1[..|tr1|] == tr1;
      assert tr2[..|tr2|] == tr2;
    }
  }
}
