/** The participant list: every declared guest plus every expense recorder
    who is not a guest, each once, with the money they spent. */
module Participants {
  import opened Money
  import opened Wrappers

  type UserId = string

  datatype UserProfile = UserProfile(id: UserId, displayName: string)

  /** A recorded expense.  `recordedBy` is carried but never read: the
      calculator attributes an expense to `userProfile.id`. */
  datatype Expense = Expense(id: string, amount: Cents, recordedBy: UserId, userProfile: UserProfile)

  datatype Guest = Guest(userProfile: UserProfile)

  datatype Participant = Participant(id: UserId, name: string, totalSpent: Cents)

  function GuestIds(guests: seq<Guest>): seq<UserId> {
    seq(|guests|, i requires 0 <= i < |guests| => guests[i].userProfile.id)
  }

  function RecorderIds(expenses: seq<Expense>): seq<UserId> {
    seq(|expenses|, i requires 0 <= i < |expenses| => expenses[i].userProfile.id)
  }

  function ParticipantIds(ps: seq<Participant>): seq<UserId> {
    seq(|ps|, i requires 0 <= i < |ps| => ps[i].id)
  }

  predicate NoDuplicates(s: seq<UserId>) {
    forall i, j :: 0 <= i < j < |s| ==> s[i] != s[j]
  }

  /** The distinct elements of `s`, each at the position of its first occurrence. */
  function Dedup(s: seq<UserId>): seq<UserId>
  {
    if s == [] then []
    else
      var d := Dedup(s[..|s| - 1]);
      if s[|s| - 1] in d then d else d + [s[|s| - 1]]
  }

  /** Dedup loses no element and adds none. */
  lemma {:induction false} DedupMembers(s: seq<UserId>)
    ensures forall x :: x in Dedup(s) <==> x in s
  {
    if s != [] {
      DedupMembers(s[..|s| - 1]);
      assert s == s[..|s| - 1] + [s[|s| - 1]];
    }
  }

  /** Dedup keeps each element once. */
  lemma {:induction false} DedupNoDuplicates(s: seq<UserId>)
    ensures NoDuplicates(Dedup(s))
  {
    if s != [] {
      DedupNoDuplicates(s[..|s| - 1]);
      DedupMembers(s[..|s| - 1]);
    }
  }

  /** The elements of `s` that do not occur in `xs`, in their order in `s`. */
  function Without(s: seq<UserId>, xs: seq<UserId>): seq<UserId>
  {
    if s == [] then []
    else
      var w := Without(s[..|s| - 1], xs);
      if s[|s| - 1] in xs then w else w + [s[|s| - 1]]
  }

  lemma {:induction false} WithoutMembers(s: seq<UserId>, xs: seq<UserId>)
    ensures forall x :: x in Without(s, xs) <==> x in s && x !in xs
  {
    if s != [] {
      WithoutMembers(s[..|s| - 1], xs);
      assert s == s[..|s| - 1] + [s[|s| - 1]];
    }
  }

  /** The sum of the amounts `expenses` records against `id`. */
  function SpentBy(expenses: seq<Expense>, id: UserId): Cents {
    if expenses == [] then 0
    else
      var e := expenses[|expenses| - 1];
      SpentBy(expenses[..|expenses| - 1], id) + (if e.userProfile.id == id then e.amount else 0)
  }

  /** The sum of all expense amounts (the source's `reduce`). */
  function Total(expenses: seq<Expense>): Cents {
    if expenses == [] then 0
    else Total(expenses[..|expenses| - 1]) + expenses[|expenses| - 1].amount
  }

  /** The display name of the last guest entry for `id`, if any. */
  function GuestName(guests: seq<Guest>, id: UserId): (r: Option<string>)
    ensures r.Some? <==> id in GuestIds(guests)
  {
    if guests == [] then None
    else
      var g := guests[|guests| - 1];
      assert GuestIds(guests) == GuestIds(guests[..|guests| - 1]) + [g.userProfile.id];
      if g.userProfile.id == id then Some(g.userProfile.displayName)
      else GuestName(guests[..|guests| - 1], id)
  }

  /** The display name on the first expense recorded against `id`, if any. */
  function RecorderName(expenses: seq<Expense>, id: UserId): (r: Option<string>)
    ensures r.Some? <==> id in RecorderIds(expenses)
  {
    if expenses == [] then None
    else
      var e := expenses[|expenses| - 1];
      assert RecorderIds(expenses) == RecorderIds(expenses[..|expenses| - 1]) + [e.userProfile.id];
      match RecorderName(expenses[..|expenses| - 1], id)
      case Some(n) => Some(n)
      case None => if e.userProfile.id == id then Some(e.userProfile.displayName) else None
  }

  /** The name a participant ends up with: a guest's (latest) guest name,
      otherwise the name on their first expense. */
  function NameOf(guests: seq<Guest>, expenses: seq<Expense>, id: UserId): string {
    match GuestName(guests, id)
    case Some(n) => n
    case None =>
      match RecorderName(expenses, id)
      case Some(n) => n
      case None => ""
  }

  /** What `buildParticipantList` returns: one participant per distinct id
      among guests then expense recorders, in order of first appearance,
      each with their name and the sum of their expenses. */
  predicate IsParticipantList(ps: seq<Participant>, expenses: seq<Expense>, guests: seq<Guest>) {
    && ParticipantIds(ps) == Dedup(GuestIds(guests) + RecorderIds(expenses))
    && forall i :: 0 <= i < |ps| ==>
         ps[i].name == NameOf(guests, expenses, ps[i].id) && ps[i].totalSpent == SpentBy(expenses, ps[i].id)
  }

  /** `buildParticipantList`: guests are added to an insertion-ordered map
      with nothing spent (a repeated guest id keeps its place and takes the
      later name); then each expense adds to its recorder's total, adding the
      recorder at the end if absent.  The map's values, in order, are returned. */
  method BuildParticipantList(expenses: seq<Expense>, guests: seq<Guest>) returns (ps: seq<Participant>)
    ensures IsParticipantList(ps, expenses, guests)
  {
    // The insertion-ordered map: its key order and its entries.
    var order: seq<UserId> := [];
    var byId: map<UserId, Participant> := map[];

    var i := 0;
    while i < |guests|
      invariant 0 <= i <= |guests|
      invariant MapHolds(order, byId, guests[..i], [])
    {
      var g := guests[i].userProfile;
      assert guests[..i + 1] == guests[..i] + [guests[i]];
      AddGuest(order, byId, guests[..i], guests[i]);
      if g.id !in byId {
        order := order + [g.id];
      }
      byId := byId[g.id := Participant(g.id, g.displayName, 0)];
      i := i + 1;
    }
    assert guests[..i] == guests;
    assert expenses[..0] == [];

    var j := 0;
    while j < |expenses|
      invariant 0 <= j <= |expenses|
      invariant MapHolds(order, byId, guests, expenses[..j])
    {
      var e := expenses[j];
      var id := e.userProfile.id;
      assert expenses[..j + 1] == expenses[..j] + [e];
      AddExpense(order, byId, guests, expenses[..j], e);
      if id in byId {
        var p := byId[id];
        byId := byId[id := p.(totalSpent := p.totalSpent + e.amount)];
      } else {
        order := order + [id];
        byId := byId[id := Participant(id, e.userProfile.displayName, e.amount)];
      }
      j := j + 1;
    }
    assert expenses[..j] == expenses;

    // Array.from(participantMap.values())
    MapValues(order, byId, guests, expenses);
    ps := Values(order, byId);
  }

  /** The insertion-ordered map after the guests and `expenses`: its key
      order and, for each key, the participant as the source leaves it. */
  ghost predicate MapHolds(order: seq<UserId>, byId: map<UserId, Participant>, guests: seq<Guest>, expenses: seq<Expense>) {
    && order == Dedup(GuestIds(guests) + RecorderIds(expenses))
    && (forall id :: id in byId <==> id in order)
    && (forall id :: id in byId ==>
          byId[id] == Participant(id, NameOf(guests, expenses, id), SpentBy(expenses, id)))
  }

  /** One iteration over the guests keeps MapHolds (with no expenses yet). */
  lemma AddGuest(order: seq<UserId>, byId: map<UserId, Participant>, guests: seq<Guest>, g: Guest)
    requires MapHolds(order, byId, guests, [])
    ensures var p := g.userProfile;
      MapHolds(if p.id in byId then order else order + [p.id], byId[p.id := Participant(p.id, p.displayName, 0)], guests + [g], [])
  {
    var id := g.userProfile.id;
    var s := GuestIds(guests) + RecorderIds([]);
    GuestStep(guests, g);
    DedupMembers(s);
    assert s == GuestIds(guests);
    assert GuestIds(guests + [g]) + RecorderIds([]) == s + [id];
    assert (s + [id])[..|s|] == s;
    assert id in byId <==> id in s;
  }

  /** The entries of `byId`, in the key order `order`. */
  function Values(order: seq<UserId>, byId: map<UserId, Participant>): seq<Participant>
    requires forall id :: id in order ==> id in byId
  {
    seq(|order|, k requires 0 <= k < |order| => byId[order[k]])
  }

  /** The map's values, in key order, form the participant list. */
  lemma MapValues(order: seq<UserId>, byId: map<UserId, Participant>, guests: seq<Guest>, expenses: seq<Expense>)
    requires MapHolds(order, byId, guests, expenses)
    ensures forall id :: id in order ==> id in byId
    ensures IsParticipantList(Values(order, byId), expenses, guests)
  {
    assert ParticipantIds(Values(order, byId)) == order;
  }

  /** One iteration over the expenses keeps MapHolds. */
  lemma AddExpense(order: seq<UserId>, byId: map<UserId, Participant>, guests: seq<Guest>, expenses: seq<Expense>, e: Expense)
    requires MapHolds(order, byId, guests, expenses)
    ensures var id := e.userProfile.id;
      if id in byId then
        MapHolds(order, byId[id := byId[id].(totalSpent := byId[id].totalSpent + e.amount)], guests, expenses + [e])
      else
        MapHolds(order + [id], byId[id := Participant(id, e.userProfile.displayName, e.amount)], guests, expenses + [e])
  {
    var id := e.userProfile.id;
    var s := GuestIds(guests) + RecorderIds(expenses);
    ExpenseStep(guests, expenses, e);
    DedupMembers(s);
    assert (s + [id])[..|s|] == s;
    if id in byId {
      AddKnownRecorder(order, byId, guests, expenses, e);
    } else {
      AddNewRecorder(order, byId, guests, expenses, e);
    }
  }

  lemma AddKnownRecorder(order: seq<UserId>, byId: map<UserId, Participant>, guests: seq<Guest>, expenses: seq<Expense>, e: Expense)
    requires MapHolds(order, byId, guests, expenses)
    requires e.userProfile.id in byId
    requires Dedup(GuestIds(guests) + RecorderIds(expenses + [e])) == order
    requires forall x :: x in byId ==> x in GuestIds(guests) + RecorderIds(expenses)
    requires forall id :: SpentBy(expenses + [e], id) == SpentBy(expenses, id) + (if id == e.userProfile.id then e.amount else 0)
    requires forall id :: id in GuestIds(guests) || id in RecorderIds(expenses) ==>
               NameOf(guests, expenses + [e], id) == NameOf(guests, expenses, id)
    ensures var id := e.userProfile.id;
      MapHolds(order, byId[id := byId[id].(totalSpent := byId[id].totalSpent + e.amount)], guests, expenses + [e])
  {
  }

  lemma AddNewRecorder(order: seq<UserId>, byId: map<UserId, Participant>, guests: seq<Guest>, expenses: seq<Expense>, e: Expense)
    requires MapHolds(order, byId, guests, expenses)
    requires e.userProfile.id !in byId
    requires Dedup(GuestIds(guests) + RecorderIds(expenses + [e])) == order + [e.userProfile.id]
    requires forall x :: x in byId <==> x in GuestIds(guests) + RecorderIds(expenses)
    requires forall id :: SpentBy(expenses + [e], id) == SpentBy(expenses, id) + (if id == e.userProfile.id then e.amount else 0)
    requires forall id :: id in GuestIds(guests) || id in RecorderIds(expenses) ==>
               NameOf(guests, expenses + [e], id) == NameOf(guests, expenses, id)
    requires e.userProfile.id !in GuestIds(guests) && e.userProfile.id !in RecorderIds(expenses) ==>
               NameOf(guests, expenses + [e], e.userProfile.id) == e.userProfile.displayName
               && SpentBy(expenses, e.userProfile.id) == 0
    ensures var id := e.userProfile.id;
      MapHolds(order + [id], byId[id := Participant(id, e.userProfile.displayName, e.amount)], guests, expenses + [e])
  {
    var id := e.userProfile.id;
    var added := byId[id := Participant(id, e.userProfile.displayName, e.amount)];
    assert forall x :: x in added <==> x in order + [id];
    forall x | x in added
      ensures added[x] == Participant(x, NameOf(guests, expenses + [e], x), SpentBy(expenses + [e], x))
    {
      if x != id {
        assert x in GuestIds(guests) + RecorderIds(expenses);
      }
    }
  }

  /** What one more guest does to the ids and guest names. */
  lemma GuestStep(guests: seq<Guest>, g: Guest)
    ensures GuestIds(guests + [g]) == GuestIds(guests) + [g.userProfile.id]
    ensures GuestName(guests + [g], g.userProfile.id) == Some(g.userProfile.displayName)
    ensures forall id :: id != g.userProfile.id ==> GuestName(guests + [g], id) == GuestName(guests, id)
  {
    assert (guests + [g])[..|guests|] == guests;
  }

  /** What one more expense does to the ids, the totals and the names. */
  lemma ExpenseStep(guests: seq<Guest>, expenses: seq<Expense>, e: Expense)
    ensures GuestIds(guests) + RecorderIds(expenses + [e])
         == (GuestIds(guests) + RecorderIds(expenses)) + [e.userProfile.id]
    ensures forall id ::
              SpentBy(expenses + [e], id) == SpentBy(expenses, id) + (if id == e.userProfile.id then e.amount else 0)
    ensures forall id :: id in GuestIds(guests) || id in RecorderIds(expenses) ==>
              NameOf(guests, expenses + [e], id) == NameOf(guests, expenses, id)
    ensures e.userProfile.id !in GuestIds(guests) && e.userProfile.id !in RecorderIds(expenses) ==>
              NameOf(guests, expenses + [e], e.userProfile.id) == e.userProfile.displayName
              && SpentBy(expenses, e.userProfile.id) == 0
  {
    assert (expenses + [e])[..|expenses|] == expenses;
    assert RecorderIds(expenses + [e]) == RecorderIds(expenses) + [e.userProfile.id];
    if e.userProfile.id !in RecorderIds(expenses) {
      SpentByAbsent(expenses, e.userProfile.id);
    }
  }

  /** Nothing is spent by someone no expense is recorded against. */
  lemma {:induction false} SpentByAbsent(expenses: seq<Expense>, id: UserId)
    requires id !in RecorderIds(expenses)
    ensures SpentBy(expenses, id) == 0
  {
    if expenses != [] {
      assert RecorderIds(expenses) == RecorderIds(expenses[..|expenses| - 1]) + [expenses[|expenses| - 1].userProfile.id];
      SpentByAbsent(expenses[..|expenses| - 1], id);
    }
  }

  /** Deduplicating a concatenation keeps the first part's distinct elements
      first, then the second part's new ones in their order. */
  lemma {:induction false} DedupAppend(a: seq<UserId>, b: seq<UserId>)
    ensures Dedup(a + b) == Dedup(a) + Without(Dedup(b), a)
  {
    if b == [] {
      assert a + b == a;
    } else {
      var b', y := b[..|b| - 1], b[|b| - 1];
      DedupAppend(a, b');
      DedupMembers(b');
      DedupMembers(a + b');
      var w := Without(Dedup(b'), a);
      assert (a + b)[..|a + b| - 1] == a + b';
      assert y in a + b' <==> y in a || y in b';
      if y !in a && y !in b' {
        WithoutSnoc(Dedup(b'), y, a);
        assert Dedup(a) + (w + [y]) == (Dedup(a) + w) + [y];
      } else if y in a && y !in b' {
        WithoutSnoc(Dedup(b'), y, a);
      }
    }
  }

  lemma WithoutSnoc(s: seq<UserId>, y: UserId, xs: seq<UserId>)
    ensures Without(s + [y], xs) == if y in xs then Without(s, xs) else Without(s, xs) + [y]
  {
    assert (s + [y])[..|s|] == s;
  }

  /** Participant order: guests in their given order (first occurrence),
      then recorders who are not guests, in order of their first expense;
      every id occurs exactly once. */
  lemma ParticipantOrder(ps: seq<Participant>, expenses: seq<Expense>, guests: seq<Guest>)
    requires IsParticipantList(ps, expenses, guests)
    ensures ParticipantIds(ps) == Dedup(GuestIds(guests)) + Without(Dedup(RecorderIds(expenses)), GuestIds(guests))
    ensures NoDuplicates(ParticipantIds(ps))
    ensures forall id :: id in ParticipantIds(ps) <==> id in GuestIds(guests) || id in RecorderIds(expenses)
  {
    DedupAppend(GuestIds(guests), RecorderIds(expenses));
    DedupNoDuplicates(GuestIds(guests) + RecorderIds(expenses));
    DedupMembers(GuestIds(guests) + RecorderIds(expenses));
  }

  /** The participant list is empty exactly when there are neither guests
      nor expenses. */
  lemma EmptyParticipants(ps: seq<Participant>, expenses: seq<Expense>, guests: seq<Guest>)
    requires IsParticipantList(ps, expenses, guests)
    ensures ps == [] <==> guests == [] && expenses == []
  {
    DedupMembers(GuestIds(guests) + RecorderIds(expenses));
    if guests != [] {
      assert GuestIds(guests)[0] in ParticipantIds(ps);
    } else if expenses != [] {
      assert RecorderIds(expenses)[0] in ParticipantIds(ps);
    }
  }

  /** The sum of `SpentBy` over a list of distinct ids that contains every
      recorder is the total of all expenses. */
  function SpentByAll(expenses: seq<Expense>, ids: seq<UserId>): Cents {
    if ids == [] then 0
    else SpentByAll(expenses, ids[..|ids| - 1]) + SpentBy(expenses, ids[|ids| - 1])
  }

  /** Adding one expense adds its amount to the sum over `ids` once if its
      recorder is among them and not at all otherwise. */
  lemma {:induction false} SpentByAllStep(expenses: seq<Expense>, e: Expense, ids: seq<UserId>)
    requires NoDuplicates(ids)
    ensures SpentByAll(expenses + [e], ids)
         == SpentByAll(expenses, ids) + (if e.userProfile.id in ids then e.amount else 0)
  {
    assert (expenses + [e])[..|expenses|] == expenses;
    if ids != [] {
      var ids' := ids[..|ids| - 1];
      assert e.userProfile.id in ids <==> e.userProfile.id in ids' || e.userProfile.id == ids[|ids| - 1] by {
        assert ids == ids' + [ids[|ids| - 1]];
      }
      SpentByAllStep(expenses, e, ids');
    }
  }

  lemma {:induction false} SpentByAllIsTotal(expenses: seq<Expense>, ids: seq<UserId>)
    requires NoDuplicates(ids)
    requires forall id :: id in RecorderIds(expenses) ==> id in ids
    ensures SpentByAll(expenses, ids) == Total(expenses)
  {
    if expenses == [] {
      SpentByAllNothing(ids);
    } else {
      var es := expenses[..|expenses| - 1];
      var e := expenses[|expenses| - 1];
      assert expenses == es + [e];
      assert RecorderIds(expenses) == RecorderIds(es) + [e.userProfile.id];
      SpentByAllIsTotal(es, ids);
      SpentByAllStep(es, e, ids);
    }
  }

  lemma {:induction false} SpentByAllNothing(ids: seq<UserId>)
    ensures SpentByAll([], ids) == 0
  {
    if ids != [] {
      SpentByAllNothing(ids[..|ids| - 1]);
    }
  }

  /** Every expense is counted against exactly one participant: the
      participants' totals add up to the total of all expenses. */
  lemma SpentAddsUp(ps: seq<Participant>, expenses: seq<Expense>, guests: seq<Guest>)
    requires IsParticipantList(ps, expenses, guests)
    ensures SpentByAll(expenses, ParticipantIds(ps)) == Total(expenses)
  {
    ParticipantOrder(ps, expenses, guests);
    SpentByAllIsTotal(expenses, ParticipantIds(ps));
  }

  /** The participant list is determined by the guests and the expenses. */
  lemma ParticipantListUnique(ps1: seq<Participant>, ps2: seq<Participant>, expenses: seq<Expense>, guests: seq<Guest>)
    requires IsParticipantList(ps1, expenses, guests) && IsParticipantList(ps2, expenses, guests)
    ensures ps1 == ps2
  {
    assert |ps1| == |ParticipantIds(ps1)| == |ParticipantIds(ps2)| == |ps2|;
    forall i | 0 <= i < |ps1| ensures ps1[i] == ps2[i] {
      assert ps1[i].id == ParticipantIds(ps1)[i] == ParticipantIds(ps2)[i] == ps2[i].id;
    }
  }
}
