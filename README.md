# Expense settlement calculator, modelled in Dafny

This project models the settlement calculator of a shared-meal expense
tracker (`supabase/functions/calculate-split/calculations.ts`). Given the
expenses of a meal and its guest list, the calculator:

- builds the list of participants (guests first, then anyone who recorded
  an expense without being a guest) with what each of them spent;
- divides the total equally, rounding the share half-up to the cent;
- gives every participant a balance (spent less share);
- settles the balances greedily: creditors are taken largest first,
  debtors most negative first, and each step moves `min(credit, |debt|)`
  from the current debtor to the current creditor, recording an `owes`
  edge on the debtor and an `owed` edge on the creditor.

Modules, one per concern:

- `Wrappers` (`wrappers.dfy`): `Option` and `Result`.
- `Money` (`money.dfy`): amounts as integer cents and the source's
  `roundHalfUp` as exact rounding of a quotient to the nearest cent, halves
  away from zero.
- `Participants` (`participants.dfy`): the `Expense`, `Guest` and
  `Participant` shapes and `buildParticipantList`. It is a method over an
  insertion-ordered map (a key order plus a `map`), proved against the
  specification predicate `IsParticipantList`.
- `Debts` (`debts.dfy`): `calculateDebts` as a method with the source's two
  cursors and working balances. It is proved against a ghost log of
  transfers: every transfer is the greedy one, the cursors only move
  forward, and the loop stops only when one whole side is settled
  (`GreedySettlement`). The `debts` and `credits` objects are the maps that
  the log builds (`DebtMap`, `CreditMap`).
- `Split` (`split.dfy`): `calculateSplit`, returning `Failure` where the
  source throws. What a successful result promises is collected in the
  predicate `Settles`, and `SettlesUnique` shows that it pins the result
  down completely.
- `Scenarios` (`scenarios.dfy`): the uneven three-way split from the
  calculator's test suite, worked out from the contract of `CalculateSplit`
  alone; and the order of tied debtors (`EqualDebtors`, `TiedDebtors`, with
  the helper `AllWithBalance`): debtors who owe the same stay in
  participant order.

Money is kept in whole cents throughout. The source's floating-point
amounts, `toFixed(2)` rounding and `< 0.01` "settled" test become exact
integer arithmetic, exact half-up rounding and `== 0`. The `balances`
object is a sequence of `(id, name, balance)` entries in participant order,
which is the order `Object.entries` gives for ids that are not array
indices.

The settlement is sometimes described as paying every participant's whole
balance. The code does not promise that, and neither does this model. The
loop stops as soon as one side runs out. The rounded balances need not add
up to zero, so the other side can keep a few cents unpaid. For example,
with 1000.00 spent by two of three people (700.00 and 300.00), the share is
333.33. The only creditor's 366.67 meets debts of 333.33 and 33.33, and
0.01 of it stays unpaid. The model follows the code: `CalculateDebts` and
`CalculateSplit` promise that all creditors or all debtors are settled in
full, that nobody pays or receives more than their balance, and that both
sides are settled in full exactly when the balances add up to zero. The
greedy settlement is unique (`Debts.GreedyUnique`), so these contracts
determine the result: `Scenarios.UnevenSplit` derives the example above
from them, including the unpaid 0.01.

## Model

| member | source | states |
|---|---|---|
| Money.RoundHalfUp | supabase/functions/calculate-split/calculations.ts:4-6 | the result is a whole number of cents within half a cent of `num / den`, and on an exact half it lies away from zero |
| Money.RoundHalfUpUnique | supabase/functions/calculate-split/calculations.ts:4-6 | any number of cents with those two properties is the rounded value, so the rounding is fully determined |
| Money.RoundWholeCents | supabase/functions/calculate-split/calculations.ts:83 | rounding an amount that is already whole cents leaves it unchanged (transfer amounts, `total_spent`, `totalExpenses`) |
| Money.ShareExamples | supabase/functions/calculate-split/calculations.ts:150 | 500.00 over two people is a share of 250.00, and 1000.00 over three is 333.33 |
| Participants.BuildParticipantList | supabase/functions/calculate-split/calculations.ts:104-133 | returns one participant per distinct id among guests then expense recorders, in order of first appearance; each has the latest guest name (else the name on their first expense) and the sum of the expenses recorded against them, which is 0 for a guest with none |
| Participants.ParticipantOrder | supabase/functions/calculate-split/calculations.ts:104-133 | the participant ids are the guests' ids without repeats, followed by the recorders' ids that are not guests, in order of first expense; no id occurs twice; an id is a participant exactly when it is a guest's or a recorder's |
| Participants.DedupAppend | supabase/functions/calculate-split/calculations.ts:105-132 | removing repeats from guests followed by recorders is removing repeats from each and dropping recorders already among the guests |
| Participants.EmptyParticipants | supabase/functions/calculate-split/calculations.ts:104-133 | the participant list is empty exactly when there are neither guests nor expenses |
| Participants.SpentAddsUp | supabase/functions/calculate-split/calculations.ts:116-130 | what the participants spent adds up to the total of all expenses: every expense is counted against exactly one participant |
| Participants.Total | supabase/functions/calculate-split/calculations.ts:143 | has no contract of its own: the sum of all expense amounts, as the `reduce` from 0 computes it; `Participants.SpentAddsUp` relates it to what each participant spent |
| Debts.SideMembers | supabase/functions/calculate-split/calculations.ts:59-60 | an entry is among the creditors (debtors) exactly when it is in the balances with a positive (negative) balance |
| Debts.Side | supabase/functions/calculate-split/calculations.ts:59-60 | the `filter`: its entries with any balance `v` are exactly the entries of the balances with balance `v`, in the same order, when `v` is on that side (positive for creditors, negative for debtors), and it has none with any other balance |
| Debts.Insert | supabase/functions/calculate-split/calculations.ts:63-64 | inserting `x` into a list puts `x` first among the entries with its balance and keeps the order of all other entries with any one balance |
| Debts.SortLargestFirst | supabase/functions/calculate-split/calculations.ts:63-64 | the sort is stable: for every balance `v`, the sorted list's entries with balance `v` are those of the input, in the input's order |
| Debts.SortSpec | supabase/functions/calculate-split/calculations.ts:63-64 | the sort is a permutation, puts the largest balance magnitude first, and keeps ids distinct |
| Debts.CreditorsSpec | supabase/functions/calculate-split/calculations.ts:59-63 | the creditors are exactly the entries with a positive balance, ordered from largest to smallest, with distinct ids |
| Debts.DebtorsSpec | supabase/functions/calculate-split/calculations.ts:60-64 | the debtors are exactly the entries with a negative balance, ordered from most to least negative, with distinct ids |
| Debts.Creditors | supabase/functions/calculate-split/calculations.ts:59-63 | the creditors with any positive balance `v` are exactly the balance entries with balance `v`, in participant order, and there are none with a balance of 0 or less; so equal creditors are paid in participant order |
| Debts.Debtors | supabase/functions/calculate-split/calculations.ts:60-64 | the debtors with any negative balance `v` are exactly the balance entries with balance `v`, in participant order, and there are none with a balance of 0 or more; so equal debtors pay in participant order |
| Debts.OwesAtSums | supabase/functions/calculate-split/calculations.ts:78-84 | a debtor's `owes` edges add up to what they paid, are all positive, and exist exactly when they paid something |
| Debts.OwedAtSums | supabase/functions/calculate-split/calculations.ts:79-89 | a creditor's `owed` edges add up to what they received, are all positive, and exist exactly when they received something |
| Debts.DebtMapRecords | supabase/functions/calculate-split/calculations.ts:78-84 | the `debts` object holds, for each debtor who paid, exactly their `owes` edges in order, and nothing for anyone else |
| Debts.CreditMapRecords | supabase/functions/calculate-split/calculations.ts:79-89 | the `credits` object holds, for each creditor who received, exactly their `owed` edges in order, and nothing for anyone else |
| Debts.DebtMap | supabase/functions/calculate-split/calculations.ts:78-84 | has no contract of its own: the `debts` object as the loop builds it from the log, each transfer appending an edge with the creditor's name to its debtor's list; `Debts.DebtMapRecords` states what it holds |
| Debts.CreditMap | supabase/functions/calculate-split/calculations.ts:79-89 | has no contract of its own: the `credits` object as the loop builds it from the log, each transfer appending an edge with the debtor's name to its creditor's list; `Debts.CreditMapRecords` states what it holds |
| Debts.StartRemaining | supabase/functions/calculate-split/calculations.ts:52-67 | before the loop the working balances equal the sorted starting balances, both cursors are at 0 and every creditor and debtor is open |
| Debts.Step | supabase/functions/calculate-split/calculations.ts:69-98 | one pass of the loop moves `min(credit, abs(debt))` > 0 between the current pair, records the same amount on both sides, settles at least one of the two (so a cursor advances), and keeps the loop invariant |
| Debts.FinishRemaining | supabase/functions/calculate-split/calculations.ts:69-98 | when a cursor runs off its list, nobody has received or paid more than their balance, everyone before a cursor position that a transfer reached is settled (creditors before some transfer's creditor, debtors before some transfer's debtor), and one whole side is settled |
| Debts.CalculateDebts | supabase/functions/calculate-split/calculations.ts:48-101 | the returned objects are those built by a greedy settlement of the balances; only debtors owe and only creditors are owed, each within their balance; all creditors or all debtors are settled in full, and both exactly when the balances add up to zero |
| Debts.SettlementEntries | supabase/functions/calculate-split/calculations.ts:48-101 | any greedy settlement's objects keep within the balances, entry by entry, and pay one whole side, and both sides exactly when the balances add up to zero |
| Debts.LiftDebts | supabase/functions/calculate-split/calculations.ts:78-93 | in the `debts` object only entries with a negative balance appear, each owing more than 0 and at most their debt, every edge positive |
| Debts.LiftCredits | supabase/functions/calculate-split/calculations.ts:79-92 | in the `credits` object only entries with a positive balance appear, each owed more than 0 and at most their credit, every edge positive |
| Debts.DebtorsPaidInFull | supabase/functions/calculate-split/calculations.ts:93-97 | when every sorted debtor has paid their debt, every entry with a negative balance owes exactly that debt in total |
| Debts.CreditorsPaidInFull | supabase/functions/calculate-split/calculations.ts:92-96 | when every sorted creditor has received their credit, every entry with a positive balance is owed exactly that credit in total |
| Debts.DebtorsPaidBack | supabase/functions/calculate-split/calculations.ts:93-97 | when every entry with a negative balance owes exactly that balance, every sorted debtor has paid in full (the converse of DebtorsPaidInFull) |
| Debts.CreditorsPaidBack | supabase/functions/calculate-split/calculations.ts:92-96 | when every entry with a positive balance is owed exactly that balance, every sorted creditor has received in full |
| Debts.SortTotal | supabase/functions/calculate-split/calculations.ts:63-64 | sorting keeps the sum of the balances |
| Debts.CreditorsDebtorsTotal | supabase/functions/calculate-split/calculations.ts:59-64 | the creditors' and the debtors' balances together add up to the sum of all balances |
| Debts.Conservation | supabase/functions/calculate-split/calculations.ts:81-93 | every transfer reaches one creditor and one debtor: the creditors receive in total, and the debtors pay in total, all that the log moves |
| Debts.EveryoneSettled | supabase/functions/calculate-split/calculations.ts:69-98 | a greedy settlement pays every creditor and every debtor in full exactly when the balances add up to zero |
| Debts.GreedyUnique | supabase/functions/calculate-split/calculations.ts:69-98 | the balances determine their greedy settlement: two logs that both settle them greedily are the same log |
| Split.Balances | supabase/functions/calculate-split/calculations.ts:153-161 | fills the `balances` object participant by participant: one entry per participant, in participant order, holding their id, name and what they spent less the share (`BalanceEntries`) |
| Split.BalancesDistinct | supabase/functions/calculate-split/calculations.ts:153-161 | the balance entries have distinct ids, as the keys of the `balances` object do |
| Split.SumOfBalances | supabase/functions/calculate-split/calculations.ts:153-161 | the balances add up to everything the participants spent less one share per participant |
| Split.BalancesAddUp | supabase/functions/calculate-split/calculations.ts:143-156 | the balances add up to the rounding error of the share: at most half a cent per participant either way |
| Split.RowEdges | supabase/functions/calculate-split/calculations.ts:167-179 | in the result rows only debtors owe and only creditors are owed; each edge is positive and nobody's edges exceed their balance |
| Split.ResultFor | supabase/functions/calculate-split/calculations.ts:170-178 | a participant's row carries what they spent unchanged by `roundHalfUp` (it is whole cents), has `owes` exactly when the `debts` object has the participant's id and `owed` exactly when the `credits` object has it (the `|| undefined`) |
| Split.Rows | supabase/functions/calculate-split/calculations.ts:167-179 | the `participants.map`: rows built from the participants and their balance entries have one row per participant, in order, with their name, id, spending, the share and spent less share as balance |
| Split.RowsPaid | supabase/functions/calculate-split/calculations.ts:167-179 | in the result rows every creditor is owed their whole balance exactly when the `credits` object pays every entry with a positive balance in full, and likewise for debtors and `debts` |
| Split.RowsTotal | supabase/functions/calculate-split/calculations.ts:167-179 | the rows' balances add up to what the `balances` object's balances add up to |
| Split.SettledRows | supabase/functions/calculate-split/calculations.ts:164-179 | in the result rows every creditor is owed their whole balance or every debtor owes their whole balance, and both hold exactly when the rows' balances add up to zero |
| Split.RowsSettle | supabase/functions/calculate-split/calculations.ts:164-179 | rows built from the balances and objects that keep within them carry each participant's name, id, spending, the share and spent less share as balance, and keep their edges within the balances with one side settled |
| Split.Assemble | supabase/functions/calculate-split/calculations.ts:164-186 | rows built from the participant list and its settled balances make up a settlement with all the properties of `Settles` |
| Split.CalculateSplit | supabase/functions/calculate-split/calculations.ts:136-187 | fails with "No participants found" exactly when there are neither guests nor expenses; otherwise returns the participant list, the total, the rounded share and one row per participant with its name, id, spending, share and balance (spent less share), balances that add up to at most half a cent per participant, and exactly the `owes` and `owed` edges of the greedy settlement of those balances: within the balances, one side settled in full, both exactly when the balances add up to zero |
| Split.NoExpenses | supabase/functions/calculate-split/calculations.ts:143-179 | with guests and no expenses the total and the share are 0, and every row has spent, share and balance 0 and no `owes` or `owed` |
| Split.SettlesUnique | supabase/functions/calculate-split/calculations.ts:136-187 | two results that both satisfy the contract of `CalculateSplit` for the same expenses and guests are equal, so the contract fixes the output |
| Split.RowsUnique | supabase/functions/calculate-split/calculations.ts:164-179 | rows carrying the participants' figures and the edges of a greedy settlement of their balances are determined by the participants and the share |
| Participants.ParticipantListUnique | supabase/functions/calculate-split/calculations.ts:104-133 | two lists that both satisfy `IsParticipantList` for the same expenses and guests are equal |
| Scenarios.ThreeParticipantList | supabase/functions/calculate-split/calculations.ts:104-133 | with guests Den, Volmund and Alarak and expenses of 500.00 and 200.00 by Den and 300.00 by Volmund, the participants are the three guests in order, having spent 700.00, 300.00 and 0 |
| Scenarios.ThreeShare | supabase/functions/calculate-split/calculations.ts:143-161 | those expenses total 1000.00, the share is 333.33 and the balances are 366.67, -33.33 and -333.33 |
| Scenarios.ThreeGreedy | supabase/functions/calculate-split/calculations.ts:48-101 | the greedy settlement of those balances moves 333.33 from Alarak to Den and then 33.33 from Volmund to Den |
| Scenarios.ThreeMaps | supabase/functions/calculate-split/calculations.ts:78-89 | the `debts` object records Alarak owing Den 333.33 and Volmund owing Den 33.33, and the `credits` object records Den owed those two amounts in that order |
| Scenarios.UnevenSplit | supabase/functions/calculate-split/index.test.ts:188-274 | any result satisfying the contract of `CalculateSplit` for that meal has total 1000.00 and share 333.33; Den spent 700.00 with balance 366.67 and is owed 333.33 by Alarak and then 33.33 by Volmund, 0.01 short of that balance; Volmund spent 300.00 and owes Den 33.33; Alarak spent nothing and owes Den 333.33; nobody else owes or is owed |
| Scenarios.EqualDebtors | supabase/functions/calculate-split/calculations.ts:60-64 | when every debtor owes the same amount, the sorted debtors are exactly the debtors in participant order |
| Scenarios.TiedDebtors | supabase/functions/calculate-split/calculations.ts:60-64 | of two debtors with equal balances around a creditor, the one first in participant order is the first debtor the loop settles |

## Left out

- Floating point: `toFixed(2)`, `parseFloat` and the `0.01` epsilon work on IEEE-754 doubles. The model uses exact cents, so amounts never drift and "settled" means exactly zero.
- Rounding of the per-participant balance, of transfer amounts, of `total_spent` and of `totalExpenses` is the identity on whole cents (`Money.RoundWholeCents`). Sums of two-decimal floats that are not whole cents do not arise in the model.
- Object key order for ids that look like array indices (`"1"`, `"42"`): JavaScript lists those first, in numeric order, and that would change the order of `balances`. The model keeps participant order, which is what `Object.entries` gives for all other ids.
- Debts.CalculateDebts: the input is a Dafny value, so the source's deep copy (and "the input is left untouched") holds by construction rather than being proved. The working balances are separate sequences.
- Debts.SortLargestFirst: the two comparators of the source (`b - a` for creditors, `a - b` for debtors) are modelled as one stable sort by balance magnitude. It agrees with both because each side holds balances of one sign only. Its contract states stability for entries of equal balance, which on one side are exactly the entries of equal magnitude.
- `recorded_by` and the expense `id` are carried in `Expense` but not used, as in the source, which keys spending by `user_profiles.id`.
- A missing list: `buildParticipantList` treats a missing guest or expense list as empty (`guests?.forEach`, `expenses?.forEach`), and so does `calculateSplit` for a missing guest list. `calculateSplit` does not do so for a missing expense list: `expenses.reduce` at line 143 throws a `TypeError` there. Sequences in the model are never missing, so the model does not represent a missing list, nor that `TypeError`.
- User ids that name `Object.prototype` members (`"constructor"`, `"toString"`, `"hasOwnProperty"`, `"__proto__"`, ...) are not modelled: the model's `debts`, `credits` and `balances` are plain maps, while the source reads and writes them as `{}` objects that inherit those members. In the source, a debtor (creditor) with such an id finds the inherited member at line 78 (79), skips creating a list, and `push` at line 81 (86) throws a `TypeError`, so `calculateSplit` fails where `Split.CalculateSplit` returns `Success`. A participant with such an id and no edges gets the inherited member as `owes` and `owed` at lines 176-177, where the model gives none. Assigning `balances["__proto__"]` at line 157 replaces the prototype instead of adding an own entry, so `Object.entries` at line 54 skips it and `calculateDebts` never sees that participant and leaves their balance unsettled. Ids in the application are authentication UUIDs, which never take these names.
- The HTTP handler, the client pages, the repositories and the Python agent are not part of this model. They do I/O around the calculator or do not call it at all.
