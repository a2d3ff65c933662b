/** The figures the dashboard derives from the stored transactions
    (src/components/Dashboard.tsx): the income and expense totals that
    leave out own-wallet movements, the wallet balance that counts
    everything, and the five people paid the most by transfer. */
module Dashboard {
  import opened Types
  import opened Strings
  import opened Grouping

  // ---------------------------------------------------------------------
  // Totals
  // ---------------------------------------------------------------------

  /** The sum of the amounts of the records that are debits exactly when
      `debit` holds and 'Internal' exactly when `internal` holds. */
  function Bucket(ts: seq<Transaction>, debit: bool, internal: bool): real
    decreases |ts|
  {
    if ts == [] then 0.0
    else
      (if IsDebit(ts[0]) == debit && (ts[0].category == Internal) == internal then ts[0].amount else 0.0)
      + Bucket(ts[1..], debit, internal)
  }

  /** The sum of the amounts of all debits (`debit`) or of all other
      records, whatever their category. */
  function Flow(ts: seq<Transaction>, debit: bool): real
    decreases |ts|
  {
    if ts == [] then 0.0
    else (if IsDebit(ts[0]) == debit then ts[0].amount else 0.0) + Flow(ts[1..], debit)
  }

  /** `income`: money in, own-wallet movements excluded. */
  function Income(ts: seq<Transaction>): real {
    Bucket(ts, false, false)
  }

  /** `expenses`: money out, own-wallet movements excluded. */
  function Expenses(ts: seq<Transaction>): real {
    Bucket(ts, true, false)
  }

  /** `netChange = totalCredit - totalDebit`, everything included. */
  function NetChange(ts: seq<Transaction>): real {
    Flow(ts, false) - Flow(ts, true)
  }

  /** `finalBalance = openingBalance + stats.netChange` */
  function FinalBalance(openingBalance: real, ts: seq<Transaction>): real {
    openingBalance + NetChange(ts)
  }

  lemma {:induction false} BucketAppend(ts: seq<Transaction>, t: Transaction, debit: bool, internal: bool)
    ensures Bucket(ts + [t], debit, internal)
            == Bucket(ts, debit, internal)
               + (if IsDebit(t) == debit && (t.category == Internal) == internal then t.amount else 0.0)
    decreases |ts|
  {
    if ts == [] {
      assert [t][1..] == [];
    } else {
      assert (ts + [t])[1..] == ts[1..] + [t];
      BucketAppend(ts[1..], t, debit, internal);
    }
  }

  lemma {:induction false} FlowAppend(ts: seq<Transaction>, t: Transaction, debit: bool)
    ensures Flow(ts + [t], debit) == Flow(ts, debit) + (if IsDebit(t) == debit then t.amount else 0.0)
    decreases |ts|
  {
    if ts == [] {
      assert [t][1..] == [];
    } else {
      assert (ts + [t])[1..] == ts[1..] + [t];
      FlowAppend(ts[1..], t, debit);
    }
  }

  /** The `stats` memo: one pass over the records with four running
      totals. */
  method ComputeStats(transactions: seq<Transaction>) returns (income: real, expenses: real, netChange: real)
    ensures income == Income(transactions)
    ensures expenses == Expenses(transactions)
    ensures netChange == NetChange(transactions)
  {
    income, expenses := 0.0, 0.0;
    var totalCredit, totalDebit := 0.0, 0.0;
    for i := 0 to |transactions|
      invariant income == Income(transactions[..i])
      invariant expenses == Expenses(transactions[..i])
      invariant totalCredit == Flow(transactions[..i], false)
      invariant totalDebit == Flow(transactions[..i], true)
    {
      var txn := transactions[i];
      assert transactions[..i + 1] == transactions[..i] + [txn];
      BucketAppend(transactions[..i], txn, false, false);
      BucketAppend(transactions[..i], txn, true, false);
      FlowAppend(transactions[..i], txn, false);
      FlowAppend(transactions[..i], txn, true);
      if txn.category != Internal {
        if txn.txnType == Some(Debit) {
          expenses := expenses + txn.amount;
        } else {
          income := income + txn.amount;
        }
      }
      if txn.txnType == Some(Debit) {
        totalDebit := totalDebit + txn.amount;
      } else {
        totalCredit := totalCredit + txn.amount;
      }
    }
    assert transactions[..|transactions|] == transactions;
    netChange := totalCredit - totalDebit;
  }

  /** Each flow is its non-Internal part plus its Internal part. */
  lemma {:induction false} FlowSplits(ts: seq<Transaction>, debit: bool)
    ensures Flow(ts, debit) == Bucket(ts, debit, false) + Bucket(ts, debit, true)
    decreases |ts|
  {
    if ts != [] {
      FlowSplits(ts[1..], debit);
    }
  }

  /** The balance and the cards differ exactly by the own-wallet
      movements: netChange = income - expenses + (Internal money in -
      Internal money out). */
  lemma NetChangeDecomposes(ts: seq<Transaction>)
    ensures NetChange(ts) == Income(ts) - Expenses(ts) + (Bucket(ts, false, true) - Bucket(ts, true, true))
  {
    FlowSplits(ts, false);
    FlowSplits(ts, true);
  }

  lemma {:induction false} NoInternalBucket(ts: seq<Transaction>, debit: bool)
    requires forall i :: 0 <= i < |ts| ==> ts[i].category != Internal
    ensures Bucket(ts, debit, true) == 0.0
    decreases |ts|
  {
    if ts != [] {
      NoInternalBucket(ts[1..], debit);
    }
  }

  /** Without own-wallet movements the net change is income minus
      expenses. */
  lemma NetChangeWithoutInternal(ts: seq<Transaction>)
    requires forall i :: 0 <= i < |ts| ==> ts[i].category != Internal
    ensures NetChange(ts) == Income(ts) - Expenses(ts)
  {
    NetChangeDecomposes(ts);
    NoInternalBucket(ts, false);
    NoInternalBucket(ts, true);
  }

  /** `addTransaction` puts a record on top of the collection: a debit
      lowers the balance by its amount and anything else raises it; the
      cards move only for non-Internal records. */
  lemma AddTransactionEffect(openingBalance: real, t: Transaction, ts: seq<Transaction>)
    ensures FinalBalance(openingBalance, [t] + ts)
            == FinalBalance(openingBalance, ts) + (if IsDebit(t) then -t.amount else t.amount)
    ensures Income([t] + ts) == Income(ts) + (if !IsDebit(t) && t.category != Internal then t.amount else 0.0)
    ensures Expenses([t] + ts) == Expenses(ts) + (if IsDebit(t) && t.category != Internal then t.amount else 0.0)
  {
    assert ([t] + ts)[1..] == ts;
  }

  /** An own-wallet movement changes the balance but neither card. */
  lemma InternalOnlyMovesBalance(t: Transaction, ts: seq<Transaction>)
    requires t.category == Internal
    ensures Income([t] + ts) == Income(ts) && Expenses([t] + ts) == Expenses(ts)
    ensures NetChange([t] + ts) != NetChange(ts) <==> t.amount != 0.0
  {
    assert ([t] + ts)[1..] == ts;
  }

  /** An auto-save of 1000, a meal of 500 and an untyped inflow of 2000:
      the cards show 2000 in and 500 out, the balance moves by only 500,
      since the auto-save left the wallet. */
  lemma StatsExample(save: Transaction, meal: Transaction, inflow: Transaction)
    requires save.category == Internal && IsDebit(save) && save.amount == 1000.0
    requires meal.category == Food && IsDebit(meal) && meal.amount == 500.0
    requires inflow.category == Salary && inflow.txnType == None && inflow.amount == 2000.0
    ensures Income([save, meal, inflow]) == 2000.0
    ensures Expenses([save, meal, inflow]) == 500.0
    ensures NetChange([save, meal, inflow]) == 500.0
  {
    assert [inflow][1..] == [];
    assert Bucket([], true, false) == 0.0 && Bucket([], false, false) == 0.0;
    assert !IsDebit(inflow);
    assert Bucket([inflow], false, false) == 2000.0 && Bucket([inflow], true, false) == 0.0;
    assert Flow([inflow], false) == 2000.0 && Flow([inflow], true) == 0.0;
    assert [meal, inflow][1..] == [inflow];
    assert Bucket([meal, inflow], false, false) == 2000.0 && Bucket([meal, inflow], true, false) == 500.0;
    assert Flow([meal, inflow], false) == 2000.0 && Flow([meal, inflow], true) == 500.0;
    assert [save, meal, inflow][1..] == [meal, inflow];
    assert Flow([save, meal, inflow], true) == 1500.0;
  }

  // ---------------------------------------------------------------------
  // Top recipients
  // ---------------------------------------------------------------------

  /** `.replace(/Transfer to /i, '').replace(/POS Transfer-/i, '')` */
  function StripTransferWords(receiver: string): string {
    RemoveFirstIgnoreCase(RemoveFirstIgnoreCase(receiver, "Transfer to "), "POS Transfer-")
  }

  /** The payee name read from a receiver: the transfer words removed, the
      text cut at the first '|' (`split('|')[0]`), and trimmed. */
  function RecipientName(receiver: string): (name: string)
    ensures '|' !in name
    ensures |name| > 0 ==> !IsSpace(name[0]) && !IsSpace(name[|name| - 1])
  {
    var head := BeforeFirst(StripTransferWords(receiver), '|');
    TrimKeepsOut(head, '|');
    TrimSpec(head);
    Trim(head)
  }

  /** Trimming cuts a slice out, so it adds no character. */
  lemma TrimKeepsOut(s: string, c: char)
    requires c !in s
    ensures c !in Trim(s)
  {
    var r := Trim(s);
    TrimSpec(s);
    var i, j :| 0 <= i <= j <= |s| && r == s[i..j];
    forall m | 0 <= m < |r| ensures r[m] != c {
      assert r[m] == s[i + m];
    }
  }

  /** A receiver "Transfer to X", with X free of '|' and of "POS
      Transfer-", names X trimmed. */
  lemma RecipientOfTransferTo(x: string)
    requires '|' !in x
    requires forall i :: !MatchesAtIgnoreCase(x, "POS Transfer-", i)
    ensures RecipientName("Transfer to " + x) == Trim(x)
  {
    var s := "Transfer to " + x;
    assert s[..12] == "Transfer to ";
    assert MatchesAtIgnoreCase(s, "Transfer to ", 0);
    assert RemoveFirstIgnoreCase(s, "Transfer to ") == s[..0] + s[12..];
    RemoveFirstSpec(s, "Transfer to ");
    RemoveFirstSpec(x, "POS Transfer-");
    assert s[..0] + s[12..] == x;
  }

  /** What the `forEach` adds to `people` for one record: only a debit
      categorized 'Transfer' whose name is not empty (`if (name)`) counts,
      under its name. */
  function Payment(t: Transaction): Option<Entry<string>> {
    if IsDebit(t) && t.category == Transfer && RecipientName(t.receiver) != ""
    then Some(Entry(RecipientName(t.receiver), t.amount))
    else None
  }

  /** The (name, amount) pairs added to `people`, in order. */
  function RecipientPairs(ts: seq<Transaction>): seq<Entry<string>> {
    Collect(ts, Payment)
  }

  /** `Object.entries(people)`: one entry per name, in first-payment
      order. */
  function Recipients(ts: seq<Transaction>): seq<Entry<string>> {
    GroupSum(RecipientPairs(ts))
  }

  /** The total paid to a name by transfer debits. */
  function PaidTo(ts: seq<Transaction>, name: string): real {
    PickedSum(ts, Payment, name)
  }

  /** The `topRecipients` memo: the `people` record is filled by a loop,
      then its entries are sorted by amount, largest first, and cut to
      five. */
  method TopRecipients(transactions: seq<Transaction>) returns (top: seq<Entry<string>>)
    ensures top == Top(Recipients(transactions), 5)
  {
    var people := new Record<string>();
    for i := 0 to |transactions|
      invariant people.Valid()
      invariant people.Entries() == GroupSum(RecipientPairs(transactions[..i]))
    {
      var txn := transactions[i];
      assert transactions[..i + 1] == transactions[..i] + [txn];
      if txn.txnType == Some(Debit) && txn.category == Transfer {
        var name := RecipientName(txn.receiver);
        if name != "" {
          assert Payment(txn) == Some(Entry(name, txn.amount));
          GroupSumPicked(transactions[..i], txn, Payment);
          people.Bump(name, txn.amount);
        } else {
          GroupSumSkipped(transactions[..i], txn, Payment);
        }
      } else {
        GroupSumSkipped(transactions[..i], txn, Payment);
      }
    }
    assert transactions[..|transactions|] == transactions;
    top := Top(people.Entries(), 5);
  }

  /** What `topRecipients` promises: at most five entries, largest first,
      each name once, each a non-empty name some transfer debit was paid
      to, holding the total paid to it; and when there are at most five
      names, all of them. */
  lemma TopRecipientsSpec(ts: seq<Transaction>)
    ensures |Top(Recipients(ts), 5)| <= 5
    ensures |Recipients(ts)| <= 5 ==> |Top(Recipients(ts), 5)| == |Recipients(ts)|
    ensures SortedDesc(Top(Recipients(ts), 5))
    ensures DistinctKeys(Top(Recipients(ts), 5))
    ensures forall e :: e in Top(Recipients(ts), 5) ==>
              e.key != "" && e.amount == PaidTo(ts, e.key)
              && exists j :: 0 <= j < |ts| && IsDebit(ts[j]) && ts[j].category == Transfer
                             && RecipientName(ts[j].receiver) == e.key
  {
    var pairs := RecipientPairs(ts);
    var rs := Recipients(ts);
    TopSpec(rs, 5);
    GroupSumKeys(pairs);
    GroupSumAmounts(pairs);
    TopEntries(rs, 5);
    CollectFrom(ts, Payment);
    forall e | e in Top(rs, 5)
      ensures e.key != "" && e.amount == PaidTo(ts, e.key)
              && exists j :: 0 <= j < |ts| && IsDebit(ts[j]) && ts[j].category == Transfer
                             && RecipientName(ts[j].receiver) == e.key
    {
      var i :| 0 <= i < |rs| && rs[i] == e;
      assert KeysOf(rs)[i] == e.key;
      assert e.key in KeysOf(pairs);
      var k :| 0 <= k < |pairs| && KeysOf(pairs)[k] == e.key;
      assert pairs[k] in pairs;
      var j :| 0 <= j < |ts| && Payment(ts[j]) == Some(pairs[k]);
      SumForCollect(ts, Payment, e.key);
    }
  }

  /** Every name paid by a transfer debit is listed in `people`, so it is
      in the result unless five names have at least as much. */
  lemma EveryPayeeListed(ts: seq<Transaction>, j: nat)
    requires j < |ts| && IsDebit(ts[j]) && ts[j].category == Transfer && RecipientName(ts[j].receiver) != ""
    ensures RecipientName(ts[j].receiver) in KeysOf(Recipients(ts))
  {
    CollectFrom(ts, Payment);
    assert Payment(ts[j]).Some?;
    GroupSumKeys(RecipientPairs(ts));
  }

  /** No name left out has been paid more than a name shown. */
  lemma TopRecipientsLargest(ts: seq<Transaction>)
    ensures exists rest: seq<Entry<string>> ::
              multiset(Top(Recipients(ts), 5)) + multiset(rest) == multiset(Recipients(ts))
              && NoneLarger(rest, Top(Recipients(ts), 5))
  {
    TopKeepsLargest(Recipients(ts), 5);
  }

  /** Ties keep the order in which the names were first paid: the sort
      is stable and `people` lists names in first-payment order. */
  lemma RecipientTiesKeepOrder(ts: seq<Transaction>, v: real)
    ensures WithAmount(SortDesc(Recipients(ts)), v) == WithAmount(Recipients(ts), v)
    ensures forall k :: k in KeysOf(Recipients(ts)) ==> k in KeysOf(RecipientPairs(ts))
    ensures forall i, j :: 0 <= i < j < |Recipients(ts)| ==>
              FirstIndex(RecipientPairs(ts), Recipients(ts)[i].key) < FirstIndex(RecipientPairs(ts), Recipients(ts)[j].key)
  {
    SortDescStable(Recipients(ts), v);
    GroupSumOrder(RecipientPairs(ts));
  }

  /** Credits and non-transfer debits leave the recipients unchanged. */
  lemma RecipientsIgnoreOthers(ts: seq<Transaction>, t: Transaction)
    requires !IsDebit(t) || t.category != Transfer
    ensures Recipients(ts + [t]) == Recipients(ts)
  {
    assert Payment(t) == None;
    CollectStep(ts, t, Payment);
    assert RecipientPairs(ts) + [] == RecipientPairs(ts);
  }
}
