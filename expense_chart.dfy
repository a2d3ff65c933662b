/** The data behind the expenses pie chart (src/components/ExpenseChart.tsx):
    the debit total of every category, in the order the categories first
    appear, without the totals that are not positive, and the colour each
    slice is filled with. */
module ExpenseChart {
  import opened Types
  import opened Grouping
  import Dashboard

  /** `COLORS`: seven categories have a chart colour of their own. */
  const COLORS: map<string, string> := map[
    "Food" := "#F97316",
    "Transport" := "#3B82F6",
    "Utilities" := "#A855F7",
    "Shopping" := "#EC4899",
    "Transfer" := "#10B981",
    "Salary" := "#14B8A6",
    "Uncategorized" := "#94A3B8"
  ]

  /** The gray a slice gets when its name has no colour. */
  const GRAY := "#94A3B8"

  /** `COLORS[entry.name] || '#94A3B8'`: every colour in the table is a
      non-empty string, so the table wins whenever it has the name. */
  function FillColor(name: string): (color: string)
    ensures name in COLORS ==> color == COLORS[name]
    ensures name !in COLORS ==> color == GRAY
  {
    if name in COLORS && COLORS[name] != "" then COLORS[name] else GRAY
  }

  /** What the `forEach` adds to `categoryTotals` for one record: a debit
      counts under its category; everything else is skipped. Internal
      debits are not filtered out here, unlike on the dashboard cards. */
  function Spending(t: Transaction): Option<Entry<Category>> {
    if IsDebit(t) then Some(Entry(t.category, t.amount)) else None
  }

  /** The (category, amount) pairs added to `categoryTotals`, in order. */
  function SpendingPairs(ts: seq<Transaction>): seq<Entry<Category>> {
    Collect(ts, Spending)
  }

  /** `Object.entries(categoryTotals)`, one entry per category. */
  function CategoryTotals(ts: seq<Transaction>): seq<Entry<Category>> {
    GroupSum(SpendingPairs(ts))
  }

  /** The sum of the debits of one category. */
  function DebitTotal(ts: seq<Transaction>, c: Category): real {
    PickedSum(ts, Spending, c)
  }

  /** `.filter(item => item.value > 0)` */
  function KeepPositive<K>(es: seq<Entry<K>>): seq<Entry<K>>
    decreases |es|
  {
    if es == [] then []
    else
      var last := es[|es| - 1];
      KeepPositive(es[..|es| - 1]) + (if last.amount > 0.0 then [last] else [])
  }

  /** The `data` memo. */
  function ChartData(ts: seq<Transaction>): seq<Entry<Category>> {
    KeepPositive(CategoryTotals(ts))
  }

  /** The `data` memo as the component computes it: the record is filled
      by a loop, then its entries are filtered. */
  method ComputeChartData(transactions: seq<Transaction>) returns (data: seq<Entry<Category>>)
    ensures data == ChartData(transactions)
  {
    var categoryTotals := new Record<Category>();
    for i := 0 to |transactions|
      invariant categoryTotals.Valid()
      invariant categoryTotals.Entries() == GroupSum(SpendingPairs(transactions[..i]))
    {
      var t := transactions[i];
      assert transactions[..i + 1] == transactions[..i] + [t];
      if t.txnType == Some(Debit) {
        assert Spending(t) == Some(Entry(t.category, t.amount));
        GroupSumPicked(transactions[..i], t, Spending);
        categoryTotals.Bump(t.category, t.amount);
      } else {
        GroupSumSkipped(transactions[..i], t, Spending);
      }
    }
    assert transactions[..|transactions|] == transactions;
    data := KeepPositive(categoryTotals.Entries());
  }

  // ---------------------------------------------------------------------
  // The filter
  // ---------------------------------------------------------------------

  /** The filter keeps exactly the positive entries. */
  lemma {:induction false} KeepPositiveMembers<K>(es: seq<Entry<K>>)
    ensures forall e :: e in KeepPositive(es) <==> e in es && e.amount > 0.0
    decreases |es|
  {
    if es != [] {
      var init := es[..|es| - 1];
      KeepPositiveMembers(init);
      assert es == init + [es[|es| - 1]];
    }
  }

  lemma KeptMember<K>(es: seq<Entry<K>>, e: Entry<K>)
    requires e in KeepPositive(es)
    ensures e in es && e.amount > 0.0
  {
    KeepPositiveMembers(es);
  }

  /** The filter keeps keys distinct. */
  lemma {:induction false} KeepPositiveDistinct<K>(es: seq<Entry<K>>)
    requires DistinctKeys(es)
    ensures DistinctKeys(KeepPositive(es))
    decreases |es|
  {
    if es != [] {
      var init, last := es[..|es| - 1], es[|es| - 1];
      assert DistinctKeys(init) by {
        forall i, j | 0 <= i < j < |init| ensures init[i].key != init[j].key {
          assert init[i] == es[i] && init[j] == es[j];
        }
      }
      KeepPositiveDistinct(init);
      KeepPositiveMembers(init);
      var r := KeepPositive(es);
      var ri := KeepPositive(init);
      if last.amount > 0.0 {
        assert r == ri + [last];
        forall i, j | 0 <= i < j < |r| ensures r[i].key != r[j].key {
          if j == |ri| {
            var x := ri[i];
            assert r[i] == x && x in KeepPositive(init);
            KeptMember(init, x);
            var p :| 0 <= p < |init| && init[p] == x;
            assert es[p] == x;
          } else {
            assert r[i] == ri[i] && r[j] == ri[j];
          }
        }
      } else {
        assert r == ri + [] && ri + [] == ri;
      }
    }
  }

  /** Keys listed in the order of their first pair. */
  ghost predicate FirstSeenOrder<K>(es: seq<Entry<K>>, pairs: seq<Entry<K>>) {
    && (forall i :: 0 <= i < |es| ==> es[i].key in KeysOf(pairs))
    && (forall i, j :: 0 <= i < j < |es| ==> FirstIndex(pairs, es[i].key) < FirstIndex(pairs, es[j].key))
  }

  /** The filter keeps the order of what it keeps. */
  lemma {:induction false} KeepPositiveOrder<K>(es: seq<Entry<K>>, pairs: seq<Entry<K>>)
    requires FirstSeenOrder(es, pairs)
    ensures FirstSeenOrder(KeepPositive(es), pairs)
    decreases |es|
  {
    if es != [] {
      var init, last := es[..|es| - 1], es[|es| - 1];
      assert FirstSeenOrder(init, pairs) by {
        forall i | 0 <= i < |init| ensures init[i] == es[i] { }
      }
      KeepPositiveOrder(init, pairs);
      var ri := KeepPositive(init);
      if last.amount > 0.0 {
        assert KeepPositive(es) == ri + [last];
        forall x | x in ri
          ensures x.key in KeysOf(pairs) && FirstIndex(pairs, x.key) < FirstIndex(pairs, last.key)
        {
          KeptEarlier(es, pairs, x);
        }
        FirstSeenSnoc(ri, last, pairs);
      } else {
        assert KeepPositive(es) == ri + [] && ri + [] == ri;
      }
    }
  }

  /** What the filter keeps of the front comes before the last entry. */
  lemma KeptEarlier<K>(es: seq<Entry<K>>, pairs: seq<Entry<K>>, x: Entry<K>)
    requires FirstSeenOrder(es, pairs) && es != [] && x in KeepPositive(es[..|es| - 1])
    ensures x.key in KeysOf(pairs) && FirstIndex(pairs, x.key) < FirstIndex(pairs, es[|es| - 1].key)
  {
    var init := es[..|es| - 1];
    KeptMember(init, x);
    var p :| 0 <= p < |init| && init[p] == x;
    assert es[p] == x;
  }

  lemma FirstSeenSnoc<K>(es: seq<Entry<K>>, last: Entry<K>, pairs: seq<Entry<K>>)
    requires FirstSeenOrder(es, pairs) && last.key in KeysOf(pairs)
    requires forall x | x in es :: x.key in KeysOf(pairs) && FirstIndex(pairs, x.key) < FirstIndex(pairs, last.key)
    ensures FirstSeenOrder(es + [last], pairs)
  {
    var r := es + [last];
    forall i, j | 0 <= i < j < |r| ensures FirstIndex(pairs, r[i].key) < FirstIndex(pairs, r[j].key) {
      assert r[i] == es[i];
      if j < |es| {
        assert r[j] == es[j];
      } else {
        assert es[i] in es;
      }
    }
  }

  // ---------------------------------------------------------------------
  // What the chart shows
  // ---------------------------------------------------------------------

  /** A category has a slice exactly when its debits sum to more than
      zero; it has one slice, holding that sum; and the slices come in the
      order in which each category's first debit appears. */
  lemma ChartDataSpec(ts: seq<Transaction>)
    ensures DistinctKeys(ChartData(ts))
    ensures forall c :: c in KeysOf(ChartData(ts)) <==> DebitTotal(ts, c) > 0.0
    ensures forall i :: 0 <= i < |ChartData(ts)| ==> ChartData(ts)[i].amount == DebitTotal(ts, ChartData(ts)[i].key)
    ensures FirstSeenOrder(ChartData(ts), SpendingPairs(ts))
  {
    var pairs := SpendingPairs(ts);
    GroupSumSpec(pairs);
    KeepPositiveDistinct(CategoryTotals(ts));
    KeepPositiveOrder(CategoryTotals(ts), pairs);
    ChartAmounts(ts);
    ChartKeys(ts);
  }

  lemma ChartAmounts(ts: seq<Transaction>)
    ensures forall i :: 0 <= i < |ChartData(ts)| ==> ChartData(ts)[i].amount == DebitTotal(ts, ChartData(ts)[i].key)
  {
    var pairs, totals, data := SpendingPairs(ts), CategoryTotals(ts), ChartData(ts);
    GroupSumSpec(pairs);
    forall i | 0 <= i < |data| ensures data[i].amount == DebitTotal(ts, data[i].key) {
      KeptMember(totals, data[i]);
      var p :| 0 <= p < |totals| && totals[p] == data[i];
      SumForCollect(ts, Spending, data[i].key);
    }
  }

  lemma ChartKeys(ts: seq<Transaction>)
    ensures forall c :: c in KeysOf(ChartData(ts)) <==> DebitTotal(ts, c) > 0.0
  {
    forall c ensures c in KeysOf(ChartData(ts)) <==> DebitTotal(ts, c) > 0.0 {
      if c in KeysOf(ChartData(ts)) {
        ChartedIsPositive(ts, c);
      }
      if DebitTotal(ts, c) > 0.0 {
        PositiveIsCharted(ts, c);
      }
    }
  }

  lemma ChartedIsPositive(ts: seq<Transaction>, c: Category)
    requires c in KeysOf(ChartData(ts))
    ensures DebitTotal(ts, c) > 0.0
  {
    var totals, data := CategoryTotals(ts), ChartData(ts);
    GroupSumSpec(SpendingPairs(ts));
    SumForCollect(ts, Spending, c);
    var i :| 0 <= i < |data| && KeysOf(data)[i] == c;
    KeptMember(totals, data[i]);
    var p :| 0 <= p < |totals| && totals[p] == data[i];
  }

  lemma PositiveIsCharted(ts: seq<Transaction>, c: Category)
    requires DebitTotal(ts, c) > 0.0
    ensures c in KeysOf(ChartData(ts))
  {
    var pairs, totals, data := SpendingPairs(ts), CategoryTotals(ts), ChartData(ts);
    GroupSumSpec(pairs);
    SumForCollect(ts, Spending, c);
    if c !in KeysOf(pairs) {
      SumForAbsent(pairs, c);
    }
    var p :| 0 <= p < |totals| && KeysOf(totals)[p] == c;
    KeepPositiveMembers(totals);
    assert totals[p] in data;
    var i :| 0 <= i < |data| && data[i] == totals[p];
    assert KeysOf(data)[i] == c;
  }

  /** Credits do not change the chart. */
  lemma CreditsNotCharted(ts: seq<Transaction>, t: Transaction)
    requires !IsDebit(t)
    ensures ChartData(ts + [t]) == ChartData(ts)
  {
    assert Spending(t) == None;
    CollectStep(ts, t, Spending);
    assert SpendingPairs(ts) + [] == SpendingPairs(ts);
  }

  /** An own-wallet debit shows up in the chart although the dashboard's
      expense card leaves it out. */
  lemma InternalDebitCharted(t: Transaction)
    requires IsDebit(t) && t.category == Internal && t.amount > 0.0
    ensures ChartData([t]) == [Entry(Internal, t.amount)]
    ensures Dashboard.Expenses([t]) == 0.0
  {
    var e := Entry(Internal, t.amount);
    assert [] + [t] == [t];
    CollectStep([], t, Spending);
    assert SpendingPairs([t]) == [e];
    assert [e][..0] == [];
    assert GroupSum<Category>([]) == [];
    assert CategoryTotals([t]) == AddTo([], Internal, t.amount);
    assert KeepPositive([e]) == KeepPositive([]) + [e];
    assert [t][1..] == [];
    assert Dashboard.Bucket([], true, false) == 0.0;
  }

  // ---------------------------------------------------------------------
  // Colours
  // ---------------------------------------------------------------------

  /** The slices of six categories take the colour `CATEGORIES` gives
      them; Entertainment, Fees and Internal have no entry and fall back to
      gray, and Uncategorized is gray in the chart although `CATEGORIES`
      gives it a lighter shade. */
  lemma SliceColors(c: Category)
    ensures FillColor(CategoryName(c)) == GRAY <==> c in {Entertainment, Fees, Internal, Uncategorized}
    ensures c !in {Entertainment, Fees, Internal, Uncategorized} ==> FillColor(CategoryName(c)) == CategoryColor(c)
    ensures c in {Entertainment, Fees, Internal} ==> CategoryName(c) !in COLORS
    ensures FillColor(CategoryName(Uncategorized)) != CategoryColor(Uncategorized)
  {
    CategoriesInDeclarationOrder();
  }
}
