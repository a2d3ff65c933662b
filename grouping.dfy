/** Totals per key in a plain JavaScript object used as a dictionary
    (`record[k] = (record[k] || 0) + amount`, read back with
    `Object.entries`, which lists keys in insertion order), and the stable
    descending sort `sort((a, b) => b.amount - a.amount)` applied to such
    entries. Both the dashboard and the expense chart use them. */
module Grouping {
  import opened Types

  datatype Entry<K> = Entry(key: K, amount: real)

  function KeysOf<K>(es: seq<Entry<K>>): (ks: seq<K>)
    ensures |ks| == |es| && forall i :: 0 <= i < |es| ==> ks[i] == es[i].key
  {
    seq(|es|, i requires 0 <= i < |es| => es[i].key)
  }

  ghost predicate DistinctKeys<K>(es: seq<Entry<K>>) {
    forall i, j :: 0 <= i < j < |es| ==> es[i].key != es[j].key
  }

  // ---------------------------------------------------------------------
  // Accumulating per key
  // ---------------------------------------------------------------------

  /** The entries after `record[k] = (record[k] || 0) + a`: an existing
      key keeps its place and grows by a, a new key goes last. */
  function AddTo<K(==)>(es: seq<Entry<K>>, k: K, a: real): seq<Entry<K>>
    decreases |es|
  {
    if es == [] then [Entry(k, a)]
    else if es[0].key == k then [Entry(k, es[0].amount + a)] + es[1..]
    else [es[0]] + AddTo(es[1..], k, a)
  }

  lemma {:induction false} AddToExisting<K>(es: seq<Entry<K>>, k: K, a: real, i: nat)
    requires DistinctKeys(es) && i < |es| && es[i].key == k
    ensures AddTo(es, k, a) == es[i := Entry(k, es[i].amount + a)]
    decreases |es|
  {
    if i > 0 {
      AddToExisting(es[1..], k, a, i - 1);
    }
  }

  lemma {:induction false} AddToNew<K>(es: seq<Entry<K>>, k: K, a: real)
    requires k !in KeysOf(es)
    ensures AddTo(es, k, a) == es + [Entry(k, a)]
    decreases |es|
  {
    if es != [] {
      assert es[0].key != k;
      assert KeysOf(es[1..]) == KeysOf(es)[1..];
      AddToNew(es[1..], k, a);
    }
  }

  /** The entries of the dictionary filled from pairs, in insertion order. */
  function GroupSum<K(==)>(pairs: seq<Entry<K>>): seq<Entry<K>>
    decreases |pairs|
  {
    if pairs == [] then []
    else
      var last := pairs[|pairs| - 1];
      AddTo(GroupSum(pairs[..|pairs| - 1]), last.key, last.amount)
  }

  /** The sum of the amounts paired with k. */
  function SumFor<K(==)>(pairs: seq<Entry<K>>, k: K): real
    decreases |pairs|
  {
    if pairs == [] then 0.0
    else
      var last := pairs[|pairs| - 1];
      SumFor(pairs[..|pairs| - 1], k) + (if last.key == k then last.amount else 0.0)
  }

  /** The sum of all amounts. */
  function SumAll<K>(es: seq<Entry<K>>): real
    decreases |es|
  {
    if es == [] then 0.0 else SumAll(es[..|es| - 1]) + es[|es| - 1].amount
  }

  /** The position at which k is first paired. */
  function FirstIndex<K(==)>(pairs: seq<Entry<K>>, k: K): (i: nat)
    requires k in KeysOf(pairs)
    ensures i < |pairs| && pairs[i].key == k
    ensures forall j :: 0 <= j < i ==> pairs[j].key != k
    decreases |pairs|
  {
    if pairs[0].key == k then 0
    else
      assert KeysOf(pairs[1..]) == KeysOf(pairs)[1..];
      1 + FirstIndex(pairs[1..], k)
  }

  /** Adding to a dictionary keeps its keys distinct; the key list grows
      only by a new key, at the end. */
  lemma AddToKeys<K>(es: seq<Entry<K>>, k: K, a: real)
    requires DistinctKeys(es)
    ensures DistinctKeys(AddTo(es, k, a))
    ensures KeysOf(AddTo(es, k, a)) == if k in KeysOf(es) then KeysOf(es) else KeysOf(es) + [k]
  {
    if k in KeysOf(es) {
      var i :| 0 <= i < |es| && es[i].key == k;
      AddToExisting(es, k, a, i);
      assert KeysOf(AddTo(es, k, a)) == KeysOf(es);
    } else {
      AddToNew(es, k, a);
      assert KeysOf(AddTo(es, k, a)) == KeysOf(es) + [k];
    }
  }

  /** The dictionary has one entry per key that occurs, no other, and each
      key once. */
  lemma {:induction false} GroupSumKeys<K>(pairs: seq<Entry<K>>)
    ensures DistinctKeys(GroupSum(pairs))
    ensures forall k :: k in KeysOf(GroupSum(pairs)) <==> k in KeysOf(pairs)
    decreases |pairs|
  {
    if pairs != [] {
      var init, last := pairs[..|pairs| - 1], pairs[|pairs| - 1];
      GroupSumKeys(init);
      var g := GroupSum(init);
      assert GroupSum(pairs) == AddTo(g, last.key, last.amount);
      AddToKeys(g, last.key, last.amount);
      var ks := KeysOf(AddTo(g, last.key, last.amount));
      assert KeysOf(pairs) == KeysOf(init) + [last.key];
      forall k ensures k in ks <==> k in KeysOf(pairs) {
        assert k in KeysOf(pairs) <==> k in KeysOf(init) || k == last.key;
      }
    }
  }

  /** A key that does not occur sums to zero. */
  lemma {:induction false} SumForAbsent<K>(pairs: seq<Entry<K>>, k: K)
    requires k !in KeysOf(pairs)
    ensures SumFor(pairs, k) == 0.0
    decreases |pairs|
  {
    if pairs != [] {
      assert KeysOf(pairs[..|pairs| - 1]) == KeysOf(pairs)[..|pairs| - 1];
      SumForAbsent(pairs[..|pairs| - 1], k);
    }
  }

  /** Each entry holds the sum of its key's amounts. */
  lemma {:induction false} GroupSumAmounts<K>(pairs: seq<Entry<K>>)
    ensures forall i :: 0 <= i < |GroupSum(pairs)| ==>
              GroupSum(pairs)[i].amount == SumFor(pairs, GroupSum(pairs)[i].key)
    decreases |pairs|
  {
    if pairs != [] {
      var init, last := pairs[..|pairs| - 1], pairs[|pairs| - 1];
      GroupSumAmounts(init);
      GroupSumKeys(init);
      var g := GroupSum(init);
      assert GroupSum(pairs) == AddTo(g, last.key, last.amount);
      if last.key in KeysOf(g) {
        var p :| 0 <= p < |g| && g[p].key == last.key;
        AddToExisting(g, last.key, last.amount, p);
        AmountsAfterExisting(init, last, g, p);
      } else {
        AddToNew(g, last.key, last.amount);
        SumForAbsent(init, last.key);
        AmountsAfterNew(init, last, g);
      }
    }
  }

  lemma AmountsAfterExisting<K>(init: seq<Entry<K>>, last: Entry<K>, g: seq<Entry<K>>, p: nat)
    requires forall i :: 0 <= i < |g| ==> g[i].amount == SumFor(init, g[i].key)
    requires DistinctKeys(g) && p < |g| && g[p].key == last.key
    ensures var g' := g[p := Entry(last.key, g[p].amount + last.amount)];
            forall i :: 0 <= i < |g'| ==> g'[i].amount == SumFor(init + [last], g'[i].key)
  {
    var pairs := init + [last];
    assert pairs[..|pairs| - 1] == init;
    var g' := g[p := Entry(last.key, g[p].amount + last.amount)];
    forall i | 0 <= i < |g'| ensures g'[i].amount == SumFor(pairs, g'[i].key) {
      assert SumFor(pairs, g'[i].key) == SumFor(init, g'[i].key) + (if last.key == g'[i].key then last.amount else 0.0);
      if i != p {
        assert g'[i] == g[i] && g[i].key != g[p].key;
      }
    }
  }

  lemma AmountsAfterNew<K>(init: seq<Entry<K>>, last: Entry<K>, g: seq<Entry<K>>)
    requires forall i :: 0 <= i < |g| ==> g[i].amount == SumFor(init, g[i].key)
    requires last.key !in KeysOf(g) && SumFor(init, last.key) == 0.0
    ensures var g' := g + [Entry(last.key, last.amount)];
            forall i :: 0 <= i < |g'| ==> g'[i].amount == SumFor(init + [last], g'[i].key)
  {
    var pairs := init + [last];
    assert pairs[..|pairs| - 1] == init;
    var g' := g + [Entry(last.key, last.amount)];
    forall i | 0 <= i < |g'| ensures g'[i].amount == SumFor(pairs, g'[i].key) {
      assert SumFor(pairs, g'[i].key) == SumFor(init, g'[i].key) + (if last.key == g'[i].key then last.amount else 0.0);
      if i < |g| {
        assert g'[i] == g[i] && KeysOf(g)[i] == g[i].key;
      }
    }
  }

  lemma FirstIndexExtend<K>(init: seq<Entry<K>>, last: Entry<K>, k: K)
    requires k in KeysOf(init)
    ensures k in KeysOf(init + [last])
    ensures FirstIndex(init + [last], k) == FirstIndex(init, k)
  {
    var fi := FirstIndex(init, k);
    assert (init + [last])[fi] == init[fi];
  }

  /** Keys are listed in the order of their first occurrence. */
  lemma {:induction false} GroupSumOrder<K>(pairs: seq<Entry<K>>)
    ensures forall k :: k in KeysOf(GroupSum(pairs)) ==> k in KeysOf(pairs)
    ensures forall i, j :: 0 <= i < j < |GroupSum(pairs)| ==>
              FirstIndex(pairs, GroupSum(pairs)[i].key) < FirstIndex(pairs, GroupSum(pairs)[j].key)
    decreases |pairs|
  {
    GroupSumKeys(pairs);
    if pairs != [] {
      var init, last := pairs[..|pairs| - 1], pairs[|pairs| - 1];
      assert pairs == init + [last];
      GroupSumOrder(init);
      GroupSumKeys(init);
      var g := GroupSum(init);
      var g' := GroupSum(pairs);
      AddToKeys(g, last.key, last.amount);
      forall k | k in KeysOf(g) ensures FirstIndex(pairs, k) == FirstIndex(init, k) {
        FirstIndexExtend(init, last, k);
      }
      forall i, j | 0 <= i < j < |g'|
        ensures FirstIndex(pairs, g'[i].key) < FirstIndex(pairs, g'[j].key)
      {
        assert KeysOf(g')[i] == g'[i].key && KeysOf(g')[j] == g'[j].key;
        if j < |g| {
          assert g'[i].key == g[i].key && g'[j].key == g[j].key;
        } else {
          assert g'[j].key == last.key;
          assert last.key !in KeysOf(init);
          assert FirstIndex(pairs, last.key) == |init|;
        }
      }
    }
  }

  /** The three facts together. */
  lemma GroupSumSpec<K>(pairs: seq<Entry<K>>)
    ensures DistinctKeys(GroupSum(pairs))
    ensures forall k :: k in KeysOf(GroupSum(pairs)) <==> k in KeysOf(pairs)
    ensures forall i :: 0 <= i < |GroupSum(pairs)| ==>
              GroupSum(pairs)[i].amount == SumFor(pairs, GroupSum(pairs)[i].key)
    ensures forall i, j :: 0 <= i < j < |GroupSum(pairs)| ==>
              FirstIndex(pairs, GroupSum(pairs)[i].key) < FirstIndex(pairs, GroupSum(pairs)[j].key)
  {
    GroupSumKeys(pairs);
    GroupSumAmounts(pairs);
    GroupSumOrder(pairs);
  }

  /** Grouping keeps the overall sum. */
  lemma {:induction false} GroupSumKeepsTotal<K>(pairs: seq<Entry<K>>)
    ensures SumAll(GroupSum(pairs)) == SumAll(pairs)
    decreases |pairs|
  {
    if pairs != [] {
      var init, last := pairs[..|pairs| - 1], pairs[|pairs| - 1];
      GroupSumKeepsTotal(init);
      AddToKeepsTotal(GroupSum(init), last.key, last.amount);
    }
  }

  lemma {:induction false} AddToKeepsTotal<K>(es: seq<Entry<K>>, k: K, a: real)
    ensures SumAll(AddTo(es, k, a)) == SumAll(es) + a
    decreases |es|
  {
    if es != [] {
      SumAllFront(es);
      if es[0].key == k {
        SumAllFront([Entry(k, es[0].amount + a)] + es[1..]);
        assert ([Entry(k, es[0].amount + a)] + es[1..])[1..] == es[1..];
      } else {
        AddToKeepsTotal(es[1..], k, a);
        SumAllFront([es[0]] + AddTo(es[1..], k, a));
        assert ([es[0]] + AddTo(es[1..], k, a))[1..] == AddTo(es[1..], k, a);
      }
    }
  }

  /** The sum can also be taken from the front. */
  lemma {:induction false} SumAllFront<K>(es: seq<Entry<K>>)
    requires es != []
    ensures SumAll(es) == es[0].amount + SumAll(es[1..])
    decreases |es|
  {
    if |es| > 1 {
      SumAllFront(es[..|es| - 1]);
      assert es[..|es| - 1][1..] == es[1..][..|es[1..]| - 1];
    }
  }

  // ---------------------------------------------------------------------
  // The pairs a loop feeds into the dictionary
  // ---------------------------------------------------------------------

  /** The pairs a `forEach` adds, in order: `pick(x)` is the pair added
      for x, or None when x is skipped. */
  function Collect<T, K>(xs: seq<T>, pick: T -> Option<Entry<K>>): seq<Entry<K>>
    decreases |xs|
  {
    if xs == [] then []
    else
      var p := pick(xs[|xs| - 1]);
      Collect(xs[..|xs| - 1], pick) + (if p.Some? then [p.value] else [])
  }

  /** The sum of the amounts picked for key k. */
  function PickedSum<T, K(==)>(xs: seq<T>, pick: T -> Option<Entry<K>>, k: K): real
    decreases |xs|
  {
    if xs == [] then 0.0
    else
      var p := pick(xs[|xs| - 1]);
      PickedSum(xs[..|xs| - 1], pick, k) + (if p.Some? && p.value.key == k then p.value.amount else 0.0)
  }

  lemma CollectStep<T, K>(xs: seq<T>, x: T, pick: T -> Option<Entry<K>>)
    ensures Collect(xs + [x], pick) == Collect(xs, pick) + (if pick(x).Some? then [pick(x).value] else [])
  {
    assert (xs + [x])[..|xs|] == xs;
  }

  /** One more element that is picked adds its pair to the dictionary. */
  lemma GroupSumPicked<T, K>(xs: seq<T>, x: T, pick: T -> Option<Entry<K>>)
    requires pick(x).Some?
    ensures GroupSum(Collect(xs + [x], pick))
            == AddTo(GroupSum(Collect(xs, pick)), pick(x).value.key, pick(x).value.amount)
  {
    CollectStep(xs, x, pick);
    var c := Collect(xs, pick);
    var c' := c + [pick(x).value];
    assert c'[..|c|] == c && c'[|c'| - 1] == pick(x).value;
  }

  /** One more element that is not picked leaves the dictionary alone. */
  lemma GroupSumSkipped<T, K>(xs: seq<T>, x: T, pick: T -> Option<Entry<K>>)
    requires pick(x).None?
    ensures Collect(xs + [x], pick) == Collect(xs, pick)
  {
    CollectStep(xs, x, pick);
    assert Collect(xs, pick) + [] == Collect(xs, pick);
  }

  /** Every pair was picked for some element, and every element that is
      picked contributes its key. */
  lemma {:induction false} CollectFrom<T, K>(xs: seq<T>, pick: T -> Option<Entry<K>>)
    ensures forall e :: e in Collect(xs, pick) ==> exists j :: 0 <= j < |xs| && pick(xs[j]) == Some(e)
    ensures forall j :: 0 <= j < |xs| && pick(xs[j]).Some? ==> pick(xs[j]).value.key in KeysOf(Collect(xs, pick))
    decreases |xs|
  {
    if xs != [] {
      var init, x := xs[..|xs| - 1], xs[|xs| - 1];
      CollectFrom(init, pick);
      var c, c' := Collect(init, pick), Collect(xs, pick);
      forall e | e in c' ensures exists j :: 0 <= j < |xs| && pick(xs[j]) == Some(e) {
        if e in c {
          var j :| 0 <= j < |init| && pick(init[j]) == Some(e);
          assert xs[j] == init[j];
        } else {
          assert pick(xs[|xs| - 1]) == Some(e);
        }
      }
      forall j | 0 <= j < |xs| && pick(xs[j]).Some? ensures pick(xs[j]).value.key in KeysOf(c') {
        if j < |init| {
          assert xs[j] == init[j];
          var k :| 0 <= k < |c| && KeysOf(c)[k] == pick(init[j]).value.key;
          assert c'[k] == c[k];
          assert KeysOf(c')[k] == c'[k].key;
        } else {
          assert c' == c + [pick(x).value];
          assert KeysOf(c')[|c|] == pick(x).value.key;
        }
      }
    }
  }

  /** The dictionary total for k is the sum of the amounts picked for k. */
  lemma {:induction false} SumForCollect<T, K>(xs: seq<T>, pick: T -> Option<Entry<K>>, k: K)
    ensures SumFor(Collect(xs, pick), k) == PickedSum(xs, pick, k)
    decreases |xs|
  {
    if xs != [] {
      var init, x := xs[..|xs| - 1], xs[|xs| - 1];
      SumForCollect(init, pick, k);
      var c := Collect(init, pick);
      assert xs == init + [x];
      CollectStep(init, x, pick);
      if pick(x).Some? {
        var c' := c + [pick(x).value];
        assert c'[..|c|] == c && c'[|c'| - 1] == pick(x).value;
        assert SumFor(c', k) == SumFor(c, k) + (if pick(x).value.key == k then pick(x).value.amount else 0.0);
        assert Collect(xs, pick) == c';
        assert PickedSum(xs, pick, k) == PickedSum(init, pick, k) + (if pick(x).value.key == k then pick(x).value.amount else 0.0);
      } else {
        assert Collect(xs, pick) == c;
        assert PickedSum(xs, pick, k) == PickedSum(init, pick, k);
      }
    }
  }

  // ---------------------------------------------------------------------
  // The dictionary object
  // ---------------------------------------------------------------------

  /** The entries of a dictionary whose keys were inserted in order. */
  function EntriesOf<K>(values: map<K, real>, order: seq<K>): (es: seq<Entry<K>>)
    requires forall k :: k in order ==> k in values
    ensures |es| == |order|
    decreases |order|
  {
    if order == [] then []
    else EntriesOf(values, order[..|order| - 1]) + [Entry(order[|order| - 1], values[order[|order| - 1]])]
  }

  /** Entry i holds key i of the order and its value. */
  lemma {:induction false} EntriesOfSpec<K>(values: map<K, real>, order: seq<K>)
    requires forall k :: k in order ==> k in values
    ensures forall i :: 0 <= i < |order| ==> EntriesOf(values, order)[i] == Entry(order[i], values[order[i]])
    decreases |order|
  {
    if order != [] {
      var init := order[..|order| - 1];
      EntriesOfSpec(values, init);
      forall i | 0 <= i < |order| ensures EntriesOf(values, order)[i] == Entry(order[i], values[order[i]]) {
        if i < |init| {
          assert order[i] == init[i];
        }
      }
    }
  }

  /** The keys of the entries are the order, each once. */
  lemma EntriesOfKeys<K(!new)>(values: map<K, real>, order: seq<K>)
    requires ValidRecord(values, order)
    ensures KeysOf(EntriesOf(values, order)) == order
    ensures DistinctKeys(EntriesOf(values, order))
  {
    EntriesOfSpec(values, order);
  }

  /** Changing the value of a listed key changes its entry only. */
  lemma EntriesOfUpdate<K>(values: map<K, real>, order: seq<K>, i: nat, v: real)
    requires forall k :: k in order ==> k in values
    requires forall p, q :: 0 <= p < q < |order| ==> order[p] != order[q]
    requires i < |order|
    ensures EntriesOf(values[order[i] := v], order) == EntriesOf(values, order)[i := Entry(order[i], v)]
  {
    var es, es' := EntriesOf(values, order), EntriesOf(values[order[i] := v], order);
    EntriesOfSpec(values, order);
    EntriesOfSpec(values[order[i] := v], order);
    forall j | 0 <= j < |order| ensures es'[j] == es[i := Entry(order[i], v)][j] {
      if j != i {
        assert order[j] != order[i];
      }
    }
  }

  /** A new key adds its entry at the end. */
  lemma EntriesOfAppend<K>(values: map<K, real>, order: seq<K>, k: K, v: real)
    requires forall x :: x in order ==> x in values
    requires k !in order
    ensures EntriesOf(values[k := v], order + [k]) == EntriesOf(values, order) + [Entry(k, v)]
  {
    var es, es' := EntriesOf(values, order), EntriesOf(values[k := v], order + [k]);
    EntriesOfSpec(values, order);
    EntriesOfSpec(values[k := v], order + [k]);
    forall j | 0 <= j < |order| ensures es'[j] == es[j] {
      assert (order + [k])[j] == order[j];
    }
    assert es' == es'[..|order|] + [es'[|order|]];
  }

  /** A `Record<K, number>` object: its values and the order in which its
      keys were first assigned. */
  class Record<K(==,!new)> {
    var values: map<K, real>
    var order: seq<K>

    ghost predicate Valid()
      reads this
    {
      ValidRecord(values, order)
    }

    function Entries(): seq<Entry<K>>
      reads this
      requires Valid()
    {
      EntriesOf(values, order)
    }

    /** `{}` */
    constructor ()
      ensures Valid() && Entries() == []
    {
      values := map[];
      order := [];
    }

    /** `record[k] = (record[k] || 0) + a` */
    method Bump(k: K, a: real)
      requires Valid()
      modifies this
      ensures Valid()
      ensures Entries() == AddTo(old(Entries()), k, a)
    {
      if k in values {
        BumpExisting(values, order, k, a);
        values := values[k := values[k] + a];
      } else {
        BumpNew(values, order, k, a);
        values := values[k := 0.0 + a];
        order := order + [k];
      }
    }
  }

  /** Bumping a key the dictionary has. */
  lemma BumpExisting<K(!new)>(values: map<K, real>, order: seq<K>, k: K, a: real)
    requires ValidRecord(values, order) && k in values
    ensures ValidRecord(values[k := values[k] + a], order)
    ensures EntriesOf(values[k := values[k] + a], order) == AddTo(EntriesOf(values, order), k, a)
  {
    var es, v := EntriesOf(values, order), values[k] + a;
    var i :| 0 <= i < |order| && order[i] == k;
    EntriesOfAt(values, order, i);
    EntriesOfKeys(values, order);
    AddToExisting(es, k, a, i);
    assert AddTo(es, k, a) == es[i := Entry(k, v)];
    EntriesOfUpdate(values, order, i, v);
    UpdateKeepsValid(values, order, k, v);
  }

  lemma EntriesOfAt<K>(values: map<K, real>, order: seq<K>, i: nat)
    requires forall k :: k in order ==> k in values
    requires i < |order|
    ensures EntriesOf(values, order)[i] == Entry(order[i], values[order[i]])
  {
    EntriesOfSpec(values, order);
  }

  lemma UpdateKeepsValid<K(!new)>(values: map<K, real>, order: seq<K>, k: K, v: real)
    requires ValidRecord(values, order) && k in values
    ensures ValidRecord(values[k := v], order)
  {
    assert values[k := v].Keys == values.Keys;
  }

  /** Bumping a key the dictionary does not have yet. */
  lemma BumpNew<K(!new)>(values: map<K, real>, order: seq<K>, k: K, a: real)
    requires ValidRecord(values, order) && k !in values
    ensures ValidRecord(values[k := 0.0 + a], order + [k])
    ensures EntriesOf(values[k := 0.0 + a], order + [k]) == AddTo(EntriesOf(values, order), k, a)
  {
    var es := EntriesOf(values, order);
    EntriesOfKeys(values, order);
    AddToNew(es, k, a);
    EntriesOfAppend(values, order, k, 0.0 + a);
    AppendKeepsValid(values, order, k, 0.0 + a);
  }

  /** What `Record.Valid` says of its two fields. */
  ghost predicate ValidRecord<K(!new)>(values: map<K, real>, order: seq<K>) {
    && (forall i, j :: 0 <= i < j < |order| ==> order[i] != order[j])
    && (forall k :: k in values <==> k in order)
  }

  lemma AppendKeepsValid<K(!new)>(values: map<K, real>, order: seq<K>, k: K, v: real)
    requires ValidRecord(values, order) && k !in values
    ensures ValidRecord(values[k := v], order + [k])
  {
    var o := order + [k];
    forall i, j | 0 <= i < j < |o| ensures o[i] != o[j] {
      if j < |order| {
        assert o[i] == order[i] && o[j] == order[j];
      } else {
        assert o[i] == order[i] && order[i] in order;
      }
    }
  }

  // ---------------------------------------------------------------------
  // Stable descending sort and the leading entries
  // ---------------------------------------------------------------------

  ghost predicate SortedDesc<K>(es: seq<Entry<K>>) {
    forall i, j :: 0 <= i < j < |es| ==> es[i].amount >= es[j].amount
  }

  /** Puts x after every entry at least as large, before the first smaller. */
  function Insert<K>(sorted: seq<Entry<K>>, x: Entry<K>): seq<Entry<K>>
    decreases |sorted|
  {
    if sorted == [] then [x]
    else if sorted[0].amount >= x.amount then [sorted[0]] + Insert(sorted[1..], x)
    else [x] + sorted
  }

  /** Stable sort by non-increasing amount. */
  function SortDesc<K>(es: seq<Entry<K>>): seq<Entry<K>>
    decreases |es|
  {
    if es == [] then [] else Insert(SortDesc(es[..|es| - 1]), es[|es| - 1])
  }

  /** The entries whose amount is v, in their order. */
  function WithAmount<K>(es: seq<Entry<K>>, v: real): seq<Entry<K>>
    decreases |es|
  {
    if es == [] then []
    else (if es[0].amount == v then [es[0]] else []) + WithAmount(es[1..], v)
  }

  lemma {:induction false} InsertMultiset<K>(sorted: seq<Entry<K>>, x: Entry<K>)
    ensures multiset(Insert(sorted, x)) == multiset(sorted) + multiset{x}
    ensures |Insert(sorted, x)| == |sorted| + 1
    decreases |sorted|
  {
    if sorted != [] && sorted[0].amount >= x.amount {
      InsertMultiset(sorted[1..], x);
      assert sorted == [sorted[0]] + sorted[1..];
    }
  }

  lemma {:induction false} InsertSorted<K>(sorted: seq<Entry<K>>, x: Entry<K>)
    requires SortedDesc(sorted)
    ensures SortedDesc(Insert(sorted, x))
    decreases |sorted|
  {
    if sorted != [] && sorted[0].amount >= x.amount {
      InsertSorted(sorted[1..], x);
      InsertFirst(sorted[1..], x);
      var tail := Insert(sorted[1..], x);
      var r := Insert(sorted, x);
      assert r == [sorted[0]] + tail;
      forall i, j | 0 <= i < j < |r| ensures r[i].amount >= r[j].amount {
        if i == 0 {
          assert r[j] == tail[j - 1];
          assert r[j] in tail;
        } else {
          assert r[i] == tail[i - 1] && r[j] == tail[j - 1];
        }
      }
    }
  }

  lemma InsertSpec<K>(sorted: seq<Entry<K>>, x: Entry<K>)
    requires SortedDesc(sorted)
    ensures SortedDesc(Insert(sorted, x))
    ensures multiset(Insert(sorted, x)) == multiset(sorted) + multiset{x}
    ensures |Insert(sorted, x)| == |sorted| + 1
  {
    InsertSorted(sorted, x);
    InsertMultiset(sorted, x);
  }

  /** Every entry of an insertion result is x or was already there. */
  lemma InsertFirst<K>(sorted: seq<Entry<K>>, x: Entry<K>)
    requires SortedDesc(sorted)
    ensures forall e :: e in Insert(sorted, x) ==> e == x || e in sorted
  {
    InsertElems(sorted, x);
  }

  lemma {:induction false} InsertElems<K>(sorted: seq<Entry<K>>, x: Entry<K>)
    ensures forall e :: e in Insert(sorted, x) ==> e == x || e in sorted
    decreases |sorted|
  {
    if sorted != [] && sorted[0].amount >= x.amount {
      InsertElems(sorted[1..], x);
    }
  }

  lemma {:induction false} SortDescSpec<K>(es: seq<Entry<K>>)
    ensures SortedDesc(SortDesc(es))
    ensures multiset(SortDesc(es)) == multiset(es)
    ensures |SortDesc(es)| == |es|
    decreases |es|
  {
    if es != [] {
      var init := es[..|es| - 1];
      SortDescSpec(init);
      InsertSpec(SortDesc(init), es[|es| - 1]);
      assert es == init + [es[|es| - 1]];
    }
  }

  lemma {:induction false} WithAmountAppend<K>(a: seq<Entry<K>>, b: seq<Entry<K>>, v: real)
    ensures WithAmount(a + b, v) == WithAmount(a, v) + WithAmount(b, v)
    decreases |a|
  {
    if a == [] {
      assert a + b == b;
    } else {
      var h := if a[0].amount == v then [a[0]] else [];
      assert (a + b)[0] == a[0];
      assert (a + b)[1..] == a[1..] + b;
      assert WithAmount(a + b, v) == h + WithAmount(a[1..] + b, v);
      WithAmountAppend(a[1..], b, v);
      assert h + (WithAmount(a[1..], v) + WithAmount(b, v)) == (h + WithAmount(a[1..], v)) + WithAmount(b, v);
    }
  }

  /** In a sorted list whose head is below v, nothing has amount v. */
  lemma {:induction false} WithAmountBelow<K>(sorted: seq<Entry<K>>, v: real)
    requires SortedDesc(sorted) && sorted != [] && sorted[0].amount < v
    ensures WithAmount(sorted, v) == []
    decreases |sorted|
  {
    if |sorted| > 1 {
      WithAmountBelow(sorted[1..], v);
    }
  }

  lemma {:induction false} InsertStable<K>(sorted: seq<Entry<K>>, x: Entry<K>, v: real)
    requires SortedDesc(sorted)
    ensures WithAmount(Insert(sorted, x), v) == WithAmount(sorted, v) + WithAmount([x], v)
    decreases |sorted|
  {
    if sorted == [] {
    } else if sorted[0].amount >= x.amount {
      InsertStable(sorted[1..], x, v);
      assert Insert(sorted, x) == [sorted[0]] + Insert(sorted[1..], x);
      assert Insert(sorted, x)[1..] == Insert(sorted[1..], x);
    } else {
      assert Insert(sorted, x) == [x] + sorted;
      assert ([x] + sorted)[1..] == sorted;
      if x.amount == v {
        WithAmountBelow(sorted, v);
      }
    }
  }

  /** Stability: among entries with one amount, the sort keeps their order. */
  lemma {:induction false} SortDescStable<K>(es: seq<Entry<K>>, v: real)
    ensures WithAmount(SortDesc(es), v) == WithAmount(es, v)
    decreases |es|
  {
    if es != [] {
      var init, last := es[..|es| - 1], es[|es| - 1];
      SortDescStable(init, v);
      SortDescSpec(init);
      InsertStable(SortDesc(init), last, v);
      assert es == init + [last];
      WithAmountAppend(init, [last], v);
    }
  }

  /** Sorting only rearranges: every entry of the result was an input. */
  lemma {:induction false} SortDescElems<K>(es: seq<Entry<K>>)
    ensures forall e :: e in SortDesc(es) ==> e in es
    decreases |es|
  {
    if es != [] {
      var init := es[..|es| - 1];
      SortDescElems(init);
      InsertElems(SortDesc(init), es[|es| - 1]);
      assert es == init + [es[|es| - 1]];
    }
  }

  lemma {:induction false} InsertKeepsDistinct<K>(sorted: seq<Entry<K>>, x: Entry<K>)
    requires DistinctKeys(sorted) && forall e :: e in sorted ==> e.key != x.key
    ensures DistinctKeys(Insert(sorted, x))
    decreases |sorted|
  {
    if sorted != [] && sorted[0].amount >= x.amount {
      var tail := sorted[1..];
      assert DistinctKeys(tail) by {
        forall i, j | 0 <= i < j < |tail| ensures tail[i].key != tail[j].key {
          assert tail[i] == sorted[i + 1] && tail[j] == sorted[j + 1];
        }
      }
      InsertKeepsDistinct(tail, x);
      InsertElems(tail, x);
      var r := Insert(sorted, x);
      assert r == [sorted[0]] + Insert(tail, x);
      forall j | 0 < j < |r| ensures r[0].key != r[j].key {
        assert r[j] in Insert(tail, x);
        if r[j] != x {
          var p :| 0 <= p < |tail| && tail[p] == r[j];
          assert tail[p] == sorted[p + 1];
        }
      }
      forall i, j | 0 < i < j < |r| ensures r[i].key != r[j].key {
        assert r[i] == Insert(tail, x)[i - 1] && r[j] == Insert(tail, x)[j - 1];
      }
    } else if sorted != [] {
      var r := [x] + sorted;
      forall i, j | 0 <= i < j < |r| ensures r[i].key != r[j].key {
        if i == 0 {
          assert r[j] == sorted[j - 1] && r[j] in sorted;
        } else {
          assert r[i] == sorted[i - 1] && r[j] == sorted[j - 1];
        }
      }
    }
  }

  /** Sorting keeps the keys distinct. */
  lemma {:induction false} SortDescDistinct<K>(es: seq<Entry<K>>)
    requires DistinctKeys(es)
    ensures DistinctKeys(SortDesc(es))
    decreases |es|
  {
    if es != [] {
      var init, last := es[..|es| - 1], es[|es| - 1];
      assert DistinctKeys(init) by {
        forall i, j | 0 <= i < j < |init| ensures init[i].key != init[j].key {
          assert init[i] == es[i] && init[j] == es[j];
        }
      }
      SortDescDistinct(init);
      SortDescElems(init);
      forall e | e in SortDesc(init) ensures e.key != last.key {
        var p :| 0 <= p < |init| && init[p] == e;
        assert es[p] == e;
      }
      InsertKeepsDistinct(SortDesc(init), last);
    }
  }

  /** `.sort((a, b) => b.amount - a.amount).slice(0, n)` */
  function Top<K>(es: seq<Entry<K>>, n: nat): seq<Entry<K>> {
    var sorted := SortDesc(es);
    if n <= |sorted| then sorted[..n] else sorted
  }

  /** In a sorted list, everything after position m is no larger than
      anything before it; the two parts make up the list. */
  lemma SplitSorted<K>(sorted: seq<Entry<K>>, m: nat)
    requires SortedDesc(sorted) && m <= |sorted|
    ensures SortedDesc(sorted[..m])
    ensures forall i, j :: 0 <= i < m && 0 <= j < |sorted| - m ==> sorted[m..][j].amount <= sorted[..m][i].amount
    ensures multiset(sorted[..m]) + multiset(sorted[m..]) == multiset(sorted)
  {
    forall i, j | 0 <= i < m && 0 <= j < |sorted| - m ensures sorted[m..][j].amount <= sorted[..m][i].amount {
      assert sorted[m..][j] == sorted[m + j];
    }
    assert forall i, j :: 0 <= i < j < m ==> sorted[..m][i] == sorted[i] && sorted[..m][j] == sorted[j];
    assert sorted == sorted[..m] + sorted[m..];
  }

  /** `Top` is the sorted list cut at the smaller of n and its length. */
  lemma TopIsPrefix<K>(es: seq<Entry<K>>, n: nat)
    ensures |SortDesc(es)| == |es|
    ensures Top(es, n) == SortDesc(es)[..if n <= |es| then n else |es|]
  {
    SortDescSpec(es);
  }

  /** The leading n entries: as many as there are, up to n, and in
      non-increasing order. */
  lemma TopSpec<K>(es: seq<Entry<K>>, n: nat)
    ensures |Top(es, n)| == if n <= |es| then n else |es|
    ensures SortedDesc(Top(es, n))
  {
    SortDescSpec(es);
    var sorted := SortDesc(es);
    SplitSorted(sorted, if n <= |sorted| then n else |sorted|);
  }

  /** Every entry of rest is at most every entry of top. */
  ghost predicate NoneLarger<K>(rest: seq<Entry<K>>, top: seq<Entry<K>>) {
    forall i, j :: 0 <= i < |top| && 0 <= j < |rest| ==> rest[j].amount <= top[i].amount
  }

  /** No entry left out of the leading n is larger than an entry kept, and
      the kept and the left-out entries together are the input. */
  lemma TopKeepsLargest<K>(es: seq<Entry<K>>, n: nat)
    ensures exists rest: seq<Entry<K>> ::
              multiset(Top(es, n)) + multiset(rest) == multiset(es) && NoneLarger(rest, Top(es, n))
  {
    SortDescSpec(es);
    TopIsPrefix(es, n);
    var sorted := SortDesc(es);
    var m := if n <= |es| then n else |es|;
    SplitSorted(sorted, m);
    var rest := sorted[m..];
    assert NoneLarger(rest, Top(es, n));
  }

  /** The leading entries are entries of the input, and keep distinct keys
      distinct. */
  lemma TopEntries<K>(es: seq<Entry<K>>, n: nat)
    ensures forall e :: e in Top(es, n) ==> e in es
    ensures DistinctKeys(es) ==> DistinctKeys(Top(es, n))
  {
    TopIsPrefix(es, n);
    SortDescElems(es);
    var sorted := SortDesc(es);
    var m := if n <= |es| then n else |es|;
    forall e | e in Top(es, n) ensures e in es {
      var p :| 0 <= p < m && sorted[..m][p] == e;
      assert sorted[p] == e;
    }
    if DistinctKeys(es) {
      SortDescDistinct(es);
      forall i, j | 0 <= i < j < m ensures sorted[..m][i].key != sorted[..m][j].key {
        assert sorted[..m][i] == sorted[i] && sorted[..m][j] == sorted[j];
      }
    }
  }
}
