/**
  Folding items into one running total per key, over any commutative monoid of totals: the result
  does not depend on order, splits over concatenation, and conserves every additive measure.
*/
module KeyedFold {
  import opened Common

  /** Which key an item goes to, if any, and what it adds there. */
  type Dealer<!I, K, T> = I -> Option<(K, T)>

  /** Everything that the items of one key add up to. */
  function Total<I, K(==), T>(items: seq<I>, key: K, deal: Dealer<I, K, T>, zero: T, plus: (T, T) -> T): T {
    if items == [] then zero
    else
      var before := Total(items[..|items| - 1], key, deal, zero, plus);
      var dealt := deal(items[|items| - 1]);
      if dealt.Some? && dealt.value.0 == key then plus(before, dealt.value.1) else before
  }

  /** The keys that some item goes to. */
  function Keys<I(==), K(==), T>(items: seq<I>, deal: Dealer<I, K, T>): set<K> {
    set item | item in items && deal(item).Some? :: deal(item).value.0
  }

  function Totals<I(==), K(==), T>(items: seq<I>, deal: Dealer<I, K, T>, zero: T, plus: (T, T) -> T): map<K, T> {
    map key | key in Keys(items, deal) :: Total(items, key, deal, zero, plus)
  }

  ghost predicate CommutativeMonoid<T(!new)>(zero: T, plus: (T, T) -> T) {
    && (forall a {:trigger plus(a, zero)} :: plus(a, zero) == a)
    && (forall a, b {:trigger plus(a, b)} :: plus(a, b) == plus(b, a))
    && (forall a, b, c {:trigger plus(plus(a, b), c)} :: plus(plus(a, b), c) == plus(a, plus(b, c)))
  }

  // ----- one item more -----

  lemma KeysExtend<I, K, T>(items: seq<I>, item: I, deal: Dealer<I, K, T>)
    ensures Keys(items + [item], deal)
            == Keys(items, deal) + if deal(item).Some? then {deal(item).value.0} else {}
  {
    var more := items + [item];
    assert forall x :: x in more <==> x in items || x == item;
    forall key
      ensures key in Keys(more, deal) <==> key in Keys(items, deal) || (deal(item).Some? && deal(item).value.0 == key)
    {}
  }

  lemma {:induction false} TotalAbsent<I, K, T>(items: seq<I>, key: K, deal: Dealer<I, K, T>, zero: T,
                                                plus: (T, T) -> T)
    requires key !in Keys(items, deal)
    ensures Total(items, key, deal, zero, plus) == zero
  {
    if items != [] {
      var n := |items| - 1;
      assert items == items[..n] + [items[n]];
      KeysExtend(items[..n], items[n], deal);
      TotalAbsent(items[..n], key, deal, zero, plus);
    }
  }

  /** How one more item changes the totals: only its own key, which may be new. */
  lemma TotalsExtend<I, K, T>(items: seq<I>, item: I, deal: Dealer<I, K, T>, zero: T, plus: (T, T) -> T)
    ensures var before, after := Totals(items, deal, zero, plus), Totals(items + [item], deal, zero, plus);
            after == if deal(item).None? then before
                     else
                       var (key, added) := deal(item).value;
                       before[key := plus(if key in before then before[key] else zero, added)]
  {
    KeysExtend(items, item, deal);
    var after := Totals(items + [item], deal, zero, plus);
    assert (items + [item])[..|items|] == items;
    forall key | key in after && key !in Keys(items, deal)
      ensures Total(items, key, deal, zero, plus) == zero
    {
      TotalAbsent(items, key, deal, zero, plus);
    }
  }

  // ----- concatenation and order -----

  lemma {:induction false} TotalConcat<I, K, T(!new)>(a: seq<I>, b: seq<I>, key: K, deal: Dealer<I, K, T>, zero: T,
                                                      plus: (T, T) -> T)
    requires CommutativeMonoid(zero, plus)
    ensures Total(a + b, key, deal, zero, plus)
            == plus(Total(a, key, deal, zero, plus), Total(b, key, deal, zero, plus))
  {
    if b == [] {
      assert a + b == a;
    } else {
      var n := |b| - 1;
      assert (a + b)[..|a + b| - 1] == a + b[..n];
      TotalConcat(a, b[..n], key, deal, zero, plus);
    }
  }

  lemma {:induction false} TotalPermuted<I, K, T(!new)>(a: seq<I>, b: seq<I>, key: K, deal: Dealer<I, K, T>, zero: T,
                                                        plus: (T, T) -> T)
    requires CommutativeMonoid(zero, plus) && multiset(a) == multiset(b)
    ensures Total(a, key, deal, zero, plus) == Total(b, key, deal, zero, plus)
  {
    if a == [] {
      assert |multiset(b)| == 0;
    } else {
      var n := |a| - 1;
      var front, back := SplitAt(a, b);
      TotalPermuted(a[..n], front + back, key, deal, zero, plus);
      TotalPull(front, a[n], back, key, deal, zero, plus);
      TotalConcat(a[..n], [a[n]], key, deal, zero, plus);
      assert a == a[..n] + [a[n]];
    }
  }

  /** The last element of `a`, found in a permutation of it. */
  lemma SplitAt<I>(a: seq<I>, b: seq<I>) returns (front: seq<I>, back: seq<I>)
    requires a != [] && multiset(a) == multiset(b)
    ensures b == front + [a[|a| - 1]] + back
    ensures multiset(a[..|a| - 1]) == multiset(front + back)
  {
    var init, x := a[..|a| - 1], a[|a| - 1];
    assert a == init + [x];
    assert x in multiset(b);
    var j :| 0 <= j < |b| && b[j] == x;
    front, back := b[..j], b[j + 1..];
    assert b == front + [x] + back;
    SameRest(init, x, front, back);
  }

  lemma SameRest<I>(init: seq<I>, x: I, front: seq<I>, back: seq<I>)
    requires multiset(init + [x]) == multiset(front + [x] + back)
    ensures multiset(init) == multiset(front + back)
  {
    assert multiset(init) == multiset(init + [x]) - multiset{x};
    assert multiset(front + back) == multiset(front + [x] + back) - multiset{x};
  }

  /** An item in the middle may as well come last. */
  lemma TotalPull<I, K, T(!new)>(front: seq<I>, x: I, back: seq<I>, key: K, deal: Dealer<I, K, T>,
                                 zero: T, plus: (T, T) -> T)
    requires CommutativeMonoid(zero, plus)
    ensures Total(front + [x] + back, key, deal, zero, plus)
            == plus(Total(front + back, key, deal, zero, plus), Total([x], key, deal, zero, plus))
  {
    TotalConcat(front + [x], back, key, deal, zero, plus);
    TotalConcat(front, [x], key, deal, zero, plus);
    TotalConcat(front, back, key, deal, zero, plus);
    MoveLast(Total(front, key, deal, zero, plus), Total([x], key, deal, zero, plus),
             Total(back, key, deal, zero, plus), zero, plus);
  }

  lemma MoveLast<T(!new)>(a: T, x: T, b: T, zero: T, plus: (T, T) -> T)
    requires CommutativeMonoid(zero, plus)
    ensures plus(plus(a, x), b) == plus(plus(a, b), x)
  {
    assert plus(plus(a, x), b) == plus(a, plus(x, b));
    assert plus(plus(a, b), x) == plus(a, plus(b, x));
  }

  lemma KeysOfSame<I, K, T>(a: seq<I>, b: seq<I>, deal: Dealer<I, K, T>)
    requires multiset(a) == multiset(b)
    ensures Keys(a, deal) == Keys(b, deal)
  {
    forall x
      ensures x in a <==> x in b
    {
      assert x in multiset(a) <==> x in multiset(b);
    }
  }

  /** The totals do not depend on the order of the items. */
  lemma TotalsPermuted<I, K, T(!new)>(a: seq<I>, b: seq<I>, deal: Dealer<I, K, T>, zero: T,
                                      plus: (T, T) -> T)
    requires CommutativeMonoid(zero, plus) && multiset(a) == multiset(b)
    ensures Totals(a, deal, zero, plus) == Totals(b, deal, zero, plus)
  {
    KeysOfSame(a, b, deal);
    forall key | key in Keys(a, deal)
      ensures Total(a, key, deal, zero, plus) == Total(b, key, deal, zero, plus)
    {
      TotalPermuted(a, b, key, deal, zero, plus);
    }
  }

  /** Key-wise sum of two results. */
  function Merge<K, T>(a: map<K, T>, b: map<K, T>, plus: (T, T) -> T): map<K, T> {
    map key | key in a.Keys + b.Keys ::
      if key !in b then a[key] else if key !in a then b[key] else plus(a[key], b[key])
  }

  /** Totals of a concatenation are the key-wise merge of the totals. */
  lemma TotalsConcat<I, K, T(!new)>(a: seq<I>, b: seq<I>, deal: Dealer<I, K, T>, zero: T,
                                    plus: (T, T) -> T)
    requires CommutativeMonoid(zero, plus)
    ensures Totals(a + b, deal, zero, plus) == Merge(Totals(a, deal, zero, plus), Totals(b, deal, zero, plus), plus)
  {
    assert forall x :: x in a + b <==> x in a || x in b;
    assert Keys(a + b, deal) == Keys(a, deal) + Keys(b, deal);
    forall key | key in Keys(a + b, deal)
      ensures Total(a + b, key, deal, zero, plus)
              == Merge(Totals(a, deal, zero, plus), Totals(b, deal, zero, plus), plus)[key]
    {
      TotalConcat(a, b, key, deal, zero, plus);
      if key !in Keys(a, deal) {
        TotalAbsent(a, key, deal, zero, plus);
        assert plus(zero, Total(b, key, deal, zero, plus)) == plus(Total(b, key, deal, zero, plus), zero);
      }
      if key !in Keys(b, deal) {
        TotalAbsent(b, key, deal, zero, plus);
      }
    }
  }

  lemma OneTotal<I, K, T(!new)>(item: I, deal: Dealer<I, K, T>, zero: T, plus: (T, T) -> T)
    requires CommutativeMonoid(zero, plus) && deal(item).Some?
    ensures Totals([item], deal, zero, plus) == map[deal(item).value.0 := deal(item).value.1]
  {
    var (key, added) := deal(item).value;
    assert [item][..0] == [];
    assert Keys([item], deal) == {key};
    assert Total([], key, deal, zero, plus) == zero;
    assert plus(zero, added) == plus(added, zero);
  }

  // ----- conservation -----

  ghost predicate Additive<T(!new)>(measure: T -> int, zero: T, plus: (T, T) -> T) {
    measure(zero) == 0 &&
    forall a, b {:trigger plus(a, b)} :: measure(plus(a, b)) == measure(a) + measure(b)
  }

  /** A measure summed over all keys. */
  ghost function SumOver<K(!new), T>(totals: map<K, T>, measure: T -> int): int {
    if totals == map[] then 0
    else
      var key :| key in totals;
      measure(totals[key]) + SumOver(totals - {key}, measure)
  }

  /** A measure summed over all items that go to some key. */
  function SumItems<I, K, T>(items: seq<I>, deal: Dealer<I, K, T>, measure: T -> int): int {
    if items == [] then 0
    else
      var dealt := deal(items[|items| - 1]);
      SumItems(items[..|items| - 1], deal, measure) + if dealt.Some? then measure(dealt.value.1) else 0
  }

  lemma {:induction false} SumOverRemove<K(!new), T>(totals: map<K, T>, key: K, measure: T -> int)
    requires key in totals
    ensures SumOver(totals, measure) == measure(totals[key]) + SumOver(totals - {key}, measure)
    decreases totals.Keys
  {
    var j: K :| j in totals && SumOver(totals, measure) == measure(totals[j]) + SumOver(totals - {j}, measure);
    if j != key {
      assert totals - {j} - {key} == totals - {key} - {j};
      SumOverRemove(totals - {j}, key, measure);
      SumOverRemove(totals - {key}, j, measure);
    }
  }

  lemma SumOverUpdate<K(!new), T>(totals: map<K, T>, key: K, value: T, measure: T -> int)
    ensures SumOver(totals[key := value], measure)
            == SumOver(totals, measure) + measure(value) - if key in totals then measure(totals[key]) else 0
  {
    var updated := totals[key := value];
    SumOverRemove(updated, key, measure);
    assert updated - {key} == totals - {key};
    if key in totals {
      SumOverRemove(totals, key, measure);
    } else {
      assert totals - {key} == totals;
    }
  }

  /** Measures that agree key by key have the same sum. */
  lemma {:induction false} SumOverAgrees<K(!new), T, U>(a: map<K, T>, f: T -> int, b: map<K, U>, g: U -> int)
    requires a.Keys == b.Keys && forall key <- a :: f(a[key]) == g(b[key])
    ensures SumOver(a, f) == SumOver(b, g)
    decreases a.Keys
  {
    if a == map[] {
      assert b == map[];
    } else {
      var j: K :| j in a && SumOver(a, f) == f(a[j]) + SumOver(a - {j}, f);
      SumOverRemove(b, j, g);
      SumOverAgrees(a - {j}, f, b - {j}, g);
    }
  }

  /** Nothing is lost or counted twice: summed over all windows, a measure is what the items brought. */
  lemma {:induction false} Conserved<I, K(!new), T(!new)>(items: seq<I>, deal: Dealer<I, K, T>, zero: T,
                                                          plus: (T, T) -> T, measure: T -> int)
    requires Additive(measure, zero, plus)
    ensures SumOver(Totals(items, deal, zero, plus), measure) == SumItems(items, deal, measure)
  {
    if items != [] {
      var n := |items| - 1;
      var before := Totals(items[..n], deal, zero, plus);
      assert items == items[..n] + [items[n]];
      Conserved(items[..n], deal, zero, plus, measure);
      TotalsExtend(items[..n], items[n], deal, zero, plus);
      if deal(items[n]).Some? {
        var (key, added) := deal(items[n]).value;
        SumOverUpdate(before, key, plus(if key in before then before[key] else zero, added), measure);
      }
    }
  }

  // ----- what a total shows -----

  /** A property that a sum has exactly if one of its parts has it. */
  ghost predicate Shown<T(!new)>(property: T -> bool, zero: T, plus: (T, T) -> T) {
    !property(zero) && forall a, b {:trigger plus(a, b)} :: property(plus(a, b)) <==> property(a) || property(b)
  }

  ghost predicate SomeItem<I, K, T>(items: seq<I>, key: K, deal: Dealer<I, K, T>, property: T -> bool) {
    exists i :: 0 <= i < |items| && deal(items[i]).Some? && deal(items[i]).value.0 == key
                && property(deal(items[i]).value.1)
  }

  /** The total of a key has such a property exactly if one item of that key brings it. */
  lemma {:induction false} TotalShows<I, K, T(!new)>(items: seq<I>, key: K, deal: Dealer<I, K, T>, zero: T,
                                                     plus: (T, T) -> T, property: T -> bool)
    requires Shown(property, zero, plus)
    ensures property(Total(items, key, deal, zero, plus)) <==> SomeItem(items, key, deal, property)
  {
    if items != [] {
      var n := |items| - 1;
      TotalShows(items[..n], key, deal, zero, plus, property);
      assert forall i :: 0 <= i < n ==> items[..n][i] == items[i];
      if SomeItem(items[..n], key, deal, property) {
        var i :| 0 <= i < n && deal(items[..n][i]).Some? && deal(items[..n][i]).value.0 == key
                 && property(deal(items[..n][i]).value.1);
        assert deal(items[i]).Some?;
      }
    }
  }
}
