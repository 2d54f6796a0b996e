/** Largest-remainder apportionment of a sample over groups
    (cli/devtools/ask_benchmark/bird_dataset.py, _proportional_quotas). Exact shares are the integers
    size * |group| over the common denominator total. */
module Quotas {
  import opened Ordering

  type Counts = map<string, nat>

  ghost predicate Covers(keys: seq<string>, q: Counts) {
    forall k :: k in keys ==> k in q
  }

  function SumOf(keys: seq<string>, q: Counts): nat
    requires forall k :: k in keys ==> k in q
    decreases |keys|
  {
    if keys == [] then 0 else q[keys[0]] + SumOf(keys[1..], q)
  }

  lemma {:induction false} SumAfterIncrement(keys: seq<string>, q: Counts, k: string)
    requires Covers(keys, q) && k in q
    ensures SumOf(keys, q[k := q[k] + 1]) == SumOf(keys, q) + multiset(keys)[k]
    decreases |keys|
  {
    if keys != [] {
      SumAfterIncrement(keys[1..], q, k);
      assert keys == [keys[0]] + keys[1..];
    }
  }

  lemma SumIncrementsOnce(keys: seq<string>, q: Counts, k: string)
    requires Covers(keys, q) && Distinct(keys) && k in keys
    ensures SumOf(keys, q[k := q[k] + 1]) == SumOf(keys, q) + 1
  {
    SumAfterIncrement(keys, q, k);
    DistinctCounts(keys);
  }

  lemma {:induction false} SumEqual(keys: seq<string>, p: Counts, q: Counts)
    requires Covers(keys, p) && Covers(keys, q)
    requires forall k :: k in keys ==> p[k] == q[k]
    ensures SumOf(keys, p) == SumOf(keys, q)
    decreases |keys|
  {
    if keys != [] {
      SumEqual(keys[1..], p, q);
    }
  }

  lemma {:induction false} SumWithout(keys: seq<string>, q: Counts, i: nat)
    requires Covers(keys, q) && i < |keys|
    ensures SumOf(keys, q) == q[keys[i]] + SumOf(keys[..i] + keys[i + 1..], q)
    decreases |keys|
  {
    var rest := keys[..i] + keys[i + 1..];
    if i == 0 {
      assert rest == keys[1..];
    } else {
      SumWithout(keys[1..], q, i - 1);
      assert rest[0] == keys[0] && rest[1..] == keys[1..][..i - 1] + keys[1..][i..];
    }
  }

  lemma {:induction false} SumPermuted(keys: seq<string>, other: seq<string>, q: Counts)
    requires Covers(keys, q) && Covers(other, q) && multiset(keys) == multiset(other)
    ensures SumOf(keys, q) == SumOf(other, q)
    decreases |keys|
  {
    SameMultisetSameMembers(keys, other);
    if keys != [] {
      var k := keys[0];
      assert k in other;
      var i :| 0 <= i < |other| && other[i] == k;
      SumWithout(other, q, i);
      var rest := other[..i] + other[i + 1..];
      assert keys == [k] + keys[1..];
      assert other == other[..i] + [k] + other[i + 1..];
      assert multiset(rest) == multiset(other) - multiset{k};
      assert multiset(keys[1..]) == multiset(keys) - multiset{k};
      SumPermuted(keys[1..], rest, q);
    }
  }

  // ---------- Shares ----------

  /** An exact share: `whole` units and `fraction` parts of `total`. */
  datatype Share = Share(whole: nat, fraction: nat)

  type Shares = map<string, Share>

  function ShareOf(product: nat, total: nat): (s: Share)
    requires total > 0
    ensures product == s.whole * total + s.fraction && s.fraction < total
  {
    Share(product / total, product % total)
  }

  /** size * |group| / total for every group. */
  function ExactShares(sizes: Counts, size: nat, total: nat): (exact: Shares)
    requires total > 0
    ensures exact.Keys == sizes.Keys && Splits(exact, sizes, size, total)
  {
    map k | k in sizes :: ShareOf(size * sizes[k], total)
  }

  ghost predicate Splits(exact: Shares, sizes: Counts, size: nat, total: nat) {
    forall k :: k in exact ==>
      k in sizes && size * sizes[k] == exact[k].whole * total + exact[k].fraction && exact[k].fraction < total
  }

  function Wholes(exact: Shares): (q: Counts)
    ensures q.Keys == exact.Keys
  {
    map k | k in exact :: exact[k].whole
  }

  /** The sort key (-(exact - quota), key) of one group. */
  datatype Remainder = Remainder(fraction: nat, key: string)

  predicate RemainderLe(a: Remainder, b: Remainder) {
    a.fraction > b.fraction || (a.fraction == b.fraction && StringLe(a.key, b.key))
  }

  function Remainders(keys: seq<string>, exact: Shares): (r: seq<Remainder>)
    requires forall k :: k in keys ==> k in exact
    ensures |r| == |keys|
    ensures forall i :: 0 <= i < |r| ==> r[i] == Remainder(exact[keys[i]].fraction, keys[i])
    decreases |keys|
  {
    if keys == [] then [] else [Remainder(exact[keys[0]].fraction, keys[0])] + Remainders(keys[1..], exact)
  }

  function Order(keys: seq<string>, exact: Shares): seq<Remainder>
    requires forall k :: k in keys ==> k in exact
  {
    Sort(RemainderLe, Remainders(keys, exact))
  }

  /** The groups that get one more than their whole share. */
  function Favoured(order: seq<Remainder>, n: nat): set<string>
    requires n <= |order|
  {
    set i | 0 <= i < n :: order[i].key
  }

  /** Whole shares, plus one for every favoured group. */
  function Raised(exact: Shares, favoured: set<string>): Counts {
    map k | k in exact :: exact[k].whole + if k in favoured then 1 else 0
  }

  /** The end of the slice order[:n]. */
  function SliceEnd(n: int, length: nat): (end: nat)
    ensures end <= length
  {
    if n >= 0 then if n <= length then n else length
    else if length + n >= 0 then length + n else 0
  }

  function RoundedQuotas(keys: seq<string>, exact: Shares, size: nat): Counts
    requires forall k :: k in keys ==> k in exact
  {
    var order := Order(keys, exact);
    Raised(exact, Favoured(order, SliceEnd(size - SumOf(keys, Wholes(exact)), |order|)))
  }

  method ProportionalQuotas(keys: seq<string>, sizes: Counts, size: nat, total: nat) returns (quotas: Counts)
    requires total > 0 && Distinct(keys) && Covers(keys, sizes)
    ensures quotas == RoundedQuotas(keys, ExactShares(sizes, size, total), size)
  {
    quotas := RoundShares(keys, ExactShares(sizes, size, total), size);
  }

  method RoundShares(keys: seq<string>, exact: Shares, size: nat) returns (quotas: Counts)
    requires Distinct(keys) && forall k :: k in keys ==> k in exact
    ensures quotas == RoundedQuotas(keys, exact, size)
  {
    var order := Order(keys, exact);
    OrderKeys(keys, exact);
    quotas := RaiseFavoured(keys, exact, order, SliceEnd(size - SumOf(keys, Wholes(exact)), |order|));
  }

  /** Whole shares first, then the quotas are raised in place, one group at a time in remainder order. */
  method RaiseFavoured(keys: seq<string>, exact: Shares, order: seq<Remainder>, remaining: nat) returns (quotas: Counts)
    requires OrdersKeys(order, keys) && (forall k :: k in keys ==> k in exact) && remaining <= |order|
    ensures quotas == Raised(exact, Favoured(order, remaining))
  {
    quotas := Wholes(exact);
    var i := 0;
    while i < remaining
      invariant i <= remaining
      invariant quotas == Raised(exact, Favoured(order, i))
    {
      var key := order[i].key;
      RaiseNext(keys, exact, order, i);
      quotas := quotas[key := quotas[key] + 1];
      i := i + 1;
    }
  }

  /** `order` names each key at most once. */
  ghost predicate OrdersKeys(order: seq<Remainder>, keys: seq<string>) {
    (forall i :: 0 <= i < |order| ==> order[i].key in keys) &&
    (forall i, j :: 0 <= i < j < |order| ==> order[i].key != order[j].key)
  }

  lemma RaiseNext(keys: seq<string>, exact: Shares, order: seq<Remainder>, n: nat)
    requires (forall k :: k in keys ==> k in exact) && OrdersKeys(order, keys) && n < |order|
    ensures var key, q := order[n].key, Raised(exact, Favoured(order, n));
            key in keys && key in exact && Raised(exact, Favoured(order, n + 1)) == q[key := q[key] + 1]
  {
    assert Favoured(order, n + 1) == Favoured(order, n) + {order[n].key};
  }

  // ---------- The order of the remainders ----------

  lemma RemainderLePreorder()
    ensures TotalPreorder(RemainderLe)
  {
    forall a, b ensures RemainderLe(a, b) || RemainderLe(b, a) {
      StringLeTotal(a.key, b.key);
    }
    forall a, b, c | RemainderLe(a, b) && RemainderLe(b, c) ensures RemainderLe(a, c) {
      if a.fraction == b.fraction == c.fraction {
        StringLeTransitive(a.key, b.key, c.key);
      }
    }
  }

  ghost predicate CarriesFractions(order: seq<Remainder>, keys: seq<string>, exact: Shares)
    requires OrdersKeys(order, keys) && forall k :: k in keys ==> k in exact
  {
    (forall i :: 0 <= i < |order| ==> order[i].fraction == exact[order[i].key].fraction) &&
    (forall k :: k in keys ==> Remainder(exact[k].fraction, k) in order)
  }

  lemma OrderKeys(keys: seq<string>, exact: Shares)
    requires Distinct(keys) && forall k :: k in keys ==> k in exact
    ensures var order := Order(keys, exact);
            |order| == |keys| && OrdersKeys(order, keys) && CarriesFractions(order, keys, exact)
  {
    var entries, order := Remainders(keys, exact), Order(keys, exact);
    SameMultisetSameMembers(entries, order);
    forall i | 0 <= i < |order|
      ensures order[i].key in keys && order[i].fraction == exact[order[i].key].fraction
    {
      assert order[i] in entries;
    }
    forall k | k in keys ensures Remainder(exact[k].fraction, k) in order {
      var i :| 0 <= i < |keys| && keys[i] == k;
      assert entries[i] in order;
    }
    SameMultisetDistinct(entries, order);
    forall i, j | 0 <= i < j < |order| ensures order[i].key != order[j].key {
      assert order[i] != order[j];
    }
  }

  // ---------- Summing the fractions ----------

  function SumFractions(r: seq<Remainder>): nat
    decreases |r|
  {
    if r == [] then 0 else r[0].fraction + SumFractions(r[1..])
  }

  lemma {:induction false} InsertSumsFractions(x: Remainder, s: seq<Remainder>)
    ensures SumFractions(Insert(RemainderLe, x, s)) == x.fraction + SumFractions(s)
    decreases |s|
  {
    if s == [] || RemainderLe(x, s[0]) {
      assert ([x] + s)[1..] == s;
    } else {
      InsertSumsFractions(x, s[1..]);
      assert ([s[0]] + Insert(RemainderLe, x, s[1..]))[1..] == Insert(RemainderLe, x, s[1..]);
    }
  }

  lemma {:induction false} SortSumsFractions(s: seq<Remainder>)
    ensures SumFractions(Sort(RemainderLe, s)) == SumFractions(s)
    decreases |s|
  {
    if s != [] {
      SortSumsFractions(s[1..]);
      InsertSumsFractions(s[0], Sort(RemainderLe, s[1..]));
    }
  }

  lemma Distribute(a: int, b: int, c: int)
    ensures a * (b + c) == a * b + a * c && (b + c) * a == a * b + a * c
  {
  }

  /** size * |all| splits into whole shares and leftover fractions. */
  lemma {:induction false} WholesAndFractions(keys: seq<string>, sizes: Counts, exact: Shares, size: nat, total: nat)
    requires Covers(keys, sizes) && Splits(exact, sizes, size, total) && forall k :: k in keys ==> k in exact
    ensures size * SumOf(keys, sizes) == total * SumOf(keys, Wholes(exact)) + SumFractions(Remainders(keys, exact))
    decreases |keys|
  {
    if keys != [] {
      WholesAndFractions(keys[1..], sizes, exact, size, total);
      Distribute(size, sizes[keys[0]], SumOf(keys[1..], sizes));
      Distribute(total, exact[keys[0]].whole, SumOf(keys[1..], Wholes(exact)));
      assert Remainders(keys, exact)[1..] == Remainders(keys[1..], exact);
    }
  }

  /** Only the first `i` fractions can be positive, and each is below `total`. */
  lemma {:induction false} FractionsBounded(r: seq<Remainder>, i: nat, total: nat)
    requires total > 0 && i <= |r|
    requires forall j :: 0 <= j < |r| ==> r[j].fraction < total
    requires forall j :: i <= j < |r| ==> r[j].fraction == 0
    ensures SumFractions(r) <= i * (total - 1)
    decreases |r|
  {
    if r != [] {
      FractionsBounded(r[1..], if i == 0 then 0 else i - 1, total);
      Distribute(total - 1, i - 1, 1);
    }
  }

  lemma FractionsExceeded(order: seq<Remainder>, i: nat, n: nat, total: nat)
    requires total > 0 && SortedBy(RemainderLe, order) && i <= |order| && i < n
    requires forall x :: x in order ==> x.fraction < total
    requires i < |order| ==> order[i].fraction == 0
    ensures SumFractions(order) < total * n
  {
    forall j | i <= j < |order| ensures order[j].fraction == 0 {
      assert i < j ==> RemainderLe(order[i], order[j]);
    }
    FractionsBounded(order, i, total);
    SmallerProduct(i, n, total);
  }

  lemma SmallerProduct(i: nat, n: nat, total: nat)
    requires total > 0 && i < n
    ensures i * (total - 1) < total * n
  {
    Distribute(total, i, n - i);
    Distribute(i, total, -1);
    assert total * (n - i) > 0;
  }

  lemma FractionsOfOrder(keys: seq<string>, sizes: Counts, exact: Shares, size: nat, total: nat)
    requires total > 0 && Covers(keys, sizes) && Splits(exact, sizes, size, total) && SumOf(keys, sizes) == total
    requires forall k :: k in keys ==> k in exact
    ensures 0 <= size - SumOf(keys, Wholes(exact))
    ensures SumFractions(Order(keys, exact)) == total * (size - SumOf(keys, Wholes(exact)))
  {
    WholesAndFractions(keys, sizes, exact, size, total);
    SortSumsFractions(Remainders(keys, exact));
    LeftoverProduct(size, total, SumOf(keys, Wholes(exact)), SumFractions(Order(keys, exact)));
  }

  lemma LeftoverProduct(size: nat, total: nat, wholes: nat, fractions: nat)
    requires total > 0 && size * total == total * wholes + fractions
    ensures size - wholes >= 0 && fractions == total * (size - wholes)
  {
    Distribute(total, wholes, size - wholes);
    NonNegativeFactor(total, size - wholes);
  }

  lemma OrderSortedBelowTotal(keys: seq<string>, sizes: Counts, exact: Shares, size: nat, total: nat)
    requires Splits(exact, sizes, size, total) && forall k :: k in keys ==> k in exact
    ensures SortedBy(RemainderLe, Order(keys, exact))
    ensures forall x :: x in Order(keys, exact) ==> x.fraction < total
  {
    var entries := Remainders(keys, exact);
    RemainderLePreorder();
    SortSorts(RemainderLe, entries);
    forall x | x in Order(keys, exact) ensures x.fraction < total {
      SameMultisetSameMembers(entries, Order(keys, exact));
    }
  }

  /** There are enough groups with a fraction for every leftover unit. */
  lemma LeftoversGoToFractions(keys: seq<string>, sizes: Counts, exact: Shares, size: nat, total: nat)
    requires total > 0 && Covers(keys, sizes) && Splits(exact, sizes, size, total) && SumOf(keys, sizes) == total
    requires forall k :: k in keys ==> k in exact
    ensures 0 <= size - SumOf(keys, Wholes(exact)) <= |Order(keys, exact)|
    ensures PositiveFractions(Order(keys, exact), size - SumOf(keys, Wholes(exact)))
  {
    FractionsOfOrder(keys, sizes, exact, size, total);
    OrderSortedBelowTotal(keys, sizes, exact, size, total);
    var order, n := Order(keys, exact), size - SumOf(keys, Wholes(exact));
    if n > |order| {
      FractionsExceeded(order, |order|, n, total);
    }
    forall i | 0 <= i < n ensures order[i].fraction > 0 {
      if order[i].fraction == 0 {
        FractionsExceeded(order, i, n, total);
      }
    }
  }

  ghost predicate PositiveFractions(order: seq<Remainder>, n: nat) {
    n <= |order| && forall i :: 0 <= i < n ==> order[i].fraction > 0
  }

  lemma NonNegativeFactor(a: int, b: int)
    requires a > 0 && a * b >= 0
    ensures b >= 0
  {
  }

  // ---------- The apportionment ----------

  lemma {:induction false} SumWithFavoured(keys: seq<string>, exact: Shares, order: seq<Remainder>, n: nat)
    requires Distinct(keys) && forall k :: k in keys ==> k in exact
    requires OrdersKeys(order, keys)
    requires n <= |order|
    ensures SumOf(keys, Raised(exact, Favoured(order, n))) == SumOf(keys, Wholes(exact)) + n
    decreases n
  {
    if n > 0 {
      SumWithFavoured(keys, exact, order, n - 1);
      OneMoreFavoured(keys, exact, order, n - 1);
    } else {
      assert Raised(exact, Favoured(order, 0)) == Wholes(exact);
    }
  }

  lemma OneMoreFavoured(keys: seq<string>, exact: Shares, order: seq<Remainder>, n: nat)
    requires Distinct(keys) && (forall k :: k in keys ==> k in exact) && OrdersKeys(order, keys) && n < |order|
    ensures SumOf(keys, Raised(exact, Favoured(order, n + 1))) == SumOf(keys, Raised(exact, Favoured(order, n))) + 1
  {
    RaiseNext(keys, exact, order, n);
    SumIncrementsOnce(keys, Raised(exact, Favoured(order, n)), order[n].key);
  }

  lemma ShareFits(n: nat, s: Share, size: nat, total: nat)
    requires size <= total && size * n == s.whole * total + s.fraction && s.fraction < total
    ensures s.whole <= n && (s.fraction > 0 ==> s.whole < n)
  {
    assert size * n <= total * n;
    NonNegativeDifference(total, n, s.whole, s.fraction);
  }

  lemma NonNegativeDifference(total: nat, n: nat, whole: nat, fraction: nat)
    requires whole * total + fraction <= total * n && fraction < total
    ensures whole <= n && (fraction > 0 ==> whole < n)
  {
    Distribute(total, whole, n - whole);
    NonNegativeFactor(total, n - whole);
  }

  ghost predicate Apportions(q: Counts, keys: seq<string>, sizes: Counts, exact: Shares, size: nat)
    requires Covers(keys, q) && Covers(keys, sizes) && forall k :: k in keys ==> k in exact
  {
    SumOf(keys, q) == size &&
    (forall k :: k in keys ==>
       q[k] <= sizes[k] && (q[k] == exact[k].whole || (q[k] == exact[k].whole + 1 && exact[k].fraction > 0))) &&
    (forall k, h :: k in keys && h in keys && q[k] > exact[k].whole && q[h] == exact[h].whole ==>
       RemainderLe(Remainder(exact[k].fraction, k), Remainder(exact[h].fraction, h)))
  }

  lemma FavouredFirst(keys: seq<string>, exact: Shares, order: seq<Remainder>, n: nat)
    requires forall k :: k in keys ==> k in exact
    requires OrdersKeys(order, keys) && CarriesFractions(order, keys, exact)
    requires SortedBy(RemainderLe, order) && PositiveFractions(order, n)
    ensures forall k :: k in keys && k in Favoured(order, n) ==> exact[k].fraction > 0
    ensures forall k, h :: k in keys && h in keys && k in Favoured(order, n) && h !in Favoured(order, n) ==>
              RemainderLe(Remainder(exact[k].fraction, k), Remainder(exact[h].fraction, h))
  {
    forall k, h | k in keys && h in keys && k in Favoured(order, n) && h !in Favoured(order, n)
      ensures RemainderLe(Remainder(exact[k].fraction, k), Remainder(exact[h].fraction, h))
    {
      var i :| 0 <= i < n && order[i].key == k;
      var j :| 0 <= j < |order| && order[j] == Remainder(exact[h].fraction, h);
      assert n <= j;
    }
  }

  /** What the remainder order has to offer the rounding. */
  ghost predicate GoodOrder(order: seq<Remainder>, keys: seq<string>, exact: Shares, n: int)
    requires forall k :: k in keys ==> k in exact
  {
    OrdersKeys(order, keys) && CarriesFractions(order, keys, exact) && SortedBy(RemainderLe, order) &&
    0 <= n && PositiveFractions(order, n)
  }

  lemma OrderIsGood(keys: seq<string>, sizes: Counts, exact: Shares, size: nat, total: nat)
    requires total > 0 && Covers(keys, sizes) && Distinct(keys) && SumOf(keys, sizes) == total
    requires Splits(exact, sizes, size, total) && forall k :: k in keys ==> k in exact
    ensures GoodOrder(Order(keys, exact), keys, exact, size - SumOf(keys, Wholes(exact)))
  {
    LeftoversGoToFractions(keys, sizes, exact, size, total);
    OrderSortedBelowTotal(keys, sizes, exact, size, total);
    OrderKeys(keys, exact);
  }

  lemma RaisedApportions(keys: seq<string>, sizes: Counts, exact: Shares, order: seq<Remainder>, size: nat, total: nat,
                         n: int, quotas: Counts)
    requires Splits(exact, sizes, size, total) && forall k :: k in keys ==> k in exact
    requires size <= total && Covers(keys, sizes) && Distinct(keys) && n == size - SumOf(keys, Wholes(exact))
    requires GoodOrder(order, keys, exact, n) && quotas == Raised(exact, Favoured(order, n))
    ensures Apportions(quotas, keys, sizes, exact, size)
  {
    SumWithFavoured(keys, exact, order, n);
    FavouredFirst(keys, exact, order, n);
    forall k | k in keys
      ensures exact[k].whole <= sizes[k] && (exact[k].fraction > 0 ==> exact[k].whole < sizes[k])
    {
      ShareFits(sizes[k], exact[k], size, total);
    }
  }

  lemma RoundsByOrder(keys: seq<string>, exact: Shares, order: seq<Remainder>, size: nat, n: int)
    requires forall k :: k in keys ==> k in exact
    requires order == Order(keys, exact) && n == size - SumOf(keys, Wholes(exact)) && 0 <= n <= |order|
    ensures RoundedQuotas(keys, exact, size) == Raised(exact, Favoured(order, n))
  {
  }

  /** The quotas sum to the sample size; each is the floor or the ceiling of its exact share and fits its
      group; and every leftover unit goes to a group with a larger fraction, names breaking ties. */
  lemma QuotasExactAndFeasible(keys: seq<string>, sizes: Counts, exact: Shares, size: nat, total: nat)
    requires 0 < size <= total && Covers(keys, sizes) && Distinct(keys) && SumOf(keys, sizes) == total
    requires Splits(exact, sizes, size, total) && forall k :: k in keys ==> k in exact
    ensures Apportions(RoundedQuotas(keys, exact, size), keys, sizes, exact, size)
  {
    var order, n, quotas := Order(keys, exact), size - SumOf(keys, Wholes(exact)), RoundedQuotas(keys, exact, size);
    OrderIsGood(keys, sizes, exact, size, total);
    RoundsByOrder(keys, exact, order, size, n);
    RaisedApportions(keys, sizes, exact, order, size, total, n, quotas);
  }
}
