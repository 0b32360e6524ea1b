/**
 * The sides of the limit order book, as values. Java keeps `Order` objects in
 * `TreeSet`s and `ArrayList`s and mutates them through `setQuant`/`setPrice`;
 * here a registry maps each order ID to the current fields of its order
 * object, and every collection holds IDs. Two collections holding the same ID
 * therefore share one order, as the Java references do.
 */
module OrderBook {
  import opened JavaInt
  import opened Orders

  /** The current fields of every order object, by ID. */
  type Registry = map<OrderId, Order>

  /**
   * The comparators a sorted collection of the book can use: the two static
   * comparators, and the instance `compare` (newest first at one price).
   */
  datatype Key = HighFirst | LowFirst | NewFirst

  /** The strict order `key`'s comparator intends (see `Orders.HighBefore`, `Orders.LowBefore`, `Orders.NewestBefore`). */
  predicate Before(key: Key, a: Order, b: Order) {
    match key
    case HighFirst => HighBefore(a, b)
    case LowFirst => LowBefore(a, b)
    case NewFirst => NewestBefore(a, b)
  }

  lemma BeforeIsStrictTotal(key: Key, a: Order, b: Order, c: Order)
    ensures !Before(key, a, a)
    ensures Before(key, a, b) ==> !Before(key, b, a)
    ensures Before(key, a, b) && Before(key, b, c) ==> Before(key, a, c)
    ensures a.id != b.id ==> Before(key, a, b) || Before(key, b, a)
  {
    match key
    case HighFirst => HighBeforeIsStrictTotal(a, b, c);
    case LowFirst => LowBeforeIsStrictTotal(a, b, c);
    case NewFirst => NewestBeforeIsStrictTotal(a, b, c);
  }

  /** Each registered order is stored under its own ID. */
  predicate KeyedById(reg: Registry) {
    forall x :: x in reg ==> reg[x].id == x
  }

  /** Every ID in `s` names a registered order. */
  predicate Known(reg: Registry, s: seq<OrderId>) {
    forall x :: x in s ==> x in reg
  }

  /** The iteration order of a `TreeSet` built with `key`'s comparator. */
  predicate Sorted(key: Key, reg: Registry, s: seq<OrderId>)
    requires Known(reg, s)
  {
    forall i, j :: 0 <= i < j < |s| ==> Before(key, reg[s[i]], reg[s[j]])
  }

  predicate NoDup(s: seq<OrderId>) {
    forall i, j :: 0 <= i < j < |s| ==> s[i] != s[j]
  }

  lemma SortedNoDup(key: Key, reg: Registry, s: seq<OrderId>)
    requires Known(reg, s) && Sorted(key, reg, s)
    ensures NoDup(s)
  {
    forall i, j | 0 <= i < j < |s|
      ensures s[i] != s[j]
    {
      BeforeIsStrictTotal(key, reg[s[i]], reg[s[j]], reg[s[j]]);
    }
  }

  /** Two orders with distinct registry keys are ordered one way or the other. */
  lemma Trichotomy(key: Key, reg: Registry, x: OrderId, y: OrderId)
    requires KeyedById(reg) && x in reg && y in reg && x != y
    ensures Before(key, reg[x], reg[y]) || Before(key, reg[y], reg[x])
    ensures !(Before(key, reg[x], reg[y]) && Before(key, reg[y], reg[x]))
  {
    BeforeIsStrictTotal(key, reg[x], reg[y], reg[x]);
  }

  /** `TreeSet.add`: the order goes to its place in the comparator's order. */
  function Insert(key: Key, reg: Registry, s: seq<OrderId>, id: OrderId): (r: seq<OrderId>)
    requires Known(reg, s) && id in reg
    ensures Known(reg, r)
    ensures multiset(r) == multiset(s) + multiset{id}
    ensures forall y :: y in r <==> y == id || y in s
    ensures |r| == |s| + 1
  {
    if |s| == 0 then [id]
    else if Before(key, reg[id], reg[s[0]]) then [id] + s
    else
      assert s == [s[0]] + s[1..];
      [s[0]] + Insert(key, reg, s[1..], id)
  }

  lemma {:induction false} InsertSorted(key: Key, reg: Registry, s: seq<OrderId>, id: OrderId)
    requires KeyedById(reg) && Known(reg, s) && id in reg && id !in s
    requires Sorted(key, reg, s)
    ensures Sorted(key, reg, Insert(key, reg, s, id))
  {
    if |s| == 0 {
    } else if Before(key, reg[id], reg[s[0]]) {
      var r := [id] + s;
      forall i, j | 0 <= i < j < |r|
        ensures Before(key, reg[r[i]], reg[r[j]])
      {
        if i == 0 {
          BeforeIsStrictTotal(key, reg[id], reg[s[0]], reg[s[j - 1]]);
        }
      }
    } else {
      Trichotomy(key, reg, id, s[0]);
      var t := Insert(key, reg, s[1..], id);
      InsertSorted(key, reg, s[1..], id);
      var r := [s[0]] + t;
      forall i, j | 0 <= i < j < |r|
        ensures Before(key, reg[r[i]], reg[r[j]])
      {
        if i == 0 {
          assert r[j] in multiset(t);
          assert r[j] == id || r[j] in s[1..];
        }
      }
    }
  }

  /** `TreeSet.remove` / `ArrayList.remove(Object)`: the first occurrence of `id` goes, the rest keep their order. */
  function RemoveFirst(s: seq<OrderId>, id: OrderId): seq<OrderId>
  {
    if |s| == 0 then []
    else if s[0] == id then s[1..] else [s[0]] + RemoveFirst(s[1..], id)
  }

  /** Removal takes out exactly one occurrence when there is one, and adds nothing. */
  lemma {:induction false} RemoveFirstCounts(s: seq<OrderId>, id: OrderId)
    ensures id !in s ==> RemoveFirst(s, id) == s
    ensures id in s ==> multiset(RemoveFirst(s, id)) == multiset(s) - multiset{id} && |RemoveFirst(s, id)| == |s| - 1
    ensures forall x :: x in RemoveFirst(s, id) ==> x in s
  {
    if |s| > 0 {
      assert s == [s[0]] + s[1..];
      RemoveFirstCounts(s[1..], id);
    }
  }

  lemma {:induction false} RemoveFirstSorted(key: Key, reg: Registry, s: seq<OrderId>, id: OrderId)
    requires Known(reg, s) && Sorted(key, reg, s)
    ensures Known(reg, RemoveFirst(s, id))
    ensures Sorted(key, reg, RemoveFirst(s, id))
  {
    RemoveFirstCounts(s, id);
    if |s| > 0 && s[0] != id {
      RemoveFirstCounts(s[1..], id);
      RemoveFirstSorted(key, reg, s[1..], id);
      var t := RemoveFirst(s[1..], id);
      var r := [s[0]] + t;
      forall i, j | 0 <= i < j < |r|
        ensures Before(key, reg[r[i]], reg[r[j]])
      {
        if i == 0 {
          assert r[j] in s[1..];
        }
      }
    }
  }

  /** With no duplicates, the removed ID is gone for good. */
  lemma {:induction false} RemoveFirstGone(s: seq<OrderId>, id: OrderId)
    requires NoDup(s)
    ensures id !in RemoveFirst(s, id)
    ensures NoDup(RemoveFirst(s, id))
    ensures forall x :: x in s && x != id ==> x in RemoveFirst(s, id)
  {
    RemoveFirstCounts(s, id);
    if |s| > 0 && s[0] != id {
      RemoveFirstCounts(s[1..], id);
      RemoveFirstGone(s[1..], id);
      var t := RemoveFirst(s[1..], id);
      forall i, j | 0 <= i < j < |[s[0]] + t|
        ensures ([s[0]] + t)[i] != ([s[0]] + t)[j]
      {
        if i == 0 {
          assert t[j - 1] in s[1..];
        }
      }
    } else if |s| > 0 {
      assert s[0] !in s[1..];
    }
  }

  /** Removing an order just inserted into a collection that did not hold it restores the collection. */
  lemma {:induction false} RemoveInserted(key: Key, reg: Registry, s: seq<OrderId>, id: OrderId)
    requires Known(reg, s) && id in reg && id !in s
    ensures RemoveFirst(Insert(key, reg, s, id), id) == s
  {
    RemoveFirstCounts(s, id);
    if |s| > 0 && !Before(key, reg[id], reg[s[0]]) {
      assert s == [s[0]] + s[1..];
      RemoveInserted(key, reg, s[1..], id);
    }
  }

  /** The orders of `s` whose price is exactly `p`, in the order of `s`. */
  function AtPrice(reg: Registry, s: seq<OrderId>, p: int): (r: seq<OrderId>)
    requires Known(reg, s)
    ensures Known(reg, r)
    ensures forall x :: x in r <==> x in s && reg[x].price == p
    ensures |r| <= |s|
  {
    if |s| == 0 then []
    else if reg[s[0]].price == p then [s[0]] + AtPrice(reg, s[1..], p)
    else AtPrice(reg, s[1..], p)
  }

  lemma {:induction false} AtPriceAppend(reg: Registry, a: seq<OrderId>, b: seq<OrderId>, p: int)
    requires Known(reg, a) && Known(reg, b)
    ensures AtPrice(reg, a + b, p) == AtPrice(reg, a, p) + AtPrice(reg, b, p)
  {
    if |a| > 0 {
      assert (a + b)[1..] == a[1..] + b;
      AtPriceAppend(reg, a[1..], b, p);
    } else {
      assert a + b == b;
    }
  }

  /** The sum of the current quantities of the orders in `s`. */
  function TotalQuant(reg: Registry, s: seq<OrderId>): int
    requires Known(reg, s)
  {
    if |s| == 0 then 0 else reg[s[0]].currentQuant + TotalQuant(reg, s[1..])
  }

  lemma {:induction false} TotalQuantAppend(reg: Registry, a: seq<OrderId>, b: seq<OrderId>)
    requires Known(reg, a) && Known(reg, b)
    ensures TotalQuant(reg, a + b) == TotalQuant(reg, a) + TotalQuant(reg, b)
  {
    if |a| > 0 {
      assert (a + b)[1..] == a[1..] + b;
      TotalQuantAppend(reg, a[1..], b);
    } else {
      assert a + b == b;
    }
  }

  /**
   * The quantity resting at price `p`: what getBestBidQuantity and
   * getBestAskQuantity compute for the best price.
   */
  function QuantityAt(reg: Registry, s: seq<OrderId>, p: int): int
    requires Known(reg, s)
  {
    TotalQuant(reg, AtPrice(reg, s, p))
  }

  /** The comparator-least order of a non-empty collection: what `Collections.sort(...)` then `get(0)` yields. */
  function Least(key: Key, reg: Registry, s: seq<OrderId>): (r: OrderId)
    requires |s| > 0 && Known(reg, s)
    ensures r in s
  {
    if |s| == 1 then s[0]
    else
      var m := Least(key, reg, s[1..]);
      if Before(key, reg[m], reg[s[0]]) then m else s[0]
  }

  lemma {:induction false} LeastIsLeast(key: Key, reg: Registry, s: seq<OrderId>)
    requires |s| > 0 && Known(reg, s) && KeyedById(reg)
    ensures forall x :: x in s && x != Least(key, reg, s) ==> Before(key, reg[Least(key, reg, s)], reg[x])
  {
    if |s| > 1 {
      var m := Least(key, reg, s[1..]);
      LeastIsLeast(key, reg, s[1..]);
      var r := Least(key, reg, s);
      forall x | x in s && x != r
        ensures Before(key, reg[r], reg[x])
      {
        if x != m && x != s[0] {
          assert x in s[1..];
          BeforeIsStrictTotal(key, reg[r], reg[m], reg[x]);
        } else if r == m {
          Trichotomy(key, reg, m, s[0]);
        } else if x == m {
          Trichotomy(key, reg, m, s[0]);
        }
      }
    }
  }

  /** `Collections.sort` with `key`'s comparator, then the last element: the comparator-greatest order of `s`. */
  function Greatest(key: Key, reg: Registry, s: seq<OrderId>): (r: OrderId)
    requires |s| > 0 && Known(reg, s)
    ensures r in s
  {
    if |s| == 1 then s[0]
    else
      var m := Greatest(key, reg, s[1..]);
      if Before(key, reg[s[0]], reg[m]) then m else s[0]
  }

  lemma {:induction false} GreatestIsGreatest(key: Key, reg: Registry, s: seq<OrderId>)
    requires |s| > 0 && Known(reg, s) && KeyedById(reg)
    ensures forall x :: x in s && x != Greatest(key, reg, s) ==> Before(key, reg[x], reg[Greatest(key, reg, s)])
  {
    if |s| > 1 {
      var m := Greatest(key, reg, s[1..]);
      GreatestIsGreatest(key, reg, s[1..]);
      var r := Greatest(key, reg, s);
      forall x | x in s && x != r
        ensures Before(key, reg[x], reg[r])
      {
        if x != m && x != s[0] {
          assert x in s[1..];
          BeforeIsStrictTotal(key, reg[x], reg[m], reg[r]);
        } else {
          Trichotomy(key, reg, m, s[0]);
        }
      }
    }
  }

  /** In a sorted collection the least order is the first. */
  lemma {:induction false} LeastOfSorted(key: Key, reg: Registry, s: seq<OrderId>)
    requires |s| > 0 && Known(reg, s) && KeyedById(reg) && Sorted(key, reg, s)
    ensures Least(key, reg, s) == s[0]
  {
    LeastIsLeast(key, reg, s);
    var r := Least(key, reg, s);
    if r != s[0] {
      var k :| 0 <= k < |s| && s[k] == r;
      BeforeIsStrictTotal(key, reg[s[0]], reg[r], reg[s[0]]);
    }
  }

  /**
   * One pass of the loop in topBuyOrders/topSellOrders: while fewer than `k`
   * are kept, every order is added; after that an order that comes before the
   * last one kept replaces it (`pollLast`, then `add`).
   */
  function Admit(key: Key, reg: Registry, top: seq<OrderId>, x: OrderId, k: nat): (r: seq<OrderId>)
    requires Known(reg, top) && x in reg
    ensures Known(reg, r)
    ensures forall y :: y in r ==> y == x || y in top
    ensures |top| <= k ==> |r| <= k
  {
    if |top| < k then Insert(key, reg, top, x)
    else if |top| > 0 && Before(key, reg[x], reg[top[|top| - 1]]) then Insert(key, reg, top[..|top| - 1], x)
    else top
  }

  /** The collection the loop of topBuyOrders/topSellOrders builds from `s`. */
  function Top(key: Key, reg: Registry, s: seq<OrderId>, k: nat): (r: seq<OrderId>)
    requires Known(reg, s)
    ensures Known(reg, r)
    ensures forall y :: y in r ==> y in s
    ensures |r| <= k
    decreases |s|
  {
    if |s| == 0 then []
    else Admit(key, reg, Top(key, reg, s[..|s| - 1], k), s[|s| - 1], k)
  }

  /** One more order of `s` considered: the collection so far admits `s[i]`. */
  lemma TopStep(key: Key, reg: Registry, s: seq<OrderId>, i: nat, k: nat)
    requires Known(reg, s) && i < |s|
    ensures Top(key, reg, s[..i + 1], k) == Admit(key, reg, Top(key, reg, s[..i], k), s[i], k)
  {
    assert s[..i + 1][..i] == s[..i];
  }

  /**
   * `t` holds exactly the `k` comparator-least orders of `s` (all of them
   * when there are fewer), in the comparator's order.
   */
  predicate LeastK(key: Key, reg: Registry, s: seq<OrderId>, t: seq<OrderId>, k: nat)
    requires Known(reg, s) && Known(reg, t)
  {
    && Sorted(key, reg, t)
    && (forall y :: y in t ==> y in s)
    && |t| == (if |s| < k then |s| else k)
    && (|t| < k ==> forall y :: y in s ==> y in t)
    && (forall y, z :: y in s && y !in t && z in t ==> Before(key, reg[z], reg[y]))
  }

  lemma AdmitGrows(key: Key, reg: Registry, s: seq<OrderId>, t: seq<OrderId>, x: OrderId, k: nat)
    requires KeyedById(reg) && Known(reg, s) && Known(reg, t) && x in reg && x !in s
    requires LeastK(key, reg, s, t, k) && |t| < k
    ensures LeastK(key, reg, s + [x], Admit(key, reg, t, x, k), k)
  {
    var r := Insert(key, reg, t, x);
    assert Admit(key, reg, t, x, k) == r;
    assert x !in t;
    InsertSorted(key, reg, t, x);
    assert forall y :: y in r <==> y in s + [x];
  }

  lemma AdmitReplaces(key: Key, reg: Registry, s: seq<OrderId>, t: seq<OrderId>, x: OrderId, k: nat)
    requires KeyedById(reg) && Known(reg, s) && Known(reg, t) && x in reg && x !in s
    requires LeastK(key, reg, s, t, k) && |t| >= k > 0
    requires Before(key, reg[x], reg[t[|t| - 1]])
    ensures LeastK(key, reg, s + [x], Admit(key, reg, t, x, k), k)
  {
    var last := t[|t| - 1];
    var keep := t[..|t| - 1];
    var r := Insert(key, reg, keep, x);
    assert Admit(key, reg, t, x, k) == r;
    assert t == keep + [last];
    assert x !in t;
    SortedNoDup(key, reg, t);
    assert last !in keep;
    assert Sorted(key, reg, keep);
    InsertSorted(key, reg, keep, x);
    assert forall z :: z in keep ==> Before(key, reg[z], reg[last]) by {
      forall z | z in keep
        ensures Before(key, reg[z], reg[last])
      {
        var i :| 0 <= i < |keep| && keep[i] == z;
        assert t[i] == z;
      }
    }
    forall y, z | y in s + [x] && y !in r && z in r
      ensures Before(key, reg[z], reg[y])
    {
      if y == last {
      } else if z == x {
        assert y in s && y !in t;
        BeforeIsStrictTotal(key, reg[x], reg[last], reg[y]);
      } else {
        assert z in t;
      }
    }
  }

  lemma AdmitSkips(key: Key, reg: Registry, s: seq<OrderId>, t: seq<OrderId>, x: OrderId, k: nat)
    requires KeyedById(reg) && Known(reg, s) && Known(reg, t) && x in reg && x !in s
    requires LeastK(key, reg, s, t, k) && |t| >= k > 0
    requires !Before(key, reg[x], reg[t[|t| - 1]])
    ensures LeastK(key, reg, s + [x], Admit(key, reg, t, x, k), k)
  {
    var last := t[|t| - 1];
    Trichotomy(key, reg, x, last);
    forall y, z | y in s + [x] && y !in t && z in t
      ensures Before(key, reg[z], reg[y])
    {
      if y == x {
        var i :| 0 <= i < |t| && t[i] == z;
        if i < |t| - 1 {
          BeforeIsStrictTotal(key, reg[z], reg[last], reg[x]);
        }
      } else {
        assert y in s;
      }
    }
  }

  /** The loop of topBuyOrders/topSellOrders keeps the `k` comparator-least orders of `s`. */
  lemma {:induction false} TopIsLeastK(key: Key, reg: Registry, s: seq<OrderId>, k: nat)
    requires KeyedById(reg) && Known(reg, s) && NoDup(s) && k > 0
    ensures LeastK(key, reg, s, Top(key, reg, s, k), k)
  {
    if |s| > 0 {
      var n := |s| - 1;
      var s' := s[..n];
      var x := s[n];
      assert s == s' + [x];
      assert x !in s';
      TopIsLeastK(key, reg, s', k);
      var t := Top(key, reg, s', k);
      if |t| < k {
        AdmitGrows(key, reg, s', t, x, k);
      } else if Before(key, reg[x], reg[t[|t| - 1]]) {
        AdmitReplaces(key, reg, s', t, x, k);
      } else {
        AdmitSkips(key, reg, s', t, x, k);
      }
    }
  }

  /** A collection with no order at `p` has none to contribute at `p`. */
  lemma {:induction false} AtPriceNone(reg: Registry, s: seq<OrderId>, p: int)
    requires Known(reg, s) && forall j :: 0 <= j < |s| ==> reg[s[j]].price != p
    ensures AtPrice(reg, s, p) == []
    decreases |s|
  {
    if |s| > 0 {
      AtPriceNone(reg, s[1..], p);
    }
  }

  /**
   * In a collection sorted best bid first, once an order is priced below
   * `p`, no later order is at `p`: the orders at `p` all lie before index `i`.
   */
  lemma AtPriceBefore(reg: Registry, s: seq<OrderId>, i: nat, p: int)
    requires Known(reg, s) && Sorted(HighFirst, reg, s) && i <= |s|
    requires i < |s| ==> reg[s[i]].price < p
    ensures AtPrice(reg, s, p) == AtPrice(reg, s[..i], p)
  {
    assert s == s[..i] + s[i..];
    AtPriceAppend(reg, s[..i], s[i..], p);
    var rest := s[i..];
    forall j | 0 <= j < |rest|
      ensures reg[rest[j]].price != p
    {
      if j > 0 {
        assert Before(HighFirst, reg[s[i]], reg[s[i + j]]);
      }
    }
    AtPriceNone(reg, rest, p);
  }

  /** Walking a collection sorted best bid first from its first order, at price `p`, the first order at another price ends the orders at `p`. */
  lemma AtPriceStops(reg: Registry, s: seq<OrderId>, i: nat, p: int)
    requires Known(reg, s) && Sorted(HighFirst, reg, s)
    requires i < |s| && reg[s[0]].price == p && reg[s[i]].price != p
    ensures AtPrice(reg, s, p) == AtPrice(reg, s[..i], p)
  {
    if 0 < i {
      assert Before(HighFirst, reg[s[0]], reg[s[i]]);
    }
    AtPriceBefore(reg, s, i, p);
  }

  /**
   * In a collection sorted best bid first, up to an order priced above `p`,
   * no order is at `p`: the orders at `p` all lie from index `i` on.
   */
  lemma AtPriceFrom(reg: Registry, s: seq<OrderId>, i: nat, p: int)
    requires Known(reg, s) && Sorted(HighFirst, reg, s) && i <= |s|
    requires 0 < i ==> reg[s[i - 1]].price > p
    ensures AtPrice(reg, s, p) == AtPrice(reg, s[i..], p)
  {
    assert s == s[..i] + s[i..];
    AtPriceAppend(reg, s[..i], s[i..], p);
    var front := s[..i];
    forall j | 0 <= j < |front|
      ensures reg[front[j]].price != p
    {
      if j < i - 1 {
        assert Before(HighFirst, reg[s[j]], reg[s[i - 1]]);
      }
    }
    AtPriceNone(reg, front, p);
  }

  /** Removal skips a prefix that does not hold the removed ID. */
  lemma {:induction false} RemoveFirstAfter(a: seq<OrderId>, b: seq<OrderId>, id: OrderId)
    requires id !in a
    ensures RemoveFirst(a + b, id) == a + RemoveFirst(b, id)
  {
    if |a| > 0 {
      assert (a + b)[1..] == a[1..] + b;
      RemoveFirstAfter(a[1..], b, id);
      assert a == [a[0]] + a[1..];
    } else {
      assert a + b == b;
    }
  }

  /** An order at `p` just past a prefix adds its quantity to the prefix's quantity at `p`. */
  lemma QuantityStep(reg: Registry, s: seq<OrderId>, i: nat, p: int)
    requires Known(reg, s) && i < |s| && reg[s[i]].price == p
    ensures TotalQuant(reg, AtPrice(reg, s[..i + 1], p)) == TotalQuant(reg, AtPrice(reg, s[..i], p)) + reg[s[i]].currentQuant
  {
    var head, x := s[..i], s[i];
    assert s[..i + 1] == head + [x];
    AtPriceAppend(reg, head, [x], p);
    assert AtPrice(reg, [x], p) == [x] by {
      assert [x][1..] == [];
    }
    TotalQuantAppend(reg, AtPrice(reg, head, p), [x]);
    assert TotalQuant(reg, [x]) == reg[x].currentQuant by {
      assert [x][1..] == [];
    }
  }

  /** An order at `p` just before a suffix adds its quantity to the suffix's quantity at `p`. */
  lemma QuantityStepBack(reg: Registry, s: seq<OrderId>, i: nat, p: int)
    requires Known(reg, s) && 0 < i <= |s| && reg[s[i - 1]].price == p
    ensures TotalQuant(reg, AtPrice(reg, s[i - 1..], p)) == reg[s[i - 1]].currentQuant + TotalQuant(reg, AtPrice(reg, s[i..], p))
  {
    assert s[i - 1..][1..] == s[i..];
  }

  /** The running `int` total of the walk forward: adding the next order at `p` gives the wrapped total of one more order. */
  lemma WrappedStep(reg: Registry, s: seq<OrderId>, i: nat, p: int, quantity: int)
    requires Known(reg, s) && i < |s| && reg[s[i]].price == p
    requires quantity == Wrap(TotalQuant(reg, AtPrice(reg, s[..i], p)))
    ensures Wrap(quantity + reg[s[i]].currentQuant) == Wrap(TotalQuant(reg, AtPrice(reg, s[..i + 1], p)))
  {
    QuantityStep(reg, s, i, p);
    WrapAdd(TotalQuant(reg, AtPrice(reg, s[..i], p)), reg[s[i]].currentQuant);
  }

  /** The running `int` total of the walk backward: adding the previous order at `p` gives the wrapped total of one more order. */
  lemma WrappedStepBack(reg: Registry, s: seq<OrderId>, i: nat, p: int, quantity: int)
    requires Known(reg, s) && 0 < i <= |s| && reg[s[i - 1]].price == p
    requires quantity == Wrap(TotalQuant(reg, AtPrice(reg, s[i..], p)))
    ensures Wrap(quantity + reg[s[i - 1]].currentQuant) == Wrap(TotalQuant(reg, AtPrice(reg, s[i - 1..], p)))
  {
    QuantityStepBack(reg, s, i, p);
    WrapAdd(TotalQuant(reg, AtPrice(reg, s[i..], p)), reg[s[i - 1]].currentQuant);
  }

  /** Walking a collection sorted best bid first backwards from its last order, at price `p`, the first order at another price ends the orders at `p`. */
  lemma AtPriceStopsBack(reg: Registry, s: seq<OrderId>, i: nat, p: int)
    requires Known(reg, s) && Sorted(HighFirst, reg, s)
    requires 0 < i <= |s| && reg[s[|s| - 1]].price == p && reg[s[i - 1]].price != p
    ensures AtPrice(reg, s, p) == AtPrice(reg, s[i..], p)
  {
    if i < |s| {
      assert Before(HighFirst, reg[s[i - 1]], reg[s[|s| - 1]]);
    }
    AtPriceFrom(reg, s, i, p);
  }
}
