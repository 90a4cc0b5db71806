/**
 * The clearing step of a batch: the stable sort of both sides by descending
 * price, the equilibrium price, the transacted flags, and the carry-over of
 * untransacted orders that are not immediate-or-cancel into the next batch.
 *
 * The equilibrium price is the midpoint of two tick prices, so it is carried
 * doubled: a value `e` stands for the price `e / 2`. A buy transacts when
 * `2 * price >= e`, a sell when `2 * price <= e`.
 */
module Clearing {
  import opened Wrappers
  import opened Orders

  predicate SortedDesc(s: seq<Order>)
  {
    forall i, j :: 0 <= i < j < |s| ==> s[i].price >= s[j].price
  }

  /**
   * Places `o` in front of the first order whose price is not above its own,
   * so that `o`, which comes before every order of `s` in the input, stays in
   * front of the orders of equal price.
   */
  function InsertByPrice(o: Order, s: seq<Order>): (r: seq<Order>)
    ensures |r| == |s| + 1
    ensures r[0] == o || (s != [] && r[0] == s[0])
  {
    if s == [] || s[0].price <= o.price then [o] + s
    else [s[0]] + InsertByPrice(o, s[1..])
  }

  /** An insertion step keeps a descending list descending. */
  lemma {:induction false} InsertKeepsSorted(o: Order, s: seq<Order>)
    requires SortedDesc(s)
    ensures SortedDesc(InsertByPrice(o, s))
  {
    if s != [] && s[0].price > o.price {
      assert SortedDesc(s[1..]) by {
        forall i, j | 0 <= i < j < |s[1..]| ensures s[1..][i].price >= s[1..][j].price {
          assert s[1..][i] == s[i + 1] && s[1..][j] == s[j + 1];
        }
      }
      InsertKeepsSorted(o, s[1..]);
      ConsSorted(s[0], InsertByPrice(o, s[1..]));
    }
  }

  /** An insertion step yields the old orders plus the inserted one. */
  lemma {:induction false} InsertIsPermutation(o: Order, s: seq<Order>)
    ensures multiset(InsertByPrice(o, s)) == multiset(s) + multiset{o}
  {
    if s != [] && s[0].price > o.price {
      InsertIsPermutation(o, s[1..]);
      assert s == [s[0]] + s[1..];
    }
  }

  lemma ConsSorted(x: Order, r: seq<Order>)
    requires SortedDesc(r) && (r != [] ==> x.price >= r[0].price)
    ensures SortedDesc([x] + r)
  {
    var xr := [x] + r;
    forall i, j | 0 <= i < j < |xr| ensures xr[i].price >= xr[j].price {
      assert xr[j] == r[j - 1];
      if i > 0 { assert xr[i] == r[i - 1]; } else { assert r[0].price >= r[j - 1].price; }
    }
  }

  /** The stable sort by descending price that `Array.prototype.sort` performs. */
  function SortByPriceDesc(s: seq<Order>): (r: seq<Order>)
    ensures SortedDesc(r)
    ensures multiset(r) == multiset(s)
    ensures |r| == |s|
  {
    if s == [] then []
    else
      var rest := SortByPriceDesc(s[1..]);
      InsertKeepsSorted(s[0], rest);
      InsertIsPermutation(s[0], rest);
      assert s == [s[0]] + s[1..];
      InsertByPrice(s[0], rest)
  }

  /** The orders of price `p`, in their order in `s`. */
  function WithPrice(s: seq<Order>, p: int): seq<Order>
  {
    if s == [] then []
    else (if s[0].price == p then [s[0]] else []) + WithPrice(s[1..], p)
  }

  lemma {:induction false} InsertByPriceStable(o: Order, s: seq<Order>, p: int)
    ensures WithPrice(InsertByPrice(o, s), p) == (if o.price == p then [o] else []) + WithPrice(s, p)
  {
    if s == [] || s[0].price <= o.price {
      assert ([o] + s)[1..] == s;
    } else {
      var rest := InsertByPrice(o, s[1..]);
      assert ([s[0]] + rest)[1..] == rest;
      InsertByPriceStable(o, s[1..], p);
    }
  }

  /** Stability: orders of equal price keep their relative order through the sort. */
  lemma {:induction false} SortIsStable(s: seq<Order>, p: int)
    ensures WithPrice(SortByPriceDesc(s), p) == WithPrice(s, p)
  {
    if s != [] {
      SortIsStable(s[1..], p);
      InsertByPriceStable(s[0], SortByPriceDesc(s[1..]), p);
    }
  }

  /** The number of orders with `2 * price >= t`. */
  function CountAbove(s: seq<Order>, t: int): (n: nat)
    ensures n <= |s|
  {
    if s == [] then 0
    else (if 2 * s[0].price >= t then 1 else 0) + CountAbove(s[1..], t)
  }

  /** The number of orders with `2 * price <= t`. */
  function CountBelow(s: seq<Order>, t: int): (n: nat)
    ensures n <= |s|
  {
    if s == [] then 0
    else (if 2 * s[0].price <= t then 1 else 0) + CountBelow(s[1..], t)
  }

  /** All orders at or above `t` make a full count; a positive count has a witness. */
  lemma {:induction false} CountAboveAll(s: seq<Order>, t: int)
    requires forall k :: 0 <= k < |s| ==> 2 * s[k].price >= t
    ensures CountAbove(s, t) == |s|
  {
    if s != [] {
      assert forall k :: 0 <= k < |s[1..]| ==> s[1..][k] == s[k + 1];
      CountAboveAll(s[1..], t);
    }
  }

  lemma {:induction false} CountBelowAll(s: seq<Order>, t: int)
    requires forall k :: 0 <= k < |s| ==> 2 * s[k].price <= t
    ensures CountBelow(s, t) == |s|
  {
    if s != [] {
      assert forall k :: 0 <= k < |s[1..]| ==> s[1..][k] == s[k + 1];
      CountBelowAll(s[1..], t);
    }
  }

  lemma {:induction false} CountAboveFull(s: seq<Order>, t: int, k: int)
    requires CountAbove(s, t) == |s| && 0 <= k < |s|
    ensures 2 * s[k].price >= t
  {
    if k > 0 {
      assert s[1..][k - 1] == s[k];
      CountAboveFull(s[1..], t, k - 1);
    }
  }

  lemma {:induction false} CountBelowFull(s: seq<Order>, t: int, k: int)
    requires CountBelow(s, t) == |s| && 0 <= k < |s|
    ensures 2 * s[k].price <= t
  {
    if k > 0 {
      assert s[1..][k - 1] == s[k];
      CountBelowFull(s[1..], t, k - 1);
    }
  }

  lemma {:induction false} CountAboveWitness(s: seq<Order>, t: int) returns (k: int)
    requires CountAbove(s, t) > 0
    ensures 0 <= k < |s| && 2 * s[k].price >= t
  {
    if 2 * s[0].price >= t {
      k := 0;
    } else {
      var k' := CountAboveWitness(s[1..], t);
      k := k' + 1;
    }
  }

  lemma {:induction false} CountBelowWitness(s: seq<Order>, t: int) returns (k: int)
    requires CountBelow(s, t) > 0
    ensures 0 <= k < |s| && 2 * s[k].price <= t
  {
    if 2 * s[0].price <= t {
      k := 0;
    } else {
      var k' := CountBelowWitness(s[1..], t);
      k := k' + 1;
    }
  }

  lemma {:induction false} CountAboveMember(s: seq<Order>, t: int, k: int)
    requires 0 <= k < |s| && 2 * s[k].price >= t
    ensures CountAbove(s, t) > 0
  {
    if k > 0 {
      assert s[1..][k - 1] == s[k];
      CountAboveMember(s[1..], t, k - 1);
    }
  }

  lemma {:induction false} CountBelowMember(s: seq<Order>, t: int, k: int)
    requires 0 <= k < |s| && 2 * s[k].price <= t
    ensures CountBelow(s, t) > 0
  {
    if k > 0 {
      assert s[1..][k - 1] == s[k];
      CountBelowMember(s[1..], t, k - 1);
    }
  }

  lemma {:induction false} CountsAppend(a: seq<Order>, b: seq<Order>, t: int)
    ensures CountAbove(a + b, t) == CountAbove(a, t) + CountAbove(b, t)
    ensures CountBelow(a + b, t) == CountBelow(a, t) + CountBelow(b, t)
  {
    if a == [] {
      assert a + b == b;
    } else {
      assert (a + b)[1..] == a[1..] + b;
      CountsAppend(a[1..], b, t);
    }
  }

  lemma {:induction false} InsertByPriceCounts(o: Order, s: seq<Order>, t: int)
    ensures CountAbove(InsertByPrice(o, s), t) == (if 2 * o.price >= t then 1 else 0) + CountAbove(s, t)
    ensures CountBelow(InsertByPrice(o, s), t) == (if 2 * o.price <= t then 1 else 0) + CountBelow(s, t)
  {
    if s == [] || s[0].price <= o.price {
      assert ([o] + s)[1..] == s;
    } else {
      var rest := InsertByPrice(o, s[1..]);
      assert ([s[0]] + rest)[1..] == rest;
      InsertByPriceCounts(o, s[1..], t);
    }
  }

  /** Sorting does not change how many orders lie on either side of a threshold. */
  lemma {:induction false} SortCounts(s: seq<Order>, t: int)
    ensures CountAbove(SortByPriceDesc(s), t) == CountAbove(s, t)
    ensures CountBelow(SortByPriceDesc(s), t) == CountBelow(s, t)
  {
    if s != [] {
      SortCounts(s[1..], t);
      InsertByPriceCounts(s[0], SortByPriceDesc(s[1..]), t);
    }
  }

  /** In a descending list, more than `i` orders at or above `t` put rank `i` at or above `t`. */
  lemma RankAbove(p: seq<Order>, i: int, t: int)
    requires SortedDesc(p) && 0 <= i < |p| && CountAbove(p, t) > i
    ensures 2 * p[i].price >= t
  {
    var suffix := p[i..];
    assert p == p[..i] + suffix;
    CountsAppend(p[..i], suffix, t);
    var k := CountAboveWitness(suffix, t);
    assert suffix[k] == p[i + k];
  }

  /** In a descending list, at least `|p| - i` orders at or below `t` put rank `i` at or below `t`. */
  lemma RankBelow(p: seq<Order>, i: int, t: int)
    requires SortedDesc(p) && 0 <= i < |p| && CountBelow(p, t) >= |p| - i
    ensures 2 * p[i].price <= t
  {
    var prefix := p[..i + 1];
    assert p == prefix + p[i + 1..];
    CountsAppend(prefix, p[i + 1..], t);
    var k := CountBelowWitness(prefix, t);
    assert prefix[k] == p[k];
  }

  /** In a descending list whose rank `k - 1` is at or above `t`, so are the first `k`. */
  lemma PrefixAbove(p: seq<Order>, k: int, t: int)
    requires SortedDesc(p) && 0 < k <= |p| && 2 * p[k - 1].price >= t
    ensures CountAbove(p, t) >= k
  {
    var prefix := p[..k];
    assert p == prefix + p[k..];
    CountsAppend(prefix, p[k..], t);
    forall j | 0 <= j < |prefix| ensures 2 * prefix[j].price >= t {
      assert prefix[j] == p[j];
    }
    CountAboveAll(prefix, t);
  }

  /** In a descending list whose rank `k` is at or below `t`, so are all from `k` on. */
  lemma SuffixBelow(p: seq<Order>, k: int, t: int)
    requires SortedDesc(p) && 0 <= k < |p| && 2 * p[k].price <= t
    ensures CountBelow(p, t) >= |p| - k
  {
    var suffix := p[k..];
    assert p == p[..k] + suffix;
    CountsAppend(p[..k], suffix, t);
    forall j | 0 <= j < |suffix| ensures 2 * suffix[j].price <= t {
      assert suffix[j] == p[k + j];
    }
    CountBelowAll(suffix, t);
  }

  /**
   * The doubled equilibrium price: the sum of the prices at ranks `S - 1` and
   * `S` of the combined book sorted by descending price, `S` being the number
   * of sells. Both ranks exist because the combined length is `B + S > S`.
   * At least `S` orders of the book lie at or above it and at least `B` at or
   * below it.
   */
  function EquilibriumDoubled(buys: seq<Order>, sells: seq<Order>): (e: int)
    requires |buys| > 0 && |sells| > 0
    ensures CountAbove(buys + sells, e) >= |sells|
    ensures CountBelow(buys + sells, e) >= |buys|
  {
    var all := SortByPriceDesc(buys + sells);
    var e := all[|sells| - 1].price + all[|sells|].price;
    PrefixAbove(all, |sells|, e);
    SuffixBelow(all, |sells|, e);
    SortCounts(buys + sells, e);
    e
  }

  /** The book is crossed when some buy is priced at or above some sell. */
  ghost predicate Crossed(buys: seq<Order>, sells: seq<Order>)
  {
    exists i, j :: 0 <= i < |buys| && 0 <= j < |sells| && buys[i].price >= sells[j].price
  }

  lemma CrossedThenBuyClears(buys: seq<Order>, sells: seq<Order>, i: int, j: int)
    requires 0 <= i < |buys| && 0 <= j < |sells| && buys[i].price >= sells[j].price
    ensures exists k :: 0 <= k < |buys| && 2 * buys[k].price >= EquilibriumDoubled(buys, sells)
  {
    var t := EquilibriumDoubled(buys, sells);
    CountsAppend(buys, sells, t);
    if CountAbove(buys, t) > 0 {
      var k := CountAboveWitness(buys, t);
    } else {
      CountAboveFull(sells, t, j);
      assert 2 * buys[i].price >= t;
    }
  }

  lemma CrossedThenSellClears(buys: seq<Order>, sells: seq<Order>, i: int, j: int)
    requires 0 <= i < |buys| && 0 <= j < |sells| && buys[i].price >= sells[j].price
    ensures exists k :: 0 <= k < |sells| && 2 * sells[k].price <= EquilibriumDoubled(buys, sells)
  {
    var t := EquilibriumDoubled(buys, sells);
    CountsAppend(buys, sells, t);
    if CountBelow(sells, t) > 0 {
      var k := CountBelowWitness(sells, t);
    } else {
      CountBelowFull(buys, t, i);
      assert 2 * sells[j].price <= t;
    }
  }

  /** The equilibrium is the sum of the prices at ranks `S - 1` and `S` of the sorted book. */
  lemma EquilibriumRanks(buys: seq<Order>, sells: seq<Order>)
    requires |buys| > 0 && |sells| > 0
    ensures var all := SortByPriceDesc(buys + sells);
      |all| == |buys| + |sells| && SortedDesc(all) &&
      EquilibriumDoubled(buys, sells) == all[|sells| - 1].price + all[|sells|].price
  {
  }

  /** On a book that is not crossed, the order at rank `S - 1` of the sorted book is priced above every buy. */
  lemma UncrossedRankAboveBuy(buys: seq<Order>, sells: seq<Order>, i: int)
    requires |sells| > 0 && 0 <= i < |buys| && !Crossed(buys, sells)
    ensures SortByPriceDesc(buys + sells)[|sells| - 1].price > buys[i].price
  {
    var t := 2 * buys[i].price + 1;
    assert forall k :: 0 <= k < |sells| ==> 2 * sells[k].price >= t;
    CountAboveAll(sells, t);
    SortCounts(buys + sells, t);
    CountsAppend(buys, sells, t);
    RankAbove(SortByPriceDesc(buys + sells), |sells| - 1, t);
  }

  /** On a book that is not crossed, the order at rank `S` of the sorted book is priced at or above any given buy. */
  lemma UncrossedRankReachesBuy(buys: seq<Order>, sells: seq<Order>, i: int)
    requires |sells| > 0 && 0 <= i < |buys| && !Crossed(buys, sells)
    ensures SortByPriceDesc(buys + sells)[|sells|].price >= buys[i].price
  {
    var t := 2 * buys[i].price;
    CountAboveAll(sells, t);
    CountAboveMember(buys, t, i);
    CountsAppend(buys, sells, t);
    assert CountAbove(buys + sells, t) >= |sells| + 1;
    SortCounts(buys + sells, t);
    RankAbove(SortByPriceDesc(buys + sells), |sells|, t);
  }

  /** On a book that is not crossed, no buy reaches the equilibrium. */
  lemma UncrossedBuyStays(buys: seq<Order>, sells: seq<Order>, i: int)
    requires |sells| > 0 && 0 <= i < |buys| && !Crossed(buys, sells)
    ensures 2 * buys[i].price < EquilibriumDoubled(buys, sells)
  {
    EquilibriumRanks(buys, sells);
    UncrossedRankAboveBuy(buys, sells, i);
    UncrossedRankReachesBuy(buys, sells, i);
  }

  /** On a book that is not crossed, the order at rank `S` of the sorted book is priced below every sell. */
  lemma UncrossedRankBelowSell(buys: seq<Order>, sells: seq<Order>, j: int)
    requires |buys| > 0 && 0 <= j < |sells| && !Crossed(buys, sells)
    ensures SortByPriceDesc(buys + sells)[|sells|].price < sells[j].price
  {
    var t := 2 * sells[j].price - 1;
    assert forall k :: 0 <= k < |buys| ==> 2 * buys[k].price <= t;
    CountBelowAll(buys, t);
    SortCounts(buys + sells, t);
    CountsAppend(buys, sells, t);
    RankBelow(SortByPriceDesc(buys + sells), |sells|, t);
  }

  /** On a book that is not crossed, the order at rank `S - 1` of the sorted book is priced at or below any given sell. */
  lemma UncrossedRankReachesSell(buys: seq<Order>, sells: seq<Order>, j: int)
    requires |buys| > 0 && 0 <= j < |sells| && !Crossed(buys, sells)
    ensures SortByPriceDesc(buys + sells)[|sells| - 1].price <= sells[j].price
  {
    var t := 2 * sells[j].price;
    CountBelowAll(buys, t);
    CountBelowMember(sells, t, j);
    CountsAppend(buys, sells, t);
    assert CountBelow(buys + sells, t) >= |buys| + 1;
    SortCounts(buys + sells, t);
    var all := SortByPriceDesc(buys + sells);
    assert CountBelow(all, t) >= |all| - (|sells| - 1);
    RankBelow(all, |sells| - 1, t);
  }

  /** On a book that is not crossed, no sell reaches the equilibrium. */
  lemma UncrossedSellStays(buys: seq<Order>, sells: seq<Order>, j: int)
    requires |buys| > 0 && 0 <= j < |sells| && !Crossed(buys, sells)
    ensures 2 * sells[j].price > EquilibriumDoubled(buys, sells)
  {
    EquilibriumRanks(buys, sells);
    UncrossedRankBelowSell(buys, sells, j);
    UncrossedRankReachesSell(buys, sells, j);
  }

  /** The result of the clearing step: both sides with their flags set, and the equilibrium. */
  datatype Clearing = Clearing(buys: seq<Order>, sells: seq<Order>, equilibrium: Option<int>)

  function MarkBuy(o: Order, e: int): Order
  {
    if 2 * o.price >= e then o.(transacted := true) else o
  }

  function MarkSell(o: Order, e: int): Order
  {
    if 2 * o.price <= e then o.(transacted := true) else o
  }

  function FlagBuys(s: seq<Order>, e: int): seq<Order>
  {
    seq(|s|, i requires 0 <= i < |s| => MarkBuy(s[i], e))
  }

  function FlagSells(s: seq<Order>, e: int): seq<Order>
  {
    seq(|s|, i requires 0 <= i < |s| => MarkSell(s[i], e))
  }

  /**
   * The clearing step on the book's two sides. With an empty side nothing
   * transacts and there is no equilibrium. Otherwise every buy at or above the
   * equilibrium and every sell at or below it is flagged, and no other order;
   * no field but `transacted` changes.
   */
  function Clear(buys: seq<Order>, sells: seq<Order>): (c: Clearing)
    ensures c.equilibrium.Some? <==> |buys| > 0 && |sells| > 0
    ensures c.equilibrium.None? ==> c.buys == buys && c.sells == sells
    ensures |c.buys| == |buys| && |c.sells| == |sells|
    ensures forall i :: 0 <= i < |buys| ==> c.buys[i] == buys[i].(transacted := c.buys[i].transacted)
    ensures forall i :: 0 <= i < |sells| ==> c.sells[i] == sells[i].(transacted := c.sells[i].transacted)
    ensures forall i :: 0 <= i < |buys| ==>
      (c.buys[i].transacted <==> buys[i].transacted || (c.equilibrium.Some? && 2 * buys[i].price >= c.equilibrium.value))
    ensures forall i :: 0 <= i < |sells| ==>
      (c.sells[i].transacted <==> sells[i].transacted || (c.equilibrium.Some? && 2 * sells[i].price <= c.equilibrium.value))
  {
    if |buys| > 0 && |sells| > 0 then
      var e := EquilibriumDoubled(buys, sells);
      Clearing(FlagBuys(buys, e), FlagSells(sells, e), Some(e))
    else
      Clearing(buys, sells, None)
  }

  /**
   * On a book with no order flagged yet, some buy transacts if and only if the
   * book is crossed, and so does some sell: the clearing never misses a
   * possible trade and never trades on a book that is not crossed.
   */
  lemma TradeIffCrossed(buys: seq<Order>, sells: seq<Order>)
    requires forall i :: 0 <= i < |buys| ==> !buys[i].transacted
    requires forall j :: 0 <= j < |sells| ==> !sells[j].transacted
    ensures (exists i :: 0 <= i < |buys| && Clear(buys, sells).buys[i].transacted) <==> Crossed(buys, sells)
    ensures (exists j :: 0 <= j < |sells| && Clear(buys, sells).sells[j].transacted) <==> Crossed(buys, sells)
  {
    var c := Clear(buys, sells);
    if Crossed(buys, sells) {
      var i, j :| 0 <= i < |buys| && 0 <= j < |sells| && buys[i].price >= sells[j].price;
      CrossedThenBuyClears(buys, sells, i, j);
      CrossedThenSellClears(buys, sells, i, j);
    }
    if !Crossed(buys, sells) && |buys| > 0 && |sells| > 0 {
      forall i | 0 <= i < |buys| ensures !c.buys[i].transacted {
        UncrossedBuyStays(buys, sells, i);
      }
      forall j | 0 <= j < |sells| ensures !c.sells[j].transacted {
        UncrossedSellStays(buys, sells, j);
      }
    }
  }

  /**
   * A buy priced at least as high as every order of the book transacts
   * whenever both sides are non-empty.
   */
  lemma HighestBuyClears(buys: seq<Order>, sells: seq<Order>, i: int)
    requires |sells| > 0 && 0 <= i < |buys|
    requires forall o :: o in buys + sells ==> o.price <= buys[i].price
    ensures 2 * buys[i].price >= EquilibriumDoubled(buys, sells)
  {
    var all := SortByPriceDesc(buys + sells);
    assert all[0] in multiset(buys + sells);
  }

  /**
   * A sell priced at most as low as every order of the book transacts
   * whenever both sides are non-empty.
   */
  lemma LowestSellClears(buys: seq<Order>, sells: seq<Order>, j: int)
    requires |buys| > 0 && 0 <= j < |sells|
    requires forall o :: o in buys + sells ==> o.price >= sells[j].price
    ensures 2 * sells[j].price <= EquilibriumDoubled(buys, sells)
  {
    var all := SortByPriceDesc(buys + sells);
    assert all[|all| - 1] in multiset(buys + sells);
  }

  /** One step of the insertion sort on a short list, with its tail already sorted. */
  lemma InsertStep(o: Order, s: seq<Order>, r: seq<Order>)
    requires |s| > 0 && s == SortByPriceDesc(s) && o.price >= s[0].price
    requires r == [o] + s
    ensures SortByPriceDesc(r) == r
  {
    assert r[1..] == s;
  }

  /** Inserting `o` below the head of a sorted list whose head is priced above it. */
  lemma InsertBelowHead(o: Order, s: seq<Order>, tail: seq<Order>)
    requires |s| > 0 && s[0].price > o.price
    requires tail == InsertByPrice(o, s[1..])
    ensures InsertByPrice(o, s) == [s[0]] + tail
  {
  }

  /** Sorting `[o] + s` puts `o` first when no order of the sorted `s` is priced above it. */
  lemma InsertAtHeadStep(o: Order, s: seq<Order>, sorted: seq<Order>)
    requires sorted == SortByPriceDesc(s) && (sorted == [] || sorted[0].price <= o.price)
    ensures SortByPriceDesc([o] + s) == [o] + sorted
  {
    assert ([o] + s)[1..] == s;
  }

  /**
   * A buy at 12 and a buy at 8 against a sell at 9: sorted descending the
   * prices are 12, 9, 8, so with one sell the equilibrium is (12 + 9) / 2 = 10.5;
   * the buy at 12 and the sell transact, the buy at 8 does not.
   */
  lemma ClearingExample(b1: Order, b2: Order, s1: Order)
    requires b1 == Order(1, 120000, 0, 0, false, None, false, 1)
    requires b2 == Order(2, 80000, 0, 0, false, None, false, 1)
    requires s1 == Order(3, 90000, 0, 0, false, None, false, 1)
    ensures var c := Clear([b1, b2], [s1]);
      && c.equilibrium == Some(210000)
      && c.buys[0].transacted && !c.buys[1].transacted && c.sells[0].transacted
  {
    assert [s1][1..] == [];
    assert SortByPriceDesc([s1]) == [s1];
    InsertBelowHead(b2, [s1], [b2]);
    assert [b2, s1][1..] == [s1];
    assert SortByPriceDesc([b2, s1]) == [s1, b2];
    InsertAtHeadStep(b1, [b2, s1], [s1, b2]);
    assert [b1, b2] + [s1] == [b1] + [b2, s1];
  }

  /**
   * The rule does not balance the two sides when prices tie: two buys at 10
   * and one sell at 10 give the equilibrium 10, and all three orders are
   * flagged, two buys against one sell.
   */
  lemma TiesCanFlagMoreBuysThanSells(b1: Order, b2: Order, s1: Order)
    requires b1 == Order(1, 100000, 0, 0, false, None, false, 1)
    requires b2 == Order(2, 100000, 0, 0, false, None, false, 1)
    requires s1 == Order(3, 100000, 0, 0, false, None, false, 1)
    ensures var c := Clear([b1, b2], [s1]);
      && c.equilibrium == Some(200000)
      && c.buys[0].transacted && c.buys[1].transacted && c.sells[0].transacted
  {
    assert [s1][1..] == [];
    assert SortByPriceDesc([s1]) == [s1];
    InsertStep(b2, [s1], [b2, s1]);
    InsertStep(b1, [b2, s1], [b1, b2] + [s1]);
  }

  predicate Survives(o: Order)
  {
    !o.ioc && !o.transacted
  }

  function NextBatch(o: Order): Order
  {
    o.(batchNumber := o.batchNumber + 1)
  }

  /**
   * The carry-over into the next batch: the orders that are neither IOC nor
   * transacted, in their order, each with its batch number one higher.
   */
  function CarryOver(s: seq<Order>): (r: seq<Order>)
    ensures |r| <= |s|
    ensures forall o :: o in r ==> !o.ioc && !o.transacted
  {
    if s == [] then []
    else (if Survives(s[0]) then [NextBatch(s[0])] else []) + CarryOver(s[1..])
  }

  /** The carry-over keeps relative order: it distributes over concatenation. */
  lemma {:induction false} CarryOverAppend(a: seq<Order>, b: seq<Order>)
    ensures CarryOver(a + b) == CarryOver(a) + CarryOver(b)
  {
    if a == [] {
      assert a + b == b;
    } else {
      assert (a + b)[1..] == a[1..] + b;
      CarryOverAppend(a[1..], b);
    }
  }

  /** An order is carried over exactly when it is the next-batch copy of a surviving order. */
  lemma {:induction false} CarryOverMembers(s: seq<Order>, o: Order)
    ensures o in CarryOver(s) <==> exists i :: 0 <= i < |s| && Survives(s[i]) && o == NextBatch(s[i])
  {
    if s != [] {
      CarryOverMembers(s[1..], o);
      if o in CarryOver(s[1..]) {
        var i :| 0 <= i < |s[1..]| && Survives(s[1..][i]) && o == NextBatch(s[1..][i]);
        assert s[i + 1] == s[1..][i];
      }
      if exists i :: 0 <= i < |s| && Survives(s[i]) && o == NextBatch(s[i]) {
        var i :| 0 <= i < |s| && Survives(s[i]) && o == NextBatch(s[i]);
        if i > 0 { assert s[1..][i - 1] == s[i]; }
      }
    }
  }

  lemma {:induction false} CarryOverOccurrences(s: seq<Order>, x: int)
    ensures Occurrences(CarryOver(s), x) <= Occurrences(s, x)
  {
    if s != [] {
      CarryOverOccurrences(s[1..], x);
      OccurrencesAppend(if Survives(s[0]) then [NextBatch(s[0])] else [], CarryOver(s[1..]), x);
      assert [NextBatch(s[0])][1..] == [];
    }
  }

  /** Orders that differ only in their flags have the same participants. */
  lemma {:induction false} SameIdsOccurrences(a: seq<Order>, b: seq<Order>, x: int)
    requires |a| == |b| && forall i :: 0 <= i < |a| ==> a[i].id == b[i].id
    ensures Occurrences(a, x) == Occurrences(b, x)
  {
    if a != [] {
      SameIdsOccurrences(a[1..], b[1..], x);
    }
  }

  /**
   * The batch advance keeps the book's invariant: if `flagged` is `s` with
   * some flags set, its carry-over keeps one order per participant and is
   * resident, untransacted, in the next batch.
   */
  lemma AdvanceKeepsInvariant(s: seq<Order>, flagged: seq<Order>, batchNumber: int)
    requires UniqueIds(s) && Resident(s, batchNumber)
    requires |flagged| == |s|
    requires forall i :: 0 <= i < |s| ==> flagged[i] == s[i].(transacted := flagged[i].transacted)
    ensures UniqueIds(CarryOver(flagged))
    ensures Resident(CarryOver(flagged), batchNumber + 1)
  {
    forall x | x != 0 ensures Occurrences(CarryOver(flagged), x) <= 1 {
      CarryOverOccurrences(flagged, x);
      SameIdsOccurrences(s, flagged, x);
    }
    forall o | o in CarryOver(flagged) ensures !o.transacted && o.batchNumber == batchNumber + 1 {
      CarryOverMembers(flagged, o);
      var i :| 0 <= i < |flagged| && Survives(flagged[i]) && o == NextBatch(flagged[i]);
      assert s[i] in s;
    }
  }
}
