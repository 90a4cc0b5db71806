/**
 * Orders and the per-side operations of the order book: finding the resident
 * order of a participant, removing it, and inserting a new order with the
 * staleness rule.
 */
module Orders {
  import opened Wrappers

  /** A participant-defined annotation that the book passes through unchanged. */
  type AuxState = string

  /**
   * One resting offer. `price` is in integer ticks of 1/10000; `timestamp` is
   * the time the market received the message and `originTimestamp` the time the
   * sender created it.
   */
  datatype Order = Order(
    id: int,
    price: int,
    timestamp: int,
    originTimestamp: int,
    ioc: bool,
    state: Option<AuxState>,
    transacted: bool,
    batchNumber: int)

  /** The number of orders on a side that belong to participant `id`. */
  function Occurrences(s: seq<Order>, id: int): (n: nat)
    ensures n <= |s|
    ensures n == 0 <==> forall k :: 0 <= k < |s| ==> s[k].id != id
  {
    if s == [] then 0
    else (if s[0].id == id then 1 else 0) + Occurrences(s[1..], id)
  }

  /** Every participant other than the investor (id 0) has at most one order on the side. */
  ghost predicate UniqueIds(s: seq<Order>)
  {
    forall id :: id != 0 ==> Occurrences(s, id) <= 1
  }

  /** Every order on the side is untransacted and belongs to batch `batchNumber`. */
  ghost predicate Resident(s: seq<Order>, batchNumber: int)
  {
    forall o :: o in s ==> !o.transacted && o.batchNumber == batchNumber
  }

  /**
   * The position of the first order of participant `id`, or -1 when there is
   * none: `findIndex` with the test `element.id == id`.
   */
  function IndexOf(s: seq<Order>, id: int): (r: int)
    ensures -1 <= r < |s|
    ensures r == -1 <==> forall k :: 0 <= k < |s| ==> s[k].id != id
    ensures 0 <= r ==> s[r].id == id && forall k :: 0 <= k < r ==> s[k].id != id
  {
    if s == [] then -1
    else if s[0].id == id then 0
    else
      var r := IndexOf(s[1..], id);
      if r == -1 then -1 else r + 1
  }

  /**
   * The side after removing participant `id`'s order: the first order with that
   * id is spliced out and the rest keep their order; with no such order the side
   * is unchanged.
   */
  function Removed(s: seq<Order>, id: int): (r: seq<Order>)
    ensures (forall k :: 0 <= k < |s| ==> s[k].id != id) ==> r == s
    ensures forall k :: 0 <= k < |s| && s[k].id == id && (forall j :: 0 <= j < k ==> s[j].id != id) ==>
      r == s[..k] + s[k + 1..]
    ensures forall x :: x in r ==> x in s
  {
    var index := IndexOf(s, id);
    if index == -1 then s
    else
      assert forall x :: x in s[..index] + s[index + 1..] ==> x in s by {
        forall x | x in s[..index] + s[index + 1..] ensures x in s {
          var j :| 0 <= j < |s[..index] + s[index + 1..]| && (s[..index] + s[index + 1..])[j] == x;
          if j < index { assert x == s[j]; } else { assert x == s[j + 1]; }
        }
      }
      s[..index] + s[index + 1..]
  }

  /**
   * The side after inserting order `o`. An investor order (id 0) is appended.
   * Otherwise the participant's resident order, if any, decides: when its
   * `originTimestamp` is strictly newer the new order is stale and the side is
   * unchanged; else the resident order is spliced out and `o` appended.
   */
  function Inserted(s: seq<Order>, o: Order): (r: seq<Order>)
    ensures o.id == 0 ==> r == s + [o]
    ensures (forall k :: 0 <= k < |s| ==> s[k].id != o.id) ==> r == s + [o]
    ensures o.id != 0 ==> r == s || r == Removed(s, o.id) + [o]
  {
    if o.id != 0 then
      var index := IndexOf(s, o.id);
      if index != -1 && s[index].originTimestamp > o.originTimestamp then s
      else if index != -1 then s[..index] + s[index + 1..] + [o]
      else s + [o]
    else s + [o]
  }

  lemma {:induction false} OccurrencesAppend(a: seq<Order>, b: seq<Order>, id: int)
    ensures Occurrences(a + b, id) == Occurrences(a, id) + Occurrences(b, id)
  {
    if a == [] {
      assert a + b == b;
    } else {
      assert (a + b)[1..] == a[1..] + b;
      OccurrencesAppend(a[1..], b, id);
    }
  }

  /** Two orders of the same participant make at least two occurrences. */
  lemma OccurrencesTwice(s: seq<Order>, id: int, i: int, j: int)
    requires 0 <= i < j < |s| && s[i].id == id && s[j].id == id
    ensures Occurrences(s, id) >= 2
  {
    assert s == s[..j] + s[j..];
    OccurrencesAppend(s[..j], s[j..], id);
    assert s[..j][i].id == id;
    assert s[j..][0].id == id;
  }

  /** Under uniqueness, the order of a participant that `findIndex` finds is its only one. */
  lemma UniqueIndex(s: seq<Order>, id: int, i: int)
    requires UniqueIds(s) && id != 0
    requires 0 <= i < |s| && s[i].id == id
    ensures IndexOf(s, id) == i
  {
    var r := IndexOf(s, id);
    if r < i {
      OccurrencesTwice(s, id, r, i);
      assert false;
    }
  }

  /** Removing participant `id` takes away exactly one of its occurrences, if it had any, and no other. */
  lemma OccurrencesRemoved(s: seq<Order>, id: int, x: int)
    ensures Occurrences(Removed(s, id), x) ==
      Occurrences(s, x) - (if x == id && Occurrences(s, id) > 0 then 1 else 0)
  {
    var r := Removed(s, id);
    var k := IndexOf(s, id);
    if k != -1 {
      assert r == s[..k] + s[k + 1..];
      OccurrencesSplice(s, k, x);
      assert Occurrences(s, id) > 0;
    } else {
      assert r == s;
    }
  }

  /** Splicing out position `k` lowers the count of that order's id by one and leaves the others. */
  lemma OccurrencesSplice(s: seq<Order>, k: int, x: int)
    requires 0 <= k < |s|
    ensures Occurrences(s[..k] + s[k + 1..], x) == Occurrences(s, x) - (if s[k].id == x then 1 else 0)
  {
    assert s == s[..k] + [s[k]] + s[k + 1..];
    OccurrencesAppend(s[..k] + [s[k]], s[k + 1..], x);
    OccurrencesAppend(s[..k], [s[k]], x);
    OccurrencesAppend(s[..k], s[k + 1..], x);
    assert [s[k]][1..] == [];
  }

  /** Removal keeps every participant other than the investor down to one order. */
  lemma RemovedKeepsUnique(s: seq<Order>, id: int)
    requires UniqueIds(s)
    ensures UniqueIds(Removed(s, id))
  {
    forall x | x != 0 ensures Occurrences(Removed(s, id), x) <= 1 {
      OccurrencesRemoved(s, id, x);
    }
  }

  /** Inserting an order does not change how many orders another participant has. */
  lemma InsertedOthers(s: seq<Order>, o: Order, x: int)
    requires x != o.id
    ensures Occurrences(Inserted(s, o), x) == Occurrences(s, x)
  {
    OccurrencesAppend(s, [o], x);
    OccurrencesRemoved(s, o.id, x);
    OccurrencesAppend(Removed(s, o.id), [o], x);
    assert [o][1..] == [];
  }

  /**
   * After any insert by a participant other than the investor, that
   * participant has exactly one order on the side, given it had at most one.
   */
  lemma InsertedOnce(s: seq<Order>, o: Order)
    requires o.id != 0 && Occurrences(s, o.id) <= 1
    ensures Occurrences(Inserted(s, o), o.id) == 1
  {
    OccurrencesAppend(s, [o], o.id);
    OccurrencesRemoved(s, o.id, o.id);
    OccurrencesAppend(Removed(s, o.id), [o], o.id);
    assert [o][1..] == [];
    var index := IndexOf(s, o.id);
    if index != -1 {
      assert Occurrences(s, o.id) == 1;
    }
  }

  /** Insertion keeps every participant other than the investor down to one order. */
  lemma InsertedKeepsUnique(s: seq<Order>, o: Order)
    requires UniqueIds(s)
    ensures UniqueIds(Inserted(s, o))
  {
    forall x | x != 0 ensures Occurrences(Inserted(s, o), x) <= 1 {
      if x == o.id { InsertedOnce(s, o); } else { InsertedOthers(s, o, x); }
    }
  }

  /** Insertion of a fresh order of the current batch keeps the side resident in that batch. */
  lemma InsertedKeepsResident(s: seq<Order>, o: Order, batchNumber: int)
    requires Resident(s, batchNumber) && !o.transacted && o.batchNumber == batchNumber
    ensures Resident(Inserted(s, o), batchNumber)
  {
  }

  /** Staleness: a participant's strictly newer resident order makes the insert a no-op. */
  lemma StaleInsertIsDropped(s: seq<Order>, o: Order, i: int)
    requires UniqueIds(s) && o.id != 0
    requires 0 <= i < |s| && s[i].id == o.id && s[i].originTimestamp > o.originTimestamp
    ensures Inserted(s, o) == s
  {
    UniqueIndex(s, o.id, i);
  }

  /**
   * A resident order that is not newer (equal or older `originTimestamp`) is
   * spliced out and the new order appended; the others keep their order.
   */
  lemma NewerInsertReplaces(s: seq<Order>, o: Order, i: int)
    requires UniqueIds(s) && o.id != 0
    requires 0 <= i < |s| && s[i].id == o.id && s[i].originTimestamp <= o.originTimestamp
    ensures Inserted(s, o) == s[..i] + s[i + 1..] + [o]
  {
    UniqueIndex(s, o.id, i);
  }
}
