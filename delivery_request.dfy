/**
 The "new orders" request of the delivery provider's API: a request number and
 a table of orders keyed by order number, whose size is sent as OrderCount.
 */
module DeliveryRequests {

  /** HTTP method of the request. */
  const RequestMethod: string := "POST"

  /** Endpoint the request is sent to. */
  const RequestAddress: string := "/new_orders.php"

  datatype Option<T> = None | Some(value: T)

  /** An order to deliver. Only its number takes part in the request's table. */
  class Order {
    const Number: string

    constructor (number: string)
      ensures Number == number
    {
      Number := number;
    }
  }

  /** Orders of a request, keyed by order number. */
  type OrderTable = map<string, Order>

  /**
   The table after storing `o` under its number: a new number adds one entry,
   a number already present has its order replaced, every other entry stays.
   */
  function Insert(t: OrderTable, o: Order): (r: OrderTable)
    ensures o.Number in r && r[o.Number] == o
    ensures forall k :: k in t && k != o.Number ==> k in r && r[k] == t[k]
    ensures r.Keys == t.Keys + {o.Number}
    ensures |r| == if o.Number in t then |t| else |t| + 1
  {
    var r := t[o.Number := o];
    assert r.Keys == t.Keys + {o.Number};
    r
  }

  /** The table obtained from `t` by adding the orders of `os`, first to last. */
  ghost function AddedAll(t: OrderTable, os: seq<Order>): OrderTable
  {
    if os == [] then t else Insert(AddedAll(t, os[..|os| - 1]), os[|os| - 1])
  }

  /** The distinct order numbers among `os`. */
  ghost function Numbers(os: seq<Order>): set<string>
  {
    set i | 0 <= i < |os| :: os[i].Number
  }

  /** The last order of `os` whose number is `k`, if any. */
  ghost function LastWithNumber(os: seq<Order>, k: string): Option<Order>
  {
    if os == [] then None
    else if os[|os| - 1].Number == k then Some(os[|os| - 1])
    else LastWithNumber(os[..|os| - 1], k)
  }

  /** No two orders of `os` share a number. */
  ghost predicate DistinctNumbers(os: seq<Order>)
  {
    forall i, j :: 0 <= i < j < |os| ==> os[i].Number != os[j].Number
  }

  /** The numbers of a sequence are those of its prefix and of its last order. */
  lemma NumbersSnoc(os: seq<Order>)
    requires os != []
    ensures Numbers(os) == Numbers(os[..|os| - 1]) + {os[|os| - 1].Number}
  {
  }

  /** The keys after adding `os` are the old keys and the numbers of `os`. */
  lemma {:induction false} AddedAllKeys(t: OrderTable, os: seq<Order>)
    ensures AddedAll(t, os).Keys == t.Keys + Numbers(os)
  {
    if os != [] {
      AddedAllKeys(t, os[..|os| - 1]);
      NumbersSnoc(os);
    }
  }

  /**
   After adding `os`, a number maps to the last order of `os` carrying it,
   or keeps its old entry when no order of `os` carries it.
   */
  lemma {:induction false} AddedAllLookup(t: OrderTable, os: seq<Order>, k: string)
    ensures k in AddedAll(t, os) <==> k in t || LastWithNumber(os, k).Some?
    ensures LastWithNumber(os, k).Some? ==> AddedAll(t, os)[k] == LastWithNumber(os, k).value
    ensures LastWithNumber(os, k).None? && k in t ==> AddedAll(t, os)[k] == t[k]
  {
    if os != [] {
      AddedAllLookup(t, os[..|os| - 1], k);
    }
  }

  /** The table never holds more entries than orders were added to it. */
  lemma {:induction false} CountAtMostAdded(os: seq<Order>)
    ensures |AddedAll(map[], os)| <= |os|
  {
    if os != [] {
      CountAtMostAdded(os[..|os| - 1]);
    }
  }

  /** A sequence has distinct numbers when its prefix does and its last number is new. */
  lemma DistinctNumbersSnoc(os: seq<Order>)
    requires os != []
    ensures DistinctNumbers(os) <==>
      DistinctNumbers(os[..|os| - 1]) && os[|os| - 1].Number !in Numbers(os[..|os| - 1])
  {
  }

  /** The table holds one entry per added order exactly when no number repeats. */
  lemma {:induction false} CountEqualsAddedIffDistinct(os: seq<Order>)
    ensures |AddedAll(map[], os)| == |os| <==> DistinctNumbers(os)
  {
    if os != [] {
      var p := os[..|os| - 1];
      CountEqualsAddedIffDistinct(p);
      CountAtMostAdded(p);
      AddedAllKeys(map[], p);
      DistinctNumbersSnoc(os);
    }
  }

  /** The request that sends a batch of new orders to the provider. */
  class DeliveryRequest {
    /** The request number; `None` while it was never set. */
    var Number: Option<string>
    /** The order table, keyed by order number. */
    var orders: OrderTable
    /** Every order passed to AddOrder, in call order. */
    ghost var added: seq<Order>

    ghost predicate Valid()
      reads this
    {
      orders == AddedAll(map[], added)
    }

    constructor (number: Option<string>)
      ensures Valid()
      ensures Number == number && orders == map[] && added == []
    {
      Number := number;
      orders := map[];
      added := [];
    }

    /** The number of distinct order numbers added so far. */
    function OrderCount(): (n: nat)
      reads this
      requires Valid()
      ensures n == |Numbers(added)|
      ensures n <= |added|
      ensures n == |added| <==> DistinctNumbers(added)
    {
      AddedAllKeys(map[], added);
      CountAtMostAdded(added);
      CountEqualsAddedIffDistinct(added);
      |orders|
    }

    /** Stores `o` under its number and returns this request for chaining. */
    method AddOrder(o: Order) returns (self: DeliveryRequest)
      requires Valid()
      modifies this
      ensures Valid() && self == this
      ensures added == old(added) + [o]
      ensures orders == Insert(old(orders), o)
      ensures o.Number in orders && orders[o.Number] == o
      ensures forall k :: k in old(orders) && k != o.Number ==> k in orders && orders[k] == old(orders)[k]
      ensures Number == old(Number)
      ensures OrderCount() == if o.Number in old(orders) then old(OrderCount()) else old(OrderCount()) + 1
    {
      orders := orders[o.Number := o];
      added := added + [o];
      assert added[..|added| - 1] == old(added);
      self := this;
    }

    /** The request number as a string: the empty string while it is unset. */
    function GetNumber(): (s: string)
      reads this
      ensures Number.None? ==> s == ""
      ensures Number.Some? ==> s == Number.value
    {
      match Number
      case None => ""
      case Some(n) => n
    }
  }
}
