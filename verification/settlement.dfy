/** Sale settlement (`complete_sale`): all of a salesperson's open sales are
    marked completed and summed into one completed sale, stamped with the
    branch of the salesperson's highest-keyed ledger entry; every failure
    leaves the stored state unchanged. */
module Settlement {
  import opened Results
  import opened Records
  import opened Money
  import Queries
  import Assignment
  import Carts

  /** The tables `complete_sale` reads and writes. */
  datatype Shop = Shop(
    ledger: Ledger,
    products: map<Id, Product>,
    carts: seq<Cart>,
    sales: seq<Sale>,
    completed: seq<CompletedSale>,
    nextCompletedId: Id,
    paymentMethods: set<Id>)

  datatype Verb = Get | Post

  datatype Reply = CompletedList(records: seq<CompletedSale>) | Receipt(record: CompletedSale)

  function MadeBy(sp: Id): Sale -> bool
  {
    (s: Sale) => s.salesperson == sp
  }

  function OpenFor(sp: Id): Sale -> bool
  {
    (s: Sale) => s.salesperson == sp && !s.isCompleted
  }

  function SettledBy(sp: Id): CompletedSale -> bool
  {
    (c: CompletedSale) => c.salesperson == sp
  }

  function TransactionDate(s: Sale): int
  {
    s.transactionDate
  }

  function EntryId(e: Entry): int
  {
    e.id
  }

  /** The salesperson's sales, newest transaction first. */
  function SalesOf(sales: seq<Sale>, sp: Id): (r: seq<Sale>)
    ensures Queries.SortedDesc(r, TransactionDate)
    ensures multiset(r) == multiset(Queries.Filter(sales, MadeBy(sp)))
    ensures forall i | 0 <= i < |r| :: r[i] in sales && r[i].salesperson == sp
  {
    var f := Queries.Filter(sales, MadeBy(sp));
    var r := Queries.SortDesc(f, TransactionDate);
    assert forall i | 0 <= i < |r| :: r[i] in f by {
      forall i | 0 <= i < |r| ensures r[i] in f {
        assert r[i] in multiset(r);
      }
    }
    r
  }

  /** The open sales `complete_sale` loads, newest transaction first. */
  function OpenSales(sales: seq<Sale>, sp: Id): (r: seq<Sale>)
    ensures Queries.SortedDesc(r, TransactionDate)
    ensures multiset(r) == multiset(Queries.Filter(sales, OpenFor(sp)))
    ensures |r| == 0 <==> forall i | 0 <= i < |sales| :: !OpenFor(sp)(sales[i])
    ensures forall i | 0 <= i < |r| :: r[i] in sales && OpenFor(sp)(r[i])
  {
    var f := Queries.Filter(sales, OpenFor(sp));
    var r := Queries.SortDesc(f, TransactionDate);
    assert forall i | 0 <= i < |r| :: r[i] in f by {
      forall i | 0 <= i < |r| ensures r[i] in f {
        assert r[i] in multiset(r);
      }
    }
    r
  }

  /** `latest_branch`: the salesperson's ledger entry with the largest key,
      whether or not it has been terminated. */
  function LatestEntry(entries: seq<Entry>, sp: Id): (r: Option<Entry>)
    ensures r.None? <==> forall i | 0 <= i < |entries| :: entries[i].salesperson != sp
    ensures r.Some? ==> r.value in entries && r.value.salesperson == sp
    ensures r.Some? ==>
      forall i | 0 <= i < |entries| && entries[i].salesperson == sp :: entries[i].id <= r.value.id
  {
    Queries.Latest(entries, Assignment.BelongsTo(sp), EntryId)
  }

  /** `Cart.objects.get(cart_id=...)`. */
  function FindCart(carts: seq<Cart>, id: Id): Option<Cart>
  {
    Queries.Find(carts, (c: Cart) => c.id == id)
  }

  /** The amount one sale contributes, read from its cart at completion time. */
  function SaleAmount(carts: seq<Cart>, products: map<Id, Product>, s: Sale): Result<Amount, Error>
  {
    match FindCart(carts, s.cart)
    case None => Failure(CartNotFound)
    case Some(c) => Carts.TotalPrice(products, c)
  }

  function SalePricer(carts: seq<Cart>, products: map<Id, Product>): Sale -> Result<Amount, Error>
  {
    s => SaleAmount(carts, products, s)
  }

  /** Flags every open sale of the salesperson completed. */
  function MarkCompleted(sales: seq<Sale>, sp: Id): (r: seq<Sale>)
    ensures |r| == |sales|
    ensures forall i | 0 <= i < |sales| ::
      r[i].isCompleted == (sales[i].isCompleted || sales[i].salesperson == sp)
    ensures forall i | 0 <= i < |sales| :: r[i].(isCompleted := sales[i].isCompleted) == sales[i]
  {
    seq(|sales|, i requires 0 <= i < |sales| =>
      if sales[i].salesperson == sp && !sales[i].isCompleted then sales[i].(isCompleted := true) else sales[i])
  }

  /** The request's payment method is present: not absent and not a falsy 0. */
  predicate PaymentProvided(payment: Option<int>)
  {
    payment.Some? && payment.value != 0
  }

  /** The payment method names an existing row. */
  predicate PaymentKnown(shop: Shop, payment: Option<int>)
  {
    payment.Some? && payment.value >= 0 && payment.value as Id in shop.paymentMethods
  }

  /** `complete_sale` for one salesperson: the checks first ("cart is empty",
      then "a payment method must be present"), then the listing for GET or
      the atomic settlement for POST. A `Failure` leaves the shop as it was. */
  function CompleteSale(shop: Shop, sp: Id, verb: Verb, payment: Option<int>, now: Instant)
    : (r: Result<(Shop, Reply), Error>)
    ensures r.Success? && verb == Get ==> r.value.0 == shop
    ensures r.Success? ==> exists i | 0 <= i < |shop.sales| :: OpenFor(sp)(shop.sales[i])
  {
    var open := OpenSales(shop.sales, sp);
    if |open| == 0 then Failure(EmptyCart)
    else if !PaymentProvided(payment) then Failure(MissingPaymentMethod)
    else if verb == Get then Success((shop, CompletedList(Queries.Filter(shop.completed, SettledBy(sp)))))
    else
      var latest := LatestEntry(shop.ledger.entries, sp);
      var total :- Queries.SumAll(open, SalePricer(shop.carts, shop.products));
      if latest.None? then Failure(NoLedgerEntry)
      else if !PaymentKnown(shop, payment) then Failure(UnknownPaymentMethod)
      else Success(Settle(shop, sp, latest.value.branch, total, payment.value as Id, now))
  }

  /** The writes of a successful POST: the open sales are flagged and one
      completed sale is appended under the next key. */
  function Settle(shop: Shop, sp: Id, branch: Id, total: Amount, payment: Id, now: Instant): (Shop, Reply)
  {
    var record := CompletedSale(shop.nextCompletedId, sp, branch, total, payment, now);
    (shop.(sales := MarkCompleted(shop.sales, sp),
           completed := shop.completed + [record],
           nextCompletedId := shop.nextCompletedId + 1),
     Receipt(record))
  }

  /** What a successful POST returns, with the total and branch spelled out. */
  lemma {:induction false} PostShape(shop: Shop, sp: Id, payment: Option<int>, now: Instant)
    requires CompleteSale(shop, sp, Post, payment, now).Success?
    ensures payment.Some? && payment.value >= 0
    ensures LatestEntry(shop.ledger.entries, sp).Some?
    ensures CompleteSale(shop, sp, Post, payment, now).value
         == Settle(shop, sp, LatestEntry(shop.ledger.entries, sp).value.branch,
                   Queries.Sum(Queries.Filter(shop.sales, OpenFor(sp)), Queries.OrZero(SalePricer(shop.carts, shop.products))),
                   payment.value as Id, now)
  {
    OpenTotal(shop, sp);
  }

  /** With no open sale the "cart is empty" error wins, whatever the verb or
      the payment method. */
  lemma EmptyCartFirst(shop: Shop, sp: Id, verb: Verb, payment: Option<int>, now: Instant)
    requires forall i | 0 <= i < |shop.sales| :: shop.sales[i].salesperson == sp ==> shop.sales[i].isCompleted
    ensures CompleteSale(shop, sp, verb, payment, now) == Failure(EmptyCart)
  {
  }

  /** With open sales but no payment method, the payment error follows. */
  lemma PaymentCheckedSecond(shop: Shop, sp: Id, verb: Verb, payment: Option<int>, now: Instant)
    requires exists i | 0 <= i < |shop.sales| :: OpenFor(sp)(shop.sales[i])
    requires !PaymentProvided(payment)
    ensures CompleteSale(shop, sp, verb, payment, now) == Failure(MissingPaymentMethod)
  {
  }

  /** GET passes the same two checks and then lists exactly the salesperson's
      completed sales, changing nothing. */
  lemma GetListsCompleted(shop: Shop, sp: Id, payment: Option<int>, now: Instant)
    requires exists i | 0 <= i < |shop.sales| :: OpenFor(sp)(shop.sales[i])
    requires PaymentProvided(payment)
    ensures var r := CompleteSale(shop, sp, Get, payment, now);
      && r.Success?
      && r.value.0 == shop
      && r.value.1.CompletedList?
      && (forall i | 0 <= i < |r.value.1.records| ::
            r.value.1.records[i] in shop.completed && r.value.1.records[i].salesperson == sp)
      && (forall i | 0 <= i < |shop.completed| && shop.completed[i].salesperson == sp ::
            shop.completed[i] in r.value.1.records)
  {
  }

  /** Every open sale of the salesperson has a cart with a product. */
  predicate AllPriced(shop: Shop, sp: Id)
  {
    forall i | 0 <= i < |shop.sales| && OpenFor(sp)(shop.sales[i]) ::
      SaleAmount(shop.carts, shop.products, shop.sales[i]).Success?
  }

  /** Every loaded open sale is priceable exactly when every open sale in the
      table is. */
  lemma OpenSalesPriced(shop: Shop, sp: Id)
    ensures (forall i | 0 <= i < |OpenSales(shop.sales, sp)| ::
               SalePricer(shop.carts, shop.products)(OpenSales(shop.sales, sp)[i]).Success?)
        <==> AllPriced(shop, sp)
  {
    Queries.AllOnPermutedFilter(shop.sales, OpenSales(shop.sales, sp), OpenFor(sp),
                                s => SalePricer(shop.carts, shop.products)(s).Success?);
  }

  /** The settlement loop succeeds exactly when every open sale is priceable,
      and then sums their amounts in table order. */
  lemma {:induction false} OpenTotal(shop: Shop, sp: Id)
    ensures var t := Queries.SumAll(OpenSales(shop.sales, sp), SalePricer(shop.carts, shop.products));
      && (t.Success? <==> AllPriced(shop, sp))
      && (t.Success? ==>
            t.value == Queries.Sum(Queries.Filter(shop.sales, OpenFor(sp)), Queries.OrZero(SalePricer(shop.carts, shop.products))))
  {
    OpenSalesPriced(shop, sp);
    Queries.SumPermutation(OpenSales(shop.sales, sp), Queries.Filter(shop.sales, OpenFor(sp)),
                           Queries.OrZero(SalePricer(shop.carts, shop.products)));
  }

  /** POST succeeds exactly when there is an open sale, a payment method is
      given, every open sale's cart and product exist, the salesperson has a
      ledger entry, and the payment method exists. */
  lemma PostSucceedsIff(shop: Shop, sp: Id, payment: Option<int>, now: Instant)
    ensures CompleteSale(shop, sp, Post, payment, now).Success? <==>
      && (exists i | 0 <= i < |shop.sales| :: OpenFor(sp)(shop.sales[i]))
      && PaymentProvided(payment)
      && AllPriced(shop, sp)
      && LatestEntry(shop.ledger.entries, sp).Some?
      && PaymentKnown(shop, payment)
  {
    OpenTotal(shop, sp);
  }

  /** A salesperson with no ledger entry cannot settle: the branch lookup
      fails inside the atomic block, so no sale is marked and no completed
      sale is created. */
  lemma RollsBackWithoutLedgerEntry(shop: Shop, sp: Id, payment: Option<int>, now: Instant)
    requires exists i | 0 <= i < |shop.sales| :: OpenFor(sp)(shop.sales[i])
    requires PaymentProvided(payment)
    requires AllPriced(shop, sp)
    requires forall i | 0 <= i < |shop.ledger.entries| :: shop.ledger.entries[i].salesperson != sp
    ensures CompleteSale(shop, sp, Post, payment, now) == Failure(NoLedgerEntry)
  {
    OpenTotal(shop, sp);
  }

  /** A successful POST flips exactly the salesperson's open sales, leaves
      every other row and table alone, and appends one completed sale. */
  lemma {:induction false} PostMarksExactlyOpen(shop: Shop, sp: Id, payment: Option<int>, now: Instant)
    requires CompleteSale(shop, sp, Post, payment, now).Success?
    ensures var (after, reply) := CompleteSale(shop, sp, Post, payment, now).value;
      && reply.Receipt?
      && after.ledger == shop.ledger
      && after.products == shop.products
      && after.carts == shop.carts
      && after.paymentMethods == shop.paymentMethods
      && |after.sales| == |shop.sales|
      && (forall i | 0 <= i < |shop.sales| ::
            && after.sales[i].isCompleted
                 == (shop.sales[i].isCompleted || shop.sales[i].salesperson == sp)
            && after.sales[i].(isCompleted := shop.sales[i].isCompleted) == shop.sales[i])
      && after.completed == shop.completed + [reply.record]
  {
    PostShape(shop, sp, payment, now);
  }

  /** The completed sale of a successful POST carries the salesperson, the
      time, the payment method, the sum of the open sales' line totals, and
      the branch of the highest-keyed ledger entry, terminated or not. */
  lemma {:induction false} PostRecord(shop: Shop, sp: Id, payment: Option<int>, now: Instant)
    requires CompleteSale(shop, sp, Post, payment, now).Success?
    ensures CompleteSale(shop, sp, Post, payment, now).value.1.Receipt?
    ensures var record := CompleteSale(shop, sp, Post, payment, now).value.1.record;
      && record.salesperson == sp
      && record.completedAt == now
      && payment.Some? && record.paymentMethod as int == payment.value
      && record.totalAmount
           == Queries.Sum(Queries.Filter(shop.sales, OpenFor(sp)), Queries.OrZero(SalePricer(shop.carts, shop.products)))
      && LatestEntry(shop.ledger.entries, sp).Some?
      && record.branch == LatestEntry(shop.ledger.entries, sp).value.branch
  {
    PostShape(shop, sp, payment, now);
  }

  /** After flagging, the salesperson has no open sale left. */
  lemma LeavesNothingOpen(sales: seq<Sale>, sp: Id)
    ensures forall i | 0 <= i < |MarkCompleted(sales, sp)| ::
      MarkCompleted(sales, sp)[i].salesperson == sp ==> MarkCompleted(sales, sp)[i].isCompleted
  {
  }

  /** Right after a successful POST there is nothing left to settle: repeating
      the request fails with "cart is empty". */
  lemma RepeatFindsEmptyCart(shop: Shop, sp: Id, payment: Option<int>, now: Instant,
                             verb: Verb, payment2: Option<int>, later: Instant)
    requires CompleteSale(shop, sp, Post, payment, now).Success?
    ensures CompleteSale(CompleteSale(shop, sp, Post, payment, now).value.0, sp, verb, payment2, later)
         == Failure(EmptyCart)
  {
    PostShape(shop, sp, payment, now);
    var after := CompleteSale(shop, sp, Post, payment, now).value.0;
    LeavesNothingOpen(shop.sales, sp);
    EmptyCartFirst(after, sp, verb, payment2, later);
  }

  /** The shop of the two-cart example: salesperson 5, assigned to branch 3,
      has open sales over carts of 2 x 100 and 1 x 250. */
  function ExampleShop(): Shop
  {
    Shop(
      Ledger([Entry(1, 5, 3, 0, None)], 2),
      map[1 := Product(1, "tea", Units(60), Units(100), false, None, None, None),
          2 := Product(2, "jam", Units(200), Units(250), false, None, None, None)],
      [Cart(1, 9, 2, Some(1)), Cart(2, 9, 1, Some(2))],
      [Sale(1, 5, 1, 10, false), Sale(2, 5, 2, 11, false)],
      [], 1, {7})
  }

  lemma ExamplePriced(shop: Shop)
    requires shop == ExampleShop()
    ensures AllPriced(shop, 5)
    ensures Queries.Sum(Queries.Filter(shop.sales, OpenFor(5)),
                        Queries.OrZero(SalePricer(shop.carts, shop.products))) == Units(450)
  {
    var price := SalePricer(shop.carts, shop.products);
    assert FindCart(shop.carts, 1) == Some(Cart(1, 9, 2, Some(1)));
    assert FindCart(shop.carts, 2) == Some(Cart(2, 9, 1, Some(2)));
    assert price(shop.sales[0]) == Success(Units(200));
    assert price(shop.sales[1]) == Success(Units(250));
    assert Queries.Filter(shop.sales, OpenFor(5)) == shop.sales;
  }

  lemma ExampleSucceeds(shop: Shop)
    requires shop == ExampleShop()
    ensures CompleteSale(shop, 5, Post, Some(7), 20).Success?
  {
    ExamplePriced(shop);
    assert OpenFor(5)(shop.sales[0]);
    assert LatestEntry(shop.ledger.entries, 5).Some?;
    PostSucceedsIff(shop, 5, Some(7), 20);
  }

  /** When every sale belongs to the salesperson, a successful POST leaves
      every sale completed. */
  lemma SettlesEverySale(shop: Shop, sp: Id, payment: Option<int>, now: Instant)
    requires CompleteSale(shop, sp, Post, payment, now).Success?
    requires forall i | 0 <= i < |shop.sales| :: shop.sales[i].salesperson == sp
    ensures var (after, reply) := CompleteSale(shop, sp, Post, payment, now).value;
      && reply.Receipt?
      && after.completed == shop.completed + [reply.record]
      && forall i | 0 <= i < |after.sales| :: after.sales[i].isCompleted
  {
    PostMarksExactlyOpen(shop, sp, payment, now);
  }

  /** The two open sales settle into one completed sale of 450 at branch 3:
      exactly the writes of `Settle`. */
  lemma TwoCartsSettleTo450(shop: Shop)
    requires shop == ExampleShop()
    ensures CompleteSale(shop, 5, Post, Some(7), 20) == Success(Settle(shop, 5, 3, Units(450), 7, 20))
  {
    ExampleSucceeds(shop);
    ExamplePriced(shop);
    PostShape(shop, 5, Some(7), 20);
    assert LatestEntry(shop.ledger.entries, 5) == Some(Entry(1, 5, 3, 0, None));
  }

  /** Settling the example flags both of its sales completed. */
  lemma ExampleMarksBoth(sales: seq<Sale>)
    requires sales == ExampleShop().sales
    ensures MarkCompleted(sales, 5) == [Sale(1, 5, 1, 10, true), Sale(2, 5, 2, 11, true)]
  {
  }
}
