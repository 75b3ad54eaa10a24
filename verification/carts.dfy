/** Cart lines: their price, the per-customer listing with its aggregate
    price, and the quantity update. */
module Carts {
  import opened Results
  import opened Records
  import opened Money
  import Queries

  /** A line's `total_price`: its quantity times the product's selling price.
      The read of the price fails when the product has been deleted. */
  function TotalPrice(products: map<Id, Product>, c: Cart): (r: Result<Amount, Error>)
    ensures r.Success? <==> c.product.Some? && c.product.value in products
    ensures r.Success? ==> r.value == LineTotal(c.items, products[c.product.value].sellingPrice)
    ensures r.Failure? ==> r.error == ProductMissing
  {
    match c.product
    case None => Failure(ProductMissing)
    case Some(p) =>
      if p in products then Success(LineTotal(c.items, products[p].sellingPrice))
      else Failure(ProductMissing)
  }

  function Pricer(products: map<Id, Product>): Cart -> Result<Amount, Error>
  {
    c => TotalPrice(products, c)
  }

  function OwnedBy(customer: Id): Cart -> bool
  {
    (c: Cart) => c.customer == customer
  }

  function CartId(c: Cart): int
  {
    c.id
  }

  /** The customer's cart lines, largest key first. */
  function CustomerCarts(carts: seq<Cart>, customer: Id): (r: seq<Cart>)
    ensures Queries.SortedDesc(r, CartId)
    ensures multiset(r) == multiset(Queries.Filter(carts, OwnedBy(customer)))
    ensures forall i | 0 <= i < |r| :: r[i] in carts && r[i].customer == customer
    ensures forall i | 0 <= i < |carts| && carts[i].customer == customer :: carts[i] in r
  {
    var f := Queries.Filter(carts, OwnedBy(customer));
    var r := Queries.SortDesc(f, CartId);
    assert forall i | 0 <= i < |r| :: r[i] in f by {
      forall i | 0 <= i < |r| ensures r[i] in f {
        assert r[i] in multiset(r);
      }
    }
    assert forall i | 0 <= i < |carts| && carts[i].customer == customer :: carts[i] in r by {
      forall i | 0 <= i < |carts| && carts[i].customer == customer ensures carts[i] in r {
        assert carts[i] in f;
        assert carts[i] in multiset(f);
      }
    }
    r
  }

  /** A serialized cart line. */
  datatype Line = Line(cart: Cart, totalPrice: Amount)

  /** The list response: the lines and their aggregate `price`. */
  datatype Listing = Listing(results: seq<Line>, price: Amount)

  function LinePrice(line: Line): int
  {
    line.totalPrice
  }

  /** Serializes the lines in order; the first unpriceable line aborts. */
  function Lines(cs: seq<Cart>, products: map<Id, Product>): (r: Result<seq<Line>, Error>)
    ensures r.Success? <==> forall i | 0 <= i < |cs| :: TotalPrice(products, cs[i]).Success?
    ensures r.Success? ==>
      && |r.value| == |cs|
      && (forall i | 0 <= i < |cs| :: r.value[i] == Line(cs[i], TotalPrice(products, cs[i]).value))
      && Queries.Sum(r.value, LinePrice) == Queries.Sum(cs, Queries.OrZero(Pricer(products)))
  {
    if |cs| == 0 then Success([])
    else
      var head :- TotalPrice(products, cs[0]);
      var tail :- Lines(cs[1..], products);
      assert ([Line(cs[0], head)] + tail)[1..] == tail;
      Success([Line(cs[0], head)] + tail)
  }

  /** The cart listing of one customer: it succeeds exactly when every line
      of the customer has a product, shows the customer's lines in listing
      order, and its aggregate is the sum of the line totals over the
      customer's carts in table order. */
  function List(carts: seq<Cart>, products: map<Id, Product>, customer: Id): (r: Result<Listing, Error>)
    ensures r.Success? <==>
      forall i | 0 <= i < |carts| && carts[i].customer == customer :: TotalPrice(products, carts[i]).Success?
    ensures r.Success? ==>
      && |r.value.results| == |CustomerCarts(carts, customer)|
      && (forall i | 0 <= i < |r.value.results| :: r.value.results[i].cart == CustomerCarts(carts, customer)[i])
      && r.value.price == Queries.Sum(Queries.Filter(carts, OwnedBy(customer)), Queries.OrZero(Pricer(products)))
  {
    var cs := CustomerCarts(carts, customer);
    CustomerLinesPriced(carts, products, customer);
    Queries.SumPermutation(cs, Queries.Filter(carts, OwnedBy(customer)), Queries.OrZero(Pricer(products)));
    var lines :- Lines(cs, products);
    Success(Listing(lines, Queries.Sum(lines, LinePrice)))
  }

  /** Every line of the sorted view is priceable exactly when every line of
      the customer in the table is. */
  lemma CustomerLinesPriced(carts: seq<Cart>, products: map<Id, Product>, customer: Id)
    ensures (forall i | 0 <= i < |CustomerCarts(carts, customer)| ::
               TotalPrice(products, CustomerCarts(carts, customer)[i]).Success?)
        <==> (forall i | 0 <= i < |carts| && carts[i].customer == customer ::
               TotalPrice(products, carts[i]).Success?)
  {
    Queries.AllOnPermutedFilter(carts, CustomerCarts(carts, customer), OwnedBy(customer),
                                c => TotalPrice(products, c).Success?);
  }

  /** The listing succeeds exactly when every line of the customer has a
      product; it then shows all of the customer's lines, largest key first,
      each priced at quantity times selling price, and its aggregate is the
      sum of the line totals. */
  lemma {:induction false} ListPriceIsSumOfLines(carts: seq<Cart>, products: map<Id, Product>, customer: Id)
    ensures var r := List(carts, products, customer);
      && (r.Success? <==>
            forall i | 0 <= i < |carts| && carts[i].customer == customer :: TotalPrice(products, carts[i]).Success?)
      && (r.Success? ==>
            && |r.value.results| == |CustomerCarts(carts, customer)|
            && (forall i | 0 <= i < |r.value.results| ::
                  && r.value.results[i].cart == CustomerCarts(carts, customer)[i]
                  && r.value.results[i].totalPrice == LineTotal(r.value.results[i].cart.items,
                       products[r.value.results[i].cart.product.value].sellingPrice))
            && r.value.price == Queries.Sum(Queries.Filter(carts, OwnedBy(customer)), Queries.OrZero(Pricer(products))))
  {
    var cs := CustomerCarts(carts, customer);
    var lines := Lines(cs, products);
    CustomerLinesPriced(carts, products, customer);
    if lines.Success? {
      Queries.SumPermutation(cs, Queries.Filter(carts, OwnedBy(customer)), Queries.OrZero(Pricer(products)));
    }
  }

  /** The quantity update: `number_of_items` takes the supplied value, or keeps
      its own when none is supplied; no other field changes. */
  function UpdateQuantity(c: Cart, items: Option<int>): (r: Cart)
    ensures items.Some? ==> r.items == items.value
    ensures items.None? ==> r == c
    ensures r.id == c.id && r.customer == c.customer && r.product == c.product
  {
    c.(items := match items case Some(n) => n case None => c.items)
  }

  /** An update is idempotent, and the updated line is priced at the new
      quantity. */
  lemma UpdateThenPrice(products: map<Id, Product>, c: Cart, n: int)
    ensures UpdateQuantity(UpdateQuantity(c, Some(n)), Some(n)) == UpdateQuantity(c, Some(n))
    ensures TotalPrice(products, UpdateQuantity(c, Some(n))).Success? == TotalPrice(products, c).Success?
    ensures TotalPrice(products, c).Success? ==>
      TotalPrice(products, UpdateQuantity(c, Some(n))).value == LineTotal(n, products[c.product.value].sellingPrice)
  {
  }

  /** The line a PUT on the customer's cart endpoint addresses. */
  predicate Addressed(c: Cart, customer: Id, id: Id)
  {
    c.id == id && c.customer == customer
  }

  /** A PUT through the customer's cart endpoint: the line is looked up among
      that customer's lines (a missing one is a 404), then the body must carry
      an integer `number_of_items` (the field is required), which replaces the
      line's quantity. */
  function UpdateCart(carts: seq<Cart>, customer: Id, id: Id, items: Option<int>)
    : (r: Result<seq<Cart>, Error>)
    ensures (forall i | 0 <= i < |carts| :: !Addressed(carts[i], customer, id)) ==> r == Failure(NotFound)
    ensures (exists i | 0 <= i < |carts| :: Addressed(carts[i], customer, id)) && items.None? ==>
      r == Failure(QuantityRequired)
    ensures r.Success? <==>
      (exists i | 0 <= i < |carts| :: Addressed(carts[i], customer, id)) && items.Some?
    ensures r.Success? ==>
      && |r.value| == |carts|
      && (forall i | 0 <= i < |carts| && Addressed(carts[i], customer, id) ::
            r.value[i].items == items.value && r.value[i].(items := carts[i].items) == carts[i])
      && (forall i | 0 <= i < |carts| && !Addressed(carts[i], customer, id) :: r.value[i] == carts[i])
  {
    match Queries.Find(carts, (c: Cart) => Addressed(c, customer, id))
    case None => Failure(NotFound)
    case Some(_) =>
      match items
      case None => Failure(QuantityRequired)
      case Some(n) =>
        Success(seq(|carts|, i requires 0 <= i < |carts| =>
          if Addressed(carts[i], customer, id) then UpdateQuantity(carts[i], Some(n)) else carts[i]))
  }

  /** A PUT on one customer's line leaves every other customer's listing as it
      was. */
  lemma UpdateCartKeepsOtherCustomers(carts: seq<Cart>, customer: Id, id: Id, items: Option<int>, other: Id)
    requires other != customer
    ensures var r := UpdateCart(carts, customer, id, items);
      r.Success? ==> CustomerCarts(r.value, other) == CustomerCarts(carts, other)
  {
    var r := UpdateCart(carts, customer, id, items);
    if r.Success? {
      Queries.FilterFrame(r.value, carts, OwnedBy(other));
    }
  }

  /** After a successful PUT the addressed line is priced at the new quantity
      exactly when it could be priced before. */
  lemma UpdateCartReprices(carts: seq<Cart>, products: map<Id, Product>, customer: Id, id: Id, n: int)
    ensures var r := UpdateCart(carts, customer, id, Some(n));
      r.Success? ==>
        forall i | 0 <= i < |carts| && Addressed(carts[i], customer, id) ::
          && TotalPrice(products, r.value[i]).Success? == TotalPrice(products, carts[i]).Success?
          && (TotalPrice(products, carts[i]).Success? ==>
                TotalPrice(products, r.value[i]).value == LineTotal(n, products[carts[i].product.value].sellingPrice))
  {
  }
}
