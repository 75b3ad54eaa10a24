/** The rows of the sales backend: branches, salespeople, the
    salesperson-to-branch ledger, products, carts, sales and settlements, and
    the notices and errors the operations produce. Foreign keys are ids;
    nullable columns are `Option`s. */
module Records {
  import opened Results
  import opened Money

  /** Primary keys (`BigAutoField`). */
  type Id = nat

  /** A timestamp as read from the server clock. */
  type Instant = int

  datatype Branch = Branch(
    id: Id,
    name: string,
    phone: string,
    email: string,
    openingDate: Instant)

  /** A salesperson with the fields of its user account that notices use. */
  datatype SalesPerson = SalesPerson(
    id: Id,
    email: string,
    firstName: string,
    lastName: string)

  /** One assignment interval (`SalesPersonBranch`); no termination date means
      the assignment is still active. */
  datatype Entry = Entry(
    id: Id,
    salesperson: Id,
    branch: Id,
    assignmentDate: Instant,
    terminationDate: Option<Instant>)
  {
    predicate IsOpen() {
      terminationDate.None?
    }
  }

  /** The `SalesPersonBranch` table in insertion order, with the next value of
      its primary-key sequence. */
  datatype Ledger = Ledger(entries: seq<Entry>, nextId: Id)

  datatype Product = Product(
    id: Id,
    name: string,
    costPrice: Amount,
    sellingPrice: Amount,
    isSerialized: bool,
    serialNumber: Option<string>,
    category: Option<Id>,
    branch: Option<Id>)

  /** A cart line. The quantity is an unconstrained integer and the product
      reference becomes `None` when the product is deleted. */
  datatype Cart = Cart(
    id: Id,
    customer: Id,
    items: int,
    product: Option<Id>)

  /** The fields of a sale that checkout reads and writes. */
  datatype Sale = Sale(
    id: Id,
    salesperson: Id,
    cart: Id,
    transactionDate: Instant,
    isCompleted: bool)

  /** One settlement of all a salesperson's open sales. */
  datatype CompletedSale = CompletedSale(
    id: Id,
    salesperson: Id,
    branch: Id,
    totalAmount: Amount,
    paymentMethod: Id,
    completedAt: Instant)

  datatype NoticeKind = Assignment | Termination

  /** A templated mail handed to the mailer: template, recipient and the
      context fields other than the avatar link. */
  datatype Notice = Notice(
    kind: NoticeKind,
    recipient: string,
    salespersonName: string,
    branchName: string,
    date: Instant)

  datatype Error =
    | AlreadyAssigned       // "Salesperson is already assigned to the branch"
    | NoLedgerEntry         // an attribute read on the `None` of an empty `.first()`
    | EmptyCart             // "Can't complete sale cart is empty"
    | MissingPaymentMethod  // "A payment method must be present"
    | CartNotFound          // `Cart.objects.get` raising `DoesNotExist`
    | ProductMissing        // an attribute read on a cart whose product is `None`
    | UnknownPaymentMethod  // the foreign key of the new settlement is violated
    | DuplicateEmail        // the unique constraint on `Branch.email`
    | NotFound              // the row addressed by the URL does not exist
    | QuantityRequired      // a PUT body without a `number_of_items` integer
}
