# Sales backend: branch assignment and sale settlement

A Dafny model of the core of a role-based retail backend (a Django REST
service). It covers two small state machines and the cart arithmetic that
feeds one of them:

- **Branch assignment ledger.** A salesperson's assignments to branches are
  kept as ledger entries (`SalesPersonBranch`). Each entry has an assignment
  date and a termination date that may be null; null means the assignment is
  still active. Assigning a salesperson looks up their newest entry by
  assignment date and then takes one of three paths:
  - refuse ("already assigned") when the newest entry is still open on the same branch;
  - close the open entry at the current time, send a termination notice, then open a new entry and send an assignment notice;
  - after a terminated entry, just open a new entry and send an assignment notice.
- **Sale settlement (`complete_sale`).** The salesperson's open sales are
  checked first for "cart is empty", then for "a payment method must be
  present". A GET then lists the salesperson's completed sales. A POST
  atomically does the following:
  - marks every open sale completed;
  - sums `number_of_items × selling_price` over their carts;
  - records one completed sale, stamped with the branch of the
    salesperson's highest-keyed ledger entry.
- **Carts and catalog.** This part covers:
  - a cart line's total price;
  - the per-customer cart listing and its aggregate price;
  - the quantity update;
  - the rule that a product created with a serial number is flagged serialized;
  - branch creation with unique emails;
  - the cascading delete of ledger entries.

The style is functional. Tables are sequences in insertion order, or maps
keyed by id. Every operation is a pure function. It returns
`Success(new state, reply)` or `Failure(error)`, and a failure leaves the
stored state as it was. That is how the atomic block and the
request-level rollback are modelled. Mail is an output list of `Notice`
values. Clock readings are parameters. Money is an integer number of
ten-thousandths of the single currency (the prices have four decimal
places).

Modules:
- `Results`: `Option` and `Result`.
- `Queries`: the queryset shapes used: filter, stable sort newest-first, `.first()`, `.get()` and `sum`, with the lemmas that relate them.
- `Money`: fixed-point amounts.
- `Records`: the rows, notices and errors.
- `Assignment`: the ledger.
- `Catalog`: products, branches and cascades.
- `Carts`: cart lines.
- `Settlement`: `complete_sale`.

## Model

| member | source | states |
|---|---|---|
| `Assignment.Assign` | sales_analytics/serializers.py:120-156 | The assignment fails exactly when the salesperson has no ledger entry, or when their newest entry is open on the requested branch. On success, exactly one new open entry is appended: it has the next sequence key, the requested branch and the creation time. The last notice sent is the assignment notice, carrying the requested branch's name as stored in the branch table. |
| `Assignment.RejectsSameOpenBranch` | sales_analytics/serializers.py:146-147 | If the newest entry is open on the requested branch, the result is `AlreadyAssigned`. No entry is created and no termination date is written. |
| `Assignment.FirstAssignmentFails` | sales_analytics/serializers.py:125-127 | A salesperson with no ledger entry cannot be assigned at all. `.first()` yields nothing, and reading its termination date fails. |
| `Assignment.MovesFromOtherBranch` | sales_analytics/serializers.py:127-144 | If the newest entry is open on another branch, that entry alone gets termination date `stamp`. One open entry for the new branch is appended. The notices are exactly two: the termination for the old branch's name at `stamp`, then the assignment for the new branch at `created`. Every other row is unchanged. |
| `Assignment.TerminationPrecedesAssignment` | sales_analytics/serializers.py:128-144 | When the clock does not run backwards, the closed entry's termination date is no later than the new entry's assignment date. The termination notice goes first. |
| `Assignment.ReopensAfterTermination` | sales_analytics/serializers.py:149-150 | If the newest entry is already terminated, the table grows by one open entry and the old entries are untouched. Only the assignment notice is sent. |
| `Assignment.KeepsOneOpen` | sales_analytics/serializers.py:125-150 | Suppose every open entry of the salesperson is the one `.first()` returns. Then after a successful assignment the salesperson has exactly one open entry, the newly created one. |
| `Assignment.AssignIntended` | sales_analytics/serializers.py:152-154 | The corrected assignment: a first-ever assignment opens an entry. It fails only with `AlreadyAssigned`, and only when the newest entry is open on the requested branch. On success it appends exactly one open entry. |
| `Assignment.FirstAssignmentOpens` | sales_analytics/serializers.py:152-154 | With no prior entry, the corrected assignment appends one open entry and sends no notice. The exception handler creates the row through the plain serializer, which sends none. |
| `Assignment.IntendedAgreesWhenAssigned` | sales_analytics/serializers.py:124-150 | Once the salesperson has any ledger entry, the corrected assignment and the written one coincide. |
| `Assignment.EnterAfterBaseDisciplined` | sales_analytics/serializers.py:127-150 | Closing the salesperson's open newest entry and appending a newer open entry for them keeps every open entry the newest of its salesperson. |
| `Assignment.OthersKeepNewest` | sales_analytics/serializers.py:125-129 | Closing one salesperson's entry and appending a row for them leaves every other salesperson's newest entry unchanged. |
| `Assignment.IntendedPreservesDiscipline` | sales_analytics/serializers.py:120-156 | This is about the corrected assignment (`AssignIntended`), for a clock that has moved past the salesperson's earlier assignment dates. A successful assignment then keeps ledger keys increasing and below the sequence, keeps every branch reference resolvable, and keeps every open entry the newest of its salesperson. |
| `Assignment.RepeatIsRejected` | sales_analytics/serializers.py:146-147 | Assigning the same salesperson to the same branch right after a successful assignment is refused with `AlreadyAssigned`. This needs a clock that has moved past every earlier assignment date of theirs. On a tie the lookup can return an older closed entry, and the repeat then opens a second entry. |
| `Assignment.ReplayKeepsDiscipline` | sales_analytics/serializers.py:120-156 | Any run of the corrected assignment (`AssignIntended`) with strictly increasing creation times keeps the ledger disciplined. Each salesperson then has at most one open entry, and it is their newest. |
| `Assignment.EmptyLedgerRunsKeepOneOpen` | sales_analytics/models.py:72-77 | Starting from an empty ledger, no run of the corrected assignment (`AssignIntended`) ever leaves a salesperson with two open entries. |
| `Assignment.AsWrittenRunsStayEmpty` | sales_analytics/serializers.py:125-127 | With the assignment as written (`Assign`, through `StepAsWritten`), a ledger that starts empty stays empty under every run of requests, because every first assignment fails. |
| `Assignment.DisciplinedHasOneOpen` | sales_analytics/models.py:73-77 | Keys come from the auto-increment sequence and every open entry is its salesperson's newest. Therefore no salesperson has two open (null termination date) entries. |
| `Assignment.History` | sales_analytics/views.py:111-113 | The ledger listing holds exactly the salesperson's entries, as a multiset, sorted by descending assignment date. |
| `Assignment.NewestHeadsHistory` | sales_analytics/serializers.py:125 | The entry the assignment inspects exists exactly when the history listing is non-empty. Its assignment date is that of the listing's head. |
| `Assignment.Terminate` | sales_analytics/serializers.py:128-129 | Saving the termination changes only the `termination_date` column. Only rows with the given key change, and each of them is closed at the given time. |
| `Catalog.CreateProduct` | sales_analytics/serializers.py:231-235 | A product created with any serial number, even an empty one, is flagged serialized. Without one the flag keeps its default. Every other field is the client's input. |
| `Catalog.CreationKeepsSerialsFlagged` | sales_analytics/serializers.py:224-235 | Creation keeps the catalog invariant "serial number present ⇒ serialized". The flag depends only on whether a serial number was sent, since the client cannot set it. |
| `Catalog.CreateBranch` | sales_analytics/models.py:61-66 | Among validated inputs, creation fails with `DuplicateEmail` exactly when the email is already used. Otherwise it adds one branch whose opening date is the creation day and leaves every other branch unchanged. |
| `Catalog.CreateBranchKeepsEmailsUnique` | sales_analytics/models.py:65 | Branch creation preserves the uniqueness of branch emails. |
| `Catalog.DeleteBranch` | sales_analytics/models.py:75 | Deleting a branch removes it and every ledger entry that refers to it. Every other branch keeps its record, and every other entry is kept. |
| `Catalog.DeleteBranchKeepsKeys` | sales_analytics/models.py:75 | After the cascade, every remaining ledger entry still names an existing branch. |
| `Catalog.DeleteSalesPerson` | sales_analytics/models.py:74 | Deleting a salesperson removes exactly their ledger entries. |
| `Catalog.DeleteSalesPersonKeepsNewest` | sales_analytics/models.py:74 | Deleting a salesperson leaves every other salesperson's newest entry, the one the assignment inspects, unchanged. |
| `Catalog.DeleteSalesPersonKeepsInvariants` | sales_analytics/models.py:74 | After the cascade, keys still increase along the table, every open entry is still its salesperson's newest, and every entry still names an existing branch. |
| `Carts.TotalPrice` | sales_analytics/serializers.py:258-259 | A line's total is `number_of_items × selling_price`. It fails exactly when the product reference is null. `CartWriteSerializer.get_total_price` (lines 278-279) is the same computation. |
| `Carts.CustomerCarts` | sales_analytics/views.py:149-151 | The customer's cart listing holds exactly the customer's lines, as a multiset, in descending key order. |
| `Carts.Lines` | sales_analytics/views.py:161-162 | Serialising lines succeeds exactly when every line has a product. It then gives one line per cart, in order, each with its total. The sum of the listed totals equals the sum of the line prices. |
| `Carts.List` | sales_analytics/views.py:160-164 | The list endpoint succeeds exactly when every cart line of the customer has a product. It then shows the customer's lines in listing order. Its aggregate `price` equals the sum of the line totals over the customer's carts in table order. |
| `Carts.ListPriceIsSumOfLines` | sales_analytics/views.py:160-164 | The listing succeeds exactly when all of the customer's lines have a product. It then shows the customer's lines in listing order, each priced at quantity × selling price. Its aggregate `price` equals the sum of the line totals over the customer's carts in table order. |
| `Carts.UpdateQuantity` | sales_analytics/serializers.py:265-268 | The update sets `number_of_items` to the supplied value, or keeps it when none is supplied. It changes no other field, and no positivity is demanded. |
| `Carts.UpdateThenPrice` | sales_analytics/serializers.py:265-268 | The update is idempotent. The updated line is priced at the new quantity whenever the old line could be priced. |
| `Carts.UpdateCart` | sales_analytics/views.py:149-157 | A PUT on a customer's cart line fails with `NotFound` when that customer has no line with the key. Otherwise it fails with `QuantityRequired` when the body carries no integer `number_of_items`, a required field of the PUT serializer (serializers.py:262-263). Otherwise the addressed line takes the new quantity and keeps its other fields, and every other line is unchanged. |
| `Carts.UpdateCartKeepsOtherCustomers` | sales_analytics/views.py:149-151 | A PUT on one customer's line leaves every other customer's cart listing exactly as it was. |
| `Carts.UpdateCartReprices` | sales_analytics/serializers.py:258-268 | After a successful PUT, the addressed line can be priced exactly when it could be priced before. Its price is then the new quantity times the selling price. |
| `Settlement.SalesOf` | sales_analytics/views.py:182-185 | The sale listing holds exactly the salesperson's sales, newest transaction first. |
| `Settlement.OpenSales` | sales_analytics/views.py:192-193 | The loaded sales are exactly the salesperson's uncompleted ones, newest first. The list is empty exactly when the salesperson has no open sale. |
| `Settlement.LatestEntry` | sales_analytics/views.py:208-209 | The branch lookup yields the salesperson's entry with the largest key, open or not. It yields nothing exactly when they have no entry. |
| `Settlement.MarkCompleted` | sales_analytics/views.py:212-214 | A sale ends up completed exactly when it was already completed or belongs to the salesperson. No column other than `is_completed` changes. |
| `Settlement.CompleteSale` | sales_analytics/views.py:188-227 | A GET never changes the shop. Any success requires at least one open sale of the salesperson. |
| `Settlement.EmptyCartFirst` | sales_analytics/views.py:192-196 | With no open sale, the result is `EmptyCart` for GET and POST alike, whatever payment method is sent. |
| `Settlement.PaymentCheckedSecond` | sales_analytics/views.py:198-201 | With open sales but an absent or falsy payment method, the result is `MissingPaymentMethod`. |
| `Settlement.GetListsCompleted` | sales_analytics/views.py:203-205 | A GET that passes both checks returns exactly the salesperson's completed sales and changes nothing. |
| `Settlement.OpenTotal` | sales_analytics/views.py:210-218 | The settlement loop succeeds exactly when every open sale's cart and product exist. It then sums `number_of_items × selling_price` of each open sale's current cart. The result is the same as summing in table order. |
| `Settlement.PostSucceedsIff` | sales_analytics/views.py:192-225 | A POST succeeds exactly when all of these hold: there is an open sale; a payment method is given; every open sale's cart and product exist; the salesperson has a ledger entry; the payment method exists. |
| `Settlement.RollsBackWithoutLedgerEntry` | sales_analytics/views.py:207-222 | If the salesperson has no ledger entry, the POST fails with `NoLedgerEntry` and nothing is marked or created. |
| `Settlement.PostMarksExactlyOpen` | sales_analytics/views.py:207-225 | A successful POST completes exactly the salesperson's previously open sales. All other sales, the ledger, carts, products and payment methods are unchanged, and exactly one completed sale is appended. |
| `Settlement.PostShape` | sales_analytics/views.py:207-225 | A successful POST writes exactly this: the open sales are flagged and one completed sale is appended. That sale carries the next key, the highest-keyed entry's branch, the table-order sum of line totals, the payment method and the time. |
| `Settlement.SettlesEverySale` | sales_analytics/views.py:212-214 | When every sale in the table is the salesperson's, a successful POST leaves every sale completed. |
| `Settlement.LeavesNothingOpen` | sales_analytics/views.py:212-214 | After the flagging loop the salesperson has no uncompleted sale. |
| `Settlement.PostRecord` | sales_analytics/views.py:208-225 | The completed sale carries the salesperson, the completion time and the supplied payment method. Its total is the sum of the open sales' line totals. Its branch is that of the highest-keyed ledger entry, even a terminated one. |
| `Settlement.RepeatFindsEmptyCart` | sales_analytics/views.py:192-196 | Repeating the request right after a successful POST fails with `EmptyCart`. |
| `Settlement.TwoCartsSettleTo450` | sales_analytics/views.py:210-225 | Two open sales over carts of 2 × 100 and 1 × 250, by a salesperson assigned to branch 3, settle into exactly the writes of one completed sale of 450 at branch 3. |
| `Settlement.ExampleMarksBoth` | sales_analytics/views.py:212-214 | In that example, both sales are flagged completed. |

## Left out

- Mail delivery is left out: the sender, the template engine and the avatar URLs. A notice keeps the template, recipient, salesperson name, branch name and date. Delivery failures are not modelled. In the source, a failing termination mail would leave the old entry closed with no new entry, because the view is not atomic.
- User, customer, salesperson, manager and supplier creation and update are left out, with password hashing. They are nested-write plumbing with no logic of their own.
- The monthly aggregation of a salesperson's profile endpoint is left out. It is a database-side group-by.
- Permission classes and role strings are left out. The caller's identity is a parameter (`sp`, `customer`).
- The duplicate `branch` app, URLs and settings are left out. They hold configuration and CRUD only.
- Transaction-id generation is left out. That code is not part of this model.
- Generic CRUD endpoints with no logic are left out: creating sales, completed sales and cart lines, and updating or deleting products and branches. The one exception is the cascade of ledger entries.
- Currency codes and the 19-digit column limit are left out. Amounts are unbounded integers in minor units of one currency.
- Money.LineTotal: products and sums are exact. Python's default `Decimal` context rounds results to 28 significant digits. A 10-digit quantity times a 19-digit price can need 29 digits, and the listing then sums such values again. That rounding is not modelled.
- Concurrency, locking and the transaction mechanism are left out. Atomicity is "a failure returns no new state".
- The GET branch of `complete_sale` passes a queryset to the serializer without `many=True`. The model returns the list of completed sales that the endpoint evidently means to show.
- Settlement.CompleteSale: the payment field is modelled as a JSON integer only, optional, with absent or `0` counting as missing. A form-encoded body sends strings, and a string `"0"` is truthy. It passes the presence check and then fails on the payment foreign key inside the atomic block, an error the model does not produce. Strings that `int()` rejects are not modelled either.
- Several rows can tie on an ordering key. The database leaves their order unspecified; the model keeps table order (`.first()` takes the earliest such row).
- The default of `is_serialized` is taken to be `false` (`Catalog.SerializedByDefault`).
- The cart's customer is a plain customer id.
- A product id missing from the products table is treated like a null product reference. The foreign key makes that case impossible in the database.
- Carts.UpdateQuantity: `number_of_items` is a 32-bit `IntegerField` column. Cart quantities are modelled as unbounded integers, with no positivity check (the field has none). Whether an out-of-range value fails on save depends on the database, so that rejection is not modelled.
- Carts.UpdateCart: accepts any integer quantity, for the same reason as `UpdateQuantity`.
- Catalog.CreateBranch: the input is taken as already validated. Email trimming, email format, length limits and blank fields are checked by the serializer's field validation before uniqueness, and those errors are not modelled.
- Settlement.CompleteSale: its own contract states only the GET frame and the need for an open sale. The full behaviour is stated by the lemmas listed under it in the table.

## Findings

| source | as written | input that shows it | evidently intended | confidence | as-written member | corrected member |
|---|---|---|---|---|---|---|
| sales_analytics/serializers.py:125-154 | `.first()` returns `None` when the salesperson has no ledger entry. Line 127 then reads `termination_date` from `None`, so the `DoesNotExist` handler at 152-154 can never run. | Assigning any salesperson who has no ledger entry to any branch. | The handler's body: create the first open entry. | high; not executed | `Assignment.Assign` (shown by `Assignment.FirstAssignmentFails` and `Assignment.AsWrittenRunsStayEmpty`) | `Assignment.AssignIntended` (proved by `Assignment.FirstAssignmentOpens`, `Assignment.IntendedPreservesDiscipline`, `Assignment.ReplayKeepsDiscipline`) |
