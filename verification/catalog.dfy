/** Product creation, branch creation and the cascading deletes of the
    ledger's foreign keys. */
module Catalog {
  import opened Results
  import opened Records
  import opened Money
  import Queries
  import Assignment

  /** What a client may send to create a product: the serialized flag is
      read-only and not among the fields. */
  datatype ProductInput = ProductInput(
    name: string,
    costPrice: Amount,
    sellingPrice: Amount,
    serialNumber: Option<string>,
    category: Option<Id>,
    branch: Option<Id>)

  /** The value the serialized flag takes when creation leaves it alone. */
  const SerializedByDefault: bool := false

  /** Product creation: a serial number that is present at all, even an
      empty one, marks the product serialized. */
  function CreateProduct(id: Id, input: ProductInput): (p: Product)
    ensures input.serialNumber.Some? ==> p.isSerialized
    ensures input.serialNumber.None? ==> p.isSerialized == SerializedByDefault
    ensures p.id == id && p.name == input.name && p.serialNumber == input.serialNumber
    ensures p.costPrice == input.costPrice && p.sellingPrice == input.sellingPrice
    ensures p.category == input.category && p.branch == input.branch
  {
    var flag := if input.serialNumber.Some? then true else SerializedByDefault;
    Product(id, input.name, input.costPrice, input.sellingPrice, flag,
            input.serialNumber, input.category, input.branch)
  }

  /** Every product that has a serial number is marked serialized. */
  predicate SerialsFlagged(products: map<Id, Product>)
  {
    forall k | k in products :: products[k].serialNumber.Some? ==> products[k].isSerialized
  }

  /** Adding created products keeps every serial-numbered product flagged, and
      the flag depends only on whether a serial number was sent. */
  lemma CreationKeepsSerialsFlagged(products: map<Id, Product>, id: Id, input: ProductInput, other: ProductInput)
    requires SerialsFlagged(products)
    ensures SerialsFlagged(products[id := CreateProduct(id, input)])
    ensures input.serialNumber.Some? == other.serialNumber.Some? ==>
      CreateProduct(id, input).isSerialized == CreateProduct(id, other).isSerialized
  {
  }

  /** A branch body after field validation: the email trimmed and well
      formed, every field non-blank and within its length limit. */
  datatype BranchInput = BranchInput(name: string, phone: string, email: string)

  /** No two branches share an email address. */
  predicate UniqueEmails(branches: map<Id, Branch>)
  {
    forall a, b | a in branches && b in branches && a != b :: branches[a].email != branches[b].email
  }

  /** Branch creation: `opening_date` is stamped with `today`, and an email
      already in use violates the unique constraint. */
  function CreateBranch(branches: map<Id, Branch>, id: Id, input: BranchInput, today: Instant)
    : (r: Result<map<Id, Branch>, Error>)
    requires id !in branches
    ensures r.Failure? <==> exists k | k in branches :: branches[k].email == input.email
    ensures r.Failure? ==> r.error == DuplicateEmail
    ensures r.Success? ==>
      && r.value.Keys == branches.Keys + {id}
      && r.value[id] == Branch(id, input.name, input.phone, input.email, today)
      && forall k | k in branches :: r.value[k] == branches[k]
  {
    if exists k | k in branches :: branches[k].email == input.email then Failure(DuplicateEmail)
    else Success(branches[id := Branch(id, input.name, input.phone, input.email, today)])
  }

  lemma CreateBranchKeepsEmailsUnique(branches: map<Id, Branch>, id: Id, input: BranchInput, today: Instant)
    requires id !in branches
    requires UniqueEmails(branches)
    ensures CreateBranch(branches, id, input, today).Success? ==>
      UniqueEmails(CreateBranch(branches, id, input, today).value)
  {
  }

  function AwayFrom(branch: Id): Entry -> bool
  {
    (e: Entry) => e.branch != branch
  }

  function NotOf(sp: Id): Entry -> bool
  {
    (e: Entry) => e.salesperson != sp
  }

  /** Deleting a branch deletes every ledger entry that refers to it. */
  function DeleteBranch(branches: map<Id, Branch>, l: Ledger, id: Id): (r: (map<Id, Branch>, Ledger))
    ensures r.0.Keys == branches.Keys - {id}
    ensures forall k | k in r.0 :: r.0[k] == branches[k]
    ensures forall i | 0 <= i < |r.1.entries| :: r.1.entries[i] in l.entries && r.1.entries[i].branch != id
    ensures forall i | 0 <= i < |l.entries| && l.entries[i].branch != id :: l.entries[i] in r.1.entries
    ensures r.1.nextId == l.nextId
  {
    (branches - {id}, Ledger(Queries.Filter(l.entries, AwayFrom(id)), l.nextId))
  }

  /** The cascade keeps every remaining entry's branch resolvable. */
  lemma DeleteBranchKeepsKeys(branches: map<Id, Branch>, l: Ledger, id: Id)
    requires Assignment.BranchesKnown(l.entries, branches)
    ensures var (bs, l') := DeleteBranch(branches, l, id);
      Assignment.BranchesKnown(l'.entries, bs)
  {
    var (bs, l') := DeleteBranch(branches, l, id);
    forall i | 0 <= i < |l'.entries| ensures l'.entries[i].branch in bs {
      var k :| 0 <= k < |l.entries| && l.entries[k] == l'.entries[i];
    }
  }

  /** Deleting a salesperson deletes every ledger entry of theirs. */
  function DeleteSalesPerson(l: Ledger, sp: Id): (r: Ledger)
    ensures forall i | 0 <= i < |r.entries| :: r.entries[i] in l.entries && r.entries[i].salesperson != sp
    ensures forall i | 0 <= i < |l.entries| && l.entries[i].salesperson != sp :: l.entries[i] in r.entries
    ensures r.nextId == l.nextId
  {
    Ledger(Queries.Filter(l.entries, NotOf(sp)), l.nextId)
  }

  function EntryKey(e: Entry): int
  {
    e.id
  }

  /** The salesperson cascade keeps keys increasing along the table. */
  lemma DeleteSalesPersonWellFormed(l: Ledger, sp: Id)
    requires Assignment.WellFormed(l)
    ensures Assignment.WellFormed(DeleteSalesPerson(l, sp))
  {
    var r := DeleteSalesPerson(l, sp);
    assert Queries.Increasing(l.entries, EntryKey) by {
      forall i, j | 0 <= i < j < |l.entries| ensures EntryKey(l.entries[i]) < EntryKey(l.entries[j]) {
      }
    }
    Queries.FilterIncreasing(l.entries, NotOf(sp), EntryKey);
    assert Queries.Increasing(r.entries, EntryKey);
    forall i, j | 0 <= i < j < |r.entries| ensures r.entries[i].id < r.entries[j].id {
      assert EntryKey(r.entries[i]) < EntryKey(r.entries[j]);
    }
  }

  /** The salesperson cascade leaves every other salesperson's newest entry alone. */
  lemma DeleteSalesPersonKeepsNewest(l: Ledger, sp: Id, other: Id)
    requires other != sp
    ensures Assignment.Newest(DeleteSalesPerson(l, sp).entries, other) == Assignment.Newest(l.entries, other)
  {
    Queries.LatestOfFilter(l.entries, NotOf(sp), Assignment.BelongsTo(other), Assignment.AssignmentDate);
  }

  /** The salesperson cascade keeps every open entry its salesperson's newest. */
  lemma DeleteSalesPersonDisciplined(l: Ledger, sp: Id)
    requires Assignment.Disciplined(l.entries)
    ensures Assignment.Disciplined(DeleteSalesPerson(l, sp).entries)
  {
    var r := DeleteSalesPerson(l, sp);
    forall i | 0 <= i < |r.entries| && r.entries[i].IsOpen()
      ensures Assignment.Newest(r.entries, r.entries[i].salesperson) == Some(r.entries[i])
    {
      var k :| 0 <= k < |l.entries| && l.entries[k] == r.entries[i];
      DeleteSalesPersonKeepsNewest(l, sp, r.entries[i].salesperson);
    }
  }

  /** The salesperson cascade keeps every entry's branch resolvable. */
  lemma DeleteSalesPersonBranchesKnown(branches: map<Id, Branch>, l: Ledger, sp: Id)
    requires Assignment.BranchesKnown(l.entries, branches)
    ensures Assignment.BranchesKnown(DeleteSalesPerson(l, sp).entries, branches)
  {
    var r := DeleteSalesPerson(l, sp);
    forall i | 0 <= i < |r.entries| ensures r.entries[i].branch in branches {
      var k :| 0 <= k < |l.entries| && l.entries[k] == r.entries[i];
    }
  }

  /** The salesperson cascade keeps the ledger's invariants: keys still
      increase along the table, every open entry is still its salesperson's
      newest, and every entry still names an existing branch. */
  lemma DeleteSalesPersonKeepsInvariants(branches: map<Id, Branch>, l: Ledger, sp: Id)
    requires Assignment.WellFormed(l)
    requires Assignment.Disciplined(l.entries)
    requires Assignment.BranchesKnown(l.entries, branches)
    ensures var r := DeleteSalesPerson(l, sp);
      && Assignment.WellFormed(r)
      && Assignment.Disciplined(r.entries)
      && Assignment.BranchesKnown(r.entries, branches)
  {
    DeleteSalesPersonWellFormed(l, sp);
    DeleteSalesPersonDisciplined(l, sp);
    DeleteSalesPersonBranchesKnown(branches, l, sp);
  }
}
