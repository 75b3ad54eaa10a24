/** The salesperson-to-branch ledger and the assignment operation of the
    branch serializer: look up the salesperson's newest ledger entry, then
    reject, move (close the open entry and open a new one) or reopen. */
module Assignment {
  import opened Results
  import opened Records
  import Queries

  function BelongsTo(sp: Id): Entry -> bool
  {
    (e: Entry) => e.salesperson == sp
  }

  function AssignmentDate(e: Entry): int
  {
    e.assignmentDate
  }

  /** The entry `.filter(salesperson_id=sp).order_by('-assignment_date').first()`
      yields: one with the latest assignment date, or `None`. */
  function Newest(entries: seq<Entry>, sp: Id): Option<Entry>
  {
    Queries.Latest(entries, BelongsTo(sp), AssignmentDate)
  }

  /** The ledger history of a salesperson, newest assignment first. */
  function History(entries: seq<Entry>, sp: Id): (r: seq<Entry>)
    ensures Queries.SortedDesc(r, AssignmentDate)
    ensures multiset(r) == multiset(Queries.Filter(entries, BelongsTo(sp)))
    ensures forall i | 0 <= i < |r| :: r[i] in entries && r[i].salesperson == sp
  {
    var r := Queries.SortDesc(Queries.Filter(entries, BelongsTo(sp)), AssignmentDate);
    assert forall i | 0 <= i < |r| :: r[i] in Queries.Filter(entries, BelongsTo(sp)) by {
      forall i | 0 <= i < |r| ensures r[i] in Queries.Filter(entries, BelongsTo(sp)) {
        assert r[i] in multiset(r);
      }
    }
    r
  }

  /** The entry the assignment inspects heads the history listing. */
  lemma NewestHeadsHistory(entries: seq<Entry>, sp: Id)
    ensures Newest(entries, sp).Some? <==> |History(entries, sp)| > 0
    ensures Newest(entries, sp).Some? ==>
      Newest(entries, sp).value.assignmentDate == History(entries, sp)[0].assignmentDate
  {
    Queries.LatestHeadsSorted(entries, BelongsTo(sp), AssignmentDate);
  }

  /** Every ledger entry names a branch that exists (the foreign key). */
  predicate BranchesKnown(entries: seq<Entry>, branches: map<Id, Branch>)
  {
    forall i | 0 <= i < |entries| :: entries[i].branch in branches
  }

  /** Ids come from the auto-increment sequence: they strictly increase along
      the table and stay below the sequence's next value. */
  predicate WellFormed(l: Ledger)
  {
    && (forall i, j | 0 <= i < j < |l.entries| :: l.entries[i].id < l.entries[j].id)
    && (forall i | 0 <= i < |l.entries| :: l.entries[i].id < l.nextId)
  }

  /** Every open entry of `sp` is the entry the assignment inspects. */
  predicate DisciplinedFor(entries: seq<Entry>, sp: Id)
  {
    forall i | 0 <= i < |entries| && entries[i].salesperson == sp && entries[i].IsOpen() ::
      Newest(entries, sp) == Some(entries[i])
  }

  /** Every open entry is the newest entry of its salesperson. */
  predicate Disciplined(entries: seq<Entry>)
  {
    forall i | 0 <= i < |entries| && entries[i].IsOpen() ::
      Newest(entries, entries[i].salesperson) == Some(entries[i])
  }

  /** No salesperson has two open entries. */
  predicate AtMostOneOpen(entries: seq<Entry>)
  {
    forall i, j | 0 <= i < j < |entries| && entries[i].salesperson == entries[j].salesperson ::
      !(entries[i].IsOpen() && entries[j].IsOpen())
  }

  lemma DisciplinedHasOneOpen(l: Ledger)
    requires WellFormed(l)
    requires Disciplined(l.entries)
    ensures AtMostOneOpen(l.entries)
  {
    forall i, j | 0 <= i < j < |l.entries| && l.entries[i].salesperson == l.entries[j].salesperson
      ensures !(l.entries[i].IsOpen() && l.entries[j].IsOpen())
    {
    }
  }

  /** `spb.termination_date = now; spb.save()`: the row with the given key
      gets the termination date. */
  function Terminate(entries: seq<Entry>, id: Id, t: Instant): (r: seq<Entry>)
    ensures |r| == |entries|
    ensures forall i | 0 <= i < |r| :: r[i].(terminationDate := entries[i].terminationDate) == entries[i]
    ensures forall i | 0 <= i < |r| :: r[i] != entries[i] ==> entries[i].id == id
    ensures forall i | 0 <= i < |r| :: entries[i].id == id ==> r[i].terminationDate == Some(t)
  {
    seq(|entries|, i requires 0 <= i < |entries| =>
      if entries[i].id == id then entries[i].(terminationDate := Some(t)) else entries[i])
  }

  /** A new open row, stamped `assignment_date = created`, keyed by the sequence. */
  function Enter(l: Ledger, sp: Id, branch: Id, created: Instant): Ledger
  {
    Ledger(l.entries + [Entry(l.nextId, sp, branch, created, None)], l.nextId + 1)
  }

  function FullName(p: SalesPerson): string
  {
    p.firstName + " " + p.lastName
  }

  function Notify(kind: NoticeKind, p: SalesPerson, branchName: string, date: Instant): Notice
  {
    Notice(kind, p.email, FullName(p), branchName, date)
  }

  /** A successful assignment: the new ledger, the entry returned to the
      client and the notices sent, in order. */
  datatype Assigned = Assigned(ledger: Ledger, entry: Entry, notices: seq<Notice>)

  /** The assignment as written. `target` is the key of the requested branch,
      which the serializer resolves to a stored row; `stamp` is the clock
      reading taken for the termination, `created` the one taken when the new
      row is inserted. */
  function Assign(l: Ledger, branches: map<Id, Branch>, person: SalesPerson, target: Id,
                  stamp: Instant, created: Instant): (r: Result<Assigned, Error>)
    requires BranchesKnown(l.entries, branches)
    requires target in branches
    ensures r.Failure? <==>
      || Newest(l.entries, person.id).None?
      || (Newest(l.entries, person.id).value.IsOpen() && Newest(l.entries, person.id).value.branch == target)
    ensures r.Success? ==>
      && r.value.entry == Entry(l.nextId, person.id, target, created, None)
      && r.value.ledger.nextId == l.nextId + 1
      && |r.value.ledger.entries| == |l.entries| + 1
      && r.value.ledger.entries[|l.entries|] == r.value.entry
      && |r.value.notices| > 0
      && r.value.notices[|r.value.notices| - 1] == Notify(Assignment, person, branches[target].name, created)
  {
    match Newest(l.entries, person.id)
    case None => Failure(NoLedgerEntry)
    case Some(spb) =>
      if spb.IsOpen() && spb.branch != target then
        var moved := Enter(Ledger(Terminate(l.entries, spb.id, stamp), l.nextId), person.id, target, created);
        Success(Assigned(moved, moved.entries[|l.entries|],
          [Notify(Termination, person, branches[spb.branch].name, stamp),
           Notify(Assignment, person, branches[target].name, created)]))
      else if spb.IsOpen() then
        Failure(AlreadyAssigned)
      else
        var reopened := Enter(l, person.id, target, created);
        Success(Assigned(reopened, reopened.entries[|l.entries|],
          [Notify(Assignment, person, branches[target].name, created)]))
  }

  /** Re-assigning to the branch of the open newest entry is refused. */
  lemma RejectsSameOpenBranch(l: Ledger, branches: map<Id, Branch>, person: SalesPerson, target: Id,
                              stamp: Instant, created: Instant)
    requires BranchesKnown(l.entries, branches)
    requires target in branches
    requires Newest(l.entries, person.id).Some?
    requires Newest(l.entries, person.id).value.IsOpen()
    requires Newest(l.entries, person.id).value.branch == target
    ensures Assign(l, branches, person, target, stamp, created) == Failure(AlreadyAssigned)
  {
  }

  /** With no ledger entry at all, `.first()` yields `None` and the read of
      its termination date fails: the first assignment never succeeds. */
  lemma FirstAssignmentFails(l: Ledger, branches: map<Id, Branch>, person: SalesPerson, target: Id,
                             stamp: Instant, created: Instant)
    requires BranchesKnown(l.entries, branches)
    requires target in branches
    requires forall i | 0 <= i < |l.entries| :: l.entries[i].salesperson != person.id
    ensures Assign(l, branches, person, target, stamp, created) == Failure(NoLedgerEntry)
  {
  }

  /** Moving from another branch: the open entry is closed at `stamp`, one new
      open entry follows, and the notices are the termination for the old
      branch, then the assignment to the new one. No other row changes. */
  lemma MovesFromOtherBranch(l: Ledger, branches: map<Id, Branch>, person: SalesPerson, target: Id,
                             stamp: Instant, created: Instant)
    requires WellFormed(l)
    requires BranchesKnown(l.entries, branches)
    requires target in branches
    requires Newest(l.entries, person.id).Some?
    requires Newest(l.entries, person.id).value.IsOpen()
    requires Newest(l.entries, person.id).value.branch != target
    ensures var prev := Newest(l.entries, person.id).value;
      var r := Assign(l, branches, person, target, stamp, created);
      && r.Success?
      && r.value.ledger.entries ==
           Terminate(l.entries, prev.id, stamp) + [Entry(l.nextId, person.id, target, created, None)]
      && (forall i | 0 <= i < |l.entries| ::
            r.value.ledger.entries[i] ==
              if l.entries[i] == prev then prev.(terminationDate := Some(stamp)) else l.entries[i])
      && prev.branch in branches
      && r.value.notices ==
           [Notify(Termination, person, branches[prev.branch].name, stamp),
            Notify(Assignment, person, branches[target].name, created)]
  {
    var prev := Newest(l.entries, person.id).value;
    var k :| 0 <= k < |l.entries| && l.entries[k] == prev;
    forall i | 0 <= i < |l.entries| ensures (l.entries[i].id == prev.id) == (l.entries[i] == prev) {
      if i < k { assert l.entries[i].id < l.entries[k].id; }
      if i > k { assert l.entries[k].id < l.entries[i].id; }
    }
  }

  /** The termination is stamped no later than the new assignment, since the
      clock is read for it before the new row is inserted. */
  lemma TerminationPrecedesAssignment(l: Ledger, branches: map<Id, Branch>, person: SalesPerson,
                                      target: Id, stamp: Instant, created: Instant)
    requires BranchesKnown(l.entries, branches)
    requires target in branches
    requires stamp <= created
    requires Newest(l.entries, person.id).Some?
    requires Newest(l.entries, person.id).value.IsOpen()
    requires Newest(l.entries, person.id).value.branch != target
    ensures var r := Assign(l, branches, person, target, stamp, created).value;
      && r.notices[0].kind == Termination
      && r.notices[0].date <= r.entry.assignmentDate
      && exists i | 0 <= i < |l.entries| ::
           && r.ledger.entries[i].id == Newest(l.entries, person.id).value.id
           && r.ledger.entries[i].terminationDate == Some(stamp)
  {
    var prev := Newest(l.entries, person.id).value;
    var k :| 0 <= k < |l.entries| && l.entries[k] == prev;
    var r := Assign(l, branches, person, target, stamp, created).value;
    assert r.ledger.entries[k].terminationDate == Some(stamp);
  }

  /** After a terminated newest entry, a new open entry is appended, the
      closed entries are untouched, and only the assignment notice is sent. */
  lemma ReopensAfterTermination(l: Ledger, branches: map<Id, Branch>, person: SalesPerson, target: Id,
                                stamp: Instant, created: Instant)
    requires BranchesKnown(l.entries, branches)
    requires target in branches
    requires Newest(l.entries, person.id).Some?
    requires !Newest(l.entries, person.id).value.IsOpen()
    ensures var r := Assign(l, branches, person, target, stamp, created);
      && r.Success?
      && r.value.ledger.entries == l.entries + [Entry(l.nextId, person.id, target, created, None)]
      && r.value.notices == [Notify(Assignment, person, branches[target].name, created)]
  {
  }

  /** If every open entry of the salesperson is the newest one, a successful
      assignment leaves exactly one open entry for them: the new one. */
  lemma {:induction false} KeepsOneOpen(l: Ledger, branches: map<Id, Branch>, person: SalesPerson,
                                        target: Id, stamp: Instant, created: Instant)
    requires BranchesKnown(l.entries, branches)
    requires target in branches
    requires DisciplinedFor(l.entries, person.id)
    requires Assign(l, branches, person, target, stamp, created).Success?
    ensures var es := Assign(l, branches, person, target, stamp, created).value.ledger.entries;
      forall i | 0 <= i < |es| :: (es[i].salesperson == person.id && es[i].IsOpen()) <==> i == |l.entries|
  {
    var prev := Newest(l.entries, person.id).value;
    var es := Assign(l, branches, person, target, stamp, created).value.ledger.entries;
    forall i | 0 <= i < |l.entries| ensures !(es[i].salesperson == person.id && es[i].IsOpen()) {
      if l.entries[i].salesperson == person.id && l.entries[i].IsOpen() {
        assert Newest(l.entries, person.id) == Some(l.entries[i]);
      }
    }
  }

  /** The assignment as the exception handler evidently meant it: a
      salesperson with no ledger entry gets a first open entry, with no
      notice (the handler creates the row through the plain serializer). */
  function AssignIntended(l: Ledger, branches: map<Id, Branch>, person: SalesPerson, target: Id,
                          stamp: Instant, created: Instant): (r: Result<Assigned, Error>)
    requires BranchesKnown(l.entries, branches)
    requires target in branches
    ensures r.Failure? <==>
      && Newest(l.entries, person.id).Some?
      && Newest(l.entries, person.id).value.IsOpen()
      && Newest(l.entries, person.id).value.branch == target
    ensures r.Failure? ==> r.error == AlreadyAssigned
    ensures r.Success? ==>
      && r.value.entry == Entry(l.nextId, person.id, target, created, None)
      && r.value.ledger.nextId == l.nextId + 1
      && |r.value.ledger.entries| == |l.entries| + 1
      && r.value.ledger.entries[|l.entries|] == r.value.entry
  {
    if Newest(l.entries, person.id).None? then
      var first := Enter(l, person.id, target, created);
      Success(Assigned(first, first.entries[|l.entries|], []))
    else
      Assign(l, branches, person, target, stamp, created)
  }

  /** The intended first assignment opens one entry and sends nothing. */
  lemma FirstAssignmentOpens(l: Ledger, branches: map<Id, Branch>, person: SalesPerson, target: Id,
                             stamp: Instant, created: Instant)
    requires BranchesKnown(l.entries, branches)
    requires target in branches
    requires forall i | 0 <= i < |l.entries| :: l.entries[i].salesperson != person.id
    ensures var r := AssignIntended(l, branches, person, target, stamp, created);
      && r.Success?
      && r.value.ledger.entries == l.entries + [Entry(l.nextId, person.id, target, created, None)]
      && r.value.notices == []
  {
  }

  /** Where a ledger entry exists the intended assignment is the written one. */
  lemma IntendedAgreesWhenAssigned(l: Ledger, branches: map<Id, Branch>, person: SalesPerson,
                                   target: Id, stamp: Instant, created: Instant)
    requires BranchesKnown(l.entries, branches)
    requires target in branches
    requires exists i | 0 <= i < |l.entries| :: l.entries[i].salesperson == person.id
    ensures AssignIntended(l, branches, person, target, stamp, created) ==
            Assign(l, branches, person, target, stamp, created)
  {
  }

  /** All of `sp`'s entries were assigned strictly before `t`. */
  predicate AssignedBefore(entries: seq<Entry>, sp: Id, t: Instant)
  {
    forall i | 0 <= i < |entries| && entries[i].salesperson == sp :: entries[i].assignmentDate < t
  }

  /** The table just before the new row is inserted: unchanged, or with the
      salesperson's open newest entry closed at `stamp`. */
  function Base(l: Ledger, sp: Id, stamp: Instant): seq<Entry>
  {
    match Newest(l.entries, sp)
    case Some(prior) => if prior.IsOpen() then Terminate(l.entries, prior.id, stamp) else l.entries
    case None => l.entries
  }

  /** A successful intended assignment inserts one row after `Base`. */
  lemma IntendedShape(l: Ledger, branches: map<Id, Branch>, person: SalesPerson, target: Id,
                      stamp: Instant, created: Instant)
    requires BranchesKnown(l.entries, branches)
    requires target in branches
    ensures var r := AssignIntended(l, branches, person, target, stamp, created);
      r.Success? ==>
        r.value.ledger == Enter(Ledger(Base(l, person.id, stamp), l.nextId), person.id, target, created)
  {
  }

  /** `Base` keeps each row's key, owner, branch and date. */
  lemma BaseKeepsColumns(l: Ledger, sp: Id, stamp: Instant)
    ensures |Base(l, sp, stamp)| == |l.entries|
    ensures forall i | 0 <= i < |l.entries| ::
      && Base(l, sp, stamp)[i].salesperson == l.entries[i].salesperson
      && Base(l, sp, stamp)[i].assignmentDate == l.entries[i].assignmentDate
      && Base(l, sp, stamp)[i].id == l.entries[i].id
      && Base(l, sp, stamp)[i].branch == l.entries[i].branch
  {
  }

  /** On a well-formed ledger `Base` changes no row of another salesperson
      and closes `sp`'s open newest entry. */
  lemma BaseFacts(l: Ledger, sp: Id, stamp: Instant)
    requires WellFormed(l)
    ensures |Base(l, sp, stamp)| == |l.entries|
    ensures forall i | 0 <= i < |l.entries| ::
      && (l.entries[i].salesperson != sp ==> Base(l, sp, stamp)[i] == l.entries[i])
      && ((l.entries[i].salesperson == sp && l.entries[i].IsOpen() && Newest(l.entries, sp) == Some(l.entries[i]))
          ==> !Base(l, sp, stamp)[i].IsOpen())
  {
    var prior := Newest(l.entries, sp);
    if prior.Some? {
      var k :| 0 <= k < |l.entries| && l.entries[k] == prior.value;
      forall i | 0 <= i < |l.entries| && l.entries[i].id == prior.value.id
        ensures l.entries[i].salesperson == sp
      {
      }
    }
  }

  /** Rows of other salespeople keep their newest entry when `sp`'s rows are
      closed and a row of `sp` is appended. */
  lemma {:induction false} OthersKeepNewest(l: Ledger, sp: Id, stamp: Instant, e: Entry, q: Id)
    requires WellFormed(l)
    requires e.salesperson == sp && q != sp
    ensures Newest(Base(l, sp, stamp) + [e], q) == Newest(l.entries, q)
  {
    var base := Base(l, sp, stamp);
    BaseKeepsColumns(l, sp, stamp);
    BaseFacts(l, sp, stamp);
    Queries.LatestAppendOther(base, e, BelongsTo(q), AssignmentDate);
    Queries.LatestFrame(base, l.entries, BelongsTo(q), AssignmentDate);
  }

  /** The appended row of `sp` becomes their newest when the clock has moved
      past their earlier assignments. */
  lemma {:induction false} EnteredIsNewest(l: Ledger, sp: Id, stamp: Instant, e: Entry)
    requires WellFormed(l)
    requires e.salesperson == sp
    requires AssignedBefore(l.entries, sp, e.assignmentDate)
    ensures Newest(Base(l, sp, stamp) + [e], sp) == Some(e)
  {
    var base := Base(l, sp, stamp);
    BaseKeepsColumns(l, sp, stamp);
    BaseFacts(l, sp, stamp);
    Queries.LatestAppendNewer(base, e, BelongsTo(sp), AssignmentDate);
  }

  /** Closing `sp`'s open newest entry and appending a newer open row of
      `sp` keeps every open entry the newest of its salesperson. */
  lemma {:induction false} EnterAfterBaseDisciplined(l: Ledger, sp: Id, stamp: Instant, e: Entry)
    requires WellFormed(l)
    requires Disciplined(l.entries)
    requires e.salesperson == sp
    requires AssignedBefore(l.entries, sp, e.assignmentDate)
    ensures Disciplined(Base(l, sp, stamp) + [e])
  {
    var base := Base(l, sp, stamp);
    var es := base + [e];
    BaseKeepsColumns(l, sp, stamp);
    BaseFacts(l, sp, stamp);
    EnteredIsNewest(l, sp, stamp, e);
    forall i | 0 <= i < |es| && es[i].IsOpen()
      ensures Newest(es, es[i].salesperson) == Some(es[i])
    {
      if i < |base| {
        var q := es[i].salesperson;
        if q != sp {
          OthersKeepNewest(l, sp, stamp, e, q);
        }
      }
    }
  }

  /** Appending a row keyed by the sequence keeps the keys increasing. */
  lemma BaseThenEnterWellFormed(l: Ledger, sp: Id, stamp: Instant, branch: Id, created: Instant)
    requires WellFormed(l)
    ensures WellFormed(Enter(Ledger(Base(l, sp, stamp), l.nextId), sp, branch, created))
  {
    BaseKeepsColumns(l, sp, stamp);
  }

  /** The intended assignment keeps the ledger well formed, its foreign keys
      resolvable, and every open entry the newest of its salesperson, given a
      clock that has moved past the salesperson's earlier assignments. */
  lemma {:induction false} IntendedPreservesDiscipline(l: Ledger, branches: map<Id, Branch>,
                                                       person: SalesPerson, target: Id,
                                                       stamp: Instant, created: Instant)
    requires WellFormed(l)
    requires BranchesKnown(l.entries, branches)
    requires Disciplined(l.entries)
    requires target in branches
    requires AssignedBefore(l.entries, person.id, created)
    ensures var r := AssignIntended(l, branches, person, target, stamp, created);
      r.Success? ==>
        && WellFormed(r.value.ledger)
        && BranchesKnown(r.value.ledger.entries, branches)
        && Disciplined(r.value.ledger.entries)
  {
    var r := AssignIntended(l, branches, person, target, stamp, created);
    if r.Success? {
      var sp := person.id;
      var e := Entry(l.nextId, sp, target, created, None);
      IntendedShape(l, branches, person, target, stamp, created);
      IntendedKeepsColumns(l, branches, person, target, stamp, created);
      BaseThenEnterWellFormed(l, sp, stamp, target, created);
      EnterAfterBaseDisciplined(l, sp, stamp, e);
      assert r.value.ledger.entries == Base(l, sp, stamp) + [e];
    }
  }

  /** A successful intended assignment keeps the foreign keys resolvable, and
      every row is either an old one or carries the new assignment date. */
  lemma IntendedKeepsColumns(l: Ledger, branches: map<Id, Branch>, person: SalesPerson, target: Id,
                             stamp: Instant, created: Instant)
    requires BranchesKnown(l.entries, branches)
    requires target in branches
    ensures var r := AssignIntended(l, branches, person, target, stamp, created);
      r.Success? ==>
        && BranchesKnown(r.value.ledger.entries, branches)
        && forall i | 0 <= i < |r.value.ledger.entries| ::
             || r.value.ledger.entries[i].assignmentDate == created
             || (i < |l.entries| && r.value.ledger.entries[i].assignmentDate == l.entries[i].assignmentDate)
  {
    IntendedShape(l, branches, person, target, stamp, created);
    BaseKeepsColumns(l, person.id, stamp);
  }

  /** Right after a successful assignment, assigning the same branch again is
      refused and changes nothing. */
  lemma RepeatIsRejected(l: Ledger, branches: map<Id, Branch>, person: SalesPerson, target: Id,
                         stamp: Instant, created: Instant, stamp2: Instant, created2: Instant)
    requires WellFormed(l)
    requires BranchesKnown(l.entries, branches)
    requires target in branches
    requires AssignedBefore(l.entries, person.id, created)
    requires AssignIntended(l, branches, person, target, stamp, created).Success?
    ensures var l' := AssignIntended(l, branches, person, target, stamp, created).value.ledger;
      && BranchesKnown(l'.entries, branches)
      && Assign(l', branches, person, target, stamp2, created2) == Failure(AlreadyAssigned)
  {
    var base := Base(l, person.id, stamp);
    var e := Entry(l.nextId, person.id, target, created, None);
    IntendedShape(l, branches, person, target, stamp, created);
    IntendedKeepsColumns(l, branches, person, target, stamp, created);
    BaseKeepsColumns(l, person.id, stamp);
    Queries.LatestAppendNewer(base, e, BelongsTo(person.id), AssignmentDate);
  }

  /** One assignment request: who, where, and the two clock readings. */
  datatype Request = Request(person: SalesPerson, target: Id, stamp: Instant, created: Instant)

  predicate TargetsKnown(reqs: seq<Request>, branches: map<Id, Branch>)
  {
    forall k | 0 <= k < |reqs| :: reqs[k].target in branches
  }

  /** Serves one request with the intended assignment; a refused request
      leaves the ledger as it was. */
  function Step(l: Ledger, branches: map<Id, Branch>, q: Request): (r: Ledger)
    requires BranchesKnown(l.entries, branches)
    requires q.target in branches
    ensures BranchesKnown(r.entries, branches)
  {
    IntendedKeepsColumns(l, branches, q.person, q.target, q.stamp, q.created);
    match AssignIntended(l, branches, q.person, q.target, q.stamp, q.created)
    case Success(a) => a.ledger
    case Failure(_) => l
  }

  /** Serves the requests one after another. */
  function Replay(l: Ledger, branches: map<Id, Branch>, reqs: seq<Request>): (r: Ledger)
    requires BranchesKnown(l.entries, branches)
    requires TargetsKnown(reqs, branches)
    ensures BranchesKnown(r.entries, branches)
    decreases |reqs|
  {
    if |reqs| == 0 then l
    else Replay(Step(l, branches, reqs[0]), branches, reqs[1..])
  }

  /** Requests arrive with strictly increasing creation times, all later than
      every assignment already in the ledger. */
  predicate Clocked(l: Ledger, reqs: seq<Request>)
  {
    && (forall i, k | 0 <= i < |l.entries| && 0 <= k < |reqs| :: l.entries[i].assignmentDate < reqs[k].created)
    && (forall j, k | 0 <= j < k < |reqs| :: reqs[j].created < reqs[k].created)
  }

  /** One step keeps the ledger disciplined and the remaining requests clocked. */
  lemma StepKeepsDiscipline(l: Ledger, branches: map<Id, Branch>, reqs: seq<Request>)
    requires |reqs| > 0
    requires WellFormed(l)
    requires BranchesKnown(l.entries, branches)
    requires Disciplined(l.entries)
    requires TargetsKnown(reqs, branches)
    requires Clocked(l, reqs)
    ensures WellFormed(Step(l, branches, reqs[0]))
    ensures Disciplined(Step(l, branches, reqs[0]).entries)
    ensures Clocked(Step(l, branches, reqs[0]), reqs[1..])
  {
    var q := reqs[0];
    IntendedPreservesDiscipline(l, branches, q.person, q.target, q.stamp, q.created);
    IntendedKeepsColumns(l, branches, q.person, q.target, q.stamp, q.created);
    var next := Step(l, branches, q);
    forall i, k | 0 <= i < |next.entries| && 0 <= k < |reqs[1..]|
      ensures next.entries[i].assignmentDate < reqs[1..][k].created
    {
      assert reqs[1..][k] == reqs[k + 1];
    }
  }

  /** Any run of assignments keeps the ledger disciplined: each salesperson
      has at most one open entry, and it is their newest. */
  lemma {:induction false} ReplayKeepsDiscipline(l: Ledger, branches: map<Id, Branch>, reqs: seq<Request>)
    requires WellFormed(l)
    requires BranchesKnown(l.entries, branches)
    requires Disciplined(l.entries)
    requires TargetsKnown(reqs, branches)
    requires Clocked(l, reqs)
    ensures WellFormed(Replay(l, branches, reqs))
    ensures Disciplined(Replay(l, branches, reqs).entries)
    ensures AtMostOneOpen(Replay(l, branches, reqs).entries)
    decreases |reqs|
  {
    if |reqs| == 0 {
      DisciplinedHasOneOpen(l);
    } else {
      StepKeepsDiscipline(l, branches, reqs);
      ReplayKeepsDiscipline(Step(l, branches, reqs[0]), branches, reqs[1..]);
    }
  }

  /** From an empty ledger, any run of assignments with a ticking clock leaves
      at most one open entry per salesperson. */
  lemma EmptyLedgerRunsKeepOneOpen(branches: map<Id, Branch>, reqs: seq<Request>, firstId: Id)
    requires TargetsKnown(reqs, branches)
    requires forall j, k | 0 <= j < k < |reqs| :: reqs[j].created < reqs[k].created
    ensures AtMostOneOpen(Replay(Ledger([], firstId), branches, reqs).entries)
  {
    ReplayKeepsDiscipline(Ledger([], firstId), branches, reqs);
  }

  /** Serves one request with the assignment as written; a refused request
      leaves the ledger as it was. */
  function StepAsWritten(l: Ledger, branches: map<Id, Branch>, q: Request): (r: Ledger)
    requires BranchesKnown(l.entries, branches)
    requires q.target in branches
    ensures BranchesKnown(r.entries, branches)
  {
    match Assign(l, branches, q.person, q.target, q.stamp, q.created)
    case Failure(_) => l
    case Success(a) =>
      assert Newest(l.entries, q.person.id).value in l.entries;
      IntendedAgreesWhenAssigned(l, branches, q.person, q.target, q.stamp, q.created);
      IntendedKeepsColumns(l, branches, q.person, q.target, q.stamp, q.created);
      a.ledger
  }

  /** Serves the requests one after another with the assignment as written. */
  function ReplayAsWritten(l: Ledger, branches: map<Id, Branch>, reqs: seq<Request>): (r: Ledger)
    requires BranchesKnown(l.entries, branches)
    requires TargetsKnown(reqs, branches)
    ensures BranchesKnown(r.entries, branches)
    decreases |reqs|
  {
    if |reqs| == 0 then l
    else ReplayAsWritten(StepAsWritten(l, branches, reqs[0]), branches, reqs[1..])
  }

  /** With the assignment as written, a ledger that starts empty stays empty:
      every first assignment fails, so no request ever creates an entry. */
  lemma {:induction false} AsWrittenRunsStayEmpty(branches: map<Id, Branch>, reqs: seq<Request>, firstId: Id)
    requires TargetsKnown(reqs, branches)
    ensures ReplayAsWritten(Ledger([], firstId), branches, reqs) == Ledger([], firstId)
    decreases |reqs|
  {
    if |reqs| > 0 {
      var q := reqs[0];
      FirstAssignmentFails(Ledger([], firstId), branches, q.person, q.target, q.stamp, q.created);
      AsWrittenRunsStayEmpty(branches, reqs[1..], firstId);
    }
  }
}
