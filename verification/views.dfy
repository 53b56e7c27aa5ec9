/** The catalog pages that compute something: the home page's counts, the loan lists and the renewal action. */
module Views {
  import opened Wrappers
  import opened Dates
  import opened Models
  import opened Seqs
  import opened Forms
  import opened Queries

  /** The figures shown on the home page. */
  datatype IndexContext = IndexContext(
    numBooks: nat,
    numInstances: nat,
    numInstancesAvailable: nat,
    numAuthors: nat,
    numVisits: int)

  /** The home page together with the visit count it leaves in the session. */
  datatype IndexPage = IndexPage(context: IndexContext, storedVisits: int)

  /**
   * The home page. `storedVisits` is the session's visit counter, absent on
   * a fresh session; the page shows the count from before this visit and
   * stores it incremented.
   */
  function Index(c: Catalog, storedVisits: Option<int>): (r: IndexPage)
    ensures r.context.numBooks == |c.books|
    ensures r.context.numInstances == |c.instances|
    ensures r.context.numAuthors == |c.authors|
    ensures r.context.numInstancesAvailable <= r.context.numInstances
    ensures r.context.numInstancesAvailable == |Filter(c.instances, StatusIs(Available))|
    ensures r.context.numInstancesAvailable == 0 <==>
              forall i :: 0 <= i < |c.instances| ==> c.instances[i].status != Available
    ensures r.context.numVisits == if storedVisits.Some? then storedVisits.value else 0
    ensures r.storedVisits == r.context.numVisits + 1
  {
    var shown := match storedVisits case Some(v) => v case None => 0;
    IndexPage(
      IndexContext(|c.books|, |c.instances|, CountAvailable(c.instances), |c.authors|, shown),
      shown + 1)
  }

  /** The session's visit counter after `n` consecutive home-page views. */
  function VisitsAfter(c: Catalog, start: Option<int>, n: nat): Option<int>
  {
    if n == 0 then start else Some(Index(c, VisitsAfter(c, start, n - 1)).storedVisits)
  }

  /** On a fresh session, the counter equals the number of views so far, and the n-th view shows n - 1. */
  lemma {:induction false} VisitsCountViews(c: Catalog, n: nat)
    requires n >= 1
    ensures VisitsAfter(c, None, n) == Some(n)
    ensures Index(c, VisitsAfter(c, None, n - 1)).context.numVisits == n - 1
  {
    if n > 1 {
      VisitsCountViews(c, n - 1);
    }
  }

  /** Whether some copy has the primary key `pk`. */
  predicate HasInstance(db: seq<BookInstance>, pk: InstanceId)
  {
    exists i :: 0 <= i < |db| && db[i].id == pk
  }

  /** Writes a new due date into the copy `pk`, leaving all its other fields and all other copies alone. */
  function SetDueBack(db: seq<BookInstance>, pk: InstanceId, d: Date): (r: seq<BookInstance>)
    ensures |r| == |db|
    ensures forall i :: 0 <= i < |db| && db[i].id != pk ==> r[i] == db[i]
    ensures forall i :: 0 <= i < |db| && db[i].id == pk ==> r[i] == db[i].(dueBack := Some(d))
  {
    seq(|db|, i requires 0 <= i < |db| => if db[i].id == pk then db[i].(dueBack := Some(d)) else db[i])
  }

  /** How the renewal page is requested. */
  datatype Request =
    | Get                      // any method other than POST: open the page
    | Post(dueBack: DateInput) // submit a new due date

  /** The renewal form as displayed: fresh with a proposed date, or re-shown with its error. */
  datatype RenewForm = Unbound(initial: Date) | Bound(error: RenewError)

  datatype RenewResponse =
    | NotFound                // no copy has that key
    | RedirectToAllBorrowed   // the renewal was saved
    | ServerError             // an exception escaped the view
    | ShowForm(form: RenewForm)

  datatype RenewOutcome = RenewOutcome(catalog: Catalog, response: RenewResponse)

  /**
   * The librarian's renewal action for copy `pk`. Opening the page proposes
   * a date three weeks ahead; a submission in the accepted window overwrites
   * only that copy's due date; anything else changes nothing.
   */
  function RenewBookLibrarian(c: Catalog, pk: InstanceId, today: Date, req: Request): (r: RenewOutcome)
    ensures !HasInstance(c.instances, pk) ==> r == RenewOutcome(c, NotFound)
    ensures r.response == NotFound <==> !HasInstance(c.instances, pk)
    ensures HasInstance(c.instances, pk) && req.Post? && ValidateModelForm(today, req.dueBack).Failure? ==>
              r == RenewOutcome(c, ShowForm(Bound(ValidateModelForm(today, req.dueBack).error)))
    ensures HasInstance(c.instances, pk) && req.Get? ==> r == RenewOutcome(c, ShowForm(Unbound(today + 21)))
    ensures r.response == RedirectToAllBorrowed <==>
              HasInstance(c.instances, pk) && req.Post? && req.dueBack.Entered? &&
              today <= req.dueBack.day <= today + 28
    ensures r.response == RedirectToAllBorrowed ==>
              r.catalog == c.(instances := SetDueBack(c.instances, pk, req.dueBack.day))
    ensures r.response != RedirectToAllBorrowed ==> r.catalog == c
    ensures r.response.ShowForm? && r.response.form.Bound? ==>
              req.Post? && r.response.form.error == ValidateModelForm(today, req.dueBack).error
    ensures r.response == ShowForm(Bound(RenewalInPast)) <==>
              HasInstance(c.instances, pk) && req.Post? && req.dueBack.Entered? && req.dueBack.day < today
    ensures r.response == ShowForm(Bound(RenewalTooFarAhead)) <==>
              HasInstance(c.instances, pk) && req.Post? && req.dueBack.Entered? && req.dueBack.day > today + 28
    ensures r.response != ServerError
  {
    if !HasInstance(c.instances, pk) then RenewOutcome(c, NotFound)
    else
      match req
      case Get => RenewOutcome(c, ShowForm(Unbound(ProposedRenewalDate(today))))
      case Post(input) =>
        match ValidateModelForm(today, input)
        case Success(d) => RenewOutcome(c.(instances := SetDueBack(c.instances, pk, d)), RedirectToAllBorrowed)
        case Failure(e) => RenewOutcome(c, ShowForm(Bound(e)))
  }

  /**
   * The renewal action as the source has it: the same as above, except that
   * an empty date reaches the validator as `None` and the resulting type
   * error becomes a server error.
   */
  function RenewBookLibrarianAsWritten(c: Catalog, pk: InstanceId, today: Date, req: Request): (r: RenewOutcome)
    ensures r.response == ServerError <==> HasInstance(c.instances, pk) && req == Post(Blank)
    ensures r.response != RedirectToAllBorrowed ==> r.catalog == c
  {
    if !HasInstance(c.instances, pk) then RenewOutcome(c, NotFound)
    else
      match req
      case Get => RenewOutcome(c, ShowForm(Unbound(ProposedRenewalDate(today))))
      case Post(input) =>
        match ValidateModelFormAsWritten(today, input)
        case Valid(d) => RenewOutcome(c.(instances := SetDueBack(c.instances, pk, d)), RedirectToAllBorrowed)
        case Invalid(e) => RenewOutcome(c, ShowForm(Bound(e)))
        case Crashed => RenewOutcome(c, ServerError)
  }

  /** The two renewal actions differ only on an empty submission for an existing copy. */
  lemma RenewAsWrittenAgrees(c: Catalog, pk: InstanceId, today: Date, req: Request)
    ensures !(HasInstance(c.instances, pk) && req == Post(Blank)) ==>
              RenewBookLibrarianAsWritten(c, pk, today, req) == RenewBookLibrarian(c, pk, today, req)
    ensures HasInstance(c.instances, pk) && req == Post(Blank) ==>
              RenewBookLibrarianAsWritten(c, pk, today, req) == RenewOutcome(c, ServerError) &&
              RenewBookLibrarian(c, pk, today, req) == RenewOutcome(c, ShowForm(Bound(DateRequired)))
  {
  }

  /** A copy renewed today is not overdue today, whatever its due date was before. */
  lemma RenewedCopyNotOverdue(c: Catalog, pk: InstanceId, today: Date, req: Request)
    ensures var r := RenewBookLibrarian(c, pk, today, req);
            r.response == RedirectToAllBorrowed ==>
              forall x :: x in r.catalog.instances && x.id == pk ==> !IsOverdue(x, today)
  {
  }

  /** Renewing changes no copy's status, so every status count, and with it the loan lists' sizes, stays the same. */
  lemma {:induction false} SetDueBackKeepsStatusCounts(db: seq<BookInstance>, pk: InstanceId, d: Date, st: LoanStatus)
    ensures Count(SetDueBack(db, pk, d), StatusIs(st)) == Count(db, StatusIs(st))
    decreases |db|
  {
    if |db| > 0 {
      assert SetDueBack(db, pk, d)[1..] == SetDueBack(db[1..], pk, d);
      SetDueBackKeepsStatusCounts(db[1..], pk, d, st);
    }
  }

  /** A renewal leaves the home page's available count unchanged. */
  lemma RenewKeepsAvailableCount(c: Catalog, pk: InstanceId, today: Date, req: Request, visits: Option<int>)
    ensures Index(RenewBookLibrarian(c, pk, today, req).catalog, visits) == Index(c, visits)
  {
    var r := RenewBookLibrarian(c, pk, today, req);
    if r.response == RedirectToAllBorrowed {
      SetDueBackKeepsStatusCounts(c.instances, pk, req.dueBack.day, Available);
    }
  }
}
