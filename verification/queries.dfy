/** Filtering, counting and ordering of book copies, the shapes of the catalog's loan queries. */
module Queries {
  import opened Wrappers
  import opened Dates
  import opened Models
  import opened Seqs

  /**
   * Where the store puts copies without a due date when ordering by it.
   * The source leaves this to the database, so it is a parameter here.
   */
  datatype NullOrdering = NullsFirst | NullsLast

  /** The ascending order on optional due dates under a null policy. */
  predicate DueLe(p: NullOrdering, a: Option<Date>, b: Option<Date>)
  {
    match (a, b)
    case (None, None) => true
    case (None, Some(_)) => p == NullsFirst
    case (Some(_), None) => p == NullsLast
    case (Some(x), Some(y)) => x <= y
  }

  /** Every copy's due date is no later (under the policy) than that of any copy after it. */
  ghost predicate SortedByDue(p: NullOrdering, s: seq<BookInstance>)
  {
    forall i, j :: 0 <= i < j < |s| ==> DueLe(p, s[i].dueBack, s[j].dueBack)
  }

  /** `filter(status__exact=st)` as a reusable test. */
  function StatusIs(st: LoanStatus): BookInstance -> bool
  {
    (inst: BookInstance) => inst.status == st
  }

  /** `filter(borrower=user)` as a reusable test. */
  function BorrowedBy(user: UserId): BookInstance -> bool
  {
    (inst: BookInstance) => inst.borrower == Some(user)
  }

  /** Any two due dates are comparable under either null policy. */
  lemma DueLeTotal(p: NullOrdering, a: Option<Date>, b: Option<Date>)
    ensures DueLe(p, a, b) || DueLe(p, b, a)
  {
  }

  /** A copy due no later than every copy of a sorted list may go in front of it. */
  lemma SortedCons(p: NullOrdering, y: BookInstance, t: seq<BookInstance>)
    requires SortedByDue(p, t)
    requires forall z :: z in t ==> DueLe(p, y.dueBack, z.dueBack)
    ensures SortedByDue(p, [y] + t)
  {
    forall i, j | 0 <= i < j < |[y] + t|
      ensures DueLe(p, ([y] + t)[i].dueBack, ([y] + t)[j].dueBack)
    {
      if i == 0 {
        assert ([y] + t)[j] == t[j - 1];
      } else {
        assert ([y] + t)[i] == t[i - 1] && ([y] + t)[j] == t[j - 1];
      }
    }
  }

  /** Places `x` before the first copy that is not due strictly earlier. */
  function InsertByDue(p: NullOrdering, x: BookInstance, s: seq<BookInstance>): (r: seq<BookInstance>)
    requires SortedByDue(p, s)
    ensures SortedByDue(p, r)
    ensures multiset(r) == multiset(s) + multiset{x}
    ensures forall y :: y in r ==> y == x || y in s
  {
    if |s| == 0 then [x]
    else
      assert s == [s[0]] + s[1..];
      assert forall y :: y in s[1..] ==> DueLe(p, s[0].dueBack, y.dueBack);
      if DueLe(p, x.dueBack, s[0].dueBack) then
        assert forall y :: y in s ==> DueLe(p, x.dueBack, y.dueBack);
        SortedCons(p, x, s);
        [x] + s
      else
        var rest := InsertByDue(p, x, s[1..]);
        DueLeTotal(p, x.dueBack, s[0].dueBack);
        SortedCons(p, s[0], rest);
        [s[0]] + rest
  }

  /** Sequences holding the same multiset hold the same elements. */
  lemma SameElements(a: seq<BookInstance>, b: seq<BookInstance>)
    requires multiset(a) == multiset(b)
    ensures forall x :: x in a <==> x in b
  {
    forall x
      ensures x in a <==> x in b
    {
      assert x in a <==> x in multiset(a);
      assert x in b <==> x in multiset(b);
    }
  }

  /** `order_by('due_back')`: the same copies, ascending by due date. */
  function SortByDue(p: NullOrdering, s: seq<BookInstance>): (r: seq<BookInstance>)
    ensures SortedByDue(p, r)
    ensures multiset(r) == multiset(s)
    ensures forall x :: x in r <==> x in s
    ensures |r| == |s|
  {
    if |s| == 0 then []
    else
      assert s == [s[0]] + s[1..];
      var r := InsertByDue(p, s[0], SortByDue(p, s[1..]));
      SameElements(r, s);
      r
  }

  /** Whatever the null policy, the copies that have a due date come out in ascending date order, and the dateless ones sit together at one end. */
  lemma SortedDatesAscend(p: NullOrdering, s: seq<BookInstance>)
    requires SortedByDue(p, s)
    ensures forall i, j :: 0 <= i < j < |s| && s[i].dueBack.Some? && s[j].dueBack.Some? ==>
              s[i].dueBack.value <= s[j].dueBack.value
    ensures p == NullsFirst ==>
              forall i, j :: 0 <= i < j < |s| && s[i].dueBack.Some? ==> s[j].dueBack.Some?
    ensures p == NullsLast ==>
              forall i, j :: 0 <= i < j < |s| && s[j].dueBack.Some? ==> s[i].dueBack.Some?
  {
  }

  /** Copies currently on loan to `user`, soonest due first. */
  function LoanedToUser(db: seq<BookInstance>, user: UserId, p: NullOrdering): (r: seq<BookInstance>)
    ensures forall x :: x in r <==> x in db && x.borrower == Some(user) && x.status == OnLoan
    ensures forall x :: multiset(r)[x] ==
              if x.borrower == Some(user) && x.status == OnLoan then multiset(db)[x] else 0
    ensures SortedByDue(p, r)
  {
    var mine := Filter(Filter(db, BorrowedBy(user)), StatusIs(OnLoan));
    FilterTwice(db, BorrowedBy(user), StatusIs(OnLoan));
    var r := SortByDue(p, mine);
    r
  }

  /** Every copy currently on loan, soonest due first. */
  function AllLoans(db: seq<BookInstance>, p: NullOrdering): (r: seq<BookInstance>)
    ensures forall x :: x in r <==> x in db && x.status == OnLoan
    ensures forall x :: multiset(r)[x] == if x.status == OnLoan then multiset(db)[x] else 0
    ensures SortedByDue(p, r)
  {
    var loaned := Filter(db, StatusIs(OnLoan));
    var r := SortByDue(p, loaned);
    r
  }

  /** A user's loans are among all loans, copy for copy. */
  lemma UserLoansWithinAllLoans(db: seq<BookInstance>, user: UserId, p: NullOrdering)
    ensures multiset(LoanedToUser(db, user, p)) <= multiset(AllLoans(db, p))
    ensures forall x :: x in LoanedToUser(db, user, p) ==> x in AllLoans(db, p)
  {
  }

  /** Copies with the available status. */
  function CountAvailable(db: seq<BookInstance>): (n: nat)
    ensures n <= |db|
    ensures n == |Filter(db, StatusIs(Available))|
  {
    CountIsFilterLength(db, StatusIs(Available));
    Count(db, StatusIs(Available))
  }
}
