/** The catalog's records: genres, authors, books and the loanable copies of books. */
module Models {
  import opened Wrappers
  import opened Dates

  type GenreId = nat
  type AuthorId = nat
  type BookId = nat
  type UserId = nat

  /** The text form of a copy's UUID primary key. */
  type InstanceId = string

  datatype Genre = Genre(id: GenreId, name: string)

  datatype Author = Author(
    id: AuthorId,
    firstName: string,
    lastName: string,
    dateOfBirth: Option<Date>,
    dateOfDeath: Option<Date>)

  /** A title-level entry; `author` is a nullable reference and `genres` the many-to-many set, in the order the store returns it. */
  datatype Book = Book(
    id: BookId,
    title: string,
    author: Option<AuthorId>,
    summary: string,
    isbn: string,
    genres: seq<Genre>)

  /** The four loan-status choices; the stored value is the one-letter code. */
  datatype LoanStatus = Maintenance | OnLoan | Available | Reserved
  {
    function Code(): char
    {
      match this
      case Maintenance => 'm'
      case OnLoan => 'o'
      case Available => 'a'
      case Reserved => 'r'
    }
  }

  /** The status a copy receives when none is given. */
  const DefaultStatus: LoanStatus := Maintenance

  /** One physical, loanable copy of a book. */
  datatype BookInstance = BookInstance(
    id: InstanceId,
    book: Option<BookId>,
    imprint: string,
    dueBack: Option<Date>,
    borrower: Option<UserId>,
    status: LoanStatus)

  /** The whole catalog as the store holds it. */
  datatype Catalog = Catalog(
    genres: seq<Genre>,
    authors: seq<Author>,
    books: seq<Book>,
    instances: seq<BookInstance>)

  /** Reads a stored status code back; only the four choice codes are recognised. */
  function ParseStatus(code: string): (r: Option<LoanStatus>)
    ensures r.Some? <==> code in {"m", "o", "a", "r"}
    ensures r.Some? ==> code == [r.value.Code()]
  {
    if code == "m" then Some(Maintenance)
    else if code == "o" then Some(OnLoan)
    else if code == "a" then Some(Available)
    else if code == "r" then Some(Reserved)
    else None
  }

  /** Every status survives being stored as its code and read back. */
  lemma StatusCodeRoundTrip(s: LoanStatus)
    ensures ParseStatus([s.Code()]) == Some(s)
  {
  }

  /** A copy as created with only its required fields: no due date, no borrower, the default status. */
  function NewBookInstance(id: InstanceId, book: Option<BookId>, imprint: string): (r: BookInstance)
    ensures r.status == Maintenance
    ensures r.dueBack.None? && r.borrower.None?
    ensures r.id == id && r.book == book && r.imprint == imprint
  {
    BookInstance(id, book, imprint, None, None, DefaultStatus)
  }

  /**
   * A copy is overdue when it has a due date and that date is strictly
   * earlier than today. A present date is always truthy in the source, so
   * the presence test is exactly `Some?`.
   */
  predicate IsOverdue(inst: BookInstance, today: Date)
    ensures IsOverdue(inst, today) ==> inst.dueBack.Some?
    ensures inst.dueBack.Some? ==> (IsOverdue(inst, today) <==> inst.dueBack.value < today)
  {
    inst.dueBack.Some? && today > inst.dueBack.value
  }

  /** Overdue exactly when a due date exists and lies before today; a copy due today is not overdue. */
  lemma OverdueIff(inst: BookInstance, today: Date)
    ensures IsOverdue(inst, today) <==> inst.dueBack.Some? && inst.dueBack.value < today
    ensures inst.dueBack.None? ==> !IsOverdue(inst, today)
    ensures inst.dueBack == Some(today) ==> !IsOverdue(inst, today)
  {
  }

  /** Whether a copy is overdue depends only on its due date, never on its status or borrower. */
  lemma OverdueIgnoresLoanFields(inst: BookInstance, today: Date, s: LoanStatus, u: Option<UserId>)
    ensures IsOverdue(inst.(status := s, borrower := u), today) == IsOverdue(inst, today)
  {
  }

  /** Once overdue, a copy stays overdue on every later day. */
  lemma OverdueStaysOverdue(inst: BookInstance, today: Date, later: Date)
    requires today <= later
    ensures IsOverdue(inst, today) ==> IsOverdue(inst, later)
  {
  }

  /** A freshly created copy is in maintenance and is never overdue. */
  lemma NewInstanceNotOverdue(id: InstanceId, book: Option<BookId>, imprint: string, today: Date)
    ensures !IsOverdue(NewBookInstance(id, book, imprint), today)
  {
  }

  /** An author is shown as "last, first". */
  function AuthorStr(a: Author): (r: string)
    ensures |r| == |a.lastName| + 2 + |a.firstName|
    ensures r[..|a.lastName|] == a.lastName
    ensures r[|a.lastName|..|a.lastName| + 2] == ", "
    ensures r[|a.lastName| + 2..] == a.firstName
  {
    a.lastName + ", " + a.firstName
  }

  /** The position of the first occurrence of `c` in `s`, if any. */
  function IndexOf(s: string, c: char): (r: Option<nat>)
    ensures r.Some? ==> r.value < |s| && s[r.value] == c && c !in s[..r.value]
    ensures r.None? ==> c !in s
  {
    if |s| == 0 then None
    else if s[0] == c then Some(0)
    else
      match IndexOf(s[1..], c)
      case None => None
      case Some(k) =>
        assert s[..k + 1] == [s[0]] + s[1..][..k];
        Some(k + 1)
  }

  /** Splits a displayed author name at its first comma back into (last name, first name). */
  function ParseAuthorStr(s: string): Option<(string, string)>
  {
    match IndexOf(s, ',')
    case None => None
    case Some(k) =>
      if k + 1 < |s| && s[k + 1] == ' ' then Some((s[..k], s[k + 2..])) else None
  }

  /** When the last name holds no comma, both name parts can be read back from the display form. */
  lemma AuthorStrRoundTrip(a: Author)
    requires ',' !in a.lastName
    ensures ParseAuthorStr(AuthorStr(a)) == Some((a.lastName, a.firstName))
  {
    var s := AuthorStr(a);
    var k := |a.lastName|;
    assert s[..k] == a.lastName;
    assert s[k] == ',';
  }

  /** Python's `sep.join(parts)`: the parts in order with `sep` between neighbours. */
  function Join(sep: string, parts: seq<string>): string
    decreases |parts|
  {
    if |parts| == 0 then ""
    else if |parts| == 1 then parts[0]
    else parts[0] + sep + Join(sep, parts[1..])
  }

  /** Appending one more part adds one separator and the part at the end. */
  lemma {:induction false} JoinSnoc(sep: string, parts: seq<string>, last: string)
    requires |parts| > 0
    ensures Join(sep, parts + [last]) == Join(sep, parts) + sep + last
    decreases |parts|
  {
    if |parts| == 1 {
      assert parts + [last] == [parts[0], last];
      assert (parts + [last])[1..] == [last];
    } else {
      assert (parts + [last])[1..] == parts[1..] + [last];
      JoinSnoc(sep, parts[1..], last);
    }
  }

  /** The names of the given genres, in order. */
  function GenreNames(gs: seq<Genre>): (names: seq<string>)
    ensures |names| == |gs|
    ensures forall i :: 0 <= i < |gs| ==> names[i] == gs[i].name
  {
    seq(|gs|, i requires 0 <= i < |gs| => gs[i].name)
  }

  /** The genre column of the admin book list: at most the first three genre names, comma-separated. */
  function DisplayGenre(b: Book): (r: string)
    ensures |b.genres| == 0 ==> r == ""
    ensures |b.genres| == 1 ==> r == b.genres[0].name
    ensures |b.genres| == 2 ==> r == b.genres[0].name + ", " + b.genres[1].name
    ensures |b.genres| >= 3 ==>
              r == b.genres[0].name + ", " + b.genres[1].name + ", " + b.genres[2].name
  {
    var shown := if |b.genres| <= 3 then b.genres else b.genres[..3];
    var names := GenreNames(shown);
    if |names| < 2 then Join(", ", names)
    else
      assert names[..1] + [names[1]] == names[..2];
      JoinSnoc(", ", names[..1], names[1]);
      if |names| == 2 then
        assert names[..2] == names;
        Join(", ", names)
      else
        assert names[..2] + [names[2]] == names;
        JoinSnoc(", ", names[..2], names[2]);
        Join(", ", names)
  }

  /** The stored record with the given id, if there is one. */
  function FindBook(books: seq<Book>, id: BookId): (r: Option<Book>)
    ensures r.Some? ==> r.value in books && r.value.id == id
    ensures r.None? ==> forall b :: b in books ==> b.id != id
  {
    if |books| == 0 then None
    else if books[0].id == id then Some(books[0])
    else FindBook(books[1..], id)
  }

  /**
   * A copy is shown as "<uuid> (<book title>)". The source dereferences the
   * nullable `book` reference, so a copy without a book has no display form
   * (an attribute error); `None` stands for that failure.
   */
  function InstanceStr(inst: BookInstance, books: seq<Book>): (r: Option<string>)
    ensures inst.book.None? ==> r.None?
    ensures r.Some? ==>
              inst.book.Some? &&
              exists b :: b in books && b.id == inst.book.value && r.value == inst.id + " (" + b.title + ")"
    ensures inst.book.Some? && (exists b :: b in books && b.id == inst.book.value) ==> r.Some?
  {
    if inst.book.None? then None
    else
      match FindBook(books, inst.book.value)
      case None => None
      case Some(b) => Some(inst.id + " (" + b.title + ")")
  }
}
