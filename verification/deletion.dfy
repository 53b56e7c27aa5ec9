/**
 * Deleting a referenced record under the SET_NULL rule: the record goes,
 * and every reference to it is cleared instead of deleting the referrer.
 */
module Deletion {
  import opened Wrappers
  import opened Models
  import opened Seqs
  import opened Queries

  /** Every book's author, when set, names an author in the catalog. */
  ghost predicate AuthorRefsValid(c: Catalog)
  {
    forall b :: b in c.books && b.author.Some? ==>
      exists a :: a in c.authors && a.id == b.author.value
  }

  /** Every copy's book, when set, names a book in the catalog. */
  ghost predicate BookRefsValid(c: Catalog)
  {
    forall x :: x in c.instances && x.book.Some? ==>
      exists b :: b in c.books && b.id == x.book.value
  }

  /** Removes the author `id`; the books that named it keep existing with no author. */
  function DeleteAuthor(c: Catalog, id: AuthorId): (r: Catalog)
    ensures forall a :: a in r.authors <==> a in c.authors && a.id != id
    ensures |r.books| == |c.books|
    ensures forall i :: 0 <= i < |c.books| ==>
              r.books[i] == if c.books[i].author == Some(id) then c.books[i].(author := None) else c.books[i]
    ensures forall b :: b in r.books ==> b.author != Some(id)
    ensures r.genres == c.genres && r.instances == c.instances
  {
    var books := seq(|c.books|, i requires 0 <= i < |c.books| =>
      if c.books[i].author == Some(id) then c.books[i].(author := None) else c.books[i]);
    Catalog(c.genres, Filter(c.authors, (a: Author) => a.id != id), books, c.instances)
  }

  /** Removes the book `id`; its copies keep existing with no book. */
  function DeleteBook(c: Catalog, id: BookId): (r: Catalog)
    ensures forall b :: b in r.books <==> b in c.books && b.id != id
    ensures |r.instances| == |c.instances|
    ensures forall i :: 0 <= i < |c.instances| ==>
              r.instances[i] == if c.instances[i].book == Some(id) then c.instances[i].(book := None) else c.instances[i]
    ensures forall x :: x in r.instances ==> x.book != Some(id)
    ensures r.genres == c.genres && r.authors == c.authors
  {
    var instances := seq(|c.instances|, i requires 0 <= i < |c.instances| =>
      if c.instances[i].book == Some(id) then c.instances[i].(book := None) else c.instances[i]);
    Catalog(c.genres, c.authors, Filter(c.books, (b: Book) => b.id != id), instances)
  }

  /** Deleting the user `user` (a record of the authentication system) clears it as borrower of every copy. */
  function DeleteBorrower(c: Catalog, user: UserId): (r: Catalog)
    ensures |r.instances| == |c.instances|
    ensures forall i :: 0 <= i < |c.instances| ==>
              r.instances[i] == if c.instances[i].borrower == Some(user) then c.instances[i].(borrower := None) else c.instances[i]
    ensures forall x :: x in r.instances ==> x.borrower != Some(user)
    ensures r.genres == c.genres && r.authors == c.authors && r.books == c.books
  {
    var instances := seq(|c.instances|, i requires 0 <= i < |c.instances| =>
      if c.instances[i].borrower == Some(user) then c.instances[i].(borrower := None) else c.instances[i]);
    Catalog(c.genres, c.authors, c.books, instances)
  }

  /** Deleting an author leaves no dangling reference behind. */
  lemma DeleteAuthorKeepsRefsValid(c: Catalog, id: AuthorId)
    requires AuthorRefsValid(c) && BookRefsValid(c)
    ensures AuthorRefsValid(DeleteAuthor(c, id)) && BookRefsValid(DeleteAuthor(c, id))
  {
  }

  /** Deleting a book leaves no dangling reference behind. */
  lemma DeleteBookKeepsRefsValid(c: Catalog, id: BookId)
    requires AuthorRefsValid(c) && BookRefsValid(c)
    ensures AuthorRefsValid(DeleteBook(c, id)) && BookRefsValid(DeleteBook(c, id))
  {
  }

  /** Once a user is deleted, nobody's loan list can show a copy as borrowed by that user. */
  lemma DeleteBorrowerEmptiesLoans(c: Catalog, user: UserId, p: NullOrdering)
    ensures LoanedToUser(DeleteBorrower(c, user).instances, user, p) == []
  {
  }
}
