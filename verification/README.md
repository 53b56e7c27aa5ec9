# Library catalog: loans and renewals

A model of the decision rules inside a small library-catalog web application.
The application keeps genres, authors, books and the physical copies of books
(book instances). A copy has a loan status, an optional due date and an optional
borrower. Librarians may renew a loan by moving its due date, but only to a date
from today up to four weeks ahead.

Dates are whole day numbers (`Dates.Date = int`), and "today" is always an
explicit parameter. The model is written as immutable records and pure functions:

- `wrappers.dfy`: `Option` for nullable fields and `Result` for failing operations.
- `dates.dfy`: day-number dates and week lengths.
- `seqs.dfy`: order-preserving `Filter` (see `Seqs.FilterAppend`) and `Count`, the shapes of a queryset's
  `filter` and `count`.
- `models.dfy`: the records, the status choices and their stored codes, the
  default status, the overdue test, and the display strings.
- `forms.dfy`: the renewal-date window, both copies of it,
  and validation of the whole submitted form.
- `queries.dfy`: the loan listings (filter by status and borrower, then order by
  due date) and the available-copies count.
- `deletion.dfy`: the SET_NULL delete rule for authors, books and borrowers.
- `views.dfy`: the home page's counts and visit counter, and the renewal action.

Ordering by due date leaves the placement of missing dates to the database.
The model therefore takes the null placement as a parameter (`NullOrdering`).
Under either placement, the present dates come out in ascending order.

## Model

| member | source | states |
|---|---|---|
| Forms.CleanDueBack | catalog/forms.py:31-39 | a date is accepted, unchanged, exactly when today <= d <= today + 28; it fails with "renewal in past" exactly when d < today and with "more than 4 weeks ahead" exactly when d > today + 28 |
| Forms.CleanRenewalDate | catalog/forms.py:13-26 | the plain form's check accepts a date, unchanged, exactly when today <= d <= today + 28, and fails with "renewal in past" exactly when d < today and with "more than 4 weeks ahead" exactly when d > today + 28 |
| Forms.SameRenewalRule | catalog/forms.py:13-26 | the plain form's check gives the same verdict as the model form's check for every date and every day |
| Forms.ExactlyOneOutcome | catalog/forms.py:34-39 | every date is either accepted, rejected as in the past, or rejected as too far ahead |
| Forms.WindowBoundaries | catalog/forms.py:34-38 | today and today + 28 are accepted; today + 29 is too far ahead; today - 1 is in the past |
| Forms.RuleIsShiftInvariant | catalog/forms.py:34-38 | the verdict depends only on how many days ahead the date lies |
| Forms.ProposedRenewalDate | catalog/views.py:95 | the date proposed when the page opens is today + 21, strictly inside the accepted window |
| Forms.ValidateModelFormAsWritten | catalog/forms.py:29-39 | validation of the submitted form as written: it crashes exactly on an empty field; a malformed date is refused as invalid; an entered date gets exactly the window check's verdict |
| Forms.BlankSubmissionCrashes | catalog/forms.py:33-34 | with the optional date field left empty, the validation as written raises an exception |
| Forms.ValidateModelForm | catalog/forms.py:29-47 | validation of the submitted form: an empty field and a malformed date get their own errors; an entered date gets exactly the window check's verdict, including which bound it broke |
| Forms.ValidateModelFormAgrees | catalog/forms.py:31-39 | the corrected validation agrees with the source on every non-empty submission |
| Models.ParseStatus | catalog/models.py:68-75 | a stored code is read back exactly when it is one of m, o, a, r, and it reads back as the status with that code |
| Models.StatusCodeRoundTrip | catalog/models.py:68-73 | every status reads back as itself from its stored code |
| Models.NewBookInstance | catalog/models.py:59-75 | a new copy has status Maintenance, no due date and no borrower |
| Models.NewInstanceNotOverdue | catalog/models.py:75-85 | a new copy is not overdue on any day |
| Models.IsOverdue | catalog/models.py:82-85 | a copy with no due date is never overdue; a copy with one is overdue exactly when that date is before today |
| Models.OverdueIff | catalog/models.py:82-85 | a copy is overdue exactly when it has a due date before today; no due date, or a due date of today, means not overdue |
| Models.OverdueIgnoresLoanFields | catalog/models.py:82-85 | being overdue does not depend on status or borrower |
| Models.OverdueStaysOverdue | catalog/models.py:82-85 | an overdue copy stays overdue on every later day |
| Models.AuthorStr | catalog/models.py:30-31 | an author is shown as the last name, then ", ", then the first name |
| Models.AuthorStrRoundTrip | catalog/models.py:30-31 | when the last name has no comma, splitting the display form at its first comma gives back both names |
| Models.DisplayGenre | catalog/models.py:52-53 | the genre column shows the first three genre names at most, in order, joined by ", "; no genres give "" |
| Models.JoinSnoc | catalog/models.py:53 | joining one more name adds one separator and that name at the end |
| Models.FindBook | catalog/models.py:60 | a book found by id is in the catalog with that id; no book is found only when none has that id |
| Models.InstanceStr | catalog/models.py:87-88 | a copy is shown as "id (title)" of its book; a copy whose book is null has no display form |
| Seqs.Filter | catalog/views.py:18 | a filter keeps exactly the elements passing the test, with their multiplicities |
| Seqs.FilterAppend | catalog/views.py:65-66 | filtering keeps the original order: the filter of a concatenation is the filter of the front followed by the filter of the back |
| Seqs.Count | catalog/views.py:18 | a count is at most the number of elements, and it is zero exactly when no element passes the test |
| Seqs.CountIsFilterLength | catalog/views.py:18 | counting matching copies gives the size of the filtered list |
| Queries.InsertByDue | catalog/views.py:66 | inserting into a list ordered by due date keeps it ordered and adds exactly that copy |
| Queries.SortByDue | catalog/views.py:66 | ordering by due date gives the same copies, ascending by due date |
| Queries.SortedDatesAscend | catalog/models.py:77 | in an ordered list the present due dates ascend, and the copies without one sit together at one end |
| Queries.LoanedToUser | catalog/views.py:64-66 | the user's loans are exactly the copies on loan to that user, no more and no fewer, ascending by due date |
| Queries.AllLoans | catalog/views.py:78-79 | all loans are exactly the copies with status on loan, ascending by due date |
| Queries.UserLoansWithinAllLoans | catalog/views.py:64-79 | each user's loans are contained in the list of all loans |
| Queries.CountAvailable | catalog/views.py:16-18 | the available count never exceeds the number of copies and equals the number of copies with status available |
| Deletion.DeleteAuthor | catalog/models.py:37 | deleting an author removes only that author and nulls the author of exactly the books that named it; no book is removed and nothing else changes |
| Deletion.DeleteBook | catalog/models.py:60 | deleting a book removes only that book and nulls the book of exactly the copies that named it; no copy is removed |
| Deletion.DeleteBorrower | catalog/models.py:66 | deleting a user nulls the borrower of exactly the copies that user held |
| Deletion.DeleteBorrowerEmptiesLoans | catalog/models.py:66 | after a user is deleted, that user's loan list is empty |
| Deletion.DeleteAuthorKeepsRefsValid | catalog/models.py:37 | after deleting an author, no book or copy refers to a missing record |
| Deletion.DeleteBookKeepsRefsValid | catalog/models.py:60 | after deleting a book, no book or copy refers to a missing record |
| Views.Index | catalog/views.py:14-32 | the home page counts books, copies and authors; the available count equals the number of copies with status available and is at most the copy count; it shows the stored visit count, or 0, and stores one more |
| Views.VisitsCountViews | catalog/views.py:20-21 | on a fresh session the stored counter equals the number of home-page views, and view n shows n - 1 |
| Views.SetDueBack | catalog/views.py:90 | writing the due date changes only that field of the copy with that key; all other copies are untouched |
| Views.RenewBookLibrarian | catalog/views.py:81-98 | not found exactly when no copy has the key. Opening the page proposes today + 21. A submission redirects exactly when its date is in the window, and then only the due date changes. A past date shows "renewal in past" and a date beyond four weeks shows "more than 4 weeks ahead". A malformed date shows "Enter a valid date.". In every failing case nothing changes and the bound form shows the validation error. An empty date shows a "required" error (the corrected behaviour) |
| Views.RenewBookLibrarianAsWritten | catalog/views.py:81-98 | the renewal action as written: it ends in a server error exactly when an existing copy gets an empty date, and it changes nothing unless it redirects |
| Views.RenewAsWrittenAgrees | catalog/views.py:84-93 | the as-written and corrected renewal actions agree on every request except an empty date for an existing copy: there the source fails with a server error and the corrected action shows the form |
| Views.RenewedCopyNotOverdue | catalog/views.py:88-91 | a copy renewed today is not overdue today |
| Views.SetDueBackKeepsStatusCounts | catalog/views.py:90 | renewing leaves the number of copies in every status unchanged |
| Views.RenewKeepsAvailableCount | catalog/views.py:81-98 | a renewal leaves every figure on the home page unchanged |

## Left out

- HTTP handling, templates, redirects, pagination, URL routing, the admin screens, and the login and permission checks are not modelled. The renewal page's response is only a tag: not found, redirect, form, or server error.
- Persistence and UUID generation are left out. A copy's key is its UUID text, given by the caller. `get_absolute_url` is left out.
- Django's `clean_<field>` dispatch is not modelled. `RenewBookForm.clean_renewal_date` is named for a field the form does not have, so the framework never calls it. `Forms.CleanRenewalDate` models its rule as a plain function; the live page uses the model form.
- The source reads the clock twice in one validation. Here "today" is a single parameter, so a midnight rollover between the two reads is not modelled.
- The database's placement of missing due dates is a parameter. The order of copies with equal due dates is unspecified in the database, and the contracts do not fix it.
- Views.RenewBookLibrarian: on an empty date for an existing copy it shows the form with a "required" error. The source instead raises a type error, which is a server error (see Findings). `Views.RenewBookLibrarianAsWritten` models that, and `Views.RenewAsWrittenAgrees` proves that this is the only difference.
- The human-readable labels of the status choices are display text only and are not modelled.
- Models.ParseStatus: the status field is declared `blank=True`, so a form could store an empty status. The model keeps only the four choices.
- Field-length limits, the 13-character ISBN and "death date after birth date" are not modelled. The source does not enforce them beyond storage.
- `Genre.__str__` and `Book.__str__` return the name and the title unchanged. They are the record fields themselves.
- Deleting a genre removes it from its books' genre sets. That many-to-many bookkeeping is not modelled.
- The user records belong to the authentication framework. Only the effect of deleting a user on copies is modelled (`Deletion.DeleteBorrower`).

## Findings

| source | as written | input that shows it | evidently intended | confidence | as-written member | corrected member |
|---|---|---|---|---|---|---|
| catalog/forms.py:33-34 | the model form's date field inherits `blank=True` from catalog/models.py:64 and is optional; an empty submission passes `None` to `data < datetime.date.today()`, which raises a type error (a server error) | a POST to the renewal page with the date field left empty | refuse the submission with a field error, as for any other unusable date | medium, not executed | Forms.ValidateModelFormAsWritten (shown by Forms.BlankSubmissionCrashes; in the view, Views.RenewBookLibrarianAsWritten) | Forms.ValidateModelForm (used by Views.RenewBookLibrarian; agreement shown by Forms.ValidateModelFormAgrees) |
