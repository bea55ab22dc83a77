# Library catalog: loan and renewal rules

This project models the domain rules of a small library-catalog application.
The application tracks books, their authors and genres, and the physical copies
("book instances") that patrons borrow. The rules live in `catalog/models.py`:

- the loan status of a copy: four codes, `m`, `o`, `a` and `r`, with `m`
  (maintenance) as the default;
- whether a copy is overdue on a given day;
- how many copies of a book are available;
- the short genre summary of a book;
- an author's display string, and the `(last name, first name)` order of author
  listings;
- the check on the date a librarian proposes when renewing a loan.

Every rule is a pure computation, so the model is made of datatypes, functions
and lemmas. It has no classes and no loops. One module covers each concern:

| file | module | contents |
|---|---|---|
| `wrappers.dfy` | `Wrappers` | `Option`, for the nullable fields |
| `dates.dfy` | `Dates` | dates as Python day ordinals. `AddDays` models `date + timedelta`, including its `OverflowError` past 9999-12-31 |
| `collections.dfy` | `Collections` | `Filter` (a queryset filter), `MapSeq` (a list comprehension) and `Join` (`", ".join`). Also `SplitCommaSpace` (Python's `split(", ")`), the inverse used to state what a joined string contains |
| `book_instance.dfy` | `BookInstances` | `LoanStatus` and its codes, the `BookInstance` record, the default a new copy gets, and `IsOverdue` |
| `book.dfy` | `Books` | `Genre`, `Book`, `DisplayGenre`, `Copies` (the book's `bookinstance_set`) and `CountAvailable` |
| `author.dfy` | `Authors` | `Author`, `Display`, Python's string ordering, the ordering of authors, and `OrderAuthors` (an author listing in that order) |
| `renewal.dfy` | `Renewal` | `CleanRenewalDate` and its outcomes |

The model injects the current date: every rule that reads "today" takes it as
a parameter. A date is its proleptic Gregorian ordinal: 0001-01-01 is 1 and
9999-12-31 is 3652059. Related records are plain values. The book a copy
belongs to is an `Option` of the book's identifier. A book's genres are a
sequence in stored order. The catalog's copies are one sequence, and a book's
copies are those whose `book` is that book.

The model follows the code:

- The refusal messages are "Invalid date - renewal in past" and "Invalid date -
  renewal more than 4 weeks ahead".
- The label of status `m` is spelled "Maintainance", as the code spells it.
- The renewal check computes `today + timedelta(weeks=4)`. When that sum is later
  than 9999-12-31, Python raises `OverflowError` instead of returning a validation
  error. The model has a third outcome for it, `DateOverflow`, which happens only when the candidate is not in the past.
  Away from the end of the calendar, the check accepts exactly the window
  [today, today + 28 days].

## Model

| member | source | states |
|---|---|---|
| `Dates.AddDays` | catalog/models.py:106 | `date + timedelta(days=n)` is defined exactly when the sum is at most 9999-12-31, and then it is n days later |
| `Collections.Filter` | catalog/models.py:46 | a record is among the filtered ones exactly when it is in the input and satisfies the condition, and there are no more of them than input records |
| `Collections.FilterMultiplicity` | catalog/models.py:46 | the filter keeps each record that satisfies the condition as many times as it occurs in the input, and no other record |
| `Collections.Join` | catalog/models.py:42 | joining nothing gives "", joining one name gives that name, and the length is the sum of the parts' lengths plus one separator between each two parts |
| `Collections.SplitJoin` | catalog/models.py:42 | a ", "-joined list of names without commas splits back into exactly that list |
| `BookInstances.Code` | catalog/models.py:55-62 | every status is stored as one of the codes m, o, a, r |
| `BookInstances.FromCode` | catalog/models.py:55-62 | a stored code names a status exactly when it is one of m, o, a, r |
| `BookInstances.Label` | catalog/models.py:55-60 | each status's label is the one `LOAN_STATUS` pairs with its code |
| `BookInstances.CodeRoundTrip` | catalog/models.py:55-62 | every status reads back from its code |
| `BookInstances.FromCodeRoundTrip` | catalog/models.py:55-62 | every declared code is the code of the status it names |
| `BookInstances.CodesDistinct` | catalog/models.py:55-62 | two statuses have the same code exactly when they are the same status |
| `BookInstances.DefaultIsMaintenance` | catalog/models.py:56-62 | the default status is stored as 'm' and labelled "Maintainance" |
| `BookInstances.NewBookInstance` | catalog/models.py:50-62 | a new copy keeps the given identity, book and imprint, and has no due date, no borrower and status 'm' |
| `BookInstances.IsOverdue` | catalog/models.py:71-75 | a copy is overdue only if its due date is set and before today, always then, and never without a due date |
| `BookInstances.OverdueIff` | catalog/models.py:71-75 | a copy is overdue on a day exactly when its due date is set and strictly before that day |
| `BookInstances.NoDueDateNeverOverdue` | catalog/models.py:73 | a copy without a due date is never overdue, whatever the day |
| `BookInstances.OverdueMonotone` | catalog/models.py:71-75 | a copy overdue on one day is overdue on every later day |
| `BookInstances.NewInstanceNotOverdue` | catalog/models.py:50-75 | a new copy is not overdue on any day |
| `Books.GenreNames` | catalog/models.py:42 | the names come one per genre, in stored order |
| `Books.ShownGenres` | catalog/models.py:42 | the summary shows the first min(3, n) genres, a prefix of the stored genres |
| `Books.DisplayGenre` | catalog/models.py:41-42 | a book without genres has the empty summary |
| `Books.DisplayGenreIgnoresLaterGenres` | catalog/models.py:42 | once a book has three genres, adding more genres does not change its summary |
| `Books.DisplayGenreShowsAllWhenFew` | catalog/models.py:42 | a book with at most three genres shows all of their names, joined by ", " in stored order |
| `Books.DisplayGenreRecoversNames` | catalog/models.py:41-42 | when the shown names have no commas, the summary splits into exactly min(3, n) names, the first ones in stored order |
| `Books.DisplayGenreOfFour` | catalog/models.py:42 | genres G1, G2, G3, G4 display as "G1, G2, G3" |
| `Books.Copies` | catalog/models.py:46 | a copy is among the book's copies exactly when it is in the catalog and its book is that book |
| `Books.CopiesMultiplicity` | catalog/models.py:46 | each copy of the book occurs among its copies as many times as in the catalog, and no other copy occurs |
| `Books.CountAvailable` | catalog/models.py:45-46 | the count never exceeds the number of the book's copies, nor the number of copies in the catalog |
| `Books.CountAvailableZeroIff` | catalog/models.py:45-46 | the count is zero exactly when no copy of the book has status 'a' |
| `Books.CountAvailableAppend` | catalog/models.py:45-46 | adding a copy raises the count by one if it is an available copy of this book, and leaves it unchanged otherwise |
| `Books.AddUnavailableKeepsCount` | catalog/models.py:45-46 | adding a copy whose status is not 'a' leaves the count unchanged |
| `Books.AddNewInstanceKeepsCount` | catalog/models.py:45-62 | adding a newly created copy, which has the default status 'm', leaves the count unchanged |
| `Books.CountAvailableSetStatus` | catalog/models.py:45-46 | setting the status of one of the book's copies changes the count by +1 into 'a', by -1 out of 'a', and by 0 otherwise |
| `Books.ReturnRaisesCountByOne` | catalog/models.py:45-46 | changing a copy of the book from 'o' to 'a' raises the count by exactly one |
| `Books.LendLowersCountByOne` | catalog/models.py:45-46 | changing a copy of the book from 'a' to 'o' lowers the count by exactly one |
| `Books.OtherCopiesDoNotCount` | catalog/models.py:46 | replacing a copy that belongs to another book, or to no book, does not change this book's count |
| `Authors.Display` | catalog/models.py:91-92 | the display string is the last name, then ", ", then the first name |
| `Authors.DisplayIsJoin` | catalog/models.py:91-92 | the display string is the two names joined by ", ", last name first |
| `Authors.DisplayRecoversLastName` | catalog/models.py:91-92 | if the last name has no comma, the display string's first ", "-separated field is the last name |
| `Authors.DisplayRoundTrip` | catalog/models.py:91-92 | if neither name has a comma, the display string splits back into exactly [last name, first name] |
| `Authors.StringLess` | catalog/models.py:86 | a proper prefix sorts before the longer string, and a string never sorts before one of its prefixes |
| `Authors.KeyLess` | catalog/models.py:86 | a key whose last name is smaller in code-point order sorts first; with equal last names, the smaller first name sorts first; a key never sorts before itself |
| `Authors.AuthorLess` | catalog/models.py:86 | an author sorts before another only when they differ in last or first name |
| `Authors.Ordered` | catalog/models.py:86 | in an ordered listing no author sorts before the first one, and a listing of at most one author is ordered |
| `Authors.StringLessIrreflexive` | catalog/models.py:86 | no name sorts before itself |
| `Authors.StringLessTransitive` | catalog/models.py:86 | the string order on names is transitive |
| `Authors.StringLessTotal` | catalog/models.py:86 | of two different names, one sorts before the other |
| `Authors.KeyOrderTies` | catalog/models.py:86 | two (last name, first name) keys tie exactly when they are equal |
| `Authors.KeyLessTransitive` | catalog/models.py:86 | the order on keys is transitive |
| `Authors.AuthorOrderTies` | catalog/models.py:86 | two authors tie exactly when they have the same last name and the same first name |
| `Authors.AuthorLessIrreflexive` | catalog/models.py:86 | no author sorts before itself |
| `Authors.AuthorLessTransitive` | catalog/models.py:86 | the order on authors is transitive |
| `Authors.Insert` | catalog/models.py:86 | inserting an author into an ordered listing gives an ordered listing of the old authors plus the new one |
| `Authors.OrderAuthors` | catalog/models.py:85-86 | an author listing is ordered by (last name, first name) and holds exactly the given authors |
| `Authors.OrderedKeysUnique` | catalog/models.py:86 | two ordered sequences of the same keys are equal |
| `Authors.OrderAuthorsCanonical` | catalog/models.py:85-86 | every ordered arrangement of the same authors shows the same names at every position as the listing, so the order is fixed up to authors with identical names |
| `Authors.OrderAuthorsExample` | catalog/models.py:86 | Doe, Jane; Doe, Alan; Ames, Zoe are listed as Ames, Zoe; Doe, Alan; Doe, Jane |
| `Renewal.Message` | catalog/models.py:103-107 | both messages begin "Invalid date - renewal ", followed by "in past" for a past date and "more than 4 weeks ahead" for a date too far ahead |
| `Renewal.MessagesDistinct` | catalog/models.py:102-107 | the two refusal messages differ, so the reasons can be told apart |
| `Renewal.CleanRenewalDate` | catalog/models.py:98-109 | accepts exactly when today <= candidate <= today + 28 and today + 28 is a representable date, and then returns the candidate unchanged. Refuses "in past" exactly when the candidate is before today. Refuses "more than 4 weeks ahead" exactly when the candidate is not in the past and is after today + 28. Overflows exactly when the candidate is not in the past and today + 28 is past 9999-12-31 |
| `Renewal.AcceptsExactlyTheWindow` | catalog/models.py:98-109 | when today + 28 is representable, the past is refused first, then anything after today + 28, and everything else is accepted unchanged |
| `Renewal.FormBoundaryCases` | catalog/tests/test_forms.py:22-44 | yesterday is refused as in the past, today + 29 is refused as too far ahead, and today and today + 28 are accepted |
| `Renewal.RecheckAccepts` | catalog/models.py:98-109 | checking an accepted date again on the same day accepts it again |
| `Renewal.RenewedCopyOverdueAfterDueDate` | catalog/models.py:71-75 | after a renewal date is accepted and stored as the due date, the copy is overdue on a day exactly when that day is after the new due date |
| `Renewal.RenewedCopyNotOverdueToday` | catalog/models.py:73 | a copy whose due date is set to an accepted renewal date is not overdue on the day of the renewal |

## Left out

- Persistence. The model leaves out field declarations, queries, `ON DELETE SET NULL` on the foreign keys, UUID generation and field-length limits (`max_length`). Related records are values: identifiers in `Option`s, and copies and genres in sequences.
- `Language` is a record holding only a name, and no rule reads it. A book's language is an optional identifier.
- The `__str__` of `Genre` and `Book` returns the `name` or `title` field. The model uses that field directly.
- `BookInstance.__str__` formats the title of a book that may be absent. It is formatting only.
- `get_absolute_url` maps an identifier to a URL through the framework's routing, which is not part of this model.
- Translation of the refusal messages (`ugettext_lazy`). Messages are plain strings.
- The clock. `date.today()` is a `today` parameter. `clean_renewal_date` reads the clock twice; if midnight passes between the two reads, the source compares against two different days. The model uses one day for both comparisons.
- `BookInstance` `Meta.ordering` by `due_back`. Where rows without a due date go depends on the database.
- `Meta.permissions`, the admin configuration, and the views (request handling, session counters, templates). The home page's total of available copies sums `count_available` over all books.
- The test suite's label and help-text checks, and its use of a date-time rather than a date in the upper-boundary test.
- Status values outside the four codes. The column is declared `blank=True`, so the database could hold other values. The model's status is always one of the four codes. `FromCode` shows which stored characters name a status.
- Books.DisplayGenre: the genres the summary shows are the first three in the order the store returns them. The model fixes that order as the sequence's order.
- Books.DisplayGenreRecoversNames: the property is stated only for genre names without commas. A name containing ", " makes the joined summary ambiguous.
- Authors.StringLess: follows Python's code-point comparison. The database may sort author listings with its own collation.
- Authors.OrderAuthors: authors with identical names may come in any order in the source. `OrderAuthorsCanonical` fixes everything but that.
