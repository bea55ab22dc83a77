/**
 * Bibliographic records (`Book`) with their reference data (`Genre`), and
 * the two attributes a book derives from related records: the genre summary
 * and the number of available copies.
 */
module Books {

  import opened Wrappers
  import opened Collections
  import opened BookInstances

  /** A `Genre` displays as its name: the record is its name here. */
  datatype Genre = Genre(name: string)

  type LanguageId = nat

  type AuthorId = nat

  /**
   * A book. Its genres are the many-to-many relation, in the order the store
   * returns them; its author and language are nullable foreign keys.
   */
  datatype Book = Book(
    id: BookId,
    title: string,
    language: Option<LanguageId>,
    author: Option<AuthorId>,
    summary: string,
    isbn: string,
    genres: seq<Genre>)

  /** How many genres the summary shows. */
  const GenresShown: nat := 3

  /** The names of `genres`, in the same order. */
  function GenreNames(genres: seq<Genre>): (names: seq<string>)
    ensures |names| == |genres|
    ensures forall i :: 0 <= i < |genres| ==> names[i] == genres[i].name
  {
    MapSeqAll((g: Genre) => g.name, genres);
    MapSeq((g: Genre) => g.name, genres)
  }

  /** The genres the summary shows: at most the first three. */
  function ShownGenres(b: Book): (shown: seq<Genre>)
    ensures |shown| == if |b.genres| < GenresShown then |b.genres| else GenresShown
    ensures shown <= b.genres
  {
    if |b.genres| < GenresShown then b.genres else b.genres[..GenresShown]
  }

  /** `display_genre`: the names of the first three genres, joined by ", ". */
  function DisplayGenre(b: Book): (s: string)
    ensures b.genres == [] ==> s == ""
  {
    Join(", ", GenreNames(ShownGenres(b)))
  }

  /** The summary depends on the first three genres only: the fourth and later ones never appear. */
  lemma DisplayGenreIgnoresLaterGenres(b: Book, extra: seq<Genre>)
    requires |b.genres| >= GenresShown
    ensures DisplayGenre(b.(genres := b.genres + extra)) == DisplayGenre(b)
  {
    assert (b.genres + extra)[..GenresShown] == b.genres[..GenresShown];
  }

  /** A book with at most three genres shows all of them. */
  lemma DisplayGenreShowsAllWhenFew(b: Book)
    requires |b.genres| <= GenresShown
    ensures DisplayGenre(b) == Join(", ", GenreNames(b.genres))
  {
    if |b.genres| == GenresShown {
      assert b.genres[..GenresShown] == b.genres;
    }
  }

  /**
   * The summary can be read back into the names it shows, in stored order,
   * provided no genre name contains a comma: exactly min(3, n) names, the
   * first ones of the book.
   */
  lemma DisplayGenreRecoversNames(b: Book)
    requires b.genres != []
    requires forall i :: 0 <= i < |ShownGenres(b)| ==> NoComma(b.genres[i].name)
    ensures var names := SplitCommaSpace(DisplayGenre(b));
      && |names| == (if |b.genres| < GenresShown then |b.genres| else GenresShown)
      && forall i :: 0 <= i < |names| ==> names[i] == b.genres[i].name
  {
    var shown := ShownGenres(b);
    var names := GenreNames(shown);
    SplitJoin(names);
  }

  /** Four genres G1..G4 display as "G1, G2, G3". */
  lemma DisplayGenreOfFour(b: Book, g1: string, g2: string, g3: string, g4: string)
    requires b.genres == [Genre(g1), Genre(g2), Genre(g3), Genre(g4)]
    ensures DisplayGenre(b) == g1 + ", " + g2 + ", " + g3
  {
    var shown := ShownGenres(b);
    assert shown == [Genre(g1), Genre(g2), Genre(g3)];
    assert GenreNames(shown) == [g1, g2, g3];
    assert Join(", ", [g1, g2, g3]) == g1 + ", " + (g2 + ", " + g3);
  }

  /** The copy belongs to the book with identifier `id`. */
  predicate BelongsTo(id: BookId, c: BookInstance)
  {
    c.book == Some(id)
  }

  predicate IsAvailable(c: BookInstance)
  {
    c.status == Available
  }

  /** `bookinstance_set`: the copies whose `book` is this book, in store order. */
  function Copies(b: Book, all: seq<BookInstance>): (copies: seq<BookInstance>)
    ensures forall c :: c in copies <==> c in all && c.book == Some(b.id)
  {
    Filter(c => BelongsTo(b.id, c), all)
  }

  /** Each copy of the book occurs among its copies as often as in the catalog; no other copy occurs. */
  lemma CopiesMultiplicity(b: Book, all: seq<BookInstance>)
    ensures forall c :: multiset(Copies(b, all))[c] == if c.book == Some(b.id) then multiset(all)[c] else 0
  {
    FilterMultiplicity(c => BelongsTo(b.id, c), all);
  }

  /** `count_available`: how many of the book's copies have status 'a'. */
  function CountAvailable(b: Book, all: seq<BookInstance>): (n: nat)
    ensures n <= |Copies(b, all)| <= |all|
  {
    |Filter(IsAvailable, Copies(b, all))|
  }

  /** The count is zero exactly when none of the book's copies is available. */
  lemma CountAvailableZeroIff(b: Book, all: seq<BookInstance>)
    ensures CountAvailable(b, all) == 0 <==> forall c :: c in all && c.book == Some(b.id) ==> c.status != Available
  {
    var avail := Filter(IsAvailable, Copies(b, all));
    if CountAvailable(b, all) != 0 {
      assert avail[0] in avail;
    }
  }

  /** Adding a copy raises the count by one if it is an available copy of this book and leaves it unchanged otherwise. */
  lemma CountAvailableAppend(b: Book, all: seq<BookInstance>, c: BookInstance)
    ensures CountAvailable(b, all + [c])
         == CountAvailable(b, all) + (if c.book == Some(b.id) && c.status == Available then 1 else 0)
  {
    var mine := (x: BookInstance) => BelongsTo(b.id, x);
    FilterConcat(mine, all, [c]);
    FilterSingleton(mine, c);
    FilterConcat(IsAvailable, Copies(b, all), Filter(mine, [c]));
    if BelongsTo(b.id, c) {
      FilterSingleton(IsAvailable, c);
    }
  }

  /** Adding a copy whose status is not 'a' leaves the count unchanged. */
  lemma AddUnavailableKeepsCount(b: Book, all: seq<BookInstance>, c: BookInstance)
    requires c.status != Available
    ensures CountAvailable(b, all + [c]) == CountAvailable(b, all)
  {
    CountAvailableAppend(b, all, c);
  }

  /** Adding a freshly created copy (default status 'm') leaves the count unchanged. */
  lemma AddNewInstanceKeepsCount(b: Book, all: seq<BookInstance>, id: Uuid, book: Option<BookId>, imprint: string)
    ensures CountAvailable(b, all + [NewBookInstance(id, book, imprint)]) == CountAvailable(b, all)
  {
    AddUnavailableKeepsCount(b, all, NewBookInstance(id, book, imprint));
  }

  /**
   * Setting the status of one of the book's copies changes the count by the
   * copy's own contribution: +1 into 'a', -1 out of 'a', 0 otherwise.
   */
  lemma CountAvailableSetStatus(b: Book, all: seq<BookInstance>, i: nat, s: LoanStatus)
    requires i < |all| && all[i].book == Some(b.id)
    ensures CountAvailable(b, all[i := all[i].(status := s)]) + (if all[i].status == Available then 1 else 0)
         == CountAvailable(b, all) + (if s == Available then 1 else 0)
  {
    var mine := (x: BookInstance) => BelongsTo(b.id, x);
    var c, c' := all[i], all[i].(status := s);
    var pre, post := all[..i], all[i + 1..];
    assert all == pre + [c] + post;
    assert all[i := c'] == pre + [c'] + post;
    FilterAround(mine, pre, c, post);
    FilterAround(mine, pre, c', post);
    var mp, mq := Filter(mine, pre), Filter(mine, post);
    FilterAround(IsAvailable, mp, c, mq);
    FilterAround(IsAvailable, mp, c', mq);
  }

  /** Returning a copy that was on loan ('o' to 'a') raises the count by exactly one. */
  lemma ReturnRaisesCountByOne(b: Book, all: seq<BookInstance>, i: nat)
    requires i < |all| && all[i].book == Some(b.id) && all[i].status == OnLoan
    ensures CountAvailable(b, all[i := all[i].(status := Available)]) == CountAvailable(b, all) + 1
  {
    CountAvailableSetStatus(b, all, i, Available);
  }

  /** Lending an available copy ('a' to 'o') lowers the count by exactly one. */
  lemma LendLowersCountByOne(b: Book, all: seq<BookInstance>, i: nat)
    requires i < |all| && all[i].book == Some(b.id) && all[i].status == Available
    ensures CountAvailable(b, all[i := all[i].(status := OnLoan)]) + 1 == CountAvailable(b, all)
  {
    CountAvailableSetStatus(b, all, i, OnLoan);
  }

  /** Changing a copy of another book (or of no book) never changes this book's count. */
  lemma OtherCopiesDoNotCount(b: Book, all: seq<BookInstance>, i: nat, c: BookInstance)
    requires i < |all| && all[i].book != Some(b.id) && c.book != Some(b.id)
    ensures CountAvailable(b, all[i := c]) == CountAvailable(b, all)
  {
    var mine := (x: BookInstance) => BelongsTo(b.id, x);
    var pre, post := all[..i], all[i + 1..];
    assert all == pre + [all[i]] + post;
    assert all[i := c] == pre + [c] + post;
    FilterAround(mine, pre, all[i], post);
    FilterAround(mine, pre, c, post);
  }
}
