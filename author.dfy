/**
 * Authors: their display string and the `(last_name, first_name)` order every
 * listing of authors follows.
 */
module Authors {

  import opened Wrappers
  import opened Dates
  import opened Collections

  /** No rule relates the two dates: a death before the birth is accepted. */
  datatype Author = Author(
    id: nat,
    firstName: string,
    lastName: string,
    dateOfBirth: Option<Date>,
    dateOfDeath: Option<Date>)

  /** `Author.__str__`: "last, first". */
  function Display(a: Author): (s: string)
    ensures |s| == |a.lastName| + 2 + |a.firstName|
    ensures s[..|a.lastName|] == a.lastName && s[|a.lastName| + 2..] == a.firstName
    ensures s[|a.lastName|..|a.lastName| + 2] == ", "
  {
    a.lastName + ", " + a.firstName
  }

  /** The display string is the two names joined by ", ". */
  lemma DisplayIsJoin(a: Author)
    ensures Display(a) == Join(", ", [a.lastName, a.firstName])
  {
  }

  /** When the last name has no comma, the display string splits back into the last name and what follows. */
  lemma DisplayRecoversLastName(a: Author)
    requires NoComma(a.lastName)
    ensures SplitCommaSpace(Display(a))[0] == a.lastName
  {
    assert Display(a) == a.lastName + (", " + a.firstName);
    SplitAfterWord(a.lastName, ", " + a.firstName);
    assert (", " + a.firstName)[2..] == a.firstName;
  }

  /** When neither name has a comma, the display string splits back into exactly the two names. */
  lemma DisplayRoundTrip(a: Author)
    requires NoComma(a.lastName) && NoComma(a.firstName)
    ensures SplitCommaSpace(Display(a)) == [a.lastName, a.firstName]
  {
    DisplayIsJoin(a);
    SplitJoin([a.lastName, a.firstName]);
  }

  /** Python's `<` on strings: lexicographic by code point, a proper prefix coming first. */
  predicate StringLess(s: string, t: string): (lt: bool)
    ensures s < t ==> lt
    ensures lt ==> !(t <= s)
    decreases |s|
  {
    if |s| == 0 then |t| > 0
    else if |t| == 0 then false
    else if s[0] != t[0] then s[0] < t[0]
    else StringLess(s[1..], t[1..])
  }

  lemma {:induction false} StringLessIrreflexive(s: string)
    ensures !StringLess(s, s)
    decreases |s|
  {
    if |s| > 0 {
      StringLessIrreflexive(s[1..]);
    }
  }

  lemma {:induction false} StringLessTransitive(s: string, t: string, u: string)
    requires StringLess(s, t) && StringLess(t, u)
    ensures StringLess(s, u)
    decreases |s|
  {
    if |s| > 0 && s[0] == t[0] && t[0] == u[0] {
      StringLessTransitive(s[1..], t[1..], u[1..]);
    }
  }

  /** Any two different strings are ordered one way or the other. */
  lemma {:induction false} StringLessTotal(s: string, t: string)
    requires s != t
    ensures StringLess(s, t) || StringLess(t, s)
    decreases |s|
  {
    if |s| > 0 && |t| > 0 && s[0] == t[0] {
      assert s == [s[0]] + s[1..] && t == [t[0]] + t[1..];
      StringLessTotal(s[1..], t[1..]);
    }
  }

  /** The sort key of `Meta.ordering = ['last_name', 'first_name']`. */
  function Key(a: Author): (string, string)
  {
    (a.lastName, a.firstName)
  }

  /** Python's comparison of the key tuples: by last name, then by first name. */
  predicate KeyLess(k: (string, string), l: (string, string)): (lt: bool)
    ensures lt ==> k != l
    ensures StringLess(k.0, l.0) ==> lt
    ensures k.0 == l.0 && StringLess(k.1, l.1) ==> lt
  {
    || StringLess(k.0, l.0)
    || (k.0 == l.0 && StringLess(k.1, l.1))
  }

  /** `a` sorts strictly before `b`. */
  predicate AuthorLess(a: Author, b: Author): (lt: bool)
    ensures lt ==> a.lastName != b.lastName || a.firstName != b.firstName
  {
    KeyLess(Key(a), Key(b))
  }

  /** Two keys tie in the ordering exactly when they are equal. */
  lemma KeyOrderTies(k: (string, string), l: (string, string))
    ensures (!KeyLess(k, l) && !KeyLess(l, k)) <==> k == l
  {
    StringLessIrreflexive(k.0);
    StringLessIrreflexive(k.1);
    if k.0 != l.0 {
      StringLessTotal(k.0, l.0);
    } else if k.1 != l.1 {
      StringLessTotal(k.1, l.1);
    }
  }

  lemma KeyLessTransitive(k: (string, string), l: (string, string), m: (string, string))
    requires KeyLess(k, l) && KeyLess(l, m)
    ensures KeyLess(k, m)
  {
    if StringLess(k.0, l.0) && StringLess(l.0, m.0) {
      StringLessTransitive(k.0, l.0, m.0);
    } else if k.0 == l.0 && l.0 == m.0 {
      StringLessTransitive(k.1, l.1, m.1);
    }
  }

  /** Two authors tie in the ordering exactly when they have the same last and first names. */
  lemma AuthorOrderTies(a: Author, b: Author)
    ensures (!AuthorLess(a, b) && !AuthorLess(b, a)) <==> (a.lastName == b.lastName && a.firstName == b.firstName)
  {
    KeyOrderTies(Key(a), Key(b));
  }

  lemma AuthorLessIrreflexive(a: Author)
    ensures !AuthorLess(a, a)
  {
    KeyOrderTies(Key(a), Key(a));
  }

  lemma AuthorLessTransitive(a: Author, b: Author, c: Author)
    requires AuthorLess(a, b) && AuthorLess(b, c)
    ensures AuthorLess(a, c)
  {
    KeyLessTransitive(Key(a), Key(b), Key(c));
  }

  /** No author of the listing sorts strictly before one that precedes it. */
  predicate Ordered(authors: seq<Author>): (ordered: bool)
    ensures ordered && authors != [] ==> forall x :: x in authors ==> !AuthorLess(x, authors[0])
    ensures |authors| <= 1 ==> ordered
  {
    forall i, j :: 0 <= i < j < |authors| ==> !AuthorLess(authors[j], authors[i])
  }

  /** An author that sorts no later than every author of an ordered listing can head it. */
  lemma ConsOrdered(h: Author, rest: seq<Author>)
    requires Ordered(rest)
    requires forall x :: x in rest ==> !AuthorLess(x, h)
    ensures Ordered([h] + rest)
  {
  }

  /** An author that sorts before the head of an ordered listing sorts before all of it. */
  lemma BeforeHeadBeforeAll(a: Author, sorted: seq<Author>)
    requires Ordered(sorted) && sorted != [] && AuthorLess(a, sorted[0])
    ensures forall x :: x in sorted ==> !AuthorLess(x, a)
  {
    forall x | x in sorted ensures !AuthorLess(x, a) {
      AuthorOrderTies(sorted[0], x);
      if AuthorLess(sorted[0], x) {
        AuthorLessTransitive(a, sorted[0], x);
      }
      if AuthorLess(x, a) {
        AuthorLessTransitive(a, x, a);
        AuthorLessIrreflexive(a);
      }
    }
  }

  /** Inserts `a` into an ordered listing after every author that does not sort after it. */
  function Insert(a: Author, sorted: seq<Author>): (r: seq<Author>)
    requires Ordered(sorted)
    ensures Ordered(r)
    ensures multiset(r) == multiset(sorted) + multiset{a}
  {
    if sorted == [] then [a]
    else if AuthorLess(a, sorted[0]) then
      BeforeHeadBeforeAll(a, sorted);
      ConsOrdered(a, sorted);
      [a] + sorted
    else
      var rest := Insert(a, sorted[1..]);
      assert sorted == [sorted[0]] + sorted[1..];
      assert forall x :: x in rest ==> x == a || x in sorted[1..] by {
        forall x | x in rest ensures x == a || x in sorted[1..] {
          assert x in multiset(rest);
        }
      }
      ConsOrdered(sorted[0], rest);
      [sorted[0]] + rest
  }

  /** An author listing in `Meta.ordering` order: the same authors, last name first, then first name. */
  function OrderAuthors(authors: seq<Author>): (r: seq<Author>)
    ensures Ordered(r)
    ensures multiset(r) == multiset(authors)
  {
    if authors == [] then []
    else
      assert authors == [authors[0]] + authors[1..];
      Insert(authors[0], OrderAuthors(authors[1..]))
  }

  /** The sort keys of a listing, in listing order. */
  function Keys(authors: seq<Author>): (keys: seq<(string, string)>)
    ensures |keys| == |authors|
  {
    MapSeq(Key, authors)
  }

  lemma OrderedKeys(authors: seq<Author>)
    requires Ordered(authors)
    ensures KeysOrdered(Keys(authors))
  {
    forall i, j | 0 <= i < j < |authors| ensures !KeyLess(Keys(authors)[j], Keys(authors)[i]) {
      MapSeqAt(Key, authors, i);
      MapSeqAt(Key, authors, j);
    }
  }

  /** No key of the sequence is strictly below one that precedes it. */
  predicate KeysOrdered(keys: seq<(string, string)>)
  {
    forall i, j :: 0 <= i < j < |keys| ==> !KeyLess(keys[j], keys[i])
  }

  /** The two ordered sequences of the same keys are equal. */
  lemma {:induction false} OrderedKeysUnique(k1: seq<(string, string)>, k2: seq<(string, string)>)
    requires KeysOrdered(k1) && KeysOrdered(k2)
    requires multiset(k1) == multiset(k2)
    ensures k1 == k2
    decreases |k1|
  {
    if k1 == [] {
      assert |multiset(k2)| == 0;
    } else {
      assert |k2| == |multiset(k2)| == |multiset(k1)| == |k1|;
      assert k1[0] in multiset(k2) && k2[0] in multiset(k1);
      var i :| 0 <= i < |k2| && k2[i] == k1[0];
      var j :| 0 <= j < |k1| && k1[j] == k2[0];
      assert !KeyLess(k1[0], k2[0]) by {
        if i > 0 { assert !KeyLess(k2[i], k2[0]); } else { KeyOrderTies(k2[0], k2[0]); }
      }
      assert !KeyLess(k2[0], k1[0]) by {
        if j > 0 { assert !KeyLess(k1[j], k1[0]); } else { KeyOrderTies(k1[0], k1[0]); }
      }
      KeyOrderTies(k1[0], k2[0]);
      assert k1 == [k1[0]] + k1[1..] && k2 == [k2[0]] + k2[1..];
      MultisetTail(k1, k2);
      OrderedKeysUnique(k1[1..], k2[1..]);
    }
  }

  /**
   * The ordering fixes a listing up to ties: any ordered arrangement of the
   * same authors shows the same names at every position as `OrderAuthors`.
   */
  lemma OrderAuthorsCanonical(authors: seq<Author>, listing: seq<Author>)
    requires Ordered(listing) && multiset(listing) == multiset(authors)
    ensures Keys(OrderAuthors(authors)) == Keys(listing)
  {
    var r := OrderAuthors(authors);
    MapMultiset(Key, r, listing);
    OrderedKeys(r);
    OrderedKeys(listing);
    OrderedKeysUnique(Keys(r), Keys(listing));
  }

  /** Inserting an author that does not sort before the head of a listing leaves the head in front. */
  lemma InsertAfterHead(a: Author, sorted: seq<Author>)
    requires Ordered(sorted) && sorted != [] && !AuthorLess(a, sorted[0])
    ensures Insert(a, sorted) == [sorted[0]] + Insert(a, sorted[1..])
  {
  }

  /** In the example, Ames sorts before Doe, and Alan before Jane. */
  lemma ExampleKeys()
    ensures !KeyLess(("Doe", "Alan"), ("Ames", "Zoe"))
    ensures !KeyLess(("Doe", "Jane"), ("Ames", "Zoe"))
    ensures !KeyLess(("Doe", "Jane"), ("Doe", "Alan"))
  {
    assert "Doe"[0] == 'D' && "Ames"[0] == 'A';
    assert "Jane"[0] == 'J' && "Alan"[0] == 'A';
  }

  /** Jane Doe, Alan Doe and Zoe Ames are listed as Ames, Zoe; Doe, Alan; Doe, Jane. */
  lemma OrderAuthorsExample(jane: Author, alan: Author, zoe: Author)
    requires Key(jane) == ("Doe", "Jane") && Key(alan) == ("Doe", "Alan") && Key(zoe) == ("Ames", "Zoe")
    ensures OrderAuthors([jane, alan, zoe]) == [zoe, alan, jane]
  {
    ExampleKeys();
    assert [jane, alan, zoe][1..] == [alan, zoe];
    assert [alan, zoe][1..] == [zoe];
    assert OrderAuthors([zoe]) == [zoe];
    InsertAfterHead(alan, [zoe]);
    assert OrderAuthors([alan, zoe]) == [zoe, alan];
    InsertAfterHead(jane, [zoe, alan]);
    assert [zoe, alan][1..] == [alan];
    InsertAfterHead(jane, [alan]);
    assert [alan][1..] == [];
    assert Insert(jane, []) == [jane];
    assert Insert(jane, [alan]) == [alan, jane];
    assert Insert(jane, [zoe, alan]) == [zoe, alan, jane];
    assert OrderAuthors([jane, alan, zoe]) == Insert(jane, OrderAuthors([alan, zoe]));
  }

}
