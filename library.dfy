/** LibraryManager: the in-memory catalog, an ordered list of records that
    every change writes out in full through its storage. */
module Library {
  import opened Books
  import opened JavaStrings
  import opened LineCodec
  import opened Storage

  /** `b` has the given title and the given author, both ignoring case:
      the lower-cased fields are equal. */
  predicate SameEntry(b: Book, title: string, author: string)
    ensures SameEntry(b, title, author) <==>
      Lower(b.title) == Lower(title) && Lower(b.author) == Lower(author)
  {
    EqualsIgnoreCase(b.title, title) && EqualsIgnoreCase(b.author, author)
  }

  /** Some record in `books` has this title and author, ignoring case. */
  ghost predicate Listed(books: seq<Book>, title: string, author: string)
    ensures Listed(books, title, author) <==> exists b :: b in books && SameEntry(b, title, author)
  {
    exists i :: 0 <= i < |books| && SameEntry(books[i], title, author)
  }

  /** No two records agree on both fields, ignoring case. */
  ghost predicate NoDuplicates(books: seq<Book>)
  {
    forall i, j :: 0 <= i < j < |books| ==> !SameEntry(books[j], books[i].title, books[i].author)
  }

  /** The search condition: the lower-cased keyword occurs in the lower-cased
      title or in the lower-cased author. */
  predicate KeywordMatch(b: Book, keyword: string)
    ensures KeywordMatch(b, keyword) <==>
      (exists i :: OccursAt(Lower(b.title), Lower(keyword), i)) ||
      (exists i :: OccursAt(Lower(b.author), Lower(keyword), i))
  {
    Contains(Lower(b.title), Lower(keyword)) || Contains(Lower(b.author), Lower(keyword))
  }

  /** The records of `books` that match `keyword`, in catalog order: no more
      of them than records, and every one of them a match. */
  function Hits(books: seq<Book>, keyword: string): (hits: seq<Book>)
    ensures |hits| <= |books|
    ensures forall j :: 0 <= j < |hits| ==> KeywordMatch(hits[j], keyword)
  {
    if books == [] then []
    else
      var last := books[|books| - 1];
      Hits(books[..|books| - 1], keyword) + if KeywordMatch(last, keyword) then [last] else []
  }

  /** The positions of the matching records, in increasing order; a position
      is listed exactly when the record there matches. */
  ghost function HitPositions(books: seq<Book>, keyword: string): (ps: seq<nat>)
    ensures forall j :: 0 <= j < |ps| ==> ps[j] < |books|
    ensures forall j, k :: 0 <= j < k < |ps| ==> ps[j] < ps[k]
    ensures forall i :: 0 <= i < |books| ==> (i in ps <==> KeywordMatch(books[i], keyword))
  {
    if books == [] then []
    else
      var n := |books| - 1;
      var front := HitPositions(books[..n], keyword);
      assert forall i :: 0 <= i < n ==> books[..n][i] == books[i];
      AppendPosition(front, n, KeywordMatch(books[n], keyword));
      front + if KeywordMatch(books[n], keyword) then [n] else []
  }

  /** The search result is the records at the matching positions, one for one:
      exactly the matching records, each once, in their original order. */
  lemma {:induction false} HitsAreMatchesInOrder(books: seq<Book>, keyword: string)
    ensures |Hits(books, keyword)| == |HitPositions(books, keyword)|
    ensures forall j :: 0 <= j < |Hits(books, keyword)| ==>
      Hits(books, keyword)[j] == books[HitPositions(books, keyword)[j]]
  {
    if books != [] {
      var n := |books| - 1;
      var front := books[..n];
      HitsAreMatchesInOrder(front, keyword);
      var hit := KeywordMatch(books[n], keyword);
      assert Hits(books, keyword) == Hits(front, keyword) + if hit then [books[n]] else [];
      assert HitPositions(books, keyword) == HitPositions(front, keyword) + if hit then [n] else [];
      assert forall i :: 0 <= i < n ==> front[i] == books[i];
    }
  }

  /** A record is in the search result exactly when it is in the catalog and matches. */
  lemma HitsMembership(books: seq<Book>, keyword: string, b: Book)
    ensures b in Hits(books, keyword) <==> b in books && KeywordMatch(b, keyword)
  {
    HitsAreMatchesInOrder(books, keyword);
    var hs, ps := Hits(books, keyword), HitPositions(books, keyword);
    if b in hs {
      var j :| 0 <= j < |hs| && hs[j] == b;
      assert ps[j] in ps;
    }
    if b in books && KeywordMatch(b, keyword) {
      var i :| 0 <= i < |books| && books[i] == b;
      var j :| 0 <= j < |ps| && ps[j] == i;
      assert hs[j] == b;
    }
  }

  /** After appending (title, author), every casing of that pair is listed. */
  lemma AppendedIsListed(books: seq<Book>, title: string, author: string, t: string, a: string)
    requires EqualsIgnoreCase(title, t) && EqualsIgnoreCase(author, a)
    ensures Listed(books + [Book(title, author)], t, a)
  {
    assert SameEntry((books + [Book(title, author)])[|books|], t, a);
  }

  /** Appending keeps a duplicate-free catalog duplicate-free exactly when
      the new pair is not already listed. */
  lemma AppendKeepsNoDuplicates(books: seq<Book>, title: string, author: string)
    requires NoDuplicates(books)
    ensures NoDuplicates(books + [Book(title, author)]) <==> !Listed(books, title, author)
  {
    var bs := books + [Book(title, author)];
    var n := |books|;
    if Listed(books, title, author) {
      var i :| 0 <= i < n && SameEntry(books[i], title, author);
      EqualsIgnoreCaseEquivalence(books[i].title, title, title);
      EqualsIgnoreCaseEquivalence(books[i].author, author, author);
      assert SameEntry(bs[n], bs[i].title, bs[i].author);
    } else {
      forall i, j | 0 <= i < j < |bs| ensures !SameEntry(bs[j], bs[i].title, bs[i].author) {
        if j == n {
          EqualsIgnoreCaseEquivalence(title, books[i].title, books[i].title);
          EqualsIgnoreCaseEquivalence(author, books[i].author, books[i].author);
        }
      }
    }
  }

  /** Removing a record keeps a duplicate-free catalog duplicate-free. */
  lemma DeleteKeepsNoDuplicates(books: seq<Book>, index: nat)
    requires NoDuplicates(books) && index < |books|
    ensures NoDuplicates(books[..index] + books[index + 1..])
  {
    var bs := books[..index] + books[index + 1..];
    forall i, j | 0 <= i < j < |bs| ensures !SameEntry(bs[j], bs[i].title, bs[i].author) {
      var i' := if i < index then i else i + 1;
      var j' := if j < index then j else j + 1;
      assert bs[i] == books[i'] && bs[j] == books[j'];
    }
  }

  /** Replacing a record, which the update path does without any check,
      breaks the no-duplicates property whenever the new pair is, in any
      casing, the pair of another record. */
  lemma UpdateCanBreakNoDuplicates(books: seq<Book>, index: nat, other: nat, title: string, author: string)
    requires index < |books| && other < |books| && index != other
    requires SameEntry(books[other], title, author)
    ensures !NoDuplicates(books[index := Book(title, author)])
  {
    var after := books[index := Book(title, author)];
    var b := books[other];
    if other < index {
      EqualsIgnoreCaseEquivalence(b.title, title, title);
      EqualsIgnoreCaseEquivalence(b.author, author, author);
      assert SameEntry(after[index], after[other].title, after[other].author);
    } else {
      assert SameEntry(after[other], after[index].title, after[index].author);
    }
  }

  /** Result of update and delete: IndexOutOfBoundsException from the list. */
  datatype Outcome = Done | OutOfRange

  class LibraryManager {
    /** The catalog, in insertion order. */
    var books: seq<Book>
    const storage: FileStorage

    /** The file holds exactly the text save writes for the current list. */
    ghost predicate Persisted()
      reads this, storage
    {
      storage.contents == Encode(books)
    }

    /** The catalog starts as whatever load reads from the storage. */
    constructor (storage: FileStorage)
      ensures this.storage == storage
      ensures books == Decode(storage.contents)
    {
      var loaded := storage.Load();
      this.storage := storage;
      books := loaded;
    }

    /** isDuplicate: some record has this title and this author, ignoring case. */
    method IsDuplicate(title: string, author: string) returns (found: bool)
      ensures found <==> Listed(books, title, author)
    {
      for i := 0 to |books|
        invariant forall j :: 0 <= j < i ==> !SameEntry(books[j], title, author)
      {
        if EqualsIgnoreCase(books[i].title, title) && EqualsIgnoreCase(books[i].author, author) {
          return true;
        }
      }
      return false;
    }

    /** addBook: append a new record and save the whole list. */
    method AddBook(title: string, author: string)
      modifies this, storage
      ensures books == old(books) + [Book(title, author)]
      ensures Persisted()
      ensures forall t, a :: EqualsIgnoreCase(title, t) && EqualsIgnoreCase(author, a) ==>
        Listed(books, t, a)
    {
      books := books + [Book(title, author)];
      storage.Save(books);
      forall t, a | EqualsIgnoreCase(title, t) && EqualsIgnoreCase(author, a)
        ensures Listed(books, t, a)
      {
        AppendedIsListed(old(books), title, author, t, a);
      }
    }

    /** updateBook: replace the record at `index` and save; an index outside
        the list throws before anything changes. */
    method UpdateBook(index: int, title: string, author: string) returns (outcome: Outcome)
      modifies this, storage
      ensures outcome == Done <==> 0 <= index < |old(books)|
      ensures outcome == Done ==> books == old(books)[index := Book(title, author)] && Persisted()
      ensures outcome == OutOfRange ==>
        books == old(books) && storage.contents == old(storage.contents)
    {
      if index < 0 || index >= |books| {
        return OutOfRange;
      }
      books := books[index := Book(title, author)];
      storage.Save(books);
      return Done;
    }

    /** deleteBook: remove the record at `index`, later records move down by
        one, and save; an index outside the list throws before anything changes. */
    method DeleteBook(index: int) returns (outcome: Outcome)
      modifies this, storage
      ensures outcome == Done <==> 0 <= index < |old(books)|
      ensures outcome == Done ==>
        books == old(books)[..index] + old(books)[index + 1..] && Persisted()
      ensures outcome == OutOfRange ==>
        books == old(books) && storage.contents == old(storage.contents)
    {
      if index < 0 || index >= |books| {
        return OutOfRange;
      }
      books := books[..index] + books[index + 1..];
      storage.Save(books);
      return Done;
    }

    /** search: a new list of the matching records, in catalog order. */
    method Search(keyword: string) returns (result: seq<Book>)
      ensures result == Hits(books, keyword)
    {
      result := [];
      var key := Lower(keyword);
      for i := 0 to |books|
        invariant result == Hits(books[..i], keyword)
      {
        assert books[..i + 1][..i] == books[..i];
        var b := books[i];
        if Contains(Lower(b.title), key) || Contains(Lower(b.author), key) {
          result := result + [b];
        }
      }
      assert books[..|books|] == books;
    }

    /** getBooks: the current list. */
    method GetBooks() returns (list: seq<Book>)
      ensures list == books
    {
      list := books;
    }
  }

  /** After any change the file reloads to the catalog, when every record is
      reloadable: in the model, a later start sees the same list. */
  lemma PersistedReloads(m: LibraryManager)
    requires m.Persisted()
    requires forall b :: b in m.books ==> Reloadable(b)
    ensures Decode(m.storage.contents) == m.books
  {
    RoundTrip(m.books);
  }
}
