/** The validation the window performs around the catalog: the add button's
    guard, the search button's empty-keyword check, and the update and delete
    buttons, which act on the selected row (-1 when nothing is selected).
    Widgets and dialogs are not modelled. */
module LibraryGui {
  import opened Books
  import opened Options
  import opened JavaStrings
  import opened LineCodec
  import opened Storage
  import opened Library

  /** What pressing Add did; the two refusals correspond to the two dialogs. */
  datatype AddResult = Added | EmptyField | DuplicateBook

  /** handleAdd: refuse an empty title or author, refuse a case-insensitive
      duplicate, otherwise add. A duplicate-free catalog stays duplicate-free. */
  method HandleAdd(m: LibraryManager, title: string, author: string) returns (r: AddResult)
    modifies m, m.storage
    ensures r == EmptyField <==> title == "" || author == ""
    ensures r == DuplicateBook <==>
      title != "" && author != "" && Listed(old(m.books), title, author)
    ensures r == Added ==> m.books == old(m.books) + [Book(title, author)] && m.Persisted()
    ensures r != Added ==>
      m.books == old(m.books) && m.storage.contents == old(m.storage.contents)
    ensures NoDuplicates(old(m.books)) ==> NoDuplicates(m.books)
  {
    if title == "" || author == "" {
      return EmptyField;
    }
    var dup := m.IsDuplicate(title, author);
    if dup {
      return DuplicateBook;
    }
    ghost var before := m.books;
    m.AddBook(title, author);
    if NoDuplicates(before) {
      AppendKeepsNoDuplicates(before, title, author);
    }
    return Added;
  }

  /** handleUpdate: with a row selected, replace that record; no check for
      empty fields or duplicates. */
  method HandleUpdate(m: LibraryManager, selected: int, title: string, author: string)
    modifies m, m.storage
    ensures 0 <= selected < |old(m.books)| ==>
      m.books == old(m.books)[selected := Book(title, author)] && m.Persisted()
    ensures !(0 <= selected < |old(m.books)|) ==>
      m.books == old(m.books) && m.storage.contents == old(m.storage.contents)
  {
    if selected != -1 {
      var _ := m.UpdateBook(selected, title, author);
    }
  }

  /** handleDelete: with a row selected, remove that record. */
  method HandleDelete(m: LibraryManager, selected: int)
    modifies m, m.storage
    ensures 0 <= selected < |old(m.books)| ==>
      m.books == old(m.books)[..selected] + old(m.books)[selected + 1..] && m.Persisted()
    ensures !(0 <= selected < |old(m.books)|) ==>
      m.books == old(m.books) && m.storage.contents == old(m.storage.contents)
    ensures NoDuplicates(old(m.books)) ==> NoDuplicates(m.books)
  {
    if selected != -1 {
      ghost var before := m.books;
      var outcome := m.DeleteBook(selected);
      if outcome == Done && NoDuplicates(before) {
        DeleteKeepsNoDuplicates(before, selected);
      }
    }
  }

  /** handleSearch: refuse an empty keyword, otherwise search; the catalog is
      not changed either way. */
  method HandleSearch(m: LibraryManager, keyword: string) returns (r: Option<seq<Book>>)
    ensures r == None <==> keyword == ""
    ensures r.Some? ==> r.value == Hits(m.books, keyword)
  {
    if keyword == "" {
      return None;
    }
    var found := m.Search(keyword);
    return Some(found);
  }

  /** "frank herbert" is a casing of "Frank Herbert". */
  lemma DuneVariantIsSame()
    ensures SameEntry(Book("Dune", "Frank Herbert"), "Dune", "frank herbert")
  {
    assert FoldChar('F') == 'f' && FoldChar('H') == 'h' && FoldChar('D') == 'd';
  }

  /** A lower-case keyword finds the record stored with capitals. */
  lemma DuneSearchFindsIt()
    ensures Hits([Book("Dune", "Frank Herbert")], "dune") == [Book("Dune", "Frank Herbert")]
  {
    assert Lower("Dune") == "dune" && Lower("dune") == "dune";
    assert KeywordMatch(Book("Dune", "Frank Herbert"), "dune");
    assert [Book("Dune", "Frank Herbert")][..0] == [];
  }

  /** A session from an empty file: the second add differs only in case and is
      refused, and a lower-case search finds the stored record. */
  method DuneSession()
  {
    var file := new FileStorage("");
    assert Decode("") == [] by {
      assert ReadLines("") == [];
    }
    var m := new LibraryManager(file);
    assert m.books == [];
    var first := HandleAdd(m, "Dune", "Frank Herbert");
    assert first == Added;
    var dune := Book("Dune", "Frank Herbert");
    assert m.books == [dune];
    DuneVariantIsSame();
    assert Listed(m.books, "Dune", "frank herbert") by {
      assert SameEntry(m.books[0], "Dune", "frank herbert");
    }
    var second := HandleAdd(m, "Dune", "frank herbert");
    assert second == DuplicateBook;
    var found := m.Search("dune");
    DuneSearchFindsIt();
    assert found == [dune];
  }
}
