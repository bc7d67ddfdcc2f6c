/** The text format of FileStorage: one `title,author` line per record,
    written by save and parsed back by load. */
module LineCodec {
  import opened JavaStrings
  import opened Books
  import opened Options

  /** The line save writes for one record: it splits back into the two
      fields when the record is storable, and has no line break when the
      fields have none. */
  function EncodeLine(b: Book): (line: string)
    ensures Storable(b) ==> Split(line, ',') == [b.title, b.author]
    ensures NoLineBreak(b.title) && NoLineBreak(b.author) ==> NoLineBreak(line)
  {
    assert Storable(b) ==> Split(b.title + "," + b.author, ',') == [b.title, b.author] by {
      if Storable(b) {
        SplitTwoFields(b.title, ',', b.author);
      }
    }
    b.title + "," + b.author
  }

  /** A record that one line can carry: no comma in either field, and an
      author that is not empty (split drops a trailing empty piece). */
  predicate Storable(b: Book)
  {
    ',' !in b.title && ',' !in b.author && b.author != ""
  }

  /** A record the whole file can carry: storable and without line breaks. */
  predicate Reloadable(b: Book)
  {
    Storable(b) && NoLineBreak(b.title) && NoLineBreak(b.author)
  }

  /** `k` commas. */
  function Commas(k: nat): string
  {
    seq(k, _ => ',')
  }

  /** The body of load's loop for one line: split on ',' and keep the line only
      when that gives exactly two parts. */
  function DecodeLine(line: string): (r: Option<Book>)
    ensures r.Some? ==> Storable(r.value)
  {
    var parts := Split(line, ',');
    if |parts| == 2 then Some(Book(parts[0], parts[1])) else None
  }

  /** One record survives its own line exactly when it is storable. */
  lemma LineRoundTrip(b: Book)
    ensures DecodeLine(EncodeLine(b)) == Some(b) <==> Storable(b)
  {
  }

  /** Joining pieces that end in `k` empty pieces ends in `k` separators. */
  lemma {:induction false} JoinEmptyTail(ps: seq<string>, k: nat, sep: char)
    requires ps != []
    ensures Join(ps + seq(k, _ => ""), sep) == Join(ps, sep) + seq(k, _ => sep)
    decreases |ps|
  {
    if |ps| == 1 {
      if k > 0 {
        var tail := seq(k, _ => "");
        assert (ps + tail)[1..] == seq(k - 1, _ => "") + [""];
        JoinEmptyTailAfterEmpty(k - 1, sep);
        assert [sep] + seq(k - 1, _ => sep) == seq(k, _ => sep);
      }
    } else {
      JoinEmptyTail(ps[1..], k, sep);
      assert (ps + seq(k, _ => ""))[1..] == ps[1..] + seq(k, _ => "");
    }
  }

  /** `k + 1` empty pieces join to `k` separators. */
  lemma {:induction false} JoinEmptyTailAfterEmpty(k: nat, sep: char)
    ensures Join(seq(k, _ => "") + [""], sep) == seq(k, _ => sep)
  {
    if k > 0 {
      var es := seq(k, _ => "") + [""];
      assert es[1..] == seq(k - 1, _ => "") + [""];
      JoinEmptyTailAfterEmpty(k - 1, sep);
      assert [sep] + seq(k - 1, _ => sep) == seq(k, _ => sep);
    } else {
      assert seq(k, _ => "") + [""] == [""];
    }
  }

  /** Splitting a comma-free string followed by `k` commas. */
  lemma {:induction false} SplitAllCommaTail(a: string, k: nat)
    requires ',' !in a
    ensures SplitAll(a + Commas(k), ',') == [a] + seq(k, _ => "")
    decreases k
  {
    if k == 0 {
      assert a + Commas(k) == a;
      SplitAllWithoutSeparator(a, ',');
    } else {
      assert a + Commas(k) == a + [','] + Commas(k - 1);
      SplitAllAtFirstSeparator(a, ',', Commas(k - 1));
      assert Commas(k - 1) == "" + Commas(k - 1);
      SplitAllCommaTail("", k - 1);
      assert [""] + seq(k - 1, _ => "") == seq(k, _ => "");
    }
  }

  /** A kept line is the record's own line followed by commas. */
  lemma DecodedLineShape(line: string, b: Book) returns (k: nat)
    requires DecodeLine(line) == Some(b)
    ensures line == EncodeLine(b) + Commas(k)
  {
    var all := SplitAll(line, ',');
    assert ',' in line;
    assert Split(line, ',') == DropTrailingEmpty(all);
    k := |all| - 2;
    assert all == [b.title, b.author] + seq(k, _ => "");
    JoinSplitAll(line, ',');
    JoinEmptyTail([b.title, b.author], k, ',');
    assert Join([b.title, b.author], ',') == EncodeLine(b);
  }

  /** Dropping trailing empty pieces removes exactly the empty tail. */
  lemma {:induction false} DropEmptyTail(ps: seq<string>, k: nat)
    requires ps == [] || ps[|ps| - 1] != ""
    ensures DropTrailingEmpty(ps + seq(k, _ => "")) == ps
  {
    if k == 0 {
      assert ps + seq(k, _ => "") == ps;
    } else {
      var qs := ps + seq(k, _ => "");
      assert qs[..|qs| - 1] == ps + seq(k - 1, _ => "");
      DropEmptyTail(ps, k - 1);
    }
  }

  /** A storable record's line with commas appended still decodes to it. */
  lemma CommaTailDecodes(b: Book, k: nat)
    requires Storable(b)
    ensures DecodeLine(EncodeLine(b) + Commas(k)) == Some(b)
  {
    var line := EncodeLine(b) + Commas(k);
    SplitAllCommaLine(b, k);
    assert line[|b.title|] == ',';
    DropEmptyTail([b.title, b.author], k);
  }

  /** The pieces of two comma-free fields joined by a comma, with commas
      appended: the two fields, then one empty piece per comma. */
  lemma SplitAllFieldsCommas(t: string, a: string, k: nat)
    requires ',' !in t && ',' !in a
    ensures SplitAll(t + "," + a + Commas(k), ',') == [t, a] + seq(k, _ => "")
  {
    assert t + "," + a + Commas(k) == t + [','] + (a + Commas(k));
    SplitAllAtFirstSeparator(t, ',', a + Commas(k));
    SplitAllCommaTail(a, k);
    var empties: seq<string> := seq(k, _ => "");
    assert [t] + ([a] + empties) == [t, a] + empties;
  }

  /** The pieces of a storable record's line with commas appended: the two
      fields, then one empty piece per comma. */
  lemma SplitAllCommaLine(b: Book, k: nat)
    requires Storable(b)
    ensures SplitAll(EncodeLine(b) + Commas(k), ',') == [b.title, b.author] + seq(k, _ => "")
  {
    assert EncodeLine(b) == b.title + "," + b.author;
    SplitAllFieldsCommas(b.title, b.author, k);
  }

  /** Exactly which lines load keeps, and as what: a line decodes to `b`
      if and only if `b` is storable and the line is `b`'s own line followed
      by any number of commas. */
  lemma LineDecodesExactly(line: string, b: Book)
    ensures DecodeLine(line) == Some(b) <==>
      Storable(b) && exists k: nat :: line == EncodeLine(b) + Commas(k)
  {
    if DecodeLine(line) == Some(b) {
      var k := DecodedLineShape(line, b);
    }
    if Storable(b) && exists k: nat :: line == EncodeLine(b) + Commas(k) {
      var k: nat :| line == EncodeLine(b) + Commas(k);
      CommaTailDecodes(b, k);
    }
  }

  /** The lines save writes, one per record: the i-th line is the i-th
      record's line. */
  function Lines(books: seq<Book>): (lines: seq<string>)
    ensures |lines| == |books|
    ensures forall i :: 0 <= i < |books| ==> lines[i] == EncodeLine(books[i])
  {
    if books == [] then []
    else Lines(books[..|books| - 1]) + [EncodeLine(books[|books| - 1])]
  }

  /** The whole text save writes: read back line by line, it gives the
      records' lines again when no field holds a line break. */
  function Encode(books: seq<Book>): (text: string)
    ensures (forall b :: b in books ==> NoLineBreak(b.title) && NoLineBreak(b.author)) ==>
      ReadLines(text) == Lines(books)
  {
    LinesReadBack(books);
    WriteLines(Lines(books))
  }

  /** The written lines are read back when no field holds a line break. */
  lemma LinesReadBack(books: seq<Book>)
    ensures (forall b :: b in books ==> NoLineBreak(b.title) && NoLineBreak(b.author)) ==>
      ReadLines(WriteLines(Lines(books))) == Lines(books)
  {
    if forall b :: b in books ==> NoLineBreak(b.title) && NoLineBreak(b.author) {
      LinesHaveNoBreaks(books);
      ReadLinesWriteLines(Lines(books));
    }
  }

  /** The records load builds from a list of lines, in order, one per kept
      line; a line that does not fit the format never produces a record, so
      every record built is storable. */
  function DecodeLines(lines: seq<string>): (books: seq<Book>)
    ensures |books| <= |lines|
    ensures forall i :: 0 <= i < |books| ==> Storable(books[i])
  {
    if lines == [] then []
    else
      var front := DecodeLines(lines[..|lines| - 1]);
      match DecodeLine(lines[|lines| - 1])
      case Some(b) => front + [b]
      case None => front
  }

  /** The records load builds from the whole text: at most one per line read,
      each of them storable. */
  function Decode(text: string): (books: seq<Book>)
    ensures |books| <= |ReadLines(text)|
    ensures forall i :: 0 <= i < |books| ==> Storable(books[i])
  {
    DecodeLines(ReadLines(text))
  }

  /** Appending position `n` (or nothing) after positions below `n`. */
  lemma AppendPosition(front: seq<nat>, n: nat, add: bool)
    requires forall j :: 0 <= j < |front| ==> front[j] < n
    requires forall j, k :: 0 <= j < k < |front| ==> front[j] < front[k]
    ensures var ps := front + (if add then [n] else []);
      (forall j :: 0 <= j < |ps| ==> ps[j] <= n) &&
      (forall j, k :: 0 <= j < k < |ps| ==> ps[j] < ps[k])
    ensures forall i :: 0 <= i < n ==>
      (i in front + (if add then [n] else []) <==> i in front)
    ensures n in front + (if add then [n] else []) <==> add
  {
  }

  /** The positions of the lines load keeps, in increasing order; a position
      is listed exactly when the line there decodes to a record. */
  ghost function KeptPositions(lines: seq<string>): (ps: seq<nat>)
    ensures forall j :: 0 <= j < |ps| ==> ps[j] < |lines|
    ensures forall j, k :: 0 <= j < k < |ps| ==> ps[j] < ps[k]
    ensures forall i :: 0 <= i < |lines| ==> (i in ps <==> DecodeLine(lines[i]).Some?)
  {
    if lines == [] then []
    else
      var n := |lines| - 1;
      var front := KeptPositions(lines[..n]);
      assert forall i :: 0 <= i < n ==> lines[..n][i] == lines[i];
      AppendPosition(front, n, DecodeLine(lines[n]).Some?);
      front + if DecodeLine(lines[n]).Some? then [n] else []
  }

  /** The records load builds are the records of the kept lines, one for one
      and in the order of the lines. */
  lemma {:induction false} DecodeLinesAreKeptLines(lines: seq<string>)
    ensures |DecodeLines(lines)| == |KeptPositions(lines)|
    ensures forall j :: 0 <= j < |DecodeLines(lines)| ==>
      DecodeLine(lines[KeptPositions(lines)[j]]) == Some(DecodeLines(lines)[j])
  {
    if lines != [] {
      var n := |lines| - 1;
      var front := lines[..n];
      DecodeLinesAreKeptLines(front);
      var kept := DecodeLine(lines[n]).Some?;
      assert DecodeLines(lines) == DecodeLines(front) + if kept then [DecodeLine(lines[n]).value] else [];
      assert KeptPositions(lines) == KeptPositions(front) + if kept then [n] else [];
      assert forall i :: 0 <= i < n ==> front[i] == lines[i];
    }
  }

  /** When every line is kept, the i-th record comes from the i-th line. */
  lemma {:induction false} DecodeLinesKeptAll(lines: seq<string>)
    requires |DecodeLines(lines)| == |lines|
    ensures forall i :: 0 <= i < |lines| ==> DecodeLine(lines[i]) == Some(DecodeLines(lines)[i])
  {
    if lines != [] {
      var front := lines[..|lines| - 1];
      assert DecodeLine(lines[|lines| - 1]).Some?;
      DecodeLinesKeptAll(front);
      forall i | 0 <= i < |front| ensures lines[i] == front[i] { }
    }
  }

  /** A non-empty sequence is its front followed by its last element. */
  lemma FrontAndLast<T>(s: seq<T>)
    requires s != []
    ensures s[..|s| - 1] + [s[|s| - 1]] == s
  {
  }

  /** A kept last line adds its record at the end. */
  lemma DecodeLinesSnoc(lines: seq<string>, l: string, b: Book)
    requires DecodeLine(l) == Some(b)
    ensures DecodeLines(lines + [l]) == DecodeLines(lines) + [b]
  {
    assert (lines + [l])[..|lines|] == lines;
  }

  /** Storable records survive being turned into lines and decoded again. */
  lemma {:induction false} DecodeLinesOfLines(books: seq<Book>)
    requires forall i :: 0 <= i < |books| ==> Storable(books[i])
    ensures DecodeLines(Lines(books)) == books
  {
    if books != [] {
      DecodeLinesOfLines(books[..|books| - 1]);
      LineRoundTrip(books[|books| - 1]);
      DecodeOneMoreLine(books);
    }
  }

  /** The induction step: one more storable record, one more decoded record. */
  lemma DecodeOneMoreLine(books: seq<Book>)
    requires books != []
    requires DecodeLines(Lines(books[..|books| - 1])) == books[..|books| - 1]
    requires DecodeLine(EncodeLine(books[|books| - 1])) == Some(books[|books| - 1])
    ensures DecodeLines(Lines(books)) == books
  {
    var n := |books|;
    var front, last := books[..n - 1], books[n - 1];
    assert Lines(books) == Lines(front) + [EncodeLine(last)];
    DecodeLinesSnoc(Lines(front), EncodeLine(last), last);
    FrontAndLast(books);
  }

  /** No line save writes for line-break-free records holds a line break. */
  lemma {:induction false} LinesHaveNoBreaks(books: seq<Book>)
    requires forall b :: b in books ==> NoLineBreak(b.title) && NoLineBreak(b.author)
    ensures forall l :: l in Lines(books) ==> NoLineBreak(l)
  {
    if books != [] {
      var n := |books|;
      assert books[n - 1] in books;
      assert forall b :: b in books[..n - 1] ==> b in books;
      LinesHaveNoBreaks(books[..n - 1]);
    }
  }

  /** Saving and loading gives the same records back when all are reloadable. */
  lemma RoundTrip(books: seq<Book>)
    requires forall b :: b in books ==> Reloadable(b)
    ensures Decode(Encode(books)) == books
  {
    RoundTripExactly(books);
  }

  /** For records without line breaks the round trip is exact, and the
      condition is sharp: it holds if and only if every record is storable. */
  lemma RoundTripExactly(books: seq<Book>)
    requires forall b :: b in books ==> NoLineBreak(b.title) && NoLineBreak(b.author)
    ensures Decode(Encode(books)) == books <==> forall b :: b in books ==> Storable(b)
  {
    var lines := Lines(books);
    assert ReadLines(Encode(books)) == lines;
    if forall b :: b in books ==> Storable(b) {
      forall i | 0 <= i < |books| ensures Storable(books[i]) {
        assert books[i] in books;
      }
      DecodeLinesOfLines(books);
    }
    if DecodeLines(lines) == books {
      forall b | b in books ensures Storable(b) {
        var i :| 0 <= i < |books| && books[i] == b;
        assert Storable(DecodeLines(lines)[i]);
      }
    }
  }

  /** A record with an empty author is dropped on reload. */
  lemma EmptyAuthorLost(title: string)
    requires ',' !in title && NoLineBreak(title)
    ensures Decode(Encode([Book(title, "")])) == []
  {
    ReloadOneLine(Book(title, ""));
    SplitTwoFields(title, ',', "");
  }

  /** Commas at the end of an author are silently stripped on reload. */
  lemma TrailingCommasStripped(b: Book, k: nat)
    requires Reloadable(b)
    ensures Decode(Encode([Book(b.title, b.author + Commas(k))])) == [b]
  {
    var saved := Book(b.title, b.author + Commas(k));
    assert NoLineBreak(Commas(k));
    ReloadOneLine(saved);
    assert EncodeLine(saved) == EncodeLine(b) + Commas(k);
    CommaTailDecodes(b, k);
  }

  /** A line break in the title splits the record's line in two: the part
      before the break has no comma and is dropped, the part after it becomes
      the title of the record that is read back. */
  lemma LineBreakSplitsRecord(before: string, after: string, author: string)
    requires NoLineBreak(before) && ',' !in before
    requires Reloadable(Book(after, author))
    ensures Decode(Encode([Book(before + "\n" + after, author)])) == [Book(after, author)]
  {
    EncodeBreakInTitle(before, after, author);
    CommaFreeLineSkipped(before, Encode([Book(after, author)]));
    RoundTrip([Book(after, author)]);
  }

  /** The saved text of a title with a line break in it. */
  lemma EncodeBreakInTitle(before: string, after: string, author: string)
    ensures Encode([Book(before + "\n" + after, author)]) ==
      before + "\n" + Encode([Book(after, author)])
  {
    EncodeOne(Book(after, author));
    EncodeOne(Book(before + "\n" + after, author));
  }

  /** A first line without a comma is read and skipped. */
  lemma CommaFreeLineSkipped(first: string, rest: string)
    requires NoLineBreak(first) && ',' !in first
    ensures Decode(first + "\n" + rest) == Decode(rest)
  {
    ReadLinesFirstLine(first, rest);
    SplitAllWithoutSeparator(first, ',');
    DropFirstLine(first, ReadLines(rest));
  }

  /** Saving one record writes its line and a line break. */
  lemma EncodeOne(b: Book)
    ensures Encode([b]) == EncodeLine(b) + "\n"
  {
    var l := EncodeLine(b);
    assert [b][..0] == [];
    assert Lines([b]) == [l];
    assert [l][1..] == [];
    assert WriteLines([l]) == l + "\n" + WriteLines([]);
    assert l + "\n" + "" == l + "\n";
  }

  /** A first line that does not decode contributes nothing. */
  lemma {:induction false} DropFirstLine(first: string, lines: seq<string>)
    requires DecodeLine(first) == None
    ensures DecodeLines([first] + lines) == DecodeLines(lines)
    decreases |lines|
  {
    if lines == [] {
      assert ([first] + lines)[..0] == [];
    } else {
      var n := |lines|;
      assert ([first] + lines)[..n] == [first] + lines[..n - 1];
      DropFirstLine(first, lines[..n - 1]);
    }
  }

  /** A one-record file reloads to what its single line decodes to. */
  lemma ReloadOneLine(b: Book)
    requires NoLineBreak(b.title) && NoLineBreak(b.author)
    ensures Decode(Encode([b])) == match DecodeLine(EncodeLine(b)) case Some(r) => [r] case None => []
  {
    EncodeOne(b);
  }
}
