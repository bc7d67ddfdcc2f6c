/** FileStorage: the catalog's persistence. The file is modelled by its text,
    `contents`; a file that does not exist reads like an empty one. */
module Storage {
  import opened Books
  import opened Options
  import opened JavaStrings
  import opened LineCodec

  class FileStorage {
    /** The text of the data file. */
    var contents: string

    constructor (initial: string)
      ensures contents == initial
    {
      contents := initial;
    }

    /** load: read the file line by line and keep each line that splits on ','
        into exactly two parts, as a record, in file order. */
    method Load() returns (books: seq<Book>)
      ensures books == Decode(contents)
    {
      var lines := ReadLines(contents);
      books := [];
      var i := 0;
      while i < |lines|
        invariant 0 <= i <= |lines|
        invariant books == DecodeLines(lines[..i])
      {
        assert lines[..i + 1][..i] == lines[..i];
        var parts := Split(lines[i], ',');
        assert DecodeLine(lines[i]) == if |parts| == 2 then Some(Book(parts[0], parts[1])) else None;
        if |parts| == 2 {
          books := books + [Book(parts[0], parts[1])];
        }
        i := i + 1;
      }
      assert lines[..|lines|] == lines;
    }

    /** save: overwrite the whole file with one `title,author` line per record. */
    method Save(books: seq<Book>)
      modifies this
      ensures contents == Encode(books)
    {
      contents := "";
      var i := 0;
      while i < |books|
        invariant 0 <= i <= |books|
        invariant contents == Encode(books[..i])
      {
        assert books[..i + 1][..i] == books[..i];
        WriteLinesSnoc(Lines(books[..i]), EncodeLine(books[i]));
        contents := contents + EncodeLine(books[i]) + "\n";
        i := i + 1;
      }
      assert books[..|books|] == books;
    }
  }
}
