# Library catalog: a Dafny model

This project models the data core of a small desktop book catalog written in
Java (`LibraryGUI.java`). It covers three parts:

- **Book**: a record holding a title and an author.
- **LibraryManager**: an ordered in-memory list of books. It offers a
  case-insensitive duplicate check, append, replace-at-index,
  remove-at-index, a case-insensitive substring search and a getter. Every
  change rewrites the whole list to storage.
- **FileStorage**: the data file. `save` writes one `title,author` line per
  book. `load` reads the file line by line, splits each line on `,` and
  keeps only the lines that give exactly two parts.

The window's validation code is modelled as well. The Add button refuses
empty fields and case-insensitive duplicates. The Search button refuses an
empty keyword. Update and Delete act on the selected row, and Update checks
nothing.

Modules, one per component:

| file | module | models |
|---|---|---|
| `books.dfy` | `Books` | the `Book` value (the abstract `LibraryItem` base and its only subclass collapse into one datatype) |
| `options.dfy` | `Options` | an optional value, the result of decoding one line and of a search the window may refuse |
| `strings.dfy` | `JavaStrings` | `equalsIgnoreCase`, `toLowerCase`, `contains`, `split(",")`, `BufferedReader.readLine` and `println` |
| `codec.dfy` | `LineCodec` | the file format as pure functions: `Encode` (what `save` writes) and `Decode` (what `load` builds) |
| `storage.dfy` | `Storage` | class `FileStorage`. Its field `contents` is the text of the data file; `Load` and `Save` are loops |
| `library.dfy` | `Library` | class `LibraryManager` with its `books: seq<Book>` field, plus the definitions of a search match and of a duplicate |
| `gui.dfy` | `LibraryGui` | `handleAdd`, `handleUpdate`, `handleDelete`, `handleSearch`, and a concrete session |

Main results:

- **Round trip.** `Decode(Encode(books)) == books` when no field contains a
  comma or a line break and every author is non-empty (`RoundTrip`). For
  books without line breaks the condition is exact: the round trip holds
  if and only if every book is storable (`RoundTripExactly`). Both results
  are about the model's file, which keeps every character saved; see the
  character encoding line under "Left out".
- **Which lines `load` keeps.** A line decodes to a book `b` exactly when
  `b` is storable and the line is `b`'s own line followed by zero or more
  commas (`LineDecodesExactly`). The loaded list is the books of the kept
  lines, one for one and in file order (`DecodeLinesAreKeptLines`).
- **What each mutation does.** Every mutating method states the whole new
  list. It also states that the file then holds exactly `Encode(books)`:
  save overwrites the file, it does not append.
- **Duplicates.** The Add guard keeps the catalog free of case-insensitive
  duplicates, and so does delete. An update checks nothing: writing another
  book's pair, in any casing, always creates a duplicate
  (`UpdateCanBreakNoDuplicates`).

What the file format does with unusual records:

- `load` keeps `a,b,` as the book (`a`, `b`) and drops `a,`. Both follow
  from `split(",")`, which removes trailing empty strings.
- A comma in a field is not the only way to lose data on a round trip.
  A book with an empty author is lost (`EmptyAuthorLost`). Commas at the end
  of an author are stripped (`TrailingCommasStripped`). A line break in a
  title splits the record, and the text after the break becomes the title
  of the book read back (`LineBreakSplitsRecord`).

## Model

| member | source | states |
|---|---|---|
| `JavaStrings.Lower` | LibraryGUI.java:104-105 | `toLowerCase` on ASCII: keeps the length, turns each of 'A'..'Z' into the matching letter of 'a'..'z', and leaves every other character unchanged |
| `JavaStrings.EqualsIgnoreCase` | LibraryGUI.java:80-81 | two strings are equal ignoring case if and only if their lower-cased forms are equal; in the model, where both fold ASCII letters only, the duplicate check and the search therefore use one notion of case |
| `JavaStrings.EqualsIgnoreCaseEquivalence` | LibraryGUI.java:80-81 | `equalsIgnoreCase` is reflexive, symmetric and transitive, so "any casing of a pair" is well defined |
| `JavaStrings.Contains` | LibraryGUI.java:104-105 | `contains` is true if and only if the keyword occurs at some position of the text, the empty keyword included |
| `JavaStrings.SplitAll` | LibraryGUI.java:23 | the pieces between separators: at least one piece, and none of them holds the separator |
| `JavaStrings.JoinSplitAll` | LibraryGUI.java:23 | before trailing empty pieces are dropped, splitting loses nothing: joining the pieces with the separator gives the line back |
| `JavaStrings.DropTrailingEmpty` | LibraryGUI.java:23 | the result is a prefix of the pieces, does not end in an empty piece, and everything removed was empty |
| `JavaStrings.Split` | LibraryGUI.java:23 | `split(",")`: a line without a comma gives exactly `[line]`; otherwise the parts are a prefix of all the pieces between commas, everything dropped from the end was empty, the last part is not empty, and no part contains a comma |
| `JavaStrings.SplitTwoFields` | LibraryGUI.java:23-24 | splitting `t,a` with comma-free fields gives `[t, a]` when `a` is non-empty, `[t]` when only `a` is empty, and `[]` when both are empty |
| `JavaStrings.ReadLines` | LibraryGUI.java:20-22 | no line returned by `readLine` contains `\n` or `\r` |
| `JavaStrings.WriteLines` | LibraryGUI.java:33-34 | `println` once per line: no lines write nothing, any line makes the text non-empty and ending in a line break, and the text is at least one character per line |
| `JavaStrings.WriteLinesSnoc` | LibraryGUI.java:34 | each `println` appends its line and a line break to the text written so far |
| `JavaStrings.ReadLinesFirstLine` | LibraryGUI.java:22 | a line without breaks followed by `\n` is read back as that one line, and reading continues after it |
| `JavaStrings.ReadLinesCrLf` | LibraryGUI.java:22 | `\r\n` also ends a line, and reading continues after both characters |
| `JavaStrings.ReadLinesCr` | LibraryGUI.java:22 | a lone `\r`, not followed by `\n`, ends a line too |
| `JavaStrings.ReadLinesUnterminated` | LibraryGUI.java:22 | a last line without a terminator is still read |
| `JavaStrings.ReadLinesWriteLines` | LibraryGUI.java:20-22 | lines without line breaks, written with `println` and read back with `readLine`, come back unchanged |
| `LineCodec.EncodeLine` | LibraryGUI.java:34 | the line written for a storable book splits back into exactly its title and its author; it holds no line break when the fields hold none |
| `LineCodec.DecodeLine` | LibraryGUI.java:23-25 | a kept line always yields a storable book: no comma in either field and a non-empty author |
| `LineCodec.LineRoundTrip` | LibraryGUI.java:23-25 | a book's own line decodes back to the same book if and only if the book is storable |
| `LineCodec.LineDecodesExactly` | LibraryGUI.java:23-25 | a line decodes to `b` if and only if `b` is storable and the line is `b`'s line followed by zero or more commas |
| `LineCodec.Lines` | LibraryGUI.java:33-34 | one line per book, in order: the i-th line is the i-th book's line |
| `LineCodec.Encode` | LibraryGUI.java:31-35 | the text `save` writes, read back line by line, gives exactly the books' lines when no field holds a line break |
| `LineCodec.DecodeLines` | LibraryGUI.java:22-26 | the loop of `load` over the lines read: at most one book per line, and every book built is storable, since a line that does not fit the format never produces one |
| `LineCodec.Decode` | LibraryGUI.java:18-29 | what `load` returns for the file's text: at most one book per line read, each of them storable |
| `LineCodec.DecodeLinesKeptAll` | LibraryGUI.java:22-26 | when no line is dropped, the i-th book comes from the i-th line |
| `LineCodec.KeptPositions` | LibraryGUI.java:22-26 | the positions of the lines `load` keeps, strictly increasing, listing a position exactly when the line there splits into two fields |
| `LineCodec.DecodeLinesAreKeptLines` | LibraryGUI.java:22-26 | the books `load` builds are the books of the kept lines, one for one and in the order of the lines |
| `LineCodec.DecodeLinesOfLines` | LibraryGUI.java:22-26 | storable books turned into lines and decoded give the same list back, in order |
| `LineCodec.RoundTrip` | LibraryGUI.java:18-39 | `load` after `save` returns the saved list when every field is free of commas and line breaks and every author is non-empty |
| `LineCodec.RoundTripExactly` | LibraryGUI.java:18-39 | for books without line breaks, `load` after `save` returns the list if and only if every book is storable |
| `LineCodec.EmptyAuthorLost` | LibraryGUI.java:23-24 | a book with an empty author is dropped on reload |
| `LineCodec.TrailingCommasStripped` | LibraryGUI.java:23-25 | commas at the end of an author are silently removed on reload |
| `LineCodec.CommaFreeLineSkipped` | LibraryGUI.java:22-24 | a line without a comma is skipped and adds no book |
| `LineCodec.LineBreakSplitsRecord` | LibraryGUI.java:22-25 | a title holding a line break reloads as a book whose title is only the text after the break |
| `Storage.FileStorage.Load` | LibraryGUI.java:18-29 | the loop returns `Decode(contents)`: the kept lines of the file as books, in file order |
| `Storage.FileStorage.Save` | LibraryGUI.java:31-39 | afterwards the file holds exactly `Encode(books)`: one `title,author` line per book, replacing the old contents |
| `Library.KeywordMatch` | LibraryGUI.java:104-105 | a book matches if and only if the lower-cased keyword occurs at some position of the lower-cased title or of the lower-cased author |
| `Library.Hits` | LibraryGUI.java:101-109 | the search result: no longer than the catalog, and every book in it matches |
| `Library.HitPositions` | LibraryGUI.java:101-109 | the positions of the matching books, strictly increasing, listing a position exactly when the book there matches |
| `Library.HitsAreMatchesInOrder` | LibraryGUI.java:101-109 | the search result is, element by element, the books at the matching positions: every match once, nothing else, in catalog order |
| `Library.HitsMembership` | LibraryGUI.java:101-109 | a book is in the search result if and only if it is in the catalog and its lower-cased title or author contains the lower-cased keyword |
| `Library.SameEntry` | LibraryGUI.java:80-81 | a book agrees with a title and an author if and only if the lower-cased fields are equal |
| `Library.Listed` | LibraryGUI.java:78-84 | the pair is listed if and only if some book in the catalog agrees with it, ignoring case |
| `Library.AppendedIsListed` | LibraryGUI.java:78-89 | after appending (t, a), the duplicate check holds for every casing of t and a |
| `Library.AppendKeepsNoDuplicates` | LibraryGUI.java:228-239 | on a duplicate-free list, appending keeps it duplicate-free if and only if the pair is not already listed |
| `Library.DeleteKeepsNoDuplicates` | LibraryGUI.java:96-99 | removing a book keeps a duplicate-free list duplicate-free |
| `Library.UpdateCanBreakNoDuplicates` | LibraryGUI.java:91-94 | an update at one position with a casing of another book's pair always leaves two books that agree ignoring case, since `updateBook` checks nothing |
| `Library.LibraryManager.constructor` | LibraryGUI.java:73-76 | the catalog starts as what `load` reads from the given storage |
| `Library.LibraryManager.IsDuplicate` | LibraryGUI.java:78-84 | true if and only if some stored book has the given title and the given author, both ignoring case |
| `Library.LibraryManager.AddBook` | LibraryGUI.java:86-89 | the new list is the old one plus `Book(t, a)` at the end, the file holds the new list, and every casing of (t, a) is now a duplicate |
| `Library.LibraryManager.UpdateBook` | LibraryGUI.java:91-94 | for an index inside the list: that position, and only it, becomes `Book(t, a)`, and the file holds the new list; any other index changes neither the list nor the file |
| `Library.LibraryManager.DeleteBook` | LibraryGUI.java:96-99 | for an index inside the list: the new list is `books[..i] + books[i+1..]` and the file holds it; any other index changes neither the list nor the file |
| `Library.LibraryManager.Search` | LibraryGUI.java:101-109 | the loop returns `Hits(books, keyword)` and leaves the catalog unchanged |
| `Library.LibraryManager.GetBooks` | LibraryGUI.java:111-113 | returns the current list |
| `Library.PersistedReloads` | LibraryGUI.java:86-99 | after any change, reloading the file gives the list back when every book is reloadable |
| `LibraryGui.HandleAdd` | LibraryGUI.java:228-239 | refuses exactly when a field is empty or the pair is a case-insensitive duplicate, then changes nothing; otherwise appends and saves; a duplicate-free catalog stays duplicate-free |
| `LibraryGui.HandleUpdate` | LibraryGUI.java:241-247 | with a selected row, replaces that book and saves, without checking for empty fields or duplicates; otherwise changes nothing |
| `LibraryGui.HandleDelete` | LibraryGUI.java:249-255 | with a selected row, removes that book and saves, keeping a duplicate-free catalog duplicate-free; otherwise changes nothing |
| `LibraryGui.HandleSearch` | LibraryGUI.java:257-263 | refuses exactly an empty keyword; otherwise returns the search result |
| `LibraryGui.DuneVariantIsSame` | LibraryGUI.java:78-84 | ("Dune", "frank herbert") counts as a duplicate of the stored ("Dune", "Frank Herbert") |
| `LibraryGui.DuneSearchFindsIt` | LibraryGUI.java:101-109 | searching for "dune" finds the book stored as "Dune" |

`LibraryGui.DuneSession` is a client method without a contract. Starting
from an empty file, it adds ("Dune", "Frank Herbert"), sees
("Dune", "frank herbert") refused as a duplicate, and finds the book with
the search "dune".

## Left out

- `StorageInterface` (LibraryGUI.java:9-12) is not modelled as an interface. The model has one storage class, just as the source has one implementation, and `LibraryManager` holds that class directly.
- The file name constant (LibraryGUI.java:16) and the file handles. The file is modelled by its text alone, and a missing file reads like an empty one.
- The file's character encoding. `FileWriter` and `FileReader` (LibraryGUI.java:32, :20) use the platform's default charset, and writing replaces a character that charset cannot encode, typically with `?`. The model's file holds the very characters that were saved, so `LineCodec.RoundTrip` and `Library.PersistedReloads` hold for the program only when the default charset can encode every title and author.
- I/O errors. The swallowed `IOException` in `load` (LibraryGUI.java:27) can return a partly read list; the model always reads the whole text. When `save` cannot open the file, `new FileWriter` throws, the handler at LibraryGUI.java:36-37 prints the stack trace, and the file is left unchanged. A write error after opening raises nothing, because `PrintWriter` only records it for `checkError()`, which is never called; the file can then be partly written with no trace. In the model `save` always succeeds.
- The platform line separator. `println` is modelled as writing `\n`. Reading accepts `\n`, `\r` and `\r\n`, as `readLine` does.
- `readLine` reads through a buffer, one line at a time. The model splits the whole text into lines first and then loops over them.
- Unicode case rules. `equalsIgnoreCase` and `toLowerCase` fold ASCII letters only. Locale-dependent lower-casing and case mappings that change a string's length are not modelled. In Java the duplicate check and the search can disagree on case. `equalsIgnoreCase` ignores the locale and compares each character upper-cased and then lower-cased. `toLowerCase()` follows the default locale. So under a Turkish locale `"Ivanhoe".toLowerCase()` is `"ıvanhoe"`, and a search for `ivanhoe` misses a book that the duplicate check matches. In any locale `"ſ"` equals `"s"` ignoring case, yet does not contain it once lower-cased. The model makes the two checks agree only because both use the ASCII fold.
- `split` is modelled for a one-character separator that is not a regular-expression metacharacter, which is the only way the source calls it.
- `GetBooks` returns a value. The source returns the live `ArrayList`, which the window only reads, so aliasing is not modelled.
- Java `int` overflow of indices. Indices are unbounded integers, and any index outside the list is refused.
- The Swing layer: the window's constructor, `createField`, `createButton`, `clearFields`, `refreshList`, `SearchResultWindow`, `main` and the message dialogs (LibraryGUI.java:117-226, 265-297). It is presentation only. The dialogs appear only as the refusal values of `HandleAdd` and `HandleSearch`.
- `Book.display()` and the emoji formatting (LibraryGUI.java:60-62) are cosmetic. The abstract `LibraryItem` (LibraryGUI.java:42-52) has one subclass, so it is merged into `Book`.
- `RoundTripExactly` covers only books without line breaks. With line breaks, the model proves only the examples in `LineBreakSplitsRecord`, not a general "only if".
