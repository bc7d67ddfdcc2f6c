/** The catalog's record type. The abstract LibraryItem class of the source has
    a single concrete kind, Book, so the two collapse into one value type. */
module Books {

  /** One catalog entry; its identity in the catalog is its position only. */
  datatype Book = Book(title: string, author: string)
}
