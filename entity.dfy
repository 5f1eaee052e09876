/** The catalog record (br.com.library.model.entity.Book). */
module Entity {
  import opened Wrappers

  /** A book. `id` is `None` until the catalog store assigns one on insertion. */
  datatype Book = Book(id: Option<int>, title: string, author: string, isbn: string)
}
