/** The persisted book record and its API view. Every field is a nullable Java reference. */
module Entities {
  import opened Wrappers

  /** The persisted entity: `id` is assigned by the store on insert and never changes afterwards. */
  datatype Book = Book(id: Option<int>, title: Option<string>, author: Option<string>, genre: Option<string>)

  /** BookDto: the view every read and write operation returns. */
  datatype BookDto = BookDto(id: Option<int>, title: Option<string>, author: Option<string>, genre: Option<string>)
}
