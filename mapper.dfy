/**
 * BookMapper: field copies between the entity and the DTOs. Each function builds a new value,
 * so neither can change its argument.
 */
module Mapper {
  import opened Wrappers
  import opened Entities
  import SaveDto

  function BookToBookDto(book: Book): BookDto {
    BookDto(book.id, book.title, book.author, book.genre)
  }

  /** The new entity has no id until the store assigns one. */
  function BookSaveDtoToBook(dto: SaveDto.BookSaveDto): Book {
    Book(None, dto.title, dto.author, dto.genre)
  }

  /** The view carries the entity's four fields unchanged. */
  lemma BookToBookDtoCopiesFields(book: Book)
    ensures BookToBookDto(book).id == book.id
    ensures BookToBookDto(book).title == book.title
    ensures BookToBookDto(book).author == book.author
    ensures BookToBookDto(book).genre == book.genre
  {
  }

  /** The new entity carries the payload's three fields and no id. */
  lemma BookSaveDtoToBookCopiesFields(dto: SaveDto.BookSaveDto)
    ensures BookSaveDtoToBook(dto).id.None?
    ensures BookSaveDtoToBook(dto).title == dto.title
    ensures BookSaveDtoToBook(dto).author == dto.author
    ensures BookSaveDtoToBook(dto).genre == dto.genre
  {
  }

  /** Mapping a payload to an entity and then to a view keeps the payload's fields and no id. */
  lemma SaveDtoToViewKeepsFields(dto: SaveDto.BookSaveDto)
    ensures BookToBookDto(BookSaveDtoToBook(dto)) == BookDto(None, dto.title, dto.author, dto.genre)
  {
  }

  /** The inverse of BookToBookDto, as a reference for what the view loses (nothing). */
  ghost function BookDtoToBook(view: BookDto): Book {
    Book(view.id, view.title, view.author, view.genre)
  }

  lemma BookToBookDtoRoundTrip(book: Book, view: BookDto)
    ensures BookDtoToBook(BookToBookDto(book)) == book
    ensures BookToBookDto(BookDtoToBook(view)) == view
  {
  }

  /** Two entities have equal views exactly when all four fields agree. */
  lemma BookToBookDtoInjective(a: Book, b: Book)
    ensures BookToBookDto(a) == BookToBookDto(b) <==> a == b
  {
  }
}
