/**
 * A client of the service, proved from its contracts alone: the integration tests' create-then-fetch,
 * followed by an author-only update, an all-null update, a delete and a repeated delete.
 */
module Scenario {
  import opened Wrappers
  import opened Entities
  import opened Service
  import SaveDto
  import UpdateDto

  method SaveFindUpdateDelete()
  {
    var repository := new BookRepository();
    var service := new BookServiceImpl(repository);

    var listed := service.FindAllBooks();
    assert listed == [];

    var payload := SaveDto.BookSaveDto(Some("Test Book"), Some("Test Author"), Some("Test Genre"));
    var created := service.SaveBook(payload);
    var id := created.id.value;
    assert service.FindBookById(id) == Success(BookDto(Some(id), payload.title, payload.author, payload.genre));

    listed := service.FindAllBooks();
    assert |listed| == 1 && listed[0].id == Some(id);

    var patch := UpdateDto.BookUpdateDto(None, Some("new author"), None);
    var updated := service.UpdateBook(id, patch);
    assert updated == Success(BookDto(Some(id), Some("Test Book"), Some("new author"), Some("Test Genre")));

    var repeated := service.UpdateBook(id, UpdateDto.BookUpdateDto(None, None, None));
    assert repeated == updated;

    var deleted := service.DeleteBook(id);
    assert deleted == Pass;
    assert service.FindBookById(id) == Failure(NotFoundException(NotFoundMessage(id)));

    var again := service.DeleteBook(id);
    assert again == Fail(NotFoundException(NotFoundMessage(id)));
  }
}
