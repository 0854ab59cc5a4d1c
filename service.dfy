/**
 * BookServiceImpl over an abstract store. The store (BookRepository) is a class holding a map from
 * id to record; the only thing assumed of its id generator is that a new id is not already in use.
 */
module Service {
  import opened Wrappers
  import opened Entities
  import opened Mapper
  import SaveDto
  import UpdateDto
  import Decimal

  /** NotFoundException, carrying its message. */
  datatype NotFoundException = NotFoundException(message: string)

  /** The message getBookById throws with: "Book with id <id> not found". */
  function NotFoundMessage(bookId: int): string {
    "Book with id " + Decimal.LongToString(bookId) + " not found"
  }

  /** The message names the id: different ids give different messages. */
  lemma NotFoundMessageInjective(a: int, b: int)
    ensures NotFoundMessage(a) == NotFoundMessage(b) <==> a == b
  {
    var prefix, suffix := "Book with id ", " not found";
    if NotFoundMessage(a) == NotFoundMessage(b) {
      var ma, mb := NotFoundMessage(a), NotFoundMessage(b);
      var sa, sb := Decimal.LongToString(a), Decimal.LongToString(b);
      assert ma == prefix + sa + suffix && mb == prefix + sb + suffix;
      assert |sa| == |sb|;
      assert ma[|prefix|..|ma| - |suffix|] == sa;
      assert mb[|prefix|..|mb| - |suffix|] == sb;
      Decimal.LongToStringInjective(a, b);
    }
  }

  /** Chooses some element of a non-empty set, in proofs (the id the inductive proof below removes). */
  lemma Member<T>(s: set<T>) returns (x: T)
    requires |s| != 0
    ensures x in s
  {
    x :| x in s;
  }

  /** Chooses some element of a non-empty set at run time: the next record a store enumeration yields. */
  method Pick<T>(s: set<T>) returns (x: T)
    requires |s| != 0
    ensures x in s
  {
    x :| x in s;
  }

  /** The store can always find an id it does not use yet. */
  lemma {:induction false} UnusedIdExists(ids: set<int>) returns (unused: int)
    ensures unused !in ids
    ensures forall id :: id in ids ==> id < unused
    decreases ids
  {
    if |ids| == 0 {
      unused := 0;
    } else {
      var some := Member(ids);
      var rest := UnusedIdExists(ids - {some});
      unused := if some < rest then rest else some + 1;
      forall id | id in ids ensures id < unused {
        if id != some {
          assert id in ids - {some};
        }
      }
    }
  }

  /** A present payload value replaces the stored one; an absent (null) one keeps it. */
  function Override(stored: Option<string>, given: Option<string>): Option<string> {
    if given.Some? then given else stored
  }

  /** The record updateFields leaves behind: the id is kept, each present field overwritten. */
  function Merged(book: Book, patch: UpdateDto.BookUpdateDto): Book {
    Book(book.id, Override(book.title, patch.title), Override(book.author, patch.author), Override(book.genre, patch.genre))
  }

  /** Each present payload field replaces the stored value, each absent one keeps it; the id never changes. */
  lemma MergedFieldwise(book: Book, patch: UpdateDto.BookUpdateDto)
    ensures Merged(book, patch).id == book.id
    ensures Merged(book, patch).title == if patch.title.Some? then patch.title else book.title
    ensures Merged(book, patch).author == if patch.author.Some? then patch.author else book.author
    ensures Merged(book, patch).genre == if patch.genre.Some? then patch.genre else book.genre
  {
  }

  /** The empty payload leaves the record identical. */
  lemma MergedAllAbsentIsIdentity(book: Book)
    ensures Merged(book, UpdateDto.BookUpdateDto(None, None, None)) == book
  {
  }

  /** A partial update never nulls out a field. */
  lemma MergedNeverClears(book: Book, patch: UpdateDto.BookUpdateDto)
    ensures book.title.Some? ==> Merged(book, patch).title.Some?
    ensures book.author.Some? ==> Merged(book, patch).author.Some?
    ensures book.genre.Some? ==> Merged(book, patch).genre.Some?
  {
  }

  /** Applying the same payload twice is the same as applying it once. */
  lemma MergedIdempotent(book: Book, patch: UpdateDto.BookUpdateDto)
    ensures Merged(Merged(book, patch), patch) == Merged(book, patch)
  {
  }

  /** The views of a list of records, in order (the stream `map` of findAllBooks). */
  function BooksToBookDtos(books: seq<Book>): (views: seq<BookDto>)
    ensures |views| == |books|
    ensures forall i :: 0 <= i < |books| ==> views[i] == BookToBookDto(books[i])
  {
    if books == [] then [] else [BookToBookDto(books[0])] + BooksToBookDtos(books[1..])
  }

  /** The store behind the service (a JPA repository), reduced to a map from id to record. */
  class BookRepository {
    var books: map<int, Book>

    /** Every stored record carries its own key as its id. */
    ghost predicate Valid()
      reads this
    {
      forall id :: id in books ==> books[id].id == Some(id)
    }

    constructor ()
      ensures Valid() && books == map[]
    {
      books := map[];
    }

    function FindById(id: int): Option<Book>
      reads this
    {
      if id in books then Some(books[id]) else None
    }

    /** Every stored record, once each, in an order the store chooses. */
    method FindAll() returns (all: seq<Book>)
      requires Valid()
      ensures |all| == |books|
      ensures forall i :: 0 <= i < |all| ==> all[i].id.Some? && all[i].id.value in books && books[all[i].id.value] == all[i]
      ensures forall i, j :: 0 <= i < j < |all| ==> all[i].id != all[j].id
      ensures forall id :: id in books ==> exists i :: 0 <= i < |all| && all[i].id == Some(id)
    {
      all := [];
      var remaining := books.Keys;
      while |remaining| > 0
        invariant remaining <= books.Keys
        invariant |all| + |remaining| == |books.Keys|
        invariant forall i :: 0 <= i < |all| ==> all[i].id.Some? && all[i].id.value in books.Keys - remaining && books[all[i].id.value] == all[i]
        invariant forall i, j :: 0 <= i < j < |all| ==> all[i].id != all[j].id
        invariant forall id :: id in books.Keys - remaining ==> exists i :: 0 <= i < |all| && all[i].id == Some(id)
        decreases |remaining|
      {
        var id := Pick(remaining);
        ghost var before := all;
        all := all + [books[id]];
        remaining := remaining - {id};
        forall listed | listed in books.Keys - remaining
          ensures exists i :: 0 <= i < |all| && all[i].id == Some(listed)
        {
          if listed == id {
            assert all[|before|].id == Some(listed);
          } else {
            var i :| 0 <= i < |before| && before[i].id == Some(listed);
            assert all[i] == before[i];
          }
        }
      }
    }

    /** A record without an id is inserted under an unused id; one with an id is written under it. */
    method Save(book: Book) returns (saved: Book)
      requires Valid()
      modifies this
      ensures Valid()
      ensures saved.id.Some?
      ensures book.id.None? ==> saved.id.value !in old(books) && saved == book.(id := saved.id)
      ensures book.id.Some? ==> saved == book
      ensures books == old(books)[saved.id.value := saved]
    {
      var id: int;
      if book.id.None? {
        ghost var unused := UnusedIdExists(books.Keys);
        id :| id !in books;
      } else {
        id := book.id.value;
      }
      saved := book.(id := Some(id));
      books := books[id := saved];
    }

    method DeleteById(id: int)
      requires Valid()
      modifies this
      ensures Valid()
      ensures books == old(books) - {id}
    {
      books := books - {id};
    }
  }

  class BookServiceImpl {
    const bookRepository: BookRepository

    ghost predicate Valid()
      reads bookRepository
    {
      bookRepository.Valid()
    }

    constructor (bookRepository: BookRepository)
      ensures this.bookRepository == bookRepository
    {
      this.bookRepository := bookRepository;
    }

    /** One view per stored record, each equal to that record's view, and no record twice. */
    method FindAllBooks() returns (views: seq<BookDto>)
      requires Valid()
      ensures |views| == |bookRepository.books|
      ensures bookRepository.books == map[] ==> views == []
      ensures forall i :: 0 <= i < |views| ==>
        views[i].id.Some? && views[i].id.value in bookRepository.books
        && views[i] == BookToBookDto(bookRepository.books[views[i].id.value])
      ensures forall i, j :: 0 <= i < j < |views| ==> views[i].id != views[j].id
      ensures forall id :: id in bookRepository.books ==> exists i :: 0 <= i < |views| && views[i].id == Some(id)
    {
      var books := bookRepository.FindAll();
      views := BooksToBookDtos(books);
    }

    /** The stored record, or NotFound with the id in its message. */
    function GetBookById(bookId: int): (r: Result<Book, NotFoundException>)
      reads bookRepository
      ensures r.Success? <==> bookId in bookRepository.books
      ensures r.Success? ==> r.value == bookRepository.books[bookId]
      ensures r.Failure? ==> r.error.message == NotFoundMessage(bookId)
    {
      match bookRepository.FindById(bookId)
      case Some(book) => Success(book)
      case None => Failure(NotFoundException(NotFoundMessage(bookId)))
    }

    /** The view of the record stored under the id, or NotFound when there is none. */
    function FindBookById(bookId: int): (r: Result<BookDto, NotFoundException>)
      reads bookRepository
      ensures r.Success? <==> bookId in bookRepository.books
      ensures r.Success? ==>
        var stored := bookRepository.books[bookId];
        r.value.id == stored.id && r.value.title == stored.title
        && r.value.author == stored.author && r.value.genre == stored.genre
      ensures r.Success? && bookRepository.Valid() ==> r.value.id == Some(bookId)
      ensures r.Failure? ==> r.error == NotFoundException("Book with id " + Decimal.LongToString(bookId) + " not found")
    {
      match GetBookById(bookId)
      case Success(book) => Success(BookToBookDto(book))
      case Failure(e) => Failure(e)
    }

    /** Stores the payload under a new id and returns its view; nothing else in the store changes. */
    method SaveBook(bookSaveDto: SaveDto.BookSaveDto) returns (view: BookDto)
      requires Valid()
      modifies bookRepository
      ensures Valid()
      ensures view.id.Some? && view.id.value !in old(bookRepository.books)
      ensures view.title == bookSaveDto.title && view.author == bookSaveDto.author && view.genre == bookSaveDto.genre
      ensures bookRepository.books ==
        old(bookRepository.books)[view.id.value := Book(view.id, bookSaveDto.title, bookSaveDto.author, bookSaveDto.genre)]
      ensures FindBookById(view.id.value) == Success(view)
    {
      var book := BookSaveDtoToBook(bookSaveDto);
      var saved := bookRepository.Save(book);
      view := BookToBookDto(saved);
    }

    /** Merges the payload into the stored record, or fails with NotFound and changes nothing. */
    method UpdateBook(bookId: int, bookUpdateDto: UpdateDto.BookUpdateDto) returns (r: Result<BookDto, NotFoundException>)
      requires Valid()
      modifies bookRepository
      ensures Valid()
      ensures bookId !in old(bookRepository.books) ==>
        r == Failure(NotFoundException(NotFoundMessage(bookId))) && bookRepository.books == old(bookRepository.books)
      ensures bookId in old(bookRepository.books) ==>
        var updated := Merged(old(bookRepository.books)[bookId], bookUpdateDto);
        r == Success(BookToBookDto(updated)) && bookRepository.books == old(bookRepository.books)[bookId := updated]
      ensures r.Success? ==> FindBookById(bookId) == r
    {
      var found := GetBookById(bookId);
      if found.Failure? {
        return Failure(found.error);
      }
      var bookToUpdate := UpdateFields(found.value, bookUpdateDto);
      var updatedBook := bookRepository.Save(bookToUpdate);
      r := Success(BookToBookDto(updatedBook));
    }

    /** Removes the stored record, or fails with NotFound when there is none; nothing else changes. */
    method DeleteBook(id: int) returns (r: Outcome<NotFoundException>)
      requires Valid()
      modifies bookRepository
      ensures Valid()
      ensures id !in old(bookRepository.books) ==>
        r == Fail(NotFoundException(NotFoundMessage(id))) && bookRepository.books == old(bookRepository.books)
      ensures id in old(bookRepository.books) ==> r == Pass && bookRepository.books == old(bookRepository.books) - {id}
      ensures FindBookById(id).Failure?
    {
      var found := GetBookById(id);
      if found.Failure? {
        return Fail(found.error);
      }
      bookRepository.DeleteById(found.value.id.value);
      r := Pass;
    }

    /** Overwrites each field the payload carries, one setter at a time. */
    static method UpdateFields(bookToUpdate: Book, newBook: UpdateDto.BookUpdateDto) returns (updated: Book)
      ensures updated == Merged(bookToUpdate, newBook)
    {
      updated := bookToUpdate;
      if newBook.title.Some? {
        updated := updated.(title := newBook.title);
      }
      if newBook.author.Some? {
        updated := updated.(author := newBook.author);
      }
      if newBook.genre.Some? {
        updated := updated.(genre := newBook.genre);
      }
    }
  }
}
