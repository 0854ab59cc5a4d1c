# book-keeper: a verified model of the book service core

book-keeper is a small CRUD service for book records (id, title, author, genre). This project models
its decision logic in Dafny:

- **The book service** (`BookServiceImpl`) runs over an abstract store. `BookRepository` is a class
  holding a `map<int, Book>`. Its invariant is that every stored record carries its own key as its id.
  Each service operation is a method or read-only function on `BookServiceImpl`:
  - find-all lists every record once;
  - find-by-id returns the view or `NotFound` with the message "Book with id <id> not found";
  - save inserts under an id the store did not use before;
  - update merges the present payload fields into the stored record;
  - delete looks the record up first, so an absent id fails with `NotFound`.
- **The mapper** (`BookMapper`) consists of field-copy functions between the entity, the create
  payload and the view.
- **The validation rules** of the create payload (`BookSaveDto`: `@NotBlank` and `@Size` on every
  field) and of the update payload (`BookUpdateDto`: `@Size` only, every field optional). Each is
  modelled twice: as a validity predicate, and as the set of violation messages the annotations
  produce. A lemma shows the two agree.

Java `null` is `Option.None`. A thrown `NotFoundException` is a `Result.Failure` or an
`Outcome.Fail` value. Strings are `seq<char>`, with one `char` counted as one UTF-16 unit.
`NotBlank` follows the trim-based check of the Hibernate validator: a string is blank when every
character is at or below U+0020.

Files:
- `wrappers.dfy`: `Option`, `Result`, `Outcome`.
- `entities.dfy`: `Book` and `BookDto`.
- `constraints.dfy`: the `@NotBlank` and `@Size` primitives.
- `save_dto.dfy` and `update_dto.dfy`: the two payloads and their rules.
- `mapper.dfy`: `BookMapper`.
- `decimal.dfy`: `Long.toString`, used in the not-found message.
- `service.dfy`: the repository and the service.
- `scenario.dfy`: a client, proved from the contracts alone, that performs the integration tests'
  create-then-fetch, followed by an author-only update, an all-null update, a delete and a repeated
  delete.

## Model

| member | source | states |
|---|---|---|
| Service.BookServiceImpl.FindAllBooks | src/main/java/ru/tokmakov/bookkeeper/service/BookServiceImpl.java:34-44 | one view per stored record, each equal to that record's view, no id twice, every stored id present; an empty store gives an empty list |
| Service.BookRepository.FindAll | src/main/java/ru/tokmakov/bookkeeper/service/BookServiceImpl.java:37 | the store lists each record exactly once (length equals the number of records, distinct ids, full coverage) |
| Service.BooksToBookDtos | src/main/java/ru/tokmakov/bookkeeper/service/BookServiceImpl.java:41-43 | the stream map keeps length and order: element i is the view of record i |
| Service.BookServiceImpl.GetBookById | src/main/java/ru/tokmakov/bookkeeper/service/BookServiceImpl.java:143-146 | succeeds exactly when the id is stored, with the stored record; otherwise NotFound with "Book with id <id> not found" |
| Service.BookServiceImpl.FindBookById | src/main/java/ru/tokmakov/bookkeeper/service/BookServiceImpl.java:55-64 | succeeds exactly when the id is stored; the view's id, title, author, genre equal the stored record's, and its id is the requested one; absent id gives NotFound with the id in its message; reads the store only |
| Service.NotFoundMessageInjective | src/main/java/ru/tokmakov/bookkeeper/service/BookServiceImpl.java:145 | an extra property of the message, not a promise of the source (no code compares or parses it): two not-found messages are equal exactly when their ids are equal |
| Decimal.LongToStringInjective | src/main/java/ru/tokmakov/bookkeeper/service/BookServiceImpl.java:145 | an extra property of the message rendering, not a promise of the source: the decimal rendering of an id is one-to-one |
| Decimal.ParseNatToDecimal | src/main/java/ru/tokmakov/bookkeeper/service/BookServiceImpl.java:145 | an extra property of the message rendering, not a promise of the source: parsing the decimal digits of a number gives the number back |
| Service.UnusedIdExists | src/main/java/ru/tokmakov/bookkeeper/service/BookServiceImpl.java:80 | for any finite set of used ids the store has an unused one to assign |
| Service.BookRepository.Save | src/main/java/ru/tokmakov/bookkeeper/service/BookServiceImpl.java:80 | a record without id is inserted under an id not previously stored; a record with id is written under that id; the store changes only at that key and keeps its invariant |
| Service.BookRepository.DeleteById | src/main/java/ru/tokmakov/bookkeeper/service/BookServiceImpl.java:129 | removes exactly that key and keeps the store invariant |
| Service.BookServiceImpl.constructor | src/main/java/ru/tokmakov/bookkeeper/service/BookServiceImpl.java:23-25 | the service is built around the injected repository |
| Service.BookServiceImpl.SaveBook | src/main/java/ru/tokmakov/bookkeeper/service/BookServiceImpl.java:74-84 | the view has a new id not previously in the store and the payload's title, author, genre; the store gains exactly that entry; a later find on the id returns the same view |
| Service.BookServiceImpl.UpdateBook | src/main/java/ru/tokmakov/bookkeeper/service/BookServiceImpl.java:96-112 | on a stored id the record becomes its merge with the payload and nothing else changes, and a later find returns the result; on an absent id NotFound and the store is unchanged |
| Service.BookServiceImpl.UpdateFields | src/main/java/ru/tokmakov/bookkeeper/service/BookServiceImpl.java:134-141 | the three conditional setters produce exactly the merge of the record with the payload |
| Service.MergedFieldwise | src/main/java/ru/tokmakov/bookkeeper/service/BookServiceImpl.java:134-141 | each present payload field replaces the stored value, each absent one keeps it, the id never changes |
| Service.MergedAllAbsentIsIdentity | src/main/java/ru/tokmakov/bookkeeper/service/BookServiceImpl.java:134-141 | an all-null payload leaves the record identical |
| Service.MergedNeverClears | src/main/java/ru/tokmakov/bookkeeper/service/BookServiceImpl.java:134-141 | a partial update never nulls out a field that was set |
| Service.MergedIdempotent | src/main/java/ru/tokmakov/bookkeeper/service/BookServiceImpl.java:134-141 | applying the same payload twice equals applying it once |
| Service.BookServiceImpl.DeleteBook | src/main/java/ru/tokmakov/bookkeeper/service/BookServiceImpl.java:122-132 | on a stored id removes exactly that key and leaves every other entry; on an absent id fails with NotFound and the store is unchanged; afterwards a find on the id fails |
| Mapper.BookToBookDtoCopiesFields | src/main/java/ru/tokmakov/bookkeeper/dto/BookMapper.java:8-15 | the view carries the entity's id, title, author and genre unchanged |
| Mapper.BookSaveDtoToBookCopiesFields | src/main/java/ru/tokmakov/bookkeeper/dto/BookMapper.java:17-25 | the new entity carries the payload's title, author and genre and has no id |
| Mapper.SaveDtoToViewKeepsFields | src/main/java/ru/tokmakov/bookkeeper/dto/BookMapper.java:8-25 | payload to entity to view gives the payload's three fields and an unset id |
| Mapper.BookToBookDtoRoundTrip | src/main/java/ru/tokmakov/bookkeeper/dto/BookMapper.java:8-15 | entity-to-view has an inverse on both sides: no information is lost |
| Mapper.BookToBookDtoInjective | src/main/java/ru/tokmakov/bookkeeper/dto/BookMapper.java:8-15 | two entities have equal views if and only if all four fields are equal |
| SaveDto.ViolationsEmptyIffValid | src/main/java/ru/tokmakov/bookkeeper/dto/BookSaveDto.java:8-19 | a create payload has no violation message exactly when it is valid |
| SaveDto.FieldRules | src/main/java/ru/tokmakov/bookkeeper/dto/BookSaveDto.java:9-19 | title valid iff present, not blank, length 2..100; author and genre valid iff present, not blank, length 2..50 |
| SaveDto.MissingFieldRejected | src/main/java/ru/tokmakov/bookkeeper/dto/BookSaveDto.java:9-19 | a payload missing any field is invalid, reporting that field's "is mandatory" message |
| SaveDto.BlankInRangeRejected | src/main/java/ru/tokmakov/bookkeeper/dto/BookSaveDto.java:9-19 | a whitespace-only value of in-range length (title 2..100, author and genre 2..50) is rejected, by the blank check alone |
| SaveDto.SamplePayloadValid | src/main/java/ru/tokmakov/bookkeeper/dto/BookSaveDto.java:9-19 | the payload ("title", "author", "genre") is valid |
| UpdateDto.ViolationsEmptyIffValid | src/main/java/ru/tokmakov/bookkeeper/dto/BookUpdateDto.java:8-15 | an update payload has no violation message exactly when it is valid |
| UpdateDto.FieldRules | src/main/java/ru/tokmakov/bookkeeper/dto/BookUpdateDto.java:8-15 | an absent field always passes; a present title needs length 2..100, a present author or genre 2..50 |
| UpdateDto.AllAbsentValid | src/main/java/ru/tokmakov/bookkeeper/dto/BookUpdateDto.java:8-15 | the all-null payload is valid |
| UpdateDto.OneCharAuthorRejected | src/main/java/ru/tokmakov/bookkeeper/dto/BookUpdateDto.java:11-12 | the author "q" is rejected, with the author size message only |
| UpdateDto.BlankInRangeAccepted | src/main/java/ru/tokmakov/bookkeeper/dto/BookUpdateDto.java:8-15 | no blank check: whitespace-only fields of in-range length (title 2..100, author and genre 2..50) pass with no message |
| UpdateDto.SaveValidImpliesUpdateValid | src/main/java/ru/tokmakov/bookkeeper/dto/BookUpdateDto.java:8-15 | every valid create payload, read as an update payload, is valid |
| UpdateDto.UpdateValidDoesNotImplySaveValid | src/main/java/ru/tokmakov/bookkeeper/dto/BookUpdateDto.java:8-15 | the converse fails: a whitespace title passes as an update and fails as a create |

## Left out

- HTTP layer (`BookController`): routing, status codes and the framework-triggered `@Validated` call are not modelled. The controller only delegates to the service. The validation rules are modelled as predicates and are not wired in front of the service.
- Error translation (`GlobalExceptionHandler`) is not modelled: it is framework advice, and its timestamp comes from the clock. It handles only `MethodArgumentNotValidException` and `HttpMessageNotReadableException`. It has no handler for `NotFoundException` or for a non-numeric path id. The tests nevertheless expect structured 404 and 400 bodies for those cases. The model stops at the service's `NotFound` result.
- The `BookService` interface declares `updateBook(Long, BookSaveDto)`. The implementation takes a `BookUpdateDto`, and the model follows the implementation.
- The JPA repository and the `Book` entity are not part of this model; an abstract map replaces them. Insert promises only that the new id was not in use. No sequential ids, ORM or database behaviour is assumed.
- Service.BookRepository.Save: a record that carries an id absent from the store is written under that id. The service never saves such a record, and the JPA merge semantics for that case are not modelled.
- Service.BookRepository.FindAll: the order is whatever the store enumerates. No ordering is promised or modelled.
- Service.BookServiceImpl.UpdateFields: the source mutates the fetched managed entity with setters. The model computes the updated record as a value and writes it back through `Save`. Aliasing between that entity and the persistence context is not captured.
- Ids are unbounded integers: the 64-bit `Long` range is not modelled. A `null` id at the service level is not modelled either, because the controller's path variable is never null.
- String length in the `@Size` rules counts one `char` as one UTF-16 unit, so characters outside the Basic Multilingual Plane count once instead of twice.
- How Spring formats the validation exception's message is not modelled. The model gives the set of violated constraints' messages, without order.
- Transactions, logging, Lombok and dependency injection are infrastructure with no behaviour to verify. Concurrency is not modelled; every operation is one sequential read-modify-write.
- Service.BookServiceImpl.SaveBook: the controller validates the payload (`@Validated`, src/main/java/ru/tokmakov/bookkeeper/controller/BookController.java:67) before it calls the service; the service checks nothing, so SaveBook accepts any payload.
