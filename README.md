# library-api book catalog, modelled in Dafny

This project models the business-rule core of a small library API: the book
catalog service `BookServiceImpl` (interface `BookService`), the catalog store
`BookRepository` it depends on, and the error payload `ApiErrors` that the HTTP
layer returns. The model follows the Java code. It proves that the service keeps
ISBNs unique on every save and delete, and on an update that keeps the stored
ISBN. It states what every store call does to the stored table.

Modules follow the Java packages:

- `Wrappers`: `Option` stands for `java.util.Optional` and for a nullable id.
  `Result` and `Outcome` stand for a call that may throw.
- `Entity`: `Book(id, title, author, isbn)`. The `id` is `None` until the store assigns one.
- `Exceptions`: `BusinessException`, which carries only its message.
- `Repositories`: the class `CatalogStore` is an in-memory store.
  - Its field `table: map<int, Book>` holds the stored rows by id.
  - Its field `nextId` is the next generated id. Generated ids start at 1, like an identity column.
  - Its ghost field `calls` logs every `save` and `delete`, so "called once" and "never called" can be stated.
  - `findById` and `existsByIsbn` are functions over the table. `save` and `delete` are methods.
  - The module also holds the uniqueness invariant `UniqueIsbns` and the lemmas about it.
- `Services`: the class `BookServiceImpl`. It holds the injected store and implements `save`, `getById`, `delete` and `update`.
  - A thrown `BusinessException` becomes `Failure(BusinessError(...))`.
  - A thrown `IllegalArgumentException` becomes `InvalidArgument`.
- `ApiException`: the class `ApiErrors`.
  - It has one constructor per Java constructor: `FromBindingResult` and `FromBusinessException`.
  - `GetErrors` returns the stored list.
  - `DefaultMessages` is the specification function that the `BindingResult` loop is proved against.
- `Scenarios`: client methods on a fresh store and service, using only the contracts above. Each one replays a unit-test scenario, except `UpdateCanDuplicateIsbn`, which is a counterexample showing that `update` can break ISBN uniqueness.

How the store's `save` works, following Spring Data JPA:

- A book whose id is stored replaces that row.
- Any other book is inserted under the next generated id. This covers a book with no id, and also a book whose id is not stored: JPA's `merge` of a detached entity with an unknown generated id persists a copy under a new id.

How the store's `delete` works:

- It removes the row stored under the book's id.
- A book without an id, or with an id that is not stored, leaves the table unchanged.

Choices the code leaves open:

- `getById` is a stub that always returns empty (`BookServiceImpl.java:28-30`), although `BookServiceTest.java:83-100` expects a lookup. The model keeps the stub. `Scenarios.GetByIdMissesStoredBook` shows that it returns nothing for a book the store does find.
- `BookServiceImpl` does not implement `delete` and `update`. Their contracts come from `BookServiceTest.java:116-176`: reject a book without an id and leave the store untouched, otherwise call the store once.
- `update` passes the whole book to the store's `save`. It neither copies only the title and author nor checks the ISBN again. So `update` keeps the ISBNs unique only when the book keeps its stored ISBN, which is what the HTTP layer's update does (it changes only title and author). An update that gives a stored id another book's ISBN leaves two rows with that ISBN (`Scenarios.UpdateCanDuplicateIsbn`).
- `update` of an id that is not stored goes to the store's `save`, which inserts the book under a fresh id.

## Model

| member | source | states |
|---|---|---|
| `Repositories.CatalogStore.constructor` | src/test/java/br/com/library/model/repositories/BookRepositoryTest.java:44-55 | an empty store: no rows, ids start at 1, no calls logged, and `existsByIsbn` is false for every ISBN |
| `Repositories.CatalogStore.ExistsByIsbn` | src/main/java/br/com/library/model/repositories/BookRepository.java:7 | holds exactly when some stored row carries the ISBN, that is, when the set of ids carrying it is non-empty; it is a read-only query |
| `Repositories.CatalogStore.FindById` | src/main/java/br/com/library/model/repositories/BookRepository.java:6 | finds a book exactly when a row is stored under the id; the book found carries that id; it is a read-only query |
| `Repositories.ExistsByIsbnIffFound` | src/main/java/br/com/library/model/repositories/BookRepository.java:7 | `existsByIsbn(isbn)` holds if and only if `findById` finds, under some id, a book with that ISBN |
| `Repositories.ExistsByIsbnCountsIds` | src/main/java/br/com/library/model/repositories/BookRepository.java:7 | in a catalog with unique ISBNs, `existsByIsbn(isbn)` holds if and only if exactly one stored id carries the ISBN |
| `Repositories.UniqueIsbnsAtMostOne` | src/main/java/br/com/library/services/impl/BookServiceImpl.java:21-23 | the uniqueness invariant gives at most one stored row per ISBN |
| `Repositories.AtMostOneGivesUniqueIsbns` | src/main/java/br/com/library/services/impl/BookServiceImpl.java:21-23 | conversely, at most one row per ISBN gives the uniqueness invariant |
| `Repositories.PutKeepsUniqueIsbns` | src/main/java/br/com/library/services/impl/BookServiceImpl.java:21-24 | writing a row whose ISBN no other row carries keeps the ISBNs unique |
| `Repositories.RemoveKeepsUniqueIsbns` | src/main/java/br/com/library/services/BookService.java:12 | removing a row keeps the ISBNs unique |
| `Repositories.KeyFor` | src/main/java/br/com/library/model/entity/Book.java:23-26 | `save` files a book under its own id when that id is stored, and otherwise under a generated id that no row holds yet |
| `Repositories.CatalogStore.Save` | src/main/java/br/com/library/model/repositories/BookRepository.java:6 | writes the book with its assigned id at that key, advances the id generator on insertion, logs one save call, and returns the stored record; a book whose id is stored is returned unchanged; afterwards `findById` finds it and `existsByIsbn` holds for its ISBN |
| `Repositories.CatalogStore.Delete` | src/main/java/br/com/library/model/repositories/BookRepository.java:6 | removes the row under the book's id (nothing for an id-less book), logs one delete call, and keeps the id generator; afterwards `findById` finds nothing under that id |
| `Services.BookServiceImpl.constructor` | src/main/java/br/com/library/services/impl/BookServiceImpl.java:15-17 | the service holds the store it is given |
| `Services.BookServiceImpl.Save` | src/main/java/br/com/library/services/impl/BookServiceImpl.java:20-25 | fails if and only if the ISBN is already stored; that failure is the business error "ISBN já cadastrado." and leaves the store, its id generator and its call log unchanged; otherwise it returns exactly what the store's `save` stored, with a non-null id and the input's title, author and ISBN, after one save call; every call keeps the ISBNs unique |
| `Services.BookServiceImpl.GetById` | src/main/java/br/com/library/services/impl/BookServiceImpl.java:28-30 | returns empty for every id, stored or not, and reads nothing |
| `Services.BookServiceImpl.Delete` | src/main/java/br/com/library/services/BookService.java:12 | fails if and only if the book has no id; that failure is an invalid argument and leaves the store uncalled and unchanged; otherwise it succeeds after exactly one store `delete` of that book, and the row is gone; ISBNs stay unique |
| `Services.BookServiceImpl.Update` | src/main/java/br/com/library/services/BookService.java:14 | fails if and only if the book has no id; that failure is an invalid argument and leaves the store uncalled and unchanged; otherwise it returns what the store's `save` returned after exactly one save call; a stored id is replaced by the book itself; ISBNs stay unique when the book keeps its stored ISBN |
| `ApiException.DefaultMessages` | src/main/java/br/com/library/api/exception/ApiErrors.java:14-17 | one message per binding error: as many messages as errors, and message i is the default message of error i |
| `ApiException.DefaultMessagesAppend` | src/main/java/br/com/library/api/exception/ApiErrors.java:16 | the messages of two error lists are the first list's messages followed by the second's; with a one-error second list, this is the loop's `add` step |
| `ApiException.ApiErrors.FromBindingResult` | src/main/java/br/com/library/api/exception/ApiErrors.java:14-17 | the list built by appending in a loop is the default messages of all binding errors, in order (the loop keeps the list equal to the messages of the errors seen so far); zero errors give an empty list |
| `ApiException.ApiErrors.FromBusinessException` | src/main/java/br/com/library/api/exception/ApiErrors.java:19-21 | the list is exactly one message, the exception's |
| `ApiException.ApiErrors.GetErrors` | src/main/java/br/com/library/api/exception/ApiErrors.java:23-25 | returns the stored list unchanged |
| `Scenarios.SaveNewBook` | src/test/java/br/com/library/services/BookServiceTest.java:36-58 | saving a new book into an empty catalog returns it with id 1 and its own title, author and ISBN, and `findById(1)` then finds it |
| `Scenarios.DuplicateIsbn` | src/test/java/br/com/library/api/resources/BookControllerTest.java:82-102 | a second book with a stored ISBN is refused with "ISBN já cadastrado.", the store's call log holds only the save of the first book, and the error payload is the one-element list holding that message; the refusal and the single save are the service half of the scenario, at `BookServiceTest.java:64-80` |
| `Scenarios.GetByIdMissesStoredBook` | src/test/java/br/com/library/services/BookServiceTest.java:82-100 | as written, `getById` returns empty for the id under which the store finds the saved book `Book(Some(id), "Teste", "Fulano", "1234")` |
| `Scenarios.MissingId` | src/test/java/br/com/library/services/BookServiceTest.java:129-153 | `delete` and `update` of a book without an id fail with an invalid argument, and the store's call log and table stay empty |
| `Scenarios.DeleteStoredBook` | src/test/java/br/com/library/services/BookServiceTest.java:116-127 | deleting a stored book succeeds, the store's call log is exactly the one save followed by exactly one delete of the stored book, and the book is no longer found |
| `Scenarios.UpdateStoredBook` | src/test/java/br/com/library/services/BookServiceTest.java:155-176 | updating a stored book returns the same id and ISBN with the new title and author, and the store then finds exactly that record |
| `Scenarios.UpdateCanDuplicateIsbn` | src/test/java/br/com/library/services/BookServiceTest.java:155-176 | an update that gives the stored id 2 the ISBN of the book stored under id 1 succeeds, and afterwards both rows carry that ISBN, so the ISBNs are no longer unique |
| `Scenarios.MissingFields` | src/test/java/br/com/library/api/resources/BookControllerTest.java:67-80 | three binding errors for the three missing fields give a payload of three messages, in the order they were reported |

## Left out

- `BookController.java` is not part of this model. It does HTTP routing, `ModelMapper` conversion and paging. Its `find` is not an operation of `BookService`.
- `LoanController.java` and `Loan.java` are not part of this model. The controller only orchestrates. It reads the clock and calls a `getBookByIsbn` that `BookService` does not declare.
- `BusinessException.java` and `BookDTO.java` are not part of this model. The exception is modelled by its message. The validation messages of the DTO's annotations are inputs to `Scenarios.MissingFields`.
- Null text fields: `title`, `author` and `isbn` are strings, so a Java `null` in them is not modelled. Only `id` may be absent.
- Id width: ids are unbounded integers, so the 64-bit range of `Long` and any overflow of the identity column are not modelled.
- Concurrency is not modelled. Two concurrent service saves can pass `existsByIsbn` together before either one writes; the model is single-threaded.
- Services.BookServiceImpl.GetById: does not model the lookup through `findById` that `BookServiceTest.java:83-100` expects, because the code is a stub that always returns empty.
- Services.BookServiceImpl.Delete: the invalid-argument error carries no message, because `BookServiceImpl` does not implement `delete` and no message is defined.
- Services.BookServiceImpl.Update: the invalid-argument error carries no message, for the same reason.
- Object identity and null arguments: `Book` is an immutable value here, while in Java it is a mutable JPA entity. Spring Data's `save` of a new book calls `persist`, which writes the generated id into the caller's own object and returns that object; `BookRepositoryTest.java:62-65` relies on this when it reads `book.getId()` after `persist(book)`. In the model the caller's book keeps `id == None`, and callers read the id from the returned record. A `null` book passed to the service (a `NullPointerException` at `BookServiceImpl.java:21`) is not modelled either.
- Queries are not logged. `existsByIsbn` and `findById` are functions, and the tests only count calls to `save` and `delete`.
- JPA and Spring machinery is not modelled: transactions, the persistence context, Lombok-generated accessors, and Mockito stubbing. In the tests the store is a mock whose `save` can return any record. The model's store returns the record it stored.
