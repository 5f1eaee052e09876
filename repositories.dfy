/**
 * An in-memory stand-in for the catalog store `BookRepository`: a Spring Data
 * JPA repository of books keyed by a generated id, with the derived query
 * `existsByIsbn` and the inherited `findById`, `save` and `delete`.
 */
module Repositories {
  import opened Wrappers
  import opened Entity

  /** The stored rows, by id. */
  type Table = map<int, Book>

  /** Every row is stored under its own id, and every id is below the next one to be generated. */
  ghost predicate WellKeyed(table: Table, nextId: int) {
    forall id :: id in table ==> table[id].id == Some(id) && id < nextId
  }

  /** The catalog invariant: no two stored books share an ISBN. */
  ghost predicate UniqueIsbns(table: Table) {
    forall i, j :: i in table && j in table && table[i].isbn == table[j].isbn ==> i == j
  }

  /** The ids of the rows that carry `isbn`. */
  ghost function IdsWithIsbn(table: Table, isbn: string): set<int> {
    set id | id in table && table[id].isbn == isbn
  }

  /** Uniqueness means: for every ISBN, at most one stored row carries it. */
  lemma UniqueIsbnsAtMostOne(table: Table, isbn: string)
    requires UniqueIsbns(table)
    ensures |IdsWithIsbn(table, isbn)| <= 1
  {
    var ids := IdsWithIsbn(table, isbn);
    if x :| x in table && table[x].isbn == isbn {
      assert forall y :: y in ids <==> y in {x};
      assert ids == {x};
    } else {
      assert forall y :: y in ids <==> y in {};
      assert ids == {};
    }
  }

  /** The converse: at most one row per ISBN gives uniqueness. */
  lemma AtMostOneGivesUniqueIsbns(table: Table)
    requires forall isbn :: |IdsWithIsbn(table, isbn)| <= 1
    ensures UniqueIsbns(table)
  {
    forall i, j | i in table && j in table && table[i].isbn == table[j].isbn
      ensures i == j
    {
      var ids := IdsWithIsbn(table, table[i].isbn);
      assert i in ids && j in ids;
      if i != j {
        assert {i, j} <= ids;
        assert |{i, j}| == 2;
        SubsetCardinality({i, j}, ids);
      }
    }
  }

  lemma SubsetCardinality(a: set<int>, b: set<int>)
    requires a <= b
    ensures |a| <= |b|
  {
    assert b == a + (b - a);
  }

  /** Writing a row whose ISBN no other row carries keeps the ISBNs unique. */
  lemma PutKeepsUniqueIsbns(table: Table, key: int, book: Book)
    requires UniqueIsbns(table)
    requires forall id :: id in table && id != key ==> table[id].isbn != book.isbn
    ensures UniqueIsbns(table[key := book])
  {
  }

  /** Removing a row keeps the ISBNs unique. */
  lemma RemoveKeepsUniqueIsbns(table: Table, key: int)
    requires UniqueIsbns(table)
    ensures UniqueIsbns(table - {key})
  {
  }

  /**
   * The id under which `save` files `book`: the book's own id when a row is
   * stored under it (the row is replaced), otherwise the next generated id
   * (a new row is inserted; JPA's merge of an entity whose id is not stored persists a copy
   * under a newly generated id).
   */
  function KeyFor(table: Table, nextId: int, book: Book): (key: int)
    requires WellKeyed(table, nextId)
    ensures book.id.Some? && book.id.value in table ==> key == book.id.value
    ensures !(book.id.Some? && book.id.value in table) ==> key !in table && key == nextId
  {
    if book.id.Some? && book.id.value in table then book.id.value else nextId
  }

  /** Some row carries `isbn` exactly when the set of ids carrying it is non-empty. */
  lemma IsbnTakenIffIds(table: Table, isbn: string)
    ensures (exists id :: id in table && table[id].isbn == isbn) <==> IdsWithIsbn(table, isbn) != {}
  {
    var ids := IdsWithIsbn(table, isbn);
    if x :| x in table && table[x].isbn == isbn {
      assert x in ids;
    } else {
      assert forall y :: y in ids <==> y in {};
      assert ids == {};
    }
  }

  /** `existsByIsbn` holds exactly when `findById` finds, under some id, a book carrying the ISBN. */
  lemma ExistsByIsbnIffFound(store: CatalogStore, isbn: string)
    requires store.Valid()
    ensures store.ExistsByIsbn(isbn) <==> exists id :: store.FindById(id).Some? && store.FindById(id).value.isbn == isbn
  {
    if store.ExistsByIsbn(isbn) {
      var id :| id in store.table && store.table[id].isbn == isbn;
      assert store.FindById(id).Some?;
    }
  }

  /** `existsByIsbn` holds exactly when some id carries the ISBN; with unique ISBNs, exactly one does. */
  lemma ExistsByIsbnCountsIds(store: CatalogStore, isbn: string)
    requires store.Valid() && UniqueIsbns(store.table)
    ensures store.ExistsByIsbn(isbn) <==> |IdsWithIsbn(store.table, isbn)| == 1
  {
    UniqueIsbnsAtMostOne(store.table, isbn);
    if store.ExistsByIsbn(isbn) {
      var id :| id in store.table && store.table[id].isbn == isbn;
      assert id in IdsWithIsbn(store.table, isbn);
    } else {
      assert forall id :: id !in IdsWithIsbn(store.table, isbn);
    }
  }

  /** A call made on the store, recorded so that "called once" and "never called" can be stated. */
  datatype StoreCall = SaveCall(book: Book) | DeleteCall(book: Book)

  class CatalogStore {
    var table: Table
    var nextId: int
    /** Every `save` and `delete` made on this store, in order. */
    ghost var calls: seq<StoreCall>

    ghost predicate Valid()
      reads this
    {
      WellKeyed(table, nextId)
    }

    /** An empty store; generated ids start at 1. */
    constructor ()
      ensures Valid()
      ensures table == map[] && nextId == 1 && calls == []
      ensures forall isbn :: !ExistsByIsbn(isbn)
    {
      table := map[];
      nextId := 1;
      calls := [];
    }

    /** `findById`: the stored book with this id, if any. It reads the table and changes nothing. */
    function FindById(id: int): (r: Option<Book>)
      reads this
      requires Valid()
      ensures r.Some? <==> id in table
      ensures r.Some? ==> r.value == table[id] && r.value.id == Some(id)
    {
      if id in table then Some(table[id]) else None
    }

    /** `existsByIsbn`: whether a stored row carries `isbn`. It reads the table and changes nothing. */
    function ExistsByIsbn(isbn: string): (b: bool)
      reads this
      ensures b <==> IdsWithIsbn(table, isbn) != {}
    {
      IsbnTakenIffIds(table, isbn);
      exists id :: id in table && table[id].isbn == isbn
    }

    /**
     * `save`: replaces the row stored under the book's id, or inserts the book
     * under a fresh generated id; returns the stored record.
     */
    method Save(book: Book) returns (saved: Book)
      requires Valid()
      modifies this
      ensures Valid()
      ensures saved == book.(id := Some(KeyFor(old(table), old(nextId), book)))
      ensures table == old(table)[saved.id.value := saved]
      ensures nextId == if saved.id.value == old(nextId) then old(nextId) + 1 else old(nextId)
      ensures calls == old(calls) + [SaveCall(book)]
      ensures book.id.Some? && book.id.value in old(table) ==> saved == book
      ensures book.id.None? ==> saved.id.value !in old(table)
      ensures FindById(saved.id.value) == Some(saved)
      ensures ExistsByIsbn(book.isbn)
    {
      var key := KeyFor(table, nextId, book);
      saved := book.(id := Some(key));
      table := table[key := saved];
      if key == nextId {
        nextId := nextId + 1;
      }
      calls := calls + [SaveCall(book)];
      assert table[key].isbn == book.isbn;
    }

    /** `delete`: removes the row stored under the book's id; a book without an id, or with an id not stored, leaves the table as it is. */
    method Delete(book: Book)
      requires Valid()
      modifies this
      ensures Valid()
      ensures table == if book.id.Some? then old(table) - {book.id.value} else old(table)
      ensures nextId == old(nextId)
      ensures calls == old(calls) + [DeleteCall(book)]
      ensures book.id.Some? ==> FindById(book.id.value).None?
    {
      if book.id.Some? {
        table := table - {book.id.value};
      }
      calls := calls + [DeleteCall(book)];
    }
  }
}
