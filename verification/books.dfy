/**
 * The books table and the three handlers that change it: create_book
 * (POST /books/), update_book (PUT /books/{id}) and delete_book
 * (DELETE /books/{id}).
 *
 * The sqlite table is a map from row id to book. Each SQL statement the
 * handlers run is replaced by an outcome the caller supplies: it either
 * succeeds or raises with a message at a given stage, and the row id
 * sqlite assigns to an insert is a parameter too. Every error the handlers
 * catch becomes an HttpError carrying the status code and `str(err)`:
 * update_book raises it (a 400 response), while create_book and
 * delete_book put a 409 HttpError into the error page they render.
 */
module BookStore {
  import opened Options
  import PyInt

  /** A book's content fields, as the pydantic model declares them. */
  datatype Book = Book(published: int, author: string, title: string, firstSentence: string)

  /** `book.model_dump()` with the `id` key added. */
  datatype BookDict = BookDict(id: int, book: Book)

  /** An HTTPException: its status code and the `error` entry of its detail. */
  datatype HttpError = HttpError(statusCode: int, error: string)

  datatype Result<T> = Ok(value: T) | Err(err: HttpError)

  /**
   * Where a statement failed. sqlite3's `execute` prepares the statement
   * and, for INSERT, UPDATE and DELETE, opens the implicit transaction
   * before it binds the parameters; running the statement and the commit
   * come after the binding.
   */
  datatype Stage = BeforeBinding | AfterBinding

  /**
   * What one statement (with its commit) did. Whether its parameters can be
   * bound is not part of the outcome: the handlers decide that from the
   * values themselves.
   */
  datatype Storage = Done | Failed(stage: Stage, message: string)

  predicate FailsBeforeBinding(s: Storage) {
    s.Failed? && s.stage == BeforeBinding
  }

  const Conflict: int := 409
  const BadRequest: int := 400

  /** sqlite binds integers as signed 64-bit values. */
  const Int64Min: int := -0x8000_0000_0000_0000
  const Int64Max: int := 0x7FFF_FFFF_FFFF_FFFF

  predicate FitsInt64(n: int) {
    Int64Min <= n <= Int64Max
  }

  /** The OverflowError sqlite3 raises when it is asked to bind a wider int. */
  const OverflowMessage: string := "Python int too large to convert to SQLite INTEGER"

  /** The message update_book raises when no row has the id. */
  function NotFoundMessage(id: int): string {
    "Book with id: " + PyInt.IntToString(id) + " not found."
  }

  /**
   * The "not found" message names the id: between its fixed prefix and
   * suffix stands text that int() reads back as the id.
   */
  lemma {:induction false} NotFoundMessageNamesId(id: int)
    requires |PyInt.NatToString(if id < 0 then -id else id)| <= PyInt.MaxStrDigits
    ensures var r := NotFoundMessage(id);
            && |r| > 25
            && r[..14] == "Book with id: "
            && r[|r| - 11..] == " not found."
            && PyInt.ParseInt(r[14..|r| - 11]) == Some(id)
  {
    var prefix, digits, suffix := "Book with id: ", PyInt.IntToString(id), " not found.";
    assert |prefix| == 14 && |suffix| == 11 && |digits| > 0;
    var r := NotFoundMessage(id);
    assert r == prefix + digits + suffix;
    assert r[..14] == prefix && r[14..|r| - 11] == digits && r[|r| - 11..] == suffix;
    PyInt.ParseIntOfIntToString(id);
  }

  class BookTable {
    var rows: map<int, Book>

    /** sqlite assigns positive 64-bit row ids and stores 64-bit integers. */
    ghost predicate Valid()
      reads this
    {
      forall id :: id in rows ==> 0 < id <= Int64Max && FitsInt64(rows[id].published)
    }

    constructor ()
      ensures Valid() && rows == map[]
    {
      rows := map[];
    }

    /**
     * create_book: `published` is converted with int() before anything is
     * written. A failed conversion, a failed insert or a year sqlite cannot
     * bind is an error and leaves the table as it was; the insert's own
     * failure is reported first when it comes before the binding.
     * Otherwise the book is stored under `rowid`, the id sqlite assigned.
     */
    method CreateBook(published: string, author: string, title: string, firstSentence: string,
                      insert: Storage, rowid: int)
      returns (r: Result<BookDict>)
      requires Valid()
      requires insert.Done? ==> 0 < rowid <= Int64Max && rowid !in rows
      modifies this
      ensures Valid()
      ensures PyInt.ParseInt(published).None? ==>
                r == Err(HttpError(Conflict, PyInt.ValueErrorMessage(published))) && rows == old(rows)
      ensures PyInt.ParseInt(published).Some? && FailsBeforeBinding(insert) ==>
                r == Err(HttpError(Conflict, insert.message)) && rows == old(rows)
      ensures PyInt.ParseInt(published).Some? && !FailsBeforeBinding(insert)
              && !FitsInt64(PyInt.ParseInt(published).value) ==>
                r == Err(HttpError(Conflict, OverflowMessage)) && rows == old(rows)
      ensures PyInt.ParseInt(published).Some? && FitsInt64(PyInt.ParseInt(published).value)
              && insert.Failed? ==>
                r == Err(HttpError(Conflict, insert.message)) && rows == old(rows)
      ensures PyInt.ParseInt(published).Some? && FitsInt64(PyInt.ParseInt(published).value)
              && insert.Done? ==>
                var book := Book(PyInt.ParseInt(published).value, author, title, firstSentence);
                && r == Ok(BookDict(rowid, book))
                && rowid !in old(rows)
                && rows == old(rows)[rowid := book]
    {
      var year := PyInt.ParseInt(published);
      if year.None? {
        r := Err(HttpError(Conflict, PyInt.ValueErrorMessage(published)));
        return;
      }
      var book := Book(year.value, author, title, firstSentence);
      if FailsBeforeBinding(insert) {
        r := Err(HttpError(Conflict, insert.message));
        return;
      }
      if !FitsInt64(book.published) {
        r := Err(HttpError(Conflict, OverflowMessage));
        return;
      }
      match insert {
        case Failed(_, message) =>
          r := Err(HttpError(Conflict, message));
        case Done =>
          rows := rows[rowid := book];
          r := Ok(BookDict(rowid, book));
      }
    }

    /**
     * update_book: a SELECT first checks that the id exists; a missing id
     * is an error with the "not found" message. Then all four fields are
     * replaced and the book is returned with its id. Each statement reports
     * a failure before its binding first, then an integer sqlite cannot
     * bind, then a failure while running. Every error leaves the table as
     * it was.
     */
    method UpdateBook(id: int, book: Book, lookup: Storage, write: Storage)
      returns (r: Result<BookDict>)
      requires Valid()
      modifies this
      ensures Valid()
      ensures FailsBeforeBinding(lookup) ==>
                r == Err(HttpError(BadRequest, lookup.message)) && rows == old(rows)
      ensures !FailsBeforeBinding(lookup) && !FitsInt64(id) ==>
                r == Err(HttpError(BadRequest, OverflowMessage)) && rows == old(rows)
      ensures FitsInt64(id) && lookup.Failed? ==>
                r == Err(HttpError(BadRequest, lookup.message)) && rows == old(rows)
      ensures FitsInt64(id) && lookup.Done? && id !in old(rows) ==>
                r == Err(HttpError(BadRequest, NotFoundMessage(id))) && rows == old(rows)
      ensures lookup.Done? && id in old(rows) && FailsBeforeBinding(write) ==>
                r == Err(HttpError(BadRequest, write.message)) && rows == old(rows)
      ensures lookup.Done? && id in old(rows) && !FailsBeforeBinding(write)
              && !FitsInt64(book.published) ==>
                r == Err(HttpError(BadRequest, OverflowMessage)) && rows == old(rows)
      ensures lookup.Done? && id in old(rows) && FitsInt64(book.published) && write.Failed? ==>
                r == Err(HttpError(BadRequest, write.message)) && rows == old(rows)
      ensures lookup.Done? && id in old(rows) && FitsInt64(book.published) && write.Done? ==>
                r == Ok(BookDict(id, book)) && rows == old(rows)[id := book]
      ensures id <= 0 ==> r.Err? && rows == old(rows)
    {
      var bookDict := BookDict(id, book);
      if FailsBeforeBinding(lookup) {
        r := Err(HttpError(BadRequest, lookup.message));
        return;
      }
      if !FitsInt64(id) {
        r := Err(HttpError(BadRequest, OverflowMessage));
        return;
      }
      if lookup.Failed? {
        r := Err(HttpError(BadRequest, lookup.message));
        return;
      }
      if id !in rows {
        r := Err(HttpError(BadRequest, NotFoundMessage(id)));
        return;
      }
      if FailsBeforeBinding(write) {
        r := Err(HttpError(BadRequest, write.message));
        return;
      }
      if !FitsInt64(book.published) {
        r := Err(HttpError(BadRequest, OverflowMessage));
        return;
      }
      if write.Failed? {
        r := Err(HttpError(BadRequest, write.message));
        return;
      }
      rows := rows[id := book];
      r := Ok(bookDict);
    }

    /**
     * delete_book: the row is deleted without checking that it exists, so
     * deleting an absent id succeeds and changes nothing. A failed
     * statement or an id sqlite cannot bind is an error and leaves the
     * table as it was.
     */
    method DeleteBook(id: int, storage: Storage) returns (r: Result<()>)
      requires Valid()
      modifies this
      ensures Valid()
      ensures FailsBeforeBinding(storage) ==>
                r == Err(HttpError(Conflict, storage.message)) && rows == old(rows)
      ensures !FailsBeforeBinding(storage) && !FitsInt64(id) ==>
                r == Err(HttpError(Conflict, OverflowMessage)) && rows == old(rows)
      ensures FitsInt64(id) && storage.Failed? ==>
                r == Err(HttpError(Conflict, storage.message)) && rows == old(rows)
      ensures FitsInt64(id) && storage.Done? ==> r == Ok(()) && rows == old(rows) - {id}
      ensures id !in old(rows) ==> rows == old(rows)
      ensures id <= 0 ==> rows == old(rows)
    {
      if FailsBeforeBinding(storage) {
        r := Err(HttpError(Conflict, storage.message));
        return;
      }
      if !FitsInt64(id) {
        r := Err(HttpError(Conflict, OverflowMessage));
        return;
      }
      match storage {
        case Failed(_, message) =>
          r := Err(HttpError(Conflict, message));
        case Done =>
          rows := rows - {id};
          r := Ok(());
      }
    }
  }

  /**
   * The lifecycle of one record: a created book exists under its new id,
   * an update replaces it there, and deleting it gives back the table as
   * it was before the create.
   */
  method Lifecycle(table: BookTable, published: string, author: string, title: string,
                   firstSentence: string, year: int, rowid: int, revised: Book)
    requires table.Valid()
    requires 0 < rowid <= Int64Max && rowid !in table.rows
    requires PyInt.ParseInt(published) == Some(year) && FitsInt64(year)
    requires FitsInt64(revised.published)
    modifies table
    ensures table.Valid() && table.rows == old(table.rows)
  {
    ghost var before := table.rows;
    ghost var book := Book(year, author, title, firstSentence);
    CreateParsed(table, published, author, title, firstSentence, year, rowid);
    ReviseAndDelete(table, rowid, revised);
    assert before[rowid := book] - {rowid} == before;
  }

  /** A create whose year int() reads and sqlite can bind stores the book under the new row id. */
  method CreateParsed(table: BookTable, published: string, author: string, title: string,
                      firstSentence: string, year: int, rowid: int)
    requires table.Valid()
    requires 0 < rowid <= Int64Max && rowid !in table.rows
    requires PyInt.ParseInt(published) == Some(year) && FitsInt64(year)
    modifies table
    ensures table.Valid()
    ensures table.rows == old(table.rows)[rowid := Book(year, author, title, firstSentence)]
  {
    var created := table.CreateBook(published, author, title, firstSentence, Done, rowid);
  }

  /** An update of a stored book followed by its deletion removes its row and nothing else. */
  method ReviseAndDelete(table: BookTable, id: int, revised: Book)
    requires table.Valid()
    requires 0 < id <= Int64Max && id in table.rows
    requires FitsInt64(revised.published)
    modifies table
    ensures table.Valid() && table.rows == old(table.rows) - {id}
  {
    var updated := table.UpdateBook(id, revised, Done, Done);
    assert updated == Ok(BookDict(id, revised));
    var deleted := table.DeleteBook(id, Done);
  }
}
